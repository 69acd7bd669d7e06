/** Small notions shared by several models. */
module Basics {

  // Identifiers are UUIDs, compared for equality only, so any value type with equality will do.
  type EntityId = nat
  type FrontendId = nat
  type ChannelId = nat
  type SessionHandle = nat

  /** One connection channel of one frontend. */
  type Key = (FrontendId, ChannelId)

  function Min(a: nat, b: nat): nat {
    if a < b then a else b
  }

  ghost predicate Distinct<T>(xs: seq<T>) {
    forall i, j :: 0 <= i < j < |xs| ==> xs[i] != xs[j]
  }

  lemma Assoc<T>(a: seq<T>, b: seq<T>, c: seq<T>)
    ensures a + b + c == a + (b + c)
  {
  }

  // ---- The order of strings ----

  predicate NameLe(a: string, b: string) {
    a == [] || (b != [] && (a[0] < b[0] || (a[0] == b[0] && NameLe(a[1..], b[1..]))))
  }

  lemma {:induction false} NameLeTotal(a: string, b: string)
    ensures NameLe(a, b) || NameLe(b, a)
    ensures NameLe(a, b) && NameLe(b, a) ==> a == b
    decreases |a|
  {
    if a != [] && b != [] {
      NameLeTotal(a[1..], b[1..]);
      if a[0] == b[0] && a[1..] == b[1..] {
        assert a == [a[0]] + a[1..] && b == [b[0]] + b[1..];
      }
    }
  }

  /** The names agree before i, and a has the smaller character there. */
  predicate SmallerAt(a: string, b: string, i: nat) {
    i < |a| && i < |b| && a[i] < b[i] && forall j :: 0 <= j < i ==> a[j] == b[j]
  }

  lemma {:induction false} NameLeDiffers(a: string, b: string)
    requires NameLe(a, b)
    ensures a <= b || exists i: nat :: SmallerAt(a, b, i)
    decreases |a|
  {
    if a != [] {
      if a[0] < b[0] {
        assert SmallerAt(a, b, 0);
      } else {
        NameLeDiffers(a[1..], b[1..]);
        if i: nat :| SmallerAt(a[1..], b[1..], i) {
          forall j | 0 <= j < i + 1 ensures a[j] == b[j] {
            if j > 0 {
              assert a[1..][j - 1] == b[1..][j - 1];
            }
          }
          assert SmallerAt(a, b, i + 1);
        } else {
          assert a == [a[0]] + a[1..] && b == [b[0]] + b[1..];
        }
      }
    }
  }

  lemma {:induction false} PrefixIsLe(a: string, b: string)
    requires a <= b
    ensures NameLe(a, b)
    decreases |a|
  {
    if a != [] {
      PrefixIsLe(a[1..], b[1..]);
    }
  }

  lemma {:induction false} SmallerIsLe(a: string, b: string, i: nat)
    requires SmallerAt(a, b, i)
    ensures NameLe(a, b)
    decreases i
  {
    if i > 0 {
      SmallerIsLe(a[1..], b[1..], i - 1);
    }
  }

  /** It is the lexicographic order: a prefix comes first, and otherwise the first difference decides. */
  lemma NameLeIff(a: string, b: string)
    ensures NameLe(a, b) <==> a <= b || exists i: nat :: SmallerAt(a, b, i)
  {
    if NameLe(a, b) {
      NameLeDiffers(a, b);
    }
    if a <= b {
      PrefixIsLe(a, b);
    }
    if i: nat :| SmallerAt(a, b, i) {
      SmallerIsLe(a, b, i);
    }
  }

  lemma {:induction false} NameLeTransitive(a: string, b: string, c: string)
    requires NameLe(a, b) && NameLe(b, c)
    ensures NameLe(a, c)
    decreases |a|
  {
    if a != [] && a[0] == b[0] && b[0] == c[0] {
      NameLeTransitive(a[1..], b[1..], c[1..]);
    }
  }
}
