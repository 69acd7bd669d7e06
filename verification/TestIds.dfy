/** The scanner for plan test ids `T-<capitals>-<digits>` (xtask/src/verbs.rs). Text is ASCII. */
module TestIds {
  import opened RustLexer
  import opened Wrappers

  predicate IsUpper(c: char) {
    'A' <= c <= 'Z'
  }

  predicate IsDigit(c: char) {
    '0' <= c <= '9'
  }

  // ---- What an id is, without reference to the scan ----

  /** A letter, a digit or an underscore. */
  predicate ContinuesWord(c: char) {
    c == '_' || '0' <= c <= '9' || 'A' <= c <= 'Z' || 'a' <= c <= 'z'
  }

  /** s[i..k] is a test id whose second hyphen is at j: a T, a hyphen, capitals, a hyphen and digits, with no letter,
      digit or underscore after them. */
  ghost predicate IdAt(s: string, i: nat, j: nat, k: nat) {
    && At(s, i, 'T') && At(s, i + 1, '-') && i + 2 < j && At(s, j, '-') && j + 1 < k <= |s|
    && (forall m :: i + 2 <= m < j ==> 'A' <= s[m] <= 'Z')
    && (forall m :: j + 1 <= m < k ==> '0' <= s[m] <= '9')
    && (k < |s| ==> !ContinuesWord(s[k]))
  }

  ghost predicate IdSpan(s: string, i: nat, k: nat) {
    exists j: nat :: IdAt(s, i, j, k)
  }

  // ---- The scan ----

  /** End of the id starting at i, if there is one. */
  function IdEnd(s: string, i: nat): (r: Option<nat>)
    ensures r.Some? ==> i < r.value <= |s|
  {
    if !(At(s, i, 'T') && At(s, i + 1, '-')) then None
    else
      var j := Span(s, i + 2, IsUpper);
      if j == i + 2 || !At(s, j, '-') then None
      else
        var k := Span(s, j + 1, IsDigit);
        if k > j + 1 && (k == |s| || !IsWord(s[k])) then Some(k) else None
  }

  /** Every id in the text from i on, in order of position, repeats included. */
  function AllIds(s: string, i: nat): seq<string>
    decreases |s| - i
  {
    if i >= |s| then []
    else (match IdEnd(s, i) case Some(k) => [s[i..k]] case None => []) + AllIds(s, i + 1)
  }

  /** Keeping the first appearance of each. */
  function Dedup(xs: seq<string>): seq<string> {
    if xs == [] then []
    else
      var d := Dedup(xs[..|xs| - 1]);
      if xs[|xs| - 1] in d then d else d + [xs[|xs| - 1]]
  }

  method FindIdEnd(s: string, i: nat) returns (r: Option<nat>)
    ensures r == IdEnd(s, i)
  {
    if !(At(s, i, 'T') && At(s, i + 1, '-')) {
      return None;
    }
    var j := SkipWhile(s, i + 2, IsUpper);
    if j > i + 2 && At(s, j, '-') {
      var k := SkipWhile(s, j + 1, IsDigit);
      if k > j + 1 && (k == |s| || !IsWord(s[k])) {
        return Some(k);
      }
    }
    return None;
  }

  /** Jumping past each id found, the scan still reports every id in the text, once, in the order of
      their first appearances. */
  method FindTestIds(text: string) returns (out: seq<string>)
    ensures out == Dedup(AllIds(text, 0))
  {
    out := [];
    var i := 0;
    ghost var seen: seq<string> := [];
    while i + 2 < |text|
      invariant i <= |text|
      invariant seen + AllIds(text, i) == AllIds(text, 0)
      invariant out == Dedup(seen)
    {
      var end := FindIdEnd(text, i);
      match end {
        case Some(k) =>
          var id := text[i..k];
          DedupOneMore(seen, id);
          JumpLosesNothing(text, i, k, seen);
          if id !in out {
            out := out + [id];
          }
          seen := seen + [id];
          i := k;
        case None =>
          assert [] + AllIds(text, i + 1) == AllIds(text, i + 1);
          i := i + 1;
      }
    }
    NoIdAtEnd(text, i);
    assert seen + [] == seen;
  }

  lemma DedupOneMore(seen: seq<string>, id: string)
    ensures Dedup(seen + [id]) == if id in Dedup(seen) then Dedup(seen) else Dedup(seen) + [id]
  {
    assert (seen + [id])[..|seen|] == seen;
  }

  lemma JumpLosesNothing(s: string, i: nat, k: nat, seen: seq<string>)
    requires i < |s| && IdEnd(s, i) == Some(k)
    ensures seen + AllIds(s, i) == (seen + [s[i..k]]) + AllIds(s, k)
  {
    NoIdInside(s, i, i + 1, k);
    assert seen + ([s[i..k]] + AllIds(s, k)) == (seen + [s[i..k]]) + AllIds(s, k);
  }

  // ---- Main results ----

  /** The scan recognises exactly the ids. */
  lemma IdEndExact(s: string, i: nat, k: nat)
    ensures IdEnd(s, i) == Some(k) <==> IdSpan(s, i, k)
  {
    if IdEnd(s, i) == Some(k) {
      var j := Span(s, i + 2, IsUpper);
      SpanExact(s, i + 2, j, IsUpper);
      SpanExact(s, j + 1, k, IsDigit);
      assert IdAt(s, i, j, k);
    }
    if j: nat :| IdAt(s, i, j, k) {
      SpanExact(s, i + 2, j, IsUpper);
      SpanExact(s, j + 1, k, IsDigit);
    }
  }

  /** No id starts strictly inside another: the capitals of an id end in a T only where digits follow. */
  lemma IdsDoNotOverlap(s: string, i: nat, i': nat, k: nat)
    requires IdEnd(s, i) == Some(k) && i < i' < k
    ensures IdEnd(s, i') == None
  {
    var j := Span(s, i + 2, IsUpper);
    SpanExact(s, i + 2, j, IsUpper);
    SpanExact(s, j + 1, k, IsDigit);
    if At(s, i', 'T') && At(s, i' + 1, '-') {
      assert i' + 1 == j;
      assert Span(s, j + 1, IsUpper) == j + 1;
    }
  }

  lemma {:induction false} NoIdInside(s: string, i: nat, i': nat, k: nat)
    requires IdEnd(s, i) == Some(k) && i < i' <= k
    ensures AllIds(s, i') == AllIds(s, k)
    decreases k - i'
  {
    if i' < k {
      IdsDoNotOverlap(s, i, i', k);
      NoIdInside(s, i, i' + 1, k);
    }
  }

  lemma {:induction false} NoIdAtEnd(s: string, i: nat)
    requires i + 2 >= |s|
    ensures AllIds(s, i) == []
    decreases |s| - i
  {
    if i < |s| {
      NoIdAtEnd(s, i + 1);
    }
  }

  /** A text is listed among the ids exactly if it stands somewhere as one. */
  lemma {:induction false} AllIdsExact(s: string, i: nat, x: string)
    ensures x in AllIds(s, i) <==> exists m, k :: i <= m < k <= |s| && IdSpan(s, m, k) && s[m..k] == x
    decreases |s| - i
  {
    if i < |s| {
      AllIdsExact(s, i + 1, x);
      if IdEnd(s, i).Some? {
        IdEndExact(s, i, IdEnd(s, i).value);
      }
      forall k: nat | i < k <= |s| && IdSpan(s, i, k) && s[i..k] == x ensures x in AllIds(s, i) {
        IdEndExact(s, i, k);
      }
    }
  }

  /** Deduplication keeps the members, has no repeats, and orders them by first appearance. */
  lemma {:induction false} DedupExact(xs: seq<string>)
    ensures forall x :: x in Dedup(xs) <==> x in xs
    ensures forall a, b :: 0 <= a < b < |Dedup(xs)| ==> Dedup(xs)[a] != Dedup(xs)[b]
    ensures forall a, b, n :: 0 <= a < b < |Dedup(xs)| && 0 <= n < |xs| && xs[n] == Dedup(xs)[b] ==> Dedup(xs)[a] in xs[..n]
  {
    if xs == [] {
    } else {
      var init, last := xs[..|xs| - 1], xs[|xs| - 1];
      var d := Dedup(init);
      DedupExact(init);
      assert xs == init + [last];
      forall a, b, n | 0 <= a < b < |Dedup(xs)| && 0 <= n < |xs| && xs[n] == Dedup(xs)[b]
        ensures Dedup(xs)[a] in xs[..n]
      {
        assert a < |d| && Dedup(xs)[a] == d[a];
        if n < |init| {
          assert xs[..n] == init[..n] && init[n] == xs[n];
        } else {
          assert xs[..n] == init;
        }
      }
    }
  }
}
