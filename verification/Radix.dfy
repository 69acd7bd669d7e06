/** Big-endian positional numerals, the arithmetic under the ULID text form and the wire length prefixes;
    and ceiling division. */
module Radix {

  type byte = n: nat | n < 256

  function Pow(b: nat, n: nat): (p: nat)
    ensures b > 0 ==> p > 0
  {
    if n == 0 then 1 else
      var q := Pow(b, n - 1);
      assert b > 0 ==> b * q > 0;
      b * q
  }

  /** The number written by `ds`, most significant digit first. */
  function Value(ds: seq<nat>, b: nat): nat {
    if ds == [] then 0 else Value(ds[..|ds| - 1], b) * b + ds[|ds| - 1]
  }

  /** The last `len` digits of n. */
  function Digits(n: nat, len: nat, b: nat): (ds: seq<nat>)
    requires b > 0
    ensures |ds| == len && InBase(ds, b)
    decreases len, n
  {
    if len == 0 then [] else Digits(n / b, len - 1, b) + [n % b]
  }

  lemma ValueSnoc(q: seq<nat>, d: nat, b: nat)
    ensures Value(q + [d], b) == Value(q, b) * b + d
  {
    assert (q + [d])[..|q|] == q;
  }

  predicate InBase(ds: seq<nat>, b: nat) {
    forall i :: 0 <= i < |ds| ==> ds[i] < b
  }

  lemma DivMod(n: nat, b: nat)
    requires b > 0
    ensures n == n / b * b + n % b && n % b < b
  {
  }

  lemma MulLe(a: int, c: int, m: nat)
    requires a <= c
    ensures a * m <= c * m
  {
  }

  lemma {:induction false} ValueBound(ds: seq<nat>, b: nat)
    requires b > 0 && InBase(ds, b)
    ensures Value(ds, b) < Pow(b, |ds|)
  {
    if ds == [] {
    } else {
      var q := Value(ds[..|ds| - 1], b);
      ValueBound(ds[..|ds| - 1], b);
      MulLe(q + 1, Pow(b, |ds| - 1), b);
      assert (q + 1) * b == q * b + b;
    }
  }

  lemma {:induction false} ValueOfDigits(n: nat, len: nat, b: nat)
    requires b > 0 && n < Pow(b, len)
    ensures Value(Digits(n, len, b), b) == n
    decreases len
  {
    if len == 0 {
    } else {
      var q, d := SplitLastDigit(n, len, b);
      ValueOfDigits(q, len - 1, b);
      ValueSnoc(Digits(q, len - 1, b), d, b);
    }
  }

  lemma DivideBound(n: nat, b: nat, p: nat)
    requires b > 0 && n < b * p
    ensures n / b < p
  {
    assert n == n / b * b + n % b;
    if n / b >= p {
      MulLe(p, n / b, b);
    }
  }

  lemma SplitLastDigit(n: nat, len: nat, b: nat) returns (q: nat, d: nat)
    requires b > 0 && len > 0 && n < Pow(b, len)
    ensures Digits(n, len, b) == Digits(q, len - 1, b) + [d]
    ensures n == q * b + d && q < Pow(b, len - 1)
  {
    q, d := n / b, n % b;
    DivMod(n, b);
    DivideBound(n, b, Pow(b, len - 1));
  }

  lemma QuotientRemainder(q: nat, d: nat, b: nat)
    requires d < b
    ensures (q * b + d) / b == q && (q * b + d) % b == d
  {
    var n := q * b + d;
    var r := n / b;
    assert n == r * b + n % b;
    if r < q {
      MulLe(r + 1, q, b);
    } else if r > q {
      MulLe(q + 1, r, b);
    }
  }

  lemma {:induction false} DigitsOfValue(ds: seq<nat>, b: nat)
    requires b > 0 && InBase(ds, b)
    ensures Digits(Value(ds, b), |ds|, b) == ds
  {
    if ds == [] {
    } else {
      var q, d := ds[..|ds| - 1], ds[|ds| - 1];
      DigitsOfValue(q, b);
      QuotientRemainder(Value(q, b), d, b);
      assert ds == q + [d];
    }
  }

  lemma Distribute(v: nat, p: nat, w: nat, b: nat)
    ensures (v * p + w) * b == v * (b * p) + w * b
  {
    assert v * p * b == v * (b * p);
  }

  lemma {:induction false} ValueConcat(xs: seq<nat>, ys: seq<nat>, b: nat)
    ensures Value(xs + ys, b) == Value(xs, b) * Pow(b, |ys|) + Value(ys, b)
  {
    if ys == [] {
      assert xs + ys == xs;
    } else {
      var y, l := ys[..|ys| - 1], ys[|ys| - 1];
      assert (xs + ys)[..|xs + ys| - 1] == xs + y;
      ValueConcat(xs, y, b);
      Distribute(Value(xs, b), Pow(b, |y|), Value(y, b), b);
    }
  }

  /** The leading digit is the one that bounds a numeral. */
  lemma LeadingDigit(ds: seq<nat>, b: nat)
    requires b > 0 && ds != [] && InBase(ds, b)
    ensures ds[0] * Pow(b, |ds| - 1) <= Value(ds, b) < (ds[0] + 1) * Pow(b, |ds| - 1)
  {
    assert ds == [ds[0]] + ds[1..];
    ValueConcat([ds[0]], ds[1..], b);
    assert Value([ds[0]], b) == ds[0] by {
      assert [ds[0]][..0] == [];
    }
    ValueBound(ds[1..], b);
    Distribute(1, 1, ds[0], Pow(b, |ds| - 1));
  }

  /** A numeral too small for its leading digits is written by the rest. */
  lemma DropLeading(ds: seq<nat>, k: nat, b: nat)
    requires b > 0 && k <= |ds| && Value(ds, b) < Pow(b, |ds| - k)
    ensures Value(ds[k..], b) == Value(ds, b)
  {
    var high, low := ds[..k], ds[k..];
    assert ds == high + low;
    ValueConcat(high, low, b);
    NoHighPart(Value(high, b), Pow(b, |low|), Value(low, b));
  }

  lemma NoHighPart(high: nat, p: nat, low: nat)
    requires high * p + low < p
    ensures high == 0
  {
    if high > 0 {
      MulLe(1, high, p);
    }
  }

  lemma PeelDigit(n: nat, len: nat, b: nat)
    requires b > 0
    ensures Digits(n, len + 1, b) == Digits(n / b, len, b) + [n % b]
  {
  }

  lemma MulSwap(b: nat, p: nat, q: nat)
    ensures b * (p * q) == p * (b * q)
  {
  }

  lemma {:induction false} PowAdd(b: nat, m: nat, n: nat)
    ensures Pow(b, m + n) == Pow(b, m) * Pow(b, n)
  {
    if n == 0 {
    } else {
      PowAdd(b, m, n - 1);
      MulSwap(b, Pow(b, m), Pow(b, n - 1));
    }
  }

  // ---- Lexicographic order ----

  ghost predicate LexLessAt(xs: seq<nat>, ys: seq<nat>, i: nat) {
    i < |xs| && i < |ys| && xs[i] < ys[i] && forall j :: 0 <= j < i ==> xs[j] == ys[j]
  }

  lemma LeadingDigitsDecide(u: nat, v: nat, p: nat, x: nat, y: nat)
    requires u < v && x < p
    ensures u * p + x < v * p + y
  {
    MulLe(u + 1, v, p);
    assert (u + 1) * p == u * p + p;
  }

  /** The larger high part gives the larger number, whatever low digits of one length follow. */
  lemma HighPartDecides(x: seq<nat>, y: seq<nat>, r: seq<nat>, s: seq<nat>, b: nat)
    requires b > 0 && |r| == |s| && InBase(r, b) && Value(x, b) < Value(y, b)
    ensures Value(x + r, b) < Value(y + s, b)
  {
    ValueConcat(x, r, b);
    ValueConcat(y, s, b);
    ValueBound(r, b);
    LeadingDigitsDecide(Value(x, b), Value(y, b), Pow(b, |r|), Value(r, b), Value(s, b));
  }

  /** Numerals of one length compare as the numbers they write. */
  lemma ValueMonotoneAt(xs: seq<nat>, ys: seq<nat>, b: nat, i: nat)
    requires b > 0 && |xs| == |ys| && InBase(xs, b) && InBase(ys, b) && LexLessAt(xs, ys, i)
    ensures Value(xs, b) < Value(ys, b)
  {
    var u, x, v, y := xs[..i + 1], xs[i + 1..], ys[..i + 1], ys[i + 1..];
    assert xs == u + x && ys == v + y;
    ValueConcat(u, x, b);
    ValueConcat(v, y, b);
    ValueBound(x, b);
    assert u[..i] == v[..i];
    assert Value(u, b) == Value(u[..i], b) * b + xs[i] && Value(v, b) == Value(u[..i], b) * b + ys[i];
    LeadingDigitsDecide(Value(u, b), Value(v, b), Pow(b, |x|), Value(x, b), Value(y, b));
  }

  ghost predicate LexLess(xs: seq<nat>, ys: seq<nat>) {
    exists i :: LexLessAt(xs, ys, i)
  }

  lemma FirstDifference(xs: seq<nat>, ys: seq<nat>)
    requires |xs| == |ys| && xs != ys
    ensures LexLess(xs, ys) || LexLess(ys, xs)
  {
    var i := 0;
    while i < |xs| && xs[i] == ys[i]
      invariant i <= |xs| && forall j :: 0 <= j < i ==> xs[j] == ys[j]
    {
      i := i + 1;
    }
    assert LexLessAt(xs, ys, i) || LexLessAt(ys, xs, i);
  }

  lemma LexOrderIsValueOrder(xs: seq<nat>, ys: seq<nat>, b: nat)
    requires b > 0 && |xs| == |ys| && InBase(xs, b) && InBase(ys, b)
    ensures LexLess(xs, ys) <==> Value(xs, b) < Value(ys, b)
  {
    if i :| LexLessAt(xs, ys, i) {
      ValueMonotoneAt(xs, ys, b, i);
    } else if xs != ys {
      FirstDifference(xs, ys);
      var i :| LexLessAt(ys, xs, i);
      ValueMonotoneAt(ys, xs, b, i);
    }
  }

  // ---- Ceiling division ----

  function CeilDiv(n: nat, m: nat): (count: nat)
    requires m > 0
    ensures (count as int - 1) * m < n <= count * m || n == count == 0
  {
    if n == 0 then 0 else (n - 1) / m + 1
  }

  lemma CeilStep(n: nat, m: nat)
    requires 0 < m < n
    ensures CeilDiv(n, m) == 1 + CeilDiv(n - m, m)
  {
    var q, q' := CeilDiv(n, m), CeilDiv(n - m, m);
    assert (q' + 1) * m == q' * m + m && (q' - 1) * m == q' * m - m;
    if q < q' + 1 {
      MulLe(q, q', m);
    } else if q > q' + 1 {
      MulLe(q' + 1, q - 1, m);
    }
  }

  lemma CeilOfOne(n: nat, m: nat)
    requires 0 < n <= m
    ensures CeilDiv(n, m) == 1
  {
    if CeilDiv(n, m) > 1 {
      MulLe(1, CeilDiv(n, m) - 1, m);
    }
  }
}
