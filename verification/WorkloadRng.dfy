/** The xorshift64* generator and the workload op stream drawn from it (src/bench/mod.rs). A word is its
    64 bits, most significant first, so that shifts and exclusive-or are what they do to bits. */
module WorkloadRng {
  import opened Radix

  const WORD_LIMIT: nat := 0x1_0000_0000_0000_0000
  const ZERO_SEED_STATE: nat := 0x9E3779B97F4A7C15
  const MULTIPLIER: nat := 0x2545F4914F6CDD1D
  /** The inverse of the multiplier modulo 2^64: the product of the two is QUOTIENT * 2^64 + 1. */
  const MULTIPLIER_INVERSE: nat := 0x59071D96D81ECD35
  const QUOTIENT: nat := 0xCF65B3F17BF4A6B

  type Word = w: seq<bool> | |w| == 64 witness seq(64, i => false)

  type U64 = n: nat | n < WORD_LIMIT

  function BitDigits(w: Word): seq<nat> {
    seq(64, i requires 0 <= i < 64 => if w[i] then 1 else 0)
  }

  function ToNat(w: Word): (n: U64)
  {
    TwoTo64();
    ValueBound(BitDigits(w), 2);
    Value(BitDigits(w), 2)
  }

  function WordOf(n: U64): Word {
    seq(64, i requires 0 <= i < 64 => Digits(n, 64, 2)[i] == 1)
  }

  lemma TwoTo64()
    ensures Pow(2, 64) == WORD_LIMIT
  {
    assert Pow(2, 8) == 0x100;
    PowAdd(2, 8, 8);
    PowAdd(2, 16, 16);
    PowAdd(2, 32, 32);
  }

  lemma WordBits(n: U64)
    ensures BitDigits(WordOf(n)) == Digits(n, 64, 2)
  {
  }

  lemma SameBits(v: Word, w: Word)
    requires BitDigits(v) == BitDigits(w)
    ensures v == w
  {
    forall i | 0 <= i < 64 ensures v[i] == w[i] {
      assert BitDigits(v)[i] == BitDigits(w)[i];
    }
  }

  lemma NumberOfWord(n: U64)
    ensures ToNat(WordOf(n)) == n
  {
    TwoTo64();
    WordBits(n);
    ValueOfDigits(n, 64, 2);
  }

  /** Words and 64-bit numbers are the same thing. */
  lemma WordNumberBijection(n: U64, w: Word)
    ensures ToNat(WordOf(n)) == n && WordOf(ToNat(w)) == w
  {
    NumberOfWord(n);
    WordBits(ToNat(w));
    DigitsOfValue(BitDigits(w), 2);
    SameBits(WordOf(ToNat(w)), w);
  }

  // ---- The step ----

  /** x ^ (x >> k) */
  function XorShiftRight(w: Word, k: nat): Word {
    seq(64, i requires 0 <= i < 64 => w[i] != (i >= k && w[i - k]))
  }

  /** x ^ (x << k) */
  function XorShiftLeft(w: Word, k: nat): Word {
    seq(64, i requires 0 <= i < 64 => w[i] != (i + k < 64 && w[i + k]))
  }

  function NextState(w: Word): Word {
    XorShiftRight(XorShiftLeft(XorShiftRight(w, 12), 25), 27)
  }

  function Output(w: Word): U64 {
    ToNat(w) * MULTIPLIER % WORD_LIMIT
  }

  function InitialState(seed: U64): Word {
    WordOf(if seed == 0 then ZERO_SEED_STATE else seed)
  }

  function Iterate<T>(f: T -> T, x: T, n: nat): T {
    if n == 0 then x else f(Iterate(f, x, n - 1))
  }

  /** State after n draws. */
  function StateAfter(w: Word, n: nat): Word {
    Iterate(NextState, w, n)
  }

  /** The n-th output, counting from 1. */
  function Draw(w: Word, n: nat): U64 {
    Output(StateAfter(w, n))
  }

  // ---- What the step does to bits ----

  function Xor(v: Word, w: Word): Word {
    seq(64, i requires 0 <= i < 64 => v[i] != w[i])
  }

  lemma ShiftsLinear(v: Word, w: Word, k: nat)
    ensures XorShiftRight(Xor(v, w), k) == Xor(XorShiftRight(v, k), XorShiftRight(w, k))
    ensures XorShiftLeft(Xor(v, w), k) == Xor(XorShiftLeft(v, k), XorShiftLeft(w, k))
  {
  }

  /** The step is linear over exclusive-or, so two states that differ in some bits stay apart by what those bits alone would become. */
  lemma StepLinear(v: Word, w: Word)
    ensures NextState(Xor(v, w)) == Xor(NextState(v), NextState(w))
  {
    ShiftsLinear(v, w, 12);
    ShiftsLinear(XorShiftRight(v, 12), XorShiftRight(w, 12), 25);
    ShiftsLinear(XorShiftLeft(XorShiftRight(v, 12), 25), XorShiftLeft(XorShiftRight(w, 12), 25), 27);
  }

  // ---- Each piece of the step is injective ----

  lemma {:induction false} ShiftRightDetermines(x: Word, y: Word, k: nat, i: nat)
    requires 0 < k && i < 64 && XorShiftRight(x, k) == XorShiftRight(y, k)
    ensures x[i] == y[i]
    decreases i
  {
    assert XorShiftRight(x, k)[i] == XorShiftRight(y, k)[i];
    if i >= k {
      ShiftRightDetermines(x, y, k, i - k);
    }
  }

  lemma {:induction false} ShiftLeftDetermines(x: Word, y: Word, k: nat, i: nat)
    requires 0 < k && i < 64 && XorShiftLeft(x, k) == XorShiftLeft(y, k)
    ensures x[i] == y[i]
    decreases 64 - i
  {
    assert XorShiftLeft(x, k)[i] == XorShiftLeft(y, k)[i];
    if i + k < 64 {
      ShiftLeftDetermines(x, y, k, i + k);
    }
  }

  lemma XorShiftsInjective(x: Word, y: Word, k: nat)
    requires 0 < k
    ensures XorShiftRight(x, k) == XorShiftRight(y, k) ==> x == y
    ensures XorShiftLeft(x, k) == XorShiftLeft(y, k) ==> x == y
  {
    if XorShiftRight(x, k) == XorShiftRight(y, k) {
      forall i | 0 <= i < 64 ensures x[i] == y[i] { ShiftRightDetermines(x, y, k, i); }
    }
    if XorShiftLeft(x, k) == XorShiftLeft(y, k) {
      forall i | 0 <= i < 64 ensures x[i] == y[i] { ShiftLeftDetermines(x, y, k, i); }
    }
  }

  lemma NextStateInjective(x: Word, y: Word)
    ensures NextState(x) == NextState(y) ==> x == y
  {
    var x1, y1 := XorShiftRight(x, 12), XorShiftRight(y, 12);
    XorShiftsInjective(x, y, 12);
    XorShiftsInjective(x1, y1, 25);
    XorShiftsInjective(XorShiftLeft(x1, 25), XorShiftLeft(y1, 25), 27);
  }

  lemma MultipleBelow(d: int, t: int)
    requires d == t * WORD_LIMIT && -(WORD_LIMIT as int) < d < WORD_LIMIT
    ensures d == 0
  {
  }

  /** Multiplying by the odd constant loses nothing modulo 2^64. */
  lemma MultiplierInjective(a: U64, b: U64)
    requires a * MULTIPLIER % WORD_LIMIT == b * MULTIPLIER % WORD_LIMIT
    ensures a == b
  {
    var d := a as int - b;
    var t: int := a * MULTIPLIER / WORD_LIMIT - b * MULTIPLIER / WORD_LIMIT;
    assert d * MULTIPLIER == t * WORD_LIMIT;
    assert d * (MULTIPLIER * MULTIPLIER_INVERSE) == t * MULTIPLIER_INVERSE * WORD_LIMIT;
    assert MULTIPLIER * MULTIPLIER_INVERSE == QUOTIENT * WORD_LIMIT + 1;
    assert d == (t * MULTIPLIER_INVERSE - d * QUOTIENT) * WORD_LIMIT;
    MultipleBelow(d, t * MULTIPLIER_INVERSE - d * QUOTIENT);
  }

  // ---- What the shifts do to numbers ----

  function ShiftedRight(w: Word, k: nat): Word {
    seq(64, i requires 0 <= i < 64 => i >= k && w[i - k])
  }

  function ShiftedLeft(w: Word, k: nat): Word {
    seq(64, i requires 0 <= i < 64 => i + k < 64 && w[i + k])
  }

  function Zeros(n: nat): seq<nat> {
    seq(n, i => 0)
  }

  lemma {:induction false} ZeroDigits(n: nat)
    ensures Value(Zeros(n), 2) == 0
  {
    if n == 0 {
    } else {
      ZeroDigits(n - 1);
      assert Zeros(n)[..n - 1] == Zeros(n - 1);
    }
  }

  lemma ZerosAround(ds: seq<nat>, k: nat)
    ensures Value(Zeros(k) + ds, 2) == Value(ds, 2) && Value(ds + Zeros(k), 2) == Value(ds, 2) * Pow(2, k)
  {
    ZeroDigits(k);
    ValueConcat(Zeros(k), ds, 2);
    ValueConcat(ds, Zeros(k), 2);
  }

  lemma HighAndLow(ds: seq<nat>, n: nat)
    requires n <= |ds| && InBase(ds, 2)
    ensures Value(ds, 2) == Value(ds[..n], 2) * Pow(2, |ds| - n) + Value(ds[n..], 2) && Value(ds[n..], 2) < Pow(2, |ds| - n)
  {
    assert ds == ds[..n] + ds[n..];
    ValueConcat(ds[..n], ds[n..], 2);
    ValueBound(ds[n..], 2);
  }

  lemma ShiftRightDivides(w: Word, k: nat)
    requires k <= 64
    ensures ToNat(ShiftedRight(w, k)) == ToNat(w) / Pow(2, k)
  {
    var ds := BitDigits(w);
    assert BitDigits(ShiftedRight(w, k)) == Zeros(k) + ds[..64 - k];
    ZerosAround(ds[..64 - k], k);
    HighAndLow(ds, 64 - k);
    QuotientRemainder(Value(ds[..64 - k], 2), Value(ds[64 - k..], 2), Pow(2, k));
  }

  lemma Regroup(high: nat, a: nat, low: nat, b: nat)
    ensures (high * a + low) * b == high * (a * b) + low * b
  {
  }

  lemma ScaledBelow(low: nat, a: nat, b: nat)
    requires low < a && b > 0
    ensures low * b < a * b
  {
  }

  lemma HighPartFalls(high: nat, low: nat, a: nat, b: nat)
    requires low < a && b > 0 && a * b == WORD_LIMIT
    ensures (high * a + low) * b % WORD_LIMIT == low * b
  {
    Regroup(high, a, low, b);
    ScaledBelow(low, a, b);
    QuotientRemainder(high, low * b, WORD_LIMIT);
  }

  lemma PowersTogether(k: nat)
    requires k <= 64
    ensures Pow(2, 64 - k) * Pow(2, k) == WORD_LIMIT
  {
    PowAdd(2, 64 - k, k);
    TwoTo64();
  }

  lemma ShiftLeftMultiplies(w: Word, k: nat)
    requires k <= 64
    ensures ToNat(ShiftedLeft(w, k)) == ToNat(w) * Pow(2, k) % WORD_LIMIT
  {
    var ds := BitDigits(w);
    var high, low := Value(ds[..k], 2), Value(ds[k..], 2);
    assert BitDigits(ShiftedLeft(w, k)) == ds[k..] + Zeros(k);
    ZerosAround(ds[k..], k);
    HighAndLow(ds, k);
    PowersTogether(k);
    HighPartFalls(high, low, Pow(2, 64 - k), Pow(2, k));
  }

  /** The step in the terms of machine words: exclusive-or with the quotient by 2^12, then with the product by 2^25 modulo
      2^64, then with the quotient by 2^27. */
  lemma StepShifts(w: Word)
    ensures
      var a := Xor(w, ShiftedRight(w, 12));
      var b := Xor(a, ShiftedLeft(a, 25));
      && NextState(w) == Xor(b, ShiftedRight(b, 27))
      && ToNat(ShiftedRight(w, 12)) == ToNat(w) / Pow(2, 12)
      && ToNat(ShiftedLeft(a, 25)) == ToNat(a) * Pow(2, 25) % WORD_LIMIT
      && ToNat(ShiftedRight(b, 27)) == ToNat(b) / Pow(2, 27)
  {
    var a := Xor(w, ShiftedRight(w, 12));
    var b := Xor(a, ShiftedLeft(a, 25));
    assert a == XorShiftRight(w, 12) && b == XorShiftLeft(a, 25) && Xor(b, ShiftedRight(b, 27)) == XorShiftRight(b, 27);
    ShiftRightDivides(w, 12);
    ShiftLeftMultiplies(a, 25);
    ShiftRightDivides(b, 27);
  }

  // ---- Streams ----

  ghost predicate Injective<T(!new)>(f: T -> T) {
    forall a, b :: f(a) == f(b) ==> a == b
  }

  lemma {:induction false} IterateInjective<T(!new)>(f: T -> T, x: T, y: T, n: nat)
    requires Injective(f)
    ensures Iterate(f, x, n) == Iterate(f, y, n) <==> x == y
    decreases n
  {
    if n == 0 {
    } else {
      IterateInjective(f, x, y, n - 1);
    }
  }

  lemma {:induction false} FixedPointUnreached<T(!new)>(f: T -> T, x: T, fixed: T, n: nat)
    requires Injective(f) && f(fixed) == fixed && x != fixed
    ensures Iterate(f, x, n) != fixed
    decreases n
  {
    if n == 0 {
    } else {
      FixedPointUnreached(f, x, fixed, n - 1);
    }
  }

  lemma StepIsInjective()
    ensures Injective(NextState)
  {
    forall a: Word, b: Word ensures NextState(a) == NextState(b) ==> a == b {
      NextStateInjective(a, b);
    }
  }

  function ZeroWord(): Word {
    seq(64, i => false)
  }

  lemma ZeroStays()
    ensures NextState(ZeroWord()) == ZeroWord()
  {
    var zero := ZeroWord();
    assert XorShiftRight(zero, 12) == zero && XorShiftLeft(zero, 25) == zero && XorShiftRight(zero, 27) == zero;
  }

  lemma InitialNotZero(seed: U64)
    ensures InitialState(seed) != ZeroWord()
  {
    WordNumberBijection(if seed == 0 then ZERO_SEED_STATE else seed, ZeroWord());
    ZeroIsZero();
  }

  /** A generator never reaches the state zero, from which it could not move. */
  lemma NeverZero(seed: U64, n: nat)
    ensures NextState(ZeroWord()) == ZeroWord()
    ensures StateAfter(InitialState(seed), n) != ZeroWord()
  {
    StepIsInjective();
    ZeroStays();
    InitialNotZero(seed);
    FixedPointUnreached(NextState, InitialState(seed), ZeroWord(), n);
  }

  lemma ZeroIsZero()
    ensures ToNat(ZeroWord()) == 0
  {
    ZeroDigits(64);
    assert BitDigits(ZeroWord()) == Zeros(64);
  }

  lemma StatesNeverMerge(x: Word, y: Word, n: nat)
    ensures StateAfter(x, n) == StateAfter(y, n) <==> x == y
  {
    StepIsInjective();
    IterateInjective(NextState, x, y, n);
  }

  /** Two generators agree on their n-th output, for any one n, only if they started in the same state. */
  lemma StreamsNeverMeet(x: Word, y: Word, n: nat)
    ensures Draw(x, n) == Draw(y, n) <==> x == y
  {
    StatesNeverMerge(x, y, n);
    var a, b := StateAfter(x, n), StateAfter(y, n);
    if Draw(x, n) == Draw(y, n) {
      MultiplierInjective(ToNat(a), ToNat(b));
      WordNumberBijection(0, a);
      WordNumberBijection(0, b);
    }
  }

  /** Different seeds start in different states, except that zero shares its state with the constant it stands for. */
  lemma SeedsSharingAState(seed: U64, seed': U64)
    ensures InitialState(seed) == InitialState(seed') <==>
      seed == seed' || (seed == 0 && seed' == ZERO_SEED_STATE) || (seed == ZERO_SEED_STATE && seed' == 0)
  {
    WordNumberBijection(if seed == 0 then ZERO_SEED_STATE else seed, ZeroWord());
    WordNumberBijection(if seed' == 0 then ZERO_SEED_STATE else seed', ZeroWord());
  }

  // ---- The generator and the op stream ----

  lemma StateStep(w: Word, n: nat)
    ensures StateAfter(w, n + 1) == NextState(StateAfter(w, n))
  {
  }

  class Rng {
    var state: Word
    ghost const seed: U64
    ghost var draws: nat

    ghost predicate Valid()
      reads this
    {
      state == StateAfter(InitialState(seed), draws)
    }

    constructor (seed: U64)
      ensures Valid() && this.seed == seed && draws == 0
    {
      this.state := WordOf(if seed == 0 then ZERO_SEED_STATE else seed);
      this.seed, this.draws := seed, 0;
    }

    method NextU64() returns (r: U64)
      requires Valid()
      modifies this
      ensures Valid() && draws == old(draws) + 1
      ensures r == Draw(InitialState(seed), draws)
    {
      StateStep(InitialState(seed), draws);
      var x := state;
      x := XorShiftRight(x, 12);
      x := XorShiftLeft(x, 25);
      x := XorShiftRight(x, 27);
      state := x;
      draws := draws + 1;
      return ToNat(x) * MULTIPLIER % WORD_LIMIT;
    }

    method Below(bound: nat) returns (r: nat)
      requires Valid() && 0 < bound < WORD_LIMIT
      modifies this
      ensures Valid() && draws == old(draws) + 1
      ensures r == Draw(InitialState(seed), draws) % bound
    {
      var x := NextU64();
      return x % bound;
    }
  }

  datatype WorkloadOp = Put(key: nat, bytes: nat) | Get(key: nat) | Search(probe: nat, topK: nat)

  datatype GeneratorConfig = GeneratorConfig(seed: U64, putsPer1000: nat, keySpace: nat, valueBytes: nat, topK: nat)

  predicate ConfigOk(c: GeneratorConfig) {
    0 < c.keySpace < WORD_LIMIT && c.putsPer1000 <= 1000
  }

  /** The op made from one draw that chooses its kind and one that chooses its key. */
  function OpFrom(c: GeneratorConfig, kind: U64, key: U64): WorkloadOp
    requires ConfigOk(c)
  {
    var draw, k := kind % 1000, key % c.keySpace;
    if draw < c.putsPer1000 then Put(k, c.valueBytes)
    else if draw < c.putsPer1000 + (1000 - c.putsPer1000) / 2 then Get(k)
    else Search(k, c.topK)
  }

  /** The n-th op of the stream, counting from 0: a function of the configuration alone. */
  function OpAt(c: GeneratorConfig, n: nat): WorkloadOp
    requires ConfigOk(c)
  {
    OpFrom(c, Draw(InitialState(c.seed), 2 * n + 1), Draw(InitialState(c.seed), 2 * n + 2))
  }

  /** How many of the draws 0 to n - 1 give puts, gets and searches. */
  function Shares(c: GeneratorConfig, key: U64, n: nat): (nat, nat, nat)
    requires ConfigOk(c) && n <= 1000
  {
    if n == 0 then (0, 0, 0)
    else
      var (p, g, s) := Shares(c, key, n - 1);
      match OpFrom(c, n - 1, key)
      case Put(_, _) => (p + 1, g, s)
      case Get(_) => (p, g + 1, s)
      case Search(_, _) => (p, g, s + 1)
  }

  lemma KindOfDraw(c: GeneratorConfig, key: U64, d: nat)
    requires ConfigOk(c) && d < 1000
    ensures
      var op, puts, gets := OpFrom(c, d, key), c.putsPer1000, (1000 - c.putsPer1000) / 2;
      (op.Put? <==> d < puts) && (op.Get? <==> puts <= d < puts + gets)
  {
  }

  lemma {:induction false} SharesUpTo(c: GeneratorConfig, key: U64, n: nat)
    requires ConfigOk(c) && n <= 1000
    ensures
      var puts, gets := c.putsPer1000, (1000 - c.putsPer1000) / 2;
      Shares(c, key, n) ==
        if n <= puts then (n, 0, 0) else if n <= puts + gets then (puts, n - puts, 0) else (puts, gets, n - puts - gets)
  {
    if n > 0 {
      SharesUpTo(c, key, n - 1);
      KindOfDraw(c, key, n - 1);
    }
  }

  /** Of a thousand draws the lowest, as many as configured, give puts, the next, half of the rest rounded down, gets,
      and the others searches; every op takes its key from the second draw, reduced below the key space, and its
      size from the configuration. */
  lemma KindShares(c: GeneratorConfig, kind: U64, key: U64)
    requires ConfigOk(c)
    ensures
      var puts := c.putsPer1000;
      Shares(c, key, 1000) == (puts, (1000 - puts) / 2, 1000 - puts - (1000 - puts) / 2)
    ensures OpFrom(c, kind, key) == OpFrom(c, kind % 1000, key)
    ensures
      var op, k := OpFrom(c, kind, key), key % c.keySpace;
      && op in {Put(k, c.valueBytes), Get(k), Search(k, c.topK)}
      && (op.Put? ==> kind % 1000 < c.putsPer1000) && (op.Get? ==> kind % 1000 < (1000 + c.putsPer1000) / 2)
  {
    SharesUpTo(c, key, 1000);
  }

  class OpGenerator {
    const rng: Rng
    const config: GeneratorConfig
    var emitted: nat

    ghost predicate Valid()
      reads this, rng
    {
      ConfigOk(config) && rng.Valid() && rng.seed == config.seed && rng.draws == 2 * emitted
    }

    constructor (config: GeneratorConfig)
      requires ConfigOk(config)
      ensures Valid() && fresh(rng) && emitted == 0 && this.config == config
    {
      this.rng := new Rng(config.seed);
      this.config, this.emitted := config, 0;
    }

    /** Each op takes two draws, so the op stream is reproducible from the configuration. */
    method NextOp() returns (op: WorkloadOp)
      requires Valid()
      modifies this, rng
      ensures Valid() && emitted == old(emitted) + 1
      ensures op == OpAt(config, old(emitted))
      ensures rng.draws == old(rng.draws) + 2
      ensures op == OpFrom(config, Draw(InitialState(config.seed), old(rng.draws) + 1), Draw(InitialState(config.seed), rng.draws))
    {
      ghost var n := emitted;
      var draw := rng.Below(1000);
      ghost var d1 := Draw(InitialState(config.seed), 2 * n + 1);
      assert draw == d1 % 1000;
      emitted := emitted + 1;
      var k := rng.Below(config.keySpace);
      ghost var d2 := Draw(InitialState(config.seed), 2 * n + 2);
      assert k == d2 % config.keySpace;
      if draw < config.putsPer1000 {
        op := Put(k, config.valueBytes);
      } else if draw < config.putsPer1000 + (1000 - config.putsPer1000) / 2 {
        op := Get(k);
      } else {
        op := Search(k, config.topK);
      }
      assert op == OpFrom(config, d1, d2);
    }
  }
}
