/** The ULID text codec (crates/domain/src/project_id.rs; ULID specification, sections "Encoding",
    "Overflow Errors when Parsing Base32 Strings" and "Sorting"). */
module Ulid {
  import opened Wrappers
  import opened Radix

  const CROCKFORD: string := "0123456789ABCDEFGHJKMNPQRSTVWXYZ"

  const TWO_128: nat := 0x1_0000_0000_0000_0000_0000_0000_0000_0000
  const TWO_48: nat := 0x1_0000_0000_0000

  type UlidBytes = bs: seq<byte> | |bs| == 16 witness [0, 0, 0, 0, 0, 0, 0, 0, 0, 0, 0, 0, 0, 0, 0, 0]

  function UlidValue(c: char): Option<nat> {
    match c
    case '0' => Some(0)
    case '1' => Some(1)
    case '2' => Some(2)
    case '3' => Some(3)
    case '4' => Some(4)
    case '5' => Some(5)
    case '6' => Some(6)
    case '7' => Some(7)
    case '8' => Some(8)
    case '9' => Some(9)
    case 'A' => Some(10)
    case 'B' => Some(11)
    case 'C' => Some(12)
    case 'D' => Some(13)
    case 'E' => Some(14)
    case 'F' => Some(15)
    case 'G' => Some(16)
    case 'H' => Some(17)
    case 'J' => Some(18)
    case 'K' => Some(19)
    case 'M' => Some(20)
    case 'N' => Some(21)
    case 'P' => Some(22)
    case 'Q' => Some(23)
    case 'R' => Some(24)
    case 'S' => Some(25)
    case 'T' => Some(26)
    case 'V' => Some(27)
    case 'W' => Some(28)
    case 'X' => Some(29)
    case 'Y' => Some(30)
    case 'Z' => Some(31)
    case _ => None
  }

  /** The two tables are inverse to each other. */
  lemma TablesInverse(c: char, v: nat)
    ensures UlidValue(c) == Some(v) <==> v < 32 && CROCKFORD[v] == c
  {
    if v < 32 {
      assert UlidValue(CROCKFORD[v]) == Some(v);
    }
  }

  lemma AlphabetAscending(v: nat, w: nat)
    requires v < w < 32
    ensures CROCKFORD[v] < CROCKFORD[w]
  {
  }

  lemma PowersFit()
    ensures Pow(256, 16) == TWO_128 && 4 * TWO_128 == Pow(32, 26) && 8 * Pow(32, 25) == TWO_128
  {
    assert Pow(32, 5) == 0x200_0000;
    PowAdd(32, 5, 5);
    PowAdd(32, 10, 10);
    PowAdd(32, 20, 5);
    assert Pow(256, 4) == 0x1_0000_0000;
    PowAdd(256, 4, 4);
    PowAdd(256, 8, 8);
  }

  // ---- Specification ----

  function Bits(bytes: UlidBytes): (n: nat)
    ensures n < TWO_128
  {
    PowersFit();
    ValueBound(bytes, 256);
    Value(bytes, 256)
  }

  function BytesOf(n: nat): UlidBytes {
    Digits(n, 16, 256)
  }

  function Letters(ds: seq<nat>): string
    requires InBase(ds, 32)
  {
    seq(|ds|, i requires 0 <= i < |ds| => CROCKFORD[ds[i]])
  }

  function Encode(bytes: UlidBytes): string {
    Letters(Digits(Bits(bytes), 26, 32))
  }

  predicate IsCrockford(s: string) {
    forall i :: 0 <= i < |s| ==> UlidValue(s[i]).Some?
  }

  function LetterValues(s: string): (ds: seq<nat>)
    requires IsCrockford(s)
    ensures |ds| == |s| && InBase(ds, 32)
  {
    seq(|s|, i requires 0 <= i < |s| => UlidValue(s[i]).value)
  }

  /** 26 letters of the alphabet, the first encoding at most three bits. */
  predicate Accepted(s: string) {
    |s| == 26 && IsCrockford(s) && s[0] <= '7'
  }

  function Decode(s: string): Option<UlidBytes> {
    if Accepted(s) then Some(BytesOf(Value(LetterValues(s), 32))) else None
  }

  // ---- The loops ----

  /** Peeling one digit off a prefix of the digits. */
  lemma PeelPrefix(all: seq<nat>, bits: nat, i: nat)
    requires i < |all| && Digits(bits, i + 1, 32) == all[..i + 1]
    ensures Digits(bits / 32, i, 32) == all[..i] && all[i] == bits % 32
  {
    PeelDigit(bits, i, 32);
    var prefix := all[..i + 1];
    assert prefix[..i] == all[..i] && prefix[i] == all[i];
    assert (Digits(bits / 32, i, 32) + [bits % 32])[..i] == Digits(bits / 32, i, 32);
  }

  /** The last n letters of a number, written from the right. */
  method WriteLetters(number: nat, n: nat) returns (text: string)
    ensures text == Letters(Digits(number, n, 32))
  {
    var out := new char[n];
    var bits := number;
    ghost var all := Digits(number, n, 32);
    assert all[..n] == all;
    var i := n;
    while i > 0
      invariant 0 <= i <= n
      invariant Digits(bits, i, 32) == all[..i]
      invariant forall j :: i <= j < n ==> out[j] == CROCKFORD[all[j]]
    {
      i := i - 1;
      PeelPrefix(all, bits, i);
      out[i] := CROCKFORD[bits % 32];
      bits := bits / 32;
    }
    text := out[..];
    assert text == Letters(all);
  }

  method EncodeUlid(bytes: UlidBytes) returns (text: string)
    ensures text == Encode(bytes)
  {
    text := WriteLetters(Bits(bytes), 26);
  }

  /** The accumulator is a u128: shifting left by five drops the bits above 2^128, and the letter value
      fills the five zero bits. */
  method AccumulateLetters(s: string) returns (r: Option<nat>)
    ensures r == if IsCrockford(s) then Some(Value(LetterValues(s), 32) % TWO_128) else None
  {
    var bits: nat := 0;
    for i := 0 to |s|
      invariant IsCrockford(s[..i])
      invariant bits == Value(LetterValues(s[..i]), 32) % TWO_128
    {
      var v := UlidValue(s[i]);
      if v == None {
        return None;
      }
      OneMoreLetter(s, i);
      ShiftWraps(Value(LetterValues(s[..i]), 32), v.value);
      bits := bits * 32 % TWO_128 + v.value;
    }
    assert s[..|s|] == s;
    return Some(bits);
  }

  lemma OneMoreLetter(s: string, i: nat)
    requires i < |s| && IsCrockford(s[..i]) && UlidValue(s[i]).Some?
    ensures IsCrockford(s[..i + 1])
    ensures Value(LetterValues(s[..i + 1]), 32) == Value(LetterValues(s[..i]), 32) * 32 + UlidValue(s[i]).value
  {
    assert LetterValues(s[..i + 1]) == LetterValues(s[..i]) + [UlidValue(s[i]).value];
    ValueSnoc(LetterValues(s[..i]), UlidValue(s[i]).value, 32);
  }

  method DecodeUlid(s: string) returns (r: Option<UlidBytes>)
    ensures r == Decode(s)
  {
    if |s| != 26 {
      return None;
    }
    var bits := AccumulateLetters(s);
    if bits == None || s[0] > '7' {
      assert !Accepted(s);
      return None;
    }
    assert bits.value == Value(LetterValues(s), 32) by {
      AcceptedFits(s);
    }
    r := Some(BytesOf(bits.value));
    assert Accepted(s);
  }

  /** Below a multiple of 32 there is room for five more bits. */
  lemma RoomForLetter(y: nat, v: nat, k: nat)
    requires v < 32 && y < k
    ensures 32 * y + v < 32 * k
  {
  }

  /** Numbers that differ by a multiple of m leave the same remainder. */
  lemma SameRemainder(a: nat, b: nat, t: nat, m: nat)
    requires m > 0 && a == b + t * m
    ensures a % m == b % m
  {
    DivMod(b, m);
    SplitProduct(b / m, t, m);
    QuotientRemainder(b / m + t, b % m, m);
  }

  lemma SplitProduct(p: nat, q: nat, m: nat)
    ensures (p + q) * m == p * m + q * m
  {
  }

  lemma SwapFactor(q: nat, f: nat, m: nat)
    ensures q * m * f == q * f * m
  {
  }

  /** What is shifted out does not matter, before or after. */
  lemma ShiftRemainder(x: nat, f: nat, m: nat)
    requires m > 0
    ensures x % m * f % m == x * f % m
  {
    var q, r := x / m, x % m;
    DivMod(x, m);
    SplitProduct(q * m, r, f);
    SwapFactor(q, f, m);
    SameRemainder(x * f, r * f, q * f, m);
  }

  /** A shifted number leaves the low five bits free. */
  lemma FreeBits(x: nat, v: nat, k: nat)
    requires k > 0 && v < 32
    ensures x * 32 % (k * 32) + v == (x * 32 + v) % (k * 32)
  {
    var q, r := x / k, x % k;
    DivMod(x, k);
    SplitProduct(q * k, r, 32);
    assert q * k * 32 == q * (k * 32);
    RoomForLetter(r, v, k);
    QuotientRemainder(q, r * 32, k * 32);
    QuotientRemainder(q, r * 32 + v, k * 32);
  }

  lemma ShiftWraps(x: nat, v: nat)
    requires v < 32
    ensures x % TWO_128 * 32 % TWO_128 + v == (x * 32 + v) % TWO_128
  {
    ShiftRemainder(x, 32, TWO_128);
    FreeBits(x, v, TWO_128 / 32);
  }

  /** On accepted text the shifts never lose a bit. */
  lemma AcceptedFits(s: string)
    requires Accepted(s)
    ensures Value(LetterValues(s), 32) < TWO_128
  {
    var ds := LetterValues(s);
    assert ds[0] <= 7 by {
      TablesInverse(s[0], ds[0]);
    }
    LeadingDigit(ds, 32);
    MulLe(ds[0] + 1, 8, Pow(32, 25));
    PowersFit();
  }

  // ---- Main results ----

  lemma LettersInverse(ds: seq<nat>)
    requires InBase(ds, 32)
    ensures IsCrockford(Letters(ds)) && LetterValues(Letters(ds)) == ds
  {
    forall i | 0 <= i < |ds| ensures UlidValue(Letters(ds)[i]) == Some(ds[i]) {
      TablesInverse(Letters(ds)[i], ds[i]);
    }
  }

  lemma TopDigitFits(n: nat)
    requires n < TWO_128
    ensures Digits(n, 26, 32)[0] <= 7
  {
    var ds := Digits(n, 26, 32);
    PowersFit();
    ValueOfDigits(n, 26, 32);
    LeadingDigit(ds, 32);
    if ds[0] >= 8 {
      MulLe(8, ds[0], Pow(32, 25));
    }
  }

  lemma LowLettersAreDigits(v: nat)
    requires v <= 7
    ensures CROCKFORD[v] <= '7'
  {
    if v < 7 {
      AlphabetAscending(v, 7);
    }
  }

  /** Every ULID is read back from its text, and its text is accepted. */
  lemma DecodeEncode(bytes: UlidBytes)
    ensures Accepted(Encode(bytes)) && Decode(Encode(bytes)) == Some(bytes)
  {
    var n := Bits(bytes);
    TopDigitFits(n);
    LowLettersAreDigits(Digits(n, 26, 32)[0]);
    LettersInverse(Digits(n, 26, 32));
    PowersFit();
    ValueOfDigits(n, 26, 32);
    DigitsOfValue(bytes, 256);
  }

  /** Whatever is accepted is the text of what it decodes to: each ULID has one spelling. */
  lemma EncodeDecode(s: string)
    requires Decode(s).Some?
    ensures Encode(Decode(s).value) == s
  {
    var ds := LetterValues(s);
    AcceptedFits(s);
    PowersFit();
    ValueOfDigits(Value(ds, 32), 16, 256);
    DigitsOfValue(ds, 32);
    forall i | 0 <= i < 26 ensures Letters(ds)[i] == s[i] {
      TablesInverse(s[i], ds[i]);
    }
  }

  /** Byte-wise comparison of two texts. */
  ghost predicate TextLess(s: string, t: string) {
    exists i :: 0 <= i < |s| && i < |t| && s[i] < t[i] && s[..i] == t[..i]
  }

  /** Texts sort as the 128-bit values, and as the bytes. */
  lemma TextOrder(a: UlidBytes, b: UlidBytes)
    ensures TextLess(Encode(a), Encode(b)) <==> Bits(a) < Bits(b)
    ensures LexLess(a, b) <==> Bits(a) < Bits(b)
  {
    LexOrderIsValueOrder(a, b, 256);
    var x, y := Digits(Bits(a), 26, 32), Digits(Bits(b), 26, 32);
    PowersFit();
    ValueOfDigits(Bits(a), 26, 32);
    ValueOfDigits(Bits(b), 26, 32);
    LexOrderIsValueOrder(x, y, 32);
    LettersOrder(x, y);
  }

  lemma LettersOrder(x: seq<nat>, y: seq<nat>)
    requires |x| == |y| && InBase(x, 32) && InBase(y, 32)
    ensures TextLess(Letters(x), Letters(y)) <==> LexLess(x, y)
  {
    var s, t := Letters(x), Letters(y);
    if i: nat :| LexLessAt(x, y, i) {
      AlphabetAscending(x[i], y[i]);
      assert s[..i] == t[..i];
    }
    if i :| 0 <= i < |s| && i < |t| && s[i] < t[i] && s[..i] == t[..i] {
      if y[i] < x[i] {
        AlphabetAscending(y[i], x[i]);
      }
      forall j | 0 <= j < i ensures x[j] == y[j] {
        assert s[..i][j] == t[..i][j];
        TablesInverse(s[j], x[j]);
        TablesInverse(t[j], y[j]);
      }
      assert LexLessAt(x, y, i);
    }
  }

  type Rand80 = bs: seq<byte> | |bs| == 10 witness [0, 0, 0, 0, 0, 0, 0, 0, 0, 0]

  /** The low six of the eight bytes of a time, masked to 48 bits. */
  function TimeOf(timeMs: nat): (bs: seq<byte>)
    ensures |bs| == 6
  {
    Digits(timeMs % TWO_48, 8, 256)[2..8]
  }

  /** Six bytes of time, then ten of randomness. */
  function UlidOf(timeMs: nat, rand: Rand80): UlidBytes {
    TimeOf(timeMs) + rand
  }

  lemma TimePowers()
    ensures Pow(256, 6) == TWO_48 && TWO_48 < Pow(256, 8)
  {
    assert Pow(256, 4) == 0x1_0000_0000;
    PowAdd(256, 4, 2);
    PowAdd(256, 4, 4);
  }

  lemma TimeBytes(t: nat)
    ensures Value(TimeOf(t), 256) == t % TWO_48
  {
    var ds := Digits(t % TWO_48, 8, 256);
    TimePowers();
    ValueOfDigits(t % TWO_48, 8, 256);
    DropLeading(ds, 2, 256);
    assert ds[2..] == ds[2..8];
  }

  /** An id keeps its randomness as given and its time modulo 2^48, so two ids are equal exactly if both agree. */
  lemma UlidParts(t: nat, r: Rand80, t': nat, r': Rand80)
    ensures UlidOf(t, r)[6..] == r && Value(UlidOf(t, r)[..6], 256) == t % TWO_48
    ensures UlidOf(t, r) == UlidOf(t', r') <==> t % TWO_48 == t' % TWO_48 && r == r'
  {
    TimeBytes(t);
    TimeBytes(t');
    assert UlidOf(t, r)[..6] == TimeOf(t) && UlidOf(t', r')[..6] == TimeOf(t') && UlidOf(t', r')[6..] == r';
  }

  /** An earlier time sorts first whatever the randomness if and only if it is earlier modulo 2^48:
      always for times below 2^48, never across a wrap of the 48-bit field. */
  lemma EarlierSortsFirst(t: nat, t': nat)
    ensures (forall r: Rand80, r': Rand80 :: TextLess(Encode(UlidOf(t, r)), Encode(UlidOf(t', r')))) <==> t % TWO_48 < t' % TWO_48
  {
    forall r: Rand80, r': Rand80 | t % TWO_48 < t' % TWO_48
      ensures TextLess(Encode(UlidOf(t, r)), Encode(UlidOf(t', r')))
    {
      TimeDecides(t, t', r, r');
    }
    if t % TWO_48 >= t' % TWO_48 {
      var zero: Rand80 := [0, 0, 0, 0, 0, 0, 0, 0, 0, 0];
      if t % TWO_48 > t' % TWO_48 {
        TimeDecides(t', t, zero, zero);
      }
      TextOrder(UlidOf(t, zero), UlidOf(t', zero));
      TextOrder(UlidOf(t', zero), UlidOf(t, zero));
      assert !TextLess(Encode(UlidOf(t, zero)), Encode(UlidOf(t', zero)));
    }
  }

  lemma TimeDecides(t: nat, t': nat, r: Rand80, r': Rand80)
    requires t % TWO_48 < t' % TWO_48
    ensures TextLess(Encode(UlidOf(t, r)), Encode(UlidOf(t', r')))
  {
    var x, x' := TimeOf(t), TimeOf(t');
    TimeBytes(t);
    TimeBytes(t');
    HighPartDecides(x, x', r, r', 256);
    TextOrder(UlidOf(t, r), UlidOf(t', r'));
  }
}
