/** The checksum is a remainder: polynomials over the two-element field, and division by CRC-32C's. */
module Remainders {
  import opened Bytes
  import opened Crc

  // ----- Polynomials -----

  /** The exponents of the powers with coefficient one. */
  type Poly = set<nat>

  ghost function Sum(p: Poly, q: Poly): (r: Poly)
    ensures forall e: nat :: e in r <==> (e in p) != (e in q)
  {
    (p - q) + (q - p)
  }

  /** `p` times the `n`-th power. */
  ghost function Shift(p: Poly, n: nat): (r: Poly)
    ensures forall e: nat :: e in r <==> e >= n && e - n in p
  {
    var r := set e | e in p :: e + n;
    assert forall x :: x in p ==> x + n in r;
    r
  }

  /** `q` times `g`, the coefficients of `q` given lowest first. */
  ghost function Times(q: seq<bool>, g: Poly): Poly {
    if q == [] then {} else Sum(Shift(Times(q[1..], g), 1), if q[0] then g else {})
  }

  /** CRC-32C's polynomial. */
  ghost function Castagnoli(): Poly {
    {32, 28, 27, 26, 25, 23, 22, 20, 19, 18, 14, 13, 11, 10, 9, 8, 6, 0}
  }

  ghost predicate IsMultiple(p: Poly, q: seq<bool>, r: Poly) {
    p == Sum(Times(q, Castagnoli()), r)
  }

  /** `p` divided by the polynomial leaves `r`. */
  ghost predicate IsRemainder(p: Poly, r: Poly) {
    (forall e :: e in r ==> e < 32) && exists q :: IsMultiple(p, q, r)
  }

  /** The bits of a message as coefficients, the first bit highest. */
  ghost function Message(bits: seq<bool>): (r: Poly)
    ensures forall e: nat :: e in r <==> e < |bits| && bits[|bits| - 1 - e]
  {
    var r := set i | 0 <= i < |bits| && bits[i] :: |bits| - 1 - i;
    assert forall i :: 0 <= i < |bits| && bits[i] ==> |bits| - 1 - i in r;
    r
  }

  // ----- States as polynomials -----

  /** The `n` low bits of a state, lowest first. */
  function Digits(x: bv32, n: nat): (r: seq<bool>)
    ensures |r| == n
  {
    if n == 0 then [] else [IsOdd(x)] + Digits(Half(x), n - 1)
  }

  /** A state as a polynomial: the lowest bit is the highest coefficient. */
  ghost function PolyOf(x: bv32): Poly {
    Message(Digits(x, 32))
  }

  lemma {:induction false} DigitsOfSum(x: bv32, y: bv32, n: nat, i: nat)
    requires i < n
    ensures Digits(Add(x, y), n)[i] == (Digits(x, n)[i] != Digits(y, n)[i])
    decreases n
  {
    hide Add, Half, IsOdd;
    OddSum(x, y);
    HalfSum(x, y);
    if i > 0 {
      DigitsOfSum(Half(x), Half(y), n - 1, i - 1);
    }
  }

  lemma SumOfStates(x: bv32, y: bv32)
    ensures PolyOf(Add(x, y)) == Sum(PolyOf(x), PolyOf(y))
  {
    hide Digits, Add;
    forall e: nat | e < 32 ensures e in PolyOf(Add(x, y)) <==> (e in PolyOf(x)) != (e in PolyOf(y)) {
      DigitsOfSum(x, y, 32, 31 - e);
    }
  }

  lemma {:induction false} DigitsPrefix(x: bv32, n: nat, m: nat)
    requires n <= m
    ensures Digits(x, n) <= Digits(x, m)
    decreases n
  {
    hide Half, IsOdd;
    if n > 0 {
      DigitsPrefix(Half(x), n - 1, m - 1);
    }
  }

  function Quarter(x: bv32): bv32 {
    Half(Half(x))
  }

  lemma TwoDigits(x: bv32, n: nat)
    requires n >= 2
    ensures Digits(x, n) == [IsOdd(x), IsOdd(Half(x))] + Digits(Quarter(x), n - 2)
  {
    hide Half, IsOdd;
    assert Digits(Half(x), n - 1) == [IsOdd(Half(x))] + Digits(Quarter(x), n - 2);
  }

  /** Four bits at once. */
  lemma Nibble(x: bv32, n: nat, a: bool, b: bool, c: bool, d: bool, y: bv32)
    requires n >= 4 && IsOdd(x) == a && IsOdd(Half(x)) == b
    requires IsOdd(Quarter(x)) == c && IsOdd(Half(Quarter(x))) == d && Quarter(Quarter(x)) == y
    ensures Digits(x, n) == [a, b, c, d] + Digits(y, n - 4)
  {
    hide Half, IsOdd, Quarter, Digits;
    TwoDigits(x, n);
    TwoDigits(Quarter(x), n - 2);
  }

  function NibbleBits(x: bv32): (r: seq<bool>)
    ensures |r| == 4
  {
    [IsOdd(x), IsOdd(Half(x)), IsOdd(Quarter(x)), IsOdd(Half(Quarter(x)))]
  }

  lemma NibbleDigits(x: bv32, n: nat)
    requires n >= 4
    ensures Digits(x, n) == NibbleBits(x) + Digits(Quarter(Quarter(x)), n - 4)
  {
    hide Digits, IsOdd, Half, Quarter;
    Nibble(x, n, IsOdd(x), IsOdd(Half(x)), IsOdd(Quarter(x)), IsOdd(Half(Quarter(x))), Quarter(Quarter(x)));
  }

  lemma DropIsQuarters(x: bv32)
    ensures DropByte(x) == Quarter(Quarter(Quarter(Quarter(x))))
  {
  }

  lemma DropDigits(x: bv32, n: nat, i: nat)
    requires 8 <= i < n
    ensures Digits(x, n)[i] == Digits(DropByte(x), n - 8)[i - 8]
  {
    hide NibbleBits, Digits, Quarter, DropByte;
    NibbleDigits(x, n);
    NibbleDigits(Quarter(Quarter(x)), n - 4);
    DropIsQuarters(x);
  }

  lemma AllDropped(x: bv32)
    ensures !IsOdd(DropByte(DropByte(DropByte(DropByte(x)))))
  {
  }

  lemma NoDigit32(x: bv32)
    ensures !Digits(x, 33)[32]
  {
    AllDropped(x);
    hide DropByte, IsOdd, Half;
    DropDigits(x, 33, 32);
    DropDigits(DropByte(x), 25, 24);
    DropDigits(DropByte(DropByte(x)), 17, 16);
    DropDigits(DropByte(DropByte(DropByte(x))), 9, 8);
  }

  lemma DigitsShift(x: bv32, i: nat)
    requires i < 32
    ensures Digits(Half(x), 32)[i] == (i < 31 && Digits(x, 32)[i + 1])
    ensures Digits(x, 32)[0] == IsOdd(x)
  {
    hide Half, IsOdd;
    var d := Digits(x, 33);
    assert d == [IsOdd(x)] + Digits(Half(x), 32);
    DigitsPrefix(x, 32, 33);
    NoDigit32(x);
    hide Digits;
    assert Digits(Half(x), 32)[i] == d[i + 1];
    assert Digits(x, 32)[0] == d[0];
    assert i < 31 ==> Digits(x, 32)[i + 1] == d[i + 1];
  }

  /** Halving a state is multiplying by the first power and dropping the 32nd. */
  lemma HalfShifts(x: bv32)
    ensures PolyOf(Half(x)) == Shift(PolyOf(x), 1) - {32}
    ensures 32 in Shift(PolyOf(x), 1) <==> IsOdd(x)
  {
    hide Half, IsOdd, Digits;
    DigitsShift(x, 0);
    forall e: nat | e < 32 ensures e in PolyOf(Half(x)) <==> e >= 1 && e - 1 in PolyOf(x) {
      DigitsShift(x, 31 - e);
    }
  }

  lemma HighDigits()
    ensures Digits(0x82f6, 16)
            == [false, true, true, false, true, true, true, true, false, true, false, false, false, false, false, true]
  {
    hide Digits;
    Nibble(0x82f6, 16, false, true, true, false, 0x82f);
    Nibble(0x82f, 12, true, true, true, true, 0x82);
    Nibble(0x82, 8, false, true, false, false, 0x8);
    Nibble(0x8, 4, false, false, false, true, 0);
  }

  lemma LowDigits()
    ensures Digits(0x82f6_3b78, 32)
            == [false, false, false, true, true, true, true, false, true, true, false, true, true, true, false, false]
               + Digits(0x82f6, 16)
  {
    hide Digits;
    Nibble(0x82f6_3b78, 32, false, false, false, true, 0x82f_63b7);
    Nibble(0x82f_63b7, 28, true, true, true, false, 0x82_f63b);
    Nibble(0x82_f63b, 24, true, true, false, true, 0x8_2f63);
    Nibble(0x8_2f63, 20, true, true, false, false, 0x82f6);
  }

  lemma PolynomialDigits()
    ensures PolyOf(Polynomial()) == Castagnoli() - {32}
  {
    HighDigits();
    LowDigits();
    hide Digits, IsOdd, Half;
  }

  lemma StateDegree(x: bv32)
    ensures forall e :: e in PolyOf(x) ==> e < 32
  {
    hide Digits;
  }

  /** One bit step: times the first power, less the divisor if that overflows. */
  lemma StepDivides(x: bv32)
    ensures PolyOf(BitStep(x)) == Sum(Shift(PolyOf(x), 1), if IsOdd(x) then Castagnoli() else {})
    ensures forall e :: e in PolyOf(BitStep(x)) ==> e < 32
  {
    hide Half, IsOdd, Add, Polynomial, PolyOf;
    HalfShifts(x);
    PolynomialDigits();
    SumOfStates(Half(x), Polynomial());
    StateDegree(BitStep(x));
  }

  lemma {:induction false} NoDigits(n: nat, i: nat)
    requires i < n
    ensures !Digits(0, n)[i]
  {
    assert Half(0) == 0 && !IsOdd(0);
    hide Half, IsOdd;
    if i > 0 {
      NoDigits(n - 1, i - 1);
    }
  }

  lemma OneDigit(n: nat, i: nat)
    requires i < n
    ensures Digits(1, n)[i] == (i == 0)
  {
    if i > 0 {
      NoDigits(n - 1, i - 1);
    }
  }

  lemma BitIsTop(b: bool)
    ensures PolyOf(Bit(b)) == if b then {31} else {}
  {
    hide Digits;
    forall e: nat | e < 32 ensures e in PolyOf(Bit(b)) <==> b && e == 31 {
      OneDigit(32, 31 - e);
      NoDigits(32, 31 - e);
    }
  }

  // ----- Division -----

  /** What is divided: the seed in front of the message, and 32 zeros behind it. */
  ghost function Dividend(seed: bv32, bits: seq<bool>): Poly {
    Sum(Shift(PolyOf(seed), |bits|), Shift(Message(bits), 32))
  }

  lemma DividendAt(seed: bv32, bits: seq<bool>, e: nat)
    ensures e in Dividend(seed, bits)
            <==> (e >= |bits| && e - |bits| in PolyOf(seed))
                 != (32 <= e < 32 + |bits| && bits[|bits| + 31 - e])
  {
    hide PolyOf;
  }

  /** One more message bit. */
  lemma DividendSnoc(seed: bv32, bits: seq<bool>, b: bool)
    ensures Dividend(seed, bits + [b]) == Sum(Shift(Dividend(seed, bits), 1), if b then {32} else {})
  {
    hide PolyOf, Dividend;
    DividendAt(seed, bits + [b], 0);
    forall e: nat | e > 0
      ensures e in Dividend(seed, bits + [b]) <==> (e - 1 in Dividend(seed, bits)) != (b && e == 32)
    {
      DividendAt(seed, bits + [b], e);
      DividendAt(seed, bits, e - 1);
    }
  }

  lemma SerialSnoc(seed: bv32, bits: seq<bool>, b: bool)
    ensures Serial(seed, bits + [b]) == BitStep(Add(Serial(seed, bits), Bit(b)))
  {
    hide BitStep, Add, Bit;
    SerialJoin(seed, bits, [b]);
    assert Serial(BitStep(Add(Serial(seed, bits), Bit(b))), []) == BitStep(Add(Serial(seed, bits), Bit(b)));
  }

  lemma NextDivision(p: Poly, t: Poly, r: Poly, g: Poly, b: bool)
    requires p == Sum(t, r)
    ensures Sum(Shift(p, 1), if b then {32} else {})
            == Sum(Sum(Shift(t, 1), g), Sum(Shift(Sum(r, if b then {31} else {}), 1), g))
  {
    hide Sum, Shift;
  }

  /** One step of long division. */
  lemma NextMultiple(p: Poly, q: seq<bool>, r: Poly, odd: bool, b: bool)
    requires IsMultiple(p, q, r)
    ensures IsMultiple(
      Sum(Shift(p, 1), if b then {32} else {}), [odd] + q,
      Sum(Shift(Sum(r, if b then {31} else {}), 1), if odd then Castagnoli() else {}))
  {
    hide Castagnoli, Sum, Shift;
    assert ([odd] + q)[1..] == q;
    NextDivision(p, Times(q, Castagnoli()), r, if odd then Castagnoli() else {}, b);
  }

  lemma NoMessage(seed: bv32)
    ensures IsMultiple(Dividend(seed, []), [], PolyOf(Serial(seed, [])))
  {
    hide PolyOf;
  }

  /** The register after a message is the remainder of the seed and the message, with 32 zeros behind, by
      CRC-32C's polynomial. */
  lemma {:induction false} SerialIsRemainder(seed: bv32, bits: seq<bool>)
    ensures IsRemainder(Dividend(seed, bits), PolyOf(Serial(seed, bits)))
    decreases |bits|
  {
    hide PolyOf, BitStep, Add, Bit, Castagnoli, Times, Dividend, IsMultiple;
    StateDegree(Serial(seed, bits));
    if |bits| == 0 {
      assert IsMultiple(Dividend(seed, bits), [], PolyOf(Serial(seed, bits))) by { NoMessage(seed); }
    } else {
      var front, b := bits[..|bits| - 1], bits[|bits| - 1];
      assert bits == front + [b];
      SerialIsRemainder(seed, front);
      var state := Serial(seed, front);
      var q :| IsMultiple(Dividend(seed, front), q, PolyOf(state));
      var odd := IsOdd(Add(state, Bit(b)));
      SerialSnoc(seed, front, b);
      DividendSnoc(seed, front, b);
      SumOfStates(state, Bit(b));
      BitIsTop(b);
      StepDivides(Add(state, Bit(b)));
      NextMultiple(Dividend(seed, front), q, PolyOf(state), odd, b);
      assert IsMultiple(Dividend(seed, bits), [odd] + q, PolyOf(Serial(seed, bits)));
    }
  }

  /** The checksum of a byte string, as a remainder. */
  lemma CrcIsRemainder(seed: bv32, s: seq<byte>)
    ensures IsRemainder(Dividend(seed, Bits(s)), PolyOf(Crc32c(seed, s)))
  {
    hide Crc32c, Serial, PolyOf, Dividend, IsRemainder;
    CrcIsSerial(seed, s);
    SerialIsRemainder(seed, Bits(s));
  }

  // ----- There is only one remainder -----

  /** The coefficients of a sum. */
  function Xor(a: seq<bool>, b: seq<bool>): seq<bool> {
    if a == [] then b else if b == [] then a else [a[0] != b[0]] + Xor(a[1..], b[1..])
  }

  lemma SumOfProducts(s: Poly, t: Poly, f: Poly, g: Poly)
    ensures Sum(Shift(Sum(s, t), 1), Sum(f, g)) == Sum(Sum(Shift(s, 1), f), Sum(Shift(t, 1), g))
  {
    hide Sum, Shift;
  }

  lemma SumLaws(g: Poly)
    ensures Sum(g, g) == {} && Sum(g, {}) == g && Sum({}, g) == g && Sum({}, {}) == {}
  {
  }

  lemma {:induction false} TimesXor(a: seq<bool>, b: seq<bool>, g: Poly)
    ensures Times(Xor(a, b), g) == Sum(Times(a, g), Times(b, g))
  {
    SumLaws(Times(a, g));
    SumLaws(Times(b, g));
    if a != [] && b != [] {
      hide Sum, Shift;
      TimesXor(a[1..], b[1..], g);
      assert Xor(a, b)[1..] == Xor(a[1..], b[1..]);
      SumLaws(g);
      SumOfProducts(Times(a[1..], g), Times(b[1..], g), if a[0] then g else {}, if b[0] then g else {});
    }
  }

  lemma DivisorDegree()
    ensures 32 in Castagnoli() && forall e :: e in Castagnoli() ==> e <= 32
  {
  }

  /** A multiple that is not zero reaches as high as the divisor. */
  lemma {:induction false} HighOrNothing(q: seq<bool>)
    ensures Times(q, Castagnoli()) == {} || exists e :: e in Times(q, Castagnoli()) && e >= 32
  {
    hide Castagnoli, Sum, Shift;
    if q != [] {
      HighOrNothing(q[1..]);
      var below := Times(q[1..], Castagnoli());
      var all := Times(q, Castagnoli());
      assert all == Sum(Shift(below, 1), if q[0] then Castagnoli() else {});
      DivisorDegree();
      hide Times;
      if below != {} {
        var e :| e in below && e >= 32;
        assert e + 1 in all;
      } else if q[0] {
        assert 32 in all;
      }
    }
  }

  /** No polynomial has two remainders. */
  lemma RemainderUnique(p: Poly, r: Poly, s: Poly)
    requires IsRemainder(p, r) && IsRemainder(p, s)
    ensures r == s
  {
    hide Castagnoli, Times;
    var q :| IsMultiple(p, q, r);
    var t :| IsMultiple(p, t, s);
    TimesXor(q, t, Castagnoli());
    var d := Times(Xor(q, t), Castagnoli());
    HighOrNothing(Xor(q, t));
    assert forall e: nat :: e in d <==> (e in r) != (e in s);
  }

  // ----- The published check value -----

  /** "123456789". */
  function CheckInput(): seq<byte> {
    [0x31, 0x32, 0x33, 0x34, 0x35, 0x36, 0x37, 0x38, 0x39]
  }

  function FourSteps(x: bv32): bv32 {
    BitStep(BitStep(BitStep(BitStep(x))))
  }

  lemma FourOfRun(n: nat, x: bv32)
    requires n >= 4
    ensures Run(n, x) == Run(n - 4, FourSteps(x))
  {
    hide BitStep;
    var y := BitStep(BitStep(x));
    assert Run(n, x) == Run(n - 2, y);
    assert Run(n - 2, y) == Run(n - 4, BitStep(BitStep(y)));
  }

  lemma EightSteps(x: bv32)
    ensures Run(8, x) == FourSteps(FourSteps(x))
  {
    FourOfRun(8, x);
    FourOfRun(4, FourSteps(x));
    hide FourSteps;
  }

  lemma WordOfNibble(a: bool, b: bool, c: bool, d: bool, rest: seq<bool>)
    ensures Word([a, b, c, d] + rest) == Join(a, Join(b, Join(c, Join(d, Word(rest)))))
  {
    hide Join;
    var s := [a, b, c, d] + rest;
    assert Word(s) == Join(a, Join(b, Word(s[2..]))) by { assert s[1..][1..] == s[2..]; }
    assert s[2..][1..] == s[3..] && s[3..][1..] == rest;
    assert Word(s[2..]) == Join(c, Word(s[3..]));
  }

  lemma BinaryNibble(b: nat, n: nat)
    requires n >= 4
    ensures Binary(b, n)
            == [b % 2 == 1, b / 2 % 2 == 1, b / 4 % 2 == 1, b / 8 % 2 == 1] + Binary(b / 16, n - 4)
  {
    assert Binary(b, n) == [b % 2 == 1, b / 2 % 2 == 1] + Binary(b / 4, n - 2);
    assert Binary(b / 4, n - 2) == [b / 4 % 2 == 1, b / 8 % 2 == 1] + Binary(b / 16, n - 4);
  }

  lemma WordIsThree()
    ensures Word([true, true, false, false]) == 3
  {
    assert [true, true, false, false] + [] == [true, true, false, false];
    WordOfNibble(true, true, false, false, []);
  }

  /** The word of a decimal digit's character. */
  lemma WidenDigit(b: byte, w: bv32)
    requires 0x31 <= b <= 0x39
    requires w == Join(b % 2 == 1, Join(b / 2 % 2 == 1, Join(b / 4 % 2 == 1, Join(b / 8 % 2 == 1, 3))))
    ensures Widen(b) == w
  {
    BinaryNibble(b, 8);
    BinaryNibble(3, 4);
    assert Binary(0, 0) == [];
    hide Join, Word, Binary;
    var high := [true, true, false, false];
    WordOfNibble(b % 2 == 1, b / 2 % 2 == 1, b / 4 % 2 == 1, b / 8 % 2 == 1, high);
    assert Word(high) == 3 by { WordIsThree(); }
    assert Binary(3, 4) == high;
  }

  lemma NextByte(state: bv32, s: seq<byte>, k: nat, w: bv32, mid: bv32, next: bv32)
    requires k < |s| && Widen(s[k]) == w
    requires FourSteps(Add(state, w)) == mid && FourSteps(mid) == next
    ensures Crc32c(state, s[k..]) == Crc32c(next, s[k + 1..])
  {
    hide FourSteps, Add, Widen, Run;
    EightSteps(Add(state, w));
    assert s[k..][0] == s[k] && s[k..][1..] == s[k + 1..];
  }

  lemma FirstDigits(s: seq<byte>)
    requires s == CheckInput()
    ensures Crc32c(0xffff_ffff, s[0..]) == Crc32c(0xef84_d04d, s[3..])
  {
    hide Crc32c, Widen;
    WidenDigit(0x31, 0x31);
    NextByte(0xffff_ffff, s, 0, 0x31, 0xeccf_57e6, 0x6f0a_661c);
    WidenDigit(0x32, 0x32);
    NextByte(0x6f0a_661c, s, 1, 0x32, 0xe5c0_0e78, 0x8caa_3b9f);
    WidenDigit(0x33, 0x33);
    NextByte(0x8caa_3b9f, s, 2, 0x33, 0xcb47_857e, 0xef84_d04d);
  }

  lemma MiddleDigits(s: seq<byte>)
    requires s == CheckInput()
    ensures Crc32c(0xef84_d04d, s[3..]) == Crc32c(0xbeca_8e79, s[6..])
  {
    hide Crc32c, Widen;
    WidenDigit(0x34, 0x34);
    NextByte(0xef84_d04d, s, 3, 0x34, 0x9c50_b110, 0x09c5_0b11);
    WidenDigit(0x35, 0x35);
    NextByte(0x09c5_0b11, s, 4, 0x35, 0x41e7_4d0e, 0xe72e_dcca);
    WidenDigit(0x36, 0x36);
    NextByte(0xe72e_dcca, s, 5, 0x36, 0xcdff_cb0b, 0xbeca_8e79);
  }

  lemma LastDigits(s: seq<byte>)
    requires s == CheckInput()
    ensures Crc32c(0xbeca_8e79, s[6..]) == Crc32c(0x1cf9_6d7c, s[9..])
  {
    hide Crc32c, Widen;
    WidenDigit(0x37, 0x37);
    NextByte(0xbeca_8e79, s, 6, 0x37, 0xe8dc_00fe, 0xedbd_6815);
    WidenDigit(0x38, 0x38);
    NextByte(0xedbd_6815, s, 7, 0x38, 0xdd08_3729, 0x9f78_7f65);
    WidenDigit(0x39, 0x39);
    NextByte(0x9f78_7f65, s, 8, 0x39, 0xca7a_a131, 0x1cf9_6d7c);
  }

  lemma NoBytes(state: bv32)
    ensures Crc32c(state, []) == state
  {
  }

  /** CRC-32C of the nine digits: 0xe306_9283 once the final complement is taken. */
  lemma CheckValue()
    ensures Crc32c(0xffff_ffff, CheckInput()) == 0x1cf9_6d7c
    ensures Add(Crc32c(0xffff_ffff, CheckInput()), 0xffff_ffff) == 0xe306_9283
  {
    hide Crc32c;
    var s := CheckInput();
    FirstDigits(s);
    MiddleDigits(s);
    LastDigits(s);
    NoBytes(0x1cf9_6d7c);
    assert s[0..] == s && s[9..] == [];
  }

  // ----- The stored word -----

  lemma MasksAreDigits(x: bv32)
    ensures x & 1 != 0 <==> IsOdd(x)
    ensures x & 2 != 0 <==> IsOdd(Half(x))
    ensures x & 4 != 0 <==> IsOdd(Quarter(x))
    ensures x & 8 != 0 <==> IsOdd(Half(Quarter(x)))
  {
  }

  lemma HighMasks(x: bv32)
    ensures x & 16 != 0 <==> Quarter(Quarter(x)) & 1 != 0
    ensures x & 32 != 0 <==> Quarter(Quarter(x)) & 2 != 0
    ensures x & 64 != 0 <==> Quarter(Quarter(x)) & 4 != 0
    ensures x & 128 != 0 <==> Quarter(Quarter(x)) & 8 != 0
  {
  }

  lemma OneBinary(v: nat, n: nat, a: bool, rest: nat)
    requires n >= 1 && v == Weight(a, 1) + 2 * rest
    ensures Binary(v, n) == [a] + Binary(rest, n - 1)
  {
    assert v % 2 == Weight(a, 1) && v / 2 == rest;
  }

  /** The value of four bits. */
  function Nibbled(a: bool, b: bool, c: bool, d: bool): nat {
    Weight(a, 1) + Weight(b, 2) + Weight(c, 4) + Weight(d, 8)
  }

  lemma FourBinary(v: nat, n: nat, a: bool, b: bool, c: bool, d: bool, high: nat)
    requires n >= 4 && v == Nibbled(a, b, c, d) + 16 * high
    ensures Binary(v, n) == [a, b, c, d] + Binary(high, n - 4)
  {
    hide Binary;
    OneBinary(v, n, a, Weight(b, 1) + 2 * (Weight(c, 1) + 2 * (Weight(d, 1) + 2 * high)));
    OneBinary(v / 2, n - 1, b, Weight(c, 1) + 2 * (Weight(d, 1) + 2 * high));
    OneBinary(v / 4, n - 2, c, Weight(d, 1) + 2 * high);
    OneBinary(v / 8, n - 3, d, high);
  }

  lemma SixteenTimes(a: bool, b: bool, c: bool, d: bool)
    ensures Weight(a, 16) + Weight(b, 32) + Weight(c, 64) + Weight(d, 128)
            == 16 * (Weight(a, 1) + Weight(b, 2) + Weight(c, 4) + Weight(d, 8))
  {
  }

  function LowNibble(x: bv32): nat {
    Nibbled(IsOdd(x), IsOdd(Half(x)), IsOdd(Quarter(x)), IsOdd(Half(Quarter(x))))
  }

  lemma LowByteParts(x: bv32)
    ensures LowByte(x) == LowNibble(x) + 16 * LowNibble(Quarter(Quarter(x)))
  {
    hide Weight, Quarter, IsOdd, Half;
    var y := Quarter(Quarter(x));
    HighMasks(x);
    MasksAreDigits(x);
    MasksAreDigits(y);
    SixteenTimes(y & 1 != 0, y & 2 != 0, y & 4 != 0, y & 8 != 0);
  }

  lemma NothingBinary()
    ensures Binary(0, 0) == []
  {
  }

  lemma ByteOfNibbles(v: byte, a: bool, b: bool, c: bool, d: bool, e: bool, f: bool, g: bool, h: bool)
    requires v == Nibbled(a, b, c, d) + 16 * Nibbled(e, f, g, h)
    ensures ByteBits(v) == [a, b, c, d] + [e, f, g, h]
  {
    hide Weight, Binary;
    var high := Nibbled(e, f, g, h);
    FourBinary(v, 8, a, b, c, d, high);
    FourBinary(high, 4, e, f, g, h, 0);
    NothingBinary();
  }

  lemma LowByteBits(x: bv32)
    ensures ByteBits(LowByte(x)) == NibbleBits(x) + NibbleBits(Quarter(Quarter(x)))
  {
    hide LowByte, Nibbled, Half, IsOdd, Quarter, ByteBits;
    var y := Quarter(Quarter(x));
    LowByteParts(x);
    ByteOfNibbles(LowByte(x), IsOdd(x), IsOdd(Half(x)), IsOdd(Quarter(x)), IsOdd(Half(Quarter(x))),
                  IsOdd(y), IsOdd(Half(y)), IsOdd(Quarter(y)), IsOdd(Half(Quarter(y))));
  }

  lemma JoinThree(a: seq<bool>, b: seq<bool>, c: seq<bool>)
    ensures a + b + c == a + (b + c)
  {
  }

  /** The low byte has the eight low bits. */
  lemma ByteDigits(x: bv32, n: nat)
    requires n >= 8
    ensures ByteBits(LowByte(x)) + Digits(DropByte(x), n - 8) == Digits(x, n)
  {
    hide LowByte, NibbleBits, Digits, Quarter, DropByte, ByteBits;
    var y := Quarter(Quarter(x));
    LowByteBits(x);
    DropIsQuarters(x);
    NibbleDigits(x, n);
    NibbleDigits(y, n - 4);
    JoinThree(NibbleBits(x), NibbleBits(y), Digits(DropByte(x), n - 8));
  }

  lemma StoredParts(s: seq<byte>)
    requires |s| == 4
    ensures Bits(s) == ByteBits(s[0]) + (ByteBits(s[1]) + (ByteBits(s[2]) + (ByteBits(s[3]) + [])))
  {
    hide ByteBits;
    assert s[1..][1..] == s[2..] && s[2..][1..] == s[3..] && s[3..][1..] == [];
    assert Bits(s) == ByteBits(s[0]) + Bits(s[1..]);
    assert Bits(s[1..]) == ByteBits(s[1]) + Bits(s[2..]);
    assert Bits(s[2..]) == ByteBits(s[2]) + Bits(s[3..]);
    assert Bits(s[3..]) == ByteBits(s[3]) + [];
  }

  lemma NoneLeft(x: bv32)
    ensures Digits(x, 0) == []
  {
  }

  /** The four stored bytes are the checksum's 32 bits, lowest first. */
  lemma StoredBits(x: bv32)
    ensures Bits(Stored(x)) == Digits(x, 32)
  {
    hide ByteBits, Digits, LowByte, DropByte, Bits;
    StoredParts(Stored(x));
    ByteDigits(x, 32);
    ByteDigits(DropByte(x), 24);
    ByteDigits(DropByte(DropByte(x)), 16);
    ByteDigits(DropByte(DropByte(DropByte(x))), 8);
    NoneLeft(DropByte(DropByte(DropByte(DropByte(x)))));
  }
}
