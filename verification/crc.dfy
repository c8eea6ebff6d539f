/** The superblock checksum: reflected CRC-32C without the final complement. */
module Crc {
  import opened Arithmetic
  import opened Bytes

  // The operations on states are named, so that a proof can treat them as opaque.
  function Add(x: bv32, y: bv32): bv32 {
    x ^ y
  }

  function Half(x: bv32): bv32 {
    x >> 1
  }

  predicate IsOdd(x: bv32) {
    x & 1 != 0
  }

  function Polynomial(): bv32 {
    0x82f6_3b78
  }

  function BitStep(x: bv32): bv32 {
    if IsOdd(x) then Add(Half(x), Polynomial()) else Half(x)
  }

  /** `n` bit steps. */
  function Run(n: nat, x: bv32): bv32 {
    if n == 0 then x else Run(n - 1, BitStep(x))
  }

  function Bit(b: bool): bv32 {
    if b then 1 else 0
  }

  /** The `n` low bits of a number, lowest first. */
  function Binary(b: nat, n: nat): (r: seq<bool>)
    ensures |r| == n
  {
    if n == 0 then [] else [b % 2 == 1] + Binary(b / 2, n - 1)
  }

  function ByteBits(b: byte): (r: seq<bool>)
    ensures |r| == 8
  {
    Binary(b, 8)
  }

  /** `low` below the bits of `high`. */
  function Join(low: bool, high: bv32): bv32 {
    if low then 1 | (high << 1) else high << 1
  }

  /** Up to 32 bits as a word, lowest first. */
  function Word(bits: seq<bool>): bv32 {
    if |bits| == 0 then 0 else Join(bits[0], Word(bits[1..]))
  }

  /** A byte as a word. */
  function Widen(b: byte): bv32 {
    Word(ByteBits(b))
  }

  /** The checksum state after `s`, from `seed`: each byte is added in, then eight bit steps follow. */
  function Crc32c(seed: bv32, s: seq<byte>): bv32
    decreases |s|
  {
    if |s| == 0 then seed else Crc32c(Run(8, Add(seed, Widen(s[0]))), s[1..])
  }

  /** The loop of the implementation computes `Crc32c`. */
  method Compute(seed: bv32, s: seq<byte>) returns (crc: bv32)
    ensures crc == Crc32c(seed, s)
  {
    hide BitStep, Widen, Add;
    crc := seed;
    for i := 0 to |s|
      invariant Crc32c(crc, s[i..]) == Crc32c(seed, s)
    {
      assert s[i..][1..] == s[i + 1..];
      crc := Add(crc, Widen(s[i]));
      ghost var mixed := crc;
      for j := 0 to 8
        invariant Run(8 - j, crc) == Run(8, mixed)
      {
        crc := BitStep(crc);
      }
    }
  }

  /** The reference: a shift register fed one message bit at a time. */
  function Serial(state: bv32, bits: seq<bool>): bv32
    decreases |bits|
  {
    if |bits| == 0 then state else Serial(BitStep(Add(state, Bit(bits[0]))), bits[1..])
  }

  function Bits(s: seq<byte>): (r: seq<bool>)
    ensures |r| == 8 * |s|
  {
    if |s| == 0 then [] else ByteBits(s[0]) + Bits(s[1..])
  }

  // ---------- the bit step is linear and reversible ----------

  lemma OddSum(x: bv32, y: bv32)
    ensures IsOdd(Add(x, y)) <==> IsOdd(x) != IsOdd(y)
  {
  }

  lemma HalfSum(x: bv32, y: bv32)
    ensures Half(Add(x, y)) == Add(Half(x), Half(y))
  {
  }

  lemma AddAssociative(x: bv32, y: bv32, z: bv32)
    ensures Add(x, Add(y, z)) == Add(Add(x, y), z)
  {
  }

  lemma AddCommutes(x: bv32, y: bv32)
    ensures Add(x, y) == Add(y, x)
  {
  }

  lemma AddSelf(x: bv32)
    ensures Add(x, x) == 0 && Add(x, 0) == x
  {
  }

  lemma AddSwap(x: bv32, y: bv32, p: bv32)
    ensures Add(Add(x, p), y) == Add(Add(x, y), p)
  {
    hide Add;
    AddAssociative(x, p, y);
    AddCommutes(p, y);
    AddAssociative(x, y, p);
  }

  lemma AddTwice(x: bv32, y: bv32, p: bv32)
    ensures Add(Add(x, p), Add(y, p)) == Add(x, y)
  {
    hide Add;
    AddAssociative(Add(x, p), y, p);
    AddSwap(x, y, p);
    AddAssociative(Add(x, y), p, p);
    AddSelf(p);
    AddSelf(Add(x, y));
  }

  lemma StepLinear(x: bv32, y: bv32)
    ensures BitStep(Add(x, y)) == Add(BitStep(x), BitStep(y))
  {
    hide Add, Half, IsOdd, Polynomial;
    OddSum(x, y);
    HalfSum(x, y);
    AddTwice(Half(x), Half(y), Polynomial());
    AddSwap(Half(x), Half(y), Polynomial());
    AddAssociative(Half(x), Half(y), Polynomial());
  }

  predicate HasTop(x: bv32) {
    x & 0x8000_0000 != 0
  }

  function Double(x: bv32): bv32 {
    x << 1
  }

  /** Only an odd state leaves the top bit set, so the step can be undone. */
  function BitUnstep(y: bv32): bv32 {
    if HasTop(y) then Add(Double(Add(y, Polynomial())), 1) else Double(y)
  }

  lemma HalfTop(x: bv32)
    ensures !HasTop(Half(x)) && HasTop(Add(Half(x), Polynomial()))
    ensures Add(Add(Half(x), Polynomial()), Polynomial()) == Half(x)
  {
  }

  lemma HalfDouble(x: bv32)
    ensures if IsOdd(x) then Add(Double(Half(x)), 1) == x else Double(Half(x)) == x
  {
  }

  lemma StepUndone(x: bv32)
    ensures BitUnstep(BitStep(x)) == x
  {
    hide Add, Half, IsOdd, Polynomial, Double, HasTop;
    HalfTop(x);
    HalfDouble(x);
  }

  lemma {:induction false} RunInjective(n: nat, x: bv32, y: bv32)
    ensures Run(n, x) == Run(n, y) <==> x == y
    decreases n
  {
    if n > 0 {
      hide BitStep, BitUnstep;
      StepUndone(x);
      StepUndone(y);
      RunInjective(n - 1, BitStep(x), BitStep(y));
    }
  }

  // ---------- byte-wise and bit-wise agree ----------

  lemma ShiftStep(w: bv32)
    requires w <= 0x7fff_ffff
    ensures BitStep(w << 1) == w
  {
  }

  /** A mask of the `n` low bits. */
  function LowMask(n: nat): bv32
    decreases 32 - n
  {
    if n >= 32 then 0xffff_ffff else LowMask(n + 1) >> 1
  }

  lemma LowMaskOne()
    ensures LowMask(1) == 1
  {
    assert LowMask(30) == 0x3fff_ffff;
    assert LowMask(28) == 0x0fff_ffff;
    assert LowMask(26) == 0x03ff_ffff;
    assert LowMask(24) == 0x00ff_ffff;
    assert LowMask(22) == 0x003f_ffff;
    assert LowMask(20) == 0x000f_ffff;
    assert LowMask(18) == 0x0003_ffff;
    assert LowMask(16) == 0xffff;
    assert LowMask(14) == 0x3fff;
    assert LowMask(12) == 0x0fff;
    assert LowMask(10) == 0x03ff;
    assert LowMask(8) == 0xff;
    assert LowMask(6) == 0x3f;
    assert LowMask(4) == 0xf;
    assert LowMask(3) == 7;
  }

  lemma MaskShift(m: bv32)
    requires m & (m + 1) == 0 && m != 0
    ensures m & 1 == 1
  {
  }

  lemma MaskHalf(m: bv32)
    requires m & (m + 1) == 0
    ensures (m >> 1) & ((m >> 1) + 1) == 0
  {
  }

  lemma {:induction false} LowMaskShape(n: nat)
    ensures LowMask(n) & (LowMask(n) + 1) == 0
    decreases 32 - n
  {
    if n < 32 {
      LowMaskShape(n + 1);
      MaskHalf(LowMask(n + 1));
    }
  }

  lemma Halved(m: bv32)
    ensures m >> 1 >= 1 ==> m != 0
  {
  }

  lemma {:induction false} LowMaskOdd(n: nat)
    requires n >= 1
    ensures LowMask(n) >= 1 && LowMask(n) & 1 == 1
    decreases n
  {
    LowMaskShape(n);
    if n == 1 {
      LowMaskOne();
    } else if n <= 32 {
      LowMaskOdd(n - 1);
      Halved(LowMask(n));
    }
    MaskShift(LowMask(n));
  }

  lemma TopClear(w: bv32, m: bv32)
    requires w & !(m >> 1) == 0
    ensures w <= 0x7fff_ffff
  {
  }

  /** `w` has no bit outside `m`. */
  predicate Within(w: bv32, m: bv32) {
    w & !m == 0
  }

  lemma JoinIs(w: bv32)
    ensures Join(true, w) == 1 | (w << 1) && Join(false, w) == w << 1
  {
  }

  lemma ShiftWithinOne(w: bv32, m: bv32)
    requires m & 1 == 1 && w & !(m >> 1) == 0
    ensures (1 | (w << 1)) & !m == 0
  {
  }

  lemma ShiftWithin(w: bv32, m: bv32)
    requires w & !(m >> 1) == 0
    ensures (w << 1) & !m == 0
  {
  }

  lemma JoinWithin(b: bool, w: bv32, m: bv32)
    requires m & 1 == 1 && Within(w, m >> 1)
    ensures Within(Join(b, w), m)
  {
    hide Join;
    JoinIs(w);
    if b {
      ShiftWithinOne(w, m);
    } else {
      ShiftWithin(w, m);
    }
  }

  lemma LowMaskStep(n: nat)
    requires n < 32
    ensures LowMask(n) == LowMask(n + 1) >> 1
  {
  }

  lemma {:induction false} WordRange(bits: seq<bool>)
    requires |bits| <= 32
    ensures Within(Word(bits), LowMask(|bits|))
    decreases |bits|
  {
    if |bits| > 0 {
      hide Within, Join, LowMask;
      WordRange(bits[1..]);
      LowMaskOdd(|bits|);
      LowMaskStep(|bits| - 1);
      JoinWithin(bits[0], Word(bits[1..]), LowMask(|bits|));
    } else {
      assert (0 as bv32) & !LowMask(0) == 0;
    }
  }

  /** Fewer than 32 bits leave the top bit of the word clear. */
  lemma ShortWord(bits: seq<bool>)
    requires |bits| < 32
    ensures Word(bits) <= 0x7fff_ffff
  {
    hide LowMask, Word;
    WordRange(bits);
    LowMaskStep(|bits|);
    TopClear(Word(bits), LowMask(|bits| + 1));
  }

  lemma AddIs(x: bv32, y: bv32)
    ensures Add(x, y) == x ^ y
  {
  }

  lemma LowOne(w: bv32)
    ensures 1 | (w << 1) == 1 ^ (w << 1)
  {
  }

  lemma LowZero(w: bv32)
    ensures w << 1 == 0 ^ (w << 1)
  {
  }

  lemma JoinSplit(b: bool, w: bv32)
    ensures Join(b, w) == Add(Bit(b), w << 1)
  {
    if b {
      AddIs(1, w << 1);
      LowOne(w);
    } else {
      AddIs(0, w << 1);
      LowZero(w);
    }
  }

  lemma JoinSum(s: bv32, b: bool, w: bv32)
    ensures Add(s, Join(b, w)) == Add(Add(s, Bit(b)), w << 1)
  {
    hide Add, Join, Bit;
    JoinSplit(b, w);
    AddAssociative(s, Bit(b), w << 1);
  }

  /** A bit added low and a word added one place higher: the step meets the bit first. */
  lemma JoinStep(state: bv32, b: bool, w: bv32)
    requires w <= 0x7fff_ffff
    ensures BitStep(Add(state, Join(b, w))) == Add(BitStep(Add(state, Bit(b))), w)
  {
    hide BitStep;
    StepLinear(Add(state, Bit(b)), w << 1);
    ShiftStep(w);
    JoinSum(state, b, w);
  }

  /** Feeding up to 32 bits one by one is adding them all at once and running as many steps. */
  lemma {:induction false} SerialIsRun(state: bv32, bits: seq<bool>)
    requires |bits| <= 32
    ensures Serial(state, bits) == Run(|bits|, Add(state, Word(bits)))
    decreases |bits|
  {
    if |bits| == 0 {
      assert state ^ 0 == state;
    } else {
      hide BitStep, Add, Join, Bit;
      var rest := bits[1..];
      SerialIsRun(BitStep(Add(state, Bit(bits[0]))), rest);
      ShortWord(rest);
      JoinStep(state, bits[0], Word(rest));
    }
  }

  lemma {:induction false} SerialJoin(state: bv32, a: seq<bool>, b: seq<bool>)
    ensures Serial(state, a + b) == Serial(Serial(state, a), b)
    decreases |a|
  {
    if |a| == 0 {
      assert a + b == b;
    } else {
      hide BitStep, Add, Bit;
      assert (a + b)[1..] == a[1..] + b;
      SerialJoin(BitStep(Add(state, Bit(a[0]))), a[1..], b);
    }
  }

  /** The byte-wise checksum is the bit-serial one. */
  lemma {:induction false} CrcIsSerial(seed: bv32, s: seq<byte>)
    ensures Crc32c(seed, s) == Serial(seed, Bits(s))
    decreases |s|
  {
    if |s| > 0 {
      hide BitStep, ByteBits, Word, Run, Serial, Add;
      SerialIsRun(seed, ByteBits(s[0]));
      SerialJoin(seed, ByteBits(s[0]), Bits(s[1..]));
      CrcIsSerial(Run(8, Add(seed, Widen(s[0]))), s[1..]);
    } else {
      assert Serial(seed, []) == seed;
    }
  }

  // ---------- error detection ----------

  lemma BackFromOdd(w: bv32)
    requires w <= 0x7fff_ffff
    ensures Half(1 | (w << 1)) == w && IsOdd(1 | (w << 1))
  {
  }

  lemma BackFromEven(w: bv32)
    requires w <= 0x7fff_ffff
    ensures Half(w << 1) == w && !IsOdd(w << 1)
  {
  }

  lemma JoinedBack(b: bool, w: bv32)
    requires w <= 0x7fff_ffff
    ensures Half(Join(b, w)) == w && (IsOdd(Join(b, w)) <==> b)
  {
    hide Join, Half, IsOdd;
    JoinIs(w);
    if b {
      BackFromOdd(w);
    } else {
      BackFromEven(w);
    }
  }

  lemma JoinInjective(a: bool, v: bv32, b: bool, w: bv32)
    requires v <= 0x7fff_ffff && w <= 0x7fff_ffff
    requires Join(a, v) == Join(b, w)
    ensures a == b && v == w
  {
    hide Join, Half, IsOdd;
    JoinedBack(a, v);
    JoinedBack(b, w);
  }

  lemma {:induction false} WordInjective(a: seq<bool>, b: seq<bool>)
    requires |a| == |b| <= 32
    requires Word(a) == Word(b)
    ensures a == b
  {
    if |a| > 0 {
      hide Join;
      ShortWord(a[1..]);
      ShortWord(b[1..]);
      JoinInjective(a[0], Word(a[1..]), b[0], Word(b[1..]));
      WordInjective(a[1..], b[1..]);
      assert a == [a[0]] + a[1..];
      assert b == [b[0]] + b[1..];
    }
  }

  lemma AddInjective(s: bv32, x: bv32, y: bv32)
    ensures Add(s, x) == Add(s, y) <==> x == y
    ensures Add(x, s) == Add(y, s) <==> x == y
  {
  }

  lemma {:induction false} SerialInjective(x: bv32, y: bv32, bits: seq<bool>)
    ensures Serial(x, bits) == Serial(y, bits) <==> x == y
    decreases |bits|
  {
    if |bits| > 0 {
      hide BitStep, BitUnstep, Add, Bit;
      var b := Bit(bits[0]);
      StepUndone(Add(x, b));
      StepUndone(Add(y, b));
      AddInjective(b, x, y);
      SerialInjective(BitStep(Add(x, b)), BitStep(Add(y, b)), bits[1..]);
    }
  }

  /** Two messages that differ only inside a burst of at most 32 bits never share a checksum. */
  lemma BurstDetected(seed: bv32, p: seq<bool>, a: seq<bool>, b: seq<bool>, t: seq<bool>)
    requires |a| == |b| <= 32
    ensures Serial(seed, p + a + t) == Serial(seed, p + b + t) <==> a == b
  {
    hide Serial, Run, Word, Add;
    var state := Serial(seed, p);
    SerialJoin(seed, p, a);
    SerialJoin(seed, p, b);
    SerialJoin(seed, p + a, t);
    SerialJoin(seed, p + b, t);
    SerialInjective(Serial(state, a), Serial(state, b), t);
    SerialIsRun(state, a);
    SerialIsRun(state, b);
    RunInjective(|a|, Add(state, Word(a)), Add(state, Word(b)));
    AddInjective(state, Word(a), Word(b));
    if Word(a) == Word(b) {
      WordInjective(a, b);
    }
  }

  lemma {:induction false} BitsJoin(a: seq<byte>, b: seq<byte>)
    ensures Bits(a + b) == Bits(a) + Bits(b)
  {
    if |a| == 0 {
      assert a + b == b;
    } else {
      hide ByteBits;
      assert (a + b)[1..] == a[1..] + b;
      BitsJoin(a[1..], b);
      assert ByteBits(a[0]) + (Bits(a[1..]) + Bits(b)) == Bits(a) + Bits(b);
    }
  }

  lemma {:induction false} BinaryInjective(a: nat, b: nat, n: nat)
    requires a < Pow2(n) && b < Pow2(n)
    requires Binary(a, n) == Binary(b, n)
    ensures a == b
  {
    if n > 0 {
      assert Binary(a, n)[0] == Binary(b, n)[0];
      assert Binary(a, n)[1..] == Binary(a / 2, n - 1) && Binary(b, n)[1..] == Binary(b / 2, n - 1);
      BinaryInjective(a / 2, b / 2, n - 1);
    }
  }

  lemma ByteBitsInjective(a: byte, b: byte)
    requires ByteBits(a) == ByteBits(b)
    ensures a == b
  {
    assert Pow2(4) == 16 && Pow2(8) == 16 * Pow2(4) by {
      assert Pow2(6) == 4 * Pow2(4);
    }
    BinaryInjective(a, b, 8);
  }

  lemma {:induction false} BitsInjective(a: seq<byte>, b: seq<byte>)
    requires |a| == |b| && Bits(a) == Bits(b)
    ensures a == b
  {
    if |a| > 0 {
      hide ByteBits;
      assert Bits(a)[..8] == ByteBits(a[0]) && Bits(b)[..8] == ByteBits(b[0]);
      assert Bits(a)[8..] == Bits(a[1..]) && Bits(b)[8..] == Bits(b[1..]);
      ByteBitsInjective(a[0], b[0]);
      BitsInjective(a[1..], b[1..]);
      assert a == [a[0]] + a[1..];
      assert b == [b[0]] + b[1..];
    }
  }

  /** Inputs of one length that differ, but only inside a window of four consecutive bytes, always
      get different checksums from the same seed. */
  lemma WindowDetected(seed: bv32, s: seq<byte>, t: seq<byte>, at: nat)
    requires |s| == |t| && s != t
    requires forall k :: 0 <= k < |s| && !(at <= k < at + 4) ==> s[k] == t[k]
    ensures Crc32c(seed, s) != Crc32c(seed, t)
  {
    hide Crc32c, Serial, Bits;
    var n := |s|;
    var lo := if at <= n then at else n;
    var hi := if at + 4 <= n then at + 4 else n;
    var p, a, b, z := s[..lo], s[lo..hi], t[lo..hi], s[hi..];
    assert s == p + a + z && t == p + b + z;
    BitsJoin(p, a);
    BitsJoin(p, b);
    BitsJoin(p + a, z);
    BitsJoin(p + b, z);
    CrcIsSerial(seed, s);
    CrcIsSerial(seed, t);
    BurstDetected(seed, Bits(p), Bits(a), Bits(b), Bits(z));
    if Bits(a) == Bits(b) {
      BitsInjective(a, b);
    }
  }

  // ---------- the stored word ----------

  function DropByte(x: bv32): bv32 {
    x >> 8
  }

  function Weight(bit: bool, weight: nat): nat {
    if bit then weight else 0
  }

  function LowByte(x: bv32): byte {
    Weight(x & 1 != 0, 1) + Weight(x & 2 != 0, 2) + Weight(x & 4 != 0, 4) + Weight(x & 8 != 0, 8)
    + Weight(x & 16 != 0, 16) + Weight(x & 32 != 0, 32) + Weight(x & 64 != 0, 64) + Weight(x & 128 != 0, 128)
  }

  /** The four bytes of a checksum, lowest first. */
  function Stored(x: bv32): (r: seq<byte>)
    ensures |r| == 4
  {
    var second := DropByte(x);
    var third := DropByte(second);
    [LowByte(x), LowByte(second), LowByte(third), LowByte(DropByte(third))]
  }

  /** A byte with its lowest bit the other way round. */
  function Flip(b: byte): byte {
    if b % 2 == 0 then b + 1 else b - 1
  }

  lemma FlipBits(x: bv32)
    ensures (x ^ 1) & 1 != 0 <==> x & 1 == 0
    ensures (x ^ 1) & 2 == x & 2 && (x ^ 1) & 4 == x & 4 && (x ^ 1) & 8 == x & 8
    ensures (x ^ 1) & 16 == x & 16 && (x ^ 1) & 32 == x & 32 && (x ^ 1) & 64 == x & 64
    ensures (x ^ 1) & 128 == x & 128
  {
  }

  lemma FlipLow(x: bv32)
    ensures LowByte(Add(x, 1)) == Flip(LowByte(x))
  {
    hide Add;
    AddIs(x, 1);
    FlipBits(x);
  }

  lemma FlipHigh(x: bv32)
    ensures DropByte(Add(x, 1)) == DropByte(x)
  {
  }

  /** Inverting the lowest bit of the checksum changes one bit of its stored form and nothing else. */
  lemma InvertedStored(x: bv32)
    ensures Stored(Add(x, 1)) == Stored(x)[0 := Flip(Stored(x)[0])]
    ensures Stored(Add(x, 1)) != Stored(x)
  {
    hide LowByte, DropByte, Add;
    FlipHigh(x);
    FlipLow(x);
  }
}
