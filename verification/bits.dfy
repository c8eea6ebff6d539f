/** Bit operations on words of any width, digit by digit, and words as little-endian bytes. */
module Bits {
  import opened Arithmetic
  import opened Bytes

  /** Bit `i` of `v`. */
  predicate Bit(v: nat, i: nat) {
    if i == 0 then v % 2 == 1 else Bit(v / 2, i - 1)
  }

  function And(a: nat, b: nat): nat {
    if a == 0 || b == 0 then 0 else (if a % 2 == 1 && b % 2 == 1 then 1 else 0) + 2 * And(a / 2, b / 2)
  }

  function Or(a: nat, b: nat): nat
    decreases a + b
  {
    if a == 0 then b
    else if b == 0 then a
    else (if a % 2 == 1 || b % 2 == 1 then 1 else 0) + 2 * Or(a / 2, b / 2)
  }

  /** `a & !b`. */
  function Clear(a: nat, b: nat): nat {
    if a == 0 then 0 else (if a % 2 == 1 && b % 2 == 0 then 1 else 0) + 2 * Clear(a / 2, b / 2)
  }

  lemma {:induction false} ZeroBits(i: nat)
    ensures !Bit(0, i)
  {
    if i > 0 { ZeroBits(i - 1); }
  }

  lemma {:induction false} AndBits(a: nat, b: nat, i: nat)
    ensures Bit(And(a, b), i) <==> Bit(a, i) && Bit(b, i)
    decreases i
  {
    ZeroBits(i);
    if a != 0 && b != 0 && i > 0 { AndBits(a / 2, b / 2, i - 1); }
  }

  lemma {:induction false} OrBits(a: nat, b: nat, i: nat)
    ensures Bit(Or(a, b), i) <==> Bit(a, i) || Bit(b, i)
    decreases i
  {
    ZeroBits(i);
    if a != 0 && b != 0 && i > 0 { OrBits(a / 2, b / 2, i - 1); }
  }

  lemma {:induction false} ClearBits(a: nat, b: nat, i: nat)
    ensures Bit(Clear(a, b), i) <==> Bit(a, i) && !Bit(b, i)
    decreases i
  {
    ZeroBits(i);
    if a != 0 && i > 0 { ClearBits(a / 2, b / 2, i - 1); }
  }

  /** A power of two has one bit. */
  lemma {:induction false} PowerBit(n: nat, i: nat)
    ensures Bit(Pow2(n), i) <==> i == n
    decreases i
  {
    if i > 0 && n > 0 {
      PowerBit(n - 1, i - 1);
    } else if i > 0 {
      ZeroBits(i - 1);
    }
  }

  lemma {:induction false} OrAtLeast(a: nat, b: nat)
    ensures Or(a, b) >= a && Or(a, b) >= b
    decreases a + b
  {
    if a != 0 && b != 0 { OrAtLeast(a / 2, b / 2); }
  }

  lemma {:induction false} OrBound(a: nat, b: nat, n: nat)
    ensures Or(a, b) < Pow2(n) <==> a < Pow2(n) && b < Pow2(n)
    decreases n
  {
    OrAtLeast(a, b);
    if n > 0 && a != 0 && b != 0 { OrBound(a / 2, b / 2, n - 1); }
  }

  lemma {:induction false} ClearBound(a: nat, b: nat)
    ensures Clear(a, b) <= a
    decreases a
  {
    if a > 0 { ClearBound(a / 2, b / 2); }
  }

  lemma {:induction false} ClearNothing(a: nat)
    ensures Clear(a, 0) == a
    decreases a
  {
    if a > 0 { ClearNothing(a / 2); }
  }

  /** Nothing is left above a mask of `n` low bits exactly when the value fits into them. */
  lemma {:induction false} AboveMask(a: nat, n: nat)
    ensures Clear(a, Pow2(n) - 1) == 0 <==> a < Pow2(n)
    decreases n
  {
    if n == 0 {
      ClearNothing(a);
    } else {
      assert (Pow2(n) - 1) / 2 == Pow2(n - 1) - 1;
      AboveMask(a / 2, n - 1);
    }
  }

  lemma {:induction false} PowerOfBytes(n: nat)
    ensures Pow256(n) == Pow2(8 * n)
  {
    if n > 0 {
      PowerOfBytes(n - 1);
      var p := Pow2(8 * n - 8);
      assert Pow2(8 * n - 4) == 16 * p by {
        assert Pow2(8 * n - 6) == 4 * p;
      }
      assert Pow2(8 * n) == 256 * p by {
        assert Pow2(8 * n - 2) == 4 * Pow2(8 * n - 4);
      }
    }
  }

  /** Byte `i` of `v` replaced by `b`. */
  function ReplaceByte(v: nat, i: nat, b: byte): nat {
    if i == 0 then v / 256 * 256 + b else v % 256 + 256 * ReplaceByte(v / 256, i - 1, b)
  }

  /** Replacing a byte of the word is replacing that byte of its bytes. */
  lemma {:induction false} ReplaceIsUpdate(s: seq<byte>, i: nat, b: byte)
    requires i < |s|
    ensures ReplaceByte(LeVal(s), i, b) == LeVal(s[i := b])
  {
    if i == 0 {
      assert s[0 := b][1..] == s[1..];
    } else {
      assert s[i := b][1..] == s[1..][i - 1 := b];
      ReplaceIsUpdate(s[1..], i - 1, b);
    }
  }

  /** Words without a set bit are zero. */
  lemma {:induction false} SetBit(v: nat) returns (i: nat)
    requires v > 0
    ensures Bit(v, i)
  {
    if v % 2 == 1 {
      i := 0;
    } else {
      var j := SetBit(v / 2);
      i := j + 1;
    }
  }

  /** No common bit. */
  lemma Disjoint(a: nat, b: nat)
    ensures And(a, b) == 0 <==> forall i: nat :: !(Bit(a, i) && Bit(b, i))
  {
    hide And, Bit;
    if And(a, b) != 0 {
      var i := SetBit(And(a, b));
      AndBits(a, b, i);
    } else {
      forall i: nat ensures !(Bit(a, i) && Bit(b, i)) {
        AndBits(a, b, i);
        ZeroBits(i);
      }
    }
  }

  /** A mask of `n` low bits has those and no others. */
  lemma {:induction false} MaskBits(n: nat, i: nat)
    ensures Bit(Pow2(n) - 1, i) <==> i < n
    decreases n
  {
    if n == 0 {
      ZeroBits(i);
    } else if i > 0 {
      assert (Pow2(n) - 1) / 2 == Pow2(n - 1) - 1;
      MaskBits(n - 1, i - 1);
    } else {
      assert (Pow2(n) - 1) % 2 == 1;
    }
  }

  /** Two words fit `n` bits together. */
  lemma BothFit(a: nat, b: nat, n: nat)
    ensures Clear(Or(a, b), Pow2(n) - 1) == 0 <==> forall i: nat :: i >= n ==> !Bit(a, i) && !Bit(b, i)
  {
    hide Or, Clear, Bit, Pow2;
    var rest := Clear(Or(a, b), Pow2(n) - 1);
    if rest != 0 {
      var i := SetBit(rest);
      ClearBits(Or(a, b), Pow2(n) - 1, i);
      OrBits(a, b, i);
      MaskBits(n, i);
    } else {
      forall i: nat | i >= n ensures !Bit(a, i) && !Bit(b, i) {
        ClearBits(Or(a, b), Pow2(n) - 1, i);
        OrBits(a, b, i);
        MaskBits(n, i);
        ZeroBits(i);
      }
    }
  }
}
