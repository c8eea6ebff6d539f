/** Powers of two, division and multiplication on natural numbers. */
module Arithmetic {

  function Pow2(bits: nat): (r: nat)
    ensures r >= 1
  {
    if bits == 0 then 1 else 2 * Pow2(bits - 1)
  }

  function Min(a: nat, b: nat): nat {
    if a <= b then a else b
  }

  function Quotient(a: nat, b: nat): (r: nat)
    requires b > 0
  {
    a / b
  }

  function DivCeil(a: nat, b: nat): (r: nat)
    requires b > 0
  {
    if a % b == 0 then a / b else a / b + 1
  }

  lemma MulOrder(x: nat, y: nat, b: nat)
    requires b > 0
    ensures x < y ==> (x + 1) * b <= y * b
    ensures x >= y ==> x * b >= y * b
  {
  }

  lemma DivUnique(a: nat, b: nat, q: nat, r: nat)
    requires b > 0 && r < b && a == q * b + r
    ensures a / b == q && a % b == r
  {
    var d := a / b;
    assert d * b + a % b == a;
    MulOrder(d, q, b);
    MulOrder(q, d, b);
  }

  lemma Positive(b: nat, c: nat)
    requires b > 0 && c > 0
    ensures b * c > 0
  {
  }

  lemma Regrouped(q: nat, f: nat, b: nat, c: nat)
    ensures (q * c + f) * b == q * (b * c) + f * b
  {
  }

  lemma InsideChunk(f: nat, r: nat, b: nat, c: nat)
    requires f < c && r < b
    ensures f * b + r < b * c
  {
    MulOrder(f, c, b);
  }

  /** Chunk `q`, block `f` of the chunk and byte `r` of the block, as one offset and back. */
  lemma Compose(a: nat, q: nat, f: nat, r: nat, b: nat, c: nat)
    requires b > 0 && c > 0 && f < c && r < b
    requires a == (q * c + f) * b + r
    ensures b * c > 0 && a / (b * c) == q && a % (b * c) / b == f
  {
    Positive(b, c);
    Regrouped(q, f, b, c);
    InsideChunk(f, r, b, c);
    DivUnique(a, b * c, q, f * b + r);
    DivUnique(f * b + r, b, f, r);
  }

  /** A chunk index and a block index inside the chunk are the plain block index, split. */
  lemma ChunkSplit(a: nat, b: nat, c: nat)
    requires b > 0 && c > 0
    ensures b * c > 0
    ensures a / (b * c) == a / b / c && a % (b * c) / b == a / b % c
  {
    var m := a / b;
    assert m == m / c * c + m % c;
    Compose(a, m / c, m % c, a % b, b, c);
  }

  lemma {:induction false} Pow2Sum(a: nat, b: nat)
    ensures Pow2(a + b) == Pow2(b) * Pow2(a)
  {
    if a > 0 { Pow2Sum(a - 1, b); }
  }

  lemma Quadruple(a: nat, q: nat)
    ensures a * (4 * q) % 4 == 0
  {
    assert a * (4 * q) == 4 * (a * q);
    DivUnique(4 * (a * q), 4, a * q, 0);
  }

  lemma FourTimes(a: nat, bits: nat)
    requires bits >= 2
    ensures a * Pow2(bits) % 4 == 0
  {
    assert Pow2(bits) == 2 * Pow2(bits - 1) == 4 * Pow2(bits - 2);
    Quadruple(a, Pow2(bits - 2));
  }

  lemma {:induction false} Pow2Grows(a: nat, b: nat)
    requires a <= b
    ensures Pow2(a) <= Pow2(b)
    decreases b
  {
    if a < b { Pow2Grows(a, b - 1); }
  }

  lemma Pow2Words()
    ensures Pow2(8) == 0x100 && Pow2(16) == 0x1_0000 && Pow2(32) == 0x1_0000_0000
    ensures Pow2(64) == 0x1_0000_0000_0000_0000 && Pow2(63) == 0x8000_0000_0000_0000
  {
    assert Pow2(4) == 16;
    Pow2Sum(4, 4);
    Pow2Sum(8, 8);
    Pow2Sum(16, 16);
    Pow2Sum(32, 32);
  }
}
