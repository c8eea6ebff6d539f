/** Bytes, little-endian integers and byte-string helpers shared by every component. */
module Bytes {

  type byte = x: int | 0 <= x < 256

  type u16 = x: int | 0 <= x < 0x1_0000

  type u32 = x: int | 0 <= x < 0x1_0000_0000

  type u64 = x: int | 0 <= x < 0x1_0000_0000_0000_0000

  type i64 = x: int | -0x8000_0000_0000_0000 <= x < 0x8000_0000_0000_0000

  const U16_MAX: nat := 0xffff

  const U32_MAX: nat := 0xffff_ffff

  const U64_MAX: nat := 0xffff_ffff_ffff_ffff

  function Zeros(n: nat): (s: seq<byte>)
    ensures |s| == n
    ensures forall i :: 0 <= i < n ==> s[i] == 0
  {
    seq(n, _ => 0)
  }

  function Pow256(width: nat): (r: nat)
    ensures r >= 1
  {
    if width == 0 then 1 else 256 * Pow256(width - 1)
  }

  lemma Pow256Values()
    ensures Pow256(1) == 0x100
    ensures Pow256(2) == 0x1_0000
    ensures Pow256(4) == 0x1_0000_0000
    ensures Pow256(8) == 0x1_0000_0000_0000_0000
  {
    assert Pow256(2) == 256 * Pow256(1);
    assert Pow256(4) == 256 * Pow256(3) == 256 * 256 * Pow256(2);
    assert Pow256(6) == 256 * Pow256(5) == 256 * 256 * Pow256(4);
    assert Pow256(8) == 256 * Pow256(7) == 256 * 256 * Pow256(6);
  }

  /** The `width` low-order bytes of `v`, least significant first (`to_le_bytes`). */
  function LeBytes(v: nat, width: nat): (s: seq<byte>)
    ensures |s| == width
  {
    if width == 0 then [] else [v % 256] + LeBytes(v / 256, width - 1)
  }

  /** The value of a little-endian byte string (`from_le_bytes`). */
  function LeVal(s: seq<byte>): nat {
    if s == [] then 0 else s[0] + 256 * LeVal(s[1..])
  }

  lemma {:induction false} LeValBound(s: seq<byte>)
    ensures LeVal(s) < Pow256(|s|)
  {
    if s != [] { LeValBound(s[1..]); }
  }

  lemma {:induction false} LeRoundTrip(v: nat, width: nat)
    requires v < Pow256(width)
    ensures LeVal(LeBytes(v, width)) == v
  {
    if width > 0 {
      var s := LeBytes(v, width);
      assert s[1..] == LeBytes(v / 256, width - 1);
      LeRoundTrip(v / 256, width - 1);
    }
  }

  /** `s` with `patch` written over the bytes at `offset`. */
  function Blit(s: seq<byte>, offset: nat, patch: seq<byte>): (r: seq<byte>)
    requires offset + |patch| <= |s|
    ensures |r| == |s|
    ensures forall k :: 0 <= k < |s| ==>
      r[k] == if offset <= k < offset + |patch| then patch[k - offset] else s[k]
  {
    s[..offset] + patch + s[offset + |patch|..]
  }

  /** The last field of a prefix of `h` reads back, and the rest of the prefix is one too. */
  lemma PeelField(p: seq<byte>, f: seq<byte>, h: seq<byte>)
    requires p + f <= h
    ensures p <= h && |p| + |f| <= |h| && h[|p|..|p| + |f|] == f
  {
    assert h[..|p| + |f|] == p + f;
    assert h[|p|..|p| + |f|] == h[..|p| + |f|][|p|..];
  }

  /** A slice of a slice. */
  lemma SubSlice(s: seq<byte>, lo: nat, hi: nat, i: nat, j: nat)
    requires lo <= hi <= |s| && i <= j <= hi - lo
    ensures s[lo..hi][i..j] == s[lo + i..lo + j]
  {
    assert forall t :: 0 <= t < j - i ==> s[lo..hi][i..j][t] == s[lo + i..lo + j][t];
  }

  /** A slice of a prefix is a slice of the whole. */
  lemma PrefixSlice(p: seq<byte>, h: seq<byte>, i: nat, j: nat)
    requires p <= h && i <= j <= |p|
    ensures h[i..j] == p[i..j]
  {
    assert h[..|p|] == p;
    SubSlice(h, 0, |p|, i, j);
  }

  /** A prefix of a piece of `data`, read where `data` lies in `s`. */
  lemma SliceChain(s: seq<byte>, data: seq<byte>, start: nat, off: nat, len: nat, m: nat)
    requires start + |data| <= |s| && s[start..start + |data|] == data
    requires m <= len && off + len <= |data|
    ensures s[start + off..start + off + m] == data[off..off + len][..m]
  {
    SubSlice(s, start, start + |data|, off, off + m);
    SubSlice(data, off, off + len, 0, m);
  }

  /** Cutting a padded string inside its padding. */
  lemma CutPadding(a: seq<byte>, pad: nat, m: nat)
    requires |a| <= m <= |a| + pad
    ensures (a + Zeros(pad))[..m] == a + Zeros(m - |a|)
  {
  }

  /** Slicing the middle part out of a concatenation. */
  lemma Middle(a: seq<byte>, b: seq<byte>, c: seq<byte>)
    ensures (a + b + c)[|a|..|a| + |b|] == b
  {
  }

  /** Regrouping a concatenation around its middle part. */
  lemma Regroup(h: seq<byte>, a: seq<byte>, b: seq<byte>, c: seq<byte>, z: seq<byte>)
    ensures h + (a + b + c) + z == (h + a) + b + (c + z)
  {
  }

  /** Writing at the front of a run of zeros consumes that much of the run. */
  lemma BlitZeros(left: seq<byte>, gap: nat, right: seq<byte>, patch: seq<byte>)
    requires |patch| <= gap
    ensures Blit(left + Zeros(gap) + right, |left|, patch)
            == left + patch + Zeros(gap - |patch|) + right
  {
  }

  lemma LeVal2(s: seq<byte>, at: nat)
    requires at + 2 <= |s|
    ensures LeVal(s[at..at + 2]) == s[at] as int + 256 * s[at + 1] as int
  {
    var t := s[at..at + 2];
    assert LeVal(t[2..]) == 0;
    assert LeVal(t[1..]) == t[1] + 256 * LeVal(t[1..][1..]);
  }

  lemma LeVal4(s: seq<byte>, at: nat)
    requires at + 4 <= |s|
    ensures LeVal(s[at..at + 4]) == s[at] as int + 256 * s[at + 1] as int + 65536 * s[at + 2] as int
                                    + 16777216 * s[at + 3] as int
  {
    var t := s[at..at + 4];
    assert t[1..][1..][1..] == t[3..] && t[1..][1..] == t[2..];
    assert LeVal(t[4..]) == 0;
    assert LeVal(t[3..]) == t[3] + 256 * LeVal(t[3..][1..]);
    assert LeVal(t[2..]) == t[2] + 256 * LeVal(t[3..]);
    assert LeVal(t[1..]) == t[1] + 256 * LeVal(t[2..]);
  }
}
