/** Lossy UTF-8 decoding, as the directory iterator applies it to stored names. */
module Utf8 {
  import opened Bytes
  import opened Names

  /** The next piece of a byte string: a well-formed sequence, or a maximal ill-formed one. */
  datatype Piece = Piece(ok: bool, len: nat)

  const REPLACEMENT: seq<byte> := [0xef, 0xbf, 0xbd]

  function At(s: seq<byte>, i: nat): byte {
    if i < |s| then s[i] else 0
  }

  predicate IsCont(b: byte) {
    0x80 <= b < 0xc0
  }

  /** Whether `second` may follow `lead` in a sequence of three or four bytes. */
  predicate SecondOk(lead: byte, second: byte) {
    if lead == 0xe0 then 0xa0 <= second < 0xc0
    else if lead == 0xed then 0x80 <= second < 0xa0
    else if lead == 0xf0 then 0x90 <= second < 0xc0
    else if lead == 0xf4 then 0x80 <= second < 0x90
    else IsCont(second)
  }

  function NextPiece(s: seq<byte>): (p: Piece)
    requires s != []
    ensures 1 <= p.len <= |s|
    ensures p.ok && p.len > 1 ==> forall i :: 0 <= i < p.len ==> s[i] >= 0x80
    ensures !p.ok ==> s[0] >= 0x80
  {
    var b := s[0];
    if b < 0x80 then Piece(true, 1)
    else if 0xc2 <= b < 0xe0 then Piece(IsCont(At(s, 1)), if IsCont(At(s, 1)) then 2 else 1)
    else if 0xe0 <= b < 0xf0 then
      if !SecondOk(b, At(s, 1)) then Piece(false, 1)
      else if !IsCont(At(s, 2)) then Piece(false, 2)
      else Piece(true, 3)
    else if 0xf0 <= b < 0xf5 then
      if !SecondOk(b, At(s, 1)) then Piece(false, 1)
      else if !IsCont(At(s, 2)) then Piece(false, 2)
      else if !IsCont(At(s, 3)) then Piece(false, 3)
      else Piece(true, 4)
    else Piece(false, 1)
  }

  /** Well-formed pieces are kept; each ill-formed one becomes U+FFFD. */
  function Lossy(s: seq<byte>): seq<byte> {
    if s == [] then []
    else
      var p := NextPiece(s);
      (if p.ok then s[..p.len] else REPLACEMENT) + Lossy(s[p.len..])
  }

  /** The decoder finds nothing to replace. */
  predicate WellFormed(s: seq<byte>) {
    s == [] || (NextPiece(s).ok && WellFormed(s[NextPiece(s).len..]))
  }

  lemma {:induction false} LossyKeepsValid(s: seq<byte>)
    requires WellFormed(s)
    ensures Lossy(s) == s
  {
    if s != [] { LossyKeepsValid(s[NextPiece(s).len..]); }
  }

  /** A well-formed piece in front of anything is read off as that piece. */
  lemma PieceFirst(s: seq<byte>, t: seq<byte>)
    requires s != [] && NextPiece(s).ok
    ensures NextPiece(s[..NextPiece(s).len] + t) == NextPiece(s)
  {
  }

  lemma {:induction false} LossyIsValid(s: seq<byte>)
    ensures WellFormed(Lossy(s))
  {
    if s != [] {
      var p := NextPiece(s);
      var front := if p.ok then s[..p.len] else REPLACEMENT;
      var rest := Lossy(s[p.len..]);
      LossyIsValid(s[p.len..]);
      if p.ok {
        PieceFirst(s, rest);
      } else {
        assert NextPiece(REPLACEMENT + rest) == Piece(true, 3);
      }
      assert (front + rest)[|front|..] == rest;
    }
  }

  // ----- UTF-8, as section 3 of RFC 3629 defines it -----

  /** A Unicode scalar value. */
  predicate IsScalar(c: nat) {
    c < 0xd800 || 0xe000 <= c < 0x11_0000
  }

  /** The six lowest bits of `v`, in a continuation byte. */
  function Cont(v: nat): (b: byte)
    ensures IsCont(b)
  {
    0x80 + v % 0x40
  }

  /** `v >> 6`. */
  function High(v: nat): (r: nat)
    ensures 0x40 * r <= v < 0x40 * r + 0x40
  {
    v / 0x40
  }

  /** `v << 6` with the bits of a continuation byte. */
  function Join(v: nat, b: byte): (r: nat)
    requires IsCont(b)
    ensures 0x40 * v <= r < 0x40 * v + 0x40
    ensures High(r) == v && Cont(r) == b
  {
    0x40 * v + (b - 0x80)
  }

  /** The encoding of one scalar value, in one to four bytes. */
  function EncodeScalar(c: nat): (s: seq<byte>)
    requires IsScalar(c)
    ensures 1 <= |s| <= 4
  {
    if c < 0x80 then [c]
    else if c < 0x800 then [0xc0 + High(c), Cont(c)]
    else if c < 0x1_0000 then [0xe0 + High(High(c)), Cont(High(c)), Cont(c)]
    else [0xf0 + High(High(High(c))), Cont(High(High(c))), Cont(High(c)), Cont(c)]
  }

  ghost predicate AllScalars(cs: seq<nat>) {
    forall i :: 0 <= i < |cs| ==> IsScalar(cs[i])
  }

  /** The encodings, one behind the other. */
  function EncodeText(cs: seq<nat>): seq<byte>
    requires AllScalars(cs)
  {
    if cs == [] then [] else EncodeScalar(cs[0]) + EncodeText(cs[1..])
  }

  /** Some text is encoded by these bytes. */
  ghost predicate ValidUtf8(s: seq<byte>) {
    exists cs :: AllScalars(cs) && EncodeText(cs) == s
  }

  /** The decoder reads an encoded scalar value off as one well-formed piece, whatever follows. */
  lemma ScalarIsPiece(c: nat, t: seq<byte>)
    requires IsScalar(c)
    ensures NextPiece(EncodeScalar(c) + t) == Piece(true, |EncodeScalar(c)|)
  {
  }

  /** The restrictions on the second byte keep out long forms, surrogates and values past the last. */
  lemma SecondBounds(lead: byte, second: byte)
    requires SecondOk(lead, second)
    ensures IsCont(second)
    ensures 0xe0 <= lead < 0xf0 ==> 0x20 <= Join(lead - 0xe0, second)
                                    && !(0x360 <= Join(lead - 0xe0, second) < 0x380)
    ensures 0xf0 <= lead < 0xf5 ==> 0x10 <= Join(lead - 0xf0, second) < 0x110
  {
  }

  /** A well-formed piece is the encoding of a scalar value. */
  lemma PieceIsScalar(s: seq<byte>) returns (c: nat)
    requires s != [] && NextPiece(s).ok
    ensures IsScalar(c) && EncodeScalar(c) == s[..NextPiece(s).len]
  {
    hide High, Cont, Join;
    var b, k := s[0], NextPiece(s).len;
    if k == 1 {
      c := b;
    } else if k == 2 {
      c := Join(b - 0xc0, s[1]);
    } else if k == 3 {
      SecondBounds(b, s[1]);
      c := Join(Join(b - 0xe0, s[1]), s[2]);
    } else {
      SecondBounds(b, s[1]);
      c := Join(Join(Join(b - 0xf0, s[1]), s[2]), s[3]);
    }
  }

  lemma {:induction false} TextIsWellFormed(cs: seq<nat>)
    requires AllScalars(cs)
    ensures WellFormed(EncodeText(cs))
  {
    hide NextPiece, EncodeScalar;
    if cs != [] {
      var first, rest := EncodeScalar(cs[0]), EncodeText(cs[1..]);
      ScalarIsPiece(cs[0], rest);
      TextIsWellFormed(cs[1..]);
      assert (first + rest)[|first|..] == rest;
    }
  }

  lemma {:induction false} WellFormedIsText(s: seq<byte>) returns (cs: seq<nat>)
    requires WellFormed(s)
    ensures AllScalars(cs) && EncodeText(cs) == s
  {
    hide NextPiece, EncodeScalar;
    cs := [];
    if s != [] {
      var k := NextPiece(s).len;
      var c := PieceIsScalar(s);
      var rest := WellFormedIsText(s[k..]);
      cs := [c] + rest;
      assert cs[1..] == rest && s == s[..k] + s[k..];
    }
  }

  /** The decoder's notion of well-formed bytes is UTF-8. */
  lemma WellFormedExactly(s: seq<byte>)
    ensures WellFormed(s) <==> ValidUtf8(s)
  {
    hide WellFormed, EncodeText;
    if WellFormed(s) {
      var cs := WellFormedIsText(s);
    }
    if ValidUtf8(s) {
      var cs :| AllScalars(cs) && EncodeText(cs) == s;
      TextIsWellFormed(cs);
    }
  }

  /** The exact condition under which decoding shows the stored name itself. */
  lemma LossyIdentity(s: seq<byte>)
    ensures Lossy(s) == s <==> ValidUtf8(s)
  {
    hide WellFormed, Lossy, ValidUtf8;
    LossyIsValid(s);
    WellFormedExactly(s);
    if WellFormed(s) { LossyKeepsValid(s); }
  }

  /** Padding cannot complete or break a piece of a NUL-free name. */
  lemma PiecePadding(s: seq<byte>, pad: nat)
    requires s != [] && 0 !in s
    ensures NextPiece(s + Zeros(pad)) == NextPiece(s)
  {
    var t := s + Zeros(pad);
    assert forall i: nat :: At(t, i) == At(s, i);
  }

  lemma {:induction false} LossyZeros(pad: nat)
    ensures Lossy(Zeros(pad)) == Zeros(pad)
  {
    if pad > 0 {
      assert Zeros(pad)[1..] == Zeros(pad - 1);
      LossyZeros(pad - 1);
    }
  }

  lemma {:induction false} LossyPadding(s: seq<byte>, pad: nat)
    requires 0 !in s
    ensures Lossy(s + Zeros(pad)) == Lossy(s) + Zeros(pad)
  {
    var t := s + Zeros(pad);
    if s == [] {
      assert t == Zeros(pad);
      LossyZeros(pad);
    } else {
      PiecePadding(s, pad);
      var k := NextPiece(s).len;
      assert t[..k] == s[..k] && t[k..] == s[k..] + Zeros(pad);
      LossyPadding(s[k..], pad);
    }
  }

  lemma LossyStep(s: seq<byte>)
    ensures s == [] ==> Lossy(s) == []
    ensures s != [] ==>
      var k := NextPiece(s).len;
      s == s[..k] + s[k..] && Lossy(s) == (if NextPiece(s).ok then s[..k] else REPLACEMENT) + Lossy(s[k..])
  {
    hide NextPiece;
  }

  /** A piece kept or replaced, in front of a decoded rest. */
  lemma PieceBytes(piece: seq<byte>, front: seq<byte>, rest: seq<byte>, shown: seq<byte>)
    requires front == piece || front == REPLACEMENT
    requires 0 !in rest ==> 0 !in shown
    requires !Slash(rest) ==> !Slash(shown)
    requires (forall b :: b in shown ==> b < 0x80) ==> shown == rest
    ensures 0 !in piece + rest ==> 0 !in front + shown
    ensures !Slash(piece + rest) ==> !Slash(front + shown)
    ensures (forall b :: b in front + shown ==> b < 0x80) ==> front + shown == piece + rest
  {
    assert forall b :: b in shown ==> b in front + shown;
    assert front == REPLACEMENT ==> REPLACEMENT[0] in front + shown;
  }

  /** Decoding adds no NUL and no slash, and shows something ASCII only if it was stored so. */
  lemma {:induction false} LossyBytes(s: seq<byte>)
    ensures 0 !in s ==> 0 !in Lossy(s)
    ensures !Slash(s) ==> !Slash(Lossy(s))
    ensures (forall b :: b in Lossy(s) ==> b < 0x80) ==> Lossy(s) == s
  {
    hide Lossy, NextPiece;
    LossyStep(s);
    if s != [] {
      var k := NextPiece(s).len;
      LossyBytes(s[k..]);
      PieceBytes(s[..k], if NextPiece(s).ok then s[..k] else REPLACEMENT, s[k..], Lossy(s[k..]));
    }
  }

  /** What the iterator shows of a stored raw name slice. */
  function Display(raw: seq<byte>): Name {
    TrimNuls(Lossy(raw))
  }

  lemma DisplayPadded(name: Name, pad: nat)
    requires Legal(name)
    ensures Display(name + Zeros(pad)) == Lossy(name)
    ensures !Slash(Lossy(name)) && Lossy(name) != DOT && Lossy(name) != DOTDOT
  {
    LossyPadding(name, pad);
    LossyBytes(name);
    TrimNulsPadding(Lossy(name), pad);
  }

  lemma DisplayDots(pad: nat)
    ensures Display(DOT + Zeros(pad)) == DOT && Display(DOTDOT + Zeros(pad)) == DOTDOT
  {
    LossyPadding(DOT, pad);
    LossyPadding(DOTDOT, pad);
    assert WellFormed(DOT) && WellFormed(DOTDOT) by {
      assert DOT[1..] == [] && DOTDOT[1..] == DOT;
    }
    LossyKeepsValid(DOT);
    LossyKeepsValid(DOTDOT);
    TrimNulsPadding(DOT, pad);
    TrimNulsPadding(DOTDOT, pad);
  }
}
