/** Hexadecimal byte strings, as the patches carry them. */
module Hex {
  import Bytes
  import opened Results

  /** `to_digit(16)`: both letter cases are digits. */
  function Value(c: char): (d: Option<nat>)
    ensures d.Some? ==> d.value < 16
  {
    if '0' <= c <= '9' then Some((c - '0') as int)
    else if 'a' <= c <= 'f' then Some((c - 'a') as int + 10)
    else if 'A' <= c <= 'F' then Some((c - 'A') as int + 10)
    else None
  }

  function Digit(d: nat): (c: char)
    requires d < 16
    ensures Value(c) == Some(d)
  {
    if d < 10 then '0' + d as char else 'a' + (d - 10) as char
  }

  function Encode(bytes: seq<Bytes.byte>): (s: string)
    ensures |s| == 2 * |bytes|
  {
    if bytes == [] then "" else [Digit(bytes[0] / 16), Digit(bytes[0] % 16)] + Encode(bytes[1..])
  }

  /** The bytes of a string of digit pairs, if it is one. */
  function Decode(s: string): Option<seq<Bytes.byte>> {
    if |s| == 0 then Some([])
    else if |s| == 1 || Value(s[0]).None? || Value(s[1]).None? then None
    else
      var rest := Decode(s[2..]);
      if rest.None? then None else Some([Value(s[0]).value * 16 + Value(s[1]).value] + rest.value)
  }

  lemma EncodeNothing(bytes: seq<Bytes.byte>)
    ensures bytes[0..] == bytes && Encode(bytes[|bytes|..]) == []
  {
  }

  lemma EncodeNext(bytes: seq<Bytes.byte>, i: nat)
    requires i < |bytes|
    ensures Encode(bytes[i..]) == [Digit(bytes[i] / 16)] + [Digit(bytes[i] % 16)] + Encode(bytes[i + 1..])
  {
    hide Digit;
    assert bytes[i..][1..] == bytes[i + 1..];
  }

  /** The encoding loop. */
  method ToHex(bytes: seq<Bytes.byte>) returns (s: string)
    ensures s == Encode(bytes)
  {
    hide Digit, Value, Encode;
    s := "";
    EncodeNothing(bytes);
    for i := 0 to |bytes|
      invariant Encode(bytes) == s + Encode(bytes[i..])
    {
      EncodeNext(bytes, i);
      s := s + [Digit(bytes[i] / 16)] + [Digit(bytes[i] % 16)];
    }
  }

  lemma {:induction false} RoundTrip(bytes: seq<Bytes.byte>)
    ensures Decode(Encode(bytes)) == Some(bytes)
  {
    if bytes != [] {
      RoundTrip(bytes[1..]);
      var b := bytes[0];
      var s := Encode(bytes);
      assert s[2..] == Encode(bytes[1..]);
      assert Value(s[0]) == Some(b / 16) && Value(s[1]) == Some(b % 16);
      assert [b] + bytes[1..] == bytes;
    }
  }

  predicate IsHexDigit(c: char) {
    c in "0123456789abcdefABCDEF"
  }

  lemma ValueExactly(c: char)
    ensures Value(c).Some? <==> IsHexDigit(c)
  {
    var all := "0123456789abcdefABCDEF";
    if Value(c).Some? {
      assert all[if c <= '9' then (c - '0') as int
                 else if c >= 'a' then 10 + (c - 'a') as int else 16 + (c - 'A') as int] == c;
    }
  }

  /** What can be decoded: pairs of hexadecimal digits. */
  lemma {:induction false} DecodesExactly(s: string)
    ensures Decode(s).Some? <==> |s| % 2 == 0 && forall i :: 0 <= i < |s| ==> IsHexDigit(s[i])
  {
    hide Value, IsHexDigit;
    if |s| >= 1 {
      ValueExactly(s[0]);
    }
    if |s| >= 2 {
      ValueExactly(s[1]);
      DecodesExactly(s[2..]);
      assert forall i :: 2 <= i < |s| ==> s[i] == s[2..][i - 2];
    }
  }

  function LowerChar(c: char): char {
    if 'A' <= c <= 'F' then 'a' + (c - 'A') else c
  }

  /** Two strings are read alike only if they differ in letter case alone. */
  function Lower(s: string): string {
    if |s| == 0 then "" else [LowerChar(s[0])] + Lower(s[1..])
  }

  lemma Pair(h: nat, l: nat)
    requires h < 16 && l < 16
    ensures (h * 16 + l) / 16 == h && (h * 16 + l) % 16 == l
  {
  }

  lemma LowerDigit(c: char)
    requires Value(c).Some?
    ensures Digit(Value(c).value) == LowerChar(c)
  {
  }

  lemma LowerPair(s: string)
    requires |s| >= 2 && Value(s[0]).Some? && Value(s[1]).Some?
    ensures Lower(s) == [Digit(Value(s[0]).value), Digit(Value(s[1]).value)] + Lower(s[2..])
  {
    hide Value, Digit, LowerChar;
    LowerDigit(s[0]);
    LowerDigit(s[1]);
    assert s[1..][1..] == s[2..];
  }

  lemma {:induction false} Canonical(s: string)
    requires Decode(s).Some?
    ensures Encode(Decode(s).value) == Lower(s)
  {
    if |s| > 0 {
      hide Value, Digit;
      Canonical(s[2..]);
      var bytes := Decode(s).value;
      assert bytes[1..] == Decode(s[2..]).value;
      Pair(Value(s[0]).value, Value(s[1]).value);
      LowerPair(s);
    }
  }
}
