/** File names: byte-wise order, NUL trimming and sorting. */
module Names {
  import opened Bytes

  type Name = seq<byte>

  const DOT: Name := [46]

  const DOTDOT: Name := [46, 46]

  /** Byte-wise lexicographic order on names. */
  predicate Less(a: Name, b: Name) {
    if b == [] then false
    else if a == [] then true
    else a[0] < b[0] || (a[0] == b[0] && Less(a[1..], b[1..]))
  }

  lemma {:induction false} LessIrreflexive(a: Name)
    ensures !Less(a, a)
  {
    if a != [] { LessIrreflexive(a[1..]); }
  }

  lemma {:induction false} LessTransitive(a: Name, b: Name, c: Name)
    requires Less(a, b) && Less(b, c)
    ensures Less(a, c)
  {
    if a != [] && a[0] == b[0] && b[0] == c[0] { LessTransitive(a[1..], b[1..], c[1..]); }
  }

  lemma {:induction false} LessTotal(a: Name, b: Name)
    ensures Less(a, b) || a == b || Less(b, a)
  {
    if a != [] && b != [] && a[0] == b[0] {
      LessTotal(a[1..], b[1..]);
      assert a == [a[0]] + a[1..] && b == [b[0]] + b[1..];
    }
  }

  predicate StrictlySorted(names: seq<Name>) {
    forall i, j :: 0 <= i < j < |names| ==> Less(names[i], names[j])
  }

  lemma SortedDistinct(names: seq<Name>, i: nat, j: nat)
    requires StrictlySorted(names)
    requires i < |names| && j < |names| && names[i] == names[j]
    ensures i == j
  {
    LessIrreflexive(names[i]);
  }

  predicate Slash(s: Name) {
    47 in s
  }

  /** The part of `s` in front of its first NUL byte. */
  function UntilNul(s: seq<byte>): (r: seq<byte>)
    ensures r <= s && 0 !in r
  {
    if s == [] || s[0] == 0 then [] else [s[0]] + UntilNul(s[1..])
  }

  lemma {:induction false} UntilNulPadding(name: Name, pad: nat)
    requires 0 !in name
    ensures UntilNul(name + Zeros(pad)) == name
  {
    var s := name + Zeros(pad);
    if name != [] {
      assert s[1..] == name[1..] + Zeros(pad);
      UntilNulPadding(name[1..], pad);
    }
  }

  /** `s` without its trailing NUL bytes (`trim_end_matches`). */
  function TrimNuls(s: seq<byte>): (r: seq<byte>)
    ensures r <= s
  {
    if s != [] && s[|s| - 1] == 0 then TrimNuls(s[..|s| - 1]) else s
  }

  lemma {:induction false} TrimNulsPadding(name: seq<byte>, pad: nat)
    requires 0 !in name
    ensures TrimNuls(name + Zeros(pad)) == name
  {
    var s := name + Zeros(pad);
    if pad == 0 {
      assert s == name;
    } else {
      assert s[..|s| - 1] == name + Zeros(pad - 1);
      TrimNulsPadding(name, pad - 1);
    }
  }

  /** A name a host directory can hold: 1 to 255 bytes, no NUL, no slash, not a dot entry. */
  predicate Legal(name: Name) {
    0 < |name| <= 255 && 0 !in name && 0x2f !in name && name != DOT && name != DOTDOT
  }
}
