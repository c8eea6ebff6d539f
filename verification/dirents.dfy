/** Directory blocks as the reader decodes them, and the binary search over one block. */
module Dirents {
  import opened Bytes
  import opened Results
  import opened Types
  import opened Names

  function ReadNthDirent(data: seq<byte>, n: nat): (r: Outcome<Dirent>)
    ensures r.Ok? <==> 12 * n + 12 <= |data|
  {
    var start := n * 12;
    if start > |data| then Err(OutOfBounds)
    else if start + 12 > |data| then Err(UnexpectedEof)
    else Ok(Dirent(LeVal(data[start..start + 8]), LeVal(data[start + 8..start + 10]), data[start + 10]))
  }

  /** The raw name bytes of entry `n` of `max`: up to the next entry's name, or to the block's end. */
  function RawName(data: seq<byte>, dirent: Dirent, n: nat, max: nat): Outcome<seq<byte>>
    requires n < max
  {
    var nameEnd :- if n < max - 1 then
                     var next :- ReadNthDirent(data, n + 1); Ok(next.nameOff)
                   else Ok(|data|);
    if nameEnd < dirent.nameOff || nameEnd > |data| then Err(BadNameOffset)
    else Ok(data[dirent.nameOff..nameEnd])
  }

  function ReadNthIdName(data: seq<byte>, n: nat, max: nat): Outcome<(nat, Name)>
    requires n < max
  {
    var dirent :- ReadNthDirent(data, n);
    var raw :- RawName(data, dirent, n, max);
    var name := UntilNul(raw);
    if Slash(name) then Err(NameHasSlash) else Ok((dirent.nid, name))
  }

  /** Any name that is read is free of NUL and slash. */
  lemma NameRead(data: seq<byte>, n: nat, max: nat)
    requires n < max && ReadNthIdName(data, n, max).Ok?
    ensures 0 !in ReadNthIdName(data, n, max).value.1 && 0x2f !in ReadNthIdName(data, n, max).value.1
  {
    hide ReadNthDirent, RawName, UntilNul;
  }

  /** The number of entries a block declares through its first name offset. */
  function EntryCount(data: seq<byte>): Outcome<nat> {
    var first :- ReadNthDirent(data, 0);
    Ok(first.nameOff / 12)
  }

  /** Entries `i..n` read as listed. */
  ghost predicate AllRead(data: seq<byte>, i: nat, n: nat, entries: seq<(nat, Name)>) {
    i <= n && |entries| == n - i && forall k :: i <= k < n ==> ReadNthIdName(data, k, n) == Ok(entries[k - i])
  }

  /** One of the entries `i..n` does not read, with this error. */
  ghost predicate SomeFails(data: seq<byte>, i: nat, n: nat, error: Error) {
    exists k :: i <= k < n && ReadNthIdName(data, k, n) == Err(error)
  }

  /** Entries `i..n` of a block decoded front to back. */
  function DecodeFrom(data: seq<byte>, i: nat, n: nat): (r: Outcome<seq<(nat, Name)>>)
    requires i <= n
    ensures r.Ok? ==> |r.value| == n - i
    decreases n - i
  {
    if i == n then Ok([])
    else
      var head :- ReadNthIdName(data, i, n);
      var rest :- DecodeFrom(data, i + 1, n);
      Ok([head] + rest)
  }

  /** A decoded block is what its entries read as, and the error of an undecoded one is an entry's. */
  lemma {:induction false} DecodedRead(data: seq<byte>, i: nat, n: nat)
    requires i <= n
    ensures match DecodeFrom(data, i, n)
            case Ok(entries) => AllRead(data, i, n, entries)
            case Err(error) => SomeFails(data, i, n, error)
    decreases n - i
  {
    hide ReadNthIdName;
    if i < n {
      DecodedRead(data, i + 1, n);
    }
  }

  /** Every entry of a block, front to back. */
  function DecodeBlock(data: seq<byte>): Outcome<seq<(nat, Name)>> {
    var n :- EntryCount(data);
    DecodeFrom(data, 0, n)
  }

  function NamesOf(entries: seq<(nat, Name)>): (r: seq<Name>)
    ensures |r| == |entries|
    ensures forall i :: 0 <= i < |r| ==> r[i] == entries[i].1
  {
    seq(|entries|, i requires 0 <= i < |entries| => entries[i].1)
  }

  /** The nid of the first entry called `name`: what a scan from the front finds. */
  function LinearFind(entries: seq<(nat, Name)>, name: Name): (r: Option<nat>)
    ensures r.None? <==> forall i :: 0 <= i < |entries| ==> entries[i].1 != name
    ensures r.Some? ==> (r.value, name) in entries
  {
    if entries == [] then None
    else if entries[0].1 == name then Some(entries[0].0)
    else
      var rest := LinearFind(entries[1..], name);
      assert forall i :: 1 <= i < |entries| ==> entries[i] == entries[1..][i - 1];
      rest
  }

  lemma LinearFindUnique(entries: seq<(nat, Name)>, name: Name, i: nat)
    requires StrictlySorted(NamesOf(entries))
    requires i < |entries| && entries[i].1 == name
    ensures LinearFind(entries, name) == Some(entries[i].0)
  {
    var found := LinearFind(entries, name);
    assert found.Some?;
    var j :| 0 <= j < |entries| && entries[j] == (found.value, name);
    SortedDistinct(NamesOf(entries), i, j);
  }

  /** The halving loop of the lookup as a function: the candidate range is `base..base + size`. */
  function BinaryFind(name: Name, data: seq<byte>, n: nat, base: nat, size: nat): Outcome<Option<nat>>
    requires 1 <= size && base + size <= n
    decreases size
  {
    if size > 1 then
      var half := size / 2;
      var mid := base + half;
      var entry :- ReadNthIdName(data, mid, n);
      BinaryFind(name, data, n, if Less(name, entry.1) then base else mid, size - half)
    else
      var entry :- ReadNthIdName(data, base, n);
      Ok(if entry.1 == name then Some(entry.0) else None)
  }

  function FindNodeId(name: Name, data: seq<byte>): Outcome<Option<nat>> {
    var n :- EntryCount(data);
    if n == 0 then Ok(None) else BinaryFind(name, data, n, 0, n)
  }

  /** The lookup loop of the reader. It terminates on every block, well formed or not. */
  method FindNodeIdByName(name: Name, data: seq<byte>) returns (r: Outcome<Option<nat>>)
    ensures r == FindNodeId(name, data)
    ensures r.Ok? && r.value.Some? ==>
      exists i, n :: 0 <= i < n && EntryCount(data) == Ok(n)
                     && ReadNthIdName(data, i, n) == Ok((r.value.value, name))
  {
    hide ReadNthIdName, Less;
    var dirent :- ReadNthDirent(data, 0);
    var n := dirent.nameOff / 12;
    if n == 0 {
      return Ok(None);
    }
    var size, base := n, 0;
    while size > 1
      invariant 1 <= size && 0 <= base && base + size <= n
      invariant FindNodeId(name, data) == BinaryFind(name, data, n, base, size)
    {
      var half := size / 2;
      var mid := base + half;
      var entry :- ReadNthIdName(data, mid, n);
      if !Less(name, entry.1) {
        base := mid;
      }
      size := size - half;
    }
    var entry :- ReadNthIdName(data, base, n);
    if entry.1 != name {
      return Ok(None);
    }
    return Ok(Some(entry.0));
  }

  /** One comparison at `mid` tells on which side of `mid` the name's index `t` lies. */
  lemma Halving(names: seq<Name>, name: Name, mid: nat, t: nat)
    requires StrictlySorted(names)
    requires mid < |names| && t < |names| && names[t] == name
    ensures Less(name, names[mid]) <==> t < mid
  {
    if t == mid {
      LessIrreflexive(name);
    } else if mid < t && Less(name, names[mid]) {
      LessTransitive(name, names[mid], name);
      LessIrreflexive(name);
    }
  }

  /** Block `data` decodes to `entries`, entry by entry. */
  ghost predicate Decoded(data: seq<byte>, entries: seq<(nat, Name)>) {
    forall k :: 0 <= k < |entries| ==> ReadNthIdName(data, k, |entries|) == Ok(entries[k])
  }

  /** `want` is the answer for `name`, and the name can only occur in `base..base + size`. */
  ghost predicate Candidate(
      entries: seq<(nat, Name)>, name: Name, want: Option<nat>, base: nat, size: nat)
  {
    && 1 <= size && base + size <= |entries|
    && (forall t :: 0 <= t < |entries| && entries[t].1 == name ==>
          base <= t < base + size && want == Some(entries[t].0))
    && (want.Some? ==> exists t :: 0 <= t < |entries| && entries[t].1 == name)
  }

  /** One comparison keeps the name, if it is there at all, inside the half searched next. */
  lemma CandidateHalf(entries: seq<(nat, Name)>, name: Name, want: Option<nat>, base: nat, size: nat, half: nat)
    requires StrictlySorted(NamesOf(entries)) && 0 < half < size
    requires Candidate(entries, name, want, base, size)
    ensures if Less(name, entries[base + half].1)
            then Candidate(entries, name, want, base, half)
            else Candidate(entries, name, want, base + half, size - half)
  {
    hide Less;
    forall t | 0 <= t < |entries| && entries[t].1 == name
      ensures Less(name, entries[base + half].1) <==> t < base + half
    {
      Halving(NamesOf(entries), name, base + half, t);
    }
  }

  /** The search may also keep more than the half: the range it keeps is never shorter than needed. */
  lemma CandidateWiden(entries: seq<(nat, Name)>, name: Name, want: Option<nat>, base: nat, size: nat, more: nat)
    requires Candidate(entries, name, want, base, size)
    requires size <= more && base + more <= |entries|
    ensures Candidate(entries, name, want, base, more)
  {
  }

  lemma BinaryStep(name: Name, data: seq<byte>, entries: seq<(nat, Name)>, base: nat, size: nat, half: nat)
    requires Decoded(data, entries)
    requires size > 1 && base + size <= |entries| && half == size / 2
    ensures BinaryFind(name, data, |entries|, base, size) ==
            BinaryFind(name, data, |entries|,
                       if Less(name, entries[base + half].1) then base else base + half, size - half)
  {
    hide ReadNthIdName, Less;
    assert ReadNthIdName(data, base + half, |entries|) == Ok(entries[base + half]);
  }

  lemma BinaryEnd(name: Name, data: seq<byte>, entries: seq<(nat, Name)>, want: Option<nat>, base: nat)
    requires Decoded(data, entries) && Candidate(entries, name, want, base, 1)
    ensures BinaryFind(name, data, |entries|, base, 1) == Ok(want)
  {
    hide ReadNthIdName;
    assert ReadNthIdName(data, base, |entries|) == Ok(entries[base]);
  }

  /** If the name is in the range at all, halving never leaves it behind. */
  lemma {:induction false} BinaryFindMeetsScan(
      name: Name, data: seq<byte>, entries: seq<(nat, Name)>, want: Option<nat>, base: nat, size: nat)
    requires Decoded(data, entries) && StrictlySorted(NamesOf(entries))
    requires 1 <= size && base + size <= |entries| && Candidate(entries, name, want, base, size)
    ensures BinaryFind(name, data, |entries|, base, size) == Ok(want)
    decreases size
  {
    hide ReadNthIdName, Less, BinaryFind, Decoded, Candidate, StrictlySorted;
    if size > 1 {
      var half := size / 2;
      BinaryStep(name, data, entries, base, size, half);
      CandidateHalf(entries, name, want, base, size, half);
      if Less(name, entries[base + half].1) {
        CandidateWiden(entries, name, want, base, half, size - half);
        BinaryFindMeetsScan(name, data, entries, want, base, size - half);
      } else {
        BinaryFindMeetsScan(name, data, entries, want, base + half, size - half);
      }
    } else {
      BinaryEnd(name, data, entries, want, base);
    }
  }

  /** On a block that decodes and whose names increase, the search is the linear scan. */
  lemma LookupMeetsScan(name: Name, data: seq<byte>, entries: seq<(nat, Name)>)
    requires DecodeBlock(data) == Ok(entries)
    requires StrictlySorted(NamesOf(entries))
    ensures FindNodeId(name, data) == Ok(LinearFind(entries, name))
  {
    hide ReadNthIdName, Less, BinaryFind, DecodeFrom;
    if EntryCount(data).Ok? {
      DecodedRead(data, 0, EntryCount(data).value);
    }
    if entries != [] {
      var want := LinearFind(entries, name);
      forall t | 0 <= t < |entries| && entries[t].1 == name
        ensures want == Some(entries[t].0)
      {
        LinearFindUnique(entries, name, t);
      }
      BinaryFindMeetsScan(name, data, entries, want, 0, |entries|);
    }
  }
}
