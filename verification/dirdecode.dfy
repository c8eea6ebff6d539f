/** Packed directory blocks decode to the entries that were packed. */
module DirDecoding {
  import opened Bytes
  import opened Results
  import opened Types
  import opened Names
  import opened Dirents
  import opened DirPacking

  /** The name bytes of an entry as they lie in a block: the last name runs into the padding. */
  ghost function Tail(es: seq<Entry>, k: nat, m: nat): seq<byte>
    requires k < |es| && Used(es) <= m
  {
    if k < |es| - 1 then [] else Zeros(m - Used(es))
  }

  /** What the reader sees of a block: all of it, or only its first `m` bytes if it is the last. */
  ghost function View(es: seq<Entry>, m: nat): (s: seq<byte>)
    requires Used(es) <= m <= BLOCK_SIZE
    ensures |s| == m
  {
    BlockBytes(es)[..m]
  }

  ghost predicate Encodable(es: seq<Entry>) {
    forall e :: e in es ==> e.nid <= U64_MAX && 0 !in e.name && !Slash(e.name)
  }

  lemma ViewParts(es: seq<Entry>, m: nat)
    requires Used(es) <= m <= BLOCK_SIZE
    ensures View(es, m) == Headers(es, 12 * |es|) + NameBytes(es) + Zeros(m - Used(es))
  {
    hide Headers, NameBytes, NamesLen, Zeros;
    CutPadding(Headers(es, 12 * |es|) + NameBytes(es), BLOCK_SIZE - Used(es), m);
  }

  /** A header's fields read back. */
  lemma HeaderFields(e: Entry, nameOff: nat)
    requires e.nid <= U64_MAX && nameOff <= U16_MAX
    ensures Header(e, nameOff)[0..8] == LeBytes(e.nid, 8)
    ensures Header(e, nameOff)[8..10] == LeBytes(nameOff, 2)
    ensures Header(e, nameOff)[10] == e.fileType.Code()
    ensures LeVal(LeBytes(e.nid, 8)) == e.nid && LeVal(LeBytes(nameOff, 2)) == nameOff
  {
    hide LeBytes, LeVal;
    Pow256Values();
    LeRoundTrip(e.nid, 8);
    LeRoundTrip(nameOff, 2);
  }

  lemma HeaderAt(es: seq<Entry>, m: nat, k: nat)
    requires Used(es) <= m <= BLOCK_SIZE && k < |es|
    ensures View(es, m)[12 * k..12 * k + 12] == Header(es[k], 12 * |es| + NamesLen(es[..k]))
  {
    hide View, Header, Used, Zeros;
    var off := 12 * |es|;
    ViewParts(es, m);
    SplitHeaders(es, k, off);
    var a := Headers(es[..k], off);
    var h := Header(es[k], off + NamesLen(es[..k]));
    var rest := Headers(es[k + 1..], off + NamesLen(es[..k]) + |es[k].name|);
    assert View(es, m) == a + h + (rest + NameBytes(es) + Zeros(m - Used(es)));
    Middle(a, h, rest + NameBytes(es) + Zeros(m - Used(es)));
  }

  lemma DirentAt(es: seq<Entry>, m: nat, k: nat)
    requires Used(es) <= m <= BLOCK_SIZE && k < |es|
    requires es[k].nid <= U64_MAX
    ensures 12 * |es| + NamesLen(es[..k]) + |es[k].name| <= Used(es)
    ensures ReadNthDirent(View(es, m), k)
            == Ok(Dirent(es[k].nid, 12 * |es| + NamesLen(es[..k]), es[k].fileType.Code()))
  {
    hide View, Header, LeVal, LeBytes;
    SplitNames(es, k);
    var data := View(es, m);
    var off := 12 * |es| + NamesLen(es[..k]);
    var h := Header(es[k], off);
    HeaderAt(es, m, k);
    HeaderFields(es[k], off);
    SubSlice(data, 12 * k, 12 * k + 12, 0, 8);
    SubSlice(data, 12 * k, 12 * k + 12, 8, 10);
    assert data[12 * k + 10] == data[12 * k..12 * k + 12][10] == h[10];
  }

  lemma NameToEnd(h: seq<byte>, a: seq<byte>, b: seq<byte>, z: seq<byte>)
    ensures var all := h + (a + b + []) + z;
            all[|h| + |a|..|all|] == b + z
  {
  }

  /** Entry `k`'s name lies at its header's offset, up to the next name or the end of the view. */
  lemma NameSlice(es: seq<Entry>, m: nat, k: nat)
    requires Used(es) <= m <= BLOCK_SIZE && k < |es|
    ensures var off := 12 * |es| + NamesLen(es[..k]);
            var end := if k < |es| - 1 then 12 * |es| + NamesLen(es[..k + 1]) else m;
            off <= end <= m && View(es, m)[off..end] == es[k].name + Tail(es, k, m)
  {
    assert k == |es| - 1 ==> NameBytes(es[k + 1..]) == [] && NamesLen(es[k + 1..]) == 0;
    hide View, Zeros, Headers, NameBytes, NamesLen;
    ViewParts(es, m);
    SplitNames(es, k);
    var headers, before, name, after := Headers(es, 12 * |es|), NameBytes(es[..k]), es[k].name, NameBytes(es[k + 1..]);
    var pad := Zeros(m - Used(es));
    if k < |es| - 1 {
      Regroup(headers, before, name, after, pad);
      Middle(headers + before, name, after + pad);
    } else {
      NameToEnd(headers, before, name, pad);
    }
  }

  /** The raw name slice of entry `k`. */
  lemma RawNameAt(es: seq<Entry>, m: nat, k: nat)
    requires Used(es) <= m <= BLOCK_SIZE && k < |es|
    requires Encodable(es)
    ensures var off := 12 * |es| + NamesLen(es[..k]);
            RawName(View(es, m), Dirent(es[k].nid, off, es[k].fileType.Code()), k, |es|)
            == Ok(es[k].name + Tail(es, k, m))
  {
    hide View, ReadNthDirent, Used, Tail;
    NameSlice(es, m, k);
    if k < |es| - 1 {
      assert es[k + 1] in es;
      DirentAt(es, m, k + 1);
    }
  }

  lemma EntryAt(es: seq<Entry>, m: nat, k: nat)
    requires Used(es) <= m <= BLOCK_SIZE && k < |es|
    requires Encodable(es)
    ensures ReadNthIdName(View(es, m), k, |es|) == Ok((es[k].nid, es[k].name))
  {
    hide View, ReadNthDirent, RawName, UntilNul;
    assert es[k] in es;
    DirentAt(es, m, k);
    RawNameAt(es, m, k);
    if k < |es| - 1 {
      UntilNulPadding(es[k].name, 0);
      assert Zeros(0) == [];
    } else {
      UntilNulPadding(es[k].name, m - Used(es));
    }
  }

  lemma CountAt(es: seq<Entry>, m: nat)
    requires Used(es) <= m <= BLOCK_SIZE && es != []
    requires Encodable(es)
    ensures EntryCount(View(es, m)) == Ok(|es|)
  {
    hide View, ReadNthDirent;
    assert es[0] in es;
    DirentAt(es, m, 0);
    assert es[..0] == [];
  }

  ghost function Ids(es: seq<Entry>): (r: seq<(nat, Name)>)
    ensures |r| == |es|
    ensures forall i :: 0 <= i < |r| ==> r[i] == (es[i].nid, es[i].name)
  {
    seq(|es|, i requires 0 <= i < |es| => (es[i].nid, es[i].name))
  }

  /** Packing round trip for one block, whole or cut to its used bytes: nids, names and file types. */
  lemma BlockRoundTrip(es: seq<Entry>, m: nat)
    requires Used(es) <= m <= BLOCK_SIZE && es != []
    requires Encodable(es)
    ensures DecodeBlock(View(es, m)) == Ok(Ids(es))
    ensures forall k :: 0 <= k < |es| ==>
      && ReadNthDirent(View(es, m), k).Ok?
      && FileType.FromCode(ReadNthDirent(View(es, m), k).value.fileType) == Ok(es[k].fileType)
  {
    hide View, ReadNthIdName, ReadNthDirent, EntryCount, Ids, FileType.FromCode;
    CountAt(es, m);
    DecodedRead(View(es, m), 0, |es|);
    var r := DecodeFrom(View(es, m), 0, |es|);
    forall k | 0 <= k < |es|
      ensures ReadNthIdName(View(es, m), k, |es|) == Ok((es[k].nid, es[k].name))
    {
      EntryAt(es, m, k);
    }
    forall k | 0 <= k < |es|
      ensures ReadNthDirent(View(es, m), k).Ok?
      ensures FileType.FromCode(ReadNthDirent(View(es, m), k).value.fileType) == Ok(es[k].fileType)
    {
      assert es[k] in es;
      DirentAt(es, m, k);
    }
    assert r.Ok?;
    assert forall k :: 0 <= k < |es| ==> ReadNthIdName(View(es, m), k, |es|) == Ok(r.value[k - 0]);
    assert r.value == Ids(es);
  }
}
