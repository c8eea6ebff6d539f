/** Packing sorted directory entries into 4096-byte blocks, and reading them back. */
module DirPacking {
  import opened Bytes
  import Types
  import Names

  const BLOCK_SIZE: nat := 4096

  /** One planned directory entry. */
  datatype Entry = Entry(nid: nat, fileType: Types.FileType, name: Names.Name)

  /** What the packer needs of its entries: the builder's scan bounds every name. */
  ghost predicate Packable(es: seq<Entry>) {
    forall e :: e in es ==> |e.name| <= 255
  }

  function NamesLen(es: seq<Entry>): nat {
    if es == [] then 0 else |es[0].name| + NamesLen(es[1..])
  }

  /** Bytes a block of these entries occupies before padding. */
  function Used(es: seq<Entry>): nat {
    12 * |es| + NamesLen(es)
  }

  function Header(e: Entry, nameOff: nat): (s: seq<byte>)
    ensures |s| == 12
  {
    LeBytes(e.nid, 8) + LeBytes(nameOff, 2) + [e.fileType.Code(), 0]
  }

  function Headers(es: seq<Entry>, nameOff: nat): (s: seq<byte>)
    ensures |s| == 12 * |es|
  {
    if es == [] then [] else Header(es[0], nameOff) + Headers(es[1..], nameOff + |es[0].name|)
  }

  function NameBytes(es: seq<Entry>): (s: seq<byte>)
    ensures |s| == NamesLen(es)
  {
    if es == [] then [] else es[0].name + NameBytes(es[1..])
  }

  /** A whole block: the header array, the names behind it, zero padding. */
  function BlockBytes(es: seq<Entry>): (s: seq<byte>)
    requires Used(es) <= BLOCK_SIZE
    ensures |s| == BLOCK_SIZE
  {
    Headers(es, 12 * |es|) + NameBytes(es) + Zeros(BLOCK_SIZE - Used(es))
  }

  lemma {:induction false} NamesLenSplit(a: seq<Entry>, b: seq<Entry>)
    ensures NamesLen(a + b) == NamesLen(a) + NamesLen(b)
  {
    if a == [] {
      assert a + b == b;
    } else {
      assert (a + b)[1..] == a[1..] + b;
      NamesLenSplit(a[1..], b);
    }
  }

  lemma {:induction false} NameBytesSplit(a: seq<Entry>, b: seq<Entry>)
    ensures NameBytes(a + b) == NameBytes(a) + NameBytes(b)
  {
    if a == [] {
      assert a + b == b;
    } else {
      assert (a + b)[1..] == a[1..] + b;
      NameBytesSplit(a[1..], b);
    }
  }

  lemma {:induction false} HeadersSplit(a: seq<Entry>, b: seq<Entry>, nameOff: nat)
    ensures Headers(a + b, nameOff) == Headers(a, nameOff) + Headers(b, nameOff + NamesLen(a))
  {
    if a == [] {
      assert a + b == b;
    } else {
      assert (a + b)[1..] == a[1..] + b;
      HeadersSplit(a[1..], b, nameOff + |a[0].name|);
    }
  }

  lemma SplitNames(es: seq<Entry>, k: nat)
    requires k < |es|
    ensures NamesLen(es) == NamesLen(es[..k]) + |es[k].name| + NamesLen(es[k + 1..])
    ensures NamesLen(es[..k + 1]) == NamesLen(es[..k]) + |es[k].name|
    ensures NameBytes(es) == NameBytes(es[..k]) + es[k].name + NameBytes(es[k + 1..])
    ensures NameBytes(es[..k + 1]) == NameBytes(es[..k]) + es[k].name
  {
    var a, e, b := es[..k], [es[k]], es[k + 1..];
    assert es == a + (e + b) && es[..k + 1] == a + e;
    assert e[1..] == [] && (e + b)[1..] == b;
    NamesLenSplit(a, e + b);
    NamesLenSplit(a, e);
    NameBytesSplit(a, e + b);
    NameBytesSplit(a, e);
  }

  lemma SplitHeaders(es: seq<Entry>, k: nat, nameOff: nat)
    requires k < |es|
    ensures Headers(es, nameOff) == Headers(es[..k], nameOff)
                                    + Header(es[k], nameOff + NamesLen(es[..k]))
                                    + Headers(es[k + 1..], nameOff + NamesLen(es[..k]) + |es[k].name|)
    ensures Headers(es[..k + 1], nameOff) == Headers(es[..k], nameOff)
                                             + Header(es[k], nameOff + NamesLen(es[..k]))
  {
    hide Header;
    var a, e, b := es[..k], [es[k]], es[k + 1..];
    assert es == a + (e + b) && es[..k + 1] == a + e;
    assert e[1..] == [] && (e + b)[1..] == b;
    HeadersSplit(a, e + b, nameOff);
    HeadersSplit(a, e, nameOff);
  }

  /** A block under construction: written headers, free headers, written names, free space. */
  ghost function Partial(done: seq<byte>, room: int, names: seq<byte>, pad: int): seq<byte>
    requires room >= 0 && pad >= 0
  {
    done + Zeros(room) + names + Zeros(pad)
  }

  lemma PartialEnds(data: seq<byte>, room: nat, pad: nat)
    ensures data + Zeros(room + pad) == Partial(data, room, [], pad)
    ensures Headers([], room) == [] && NameBytes([]) == []
  {
  }

  lemma PartialFull(done: seq<byte>, names: seq<byte>, pad: nat)
    ensures Partial(done, 0, names, pad) == done + names + Zeros(pad)
  {
  }

  /** One slot: the nid, name offset and type fields, then the name itself. */
  method WriteSlot(data: seq<byte>, ghost done: seq<byte>, ghost room: nat, ghost names: seq<byte>,
                   ghost pad: nat, direntOffset: nat, entry: Entry, nameOffset: nat, nameStart: nat)
    returns (out: seq<byte>)
    requires data == Partial(done, room, names, pad)
    requires room >= 12 && pad >= |entry.name|
    requires direntOffset == |done| && nameStart == |done| + room + |names|
    ensures out == Partial(done + Header(entry, nameOffset), room - 12,
                           names + entry.name, pad - |entry.name|)
  {
    hide LeBytes, Blit, Zeros;
    ghost var tail := names + Zeros(pad);
    assert data == done + Zeros(room) + tail;
    out := Blit(data, direntOffset, LeBytes(entry.nid, 8));
    BlitZeros(done, room, tail, LeBytes(entry.nid, 8));
    ghost var d1 := done + LeBytes(entry.nid, 8);
    out := Blit(out, direntOffset + 8, LeBytes(nameOffset, 2));
    BlitZeros(d1, room - 8, tail, LeBytes(nameOffset, 2));
    ghost var d2 := d1 + LeBytes(nameOffset, 2);
    out := Blit(out, direntOffset + 10, [entry.fileType.Code()]);
    BlitZeros(d2, room - 10, tail, [entry.fileType.Code()]);
    ghost var d3 := done + Header(entry, nameOffset);
    assert Zeros(room - 11) == [0] + Zeros(room - 12);
    assert d2 + [entry.fileType.Code()] + Zeros(room - 11) == d3 + Zeros(room - 12);
    assert out == (d3 + Zeros(room - 12) + names) + Zeros(pad) + [];
    out := Blit(out, nameStart, entry.name);
    BlitZeros(d3 + Zeros(room - 12) + names, pad, [], entry.name);
  }

  /** The builder's writer for one block: headers and names are written into fresh zeros. */
  method WriteDirBlock(data: seq<byte>, entries: seq<Entry>) returns (out: seq<byte>)
    requires Used(entries) <= BLOCK_SIZE
    ensures out == data + BlockBytes(entries)
  {
    hide Header, Headers, NameBytes, NamesLen, Partial, Zeros;
    var blockBase := |data|;
    var header := |entries| * 12;
    out := data + Zeros(BLOCK_SIZE);
    var nameOffset := header;
    ghost var done, names := data, [];
    assert entries[..0] == [];
    PartialEnds(data, header, BLOCK_SIZE - header);
    for slot := 0 to |entries|
      invariant done == data + Headers(entries[..slot], header)
      invariant names == NameBytes(entries[..slot])
      invariant nameOffset == header + |names| <= BLOCK_SIZE
      invariant out == Partial(done, header - 12 * slot, names, BLOCK_SIZE - nameOffset)
    {
      var entry := entries[slot];
      SplitNames(entries, slot);
      SplitHeaders(entries, slot, header);
      out := WriteSlot(out, done, header - 12 * slot, names, BLOCK_SIZE - nameOffset,
                       blockBase + slot * 12, entry, nameOffset, blockBase + nameOffset);
      done, names := done + Header(entry, nameOffset), names + entry.name;
      nameOffset := nameOffset + |entry.name|;
    }
    assert entries[..|entries|] == entries;
    PartialFull(done, names, BLOCK_SIZE - nameOffset);
  }

  /** Greedy packing: `cur` is the open block, and the next entry joins it if it still fits. */
  function Pack(cur: seq<Entry>, rest: seq<Entry>): (blocks: seq<seq<Entry>>)
    ensures |blocks| > 0
    decreases |rest|
  {
    if rest == [] then [cur]
    else if Used(cur) + 12 + |rest[0].name| > BLOCK_SIZE then [cur] + Pack([rest[0]], rest[1..])
    else Pack(cur + [rest[0]], rest[1..])
  }

  function Blocks(entries: seq<Entry>): seq<seq<Entry>> {
    Pack([], entries)
  }

  function Flatten<T>(parts: seq<seq<T>>): seq<T> {
    if parts == [] then [] else parts[0] + Flatten(parts[1..])
  }

  ghost predicate BlocksFit(blocks: seq<seq<Entry>>) {
    forall b :: 0 <= b < |blocks| ==> blocks[b] != [] && Used(blocks[b]) <= BLOCK_SIZE
  }

  /** A block is closed only because the next entry does not fit into it. */
  ghost predicate Greedy(blocks: seq<seq<Entry>>) {
    forall b :: 1 <= b < |blocks| ==>
      blocks[b] != [] && Used(blocks[b - 1]) + 12 + |blocks[b][0].name| > BLOCK_SIZE
  }

  lemma UsedSnoc(cur: seq<Entry>, e: Entry)
    ensures Used(cur + [e]) == Used(cur) + 12 + |e.name|
  {
    NamesLenSplit(cur, [e]);
    assert [e][1..] == [];
  }

  lemma NoneUsed()
    ensures Used([]) == 0
  {
  }

  lemma PackStep(cur: seq<Entry>, rest: seq<Entry>)
    ensures rest == [] ==> Pack(cur, rest) == [cur]
    ensures rest != [] ==>
      Pack(cur, rest) == if Used(cur) + 12 + |rest[0].name| > BLOCK_SIZE
                         then [cur] + Pack([rest[0]], rest[1..])
                         else Pack(cur + [rest[0]], rest[1..])
  {
  }

  /** Packing neither loses, adds nor moves an entry. */
  lemma {:induction false} PackFlattens(cur: seq<Entry>, rest: seq<Entry>)
    ensures Flatten(Pack(cur, rest)) == cur + rest
    decreases |rest|
  {
    hide Used;
    if rest == [] {
      assert Flatten([cur]) == cur + Flatten<Entry>([]) == cur;
    } else {
      var e := rest[0];
      assert rest == [e] + rest[1..];
      if Used(cur) + 12 + |e.name| > BLOCK_SIZE {
        PackFlattens([e], rest[1..]);
        assert ([cur] + Pack([e], rest[1..]))[1..] == Pack([e], rest[1..]);
      } else {
        PackFlattens(cur + [e], rest[1..]);
        assert cur + [e] + rest[1..] == cur + rest;
      }
    }
  }

  /** Closing a block in front of blocks that start with the entry that did not fit. */
  lemma PackCut(cur: seq<Entry>, e: Entry, tail: seq<seq<Entry>>)
    requires cur != [] && Used(cur) <= BLOCK_SIZE && Used(cur) + 12 + |e.name| > BLOCK_SIZE
    requires |tail| > 0 && [e] <= tail[0] && BlocksFit(tail) && Greedy(tail)
    ensures BlocksFit([cur] + tail) && Greedy([cur] + tail)
  {
    hide Used;
    var blocks := [cur] + tail;
    assert tail[0][0] == [e][0];
    assert forall b :: 1 <= b < |blocks| ==> blocks[b] == tail[b - 1];
  }

  /** Blocks are non-empty, fit, and are cut only when the next entry would not fit. */
  lemma {:induction false} PackSound(cur: seq<Entry>, rest: seq<Entry>)
    requires Packable(rest)
    requires Used(cur) <= BLOCK_SIZE && (cur == [] ==> rest != [])
    ensures BlocksFit(Pack(cur, rest)) && Greedy(Pack(cur, rest))
    ensures cur <= Pack(cur, rest)[0]
    decreases |rest|
  {
    hide Used, Pack;
    NoneUsed();
    PackStep(cur, rest);
    if rest != [] {
      var e := rest[0];
      assert e in rest && forall x :: x in rest[1..] ==> x in rest;
      if Used(cur) + 12 + |e.name| > BLOCK_SIZE {
        assert Used([e]) == 12 + |e.name| by { UsedSnoc([], e); assert [] + [e] == [e]; }
        PackSound([e], rest[1..]);
        PackCut(cur, e, Pack([e], rest[1..]));
      } else {
        UsedSnoc(cur, e);
        PackSound(cur + [e], rest[1..]);
      }
    }
  }

  /** Every block of a directory, padded, back to back. */
  function DirBytes(blocks: seq<seq<Entry>>): (s: seq<byte>)
    requires BlocksFit(blocks)
    ensures |s| == BLOCK_SIZE * |blocks|
  {
    if blocks == [] then [] else BlockBytes(blocks[0]) + DirBytes(blocks[1..])
  }

  /** The directory size the inode states: the last block counts only as far as it is filled. */
  function LogicalSize(blocks: seq<seq<Entry>>): nat
    requires |blocks| > 0
  {
    BLOCK_SIZE * (|blocks| - 1) + Used(blocks[|blocks| - 1])
  }

  lemma {:induction false} DirBytesSnoc(blocks: seq<seq<Entry>>, b: seq<Entry>)
    requires BlocksFit(blocks) && BlocksFit(blocks + [b])
    ensures b != [] && Used(b) <= BLOCK_SIZE
    ensures DirBytes(blocks + [b]) == DirBytes(blocks) + BlockBytes(b)
  {
    hide BlockBytes, Used;
    assert (blocks + [b])[|blocks|] == b;
    if blocks == [] {
      assert blocks + [b] == [b] && [b][1..] == [];
    } else {
      assert (blocks + [b])[1..] == blocks[1..] + [b];
      assert forall i :: 0 <= i < |blocks| ==> (blocks + [b])[i] == blocks[i];
      DirBytesSnoc(blocks[1..], b);
    }
  }

  /** One round of the packing loop on the open block `entries[start..index]`. */
  lemma PackAt(entries: seq<Entry>, start: nat, index: nat)
    requires start <= index < |entries|
    ensures var e := entries[index];
            var cur := entries[start..index];
            Pack(cur, entries[index..]) == if Used(cur) + 12 + |e.name| > BLOCK_SIZE
                                           then [cur] + Pack(entries[index..index + 1], entries[index + 1..])
                                           else Pack(entries[start..index + 1], entries[index + 1..])
    ensures Used(entries[start..index + 1]) == Used(entries[start..index]) + 12 + |entries[index].name|
    ensures Used(entries[index..index + 1]) == 12 + |entries[index].name|
  {
    hide Used;
    var e := entries[index];
    var cur := entries[start..index];
    var rest := entries[index..];
    PackStep(cur, rest);
    assert rest[0] == e && rest[1..] == entries[index + 1..];
    assert entries[start..index + 1] == cur + [e];
    assert entries[index..index + 1] == [e] == [] + [e];
    UsedSnoc(cur, e);
    UsedSnoc([], e);
    NoneUsed();
  }

  /** The packing loop before entry `index`: blocks done so far, and the open one. */
  ghost predicate Packing(entries: seq<Entry>, index: nat, start: nat, used: nat,
                          done: seq<seq<Entry>>, data: seq<byte>, logicalSize: nat)
  {
    && start <= index <= |entries|
    && (index > 0 ==> start < index)
    && used == Used(entries[start..index]) <= BLOCK_SIZE
    && Blocks(entries) == done + Pack(entries[start..index], entries[index..])
    && BlocksFit(done) && data == DirBytes(done)
    && logicalSize == BLOCK_SIZE * |done|
  }

  /** The next entry fits into the open block. */
  lemma PackMore(entries: seq<Entry>, index: nat, start: nat, used: nat,
                 done: seq<seq<Entry>>, data: seq<byte>, logicalSize: nat)
    requires index < |entries| && Packing(entries, index, start, used, done, data, logicalSize)
    requires used + 12 + |entries[index].name| <= BLOCK_SIZE
    ensures Packing(entries, index + 1, start, used + 12 + |entries[index].name|, done, data, logicalSize)
  {
    hide Pack, Used, DirBytes;
    PackAt(entries, start, index);
  }

  lemma EmptyOpen(entries: seq<Entry>, start: nat, index: nat)
    requires start <= index <= |entries|
    ensures start == index ==> Used(entries[start..index]) == 0
  {
    NoneUsed();
  }

  lemma PrefixFits(blocks: seq<seq<Entry>>, next: seq<seq<Entry>>)
    requires BlocksFit(blocks + next)
    ensures BlocksFit(blocks)
  {
    hide Used;
    assert forall b :: 0 <= b < |blocks| ==> (blocks + next)[b] == blocks[b];
  }

  /** The open block is full: it is closed and the next entry starts another. */
  lemma PackNext(entries: seq<Entry>, index: nat, start: nat, used: nat,
                 done: seq<seq<Entry>>, data: seq<byte>, logicalSize: nat)
    requires index < |entries| && Packing(entries, index, start, used, done, data, logicalSize)
    requires used + 12 + |entries[index].name| > BLOCK_SIZE >= 12 + |entries[index].name|
    requires BlocksFit(Blocks(entries))
    ensures start < index && BlocksFit(done + [entries[start..index]])
    ensures Packing(entries, index + 1, index, 12 + |entries[index].name|, done + [entries[start..index]],
                    DirBytes(done + [entries[start..index]]), logicalSize + BLOCK_SIZE)
  {
    hide Pack, Used, DirBytes;
    var cur := entries[start..index];
    var next := Pack(entries[index..index + 1], entries[index + 1..]);
    EmptyOpen(entries, start, index);
    PackAt(entries, start, index);
    assert Blocks(entries) == done + ([cur] + next) == (done + [cur]) + next;
    PrefixFits(done + [cur], next);
  }

  /** After the last entry the open block is the last one. */
  lemma PackLast(entries: seq<Entry>, start: nat, used: nat,
                 done: seq<seq<Entry>>, data: seq<byte>, logicalSize: nat)
    requires Packing(entries, |entries|, start, used, done, data, logicalSize)
    requires BlocksFit(Blocks(entries))
    ensures Blocks(entries) == done + [entries[start..]] && BlocksFit(done + [entries[start..]])
    ensures logicalSize + used == LogicalSize(Blocks(entries))
  {
    hide Pack, Used, DirBytes;
    assert entries[start..|entries|] == entries[start..];
    PackStep(entries[start..], entries[|entries|..]);
  }

  lemma NoBlocks()
    ensures DirBytes([]) == []
  {
  }

  /** The builder's packer: one pass over the sorted entries, cutting blocks as they fill up. */
  method EncodeDirents(entries: seq<Entry>) returns (data: seq<byte>, logicalSize: nat)
    requires entries != [] && Packable(entries)
    ensures BlocksFit(Blocks(entries))
    ensures data == DirBytes(Blocks(entries))
    ensures logicalSize == LogicalSize(Blocks(entries))
  {
    hide Pack, Used, BlockBytes, DirBytes;
    NoneUsed();
    PackSound([], entries);
    data, logicalSize := [], 0;
    var blockStart: nat, used: nat := 0, 0;
    ghost var done: seq<seq<Entry>> := [];
    assert Packing(entries, 0, blockStart, used, done, data, logicalSize) by {
      assert entries[0..0] == [] && entries[0..] == entries;
      assert DirBytes([]) == [] by {
        NoBlocks();
      }
    }
    for index := 0 to |entries|
      invariant Packing(entries, index, blockStart, used, done, data, logicalSize)
    {
      var entry := entries[index];
      assert entry in entries;
      var needed := 12 + |entry.name|;
      if used + needed > BLOCK_SIZE {
        PackNext(entries, index, blockStart, used, done, data, logicalSize);
        data := WriteDirBlock(data, entries[blockStart..index]);
        DirBytesSnoc(done, entries[blockStart..index]);
        done := done + [entries[blockStart..index]];
        logicalSize := logicalSize + BLOCK_SIZE;
        blockStart := index;
        used := 0;
      } else {
        PackMore(entries, index, blockStart, used, done, data, logicalSize);
      }
      used := used + needed;
    }
    PackLast(entries, blockStart, used, done, data, logicalSize);
    data := WriteDirBlock(data, entries[blockStart..]);
    DirBytesSnoc(done, entries[blockStart..]);
    logicalSize := logicalSize + used;
  }
}
