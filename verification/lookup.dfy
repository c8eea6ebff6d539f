/** Path resolution, and the build-then-lookup round trip. */
module Lookup {
  import opened Arithmetic
  import opened Bytes
  import opened Results
  import opened Types
  import opened Names
  import opened Sorting
  import opened Dirents
  import opened DirPacking
  import opened DirDecoding
  import opened Trees
  import opened Layout
  import opened Emitter
  import opened Storage
  import Builder
  import opened Reader

  /** Searches directory blocks `i..count` in order for `name`. */
  function LookupBlocks(img: seq<byte>, core: Core, inode: Inode, name: Name, i: nat, count: nat)
    : Outcome<Option<nat>>
    requires core.blockSize > 0
    decreases count - i
  {
    if i >= count then Ok(None)
    else
      var block :- GetInodeBlock(img, core, inode, i * core.blockSize);
      var found :- FindNodeId(name, block);
      if found.Some? then Ok(found) else LookupBlocks(img, core, inode, name, i + 1, count)
  }

  /** Resolves path components from inode `nid`; a non-directory on the way resolves to nothing. */
  function ResolvePath(img: seq<byte>, core: Core, nid: nat, comps: seq<Name>): Outcome<Option<Inode>>
    requires core.blockSize > 0
    decreases |comps|
  {
    var inode :- GetInode(img, core, nid);
    if comps == [] then Ok(Some(inode))
    else if !inode.IsDir() then Ok(None)
    else
      var found :- LookupBlocks(img, core, inode, comps[0], 0, DivCeil(inode.size, core.blockSize));
      if found.None? then Ok(None) else ResolvePath(img, core, found.value, comps[1..])
  }

  /** The reader's path walk: components outside, directory blocks inside. */
  method GetPathInode(img: seq<byte>, core: Core, comps: seq<Name>) returns (r: Outcome<Option<Inode>>)
    requires core.blockSize > 0
    ensures r == ResolvePath(img, core, core.sb.rootNid, comps)
  {
    hide GetInode, GetInodeBlock, FindNodeId;
    var nid := core.sb.rootNid;
    assert comps[0..] == comps;
    for part := 0 to |comps|
      invariant ResolvePath(img, core, core.sb.rootNid, comps) == ResolvePath(img, core, nid, comps[part..])
    {
      assert comps[part..][0] == comps[part] && comps[part..][1..] == comps[part + 1..];
      var inode :- GetInode(img, core, nid);
      if !inode.IsDir() {
        return Ok(None);
      }
      var blockCount := DivCeil(inode.size, core.blockSize);
      var i := 0;
      var found: Option<nat> := None;
      while i < blockCount && found.None?
        invariant 0 <= i <= blockCount
        invariant LookupBlocks(img, core, inode, comps[part], 0, blockCount)
                  == if found.Some? then Ok(found)
                     else LookupBlocks(img, core, inode, comps[part], i, blockCount)
      {
        var block :- GetInodeBlock(img, core, inode, i * core.blockSize);
        found :- FindNodeIdByName(comps[part], block);
        i := i + 1;
      }
      if found.None? {
        return Ok(None);
      }
      nid := found.value;
    }
    assert comps[|comps|..] == [];
    var inode :- GetInode(img, core, nid);
    return Ok(Some(inode));
  }

  // ----- Reading back one built directory -----

  /** The core of a built image: 4096-byte blocks, metadata at block 0. */
  ghost predicate BuiltCore(core: Core) {
    core.blockSize == BLOCK_SIZE && core.sb.metaBlkAddr == 0 && core.sb.rootNid == FIRST_NID
    && core.sb.blkSizeBits == 12
  }

  /** The inode a stored node reads back as. */
  function InodeOf(n: Node): Inode {
    Extended(n.nid, 1, 0, n.mode, n.nlink, n.size, n.blkaddr, n.ino, n.uid, n.gid, n.mtime, n.mtimeNsec)
  }

  /** Every field of the node fits its on-disk width. */
  ghost predicate FieldsFit(n: Node) {
    && n.mode <= U16_MAX && n.size <= U64_MAX && n.blkaddr <= U32_MAX && n.ino <= U32_MAX
    && n.mtime <= U64_MAX && n.mtimeNsec <= U32_MAX && n.nlink <= U32_MAX
  }

  lemma FieldBack(head: seq<byte>, offset: nat, v: nat, width: nat)
    requires width in {2, 4, 8} && v < Pow256(width)
    requires offset + width <= |head| && head[offset..offset + width] == LeBytes(v, width)
    ensures LeVal(head[offset..offset + width]) == v
  {
    LeRoundTrip(v, width);
  }

  lemma InodeHeadSlices(n: Node)
    ensures var h := InodeHead(n);
      && h[0..2] == LeBytes(1, 2) && h[2..4] == LeBytes(0, 2) && h[4..6] == LeBytes(n.mode, 2)
      && h[8..16] == LeBytes(n.size, 8) && h[16..20] == LeBytes(n.blkaddr, 4)
      && h[20..24] == LeBytes(n.ino, 4) && h[24..28] == LeBytes(n.uid, 4) && h[28..32] == LeBytes(n.gid, 4)
      && h[32..40] == LeBytes(n.mtime, 8) && h[40..44] == LeBytes(n.mtimeNsec, 4)
      && h[44..48] == LeBytes(n.nlink, 4)
  {
    hide LeBytes;
    var h := InodeHead(n);
    var p1 := [] + LeBytes(1, 2);
    var p2 := p1 + LeBytes(0, 2);
    var p3 := p2 + LeBytes(n.mode, 2);
    var p4 := p3 + LeBytes(0, 2);
    var p5 := p4 + LeBytes(n.size, 8);
    var p6 := p5 + LeBytes(n.blkaddr, 4);
    var p7 := p6 + LeBytes(n.ino, 4);
    var p8 := p7 + LeBytes(n.uid, 4);
    var p9 := p8 + LeBytes(n.gid, 4);
    var p10 := p9 + LeBytes(n.mtime, 8);
    var p11 := p10 + LeBytes(n.mtimeNsec, 4);
    assert h == p11 + LeBytes(n.nlink, 4);
    PeelField(p11, LeBytes(n.nlink, 4), h);
    PeelField(p10, LeBytes(n.mtimeNsec, 4), h);
    PeelField(p9, LeBytes(n.mtime, 8), h);
    PeelField(p8, LeBytes(n.gid, 4), h);
    PeelField(p7, LeBytes(n.uid, 4), h);
    PeelField(p6, LeBytes(n.ino, 4), h);
    PeelField(p5, LeBytes(n.blkaddr, 4), h);
    PeelField(p4, LeBytes(n.size, 8), h);
    PeelField(p3, LeBytes(0, 2), h);
    PeelField(p2, LeBytes(n.mode, 2), h);
    PeelField(p1, LeBytes(0, 2), h);
    PeelField([], LeBytes(1, 2), h);
  }

  /** An inode head followed by anything parses as the node's inode. */
  lemma InodeParses(data: seq<byte>, n: Node)
    requires FieldsFit(n)
    requires |data| >= 64 && data[..48] == InodeHead(n)
    ensures ParseInode(data, n.nid) == Ok(InodeOf(n))
  {
    hide LeBytes, LeVal, InodeHead;
    var h := InodeHead(n);
    InodeHeadSlices(n);
    Pow256Values();
    assert h <= data;
    FieldBack(h, 0, 1, 2);
    PrefixSlice(h, data, 0, 2);
    FieldBack(h, 2, 0, 2);
    PrefixSlice(h, data, 2, 4);
    FieldBack(h, 4, n.mode, 2);
    PrefixSlice(h, data, 4, 6);
    FieldBack(h, 8, n.size, 8);
    PrefixSlice(h, data, 8, 16);
    FieldBack(h, 16, n.blkaddr, 4);
    PrefixSlice(h, data, 16, 20);
    FieldBack(h, 20, n.ino, 4);
    PrefixSlice(h, data, 20, 24);
    FieldBack(h, 24, n.uid, 4);
    PrefixSlice(h, data, 24, 28);
    FieldBack(h, 28, n.gid, 4);
    PrefixSlice(h, data, 28, 32);
    FieldBack(h, 32, n.mtime, 8);
    PrefixSlice(h, data, 32, 40);
    FieldBack(h, 40, n.mtimeNsec, 4);
    PrefixSlice(h, data, 40, 44);
    FieldBack(h, 44, n.nlink, 4);
    PrefixSlice(h, data, 44, 48);
  }

  lemma InodeReads(img: seq<byte>, core: Core, n: Node)
    requires BuiltCore(core) && InodeStored(img, n) && FieldsFit(n)
    requires 32 * n.nid <= U64_MAX
    ensures GetInode(img, core, n.nid) == Ok(InodeOf(n))
  {
    hide InodeHead, ParseInode;
    var at := 32 * n.nid;
    var data := img[at..];
    assert data[..48] == img[at..at + 48];
    assert BlockOffset(core, 0) == 0;
    InodeParses(data, n);
  }

  /** The number of bytes of block `b` the reader is shown. */
  ghost function Shown(blocks: seq<seq<Entry>>, b: nat): (m: nat)
    requires BlocksFit(blocks) && b < |blocks|
    ensures Used(blocks[b]) <= m <= BLOCK_SIZE
  {
    if b < |blocks| - 1 then BLOCK_SIZE else Used(blocks[b])
  }

  lemma {:induction false} DirBytesAt(blocks: seq<seq<Entry>>, b: nat)
    requires BlocksFit(blocks) && b < |blocks|
    ensures DirBytes(blocks)[BLOCK_SIZE * b..BLOCK_SIZE * b + BLOCK_SIZE] == BlockBytes(blocks[b])
  {
    hide BlockBytes;
    var first, rest := BlockBytes(blocks[0]), DirBytes(blocks[1..]);
    if b > 0 {
      DirBytesAt(blocks[1..], b - 1);
      var lo := BLOCK_SIZE * (b - 1);
      assert (first + rest)[BLOCK_SIZE + lo..BLOCK_SIZE + lo + BLOCK_SIZE] == rest[lo..lo + BLOCK_SIZE];
    }
  }

  lemma DataSlice(img: seq<byte>, n: Node)
    requires PayloadStored(img, n) && n.IsDir() && n.kind.data != []
    ensures var start := BLOCK_SIZE * n.blkaddr;
            start + |n.kind.data| <= |img| && img[start..start + |n.kind.data|] == n.kind.data
  {
  }

  /** The bytes of one block of a stored directory are the packed block. */
  lemma StoredBlock(img: seq<byte>, n: Node, blocks: seq<seq<Entry>>, b: nat, at: nat, m: nat)
    requires PayloadStored(img, n) && n.IsDir()
    requires BlocksFit(blocks) && n.kind.data == DirBytes(blocks) && b < |blocks|
    requires at == BLOCK_SIZE * n.blkaddr + BLOCK_SIZE * b && m == Shown(blocks, b)
    ensures BLOCK_SIZE * n.blkaddr + BLOCK_SIZE * |blocks| <= |img|
    ensures Used(blocks[b]) <= m <= BLOCK_SIZE && at + m <= |img|
    ensures img[at..at + m] == View(blocks[b], m)
  {
    hide DirBytes, BlockBytes, PayloadStored, Used, Shown, BlocksFit;
    DataSlice(img, n);
    DirBytesAt(blocks, b);
    SliceChain(img, DirBytes(blocks), BLOCK_SIZE * n.blkaddr, BLOCK_SIZE * b, BLOCK_SIZE, m);
  }

  lemma ReadDirect(img: seq<byte>, core: Core, inode: Inode, offset: nat, at: nat, size: nat)
    requires core.blockSize > 0
    requires PlanInodeBlockRead(core, inode, offset) == Ok(Direct(at, size)) && at + size <= |img|
    ensures GetInodeBlock(img, core, inode, offset) == Ok(img[at..at + size])
  {
  }

  lemma DirBlockCount(n: Node, blocks: seq<seq<Entry>>)
    requires |blocks| > 0 && BlocksFit(blocks) && n.size == LogicalSize(blocks)
    ensures DivCeil(n.size, BLOCK_SIZE) == |blocks|
  {
    var last := |blocks| - 1;
    assert blocks[last] != [] && 0 < Used(blocks[last]) <= BLOCK_SIZE;
    hide Used;
  }

  lemma DirPlan(core: Core, n: Node, blocks: seq<seq<Entry>>, b: nat)
    requires BuiltCore(core) && |blocks| > 0 && BlocksFit(blocks)
    requires n.size == LogicalSize(blocks) && b < |blocks|
    requires BLOCK_SIZE * n.blkaddr + BLOCK_SIZE * |blocks| <= U64_MAX
    ensures PlanInodeBlockRead(core, InodeOf(n), b * BLOCK_SIZE)
            == Ok(Direct(BLOCK_SIZE * n.blkaddr + BLOCK_SIZE * b, Shown(blocks, b)))
  {
    DirBlockCount(n, blocks);
    var last := |blocks| - 1;
    assert blocks[last] != [] && 0 < Used(blocks[last]) <= BLOCK_SIZE;
    hide Used;
  }

  /** Reading back one block of a stored directory gives the packed block, cut to its shown bytes. */
  lemma DirBlockReads(img: seq<byte>, core: Core, n: Node, blocks: seq<seq<Entry>>, b: nat)
    requires BuiltCore(core) && PayloadStored(img, n) && n.IsDir()
    requires |blocks| > 0 && BlocksFit(blocks) && n.kind.data == DirBytes(blocks)
    requires n.size == LogicalSize(blocks) && b < |blocks| && n.blkaddr <= U32_MAX
    requires |img| <= U64_MAX
    ensures GetInodeBlock(img, core, InodeOf(n), b * BLOCK_SIZE) == Ok(View(blocks[b], Shown(blocks, b)))
  {
    hide PlanInodeBlockRead, LogicalSize, PayloadStored, DirBytes, View, Shown, BlocksFit, InodeOf, GetInodeBlock;
    var at, m := BLOCK_SIZE * n.blkaddr + BLOCK_SIZE * b, Shown(blocks, b);
    StoredBlock(img, n, blocks, b, at, m);
    DirPlan(core, n, blocks, b);
    ReadDirect(img, core, InodeOf(n), b * BLOCK_SIZE, at, m);
  }

  // ----- Looking a name up in a built directory -----

  lemma {:induction false} LinearFindSplit(a: seq<(nat, Name)>, b: seq<(nat, Name)>, name: Name)
    ensures LinearFind(a + b, name)
            == if LinearFind(a, name).Some? then LinearFind(a, name) else LinearFind(b, name)
  {
    if a == [] {
      assert a + b == b;
    } else {
      assert (a + b)[1..] == a[1..] + b;
      LinearFindSplit(a[1..], b, name);
    }
  }

  lemma StrictSplit(a: seq<Entry>, b: seq<Entry>)
    requires Strict(a + b, EntryName)
    ensures Strict(a, EntryName) && Strict(b, EntryName)
  {
    assert forall i :: 0 <= i < |a| ==> a[i] == (a + b)[i];
    assert forall i :: 0 <= i < |b| ==> b[i] == (a + b)[|a| + i];
  }

  lemma EncodableSplit(a: seq<Entry>, b: seq<Entry>)
    requires Encodable(a + b)
    ensures Encodable(a) && Encodable(b)
  {
    forall e | e in a ensures e in a + b {}
    forall e | e in b ensures e in a + b {}
  }

  /** The binary search on one packed block is the scan of its entries. */
  lemma BlockFinds(es: seq<Entry>, m: nat, name: Name)
    requires Used(es) <= m <= BLOCK_SIZE && es != []
    requires Encodable(es) && Strict(es, EntryName)
    ensures FindNodeId(name, View(es, m)) == Ok(LinearFind(Ids(es), name))
  {
    hide View, Used, Less, DecodeBlock, FindNodeId;
    BlockRoundTrip(es, m);
    assert forall i :: 0 <= i < |es| ==> NamesOf(Ids(es))[i] == EntryName(es[i]);
    LookupMeetsScan(name, View(es, m), Ids(es));
  }

  /** Looking through the stored blocks finds what a scan of all entries finds. */
  lemma {:induction false} LookupBlocksFinds(
      img: seq<byte>, core: Core, n: Node, blocks: seq<seq<Entry>>, name: Name, b: nat)
    requires BuiltCore(core) && PayloadStored(img, n) && n.IsDir() && n.blkaddr <= U32_MAX
    requires |blocks| > 0 && BlocksFit(blocks) && n.kind.data == DirBytes(blocks)
    requires n.size == LogicalSize(blocks) && b <= |blocks| && |img| <= U64_MAX
    requires Encodable(Flatten(blocks[b..])) && Strict(Flatten(blocks[b..]), EntryName)
    ensures LookupBlocks(img, core, InodeOf(n), name, b, |blocks|)
            == Ok(LinearFind(Ids(Flatten(blocks[b..])), name))
    decreases |blocks| - b
  {
    hide GetInodeBlock, FindNodeId, DirBytes, LogicalSize, View, Used, PayloadStored, Less, Encodable;
    if b < |blocks| {
      var es, rest := blocks[b], Flatten(blocks[b + 1..]);
      assert blocks[b..][0] == es && blocks[b..][1..] == blocks[b + 1..];
      assert Flatten(blocks[b..]) == es + rest;
      StrictSplit(es, rest);
      EncodableSplit(es, rest);
      DirBlockReads(img, core, n, blocks, b);
      BlockFinds(es, Shown(blocks, b), name);
      LookupBlocksFinds(img, core, n, blocks, name, b + 1);
      assert Ids(es + rest) == Ids(es) + Ids(rest);
      LinearFindSplit(Ids(es), Ids(rest), name);
    } else {
      assert blocks[b..] == [];
    }
  }

  // ----- The whole tree -----

  /** What the reader relies on, node by node: bytes in place, fields in range, directories packed,
      and nids that grow downwards. */
  ghost predicate Sound(img: seq<byte>, n: Node, parent: nat)
    decreases n
  {
    && InodeStored(img, n) && PayloadStored(img, n) && FieldsFit(n) && 32 * n.nid <= U64_MAX
    && (n.IsDir() ==> DirStored(n, parent) && SoundAll(img, n.kind.children, n.nid))
  }

  ghost predicate SoundAll(img: seq<byte>, cs: seq<Node>, parent: nat)
    decreases cs
  {
    cs == [] || (parent < cs[0].nid && Sound(img, cs[0], parent) && SoundAll(img, cs[1..], parent))
  }

  lemma {:induction false} SoundMember(img: seq<byte>, cs: seq<Node>, parent: nat, c: Node)
    requires SoundAll(img, cs, parent) && c in cs
    ensures parent < c.nid && Sound(img, c, parent)
  {
    if c != cs[0] { SoundMember(img, cs[1..], parent, c); }
  }

  lemma SizeCovered(n: Node, nid: nat, parent: nat, lo: nat)
    requires Laid(n, nid, parent, lo)
    ensures n.size <= PayloadLen(n)
  {
    if n.IsDir() {
      var blocks := Blocks(DirEntries(n.nid, parent, n.kind.children));
      hide Blocks, DirEntries, Used;
      assert |n.kind.data| == BLOCK_SIZE * |blocks|;
      assert Used(blocks[|blocks| - 1]) <= BLOCK_SIZE;
    }
  }

  /** Everything the builder stored can be relied upon. */
  lemma {:induction false} LaidSound(img: seq<byte>, n: Node, nid: nat, parent: nat, lo: nat)
    requires Laid(n, nid, parent, lo) && Stored(img, n) && Bounded(n)
    requires 32 * (nid + 2 * Count(n)) <= U64_MAX && BLOCK_SIZE * (lo + Extent(n)) <= U64_MAX
    ensures Sound(img, n, parent)
    decreases n
  {
    hide InodeStored, PayloadStored, DirStored;
    OwnBlocksCover(n);
    SizeCovered(n, nid, parent, lo);
    if n.IsDir() {
      LaidAllSound(img, n.kind.children, nid + 2, nid, lo + OwnBlocks(n));
    }
  }

  lemma {:induction false} LaidAllSound(img: seq<byte>, cs: seq<Node>, nid: nat, parent: nat, lo: nat)
    requires LaidAll(cs, nid, parent, lo) && StoredAll(img, cs) && BoundedAll(cs) && parent < nid
    requires 32 * (nid + 2 * CountAll(cs)) <= U64_MAX && BLOCK_SIZE * (lo + ExtentAll(cs)) <= U64_MAX
    ensures SoundAll(img, cs, parent)
    decreases cs
  {
    hide Stored, Bounded, Sound;
    if cs != [] {
      Builder.LaidNid(cs[0], nid, parent, lo);
      LaidSound(img, cs[0], nid, parent, lo);
      LaidAllSound(img, cs[1..], nid + 2 * Count(cs[0]), parent, lo + Extent(cs[0]));
    }
  }

  /** Sibling names are legal and strictly increasing, everywhere below `n`. */
  ghost predicate LegalTree(n: Node)
    decreases n
  {
    n.IsDir() ==> Strict(n.kind.children, NodeName) && LegalAll(n.kind.children)
  }

  ghost predicate LegalAll(cs: seq<Node>)
    decreases cs
  {
    cs == [] || (Legal(cs[0].name) && LegalTree(cs[0]) && LegalAll(cs[1..]))
  }

  lemma {:induction false} LegalMember(cs: seq<Node>, c: Node)
    requires LegalAll(cs) && c in cs
    ensures Legal(c.name) && LegalTree(c)
  {
    if c != cs[0] { LegalMember(cs[1..], c); }
  }

  /** The entries of a legal directory are strictly sorted and decodable. */
  lemma DirEntriesSorted(img: seq<byte>, n: Node, parent: nat)
    requires n.IsDir() && Sound(img, n, parent) && LegalTree(n) && parent <= U64_MAX
    ensures Strict(DirEntries(n.nid, parent, n.kind.children), EntryName)
    ensures Encodable(DirEntries(n.nid, parent, n.kind.children))
  {
    hide InodeStored, PayloadStored, DirStored, Less;
    var cs := n.kind.children;
    var raw := RawEntries(n.nid, parent, cs);
    StrictDistinct(cs, NodeName);
    forall i | 2 <= i < |raw|
      ensures raw[i] == EntryOf(cs[i - 2]) && Legal(raw[i].name) && raw[i].nid <= U64_MAX
    {
      LegalMember(cs, cs[i - 2]);
      SoundMember(img, cs, n.nid, cs[i - 2]);
    }
    forall i, j | 0 <= i < j < |raw| ensures EntryName(raw[i]) != EntryName(raw[j]) {
      if i >= 2 { assert NodeName(cs[i - 2]) != NodeName(cs[j - 2]); }
    }
    SortStrict(raw, EntryName);
    SortMembers(raw, EntryName);
    forall e | e in Sort(raw, EntryName)
      ensures e.nid <= U64_MAX && 0 !in e.name && !Slash(e.name)
    {
      assert e in raw;
    }
  }

  lemma {:induction false} FindIds(es: seq<Entry>, name: Name)
    ensures LinearFind(Ids(es), name)
            == match Find(es, EntryName, name) case None => None case Some(e) => Some(e.nid)
  {
    if es != [] {
      assert Ids(es)[1..] == Ids(es[1..]);
      FindIds(es[1..], name);
    }
  }

  lemma {:induction false} FindEntries(cs: seq<Node>, name: Name)
    ensures Find(EntriesOf(cs), EntryName, name)
            == match Find(cs, NodeName, name) case None => None case Some(c) => Some(EntryOf(c))
  {
    if cs != [] {
      assert EntriesOf(cs)[1..] == EntriesOf(cs[1..]);
      FindEntries(cs[1..], name);
    }
  }

  /** Dots aside, the sorted entries find what the children find. */
  lemma DirEntriesFind(nid: nat, parent: nat, cs: seq<Node>, name: Name)
    requires name != DOT && name != DOTDOT
    ensures LinearFind(Ids(DirEntries(nid, parent, cs)), name)
            == match Find(cs, NodeName, name) case None => None case Some(c) => Some(c.nid)
  {
    var raw := RawEntries(nid, parent, cs);
    FindIds(Sort(raw, EntryName), name);
    FindSort(raw, EntryName, name);
    assert raw[1..][1..] == EntriesOf(cs);
    FindEntries(cs, name);
  }

  function FindChild(n: Node, name: Name): (r: Option<Node>)
    requires n.IsDir()
    ensures r.Some? ==> r.value in n.kind.children && r.value.name == name
  {
    Find(n.kind.children, NodeName, name)
  }

  /** The node a component list names, if every step but the last is a directory holding the next. */
  function TreeLookup(n: Node, comps: seq<Name>): Option<Node>
    decreases |comps|
  {
    if comps == [] then Some(n)
    else if !n.IsDir() then None
    else match FindChild(n, comps[0])
      case None => None
      case Some(c) => TreeLookup(c, comps[1..])
  }

  lemma BlocksFlatten(entries: seq<Entry>)
    ensures Flatten(Blocks(entries)) == entries
  {
    PackFlattens([], entries);
    assert [] + entries == entries;
  }

  /** One directory step of the reader is one step in the tree. */
  lemma DirStep(img: seq<byte>, core: Core, n: Node, parent: nat, name: Name)
    requires BuiltCore(core) && n.IsDir() && Sound(img, n, parent) && LegalTree(n)
    requires parent <= U64_MAX && |img| <= U64_MAX && name != DOT && name != DOTDOT
    ensures LookupBlocks(img, core, InodeOf(n), name, 0, DivCeil(n.size, core.blockSize))
            == Ok(match FindChild(n, name) case None => None case Some(c) => Some(c.nid))
  {
    hide InodeStored, PayloadStored, LookupBlocks, Less, Encodable, InodeOf, DivCeil, LogicalSize, DirBytes;
    var entries := DirEntries(n.nid, parent, n.kind.children);
    var blocks := Blocks(entries);
    DirEntriesSorted(img, n, parent);
    BlocksFlatten(entries);
    hide DirEntries, Blocks, BlocksFit, Strict;
    assert blocks[0..] == blocks;
    DirBlockCount(n, blocks);
    LookupBlocksFinds(img, core, n, blocks, name, 0);
    DirEntriesFind(n.nid, parent, n.kind.children, name);
  }

  /** The mode of every node carries its kind. */
  ghost predicate ModeTells(n: Node)
    decreases n
  {
    && (n.mode / 0x1000 % 16 == match n.kind case DirKind(_, _) => 4 case FileKind(_) => 8 case LinkKind(_) => 10)
    && (n.IsDir() ==> ModeTellsAll(n.kind.children))
  }

  ghost predicate ModeTellsAll(cs: seq<Node>)
    decreases cs
  {
    cs == [] || (ModeTells(cs[0]) && ModeTellsAll(cs[1..]))
  }

  lemma {:induction false} ModeMember(cs: seq<Node>, c: Node)
    requires ModeTellsAll(cs) && c in cs
    ensures ModeTells(c)
  {
    if c != cs[0] { ModeMember(cs[1..], c); }
  }

  /** Resolving ordinary names in the image is looking them up in the tree. */
  lemma {:induction false} ResolveMeetsTree(
      img: seq<byte>, core: Core, n: Node, parent: nat, comps: seq<Name>)
    requires BuiltCore(core) && Sound(img, n, parent) && LegalTree(n) && ModeTells(n)
    requires parent <= U64_MAX && |img| <= U64_MAX
    requires forall c :: c in comps ==> c != DOT && c != DOTDOT
    ensures ResolvePath(img, core, n.nid, comps)
            == Ok(match TreeLookup(n, comps) case None => None case Some(m) => Some(InodeOf(m)))
    decreases |comps|
  {
    hide InodeStored, PayloadStored, DirStored, LookupBlocks, GetInode, FieldsFit, Legal;
    InodeReads(img, core, n);
    if comps != [] && n.IsDir() {
      assert comps[0] in comps;
      DirStep(img, core, n, parent, comps[0]);
      var child := FindChild(n, comps[0]);
      if child.Some? {
        SoundMember(img, n.kind.children, n.nid, child.value);
        LegalMember(n.kind.children, child.value);
        ModeMember(n.kind.children, child.value);
        assert forall c :: c in comps[1..] ==> c in comps;
        ResolveMeetsTree(img, core, child.value, n.nid, comps[1..]);
      }
    }
  }
}
