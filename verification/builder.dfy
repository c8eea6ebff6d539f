/** The image builder: plan the tree, then emit superblock, inodes and payloads into one buffer. */
module Builder {
  import Arithmetic
  import opened Bytes
  import opened Results
  import Types
  import Names
  import opened Sorting
  import opened DirPacking
  import opened Trees
  import opened Layout
  import opened Emitter
  import opened Storage

  /** What the superblock says of an image besides its layout: identity bytes and build time. */
  datatype Settings = Settings(volumeName: seq<byte>, uuid: seq<byte>, buildTime: u64) {
    predicate Valid() {
      |volumeName| == 16 && |uuid| == 16
    }
  }

  /** The builder's configuration. */
  datatype ImageBuilder = ImageBuilder(volumeName: seq<byte>, uuid: seq<byte>, fixedTime: Option<u64>) {
    predicate Valid() {
      |volumeName| == 16 && |uuid| == 16
    }

    /** Puts `name` at the front of the volume name field; what lay behind it stays. */
    function VolumeName(name: seq<byte>): (r: Built<ImageBuilder>)
      requires Valid()
      ensures r.Ok? <==> |name| <= 16
      ensures r.Ok? ==> r.value.Valid()
    {
      if |name| > 16 then Err(VolumeNameTooLong) else Ok(this.(volumeName := Blit(volumeName, 0, name)))
    }

    /** The fixed time, or else what the clock says. */
    function SettingsAt(clock: u64): (s: Settings)
      requires Valid()
      ensures s.Valid()
    {
      Settings(volumeName, uuid, if fixedTime.Some? then fixedTime.value else clock)
    }
  }

  /** `ImageBuilder::new`. */
  function NewBuilder(): (b: ImageBuilder)
    ensures b.Valid()
  {
    ImageBuilder(Zeros(16), Zeros(16), None)
  }

  function Spaces(n: nat): (s: seq<byte>)
    ensures |s| == n
    ensures forall i :: 0 <= i < n ==> s[i] == 32
  {
    seq(n, _ => 32)
  }

  /** A new builder's volume name is padded with zeros: it is the space-padded one exactly when there is
      nothing to pad. */
  lemma VolumeNamePadding(name: seq<byte>)
    requires |name| <= 16
    ensures var field := NewBuilder().VolumeName(name).value.volumeName;
            && field == name + Zeros(16 - |name|)
            && (field == name + Spaces(16 - |name|) <==> |name| == 16)
  {
    var field := NewBuilder().VolumeName(name).value.volumeName;
    assert field == name + Zeros(16 - |name|);
    if |name| < 16 {
      assert (name + Spaces(16 - |name|))[|name|] == 32;
    } else {
      assert field == name + Spaces(0);
    }
  }

  /** Naming a volume again keeps what the shorter name does not cover. */
  lemma VolumeRenamed(first: seq<byte>, second: seq<byte>)
    requires |first| <= 16 && |second| <= 16
    ensures NewBuilder().VolumeName(first).value.VolumeName(second).value
            == NewBuilder().VolumeName(second + if |second| <= |first| then first[|second|..] else []).value
  {
    var rest := if |second| <= |first| then first[|second|..] else [];
    assert Blit(Blit(Zeros(16), 0, first), 0, second) == Blit(Zeros(16), 0, second + rest);
  }

  /** A finished plan: the placed tree, its first data block, and the block behind its last one. */
  datatype Plan = Plan(root: Node, dataStart: nat, totalBlocks: nat)

  /** The scan's guarantees depend on which children there are, not on their order. */
  lemma {:induction false} AllFromMembers(xs: seq<Node>, ys: seq<Node>)
    requires BoundedAll(xs) && StripAll(xs) == xs
    requires forall y :: y in ys ==> y in xs
    ensures BoundedAll(ys) && StripAll(ys) == ys
    decreases ys
  {
    if ys != [] {
      assert ys[0] in xs;
      BoundedMember(xs, ys[0]);
      var i :| 0 <= i < |xs| && xs[i] == ys[0];
      assert StripAll(xs)[i] == Strip(xs[i]);
      assert forall y :: y in ys[1..] ==> y in ys;
      AllFromMembers(xs, ys[1..]);
    }
  }

  lemma {:induction false} ScanBounds(h: Host, name: Names.Name, fixedTime: Option<u64>)
    requires Scan(h, name, fixedTime).Ok?
    ensures var n := Scan(h, name, fixedTime).value;
            Bounded(n) && Strip(n) == n && n.name == name
    decreases h
  {
    if h.kind.HostDir? {
      var scanned := ScanAll(h.kind.entries, fixedTime).value;
      ScanAllBounds(h.kind.entries, fixedTime);
      SortMembers(scanned, NodeName);
      AllFromMembers(scanned, Sort(scanned, NodeName));
    }
  }

  lemma {:induction false} ScanAllBounds(entries: seq<HostEntry>, fixedTime: Option<u64>)
    requires ScanAll(entries, fixedTime).Ok?
    ensures var ns := ScanAll(entries, fixedTime).value;
            BoundedAll(ns) && StripAll(ns) == ns
    decreases entries
  {
    if entries != [] {
      ScanBounds(entries[0].file, entries[0].name, fixedTime);
      ScanAllBounds(entries[1..], fixedTime);
      var ns := ScanAll(entries, fixedTime).value;
      assert ns[1..] == ScanAll(entries[1..], fixedTime).value;
    }
  }

  /** The planning half of the build, from host tree to placed tree. */
  function PlanTree(h: Host, fixedTime: Option<u64>): Built<Plan> {
    if !h.IsDirPath() then Err(NotADirectoryRoot)
    else
      var scanned :- Scan(h, [], fixedTime);
      ScanBounds(h, [], fixedTime);
      NumberNumbers(scanned, FIRST_NID, 1);
      var numbered := Number(scanned, FIRST_NID, 1);
      var dataStart := Arithmetic.DivCeil(32 * (FIRST_NID + 2 * Count(numbered)), BLOCK_SIZE);
      var placed :- Place(numbered, FIRST_NID, dataStart);
      if placed.1 > U32_MAX then Err(TooManyBlocks) else Ok(Plan(placed.0, dataStart, placed.1))
  }

  /** What a scan fails with. */
  lemma {:induction false} ScanErrors(h: Host, name: seq<byte>, fixedTime: Option<u64>)
    requires Scan(h, name, fixedTime).Err?
    ensures Scan(h, name, fixedTime).error in {NameTooLong, UnsupportedFileType}
    decreases h
  {
    hide CountDirs;
    if |name| <= 255 && h.kind.HostDir? { ScanAllErrors(h.kind.entries, fixedTime); }
  }

  lemma {:induction false} ScanAllErrors(es: seq<HostEntry>, fixedTime: Option<u64>)
    requires ScanAll(es, fixedTime).Err?
    ensures ScanAll(es, fixedTime).error in {NameTooLong, UnsupportedFileType}
    decreases es
  {
    if Scan(es[0].file, es[0].name, fixedTime).Err? {
      ScanErrors(es[0].file, es[0].name, fixedTime);
    } else {
      ScanAllErrors(es[1..], fixedTime);
    }
  }

  /** What placing fails with. */
  lemma {:induction false} PlaceErrors(n: Node, parentNid: nat, cursor: nat)
    requires Bounded(n)
    ensures Place(n, parentNid, cursor).Err? ==> Place(n, parentNid, cursor).error == TooManyBlocks
    decreases n
  {
    hide Blocks, DirEntries, DirBytes, LogicalSize;
    if n.IsDir() {
      var cs := n.kind.children;
      DirEntriesPackable(n.nid, parentNid, cs);
      var data := DirBytes(Blocks(DirEntries(n.nid, parentNid, cs)));
      if TakeBlocks(cursor, |data|).Ok? {
        PlaceAllErrors(cs, n.nid, TakeBlocks(cursor, |data|).value.1);
      }
    }
  }

  lemma {:induction false} PlaceAllErrors(cs: seq<Node>, parentNid: nat, cursor: nat)
    requires BoundedAll(cs)
    ensures PlaceAll(cs, parentNid, cursor).Err? ==> PlaceAll(cs, parentNid, cursor).error == TooManyBlocks
    decreases cs
  {
    hide Place;
    if cs != [] {
      PlaceErrors(cs[0], parentNid, cursor);
      if Place(cs[0], parentNid, cursor).Ok? {
        PlaceAllErrors(cs[1..], parentNid, Place(cs[0], parentNid, cursor).value.1);
      }
    }
  }

  /** Only a directory, or a link that leads to one, can be the root. */
  lemma RootRefused(h: Host, fixedTime: Option<u64>)
    ensures PlanTree(h, fixedTime) == Err(NotADirectoryRoot)
            <==> h.kind.HostFile? || h.kind.HostOther? || (h.kind.HostLink? && !h.kind.leadsToDir)
  {
    hide Scan, Number, Place, Count;
    if h.IsDirPath() && Scan(h, [], fixedTime).Err? {
      ScanErrors(h, [], fixedTime);
    } else if h.IsDirPath() {
      ScanBounds(h, [], fixedTime);
      NumberNumbers(Scan(h, [], fixedTime).value, FIRST_NID, 1);
      var numbered := Number(Scan(h, [], fixedTime).value, FIRST_NID, 1);
      PlaceErrors(numbered, FIRST_NID, Arithmetic.DivCeil(32 * (FIRST_NID + 2 * Count(numbered)), BLOCK_SIZE));
    }
  }

  /** The frame of a plan: metadata first, payload blocks behind it, nothing else in the image. */
  ghost predicate Framed(p: Plan) {
    && Laid(p.root, FIRST_NID, FIRST_NID, p.dataStart)
    && 32 * (FIRST_NID + 2 * Count(p.root)) <= BLOCK_SIZE * p.dataStart
    && BLOCK_SIZE * p.dataStart < 32 * (FIRST_NID + 2 * Count(p.root)) + BLOCK_SIZE
    && p.totalBlocks == p.dataStart + Extent(p.root) <= U32_MAX
  }

  lemma DivCeilBounds(a: nat, b: nat)
    requires b > 0
    ensures a <= b * Arithmetic.DivCeil(a, b) < a + b
  {
  }

  lemma LaidNid(n: Node, nid: nat, parent: nat, lo: nat)
    requires Laid(n, nid, parent, lo)
    ensures n.nid == nid
  {
  }

  /** Layout: the placed tree is the scanned tree, framed; totals are metadata plus payload blocks. */
  lemma PlanFrames(h: Host, fixedTime: Option<u64>)
    requires PlanTree(h, fixedTime).Ok?
    ensures var p := PlanTree(h, fixedTime).value;
            && Framed(p) && Bounded(p.root)
            && Scan(h, [], fixedTime) == Ok(Strip(p.root))
            && p.root.nid == FIRST_NID && Count(p.root) == Count(Scan(h, [], fixedTime).value)
  {
    hide Scan, Number, Place, Laid, Extent, Count;
    var scanned := Scan(h, [], fixedTime).value;
    ScanBounds(h, [], fixedTime);
    NumberNumbers(scanned, FIRST_NID, 1);
    var numbered := Number(scanned, FIRST_NID, 1);
    DivCeilBounds(32 * (FIRST_NID + 2 * Count(numbered)), BLOCK_SIZE);
    var p := PlanTree(h, fixedTime).value;
    PlaceLays(numbered, FIRST_NID, FIRST_NID, p.dataStart);
    LaidNid(p.root, FIRST_NID, FIRST_NID, p.dataStart);
  }

  lemma DirHasData(n: Node, parent: nat)
    requires n.IsDir() && DirStored(n, parent)
    ensures |n.kind.data| > 0
  {
    hide DirEntries;
  }

  /** A framed tree has room in an image of its total size. */
  lemma {:induction false} LaidRoom(n: Node, nid: nat, parent: nat, lo: nat, length: nat)
    requires Laid(n, nid, parent, lo)
    requires 32 * (nid + 2 * Count(n)) <= length && BLOCK_SIZE * (lo + Extent(n)) <= length
    ensures Room(n, length)
    decreases n
  {
    OwnBlocksCover(n);
    if n.IsDir() {
      var blocks := Blocks(DirEntries(n.nid, parent, n.kind.children));
      hide DirStored, Blocks, DirEntries;
      assert |n.kind.data| > 0 by { DirHasData(n, parent); }
      LaidAllRoom(n.kind.children, nid + 2, nid, lo + OwnBlocks(n), length);
    }
  }

  lemma {:induction false} LaidAllRoom(cs: seq<Node>, nid: nat, parent: nat, lo: nat, length: nat)
    requires LaidAll(cs, nid, parent, lo)
    requires 32 * (nid + 2 * CountAll(cs)) <= length && BLOCK_SIZE * (lo + ExtentAll(cs)) <= length
    ensures RoomAll(cs, length)
    decreases cs
  {
    if cs != [] {
      LaidRoom(cs[0], nid, parent, lo, length);
      LaidAllRoom(cs[1..], nid + 2 * Count(cs[0]), parent, lo + Extent(cs[0]), length);
    }
  }

  /** `w` followed by the superblock's first 48 bytes: magic to the xattr block address. */
  function FrontOn(w: seq<byte>, settings: Settings, rootNid: nat, inos: nat, blocks: nat): (s: seq<byte>)
    ensures |s| == |w| + 48
  {
    w + LeBytes(Types.SUPERBLOCK_MAGIC, 4) + LeBytes(0, 4) + LeBytes(0, 4) + [12] + [0] + LeBytes(rootNid, 2)
    + LeBytes(inos, 8) + LeBytes(settings.buildTime, 8) + LeBytes(0, 4) + LeBytes(blocks, 4)
    + LeBytes(0, 4) + LeBytes(0, 4)
  }

  /** `w` followed by the 32 bytes from the incompatible features to the 32-bit build time. */
  function BackOn(w: seq<byte>, settings: Settings): (s: seq<byte>)
    ensures |s| == |w| + 32
  {
    w + LeBytes(0, 4) + LeBytes(0, 2) + LeBytes(0, 2) + LeBytes(0, 2) + [0] + [0] + LeBytes(0, 4)
    + LeBytes(0, 8) + [0] + [0] + LeBytes(0, 2) + LeBytes(settings.buildTime, 4)
  }

  /** The 112 bytes of the superblock the builder fills in; the last 16 stay zero. */
  function SuperblockHead(settings: Settings, rootNid: nat, inos: nat, blocks: nat): (s: seq<byte>)
    requires settings.Valid()
    ensures |s| == 112
  {
    BackOn(FrontOn([], settings, rootNid, inos, blocks) + settings.uuid + settings.volumeName, settings)
  }

  method PutFront(put: Cursor, settings: Settings, rootNid: nat, inos: nat, blocks: nat)
    requires put.Valid() && |put.written| + 48 <= put.len
    modifies put.buf, put`pos, put`written
    ensures put.Valid()
    ensures put.written == FrontOn(old(put.written), settings, rootNid, inos, blocks)
  {
    hide LeBytes, Blit, Cursor.Valid;
    put.U32(Types.SUPERBLOCK_MAGIC);
    put.U32(0);
    put.U32(0);
    put.U8(12);
    put.U8(0);
    put.U16(rootNid);
    put.U64(inos);
    put.U64(settings.buildTime);
    put.U32(0);
    put.U32(blocks);
    put.U32(0);
    put.U32(0);
  }

  method PutBack(put: Cursor, settings: Settings)
    requires put.Valid() && |put.written| + 32 <= put.len
    modifies put.buf, put`pos, put`written
    ensures put.Valid()
    ensures put.written == BackOn(old(put.written), settings)
  {
    hide LeBytes, Blit, Cursor.Valid;
    put.U32(0);
    put.U16(0);
    put.U16(0);
    put.U16(0);
    put.U8(0);
    put.U8(0);
    put.U32(0);
    put.U64(0);
    put.U8(0);
    put.U8(0);
    put.U16(0);
    put.U32(settings.buildTime);
  }

  /** Writes the superblock, dated by the fixed time or else by the clock. */
  method WriteSuperblock(
      builder: ImageBuilder, clock: u64, image: array<byte>, rootNid: nat, inos: nat, blocks: nat)
    requires builder.Valid() && 1152 <= image.Length
    modifies image
    ensures image[..] == Blit(old(image[..]), 1024, SuperblockHead(builder.SettingsAt(clock), rootNid, inos, blocks))
  {
    hide FrontOn, BackOn, Blit, Cursor.Valid;
    var buildTime := if builder.fixedTime.Some? then builder.fixedTime.value else clock;
    var settings := Settings(builder.volumeName, builder.uuid, buildTime);
    var put := new Cursor(image, 1024, 128);
    PutFront(put, settings, rootNid, inos, blocks);
    put.Put(builder.uuid);
    put.Put(builder.volumeName);
    PutBack(put, settings);
    assert put.written == SuperblockHead(settings, rootNid, inos, blocks);
    CursorWrote(put);
  }

  /** Every file still has the size the scan saw (an empty file is not read again). */
  predicate Unchanged(n: Node)
    decreases n
  {
    && (n.kind.FileKind? && n.size > 0 ==> |n.kind.content| == n.size)
    && (n.IsDir() ==> UnchangedAll(n.kind.children))
  }

  predicate UnchangedAll(cs: seq<Node>)
    decreases cs
  {
    cs == [] || (Unchanged(cs[0]) && UnchangedAll(cs[1..]))
  }

  /** No file of the host tree reads differently from what its size says. */
  predicate HostUnchanged(h: Host)
    decreases h
  {
    && (h.kind.HostFile? && h.kind.len > 0 ==> |h.kind.content| == h.kind.len)
    && (h.kind.HostDir? ==> EntriesUnchanged(h.kind.entries))
  }

  predicate EntriesUnchanged(es: seq<HostEntry>)
    decreases es
  {
    es == [] || (HostUnchanged(es[0].file) && EntriesUnchanged(es[1..]))
  }

  lemma {:induction false} UnchangedMembers(cs: seq<Node>)
    ensures UnchangedAll(cs) <==> forall c :: c in cs ==> Unchanged(c)
  {
    hide Unchanged;
    if cs != [] {
      UnchangedMembers(cs[1..]);
      forall c | c in cs ensures c == cs[0] || c in cs[1..] {
        assert cs == [cs[0]] + cs[1..];
      }
      assert cs[0] in cs && forall c :: c in cs[1..] ==> c in cs;
    }
  }

  lemma UnchangedSorted(cs: seq<Node>)
    ensures UnchangedAll(Sort(cs, NodeName)) <==> UnchangedAll(cs)
  {
    hide UnchangedAll, Unchanged, Sort;
    SortMembers(cs, NodeName);
    UnchangedMembers(cs);
    UnchangedMembers(Sort(cs, NodeName));
  }

  /** The scan keeps what files hold, and sorting what files there are. */
  lemma {:induction false} ScanUnchanged(h: Host, name: Names.Name, fixedTime: Option<u64>)
    requires Scan(h, name, fixedTime).Ok?
    ensures Unchanged(Scan(h, name, fixedTime).value) <==> HostUnchanged(h)
    decreases h
  {
    hide UnchangedAll, Sort, CountDirs, ScanAll, EntriesUnchanged;
    if h.kind.HostDir? {
      ScanAllUnchanged(h.kind.entries, fixedTime);
      UnchangedSorted(ScanAll(h.kind.entries, fixedTime).value);
    }
  }

  lemma {:induction false} ScanAllUnchanged(es: seq<HostEntry>, fixedTime: Option<u64>)
    requires ScanAll(es, fixedTime).Ok?
    ensures UnchangedAll(ScanAll(es, fixedTime).value) <==> EntriesUnchanged(es)
    decreases es
  {
    hide Scan, Unchanged, HostUnchanged;
    if es != [] {
      ScanUnchanged(es[0].file, es[0].name, fixedTime);
      ScanAllUnchanged(es[1..], fixedTime);
      var ns := ScanAll(es, fixedTime).value;
      assert ns[1..] == ScanAll(es[1..], fixedTime).value;
    }
  }

  lemma {:induction false} StripUnchanged(n: Node)
    ensures Unchanged(Strip(n)) <==> Unchanged(n)
    decreases n
  {
    hide UnchangedAll, StripAll;
    if n.IsDir() {
      StripAllUnchanged(n.kind.children);
    }
  }

  lemma {:induction false} StripAllUnchanged(cs: seq<Node>)
    ensures UnchangedAll(StripAll(cs)) <==> UnchangedAll(cs)
    decreases cs
  {
    hide Unchanged, Strip;
    if cs != [] {
      StripUnchanged(cs[0]);
      StripAllUnchanged(cs[1..]);
      assert StripAll(cs)[1..] == StripAll(cs[1..]);
    }
  }

  /** Whether the planned tree can be emitted is told by the host tree. */
  lemma PlanUnchanged(h: Host, fixedTime: Option<u64>)
    requires PlanTree(h, fixedTime).Ok?
    ensures Unchanged(PlanTree(h, fixedTime).value.root) <==> HostUnchanged(h)
  {
    hide PlanTree, Scan, Unchanged, HostUnchanged, Strip, Framed;
    PlanFrames(h, fixedTime);
    StripUnchanged(PlanTree(h, fixedTime).value.root);
    ScanUnchanged(h, [], fixedTime);
  }

  /** Emission fails exactly when some file changed size. */
  lemma {:induction false} EmissionSucceeds(img: seq<byte>, n: Node)
    requires Room(n, |img|) && Bounded(n)
    ensures Emitted(img, n).Ok? <==> Unchanged(n)
    ensures Emitted(img, n).Err? ==> Emitted(img, n).error == FileChanged
    decreases n
  {
    hide InodeHead, Blit;
    var img2 := EmitPayload(Blit(img, 32 * n.nid, InodeHead(n)), n);
    if n.IsDir() && img2.Ok? { EmissionAllSucceeds(img2.value, n.kind.children); }
  }

  lemma {:induction false} EmissionAllSucceeds(img: seq<byte>, cs: seq<Node>)
    requires RoomAll(cs, |img|) && BoundedAll(cs)
    ensures EmittedAll(img, cs).Ok? <==> UnchangedAll(cs)
    ensures EmittedAll(img, cs).Err? ==> EmittedAll(img, cs).error == FileChanged
    decreases cs
  {
    hide Emitted;
    if cs != [] {
      EmissionSucceeds(img, cs[0]);
      var img1 := Emitted(img, cs[0]);
      if img1.Ok? { EmissionAllSucceeds(img1.value, cs[1..]); }
    }
  }

  /** `img` is a finished image of plan `p`. */
  ghost predicate ImageOf(img: seq<byte>, p: Plan, settings: Settings) {
    && settings.Valid()
    && Framed(p)
    && |img| == BLOCK_SIZE * p.totalBlocks
    && img[1024..1136] == SuperblockHead(settings, FIRST_NID, Count(p.root), p.totalBlocks)
    && Stored(img, p.root)
  }

  lemma HeadKept(a: seq<byte>, b: seq<byte>, s: nat, b0: nat, b1: nat)
    requires Agree(a, b, false, FIRST_NID, s, b0, b1)
    requires |a| >= 1152 && BLOCK_SIZE * b0 >= 1152
    ensures a[1024..1136] == b[1024..1136]
  {
    SliceFrame(a, b, 1024, 1136);
  }

  /** The image holds everything after emission: superblock in front, tree behind it. */
  lemma EmissionFinishes(zeros: seq<byte>, p: Plan, settings: Settings)
    requires settings.Valid() && Framed(p) && Bounded(p.root)
    requires |zeros| == BLOCK_SIZE * p.totalBlocks
    ensures Room(p.root, |zeros|) && |zeros| >= 1152
    ensures var img := Blit(zeros, 1024, SuperblockHead(settings, FIRST_NID, Count(p.root), p.totalBlocks));
            Emitted(img, p.root).Ok? ==> ImageOf(Emitted(img, p.root).value, p, settings)
  {
    hide Laid, Emitted, SuperblockHead, Agree, Count, Extent, Blit, Stored, Room;
    assert 1152 <= BLOCK_SIZE * p.dataStart <= |zeros|;
    LaidRoom(p.root, FIRST_NID, FIRST_NID, p.dataStart, |zeros|);
    var head := SuperblockHead(settings, FIRST_NID, Count(p.root), p.totalBlocks);
    var img := Blit(zeros, 1024, head);
    if Emitted(img, p.root).Ok? {
      var out := Emitted(img, p.root).value;
      EmitStores(img, p.root, FIRST_NID, FIRST_NID, p.dataStart);
      EmitFrame(img, p.root, FIRST_NID, FIRST_NID, p.dataStart);
      HeadKept(img, out, FIRST_NID + 2 * Count(p.root), p.dataStart, p.dataStart + Extent(p.root));
      BlitSlice(zeros, 1024, head, 0, 0);
    }
  }

  /** The bytes of the image: zeros, the superblock, and then the tree in pre-order. */
  ghost function ImageBytes(p: Plan, settings: Settings): Built<seq<byte>>
    requires settings.Valid() && Framed(p) && Bounded(p.root)
  {
    var zeros := Zeros(BLOCK_SIZE * p.totalBlocks);
    EmissionFinishes(zeros, p, settings);
    Emitted(Blit(zeros, 1024, SuperblockHead(settings, FIRST_NID, Count(p.root), p.totalBlocks)), p.root)
  }

  /** What the build returns for a host tree at a time: an image, or exactly why there is none. */
  ghost function BuildOf(builder: ImageBuilder, h: Host, clock: u64): Built<seq<byte>>
    requires builder.Valid()
  {
    match PlanTree(h, builder.fixedTime)
    case Err(e) => Err(e)
    case Ok(p) =>
      PlanFrames(h, builder.fixedTime);
      ImageBytes(p, builder.SettingsAt(clock))
  }

  /** A planned host tree is built exactly when no file changed. */
  lemma BuildSucceeds(builder: ImageBuilder, h: Host, clock: u64)
    requires builder.Valid() && PlanTree(h, builder.fixedTime).Ok?
    ensures BuildOf(builder, h, clock).Ok? <==> HostUnchanged(h)
    ensures BuildOf(builder, h, clock).Ok? ==>
      ImageOf(BuildOf(builder, h, clock).value, PlanTree(h, builder.fixedTime).value, builder.SettingsAt(clock))
  {
    hide PlanTree, Emitted, Framed, Bounded, SuperblockHead, ImageOf, Blit, Unchanged, HostUnchanged, Scan, Count;
    PlanFrames(h, builder.fixedTime);
    PlanUnchanged(h, builder.fixedTime);
    var p, settings := PlanTree(h, builder.fixedTime).value, builder.SettingsAt(clock);
    var zeros := Zeros(BLOCK_SIZE * p.totalBlocks);
    EmissionFinishes(zeros, p, settings);
    EmissionSucceeds(Blit(zeros, 1024, SuperblockHead(settings, FIRST_NID, Count(p.root), p.totalBlocks)), p.root);
  }

  /** Builds an image from a host tree, or says exactly why it cannot. */
  method BuildFromDir(builder: ImageBuilder, h: Host, clock: u64) returns (r: Built<seq<byte>>)
    requires builder.Valid()
    ensures PlanTree(h, builder.fixedTime).Err? ==> r == Err(PlanTree(h, builder.fixedTime).error)
    ensures PlanTree(h, builder.fixedTime).Ok? ==>
      var p := PlanTree(h, builder.fixedTime).value;
      if HostUnchanged(h) then r.Ok? && ImageOf(r.value, p, builder.SettingsAt(clock)) else r == Err(FileChanged)
    ensures r == BuildOf(builder, h, clock)
  {
    hide Scan, Number, Count, Place, Emitted, Framed, Unchanged, HostUnchanged, ImageOf, SuperblockHead;
    if !h.IsDirPath() {
      return Err(NotADirectoryRoot);
    }
    var tree :- Scan(h, [], builder.fixedTime);
    ScanBounds(h, [], builder.fixedTime);
    NumberNumbers(tree, FIRST_NID, 1);
    var nidCursor, inoCursor;
    tree, nidCursor, inoCursor := AssignNids(tree, FIRST_NID, 1);
    var inodeCount := (nidCursor - FIRST_NID) / 2;
    var metadataEnd := nidCursor * 32;
    var blockCursor := Arithmetic.DivCeil(metadataEnd, BLOCK_SIZE);
    var placed :- LayOut(tree, tree.nid, blockCursor);
    var totalBlocks := placed.1;
    if totalBlocks > U32_MAX {
      return Err(TooManyBlocks);
    }
    ghost var p := PlanTree(h, builder.fixedTime).value;
    PlanFrames(h, builder.fixedTime);
    PlanUnchanged(h, builder.fixedTime);
    var image := new byte[totalBlocks * BLOCK_SIZE](_ => 0);
    ghost var zeros := image[..];
    EmissionFinishes(zeros, p, builder.SettingsAt(clock));
    assert zeros == Zeros(BLOCK_SIZE * p.totalBlocks);
    WriteSuperblock(builder, clock, image, placed.0.nid, inodeCount, totalBlocks);
    EmissionSucceeds(image[..], p.root);
    var _ :- Emit(image, placed.0);
    return Ok(image[..]);
  }
}
