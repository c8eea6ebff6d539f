/** Build, then look up: what the image says about a path is what the host tree says. */
module RoundTrip {
  import opened Arithmetic
  import opened Bytes
  import opened Results
  import opened Types
  import opened Names
  import opened Sorting
  import DirPacking
  import opened Trees
  import opened Layout
  import Storage
  import opened Builder
  import opened Reader
  import opened Lookup

  // ----- Opening a built image -----

  lemma BackPrefix(w: seq<byte>, settings: Settings)
    ensures w + LeBytes(0, 4) <= BackOn(w, settings)
  {
    hide LeBytes;
  }

  lemma FrontSlices(f: seq<byte>, settings: Settings, rootNid: nat, inos: nat, blocks: nat)
    requires f == FrontOn([], settings, rootNid, inos, blocks)
    ensures f[0..4] == LeBytes(SUPERBLOCK_MAGIC, 4) && f[12..13] == [12]
    ensures f[14..16] == LeBytes(rootNid, 2) && f[16..24] == LeBytes(inos, 8)
    ensures f[24..32] == LeBytes(settings.buildTime, 8)
    ensures f[36..40] == LeBytes(blocks, 4) && f[40..44] == LeBytes(0, 4)
  {
    hide LeBytes;
    var p1 := [] + LeBytes(SUPERBLOCK_MAGIC, 4);
    var p2 := p1 + LeBytes(0, 4);
    var p3 := p2 + LeBytes(0, 4);
    var p4 := p3 + [12];
    var p5 := p4 + [0];
    var p6 := p5 + LeBytes(rootNid, 2);
    var p7 := p6 + LeBytes(inos, 8);
    var p8 := p7 + LeBytes(settings.buildTime, 8);
    var p9 := p8 + LeBytes(0, 4);
    var p10 := p9 + LeBytes(blocks, 4);
    var p11 := p10 + LeBytes(0, 4);
    assert f == p11 + LeBytes(0, 4);
    PeelField(p11, LeBytes(0, 4), f);
    PeelField(p10, LeBytes(0, 4), f);
    PeelField(p9, LeBytes(blocks, 4), f);
    PeelField(p8, LeBytes(0, 4), f);
    PeelField(p7, LeBytes(settings.buildTime, 8), f);
    PeelField(p6, LeBytes(inos, 8), f);
    PeelField(p5, LeBytes(rootNid, 2), f);
    PeelField(p4, [0], f);
    PeelField(p3, [12], f);
    PeelField(p2, LeBytes(0, 4), f);
    PeelField(p1, LeBytes(0, 4), f);
    PeelField([], LeBytes(SUPERBLOCK_MAGIC, 4), f);
  }

  lemma HeadSlices(h: seq<byte>, settings: Settings, rootNid: nat, inos: nat, blocks: nat)
    requires settings.Valid() && h == SuperblockHead(settings, rootNid, inos, blocks)
    ensures h[0..4] == LeBytes(SUPERBLOCK_MAGIC, 4) && h[12] == 12
    ensures h[14..16] == LeBytes(rootNid, 2) && h[16..24] == LeBytes(inos, 8)
    ensures h[24..32] == LeBytes(settings.buildTime, 8)
    ensures h[36..40] == LeBytes(blocks, 4) && h[40..44] == LeBytes(0, 4)
    ensures h[48..64] == settings.uuid && h[64..80] == settings.volumeName
    ensures h[80..84] == LeBytes(0, 4)
  {
    hide LeBytes, FrontOn, BackOn;
    var f := FrontOn([], settings, rootNid, inos, blocks);
    var w := f + settings.uuid + settings.volumeName;
    BackPrefix(w, settings);
    PeelField(w, LeBytes(0, 4), h);
    PeelField(f + settings.uuid, settings.volumeName, h);
    PeelField(f, settings.uuid, h);
    FrontSlices(f, settings, rootNid, inos, blocks);
    PrefixSlice(f, h, 0, 4);
    PrefixSlice(f, h, 12, 13);
    assert h[12] == h[12..13][0];
    PrefixSlice(f, h, 14, 16);
    PrefixSlice(f, h, 16, 24);
    PrefixSlice(f, h, 24, 32);
    PrefixSlice(f, h, 36, 40);
    PrefixSlice(f, h, 40, 44);
  }

  lemma BlockBits()
    ensures Pow2(12) == DirPacking.BLOCK_SIZE
  {
    assert Pow2(4) == 16;
    assert Pow2(8) == 2 * Pow2(7) == 4 * Pow2(6) == 8 * Pow2(5) == 16 * Pow2(4);
    assert Pow2(12) == 2 * Pow2(11) == 4 * Pow2(10) == 8 * Pow2(9) == 16 * Pow2(8);
  }

  /** The reader accepts every built image, and reads the superblock the builder meant. */
  lemma OpenBuilt(img: seq<byte>, p: Plan, settings: Settings)
    requires ImageOf(img, p, settings)
    ensures Open(img).Ok? && BuiltCore(Open(img).value)
    ensures Open(img).value.sb.inos == Count(p.root) && Open(img).value.sb.blocks == p.totalBlocks
    ensures DirPacking.BLOCK_SIZE * Open(img).value.sb.blocks == |img|
    ensures Open(img).value.sb.uuid == settings.uuid
    ensures Open(img).value.sb.volumeName == settings.volumeName
    ensures Open(img).value.sb.buildTime == settings.buildTime
  {
    hide LeBytes, LeVal, SuperblockHead, Laid, Storage.Stored, Count, Extent;
    var h := SuperblockHead(settings, FIRST_NID, Count(p.root), p.totalBlocks);
    HeadSlices(h, settings, FIRST_NID, Count(p.root), p.totalBlocks);
    var data := img[1024..];
    assert h <= data by { SubSlice(img, 1024, |img|, 0, 112); assert data[..112] == h; }
    PrefixSlice(h, data, 0, 4);
    PrefixSlice(h, data, 14, 16);
    PrefixSlice(h, data, 16, 24);
    PrefixSlice(h, data, 24, 32);
    PrefixSlice(h, data, 36, 40);
    PrefixSlice(h, data, 40, 44);
    PrefixSlice(h, data, 48, 64);
    PrefixSlice(h, data, 64, 80);
    PrefixSlice(h, data, 80, 84);
    Pow256Values();
    LeRoundTrip(SUPERBLOCK_MAGIC, 4);
    LeRoundTrip(FIRST_NID, 2);
    LeRoundTrip(Count(p.root), 8);
    LeRoundTrip(settings.buildTime, 8);
    LeRoundTrip(p.totalBlocks, 4);
    LeRoundTrip(0, 4);
    BlockBits();
  }

  // ----- From the host tree to the placed tree -----

  function HostName(e: HostEntry): Name {
    e.name
  }

  /** Sibling names on the host are legal and distinct (the host file system's own rule). */
  ghost predicate LegalHost(h: Host)
    decreases h
  {
    h.kind.HostDir? ==> Distinct(h.kind.entries, HostName) && LegalEntries(h.kind.entries)
  }

  ghost predicate LegalEntries(es: seq<HostEntry>)
    decreases es
  {
    es == [] || (Legal(es[0].name) && LegalHost(es[0].file) && LegalEntries(es[1..]))
  }

  /** The host file a component list names. */
  function HostLookup(h: Host, comps: seq<Name>): Option<Host>
    decreases |comps|
  {
    if comps == [] then Some(h)
    else if !h.kind.HostDir? then None
    else match Find(h.kind.entries, HostName, comps[0])
      case None => None
      case Some(e) => HostLookup(e.file, comps[1..])
  }

  lemma ModeOfDir(mode: nat)
    ensures (mode % 0x1000 + S_IFDIR) / 0x1000 % 16 == 4
  {
  }

  lemma {:induction false} ScanAllNames(es: seq<HostEntry>, fixedTime: Option<u64>)
    requires ScanAll(es, fixedTime).Ok?
    ensures forall i :: 0 <= i < |es| ==> ScanAll(es, fixedTime).value[i].name == es[i].name
    decreases es
  {
    if es != [] {
      ScanBounds(es[0].file, es[0].name, fixedTime);
      ScanAllNames(es[1..], fixedTime);
      var ns := ScanAll(es, fixedTime).value;
      assert ns[1..] == ScanAll(es[1..], fixedTime).value;
      forall i | 0 <= i < |es| ensures ns[i].name == es[i].name {
        if i > 0 { assert ns[i] == ns[1..][i - 1] && es[i] == es[1..][i - 1]; }
      }
    }
  }

  lemma {:induction false} LegalFromMembers(xs: seq<Node>, ys: seq<Node>)
    requires LegalAll(xs) && ModeTellsAll(xs) && forall y :: y in ys ==> y in xs
    ensures LegalAll(ys) && ModeTellsAll(ys)
    decreases ys
  {
    if ys != [] {
      assert ys[0] in xs;
      LegalMember(xs, ys[0]);
      ModeMember(xs, ys[0]);
      assert forall y :: y in ys[1..] ==> y in ys;
      LegalFromMembers(xs, ys[1..]);
    }
  }

  lemma {:induction false} ScanLegal(h: Host, name: Name, fixedTime: Option<u64>)
    requires LegalHost(h) && Scan(h, name, fixedTime).Ok?
    ensures LegalTree(Scan(h, name, fixedTime).value) && ModeTells(Scan(h, name, fixedTime).value)
    decreases h
  {
    hide Less;
    if h.kind.HostDir? {
      var entries := h.kind.entries;
      var scanned := ScanAll(entries, fixedTime).value;
      ScanAllLegal(entries, fixedTime);
      ScanAllNames(entries, fixedTime);
      forall i, j | 0 <= i < j < |scanned| ensures NodeName(scanned[i]) != NodeName(scanned[j]) {
        assert HostName(entries[i]) != HostName(entries[j]);
      }
      SortStrict(scanned, NodeName);
      SortMembers(scanned, NodeName);
      LegalFromMembers(scanned, Sort(scanned, NodeName));
      ModeOfDir(h.mode);
    }
  }

  lemma {:induction false} ScanAllLegal(es: seq<HostEntry>, fixedTime: Option<u64>)
    requires LegalEntries(es) && ScanAll(es, fixedTime).Ok?
    ensures var ns := ScanAll(es, fixedTime).value;
            LegalAll(ns) && ModeTellsAll(ns)
    decreases es
  {
    if es != [] {
      ScanLegal(es[0].file, es[0].name, fixedTime);
      ScanBounds(es[0].file, es[0].name, fixedTime);
      ScanAllLegal(es[1..], fixedTime);
      var ns := ScanAll(es, fixedTime).value;
      assert ns[1..] == ScanAll(es[1..], fixedTime).value;
    }
  }

  lemma StripCons(ns: seq<Node>)
    requires ns != []
    ensures StripAll(ns)[0] == Strip(ns[0]) && StripAll(ns)[1..] == StripAll(ns[1..])
  {
  }

  lemma NamesKept(ns: seq<Node>, ms: seq<Node>)
    requires StripAll(ns) == StripAll(ms)
    ensures |ns| == |ms| && forall i :: 0 <= i < |ns| ==> NodeName(ns[i]) == NodeName(ms[i])
    ensures Strict(ns, NodeName) == Strict(ms, NodeName)
  {
    assert |StripAll(ns)| == |StripAll(ms)|;
    forall i | 0 <= i < |ns| ensures NodeName(ns[i]) == NodeName(ms[i]) {
      assert StripAll(ns)[i] == Strip(ns[i]) && StripAll(ms)[i] == Strip(ms[i]);
    }
  }

  /** Legality and modes are properties of what the builder keeps of a node. */
  lemma {:induction false} KeptProperties(n: Node, m: Node)
    requires Strip(n) == Strip(m)
    ensures LegalTree(n) == LegalTree(m) && ModeTells(n) == ModeTells(m) && n.name == m.name
    decreases n
  {
    if n.IsDir() {
      hide StripAll;
      KeptPropertiesAll(n.kind.children, m.kind.children);
    }
  }

  lemma {:induction false} KeptPropertiesAll(ns: seq<Node>, ms: seq<Node>)
    requires StripAll(ns) == StripAll(ms)
    ensures |ns| == |ms| && LegalAll(ns) == LegalAll(ms)
    ensures Strict(ns, NodeName) == Strict(ms, NodeName)
    ensures ModeTellsAll(ns) == ModeTellsAll(ms)
    decreases ns
  {
    NamesKept(ns, ms);
    if ns != [] {
      StripCons(ns);
      StripCons(ms);
      KeptProperties(ns[0], ms[0]);
      KeptPropertiesAll(ns[1..], ms[1..]);
    }
  }

  lemma {:induction false} FindStripped(cs: seq<Node>, name: Name)
    ensures Find(StripAll(cs), NodeName, name)
            == match Find(cs, NodeName, name) case None => None case Some(c) => Some(Strip(c))
  {
    if cs != [] {
      assert StripAll(cs)[1..] == StripAll(cs[1..]);
      FindStripped(cs[1..], name);
    }
  }

  lemma {:induction false} LookupStripped(n: Node, comps: seq<Name>)
    ensures TreeLookup(Strip(n), comps)
            == match TreeLookup(n, comps) case None => None case Some(m) => Some(Strip(m))
    decreases |comps|
  {
    if comps != [] && n.IsDir() {
      FindStripped(n.kind.children, comps[0]);
      var child := FindChild(n, comps[0]);
      if child.Some? { LookupStripped(child.value, comps[1..]); }
    }
  }

  lemma {:induction false} FindScanned(es: seq<HostEntry>, fixedTime: Option<u64>, name: Name)
    requires ScanAll(es, fixedTime).Ok?
    ensures match Find(es, HostName, name)
            case None => Find(ScanAll(es, fixedTime).value, NodeName, name) == None
            case Some(e) => Scan(e.file, name, fixedTime).Ok?
                            && Find(ScanAll(es, fixedTime).value, NodeName, name)
                               == Some(Scan(e.file, name, fixedTime).value)
    decreases es
  {
    hide Scan;
    if es != [] {
      ScanBounds(es[0].file, es[0].name, fixedTime);
      FindScanned(es[1..], fixedTime, name);
      var ns := ScanAll(es, fixedTime).value;
      assert ns[1..] == ScanAll(es[1..], fixedTime).value;
    }
  }

  /** Looking up in the scanned tree is scanning what the host lookup finds. */
  lemma {:induction false} LookupScanned(h: Host, name: Name, fixedTime: Option<u64>, comps: seq<Name>)
    requires Scan(h, name, fixedTime).Ok?
    ensures match HostLookup(h, comps)
            case None => TreeLookup(Scan(h, name, fixedTime).value, comps) == None
            case Some(f) =>
              var last := if comps == [] then name else comps[|comps| - 1];
              Scan(f, last, fixedTime).Ok?
              && TreeLookup(Scan(h, name, fixedTime).value, comps) == Some(Scan(f, last, fixedTime).value)
    decreases |comps|
  {
    hide ScanAll, Sort, Find, CountDirs;
    if comps != [] && h.kind.HostDir? {
      var entries := h.kind.entries;
      var scanned := ScanAll(entries, fixedTime).value;
      FindScanned(entries, fixedTime, comps[0]);
      FindSort(scanned, NodeName, comps[0]);
      var e := Find(entries, HostName, comps[0]);
      if e.Some? {
        LookupScanned(e.value.file, comps[0], fixedTime, comps[1..]);
        assert |comps| > 1 ==> comps[1..][|comps| - 2] == comps[|comps| - 1];
      }
    }
  }

  lemma {:induction false} DirsOfLast(ns: seq<Node>)
    requires ns != []
    ensures CountDirs(ns) == CountDirs(ns[..|ns| - 1]) + (if ns[|ns| - 1].IsDir() then 1 else 0)
  {
    if |ns| > 1 {
      DirsOfLast(ns[1..]);
      assert ns[1..][..|ns| - 2] == ns[..|ns| - 1][1..];
    }
  }

  ghost function DirPositions(ns: seq<Node>): set<nat> {
    set i | 0 <= i < |ns| && ns[i].IsDir()
  }

  lemma PositionsOfLast(ns: seq<Node>)
    requires ns != []
    ensures var last := |ns| - 1;
            && DirPositions(ns) == DirPositions(ns[..last]) + (if ns[last].IsDir() then {last} else {})
            && last !in DirPositions(ns[..last])
  {
  }

  /** The count is the number of positions that hold a directory. */
  lemma {:induction false} DirsArePositions(ns: seq<Node>)
    ensures CountDirs(ns) == |DirPositions(ns)|
  {
    if ns != [] {
      DirsOfLast(ns);
      PositionsOfLast(ns);
      hide DirPositions, CountDirs;
      DirsArePositions(ns[..|ns| - 1]);
    }
  }

  lemma {:induction false} DirsOfInsert(n: Node, ns: seq<Node>)
    ensures CountDirs(Insert(n, ns, NodeName)) == CountDirs(ns) + (if n.IsDir() then 1 else 0)
  {
    hide Less;
    if ns != [] && Less(ns[0].name, n.name) {
      DirsOfInsert(n, ns[1..]);
      assert Insert(n, ns, NodeName)[1..] == Insert(n, ns[1..], NodeName);
    } else {
      assert Insert(n, ns, NodeName)[1..] == ns;
    }
  }

  /** Sorting the children does not change how many of them are directories. */
  lemma {:induction false} DirsOfSort(ns: seq<Node>)
    ensures CountDirs(Sort(ns, NodeName)) == CountDirs(ns)
  {
    hide Insert;
    if ns != [] {
      DirsOfSort(ns[1..]);
      DirsOfInsert(ns[0], Sort(ns[1..], NodeName));
    }
  }

  lemma {:induction false} ScanAllKinds(es: seq<HostEntry>, fixedTime: Option<u64>, i: nat)
    requires ScanAll(es, fixedTime).Ok? && i < |es|
    ensures ScanAll(es, fixedTime).value[i].IsDir() <==> es[i].file.kind.HostDir?
    decreases es
  {
    hide Sort, CountDirs;
    if i > 0 {
      ScanAllKinds(es[1..], fixedTime, i - 1);
    }
  }

  /** How many entries of a host directory are directories themselves. */
  ghost function Subdirectories(entries: seq<HostEntry>): nat {
    |set i | 0 <= i < |entries| && entries[i].file.kind.HostDir?|
  }

  /** The children the scan counts are the host's subdirectories. */
  lemma ScannedDirs(es: seq<HostEntry>, fixedTime: Option<u64>)
    requires ScanAll(es, fixedTime).Ok?
    ensures CountDirs(Sort(ScanAll(es, fixedTime).value, NodeName)) == Subdirectories(es)
  {
    hide ScanAll, Sort, CountDirs;
    var ns := ScanAll(es, fixedTime).value;
    DirsOfSort(ns);
    DirsArePositions(ns);
    forall i: nat | i < |es| ensures ns[i].IsDir() <==> es[i].file.kind.HostDir? {
      ScanAllKinds(es, fixedTime, i);
    }
    assert DirPositions(ns) == set i | 0 <= i < |es| && es[i].file.kind.HostDir?;
  }

  /** What the inode must say about a host file: kind and permissions, owner, time, size, and one link
      for a file, two for a directory and one more for each of its subdirectories. */
  ghost predicate Describes(inode: Inode, f: Host, fixedTime: Option<u64>) {
    && inode.Extended?
    && inode.mode % 0x1000 == f.mode % 0x1000
    && inode.uid == f.uid && inode.gid == f.gid
    && inode.mtime == (if fixedTime.Some? then fixedTime.value else if f.mtime < 0 then 0 else f.mtime)
    && (fixedTime.None? && 0 <= f.mtimeNsec <= U32_MAX ==> inode.mtimeNsec == f.mtimeNsec)
    && (inode.IsDir() <==> f.kind.HostDir?)
    && (inode.IsFile() <==> f.kind.HostFile?)
    && (inode.IsSymlink() <==> f.kind.HostLink?)
    && (f.kind.HostFile? ==> inode.size == f.kind.len)
    && (f.kind.HostLink? ==> inode.size == |f.kind.target|)
    && inode.nlink == (if f.kind.HostDir? then (2 + Subdirectories(f.kind.entries)) % 0x1_0000_0000 else 1)
  }

  lemma ScanDescribes(m: Node, f: Host, name: Name, fixedTime: Option<u64>)
    requires Scan(f, name, fixedTime).Ok? && Strip(m) == Scan(f, name, fixedTime).value
    ensures Describes(InodeOf(m), f, fixedTime)
  {
    var perm := f.mode % 0x1000;
    assert (perm + S_IFDIR) / 0x1000 == 4 && (perm + S_IFREG) / 0x1000 == 8 && (perm + S_IFLNK) / 0x1000 == 10;
    hide StripAll, ScanAll, Sort, CountDirs, Subdirectories;
    if f.kind.HostDir? {
      ScannedDirs(f.kind.entries, fixedTime);
    }
  }

  /** The tree behind a built image is sound, legal and typed. */
  lemma BuiltTree(h: Host, fixedTime: Option<u64>, img: seq<byte>, settings: Settings)
    requires PlanTree(h, fixedTime).Ok? && LegalHost(h)
    requires ImageOf(img, PlanTree(h, fixedTime).value, settings)
    ensures var root := PlanTree(h, fixedTime).value.root;
            && root.nid == FIRST_NID && Sound(img, root, FIRST_NID) && LegalTree(root) && ModeTells(root)
            && Scan(h, [], fixedTime) == Ok(Strip(root)) && |img| <= U64_MAX
  {
    hide PlanTree, Scan, Storage.Stored, Laid, Extent, Count, LegalTree, ModeTells;
    var p := PlanTree(h, fixedTime).value;
    PlanFrames(h, fixedTime);
    LaidSound(img, p.root, FIRST_NID, FIRST_NID, p.dataStart);
    ScanBounds(h, [], fixedTime);
    ScanLegal(h, [], fixedTime);
    KeptProperties(Strip(p.root), p.root);
  }

  /** Round trip: in every image built from a legal host tree, resolving any list of ordinary names
      gives the inode of the file at that path, with the nid, inode number and size the plan gave it,
      and nothing exactly when there is no such file. */
  lemma BuildThenLookup(h: Host, fixedTime: Option<u64>, img: seq<byte>, settings: Settings, comps: seq<Name>)
    requires PlanTree(h, fixedTime).Ok? && LegalHost(h)
    requires ImageOf(img, PlanTree(h, fixedTime).value, settings)
    requires forall c :: c in comps ==> c != DOT && c != DOTDOT
    ensures Open(img).Ok? && BuiltCore(Open(img).value)
    ensures var r := ResolvePath(img, Open(img).value, Open(img).value.sb.rootNid, comps);
            match HostLookup(h, comps)
            case None => r == Ok(None)
            case Some(f) =>
              var planned := TreeLookup(PlanTree(h, fixedTime).value.root, comps);
              planned.Some? && r == Ok(Some(InodeOf(planned.value))) && Describes(r.value.value, f, fixedTime)
  {
    hide PlanTree, Scan, ImageOf, Describes, Open, ResolvePath, Sound, LegalTree, ModeTells, InodeOf;
    hide HostLookup, TreeLookup;
    var p := PlanTree(h, fixedTime).value;
    BuiltTree(h, fixedTime, img, settings);
    OpenBuilt(img, p, settings);
    ResolveMeetsTree(img, Open(img).value, p.root, FIRST_NID, comps);
    LookupScanned(h, [], fixedTime, comps);
    LookupStripped(p.root, comps);
    if HostLookup(h, comps).Some? {
      ScanDescribes(TreeLookup(p.root, comps).value, HostLookup(h, comps).value,
                    if comps == [] then [] else comps[|comps| - 1], fixedTime);
    }
  }
}
