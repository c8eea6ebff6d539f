/** Hosts at which promises of the builder and the walker end: each of them is built. */
module Corners {
  import opened Arithmetic
  import opened Bytes
  import opened Results
  import opened Types
  import opened Names
  import opened Utf8
  import Sorting
  import opened DirPacking
  import opened Trees
  import opened Layout
  import opened Builder
  import opened Reader
  import opened Lookup
  import opened RoundTrip
  import opened Listings
  import opened WalkTrip
  import opened HostWalk

  // ----- Small trees fit -----

  /** A bound on the data blocks of a subtree: each directory block holds at least one entry. */
  function Weight(n: Node): nat
    decreases n
  {
    if n.IsDir() then |n.kind.children| + 2 + WeightAll(n.kind.children) else DivCeil(n.size, BLOCK_SIZE)
  }

  function WeightAll(cs: seq<Node>): nat
    decreases cs
  {
    if cs == [] then 0 else Weight(cs[0]) + WeightAll(cs[1..])
  }

  lemma {:induction false} StripWeight(n: Node)
    ensures Weight(Strip(n)) == Weight(n)
    decreases n
  {
    hide WeightAll, StripAll, DivCeil;
    if n.IsDir() {
      StripWeightAll(n.kind.children);
    }
  }

  lemma {:induction false} StripWeightAll(cs: seq<Node>)
    ensures WeightAll(StripAll(cs)) == WeightAll(cs)
    decreases cs
  {
    hide Weight, Strip;
    if cs != [] {
      StripWeight(cs[0]);
      StripWeightAll(cs[1..]);
      assert StripAll(cs)[1..] == StripAll(cs[1..]);
    }
  }

  lemma {:induction false} BlocksAtMost(blocks: seq<seq<Entry>>)
    requires BlocksFit(blocks)
    ensures |blocks| <= |Flatten(blocks)|
  {
    if blocks != [] {
      BlocksAtMost(blocks[1..]);
    }
  }

  /** A directory's packed entries take at most one block each. */
  lemma DirWeight(n: Node, parentNid: nat)
    requires n.IsDir() && Bounded(n)
    ensures var blocks := Blocks(DirEntries(n.nid, parentNid, n.kind.children));
            BlocksFit(blocks) && DivCeil(|DirBytes(blocks)|, BLOCK_SIZE) <= |n.kind.children| + 2
  {
    hide DirEntries, Blocks, BlocksFit, Packable;
    DirEntriesPackable(n.nid, parentNid, n.kind.children);
    var entries := DirEntries(n.nid, parentNid, n.kind.children);
    BlocksSound(entries);
    BlocksAtMost(Blocks(entries));
    DivUnique(BLOCK_SIZE * |Blocks(entries)|, BLOCK_SIZE, |Blocks(entries)|, 0);
  }

  lemma {:induction false} PlaceFits(n: Node, parentNid: nat, cursor: nat)
    requires Bounded(n) && cursor + Weight(n) <= U32_MAX
    ensures Place(n, parentNid, cursor).Ok? && Place(n, parentNid, cursor).value.1 <= cursor + Weight(n)
    decreases n
  {
    hide Blocks, DirEntries, DirBytes, BlocksFit, LogicalSize, DivCeil, PlaceAll, BoundedAll, WeightAll;
    if n.IsDir() {
      DirWeight(n, parentNid);
      var own := DivCeil(|DirBytes(Blocks(DirEntries(n.nid, parentNid, n.kind.children)))|, BLOCK_SIZE);
      PlaceAllFits(n.kind.children, n.nid, cursor + own);
    }
  }

  lemma {:induction false} PlaceAllFits(cs: seq<Node>, parentNid: nat, cursor: nat)
    requires BoundedAll(cs) && cursor + WeightAll(cs) <= U32_MAX
    ensures PlaceAll(cs, parentNid, cursor).Ok?
    ensures PlaceAll(cs, parentNid, cursor).value.1 <= cursor + WeightAll(cs)
    decreases cs
  {
    hide Place, Weight, Bounded;
    if cs != [] {
      PlaceFits(cs[0], parentNid, cursor);
      PlaceAllFits(cs[1..], parentNid, Place(cs[0], parentNid, cursor).value.1);
    }
  }

  /** A scanned tree of few inodes and little data is planned. */
  lemma PlanFits(h: Host, fixedTime: Option<u64>)
    requires h.IsDirPath() && Scan(h, [], fixedTime).Ok?
    requires Count(Scan(h, [], fixedTime).value) <= 0x1_0000 && Weight(Scan(h, [], fixedTime).value) <= 0x1_0000
    ensures PlanTree(h, fixedTime).Ok?
  {
    hide Scan, Number, Place, Weight, Count, Numbered;
    var scanned := Scan(h, [], fixedTime).value;
    ScanBounds(h, [], fixedTime);
    NumberNumbers(scanned, FIRST_NID, 1);
    var numbered := Number(scanned, FIRST_NID, 1);
    StripWeight(scanned);
    StripWeight(numbered);
    PlaceFits(numbered, FIRST_NID, DivCeil(32 * (FIRST_NID + 2 * Count(numbered)), BLOCK_SIZE));
  }

  // ----- A root that is a link -----

  /** A link to a directory; the guard follows it, the scan does not. */
  function LinkRoot(): Host {
    Host(0x1ff, 0, 0, 0, 0, HostLink([46], true))
  }

  lemma LinkRootPlanned(fixedTime: Option<u64>)
    ensures PlanTree(LinkRoot(), fixedTime).Ok? && LegalHost(LinkRoot()) && HostUnchanged(LinkRoot())
  {
    hide PlanTree;
    assert Scan(LinkRoot(), [], fixedTime).Ok?;
    PlanFits(LinkRoot(), fixedTime);
  }

  lemma LinkDescribed(fixedTime: Option<u64>)
    ensures HostLookup(LinkRoot(), []) == Some(LinkRoot())
    ensures forall inode :: Describes(inode, LinkRoot(), fixedTime) ==> inode.IsSymlink()
  {
  }

  /** It is built, and the image's root is a symlink. */
  lemma LinkRootBuilt(builder: ImageBuilder, clock: u64)
    requires builder.Valid()
    ensures var img := BuildOf(builder, LinkRoot(), clock);
            && img.Ok? && Open(img.value).Ok?
            && var core := Open(img.value).value;
               var root := ResolvePath(img.value, core, core.sb.rootNid, []);
               root.Ok? && root.value.Some? && root.value.value.IsSymlink()
  {
    hide ImageOf, PlanTree, Open, ResolvePath, BuildOf, Describes;
    var h := LinkRoot();
    LinkRootPlanned(builder.fixedTime);
    BuildSucceeds(builder, h, clock);
    BuildThenLookup(h, builder.fixedTime, BuildOf(builder, h, clock).value, builder.SettingsAt(clock), []);
    LinkDescribed(builder.fixedTime);
  }

  // ----- A name that is not UTF-8 -----

  /** A directory of one empty file, whose name is a single byte 0xff. */
  function OddName(): Host {
    Host(0x1ed, 0, 0, 0, 0, HostDir([HostEntry([0xff], Host(0x1a4, 0, 0, 0, 0, HostFile(0, [])))]))
  }

  lemma ScanOne(e: HostEntry, fixedTime: Option<u64>, n: Node)
    requires Scan(e.file, e.name, fixedTime) == Ok(n)
    ensures ScanAll([e], fixedTime) == Ok([n])
  {
    hide Scan;
    assert [e][1..] == [];
    assert ScanAll([e][1..], fixedTime) == Ok([]);
    assert [n] + [] == [n];
  }

  lemma SortOne(n: Node)
    ensures Sorting.Sort([n], NodeName) == [n]
  {
    assert [n][1..] == [];
  }

  /** Scanning a directory of one entry. */
  lemma OneScanned(h: Host, e: HostEntry, name: Name, fixedTime: Option<u64>, child: Node)
    requires h.kind == HostDir([e]) && |name| <= 255 && Scan(e.file, e.name, fixedTime) == Ok(child)
    ensures var r := Scan(h, name, fixedTime);
            r.Ok? && r.value.IsDir() && r.value.kind.children == [child]
  {
    ScanOne(e, fixedTime, child);
    SortOne(child);
    hide ScanAll, Sorting.Sort, CountDirs;
  }

  lemma OneSized(n: Node, child: Node)
    requires n.IsDir() && n.kind.children == [child]
    ensures Count(n) == Count(child) + 1 && Weight(n) == Weight(child) + 3
  {
    assert [child][1..] == [];
    assert CountAll([child]) == Count(child) && WeightAll([child]) == Weight(child);
  }

  lemma OddScanned(fixedTime: Option<u64>)
    ensures var r := Scan(OddName(), [], fixedTime);
            && r.Ok? && r.value.IsDir() && |r.value.kind.children| == 1
            && r.value.kind.children[0].name == [0xff] && !r.value.kind.children[0].IsDir()
            && Count(r.value) == 2 && Weight(r.value) == 3
  {
    var e := OddName().kind.entries[0];
    var file := Scan(e.file, [0xff], fixedTime).value;
    OneScanned(OddName(), e, [], fixedTime, file);
    OneSized(Scan(OddName(), [], fixedTime).value, file);
  }

  lemma OddNamePlanned(fixedTime: Option<u64>)
    ensures PlanTree(OddName(), fixedTime).Ok? && LegalHost(OddName()) && HostUnchanged(OddName())
  {
    hide PlanTree, Scan;
    OddScanned(fixedTime);
    PlanFits(OddName(), fixedTime);
    var es := OddName().kind.entries;
    assert es[1..] == [];
    assert Legal([0xff]);
  }

  lemma OneChild(n: Node, m: Node)
    requires Strip(n) == m && m.IsDir() && |m.kind.children| == 1
    ensures n.IsDir() && |n.kind.children| == 1 && n.kind.children[1..] == []
    ensures n.kind.children[0].name == m.kind.children[0].name
    ensures n.kind.children[0].IsDir() == m.kind.children[0].IsDir()
  {
    assert m.kind.children[0] == Strip(n.kind.children[0]);
  }

  lemma OddLossy()
    ensures Lossy([0xff]) == REPLACEMENT
  {
    assert [0xff][1..] == [];
  }

  lemma OddNameWalked(fixedTime: Option<u64>)
    requires PlanTree(OddName(), fixedTime).Ok?
    ensures var root := PlanTree(OddName(), fixedTime).value.root;
            && root.IsDir() && InodeOf(root).nid == root.nid
            && var walk := TreeWalk(root.kind.children, [], 1, 0);
               |walk| == 1 && walk[0].Found? && walk[0].entry.fileName == REPLACEMENT
  {
    hide PlanTree, Scan, Framed, Bounded, Lossy;
    OddScanned(fixedTime);
    PlanFrames(OddName(), fixedTime);
    var root := PlanTree(OddName(), fixedTime).value.root;
    OneChild(root, Scan(OddName(), [], fixedTime).value);
    OddLossy();
  }

  /** It is built, and a walk shows the file under another name. */
  lemma OddNameBuilt(builder: ImageBuilder, clock: u64)
    requires builder.Valid()
    ensures var img := BuildOf(builder, OddName(), clock);
            && img.Ok? && Open(img.value).Ok?
            && var core := Open(img.value).value;
               var root := ResolvePath(img.value, core, core.sb.rootNid, []);
               && root.Ok? && root.value.Some? && core.blockSize > 0
               && OpenDir(img.value, core, root.value.value, []).Ok?
               && var level := Level(root.value.value.nid, OpenDir(img.value, core, root.value.value, []).value);
                  var walk := WalkStack(img.value, core, 0, [level]);
                  |walk| == 1 && walk[0].Found? && walk[0].entry.fileName == REPLACEMENT != [0xff]
  {
    hide ImageOf, PlanTree, Open, ResolvePath, BuildOf, OpenDir, WalkStack, Scan, TreeWalk, ChildEntries, InodeOf;
    var h := OddName();
    OddNamePlanned(builder.fixedTime);
    BuildSucceeds(builder, h, clock);
    var img := BuildOf(builder, h, clock).value;
    assert HostLookup(h, []) == Some(h);
    BuildThenWalk(h, builder.fixedTime, img, builder.SettingsAt(clock), [], 0);
    OddNameWalked(builder.fixedTime);
  }

  // ----- A deep chain of directories -----

  /** `n` directories, one in the other, below the root. */
  function Chain(n: nat): Host {
    Host(0x1ed, 0, 0, 0, 0, HostDir(if n == 0 then [] else [HostEntry([97], Chain(n - 1))]))
  }

  function ChainPath(n: nat): (q: Path)
    ensures |q| == n
  {
    if n == 0 then [] else [[97]] + ChainPath(n - 1)
  }

  lemma ChainStep(n: nat, name: Name, fixedTime: Option<u64>, child: Node)
    requires n > 0 && |name| <= 255 && Scan(Chain(n - 1), [97], fixedTime) == Ok(child)
    ensures var r := Scan(Chain(n), name, fixedTime);
            r.Ok? && Count(r.value) == Count(child) + 1 && Weight(r.value) == Weight(child) + 3
  {
    OneScanned(Chain(n), HostEntry([97], Chain(n - 1)), name, fixedTime, child);
    hide Scan;
    OneSized(Scan(Chain(n), name, fixedTime).value, child);
  }

  lemma {:induction false} ChainScanned(n: nat, name: Name, fixedTime: Option<u64>)
    requires |name| <= 255
    ensures var r := Scan(Chain(n), name, fixedTime);
            r.Ok? && Count(r.value) == n + 1 && Weight(r.value) == 3 * n + 2
  {
    if n > 0 {
      ChainScanned(n - 1, [97], fixedTime);
      var child := Scan(Chain(n - 1), [97], fixedTime).value;
      ChainStep(n, name, fixedTime, child);
    } else {
      assert ScanAll([], fixedTime) == Ok([]);
    }
  }

  lemma {:induction false} ChainLegal(n: nat)
    ensures LegalHost(Chain(n)) && HostUnchanged(Chain(n))
  {
    if n > 0 {
      ChainLegal(n - 1);
      var es := Chain(n).kind.entries;
      assert es[0].file == Chain(n - 1) && es[1..] == [] && Legal([97]);
    }
  }

  /** The only paths into the chain are the chain's. */
  lemma {:induction false} ChainLookup(n: nat, q: Path)
    ensures HostLookup(Chain(n), q)
            == if |q| <= n && q == ChainPath(|q|) then Some(Chain(n - |q|)) else None
    decreases n
  {
    if q != [] {
      assert ChainPath(|q|)[0] == [97] && ChainPath(|q|)[1..] == ChainPath(|q| - 1);
      assert q == [q[0]] + q[1..];
      if n > 0 {
        ChainLookup(n - 1, q[1..]);
      }
    }
  }

  lemma ChainDeep(n: nat, limit: nat)
    requires limit > 0
    ensures DeepDir(Chain(n), limit) <==> n >= limit
  {
    hide HostLookup;
    if n >= limit {
      ChainLookup(n, ChainPath(limit));
      assert IsBelow(Chain(n), ChainPath(limit));
    }
    if DeepDir(Chain(n), limit) {
      var q :| IsBelow(Chain(n), q) && |q| >= limit && HostLookup(Chain(n), q).value.kind.HostDir?;
      ChainLookup(n, q);
    }
  }

  lemma ChainRoot(n: nat)
    ensures Chain(n).kind.HostDir? && Chain(n).IsDirPath() && HostLookup(Chain(n), []) == Some(Chain(n))
  {
  }

  /** A chain is built, and walking it without a limit ends in the depth error exactly when it has 256
      directories or more. */
  lemma ChainBuilt(builder: ImageBuilder, clock: u64, n: nat)
    requires builder.Valid() && n <= 0x1000
    ensures var img := BuildOf(builder, Chain(n), clock);
            && img.Ok? && Open(img.value).Ok?
            && var core := Open(img.value).value;
               var root := ResolvePath(img.value, core, core.sb.rootNid, []);
               && root.Ok? && root.value.Some? && core.blockSize > 0
               && OpenDir(img.value, core, root.value.value, []).Ok?
               && var level := Level(root.value.value.nid, OpenDir(img.value, core, root.value.value, []).value);
                  var walk := WalkStack(img.value, core, 0, [level]);
                  EndsInError(walk) <==> n >= DEFAULT_MAX_DEPTH
  {
    hide ImageOf, PlanTree, Open, ResolvePath, BuildOf, OpenDir, WalkStack, Scan, TreeWalk, ChildEntries, InodeOf,
      Weight, Count, HostUnchanged, LegalHost, Planned, LegalTree, DeepDir, PreOrder, Chain;
    var h := Chain(n);
    ChainRoot(n);
    ChainScanned(n, [], builder.fixedTime);
    PlanFits(h, builder.fixedTime);
    ChainLegal(n);
    BuildSucceeds(builder, h, clock);
    var img := BuildOf(builder, h, clock).value;
    BuildThenWalk(h, builder.fixedTime, img, builder.SettingsAt(clock), [], 0);
    var top, name := BuiltDir(h, builder.fixedTime, img, builder.SettingsAt(clock), []);
    BuiltIsDir(top, h, name, builder.fixedTime);
    DepthPlanned(top, h, name, builder.fixedTime, DEFAULT_MAX_DEPTH);
    ChainDeep(n, DEFAULT_MAX_DEPTH);
    DefaultDepthExact(top.kind.children, [], 1);
  }
}
