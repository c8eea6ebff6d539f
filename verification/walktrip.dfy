/** Build, then walk: the walker lists a built tree in pre-order. */
module WalkTrip {
  import opened Bytes
  import opened Results
  import opened Types
  import opened Names
  import opened Utf8
  import opened Sorting
  import Dirents
  import opened DirPacking
  import opened DirDecoding
  import opened Trees
  import opened Layout
  import opened Storage
  import opened Builder
  import opened Reader
  import opened Lookup
  import opened RoundTrip
  import opened Listings

  /** The entry the iterator shows for a packed one. */
  function Shows(dir: Path, e: Entry): DirEntry {
    DirEntry(dir, e.nid, e.fileType, Lossy(e.name))
  }

  /** Packed entries as the iterator shows them, dots dropped. */
  function Visible(dir: Path, es: seq<Entry>): seq<DirEntry> {
    if es == [] then []
    else if IsDots(es[0].name) then Visible(dir, es[1..])
    else [Shows(dir, es[0])] + Visible(dir, es[1..])
  }

  /** Every entry is a dot entry or legally named. */
  ghost predicate Listable(es: seq<Entry>) {
    Encodable(es) && forall e :: e in es ==> IsDots(e.name) || Legal(e.name)
  }

  lemma DotsAscii()
    ensures Lossy(DOT) == DOT && Lossy(DOTDOT) == DOTDOT
  {
    DisplayDots(0);
    assert DOT[1..] == [] && DOTDOT[1..] == DOT;
    LossyKeepsValid(DOT);
    LossyKeepsValid(DOTDOT);
  }

  lemma ShownName(name: Name, pad: nat)
    requires IsDots(name) || Legal(name)
    ensures Display(name + Zeros(pad)) == Lossy(name) && !Slash(Lossy(name))
    ensures IsDots(Lossy(name)) <==> IsDots(name)
  {
    if IsDots(name) {
      DisplayDots(pad);
      DotsAscii();
    } else {
      DisplayPadded(name, pad);
    }
  }

  lemma EntryShows(dir: Path, es: seq<Entry>, m: nat, k: nat)
    requires Used(es) <= m <= BLOCK_SIZE && k < |es| && Listable(es)
    ensures DecodeEntry(dir, View(es, m), k, |es|) == Ok(Shows(dir, es[k]))
    ensures IsDots(es[k].name) <==> IsDots(Shows(dir, es[k]).fileName)
  {
    hide View, Dirents.ReadNthDirent, Dirents.RawName, Display, Lossy, Used, Legal, IsDots, Slash;
    assert es[k] in es;
    DirentAt(es, m, k);
    RawNameAt(es, m, k);
    if k < |es| - 1 {
      assert Zeros(0) == [];
      ShownName(es[k].name, 0);
    } else {
      ShownName(es[k].name, m - Used(es));
    }
  }

  lemma {:induction false} BlockShows(dir: Path, es: seq<Entry>, m: nat, k: nat)
    requires Used(es) <= m <= BLOCK_SIZE && k <= |es| && Listable(es)
    ensures BlockListing(dir, View(es, m), k, |es|) == Listing(Visible(dir, es[k..]), None)
    decreases |es| - k
  {
    hide View, DecodeEntry, Used, Listable, Shows, IsDots;
    if k < |es| {
      EntryShows(dir, es, m, k);
      BlockShows(dir, es, m, k + 1);
      assert es[k..][0] == es[k] && es[k..][1..] == es[k + 1..];
    }
  }

  lemma {:induction false} VisibleSplit(dir: Path, a: seq<Entry>, b: seq<Entry>)
    ensures Visible(dir, a + b) == Visible(dir, a) + Visible(dir, b)
  {
    if a == [] {
      assert a + b == b;
    } else {
      assert (a + b)[1..] == a[1..] + b;
      VisibleSplit(dir, a[1..], b);
    }
  }

  lemma ListableSplit(a: seq<Entry>, b: seq<Entry>)
    requires Listable(a + b)
    ensures Listable(a) && Listable(b)
  {
    EncodableSplit(a, b);
    forall e | e in a ensures e in a + b {}
    forall e | e in b ensures e in a + b {}
  }

  lemma NothingVisible(dir: Path)
    ensures Visible(dir, []) == []
  {
  }

  lemma ListableEncodable(es: seq<Entry>)
    requires Listable(es)
    ensures Encodable(es)
  {
  }

  /** Block `b` starts inside the directory, and the shown bytes lead to the next block or the end. */
  lemma BlockInside(n: Node, blocks: seq<seq<Entry>>, b: nat)
    requires |blocks| > 0 && BlocksFit(blocks) && n.size == LogicalSize(blocks) && b < |blocks|
    ensures b * BLOCK_SIZE < n.size
    ensures b * BLOCK_SIZE + Shown(blocks, b) == if b < |blocks| - 1 then (b + 1) * BLOCK_SIZE else n.size
  {
    var last := |blocks| - 1;
    assert blocks[last] != [] && 0 < Used(blocks[last]) <= BLOCK_SIZE;
    hide Used;
  }

  /** The stored blocks list the packed entries, whole and in order, without an error. */
  lemma {:induction false} BlocksShow(
      img: seq<byte>, core: Core, n: Node, blocks: seq<seq<Entry>>, dir: Path, b: nat)
    requires BuiltCore(core) && PayloadStored(img, n) && n.IsDir() && n.blkaddr <= U32_MAX
    requires |blocks| > 0 && BlocksFit(blocks) && n.kind.data == DirBytes(blocks)
    requires n.size == LogicalSize(blocks) && b < |blocks| && |img| <= U64_MAX
    requires Listable(Flatten(blocks[b..]))
    ensures BlocksListing(img, core, InodeOf(n), dir, b * BLOCK_SIZE)
            == Listing(Visible(dir, Flatten(blocks[b..])), None)
    decreases |blocks| - b
  {
    hide GetInodeBlock, DirBytes, View, Used, PayloadStored, Listable, BlockListing, Dirents.EntryCount, Visible;
    var es, rest := blocks[b], Flatten(blocks[b + 1..]);
    assert blocks[b..][0] == es && blocks[b..][1..] == blocks[b + 1..];
    assert Flatten(blocks[b..]) == es + rest;
    ListableSplit(es, rest);
    DirBlockReads(img, core, n, blocks, b);
    var m := Shown(blocks, b);
    ListableEncodable(es);
    CountAt(es, m);
    BlockShows(dir, es, m, 0);
    assert es[0..] == es;
    VisibleSplit(dir, es, rest);
    BlockInside(n, blocks, b);
    if b < |blocks| - 1 {
      BlocksShow(img, core, n, blocks, dir, b + 1);
    } else {
      assert blocks[b + 1..] == [] && rest == [];
      NothingVisible(dir);
      assert Visible(dir, es) + [] == Visible(dir, es);
    }
  }

  // ----- The children, in order -----

  function ChildEntries(dir: Path, cs: seq<Node>): (r: seq<DirEntry>)
    ensures |r| == |cs|
  {
    if cs == [] then [] else [Shows(dir, EntryOf(cs[0]))] + ChildEntries(dir, cs[1..])
  }

  lemma {:induction false} VisibleInsertDots(dir: Path, dots: Entry, s: seq<Entry>)
    requires IsDots(dots.name)
    ensures Visible(dir, Insert(dots, s, EntryName)) == Visible(dir, s)
  {
    hide Less;
    if s == [] || !Less(EntryName(s[0]), EntryName(dots)) {
      assert ([dots] + s)[1..] == s;
    } else {
      VisibleInsertDots(dir, dots, s[1..]);
      var t := Insert(dots, s[1..], EntryName);
      assert ([s[0]] + t)[1..] == t;
    }
  }

  lemma {:induction false} VisibleChildren(dir: Path, cs: seq<Node>)
    requires LegalAll(cs)
    ensures Visible(dir, EntriesOf(cs)) == ChildEntries(dir, cs)
  {
    if cs != [] {
      assert EntriesOf(cs)[1..] == EntriesOf(cs[1..]);
      VisibleChildren(dir, cs[1..]);
    }
  }

  /** Dots dropped, the canonical entry order is the order of the children. */
  lemma DirEntriesShow(dir: Path, nid: nat, parent: nat, cs: seq<Node>)
    requires Strict(cs, NodeName) && LegalAll(cs)
    ensures Visible(dir, DirEntries(nid, parent, cs)) == ChildEntries(dir, cs)
  {
    hide Less, Visible, Insert;
    var es := EntriesOf(cs);
    var dot, dotdot := Entry(nid, Directory, DOT), Entry(parent, Directory, DOTDOT);
    assert forall i :: 0 <= i < |cs| ==> EntryName(es[i]) == NodeName(cs[i]);
    SortSorted(es, EntryName);
    var raw := [dot, dotdot] + es;
    assert raw[1..][1..] == es && raw[1..][0] == dotdot;
    assert Sort(raw, EntryName) == Insert(dot, Sort(raw[1..], EntryName), EntryName);
    assert Sort(raw[1..], EntryName) == Insert(dotdot, Sort(es, EntryName), EntryName);
    VisibleInsertDots(dir, dot, Sort(raw[1..], EntryName));
    VisibleInsertDots(dir, dotdot, es);
    VisibleChildren(dir, cs);
  }

  lemma RawNames(nid: nat, parent: nat, cs: seq<Node>, e: Entry)
    requires LegalAll(cs) && e in RawEntries(nid, parent, cs)
    ensures IsDots(e.name) || Legal(e.name)
  {
    hide Legal;
    var raw := RawEntries(nid, parent, cs);
    var i :| 0 <= i < |raw| && raw[i] == e;
    if i >= 2 { LegalMember(cs, cs[i - 2]); }
  }

  lemma DirEntriesListable(img: seq<byte>, n: Node, parent: nat)
    requires n.IsDir() && Sound(img, n, parent) && LegalTree(n) && parent <= U64_MAX
    ensures Listable(DirEntries(n.nid, parent, n.kind.children))
  {
    hide Legal, Encodable, Sort, RawEntries, IsDots, Less, InodeStored, PayloadStored, FieldsFit;
    DirEntriesSorted(img, n, parent);
    var raw := RawEntries(n.nid, parent, n.kind.children);
    SortMembers(raw, EntryName);
    forall e | e in Sort(raw, EntryName) ensures IsDots(e.name) || Legal(e.name) {
      RawNames(n.nid, parent, n.kind.children, e);
    }
  }

  /** Opening a built directory lists its children, in order, under their displayed names. */
  lemma OpenBuiltDir(img: seq<byte>, core: Core, n: Node, parent: nat, dir: Path)
    requires BuiltCore(core) && n.IsDir() && Sound(img, n, parent) && LegalTree(n)
    requires parent <= U64_MAX && |img| <= U64_MAX
    ensures OpenDir(img, core, InodeOf(n), dir) == Ok(Listing(ChildEntries(dir, n.kind.children), None))
  {
    hide InodeStored, PayloadStored, InodeOf, LogicalSize, DirBytes, GetInodeBlock, Dirents.EntryCount, View,
      BlocksListing, Visible, Listable, Less;
    var entries := DirEntries(n.nid, parent, n.kind.children);
    var blocks := Blocks(entries);
    DirEntriesListable(img, n, parent);
    BlocksFlatten(entries);
    assert blocks[0..] == blocks;
    DirEntriesShow(dir, n.nid, parent, n.kind.children);
    hide DirEntries, Blocks;
    BlocksShow(img, core, n, blocks, dir, 0);
    DirBlockReads(img, core, n, blocks, 0);
    assert Flatten(blocks) == blocks[0] + Flatten(blocks[1..]);
    ListableSplit(blocks[0], Flatten(blocks[1..]));
    ListableEncodable(blocks[0]);
    CountAt(blocks[0], Shown(blocks, 0));
  }

  // ----- The whole tree -----

  /** The walk of a tree below depth `depth`, with the walker's depth rules. */
  function TreeWalk(cs: seq<Node>, dir: Path, depth: nat, maxDepth: nat): seq<Item>
    decreases cs
  {
    if cs == [] then []
    else
      var c := cs[0];
      var found := Found(depth, Shows(dir, EntryOf(c)), InodeOf(c));
      if c.IsDir() && depth < Cap(maxDepth) then
        [found] + Then(TreeWalk(c.kind.children, dir + [Lossy(c.name)], depth + 1, maxDepth),
                       TreeWalk(cs[1..], dir, depth, maxDepth))
      else if c.IsDir() && maxDepth == 0 then [Failed(DepthLimit)]
      else [found] + TreeWalk(cs[1..], dir, depth, maxDepth)
  }

  /** On a built tree every step succeeds: no read error and never a cycle. */
  lemma StepOnTree(img: seq<byte>, core: Core, maxDepth: nat, c: Node, parent: nat, dir: Path,
                   depth: nat, ancestors: set<nat>)
    requires BuiltCore(core) && Sound(img, c, parent) && LegalTree(c)
    requires parent <= U64_MAX && |img| <= U64_MAX && parent < c.nid
    requires forall a :: a in ancestors ==> a <= parent
    ensures var below := dir + [Lossy(c.name)];
            StepAt(img, core, maxDepth, Shows(dir, EntryOf(c)), depth, ancestors)
            == if c.IsDir() && depth < Cap(maxDepth) then
                 Descend(Found(depth, Shows(dir, EntryOf(c)), InodeOf(c)), c.nid,
                         Listing(ChildEntries(below, c.kind.children), None))
               else if c.IsDir() && maxDepth == 0 then Stop(DepthLimit)
               else Leaf(Found(depth, Shows(dir, EntryOf(c)), InodeOf(c)))
  {
    hide InodeStored, PayloadStored, FieldsFit, GetInode, OpenDir, Lossy, DirStored, ChildEntries;
    InodeReads(img, core, c);
    if c.IsDir() {
      OpenBuiltDir(img, core, c, parent, dir + [Lossy(c.name)]);
    }
  }

  /** The recursive traversal of the image is the recursive traversal of the tree. */
  lemma {:induction false} WalkMeetsTree(
      img: seq<byte>, core: Core, maxDepth: nat, cs: seq<Node>, parent: nat, dir: Path, depth: nat,
      ancestors: set<nat>)
    requires BuiltCore(core) && SoundAll(img, cs, parent) && LegalAll(cs)
    requires parent <= U64_MAX && |img| <= U64_MAX
    requires forall a :: a in ancestors ==> a <= parent
    ensures Walk(img, core, maxDepth, Listing(ChildEntries(dir, cs), None), depth, ancestors)
            == TreeWalk(cs, dir, depth, maxDepth)
    decreases cs
  {
    hide StepAt, Shows, Then, Cap, Legal, Lossy, InodeStored, PayloadStored, FieldsFit, DirStored, InodeOf, EntryOf;
    if cs != [] {
      var c := cs[0];
      StepOnTree(img, core, maxDepth, c, parent, dir, depth, ancestors);
      assert ChildEntries(dir, cs)[1..] == ChildEntries(dir, cs[1..]);
      WalkMeetsTree(img, core, maxDepth, cs[1..], parent, dir, depth, ancestors);
      if c.IsDir() {
        WalkMeetsTree(img, core, maxDepth, c.kind.children, c.nid, dir + [Lossy(c.name)], depth + 1,
                      ancestors + {c.nid});
      }
    }
  }

  lemma ScannedDir(m: Node, f: Host, name: Name, fixedTime: Option<u64>)
    requires f.kind.HostDir? && Scan(f, name, fixedTime) == Ok(Strip(m))
    ensures m.IsDir()
  {
    hide StripAll;
  }

  /** What a lookup reaches is as sound and legal as where it started. */
  lemma {:induction false} LookupKeeps(img: seq<byte>, n: Node, parent: nat, comps: seq<Name>)
    returns (above: nat)
    requires Sound(img, n, parent) && LegalTree(n) && TreeLookup(n, comps).Some? && parent <= U64_MAX
    ensures Sound(img, TreeLookup(n, comps).value, above) && LegalTree(TreeLookup(n, comps).value)
    ensures above <= U64_MAX
    decreases |comps|
  {
    hide InodeStored, PayloadStored, FieldsFit, DirStored, Legal;
    if comps == [] {
      above := parent;
    } else {
      var c := FindChild(n, comps[0]).value;
      SoundMember(img, n.kind.children, n.nid, c);
      LegalMember(n.kind.children, c);
      above := LookupKeeps(img, c, n.nid, comps[1..]);
    }
  }

  lemma OneLevel(img: seq<byte>, core: Core, maxDepth: nat, level: Level)
    requires core.blockSize > 0
    ensures WalkStack(img, core, maxDepth, [level]) == Walk(img, core, maxDepth, level.listing, 1, {level.nid})
  {
    hide Walk;
    assert Nids([level]) == {level.nid} by { assert [level][0].nid == level.nid; }
    assert [level][..0] == [];
    var items := Walk(img, core, maxDepth, level.listing, 1, {level.nid});
    assert items + [] == items;
  }

  /** Round trip: walking any directory of a built image yields the traversal of the host's tree there. */
  lemma BuildThenWalk(h: Host, fixedTime: Option<u64>, img: seq<byte>, settings: Settings,
                      comps: Path, maxDepth: nat)
    requires PlanTree(h, fixedTime).Ok? && LegalHost(h)
    requires ImageOf(img, PlanTree(h, fixedTime).value, settings)
    requires forall c :: c in comps ==> c != DOT && c != DOTDOT
    requires HostLookup(h, comps).Some? && HostLookup(h, comps).value.kind.HostDir?
    ensures Open(img).Ok? && BuiltCore(Open(img).value)
    ensures var core := Open(img).value;
            var top := TreeLookup(PlanTree(h, fixedTime).value.root, comps);
            && top.Some? && top.value.IsDir()
            && ResolvePath(img, core, core.sb.rootNid, comps) == Ok(Some(InodeOf(top.value)))
            && OpenDir(img, core, InodeOf(top.value), comps)
               == Ok(Listing(ChildEntries(comps, top.value.kind.children), None))
            && WalkStack(img, core, maxDepth,
                         [Level(top.value.nid, Listing(ChildEntries(comps, top.value.kind.children), None))])
               == TreeWalk(top.value.kind.children, comps, 1, maxDepth)
  {
    hide PlanTree, Scan, ImageOf, Open, ResolvePath, InodeOf, HostLookup, ChildEntries, OpenDir, Walk,
      TreeWalk, InodeStored, PayloadStored, FieldsFit, DirStored, Legal, Strict;
    var root := PlanTree(h, fixedTime).value.root;
    BuiltTree(h, fixedTime, img, settings);
    OpenBuilt(img, PlanTree(h, fixedTime).value, settings);
    var core := Open(img).value;
    ResolveMeetsTree(img, core, root, FIRST_NID, comps);
    LookupScanned(h, [], fixedTime, comps);
    LookupStripped(root, comps);
    var top := TreeLookup(root, comps).value;
    ScannedDir(top, HostLookup(h, comps).value, if comps == [] then [] else comps[|comps| - 1], fixedTime);
    var parent := LookupKeeps(img, root, FIRST_NID, comps);
    OpenBuiltDir(img, core, top, parent, comps);
    WalkMeetsTree(img, core, maxDepth, top.kind.children, top.nid, comps, 1, {top.nid});
    OneLevel(img, core, maxDepth, Level(top.nid, Listing(ChildEntries(comps, top.kind.children), None)));
  }

  // ----- What the depth rules mean -----

  /** The full pre-order listing, without any depth rule. */
  function PreOrder(cs: seq<Node>, dir: Path, depth: nat): (r: seq<Item>)
    ensures forall i :: 0 <= i < |r| ==> r[i].Found?
    decreases cs
  {
    if cs == [] then []
    else
      var c := cs[0];
      [Found(depth, Shows(dir, EntryOf(c)), InodeOf(c))]
      + (if c.IsDir() then PreOrder(c.kind.children, dir + [Lossy(c.name)], depth + 1) else [])
      + PreOrder(cs[1..], dir, depth)
  }

  function Max(a: nat, b: nat): nat {
    if a >= b then a else b
  }

  /** The depth of the deepest directory entry, 0 if there is none. */
  function DirDepth(cs: seq<Node>, depth: nat): nat
    decreases cs
  {
    if cs == [] then 0
    else
      var below := if cs[0].IsDir() then Max(depth, DirDepth(cs[0].kind.children, depth + 1)) else 0;
      Max(below, DirDepth(cs[1..], depth))
  }

  lemma ThenFound(a: seq<Item>, b: seq<Item>)
    requires forall i :: 0 <= i < |a| ==> a[i].Found?
    ensures Then(a, b) == a + b
  {
  }

  predicate EndsInError(items: seq<Item>) {
    items != [] && items[|items| - 1].Failed?
  }

  /** Without an explicit limit the walk lists the whole tree in pre-order exactly when no directory
      lies at depth 256 or deeper; otherwise it ends in the depth error. */
  ghost predicate DefaultExact(cs: seq<Node>, dir: Path, depth: nat) {
    var walk := TreeWalk(cs, dir, depth, 0);
    if DirDepth(cs, depth) < DEFAULT_MAX_DEPTH then walk == PreOrder(cs, dir, depth)
    else EndsInError(walk) && walk[|walk| - 1] == Failed(DepthLimit)
  }

  /** A directory and what follows it. */
  lemma DefaultDepthDir(cs: seq<Node>, dir: Path, depth: nat)
    requires cs != [] && cs[0].IsDir()
    requires DefaultExact(cs[1..], dir, depth)
    requires DefaultExact(cs[0].kind.children, dir + [Lossy(cs[0].name)], depth + 1)
    ensures DefaultExact(cs, dir, depth)
  {
    hide Shows, InodeOf, EntryOf, Lossy;
    var c := cs[0];
    ThenFound(PreOrder(c.kind.children, dir + [Lossy(c.name)], depth + 1), TreeWalk(cs[1..], dir, depth, 0));
  }

  lemma {:induction false} DefaultDepthExact(cs: seq<Node>, dir: Path, depth: nat)
    ensures DefaultExact(cs, dir, depth)
    decreases cs
  {
    if cs != [] {
      var c := cs[0];
      DefaultDepthExact(cs[1..], dir, depth);
      if c.IsDir() {
        hide DefaultExact;
        DefaultDepthExact(c.kind.children, dir + [Lossy(c.name)], depth + 1);
        DefaultDepthDir(cs, dir, depth);
      } else {
        hide Shows, InodeOf, EntryOf, Lossy;
      }
    }
  }

  /** The items no deeper than `limit`. */
  function Shallow(items: seq<Item>, limit: nat): seq<Item> {
    if items == [] then []
    else (if items[0].Found? && items[0].depth <= limit then [items[0]] else []) + Shallow(items[1..], limit)
  }

  lemma {:induction false} ShallowSplit(a: seq<Item>, b: seq<Item>, limit: nat)
    ensures Shallow(a + b, limit) == Shallow(a, limit) + Shallow(b, limit)
  {
    if a == [] {
      assert a + b == b;
    } else {
      assert (a + b)[1..] == a[1..] + b;
      ShallowSplit(a[1..], b, limit);
    }
  }

  lemma {:induction false} TooDeep(cs: seq<Node>, dir: Path, depth: nat, limit: nat)
    requires depth > limit
    ensures Shallow(PreOrder(cs, dir, depth), limit) == []
    decreases cs
  {
    hide Shows, InodeOf, EntryOf, Lossy;
    if cs != [] {
      var c := cs[0];
      var first := [Found(depth, Shows(dir, EntryOf(c)), InodeOf(c))];
      var below := if c.IsDir() then PreOrder(c.kind.children, dir + [Lossy(c.name)], depth + 1) else [];
      TooDeep(cs[1..], dir, depth, limit);
      if c.IsDir() { TooDeep(c.kind.children, dir + [Lossy(c.name)], depth + 1, limit); }
      ShallowSplit(first + below, PreOrder(cs[1..], dir, depth), limit);
      ShallowSplit(first, below, limit);
    }
  }

  lemma {:induction false} ShallowFound(items: seq<Item>, limit: nat)
    ensures forall i :: 0 <= i < |Shallow(items, limit)| ==> Shallow(items, limit)[i].Found?
  {
    if items != [] { ShallowFound(items[1..], limit); }
  }

  lemma ShallowOne(item: Item, limit: nat)
    requires item.Found? && item.depth <= limit
    ensures Shallow([item], limit) == [item]
  {
    assert [item][1..] == [];
  }

  lemma NothingWalked(dir: Path, depth: nat, limit: nat)
    ensures TreeWalk([], dir, depth, limit) == Shallow(PreOrder([], dir, depth), limit)
  {
  }

  /** One step of the traversal under a limit that its parts keep to. */
  lemma WalkedFirst(cs: seq<Node>, dir: Path, depth: nat, limit: nat)
    requires cs != [] && 0 < depth <= limit
    requires cs[0].IsDir() && depth < limit ==>
      forall e :: e in TreeWalk(cs[0].kind.children, dir + [Lossy(cs[0].name)], depth + 1, limit) ==> e.Found?
    ensures TreeWalk(cs, dir, depth, limit)
            == [Found(depth, Shows(dir, EntryOf(cs[0])), InodeOf(cs[0]))]
               + (if cs[0].IsDir() && depth < limit
                  then TreeWalk(cs[0].kind.children, dir + [Lossy(cs[0].name)], depth + 1, limit) else [])
               + TreeWalk(cs[1..], dir, depth, limit)
  {
    hide Shows, InodeOf, EntryOf, Lossy;
    if cs[0].IsDir() && depth < limit {
      ThenFound(TreeWalk(cs[0].kind.children, dir + [Lossy(cs[0].name)], depth + 1, limit),
                TreeWalk(cs[1..], dir, depth, limit));
    }
    hide Then;
  }

  /** The shallow part of a listing, part by part. */
  lemma ShallowFirst(cs: seq<Node>, dir: Path, depth: nat, limit: nat)
    requires cs != [] && 0 < depth <= limit
    ensures var below := if cs[0].IsDir()
                         then PreOrder(cs[0].kind.children, dir + [Lossy(cs[0].name)], depth + 1) else [];
            Shallow(PreOrder(cs, dir, depth), limit)
            == [Found(depth, Shows(dir, EntryOf(cs[0])), InodeOf(cs[0]))] + Shallow(below, limit)
               + Shallow(PreOrder(cs[1..], dir, depth), limit)
    ensures Shallow([], limit) == []
  {
    hide Shows, InodeOf, EntryOf, Lossy;
    var item := Found(depth, Shows(dir, EntryOf(cs[0])), InodeOf(cs[0]));
    var below := if cs[0].IsDir() then PreOrder(cs[0].kind.children, dir + [Lossy(cs[0].name)], depth + 1) else [];
    assert PreOrder(cs, dir, depth) == [item] + below + PreOrder(cs[1..], dir, depth);
    ShallowSplit([item] + below, PreOrder(cs[1..], dir, depth), limit);
    ShallowSplit([item], below, limit);
    ShallowOne(item, limit);
  }

  /** An explicit limit of `n > 0` lists exactly the first `n` levels. */
  lemma {:induction false} ExplicitDepthExact(cs: seq<Node>, dir: Path, depth: nat, limit: nat)
    requires 0 < depth <= limit
    ensures TreeWalk(cs, dir, depth, limit) == Shallow(PreOrder(cs, dir, depth), limit)
    decreases cs
  {
    hide Shows, InodeOf, EntryOf, Lossy, Then, TreeWalk, PreOrder, Shallow;
    if cs == [] {
      NothingWalked(dir, depth, limit);
    } else {
      var c := cs[0];
      var path := dir + [Lossy(c.name)];
      ExplicitDepthExact(cs[1..], dir, depth, limit);
      if c.IsDir() {
        if depth < limit {
          ExplicitDepthExact(c.kind.children, path, depth + 1, limit);
          ShallowFound(PreOrder(c.kind.children, path, depth + 1), limit);
        } else {
          TooDeep(c.kind.children, path, depth + 1, limit);
        }
      }
      WalkedFirst(cs, dir, depth, limit);
      ShallowFirst(cs, dir, depth, limit);
    }
  }

  /** An explicit limit never makes the walk fail. */
  lemma ExplicitDepthSucceeds(cs: seq<Node>, dir: Path, limit: nat)
    requires limit > 0
    ensures !EndsInError(TreeWalk(cs, dir, 1, limit))
  {
    ExplicitDepthExact(cs, dir, 1, limit);
    ShallowFound(PreOrder(cs, dir, 1), limit);
  }

  // ----- What lossy decoding means -----

  /** Every name below is valid UTF-8. */
  ghost predicate ValidNames(cs: seq<Node>)
    decreases cs
  {
    cs == [] || (ValidUtf8(cs[0].name) && (cs[0].IsDir() ==> ValidNames(cs[0].kind.children))
                 && ValidNames(cs[1..]))
  }

  /** The pre-order listing under the stored names. */
  function NamedOrder(cs: seq<Node>, dir: Path, depth: nat): seq<Item>
    decreases cs
  {
    if cs == [] then []
    else
      var c := cs[0];
      [Found(depth, DirEntry(dir, c.nid, c.GetFileType(), c.name), InodeOf(c))]
      + (if c.IsDir() then NamedOrder(c.kind.children, dir + [c.name], depth + 1) else [])
      + NamedOrder(cs[1..], dir, depth)
  }

  lemma {:induction false} OrderLength(cs: seq<Node>, dir: Path, dir': Path, depth: nat)
    ensures |PreOrder(cs, dir, depth)| == |NamedOrder(cs, dir', depth)| == CountAll(cs)
    decreases cs
  {
    if cs != [] {
      var c := cs[0];
      OrderLength(cs[1..], dir, dir', depth);
      if c.IsDir() { OrderLength(c.kind.children, dir + [Lossy(c.name)], dir' + [c.name], depth + 1); }
    }
  }

  lemma ConcatEqual<T>(a: seq<T>, b: seq<T>, c: seq<T>, d: seq<T>)
    requires |a| == |c|
    ensures a + b == c + d <==> a == c && b == d
  {
    if a + b == c + d {
      assert a == (a + b)[..|a|] && c == (c + d)[..|c|];
      assert b == (a + b)[|a|..] && d == (c + d)[|c|..];
    }
  }

  /** The walk shows every entry under its stored name exactly when all names are valid UTF-8. */
  lemma {:induction false} NamesExact(cs: seq<Node>, dir: Path, depth: nat)
    ensures PreOrder(cs, dir, depth) == NamedOrder(cs, dir, depth) <==> ValidNames(cs)
    decreases cs
  {
    hide Lossy, ValidUtf8;
    if cs != [] {
      var c := cs[0];
      var shown := Found(depth, Shows(dir, EntryOf(c)), InodeOf(c));
      var named := Found(depth, DirEntry(dir, c.nid, c.GetFileType(), c.name), InodeOf(c));
      var below := if c.IsDir() then PreOrder(c.kind.children, dir + [Lossy(c.name)], depth + 1) else [];
      var below' := if c.IsDir() then NamedOrder(c.kind.children, dir + [c.name], depth + 1) else [];
      var rest, rest' := PreOrder(cs[1..], dir, depth), NamedOrder(cs[1..], dir, depth);
      LossyIdentity(c.name);
      assert shown == named <==> ValidUtf8(c.name);
      NamesExact(cs[1..], dir, depth);
      if c.IsDir() {
        NamesExact(c.kind.children, dir + [c.name], depth + 1);
        OrderLength(c.kind.children, dir + [Lossy(c.name)], dir + [c.name], depth + 1);
      }
      ConcatEqual([shown] + below, rest, [named] + below', rest');
      ConcatEqual([shown], below, [named], below');
      assert [shown] == [named] <==> shown == named by { assert [shown][0] == shown && [named][0] == named; }
    }
  }
}
