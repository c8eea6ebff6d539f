/** What a directory lists and what a walk yields, as functions of the image. */
module Listings {
  import opened Bytes
  import opened Results
  import opened Types
  import opened Names
  import Utf8
  import Dirents
  import opened Reader

  type Path = seq<Name>

  datatype DirEntry = DirEntry(dir: Path, nid: nat, fileType: FileType, fileName: Name) {
    function GetPath(): Path {
      dir + [fileName]
    }
  }

  /** Entries in order, and the error that cuts the listing short, if any. */
  datatype Listing = Listing(entries: seq<DirEntry>, failure: Option<Error>)

  const EMPTY: Listing := Listing([], None)

  function Chain(a: Listing, b: Listing): Listing {
    if a.failure.Some? then a else Listing(a.entries + b.entries, b.failure)
  }

  /** Decodes entry `i` of `n`; the checks run in the iterator's order. */
  function DecodeEntry(dir: Path, data: seq<byte>, i: nat, n: nat): Outcome<DirEntry>
    requires i < n
  {
    var dirent :- Dirents.ReadNthDirent(data, i);
    var raw :- Dirents.RawName(data, dirent, i, n);
    var name := Utf8.Display(raw);
    if Slash(name) then Err(NameHasSlash)
    else
      var fileType :- FileType.FromCode(dirent.fileType);
      Ok(DirEntry(dir, dirent.nid, fileType, name))
  }

  predicate IsDots(name: Name) {
    name == DOT || name == DOTDOT
  }

  /** What is left of a block from entry `i` on, dots dropped. */
  function BlockListing(dir: Path, data: seq<byte>, i: nat, n: nat): Listing
    requires i <= n
    decreases n - i
  {
    if i == n then EMPTY
    else match DecodeEntry(dir, data, i, n)
      case Err(e) => Listing([], Some(e))
      case Ok(entry) =>
        var rest := BlockListing(dir, data, i + 1, n);
        if IsDots(entry.fileName) then rest else Listing([entry] + rest.entries, rest.failure)
  }

  /** What the directory's blocks from file offset `offset` on list. */
  function BlocksListing(img: seq<byte>, core: Core, inode: Inode, dir: Path, offset: nat): Listing
    requires core.blockSize > 0
    decreases if offset < inode.size then inode.size - offset else 0
  {
    if offset >= inode.size then EMPTY
    else match GetInodeBlock(img, core, inode, offset)
      case Err(e) => Listing([], Some(e))
      case Ok(block) =>
        match Dirents.EntryCount(block)
        case Err(e) => Listing([], Some(e))
        case Ok(n) => Chain(BlockListing(dir, block, 0, n), BlocksListing(img, core, inode, dir, offset + |block|))
  }

  /** Opening a directory reads its first block at once; later blocks are read on demand. */
  function OpenDir(img: seq<byte>, core: Core, inode: Inode, dir: Path): Outcome<Listing>
    requires core.blockSize > 0
  {
    var block :- GetInodeBlock(img, core, inode, 0);
    var n :- Dirents.EntryCount(block);
    Ok(BlocksListing(img, core, inode, dir, 0))
  }

  // ----- The walk -----

  const DEFAULT_MAX_DEPTH: nat := 256

  function Cap(maxDepth: nat): nat {
    if maxDepth == 0 then DEFAULT_MAX_DEPTH else maxDepth
  }

  /** One thing a walk yields: an entry with its depth and inode, or the error that ends it. */
  datatype Item = Found(depth: nat, entry: DirEntry, inode: Inode) | Failed(error: Error)

  /** `a`, and then `b` unless `a` ended in an error. */
  function Then(a: seq<Item>, b: seq<Item>): seq<Item> {
    if a != [] && a[|a| - 1].Failed? then a else a + b
  }

  /** What processing one entry at `depth` leads to. */
  datatype Step =
    | Leaf(item: Item)
    | Descend(item: Item, nid: nat, listing: Listing)
    | Stop(error: Error)

  function StepAt(img: seq<byte>, core: Core, maxDepth: nat, e: DirEntry, depth: nat, ancestors: set<nat>)
    : (s: Step)
    requires core.blockSize > 0
    ensures s.Descend? ==> depth < Cap(maxDepth) && s.nid !in ancestors && s.nid == e.nid
    ensures !s.Stop? ==> s.item.Found? && s.item.depth == depth
  {
    match GetInode(img, core, e.nid)
    case Err(error) => Stop(error)
    case Ok(inode) =>
      if e.fileType == Directory && depth < Cap(maxDepth) then
        if inode.nid in ancestors then Stop(TraversalCycle)
        else match OpenDir(img, core, inode, e.GetPath())
          case Err(error) => Stop(error)
          case Ok(listing) => Descend(Found(depth, e, inode), inode.nid, listing)
      else if e.fileType == Directory && maxDepth == 0 then Stop(DepthLimit)
      else Leaf(Found(depth, e, inode))
  }

  /** Recursive pre-order traversal of a listing: the meaning of a walk. */
  function Walk(img: seq<byte>, core: Core, maxDepth: nat, listing: Listing, depth: nat, ancestors: set<nat>)
    : seq<Item>
    requires core.blockSize > 0
    decreases if depth < Cap(maxDepth) then Cap(maxDepth) - depth else 0, |listing.entries|
  {
    if listing.entries == [] then
      if listing.failure.Some? then [Failed(listing.failure.value)] else []
    else
      var rest := listing.(entries := listing.entries[1..]);
      match StepAt(img, core, maxDepth, listing.entries[0], depth, ancestors)
      case Stop(error) => [Failed(error)]
      case Leaf(item) => [item] + Walk(img, core, maxDepth, rest, depth, ancestors)
      case Descend(item, nid, below) =>
        [item] + Then(Walk(img, core, maxDepth, below, depth + 1, ancestors + {nid}),
                      Walk(img, core, maxDepth, rest, depth, ancestors))
  }

  /** One open directory of the walker: its inode and what it still has to list. */
  datatype Level = Level(nid: nat, listing: Listing)

  ghost function Nids(levels: seq<Level>): set<nat> {
    set i | 0 <= i < |levels| :: levels[i].nid
  }

  /** What a stack of open directories still yields, innermost first. */
  ghost function WalkStack(img: seq<byte>, core: Core, maxDepth: nat, levels: seq<Level>): seq<Item>
    requires core.blockSize > 0
  {
    if levels == [] then []
    else
      var top := levels[|levels| - 1];
      Then(Walk(img, core, maxDepth, top.listing, |levels|, Nids(levels)),
           WalkStack(img, core, maxDepth, levels[..|levels| - 1]))
  }

  lemma ThenAssoc(a: seq<Item>, b: seq<Item>, c: seq<Item>)
    ensures Then(Then(a, b), c) == Then(a, Then(b, c))
  {
    if a != [] && a[|a| - 1].Failed? {
    } else if b == [] {
      assert a + b == a;
    } else {
      assert (a + b)[|a + b| - 1] == b[|b| - 1];
      assert a + b + c == a + (b + c);
    }
  }

  lemma ThenCons(x: Item, a: seq<Item>, b: seq<Item>)
    requires x.Found?
    ensures Then([x] + a, b) == [x] + Then(a, b)
  {
    assert [x] + a + b == [x] + (a + b);
    if a != [] { assert ([x] + a)[|[x] + a| - 1] == a[|a| - 1]; }
  }

  /** The stack after its innermost directory advanced by one entry. */
  ghost function Advance(levels: seq<Level>): seq<Level>
    requires levels != [] && levels[|levels| - 1].listing.entries != []
  {
    var top := levels[|levels| - 1];
    levels[..|levels| - 1] + [top.(listing := top.listing.(entries := top.listing.entries[1..]))]
  }

  /** Popping an exhausted directory changes nothing about what is still to come. */
  lemma PopKeeps(img: seq<byte>, core: Core, maxDepth: nat, levels: seq<Level>)
    requires core.blockSize > 0 && levels != []
    requires levels[|levels| - 1].listing == EMPTY
    ensures WalkStack(img, core, maxDepth, levels) == WalkStack(img, core, maxDepth, levels[..|levels| - 1])
  {
    assert [] + WalkStack(img, core, maxDepth, levels[..|levels| - 1])
           == WalkStack(img, core, maxDepth, levels[..|levels| - 1]);
  }

  /** A listing error ends the walk. */
  lemma FailureEnds(img: seq<byte>, core: Core, maxDepth: nat, levels: seq<Level>)
    requires core.blockSize > 0 && levels != []
    requires levels[|levels| - 1].listing.entries == [] && levels[|levels| - 1].listing.failure.Some?
    ensures WalkStack(img, core, maxDepth, levels) == [Failed(levels[|levels| - 1].listing.failure.value)]
  {
  }

  /** One entry of the innermost directory: exactly the walker's three reactions. */
  ghost function StackStep(img: seq<byte>, core: Core, maxDepth: nat, levels: seq<Level>): seq<Item>
    requires core.blockSize > 0 && levels != [] && levels[|levels| - 1].listing.entries != []
  {
    match StepAt(img, core, maxDepth, levels[|levels| - 1].listing.entries[0], |levels|, Nids(levels))
    case Stop(error) => [Failed(error)]
    case Leaf(item) => [item] + WalkStack(img, core, maxDepth, Advance(levels))
    case Descend(item, nid, below) =>
      [item] + WalkStack(img, core, maxDepth, Advance(levels) + [Level(nid, below)])
  }

  lemma ThenFailed(error: Error, b: seq<Item>)
    ensures Then([Failed(error)], b) == [Failed(error)]
  {
  }

  lemma NidsAdvance(levels: seq<Level>)
    requires levels != [] && levels[|levels| - 1].listing.entries != []
    ensures Nids(Advance(levels)) == Nids(levels)
  {
    var next := Advance(levels);
    assert forall i :: 0 <= i < |levels| ==> next[i].nid == levels[i].nid;
  }

  lemma NidsPush(levels: seq<Level>, level: Level)
    ensures Nids(levels + [level]) == Nids(levels) + {level.nid}
  {
    var pushed := levels + [level];
    assert forall i :: 0 <= i < |levels| ==> pushed[i] == levels[i];
    assert pushed[|levels|] == level;
  }

  /** The walker's one step and the recursive meaning of its stack agree. */
  lemma StepAdvances(img: seq<byte>, core: Core, maxDepth: nat, levels: seq<Level>)
    requires core.blockSize > 0 && levels != [] && levels[|levels| - 1].listing.entries != []
    ensures WalkStack(img, core, maxDepth, levels) == StackStep(img, core, maxDepth, levels)
  {
    hide StepAt, Then, Nids;
    var top := levels[|levels| - 1];
    var lower := levels[..|levels| - 1];
    var rest := top.listing.(entries := top.listing.entries[1..]);
    var next := Advance(levels);
    NidsAdvance(levels);
    assert next[..|next| - 1] == lower && next[|next| - 1].listing == rest;
    var below := WalkStack(img, core, maxDepth, lower);
    var after := Walk(img, core, maxDepth, rest, |levels|, Nids(levels));
    assert WalkStack(img, core, maxDepth, next) == Then(after, below);
    match StepAt(img, core, maxDepth, top.listing.entries[0], |levels|, Nids(levels))
    case Stop(error) =>
      ThenFailed(error, below);
    case Leaf(item) =>
      ThenCons(item, after, below);
    case Descend(item, nid, listing) =>
      var inner := Walk(img, core, maxDepth, listing, |levels| + 1, Nids(levels) + {nid});
      var pushed := next + [Level(nid, listing)];
      NidsPush(next, Level(nid, listing));
      assert pushed[..|pushed| - 1] == next && pushed[|pushed| - 1] == Level(nid, listing);
      assert WalkStack(img, core, maxDepth, pushed) == Then(inner, WalkStack(img, core, maxDepth, next));
      ThenCons(item, Then(inner, after), below);
      ThenAssoc(inner, after, below);
  }

  ghost predicate IsOpen(levels: seq<Level>, nid: nat) {
    exists k :: 0 <= k < |levels| && levels[k].nid == nid
  }

  /** What a walk does at the next entry of its innermost directory. An inode that cannot be read ends it. A
      directory within the cap that is open already ends it with the cycle error; another one is yielded and
      its listing comes first, unless opening it fails and ends the walk. At the cap a directory ends the walk
      if the cap is the default one. Everything else is yielded and passed. */
  ghost function Met(img: seq<byte>, core: Core, maxDepth: nat, levels: seq<Level>, e: DirEntry): seq<Item>
    requires core.blockSize > 0 && levels != [] && levels[|levels| - 1].listing.entries != []
  {
    var depth, cap := |levels|, if maxDepth == 0 then 256 else maxDepth;
    match GetInode(img, core, e.nid)
    case Err(error) => [Failed(error)]
    case Ok(inode) =>
      if e.fileType == Directory && depth < cap then
        if IsOpen(levels, inode.nid) then [Failed(TraversalCycle)]
        else match OpenDir(img, core, inode, e.GetPath())
          case Err(error) => [Failed(error)]
          case Ok(listing) =>
            [Found(depth, e, inode)] + WalkStack(img, core, maxDepth, Advance(levels) + [Level(inode.nid, listing)])
      else if e.fileType == Directory && maxDepth == 0 then [Failed(DepthLimit)]
      else [Found(depth, e, inode)] + WalkStack(img, core, maxDepth, Advance(levels))
  }

  lemma WalkMeets(img: seq<byte>, core: Core, maxDepth: nat, levels: seq<Level>, e: DirEntry)
    requires core.blockSize > 0 && levels != [] && levels[|levels| - 1].listing.entries != []
    requires e == levels[|levels| - 1].listing.entries[0]
    ensures WalkStack(img, core, maxDepth, levels) == Met(img, core, maxDepth, levels, e)
  {
    hide GetInode, OpenDir, WalkStack, Advance;
    StepAdvances(img, core, maxDepth, levels);
  }

  /** Depths stay between `low` and `high`, and only the last item can be an error. */
  ghost predicate WellShaped(items: seq<Item>, low: nat, high: nat) {
    forall k :: 0 <= k < |items| ==>
      if items[k].Found? then low <= items[k].depth <= high else k == |items| - 1
  }

  lemma ThenShaped(a: seq<Item>, b: seq<Item>, low: nat, high: nat)
    requires WellShaped(a, low, high) && WellShaped(b, low, high)
    ensures WellShaped(Then(a, b), low, high)
  {
    var c := a + b;
    assert forall k :: 0 <= k < |a| ==> c[k] == a[k];
    assert forall k :: 0 <= k < |b| ==> c[|a| + k] == b[k];
    if !(a != [] && a[|a| - 1].Failed?) {
      forall k | 0 <= k < |c|
        ensures if c[k].Found? then low <= c[k].depth <= high else k == |c| - 1
      {
        if k >= |a| {
          assert c[k] == b[k - |a|];
        }
      }
    }
  }

  lemma ConsShaped(x: Item, a: seq<Item>, low: nat, high: nat)
    requires x.Found? && low <= x.depth <= high && WellShaped(a, low, high)
    ensures WellShaped([x] + a, low, high)
  {
    assert forall k :: 1 <= k < |a| + 1 ==> ([x] + a)[k] == a[k - 1];
  }

  lemma EndShaped(low: nat, high: nat)
    ensures WellShaped([], low, high)
  {
  }

  lemma FailureShaped(error: Error, low: nat, high: nat)
    ensures WellShaped([Failed(error)], low, high)
  {
  }

  lemma DeeperShaped(items: seq<Item>, low: nat, high: nat)
    requires WellShaped(items, low + 1, high)
    ensures WellShaped(items, low, high)
  {
  }

  /** On every image, whatever its directories point at: the walk of a listing ends, never leaves the
      depth cap, and reports at most one error, as its last item. */
  lemma {:induction false} WalkShape(
      img: seq<byte>, core: Core, maxDepth: nat, listing: Listing, depth: nat, ancestors: set<nat>)
    requires core.blockSize > 0 && depth <= Cap(maxDepth)
    ensures WellShaped(Walk(img, core, maxDepth, listing, depth, ancestors), depth, Cap(maxDepth))
    decreases Cap(maxDepth) - depth, |listing.entries|
  {
    hide StepAt, WellShaped, Then;
    var high := Cap(maxDepth);
    if listing.entries == [] {
      EndShaped(depth, high);
    } else {
      var rest := listing.(entries := listing.entries[1..]);
      WalkShape(img, core, maxDepth, rest, depth, ancestors);
      var after := Walk(img, core, maxDepth, rest, depth, ancestors);
      match StepAt(img, core, maxDepth, listing.entries[0], depth, ancestors)
      case Stop(error) =>
        FailureShaped(error, depth, high);
      case Leaf(item) =>
        ConsShaped(item, after, depth, high);
      case Descend(item, nid, below) =>
        WalkShape(img, core, maxDepth, below, depth + 1, ancestors + {nid});
        var inner := Walk(img, core, maxDepth, below, depth + 1, ancestors + {nid});
        DeeperShaped(inner, depth, high);
        ThenShaped(inner, after, depth, high);
        ConsShaped(item, Then(inner, after), depth, high);
    }
    if listing.entries == [] && listing.failure.Some? {
      FailureShaped(listing.failure.value, depth, high);
    }
  }

  lemma ShapedFrom(items: seq<Item>, low: nat, high: nat)
    requires WellShaped(items, low, high) && low >= 1
    ensures WellShaped(items, 1, high)
  {
  }

  /** So does the whole of what a stack of open directories still yields. */
  lemma {:induction false} StackShape(img: seq<byte>, core: Core, maxDepth: nat, levels: seq<Level>)
    requires core.blockSize > 0 && |levels| <= Cap(maxDepth)
    ensures WellShaped(WalkStack(img, core, maxDepth, levels), 1, Cap(maxDepth))
  {
    hide Walk, WellShaped, Then, Nids;
    if levels == [] {
      EndShaped(1, Cap(maxDepth));
    } else {
      var top := levels[|levels| - 1];
      WalkShape(img, core, maxDepth, top.listing, |levels|, Nids(levels));
      ShapedFrom(Walk(img, core, maxDepth, top.listing, |levels|, Nids(levels)), |levels|, Cap(maxDepth));
      StackShape(img, core, maxDepth, levels[..|levels| - 1]);
      ThenShaped(Walk(img, core, maxDepth, top.listing, |levels|, Nids(levels)),
                 WalkStack(img, core, maxDepth, levels[..|levels| - 1]), 1, Cap(maxDepth));
    }
  }
}
