/** The directory iterators and the recursive walker, as the objects the reader uses. */
module WalkDirs {
  import opened Bytes
  import opened Results
  import opened Types
  import Names
  import Utf8
  import opened Dirents
  import opened Reader
  import opened Lookup
  import opened Listings

  lemma NextReadable(data: seq<byte>, dirent: Dirent, i: nat, n: nat)
    requires i < n - 1 && RawName(data, dirent, i, n).Ok?
    ensures ReadNthDirent(data, i + 1).Ok?
  {
  }

  /** Iterates over one directory block. */
  class DirentBlock {
    const root: Path
    const data: seq<byte>
    const n: nat
    var dirent: Dirent
    var i: nat
    var poisoned: bool

    ghost predicate Valid()
      reads this
    {
      i <= n && (i < n ==> ReadNthDirent(data, i) == Ok(dirent))
    }

    /** What the block still lists; nothing once an error was reported. */
    ghost function Rest(): Listing
      reads this
      requires Valid()
    {
      if poisoned then EMPTY else BlockListing(root, data, i, n)
    }

    constructor (root: Path, data: seq<byte>, first: Dirent)
      requires ReadNthDirent(data, 0) == Ok(first)
      ensures Valid() && this.root == root && this.data == data && !poisoned
      ensures EntryCount(data) == Ok(n) && Rest() == BlockListing(root, data, 0, n)
    {
      this.root, this.data, n := root, data, first.nameOff / 12;
      dirent, i, poisoned := first, 0, false;
    }

    /** Advances to the next entry that is not a dot. On an error nothing past the skipped dots is
        committed: the cursor still points at the failing entry. */
    method TryNextEntry() returns (r: Outcome<Option<DirEntry>>)
      requires Valid() && !poisoned
      modifies this
      ensures Valid() && !poisoned
      ensures r.Err? ==> i < n && DecodeEntry(root, data, i, n) == Err(r.error)
      ensures r.Err? ==> old(Rest()) == Listing([], Some(r.error))
      ensures r.Ok? && r.value.None? ==> old(Rest()) == EMPTY == Rest()
      ensures r.Ok? && r.value.Some? ==>
        old(Rest()) == Listing([r.value.value] + Rest().entries, Rest().failure)
    {
      hide ReadNthDirent, RawName, Utf8.Display, Names.Slash;
      while i < n
        invariant Valid() && !poisoned
        invariant Rest() == old(Rest())
        decreases n - i
      {
        var current := dirent;
        var raw :- RawName(data, current, i, n);
        var name := Utf8.Display(raw);
        if Names.Slash(name) {
          return Err(NameHasSlash);
        }
        var fileType :- FileType.FromCode(current.fileType);
        if i < n - 1 {
          NextReadable(data, current, i, n);
          dirent := ReadNthDirent(data, i + 1).value;
        }
        i := i + 1;
        if !IsDots(name) {
          return Ok(Some(DirEntry(root, current.nid, fileType, name)));
        }
      }
      return Ok(None);
    }

    /** Fused iteration: after an error the block yields nothing more. */
    method NextEntry() returns (r: Outcome<Option<DirEntry>>)
      requires Valid()
      modifies this
      ensures Valid() && (poisoned <==> old(poisoned) || r.Err?)
      ensures r.Err? ==> old(Rest()) == Listing([], Some(r.error))
      ensures r.Ok? && r.value.None? ==> old(Rest()) == EMPTY == Rest()
      ensures r.Ok? && r.value.Some? ==>
        old(Rest()) == Listing([r.value.value] + Rest().entries, Rest().failure)
    {
      if poisoned {
        return Ok(None);
      }
      r := TryNextEntry();
      if r.Err? {
        poisoned := true;
      }
    }
  }

  lemma ChainCons(e: DirEntry, a: Listing, b: Listing)
    ensures Chain(Listing([e] + a.entries, a.failure), b)
            == Listing([e] + Chain(a, b).entries, Chain(a, b).failure)
  {
    assert [e] + a.entries + b.entries == [e] + (a.entries + b.entries);
  }

  lemma ChainEmpty(b: Listing)
    ensures Chain(EMPTY, b) == b
  {
    assert [] + b.entries == b.entries;
  }

  lemma ChainFailed(e: Error, b: Listing)
    ensures Chain(Listing([], Some(e)), b) == Listing([], Some(e))
  {
  }

  /** What the blocks from one inside the directory on list: that block, and then the ones behind it. */
  lemma BlocksAt(img: seq<byte>, core: Core, inode: Inode, dir: Path, offset: nat)
    requires core.blockSize > 0 && offset < inode.size
    ensures match GetInodeBlock(img, core, inode, offset)
            case Err(e) => BlocksListing(img, core, inode, dir, offset) == Listing([], Some(e))
            case Ok(block) =>
              match ReadNthDirent(block, 0)
              case Err(e) => BlocksListing(img, core, inode, dir, offset) == Listing([], Some(e))
              case Ok(_) =>
                EntryCount(block).Ok?
                && BlocksListing(img, core, inode, dir, offset)
                   == Chain(BlockListing(dir, block, 0, EntryCount(block).value),
                            BlocksListing(img, core, inode, dir, offset + |block|))
  {
    hide GetInodeBlock, ReadNthDirent, BlockListing, Chain;
  }

  lemma BlocksBehind(img: seq<byte>, core: Core, inode: Inode, dir: Path, offset: nat)
    requires core.blockSize > 0 && offset >= inode.size
    ensures BlocksListing(img, core, inode, dir, offset) == EMPTY
  {
  }

  /** Iterates over a directory, block after block. */
  class ReadDir {
    const img: seq<byte>
    const core: Core
    const inode: Inode
    const dir: Path
    var block: DirentBlock
    var offset: nat

    ghost predicate Valid()
      reads this, block
    {
      core.blockSize > 0 && block.Valid() && block.root == dir && |block.data| > 0
    }

    /** What the directory still lists. */
    ghost function Rest(): Listing
      reads this, block
      requires Valid()
    {
      if offset >= inode.size then EMPTY
      else Chain(block.Rest(), BlocksListing(img, core, inode, dir, offset + |block.data|))
    }

    constructor (img: seq<byte>, core: Core, inode: Inode, dir: Path, block: DirentBlock)
      requires core.blockSize > 0 && block.Valid() && block.root == dir && |block.data| > 0
      ensures Valid() && this.img == img && this.core == core && this.inode == inode && this.dir == dir
      ensures this.block == block && offset == 0
    {
      this.img, this.core, this.inode, this.dir := img, core, inode, dir;
      this.block, offset := block, 0;
    }

    /** Opens a directory, reading its first block at once. */
    static method New(img: seq<byte>, core: Core, inode: Inode, dir: Path) returns (r: Outcome<ReadDir>)
      requires core.blockSize > 0
      ensures r.Err? <==> OpenDir(img, core, inode, dir).Err?
      ensures r.Err? ==> OpenDir(img, core, inode, dir) == Err(r.error)
      ensures r.Ok? ==>
        && fresh(r.value) && fresh(r.value.block) && r.value.Valid()
        && r.value.img == img && r.value.core == core
        && OpenDir(img, core, inode, dir) == Ok(r.value.Rest())
    {
      hide GetInodeBlock, ReadNthDirent, BlockListing;
      var data :- GetInodeBlock(img, core, inode, 0);
      var first :- ReadNthDirent(data, 0);
      var block := new DirentBlock(dir, data, first);
      var rd := new ReadDir(img, core, inode, dir, block);
      return Ok(rd);
    }

    /** The next entry, loading the next block whenever one runs out. */
    method NextEntry() returns (r: Outcome<Option<DirEntry>>)
      requires Valid()
      modifies this, block
      ensures Valid() && (block == old(block) || fresh(block))
      ensures r.Err? ==> old(Rest()) == Listing([], Some(r.error))
      ensures r.Ok? && r.value.None? ==> old(Rest()) == EMPTY == Rest()
      ensures r.Ok? && r.value.Some? ==>
        old(Rest()) == Listing([r.value.value] + Rest().entries, Rest().failure)
    {
      hide GetInodeBlock, ReadNthDirent, BlockListing, BlocksListing, EntryCount, Chain;
      hide DirentBlock.Valid, DirentBlock.Rest;
      if offset >= inode.size {
        return Ok(None);
      }
      ghost var start := Rest();
      while offset < inode.size
        invariant Valid() && (block == old(block) || fresh(block))
        invariant Rest() == start
        decreases inode.size - offset
      {
        ghost var behind := BlocksListing(img, core, inode, dir, offset + |block.data|);
        var next := block.NextEntry();
        if next.Err? {
          ChainFailed(next.error, behind);
        }
        var entry :- next;
        if entry.Some? {
          ChainCons(entry.value, block.Rest(), behind);
          return Ok(entry);
        }
        ChainEmpty(behind);
        offset := offset + |block.data|;
        if offset >= inode.size {
          BlocksBehind(img, core, inode, dir, offset);
        } else {
          BlocksAt(img, core, inode, dir, offset);
          var data :- GetInodeBlock(img, core, inode, offset);
          var first :- ReadNthDirent(data, 0);
          block := new DirentBlock(dir, data, first);
        }
      }
      return Ok(None);
    }
  }

  datatype Frame = Frame(depth: nat, nid: nat, dir: ReadDir)

  ghost function FrameNids(stack: seq<Frame>): set<nat> {
    set k | 0 <= k < |stack| :: stack[k].nid
  }

  lemma FrameNidsPush(stack: seq<Frame>, f: Frame)
    ensures FrameNids(stack + [f]) == FrameNids(stack) + {f.nid}
  {
    var pushed := stack + [f];
    assert forall k :: 0 <= k < |stack| ==> pushed[k] == stack[k];
    assert pushed[|stack|] == f;
  }

  lemma NidsMatch(levels: seq<Level>, stack: seq<Frame>)
    requires |levels| == |stack|
    requires forall k :: 0 <= k < |stack| ==> levels[k].nid == stack[k].nid
    ensures Nids(levels) == FrameNids(stack)
  {
    forall x | x in FrameNids(stack) ensures x in Nids(levels) {
      var k :| 0 <= k < |stack| && stack[k].nid == x;
      assert levels[k].nid == x;
    }
  }

  ghost predicate DistinctNids(stack: seq<Frame>) {
    forall j, k :: 0 <= j < k < |stack| ==> stack[j].nid != stack[k].nid
  }

  lemma DistinctNidsPush(stack: seq<Frame>, f: Frame)
    requires DistinctNids(stack) && f.nid !in FrameNids(stack)
    ensures DistinctNids(stack + [f])
  {
  }

  lemma FrameNidsPop(stack: seq<Frame>)
    requires stack != [] && DistinctNids(stack)
    ensures DistinctNids(stack[..|stack| - 1])
    ensures FrameNids(stack[..|stack| - 1]) == FrameNids(stack) - {stack[|stack| - 1].nid}
  {
    var top := stack[|stack| - 1];
    assert stack == stack[..|stack| - 1] + [top];
    FrameNidsPush(stack[..|stack| - 1], top);
  }

  lemma EmptyStack(img: seq<byte>, core: Core, maxDepth: nat, levels: seq<Level>)
    requires core.blockSize > 0 && levels == []
    ensures WalkStack(img, core, maxDepth, levels) == []
  {
  }

  /** The recursive walker: a stack of open directories and the set of their nids. */
  class WalkDir {
    const img: seq<byte>
    const core: Core
    var stack: seq<Frame>
    var ancestors: set<nat>
    var maxDepth: nat
    var poisoned: bool
    /** The stack as values: what every open directory still lists. */
    ghost var levels: seq<Level>
    /** The iterator objects the open directories consist of. */
    ghost var Repr: set<object>

    /** Frame `k` is a valid iterator over this image, at depth `k + 1`. */
    ghost predicate FrameOk(k: nat)
      requires k < |stack| == |levels|
      reads this`stack, this`levels, this`Repr, Repr
    {
      && stack[k].dir in Repr && stack[k].dir.block in Repr
      && stack[k].dir.Valid() && stack[k].dir.img == img && stack[k].dir.core == core
      && levels[k] == Level(stack[k].nid, stack[k].dir.Rest())
      && stack[k].depth == k + 1
    }

    /** No iterator object serves two frames. */
    ghost predicate Separate()
      reads this`stack, this`Repr, Repr
    {
      forall j, k :: 0 <= j < k < |stack| && stack[j].dir in Repr && stack[k].dir in Repr ==>
        stack[j].dir != stack[k].dir && stack[j].dir.block != stack[k].dir.block
    }

    /** The safety invariant of every reachable state, on every image: depths count up from 1, the
        stack never exceeds the cap, and the ancestor set is exactly the distinct nids on the stack. */
    ghost predicate Valid()
      reads this, Repr
    {
      && core.blockSize > 0 && this !in Repr
      && |levels| == |stack| <= Cap(maxDepth)
      && (forall k :: 0 <= k < |stack| ==> FrameOk(k))
      && Separate()
      && DistinctNids(stack) && ancestors == FrameNids(stack)
    }

    /** Everything the walk is still going to yield. */
    ghost function Future(): seq<Item>
      reads this, Repr
      requires Valid()
    {
      if poisoned then [] else WalkStack(img, core, maxDepth, levels)
    }

    constructor (img: seq<byte>, core: Core, nid: nat, dir: ReadDir)
      requires core.blockSize > 0 && dir.Valid() && dir.img == img && dir.core == core
      ensures Valid() && !poisoned && maxDepth == 0 && this.img == img && this.core == core
      ensures Repr == {dir, dir.block} && levels == [Level(nid, dir.Rest())]
    {
      this.img, this.core := img, core;
      stack, ancestors, maxDepth, poisoned := [Frame(1, nid, dir)], {nid}, 0, false;
      levels, Repr := [Level(nid, dir.Rest())], {dir, dir.block};
      new;
      assert stack[0] == Frame(1, nid, dir);
    }

    /** Opens a walk at a path: the path must name a directory whose first block reads. */
    static method New(img: seq<byte>, core: Core, root: Path) returns (r: Outcome<WalkDir>)
      requires core.blockSize > 0
      ensures r.Ok? ==>
        var w := r.value;
        var start := ResolvePath(img, core, core.sb.rootNid, root);
        && fresh(w) && fresh(w.Repr) && w.Valid() && !w.poisoned && w.maxDepth == 0
        && w.img == img && w.core == core
        && start.Ok? && start.value.Some? && start.value.value.IsDir()
        && OpenDir(img, core, start.value.value, root).Ok?
        && w.levels == [Level(start.value.value.nid, OpenDir(img, core, start.value.value, root).value)]
      ensures r.Err? ==>
        var start := ResolvePath(img, core, core.sb.rootNid, root);
        match start
        case Err(e) => r.error == e
        case Ok(None) => r.error == PathNotFound
        case Ok(Some(inode)) =>
          if inode.IsDir() then OpenDir(img, core, inode, root) == Err(r.error) else r.error == NotADirectory
    {
      hide ResolvePath, OpenDir;
      var found :- GetPathInode(img, core, root);
      if found.None? {
        return Err(PathNotFound);
      }
      var inode := found.value;
      if !inode.IsDir() {
        return Err(NotADirectory);
      }
      var dir :- ReadDir.New(img, core, inode, root);
      var w := new WalkDir(img, core, inode.nid, dir);
      return Ok(w);
    }

    /** Limits the walk; zero asks for the default limit. */
    method MaxDepth(depth: nat)
      requires Valid() && |stack| <= Cap(depth)
      modifies this`maxDepth
      ensures Valid() && maxDepth == depth && levels == old(levels)
    {
      maxDepth := depth;
    }

    /** Opens one more directory below the innermost one. */
    method Push(nid: nat, dir: ReadDir)
      requires Valid() && nid !in ancestors && |stack| < Cap(maxDepth)
      requires dir.Valid() && dir.img == img && dir.core == core
      requires dir !in Repr && dir.block !in Repr
      modifies this`stack, this`ancestors, this`levels, this`Repr
      ensures Valid() && Repr == old(Repr) + {dir, dir.block}
      ensures levels == old(levels) + [Level(nid, dir.Rest())]
    {
      hide ReadDir.Valid, ReadDir.Rest, Cap, FrameNids;
      FrameNidsPush(stack, Frame(|stack| + 1, nid, dir));
      DistinctNidsPush(stack, Frame(|stack| + 1, nid, dir));
      stack := stack + [Frame(|stack| + 1, nid, dir)];
      ancestors := ancestors + {nid};
      levels := levels + [Level(nid, dir.Rest())];
      Repr := Repr + {dir, dir.block};
      assert forall k :: 0 <= k < |stack| - 1 ==> stack[k] == old(stack)[k] && old(FrameOk(k));
    }

    /** Closes the innermost directory. */
    method Pop()
      requires Valid() && stack != []
      modifies this`stack, this`ancestors, this`levels
      ensures Valid() && stack == old(stack)[..|old(stack)| - 1]
      ensures levels == old(levels)[..|old(levels)| - 1]
    {
      hide ReadDir.Valid, ReadDir.Rest, Cap, FrameNids;
      FrameNidsPop(stack);
      ancestors := ancestors - {stack[|stack| - 1].nid};
      stack := stack[..|stack| - 1];
      levels := levels[..|levels| - 1];
      assert forall k :: 0 <= k < |stack| ==> stack[k] == old(stack)[k] && old(FrameOk(k));
    }

    /** Takes the next entry of the innermost directory. */
    method NextOfTop() returns (r: Outcome<Option<DirEntry>>)
      requires Valid() && stack != []
      modifies Repr, this`levels, this`Repr
      ensures Valid() && fresh(Repr - old(Repr))
      ensures r.Err? ==> old(levels)[|stack| - 1].listing == Listing([], Some(r.error))
      ensures r.Ok? && r.value.None? ==> old(levels)[|stack| - 1].listing == EMPTY && levels == old(levels)
      ensures r.Ok? && r.value.Some? ==>
        && old(levels)[|stack| - 1].listing.entries != []
        && old(levels)[|stack| - 1].listing.entries[0] == r.value.value
        && levels == Advance(old(levels))
    {
      hide ReadDir.Valid, ReadDir.Rest, Cap, FrameNids, DistinctNids;
      var last := |stack| - 1;
      assert FrameOk(last);
      var top := stack[last].dir;
      forall k | 0 <= k < last ensures FrameOk(k) && stack[k].dir != top && stack[k].dir.block != top.block {
      }
      r := top.NextEntry();
      assert forall k :: 0 <= k < last ==>
        stack[k].dir.block == old(stack[k].dir.block) && stack[k].dir.block != top.block;
      Repr := Repr + {top.block};
      levels := levels[last := Level(stack[last].nid, top.Rest())];
      forall k | 0 <= k < last ensures FrameOk(k) && stack[k].dir.block == old(stack[k].dir.block) {
        assert old(FrameOk(k));
      }
    }

    /** Reacts to one entry of the innermost directory, at depth `depth`. */
    method GetWalkDirEntry(e: DirEntry, depth: nat) returns (r: Outcome<Item>)
      requires Valid() && stack != [] && depth == |stack|
      modifies this`stack, this`ancestors, this`levels, this`Repr
      ensures Valid() && fresh(Repr - old(Repr))
      ensures StepAt(img, core, maxDepth, e, depth, old(ancestors)).Stop? ==>
        r == Err(StepAt(img, core, maxDepth, e, depth, old(ancestors)).error)
      ensures StepAt(img, core, maxDepth, e, depth, old(ancestors)).Leaf? ==>
        r == Ok(StepAt(img, core, maxDepth, e, depth, old(ancestors)).item) && levels == old(levels)
      ensures StepAt(img, core, maxDepth, e, depth, old(ancestors)).Descend? ==>
        var s := StepAt(img, core, maxDepth, e, depth, old(ancestors));
        r == Ok(s.item) && levels == old(levels) + [Level(s.nid, s.listing)]
    {
      hide GetInode, OpenDir, ReadDir.Valid, ReadDir.Rest, Cap;
      var inode :- GetInode(img, core, e.nid);
      if e.fileType == Directory && depth < Cap(maxDepth) {
        if inode.nid in ancestors {
          return Err(TraversalCycle);
        }
        var child :- ReadDir.New(img, core, inode, e.GetPath());
        Push(inode.nid, child);
      } else if e.fileType == Directory && maxDepth == 0 {
        return Err(DepthLimit);
      }
      return Ok(Found(depth, e, inode));
    }

    lemma NidsAgree()
      requires Valid()
      ensures core.blockSize > 0 && this !in Repr && |levels| == |stack| && Nids(levels) == ancestors
      ensures stack != [] ==> stack[|stack| - 1].depth == |stack|
    {
      hide ReadDir.Valid, ReadDir.Rest, FrameNids, Nids, Cap, DistinctNids, Separate;
      forall k | 0 <= k < |stack| ensures levels[k].nid == stack[k].nid && stack[k].depth == k + 1 {
        assert FrameOk(k);
      }
      NidsMatch(levels, stack);
    }

    /** Yields an error and ends the walk. */
    method Fail(error: Error) returns (r: Option<Item>)
      requires Valid()
      modifies this`poisoned
      ensures Valid() && poisoned && r == Some(Failed(error))
    {
      hide Cap, FrameOk, Separate, FrameNids, DistinctNids;
      poisoned := true;
      r := Some(Failed(error));
    }

    /** One round of the iterator: the innermost directory yields an item or is closed. */
    method StepOnce() returns (r: Option<Item>)
      requires Valid() && stack != [] && !poisoned
      modifies this, Repr
      ensures Valid() && fresh(Repr - old(Repr)) && maxDepth == old(maxDepth)
      ensures r.None? ==> !poisoned && |stack| < |old(stack)| && Future() == old(Future())
      ensures r.Some? ==> old(Future()) != [] && r.value == old(Future())[0] && Future() == old(Future())[1..]
      ensures r.Some? ==> (poisoned <==> r.value.Failed?)
    {
      hide Valid, WalkStack, StepAt, Cap, Nids, Advance;
      NidsAgree();
      ghost var before := levels;
      var depth := stack[|stack| - 1].depth;
      var item := NextOfTop();
      NidsAgree();
      if item.Err? {
        FailureEnds(img, core, maxDepth, before);
        r := Fail(item.error);
        return;
      }
      if item.value.Some? {
        StepAdvances(img, core, maxDepth, before);
        var result := GetWalkDirEntry(item.value.value, depth);
        NidsAgree();
        if result.Err? {
          r := Fail(result.error);
          return;
        }
        return Some(result.value);
      }
      PopKeeps(img, core, maxDepth, before);
      Pop();
      return None;
    }

    /** The iterator: yields exactly the next item of the recursive traversal, then nothing for ever;
        after an error it is exhausted. Every call keeps the safety invariant. */
    method NextEntry() returns (r: Option<Item>)
      requires Valid()
      modifies this, Repr
      ensures Valid() && fresh(Repr - old(Repr)) && maxDepth == old(maxDepth)
      ensures old(Future()) == [] ==> r == None && Future() == []
      ensures old(Future()) != [] ==> r == Some(old(Future())[0]) && Future() == old(Future())[1..]
      ensures poisoned <==> old(poisoned) || (r.Some? && r.value.Failed?)
    {
      hide Valid, WalkStack;
      if poisoned {
        return None;
      }
      while stack != []
        invariant Valid() && !poisoned && maxDepth == old(maxDepth)
        invariant fresh(Repr - old(Repr))
        invariant Future() == old(Future())
        decreases |stack|
      {
        r := StepOnce();
        if r.Some? {
          return;
        }
      }
      NidsAgree();
      EmptyStack(img, core, maxDepth, levels);
      return None;
    }
  }

  lemma OneFits(walk: WalkDir, depth: nat)
    requires walk.Valid() && |walk.levels| == 1
    ensures |walk.stack| <= Cap(depth)
  {
  }

  /** Opens a walk, sets its limit and drives it to its end: it yields the whole recursive traversal. */
  method WalkAll(img: seq<byte>, core: Core, root: Path, maxDepth: nat) returns (r: Outcome<seq<Item>>)
    requires core.blockSize > 0
    ensures r.Ok? ==>
      var start := ResolvePath(img, core, core.sb.rootNid, root);
      && start.Ok? && start.value.Some? && start.value.value.IsDir()
      && OpenDir(img, core, start.value.value, root).Ok?
      && r.value == WalkStack(img, core, maxDepth,
                              [Level(start.value.value.nid, OpenDir(img, core, start.value.value, root).value)])
    ensures r.Err? ==>
      match ResolvePath(img, core, core.sb.rootNid, root)
      case Err(e) => r.error == e
      case Ok(None) => r.error == PathNotFound
      case Ok(Some(inode)) =>
        if inode.IsDir() then OpenDir(img, core, inode, root) == Err(r.error) else r.error == NotADirectory
  {
    hide ResolvePath, OpenDir, WalkStack, WalkDir.Valid;
    var walk :- WalkDir.New(img, core, root);
    OneFits(walk, maxDepth);
    walk.MaxDepth(maxDepth);
    ghost var all := walk.Future();
    var items: seq<Item> := [];
    var next := walk.NextEntry();
    while next.Some?
      invariant walk.Valid() && fresh(walk) && fresh(walk.Repr)
      invariant all == items + (if next.Some? then [next.value] else []) + walk.Future()
      invariant next.None? ==> walk.Future() == []
      decreases next.Some?, |walk.Future()|
    {
      items := items + [next.value];
      next := walk.NextEntry();
    }
    return Ok(items);
  }
}
