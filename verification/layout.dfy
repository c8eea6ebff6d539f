/** Numbering and placing the builder's tree, and where that puts every inode and payload. */
module Layout {
  import Arithmetic
  import opened Bytes
  import Results
  import opened Types
  import opened DirPacking
  import opened Trees

  lemma NumberAllStep(cs: seq<Node>, nid: nat, ino: nat)
    requires cs != []
    ensures NumberAll(cs, nid, ino)
            == [Number(cs[0], nid, ino)]
               + NumberAll(cs[1..], nid + 2 * Count(cs[0]), (ino + Count(cs[0])) % 0x1_0000_0000)
    ensures CountAll(cs) == Count(cs[0]) + CountAll(cs[1..])
  {
  }

  lemma NumberShape(n: Node, nid: nat, ino: nat)
    ensures Count(n) == 1 + if n.IsDir() then CountAll(n.kind.children) else 0
    ensures Number(n, nid, ino)
            == n.(nid := nid, ino := ino,
                  kind := if n.IsDir()
                          then n.kind.(children := NumberAll(n.kind.children, nid + 2, (ino + 1) % 0x1_0000_0000))
                          else n.kind)
  {
  }

  lemma NumberAllNone(cs: seq<Node>, nid: nat, ino: nat)
    requires cs == []
    ensures CountAll(cs) == 0 && NumberAll(cs, nid, ino) == []
  {
  }

  lemma WrapAdd(a: nat, b: nat)
    ensures (a % 0x1_0000_0000 + b) % 0x1_0000_0000 == (a + b) % 0x1_0000_0000
  {
  }

  /** Assigns nids and inode numbers in pre-order, advancing both cursors. */
  method AssignNids(node: Node, nidCursor: nat, inoCursor: u32) returns (r: Node, nid: nat, ino: u32)
    ensures r == Number(node, nidCursor, inoCursor)
    ensures nid == nidCursor + 2 * Count(node)
    ensures ino == (inoCursor + Count(node)) % 0x1_0000_0000
    decreases node
  {
    hide Number, Count, NumberAll, CountAll;
    NumberShape(node, nidCursor, inoCursor);
    r := node.(nid := nidCursor, ino := inoCursor);
    nid := nidCursor + 2;
    ino := (inoCursor + 1) % 0x1_0000_0000;
    if node.IsDir() {
      var children := node.kind.children;
      var done: seq<Node> := [];
      ghost var counted: nat := 0;
      assert children[0..] == children;
      for i := 0 to |children|
        invariant NumberAll(children, nidCursor + 2, (inoCursor + 1) % 0x1_0000_0000)
                  == done + NumberAll(children[i..], nid, ino)
        invariant CountAll(children) == counted + CountAll(children[i..])
        invariant nid == nidCursor + 2 * (1 + counted)
        invariant ino == (inoCursor + (1 + counted)) % 0x1_0000_0000
      {
        var child := children[i];
        assert children[i..][0] == child && children[i..][1..] == children[i + 1..];
        NumberAllStep(children[i..], nid, ino);
        WrapAdd(inoCursor + (1 + counted), Count(child));
        var c;
        c, nid, ino := AssignNids(child, nid, ino);
        done := done + [c];
        counted := counted + Count(child);
      }
      NumberAllNone(children[|children|..], nid, ino);
      assert done + [] == done;
      r := r.(kind := r.kind.(children := done));
    }
  }

  /** Appending the placement of the remaining children to what is already placed. */
  function Append(done: seq<Node>, rest: Built<(seq<Node>, nat)>): Built<(seq<Node>, nat)> {
    var r :- rest;
    Results.Ok((done + r.0, r.1))
  }

  lemma AppendNone(rest: Built<(seq<Node>, nat)>)
    ensures Append([], rest) == rest
  {
    if rest.Ok? { assert [] + rest.value.0 == rest.value.0; }
  }

  lemma AppendStep(done: seq<Node>, cs: seq<Node>, parentNid: nat, cursor: nat)
    requires cs != [] && BoundedAll(cs)
    ensures Append(done, PlaceAll(cs, parentNid, cursor))
            == (var first :- Place(cs[0], parentNid, cursor);
                Append(done + [first.0], PlaceAll(cs[1..], parentNid, first.1)))
  {
    hide Place;
    var first := Place(cs[0], parentNid, cursor);
    if first.Ok? {
      var rest := PlaceAll(cs[1..], parentNid, first.value.1);
      if rest.Ok? {
        assert done + ([first.value.0] + rest.value.0) == done + [first.value.0] + rest.value.0;
      }
    }
  }

  /** The layout pass: computes `Place`, one subtree after the other. */
  method LayOut(node: Node, parentNid: nat, blockCursor: nat) returns (r: Built<(Node, nat)>)
    requires Bounded(node)
    ensures r == Place(node, parentNid, blockCursor)
    decreases node
  {
    hide DirEntries, Blocks, DirBytes, LogicalSize, BlocksFit;
    match node.kind
    case DirKind(children, _) =>
      DirEntriesPackable(node.nid, parentNid, children);
      var entries := DirEntries(node.nid, parentNid, children);
      var data, size := EncodeDirents(entries);
      var taken :- TakeBlocks(blockCursor, |data|);
      var cursor := taken.1;
      var done: seq<Node> := [];
      assert children[0..] == children;
      AppendNone(PlaceAll(children, node.nid, cursor));
      for i := 0 to |children|
        invariant BoundedAll(children[i..])
        invariant PlaceAll(children, node.nid, taken.1)
                  == Append(done, PlaceAll(children[i..], node.nid, cursor))
      {
        var child := children[i];
        assert children[i..][0] == child && children[i..][1..] == children[i + 1..];
        AppendStep(done, children[i..], node.nid, cursor);
        var placed :- LayOut(child, node.nid, cursor);
        cursor := placed.1;
        done := done + [placed.0];
      }
      assert children[|children|..] == [];
      assert done + [] == done;
      return Results.Ok((node.(size := size, blkaddr := taken.0, kind := DirKind(done, data)), cursor));
    case _ =>
      if node.size > 0 {
        var taken :- TakeBlocks(blockCursor, node.size);
        return Results.Ok((node.(blkaddr := taken.0), taken.1));
      }
      return Results.Ok((node, blockCursor));
  }

  // ----- Where everything ends up -----

  /** Nids of the subtree are its pre-order positions from `nid` on, two slots apart. */
  ghost predicate Numbered(n: Node, nid: nat)
    decreases n
  {
    n.nid == nid && (n.IsDir() ==> NumberedAll(n.kind.children, nid + 2))
  }

  ghost predicate NumberedAll(cs: seq<Node>, nid: nat)
    decreases cs
  {
    cs == [] || (Numbered(cs[0], nid) && NumberedAll(cs[1..], nid + 2 * Count(cs[0])))
  }

  /** What the builder keeps of a node: all but the placement it computes. */
  function Strip(n: Node): Node
    decreases n
  {
    match n.kind
    case DirKind(children, _) =>
      n.(nid := 0, ino := 0, size := 0, blkaddr := NULL_BLOCK_ADDR, kind := DirKind(StripAll(children), []))
    case _ => n.(nid := 0, ino := 0, blkaddr := NULL_BLOCK_ADDR)
  }

  function StripAll(cs: seq<Node>): (r: seq<Node>)
    ensures |r| == |cs|
    ensures forall i :: 0 <= i < |cs| ==> r[i] == Strip(cs[i])
    decreases cs
  {
    if cs == [] then [] else [Strip(cs[0])] + StripAll(cs[1..])
  }

  lemma {:induction false} NumberNumbers(n: Node, nid: nat, ino: nat)
    requires Bounded(n) && ino <= U32_MAX
    ensures var m := Number(n, nid, ino);
            Numbered(m, nid) && Bounded(m) && Count(m) == Count(n) && Strip(m) == Strip(n)
    decreases n
  {
    if n.IsDir() {
      NumberAllNumbers(n.kind.children, nid + 2, (ino + 1) % 0x1_0000_0000);
    }
  }

  lemma {:induction false} NumberAllNumbers(cs: seq<Node>, nid: nat, ino: nat)
    requires BoundedAll(cs) && ino <= U32_MAX
    ensures var ms := NumberAll(cs, nid, ino);
            NumberedAll(ms, nid) && BoundedAll(ms) && CountAll(ms) == CountAll(cs)
            && StripAll(ms) == StripAll(cs)
    decreases cs
  {
    if cs != [] {
      var ino' := (ino + Count(cs[0])) % 0x1_0000_0000;
      NumberNumbers(cs[0], nid, ino);
      NumberAllNumbers(cs[1..], nid + 2 * Count(cs[0]), ino');
      assert NumberAll(cs, nid, ino)[1..] == NumberAll(cs[1..], nid + 2 * Count(cs[0]), ino');
    }
  }

  /** The payload bytes a node stores in data blocks. */
  function Payload(n: Node): seq<byte> {
    match n.kind
    case DirKind(_, data) => data
    case FileKind(content) => content
    case LinkKind(target) => target
  }

  /** The length its data blocks are reserved for: a file's size is the scanned one. */
  function PayloadLen(n: Node): nat {
    if n.IsDir() then |n.kind.data| else n.size
  }

  function OwnBlocks(n: Node): nat {
    Arithmetic.DivCeil(PayloadLen(n), BLOCK_SIZE)
  }

  /** Data blocks of a whole subtree: the sum of the rounded-up payloads. */
  function Extent(n: Node): nat
    decreases n
  {
    OwnBlocks(n) + if n.IsDir() then ExtentAll(n.kind.children) else 0
  }

  function ExtentAll(cs: seq<Node>): nat
    decreases cs
  {
    if cs == [] then 0 else Extent(cs[0]) + ExtentAll(cs[1..])
  }

  /** A directory's stored bytes and size are those of its sorted entries, packed. */
  ghost predicate DirStored(n: Node, parent: nat)
    requires n.IsDir()
  {
    var blocks := Blocks(DirEntries(n.nid, parent, n.kind.children));
    BlocksFit(blocks) && n.kind.data == DirBytes(blocks) && n.size == LogicalSize(blocks)
  }

  /** The subtree is numbered from slot `nid` and its payloads lie in pre-order from block `lo`. */
  ghost predicate Laid(n: Node, nid: nat, parent: nat, lo: nat)
    decreases n
  {
    && n.nid == nid
    && (if PayloadLen(n) > 0 then n.blkaddr == lo <= U32_MAX else true)
    && (n.IsDir() ==> DirStored(n, parent) && LaidAll(n.kind.children, nid + 2, nid, lo + OwnBlocks(n)))
  }

  ghost predicate LaidAll(cs: seq<Node>, nid: nat, parent: nat, lo: nat)
    decreases cs
  {
    cs == [] || (Laid(cs[0], nid, parent, lo)
                 && LaidAll(cs[1..], nid + 2 * Count(cs[0]), parent, lo + Extent(cs[0])))
  }

  lemma EntriesFollow(cs: seq<Node>, ms: seq<Node>)
    requires |cs| == |ms|
    requires forall i :: 0 <= i < |cs| ==> EntryOf(cs[i]) == EntryOf(ms[i])
    ensures EntriesOf(cs) == EntriesOf(ms)
  {
  }

  lemma DirEntriesFollow(nid: nat, parent: nat, cs: seq<Node>, ms: seq<Node>)
    requires |cs| == |ms|
    requires forall i :: 0 <= i < |cs| ==> EntryOf(cs[i]) == EntryOf(ms[i])
    ensures DirEntries(nid, parent, cs) == DirEntries(nid, parent, ms)
  {
    EntriesFollow(cs, ms);
  }

  lemma {:induction false} PlaceLays(n: Node, nid: nat, parent: nat, lo: nat)
    requires Bounded(n) && Numbered(n, nid) && Place(n, parent, lo).Ok?
    ensures var (m, hi) := Place(n, parent, lo).value;
            && Laid(m, nid, parent, lo) && hi == lo + Extent(m)
            && Count(m) == Count(n) && EntryOf(m) == EntryOf(n) && Strip(m) == Strip(n) && Bounded(m)
    decreases n
  {
    hide DirEntries, Blocks, DirBytes, LogicalSize, BlocksFit;
    if n.IsDir() {
      var children := n.kind.children;
      DirEntriesPackable(n.nid, parent, children);
      var blocks := Blocks(DirEntries(n.nid, parent, children));
      var own := Arithmetic.DivCeil(|DirBytes(blocks)|, BLOCK_SIZE);
      PlaceAllLays(children, nid + 2, nid, lo + own);
      var (m, hi) := Place(n, parent, lo).value;
      DirEntriesFollow(n.nid, parent, children, m.kind.children);
    }
  }

  lemma {:induction false} PlaceAllLays(cs: seq<Node>, nid: nat, parent: nat, lo: nat)
    requires BoundedAll(cs) && NumberedAll(cs, nid) && PlaceAll(cs, parent, lo).Ok?
    ensures var (ms, hi) := PlaceAll(cs, parent, lo).value;
            && LaidAll(ms, nid, parent, lo) && hi == lo + ExtentAll(ms)
            && CountAll(ms) == CountAll(cs) && StripAll(ms) == StripAll(cs) && BoundedAll(ms)
            && |ms| == |cs| && forall i :: 0 <= i < |cs| ==> EntryOf(cs[i]) == EntryOf(ms[i])
    decreases cs
  {
    hide Place, EntryOf, Laid, Extent, Count, Strip, Bounded, Numbered;
    if cs != [] {
      PlaceLays(cs[0], nid, parent, lo);
      var (m, mid) := Place(cs[0], parent, lo).value;
      PlaceAllLays(cs[1..], nid + 2 * Count(cs[0]), parent, mid);
      var (ms, hi) := PlaceAll(cs, parent, lo).value;
      assert ms[0] == m && ms[1..] == PlaceAll(cs[1..], parent, mid).value.0;
    }
  }
}
