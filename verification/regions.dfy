/** The layout of a plan: superblock, inode slots and payload extents never overlap. */
module Regions {
  import Arithmetic
  import Bytes
  import Results
  import Types
  import opened DirPacking
  import opened Trees
  import opened Layout
  import Storage
  import opened Builder

  /** All nodes of a subtree in pre-order. */
  function Nodes(n: Node): seq<Node>
    decreases n
  {
    [n] + if n.IsDir() then NodesAll(n.kind.children) else []
  }

  function NodesAll(cs: seq<Node>): seq<Node>
    decreases cs
  {
    if cs == [] then [] else Nodes(cs[0]) + NodesAll(cs[1..])
  }

  /** Slot `i` of the list belongs to node `i`, two slots after its predecessor. */
  ghost predicate Slotted(ns: seq<Node>, nid: nat) {
    forall i :: 0 <= i < |ns| ==> ns[i].nid == nid + 2 * i
  }

  lemma SlottedJoin(a: seq<Node>, b: seq<Node>, nid: nat)
    requires Slotted(a, nid) && Slotted(b, nid + 2 * |a|)
    ensures Slotted(a + b, nid)
  {
  }

  lemma {:induction false} SlotsConsecutive(n: Node, nid: nat, parent: nat, lo: nat)
    requires Laid(n, nid, parent, lo)
    ensures |Nodes(n)| == Count(n) && Slotted(Nodes(n), nid)
    decreases n
  {
    hide DirStored;
    if n.IsDir() {
      SlotsConsecutiveAll(n.kind.children, nid + 2, nid, lo + OwnBlocks(n));
      SlottedJoin([n], NodesAll(n.kind.children), nid);
    }
  }

  lemma {:induction false} SlotsConsecutiveAll(cs: seq<Node>, nid: nat, parent: nat, lo: nat)
    requires LaidAll(cs, nid, parent, lo)
    ensures |NodesAll(cs)| == CountAll(cs) && Slotted(NodesAll(cs), nid)
    decreases cs
  {
    hide Laid;
    if cs != [] {
      SlotsConsecutive(cs[0], nid, parent, lo);
      SlotsConsecutiveAll(cs[1..], nid + 2 * Count(cs[0]), parent, lo + Extent(cs[0]));
      SlottedJoin(Nodes(cs[0]), NodesAll(cs[1..]), nid);
    }
  }

  /** The payloads lie in list order inside the blocks `lo..hi`, none reaching into a later one. */
  ghost predicate Ordered(ns: seq<Node>, lo: nat, hi: nat) {
    && (forall i :: 0 <= i < |ns| && PayloadLen(ns[i]) > 0 ==>
          lo <= ns[i].blkaddr && ns[i].blkaddr + OwnBlocks(ns[i]) <= hi)
    && (forall i, j :: 0 <= i < j < |ns| && PayloadLen(ns[i]) > 0 && PayloadLen(ns[j]) > 0 ==>
          ns[i].blkaddr + OwnBlocks(ns[i]) <= ns[j].blkaddr)
  }

  lemma OrderedJoin(a: seq<Node>, b: seq<Node>, lo: nat, mid: nat, hi: nat)
    requires lo <= mid <= hi && Ordered(a, lo, mid) && Ordered(b, mid, hi)
    ensures Ordered(a + b, lo, hi)
  {
    hide PayloadLen, OwnBlocks;
    var all := a + b;
    forall i | 0 <= i < |all| && PayloadLen(all[i]) > 0
      ensures lo <= all[i].blkaddr && all[i].blkaddr + OwnBlocks(all[i]) <= hi
    {
      assert all[i] == if i < |a| then a[i] else b[i - |a|];
    }
    forall i, j | 0 <= i < j < |all| && PayloadLen(all[i]) > 0 && PayloadLen(all[j]) > 0
      ensures all[i].blkaddr + OwnBlocks(all[i]) <= all[j].blkaddr
    {
      assert all[i] == if i < |a| then a[i] else b[i - |a|];
      assert all[j] == if j < |a| then a[j] else b[j - |a|];
    }
  }

  lemma NoneOrdered(lo: nat)
    ensures Ordered([], lo, lo)
  {
  }

  lemma {:induction false} ExtentsOrdered(n: Node, nid: nat, parent: nat, lo: nat)
    requires Laid(n, nid, parent, lo)
    ensures Ordered(Nodes(n), lo, lo + Extent(n))
    decreases n
  {
    hide DirStored, OwnBlocks, PayloadLen;
    Storage.OwnBlocksCover(n);
    assert Ordered([n], lo, lo + OwnBlocks(n));
    if n.IsDir() {
      ExtentsOrderedAll(n.kind.children, nid + 2, nid, lo + OwnBlocks(n));
      OrderedJoin([n], NodesAll(n.kind.children), lo, lo + OwnBlocks(n), lo + Extent(n));
    }
  }

  lemma {:induction false} ExtentsOrderedAll(cs: seq<Node>, nid: nat, parent: nat, lo: nat)
    requires LaidAll(cs, nid, parent, lo)
    ensures Ordered(NodesAll(cs), lo, lo + ExtentAll(cs))
    decreases cs
  {
    hide Laid, Ordered;
    if cs == [] {
      assert Ordered([], lo, lo) by { NoneOrdered(lo); }
    } else {
      ExtentsOrdered(cs[0], nid, parent, lo);
      ExtentsOrderedAll(cs[1..], nid + 2 * Count(cs[0]), parent, lo + Extent(cs[0]));
      OrderedJoin(Nodes(cs[0]), NodesAll(cs[1..]), lo, lo + Extent(cs[0]), lo + ExtentAll(cs));
    }
  }

  /** The rounded-up payload blocks of a list of nodes, added up. */
  function BlockSum(ns: seq<Node>): nat {
    if ns == [] then 0 else OwnBlocks(ns[0]) + BlockSum(ns[1..])
  }

  lemma {:induction false} BlockSumSplit(a: seq<Node>, b: seq<Node>)
    ensures BlockSum(a + b) == BlockSum(a) + BlockSum(b)
  {
    hide OwnBlocks;
    if a == [] {
      assert a + b == b;
    } else {
      assert (a + b)[1..] == a[1..] + b;
      BlockSumSplit(a[1..], b);
    }
  }

  lemma {:induction false} ExtentIsSum(n: Node)
    ensures Extent(n) == BlockSum(Nodes(n))
    decreases n
  {
    hide OwnBlocks;
    assert [n][1..] == [];
    if n.IsDir() {
      ExtentAllIsSum(n.kind.children);
      BlockSumSplit([n], NodesAll(n.kind.children));
    }
  }

  lemma {:induction false} ExtentAllIsSum(cs: seq<Node>)
    ensures ExtentAll(cs) == BlockSum(NodesAll(cs))
    decreases cs
  {
    hide OwnBlocks, Extent, Nodes;
    if cs != [] {
      ExtentIsSum(cs[0]);
      ExtentAllIsSum(cs[1..]);
      BlockSumSplit(Nodes(cs[0]), NodesAll(cs[1..]));
    }
  }

  /** Byte ranges `a0..a1` and `b0..b1` share no byte. */
  predicate Apart(a0: nat, a1: nat, b0: nat, b1: nat) {
    a1 <= b0 || b1 <= a0
  }

  lemma StartUnique(a: nat, d: nat)
    requires a <= BLOCK_SIZE * d < a + BLOCK_SIZE
    ensures d == Arithmetic.DivCeil(a, BLOCK_SIZE)
  {
  }

  /** Layout theorem: in every plan the superblock, the 64-byte inodes and the payloads are pairwise
      disjoint and inside the image, and the block total is metadata blocks plus rounded-up payloads. */
  lemma PlanRegions(h: Host, fixedTime: Results.Option<Bytes.u64>, i: nat, j: nat)
    requires PlanTree(h, fixedTime).Ok?
    requires i < |Nodes(PlanTree(h, fixedTime).value.root)| && j < |Nodes(PlanTree(h, fixedTime).value.root)|
    ensures var p := PlanTree(h, fixedTime).value;
            var a, b := Nodes(p.root)[i], Nodes(p.root)[j];
            var length := BLOCK_SIZE * p.totalBlocks;
            && p.totalBlocks
               == Arithmetic.DivCeil(Types.SUPERBLOCK_OFFSET + Types.SUPERBLOCK_SIZE + 64 * |Nodes(p.root)|, BLOCK_SIZE)
                                + BlockSum(Nodes(p.root))
            && a.nid == FIRST_NID + 2 * i
            && Types.SUPERBLOCK_OFFSET + Types.SUPERBLOCK_SIZE <= 32 * a.nid && 32 * a.nid + 64 <= length
            && (i != j ==> Apart(32 * a.nid, 32 * a.nid + 64, 32 * b.nid, 32 * b.nid + 64))
            && (PayloadLen(b) > 0 ==>
                  && 32 * a.nid + 64 <= BLOCK_SIZE * b.blkaddr
                  && BLOCK_SIZE * b.blkaddr + PayloadLen(b) <= length
                  && (i != j && PayloadLen(a) > 0 ==>
                        Apart(BLOCK_SIZE * a.blkaddr, BLOCK_SIZE * a.blkaddr + PayloadLen(a),
                              BLOCK_SIZE * b.blkaddr, BLOCK_SIZE * b.blkaddr + PayloadLen(b))))
  {
    hide Scan, Number, Place, Laid, PlanTree, Nodes, Extent, Count, OwnBlocks, PayloadLen;
    var p := PlanTree(h, fixedTime).value;
    PlanFrames(h, fixedTime);
    SlotsConsecutive(p.root, FIRST_NID, FIRST_NID, p.dataStart);
    ExtentsOrdered(p.root, FIRST_NID, FIRST_NID, p.dataStart);
    ExtentIsSum(p.root);
    Storage.OwnBlocksCover(Nodes(p.root)[i]);
    Storage.OwnBlocksCover(Nodes(p.root)[j]);
    StartUnique(32 * (FIRST_NID + 2 * Count(p.root)), p.dataStart);
  }
}
