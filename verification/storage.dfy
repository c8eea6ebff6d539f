/** What a finished image holds, and why later writes cannot disturb earlier ones. */
module Storage {
  import opened Bytes
  import opened Results
  import opened Types
  import opened DirPacking
  import opened Trees
  import opened Layout
  import opened Emitter

  ghost predicate InodeStored(img: seq<byte>, n: Node) {
    32 * n.nid + 64 <= |img| && img[32 * n.nid..32 * n.nid + 48] == InodeHead(n)
  }

  ghost predicate PayloadStored(img: seq<byte>, n: Node) {
    PayloadLen(n) > 0 ==>
      && |Payload(n)| == PayloadLen(n)
      && BLOCK_SIZE * n.blkaddr + PayloadLen(n) <= |img|
      && img[BLOCK_SIZE * n.blkaddr..BLOCK_SIZE * n.blkaddr + PayloadLen(n)] == Payload(n)
  }

  /** The node's inode and payload bytes are in the image, and so are those of its descendants. */
  ghost predicate Stored(img: seq<byte>, n: Node)
    decreases n
  {
    && InodeStored(img, n) && PayloadStored(img, n)
    && (n.IsDir() ==> StoredAll(img, n.kind.children))
  }

  ghost predicate StoredAll(img: seq<byte>, cs: seq<Node>)
    decreases cs
  {
    cs == [] || (Stored(img, cs[0]) && StoredAll(img, cs[1..]))
  }

  /** Inside the slots `s0..s1` or the blocks `b0..b1`. */
  predicate Within(k: int, s0: nat, s1: nat, b0: nat, b1: nat) {
    32 * s0 <= k < 32 * s1 || BLOCK_SIZE * b0 <= k < BLOCK_SIZE * b1
  }

  /** The images agree outside (`inside == false`) or inside the given slots and blocks. */
  ghost predicate Agree(a: seq<byte>, b: seq<byte>, inside: bool, s0: nat, s1: nat, b0: nat, b1: nat) {
    |a| == |b| && forall k :: 0 <= k < |a| && Within(k, s0, s1, b0, b1) == inside ==> a[k] == b[k]
  }

  lemma OwnBlocksCover(n: Node)
    ensures PayloadLen(n) <= BLOCK_SIZE * OwnBlocks(n)
    ensures OwnBlocks(n) <= Extent(n)
    ensures PayloadLen(n) > 0 ==> OwnBlocks(n) > 0
  {
  }

  lemma SliceFrame(a: seq<byte>, b: seq<byte>, lo: nat, hi: nat)
    requires lo <= hi <= |a| == |b|
    requires forall k :: lo <= k < hi ==> a[k] == b[k]
    ensures a[lo..hi] == b[lo..hi]
  {
  }

  /** A written patch reads back, and a slice in front of it is unchanged. */
  lemma BlitSlice(s: seq<byte>, offset: nat, patch: seq<byte>, lo: nat, hi: nat)
    requires offset + |patch| <= |s| && lo <= hi <= offset
    ensures Blit(s, offset, patch)[offset..offset + |patch|] == patch
    ensures Blit(s, offset, patch)[lo..hi] == s[lo..hi]
  {
  }

  /** A subtree stays stored as long as its own slots and blocks are left alone. */
  lemma {:induction false} StoredFrame(a: seq<byte>, b: seq<byte>, n: Node, nid: nat, parent: nat, lo: nat)
    requires Laid(n, nid, parent, lo) && Stored(a, n)
    requires Agree(a, b, true, nid, nid + 2 * Count(n), lo, lo + Extent(n))
    ensures Stored(b, n)
    decreases n
  {
    hide DirStored, InodeHead;
    OwnBlocksCover(n);
    forall k | 32 * nid <= k < 32 * nid + 48 ensures a[k] == b[k] {
      assert Within(k, nid, nid + 2 * Count(n), lo, lo + Extent(n));
    }
    SliceFrame(a, b, 32 * nid, 32 * nid + 48);
    if PayloadLen(n) > 0 {
      var start := BLOCK_SIZE * lo;
      forall k | start <= k < start + PayloadLen(n) ensures a[k] == b[k] {
        assert Within(k, nid, nid + 2 * Count(n), lo, lo + Extent(n));
      }
      SliceFrame(a, b, start, start + PayloadLen(n));
    }
    if n.IsDir() {
      assert Agree(a, b, true, nid + 2, nid + 2 + 2 * CountAll(n.kind.children),
                   lo + OwnBlocks(n), lo + OwnBlocks(n) + ExtentAll(n.kind.children));
      StoredAllFrame(a, b, n.kind.children, nid + 2, nid, lo + OwnBlocks(n));
    }
  }

  lemma {:induction false} StoredAllFrame(
      a: seq<byte>, b: seq<byte>, cs: seq<Node>, nid: nat, parent: nat, lo: nat)
    requires LaidAll(cs, nid, parent, lo) && StoredAll(a, cs)
    requires Agree(a, b, true, nid, nid + 2 * CountAll(cs), lo, lo + ExtentAll(cs))
    ensures StoredAll(b, cs)
    decreases cs
  {
    if cs != [] {
      assert Agree(a, b, true, nid, nid + 2 * Count(cs[0]), lo, lo + Extent(cs[0]));
      StoredFrame(a, b, cs[0], nid, parent, lo);
      StoredAllFrame(a, b, cs[1..], nid + 2 * Count(cs[0]), parent, lo + Extent(cs[0]));
    }
  }

  /** A write inside a region leaves everything outside it alone. */
  lemma BlitInside(s: seq<byte>, offset: nat, patch: seq<byte>, s0: nat, s1: nat, b0: nat, b1: nat)
    requires offset + |patch| <= |s|
    requires (32 * s0 <= offset && offset + |patch| <= 32 * s1)
             || (BLOCK_SIZE * b0 <= offset && offset + |patch| <= BLOCK_SIZE * b1)
    ensures Agree(s, Blit(s, offset, patch), false, s0, s1, b0, b1)
  {
  }

  lemma AgreeTrans(a: seq<byte>, b: seq<byte>, c: seq<byte>, s0: nat, s1: nat, b0: nat, b1: nat)
    requires Agree(a, b, false, s0, s1, b0, b1) && Agree(b, c, false, s0, s1, b0, b1)
    ensures Agree(a, c, false, s0, s1, b0, b1)
  {
  }

  lemma PayloadWriteFrame(img: seq<byte>, n: Node, s0: nat, s1: nat, b0: nat, b1: nat)
    requires PayloadLen(n) > 0 ==> n.blkaddr == b0 && BLOCK_SIZE * b0 + PayloadLen(n) <= |img|
    requires n.kind.LinkKind? ==> n.size == |n.kind.target|
    requires b0 <= b1 && PayloadLen(n) <= BLOCK_SIZE * (b1 - b0)
    requires EmitPayload(img, n).Ok?
    ensures Agree(img, EmitPayload(img, n).value, false, s0, s1, b0, b1)
  {
    hide Blit, Payload, PayloadLen;
    if PayloadLen(n) > 0 {
      BlitInside(img, BLOCK_SIZE * b0, Payload(n), s0, s1, b0, b1);
    }
  }

  /** A node's own two writes touch only its slot and its own blocks. */
  lemma OwnWritesFrame(img: seq<byte>, n: Node, nid: nat, parent: nat, lo: nat)
    requires Laid(n, nid, parent, lo) && Room(n, |img|) && Bounded(n)
    requires EmitPayload(Blit(img, 32 * nid, InodeHead(n)), n).Ok?
    ensures Agree(img, EmitPayload(Blit(img, 32 * nid, InodeHead(n)), n).value,
                  false, nid, nid + 2, lo, lo + OwnBlocks(n))
  {
    hide InodeHead, DirStored, Agree, Blit, Payload, PayloadLen, OwnBlocks, EmitPayload;
    OwnBlocksCover(n);
    var img1 := Blit(img, 32 * nid, InodeHead(n));
    BlitInside(img, 32 * nid, InodeHead(n), nid, nid + 2, lo, lo + OwnBlocks(n));
    PayloadWriteFrame(img1, n, nid, nid + 2, lo, lo + OwnBlocks(n));
    AgreeTrans(img, img1, EmitPayload(img1, n).value, nid, nid + 2, lo, lo + OwnBlocks(n));
  }

  /** Two steps that stay inside adjacent regions stay inside their union. */
  lemma AgreeJoin(a: seq<byte>, b: seq<byte>, c: seq<byte>,
                  s0: nat, s1: nat, s2: nat, b0: nat, b1: nat, b2: nat)
    requires s0 <= s1 <= s2 && b0 <= b1 <= b2
    requires Agree(a, b, false, s0, s1, b0, b1) && Agree(b, c, false, s1, s2, b1, b2)
    ensures Agree(a, c, false, s0, s2, b0, b2)
  {
    forall k | 0 <= k < |a| && !Within(k, s0, s2, b0, b2) ensures a[k] == c[k] {
      assert !Within(k, s0, s1, b0, b1) && !Within(k, s1, s2, b1, b2);
    }
  }

  lemma AgreeSelf(a: seq<byte>, s: nat, b: nat)
    ensures Agree(a, a, false, s, s, b, b)
  {
  }

  /** Emitting a subtree changes nothing outside its slots and blocks. */
  lemma {:induction false} EmitFrame(img: seq<byte>, n: Node, nid: nat, parent: nat, lo: nat)
    requires Laid(n, nid, parent, lo) && Room(n, |img|) && Bounded(n)
    requires Emitted(img, n).Ok?
    ensures Agree(img, Emitted(img, n).value, false, nid, nid + 2 * Count(n), lo, lo + Extent(n))
    decreases n
  {
    hide InodeHead, DirStored, EmitPayload, Blit, Agree, Within;
    var img2 := EmitPayload(Blit(img, 32 * nid, InodeHead(n)), n).value;
    OwnWritesFrame(img, n, nid, parent, lo);
    OwnBlocksCover(n);
    if n.IsDir() {
      EmitAllFrame(img2, n.kind.children, nid + 2, nid, lo + OwnBlocks(n));
      AgreeJoin(img, img2, Emitted(img, n).value, nid, nid + 2, nid + 2 * Count(n),
                lo, lo + OwnBlocks(n), lo + Extent(n));
    } else {
      assert Emitted(img, n).value == img2;
    }
  }

  lemma {:induction false} EmitAllFrame(img: seq<byte>, cs: seq<Node>, nid: nat, parent: nat, lo: nat)
    requires LaidAll(cs, nid, parent, lo) && RoomAll(cs, |img|) && BoundedAll(cs)
    requires EmittedAll(img, cs).Ok?
    ensures Agree(img, EmittedAll(img, cs).value, false, nid, nid + 2 * CountAll(cs), lo, lo + ExtentAll(cs))
    decreases cs
  {
    hide Agree, Emitted;
    if cs == [] {
      AgreeSelf(img, nid, lo);
    } else {
      var img1 := Emitted(img, cs[0]).value;
      EmitFrame(img, cs[0], nid, parent, lo);
      EmitAllFrame(img1, cs[1..], nid + 2 * Count(cs[0]), parent, lo + Extent(cs[0]));
      AgreeJoin(img, img1, EmittedAll(img, cs).value, nid, nid + 2 * Count(cs[0]), nid + 2 * CountAll(cs),
                lo, lo + Extent(cs[0]), lo + ExtentAll(cs));
    }
  }

  /** Disjoint regions: leaving one alone keeps the other. */
  lemma Disjoint(a: seq<byte>, b: seq<byte>, s0: nat, s1: nat, s2: nat, b0: nat, b1: nat, b2: nat)
    requires s0 <= s1 <= s2 && b0 <= b1 <= b2 && 32 * s2 <= BLOCK_SIZE * b0
    requires Agree(a, b, false, s1, s2, b1, b2)
    ensures Agree(a, b, true, s0, s1, b0, b1)
  {
    forall k | 0 <= k < |a| && Within(k, s0, s1, b0, b1) ensures a[k] == b[k] {
      assert !Within(k, s1, s2, b1, b2);
    }
  }

  lemma PayloadWriteStores(img: seq<byte>, n: Node, lo: nat, hi: nat)
    requires PayloadLen(n) > 0 ==> BLOCK_SIZE * n.blkaddr + PayloadLen(n) <= |img|
    requires n.kind.LinkKind? ==> n.size == |n.kind.target|
    requires lo <= hi <= |img| && (PayloadLen(n) > 0 ==> hi <= BLOCK_SIZE * n.blkaddr)
    requires EmitPayload(img, n).Ok?
    ensures PayloadStored(EmitPayload(img, n).value, n)
    ensures EmitPayload(img, n).value[lo..hi] == img[lo..hi]
  {
    hide Blit, Payload, PayloadLen;
    if PayloadLen(n) > 0 {
      BlitSlice(img, BLOCK_SIZE * n.blkaddr, Payload(n), lo, hi);
    }
  }

  lemma OwnWritesStore(img: seq<byte>, n: Node, nid: nat, parent: nat, lo: nat)
    requires Laid(n, nid, parent, lo) && Room(n, |img|) && Bounded(n)
    requires 32 * (nid + 2) <= BLOCK_SIZE * lo
    requires EmitPayload(Blit(img, 32 * nid, InodeHead(n)), n).Ok?
    ensures var img2 := EmitPayload(Blit(img, 32 * nid, InodeHead(n)), n).value;
            InodeStored(img2, n) && PayloadStored(img2, n)
  {
    hide InodeHead, DirStored, Blit, Payload, PayloadLen, EmitPayload, PayloadStored;
    BlitSlice(img, 32 * nid, InodeHead(n), 0, 0);
    PayloadWriteStores(Blit(img, 32 * nid, InodeHead(n)), n, 32 * nid, 32 * nid + 48);
  }

  /** A node's own inode and payload survive the emission of everything behind them. */
  lemma OwnFrame(a: seq<byte>, b: seq<byte>, n: Node, nid: nat, parent: nat, lo: nat)
    requires Laid(n, nid, parent, lo) && InodeStored(a, n) && PayloadStored(a, n)
    requires Agree(a, b, true, nid, nid + 2, lo, lo + OwnBlocks(n))
    ensures InodeStored(b, n) && PayloadStored(b, n)
  {
    hide DirStored, InodeHead;
    OwnBlocksCover(n);
    forall k | 32 * nid <= k < 32 * nid + 48 ensures a[k] == b[k] {
      assert Within(k, nid, nid + 2, lo, lo + OwnBlocks(n));
    }
    SliceFrame(a, b, 32 * nid, 32 * nid + 48);
    if PayloadLen(n) > 0 {
      var start := BLOCK_SIZE * lo;
      forall k | start <= k < start + PayloadLen(n) ensures a[k] == b[k] {
        assert Within(k, nid, nid + 2, lo, lo + OwnBlocks(n));
      }
      SliceFrame(a, b, start, start + PayloadLen(n));
    }
  }

  /** After recursive emission, every inode and payload of the subtree is intact at its address. */
  lemma {:induction false} EmitStores(img: seq<byte>, n: Node, nid: nat, parent: nat, lo: nat)
    requires Laid(n, nid, parent, lo) && Room(n, |img|) && Bounded(n)
    requires 32 * (nid + 2 * Count(n)) <= BLOCK_SIZE * lo
    requires Emitted(img, n).Ok?
    ensures Stored(Emitted(img, n).value, n)
    decreases n
  {
    hide InodeHead, DirStored, EmitPayload, Blit, Agree, InodeStored, PayloadStored;
    var img2 := EmitPayload(Blit(img, 32 * nid, InodeHead(n)), n).value;
    OwnWritesStore(img, n, nid, parent, lo);
    OwnBlocksCover(n);
    if n.IsDir() {
      var cs := n.kind.children;
      EmitAllStores(img2, cs, nid + 2, nid, lo + OwnBlocks(n));
      EmitAllFrame(img2, cs, nid + 2, nid, lo + OwnBlocks(n));
      var img3 := Emitted(img, n).value;
      Disjoint(img2, img3, nid, nid + 2, nid + 2 * Count(n), lo, lo + OwnBlocks(n), lo + Extent(n));
      OwnFrame(img2, img3, n, nid, parent, lo);
    }
  }

  lemma {:induction false} EmitAllStores(img: seq<byte>, cs: seq<Node>, nid: nat, parent: nat, lo: nat)
    requires LaidAll(cs, nid, parent, lo) && RoomAll(cs, |img|) && BoundedAll(cs)
    requires 32 * (nid + 2 * CountAll(cs)) <= BLOCK_SIZE * lo
    requires EmittedAll(img, cs).Ok?
    ensures StoredAll(EmittedAll(img, cs).value, cs)
    decreases cs
  {
    hide Agree, Emitted, Stored;
    if cs != [] {
      var img1 := Emitted(img, cs[0]).value;
      var nid1, lo1 := nid + 2 * Count(cs[0]), lo + Extent(cs[0]);
      EmitStores(img, cs[0], nid, parent, lo);
      EmitAllStores(img1, cs[1..], nid1, parent, lo1);
      EmitAllFrame(img1, cs[1..], nid1, parent, lo1);
      var img2 := EmittedAll(img, cs).value;
      Disjoint(img1, img2, nid, nid1, nid + 2 * CountAll(cs), lo, lo1, lo + ExtentAll(cs));
      StoredFrame(img1, img2, cs[0], nid, parent, lo);
    }
  }
}
