/** Streaming a file through the one-block cache. */
module Files {
  import opened Arithmetic
  import opened Bytes
  import opened Results
  import opened Types
  import opened Reader

  // ----- Which block a file offset belongs to, for every layout -----

  /** The start of the block `offset` lies in. */
  function BlockStart(offset: nat, b: nat): (r: nat)
    requires b > 0
    ensures r <= offset < r + b
    ensures offset % b == offset - r && r / b == offset / b
  {
    DivUnique(offset / b * b, b, offset / b, 0);
    offset / b * b
  }

  lemma SameChunkPlan(core: Core, inode: Inode, offset: nat)
    requires ValidCore(core) && core.blockSize > 0
    ensures PlanChunkBlock(core, inode, offset)
            == PlanChunkBlock(core, inode, BlockStart(offset, core.blockSize))
  {
    var b := core.blockSize;
    var format := inode.inodeData % 0x1_0000;
    if format < 0x20 {
      Pow2Sum(format, core.sb.blkSizeBits);
      ChunkSplit(offset, b, Pow2(format));
      ChunkSplit(BlockStart(offset, b), b, Pow2(format));
      hide Pow2, DivCeil, InodeEnd;
    }
  }

  /** A read asks for the whole block around its offset: only the block index matters. */
  lemma SameBlock(img: seq<byte>, core: Core, inode: Inode, offset: nat)
    requires ValidCore(core) && core.blockSize > 0
    ensures GetInodeBlock(img, core, inode, offset)
            == GetInodeBlock(img, core, inode, BlockStart(offset, core.blockSize))
  {
    var start := BlockStart(offset, core.blockSize);
    SameChunkPlan(core, inode, offset);
    hide PlanChunkBlock, ResolveChunkRead, PlanFlatBlock, DivCeil;
  }

  /** The file offset a chunk plan resolves to is the start of the block asked for. */
  lemma ChunkFileOffset(offset: nat, b: nat, c: nat)
    requires b > 0 && c > 0
    ensures b * c > 0
    ensures offset / (b * c) * (b * c) + offset % (b * c) / b * b == BlockStart(offset, b)
  {
    var m := offset / b;
    ChunkSplit(offset, b, c);
    assert m == m / c * c + m % c;
    Regrouped(m / c, m % c, b, c);
  }

  lemma PlainLength(core: Core, inode: Inode, offset: nat)
    requires core.blockSize > 0
    requires PieceIndex(inode.size, core.blockSize, offset).Ok?
    ensures BlockStart(offset, core.blockSize) < inode.size
    ensures var plan := PlanFlatBlock(core, inode, offset / core.blockSize);
            plan.Ok? ==> plan.value.size == Min(core.blockSize, inode.size - BlockStart(offset, core.blockSize))
  {
    BlockIndexInside(inode.size, core.blockSize, offset / core.blockSize);
    var start := BlockStart(offset, core.blockSize);
  }

  lemma TailLength(size: nat, b: nat, offset: nat)
    requires b > 0 && size % b != 0 && offset / b == DivCeil(size, b) - 1
    ensures BlockStart(offset, b) < size && size % b == Min(b, size - BlockStart(offset, b))
  {
    var start := BlockStart(size, b);
  }

  lemma ChunkLength(core: Core, inode: Inode, offset: nat, rawAddr: nat)
    requires ValidCore(core) && core.blockSize > 0
    requires PlanChunkBlock(core, inode, offset).Ok?
    requires ResolveChunkRead(core, rawAddr, PlanChunkBlock(core, inode, offset).value).Ok?
    ensures BlockStart(offset, core.blockSize) < inode.size
    ensures ResolveChunkRead(core, rawAddr, PlanChunkBlock(core, inode, offset).value).value.1
            == Min(core.blockSize, inode.size - BlockStart(offset, core.blockSize))
  {
    var format := inode.inodeData % 0x1_0000;
    Pow2Sum(format, core.sb.blkSizeBits);
    ChunkFileOffset(offset, core.blockSize, Pow2(format));
    hide Pow2, BlockOffset, InodeEnd, DivCeil;
  }

  /** A readable block has exactly the bytes from its start to the next block or the end of file. */
  lemma BlockLength(img: seq<byte>, core: Core, inode: Inode, offset: nat)
    requires ValidCore(core) && core.blockSize > 0
    requires GetInodeBlock(img, core, inode, offset).Ok?
    ensures BlockStart(offset, core.blockSize) < inode.size
    ensures |GetInodeBlock(img, core, inode, offset).value|
            == Min(core.blockSize, inode.size - BlockStart(offset, core.blockSize))
  {
    match inode.GetLayout().value
    case FlatPlain =>
      PlainLength(core, inode, offset);
    case FlatInline =>
      var tail := inode.size % core.blockSize;
      if tail != 0 && offset / core.blockSize == DivCeil(inode.size, core.blockSize) - 1 {
        TailLength(inode.size, core.blockSize, offset);
      } else {
        PlainLength(core, inode, offset);
      }
    case ChunkBased =>
      var plan := PlanChunkBlock(core, inode, offset).value;
      ChunkLength(core, inode, offset, LeVal(GetRange(img, plan.addrOffset, 4).value));
  }

  // ----- The logical content of an inode -----

  /** Every block of the data can be read. */
  ghost predicate Readable(img: seq<byte>, core: Core, inode: Inode)
    requires core.blockSize > 0
  {
    forall offset: nat :: offset < inode.size ==> GetInodeBlock(img, core, inode, offset).Ok?
  }

  lemma NextStart(start: nat, b: nat)
    requires b > 0 && start % b == 0
    ensures (start + b) % b == 0 && BlockStart(start, b) == start
  {
    assert start + b == (start / b + 1) * b + 0 by { assert start == start / b * b; }
    DivUnique(start + b, b, start / b + 1, 0);
  }

  /** The concatenated blocks from block-aligned offset `start` on. */
  ghost function ContentFrom(img: seq<byte>, core: Core, inode: Inode, start: nat): seq<byte>
    requires ValidCore(core) && core.blockSize > 0 && Readable(img, core, inode)
    requires start % core.blockSize == 0 || start >= inode.size
    decreases if start < inode.size then inode.size - start else 0
  {
    if start >= inode.size then []
    else
      NextStart(start, core.blockSize);
      GetInodeBlock(img, core, inode, start).value + ContentFrom(img, core, inode, start + core.blockSize)
  }

  /** The file's bytes: all its blocks, in order. */
  ghost function Content(img: seq<byte>, core: Core, inode: Inode): seq<byte>
    requires ValidCore(core) && core.blockSize > 0 && Readable(img, core, inode)
  {
    ContentFrom(img, core, inode, 0)
  }

  lemma {:induction false} ContentLength(img: seq<byte>, core: Core, inode: Inode, start: nat)
    requires ValidCore(core) && core.blockSize > 0 && Readable(img, core, inode)
    requires start % core.blockSize == 0
    ensures |ContentFrom(img, core, inode, start)| == if start < inode.size then inode.size - start else 0
    decreases if start < inode.size then inode.size - start else 0
  {
    hide GetInodeBlock;
    if start < inode.size {
      NextStart(start, core.blockSize);
      BlockLength(img, core, inode, start);
      ContentLength(img, core, inode, start + core.blockSize);
    }
  }

  lemma DropFront(a: seq<byte>, c: seq<byte>, i: nat, j: nat)
    requires i <= j <= |c|
    ensures (a + c)[|a| + i..|a| + j] == c[i..j]
  {
  }

  lemma SameIndex(start: nat, offset: nat, b: nat)
    requires b > 0 && start % b == 0 && start <= offset < start + b
    ensures BlockStart(offset, b) == start
  {
    assert offset == start / b * b + (offset - start) by { assert start == start / b * b; }
    DivUnique(offset, b, start / b, offset - start);
  }

  /** The block around `offset` is the content there. */
  lemma {:induction false} ContentAt(img: seq<byte>, core: Core, inode: Inode, start: nat, offset: nat)
    requires ValidCore(core) && core.blockSize > 0 && Readable(img, core, inode)
    requires start % core.blockSize == 0 && start <= offset < inode.size
    ensures var block := GetInodeBlock(img, core, inode, offset).value;
            var at := BlockStart(offset, core.blockSize);
            && start <= at && at - start + |block| <= |ContentFrom(img, core, inode, start)|
            && ContentFrom(img, core, inode, start)[at - start..at - start + |block|] == block
    decreases offset - start
  {
    hide GetInodeBlock;
    var b := core.blockSize;
    NextStart(start, b);
    ContentLength(img, core, inode, start);
    SameBlock(img, core, inode, offset);
    BlockLength(img, core, inode, start);
    BlockLength(img, core, inode, offset);
    var first := GetInodeBlock(img, core, inode, start).value;
    if offset < start + b {
      SameIndex(start, offset, b);
    } else {
      ContentAt(img, core, inode, start + b, offset);
      var at, block := BlockStart(offset, b), GetInodeBlock(img, core, inode, offset).value;
      var rest := ContentFrom(img, core, inode, start + b);
      DropFront(first, rest, at - start - b, at - start - b + |block|);
    }
  }

  // ----- The stream -----

  /** How many bytes one read returns: up to the end of the block or of the data. */
  function PieceSize(size: nat, blockSize: nat, offset: nat, want: nat): nat
    requires blockSize > 0
  {
    if offset >= size then 0
    else Min(want, Min(blockSize - offset % blockSize, size - offset))
  }

  /** A read into a non-empty buffer returns nothing exactly at the end of the data. */
  lemma NoPiece(size: nat, blockSize: nat, offset: nat, want: nat)
    requires blockSize > 0
    ensures PieceSize(size, blockSize, offset, want) == 0 <==> offset >= size || want == 0
    ensures offset <= size ==> offset + PieceSize(size, blockSize, offset, want) <= size
  {
  }

  /** What a read takes out of the block around the offset. */
  lemma PieceOfBlock(img: seq<byte>, core: Core, inode: Inode, offset: nat, want: nat)
    requires ValidCore(core) && core.blockSize > 0 && offset < inode.size
    requires GetInodeBlock(img, core, inode, offset).Ok?
    ensures var block := GetInodeBlock(img, core, inode, offset).value;
            var inner := offset % core.blockSize;
            && inner < |block| <= core.blockSize
            && Min(want, |block| - inner) == PieceSize(inode.size, core.blockSize, offset, want)
  {
    hide GetInodeBlock;
    BlockLength(img, core, inode, offset);
  }

  /** `copy_from_slice` of `n` bytes from `data[from..]` to the front of `out`. */
  method Copy(out: array<byte>, data: seq<byte>, from: nat, n: nat)
    requires n <= out.Length && from + n <= |data|
    modifies out
    ensures out[..n] == data[from..from + n] && out[n..] == old(out[n..])
  {
    forall i | 0 <= i < n {
      out[i] := data[from + i];
    }
  }

  lemma SameStart(offset: nat, n: nat, b: nat)
    requires b > 0 && offset % b + n < b
    ensures (offset + n) % b == offset % b + n && BlockStart(offset + n, b) == BlockStart(offset, b)
  {
    var start := BlockStart(offset, b);
    var q: nat := offset / b;
    DivUnique(offset + n, b, q, offset % b + n);
  }

  /** Moving on inside a block stays in that block. */
  lemma AdvanceInBlock(img: seq<byte>, core: Core, inode: Inode, offset: nat, n: nat)
    requires ValidCore(core) && core.blockSize > 0
    ensures offset % core.blockSize + n < core.blockSize ==>
      && (offset + n) % core.blockSize == offset % core.blockSize + n
      && GetInodeBlock(img, core, inode, offset + n) == GetInodeBlock(img, core, inode, offset)
  {
    hide GetInodeBlock, BlockStart;
    if offset % core.blockSize + n < core.blockSize {
      SameStart(offset, n, core.blockSize);
      SameBlock(img, core, inode, offset);
      SameBlock(img, core, inode, offset + n);
    }
  }

  /** A handle to a file: an offset and the block it is in the middle of, if any. */
  class File {
    const img: seq<byte>
    const core: Core
    const inode: Inode
    var offset: nat
    var buf: Option<seq<byte>>

    /** The offset never passes the end, and the cached block is always the block containing the offset,
        with bytes left to give. */
    ghost predicate Valid()
      reads this
    {
      && ValidCore(core) && core.blockSize > 0 && offset <= inode.size
      && (buf.Some? ==> GetInodeBlock(img, core, inode, offset) == Ok(buf.value)
                        && offset % core.blockSize < |buf.value|)
    }

    constructor (img: seq<byte>, core: Core, inode: Inode)
      requires ValidCore(core) && core.blockSize > 0
      ensures Valid() && offset == 0 && buf == None
      ensures this.img == img && this.core == core && this.inode == inode
    {
      this.img, this.core, this.inode := img, core, inode;
      offset, buf := 0, None;
    }

    /** Reads into `out`: nothing into an empty buffer or at the end, otherwise the bytes at the offset up
        to the block's end, and never nothing. A block that cannot be read leaves the handle as it was. */
    method Read(out: array<byte>) returns (r: Outcome<nat>)
      requires Valid()
      modifies this, out
      ensures Valid()
      ensures r == Ok(0) <==> out.Length == 0 || old(offset) == inode.size
      ensures r.Err? ==> offset == old(offset) && buf == old(buf) && out[..] == old(out[..])
                         && GetInodeBlock(img, core, inode, offset) == Err(r.error)
      ensures r.Ok? ==>
        && r.value == PieceSize(inode.size, core.blockSize, old(offset), out.Length)
        && offset == old(offset) + r.value && r.value <= out.Length
        && out[r.value..] == old(out[r.value..])
      ensures r.Ok? && r.value > 0 ==>
        var block := GetInodeBlock(img, core, inode, old(offset));
        var inner := old(offset) % core.blockSize;
        block.Ok? && inner + r.value <= |block.value| && out[..r.value] == block.value[inner..inner + r.value]
    {
      hide GetInodeBlock, PieceSize, ValidCore;
      NoPiece(inode.size, core.blockSize, offset, out.Length);
      if out.Length == 0 {
        return Ok(0);
      }
      if offset >= inode.size {
        return Ok(0);
      }
      var inner := offset % core.blockSize;
      if buf.Some? {
        var data := buf.value;
        PieceOfBlock(img, core, inode, offset, out.Length);
        var remaining := |data| - inner;
        var n := Min(out.Length, remaining);
        Copy(out, data, inner, n);
        AdvanceInBlock(img, core, inode, offset, n);
        offset := offset + n;
        if n == remaining {
          buf := None;
        }
        return Ok(n);
      }
      var block :- GetInodeBlock(img, core, inode, offset);
      PieceOfBlock(img, core, inode, offset, out.Length);
      var n := Min(out.Length, |block| - inner);
      Copy(out, block, inner, n);
      AdvanceInBlock(img, core, inode, offset, n);
      offset := offset + n;
      if n < |block| - inner {
        buf := Some(block);
      }
      return Ok(n);
    }

    /** Calls `Read` once for each of the buffer sizes and joins what the calls return, up to the first
        call that fails. Whatever the sizes, the pieces are consecutive and nothing is lost or repeated;
        a readable file never fails, and enough non-empty buffers read it to its end. */
    method ReadRun(wants: seq<nat>) returns (output: seq<byte>, failed: Option<Error>)
      requires Valid()
      modifies this
      ensures Valid() && offset == old(offset) + |output|
      ensures failed.Some? ==> GetInodeBlock(img, core, inode, offset) == Err(failed.value)
      ensures failed.None? ==> offset == RunOffset(inode.size, core.blockSize, old(offset), wants)
      ensures Readable(img, core, inode) ==>
        && failed.None? && |Content(img, core, inode)| == inode.size
        && output == Content(img, core, inode)[old(offset)..offset]
      ensures failed.None? && |wants| >= inode.size - old(offset) && 0 !in wants ==> offset == inode.size
    {
      hide GetInodeBlock, PieceSize, ValidCore, Readable, RunOffset, Content;
      ghost var b := core.blockSize;
      assert ValidCore(core) && b > 0 && offset <= inode.size;
      hide Valid;
      if Readable(img, core, inode) {
        ContentSize(img, core, inode);
      }
      if |wants| >= inode.size - offset && 0 !in wants {
        RunReachesEnd(inode.size, b, offset, wants);
      }
      output, failed := [], None;
      assert wants[0..] == wants;
      for i := 0 to |wants|
        invariant Valid() && offset == old(offset) + |output| && offset <= inode.size
        invariant RunOffset(inode.size, b, old(offset), wants) == RunOffset(inode.size, b, offset, wants[i..])
        invariant Readable(img, core, inode) ==> output == Content(img, core, inode)[old(offset)..offset]
      {
        RunStep(inode.size, b, offset, wants, i);
        ghost var at := offset;
        var out := new byte[wants[i]];
        var r := Read(out);
        if r.Err? {
          ReadableBlock(img, core, inode, offset);
          return output, Some(r.error);
        }
        if Readable(img, core, inode) && r.value > 0 {
          ReadIsPiece(img, core, inode, at, wants[i]);
          SliceOn(Content(img, core, inode), old(offset), at, offset);
        }
        NoPiece(inode.size, b, at, wants[i]);
        output := output + out[..r.value];
      }
      RunNothing(inode.size, b, offset, wants);
    }
  }

  // ----- Whole runs of reads -----

  /** The offset after reads of the given sizes. */
  function RunOffset(size: nat, blockSize: nat, offset: nat, wants: seq<nat>): nat
    requires blockSize > 0
    decreases |wants|
  {
    if wants == [] then offset
    else RunOffset(size, blockSize, offset + PieceSize(size, blockSize, offset, wants[0]), wants[1..])
  }

  /** Enough reads into non-empty buffers reach the end. */
  lemma {:induction false} RunReachesEnd(size: nat, blockSize: nat, offset: nat, wants: seq<nat>)
    requires blockSize > 0 && offset <= size
    requires 0 !in wants && |wants| >= size - offset
    ensures RunOffset(size, blockSize, offset, wants) == size
    decreases |wants|
  {
    if wants != [] {
      RunReachesEnd(size, blockSize, offset + PieceSize(size, blockSize, offset, wants[0]), wants[1..]);
    }
  }

  lemma ContentSize(img: seq<byte>, core: Core, inode: Inode)
    requires ValidCore(core) && core.blockSize > 0 && Readable(img, core, inode)
    ensures |Content(img, core, inode)| == inode.size
  {
    hide ContentFrom, Readable;
    ContentLength(img, core, inode, 0);
  }

  lemma ReadableBlock(img: seq<byte>, core: Core, inode: Inode, offset: nat)
    requires core.blockSize > 0
    ensures Readable(img, core, inode) && offset < inode.size ==> GetInodeBlock(img, core, inode, offset).Ok?
  {
    hide GetInodeBlock;
  }

  lemma RunStep(size: nat, blockSize: nat, offset: nat, wants: seq<nat>, i: nat)
    requires blockSize > 0 && i < |wants|
    ensures RunOffset(size, blockSize, offset, wants[i..])
            == RunOffset(size, blockSize, offset + PieceSize(size, blockSize, offset, wants[i]), wants[i + 1..])
  {
    hide PieceSize;
    assert wants[i..][1..] == wants[i + 1..];
  }

  lemma RunNothing(size: nat, blockSize: nat, offset: nat, wants: seq<nat>)
    requires blockSize > 0
    ensures RunOffset(size, blockSize, offset, wants[|wants|..]) == offset
  {
  }

  lemma SliceOn(s: seq<byte>, lo: nat, mid: nat, hi: nat)
    requires lo <= mid <= hi <= |s|
    ensures s[lo..mid] + s[mid..hi] == s[lo..hi]
  {
  }

  /** One read of a readable file is the matching piece of its content. */
  lemma ReadIsPiece(img: seq<byte>, core: Core, inode: Inode, offset: nat, want: nat)
    requires ValidCore(core) && core.blockSize > 0 && Readable(img, core, inode) && offset < inode.size
    ensures var n := PieceSize(inode.size, core.blockSize, offset, want);
            var inner := offset % core.blockSize;
            var block := GetInodeBlock(img, core, inode, offset).value;
            && |Content(img, core, inode)| == inode.size && inner + n <= |block|
            && block[inner..inner + n] == Content(img, core, inode)[offset..offset + n]
  {
    hide GetInodeBlock, ContentFrom;
    ContentLength(img, core, inode, 0);
    ContentAt(img, core, inode, 0, offset);
    BlockLength(img, core, inode, offset);
    var n, inner := PieceSize(inode.size, core.blockSize, offset, want), offset % core.blockSize;
    var at, block := BlockStart(offset, core.blockSize), GetInodeBlock(img, core, inode, offset).value;
    SubSlice(Content(img, core, inode), at, at + |block|, inner, inner + n);
  }
}
