/** Which images open, and where the content of an inode lies in them, layout by layout. */
module Contents {
  import opened Arithmetic
  import Bits
  import opened Bytes
  import opened Results
  import opened Types
  import opened Reader
  import opened Files

  // ----- The superblock -----

  /** No feature is asked for but those of bits 0 and 2. */
  ghost predicate OnlyKnown(features: nat) {
    forall i: nat :: Bits.Bit(features, i) ==> i == 0 || i == 2
  }

  lemma FiveBits(i: nat)
    ensures Bits.Bit(5, i) <==> i == 0 || i == 2
  {
    if i > 2 {
      Bits.ZeroBits(i - 3);
      assert Bits.Bit(5, i) == Bits.Bit(2, i - 1) == Bits.Bit(1, i - 2) == Bits.Bit(0, i - 3);
    }
  }

  lemma NothingElse(v: nat)
    ensures Bits.Clear(v, 5) == 0 <==> v in {0, 1, 4, 5}
  {
    assert v / 8 == v / 2 / 2 / 2;
    Bits.ClearNothing(v / 8);
    var w := v / 2;
    assert Bits.Clear(v, 5) == 2 * Bits.Clear(w, 2) || v == 0;
    assert Bits.Clear(w, 2) == (if w % 2 == 1 then 1 else 0) + 2 * Bits.Clear(w / 2, 1) || w == 0;
    assert Bits.Clear(w / 2, 1) == 2 * Bits.Clear(v / 8, 0) || w / 2 == 0;
  }

  lemma KnownExactly(features: nat)
    ensures OnlyKnown(features) <==> features in {0, 1, 4, 5}
  {
    var rest := Bits.Clear(features, 5);
    if rest > 0 {
      var i := Bits.SetBit(rest);
      Bits.ClearBits(features, 5, i);
      FiveBits(i);
    } else {
      forall i: nat | Bits.Bit(features, i) ensures i == 0 || i == 2 {
        Bits.ClearBits(features, 5, i);
        Bits.ZeroBits(i);
        FiveBits(i);
      }
    }
    NothingElse(features);
  }

  lemma FieldOf(img: seq<byte>, from: nat, to: nat)
    requires from <= to <= |img| - 1024
    ensures img[1024..][from..to] == img[1024 + from..1024 + to]
  {
  }

  /** An image opens exactly if it holds a superblock with the magic, no unknown feature and blocks of 2^9 to
      2^24 bytes; what the reader then uses are the words at these places. */
  lemma OpenExactly(img: seq<byte>)
    ensures Open(img).Ok? <==>
      && |img| >= 1152 && LeVal(img[1024..1028]) == 0xe0f5_e1e2 && 9 <= img[1036] <= 24
      && OnlyKnown(LeVal(img[1104..1108]))
    ensures Open(img).Ok? ==>
      var core := Open(img).value;
      && core.blockSize == Pow2(img[1036])
      && core.sb.rootNid == LeVal(img[1038..1040]) && core.sb.inos == LeVal(img[1040..1048])
      && core.sb.buildTime == LeVal(img[1048..1056]) && core.sb.blocks == LeVal(img[1060..1064])
      && core.sb.metaBlkAddr == LeVal(img[1064..1068])
      && core.sb.uuid == img[1072..1088] && core.sb.volumeName == img[1088..1104]
  {
    hide LeVal, Pow2, OnlyKnown;
    if |img| >= 1152 {
      FieldOf(img, 0, 4);
      FieldOf(img, 14, 16);
      FieldOf(img, 16, 24);
      FieldOf(img, 24, 32);
      FieldOf(img, 36, 40);
      FieldOf(img, 40, 44);
      FieldOf(img, 48, 64);
      FieldOf(img, 64, 80);
      FieldOf(img, 80, 84);
      KnownExactly(LeVal(img[1104..1108]));
    }
  }

  // ----- Inodes -----

  lemma {:induction false} WrittenBack(s: seq<byte>)
    ensures LeBytes(LeVal(s), |s|) == s
  {
    if s != [] {
      assert LeVal(s) % 256 == s[0] && LeVal(s) / 256 == LeVal(s[1..]);
      WrittenBack(s[1..]);
    }
  }

  /** An inode's slot, field after field in the order of the record; `a` and `b` are its reserved bytes. */
  function SlotBytes(inode: Inode, a: seq<byte>, b: seq<byte>): seq<byte> {
    match inode
    case Compact(_, format, xattrCount, mode, nlink, size, inodeData, ino, uid, gid) =>
      LeBytes(format, 2) + LeBytes(xattrCount, 2) + LeBytes(mode, 2) + LeBytes(nlink, 2) + LeBytes(size, 4) + a
      + LeBytes(inodeData, 4) + LeBytes(ino, 4) + LeBytes(uid, 2) + LeBytes(gid, 2) + b
    case Extended(_, format, xattrCount, mode, nlink, size, inodeData, ino, uid, gid, mtime, mtimeNsec) =>
      LeBytes(format, 2) + LeBytes(xattrCount, 2) + LeBytes(mode, 2) + a + LeBytes(size, 8)
      + LeBytes(inodeData, 4) + LeBytes(ino, 4) + LeBytes(uid, 4) + LeBytes(gid, 4) + LeBytes(mtime, 8)
      + LeBytes(mtimeNsec, 4) + LeBytes(nlink, 4) + b
  }

  /** The next field behind a prefix of the data. */
  lemma NextField(data: seq<byte>, done: seq<byte>, to: nat, width: nat)
    requires |done| <= to <= |data| && done == data[..|done|] && width == to - |done|
    ensures done + LeBytes(LeVal(data[|done|..to]), width) == data[..to]
    ensures done + data[|done|..to] == data[..to]
  {
    hide LeVal, LeBytes;
    WrittenBack(data[|done|..to]);
  }

  lemma CompactSlot(data: seq<byte>, nid: nat)
    requires ParseInode(data, nid).Ok? && ParseInode(data, nid).value.Compact?
    ensures |data| >= 32 && SlotBytes(ParseInode(data, nid).value, data[12..16], data[28..32]) == data[..32]
  {
    hide LeVal, LeBytes;
    NextField(data, [], 2, 2);
    NextField(data, data[..2], 4, 2);
    NextField(data, data[..4], 6, 2);
    NextField(data, data[..6], 8, 2);
    NextField(data, data[..8], 12, 4);
    NextField(data, data[..12], 16, 4);
    NextField(data, data[..16], 20, 4);
    NextField(data, data[..20], 24, 4);
    NextField(data, data[..24], 26, 2);
    NextField(data, data[..26], 28, 2);
    NextField(data, data[..28], 32, 4);
  }

  lemma ExtendedSlot(data: seq<byte>, nid: nat)
    requires ParseInode(data, nid).Ok? && ParseInode(data, nid).value.Extended?
    ensures |data| >= 64 && SlotBytes(ParseInode(data, nid).value, data[6..8], data[48..64]) == data[..64]
  {
    hide LeVal, LeBytes;
    NextField(data, [], 2, 2);
    NextField(data, data[..2], 4, 2);
    NextField(data, data[..4], 6, 2);
    NextField(data, data[..6], 8, 2);
    NextField(data, data[..8], 16, 8);
    NextField(data, data[..16], 20, 4);
    NextField(data, data[..20], 24, 4);
    NextField(data, data[..24], 28, 4);
    NextField(data, data[..28], 32, 4);
    NextField(data, data[..32], 40, 8);
    NextField(data, data[..40], 44, 4);
    NextField(data, data[..44], 48, 4);
    NextField(data, data[..48], 64, 16);
  }

  /** Whatever inode is read: written back field after field it is the bytes of its slot, 32 of them if bit 0 of
      its format is clear and 64 if it is set, at 32 times its nid behind the metadata blocks; and it is read
      exactly when these bytes are there. */
  lemma InodeWrittenBack(img: seq<byte>, core: Core, nid: nat)
    requires |img| <= U64_MAX
    ensures var at := core.sb.metaBlkAddr * core.blockSize + 32 * nid;
            var r := GetInode(img, core, nid);
            && (r.Ok? <==> at + 2 <= |img| && at + (if img[at] % 2 == 0 then 32 else 64) <= |img|)
            && (r.Ok? ==>
                  && r.value.nid == nid && (r.value.Compact? <==> img[at] % 2 == 0)
                  && exists a, b :: SlotBytes(r.value, a, b) == img[at..at + if r.value.Compact? then 32 else 64])
  {
    hide LeVal, LeBytes, SlotBytes;
    var at := core.sb.metaBlkAddr * core.blockSize + 32 * nid;
    if at + 2 <= |img| {
      var data := img[at..];
      LeVal2(data, 0);
      assert data[0] == img[at];
      var r := ParseInode(data, nid);
      if r.Ok? && r.value.Compact? {
        CompactSlot(data, nid);
        assert data[..32] == img[at..at + 32];
      } else if r.Ok? {
        ExtendedSlot(data, nid);
        assert data[..64] == img[at..at + 64];
      }
    }
  }

  // ----- Addresses and reads -----

  /** The address behind an inode and its xattrs. */
  function Behind(core: Core, inode: Inode): nat {
    core.sb.metaBlkAddr * core.blockSize + 32 * inode.nid + (if inode.Compact? then 32 else 64)
    + if inode.xattrCount == 0 then 0 else 12 + 4 * (inode.xattrCount - 1)
  }

  lemma BehindIsEnd(core: Core, inode: Inode)
    ensures InodeEnd(core, inode) == if Behind(core, inode) <= U64_MAX then Ok(Behind(core, inode))
                                     else Err(AddressOverflow)
  {
  }

  /** The context of every read: an accepted superblock, and an image and a size that fit 64 bits. */
  ghost predicate Context(img: seq<byte>, core: Core, inode: Inode) {
    ValidCore(core) && core.blockSize > 0 && |img| <= U64_MAX && inode.size <= U64_MAX
  }

  /** Byte `k` of the content is byte `k % blockSize` of its block. */
  lemma ContentByte(img: seq<byte>, core: Core, inode: Inode, k: nat)
    requires ValidCore(core) && core.blockSize > 0 && Readable(img, core, inode) && k < inode.size
    ensures |Content(img, core, inode)| == inode.size && GetInodeBlock(img, core, inode, k).Ok?
    ensures var block := GetInodeBlock(img, core, inode, k).value;
            k % core.blockSize < |block| && Content(img, core, inode)[k] == block[k % core.blockSize]
  {
    hide GetInodeBlock, ContentFrom;
    ContentSize(img, core, inode);
    ContentAt(img, core, inode, 0, k);
    BlockLength(img, core, inode, k);
    var at, block := BlockStart(k, core.blockSize), GetInodeBlock(img, core, inode, k).value;
    assert Content(img, core, inode)[at..at + |block|][k - at] == block[k - at];
  }

  // ----- Blocks stored one behind the other -----

  /** How many bytes the block around `k` has. */
  function LengthAt(size: nat, b: nat, k: nat): nat
    requires b > 0 && k < size
  {
    Min(b, size - BlockStart(k, b))
  }

  lemma LengthIs(size: nat, b: nat, k: nat)
    requires b > 0 && k < size
    ensures LengthAt(size, b, k) == Min(b, size - BlockStart(k, b))
  {
  }

  lemma IndexInside(size: nat, b: nat, k: nat)
    requires b > 0 && k < size
    ensures k / b < DivCeil(size, b) && k / b * b == BlockStart(k, b)
  {
    var q: nat := size / b;
    MulOrder(k / b, q, b);
    MulOrder(q + 1, k / b, b);
  }

  /** The flat plan of a block. */
  lemma FlatBlock(img: seq<byte>, core: Core, inode: Inode, k: nat)
    requires Context(img, core, inode) && k < inode.size
    ensures var b := core.blockSize;
            var from, len := inode.inodeData * b + BlockStart(k, b), LengthAt(inode.size, b, k);
            && k / b < DivCeil(inode.size, b)
            && PlanFlatBlock(core, inode, k / b)
               == if from <= U64_MAX then Ok(Direct(from, len)) else Err(AddressOverflow)
  {
    IndexInside(inode.size, core.blockSize, k);
  }

  /** A direct plan reads the bytes it names, if they are there. */
  lemma DirectRead(img: seq<byte>, core: Core, inode: Inode, k: nat, from: nat, len: nat)
    requires core.blockSize > 0 && |img| <= U64_MAX && len > 0
    requires PlanInodeBlockRead(core, inode, k)
             == if from <= U64_MAX then Ok(Direct(from, len)) else Err(AddressOverflow)
    ensures GetInodeBlock(img, core, inode, k).Ok? <==> from + len <= |img|
    ensures from + len <= |img| ==> GetInodeBlock(img, core, inode, k).value == img[from..from + len]
  {
    hide PlanInodeBlockRead;
  }

  lemma PlainBlock(img: seq<byte>, core: Core, inode: Inode, k: nat)
    requires Context(img, core, inode) && inode.GetLayout() == Ok(FlatPlain) && k < inode.size
    ensures var b := core.blockSize;
            var from, len := inode.inodeData * b + BlockStart(k, b), LengthAt(inode.size, b, k);
            && (GetInodeBlock(img, core, inode, k).Ok? <==> from + len <= |img|)
            && (from + len <= |img| ==> GetInodeBlock(img, core, inode, k).value == img[from..from + len])
  {
    var b := core.blockSize;
    FlatBlock(img, core, inode, k);
    hide PlanFlatBlock, GetInodeBlock, DivCeil;
    DirectRead(img, core, inode, k, inode.inodeData * b + BlockStart(k, b), LengthAt(inode.size, b, k));
  }

  /** `len` bytes from `from` on are in the image. */
  predicate There(img: seq<byte>, from: nat, len: nat) {
    len == 0 || from + len <= |img|
  }

  function Piece(img: seq<byte>, from: nat, len: nat): (r: seq<byte>)
    requires There(img, from, len)
    ensures |r| == len
    ensures forall k: nat :: k < len ==> r[k] == img[from + k]
  {
    if len == 0 then [] else img[from..from + len]
  }

  lemma PlainByte(img: seq<byte>, core: Core, inode: Inode, k: nat)
    requires Context(img, core, inode) && inode.GetLayout() == Ok(FlatPlain) && k < inode.size
    ensures var from := inode.inodeData * core.blockSize;
            && (There(img, from, inode.size) ==> GetInodeBlock(img, core, inode, k).Ok?)
            && (GetInodeBlock(img, core, inode, k).Ok? ==> from + k < |img|)
            && (Readable(img, core, inode) ==>
                  |Content(img, core, inode)| == inode.size && Content(img, core, inode)[k] == img[from + k])
  {
    hide GetInodeBlock, Inode.GetLayout, Content, ContentFrom;
    PlainBlock(img, core, inode, k);
    if Readable(img, core, inode) {
      ContentByte(img, core, inode, k);
    }
  }

  /** Flat data lies in one piece from its first block on, and can be read exactly when it is all there. */
  lemma PlainContent(img: seq<byte>, core: Core, inode: Inode)
    requires Context(img, core, inode) && inode.GetLayout() == Ok(FlatPlain)
    ensures var from := inode.inodeData * core.blockSize;
            && (Readable(img, core, inode) <==> There(img, from, inode.size))
            && (Readable(img, core, inode) ==> Content(img, core, inode) == Piece(img, from, inode.size))
  {
    hide GetInodeBlock, Inode.GetLayout, Content, ValidCore;
    forall k: nat | k < inode.size
      ensures There(img, inode.inodeData * core.blockSize, inode.size) ==> GetInodeBlock(img, core, inode, k).Ok?
      ensures GetInodeBlock(img, core, inode, k).Ok? ==> inode.inodeData * core.blockSize + k < |img|
      ensures Readable(img, core, inode) ==>
        |Content(img, core, inode)| == inode.size
        && Content(img, core, inode)[k] == img[inode.inodeData * core.blockSize + k]
    {
      PlainByte(img, core, inode, k);
    }
    if Readable(img, core, inode) && inode.size > 0 {
      assert GetInodeBlock(img, core, inode, inode.size - 1).Ok?;
    } else if Readable(img, core, inode) {
      ContentSize(img, core, inode);
    }
  }

  // ----- The last part of the data behind the inode -----

  lemma LastBlock(q: nat, b: nat, k: nat)
    requires q * b <= k < q * b + b
    ensures k / b == q && BlockStart(k, b) == q * b
  {
    DivUnique(k, b, q, k - q * b);
  }

  lemma EarlierBlock(q: nat, b: nat, k: nat)
    requires b > 0 && k < q * b
    ensures k / b < q && BlockStart(k, b) + b <= q * b
  {
    var m: nat := k / b;
    Whole(k, b);
    MulOrder(m, q, b);
  }

  lemma SizeParts(size: nat, b: nat)
    requires b > 0
    ensures size == Quotient(size, b) * b + size % b && Quotient(size, b) * b == size - size % b
    ensures DivCeil(size, b) == Quotient(size, b) + if size % b == 0 then 0 else 1
  {
    Whole(size, b);
  }

  lemma InTail(size: nat, b: nat, k: nat)
    requires b > 0 && k < size
    ensures k / b == DivCeil(size, b) - 1 && size % b != 0 <==> k >= size - size % b
    ensures k >= size - size % b ==> BlockStart(k, b) == size - size % b && LengthAt(size, b, k) == size % b
    ensures k < size - size % b ==> LengthAt(size, b, k) == b && BlockStart(k, b) + b <= size - size % b
  {
    var q := Quotient(size, b);
    SizeParts(size, b);
    hide DivCeil, Quotient, BlockStart;
    if k >= q * b {
      LastBlock(q, b, k);
    } else {
      EarlierBlock(q, b, k);
    }
  }

  /** How much of the data is whole blocks. */
  function WholePart(size: nat, b: nat): (r: nat)
    requires b > 0
    ensures r <= size
  {
    size - size % b
  }

  /** The address of byte `k` of two pieces, the first of `whole` bytes. */
  function InParts(from: nat, whole: nat, end: nat, k: nat): nat {
    if k >= whole then end + (k - whole) else from + k
  }

  /** Where byte `k` of inline data lies. */
  function InlineAddress(core: Core, inode: Inode, k: nat): nat
    requires core.blockSize > 0
  {
    InParts(inode.inodeData * core.blockSize, WholePart(inode.size, core.blockSize), Behind(core, inode), k)
  }

  /** Where the block around byte `k` starts. */
  function InlineStart(core: Core, inode: Inode, k: nat): nat
    requires core.blockSize > 0
  {
    if k >= WholePart(inode.size, core.blockSize) then Behind(core, inode)
    else inode.inodeData * core.blockSize + BlockStart(k, core.blockSize)
  }

  /** The block around `k` holds byte `k`, and ends inside its part of the data. */
  lemma InlineParts(core: Core, inode: Inode, k: nat)
    requires core.blockSize > 0 && k < inode.size
    ensures var b := core.blockSize;
            var from, len, whole := InlineStart(core, inode, k), LengthAt(inode.size, b, k), WholePart(inode.size, b);
            && k % b < len && from + k % b == InlineAddress(core, inode, k)
            && from + len <= if k >= whole then Behind(core, inode) + (inode.size - whole)
                             else inode.inodeData * b + whole
  {
    hide Behind, DivCeil;
    InTail(inode.size, core.blockSize, k);
  }

  lemma InlineBlock(img: seq<byte>, core: Core, inode: Inode, k: nat)
    requires Context(img, core, inode) && inode.GetLayout() == Ok(FlatInline) && k < inode.size
    ensures var from, len := InlineStart(core, inode, k), LengthAt(inode.size, core.blockSize, k);
            && (GetInodeBlock(img, core, inode, k).Ok? <==> from + len <= |img|)
            && (from + len <= |img| ==> GetInodeBlock(img, core, inode, k).value == img[from..from + len])
  {
    InTail(inode.size, core.blockSize, k);
    BehindIsEnd(core, inode);
    FlatBlock(img, core, inode, k);
    hide PlanFlatBlock, GetInodeBlock, DivCeil, InodeEnd, Behind;
    DirectRead(img, core, inode, k, InlineStart(core, inode, k), LengthAt(inode.size, core.blockSize, k));
  }

  lemma InlineByte(img: seq<byte>, core: Core, inode: Inode, k: nat)
    requires Context(img, core, inode) && inode.GetLayout() == Ok(FlatInline) && k < inode.size
    ensures var whole := WholePart(inode.size, core.blockSize);
            There(img, inode.inodeData * core.blockSize, whole) && There(img, Behind(core, inode), inode.size - whole)
            ==> GetInodeBlock(img, core, inode, k).Ok?
    ensures GetInodeBlock(img, core, inode, k).Ok? ==> InlineAddress(core, inode, k) < |img|
    ensures Readable(img, core, inode) ==>
      |Content(img, core, inode)| == inode.size
      && Content(img, core, inode)[k] == img[InlineAddress(core, inode, k)]
  {
    hide GetInodeBlock, Inode.GetLayout, Content, ContentFrom, Behind, WholePart, InlineStart, InlineAddress, LengthAt;
    InlineParts(core, inode, k);
    InlineBlock(img, core, inode, k);
    if Readable(img, core, inode) {
      ContentByte(img, core, inode, k);
    }
  }

  lemma TwoPieces(content: seq<byte>, img: seq<byte>, from: nat, whole: nat, end: nat)
    requires whole <= |content|
    requires forall k: nat :: k < |content| ==>
      InParts(from, whole, end, k) < |img| && content[k] == img[InParts(from, whole, end, k)]
    ensures There(img, from, whole) && There(img, end, |content| - whole)
    ensures content == Piece(img, from, whole) + Piece(img, end, |content| - whole)
  {
    assert whole > 0 ==> InParts(from, whole, end, whole - 1) == from + (whole - 1);
    assert whole < |content| ==> InParts(from, whole, end, |content| - 1) == end + (|content| - 1 - whole);
  }

  /** Inline data: whole blocks in one piece from the first block on, the rest right behind the inode. */
  lemma InlineContent(img: seq<byte>, core: Core, inode: Inode)
    requires Context(img, core, inode) && inode.GetLayout() == Ok(FlatInline)
    ensures var from, end := inode.inodeData * core.blockSize, Behind(core, inode);
            var whole := WholePart(inode.size, core.blockSize);
            && (Readable(img, core, inode) <==> There(img, from, whole) && There(img, end, inode.size - whole))
            && (Readable(img, core, inode) ==>
                  Content(img, core, inode) == Piece(img, from, whole) + Piece(img, end, inode.size - whole))
  {
    hide GetInodeBlock, Inode.GetLayout, Content, ValidCore, Behind, WholePart;
    forall k: nat | k < inode.size
      ensures There(img, inode.inodeData * core.blockSize, WholePart(inode.size, core.blockSize))
              && There(img, Behind(core, inode), inode.size - WholePart(inode.size, core.blockSize))
              ==> GetInodeBlock(img, core, inode, k).Ok?
      ensures GetInodeBlock(img, core, inode, k).Ok? ==> InlineAddress(core, inode, k) < |img|
      ensures Readable(img, core, inode) ==>
        && |Content(img, core, inode)| == inode.size && InlineAddress(core, inode, k) < |img|
        && Content(img, core, inode)[k] == img[InlineAddress(core, inode, k)]
    {
      hide There, InParts;
      InlineByte(img, core, inode, k);
    }
    if Readable(img, core, inode) {
      hide There, Piece, InParts;
      ContentSize(img, core, inode);
      forall k: nat | k < inode.size
        ensures var at := InParts(inode.inodeData * core.blockSize, WholePart(inode.size, core.blockSize),
                                  Behind(core, inode), k);
                at < |img| && Content(img, core, inode)[k] == img[at]
      {
        assert InlineAddress(core, inode, k) < |img|;
      }
      TwoPieces(Content(img, core, inode), img, inode.inodeData * core.blockSize,
                WholePart(inode.size, core.blockSize), Behind(core, inode));
    }
  }

  // ----- Chunks -----

  /** The size of a chunk: a power of two blocks, from the low five bits of the data word. */
  function ChunkSize(core: Core, inode: Inode): (c: nat)
    ensures c > 0
  {
    Pow2(core.sb.blkSizeBits + inode.inodeData % 32)
  }

  function Remainder(a: nat, b: nat): nat
    requires b > 0
  {
    a % b
  }

  /** Where the address of the chunk around `k` is stored. */
  function EntryAddress(core: Core, inode: Inode, k: nat): nat {
    Behind(core, inode) + 4 * Quotient(k, ChunkSize(core, inode))
  }

  /** The first block of the chunk around `k`. */
  function FirstBlock(img: seq<byte>, core: Core, inode: Inode, k: nat): nat
    requires EntryAddress(core, inode, k) + 4 <= |img|
  {
    var t := EntryAddress(core, inode, k);
    LeVal(img[t..t + 4])
  }

  /** Where byte `k` lies: so far into the chunk as in the content. */
  function ChunkAddress(img: seq<byte>, core: Core, inode: Inode, k: nat): nat
    requires EntryAddress(core, inode, k) + 4 <= |img|
  {
    FirstBlock(img, core, inode, k) * core.blockSize + Remainder(k, ChunkSize(core, inode))
  }

  /** The entry is there and no hole, the block number fits its word, and the rest of the block of byte `k`
      is in the image. */
  ghost predicate ChunkThere(img: seq<byte>, core: Core, inode: Inode, k: nat)
    requires core.blockSize > 0 && k < inode.size
  {
    && EntryAddress(core, inode, k) + 4 <= |img|
    && 0 < FirstBlock(img, core, inode, k) < 0x8000_0000
    && Quotient(ChunkAddress(img, core, inode, k), core.blockSize) <= U32_MAX
    && ChunkAddress(img, core, inode, k) - Remainder(k, core.blockSize)
       + LengthAt(inode.size, core.blockSize, k) <= |img|
  }

  lemma Distributes(x: nat, y: nat, b: nat)
    ensures (x + y) * b == x * b + y * b
  {
  }

  lemma SplitSum(first: nat, inner: nat, b: nat)
    requires b > 0
    ensures Quotient(first * b + inner, b) == first + Quotient(inner, b)
    ensures first * b + inner == (first + Quotient(inner, b)) * b + Remainder(inner, b)
  {
    var f: nat := inner / b;
    assert inner == f * b + inner % b;
    Distributes(first, f, b);
    DivUnique(first * b + inner, b, first + f, inner % b);
  }

  lemma Whole(a: nat, b: nat)
    requires b > 0
    ensures a == a / b * b + a % b
  {
  }

  /** A chunk is whole blocks: the place in the block is the same in the chunk and in the content. */
  lemma InChunk(k: nat, b: nat, n: nat)
    requires b > 0 && n > 0
    ensures var c := b * n;
            && c > 0 && Remainder(Remainder(k, c), b) == Remainder(k, b)
            && Quotient(k, c) * c + Quotient(Remainder(k, c), b) * b == BlockStart(k, b)
  {
    ChunkFileOffset(k, b, n);
    Whole(k, b * n);
    Whole(k, b);
    Whole(k % (b * n), b);
  }

  lemma ChunkBlocks(core: Core, inode: Inode, k: nat)
    requires ValidCore(core) && core.blockSize > 0
    ensures var b, c := core.blockSize, ChunkSize(core, inode);
            && Remainder(Remainder(k, c), b) == Remainder(k, b)
            && Quotient(k, c) * c + Quotient(Remainder(k, c), b) * b == BlockStart(k, b)
  {
    Pow2Sum(inode.inodeData % 32, core.sb.blkSizeBits);
    hide Pow2;
    InChunk(k, core.blockSize, Pow2(inode.inodeData % 32));
  }

  lemma ChunkPlanIs(core: Core, inode: Inode, k: nat, c: nat, q: nat, end: nat)
    requires core.blockSize > 0 && inode.inodeData % 0x1_0000 < 0x20
    requires c > 0 && c == Pow2(inode.inodeData % 0x1_0000 + core.sb.blkSizeBits)
    requires PieceIndex(inode.size, c, k) == Ok(q)
    requires InodeEnd(core, inode) == if end <= U64_MAX then Ok(end) else Err(AddressOverflow)
    ensures PlanChunkBlock(core, inode, k)
            == if end + 4 * q > U64_MAX then Err(AddressOverflow)
               else Ok(Chunked(end + 4 * q, Quotient(Remainder(k, c), core.blockSize), c, inode.size, q))
  {
    hide Pow2, InodeEnd, PieceIndex, Quotient;
  }

  /** The plan of a chunk read: the entry's address, and the block inside the chunk. */
  lemma ChunkPlan(core: Core, inode: Inode, k: nat)
    requires core.blockSize > 0 && k < inode.size && inode.inodeData % 0x1_0000 < 0x20
    ensures var c, t := ChunkSize(core, inode), EntryAddress(core, inode, k);
            PlanChunkBlock(core, inode, k)
            == if t > U64_MAX then Err(AddressOverflow)
               else Ok(Chunked(t, Quotient(Remainder(k, c), core.blockSize), c, inode.size, Quotient(k, c)))
  {
    var c := ChunkSize(core, inode);
    assert inode.inodeData % 32 == inode.inodeData % 0x1_0000;
    assert c == Pow2(inode.inodeData % 0x1_0000 + core.sb.blkSizeBits);
    hide ChunkSize, PlanChunkBlock, InodeEnd, Behind, Pow2;
    IndexInside(inode.size, c, k);
    BehindIsEnd(core, inode);
    ChunkPlanIs(core, inode, k, c, Quotient(k, c), Behind(core, inode));
  }

  /** Resolving it: the block that many blocks behind the chunk's first one. */
  lemma ChunkResolved(core: Core, plan: BlockPlan, raw: nat, at: nat)
    requires plan.Chunked? && at < plan.dataSize <= U64_MAX
    requires plan.chunkIndex * plan.chunkSize + plan.chunkFixed * core.blockSize == at
    requires core.blockSize > 0
    ensures ResolveChunkRead(core, raw, plan)
            == if raw == 0 || raw >= 0x8000_0000 then Err(SparseChunk)
               else if raw + plan.chunkFixed > U32_MAX then Err(AddressOverflow)
               else Ok(((raw + plan.chunkFixed) * core.blockSize, Min(core.blockSize, plan.dataSize - at)))
  {
  }

  lemma IndexRefused(img: seq<byte>, core: Core, inode: Inode, k: nat)
    requires core.blockSize > 0 && inode.GetLayout() == Ok(ChunkBased)
    ensures inode.inodeData % 0x1_0000 >= 0x20 ==> GetInodeBlock(img, core, inode, k).Err?
  {
  }

  /** Reading through a chunk's entry. */
  lemma ThroughEntry(img: seq<byte>, core: Core, inode: Inode, k: nat, plan: BlockPlan)
    requires Context(img, core, inode) && inode.GetLayout() == Ok(ChunkBased)
    requires plan.Chunked? && PlanChunkBlock(core, inode, k)
             == if plan.addrOffset > U64_MAX then Err(AddressOverflow) else Ok(plan)
    ensures plan.addrOffset + 4 > |img| ==> GetInodeBlock(img, core, inode, k).Err?
    ensures plan.addrOffset + 4 <= |img| ==>
      var read := ResolveChunkRead(core, LeVal(img[plan.addrOffset..plan.addrOffset + 4]), plan);
      if read.Err? || read.value.0 + read.value.1 > |img| then GetInodeBlock(img, core, inode, k).Err?
      else GetInodeBlock(img, core, inode, k) == Ok(img[read.value.0..read.value.0 + read.value.1])
  {
    hide PlanChunkBlock, ResolveChunkRead, LeVal, ValidCore;
  }

  /** The block read for byte `k` starts where byte `k` lies, less its place in the block. */
  lemma ChunkParts(core: Core, inode: Inode, k: nat, raw: nat)
    requires ValidCore(core) && core.blockSize > 0 && k < inode.size
    ensures var b, inner := core.blockSize, Remainder(k, ChunkSize(core, inode));
            && Quotient(raw * b + inner, b) == raw + Quotient(inner, b)
            && raw * b + inner == (raw + Quotient(inner, b)) * b + Remainder(k, b)
            && Remainder(k, b) < LengthAt(inode.size, b, k)
  {
    ChunkBlocks(core, inode, k);
    SplitSum(raw, Remainder(k, ChunkSize(core, inode)), core.blockSize);
    assert Remainder(k, core.blockSize) == k - BlockStart(k, core.blockSize) < core.blockSize;
    hide ChunkSize, ValidCore, Quotient, Remainder, BlockStart;
  }

  /** The block around byte `k` can be read exactly when its chunk is there, and holds byte `k` at its address. */
  lemma ChunkBlock(img: seq<byte>, core: Core, inode: Inode, k: nat)
    requires Context(img, core, inode) && inode.GetLayout() == Ok(ChunkBased) && k < inode.size
    ensures GetInodeBlock(img, core, inode, k).Ok?
            <==> inode.inodeData % 0x1_0000 < 0x20 && ChunkThere(img, core, inode, k)
    ensures GetInodeBlock(img, core, inode, k).Ok? ==>
      var inner := Remainder(k, core.blockSize);
      var block := GetInodeBlock(img, core, inode, k).value;
      && inner < |block| && ChunkThere(img, core, inode, k) && ChunkAddress(img, core, inode, k) < |img|
      && block[inner] == img[ChunkAddress(img, core, inode, k)]
  {
    hide GetInodeBlock, Inode.GetLayout, ChunkSize, EntryAddress, ResolveChunkRead, PlanChunkBlock, ValidCore, Quotient,
      Remainder, LengthAt, LeVal, BlockStart;
    IndexRefused(img, core, inode, k);
    if inode.inodeData % 0x1_0000 < 0x20 {
      var b, c, t := core.blockSize, ChunkSize(core, inode), EntryAddress(core, inode, k);
      ChunkPlan(core, inode, k);
      var plan := Chunked(t, Quotient(Remainder(k, c), b), c, inode.size, Quotient(k, c));
      ThroughEntry(img, core, inode, k, plan);
      if t + 4 <= |img| {
        var raw := FirstBlock(img, core, inode, k);
        ChunkBlocks(core, inode, k);
        LengthIs(inode.size, b, k);
        ChunkResolved(core, plan, raw, BlockStart(k, b));
        ChunkParts(core, inode, k, raw);
      }
    }
  }

  /** Chunked data can be read exactly when it has no chunk index and every chunk is there; each byte lies
      as far behind the block its chunk's entry names as it lies in its chunk. */
  lemma ChunkContent(img: seq<byte>, core: Core, inode: Inode)
    requires Context(img, core, inode) && inode.GetLayout() == Ok(ChunkBased)
    ensures Readable(img, core, inode) <==>
      inode.size == 0
      || (inode.inodeData % 0x1_0000 < 0x20 && forall k: nat :: k < inode.size ==> ChunkThere(img, core, inode, k))
    ensures Readable(img, core, inode) ==>
      && |Content(img, core, inode)| == inode.size
      && forall k: nat :: k < inode.size ==>
           ChunkThere(img, core, inode, k) && ChunkAddress(img, core, inode, k) < |img|
           && Content(img, core, inode)[k] == img[ChunkAddress(img, core, inode, k)]
  {
    hide GetInodeBlock, Inode.GetLayout, Content, ContentFrom, ValidCore, ChunkAddress, EntryAddress, FirstBlock,
      Quotient;
    forall k: nat | k < inode.size
      ensures GetInodeBlock(img, core, inode, k).Ok?
              <==> inode.inodeData % 0x1_0000 < 0x20 && ChunkThere(img, core, inode, k)
    {
      ChunkBlock(img, core, inode, k);
    }
    if Readable(img, core, inode) {
      ContentSize(img, core, inode);
      forall k: nat | k < inode.size
        ensures ChunkThere(img, core, inode, k) && ChunkAddress(img, core, inode, k) < |img|
        ensures Content(img, core, inode)[k] == img[ChunkAddress(img, core, inode, k)]
      {
        ChunkBlock(img, core, inode, k);
        ContentByte(img, core, inode, k);
      }
    }
    assert inode.size > 0 && Readable(img, core, inode) ==> GetInodeBlock(img, core, inode, 0).Ok?;
  }
}
