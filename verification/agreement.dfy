/** The locator and the reader compute addresses independently. On every image the reader opens they
    agree. */
module AddressAgreement {
  import opened Arithmetic
  import opened Bytes
  import opened Results
  import opened Format
  import L = Locators
  import R = Reader
  import T = Types

  /** Both opened the same image. */
  ghost predicate BothOpen(img: seq<byte>, mode: L.ParseMode, core: R.Core, l: L.Locator) {
    && |img| < IMAGE_LIMIT
    && R.Open(img) == Ok(core)
    && L.OpenLocator(img, mode) == Ok(l)
  }

  lemma FieldAt(img: seq<byte>, base: nat, at: nat, len: nat)
    requires base + at + len <= |img|
    ensures LeVal(img[base..][at..at + len]) == NumberAt(img, base + at, len)
  {
    hide LeVal;
    assert img[base..] == img[base..|img|];
    SubSlice(img, base, |img|, at, at + len);
  }

  /** What the two keep of the superblock. */
  lemma ContextAgrees(img: seq<byte>, mode: L.ParseMode, core: R.Core, l: L.Locator)
    requires BothOpen(img, mode, core, l)
    ensures l.Valid() && l.image == img
    ensures core.sb.metaBlkAddr == l.sb.metaBlkAddr && core.sb.blkSizeBits == l.sb.blkSizeBits
    ensures 9 <= l.sb.blkSizeBits <= 24 && core.blockSize == Pow2(l.sb.blkSizeBits)
    ensures core.sb.featureIncompat == l.sb.featureIncompat && !L.Has(l.sb.featureIncompat, 0x80)
  {
    hide LeVal;
    FieldAt(img, 1024, 40, 4);
    FieldAt(img, 1024, 80, 4);
  }

  /** The parsed inode at `base` is the located one, field by field. */
  ghost predicate SameInode(l: L.Locator, base: nat, inode: T.Inode) {
    && l.Slot(base)
    && inode.format == l.FormatAt(base)
    && (inode.Compact? <==> l.FormatAt(base) % 2 == 0)
    && inode.size == l.SizeAt(base)
    && inode.xattrCount == U16At(l.image, base + 2)
    && inode.inodeData == U32At(l.image, base + 16)
  }

  lemma InodeFields(img: seq<byte>, base: nat)
    requires base + 32 <= |img|
    ensures LeVal(img[base..][0..2]) == U16At(img, base) && LeVal(img[base..][2..4]) == U16At(img, base + 2)
    ensures LeVal(img[base..][8..12]) == U32At(img, base + 8)
    ensures LeVal(img[base..][16..20]) == U32At(img, base + 16)
    ensures base + 64 <= |img| ==> LeVal(img[base..][8..16]) == U64At(img, base + 8)
  {
    hide LeVal;
    FieldAt(img, base, 0, 2);
    FieldAt(img, base, 2, 2);
    FieldAt(img, base, 8, 4);
    FieldAt(img, base, 16, 4);
    if base + 64 <= |img| {
      FieldAt(img, base, 8, 8);
    }
  }

  /** The bytes of a slot parse as the inode the locator sees there. */
  lemma SlotParses(l: L.Locator, base: nat, nid: nat)
    requires l.Slot(base)
    ensures R.ParseInode(l.image[base..], nid).Ok?
    ensures SameInode(l, base, R.ParseInode(l.image[base..], nid).value)
  {
    hide LeVal, U16At, U32At, U64At;
    InodeFields(l.image, base);
  }

  /** Whatever inode the locator finds, the reader reads the same one at the same address. */
  lemma InodeAgrees(img: seq<byte>, mode: L.ParseMode, core: R.Core, l: L.Locator, nid: u64)
    requires BothOpen(img, mode, core, l) && l.Valid() && l.LocateInode(L.Primary, nid).Ok?
    ensures var base := l.LocateInode(L.Primary, nid).value.base;
            && R.InodeOffset(core, nid) == Ok(base)
            && R.GetInode(img, core, nid).Ok?
            && SameInode(l, base, R.GetInode(img, core, nid).value)
  {
    hide L.Locator.LocateInode, R.Open, L.OpenLocator, Pow2, R.ParseInode, SameInode, U16At, U32At, U64At;
    ContextAgrees(img, mode, core, l);
    SlotParses(l, l.LocateInode(L.Primary, nid).value.base, nid);
  }

  /** Whatever image the reader opens, the locator opens too, in strict mode as well. */
  lemma BothOpenTogether(img: seq<byte>, mode: L.ParseMode)
    requires |img| < IMAGE_LIMIT && R.Open(img).Ok?
    ensures L.OpenLocator(img, mode).Ok?
    ensures BothOpen(img, mode, R.Open(img).value, L.OpenLocator(img, mode).value)
  {
    hide LeVal;
    FieldAt(img, 1024, 0, 4);
    FieldAt(img, 1024, 80, 4);
  }

  lemma StrictFormat(l: L.Locator, nid: u64)
    requires l.Valid() && l.LocateInode(L.Primary, nid).Ok? && l.mode.Strict?
    ensures l.FormatAt(l.LocateInode(L.Primary, nid).value.base) < 0x20
  {
    hide U16At;
  }

  lemma BlockAddressFits(meta: nat, bits: nat)
    requires meta <= U32_MAX && bits <= 24
    ensures Pow2(bits) <= 0x100_0000 && meta * Pow2(bits) < WORD
  {
    Pow2Words();
    Pow2Grows(bits, 24);
    Pow2Sum(16, 8);
    MulOrder(meta, U32_MAX + 1, Pow2(bits));
    assert (U32_MAX + 1) * Pow2(bits) <= 0x1_0000_0000 * 0x100_0000;
  }

  lemma ReadableIsLocated(img: seq<byte>, core: R.Core, l: L.Locator, nid: u64)
    requires l.Valid() && l.image == img && 9 <= l.sb.blkSizeBits <= 24
    requires core.sb.metaBlkAddr == l.sb.metaBlkAddr && core.blockSize == Pow2(l.sb.blkSizeBits)
    requires R.GetInode(img, core, nid).Ok?
    requires l.mode.Strict? ==> R.GetInode(img, core, nid).value.format < 0x20
    ensures l.LocateInode(L.Primary, nid).Ok?
  {
    hide LeVal, U16At, Pow2;
    BlockAddressFits(l.sb.metaBlkAddr, l.sb.blkSizeBits);
    var base := R.InodeOffset(core, nid).value;
    InodeFields(img, base);
  }

  /** The locator finds exactly the inodes the reader reads; in strict mode, those of them whose format
      has no reserved bit set. */
  lemma InodeFoundExactly(img: seq<byte>, mode: L.ParseMode, core: R.Core, l: L.Locator, nid: u64)
    requires BothOpen(img, mode, core, l) && l.Valid()
    ensures l.LocateInode(L.Primary, nid).Ok?
            <==> R.GetInode(img, core, nid).Ok?
                 && (mode.Strict? ==> R.GetInode(img, core, nid).value.format < 0x20)
  {
    hide R.Open, L.OpenLocator, L.Locator.LocateInode, R.GetInode, R.InodeOffset, Pow2, U16At, U32At, U64At;
    ContextAgrees(img, mode, core, l);
    assert l.mode == mode;
    if l.LocateInode(L.Primary, nid).Ok? {
      InodeAgrees(img, mode, core, l, nid);
      if mode.Strict? {
        StrictFormat(l, nid);
      }
    } else if R.GetInode(img, core, nid).Ok?
              && (mode.Strict? ==> R.GetInode(img, core, nid).value.format < 0x20) {
      ReadableIsLocated(img, core, l, nid);
    }
  }

  lemma LastBlock(size: nat, b: nat)
    requires b > 0 && size > 0
    ensures Quotient(size - 1, b) == DivCeil(size, b) - 1
  {
    var q, r := size / b, size % b;
    assert size == q * b + r;
    if r == 0 {
      assert q > 0;
      DivUnique(size - 1, b, q - 1, b - 1);
    } else {
      DivUnique(size - 1, b, q, r - 1);
    }
  }

  lemma BlockOf(block: nat, b: nat)
    requires b > 0
    ensures block * b / b == block
  {
    DivUnique(block * b, b, block, 0);
  }

  lemma BlockLimit(block: nat, size: nat, b: nat)
    requires b > 0 && block * b < size
    ensures block < DivCeil(size, b)
  {
    LastBlock(size, b);
    var q, r := (size - 1) / b, (size - 1) % b;
    assert size - 1 == q * b + r;
    MulOrder(q, block, b);
  }

  /** Inside the last block `size - block * b` bytes are left, and that is the tail. */
  lemma TailSize(block: nat, size: nat, b: nat)
    requires b > 0 && block * b < size
    ensures Min(size - block * b, b)
            == if block == Quotient(size - 1, b) && size % b != 0 then size % b else b
  {
    var q, r := (size - 1) / b, (size - 1) % b;
    assert size - 1 == q * b + r;
    MulOrder(block, q, b);
    MulOrder(q, block, b);
    if r + 1 == b {
      assert size == (q + 1) * b;
      DivUnique(size, b, q + 1, 0);
    } else {
      DivUnique(size, b, q, r + 1);
    }
  }

  /** A directory block: same address, same number of bytes, whenever the locator knows it. */
  lemma DirectoryBlockAgrees(
      img: seq<byte>, mode: L.ParseMode, core: R.Core, l: L.Locator, inode: T.Inode, base: nat, block: u64)
    requires BothOpen(img, mode, core, l) && l.Valid() && l.sb.blkSizeBits < 64
    requires SameInode(l, base, inode) && R.InodeOffset(core, inode.nid) == Ok(base)
    requires l.DirectoryBlock(base, block).Ok?
    ensures var found := l.DirectoryBlock(base, block).value;
            core.blockSize > 0
            && R.PlanInodeBlockRead(core, inode, block * core.blockSize) == Ok(R.Direct(found.0, found.1))
  {
    hide U16At, U32At, U64At, Pow2, DivCeil, Quotient, R.Open, L.OpenLocator;
    ContextAgrees(img, mode, core, l);
    var b := core.blockSize;
    LastBlock(inode.size, b);
    BlockOf(block, b);
    BlockLimit(block, inode.size, b);
    TailSize(block, inode.size, b);
  }

  /** The locator's address of entry `index` of directory block `block` is the reader's planned block
      address plus twelve bytes per entry, with the same bytes available. */
  lemma DirentAddressesAgree(
      img: seq<byte>, mode: L.ParseMode, core: R.Core, l: L.Locator, nid: u64, block: u64, index: u32)
    requires BothOpen(img, mode, core, l) && l.Valid() && l.LocateDirent(nid, block, index).Ok?
    ensures R.GetInode(img, core, nid).Ok? && core.blockSize > 0
    ensures var plan := R.PlanInodeBlockRead(core, R.GetInode(img, core, nid).value, block * core.blockSize);
            && plan.Ok? && plan.value.Direct?
            && l.LocateDirent(nid, block, index).value.base == plan.value.offset + 12 * index
            && 12 * index + 12 <= plan.value.size
  {
    hide L.Locator.LocateInode, L.Locator.DirectoryBlock, R.Open, L.OpenLocator, U16At, Pow2;
    hide R.PlanInodeBlockRead, R.GetInode, R.InodeOffset, SameInode;
    ContextAgrees(img, mode, core, l);
    InodeAgrees(img, mode, core, l, nid);
    var base := l.LocateInode(L.Primary, nid).value.base;
    DirectoryBlockAgrees(img, mode, core, l, R.GetInode(img, core, nid).value, base, block);
  }

  lemma CeilAgrees(size: nat, unit: nat)
    requires unit > 0
    ensures Quotient(size + unit - 1, unit) == DivCeil(size, unit)
  {
    var q, r := size / unit, size % unit;
    assert size == q * unit + r;
    if r == 0 {
      DivUnique(size + unit - 1, unit, q, unit - 1);
    } else {
      assert size + unit - 1 == (q + 1) * unit + (r - 1);
      DivUnique(size + unit - 1, unit, q + 1, r - 1);
    }
  }

  /** The table behind an inode is 4-byte aligned already. */
  lemma TableAligned(l: L.Locator, base: nat)
    requires l.Valid() && l.Slot(base) && base % 4 == 0
    ensures RoundUp(l.TailAt(base).end, 4) == l.TailAt(base).end
  {
    hide RoundUp, U16At;
    Rounded(l.TailAt(base).end);
  }

  /** The chunk format is the low half of the data address. */
  lemma LowHalf(img: seq<byte>, at: nat)
    requires at + 4 <= |img|
    ensures U16At(img, at) == U32At(img, at) % 0x1_0000
  {
    hide LeVal;
    LeVal2(img, at);
    LeVal4(img, at);
  }

  /** What lies behind an inode and its xattrs. */
  lemma EndAgrees(core: R.Core, l: L.Locator, inode: T.Inode, base: nat)
    requires l.Valid() && SameInode(l, base, inode)
    requires R.InodeOffset(core, inode.nid) == Ok(base)
    ensures R.InodeEnd(core, inode) == Ok(l.TailAt(base).end)
  {
    hide U16At, U32At, U64At, R.InodeOffset;
  }

  /** File offset `offset` is in chunk `chunk` of the inode at `base`, whose table has 4-byte entries. */
  ghost predicate InChunk(l: L.Locator, base: nat, chunk: nat, offset: nat) {
    && base + 32 <= |l.image| && U16At(l.image, base + 16) < 0x20
    && offset / Pow2(U16At(l.image, base + 16) + l.sb.blkSizeBits) == chunk
  }

  /** A 4-byte chunk table: same entry address and same number of entries. */
  ghost predicate SameEntry(core: R.Core, l: L.Locator, inode: T.Inode, base: nat, entry: nat, offset: nat)
    requires l.Valid() && l.Slot(base) && core.blockSize > 0
  {
    var plan := R.PlanInodeBlockRead(core, inode, offset);
    && plan.Ok? && plan.value.Chunked?
    && plan.value.addrOffset == entry
    && plan.value.chunkSize > 0
    && l.ChunkCount(base) == Ok(DivCeil(inode.size, plan.value.chunkSize))
  }

  lemma EntryParts(l: L.Locator, base: nat, chunk: u64, offset: nat)
    requires l.Valid() && l.Slot(base) && base % 4 == 0
    requires l.ChunkEntryAt(base, chunk).Ok? && InChunk(l, base, chunk, offset)
    ensures l.FormatAt(base) / 2 % 8 == 4
    ensures l.ChunkEntryAt(base, chunk).value.base == l.TailAt(base).end + chunk * 4 < WORD
    ensures var chunkSize := Pow2(U16At(l.image, base + 16) + l.sb.blkSizeBits);
            l.ChunkCount(base) == Ok(DivCeil(l.SizeAt(base), chunkSize))
            && chunk < DivCeil(l.SizeAt(base), chunkSize)
  {
    hide U16At, U32At, U64At, Pow2, DivCeil, Quotient, RoundUp, L.Locator.TailAt;
    TableAligned(l, base);
    CeilAgrees(l.SizeAt(base), Pow2(U16At(l.image, base + 16) + l.sb.blkSizeBits));
  }

  /** The reader's plan for an offset in chunk `chunk`, behind an inode that ends at `end`. */
  lemma ChunkPlan(core: R.Core, inode: T.Inode, end: nat, chunk: nat, offset: nat)
    requires core.blockSize > 0 && R.InodeEnd(core, inode) == Ok(end)
    requires inode.format / 2 % 8 == 4 && inode.inodeData % 0x1_0000 < 0x20
    requires offset / Pow2(inode.inodeData % 0x1_0000 + core.sb.blkSizeBits) == chunk
    requires chunk < DivCeil(inode.size, Pow2(inode.inodeData % 0x1_0000 + core.sb.blkSizeBits))
    requires end + chunk * 4 < WORD
    ensures var plan := R.PlanInodeBlockRead(core, inode, offset);
            && plan.Ok? && plan.value.Chunked? && plan.value.addrOffset == end + chunk * 4
            && plan.value.chunkSize == Pow2(inode.inodeData % 0x1_0000 + core.sb.blkSizeBits)
  {
    hide Pow2, DivCeil, Quotient, R.InodeEnd;
  }

  lemma ChunkEntryAgrees(core: R.Core, l: L.Locator, inode: T.Inode, base: nat, chunk: u64, offset: nat)
    requires l.Valid() && SameInode(l, base, inode) && base % 4 == 0
    requires R.InodeOffset(core, inode.nid) == Ok(base)
    requires core.sb.blkSizeBits == l.sb.blkSizeBits && core.blockSize > 0
    requires l.ChunkEntryAt(base, chunk).Ok? && InChunk(l, base, chunk, offset)
    ensures SameEntry(core, l, inode, base, l.ChunkEntryAt(base, chunk).value.base, offset)
  {
    hide U16At, U32At, U64At, Pow2, DivCeil, Quotient, RoundUp, R.InodeEnd, R.InodeOffset, L.Locator.TailAt;
    hide L.Locator.ChunkEntryAt, L.Locator.ChunkCount, R.PlanInodeBlockRead;
    EndAgrees(core, l, inode, base);
    LowHalf(l.image, base + 16);
    EntryParts(l, base, chunk, offset);
    ChunkPlan(core, inode, l.TailAt(base).end, chunk, offset);
  }

  /** A located chunk entry lies in the table behind an inode, whose slot is aligned. */
  lemma ChunkParts(l: L.Locator, nid: u64, chunk: u64)
    requires l.Valid() && l.LocateChunk(nid, chunk).Ok? && l.sb.blkSizeBits >= 2
    ensures l.InodeTail(nid).Ok? && l.LocateInode(L.Primary, nid).Ok?
    ensures l.InodeTail(nid).value.base == l.LocateInode(L.Primary, nid).value.base
    ensures l.InodeTail(nid).value.base % 4 == 0
    ensures l.ChunkEntryAt(l.InodeTail(nid).value.base, chunk) == l.LocateChunk(nid, chunk)
  {
    hide L.Locator.LocateInode, L.Locator.ChunkEntryAt, L.Locator.InodeTail, PrimaryInodeOffset, Pow2;
    SlotAligned(l.sb.metaBlkAddr, l.sb.blkSizeBits, nid);
  }

  /** The locator's address of a 4-byte chunk entry is the one the reader plans to read for every
      offset in the chunk, and both count the same number of entries. */
  lemma ChunkAddressesAgree(
      img: seq<byte>, mode: L.ParseMode, core: R.Core, l: L.Locator, nid: u64, chunk: u64, offset: nat)
    requires BothOpen(img, mode, core, l) && l.Valid() && l.LocateChunk(nid, chunk).Ok?
    requires InChunk(l, l.InodeTail(nid).value.base, chunk, offset)
    ensures R.GetInode(img, core, nid).Ok? && core.blockSize > 0
    ensures SameEntry(core, l, R.GetInode(img, core, nid).value, l.InodeTail(nid).value.base,
                      l.LocateChunk(nid, chunk).value.base, offset)
  {
    hide L.Locator.LocateInode, L.Locator.ChunkEntryAt, L.Locator.ChunkCount, R.Open, L.OpenLocator, U16At, Pow2;
    hide R.PlanInodeBlockRead, R.GetInode, R.InodeOffset, SameInode, SameEntry, InChunk, L.Has, U32At, U64At;
    hide L.Locator.InodeTail, L.Locator.LocateChunk, L.Locator.TailAt;
    ContextAgrees(img, mode, core, l);
    ChunkParts(l, nid, chunk);
    InodeAgrees(img, mode, core, l, nid);
    var base := l.InodeTail(nid).value.base;
    ChunkEntryAgrees(core, l, R.GetInode(img, core, nid).value, base, chunk, offset);
  }

  // ----- The metabox mapping -----

  /** The one place where the metabox mapping and the directory mapping part: the last block of inline
      data whose size is a whole number of blocks. */
  ghost predicate WholeInlineTail(l: L.Locator, base: nat, logical: nat)
    requires l.Slot(base)
  {
    var b := Pow2(l.sb.blkSizeBits);
    l.FormatAt(base) / 2 % 8 == 2 && l.SizeAt(base) % b == 0 && logical + b >= l.SizeAt(base)
  }

  lemma LastBlockBounds(size: nat, b: nat)
    requires b > 0 && size > 0
    ensures var q := Quotient(size - 1, b);
            && q * b < size <= q * b + b && Quotient(size + b - 1, b) == q + 1
            && (size % b == 0 ==> size == q * b + b)
  {
    var q := (size - 1) / b;
    CeilAgrees(size, b);
    LastBlock(size, b);
    assert size - 1 == q * b + (size - 1) % b;
    assert size == size / b * b + size % b;
  }

  lemma Splits(size: nat, b: nat, block: nat, inner: nat)
    requires inner < b && block * b + inner < size
    ensures var q := Quotient(size - 1, b);
            && Quotient(size + b - 1, b) == q + 1 && q * b < size <= q * b + b
            && block <= q && (block < q <==> block * b + inner < q * b)
            && block * b + inner < q * b + b == (q + 1) * b
            && (size % b == 0 ==> size == q * b + b)
  {
    LastBlockBounds(size, b);
    var q := Quotient(size - 1, b);
    hide Quotient;
    if block < q {
      MulOrder(block, q, b);
    } else {
      MulOrder(block, q, b);
      MulOrder(q, block, b);
    }
  }

  /** Everywhere else the metabox mapping gives the address the directory mapping, and so the reader,
      gives to the same byte; there it does only if the block itself lies right behind the inode. */
  lemma MetaboxAgrees(l: L.Locator, base: nat, logical: u64, b: nat, block: u64, inner: nat)
    requires l.Valid() && l.Slot(base) && l.sb.blkSizeBits < 64 && b == Pow2(l.sb.blkSizeBits)
    requires logical == block * b + inner && inner < b
    requires l.MapFlat(base, logical).Ok? && l.DirectoryBlock(base, block).Ok?
    ensures l.MapFlat(base, logical).value.0
            == if WholeInlineTail(l, base, logical) then l.TailAt(base).end + inner
               else l.DirectoryBlock(base, block).value.0 + inner
    ensures l.MapFlat(base, logical).value.0 == l.DirectoryBlock(base, block).value.0 + inner
            <==> !WholeInlineTail(l, base, logical)
                 || l.FlatStart(base) * b + block * b == l.TailAt(base).end
  {
    hide Pow2, Quotient, U16At, U32At, U64At;
    Splits(l.SizeAt(base), b, block, inner);
  }

  /** Blocks of 512 bytes, and at address 1536 an inode with inline data of exactly one block, block 0; on
      request the inode is the metabox. */
  function WholeInlineImage(metabox: bool): (img: seq<byte>)
    ensures |img| == 2048
  {
    Zeros(2048)[1024 := 0xe2][1025 := 0xe1][1026 := 0xf5][1027 := 0xe0][1036 := 9][1064 := 3]
      [1105 := if metabox then 1 else 0][1536 := 4][1545 := 2]
  }

  lemma WholeInlineHead(metabox: bool)
    ensures var img := WholeInlineImage(metabox);
            && img[1024] == 0xe2 && img[1025] == 0xe1 && img[1026] == 0xf5 && img[1027] == 0xe0 && img[1036] == 9
            && img[1064] == 3 && img[1065] == 0 && img[1066] == 0 && img[1067] == 0
            && img[1104] == 0 && img[1105] == (if metabox then 1 else 0) && img[1106] == 0 && img[1107] == 0
  {
  }

  lemma WholeInlineBody(metabox: bool)
    ensures var img := WholeInlineImage(metabox);
            && (forall k :: 1152 <= k < 1160 ==> img[k] == 0)
            && img[1536] == 4 && img[1537] == 0 && img[1538] == 0 && img[1539] == 0
            && img[1544] == 0 && img[1545] == 2 && img[1546] == 0 && img[1547] == 0
            && img[1552] == 0 && img[1553] == 0 && img[1554] == 0 && img[1555] == 0
  {
  }

  lemma {:induction false} ZeroValue(s: seq<byte>)
    requires forall k :: 0 <= k < |s| ==> s[k] == 0
    ensures LeVal(s) == 0
  {
    if s != [] {
      ZeroValue(s[1..]);
    }
  }

  lemma WholeInlineFields(metabox: bool)
    ensures var img := WholeInlineImage(metabox);
            && U32At(img, 1024) == 0xe0f5_e1e2 && img[1036] == 9 && U32At(img, 1064) == 3
            && U32At(img, 1104) == (if metabox then 0x100 else 0) && U64At(img, 1152) == 0
            && U16At(img, 1536) == 4 && U16At(img, 1538) == 0 && U32At(img, 1544) == 512 && U32At(img, 1552) == 0
  {
    hide WholeInlineImage, LeVal;
    WholeInlineHead(metabox);
    WholeInlineBody(metabox);
    var img := WholeInlineImage(metabox);
    LeVal4(img, 1024);
    LeVal4(img, 1064);
    LeVal4(img, 1104);
    ZeroValue(img[1152..1160]);
    LeVal2(img, 1536);
    LeVal2(img, 1538);
    LeVal4(img, 1544);
    LeVal4(img, 1552);
  }

  lemma Pow2Of9()
    ensures Pow2(9) == 512
  {
    Pow2Words();
    Pow2Sum(8, 1);
    assert Pow2(1) == 2 * Pow2(0);
  }

  lemma WholeInlineMaps(metabox: bool)
    ensures var located := L.OpenLocator(WholeInlineImage(metabox), L.Strict);
            && located.Ok? && located.value.sb.blkSizeBits == 9 && located.value.Slot(1536)
            && located.value.MapFlat(1536, 0) == Ok((1568, 512))
            && located.value.DirectoryBlock(1536, 0) == Ok((0, 512))
            && PrimaryInodeOffset(located.value.sb.metaBlkAddr, 9, 0) == Ok(1536)
  {
    hide WholeInlineImage, U16At, U32At, U64At, Pow2;
    WholeInlineFields(metabox);
    Pow2Of9();
    assert Quotient(1023, 512) == 1 && Quotient(511, 512) == 0;
  }

  lemma WholeInlineLocated()
    ensures var located := L.OpenLocator(WholeInlineImage(false), L.Strict);
            && located.Ok? && located.value.LocateInode(L.Primary, 0).Ok?
            && located.value.LocateInode(L.Primary, 0).value.base == 1536
  {
    hide WholeInlineImage, U16At, U32At, U64At, Pow2, PrimaryInodeOffset, L.Locator.MapFlat, L.Locator.DirectoryBlock;
    WholeInlineMaps(false);
    WholeInlineFields(false);
  }

  lemma WholeInlineOpens()
    ensures R.Open(WholeInlineImage(false)).Ok?
  {
    hide WholeInlineImage, LeVal, U16At, U64At, Pow2;
    WholeInlineFields(false);
    var img := WholeInlineImage(false);
    FieldAt(img, 1024, 0, 4);
    FieldAt(img, 1024, 80, 4);
  }

  /** An inode at which the mappings differ. In the image the reader opens, it plans to read the block at
      address 0, as the directory mapping says; the metabox mapping points behind the inode, and does so
      for the metabox itself. */
  lemma MetaboxDiffers(metabox: bool)
    ensures var img := WholeInlineImage(metabox);
            var located := L.OpenLocator(img, L.Strict);
            && located.Ok? && located.value.Slot(1536)
            && located.value.MapFlat(1536, 0) == Ok((1568, 512))
            && located.value.DirectoryBlock(1536, 0) == Ok((0, 512))
            && (metabox ==> located.value.MapMetabox(0) == Ok((1568, 512)))
            && (!metabox ==> R.Open(img).Ok? && R.GetInode(img, R.Open(img).value, 0).Ok?
                             && R.PlanInodeBlockRead(R.Open(img).value, R.GetInode(img, R.Open(img).value, 0).value, 0)
                                == Ok(R.Direct(0, 512)))
  {
    hide WholeInlineImage, U16At, U32At, U64At, Pow2, L.Locator.MapFlat, L.Locator.DirectoryBlock, PrimaryInodeOffset;
    hide R.PlanInodeBlockRead, R.Open, L.Locator.LocateInode, SameInode, R.GetInode;
    WholeInlineMaps(metabox);
    WholeInlineFields(metabox);
    var img := WholeInlineImage(metabox);
    var l := L.OpenLocator(img, L.Strict).value;
    if !metabox {
      WholeInlineOpens();
      BothOpenTogether(img, L.Strict);
      var core := R.Open(img).value;
      assert l.LocateInode(L.Primary, 0).Ok? && l.LocateInode(L.Primary, 0).value.base == 1536 by {
        WholeInlineLocated();
      }
      InodeAgrees(img, L.Strict, core, l, 0);
      DirectoryBlockAgrees(img, L.Strict, core, l, R.GetInode(img, core, 0).value, 1536, 0);
    }
  }
}
