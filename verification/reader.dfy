/** The reader's core: superblock, inodes, and the plan of every block read. */
module Reader {
  import opened Arithmetic
  import opened Bytes
  import opened Results
  import opened Types

  datatype SuperBlock = SuperBlock(
    magic: nat, checksum: nat, featureCompat: nat, blkSizeBits: nat, rootNid: nat, inos: nat,
    buildTime: nat, blocks: nat, metaBlkAddr: nat, uuid: seq<byte>, volumeName: seq<byte>,
    featureIncompat: nat)

  /** The parsed superblock with its block size. */
  datatype Core = Core(sb: SuperBlock, blockSize: nat)

  /** A core the reader accepts. */
  ghost predicate ValidCore(core: Core) {
    9 <= core.sb.blkSizeBits <= 24 && core.blockSize == Pow2(core.sb.blkSizeBits)
  }

  function ParseSuperBlock(data: seq<byte>): Outcome<SuperBlock> {
    if |data| < 128 then Err(UnexpectedEof)
    else Ok(SuperBlock(LeVal(data[0..4]), LeVal(data[4..8]), LeVal(data[8..12]), data[12],
                       LeVal(data[14..16]), LeVal(data[16..24]), LeVal(data[24..32]),
                       LeVal(data[36..40]), LeVal(data[40..44]), data[48..64], data[64..80],
                       LeVal(data[80..84])))
  }

  /** Opens an image: magic, feature bits (only bits 0 and 2 are supported) and block size. */
  function OpenCore(data: seq<byte>): Outcome<Core> {
    var sb :- ParseSuperBlock(data);
    if sb.magic != SUPERBLOCK_MAGIC then Err(InvalidSuperblock)
    else if sb.featureIncompat >= 0x200 then Err(InvalidSuperblock)
    else if sb.featureIncompat !in {0, 1, 4, 5} then Err(NotSupported)
    else if !(9 <= sb.blkSizeBits <= 24) then Err(InvalidSuperblock)
    else Ok(Core(sb, Pow2(sb.blkSizeBits)))
  }

  function Open(img: seq<byte>): (r: Outcome<Core>)
    ensures r.Ok? ==> ValidCore(r.value)
  {
    if |img| < SUPERBLOCK_OFFSET then Err(InvalidSuperblock) else OpenCore(img[SUPERBLOCK_OFFSET..])
  }

  function ParseInode(data: seq<byte>, nid: nat): (r: Outcome<Inode>)
    ensures r.Ok? ==> r.value.nid == nid
  {
    var format :- ReadLe(data, 0, 2);
    if format % 2 == 0 then
      if |data| < 32 then Err(UnexpectedEof)
      else Ok(Compact(nid, format, LeVal(data[2..4]), LeVal(data[4..6]), LeVal(data[6..8]),
                      LeVal(data[8..12]), LeVal(data[16..20]), LeVal(data[20..24]),
                      LeVal(data[24..26]), LeVal(data[26..28])))
    else
      if |data| < 64 then Err(UnexpectedEof)
      else Ok(Extended(nid, format, LeVal(data[2..4]), LeVal(data[4..6]), LeVal(data[44..48]),
                       LeVal(data[8..16]), LeVal(data[16..20]), LeVal(data[20..24]),
                       LeVal(data[24..28]), LeVal(data[28..32]), LeVal(data[32..40]), LeVal(data[40..44])))
  }

  /** Block addresses are 32 bits and blocks at most 2^24 bytes, so this cannot overflow. */
  function BlockOffset(core: Core, block: nat): nat {
    block * core.blockSize
  }

  function InodeOffset(core: Core, nid: nat): Outcome<nat> {
    var slot :- CheckedMul(nid, 32, AddressOverflow);
    CheckedAdd(BlockOffset(core, core.sb.metaBlkAddr), slot, AddressOverflow)
  }

  function GetInode(img: seq<byte>, core: Core, nid: nat): (r: Outcome<Inode>)
    ensures r.Ok? ==> r.value.nid == nid
  {
    var offset :- InodeOffset(core, nid);
    if offset > |img| then Err(OutOfBounds) else ParseInode(img[offset..], nid)
  }

  /** What bytes a block read needs: directly, or through a 4-byte chunk address. */
  datatype BlockPlan =
    | Direct(offset: nat, size: nat)
    | Chunked(addrOffset: nat, chunkFixed: nat, chunkSize: nat, dataSize: nat, chunkIndex: nat)

  /** The address behind an inode and its xattrs: inline data or the chunk table. */
  function InodeEnd(core: Core, inode: Inode): Outcome<nat> {
    var at :- InodeOffset(core, inode.nid);
    var behind :- CheckedAdd(at, inode.InodeSize(), AddressOverflow);
    CheckedAdd(behind, inode.XattrSize(), AddressOverflow)
  }

  lemma BlockIndexInside(size: nat, blockSize: nat, index: nat)
    requires blockSize > 0 && index < DivCeil(size, blockSize)
    ensures index * blockSize < size
  {
    var q: nat := size / blockSize;
    assert size == q * blockSize + size % blockSize;
    MulOrder(index, q, blockSize);
    MulOrder(q, index, blockSize);
  }

  function PlanFlatBlock(core: Core, inode: Inode, blockIndex: nat): (r: Outcome<BlockPlan>)
    requires core.blockSize > 0
    requires blockIndex < DivCeil(inode.size, core.blockSize)
    ensures r.Ok? ==> r.value.Direct? && 0 < r.value.size <= core.blockSize
  {
    BlockIndexInside(inode.size, core.blockSize, blockIndex);
    var fileOffset :- CheckedMul(blockIndex, core.blockSize, AddressOverflow);
    var size := Min(inode.size - fileOffset, core.blockSize);
    var offset :- CheckedAdd(BlockOffset(core, inode.inodeData), fileOffset, AddressOverflow);
    Ok(Direct(offset, size))
  }

  /** The index of the `unit`-sized piece `offset` falls into, if the data reaches that far. */
  function PieceIndex(size: nat, unit: nat, offset: nat): (r: Outcome<nat>)
    requires unit > 0
    ensures r.Ok? ==> r.value < DivCeil(size, unit)
  {
    var count := DivCeil(size, unit);
    var index: nat := offset / unit;
    if index >= count then Err(OutOfRange(index, count)) else Ok(index)
  }

  function PlanInlineBlock(core: Core, inode: Inode, offset: nat): (r: Outcome<BlockPlan>)
    requires core.blockSize > 0
    ensures r.Ok? ==> r.value.Direct? && 0 < r.value.size <= core.blockSize
  {
    var index :- PieceIndex(inode.size, core.blockSize, offset);
    var tailSize: nat := inode.size % core.blockSize;
    if tailSize != 0 && index == DivCeil(inode.size, core.blockSize) - 1 then
      var at :- InodeEnd(core, inode);
      Ok(Direct(at, tailSize))
    else PlanFlatBlock(core, inode, index)
  }

  function PlanChunkBlock(core: Core, inode: Inode, offset: nat): (r: Outcome<BlockPlan>)
    requires core.blockSize > 0
    ensures r.Ok? ==> r.value.Chunked?
  {
    var format := inode.inodeData % 0x1_0000;
    if format >= 0x40 then Err(BadChunkFormat)
    else if format >= 0x20 then Err(NotSupported)
    else
      var chunkSize := Pow2(format + core.sb.blkSizeBits);
      var index :- PieceIndex(inode.size, chunkSize, offset);
      var inChunk: nat := offset % chunkSize;
      var tableOffset :- CheckedMul(index, 4, AddressOverflow);
      var end :- InodeEnd(core, inode);
      var addrOffset :- CheckedAdd(end, tableOffset, AddressOverflow);
      Ok(Chunked(addrOffset, Quotient(inChunk, core.blockSize), chunkSize, inode.size, index))
  }

  /** Plans the read of the block containing file offset `offset`. */
  function PlanInodeBlockRead(core: Core, inode: Inode, offset: nat): (r: Outcome<BlockPlan>)
    requires core.blockSize > 0
    ensures r.Ok? && r.value.Direct? ==> 0 < r.value.size <= core.blockSize
  {
    var layout :- inode.GetLayout();
    match layout
    case FlatPlain =>
      var index :- PieceIndex(inode.size, core.blockSize, offset);
      PlanFlatBlock(core, inode, index)
    case FlatInline => PlanInlineBlock(core, inode, offset)
    case CompressedFull => Err(NotSupported)
    case CompressedCompact => Err(NotSupported)
    case ChunkBased => PlanChunkBlock(core, inode, offset)
  }

  /** Turns a stored chunk address into the final read. A signed address below 1 is a hole. */
  function ResolveChunkRead(core: Core, rawAddr: nat, plan: BlockPlan): (r: Outcome<(nat, nat)>)
    requires plan.Chunked?
    ensures r.Ok? ==> 0 < r.value.1 <= core.blockSize
  {
    if rawAddr == 0 || rawAddr >= 0x8000_0000 then Err(SparseChunk)
    else
      var base :- CheckedMul(plan.chunkIndex, plan.chunkSize, AddressOverflow);
      var inner :- CheckedMul(plan.chunkFixed, core.blockSize, AddressOverflow);
      var fileOffset :- CheckedAdd(base, inner, AddressOverflow);
      var remaining := if fileOffset < plan.dataSize then plan.dataSize - fileOffset else 0;
      var readSize := Min(remaining, core.blockSize);
      if readSize == 0 then Err(OutOfRange(fileOffset, plan.dataSize))
      else if plan.chunkFixed > U32_MAX || rawAddr + plan.chunkFixed > U32_MAX then Err(AddressOverflow)
      else Ok((BlockOffset(core, rawAddr + plan.chunkFixed), readSize))
  }

  function GetRange(img: seq<byte>, offset: nat, size: nat): (r: Outcome<seq<byte>>)
    ensures r.Ok? ==> |r.value| == size
  {
    if offset + size > |img| then Err(OutOfBounds) else Ok(img[offset..offset + size])
  }

  /** The bytes of the block containing file offset `offset`. */
  function GetInodeBlock(img: seq<byte>, core: Core, inode: Inode, offset: nat): (r: Outcome<seq<byte>>)
    requires core.blockSize > 0
    ensures r.Ok? ==> 0 < |r.value| <= core.blockSize
  {
    var plan :- PlanInodeBlockRead(core, inode, offset);
    match plan
    case Direct(at, size) => GetRange(img, at, size)
    case Chunked(addrOffset, _, _, _, _) =>
      var raw :- GetRange(img, addrOffset, 4);
      var read :- ResolveChunkRead(core, LeVal(raw), plan);
      GetRange(img, read.0, read.1)
  }
}
