/** Where the fields of an arbitrary image are: one object selector and one field definition at a time. */
module Locators {
  import opened Arithmetic
  import opened Bytes
  import opened Results
  import opened Format

  datatype ParseMode = Strict | Tolerant

  datatype MetadataSpace = Primary | Metabox

  datatype ObjectRef =
    | SuperblockObject
    | InodeObject(space: MetadataSpace, nid: u64)
    | DirentObject(directory: u64, block: u64, index: u32)
    | ExtensionObject(slot: byte)
    | DeviceObject(device: u16)
    | ChunkObject(inode: u64, chunk: u64)
    | XattrHeaderObject(inode: u64)
    | SharedXattrObject(inode: u64, shared: u32)
    | InlineXattrObject(inode: u64, entry: u32)
    | PrefixObject(prefix: byte)
    | ConfigObject(algorithm: byte)
    | MapObject(inode: u64)
    | IndexObject(inode: u64, lcluster: u64)
    | PackObject(inode: u64, pack: u64)
    | ExtentObject(inode: u64, extent: u64)

  datatype Structure =
    | Superblock | CompactInode | ExtendedInode | DirentRecord | ExtensionSlot | DeviceSlot | ChunkEntry
    | XattrHeader | SharedXattrId | XattrEntry | LongPrefix | CompressionConfig | CompressionMap
    | CompressionIndex | CompactPack | CompressionExtent

  datatype Encoding = U8 | LeU16 | LeU32 | LeU64 | ByteString {
    /** The width a scalar field is stored in. */
    function Width(): nat {
      match this
      case U8 => 1
      case LeU16 => 2
      case LeU32 => 4
      case LeU64 => 8
      case ByteString => 0
    }
  }

  datatype Presence =
    | Always | Without48Bit | With48Bit | WithoutCompressionConfig | WithCompressionConfig
    | Superblock144 | WithMetabox | WithXattrPrefixes | WithDeviceTable | Dynamic

  /** Field names. The ones the locator looks at are constructors of their own. */
  datatype FieldId =
    | ChunkBlock | ChunkStartHigh | XattrName | XattrValue | PrefixInfix
    | Named(name: string)

  datatype FieldDef = FieldDef(
    id: FieldId, structure: Structure, offset: nat, len: nat, encoding: Encoding, presence: Presence)
  {
    /** What the field table keeps to: scalars have their width, and nothing reaches past 144 bytes. */
    predicate WellFormed() {
      && len <= 64 && offset + len <= 144
      && (!encoding.ByteString? ==> len == encoding.Width())
      && (id == XattrName || id == XattrValue ==> structure == XattrEntry)
    }
  }

  datatype SuperblockContext = SuperblockContext(
    magic: u32, featureCompat: u32, blkSizeBits: byte, extSlots: byte, metaBlkAddr: u32, xattrBlkAddr: u32,
    featureIncompat: u32, extraDevices: u16, devtSlotOff: u16, xattrPrefixCount: byte, xattrPrefixStart: u32)

  predicate Has(features: nat, bit: nat)
    requires bit > 0
  {
    features / bit % 2 == 1
  }

  /** An object: its address, its structure and, where it has one, its own length. */
  datatype Place = Place(base: nat, structure: Structure, len: Option<nat>) {
    function Len(): nat {
      if len.Some? then len.value else 0
    }
  }

  datatype Value = Unsigned(number: nat) | Raw(bytes: seq<byte>)

  datatype Occurrence = Occurrence(span: Span, raw: seq<byte>, value: Value)

  /** The region behind an inode: `base` to `end` is the inode and its xattrs. */
  datatype Tail = Tail(base: nat, end: nat, format: u16, xattrSize: nat)

  /** A located field's value: a scalar from the front of the 64-byte buffer, or its first `len` bytes. */
  function Decode(encoding: Encoding, buffer: seq<byte>, len: nat): Value
    requires len <= |buffer| == 64
  {
    if encoding.ByteString? then Raw(buffer[..len]) else Unsigned(LeVal(buffer[..encoding.Width()]))
  }

  function XattrBytes(count: nat): nat {
    if count == 0 then 0 else 12 + (count - 1) * 4
  }

  function InodeBytes(format: nat): nat {
    if format % 2 == 0 then 32 else 64
  }

  function MetadataLength(raw: nat): nat {
    if raw == 0 then 65536 else raw
  }

  lemma AtLeastOne(raised: nat, blockSize: nat)
    requires 0 < blockSize <= raised
    ensures Quotient(raised, blockSize) >= 1
  {
    assert raised == raised / blockSize * blockSize + raised % blockSize;
  }

  /** A locator is bound to one image, of at least 1152 bytes. */
  datatype Locator = Locator(image: seq<byte>, sb: SuperblockContext, mode: ParseMode) {

    ghost predicate Valid() {
      1152 <= |image| < IMAGE_LIMIT
    }

    function Check(offset: nat, len: nat): (r: Located<Span>)
      ensures r.Ok? <==> offset + len <= |image| && offset + len < WORD
    {
      CheckSpan(offset, len, |image|)
    }

    /** An inode slot with all its bytes inside the image. */
    predicate Slot(base: nat) {
      base + 32 <= |image| && base + InodeBytes(U16At(image, base)) <= |image|
    }

    function FormatAt(base: nat): u16
      requires Slot(base)
    {
      U16At(image, base)
    }

    /** The start block of flat data, with its high half under the 48-bit feature. */
    function FlatStart(base: nat): nat
      requires Slot(base)
    {
      var low := U32At(image, base + 16);
      if Has(sb.featureIncompat, 0x80) then low + U16At(image, base + 6) * 0x1_0000_0000 else low
    }

    function SizeAt(base: nat): u64
      requires Slot(base)
    {
      if FormatAt(base) % 2 == 0 then U32At(image, base + 8) else U64At(image, base + 8)
    }

    function XattrAt(base: nat): (r: nat)
      requires Slot(base)
      ensures r <= 262152
    {
      XattrBytes(U16At(image, base + 2))
    }

    /** The image address of a metabox offset, and how many bytes follow it without a gap. */
    function MapMetabox(logical: u64): (r: Located<(nat, nat)>)
      requires Valid()
      ensures r.Ok? ==> r.value.0 < WORD && r.value.1 > 0
    {
      if !Has(sb.featureIncompat, 0x100) then Err(UnsupportedCapability)
      else
        var nidSpan :- Check(1152, 8);
        var base :- PrimaryInodeOffset(sb.metaBlkAddr, sb.blkSizeBits, U64At(image, 1152));
        var formatSpan :- Check(base, 2);
        var format := U16At(image, base);
        if format / 2 % 8 != 0 && format / 2 % 8 != 2 then Err(UnsupportedCapability)
        else
          var slot :- Check(base, InodeBytes(format));
          MapFlat(base, logical)
    }

    /** Flat data of the inode at `base`: whole blocks, and for inline data the last one behind it. */
    function MapFlat(base: nat, logical: u64): (r: Located<(nat, nat)>)
      requires Valid() && Slot(base) && sb.blkSizeBits < 64
      ensures r.Ok? ==> r.value.0 < WORD && r.value.1 > 0
    {
      var size := SizeAt(base);
      var blockSize := Pow2(sb.blkSizeBits);
      if logical >= size then Err(UnresolvedParent)
      else
        var raised :- Plus(size, blockSize - 1);
        var blocks := Quotient(raised, blockSize);
        AtLeastOne(raised, blockSize);
        var blockEnd :- Times(if FormatAt(base) / 2 % 8 == 2 then blocks - 1 else blocks, blockSize);
        if logical < blockEnd then
          var first :- Times(FlatStart(base), blockSize);
          var absolute :- Plus(first, logical);
          Ok((absolute, blockEnd - logical))
        else
          var data := base + InodeBytes(FormatAt(base)) + XattrAt(base);
          var absolute :- Plus(data, logical - blockEnd);
          Ok((absolute, size - logical))
    }

    function LocateInode(space: MetadataSpace, nid: u64): (r: Located<Place>)
      requires Valid()
      ensures r.Ok? ==>
        && r.value.len == None && Slot(r.value.base)
        && r.value.structure == (if FormatAt(r.value.base) % 2 == 0 then CompactInode else ExtendedInode)
      ensures r.Ok? && space.Primary? ==>
        PrimaryInodeOffset(sb.metaBlkAddr, sb.blkSizeBits, nid) == Ok(r.value.base)
    {
      var mapped :- InodeAddress(space, nid);
      var formatSpan :- Check(mapped.0, 2);
      var format := U16At(image, mapped.0);
      if mode.Strict? && format >= 0x20 then Err(InvalidStructure)
      else if mapped.1.Some? && mapped.1.value < InodeBytes(format) then Err(UnresolvedParent)
      else
        var slot :- Check(mapped.0, InodeBytes(format));
        Ok(Place(mapped.0, if format % 2 == 0 then CompactInode else ExtendedInode, None))
    }

    function InodeAddress(space: MetadataSpace, nid: u64): (r: Located<(nat, Option<nat>)>)
      requires Valid()
      ensures r.Ok? ==> r.value.0 < WORD
      ensures r.Ok? && space.Primary? ==>
        PrimaryInodeOffset(sb.metaBlkAddr, sb.blkSizeBits, nid) == Ok(r.value.0)
    {
      match space
      case Primary =>
        var offset :- PrimaryInodeOffset(sb.metaBlkAddr, sb.blkSizeBits, nid);
        Ok((offset, None))
      case Metabox =>
        var logical :- Times(nid, 32);
        var mapped :- MapMetabox(logical);
        if mapped.1 < 32 then Err(UnresolvedParent) else Ok((mapped.0, Some(mapped.1)))
    }

    function LocateExtension(slot: byte): (r: Located<Place>)
      ensures r.Ok? ==> r.value.structure == ExtensionSlot
      ensures r.Ok? ==> r.value.base < WORD
    {
      if slot >= sb.extSlots then Err(UnresolvedParent)
      else Ok(Place(1152 + slot * 16, ExtensionSlot, None))
    }

    function LocateDevice(device: u16): (r: Located<Place>)
      ensures r.Ok? ==> r.value.structure == DeviceSlot
      ensures r.Ok? ==> r.value.base + 128 <= |image|
    {
      if !Has(sb.featureIncompat, 0x8) then Err(AbsentByFeature)
      else if device >= sb.extraDevices then Err(UnresolvedParent)
      else
        var base := sb.devtSlotOff * 128 + device * 128;
        var slot :- Check(base, 128);
        Ok(Place(base, DeviceSlot, None))
    }

    function InodeTail(inode: u64): (r: Located<Tail>)
      requires Valid()
      ensures r.Ok? ==> Slot(r.value.base) && r.value == TailAt(r.value.base)
      ensures r.Ok? ==> LocateInode(Primary, inode).Ok? && r.value.base == LocateInode(Primary, inode).value.base
    {
      var place :- LocateInode(Primary, inode);
      Ok(TailAt(place.base))
    }

    /** The checked additions of the code cannot fail here: the slot is inside the image. */
    function TailAt(base: nat): (r: Tail)
      requires Valid() && Slot(base)
      ensures r.base == base && r.xattrSize <= r.end <= |image| + 262152
    {
      var format := FormatAt(base);
      Tail(base, base + InodeBytes(format) + XattrAt(base), format, XattrAt(base))
    }

    /** The number of entries of the chunk table. */
    function ChunkCount(base: nat): Located<nat>
      requires Valid() && Slot(base)
    {
      var chunkSize :- Shift(sb.blkSizeBits + U16At(image, base + 16) % 32);
      var raised :- Plus(SizeAt(base), chunkSize - 1);
      Ok(Quotient(raised, chunkSize))
    }

    /** Entry `chunk` of the chunk table behind the inode at `base`. */
    function ChunkEntryAt(base: nat, chunk: u64): (r: Located<Place>)
      requires Valid() && Slot(base)
      ensures r.Ok? ==> r.value.base < WORD && r.value.len.Some? && r.value.len.value in {4, 8}
    {
      var chunkFormat := U16At(image, base + 16);
      if FormatAt(base) / 2 % 8 != 4 then Err(UnresolvedParent)
      else if mode.Strict? && chunkFormat >= 0x80 then Err(InvalidStructure)
      else
        var unit := if Has(chunkFormat, 0x20) then 8 else 4;
        var table := RoundUp(TailAt(base).end, unit);
        var relative :- Times(chunk, unit);
        var entry :- Plus(table, relative);
        var count :- ChunkCount(base);
        if chunk >= count then Err(UnresolvedParent) else Ok(Place(entry, ChunkEntry, Some(unit)))
    }

    function LocateChunk(inode: u64, chunk: u64): (r: Located<Place>)
      requires Valid()
      ensures r.Ok? ==> r.value.structure == ChunkEntry
      ensures r.Ok? ==> r.value.base < WORD && r.value.len.Some? && r.value.len.value in {4, 8}
    {
      var tail :- InodeTail(inode);
      ChunkEntryAt(tail.base, chunk)
    }

    function LocateXattrHeader(inode: u64): (r: Located<Place>)
      requires Valid()
      ensures r.Ok? ==> r.value.structure == XattrHeader
      ensures r.Ok? ==> r.value.base < WORD && InodeTail(inode).Ok?
                        && r.value.base == InodeTail(inode).value.end - InodeTail(inode).value.xattrSize <= |image|
    {
      var tail :- InodeTail(inode);
      if tail.xattrSize == 0 then Err(UnresolvedParent)
      else Ok(Place(tail.end - tail.xattrSize, XattrHeader, None))
    }

    function LocateSharedXattr(inode: u64, index: u32): (r: Located<Place>)
      requires Valid()
      ensures r.Ok? ==> r.value.structure == SharedXattrId
      ensures r.Ok? ==> r.value.base < WORD
    {
      var header :- LocateXattrHeader(inode);
      var tail := InodeTail(inode).value;
      var count :- ReadU8(image, header.base + 4);
      if 12 + count * 4 > tail.xattrSize then Err(UnresolvedParent)
      else if index >= count then Err(UnresolvedParent)
      else Ok(Place(header.base + 12 + index * 4, SharedXattrId, None))
    }

    /** The size of the xattr entry at `pos`, padded to four bytes. */
    function EntrySize(pos: nat): (r: Located<nat>)
      requires Valid() && pos <= |image| + 262152
      ensures r.Ok? ==> 4 <= r.value <= 65796
    {
      var nameLen :- ReadU8(image, pos);
      var valueSize :- ReadU16(image, pos + 2);
      Ok(RoundUp(4 + nameLen + valueSize, 4))
    }

    /** The address behind `n` xattr entries from `pos`: the loop rounds each one up to four bytes. */
    function SkipEntries(pos: nat, tail: nat, n: nat): (r: Located<nat>)
      requires Valid() && tail <= |image| + 262152 && pos + 4 < WORD
      ensures r.Ok? ==> pos <= r.value && r.value + 4 < WORD
      decreases n
    {
      if n == 0 then Ok(pos)
      else if pos + 4 > tail then Err(UnresolvedParent)
      else
        var nameLen :- ReadU8(image, pos);
        var valueSize :- ReadU16(image, pos + 2);
        SkipEntries(RoundUp(pos + 4 + nameLen + valueSize, 4), tail, n - 1)
    }

    /** Where the entries start, behind the header and the shared ids. */
    function EntriesStart(tail: Tail): (r: Located<nat>)
      requires Valid() && tail.xattrSize <= tail.end <= |image| + 262152
      ensures r.Ok? ==> r.value <= tail.end
    {
      if tail.xattrSize == 0 then Err(UnresolvedParent)
      else
        var header := tail.end - tail.xattrSize;
        var shared :- ReadU8(image, header + 4);
        if 12 + shared * 4 > tail.xattrSize then Err(UnresolvedParent) else Ok(header + 12 + shared * 4)
    }

    function LocateInlineXattr(inode: u64, index: u32): (r: Located<Place>)
      requires Valid()
      ensures r.Ok? ==> r.value.structure == XattrEntry
      ensures r.Ok? ==> r.value.len.Some? && r.value.base < |image| + 262152
    {
      var tail :- InodeTail(inode);
      var start :- EntriesStart(tail);
      var pos :- SkipEntries(start, tail.end, index);
      if pos + 4 > tail.end then Err(UnresolvedParent)
      else
        var size :- EntrySize(pos);
        if pos + size > tail.end then Err(UnresolvedParent) else Ok(Place(pos, XattrEntry, Some(size)))
    }

    /** Long-prefix records lie in the image itself, or in the metabox inode's data. */
    function MapPrefix(metabox: bool, pos: u64): (r: Located<(nat, Option<nat>)>)
      requires Valid()
      ensures r.Ok? ==> r.value.0 < WORD
    {
      if !metabox then Ok((pos, None))
      else
        var mapped :- MapMetabox(pos);
        if mapped.1 < 2 then Err(UnresolvedParent) else Ok((mapped.0, Some(mapped.1)))
    }

    function SkipPrefixes(metabox: bool, pos: u64, n: nat): (r: Located<u64>)
      requires Valid()
      decreases n
    {
      if n == 0 then Ok(pos)
      else
        var at :- MapPrefix(metabox, pos);
        var raw :- ReadU16(image, at.0);
        var next :- Plus(pos, 2 + MetadataLength(raw));
        var aligned :- AlignUp(next, 4);
        SkipPrefixes(metabox, aligned, n - 1)
    }

    function LocatePrefix(index: byte): (r: Located<Place>)
      requires Valid()
      ensures r.Ok? ==> r.value.structure == LongPrefix
      ensures r.Ok? ==> r.value.base < WORD
    {
      var plain := Has(sb.featureCompat, 0x10);
      var metabox := !plain && Has(sb.featureIncompat, 0x100);
      if index >= sb.xattrPrefixCount then Err(UnresolvedParent)
      else if !Has(sb.featureIncompat, 0x40) then Err(AbsentByFeature)
      else if !plain && !metabox then Err(UnsupportedCapability)
      else
        var pos :- SkipPrefixes(metabox, sb.xattrPrefixStart * 4, index);
        var at :- MapPrefix(metabox, pos);
        var raw :- ReadU16(image, at.0);
        var len := MetadataLength(raw);
        if len > 256 then Err(InvalidStructure)
        else if at.1.Some? && 2 + len > at.1.value then Err(UnresolvedParent)
        else Ok(Place(at.0, LongPrefix, Some(len)))
    }

    /** Behind the configuration records of the algorithms from `id` up to `algorithm`. */
    function SkipConfigs(bitmap: u16, pos: u64, id: nat, algorithm: nat): (r: Located<u64>)
      requires id <= algorithm
      decreases algorithm - id
    {
      if id == algorithm then Ok(pos)
      else if !Has(bitmap, Pow2(id)) then SkipConfigs(bitmap, pos, id + 1, algorithm)
      else
        var raw :- ReadU16(image, pos);
        var next :- Plus(pos, 2 + MetadataLength(raw));
        var aligned :- AlignUp(next, 4);
        SkipConfigs(bitmap, aligned, id + 1, algorithm)
    }

    function LocateConfig(algorithm: byte): (r: Located<Place>)
      requires Valid()
      ensures r.Ok? ==> r.value.structure == CompressionConfig
      ensures r.Ok? ==> r.value.base < WORD
    {
      if !Has(sb.featureIncompat, 0x2) then Err(UnresolvedParent)
      else if algorithm >= 4 then Err(UnresolvedParent)
      else
        var bitmap := U16At(image, 1108);
        if !Has(bitmap, Pow2(algorithm)) then Err(UnresolvedParent)
        else
          var pos :- SkipConfigs(bitmap, 1152 + sb.extSlots * 16, 0, algorithm);
          var raw :- ReadU16(image, pos);
          Ok(Place(pos, CompressionConfig, Some(MetadataLength(raw))))
    }

    function LocateMap(inode: u64): (r: Located<Place>)
      requires Valid()
      ensures r.Ok? ==> r.value.structure == CompressionMap
      ensures r.Ok? ==> r.value.base <= |image| + 262160
    {
      var tail :- InodeTail(inode);
      if tail.format / 2 % 8 != 1 && tail.format / 2 % 8 != 3 then Err(UnresolvedParent)
      else Ok(Place(RoundUp(tail.end, 8), CompressionMap, None))
    }

    function LocateIndex(inode: u64, index: u64): (r: Located<Place>)
      requires Valid()
      ensures r.Ok? ==> r.value.structure == CompressionIndex
      ensures r.Ok? ==> r.value.base < WORD
    {
      var header :- LocateMap(inode);
      var relative :- Times(index, 8);
      var base :- Plus(header.base + 16, relative);
      Ok(Place(base, CompressionIndex, None))
    }

    /** The 2-byte index region starts behind as many 4-byte entries as align it to 32 bytes. */
    function PackStart(start: nat, unit: nat): nat {
      if unit == 32 then start + (32 - start % 32) / 4 % 8 * 4 else start
    }

    function LocatePack(inode: u64, index: u64): (r: Located<Place>)
      requires Valid()
      ensures r.Ok? ==> r.value.structure == CompactPack
      ensures r.Ok? ==> r.value.base < WORD
    {
      var header :- LocateMap(inode);
      var advise :- ReadU16(image, header.base + 4);
      var unit := if advise % 2 == 1 then 32 else 8;
      var relative :- Times(index, unit);
      var base :- Plus(PackStart(RoundUp(header.base + 8, 8), unit), relative);
      Ok(Place(base, CompactPack, Some(unit)))
    }

    function LocateExtent(inode: u64, index: u64): (r: Located<Place>)
      requires Valid()
      ensures r.Ok? ==> r.value.structure == CompressionExtent
      ensures r.Ok? ==> r.value.base < WORD
    {
      var header :- LocateMap(inode);
      var advise :- ReadU16(image, header.base + 4);
      if advise % 2 == 0 then Err(UnresolvedParent)
      else
        var unit := 4 * Pow2(advise / 2 % 4);
        var start := RoundUp(header.base + 8, unit);
        var relative :- Times(index, unit);
        var base :- Plus(if unit == 4 then start + 8 else start, relative);
        Ok(Place(base, CompressionExtent, Some(unit)))
    }

    /** Where block `block` of the directory at `base` is, and how many of its bytes count. */
    function DirectoryBlock(base: nat, block: u64): (r: Located<(nat, nat)>)
      requires Valid() && Slot(base) && sb.blkSizeBits < 64
      ensures r.Ok? ==> r.value.0 < WORD
    {
      var size := SizeAt(base);
      var blockSize := Pow2(sb.blkSizeBits);
      var blockStart :- Times(block, blockSize);
      if blockStart >= size then Err(UnresolvedParent)
      else
        var tailSize: nat := size % blockSize;
        var isTail := block == Quotient(size - 1, blockSize) && tailSize != 0;
        var layout := FormatAt(base) / 2 % 8;
        var available := if isTail then tailSize else blockSize;
        if layout == 2 && isTail then
          Ok((base + InodeBytes(FormatAt(base)) + XattrAt(base), available))
        else if layout == 0 || layout == 2 then
          var first :- Times(FlatStart(base), blockSize);
          var data :- Plus(first, blockStart);
          Ok((data, available))
        else if layout == 1 || layout == 3 || layout == 4 then Err(UnsupportedCapability)
        else Err(UnresolvedParent)
    }

    function LocateDirent(directory: u64, block: u64, index: u32): (r: Located<Place>)
      requires Valid()
      ensures r.Ok? ==> r.value.structure == DirentRecord
      ensures r.Ok? ==> r.value.base + 12 <= |image|
    {
      var place :- LocateInode(Primary, directory);
      if mode.Strict? && U16At(image, place.base + 4) / 0x1000 % 16 != 4 then Err(InvalidStructure)
      else
        var data :- DirectoryBlock(place.base, block);
        if index * 12 + 12 > data.1 then Err(UnresolvedParent)
        else
          var offset :- Plus(data.0, index * 12);
          var header :- Check(offset, 12);
          var firstNameOff := U16At(image, data.0 + 8);
          if firstNameOff == 0 || firstNameOff >= data.1 || firstNameOff % 12 != 0 then Err(UnresolvedParent)
          else if index >= firstNameOff / 12 then Err(UnresolvedParent)
          else Ok(Place(offset, DirentRecord, None))
    }

    function LocateObject(target: ObjectRef): (r: Located<Place>)
      requires Valid()
      ensures r.Ok? ==> r.value.base < WORD
      ensures r.Ok? && r.value.structure.XattrEntry? ==> r.value.base < |image| + 262152
    {
      match target
      case SuperblockObject => Ok(Place(1024, Superblock, None))
      case InodeObject(space, nid) => LocateInode(space, nid)
      case DirentObject(directory, block, index) => LocateDirent(directory, block, index)
      case ExtensionObject(slot) => LocateExtension(slot)
      case DeviceObject(device) => LocateDevice(device)
      case ChunkObject(inode, chunk) => LocateChunk(inode, chunk)
      case XattrHeaderObject(inode) => LocateXattrHeader(inode)
      case SharedXattrObject(inode, shared) => LocateSharedXattr(inode, shared)
      case InlineXattrObject(inode, entry) => LocateInlineXattr(inode, entry)
      case PrefixObject(prefix) => LocatePrefix(prefix)
      case ConfigObject(algorithm) => LocateConfig(algorithm)
      case MapObject(inode) => LocateMap(inode)
      case IndexObject(inode, lcluster) => LocateIndex(inode, lcluster)
      case PackObject(inode, pack) => LocatePack(inode, pack)
      case ExtentObject(inode, extent) => LocateExtent(inode, extent)
    }

    predicate Present(presence: Presence) {
      match presence
      case Always => true
      case Without48Bit => !Has(sb.featureIncompat, 0x80)
      case With48Bit => Has(sb.featureIncompat, 0x80)
      case WithoutCompressionConfig => !Has(sb.featureIncompat, 0x2)
      case WithCompressionConfig => Has(sb.featureIncompat, 0x2)
      case Superblock144 => 128 + sb.extSlots * 16 >= 144
      case WithMetabox => Has(sb.featureIncompat, 0x100)
      case WithXattrPrefixes => Has(sb.featureIncompat, 0x40)
      case WithDeviceTable => Has(sb.featureIncompat, 0x8)
      case Dynamic => true
    }

    function ChunkUses48Bit(target: ObjectRef): Located<bool>
      requires Valid()
    {
      if !target.ChunkObject? then Ok(false)
      else
        var tail :- InodeTail(target.inode);
        Ok(Has(U16At(image, tail.base + 16), 0x40))
    }

    /** Whether the field is one of the views this very object has. */
    function Compatible(place: Place, field: FieldDef, target: ObjectRef): Located<bool>
      requires Valid()
    {
      if place.structure.ChunkEntry? && place.len == Some(4) then Ok(field.id == ChunkBlock)
      else if place.structure.ChunkEntry? && place.len == Some(8) then
        if field.id == ChunkBlock then Ok(false)
        else if field.id != ChunkStartHigh then Ok(true)
        else ChunkUses48Bit(target)
      else if place.structure.CompressionExtent? then Ok(field.offset < place.Len())
      else Ok(true)
    }

    function RelativeOffset(base: u64, field: FieldDef): (r: Located<nat>) {
      if field.len == 0 && field.id == XattrValue then
        var nameLen :- ReadU8(image, base);
        Ok(4 + nameLen)
      else Ok(field.offset)
    }

    function DynamicLen(place: Place, id: FieldId): Located<nat>
      requires Valid() && place.base < WORD
      requires id == XattrValue ==> place.base < |image| + 262152
    {
      if id == XattrName then ReadU8(image, place.base)
      else if id == XattrValue then ReadU16(image, place.base + 2)
      else if id == PrefixInfix then Ok(if place.Len() > 0 then place.Len() - 1 else 0)
      else Ok(place.Len())
    }

    function FieldLen(place: Place, field: FieldDef): (r: Located<nat>)
      requires Valid() && field.WellFormed() && field.structure == place.structure
      requires place.base < WORD && (place.structure.XattrEntry? ==> place.base < |image| + 262152)
      ensures r.Ok? ==> r.value <= 64 && (field.len != 0 ==> r.value == field.len)
    {
      if field.len != 0 then Ok(field.len)
      else
        var len :- DynamicLen(place, field.id);
        if len > 64 then Err(UnresolvedParent) else Ok(len)
    }

    /** Resolves one field of one object. */
    function Locate(target: ObjectRef, field: FieldDef): (r: Located<Occurrence>)
      requires Valid() && field.WellFormed()
    {
      var place :- LocateObject(target);
      if field.structure != place.structure then Err(LocateError.ObjectMismatch)
      else if !Present(field.presence) then Err(AbsentByFeature)
      else
        var compatible :- Compatible(place, field, target);
        if !compatible then Err(LocateError.ObjectMismatch)
        else
          var relative :- RelativeOffset(place.base, field);
          var offset :- Plus(place.base, relative);
          var len :- FieldLen(place, field);
          var span :- Check(offset, len);
          var raw := image[offset..offset + len];
          Ok(Occurrence(span, raw, Decode(field.encoding, raw + Zeros(64 - len), len)))
    }
  }

  /** Opens an image; strict mode also checks magic, feature bits and block size. */
  function OpenLocator(image: seq<byte>, mode: ParseMode): (r: Located<Locator>)
    requires |image| < IMAGE_LIMIT
    ensures r.Ok? ==> r.value.Valid() && r.value.image == image && r.value.mode == mode
  {
    var header :- CheckSpan(1024, 128, |image|);
    var sb := SuperblockContext(
      U32At(image, 1024), U32At(image, 1032), image[1036], image[1037], U32At(image, 1064), U32At(image, 1068),
      U32At(image, 1104), U16At(image, 1110), U16At(image, 1112), image[1115], U32At(image, 1116));
    if mode.Strict? && (sb.magic != 0xe0f5_e1e2 || sb.featureIncompat >= 0x200 || !(9 <= sb.blkSizeBits <= 63))
    then Err(InvalidStructure)
    else Ok(Locator(image, sb, mode))
  }

  // ----- The loops that walk variable-length records -----

  /** Finds entry `index` by passing over the ones before it. */
  method WalkInlineXattrs(l: Locator, inode: u64, index: u32) returns (r: Located<Place>)
    requires l.Valid()
    ensures r == l.LocateInlineXattr(inode, index)
  {
    hide Locator.InodeTail, Locator.EntriesStart, Locator.EntrySize, RoundUp, U16At;
    var tail :- l.InodeTail(inode);
    var pos: nat :- l.EntriesStart(tail);
    ghost var start := pos;
    for n := 0 to index
      invariant pos + 4 < WORD
      invariant l.SkipEntries(pos, tail.end, index - n) == l.SkipEntries(start, tail.end, index)
    {
      if pos + 4 > tail.end {
        return Err(UnresolvedParent);
      }
      var nameLen :- ReadU8(l.image, pos);
      var valueSize :- ReadU16(l.image, pos + 2);
      pos := RoundUp(pos + 4 + nameLen + valueSize, 4);
    }
    if pos + 4 > tail.end {
      return Err(UnresolvedParent);
    }
    var size :- l.EntrySize(pos);
    if pos + size > tail.end {
      return Err(UnresolvedParent);
    }
    r := Ok(Place(pos, XattrEntry, Some(size)));
  }

  /** Walks the long-prefix records up to record `index`. */
  method WalkPrefixes(l: Locator, index: byte) returns (r: Located<Place>)
    requires l.Valid()
    ensures r == l.LocatePrefix(index)
  {
    hide Locator.MapPrefix, RoundUp, AlignUp, Plus, ReadU16, MetadataLength, Has;
    if index >= l.sb.xattrPrefixCount {
      return Err(UnresolvedParent);
    }
    if !Has(l.sb.featureIncompat, 0x40) {
      return Err(AbsentByFeature);
    }
    var plain := Has(l.sb.featureCompat, 0x10);
    var metabox := !plain && Has(l.sb.featureIncompat, 0x100);
    if !plain && !metabox {
      return Err(UnsupportedCapability);
    }
    var pos: u64 := l.sb.xattrPrefixStart * 4;
    ghost var start := pos;
    for n := 0 to index
      invariant l.SkipPrefixes(metabox, pos, index - n) == l.SkipPrefixes(metabox, start, index)
    {
      var at :- l.MapPrefix(metabox, pos);
      var raw :- ReadU16(l.image, at.0);
      var next :- Plus(pos, 2 + MetadataLength(raw));
      pos :- AlignUp(next, 4);
    }
    var at :- l.MapPrefix(metabox, pos);
    var raw :- ReadU16(l.image, at.0);
    var len := MetadataLength(raw);
    if len > 256 {
      return Err(InvalidStructure);
    }
    if at.1.Some? && 2 + len > at.1.value {
      return Err(UnresolvedParent);
    }
    r := Ok(Place(at.0, LongPrefix, Some(len)));
  }

  /** Walks the compression configuration records up to the one of `algorithm`. */
  method WalkConfigs(l: Locator, algorithm: byte) returns (r: Located<Place>)
    requires l.Valid()
    ensures r == l.LocateConfig(algorithm)
  {
    if !Has(l.sb.featureIncompat, 0x2) || algorithm >= 4 {
      return Err(UnresolvedParent);
    }
    var bitmap := U16At(l.image, 1108);
    if !Has(bitmap, Pow2(algorithm)) {
      return Err(UnresolvedParent);
    }
    var pos: u64 := 1152 + l.sb.extSlots * 16;
    ghost var start := pos;
    for id := 0 to algorithm
      invariant l.SkipConfigs(bitmap, pos, id, algorithm) == l.SkipConfigs(bitmap, start, 0, algorithm)
    {
      if Has(bitmap, Pow2(id)) {
        var raw :- ReadU16(l.image, pos);
        var next :- Plus(pos, 2 + MetadataLength(raw));
        pos :- AlignUp(next, 4);
      }
    }
    var raw :- ReadU16(l.image, pos);
    r := Ok(Place(pos, CompressionConfig, Some(MetadataLength(raw))));
  }
}
