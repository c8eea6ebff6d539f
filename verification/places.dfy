/** Where the locator's objects lie, in numbers and against the reader, and in what order. */
module LocatorPlaces {
  import opened Arithmetic
  import Bits
  import opened Bytes
  import opened Results
  import opened Format
  import opened Locators
  import opened AddressAgreement
  import Dirents
  import R = Reader
  import T = Types
  import S = LocatorSoundness

  // ----- The superblock and its tables -----

  lemma Halves(v: nat, p: nat)
    requires p > 0
    ensures v / (2 * p) == v / 2 / p
  {
    ChunkSplit(v, 2, p);
  }

  lemma {:induction false} HasIsBit(v: nat, n: nat)
    ensures Has(v, Pow2(n)) <==> Bits.Bit(v, n)
  {
    if n > 0 {
      HasIsBit(v / 2, n - 1);
      Halves(v, Pow2(n - 1));
    }
  }

  /** What a field's presence depends on: the feature bits 7, 1, 8, 6 and 3, and at least one extension slot. */
  lemma PresenceIs(l: Locator, presence: Presence)
    ensures var bit := (n: nat) => Bits.Bit(l.sb.featureIncompat, n);
            l.Present(presence)
            <==> match presence
                 case Always => true
                 case Without48Bit => !bit(7)
                 case With48Bit => bit(7)
                 case WithoutCompressionConfig => !bit(1)
                 case WithCompressionConfig => bit(1)
                 case Superblock144 => l.sb.extSlots >= 1
                 case WithMetabox => bit(8)
                 case WithXattrPrefixes => bit(6)
                 case WithDeviceTable => bit(3)
                 case Dynamic => true
  {
    var v := l.sb.featureIncompat;
    assert Pow2(7) == 0x80 && Pow2(1) == 2 && Pow2(8) == 0x100 && Pow2(6) == 0x40 && Pow2(3) == 8 by {
      assert Pow2(3) == 8 && Pow2(5) == 4 * Pow2(3) && Pow2(7) == 4 * Pow2(5) && Pow2(8) == 2 * Pow2(7);
    }
    HasIsBit(v, 7);
    HasIsBit(v, 1);
    HasIsBit(v, 8);
    HasIsBit(v, 6);
    HasIsBit(v, 3);
  }

  /** A field of the superblock is found exactly when it is present and inside the image, that far behind
      byte 1024. */
  lemma SuperblockPlaced(l: Locator, field: FieldDef)
    requires l.Valid() && field.WellFormed() && field.structure == Superblock && field.len > 0
    ensures l.Locate(SuperblockObject, field).Ok?
            <==> l.Present(field.presence) && 1024 + field.offset + field.len <= |l.image|
    ensures l.Locate(SuperblockObject, field).Ok? ==>
      l.Locate(SuperblockObject, field).value.span == Span(1024 + field.offset, field.len)
  {
    hide Locator.Present, LeVal;
  }

  /** Extension slots of 16 bytes lie behind the superblock's 128 bytes, device slots of 128 bytes behind as
      many of them as the superblock says; both are found exactly when the superblock counts them, and a
      device slot only inside the image. */
  lemma SlotsPlaced(l: Locator, slot: byte, device: u16)
    requires l.Valid()
    ensures var p := l.LocateExtension(slot);
            && (p.Ok? <==> slot < l.sb.extSlots)
            && (p.Ok? ==> p.value == Place(1024 + 128 + 16 * slot, ExtensionSlot, None))
    ensures var p := l.LocateDevice(device);
            var at := 128 * (l.sb.devtSlotOff + device);
            && (p.Ok? <==> Has(l.sb.featureIncompat, 8) && device < l.sb.extraDevices && at + 128 <= |l.image|)
            && (p.Ok? ==> p.value == Place(at, DeviceSlot, None))
  {
  }

  // ----- Against the reader -----

  /** The xattr header is right behind the inode the reader reads, and is found exactly when that inode is
      and has xattrs. */
  lemma XattrHeaderAgrees(img: seq<byte>, mode: ParseMode, core: R.Core, l: Locator, nid: u64)
    requires BothOpen(img, mode, core, l) && l.Valid()
    ensures var inode := R.GetInode(img, core, nid);
            && (l.LocateXattrHeader(nid).Ok?
                <==> inode.Ok? && inode.value.xattrCount > 0 && (mode.Strict? ==> inode.value.format < 0x20))
            && (l.LocateXattrHeader(nid).Ok? ==>
                  R.InodeOffset(core, nid).Ok?
                  && l.LocateXattrHeader(nid).value.base
                     == R.InodeOffset(core, nid).value + inode.value.InodeSize())
  {
    hide R.Open, OpenLocator, Locator.LocateInode, R.GetInode, R.InodeOffset, U16At, U32At, U64At;
    InodeFoundExactly(img, mode, core, l, nid);
    if l.LocateInode(Primary, nid).Ok? {
      InodeAgrees(img, mode, core, l, nid);
    }
  }

  lemma ModeAgrees(img: seq<byte>, core: R.Core, l: Locator, nid: u64, base: nat)
    requires l.image == img && l.Slot(base) && R.InodeOffset(core, nid) == Ok(base) && R.GetInode(img, core, nid).Ok?
    ensures R.GetInode(img, core, nid).value.mode == U16At(img, base + 4)
  {
    hide LeVal, R.InodeOffset;
    FieldAt(img, base, 4, 2);
  }

  /** What a located directory entry has been checked for. */
  lemma DirentParts(l: Locator, nid: u64, block: u64, index: u32) returns (base: nat, at: nat, first: nat)
    requires l.Valid() && l.LocateDirent(nid, block, index).Ok?
    ensures l.LocateInode(Primary, nid).Ok? && base == l.LocateInode(Primary, nid).value.base && l.Slot(base)
    ensures l.mode.Strict? ==> U16At(l.image, base + 4) / 0x1000 % 16 == 4
    ensures l.sb.blkSizeBits < 64 && l.DirectoryBlock(base, block).Ok? && at == l.DirectoryBlock(base, block).value.0
    ensures at + 12 <= |l.image| && first == U16At(l.image, at + 8) && index < first / 12
    ensures first < l.DirectoryBlock(base, block).value.1
  {
    hide Locator.LocateInode, Locator.DirectoryBlock, U16At, Locator.Slot;
    base := l.LocateInode(Primary, nid).value.base;
    at := l.DirectoryBlock(base, block).value.0;
    first := U16At(l.image, at + 8);
  }

  /** A block cut out of the image has the image's first name offset. */
  lemma FirstOffset(img: seq<byte>, at: nat, data: seq<byte>)
    requires at + |data| <= |img| && data == img[at..at + |data|] && |data| >= 12
    ensures Dirents.EntryCount(data) == Ok(U16At(img, at + 8) / 12)
  {
    hide LeVal;
    SubSlice(img, at, at + |data|, 8, 10);
  }

  /** A directly planned block is a piece of the image. */
  lemma DirectPiece(img: seq<byte>, core: R.Core, inode: T.Inode, offset: nat, at: nat, len: nat, data: seq<byte>)
    requires core.blockSize > 0 && R.PlanInodeBlockRead(core, inode, offset) == Ok(R.Direct(at, len))
    requires R.GetInodeBlock(img, core, inode, offset) == Ok(data)
    ensures |data| == len && at + len <= |img| && data == img[at..at + len]
  {
    hide R.PlanInodeBlockRead;
  }

  /** A located directory entry is one the reader counts in its block; in strict mode the inode is a
      directory. */
  lemma DirentListed(
      img: seq<byte>, mode: ParseMode, core: R.Core, l: Locator, nid: u64, block: u64, index: u32, inode: T.Inode,
      data: seq<byte>)
    requires BothOpen(img, mode, core, l) && l.Valid() && l.LocateDirent(nid, block, index).Ok?
    requires R.GetInode(img, core, nid) == Ok(inode) && core.blockSize > 0
    requires R.GetInodeBlock(img, core, inode, block * core.blockSize) == Ok(data)
    ensures Dirents.EntryCount(data).Ok? && index < Dirents.EntryCount(data).value
    ensures mode.Strict? ==> inode.IsDir()
  {
    hide R.Open, OpenLocator, Locator.LocateInode, R.GetInode, R.InodeOffset, LeVal, Pow2, Locator.DirectoryBlock;
    hide R.PlanInodeBlockRead, R.GetInodeBlock, SameInode, Locator.LocateDirent, U16At, Locator.Slot,
      Dirents.EntryCount;
    ContextAgrees(img, mode, core, l);
    var base, at, first := DirentParts(l, nid, block, index);
    InodeAgrees(img, mode, core, l, nid);
    DirectoryBlockAgrees(img, mode, core, l, inode, base, block);
    DirectPiece(img, core, inode, block * core.blockSize, at, l.DirectoryBlock(base, block).value.1, data);
    FirstOffset(img, at, data);
    ModeAgrees(img, core, l, nid, base);
  }

  /** Which view of a chunk entry there is: of a 4-byte entry the block address alone; of an 8-byte one
      everything but that, its high half only if bit 6 of the inode's chunk format is set. */
  lemma ChunkViews(l: Locator, inode: u64, chunk: u64, field: FieldDef)
    requires l.Valid() && l.LocateChunk(inode, chunk).Ok? && field.structure == ChunkEntry
    ensures l.InodeTail(inode).Ok?
    ensures var place := l.LocateChunk(inode, chunk).value;
            var format := U16At(l.image, l.InodeTail(inode).value.base + 16);
            && (place.len == Some(8) <==> format / 32 % 2 == 1)
            && l.Compatible(place, field, ChunkObject(inode, chunk))
               == Ok(if format / 32 % 2 == 0 then field.id == ChunkBlock
                     else field.id != ChunkBlock && (field.id == ChunkStartHigh ==> format / 64 % 2 == 1))
  {
    hide Locator.LocateInode, U16At, Pow2, RoundUp, Quotient, Locator.ChunkCount, Locator.TailAt, Locator.SizeAt,
      Plus, Times;
  }

  /** An inode of the metabox is found exactly where the metabox mapping puts 32 times its nid, if all its
      bytes follow there without a gap. */
  lemma MetaboxInodePlaced(l: Locator, nid: u64)
    requires l.Valid()
    ensures 32 * nid >= WORD ==> l.LocateInode(Metabox, nid).Err?
    ensures 32 * nid < WORD ==>
      var p, at := l.LocateInode(Metabox, nid), l.MapMetabox(32 * nid);
      && (p.Ok? <==> && at.Ok? && at.value.0 + 2 <= |l.image|
                     && var format := U16At(l.image, at.value.0);
                        var len := if format % 2 == 0 then 32 else 64;
                        && len <= at.value.1 && at.value.0 + len <= |l.image|
                        && (l.mode.Strict? ==> format < 0x20))
      && (p.Ok? ==> p.value.base == at.value.0)
  {
    hide Locator.MapMetabox, U16At;
  }

  // ----- Entries of tables behind an inode -----

  /** Shared id `index` lies four bytes for each id before it behind the twelve-byte header, and is found
      exactly when the header counts it and has room for all it counts. */
  lemma SharedXattrPlaced(l: Locator, inode: u64, index: u32)
    requires l.Valid()
    ensures var header, p := l.LocateXattrHeader(inode), l.LocateSharedXattr(inode, index);
            && (p.Ok? <==> && header.Ok? && header.value.base + 5 <= |l.image|
                           && var count := l.image[header.value.base + 4];
                              index < count && 12 + 4 * count <= l.InodeTail(inode).value.xattrSize)
            && (p.Ok? ==> p.value.base == header.value.base + 12 + 4 * index)
  {
    hide Locator.InodeTail;
  }

  /** The name of an xattr entry follows its four-byte header, the value follows the name. */
  lemma XattrFieldPlaced(l: Locator, inode: u64, i: u32, field: FieldDef)
    requires l.Valid() && S.XattrField(field) && l.Locate(InlineXattrObject(inode, i), field).Ok?
    ensures l.LocateInlineXattr(inode, i).Ok?
    ensures var base := l.LocateInlineXattr(inode, i).value.base;
            && base + 4 <= |l.image|
            && l.Locate(InlineXattrObject(inode, i), field).value.span
               == if field.len != 0 then Span(base + field.offset, field.len)
                  else if field.id == XattrName then Span(base + 4, l.image[base])
                  else Span(base + 4 + l.image[base], U16At(l.image, base + 2))
  {
    hide Locator.Locate, Locator.LocateInlineXattr, Locator.InodeTail, Locator.SkipEntries, RoundUp;
    S.LocateParts(l, InlineXattrObject(inode, i), field);
    S.InlineXattrAt(l, inode, i);
  }

  /** A 16-bit word is read exactly if both its bytes are inside the image. */
  lemma WordRead(image: seq<byte>, at: u64)
    ensures ReadU16(image, at).Ok? <==> at + 2 <= |image|
    ensures ReadU16(image, at).Ok? ==> ReadU16(image, at).value == image[at] as int + 256 * image[at + 1] as int
  {
    if at + 2 <= |image| {
      LeVal2(image, at);
    }
  }

  /** A prefix record in the metabox needs its length word in one piece. */
  lemma PrefixMapped(l: Locator, pos: u64)
    requires l.Valid()
    ensures l.MapPrefix(false, pos) == Ok((pos, None))
    ensures l.MapPrefix(true, pos).Ok? <==> l.MapMetabox(pos).Ok? && l.MapMetabox(pos).value.1 >= 2
    ensures l.MapPrefix(true, pos).Ok? ==>
      l.MapPrefix(true, pos).value == (l.MapMetabox(pos).value.0, Some(l.MapMetabox(pos).value.1))
  {
    hide Locator.MapMetabox;
  }

  /** The next prefix record starts at the next multiple of four behind the length word and the bytes it
      counts, zero counting 65536. */
  lemma PrefixFollows(l: Locator, i: nat)
    requires l.Valid() && S.PrefixStart(l, i + 1).Ok?
    ensures S.PrefixStart(l, i).Ok? && l.MapPrefix(S.InMetabox(l), S.PrefixStart(l, i).value).Ok?
    ensures var at := l.MapPrefix(S.InMetabox(l), S.PrefixStart(l, i).value).value.0;
            && at + 2 <= |l.image|
            && var count := U16At(l.image, at);
               S.PrefixStart(l, i + 1).value
               == RoundUp(S.PrefixStart(l, i).value + 2 + (if count == 0 then 65536 else count), 4)
  {
    hide Locator.MapPrefix, Locator.SkipPrefixes, RoundUp, U16At, S.InMetabox;
    var start := l.sb.xattrPrefixStart * 4;
    S.SkipPrefixesSplit(l, S.InMetabox(l), start, i, i + 1);
    var pos := S.PrefixStart(l, i).value;
    S.PrefixStep(l, S.InMetabox(l), pos, 1);
    S.NoPrefix(l, S.InMetabox(l), S.PrefixStart(l, i + 1).value);
    match S.NextPrefix(l, S.InMetabox(l), pos)
    case Ok(next) => S.NoPrefix(l, S.InMetabox(l), next);
    case Err(_) =>
  }

  /** The infix of a long prefix is the record without its length word and its first byte. */
  lemma PrefixInfixLength(l: Locator, i: byte, field: FieldDef)
    requires l.Valid() && field.WellFormed() && field.structure == LongPrefix
    requires field.id == PrefixInfix && field.len == 0 && l.Locate(PrefixObject(i), field).Ok?
    ensures l.LocatePrefix(i).Ok? && l.LocatePrefix(i).value.base + 2 <= |l.image|
    ensures var base := l.LocatePrefix(i).value.base;
            l.Locate(PrefixObject(i), field).value.span == Span(base + field.offset, U16At(l.image, base) - 1)
  {
    hide Locator.Locate, Locator.LocatePrefix, U16At;
    S.LocateParts(l, PrefixObject(i), field);
    S.PrefixAt(l, i);
  }

  /** An entry is found exactly if the inode is chunked, its chunk format has no unknown bit where the mode is
      strict, there is such a chunk, and no address on the way passes 64 bits. */
  lemma ChunkFound(l: Locator, inode: u64, chunk: u64)
    requires l.Valid() && l.InodeTail(inode).Ok?
    ensures var tail := l.InodeTail(inode).value;
            var format := U16At(l.image, tail.base + 16);
            var bits, unit := l.sb.blkSizeBits + format % 32, if format / 32 % 2 == 1 then 8 else 4;
            l.LocateChunk(inode, chunk).Ok?
            <==> && tail.format / 2 % 8 == 4 && (l.mode.Strict? ==> format < 0x80)
                 && RoundUp(tail.end, unit) + chunk * unit < WORD
                 && bits < 64 && l.SizeAt(tail.base) + Pow2(bits) - 1 < WORD
                 && chunk < DivCeil(l.SizeAt(tail.base), Pow2(bits))
  {
    hide Locator.InodeTail, U16At, U32At, U64At, Pow2, RoundUp, Quotient, DivCeil;
    var tail := l.InodeTail(inode).value;
    CeilAgrees(l.SizeAt(tail.base), Pow2(l.sb.blkSizeBits + U16At(l.image, tail.base + 16) % 32));
  }

  lemma Multiples(table: nat, chunk: nat, unit: nat)
    requires unit in {4, 8} && table % unit == 0
    ensures (table + chunk * unit) % unit == 0
  {
  }

  /** Chunk entries lie in order and without gaps behind the inode and its xattrs, aligned to their size, as
      many of them as there are chunks in the data. */
  lemma ChunkPlaced(l: Locator, inode: u64, chunk: u64)
    requires l.Valid() && l.LocateChunk(inode, chunk).Ok?
    ensures l.InodeTail(inode).Ok?
    ensures var tail, p := l.InodeTail(inode).value, l.LocateChunk(inode, chunk).value;
            var unit := p.Len();
            && unit in {4, 8} && tail.format / 2 % 8 == 4
            && tail.end + unit * chunk <= p.base < tail.end + unit * chunk + unit && p.base % unit == 0
            && l.sb.blkSizeBits + U16At(l.image, tail.base + 16) % 32 < 64
            && chunk < DivCeil(l.SizeAt(tail.base), Pow2(l.sb.blkSizeBits + U16At(l.image, tail.base + 16) % 32))
  {
    hide Locator.InodeTail, U16At, U32At, U64At, Pow2, RoundUp, Quotient, DivCeil;
    var tail := l.InodeTail(inode).value;
    CeilAgrees(l.SizeAt(tail.base), Pow2(l.sb.blkSizeBits + U16At(l.image, tail.base + 16) % 32));
    var unit := l.LocateChunk(inode, chunk).value.Len();
    Multiples(RoundUp(tail.end, unit), chunk, unit);
  }

  // ----- Compressed data -----

  /** The map header is found exactly behind the inodes of the two compressed layouts, aligned to eight
      bytes, at most seven behind the inode and its xattrs. */
  lemma MapPlaced(l: Locator, inode: u64)
    requires l.Valid()
    ensures l.LocateMap(inode).Ok?
            <==> l.InodeTail(inode).Ok? && l.InodeTail(inode).value.format / 2 % 8 in {1, 3}
    ensures l.LocateMap(inode).Ok? ==>
      var tail, base := l.InodeTail(inode).value, l.LocateMap(inode).value.base;
      tail.end <= base < tail.end + 8 && base % 8 == 0
  {
    hide Locator.InodeTail, RoundUp;
  }

  lemma IndexAt(l: Locator, inode: u64, i: u64)
    requires l.Valid() && l.LocateIndex(inode, i).Ok?
    ensures l.LocateMap(inode).Ok? && l.LocateIndex(inode, i).value.base == l.LocateMap(inode).value.base + 16 + 8 * i
  {
    hide Locator.LocateMap;
  }

  /** Index entries of eight bytes lie in order behind the map header and the eight bytes that follow it. */
  lemma IndexesOrdered(l: Locator, inode: u64, i: u64, j: u64)
    requires l.Valid() && i < j && l.LocateIndex(inode, i).Ok? && l.LocateIndex(inode, j).Ok?
    ensures l.LocateMap(inode).Ok?
    ensures var header, p, q := l.LocateMap(inode).value.base, l.LocateIndex(inode, i).value.base,
                                l.LocateIndex(inode, j).value.base;
            && header + 16 <= p && p + 8 <= q
            && (i == 0 ==> p == header + 16) && (j == i + 1 ==> q == p + 8)
  {
    hide Locator.LocateMap, Locator.LocateIndex;
    IndexAt(l, inode, i);
    IndexAt(l, inode, j);
  }

  /** The packs start at the next multiple of their size. */
  lemma PacksStart(l: Locator, start: nat, unit: nat)
    requires start % 8 == 0 && unit in {8, 32}
    ensures start <= l.PackStart(start, unit) < start + unit && l.PackStart(start, unit) % unit == 0
  {
    var r: nat := start % 32;
    assert r in {0, 8, 16, 24};
  }

  /** Where pack `i` lies. */
  lemma PackAt(l: Locator, inode: u64, i: u64) returns (first: nat, unit: nat)
    requires l.Valid() && l.LocatePack(inode, i).Ok?
    ensures l.LocateMap(inode).Ok? && l.LocateMap(inode).value.base + 4 < WORD
    ensures var header := l.LocateMap(inode).value.base;
            && header + 6 <= |l.image|
            && unit == (if U16At(l.image, header + 4) % 2 == 1 then 32 else 8)
            && first == l.PackStart(RoundUp(header + 8, 8), unit)
            && l.LocatePack(inode, i).value.base == first + i * unit
            && l.LocatePack(inode, i).value.len == Some(unit)
  {
    hide Locator.LocateMap, U16At, RoundUp, Locator.PackStart;
    var header := l.LocateMap(inode).value.base;
    unit := if U16At(l.image, header + 4) % 2 == 1 then 32 else 8;
    first := l.PackStart(RoundUp(header + 8, 8), unit);
  }

  lemma Strides(first: nat, i: nat, j: nat, unit: nat)
    requires i < j && unit in {8, 32} && first % unit == 0
    ensures first + i * unit + unit <= first + j * unit && (first + i * unit) % unit == 0
    ensures j == i + 1 ==> first + j * unit == first + i * unit + unit
  {
  }

  lemma Aligned(header: nat)
    requires header % 8 == 0
    ensures RoundUp(header + 8, 8) == header + 8 && (header + 8) % 8 == 0
  {
  }

  /** Packs of compressed indexes lie in order, aligned to their size, behind the map header. */
  lemma PacksOrdered(l: Locator, inode: u64, i: u64, j: u64)
    requires l.Valid() && i < j && l.LocatePack(inode, i).Ok? && l.LocatePack(inode, j).Ok?
    ensures l.LocateMap(inode).Ok?
    ensures var header, p, q := l.LocateMap(inode).value.base, l.LocatePack(inode, i).value,
                                l.LocatePack(inode, j).value;
            var unit := p.Len();
            && unit in {8, 32} && q.len == p.len && p.base % unit == 0
            && header + 8 <= p.base && p.base + unit <= q.base
            && (i == 0 ==> p.base < header + 8 + unit) && (j == i + 1 ==> q.base == p.base + unit)
  {
    hide Locator.LocateMap, Locator.LocatePack, U16At, RoundUp, Locator.PackStart;
    var first, unit := PackAt(l, inode, i);
    var firstAgain, unitAgain := PackAt(l, inode, j);
    MapPlaced(l, inode);
    Aligned(l.LocateMap(inode).value.base);
    PacksStart(l, l.LocateMap(inode).value.base + 8, unit);
    Strides(first, i, j, unit);
  }

  /** Where extent `i` lies. */
  lemma ExtentAt(l: Locator, inode: u64, i: u64) returns (first: nat, unit: nat)
    requires l.Valid() && l.LocateExtent(inode, i).Ok?
    ensures l.LocateMap(inode).Ok? && l.LocateMap(inode).value.base + 4 < WORD
    ensures var header := l.LocateMap(inode).value.base;
            && header + 6 <= |l.image| && U16At(l.image, header + 4) % 2 == 1
            && unit == Pow2(2 + U16At(l.image, header + 4) / 2 % 4)
            && first == RoundUp(header + 8, unit) + (if unit == 4 then 8 else 0)
            && l.LocateExtent(inode, i).value.base == first + i * unit
            && l.LocateExtent(inode, i).value.len == Some(unit)
  {
    hide Locator.LocateMap, U16At, RoundUp;
    var header := l.LocateMap(inode).value.base;
    unit := Pow2(2 + U16At(l.image, header + 4) / 2 % 4);
    first := RoundUp(header + 8, unit) + (if unit == 4 then 8 else 0);
  }

  lemma ExtentUnit(n: nat)
    requires n < 4
    ensures Pow2(2 + n) in {4, 8, 16, 32}
  {
    assert Pow2(2) == 4 && Pow2(3) == 8 && Pow2(4) == 16 && Pow2(5) == 2 * Pow2(4);
  }

  lemma Apart(first: nat, i: nat, j: nat, unit: nat)
    requires i < j && unit in {4, 8, 16, 32}
    ensures first + i * unit + unit <= first + j * unit
    ensures j == i + 1 ==> first + j * unit == first + i * unit + unit
  {
  }

  /** Extent records of 4, 8, 16 or 32 bytes lie in order behind the map header. */
  lemma ExtentsOrdered(l: Locator, inode: u64, i: u64, j: u64)
    requires l.Valid() && i < j && l.LocateExtent(inode, i).Ok? && l.LocateExtent(inode, j).Ok?
    ensures l.LocateMap(inode).Ok?
    ensures var header, p, q := l.LocateMap(inode).value.base, l.LocateExtent(inode, i).value,
                                l.LocateExtent(inode, j).value;
            var unit := p.Len();
            && unit in {4, 8, 16, 32} && q.len == p.len
            && header + 8 + (if unit == 4 then 8 else 0) <= p.base && p.base + unit <= q.base
            && (i == 0 ==> p.base < header + 16 + unit) && (j == i + 1 ==> q.base == p.base + unit)
  {
    hide Locator.LocateMap, Locator.LocateExtent, U16At, RoundUp, Pow2;
    var first, unit := ExtentAt(l, inode, i);
    var firstAgain, unitAgain := ExtentAt(l, inode, j);
    ExtentUnit(U16At(l.image, l.LocateMap(inode).value.base + 4) / 2 % 4);
    Apart(first, i, j, unit);
  }

  /** A record has the extent fields that start inside it. */
  lemma ExtentFields(l: Locator, inode: u64, i: u64, field: FieldDef)
    requires l.Valid() && l.LocateExtent(inode, i).Ok? && field.structure == CompressionExtent
    ensures l.LocateExtent(inode, i).value.len.Some?
    ensures var place := l.LocateExtent(inode, i).value;
            l.Compatible(place, field, ExtentObject(inode, i)) == Ok(field.offset < place.len.value)
  {
    hide Locator.LocateMap, RoundUp, Pow2;
  }
}
