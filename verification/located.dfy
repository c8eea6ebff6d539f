/** What a located field promises, on every image. */
module LocatorSoundness {
  import opened Arithmetic
  import opened Bytes
  import opened Results
  import opened Format
  import opened Locators

  lemma PrefixOfPadding(raw: seq<byte>, n: nat)
    ensures (raw + Zeros(n))[..|raw|] == raw
  {
  }

  /** A located field lies in the image; its bytes and its value are what the image holds there. */
  lemma LocateSound(l: Locator, target: ObjectRef, field: FieldDef)
    requires l.Valid() && field.WellFormed() && l.Locate(target, field).Ok?
    ensures var found := l.Locate(target, field).value;
            && found.span.offset + found.span.len <= |l.image|
            && found.raw == l.image[found.span.offset..found.span.offset + found.span.len]
            && (field.len != 0 ==> found.span.len == field.len)
            && found.value == if field.encoding.ByteString? then Raw(found.raw) else Unsigned(LeVal(found.raw))
  {
    hide Locator.LocateObject, Locator.Compatible, Locator.Present, Locator.RelativeOffset, Locator.FieldLen, LeVal;
    var found := l.Locate(target, field).value;
    PrefixOfPadding(found.raw, 64 - |found.raw|);
  }

  // ----- Inline xattr entries -----

  /** The bytes of the entry at `pos` without its padding: header, name and value. */
  function RecordLen(image: seq<byte>, pos: nat): nat
    requires pos + 4 <= |image|
  {
    4 + image[pos] + U16At(image, pos + 2)
  }

  /** A located entry, where it is and how long its record is. */
  lemma InlineXattrAt(l: Locator, inode: u64, i: u32)
    requires l.Valid() && l.LocateInlineXattr(inode, i).Ok?
    ensures var p := l.LocateInlineXattr(inode, i).value;
            && l.InodeTail(inode).Ok?
            && var tail := l.InodeTail(inode).value;
            && l.EntriesStart(tail).Ok?
            && l.SkipEntries(l.EntriesStart(tail).value, tail.end, i) == Ok(p.base)
            && p.base + 4 <= |l.image|
            && p.len == Some(RoundUp(RecordLen(l.image, p.base), 4))
            && p.base + p.len.value <= tail.end
  {
    hide Locator.SkipEntries, Locator.InodeTail, Locator.EntriesStart, RoundUp;
  }

  lemma SkipOne(l: Locator, pos: nat, tail: nat, n: nat)
    requires l.Valid() && tail <= |l.image| + 262152 && pos + 4 < WORD
    requires n > 0 && l.SkipEntries(pos, tail, n).Ok?
    ensures pos + 4 <= |l.image|
    ensures RoundUp(pos + RecordLen(l.image, pos), 4) + 4 < WORD
    ensures l.SkipEntries(pos, tail, n) == l.SkipEntries(RoundUp(pos + RecordLen(l.image, pos), 4), tail, n - 1)
  {
  }

  lemma SkipNone(l: Locator, pos: nat, tail: nat)
    requires l.Valid() && tail <= |l.image| + 262152 && pos + 4 < WORD
    ensures l.SkipEntries(pos, tail, 0) == Ok(pos)
  {
  }

  lemma {:induction false} SkipFurther(l: Locator, pos: nat, tail: nat, i: nat, j: nat)
    requires l.Valid() && tail <= |l.image| + 262152 && pos + 4 < WORD
    requires i < j && l.SkipEntries(pos, tail, i).Ok? && l.SkipEntries(pos, tail, j).Ok?
    ensures var at := l.SkipEntries(pos, tail, i).value;
            && at + 4 <= |l.image| && RoundUp(at + RecordLen(l.image, at), 4) + 4 < WORD
            && l.SkipEntries(RoundUp(at + RecordLen(l.image, at), 4), tail, j - i - 1)
               == l.SkipEntries(pos, tail, j)
            && (i > 0 ==> at % 4 == 0)
    decreases i
  {
    hide Locator.SkipEntries, RoundUp, RecordLen;
    SkipOne(l, pos, tail, j);
    if i == 0 {
      SkipNone(l, pos, tail);
    } else {
      SkipOne(l, pos, tail, i);
      var next := RoundUp(pos + RecordLen(l.image, pos), 4);
      SkipFurther(l, next, tail, i - 1, j - 1);
      if i == 1 {
        SkipNone(l, next, tail);
      }
    }
  }

  /** Entries of one inode lie inside its xattr region behind the header, in index order, and their
      records never overlap. */
  lemma InlineXattrsOrdered(l: Locator, inode: u64, i: u32, j: u32)
    requires l.Valid() && i < j
    requires l.LocateInlineXattr(inode, i).Ok? && l.LocateInlineXattr(inode, j).Ok?
    ensures var p, q := l.LocateInlineXattr(inode, i).value, l.LocateInlineXattr(inode, j).value;
            var tail := l.InodeTail(inode).value;
            && tail.end - tail.xattrSize + 12 <= p.base
            && p.base + RecordLen(l.image, p.base) <= q.base
            && q.base + q.len.value <= tail.end
  {
    hide Locator.SkipEntries, Locator.LocateInlineXattr, Locator.InodeTail, RecordLen;
    InlineXattrAt(l, inode, i);
    InlineXattrAt(l, inode, j);
    var tail := l.InodeTail(inode).value;
    SkipFurther(l, l.EntriesStart(tail).value, tail.end, i, j);
  }

  lemma SumMod(a: nat, b: nat)
    ensures (a + b) % 4 == if a % 4 + b % 4 < 4 then a % 4 + b % 4 else a % 4 + b % 4 - 4
  {
  }

  /** A length rounded up on its own against an address rounded up as a whole. */
  lemma RoundedApart(pos: nat, len: nat)
    ensures pos + RoundUp(len, 4) <= RoundUp(pos + len, 4)
            <==> pos % 4 == 0 || len % 4 == 0 || pos % 4 + len % 4 > 4
  {
    hide RoundUp;
    Rounded(len);
    Rounded(pos + len);
    SumMod(pos, len);
  }

  /** Whether an entry, padding included, ends before the next one starts: its size is rounded up on its
      own, the next address is rounded up as a whole, and the two differ on unaligned addresses. */
  lemma PaddingFits(l: Locator, inode: u64, i: u32, j: u32)
    requires l.Valid() && j == i + 1
    requires l.LocateInlineXattr(inode, i).Ok? && l.LocateInlineXattr(inode, j).Ok?
    ensures var p, q := l.LocateInlineXattr(inode, i).value, l.LocateInlineXattr(inode, j).value;
            p.base + 4 <= |l.image| && p.len.Some?
            && var len := RecordLen(l.image, p.base);
               p.base + p.len.value <= q.base
               <==> p.base % 4 == 0 || len % 4 == 0 || p.base % 4 + len % 4 > 4
  {
    hide Locator.SkipEntries, Locator.LocateInlineXattr, Locator.InodeTail, RecordLen;
    hide Locator.EntriesStart, RoundUp;
    InlineXattrAt(l, inode, i);
    InlineXattrAt(l, inode, j);
    var tail := l.InodeTail(inode).value;
    var start := l.EntriesStart(tail).value;
    SkipFurther(l, start, tail.end, i, j);
    var p := l.LocateInlineXattr(inode, i).value;
    SkipNone(l, RoundUp(p.base + RecordLen(l.image, p.base), 4), tail.end);
    RoundedApart(p.base, RecordLen(l.image, p.base));
  }

  lemma StartOffset(l: Locator, base: nat)
    requires l.Valid() && l.Slot(base) && l.EntriesStart(l.TailAt(base)).Ok?
    ensures base % 4 == 0 ==> l.EntriesStart(l.TailAt(base)).value % 4 == 0
  {
  }

  lemma StartAligned(l: Locator, inode: u64)
    requires l.Valid() && l.InodeTail(inode).Ok? && l.EntriesStart(l.InodeTail(inode).value).Ok?
    requires l.sb.blkSizeBits >= 2
    ensures l.EntriesStart(l.InodeTail(inode).value).value % 4 == 0
  {
    hide Locator.InodeTail, Locator.LocateInode, Locator.EntriesStart, Pow2, PrimaryInodeOffset;
    SlotAligned(l.sb.metaBlkAddr, l.sb.blkSizeBits, inode);
    StartOffset(l, l.InodeTail(inode).value.base);
  }

  /** Entry sizes, which include the padding, never overlap either when the region is 4-byte aligned,
      as it is whenever blocks have at least four bytes. */
  lemma PaddedEntriesOrdered(l: Locator, inode: u64, i: u32, j: u32)
    requires l.Valid() && i < j
    requires l.LocateInlineXattr(inode, i).Ok? && l.LocateInlineXattr(inode, j).Ok?
    requires l.sb.blkSizeBits >= 2 || i > 0
    ensures l.LocateInlineXattr(inode, i).value.base + l.LocateInlineXattr(inode, i).value.len.value
            <= l.LocateInlineXattr(inode, j).value.base
  {
    hide Locator.SkipEntries, Locator.LocateInlineXattr, Locator.InodeTail, RecordLen;
    hide Locator.EntriesStart, RoundUp;
    InlineXattrAt(l, inode, i);
    InlineXattrAt(l, inode, j);
    var tail := l.InodeTail(inode).value;
    var start := l.EntriesStart(tail).value;
    SkipFurther(l, start, tail.end, i, j);
    var p := l.LocateInlineXattr(inode, i).value;
    if i == 0 {
      StartAligned(l, inode);
      SkipNone(l, start, tail.end);
    }
    RoundedApart(p.base, RecordLen(l.image, p.base));
  }

  /** Shared ids lie one behind the other between the header and the first inline entry. */
  lemma SharedXattrsInside(l: Locator, inode: u64, index: u32)
    requires l.Valid() && l.LocateSharedXattr(inode, index).Ok?
    ensures l.InodeTail(inode).Ok? && l.EntriesStart(l.InodeTail(inode).value).Ok?
    ensures var tail := l.InodeTail(inode).value;
            var base := l.LocateSharedXattr(inode, index).value.base;
            && base == tail.end - tail.xattrSize + 12 + 4 * index
            && base + 4 <= l.EntriesStart(tail).value <= tail.end
  {
    hide Locator.InodeTail;
  }

  // ----- Long-prefix records and compression configurations -----

  /** Where the record behind the one at `pos` starts. */
  function NextPrefix(l: Locator, metabox: bool, pos: u64): (r: Located<u64>)
    requires l.Valid()
    ensures r.Ok? ==> pos + 2 <= r.value && r.value % 4 == 0
  {
    var at :- l.MapPrefix(metabox, pos);
    var raw :- ReadU16(l.image, at.0);
    var next :- Plus(pos, 2 + MetadataLength(raw));
    AlignUp(next, 4)
  }

  lemma PrefixStep(l: Locator, metabox: bool, pos: u64, n: nat)
    requires l.Valid() && n > 0
    ensures l.SkipPrefixes(metabox, pos, n)
            == match NextPrefix(l, metabox, pos)
               case Ok(next) => l.SkipPrefixes(metabox, next, n - 1)
               case Err(e) => Err(e)
  {
    hide Locator.MapPrefix, MetadataLength, RoundUp, Plus, AlignUp, ReadU16;
  }

  lemma NoPrefix(l: Locator, metabox: bool, pos: u64)
    requires l.Valid()
    ensures l.SkipPrefixes(metabox, pos, 0) == Ok(pos)
  {
  }

  lemma {:induction false} SkipPrefixesSplit(l: Locator, metabox: bool, pos: u64, i: nat, j: nat)
    requires l.Valid() && i <= j && l.SkipPrefixes(metabox, pos, j).Ok?
    ensures l.SkipPrefixes(metabox, pos, i).Ok?
    ensures pos <= l.SkipPrefixes(metabox, pos, i).value
    ensures pos % 4 == 0 ==> l.SkipPrefixes(metabox, pos, i).value % 4 == 0
    ensures l.SkipPrefixes(metabox, l.SkipPrefixes(metabox, pos, i).value, j - i)
            == l.SkipPrefixes(metabox, pos, j)
    decreases i
  {
    hide Locator.SkipPrefixes, NextPrefix, Locator.Valid;
    if i == 0 {
      NoPrefix(l, metabox, pos);
    } else {
      PrefixStep(l, metabox, pos, i);
      PrefixStep(l, metabox, pos, j);
      SkipPrefixesSplit(l, metabox, NextPrefix(l, metabox, pos).value, i - 1, j - 1);
    }
  }

  /** Prefix positions are offsets into the metabox inode, not into the image. */
  predicate InMetabox(l: Locator) {
    !Has(l.sb.featureCompat, 0x10) && Has(l.sb.featureIncompat, 0x100)
  }

  /** Where record `i` starts, in the image or in the metabox inode's data. */
  function PrefixStart(l: Locator, i: nat): Located<u64>
    requires l.Valid()
  {
    l.SkipPrefixes(InMetabox(l), l.sb.xattrPrefixStart * 4, i)
  }

  /** A located prefix record: its aligned start, where that is in the image, and its length. */
  lemma PrefixAt(l: Locator, i: byte)
    requires l.Valid() && l.LocatePrefix(i).Ok?
    ensures PrefixStart(l, i).Ok? && PrefixStart(l, i).value >= l.sb.xattrPrefixStart * 4
    ensures PrefixStart(l, i).value % 4 == 0
    ensures var at := l.MapPrefix(InMetabox(l), PrefixStart(l, i).value);
            var p := l.LocatePrefix(i).value;
            && at.Ok? && at.value.0 == p.base && p.base + 2 <= |l.image|
            && p.len == Some(U16At(l.image, p.base)) && 0 < p.len.value <= 256
            && (at.value.1.Some? ==> 2 + p.len.value <= at.value.1.value)
  {
    hide Locator.MapPrefix, Locator.SkipPrefixes;
    SkipPrefixesSplit(l, InMetabox(l), l.sb.xattrPrefixStart * 4, i, i);
  }

  lemma PrefixNext(l: Locator, metabox: bool, pos: u64, n: nat)
    requires l.Valid() && n > 0 && l.SkipPrefixes(metabox, pos, n).Ok?
    ensures l.MapPrefix(metabox, pos).Ok? && l.MapPrefix(metabox, pos).value.0 + 2 <= |l.image|
    ensures pos + 2 + MetadataLength(U16At(l.image, l.MapPrefix(metabox, pos).value.0))
            <= l.SkipPrefixes(metabox, pos, n).value
  {
    hide Locator.MapPrefix, Locator.SkipPrefixes, MetadataLength, RoundUp;
    PrefixStep(l, metabox, pos, n);
    SkipPrefixesSplit(l, metabox, NextPrefix(l, metabox, pos).value, n - 1, n - 1);
  }

  /** Prefix records lie one behind the other from the table's start on, in index order, and never
      overlap. */
  lemma PrefixesOrdered(l: Locator, i: byte, j: byte)
    requires l.Valid() && i < j && l.LocatePrefix(i).Ok? && l.LocatePrefix(j).Ok?
    ensures PrefixStart(l, i).Ok? && PrefixStart(l, j).Ok?
    ensures var p, q := l.LocatePrefix(i).value, l.LocatePrefix(j).value;
            && p.len.Some? && l.sb.xattrPrefixStart * 4 <= PrefixStart(l, i).value
            && PrefixStart(l, i).value + 2 + p.len.value <= PrefixStart(l, j).value
            && l.MapPrefix(InMetabox(l), PrefixStart(l, i).value).Ok?
            && p.base == l.MapPrefix(InMetabox(l), PrefixStart(l, i).value).value.0
            && (!InMetabox(l) ==> p.base == PrefixStart(l, i).value && q.base == PrefixStart(l, j).value
                                  && p.base + 2 + p.len.value <= q.base)
  {
    hide Locator.LocatePrefix, Locator.SkipPrefixes;
    PrefixAt(l, i);
    PrefixAt(l, j);
    var start := l.sb.xattrPrefixStart * 4;
    SkipPrefixesSplit(l, InMetabox(l), start, i, j);
    PrefixNext(l, InMetabox(l), PrefixStart(l, i).value, j - i);
  }

  lemma {:induction false} SkipConfigsSplit(l: Locator, bitmap: u16, pos: u64, id: nat, i: nat, j: nat)
    requires id <= i <= j && l.SkipConfigs(bitmap, pos, id, j).Ok?
    ensures l.SkipConfigs(bitmap, pos, id, i).Ok?
    ensures var at := l.SkipConfigs(bitmap, pos, id, i).value;
            && pos <= at && (pos % 4 == 0 ==> at % 4 == 0)
            && l.SkipConfigs(bitmap, at, i, j) == l.SkipConfigs(bitmap, pos, id, j)
    decreases i - id
  {
    hide MetadataLength, Has, Pow2, RoundUp, Quotient;
    if id < i {
      if Has(bitmap, Pow2(id)) {
        var next := AlignUp(pos + 2 + MetadataLength(ReadU16(l.image, pos).value), 4).value;
        SkipConfigsSplit(l, bitmap, next, id + 1, i, j);
      } else {
        SkipConfigsSplit(l, bitmap, pos, id + 1, i, j);
      }
    }
  }

  lemma ConfigNext(l: Locator, bitmap: u16, pos: u64, i: nat, j: nat)
    requires i < j && Has(bitmap, Pow2(i)) && l.SkipConfigs(bitmap, pos, i, j).Ok?
    ensures pos + 2 <= |l.image|
    ensures pos + 2 + MetadataLength(U16At(l.image, pos)) <= l.SkipConfigs(bitmap, pos, i, j).value
  {
    hide MetadataLength, Has, Pow2, RoundUp, Quotient;
    var next := AlignUp(pos + 2 + MetadataLength(ReadU16(l.image, pos).value), 4).value;
    SkipConfigsSplit(l, bitmap, next, i + 1, j, j);
  }

  /** Configuration records lie one behind the other behind the superblock and its extension slots, in the
      order of the algorithms' numbers, 4-byte aligned, and never overlap. */
  lemma ConfigsOrdered(l: Locator, i: byte, j: byte)
    requires l.Valid() && i < j && l.LocateConfig(i).Ok? && l.LocateConfig(j).Ok?
    ensures var p, q := l.LocateConfig(i).value, l.LocateConfig(j).value;
            && 1152 + l.sb.extSlots * 16 <= p.base && p.base % 4 == 0 && q.base % 4 == 0
            && p.len.Some? && p.base + 2 + p.len.value <= q.base && q.base + 2 <= |l.image|
            && p.len.value == MetadataLength(U16At(l.image, p.base))
  {
    hide Locator.SkipConfigs, MetadataLength, Has, Pow2;
    var bitmap := U16At(l.image, 1108);
    var start := 1152 + l.sb.extSlots * 16;
    SkipConfigsSplit(l, bitmap, start, 0, i, j);
    SkipConfigsSplit(l, bitmap, start, 0, j, j);
    ConfigNext(l, bitmap, l.LocateConfig(i).value.base, i, j);
  }

  // ----- Fields inside xattr entries -----

  /** A field of an xattr entry: part of the 4-byte header, the name, or the value. */
  predicate XattrField(field: FieldDef) {
    && field.WellFormed() && field.structure == XattrEntry
    && if field.len != 0 then field.offset + field.len <= 4
       else field.id == XattrValue || (field.id == XattrName && field.offset == 4)
  }

  /** The parts `Locate` is made of. */
  lemma LocateParts(l: Locator, target: ObjectRef, field: FieldDef)
    requires l.Valid() && field.WellFormed() && l.Locate(target, field).Ok?
    ensures l.LocateObject(target).Ok? && l.LocateObject(target).value.structure == field.structure
    ensures l.RelativeOffset(l.LocateObject(target).value.base, field).Ok?
    ensures l.FieldLen(l.LocateObject(target).value, field).Ok?
    ensures l.Locate(target, field).value.span
            == Span(l.LocateObject(target).value.base
                    + l.RelativeOffset(l.LocateObject(target).value.base, field).value,
                    l.FieldLen(l.LocateObject(target).value, field).value)
  {
    hide Locator.LocateObject, Locator.Compatible, Locator.Present, Locator.RelativeOffset, Locator.FieldLen, LeVal;
  }

  /** A located field of an xattr entry lies inside the entry's record. */
  lemma XattrFieldInside(l: Locator, inode: u64, i: u32, field: FieldDef)
    requires l.Valid() && XattrField(field) && l.Locate(InlineXattrObject(inode, i), field).Ok?
    ensures l.LocateInlineXattr(inode, i).Ok?
    ensures var base := l.LocateInlineXattr(inode, i).value.base;
            var span := l.Locate(InlineXattrObject(inode, i), field).value.span;
            base + 4 <= |l.image|
            && base <= span.offset && span.offset + span.len <= base + RecordLen(l.image, base)
  {
    hide Locator.Locate, Locator.LocateInlineXattr, Locator.InodeTail, Locator.SkipEntries, RoundUp;
    LocateParts(l, InlineXattrObject(inode, i), field);
    InlineXattrAt(l, inode, i);
  }

  /** Fields of different entries of one inode never overlap: writing one never changes the other. */
  lemma XattrFieldsDisjoint(l: Locator, inode: u64, i: u32, j: u32, first: FieldDef, second: FieldDef)
    requires l.Valid() && i < j && XattrField(first) && XattrField(second)
    requires l.Locate(InlineXattrObject(inode, i), first).Ok?
    requires l.Locate(InlineXattrObject(inode, j), second).Ok?
    ensures var a := l.Locate(InlineXattrObject(inode, i), first).value.span;
            var b := l.Locate(InlineXattrObject(inode, j), second).value.span;
            a.offset + a.len <= b.offset
  {
    hide Locator.Locate, Locator.LocateInlineXattr, RecordLen, Locator.InodeTail;
    XattrFieldInside(l, inode, i, first);
    XattrFieldInside(l, inode, j, second);
    InlineXattrsOrdered(l, inode, i, j);
  }

  // ----- Padding that overlaps -----

  /** One-byte blocks put an inode at address 2001; its first xattr entry has a name of three bytes. */
  function OddImage(): (img: seq<byte>)
    ensures |img| == 2064
  {
    Zeros(2064)[1064 := 0xd1][1065 := 7][2003 := 5][2045 := 3]
  }

  lemma OddIndices()
    ensures var img := OddImage();
            && img[1064] == 0xd1 && img[1065] == 7 && img[1066] == 0 && img[1067] == 0
            && img[2001] == 0 && img[2002] == 0 && img[2003] == 5 && img[2004] == 0
            && img[2047] == 0 && img[2048] == 0 && img[2054] == 0 && img[2055] == 0
            && img[1036] == 0 && img[2037] == 0 && img[2045] == 3 && img[2052] == 0
  {
  }

  lemma OddBytes()
    ensures var img := OddImage();
            && U32At(img, 1064) == 2001 && U16At(img, 2001) == 0 && U16At(img, 2003) == 5
            && U16At(img, 2047) == 0 && U16At(img, 2054) == 0
            && img[1036] == 0 && img[2037] == 0 && img[2045] == 3 && img[2052] == 0
  {
    hide OddImage, LeVal;
    OddIndices();
    var img := OddImage();
    LeVal4(img, 1064);
    LeVal2(img, 2001);
    LeVal2(img, 2003);
    LeVal2(img, 2047);
    LeVal2(img, 2054);
  }

  /** The image's one inode, with a 28-byte xattr region behind it. */
  lemma OddTail()
    ensures var img := OddImage();
            && OpenLocator(img, Tolerant).Ok?
            && OpenLocator(img, Tolerant).value.InodeTail(0) == Ok(Tail(2001, 2061, 0, 28))
            && OpenLocator(img, Tolerant).value.EntriesStart(Tail(2001, 2061, 0, 28)) == Ok(2045)
  {
    hide OddImage, U16At, U32At;
    OddBytes();
    assert Pow2(0) == 1;
  }

  lemma OddEntries()
    ensures var l := OpenLocator(OddImage(), Tolerant).value;
            && l.SkipEntries(2045, 2061, 0) == Ok(2045) && l.SkipEntries(2045, 2061, 1) == Ok(2052)
            && l.EntrySize(2045) == Ok(8) && l.EntrySize(2052) == Ok(4)
  {
    hide OddImage, U16At, U32At, RoundUp;
    OddBytes();
    var l := OpenLocator(OddImage(), Tolerant).value;
    Rounded(7);
    Rounded(4);
    Rounded(2052);
    SkipNone(l, 2045, 2061);
    SkipNone(l, 2052, 2061);
  }

  /** At an unaligned address the size of an entry can reach into the next entry. */
  lemma PaddingOverlaps()
    ensures var odd := OpenLocator(OddImage(), Tolerant);
            && odd.Ok?
            && odd.value.LocateInlineXattr(0, 0) == Ok(Place(2045, XattrEntry, Some(8)))
            && odd.value.LocateInlineXattr(0, 1) == Ok(Place(2052, XattrEntry, Some(4)))
  {
    hide OddImage, Locator.InodeTail, Locator.EntriesStart, Locator.SkipEntries, Locator.EntrySize;
    OddTail();
    OddEntries();
  }
}
