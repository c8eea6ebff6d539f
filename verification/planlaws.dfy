/** Laws of accepted plans: fields read back, checksums verify, conflicts are exactly overlaps. */
module PlanLaws {
  import opened Arithmetic
  import opened Bits
  import opened Bytes
  import Results
  import opened Locators
  import opened Patches
  import Replay
  import opened Integrity
  import opened Planner
  import opened PlanMeaning
  import Crc

  // ----- Fields -----

  /** Bytes outside the written slot keep their value. */
  ghost predicate OnlyThere(before: seq<byte>, after: seq<byte>, at: nat, len: nat) {
    |before| == |after| && forall k :: 0 <= k < |before| && !(at <= k < at + len) ==> after[k] == before[k]
  }

  lemma BlitRead(img: seq<byte>, at: nat, patch: seq<byte>)
    requires at + |patch| <= |img|
    ensures Blit(img, at, patch)[at..at + |patch|] == patch
    ensures OnlyThere(img, Blit(img, at, patch), at, |patch|)
  {
  }

  /** A set field reads back as the value set. */
  lemma SetReadsBack(l: Locator, schema: Schema, img: seq<byte>, intent: Intent)
    requires l.Valid() && |img| == |l.image| && intent.SetValue?
    requires WriteOf(l, schema, img, intent).Ok?
    ensures Find(l, schema, intent.target, intent.field).Ok?
    ensures var slot := Find(l, schema, intent.target, intent.field).value;
            var after := Perform(l, schema, img, intent);
            && LeVal(after[slot.offset..slot.offset + slot.len]) == intent.value
            && OnlyThere(img, after, slot.offset, slot.len)
  {
    hide Find, LeVal, LeBytes, Blit;
    var slot := Find(l, schema, intent.target, intent.field).value;
    var bytes := Encode(slot.def.encoding, slot.len, intent.value).value;
    BlitRead(img, slot.offset, bytes);
    LeRoundTrip(intent.value, slot.len);
  }

  /** A replaced field reads back as the bytes given. */
  lemma ReplaceReadsBack(l: Locator, schema: Schema, img: seq<byte>, intent: Intent)
    requires l.Valid() && |img| == |l.image| && intent.ReplaceFixedBytes?
    requires WriteOf(l, schema, img, intent).Ok?
    ensures Find(l, schema, intent.target, intent.field).Ok?
    ensures var slot := Find(l, schema, intent.target, intent.field).value;
            var after := Perform(l, schema, img, intent);
            && after[slot.offset..slot.offset + slot.len] == intent.bytes
            && OnlyThere(img, after, slot.offset, slot.len)
  {
    hide Find, Blit;
    BlitRead(img, Find(l, schema, intent.target, intent.field).value.offset, intent.bytes);
  }

  /** A bit update always fits its field: the masks do, and so does the old value. */
  lemma UpdateFits(value: nat, setMask: nat, clear: nat, len: nat)
    requires value < Pow256(len) && Clear(Or(setMask, clear), Pow2(8 * len) - 1) == 0
    ensures Updated(value, setMask, clear) < Pow256(len)
  {
    hide Or, Clear, Pow2, Pow256;
    PowerOfBytes(len);
    AboveMask(Or(setMask, clear), 8 * len);
    OrBound(setMask, clear, 8 * len);
    OrBound(value, setMask, 8 * len);
    ClearBound(Or(value, setMask), clear);
  }

  lemma UpdatedBit(value: nat, setMask: nat, clear: nat, i: nat)
    ensures Bit(Updated(value, setMask, clear), i) <==> (Bit(value, i) || Bit(setMask, i)) && !Bit(clear, i)
  {
    hide Or, Clear, Bit;
    OrBits(value, setMask, i);
    ClearBits(Or(value, setMask), clear, i);
  }

  lemma MaskFits(l: Locator, schema: Schema, intent: Intent)
    requires l.Valid() && intent.UpdateBits? && FindBits(l, schema, intent).Ok?
    ensures Clear(Or(intent.setMask, intent.clear), Pow2(8 * FindBits(l, schema, intent).value.len) - 1) == 0
  {
    hide Or, Clear, Pow2, FindIn, FieldById;
  }

  /** A bit update of a field it fits writes the updated value there. */
  lemma UpdatePerformed(l: Locator, schema: Schema, img: seq<byte>, intent: Intent)
    requires l.Valid() && |img| == |l.image| && intent.UpdateBits?
    requires FindBits(l, schema, intent).Ok?
    ensures var slot := FindBits(l, schema, intent).value;
            var value := Updated(LeVal(img[slot.offset..slot.offset + slot.len]), intent.setMask, intent.clear);
            && value < Pow256(slot.len)
            && Perform(l, schema, img, intent) == Blit(img, slot.offset, LeBytes(value, slot.len))
  {
    hide FindBits, LeVal, LeBytes, Blit, Pow2, Pow256, Updated;
    var slot := FindBits(l, schema, intent).value;
    var was := LeVal(img[slot.offset..slot.offset + slot.len]);
    LeValBound(img[slot.offset..slot.offset + slot.len]);
    MaskFits(l, schema, intent);
    UpdateFits(was, intent.setMask, intent.clear, slot.len);
  }

  /** Every bit of the field is as the masks say: set if asked, clear if asked, else as it was. */
  lemma BitsReadBack(l: Locator, schema: Schema, img: seq<byte>, intent: Intent, i: nat)
    requires l.Valid() && |img| == |l.image| && intent.UpdateBits?
    requires FindBits(l, schema, intent).Ok?
    ensures var slot := FindBits(l, schema, intent).value;
            var after := Perform(l, schema, img, intent);
            var was, now := LeVal(img[slot.offset..slot.offset + slot.len]),
                            LeVal(after[slot.offset..slot.offset + slot.len]);
            && (Bit(now, i) <==> (Bit(was, i) || Bit(intent.setMask, i)) && !Bit(intent.clear, i))
            && OnlyThere(img, after, slot.offset, slot.len)
  {
    hide Find, FindBits, LeVal, LeBytes, Blit, Or, Clear, Bit, Pow2, Pow256, Updated, Encode, WriteOf, Perform;
    var slot := FindBits(l, schema, intent).value;
    var was := LeVal(img[slot.offset..slot.offset + slot.len]);
    UpdatePerformed(l, schema, img, intent);
    var value := Updated(was, intent.setMask, intent.clear);
    BlitRead(img, slot.offset, LeBytes(value, slot.len));
    LeRoundTrip(value, slot.len);
    UpdatedBit(was, intent.setMask, intent.clear, i);
  }

  lemma BitsEncoded(l: Locator, schema: Schema, img: seq<byte>, intent: Intent)
    requires l.Valid() && |img| == |l.image| && intent.UpdateBits? && FindBits(l, schema, intent).Ok?
    ensures var slot := FindBits(l, schema, intent).value;
            Encode(slot.def.encoding, slot.len,
                   Updated(LeVal(img[slot.offset..slot.offset + slot.len]), intent.setMask, intent.clear)).Ok?
  {
    hide FindBits, LeVal, LeBytes, Pow2, Pow256, Updated;
    var slot := FindBits(l, schema, intent).value;
    LeValBound(img[slot.offset..slot.offset + slot.len]);
    MaskFits(l, schema, intent);
    UpdateFits(LeVal(img[slot.offset..slot.offset + slot.len]), intent.setMask, intent.clear, slot.len);
  }

  lemma FoundBits(l: Locator, schema: Schema, intent: Intent)
    requires l.Valid() && intent.UpdateBits?
    ensures var slot := Find(l, schema, intent.target, intent.field);
            FindBits(l, schema, intent).Ok?
            <==> && And(intent.setMask, intent.clear) == 0 && slot.Ok? && !slot.value.def.encoding.ByteString?
                 && Clear(Or(intent.setMask, intent.clear), Pow2(8 * slot.value.len) - 1) == 0
  {
    hide FieldById, And, Or, Clear, Pow2, Locator.Locate;
  }

  /** A bit update is accepted, on every image, exactly when no bit is asked to be set and cleared, the field
      is a located scalar, and no bit asked for lies behind its end. */
  lemma BitsAccepted(l: Locator, schema: Schema, img: seq<byte>, intent: Intent)
    requires l.Valid() && |img| == |l.image| && intent.UpdateBits?
    ensures WriteOf(l, schema, img, intent).Ok? <==>
      && (forall i: nat :: !(Bit(intent.setMask, i) && Bit(intent.clear, i)))
      && var slot := Find(l, schema, intent.target, intent.field);
         && slot.Ok? && !slot.value.def.encoding.ByteString?
         && forall i: nat :: i >= 8 * slot.value.len ==> !Bit(intent.setMask, i) && !Bit(intent.clear, i)
  {
    hide And, Or, Clear, Bit, Pow2, LeVal, Updated, Find, FindBits, Encode;
    FoundBits(l, schema, intent);
    Disjoint(intent.setMask, intent.clear);
    var slot := Find(l, schema, intent.target, intent.field);
    if slot.Ok? {
      BothFit(intent.setMask, intent.clear, 8 * slot.value.len);
    }
    if FindBits(l, schema, intent).Ok? {
      BitsEncoded(l, schema, img, intent);
    }
  }

  // ----- Checksum -----

  /** An accepted repair covers bytes that are there. */
  lemma RepairFits(parent: seq<byte>, finalLen: nat, policy: Policy, writes: WriteMap)
    requires 1152 <= |parent| && finalLen <= |parent|
    requires Repaired(parent, finalLen, policy, writes).Ok?
    requires HasChecksum(Overlay(parent, writes)) && !policy.Preserve?
    ensures 8 <= Coverage(Overlay(parent, writes)[BLOCK_BITS])
    ensures SUPERBLOCK + Coverage(Overlay(parent, writes)[BLOCK_BITS]) <= finalLen
  {
    hide Overlay, Added, Pow2, LeVal, Checksum;
  }

  /** The stored word is the right one, or the right one with its lowest bit inverted. */
  ghost predicate Checksummed(img: seq<byte>, coverage: nat, policy: Policy)
    requires 8 <= coverage && SUPERBLOCK + coverage <= |img|
  {
    var right := Crc.Stored(Checksum(img, coverage));
    img[CHECKSUM..CHECKSUM + 4] == if policy.Invalidate? then right[0 := Crc.Flip(right[0])] else right
  }

  lemma {:induction false} MendedChecksum(patched: seq<byte>, finalLen: nat, policy: Policy)
    requires 1152 <= |patched| && finalLen <= |patched| && HasChecksum(patched) && !policy.Preserve?
    requires 8 <= Coverage(patched[BLOCK_BITS]) && SUPERBLOCK + Coverage(patched[BLOCK_BITS]) <= finalLen
    ensures var out := Mended(patched, finalLen, policy);
            var coverage := Coverage(patched[BLOCK_BITS]);
            && SUPERBLOCK + coverage <= |out|
            && (Verifies(out, coverage) <==> policy.Recalculate?)
            && Checksummed(out, coverage, policy)
            && (|out| >= 1152 ==> HasChecksum(out) && out[BLOCK_BITS] == patched[BLOCK_BITS])
  {
    hide Checksum, Crc.Stored, Crc.Add, Crc.Flip, Coverage, LeVal;
    var coverage := Coverage(patched[BLOCK_BITS]);
    var cut := patched[..finalLen];
    RepairVerifies(cut, coverage, policy);
    var word := Crc.Stored(RepairWord(policy, Checksum(cut, coverage)));
    ChecksumIgnoresField(cut, coverage, word);
    Crc.InvertedStored(Checksum(cut, coverage));
    var out := Mended(patched, finalLen, policy);
    assert out == Blit(cut, CHECKSUM, word);
    assert out[CHECKSUM..CHECKSUM + 4] == word;
    if |out| >= 1152 {
      assert out[FEATURES..FEATURES + 4] == patched[FEATURES..FEATURES + 4];
    }
  }

  /** The repaired checksum of an accepted plan's output verifies over the bytes the patched block size
      implies; an invalidated one fails, and is the right one with a single bit inverted. */
  lemma {:induction false} OutputChecksum(
      parent: seq<byte>, schema: Schema, intents: seq<Intent>, mode: Mode, policy: Policy, l: Locator)
    requires Opens(parent, mode, l) && PlanOf(parent, schema, intents, mode, policy).Ok?
    requires !policy.Preserve? && HasChecksum(PerformAll(l, schema, parent, intents))
    ensures var patched := PerformAll(l, schema, parent, intents);
            var plan := PlanOf(parent, schema, intents, mode, policy).value;
            var out := Replay.Apply(parent, plan.patches, plan.resize);
            var coverage := Coverage(patched[BLOCK_BITS]);
            && out.Ok? && 8 <= coverage && SUPERBLOCK + coverage <= |out.value|
            && (Verifies(out.value, coverage) <==> policy.Recalculate?)
            && Checksummed(out.value, coverage, policy)
            && (|out.value| >= 1152 ==> HasChecksum(out.value) && out.value[BLOCK_BITS] == patched[BLOCK_BITS])
  {
    hide Steps, PlanOf, Overlay, Consistent, PerformAll, Repaired, Checksum, Replay.Apply, OpenLocator, Requested;
    hide Crc.Stored, Crc.Add, Pow2, LeVal;
    AcceptedPlan(parent, schema, intents, mode, policy, l);
    PlanParts(parent, schema, intents, mode, policy, l);
    var state := Steps(l, schema, (map[], Results.None), intents).value;
    NothingPlanned(parent);
    NothingOverlaid(parent);
    StepsMeaning(l, schema, (map[], Results.None), intents);
    var patched := PerformAll(l, schema, parent, intents);
    var finalLen := if Requested(intents).Some? then Requested(intents).value else |parent|;
    RepairFits(parent, finalLen, policy, state.0);
    MendedChecksum(patched, finalLen, policy);
  }

  /** The image's bytes from the superblock up to `end`, the checksum field zero. */
  function CoveredBytes(img: seq<byte>, end: nat): seq<byte>
    requires 1032 <= end <= |img|
  {
    img[1024..1028] + [0, 0, 0, 0] + img[1032..end]
  }

  lemma CoveredIs(img: seq<byte>, coverage: nat)
    requires 8 <= coverage && 1024 + coverage <= |img|
    ensures Checksum(img, coverage) == Crc.Crc32c(0xffff_ffff, CoveredBytes(img, 1024 + coverage))
  {
    assert Blit(img[1024..1024 + coverage], 4, Zeros(4)) == CoveredBytes(img, 1024 + coverage);
  }

  lemma CoverageIs(bits: nat)
    ensures 1024 + Coverage(bits) == if Pow2(bits) > 1024 then Pow2(bits) else 1024 + Pow2(bits)
  {
  }

  /** The same in numbers: if bit 0 of the word at 1032 asks for a checksum, the output's word at 1028 is the
      CRC-32C of the bytes from 1024 to the end of the first block, or of as many bytes as a block has where
      that is not behind 1024, with the word itself taken as zero; invalidated, it is that with bit 0 the
      other way round. */
  lemma {:induction false} ChecksumSpelled(
      parent: seq<byte>, schema: Schema, intents: seq<Intent>, mode: Mode, policy: Policy, l: Locator,
      patched: seq<byte>)
    requires Opens(parent, mode, l) && PlanOf(parent, schema, intents, mode, policy).Ok?
    requires patched == PerformAll(l, schema, parent, intents) && |patched| >= 1152
    requires !policy.Preserve? && LeVal(patched[1032..1036]) % 2 == 1
    ensures var plan := PlanOf(parent, schema, intents, mode, policy).value;
            var out := Replay.Apply(parent, plan.patches, plan.resize);
            var size := Pow2(patched[1036]);
            var end := if size > 1024 then size else 1024 + size;
            && out.Ok? && 1032 <= end <= |out.value|
            && var crc := Crc.Crc32c(0xffff_ffff, CoveredBytes(out.value, end));
               out.value[1028..1032] == Crc.Stored(if policy.Invalidate? then Crc.Add(crc, 1) else crc)
  {
    hide PlanOf, PerformAll, Replay.Apply, OpenLocator, Crc.Stored, Crc.Add, Crc.Crc32c, Pow2, LeVal, Coverage,
      Checksum, Verifies, CoveredBytes;
    OutputChecksum(parent, schema, intents, mode, policy, l);
    var plan := PlanOf(parent, schema, intents, mode, policy).value;
    var out := Replay.Apply(parent, plan.patches, plan.resize).value;
    var coverage := Coverage(patched[BLOCK_BITS]);
    CoverageIs(patched[BLOCK_BITS]);
    CoveredIs(out, coverage);
    Crc.InvertedStored(Checksum(out, coverage));
  }

  // ----- Conflicts -----

  /** Byte `k` differs from the parent's at some point while the intents are performed. */
  ghost predicate EverChanged(l: Locator, schema: Schema, img: seq<byte>, intents: seq<Intent>, k: nat)
    requires l.Valid() && |img| == |l.image| && k < |img|
    decreases |intents|
  {
    || img[k] != l.image[k]
    || (|intents| > 0 && EverChanged(l, schema, Perform(l, schema, img, intents[0]), intents[1..], k))
  }

  lemma PlanningKeys(l: Locator, schema: Schema, writes: WriteMap, intent: Intent, k: nat)
    requires l.Valid() && Consistent(l.image, writes) && !intent.TruncateImage?
    requires Planning(l, schema, writes, intent).Ok? && k < |l.image|
    ensures k in Planning(l, schema, writes, intent).value
            <==> k in writes || Perform(l, schema, Overlay(l.image, writes), intent)[k] != l.image[k]
  {
    hide WriteOf;
    var write := WriteOf(l, schema, Overlay(l.image, writes), intent).value;
    AddedMeaning(l.image, writes, write.0, write.1, write.2);
  }

  lemma OverlayKeys(parent: seq<byte>, writes: WriteMap, k: nat)
    requires k < |parent|
    ensures k !in writes ==> Overlay(parent, writes)[k] == parent[k]
  {
  }

  /** What an accepted plan reserves: exactly the bytes that ever differ from the parent. A write of the
      parent's own byte reserves nothing. */
  lemma {:induction false} ReservedBytes(l: Locator, schema: Schema, state: State, intents: seq<Intent>, k: nat)
    requires l.Valid() && Consistent(l.image, state.0) && k < |l.image|
    requires Steps(l, schema, state, intents).Ok?
    ensures k in Steps(l, schema, state, intents).value.0
            <==> k in state.0 || EverChanged(l, schema, Overlay(l.image, state.0), intents, k)
    decreases |intents|
  {
    OverlayKeys(l.image, state.0, k);
    hide Consistent, Planning, Perform, Overlay;
    if |intents| > 0 {
      var next := Step(l, schema, state, intents[0]).value;
      if intents[0].TruncateImage? {
        PerformTruncate(l, schema, Overlay(l.image, state.0), intents[0]);
      } else {
        PlanningMeaning(l, schema, state.0, intents[0]);
        PlanningKeys(l, schema, state.0, intents[0], k);
      }
      ReservedBytes(l, schema, next, intents[1..], k);
    }
  }
}
