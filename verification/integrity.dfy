/** Repairing the superblock checksum of a planned image. */
module Integrity {
  import Arithmetic
  import opened Bytes
  import opened Results
  import Locators
  import opened Patches
  import Collapse
  import opened Replay
  import Crc

  datatype Policy = Preserve | Recalculate | Invalidate

  datatype Status = NotApplicable | Preserved | Applied

  const SUPERBLOCK: nat := 1024

  const CHECKSUM: nat := 1028

  const FEATURES: nat := 1032

  const BLOCK_BITS: nat := 1036

  /** The planned byte at `offset`, or else the parent's. */
  function LogicalByte(parent: seq<byte>, writes: WriteMap, offset: nat): (r: Planned<byte>)
    ensures offset < |parent| ==> r == Ok(Overlay(parent, writes)[offset])
  {
    if offset in writes then Ok(writes[offset].after)
    else if offset < |parent| then Ok(parent[offset])
    else Err(Bounds)
  }

  /** Four planned bytes as a number; inside the image no byte is missing. */
  method LogicalU32(parent: seq<byte>, writes: WriteMap, offset: nat) returns (r: nat)
    requires offset + 4 <= |parent|
    ensures r == LeVal(Overlay(parent, writes)[offset..offset + 4])
  {
    hide Overlay;
    var bytes: seq<byte> := [];
    for index := 0 to 4
      invariant bytes == Overlay(parent, writes)[offset..offset + index]
    {
      bytes := bytes + [LogicalByte(parent, writes, offset + index).value];
    }
    r := LeVal(bytes);
  }

  /** Whether the image says it carries a checksum. */
  predicate HasChecksum(img: seq<byte>)
    requires |img| >= 1152
  {
    LeVal(img[FEATURES..FEATURES + 4]) % 2 == 1
  }

  /** How many bytes from the superblock on the checksum covers. */
  function Coverage(blockBits: nat): (n: nat)
    ensures n > 0
  {
    var blockSize := Arithmetic.Pow2(blockBits);
    if blockSize > SUPERBLOCK then blockSize - SUPERBLOCK else blockSize
  }

  /** The checksum of the covered bytes, its own field taken as zero. */
  function Checksum(img: seq<byte>, coverage: nat): bv32
    requires 8 <= coverage && SUPERBLOCK + coverage <= |img|
  {
    Crc.Crc32c(0xffff_ffff, Blit(img[SUPERBLOCK..SUPERBLOCK + coverage], 4, Zeros(4)))
  }

  function RepairOp(policy: Policy): Operator {
    if policy.Invalidate? then InvalidateOp else RecalculateOp
  }

  function RepairMeta(policy: Policy): Meta {
    Meta(true, Some(Locators.SuperblockObject), Some(Locators.Named("erofs.superblock.checksum")), Locators.LeU32,
         RepairOp(policy))
  }

  function RepairWord(policy: Policy, crc: bv32): bv32 {
    if policy.Invalidate? then Crc.Add(crc, 1) else crc
  }

  /** What the repair adds to the planned writes. */
  ghost function Repaired(parent: seq<byte>, finalLen: nat, policy: Policy, writes: WriteMap)
    : (r: Planned<(WriteMap, Status)>)
    requires 1152 <= |parent| && finalLen <= |parent|
  {
    var patched := Overlay(parent, writes);
    if !HasChecksum(patched) then Ok((writes, NotApplicable))
    else if policy.Preserve? then Ok((writes, Preserved))
    else if patched[BLOCK_BITS] >= 64 then Err(Bounds)
    else
      var coverage := Coverage(patched[BLOCK_BITS]);
      if coverage < 8 then Err(Bounds)
      else if SUPERBLOCK + coverage > finalLen then Err(TruncateConflict)
      else
        var word := RepairWord(policy, Checksum(patched, coverage));
        match Added(parent, writes, CHECKSUM, Crc.Stored(word), RepairMeta(policy))
        case Ok(w) => Ok((w, Applied))
        case Err(e) => Err(e)
  }

  /** What the repair plans anew is the checksum field alone, marked as a repair of that field by the policy. */
  lemma RepairMarked(parent: seq<byte>, finalLen: nat, policy: Policy, writes: WriteMap, k: nat)
    requires 1152 <= |parent| && finalLen <= |parent| && Repaired(parent, finalLen, policy, writes).Ok?
    ensures var done := Repaired(parent, finalLen, policy, writes).value;
            && (done.1 == (if !HasChecksum(Overlay(parent, writes)) then NotApplicable
                           else if policy == Preserve then Preserved else Applied))
            && (k in done.0 && k !in writes ==>
                  && CHECKSUM <= k < CHECKSUM + 4 && policy != Preserve
                  && done.0[k].meta == Meta(
                       true, Some(Locators.SuperblockObject), Some(Locators.Named("erofs.superblock.checksum")),
                       Locators.LeU32, if policy == Recalculate then RecalculateOp else InvalidateOp))
  {
    hide Overlay, Arithmetic.Pow2, Crc.Stored, Checksum, HasChecksum, FirstClash;
  }

  lemma NothingWritten(parent: seq<byte>)
    ensures Fits(parent, []) && Written(parent, []) == parent
  {
  }

  lemma WrittenNext(parent: seq<byte>, es: seq<Collapse.Entry>, i: nat)
    requires Fits(parent, es) && i < |es|
    ensures Fits(parent, es[..i]) && Fits(parent, es[..i + 1])
    ensures Written(parent, es[..i + 1]) == Written(parent, es[..i])[es[i].0 := es[i].1.after]
  {
    assert es[..i + 1][..i] == es[..i];
  }

  /** The covered bytes with the planned writes in them. */
  method PlannedBlock(parent: seq<byte>, writes: WriteMap, end: nat) returns (block: seq<byte>)
    requires Consistent(parent, writes) && SUPERBLOCK <= end <= |parent|
    ensures block == Overlay(parent, writes)[SUPERBLOCK..end]
  {
    hide Overlay, Collapse.Entries, Written, Consistent;
    var entries := Collapse.Entries(writes);
    EntriesFit(parent, writes);
    block := parent[SUPERBLOCK..end];
    NothingWritten(parent);
    for i := 0 to |entries|
      invariant Fits(parent, entries[..i])
      invariant block == Written(parent, entries[..i])[SUPERBLOCK..end]
    {
      WrittenNext(parent, entries, i);
      var offset, write := entries[i].0, entries[i].1;
      if SUPERBLOCK <= offset < end {
        block := block[offset - SUPERBLOCK := write.after];
      }
    }
    assert entries[..|entries|] == entries;
  }

  /** Adds the checksum repair to the write map. */
  method ApplyIntegrity(parent: seq<byte>, finalLen: nat, policy: Policy, writes: WriteMap)
    returns (r: Planned<(WriteMap, Status)>)
    requires Consistent(parent, writes) && 1152 <= |parent| && finalLen <= |parent|
    ensures r == Repaired(parent, finalLen, policy, writes)
  {
    hide Overlay, Consistent, Added, Arithmetic.Pow2, Crc.Crc32c, Crc.Stored, Crc.Add;
    var feature := LogicalU32(parent, writes, FEATURES);
    if feature % 2 == 0 {
      return Ok((writes, NotApplicable));
    }
    if policy.Preserve? {
      return Ok((writes, Preserved));
    }
    var blkSizeBits := LogicalByte(parent, writes, BLOCK_BITS).value;
    if blkSizeBits >= 64 {
      return Err(Bounds);
    }
    var coverage := Coverage(blkSizeBits);
    if coverage < 8 {
      return Err(Bounds);
    }
    if SUPERBLOCK + coverage > finalLen {
      return Err(TruncateConflict);
    }
    var block := PlannedBlock(parent, writes, SUPERBLOCK + coverage);
    block := Blit(block, 4, Zeros(4));
    var checksum := Crc.Compute(0xffff_ffff, block);
    if policy.Invalidate? {
      checksum := Crc.Add(checksum, 1);
    }
    var repaired := AddWrite(parent, writes, CHECKSUM, Crc.Stored(checksum), RepairMeta(policy));
    if repaired.Err? {
      return Err(repaired.error);
    }
    r := Ok((repaired.value, Applied));
  }

  // ----- The repair is a repair -----

  /** The image's stored checksum is the one of its covered bytes. */
  predicate Verifies(img: seq<byte>, coverage: nat)
    requires 8 <= coverage && SUPERBLOCK + coverage <= |img|
  {
    img[CHECKSUM..CHECKSUM + 4] == Crc.Stored(Checksum(img, coverage))
  }

  /** Writing the checksum field does not change the checksum. */
  lemma ChecksumIgnoresField(img: seq<byte>, coverage: nat, word: seq<byte>)
    requires 8 <= coverage && SUPERBLOCK + coverage <= |img| && |word| == 4
    ensures Checksum(Blit(img, CHECKSUM, word), coverage) == Checksum(img, coverage)
  {
    var end := SUPERBLOCK + coverage;
    assert Blit(Blit(img, CHECKSUM, word)[SUPERBLOCK..end], 4, Zeros(4))
        == Blit(img[SUPERBLOCK..end], 4, Zeros(4));
  }

  /** Nor does cutting the image behind the covered bytes. */
  lemma ChecksumOfPrefix(img: seq<byte>, coverage: nat, len: nat)
    requires 8 <= coverage && SUPERBLOCK + coverage <= len <= |img|
    ensures Checksum(img[..len], coverage) == Checksum(img, coverage)
  {
    assert img[..len][SUPERBLOCK..SUPERBLOCK + coverage] == img[SUPERBLOCK..SUPERBLOCK + coverage];
  }

  /** Storing the checksum makes the image verify; storing it with one bit inverted makes it fail. */
  lemma RepairVerifies(img: seq<byte>, coverage: nat, policy: Policy)
    requires 8 <= coverage && SUPERBLOCK + coverage <= |img|
    ensures var out := Blit(img, CHECKSUM, Crc.Stored(RepairWord(policy, Checksum(img, coverage))));
            Verifies(out, coverage) <==> !policy.Invalidate?
  {
    hide Checksum, Crc.Stored, Crc.Add;
    var crc := Checksum(img, coverage);
    ChecksumIgnoresField(img, coverage, Crc.Stored(RepairWord(policy, crc)));
    Crc.InvertedStored(crc);
    var out := Blit(img, CHECKSUM, Crc.Stored(RepairWord(policy, crc)));
    assert out[CHECKSUM..CHECKSUM + 4] == Crc.Stored(RepairWord(policy, crc));
  }
}
