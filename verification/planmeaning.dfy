/** An accepted plan means what its intents say. */
module PlanMeaning {
  import Arithmetic
  import opened Bytes
  import opened Results
  import Format
  import opened Locators
  import opened Patches
  import Collapse
  import opened Replay
  import opened Integrity
  import opened Planner
  import Crc

  /** One intent on a mutable copy, fields located in the unchanged parent. */
  ghost function Perform(l: Locator, schema: Schema, img: seq<byte>, intent: Intent): (r: seq<byte>)
    requires l.Valid() && |img| == |l.image|
    ensures |r| == |img|
  {
    if intent.TruncateImage? then img
    else
      match WriteOf(l, schema, img, intent)
      case Ok(write) => if write.0 + |write.1| <= |img| then Blit(img, write.0, write.1) else img
      case Err(_) => img
  }

  ghost function PerformAll(l: Locator, schema: Schema, img: seq<byte>, intents: seq<Intent>): (r: seq<byte>)
    requires l.Valid() && |img| == |l.image|
    ensures |r| == |img|
    decreases |intents|
  {
    if |intents| == 0 then img else PerformAll(l, schema, Perform(l, schema, img, intents[0]), intents[1..])
  }

  /** The intent's write is known and stays inside the image, so that performing it writes it. */
  ghost predicate Performable(l: Locator, schema: Schema, img: seq<byte>, intent: Intent)
    requires l.Valid() && |img| == |l.image|
  {
    intent.TruncateImage?
    || match WriteOf(l, schema, img, intent)
       case Ok(write) => write.0 + |write.1| <= |img|
       case Err(_) => false
  }

  /** Each intent is, when its turn comes. */
  ghost predicate AllPerformable(l: Locator, schema: Schema, img: seq<byte>, intents: seq<Intent>)
    requires l.Valid() && |img| == |l.image|
    decreases |intents|
  {
    |intents| == 0
    || (Performable(l, schema, img, intents[0])
        && AllPerformable(l, schema, Perform(l, schema, img, intents[0]), intents[1..]))
  }

  /** The length the intents ask for. */
  function Requested(intents: seq<Intent>): Option<nat> {
    if |intents| == 0 then None
    else if intents[0].TruncateImage? then Some(intents[0].newLen)
    else Requested(intents[1..])
  }

  lemma {:induction false} PlanningMeaning(l: Locator, schema: Schema, writes: WriteMap, intent: Intent)
    requires l.Valid() && Consistent(l.image, writes) && !intent.TruncateImage?
    requires Planning(l, schema, writes, intent).Ok?
    ensures var next := Planning(l, schema, writes, intent).value;
            && Consistent(l.image, next)
            && Overlay(l.image, next) == Perform(l, schema, Overlay(l.image, writes), intent)
    ensures Performable(l, schema, Overlay(l.image, writes), intent)
  {
    hide Overlay, Consistent, Added, WriteOf;
    var write := WriteOf(l, schema, Overlay(l.image, writes), intent).value;
    AddedMeaning(l.image, writes, write.0, write.1, write.2);
  }

  lemma PerformTruncate(l: Locator, schema: Schema, img: seq<byte>, intent: Intent)
    requires l.Valid() && |img| == |l.image| && intent.TruncateImage?
    ensures Perform(l, schema, img, intent) == img && Performable(l, schema, img, intent)
  {
  }

  /** The planned writes, laid over the parent, are the intents performed one after the other. */
  lemma {:induction false} StepsMeaning(l: Locator, schema: Schema, state: State, intents: seq<Intent>)
    requires l.Valid() && Consistent(l.image, state.0)
    requires Steps(l, schema, state, intents).Ok?
    ensures var done := Steps(l, schema, state, intents).value;
            && Consistent(l.image, done.0)
            && Overlay(l.image, done.0) == PerformAll(l, schema, Overlay(l.image, state.0), intents)
            && done.1 == (if state.1.Some? then state.1 else Requested(intents))
            && (state.1.Some? ==> Requested(intents).None?)
    ensures AllPerformable(l, schema, Overlay(l.image, state.0), intents)
    decreases |intents|
  {
    hide Overlay, Consistent, Planning, Perform, Performable;
    if |intents| > 0 {
      if intents[0].TruncateImage? {
        PerformTruncate(l, schema, Overlay(l.image, state.0), intents[0]);
        StepsMeaning(l, schema, (state.0, Some(intents[0].newLen)), intents[1..]);
      } else {
        PlanningMeaning(l, schema, state.0, intents[0]);
        StepsMeaning(l, schema, (Planning(l, schema, state.0, intents[0]).value, state.1), intents[1..]);
      }
    }
  }

  // ----- The whole plan -----

  /** The checksum repair on bytes: what the policy asks for, on an image cut to `finalLen`. */
  ghost function Mended(patched: seq<byte>, finalLen: nat, policy: Policy): (r: seq<byte>)
    requires 1152 <= |patched| && finalLen <= |patched|
    ensures |r| == finalLen
  {
    var cut := patched[..finalLen];
    if !HasChecksum(patched) || policy.Preserve? then cut
    else
      var coverage := Coverage(patched[BLOCK_BITS]);
      if 8 <= coverage && SUPERBLOCK + coverage <= finalLen
      then Blit(cut, CHECKSUM, Crc.Stored(RepairWord(policy, Checksum(cut, coverage))))
      else cut
  }

  lemma BlitCut(img: seq<byte>, at: nat, patch: seq<byte>, len: nat)
    requires at + |patch| <= len <= |img|
    ensures Blit(img, at, patch)[..len] == Blit(img[..len], at, patch)
  {
  }

  /** The repair in the write map is the repair on the bytes. */
  lemma {:induction false} RepairMeaning(
      parent: seq<byte>, finalLen: nat, policy: Policy, writes: WriteMap)
    requires 1152 <= |parent| && finalLen <= |parent| && Consistent(parent, writes)
    requires Repaired(parent, finalLen, policy, writes).Ok?
    ensures var done := Repaired(parent, finalLen, policy, writes).value.0;
            && Consistent(parent, done)
            && Overlay(parent, done)[..finalLen] == Mended(Overlay(parent, writes), finalLen, policy)
  {
    hide Overlay, Consistent, Added, Checksum, Crc.Stored, Crc.Add, Arithmetic.Pow2, LeVal;
    var patched := Overlay(parent, writes);
    if HasChecksum(patched) && !policy.Preserve? {
      var coverage := Coverage(patched[BLOCK_BITS]);
      var word := Crc.Stored(RepairWord(policy, Checksum(patched, coverage)));
      AddedMeaning(parent, writes, CHECKSUM, word, RepairMeta(policy));
      ChecksumOfPrefix(patched, coverage, finalLen);
      BlitCut(patched, CHECKSUM, word, finalLen);
    }
  }

  /** The parent a plan is made for, opened. */
  ghost predicate Opens(parent: seq<byte>, mode: Mode, l: Locator) {
    |parent| < Format.IMAGE_LIMIT && OpenLocator(parent, ParseModeOf(mode)) == Ok(l)
  }

  /** The parts of an accepted plan. */
  lemma {:induction false} PlanParts(
      parent: seq<byte>, schema: Schema, intents: seq<Intent>, mode: Mode, policy: Policy, l: Locator)
    requires Opens(parent, mode, l) && PlanOf(parent, schema, intents, mode, policy).Ok?
    ensures Steps(l, schema, (map[], None), intents).Ok?
    ensures Finished(l, mode, policy, Steps(l, schema, (map[], None), intents).value)
            == PlanOf(parent, schema, intents, mode, policy)
  {
    hide Steps, Finished, OpenLocator;
  }

  lemma NothingOverlaid(parent: seq<byte>)
    ensures Overlay(parent, map[]) == parent
  {
  }

  lemma CutIs(img: seq<byte>, len: nat)
    requires len <= |img|
    ensures Cut(img, len) == img[..len] && (len == |img| ==> img[..len] == img)
  {
  }

  /** Applying the patches and the resize of an accepted plan to the parent gives exactly the bytes of:
      performing every intent in order on a mutable copy, each of which does write, cutting it, then
      repairing the checksum. */
  lemma {:induction false} AcceptedPlan(
      parent: seq<byte>, schema: Schema, intents: seq<Intent>, mode: Mode, policy: Policy, l: Locator)
    requires Opens(parent, mode, l) && PlanOf(parent, schema, intents, mode, policy).Ok?
    ensures var plan := PlanOf(parent, schema, intents, mode, policy).value;
            var patched := PerformAll(l, schema, parent, intents);
            var finalLen := if Requested(intents).Some? then Requested(intents).value else |parent|;
            && 1152 <= |patched| && finalLen <= |patched| && AllPerformable(l, schema, parent, intents)
            && Apply(parent, plan.patches, plan.resize) == Ok(Mended(patched, finalLen, policy))
  {
    hide Steps, PlanOf, Overlay, Consistent, PerformAll, AllPerformable, Repaired, Mended, ApplyPatches;
    hide Collapse.Runs, Collapse.Entries, Collapse.PatchesOf, OpenLocator, Requested;
    PlanParts(parent, schema, intents, mode, policy, l);
    var state := Steps(l, schema, (map[], None), intents).value;
    NothingPlanned(parent);
    NothingOverlaid(parent);
    StepsMeaning(l, schema, (map[], None), intents);
    var finalLen := if state.1.Some? then state.1.value else |parent|;
    RepairMeaning(parent, finalLen, policy, state.0);
    var done := Repaired(parent, finalLen, policy, state.0).value.0;
    CollapsedReplays(parent, done);
    CutIs(Overlay(parent, done), finalLen);
  }
}
