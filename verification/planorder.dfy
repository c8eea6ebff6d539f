/** Which plans are accepted, and when the order of their intents matters. */
module PlanOrder {
  import opened Bytes
  import opened Results
  import opened Locators
  import opened Patches
  import Collapse
  import opened Integrity
  import opened Planner
  import opened PlanMeaning
  import Crc

  // ----- What an intent does to a byte -----

  /** What the intent does is independent of the intents before it. */
  predicate Fixed(intent: Intent) {
    !intent.UpdateBits?
  }

  ghost predicate AllFixed(intents: seq<Intent>) {
    forall i :: 0 <= i < |intents| ==> Fixed(intents[i])
  }

  predicate PlacedWrite(l: Locator, write: Planned<(nat, seq<byte>, Meta)>) {
    write.Ok? && write.value.0 + |write.value.1| <= |l.image| && write.value.2.op != BitsOp
  }

  /** What the intent writes, if anything, has a place in the image. */
  ghost predicate Placed(l: Locator, schema: Schema, intent: Intent)
    requires l.Valid()
  {
    Fixed(intent) && (!intent.TruncateImage? ==> PlacedWrite(l, WriteOf(l, schema, l.image, intent)))
  }

  /** Byte `k` is written. */
  ghost predicate Touches(l: Locator, schema: Schema, intent: Intent, k: nat)
    requires l.Valid() && Placed(l, schema, intent)
  {
    !intent.TruncateImage?
    && var write := WriteOf(l, schema, l.image, intent).value;
       write.0 <= k < write.0 + |write.1|
  }

  /** The byte written at `k`. */
  ghost function Writes(l: Locator, schema: Schema, intent: Intent, k: nat): byte
    requires l.Valid() && Placed(l, schema, intent) && Touches(l, schema, intent, k)
  {
    var write := WriteOf(l, schema, l.image, intent).value;
    write.1[k - write.0]
  }

  /** Byte `k` is written, and not with the parent's value. */
  ghost predicate Changes(l: Locator, schema: Schema, intent: Intent, k: nat)
    requires l.Valid() && Placed(l, schema, intent)
  {
    Touches(l, schema, intent, k) && Writes(l, schema, intent, k) != l.image[k]
  }

  /** `later` leaves every byte alone that `first` changes. */
  ghost predicate Respects(l: Locator, schema: Schema, first: Intent, later: Intent)
    requires l.Valid() && Placed(l, schema, first) && Placed(l, schema, later)
  {
    forall k: nat :: Changes(l, schema, first, k) ==> !Touches(l, schema, later, k)
  }

  ghost predicate AllPlaced(l: Locator, schema: Schema, intents: seq<Intent>)
    requires l.Valid()
  {
    forall i :: 0 <= i < |intents| ==> Placed(l, schema, intents[i])
  }

  ghost predicate AllRespect(l: Locator, schema: Schema, intents: seq<Intent>)
    requires l.Valid() && AllPlaced(l, schema, intents)
  {
    forall i, j :: 0 <= i < j < |intents| ==> Respects(l, schema, intents[i], intents[j])
  }

  /** Some intent of the list changes byte `k`. */
  ghost predicate Changed(l: Locator, schema: Schema, intents: seq<Intent>, k: nat)
    requires l.Valid() && AllPlaced(l, schema, intents)
  {
    exists i :: 0 <= i < |intents| && Changes(l, schema, intents[i], k)
  }

  /** How many truncations there are. */
  function Truncations(intents: seq<Intent>): nat {
    if |intents| == 0 then 0 else (if intents[0].TruncateImage? then 1 else 0) + Truncations(intents[1..])
  }

  // ----- Planning a list of intents -----

  /** No byte already planned is written. */
  ghost predicate Avoids(l: Locator, schema: Schema, writes: WriteMap, intent: Intent)
    requires l.Valid() && Placed(l, schema, intent)
  {
    forall k: nat :: Touches(l, schema, intent, k) ==> k !in writes
  }

  ghost predicate AvoidsAll(l: Locator, schema: Schema, writes: WriteMap, intents: seq<Intent>)
    requires l.Valid() && AllPlaced(l, schema, intents)
  {
    forall i :: 0 <= i < |intents| ==> Avoids(l, schema, writes, intents[i])
  }

  lemma SameWrite(l: Locator, schema: Schema, img: seq<byte>, intent: Intent)
    requires l.Valid() && |img| == |l.image| && Fixed(intent) && !intent.TruncateImage?
    ensures WriteOf(l, schema, img, intent) == WriteOf(l, schema, l.image, intent)
    ensures WriteOf(l, schema, img, intent).Ok? ==> WriteOf(l, schema, img, intent).value.2.op != BitsOp
  {
    hide Find, Encode;
  }

  lemma AvoidsClash(l: Locator, schema: Schema, writes: WriteMap, intent: Intent)
    requires l.Valid() && Placed(l, schema, intent) && !intent.TruncateImage?
    ensures var write := WriteOf(l, schema, l.image, intent).value;
            Avoids(l, schema, writes, intent)
            <==> forall k :: write.0 <= k < write.0 + |write.1| ==> !Clashes(writes, k, write.2)
  {
    hide WriteOf;
    var write := WriteOf(l, schema, l.image, intent).value;
    if forall k :: write.0 <= k < write.0 + |write.1| ==> !Clashes(writes, k, write.2) {
      forall k: nat | Touches(l, schema, intent, k) ensures k !in writes {
        assert !Clashes(writes, k, write.2);
      }
    } else {
      var k :| write.0 <= k < write.0 + |write.1| && Clashes(writes, k, write.2);
      assert Touches(l, schema, intent, k);
    }
  }

  /** One fixed write: accepted exactly when it is placed and meets no planned byte; it then plans the
      bytes it changes. */
  lemma PlanningFixed(l: Locator, schema: Schema, writes: WriteMap, intent: Intent)
    requires l.Valid() && Consistent(l.image, writes) && Fixed(intent) && !intent.TruncateImage?
    ensures Planning(l, schema, writes, intent).Ok?
            <==> Placed(l, schema, intent) && Avoids(l, schema, writes, intent)
    ensures Planning(l, schema, writes, intent).Ok? ==>
      forall k: nat :: k in Planning(l, schema, writes, intent).value
                       <==> k in writes || Changes(l, schema, intent, k)
  {
    hide WriteOf;
    SameWrite(l, schema, Overlay(l.image, writes), intent);
    var write := WriteOf(l, schema, l.image, intent);
    if write.Ok? {
      AddedRefused(l.image, writes, write.value.0, write.value.1, write.value.2);
      if Placed(l, schema, intent) {
        AvoidsClash(l, schema, writes, intent);
      }
    }
  }

  /** One fixed intent, truncations included. */
  lemma StepFixed(l: Locator, schema: Schema, state: State, intent: Intent)
    requires l.Valid() && Consistent(l.image, state.0) && Fixed(intent)
    ensures Step(l, schema, state, intent).Ok?
            <==> Placed(l, schema, intent) && Avoids(l, schema, state.0, intent)
                 && (intent.TruncateImage? ==> state.1.None?)
    ensures Step(l, schema, state, intent).Ok? ==>
      var next := Step(l, schema, state, intent).value;
      && Consistent(l.image, next.0)
      && next.1 == (if intent.TruncateImage? then Some(intent.newLen) else state.1)
      && forall k: nat :: k in next.0 <==> k in state.0 || Changes(l, schema, intent, k)
  {
    hide Planning, Consistent, PlacedWrite;
    if !intent.TruncateImage? {
      PlanningFixed(l, schema, state.0, intent);
      if Planning(l, schema, state.0, intent).Ok? {
        PlanningMeaning(l, schema, state.0, intent);
      }
    }
  }

  lemma PlacedRest(l: Locator, schema: Schema, intents: seq<Intent>)
    requires l.Valid() && |intents| > 0
    ensures AllPlaced(l, schema, intents) <==> Placed(l, schema, intents[0]) && AllPlaced(l, schema, intents[1..])
    ensures AllPlaced(l, schema, intents) ==>
      (AllRespect(l, schema, intents)
       <==> AllRespect(l, schema, intents[1..])
            && forall j :: 0 < j < |intents| ==> Respects(l, schema, intents[0], intents[j]))
  {
    hide Placed, Respects;
    var rest := intents[1..];
    assert forall i :: 0 < i < |intents| ==> intents[i] == rest[i - 1];
    assert forall i :: 0 <= i < |rest| ==> rest[i] == intents[i + 1];
  }

  lemma RestAvoids(l: Locator, schema: Schema, writes: WriteMap, next: WriteMap, intents: seq<Intent>)
    requires l.Valid() && |intents| > 0 && AllPlaced(l, schema, intents)
    requires forall k: nat :: k in next <==> k in writes || Changes(l, schema, intents[0], k)
    ensures AvoidsAll(l, schema, next, intents[1..])
            <==> AvoidsAll(l, schema, writes, intents[1..])
                 && forall j :: 0 < j < |intents| ==> Respects(l, schema, intents[0], intents[j])
  {
    hide Placed, Touches, Changes;
    var rest := intents[1..];
    assert forall i :: 0 < i < |intents| ==> intents[i] == rest[i - 1];
    forall j | 0 < j < |intents|
      ensures Avoids(l, schema, next, intents[j])
              <==> Avoids(l, schema, writes, intents[j]) && Respects(l, schema, intents[0], intents[j])
    {
    }
    hide Avoids, Respects;
  }

  /** A list of fixed intents goes through exactly when each has a place, none touches a byte planned or
      changed before it, and there is at most one truncation. */
  lemma {:induction false} StepsExactly(l: Locator, schema: Schema, state: State, intents: seq<Intent>)
    requires l.Valid() && Consistent(l.image, state.0) && AllFixed(intents)
    ensures Steps(l, schema, state, intents).Ok?
            <==> AllPlaced(l, schema, intents) && AvoidsAll(l, schema, state.0, intents)
                 && AllRespect(l, schema, intents)
                 && (if state.1.Some? then 1 else 0) + Truncations(intents) <= 1
    decreases |intents|
  {
    hide Consistent, Step, Placed, Avoids, Respects, Changes;
    if |intents| > 0 {
      var first, rest := intents[0], intents[1..];
      StepFixed(l, schema, state, first);
      PlacedRest(l, schema, intents);
      if Step(l, schema, state, first).Ok? {
        var next := Step(l, schema, state, first).value;
        StepsExactly(l, schema, next, rest);
        if AllPlaced(l, schema, rest) {
          RestAvoids(l, schema, state.0, next.0, intents);
        }
      }
    }
  }

  /** What is planned for a byte the intent changes. */
  ghost function Entered(l: Locator, schema: Schema, intent: Intent, k: nat): PlannedByte
    requires l.Valid() && Placed(l, schema, intent) && k < |l.image| && Touches(l, schema, intent, k)
  {
    PlannedByte(l.image[k], Writes(l, schema, intent, k), WriteOf(l, schema, l.image, intent).value.2)
  }

  lemma PlanningByte(l: Locator, schema: Schema, writes: WriteMap, intent: Intent, k: nat)
    requires l.Valid() && Consistent(l.image, writes) && Placed(l, schema, intent) && k < |l.image|
    requires !intent.TruncateImage? && Planning(l, schema, writes, intent).Ok?
    ensures var next := Planning(l, schema, writes, intent).value;
            && (k in next <==> k in writes || Changes(l, schema, intent, k))
            && (Changes(l, schema, intent, k) ==> k !in writes && next[k] == Entered(l, schema, intent, k))
            && (k in writes ==> next[k] == writes[k])
  {
    hide WriteOf;
    SameWrite(l, schema, Overlay(l.image, writes), intent);
    var write := WriteOf(l, schema, l.image, intent).value;
    AddedRefused(l.image, writes, write.0, write.1, write.2);
    assert Touches(l, schema, intent, k) ==> !Clashes(writes, k, write.2);
  }

  lemma StepByte(l: Locator, schema: Schema, state: State, intent: Intent, k: nat)
    requires l.Valid() && Consistent(l.image, state.0) && Placed(l, schema, intent) && k < |l.image|
    requires Step(l, schema, state, intent).Ok?
    ensures var next := Step(l, schema, state, intent).value.0;
            && (k in next <==> k in state.0 || Changes(l, schema, intent, k))
            && (Changes(l, schema, intent, k) ==> k !in state.0 && next[k] == Entered(l, schema, intent, k))
            && (k in state.0 ==> next[k] == state.0[k])
  {
    hide Planning, Consistent, PlacedWrite, Entered;
    if !intent.TruncateImage? {
      PlanningByte(l, schema, state.0, intent, k);
    }
  }

  /** What an accepted list plans for byte `k`: the entry of the one intent that changes it, or what was
      planned before. */
  lemma {:induction false} PlannedEntry(l: Locator, schema: Schema, state: State, intents: seq<Intent>, k: nat)
    requires l.Valid() && Consistent(l.image, state.0) && k < |l.image| && AllPlaced(l, schema, intents)
    requires AllFixed(intents) && Steps(l, schema, state, intents).Ok?
    ensures var done := Steps(l, schema, state, intents).value.0;
            && (k in state.0 ==> k in done && done[k] == state.0[k])
            && (forall i :: 0 <= i < |intents| && Changes(l, schema, intents[i], k) ==>
                  k in done && done[k] == Entered(l, schema, intents[i], k))
            && (k in done ==> k in state.0 || Changed(l, schema, intents, k))
    decreases |intents|
  {
    hide Consistent, Placed, Touches, Changes, Entered, Step;
    if |intents| > 0 {
      var first, rest := intents[0], intents[1..];
      PlacedRest(l, schema, intents);
      StepFixed(l, schema, state, first);
      StepByte(l, schema, state, first, k);
      PlannedEntry(l, schema, Step(l, schema, state, first).value, rest, k);
      assert forall i :: 0 < i < |intents| ==> intents[i] == rest[i - 1];
      assert forall i :: 0 <= i < |rest| ==> rest[i] == intents[i + 1];
    }
  }

  // ----- A whole plan -----

  function FinalLen(intents: seq<Intent>, parentLen: nat): nat {
    if Requested(intents).Some? then Requested(intents).value else parentLen
  }

  /** The image asks for a checksum, and the policy for its repair. */
  predicate Repairs(patched: seq<byte>, policy: Policy)
    requires 1152 <= |patched|
  {
    !policy.Preserve? && HasChecksum(patched)
  }

  /** The bytes the checksum has to cover are there. */
  predicate Covered(patched: seq<byte>, finalLen: nat)
    requires 1152 <= |patched|
  {
    && patched[BLOCK_BITS] < 64 && 8 <= Coverage(patched[BLOCK_BITS])
    && SUPERBLOCK + Coverage(patched[BLOCK_BITS]) <= finalLen
  }

  /** What is asked of placed intents as a whole: the mode, one truncation at most, nothing changed behind
      the end, and for a repair the covered bytes and an untouched checksum field. */
  ghost predicate Allowed(l: Locator, schema: Schema, intents: seq<Intent>, mode: Mode, policy: Policy)
    requires l.Valid() && AllPlaced(l, schema, intents)
  {
    var patched := PerformAll(l, schema, l.image, intents);
    var finalLen := FinalLen(intents, |l.image|);
    && (mode.RawMode? ==>
          forall i :: 0 <= i < |intents| ==> intents[i].PatchBytes? || intents[i].TruncateImage?)
    && Truncations(intents) <= 1 && finalLen <= |l.image|
    && (forall k: nat :: Changed(l, schema, intents, k) ==> k < finalLen)
    && (Repairs(patched, policy) ==>
          Covered(patched, finalLen)
          && forall k: nat :: CHECKSUM <= k < CHECKSUM + 4 ==> !Changed(l, schema, intents, k))
  }

  /** The repair of a planned image goes through exactly when it is not asked for, or the covered bytes are
      there and nothing is planned for the checksum field. */
  lemma RepairedExactly(parent: seq<byte>, finalLen: nat, policy: Policy, writes: WriteMap)
    requires 1152 <= |parent| && finalLen <= |parent| && Consistent(parent, writes)
    ensures var patched := Overlay(parent, writes);
            Repaired(parent, finalLen, policy, writes).Ok?
            <==> (Repairs(patched, policy) ==>
                    Covered(patched, finalLen) && forall k: nat :: CHECKSUM <= k < CHECKSUM + 4 ==> k !in writes)
  {
    hide Overlay, Consistent, HasChecksum, Coverage, Checksum, Crc.Stored, Crc.Add;
    var patched := Overlay(parent, writes);
    if Repairs(patched, policy) && Covered(patched, finalLen) {
      var word := Crc.Stored(RepairWord(policy, Checksum(patched, Coverage(patched[BLOCK_BITS]))));
      AddedRefused(parent, writes, CHECKSUM, word, RepairMeta(policy));
      assert forall k: nat :: Clashes(writes, k, RepairMeta(policy)) <==> k in writes;
    }
  }

  lemma NoneOutside(l: Locator, schema: Schema, intents: seq<Intent>, k: nat)
    requires l.Valid() && AllPlaced(l, schema, intents) && k >= |l.image|
    ensures !Changed(l, schema, intents, k)
  {
    hide WriteOf;
    forall i | 0 <= i < |intents| ensures !Changes(l, schema, intents[i], k) {
      assert Placed(l, schema, intents[i]);
    }
  }

  /** Which bytes an accepted list plans. */
  lemma PlannedKeys(l: Locator, schema: Schema, intents: seq<Intent>)
    requires l.Valid() && AllFixed(intents) && AllPlaced(l, schema, intents)
    requires Steps(l, schema, (map[], None), intents).Ok?
    ensures var done := Steps(l, schema, (map[], None), intents).value.0;
            && Consistent(l.image, done) && Overlay(l.image, done) == PerformAll(l, schema, l.image, intents)
            && forall k: nat :: k in done <==> Changed(l, schema, intents, k)
    ensures Steps(l, schema, (map[], None), intents).value.1 == Requested(intents)
  {
    hide Steps, Placed, Changes, Entered, Overlay, PerformAll, Requested, AllPerformable;
    NothingPlanned(l.image);
    NothingOverlaid(l.image);
    StepsMeaning(l, schema, (map[], None), intents);
    var done := Steps(l, schema, (map[], None), intents).value.0;
    forall k: nat
      ensures k in done <==> Changed(l, schema, intents, k)
    {
      if k < |l.image| {
        PlannedEntry(l, schema, (map[], None), intents, k);
      } else {
        NoneOutside(l, schema, intents, k);
      }
    }
  }

  lemma NothingMet(l: Locator, schema: Schema, intents: seq<Intent>)
    requires l.Valid()
    ensures AllPlaced(l, schema, intents) ==> AvoidsAll(l, schema, map[], intents)
  {
    hide Placed, Touches;
  }

  lemma PlanIsFinished(
      parent: seq<byte>, schema: Schema, intents: seq<Intent>, mode: Mode, policy: Policy, l: Locator)
    requires Opens(parent, mode, l)
    ensures PlanOf(parent, schema, intents, mode, policy).Ok?
            <==> (mode.RawMode? ==> RawOnly(intents)) && Steps(l, schema, (map[], None), intents).Ok?
                 && Finished(l, mode, policy, Steps(l, schema, (map[], None), intents).value).Ok?
  {
    hide OpenLocator, Steps, Finished, RawOnly;
  }

  lemma FinishedExactly(l: Locator, schema: Schema, intents: seq<Intent>, mode: Mode, policy: Policy)
    requires l.Valid() && AllFixed(intents) && AllPlaced(l, schema, intents)
    requires Steps(l, schema, (map[], None), intents).Ok? && Truncations(intents) <= 1
    ensures (mode.RawMode? ==> RawOnly(intents))
            && Finished(l, mode, policy, Steps(l, schema, (map[], None), intents).value).Ok?
            <==> Allowed(l, schema, intents, mode, policy)
  {
    hide Placed, Changed, Steps, PerformAll, Repaired, Covered, Repairs, Overlay, Consistent, Requested,
      Collapse.Entries, Collapse.Runs, Collapse.PatchesOf, Truncations;
    PlannedKeys(l, schema, intents);
    var done := Steps(l, schema, (map[], None), intents).value.0;
    var finalLen := FinalLen(intents, |l.image|);
    if finalLen <= |l.image| {
      RepairedExactly(l.image, finalLen, policy, done);
    }
  }

  /** A list of intents other than bit updates is accepted exactly when each has a place in the image, none
      touches a byte that an earlier one changes, and the list as a whole is allowed. */
  lemma {:induction false} AcceptedExactly(
      parent: seq<byte>, schema: Schema, intents: seq<Intent>, mode: Mode, policy: Policy, l: Locator)
    requires Opens(parent, mode, l) && AllFixed(intents)
    ensures PlanOf(parent, schema, intents, mode, policy).Ok?
            <==> AllPlaced(l, schema, intents) && AllRespect(l, schema, intents)
                 && Allowed(l, schema, intents, mode, policy)
  {
    hide OpenLocator, Placed, Respects, Touches, Changed, Steps, Finished, RawOnly, PerformAll;
    NothingPlanned(parent);
    StepsExactly(l, schema, (map[], None), intents);
    NothingMet(l, schema, intents);
    PlanIsFinished(parent, schema, intents, mode, policy, l);
    if Steps(l, schema, (map[], None), intents).Ok? {
      FinishedExactly(l, schema, intents, mode, policy);
    }
  }

  // ----- The order of intents -----

  lemma PairRespects(l: Locator, schema: Schema, a: Intent, b: Intent)
    requires l.Valid() && Placed(l, schema, a) && Placed(l, schema, b)
    ensures AllPlaced(l, schema, [a, b]) && AllFixed([a, b])
    ensures AllRespect(l, schema, [a, b]) <==> Respects(l, schema, a, b)
  {
    hide Respects, PlacedWrite;
    assert [a, b][0] == a && [a, b][1] == b;
  }

  lemma {:induction false} Truncated(intents: seq<Intent>, i: nat)
    requires i < |intents| && intents[i].TruncateImage?
    ensures Truncations(intents) >= 1
    ensures Truncations(intents) == 1 ==> Requested(intents) == Some(intents[i].newLen)
    decreases |intents|
  {
    if i > 0 {
      Truncated(intents[1..], i - 1);
    }
  }

  lemma {:induction false} RequestedOne(intents: seq<Intent>) returns (i: nat)
    requires Requested(intents).Some?
    ensures i < |intents| && intents[i].TruncateImage? && Requested(intents) == Some(intents[i].newLen)
    decreases |intents|
  {
    if intents[0].TruncateImage? {
      i := 0;
    } else {
      i := RequestedOne(intents[1..]);
      i := i + 1;
    }
  }

  lemma SameRequest(xs: seq<Intent>, ys: seq<Intent>)
    requires forall x :: x in xs <==> x in ys
    requires Truncations(xs) <= 1 && Truncations(ys) <= 1
    ensures Requested(xs) == Requested(ys)
  {
    hide Truncations, Requested;
    if Requested(xs).Some? {
      var i := RequestedOne(xs);
      assert xs[i] in ys;
      var j :| 0 <= j < |ys| && ys[j] == xs[i];
      Truncated(ys, j);
    } else if Requested(ys).Some? {
      var j := RequestedOne(ys);
      assert ys[j] in xs;
      var i :| 0 <= i < |xs| && xs[i] == ys[j];
      Truncated(xs, i);
    }
  }

  lemma EntryOrderFree(l: Locator, schema: Schema, xs: seq<Intent>, ys: seq<Intent>, k: nat)
    requires l.Valid() && k < |l.image| && AllPlaced(l, schema, xs) && AllPlaced(l, schema, ys)
    requires AllFixed(xs) && AllFixed(ys) && forall x :: x in xs <==> x in ys
    requires Steps(l, schema, (map[], None), xs).Ok? && Steps(l, schema, (map[], None), ys).Ok?
    ensures var one := Steps(l, schema, (map[], None), xs).value.0;
            var other := Steps(l, schema, (map[], None), ys).value.0;
            (k in one <==> k in other) && (k in one ==> one[k] == other[k])
  {
    hide Steps, Placed, Changes, Entered, Consistent, Fixed;
    NothingPlanned(l.image);
    PlannedEntry(l, schema, (map[], None), xs, k);
    PlannedEntry(l, schema, (map[], None), ys, k);
    forall i | 0 <= i < |xs| && Changes(l, schema, xs[i], k)
      ensures exists j :: 0 <= j < |ys| && ys[j] == xs[i]
    {
      assert xs[i] in ys;
    }
    forall j | 0 <= j < |ys| && Changes(l, schema, ys[j], k)
      ensures exists i :: 0 <= i < |xs| && xs[i] == ys[j]
    {
      assert ys[j] in xs;
    }
  }

  lemma PlannedInside(parent: seq<byte>, writes: WriteMap)
    requires Consistent(parent, writes)
    ensures forall k :: k in writes ==> k < |parent|
  {
  }

  lemma SameIntents(xs: seq<Intent>, ys: seq<Intent>)
    requires multiset(xs) == multiset(ys)
    ensures forall x :: x in xs <==> x in ys
  {
    assert forall x :: x in xs <==> x in multiset(xs);
  }

  /** Two accepted orders of the same intents plan the same bytes. */
  lemma {:induction false} StepsOrderFree(l: Locator, schema: Schema, xs: seq<Intent>, ys: seq<Intent>)
    requires l.Valid() && multiset(xs) == multiset(ys) && AllFixed(xs)
    requires Steps(l, schema, (map[], None), xs).Ok? && Steps(l, schema, (map[], None), ys).Ok?
    ensures Steps(l, schema, (map[], None), xs) == Steps(l, schema, (map[], None), ys)
  {
    hide Steps, Placed, Changed, Entered, Consistent, Respects, Fixed, PerformAll, Overlay, Avoids;
    SameIntents(xs, ys);
    forall i | 0 <= i < |ys| ensures Fixed(ys[i]) { assert ys[i] in xs; }
    NothingPlanned(l.image);
    StepsExactly(l, schema, (map[], None), xs);
    StepsExactly(l, schema, (map[], None), ys);
    SameRequest(xs, ys);
    PlannedKeys(l, schema, xs);
    PlannedKeys(l, schema, ys);
    var one, other := Steps(l, schema, (map[], None), xs).value.0, Steps(l, schema, (map[], None), ys).value.0;
    PlannedInside(l.image, one);
    PlannedInside(l.image, other);
    forall k: nat | k < |l.image|
      ensures (k in one <==> k in other) && (k in one ==> one[k] == other[k])
    {
      EntryOrderFree(l, schema, xs, ys, k);
    }
    assert one == other;
  }

  lemma SwapAllowed(
      parent: seq<byte>, schema: Schema, a: Intent, b: Intent, mode: Mode, policy: Policy, l: Locator)
    requires Opens(parent, mode, l) && Placed(l, schema, a) && Placed(l, schema, b)
    requires Respects(l, schema, a, b) && Respects(l, schema, b, a)
    requires PlanOf(parent, schema, [a, b], mode, policy).Ok?
    ensures PlanOf(parent, schema, [b, a], mode, policy).Ok?
  {
    hide OpenLocator, Placed, Respects, Steps, Finished;
    PairRespects(l, schema, a, b);
    PairRespects(l, schema, b, a);
    NothingPlanned(parent);
    NothingMet(l, schema, [b, a]);
    StepsExactly(l, schema, (map[], None), [b, a]);
    StepsExactly(l, schema, (map[], None), [a, b]);
    PlanIsFinished(parent, schema, [a, b], mode, policy, l);
    PlanIsFinished(parent, schema, [b, a], mode, policy, l);
    assert Truncations([a, b]) == Truncations([b, a]) by {
      assert [a, b][1..] == [b] && [b, a][1..] == [a] && [a][1..] == [] && [b][1..] == [];
    }
    assert multiset([a, b]) == multiset([b, a]);
    StepsOrderFree(l, schema, [a, b], [b, a]);
    assert RawOnly([a, b]) == RawOnly([b, a]) by {
      assert [a, b][0] == a && [a, b][1] == b && [b, a][0] == b && [b, a][1] == a;
    }
  }

  /** The order of two placed intents matters exactly when only one of them changes a byte that the other
      one writes, and the order with the change last is allowed: it is accepted and the other is not. */
  lemma OrderMatters(
      parent: seq<byte>, schema: Schema, a: Intent, b: Intent, mode: Mode, policy: Policy, l: Locator)
    requires Opens(parent, mode, l) && Placed(l, schema, a) && Placed(l, schema, b)
    ensures AllPlaced(l, schema, [a, b]) && AllPlaced(l, schema, [b, a])
    ensures PlanOf(parent, schema, [a, b], mode, policy).Ok? && PlanOf(parent, schema, [b, a], mode, policy).Err?
            <==> Respects(l, schema, a, b) && !Respects(l, schema, b, a)
                 && Allowed(l, schema, [a, b], mode, policy)
  {
    hide OpenLocator, Placed, Respects, Allowed, PlanOf;
    PairRespects(l, schema, a, b);
    PairRespects(l, schema, b, a);
    AcceptedExactly(parent, schema, [a, b], mode, policy, l);
    AcceptedExactly(parent, schema, [b, a], mode, policy, l);
    if Respects(l, schema, a, b) && Respects(l, schema, b, a) && PlanOf(parent, schema, [a, b], mode, policy).Ok? {
      SwapAllowed(parent, schema, a, b, mode, policy, l);
    }
  }

  /** What is planned does not depend on the order: two accepted orders of the same intents, bit updates
      aside, give the same plan. */
  lemma {:induction false} OrderFree(
      parent: seq<byte>, schema: Schema, xs: seq<Intent>, ys: seq<Intent>, mode: Mode, policy: Policy, l: Locator)
    requires Opens(parent, mode, l) && multiset(xs) == multiset(ys) && AllFixed(xs)
    requires PlanOf(parent, schema, xs, mode, policy).Ok? && PlanOf(parent, schema, ys, mode, policy).Ok?
    ensures PlanOf(parent, schema, xs, mode, policy) == PlanOf(parent, schema, ys, mode, policy)
  {
    hide Steps, PlanOf, Finished, OpenLocator, AllFixed;
    PlanParts(parent, schema, xs, mode, policy, l);
    PlanParts(parent, schema, ys, mode, policy, l);
    StepsOrderFree(l, schema, xs, ys);
  }

  lemma PatchesApart(l: Locator, schema: Schema, at: u64, other: byte)
    requires l.Valid() && at < |l.image| && other != l.image[at]
    ensures var same, changed := PatchBytes(at, [l.image[at]]), PatchBytes(at, [other]);
            && Placed(l, schema, same) && Placed(l, schema, changed)
            && Respects(l, schema, same, changed) && !Respects(l, schema, changed, same)
  {
    var same, changed := PatchBytes(at, [l.image[at]]), PatchBytes(at, [other]);
    assert Changes(l, schema, changed, at) && Touches(l, schema, same, at);
  }

  lemma {:induction false} NoTruncations(intents: seq<Intent>)
    requires forall i :: 0 <= i < |intents| ==> !intents[i].TruncateImage?
    ensures Truncations(intents) == 0 && Requested(intents) == None
    decreases |intents|
  {
    if |intents| > 0 {
      NoTruncations(intents[1..]);
    }
  }

  /** Patches alone are allowed in every mode when the checksum is left alone. */
  lemma PatchesAllowed(l: Locator, schema: Schema, a: Intent, b: Intent, mode: Mode)
    requires l.Valid() && a.PatchBytes? && b.PatchBytes? && Placed(l, schema, a) && Placed(l, schema, b)
    ensures AllPlaced(l, schema, [a, b]) && Allowed(l, schema, [a, b], mode, Preserve)
  {
    hide Placed, Changed, PerformAll, Truncations, Requested;
    assert [a, b][0] == a && [a, b][1] == b;
    NoTruncations([a, b]);
    forall k: nat | k >= |l.image| ensures !Changed(l, schema, [a, b], k) {
      NoneOutside(l, schema, [a, b], k);
    }
  }

  /** The parent's own byte may be written before another value is, but not after: one order is accepted,
      in every mode, and the other is not, under any policy. */
  lemma OneOrderOnly(
      parent: seq<byte>, schema: Schema, at: u64, other: byte, mode: Mode, policy: Policy, l: Locator)
    requires Opens(parent, mode, l) && at < |parent| && other != parent[at]
    ensures PlanOf(parent, schema, [PatchBytes(at, [parent[at]]), PatchBytes(at, [other])], mode, Preserve).Ok?
    ensures PlanOf(parent, schema, [PatchBytes(at, [other]), PatchBytes(at, [parent[at]])], mode, policy).Err?
  {
    hide OpenLocator, PlanOf, PerformAll, Respects, AllRespect;
    var same, changed := PatchBytes(at, [parent[at]]), PatchBytes(at, [other]);
    PairRespects(l, schema, same, changed);
    PairRespects(l, schema, changed, same);
    AcceptedExactly(parent, schema, [same, changed], mode, Preserve, l);
    AcceptedExactly(parent, schema, [changed, same], mode, policy, l);
    PatchesApart(l, schema, at, other);
    PatchesAllowed(l, schema, same, changed, mode);
  }
}
