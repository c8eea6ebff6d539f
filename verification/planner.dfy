/** Resolving mutation intents against one immutable baseline into a conflict-checked plan. */
module Planner {
  import Arithmetic
  import opened Bits
  import opened Bytes
  import opened Results
  import Format
  import opened Locators
  import opened Patches
  import opened Collapse
  import Replay
  import opened Integrity

  datatype Mode = Corrupt | ConsistentMode | RawMode

  /** A mutation request. Every located field is located in the unchanged parent. */
  datatype Intent =
    | SetValue(target: ObjectRef, field: FieldId, value: u64)
    | UpdateBits(target: ObjectRef, field: FieldId, setMask: u64, clear: u64)
    | ReplaceFixedBytes(target: ObjectRef, field: FieldId, bytes: seq<byte>)
    | PatchBytes(offset: u64, bytes: seq<byte>)
    | TruncateImage(newLen: u64)

  datatype ResolvedPlan = ResolvedPlan(
    parentLength: nat, mode: Mode, patches: seq<Patch>, resize: Option<Replay.Resize>, integrity: Status)

  /** The field table: every field is well formed. */
  type Schema = fs: seq<FieldDef> | forall i :: 0 <= i < |fs| ==> fs[i].WellFormed() witness []

  function Rest(schema: Schema): (r: Schema)
    requires |schema| > 0
    ensures |r| == |schema| - 1
  {
    assert forall i :: 0 <= i < |schema| - 1 ==> schema[1..][i] == schema[i + 1];
    schema[1..]
  }

  function FieldById(schema: Schema, id: FieldId): (r: Option<FieldDef>)
    ensures r.Some? ==> r.value.WellFormed()
  {
    if |schema| == 0 then None
    else if schema[0].id == id then Some(schema[0])
    else FieldById(Rest(schema), id)
  }

  function ParseModeOf(mode: Mode): ParseMode {
    if mode.ConsistentMode? then Strict else Tolerant
  }

  predicate RawOnly(intents: seq<Intent>) {
    forall i :: 0 <= i < |intents| ==> intents[i].PatchBytes? || intents[i].TruncateImage?
  }

  /** A value as a field's bytes; bytes fields take none, and a value must fit. */
  function Encode(encoding: Encoding, len: nat, value: nat): (r: Planned<seq<byte>>)
    ensures r.Ok? ==> value < Pow256(len) && len == encoding.Width() && r.value == LeBytes(value, len)
  {
    if encoding.ByteString? then Err(Unsupported)
    else if value >= Pow256(encoding.Width()) then Err(ValueOverflow)
    else if encoding.Width() != len then Err(ValueOverflow)
    else Ok(LeBytes(value, len))
  }

  /** A field of the table and where it is in the parent. */
  datatype Slot = Slot(def: FieldDef, offset: nat, len: nat)

  function FindIn(l: Locator, def: FieldDef, target: ObjectRef): (r: Planned<Slot>)
    requires l.Valid() && def.WellFormed()
    ensures r.Ok? ==> r.value.def == def && r.value.offset + r.value.len <= |l.image|
                      && (def.len != 0 ==> r.value.len == def.len)
  {
    match l.Locate(target, def)
    case Ok(found) => Ok(Slot(def, found.span.offset, found.span.len))
    case Err(_) => Err(Resolve)
  }

  function Find(l: Locator, schema: Schema, target: ObjectRef, id: FieldId): (r: Planned<Slot>)
    requires l.Valid()
    ensures r.Ok? ==> r.value.def.WellFormed() && r.value.offset + r.value.len <= |l.image|
                      && (r.value.def.len != 0 ==> r.value.len == r.value.def.len)
  {
    match FieldById(schema, id)
    case None => Err(Resolve)
    case Some(def) => FindIn(l, def, target)
  }

  function UserMeta(target: Option<ObjectRef>, field: Option<FieldId>, encoding: Encoding, op: Operator): Meta {
    Meta(false, target, field, encoding, op)
  }

  /** The bits left after setting `setMask` and clearing `clear`. */
  function Updated(value: nat, setMask: nat, clear: nat): nat {
    Clear(Or(value, setMask), clear)
  }

  /** The slot of a bit update, unless the update is refused. */
  function FindBits(l: Locator, schema: Schema, intent: Intent): (r: Planned<Slot>)
    requires l.Valid() && intent.UpdateBits?
    ensures r.Ok? ==> r.value.def.WellFormed() && !r.value.def.encoding.ByteString?
                      && r.value.len == r.value.def.len == r.value.def.encoding.Width()
                      && r.value.offset + r.value.len <= |l.image|
  {
    if And(intent.setMask, intent.clear) != 0 then Err(Conflict(0))
    else
      match FieldById(schema, intent.field)
      case None => Err(Resolve)
      case Some(def) =>
        if def.encoding.ByteString? then Err(Unsupported)
        else
          var slot :- FindIn(l, def, intent.target);
          if Clear(Or(intent.setMask, intent.clear), Arithmetic.Pow2(8 * def.len) - 1) != 0 then Err(ValueOverflow)
          else Ok(slot)
  }

  /** The bytes an intent writes into `img`, and where: what it means on a mutable copy. */
  ghost function WriteOf(l: Locator, schema: Schema, img: seq<byte>, intent: Intent)
    : (r: Planned<(nat, seq<byte>, Meta)>)
    requires l.Valid() && |img| == |l.image| && !intent.TruncateImage?
  {
    match intent
    case PatchBytes(offset, bytes) => Ok((offset, bytes, UserMeta(None, None, ByteString, RawOp)))
    case SetValue(target, field, value) =>
      var slot :- Find(l, schema, target, field);
      var bytes :- Encode(slot.def.encoding, slot.len, value);
      Ok((slot.offset, bytes, UserMeta(Some(target), Some(field), slot.def.encoding, SetOp)))
    case ReplaceFixedBytes(target, field, bytes) =>
      var slot :- Find(l, schema, target, field);
      if |bytes| != slot.len then Err(Bounds)
      else Ok((slot.offset, bytes, UserMeta(Some(target), Some(field), slot.def.encoding, ReplaceOp)))
    case UpdateBits(target, field, setMask, clear) =>
      var slot :- FindBits(l, schema, intent);
      var current := LeVal(img[slot.offset..slot.offset + slot.len]);
      var bytes :- Encode(slot.def.encoding, slot.len, Updated(current, setMask, clear));
      Ok((slot.offset, bytes, UserMeta(Some(target), Some(field), slot.def.encoding, BitsOp)))
  }

  /** The write map after one more intent. */
  ghost function Planning(l: Locator, schema: Schema, writes: WriteMap, intent: Intent): Planned<WriteMap>
    requires l.Valid() && !intent.TruncateImage?
  {
    var write :- WriteOf(l, schema, Overlay(l.image, writes), intent);
    Added(l.image, writes, write.0, write.1, write.2)
  }

  /** Planned writes and the requested length, if any. */
  type State = (WriteMap, Option<nat>)

  ghost function Step(l: Locator, schema: Schema, state: State, intent: Intent): Planned<State>
    requires l.Valid()
  {
    if intent.TruncateImage? then
      if state.1.Some? then Err(Conflict(intent.newLen)) else Ok((state.0, Some(intent.newLen)))
    else
      match Planning(l, schema, state.0, intent)
      case Ok(writes) => Ok((writes, state.1))
      case Err(e) => Err(e)
  }

  /** All intents, in order; the first refusal ends the planning. */
  ghost function Steps(l: Locator, schema: Schema, state: State, intents: seq<Intent>): Planned<State>
    requires l.Valid()
    decreases |intents|
  {
    if |intents| == 0 then Ok(state)
    else
      match Step(l, schema, state, intents[0])
      case Ok(next) => Steps(l, schema, next, intents[1..])
      case Err(e) => Err(e)
  }

  ghost function Finished(l: Locator, mode: Mode, policy: Policy, state: State): Planned<ResolvedPlan>
    requires l.Valid()
  {
    var parent := l.image;
    var finalLen := if state.1.Some? then state.1.value else |parent|;
    if finalLen > |parent| then Err(Bounds)
    else if exists k :: k in state.0 && k >= finalLen then Err(TruncateConflict)
    else
      match Repaired(parent, finalLen, policy, state.0)
      case Err(e) => Err(e)
      case Ok(done) => Ok(ResolvedPlan(
        |parent|, mode, PatchesOf(Runs(Entries(done.0))),
        if state.1.Some? then Some(Replay.Truncate(|parent|, finalLen)) else None, done.1))
  }

  /** The plan, or why there is none. */
  ghost function PlanOf(parent: seq<byte>, schema: Schema, intents: seq<Intent>, mode: Mode, policy: Policy)
    : Planned<ResolvedPlan>
    requires |parent| < Format.IMAGE_LIMIT
  {
    if mode.RawMode? && !RawOnly(intents) then Err(Unsupported)
    else
      match OpenLocator(parent, ParseModeOf(mode))
      case Err(_) => Err(Resolve)
      case Ok(l) =>
        match Steps(l, schema, (map[], None), intents)
        case Err(e) => Err(e)
        case Ok(state) => Finished(l, mode, policy, state)
  }

  // ----- The implementation -----

  /** The value of a field with the planned writes in it, byte by byte over the parent's value. */
  method CurrentValue(parent: seq<byte>, writes: WriteMap, start: nat, len: nat) returns (current: nat)
    requires start + len <= |parent|
    ensures current == LeVal(Overlay(parent, writes)[start..start + len])
  {
    hide LeVal, ReplaceByte;
    var bytes: seq<byte> := parent[start..start + len];
    current := LeVal(bytes);
    ghost var overlaid := Overlay(parent, writes)[start..start + len];
    for i := 0 to len
      invariant |bytes| == len && current == LeVal(bytes)
      invariant forall t :: 0 <= t < len ==> bytes[t] == if t < i then overlaid[t] else parent[start + t]
    {
      if start + i in writes {
        ReplaceIsUpdate(bytes, i, writes[start + i].after);
        current := ReplaceByte(current, i, writes[start + i].after);
        bytes := bytes[i := writes[start + i].after];
      }
    }
    assert bytes == overlaid;
  }

  /** Plans one intent. */
  method PlanIntent(l: Locator, schema: Schema, writes: WriteMap, intent: Intent) returns (r: Planned<WriteMap>)
    requires l.Valid() && Consistent(l.image, writes) && !intent.TruncateImage?
    ensures r == Planning(l, schema, writes, intent)
  {
    hide Overlay, Consistent, Added, Find, FindBits, Encode, Updated, LeVal;
    match intent
    case PatchBytes(offset, bytes) =>
      r := AddWrite(l.image, writes, offset, bytes, UserMeta(None, None, ByteString, RawOp));
    case SetValue(target, field, value) =>
      var slot :- Find(l, schema, target, field);
      var bytes :- Encode(slot.def.encoding, slot.len, value);
      r := AddWrite(l.image, writes, slot.offset, bytes,
                    UserMeta(Some(target), Some(field), slot.def.encoding, SetOp));
    case ReplaceFixedBytes(target, field, bytes) =>
      var slot :- Find(l, schema, target, field);
      if |bytes| != slot.len {
        return Err(Bounds);
      }
      r := AddWrite(l.image, writes, slot.offset, bytes,
                    UserMeta(Some(target), Some(field), slot.def.encoding, ReplaceOp));
    case UpdateBits(target, field, setMask, clear) =>
      var slot :- FindBits(l, schema, intent);
      var current := CurrentValue(l.image, writes, slot.offset, slot.len);
      var bytes :- Encode(slot.def.encoding, slot.len, Updated(current, setMask, clear));
      r := AddWrite(l.image, writes, slot.offset, bytes,
                    UserMeta(Some(target), Some(field), slot.def.encoding, BitsOp));
  }

  lemma {:induction false} StepConsistent(l: Locator, schema: Schema, writes: WriteMap, intent: Intent)
    requires l.Valid() && Consistent(l.image, writes) && !intent.TruncateImage?
    requires Planning(l, schema, writes, intent).Ok?
    ensures Consistent(l.image, Planning(l, schema, writes, intent).value)
  {
    hide Overlay, Consistent, Added, WriteOf;
    var write := WriteOf(l, schema, Overlay(l.image, writes), intent).value;
    AddedMeaning(l.image, writes, write.0, write.1, write.2);
  }

  lemma NothingPlanned(parent: seq<byte>)
    ensures Consistent(parent, map[])
  {
  }

  lemma {:induction false} StepsOne(l: Locator, schema: Schema, state: State, intents: seq<Intent>, i: nat)
    requires l.Valid() && i < |intents|
    ensures Steps(l, schema, state, intents[i..])
            == if intents[i].TruncateImage? then
                 if state.1.Some? then Err(Conflict(intents[i].newLen))
                 else Steps(l, schema, (state.0, Some(intents[i].newLen)), intents[i + 1..])
               else
                 match Planning(l, schema, state.0, intents[i])
                 case Ok(writes) => Steps(l, schema, (writes, state.1), intents[i + 1..])
                 case Err(e) => Err(e)
  {
    hide Planning;
    assert intents[i..][1..] == intents[i + 1..];
  }

  /** Plans all intents, checks the final length, repairs the checksum and collapses the writes. */
  method Plan(parent: seq<byte>, schema: Schema, intents: seq<Intent>, mode: Mode, policy: Policy)
    returns (r: Planned<ResolvedPlan>)
    requires |parent| < Format.IMAGE_LIMIT
    ensures r == PlanOf(parent, schema, intents, mode, policy)
  {
    hide Step, Planning, Consistent, Repaired, Entries, Runs, PatchesOf;
    if mode.RawMode? && !RawOnly(intents) {
      return Err(Unsupported);
    }
    var located := OpenLocator(parent, ParseModeOf(mode));
    if located.Err? {
      return Err(Resolve);
    }
    var l := located.value;
    var writes: WriteMap := map[];
    var truncate: Option<nat> := None;
    NothingPlanned(parent);
    for i := 0 to |intents|
      invariant Consistent(parent, writes)
      invariant Steps(l, schema, (map[], None), intents) == Steps(l, schema, (writes, truncate), intents[i..])
    {
      StepsOne(l, schema, (writes, truncate), intents, i);
      if intents[i].TruncateImage? {
        if truncate.Some? {
          return Err(Conflict(intents[i].newLen));
        }
        truncate := Some(intents[i].newLen);
      } else {
        var planned := PlanIntent(l, schema, writes, intents[i]);
        if planned.Err? {
          return Err(planned.error);
        }
        StepConsistent(l, schema, writes, intents[i]);
        writes := planned.value;
      }
    }
    var finalLen := if truncate.Some? then truncate.value else |parent|;
    if finalLen > |parent| {
      return Err(Bounds);
    }
    if exists k :: k in writes && k >= finalLen {
      return Err(TruncateConflict);
    }
    var repaired := ApplyIntegrity(parent, finalLen, policy, writes);
    if repaired.Err? {
      return Err(repaired.error);
    }
    var patches := CollapseWrites(repaired.value.0);
    r := Ok(ResolvedPlan(|parent|, mode, patches,
                         if truncate.Some? then Some(Replay.Truncate(|parent|, finalLen)) else None, repaired.value.1));
  }
}
