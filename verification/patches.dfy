/** The sparse write map of a mutation plan, and the patches it collapses into. */
module Patches {
  import opened Bytes
  import opened Results
  import Locators

  datatype PlanError =
    | Unsupported
    | Resolve
    | ValueOverflow
    | Bounds
    | Conflict(at: nat)
    | TruncateConflict
    | Preimage(at: nat)
    | ParentIdentity
    | InvalidHex

  type Planned<+T> = Result<T, PlanError>

  datatype Operator = RawOp | SetOp | ReplaceOp | BitsOp | RecalculateOp | InvalidateOp

  /** Where a write comes from. */
  datatype Meta = Meta(
    repair: bool, target: Option<Locators.ObjectRef>, field: Option<Locators.FieldId>,
    encoding: Locators.Encoding, op: Operator)

  datatype PlannedByte = PlannedByte(before: byte, after: byte, meta: Meta)

  type WriteMap = map<nat, PlannedByte>

  /** The map's preimages are the parent's bytes. */
  ghost predicate Consistent(parent: seq<byte>, writes: WriteMap) {
    forall k :: k in writes ==> k < |parent| && writes[k].before == parent[k]
  }

  /** The image with every planned byte written. */
  function Overlay(parent: seq<byte>, writes: WriteMap): (r: seq<byte>)
    ensures |r| == |parent|
  {
    seq(|parent|, k requires 0 <= k < |parent| => if k in writes then writes[k].after else parent[k])
  }

  // ----- Adding a write -----

  /** Bytes already planned may be planned again only by bit updates of bit updates. */
  predicate Clashes(writes: WriteMap, k: nat, meta: Meta) {
    k in writes && (writes[k].meta.op != BitsOp || meta.op != BitsOp)
  }

  /** The first of `n` bytes from `at` that clashes. */
  function FirstClash(writes: WriteMap, at: nat, n: nat, meta: Meta): (r: Option<nat>)
    ensures r.Some? ==> at <= r.value < at + n && Clashes(writes, r.value, meta)
    ensures r.Some? ==> forall k :: at <= k < r.value ==> !Clashes(writes, k, meta)
    ensures r.None? ==> forall k :: at <= k < at + n ==> !Clashes(writes, k, meta)
    decreases n
  {
    if n == 0 then None
    else if Clashes(writes, at, meta) then Some(at)
    else FirstClash(writes, at + 1, n - 1, meta)
  }

  /** The map with `after` planned at `at`: bytes that would not change reserve nothing. */
  ghost function Merge(parent: seq<byte>, writes: WriteMap, at: nat, after: seq<byte>, meta: Meta): WriteMap
    requires at + |after| <= |parent|
  {
    map k: nat | k < |parent|
                 && (k in writes || (at <= k < at + |after| && parent[k] != after[k - at]))
      :: if at <= k < at + |after|
         then if k in writes then writes[k].(after := after[k - at])
              else PlannedByte(parent[k], after[k - at], meta)
         else writes[k]
  }

  ghost function Added(
      parent: seq<byte>, writes: WriteMap, at: nat, after: seq<byte>, meta: Meta): (r: Planned<WriteMap>)
  {
    if at + |after| > |parent| then Err(Bounds)
    else
      match FirstClash(writes, at, |after|, meta)
      case Some(k) => Err(Conflict(k))
      case None => Ok(Merge(parent, writes, at, after, meta))
  }

  lemma MergeNothing(parent: seq<byte>, writes: WriteMap, at: nat, meta: Meta)
    requires at <= |parent| && Consistent(parent, writes)
    ensures Merge(parent, writes, at, [], meta) == writes
  {
  }

  lemma MergeStep(parent: seq<byte>, writes: WriteMap, at: nat, done: seq<byte>, next: byte, meta: Meta)
    requires at + |done| < |parent| && Consistent(parent, writes)
    ensures var k := at + |done|;
            var before, now := Merge(parent, writes, at, done, meta), Merge(parent, writes, at, done + [next], meta);
            && (k in before <==> k in writes) && (k in writes ==> before[k] == writes[k])
            && now == if k in writes then before[k := before[k].(after := next)]
                      else if parent[k] == next then before
                      else before[k := PlannedByte(parent[k], next, meta)]
  {
    var k := at + |done|;
    var before, now := Merge(parent, writes, at, done, meta), Merge(parent, writes, at, done + [next], meta);
    var after := done + [next];
    assert forall t :: 0 <= t < |done| ==> after[t] == done[t];
    assert after[k - at] == next;
  }

  /** Plans `after` at `at`, one byte after the other. */
  method AddWrite(parent: seq<byte>, writes: WriteMap, at: nat, after: seq<byte>, meta: Meta)
    returns (r: Planned<WriteMap>)
    requires Consistent(parent, writes)
    ensures r == Added(parent, writes, at, after, meta)
  {
    hide Merge, Consistent;
    if at + |after| > |parent| {
      return Err(Bounds);
    }
    var planned := writes;
    MergeNothing(parent, writes, at, meta);
    for index := 0 to |after|
      invariant planned == Merge(parent, writes, at, after[..index], meta)
      invariant FirstClash(writes, at + index, |after| - index, meta) == FirstClash(writes, at, |after|, meta)
    {
      MergeStep(parent, writes, at, after[..index], after[index], meta);
      assert after[..index] + [after[index]] == after[..index + 1];
      var absolute := at + index;
      if absolute in planned {
        var existing := planned[absolute];
        if existing.meta.op != BitsOp || meta.op != BitsOp {
          return Err(Conflict(absolute));
        }
        planned := planned[absolute := existing.(after := after[index])];
      } else if parent[absolute] != after[index] {
        planned := planned[absolute := PlannedByte(parent[absolute], after[index], meta)];
      }
    }
    assert after[..|after|] == after;
    r := Ok(planned);
  }

  /** An accepted write is the write: the planned image changes exactly like a mutable copy. */
  lemma AddedMeaning(parent: seq<byte>, writes: WriteMap, at: nat, after: seq<byte>, meta: Meta)
    requires Consistent(parent, writes) && Added(parent, writes, at, after, meta).Ok?
    ensures at + |after| <= |parent|
    ensures Consistent(parent, Added(parent, writes, at, after, meta).value)
    ensures Overlay(parent, Added(parent, writes, at, after, meta).value) == Blit(Overlay(parent, writes), at, after)
  {
  }

  /** It is refused exactly when it leaves the image, or meets a planned byte and not both are bit
      updates; the first such byte is reported. */
  lemma AddedRefused(parent: seq<byte>, writes: WriteMap, at: nat, after: seq<byte>, meta: Meta)
    ensures Added(parent, writes, at, after, meta).Ok?
            <==> at + |after| <= |parent| && forall k :: at <= k < at + |after| ==> !Clashes(writes, k, meta)
  {
  }
}
