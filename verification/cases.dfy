/** What the deterministic cases of a campaign ask for, and which draws its combinations are. */
module Cases {
  import opened Arithmetic
  import opened Bits
  import opened Bytes
  import opened Results
  import opened Locators
  import opened Planner
  import opened PlanMeaning
  import opened PlanLaws
  import opened Generator
  import opened Recipe

  // ----- What is enumerated fits its field -----

  /** The boundary values of a scalar of `len` bytes: increasing, and exactly 0, 1, the largest and the one
      before it. */
  lemma BoundaryOfWidth(len: nat)
    requires 1 <= len <= 8
    ensures StrictlyIncreasing(Boundary(WidthMax(len)))
    ensures forall v :: v in Boundary(WidthMax(len)) <==> v in {0, 1, Pow256(len) - 2, Pow256(len) - 1}
  {
    hide StrictlyIncreasing, Boundary;
    PowerOfBytes(len);
    assert Pow256(len) == 256 * Pow256(len - 1);
    BoundaryValues(WidthMax(len));
  }

  /** The descriptor is about a scalar of the table that it fits. */
  ghost predicate Fitting(schema: Schema, d: Descriptor) {
    match FieldById(schema, d.target.field)
    case None => false
    case Some(field) =>
      && !field.encoding.ByteString?
      && match d
         case BoundaryValue(_, value) => value < Pow256(field.len)
         case SingleBit(_, bit) => bit < 8 * field.len
  }

  lemma ScalarLength(field: FieldDef)
    requires field.WellFormed() && !field.encoding.ByteString?
    ensures 1 <= field.len <= 8
  {
  }

  lemma Pow256Grows(len: nat)
    ensures len >= 1 ==> Pow256(len) >= 256
  {
  }

  lemma TargetFitting(schema: Schema, target: Target, i: nat)
    requires i < |TargetCases(schema, target)|
    ensures Fitting(schema, TargetCases(schema, target)[i])
  {
    hide Boundary, WidthMax, FieldById, ValueCases, BitCases, Pow256;
    var field := FieldById(schema, target.field).value;
    ScalarLength(field);
    TargetEnumeration(schema, target, field);
    hide TargetCases;
    var values := Boundary(WidthMax(field.len));
    if i < |values| {
      BoundaryOfWidth(field.len);
      Pow256Grows(field.len);
      assert values[i] in values;
    } else {
      assert TargetCases(schema, target)[|values| + (i - |values|)] == SingleBit(target, i - |values|);
    }
  }

  lemma {:induction false} EnumeratedFitting(schema: Schema, targets: seq<Target>, i: nat)
    requires i < |Enumerated(schema, targets)|
    ensures Fitting(schema, Enumerated(schema, targets)[i])
  {
    hide TargetCases, Fitting;
    var first := TargetCases(schema, targets[0]);
    if i < |first| {
      TargetFitting(schema, targets[0], i);
    } else {
      EnumeratedFitting(schema, targets[1..], i - |first|);
    }
  }

  // ----- The cases of a window -----

  /** Case `i` of a window that starts at `skip` is deterministic case `skip + i`. */
  lemma DeterministicAt<S, Hash>(src: Source<S, Hash>, skip: nat, want: nat, i: nat)
    requires i < |src.Window(skip, want)| && skip + i < |src.Deterministic()|
    ensures src.Window(skip, want)[i] == DeterministicCase(src.hash, src.Deterministic()[skip + i], src.integrity)
  {
    hide Enumerated, DeterministicCase, Combinations, TakeDraws, SkipDraws;
    var ds := src.Deterministic();
    var from, to := Min(skip, |ds|), Min(skip + want, |ds|);
    assert ds[from..to][i] == ds[skip + i];
  }

  /** Deterministic case `k` of the campaign is about `d`. */
  ghost predicate CaseAsks<S, Hash>(src: Source<S, Hash>, k: nat, d: Descriptor) {
    k < |src.Deterministic()| && d == src.Deterministic()[k]
  }

  /** The intent of a single-bit case. */
  function SetBit(d: Descriptor): Intent
    requires d.SingleBit?
  {
    UpdateBits(d.target.obj, d.target.field, BitMask(d.bit), 0)
  }

  lemma CaseIntent<S, Hash>(src: Source<S, Hash>, skip: nat, want: nat, i: nat, d: Descriptor)
    requires i < |src.Window(skip, want)| && CaseAsks(src, skip + i, d)
    ensures Fitting(src.schema, d)
    ensures src.Window(skip, want)[i].intents
            == [if d.BoundaryValue? then SetValue(d.target.obj, d.target.field, d.value) else SetBit(d)]
  {
    hide Source<S, Hash>.Window, Enumerated, Fitting, BitMask, ExpectationForValue;
    DeterministicAt(src, skip, want, i);
    EnumeratedFitting(src.schema, src.targets, skip + i);
  }

  lemma OnePerformed(l: Locator, schema: Schema, intent: Intent)
    requires l.Valid()
    ensures PerformAll(l, schema, l.image, [intent]) == Perform(l, schema, l.image, intent)
    ensures AllPerformable(l, schema, l.image, [intent]) <==> Performable(l, schema, l.image, intent)
  {
    hide Perform, Performable;
    assert [intent][1..] == [];
    assert PerformAll(l, schema, Perform(l, schema, l.image, intent), []) == Perform(l, schema, l.image, intent);
  }

  /** Setting a scalar that is found to a value that fits is a write. */
  lemma SetWrites(l: Locator, schema: Schema, d: Descriptor)
    requires l.Valid() && d.BoundaryValue? && Fitting(schema, d) && Find(l, schema, d.target.obj, d.target.field).Ok?
    ensures var intent := SetValue(d.target.obj, d.target.field, d.value);
            WriteOf(l, schema, l.image, intent).Ok? && Performable(l, schema, l.image, intent)
  {
    hide FieldById, Pow256, LeBytes;
    ScalarLength(FieldById(schema, d.target.field).value);
  }

  /** The case of a boundary value leaves the field reading that value, and every other byte as it was. */
  lemma ValueCase<S, Hash>(src: Source<S, Hash>, l: Locator, skip: nat, want: nat, i: nat, d: Descriptor)
    requires l.Valid() && i < |src.Window(skip, want)| && CaseAsks(src, skip + i, d)
    requires d.BoundaryValue? && Find(l, src.schema, d.target.obj, d.target.field).Ok?
    ensures var slot := Find(l, src.schema, d.target.obj, d.target.field).value;
            var intents := src.Window(skip, want)[i].intents;
            var after := PerformAll(l, src.schema, l.image, intents);
            && AllPerformable(l, src.schema, l.image, intents)
            && LeVal(after[slot.offset..slot.offset + slot.len]) == d.value
            && OnlyThere(l.image, after, slot.offset, slot.len)
  {
    hide Source<S, Hash>.Window, Source<S, Hash>.Deterministic, Find, Fitting, LeVal, PerformAll, AllPerformable,
      WriteOf, Perform, Performable, OnlyThere, ExpectationForValue;
    CaseIntent(src, skip, want, i, d);
    var intent := SetValue(d.target.obj, d.target.field, d.value);
    OnePerformed(l, src.schema, intent);
    SetWrites(l, src.schema, d);
    SetReadsBack(l, src.schema, l.image, intent);
  }

  lemma MaskAlone(v: nat)
    ensures And(v, 0) == 0 && Or(v, 0) == v
  {
  }

  lemma Pow2Less(a: nat, b: nat)
    requires a < b
    ensures Pow2(a) < Pow2(b)
  {
    Pow2Grows(a + 1, b);
  }

  lemma MaskIs(bit: nat)
    requires bit < 64
    ensures BitMask(bit) == Pow2(bit)
  {
    hide Pow2;
  }

  lemma SetBitFits(bit: nat, n: nat)
    requires bit < n <= 64
    ensures BitMask(bit) == Pow2(bit) && And(BitMask(bit), 0) == 0
    ensures Clear(Or(BitMask(bit), 0), Pow2(n) - 1) == 0
  {
    hide Pow2, And, Or, Clear, BitMask;
    MaskIs(bit);
    MaskAlone(Pow2(bit));
    AboveMask(Pow2(bit), n);
    Pow2Less(bit, n);
  }

  lemma BitWrites(l: Locator, schema: Schema, d: Descriptor)
    requires l.Valid() && d.SingleBit? && Fitting(schema, d) && Find(l, schema, d.target.obj, d.target.field).Ok?
    ensures FindBits(l, schema, SetBit(d)) == Find(l, schema, d.target.obj, d.target.field)
  {
    hide FieldById, Pow2, And, Or, Clear, BitMask;
    var field := FieldById(schema, d.target.field).value;
    ScalarLength(field);
    SetBitFits(d.bit, 8 * field.len);
  }

  lemma FoundWrites(l: Locator, schema: Schema, intent: Intent)
    requires l.Valid() && intent.UpdateBits? && FindBits(l, schema, intent).Ok?
    ensures Performable(l, schema, l.image, intent)
  {
    hide FindBits, LeVal, LeBytes, Pow2, Pow256, Updated;
    var slot := FindBits(l, schema, intent).value;
    var was := LeVal(l.image[slot.offset..slot.offset + slot.len]);
    LeValBound(l.image[slot.offset..slot.offset + slot.len]);
    MaskFits(l, schema, intent);
    UpdateFits(was, intent.setMask, intent.clear, slot.len);
  }

  lemma MaskBit(schema: Schema, d: Descriptor, j: nat)
    requires d.SingleBit? && Fitting(schema, d)
    ensures Bit(BitMask(d.bit), j) <==> j == d.bit
  {
    hide FieldById, Pow2, Bit, BitMask;
    var field := FieldById(schema, d.target.field).value;
    ScalarLength(field);
    SetBitFits(d.bit, 8 * field.len);
    PowerBit(d.bit, j);
  }

  /** The case of a bit leaves that bit of the field set, and every other bit and byte as it was. */
  lemma BitCase<S, Hash>(src: Source<S, Hash>, l: Locator, skip: nat, want: nat, i: nat, d: Descriptor, j: nat)
    requires l.Valid() && i < |src.Window(skip, want)| && CaseAsks(src, skip + i, d)
    requires d.SingleBit? && Find(l, src.schema, d.target.obj, d.target.field).Ok?
    ensures var slot := Find(l, src.schema, d.target.obj, d.target.field).value;
            var intents := src.Window(skip, want)[i].intents;
            var after := PerformAll(l, src.schema, l.image, intents);
            var was, now := LeVal(l.image[slot.offset..slot.offset + slot.len]),
                            LeVal(after[slot.offset..slot.offset + slot.len]);
            && AllPerformable(l, src.schema, l.image, intents)
            && (Bit(now, j) <==> Bit(was, j) || j == d.bit)
            && OnlyThere(l.image, after, slot.offset, slot.len)
  {
    hide Source<S, Hash>.Window, Source<S, Hash>.Deterministic, Find, Fitting, LeVal, PerformAll, AllPerformable,
      WriteOf, Perform, Performable, OnlyThere, FindBits, Bit, BitMask;
    CaseIntent(src, skip, want, i, d);
    OnePerformed(l, src.schema, SetBit(d));
    BitWrites(l, src.schema, d);
    FoundWrites(l, src.schema, SetBit(d));
    BitsReadBack(l, src.schema, l.image, SetBit(d), j);
    MaskBit(src.schema, d, j);
    ZeroBits(j);
  }

  // ----- The combinations of a window -----

  /** Case `k` of the campaign's first `n` is the non-empty draw with the matching number. */
  ghost predicate IsDraw<S, Hash>(src: Source<S, Hash>, n: nat, k: nat, intents: seq<Intent>) {
    var d := |src.Deterministic()|;
    && src.streaming && d <= k < n && k - d < |Drawn(src.draw, src.seed, n - d)|
    && intents == Drawn(src.draw, src.seed, n - d)[k - d]
  }

  lemma EagerAt<S, Hash>(src: Source<S, Hash>, n: nat, k: nat)
    requires |src.Deterministic()| <= k < |src.Eager(n)|
    ensures IsDraw(src, n, k, src.Eager(n)[k].intents)
  {
    hide Source<S, Hash>.Deterministic, DeterministicCase, Drawn;
  }

  lemma DropAt<T>(s: seq<T>, skip: nat, i: nat)
    requires i < |Drop(s, skip)|
    ensures skip + i < |s| && Drop(s, skip)[i] == s[skip + i]
  {
  }

  /** Behind the deterministic cases come the non-empty draws, in order. */
  lemma CombinationAt<S, Hash>(src: Source<S, Hash>, skip: nat, want: nat, i: nat)
    requires skip + want <= U64_MAX && i < |src.Window(skip, want)| && skip + i >= |src.Deterministic()|
    ensures IsDraw(src, skip + want, skip + i, src.Window(skip, want)[i].intents)
  {
    hide Source<S, Hash>.Window, Source<S, Hash>.Deterministic, Source<S, Hash>.Eager, IsDraw, Drop;
    LazySkip(src, skip, want);
    DropAt(src.Eager(skip + want), skip, i);
    EagerAt(src, skip + want, skip + i);
  }
}
