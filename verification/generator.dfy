/** Generating campaign cases: every boundary value and single bit first, then random combinations. */
module Generator {
  import opened Arithmetic
  import opened Bytes
  import opened Results
  import opened Locators
  import Integrity
  import opened Planner

  datatype Target = Target(obj: ObjectRef, field: FieldId)

  /** What a deterministic case does to its target. */
  datatype Descriptor = BoundaryValue(target: Target, value: u64) | SingleBit(target: Target, bit: nat)

  datatype Expectation = Exploratory | ExpectAccepted | ExpectRejected

  /** A case, named by the hash of its intents. */
  datatype Case<Hash> = Case(id: Hash, combination: bool, intents: seq<Intent>, expectation: Expectation)

  datatype Spec = Spec(
    caseOffset: u64, integrity: Integrity.Policy, targets: seq<Target>, maxSamples: u64, maxMutations: u64,
    maxImageBytes: u64)

  const MAX_CASE_SKIP: nat := 0x10_0000

  // ----- The deterministic part -----

  /** `x` put into a strictly increasing list, unless it is there. */
  function InsertDistinct(s: seq<u64>, x: u64): seq<u64> {
    if s == [] || x < s[0] then [x] + s
    else if x == s[0] then s
    else [s[0]] + InsertDistinct(s[1..], x)
  }

  /** Sorted, without repetitions. */
  function SortDedup(s: seq<u64>): seq<u64> {
    if s == [] then [] else InsertDistinct(SortDedup(s[1..]), s[0])
  }

  ghost predicate StrictlyIncreasing(s: seq<u64>) {
    forall i, j :: 0 <= i < j < |s| ==> s[i] < s[j]
  }

  lemma {:induction false} InsertDistinctSound(s: seq<u64>, x: u64)
    requires StrictlyIncreasing(s)
    ensures StrictlyIncreasing(InsertDistinct(s, x))
    ensures forall v :: v in InsertDistinct(s, x) <==> v in s || v == x
  {
    if s != [] && x > s[0] {
      InsertDistinctSound(s[1..], x);
      var rest := InsertDistinct(s[1..], x);
      assert s == [s[0]] + s[1..];
      forall j | 0 <= j < |rest|
        ensures s[0] < rest[j]
      {
        assert rest[j] in rest;
      }
    }
  }

  lemma {:induction false} SortDedupSound(s: seq<u64>)
    ensures StrictlyIncreasing(SortDedup(s))
    ensures forall v :: v in SortDedup(s) <==> v in s
  {
    if s != [] {
      SortDedupSound(s[1..]);
      InsertDistinctSound(SortDedup(s[1..]), s[0]);
      assert s == [s[0]] + s[1..];
    }
  }

  /** The largest value of a field of `len` bytes. */
  function WidthMax(len: nat): u64
    requires len <= 8
  {
    Pow2Words();
    Pow2Grows(8 * len, 64);
    Pow2(8 * len) - 1
  }

  function Boundary(max: u64): seq<u64> {
    SortDedup([0, max, 1] + (if max > 0 then [max - 1] else []))
  }

  function ValueCases(target: Target, values: seq<u64>): seq<Descriptor> {
    if values == [] then [] else [BoundaryValue(target, values[0])] + ValueCases(target, values[1..])
  }

  function BitCases(target: Target, bit: nat, bits: nat): seq<Descriptor>
    decreases bits - bit
  {
    if bit >= bits then [] else [SingleBit(target, bit)] + BitCases(target, bit + 1, bits)
  }

  /** The cases of one target; none for a field of bytes. */
  function TargetCases(schema: Schema, target: Target): seq<Descriptor> {
    match FieldById(schema, target.field)
    case None => []
    case Some(field) =>
      if field.encoding.ByteString? then []
      else ValueCases(target, Boundary(WidthMax(field.len))) + BitCases(target, 0, 8 * field.len)
  }

  function Enumerated(schema: Schema, targets: seq<Target>): seq<Descriptor> {
    if targets == [] then [] else TargetCases(schema, targets[0]) + Enumerated(schema, targets[1..])
  }

  ghost predicate Known(schema: Schema, targets: seq<Target>) {
    forall i :: 0 <= i < |targets| ==> FieldById(schema, targets[i].field).Some?
  }

  /** What is expected of a boundary value, by field name. */
  function ExpectationForValue(field: FieldId, value: nat, integrity: Integrity.Policy): Expectation {
    if field == Named("erofs.superblock.magic") then ExpectRejected
    else if integrity.Recalculate?
            && (field == Named("erofs.superblock.epoch") || field == Named("erofs.superblock.build_time"))
    then ExpectAccepted
    else if field == Named("erofs.superblock.fixed_nsec") && value <= 999_999_999 && integrity.Recalculate?
    then ExpectAccepted
    else Exploratory
  }

  function ExpectationForBit(field: FieldId): Expectation {
    if field == Named("erofs.superblock.magic") then ExpectRejected else Exploratory
  }

  /** `1 << bit` on 64-bit words. */
  function BitMask(bit: nat): u64 {
    Pow2Words();
    Pow2Grows(bit % 64, 63);
    Pow2(bit % 64)
  }

  function DeterministicCase<Hash>(hash: seq<Intent> -> Hash, d: Descriptor, integrity: Integrity.Policy): Case<Hash> {
    match d
    case BoundaryValue(target, value) =>
      var intents := [SetValue(target.obj, target.field, value)];
      Case(hash(intents), false, intents, ExpectationForValue(target.field, value, integrity))
    case SingleBit(target, bit) =>
      var intents := [UpdateBits(target.obj, target.field, BitMask(bit), 0)];
      Case(hash(intents), false, intents, ExpectationForBit(target.field))
  }

  function CombinationCase<Hash>(hash: seq<Intent> -> Hash, intents: seq<Intent>): Case<Hash> {
    Case(hash(intents), true, intents, Exploratory)
  }

  function DeterministicPart<Hash>(hash: seq<Intent> -> Hash, ds: seq<Descriptor>, integrity: Integrity.Policy)
    : (r: seq<Case<Hash>>)
    ensures |r| == |ds|
  {
    seq(|ds|, i requires 0 <= i < |ds| => DeterministicCase(hash, ds[i], integrity))
  }

  function Combinations<Hash>(hash: seq<Intent> -> Hash, draws: seq<seq<Intent>>): (r: seq<Case<Hash>>)
    ensures |r| == |draws|
  {
    seq(|draws|, i requires 0 <= i < |draws| => CombinationCase(hash, draws[i]))
  }

  lemma FromTheStart(schema: Schema, targets: seq<Target>)
    ensures [] + Enumerated(schema, targets[0..]) == Enumerated(schema, targets)
  {
    hide Enumerated;
    assert targets[0..] == targets;
  }

  lemma NothingLeft(schema: Schema, targets: seq<Target>)
    ensures Enumerated(schema, targets[|targets|..]) == []
  {
  }

  lemma NextTargetCases(schema: Schema, targets: seq<Target>, n: nat)
    requires n < |targets| && FieldById(schema, targets[n].field).Some?
    ensures var field := FieldById(schema, targets[n].field).value;
            Enumerated(schema, targets[n..])
            == (if field.encoding.ByteString? then []
                else ValueCases(targets[n], Boundary(WidthMax(field.len))) + BitCases(targets[n], 0, 8 * field.len))
               + Enumerated(schema, targets[n + 1..])
  {
    hide FieldById, Boundary, BitCases, ValueCases, WidthMax;
    assert targets[n..][1..] == targets[n + 1..];
  }

  /** The cursor over the deterministic cases: the current target, and the rest of its values and bits. */
  class DeterministicCases {
    const schema: Schema
    const targets: seq<Target>
    var current: Option<Target>
    var nextTarget: nat
    var values: seq<u64>
    var valueIndex: nat
    var bit: nat
    var bitCount: nat

    ghost predicate Valid()
      reads this
    {
      && Known(schema, targets) && nextTarget <= |targets|
      && valueIndex <= |values|
    }

    /** The cases still to come. */
    ghost function Remaining(): seq<Descriptor>
      requires Valid()
      reads this
    {
      (match current
       case None => []
       case Some(target) => ValueCases(target, values[valueIndex..]) + BitCases(target, bit, bitCount))
      + Enumerated(schema, targets[nextTarget..])
    }

    constructor (schema: Schema, targets: seq<Target>)
      requires Known(schema, targets)
      ensures Valid() && Remaining() == Enumerated(schema, targets)
      ensures this.schema == schema && this.targets == targets
    {
      this.schema, this.targets := schema, targets;
      current, nextTarget, values, valueIndex, bit, bitCount := None, 0, [], 0, 0, 0;
      new;
      hide Enumerated, ValueCases, BitCases, Known, FieldById;
      FromTheStart(schema, targets);
    }

    /** Moves on to the next target that is not a field of bytes. */
    method AdvanceTarget() returns (found: bool)
      requires Valid() && current == None
      modifies this
      ensures Valid() && Remaining() == old(Remaining())
      ensures found <==> current.Some?
      ensures found ==> nextTarget > old(nextTarget)
      ensures !found ==> Remaining() == []
    {
      hide FieldById, Boundary, BitCases, ValueCases, Enumerated, WidthMax, TargetCases;
      NothingLeft(schema, targets);
      while nextTarget < |targets|
        invariant Valid() && current == None && nextTarget >= old(nextTarget)
        invariant Remaining() == old(Remaining())
        decreases |targets| - nextTarget
      {
        var target := targets[nextTarget];
        NextTargetCases(schema, targets, nextTarget);
        nextTarget := nextTarget + 1;
        var field := FieldById(schema, target.field).value;
        if !field.encoding.ByteString? {
          values := Boundary(WidthMax(field.len));
          valueIndex, bit, bitCount := 0, 0, 8 * field.len;
          current := Some(target);
          assert values[0..] == values;
          return true;
        }
      }
      found := false;
    }

    /** The next case, if any is left. */
    method NextDescriptor() returns (r: Option<Descriptor>)
      requires Valid()
      modifies this
      ensures Valid()
      ensures old(Remaining()) == [] ==> r == None && Remaining() == []
      ensures old(Remaining()) != [] ==> r == Some(old(Remaining())[0]) && Remaining() == old(Remaining())[1..]
    {
      hide Known, Enumerated;
      while true
        invariant Valid() && Remaining() == old(Remaining())
        decreases |targets| - nextTarget, if current.Some? then 1 else 0
      {
        if current.None? {
          var more := AdvanceTarget();
          if !more {
            return None;
          }
        } else {
          var target := current.value;
          if valueIndex < |values| {
            var value := values[valueIndex];
            assert values[valueIndex..][1..] == values[valueIndex + 1..];
            valueIndex := valueIndex + 1;
            return Some(BoundaryValue(target, value));
          }
          assert values[valueIndex..] == [];
          if bit < bitCount {
            bit := bit + 1;
            return Some(SingleBit(target, bit - 1));
          }
          current := None;
        }
      }
    }
  }

  // ----- What is enumerated -----

  /** The boundary values of a field of at least one byte: increasing, and exactly these four. */
  lemma BoundaryValues(max: u64)
    ensures StrictlyIncreasing(Boundary(max))
    ensures forall v :: v in Boundary(max) <==> v == 0 || v == 1 || v == max || (max > 0 && v == max - 1)
  {
    SortDedupSound([0, max, 1] + (if max > 0 then [max - 1] else []));
  }

  lemma {:induction false} InsertSize(s: seq<u64>, x: u64)
    ensures |InsertDistinct(s, x)| <= |s| + 1
  {
    if s != [] {
      InsertSize(s[1..], x);
    }
  }

  lemma {:induction false} SortSize(s: seq<u64>)
    ensures |SortDedup(s)| <= |s|
  {
    if s != [] {
      SortSize(s[1..]);
      InsertSize(SortDedup(s[1..]), s[0]);
    }
  }

  lemma BoundarySize(max: u64)
    ensures |Boundary(max)| <= 4
  {
    SortSize([0, max, 1] + (if max > 0 then [max - 1] else []));
  }

  lemma {:induction false} ValueCasesAt(target: Target, values: seq<u64>)
    ensures |ValueCases(target, values)| == |values|
    ensures forall i :: 0 <= i < |values| ==> ValueCases(target, values)[i] == BoundaryValue(target, values[i])
  {
    if values != [] {
      ValueCasesAt(target, values[1..]);
    }
  }

  lemma {:induction false} BitCasesAt(target: Target, bit: nat, bits: nat)
    requires bit <= bits
    ensures |BitCases(target, bit, bits)| == bits - bit
    ensures forall i :: 0 <= i < bits - bit ==> BitCases(target, bit, bits)[i] == SingleBit(target, bit + i)
    decreases bits - bit
  {
    if bit < bits {
      BitCasesAt(target, bit + 1, bits);
    }
  }

  /** Per target: the sorted distinct boundary values, then each single bit once, in order. */
  lemma TargetEnumeration(schema: Schema, target: Target, field: FieldDef)
    requires FieldById(schema, target.field) == Some(field) && !field.encoding.ByteString?
    ensures var cases := TargetCases(schema, target);
            var values := Boundary(WidthMax(field.len));
            && |cases| == |values| + 8 * field.len
            && (forall i :: 0 <= i < |values| ==> cases[i] == BoundaryValue(target, values[i]))
            && (forall b :: 0 <= b < 8 * field.len ==> cases[|values| + b] == SingleBit(target, b))
  {
    hide Boundary, WidthMax, ValueCases, BitCases, FieldById;
    ValueCasesAt(target, Boundary(WidthMax(field.len)));
    BitCasesAt(target, 0, 8 * field.len);
  }

  // ----- The random part -----

  /** The stream of combinations, its random generator abstract: a state, and one draw from it. */
  class CombinationStream<S> {
    const draw: S -> (seq<Intent>, S)
    var state: S

    constructor (draw: S -> (seq<Intent>, S), seed: S)
      ensures this.draw == draw && state == seed
    {
      this.draw, this.state := draw, seed;
    }

    /** Draws once. Nothing may come of it: fields of bytes contribute no intent. */
    method Draw() returns (intents: seq<Intent>)
      modifies this`state
      ensures (intents, state) == draw(old(state))
    {
      var (drawn, next) := draw(state);
      intents, state := drawn, next;
    }
  }

  /** Draw number `i` from a state, empty or not. */
  function NthDraw<S>(draw: S -> (seq<Intent>, S), s: S, i: nat): seq<Intent> {
    if i == 0 then draw(s).0 else NthDraw(draw, draw(s).1, i - 1)
  }

  /** The non-empty ones of the next `n` draws. */
  function Drawn<S>(draw: S -> (seq<Intent>, S), s: S, n: nat): (r: seq<seq<Intent>>)
    ensures |r| <= n
  {
    if n == 0 then []
    else (if draw(s).0 != [] then [draw(s).0] else []) + Drawn(draw, draw(s).1, n - 1)
  }

  /** Skipping: draws until `skip` non-empty ones are gone or the iterations are used up. */
  function SkipDraws<S>(draw: S -> (seq<Intent>, S), s: S, skip: nat, iterations: nat): (r: (S, nat))
    ensures r.1 <= iterations
    decreases iterations
  {
    if skip == 0 || iterations == 0 then (s, iterations)
    else SkipDraws(draw, draw(s).1, if draw(s).0 != [] then skip - 1 else skip, iterations - 1)
  }

  /** Taking: the next `want` non-empty draws, as far as the iterations reach. */
  function TakeDraws<S>(draw: S -> (seq<Intent>, S), s: S, want: nat, iterations: nat): seq<seq<Intent>>
    decreases iterations
  {
    if want == 0 || iterations == 0 then []
    else if draw(s).0 != [] then [draw(s).0] + TakeDraws(draw, draw(s).1, want - 1, iterations - 1)
    else TakeDraws(draw, draw(s).1, want, iterations - 1)
  }

  /** With as many iterations as wanted cases the wish never binds. */
  lemma {:induction false} TakeAll<S>(draw: S -> (seq<Intent>, S), s: S, want: nat, iterations: nat)
    requires want >= iterations
    ensures TakeDraws(draw, s, want, iterations) == Drawn(draw, s, iterations)
    decreases iterations
  {
    if iterations > 0 {
      TakeAll(draw, draw(s).1, if draw(s).0 != [] then want - 1 else want, iterations - 1);
    }
  }

  function Drop<T>(s: seq<T>, k: nat): seq<T> {
    if k <= |s| then s[k..] else []
  }

  /** What is left after skipping is everything drawn without its first part. */
  lemma {:induction false} SkipDrops<S>(draw: S -> (seq<Intent>, S), s: S, skip: nat, iterations: nat)
    ensures var (t, left) := SkipDraws(draw, s, skip, iterations);
            Drawn(draw, t, left) == Drop(Drawn(draw, s, iterations), skip)
    ensures SkipDraws(draw, s, skip, iterations).1 <= (if skip <= iterations then iterations - skip else 0)
    decreases iterations
  {
    if skip > 0 && iterations > 0 {
      SkipDrops(draw, draw(s).1, if draw(s).0 != [] then skip - 1 else skip, iterations - 1);
    }
  }
}
