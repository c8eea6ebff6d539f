/** Windows of a campaign: skipping cases lazily gives what dropping them eagerly would. */
module Recipe {
  import opened Arithmetic
  import opened Bytes
  import opened Results
  import opened Locators
  import opened Patches
  import opened Integrity
  import opened Planner
  import opened Generator

  /** `saturating_add` and `saturating_sub`. */
  function SaturatingAdd(a: nat, b: nat): nat {
    if a + b <= U64_MAX then a + b else U64_MAX
  }

  function SaturatingSub(a: nat, b: nat): nat {
    if a >= b then a - b else 0
  }

  /** Everything the cases come from. */
  datatype Source<!S, !Hash> = Source(
    schema: Schema, targets: seq<Target>, integrity: Policy, streaming: bool,
    draw: S -> (seq<Intent>, S), seed: S, hash: seq<Intent> -> Hash)
  {
    function Deterministic(): seq<Descriptor> {
      Enumerated(schema, targets)
    }

    /** The first `n` cases, built one after the other: the deterministic ones, and then one draw for
        each case missing. */
    function Eager(n: nat): seq<Case<Hash>> {
      var ds := Deterministic();
      if n <= |ds| then DeterministicPart(hash, ds[..n], integrity)
      else
        DeterministicPart(hash, ds, integrity)
        + if streaming then Combinations(hash, Drawn(draw, seed, n - |ds|)) else []
    }

    /** The window the implementation builds: `skip` cases passed over, at most `want` built. */
    function Window(skip: nat, want: nat): seq<Case<Hash>> {
      var ds := Deterministic();
      var from, to := Min(skip, |ds|), Min(skip + want, |ds|);
      var first := DeterministicPart(hash, ds[from..to], integrity);
      if |first| >= want || !streaming then first
      else
        var iterations := SaturatingSub(SaturatingAdd(skip, want), to);
        var (s, left) := SkipDraws(draw, seed, skip - from, iterations);
        first + Combinations(hash, TakeDraws(draw, s, want - |first|, left))
    }
  }

  function SourceOf<S, Hash>(
      schema: Schema, spec: Spec, draw: S -> (seq<Intent>, S), seed: S, hash: seq<Intent> -> Hash): Source<S, Hash>
  {
    Source(schema, spec.targets, spec.integrity, spec.maxMutations > 0, draw, seed, hash)
  }

  ghost function RecipeOf<S, Hash>(
      parentLen: nat, schema: Schema, spec: Spec, draw: S -> (seq<Intent>, S), seed: S, hash: seq<Intent> -> Hash)
    : Planned<seq<Case<Hash>>>
  {
    if parentLen > spec.maxImageBytes then Err(Bounds)
    else if spec.targets == [] || spec.maxSamples == 0 then Err(Unsupported)
    else if !Known(schema, spec.targets) then Err(Resolve)
    else if spec.caseOffset > MAX_CASE_SKIP then Err(Bounds)
    else Ok(SourceOf(schema, spec, draw, seed, hash).Window(spec.caseOffset, spec.maxSamples))
  }

  /** Every field named by a target is in the table. */
  method CheckTargets(schema: Schema, targets: seq<Target>) returns (known: bool)
    ensures known <==> Known(schema, targets)
  {
    for i := 0 to |targets|
      invariant forall j :: 0 <= j < i ==> FieldById(schema, targets[j].field).Some?
    {
      if FieldById(schema, targets[i].field).None? {
        return false;
      }
    }
    known := true;
  }

  lemma {:induction false} PartSnoc<Hash>(
      hash: seq<Intent> -> Hash, ds: seq<Descriptor>, from: nat, to: nat, integrity: Policy)
    requires from <= to < |ds|
    ensures DeterministicPart(hash, ds[from..to + 1], integrity)
            == DeterministicPart(hash, ds[from..to], integrity) + [DeterministicCase(hash, ds[to], integrity)]
  {
    assert ds[from..to + 1] == ds[from..to] + [ds[to]];
  }

  /** Moves the cursor over up to `skip` cases without building any. */
  method SkipDeterministic(deterministic: DeterministicCases, skip: nat, ghost ds: seq<Descriptor>, ghost at: nat)
    returns (skipped: nat)
    requires deterministic.Valid() && at <= |ds| && deterministic.Remaining() == ds[at..]
    modifies deterministic
    ensures deterministic.Valid() && skipped == Min(skip, |ds| - at)
    ensures deterministic.Remaining() == ds[at + skipped..]
  {
    hide DeterministicCases.Remaining, DeterministicCases.Valid;
    skipped := 0;
    while skipped < skip
      invariant deterministic.Valid() && skipped <= skip && at + skipped <= |ds|
      invariant deterministic.Remaining() == ds[at + skipped..]
    {
      var next := deterministic.NextDescriptor();
      if next.None? {
        break;
      }
      assert ds[at + skipped..][1..] == ds[at + skipped + 1..];
      skipped := skipped + 1;
    }
  }

  lemma NextOf(ds: seq<Descriptor>, at: nat)
    requires at <= |ds|
    ensures ds[at..] == [] <==> at == |ds|
    ensures at < |ds| ==> ds[at..][0] == ds[at] && ds[at..][1..] == ds[at + 1..]
  {
  }

  lemma NoCases<Hash>(hash: seq<Intent> -> Hash, ds: seq<Descriptor>, from: nat, integrity: Policy)
    requires from <= |ds|
    ensures DeterministicPart(hash, ds[from..from], integrity) == []
  {
  }

  /** Builds up to `want` cases from the cursor on. */
  method TakeDeterministic<Hash>(
      deterministic: DeterministicCases, hash: seq<Intent> -> Hash, integrity: Policy, want: nat,
      ghost ds: seq<Descriptor>, ghost at: nat)
    returns (cases: seq<Case<Hash>>, ghost to: nat)
    requires deterministic.Valid() && at <= |ds| && deterministic.Remaining() == ds[at..]
    modifies deterministic
    ensures |cases| == to - at == Min(want, |ds| - at)
    ensures cases == DeterministicPart(hash, ds[at..to], integrity)
  {
    hide DeterministicCase, DeterministicPart, DeterministicCases.Remaining, DeterministicCases.Valid;
    cases := [];
    NoCases(hash, ds, at, integrity);
    to := at;
    while |cases| < want
      invariant deterministic.Valid() && |cases| == to - at <= want && to <= |ds|
      invariant deterministic.Remaining() == ds[to..]
      invariant cases == DeterministicPart(hash, ds[at..to], integrity)
    {
      NextOf(ds, to);
      var next := deterministic.NextDescriptor();
      if next.None? {
        break;
      }
      PartSnoc(hash, ds, at, to, integrity);
      to := to + 1;
      cases := cases + [DeterministicCase(hash, next.value, integrity)];
    }
  }

  /** The deterministic part of a window, how far the cursor got, and how much is left to skip. */
  method DeterministicWindow<Hash>(schema: Schema, spec: Spec, hash: seq<Intent> -> Hash)
    returns (cases: seq<Case<Hash>>, total: nat, skip: nat)
    requires Known(schema, spec.targets)
    ensures var ds := Enumerated(schema, spec.targets);
            var from := Min(spec.caseOffset, |ds|);
            && total == Min(spec.caseOffset + spec.maxSamples, |ds|) && skip == spec.caseOffset - from
            && cases == DeterministicPart(hash, ds[from..total], spec.integrity)
  {
    hide Enumerated, DeterministicPart, Known;
    ghost var ds := Enumerated(schema, spec.targets);
    var deterministic := new DeterministicCases(schema, spec.targets);
    assert ds[0..] == ds;
    var skipped := SkipDeterministic(deterministic, spec.caseOffset, ds, 0);
    ghost var to;
    cases, to := TakeDeterministic(deterministic, hash, spec.integrity, spec.maxSamples, ds, skipped);
    total, skip := skipped + |cases|, spec.caseOffset - skipped;
  }

  /** Draws and drops until enough non-empty cases are skipped. */
  method SkipStream<S>(stream: CombinationStream<S>, toSkip: nat, iterations: nat) returns (left: nat)
    modifies stream
    ensures (stream.state, left) == SkipDraws(stream.draw, old(stream.state), toSkip, iterations)
  {
    var skip := toSkip;
    left := iterations;
    while skip > 0 && left > 0
      invariant SkipDraws(stream.draw, stream.state, skip, left)
                == SkipDraws(stream.draw, old(stream.state), toSkip, iterations)
      decreases left
    {
      left := left - 1;
      var drawn := stream.Draw();
      if drawn != [] {
        skip := skip - 1;
      }
    }
  }

  lemma TakeStep<S>(draw: S -> (seq<Intent>, S), s: S, want: nat, iterations: nat)
    requires want > 0 && iterations > 0
    ensures TakeDraws(draw, s, want, iterations)
            == if draw(s).0 != [] then [draw(s).0] + TakeDraws(draw, draw(s).1, want - 1, iterations - 1)
               else TakeDraws(draw, draw(s).1, want, iterations - 1)
  {
  }

  lemma TakeNothing<S>(draw: S -> (seq<Intent>, S), s: S, want: nat, iterations: nat)
    ensures want == 0 || iterations == 0 ==> TakeDraws(draw, s, want, iterations) == []
  {
  }

  lemma NoCombinations<Hash>(hash: seq<Intent> -> Hash)
    ensures Combinations(hash, []) == []
  {
  }

  lemma {:induction false} CombinationsSnoc<Hash>(hash: seq<Intent> -> Hash, draws: seq<seq<Intent>>, last: seq<Intent>)
    ensures Combinations(hash, draws + [last]) == Combinations(hash, draws) + [CombinationCase(hash, last)]
  {
  }

  /** Draws and keeps the non-empty cases. */
  method TakeStream<S, Hash>(stream: CombinationStream<S>, hash: seq<Intent> -> Hash, want: nat, iterations: nat)
    returns (cases: seq<Case<Hash>>)
    modifies stream
    ensures cases == Combinations(hash, TakeDraws(stream.draw, old(stream.state), want, iterations))
  {
    hide CombinationCase, Combinations, TakeDraws;
    var left := iterations;
    cases := [];
    NoCombinations(hash);
    ghost var taken: seq<seq<Intent>> := [];
    while |cases| < want && left > 0
      invariant |cases| <= want && cases == Combinations(hash, taken)
      invariant taken + TakeDraws(stream.draw, stream.state, want - |cases|, left)
                == TakeDraws(stream.draw, old(stream.state), want, iterations)
      decreases left
    {
      TakeStep(stream.draw, stream.state, want - |cases|, left);
      left := left - 1;
      var intents := stream.Draw();
      if intents != [] {
        CombinationsSnoc(hash, taken, intents);
        taken := taken + [intents];
        cases := cases + [CombinationCase(hash, intents)];
      }
    }
    TakeNothing(stream.draw, stream.state, want - |cases|, left);
    assert taken == TakeDraws(stream.draw, old(stream.state), want, iterations);
  }

  /** Builds the cases of a window: the cursor is moved over skipped deterministic cases, skipped
      combinations are drawn and dropped. */
  method GenerateRecipe<S, Hash>(
      parentLen: nat, schema: Schema, spec: Spec, draw: S -> (seq<Intent>, S), seed: S, hash: seq<Intent> -> Hash)
    returns (r: Planned<seq<Case<Hash>>>)
    ensures r == RecipeOf(parentLen, schema, spec, draw, seed, hash)
  {
    hide Enumerated, DeterministicCase, DeterministicPart, CombinationCase, Combinations, Known, BitMask;
    if parentLen > spec.maxImageBytes {
      return Err(Bounds);
    }
    if spec.targets == [] || spec.maxSamples == 0 {
      return Err(Unsupported);
    }
    var known := CheckTargets(schema, spec.targets);
    if !known {
      return Err(Resolve);
    }
    if spec.caseOffset > MAX_CASE_SKIP {
      return Err(Bounds);
    }
    var cases, total, skip := DeterministicWindow(schema, spec, hash);
    if |cases| < spec.maxSamples && spec.maxMutations > 0 {
      var stream := new CombinationStream(draw, seed);
      var iterations := SaturatingSub(SaturatingAdd(spec.caseOffset, spec.maxSamples), total);
      var left := SkipStream(stream, skip, iterations);
      var tail := TakeStream(stream, hash, spec.maxSamples - |cases|, left);
      cases := cases + tail;
    }
    r := Ok(cases);
  }

  // ----- Every case of a recipe -----

  lemma {:induction false} TakenNonEmpty<S>(draw: S -> (seq<Intent>, S), s: S, want: nat, iterations: nat, i: nat)
    requires i < |TakeDraws(draw, s, want, iterations)|
    ensures TakeDraws(draw, s, want, iterations)[i] != []
    decreases iterations
  {
    if draw(s).0 == [] {
      TakenNonEmpty(draw, draw(s).1, want, iterations - 1, i);
    } else if i > 0 {
      TakenNonEmpty(draw, draw(s).1, want - 1, iterations - 1, i - 1);
    }
  }

  /** The intent sets a time field to a value it may have. */
  predicate SetsTime(intent: Intent) {
    && intent.SetValue?
    && (intent.field == Named("erofs.superblock.epoch") || intent.field == Named("erofs.superblock.build_time")
        || (intent.field == Named("erofs.superblock.fixed_nsec") && intent.value <= 999_999_999))
  }

  /** A case has intents and is named by them. A combination expects nothing. A deterministic case is one
      intent; it expects rejection exactly if that touches the magic, and acceptance exactly if the checksum
      is repaired and a time field set to a value it may have. */
  ghost predicate WellClassified<Hash>(hash: seq<Intent> -> Hash, integrity: Policy, c: Case<Hash>) {
    && c.intents != [] && c.id == hash(c.intents)
    && if c.combination then c.expectation.Exploratory?
       else
         && |c.intents| == 1 && (c.intents[0].SetValue? || c.intents[0].UpdateBits?)
         && (c.expectation.ExpectRejected? <==> c.intents[0].field == Named("erofs.superblock.magic"))
         && (c.expectation.ExpectAccepted? <==> integrity.Recalculate? && SetsTime(c.intents[0]))
  }

  lemma DeterministicClassified<Hash>(hash: seq<Intent> -> Hash, d: Descriptor, integrity: Policy)
    ensures WellClassified(hash, integrity, DeterministicCase(hash, d, integrity))
    ensures !DeterministicCase(hash, d, integrity).combination
  {
    hide BitMask;
    var magic, epoch := "erofs.superblock.magic", "erofs.superblock.epoch";
    assert magic[17] != epoch[17];
  }

  lemma CombinationClassified<Hash>(hash: seq<Intent> -> Hash, intents: seq<Intent>, integrity: Policy)
    requires intents != []
    ensures WellClassified(hash, integrity, CombinationCase(hash, intents))
    ensures CombinationCase(hash, intents).combination
  {
  }

  lemma PartClassified<Hash>(hash: seq<Intent> -> Hash, ds: seq<Descriptor>, integrity: Policy, i: nat)
    requires i < |DeterministicPart(hash, ds, integrity)|
    ensures WellClassified(hash, integrity, DeterministicPart(hash, ds, integrity)[i])
    ensures !DeterministicPart(hash, ds, integrity)[i].combination
  {
    hide DeterministicCase, WellClassified;
    DeterministicClassified(hash, ds[i], integrity);
  }

  lemma CombinationsClassified<S, Hash>(
      hash: seq<Intent> -> Hash, integrity: Policy, draw: S -> (seq<Intent>, S), s: S, want: nat, left: nat, i: nat)
    requires i < |Combinations(hash, TakeDraws(draw, s, want, left))|
    ensures WellClassified(hash, integrity, Combinations(hash, TakeDraws(draw, s, want, left))[i])
    ensures Combinations(hash, TakeDraws(draw, s, want, left))[i].combination
  {
    hide CombinationCase, WellClassified, TakeDraws;
    TakenNonEmpty(draw, s, want, left, i);
    CombinationClassified(hash, TakeDraws(draw, s, want, left)[i], integrity);
  }

  lemma CasesClassified<S, Hash>(src: Source<S, Hash>, skip: nat, want: nat, i: nat)
    requires i < |src.Window(skip, want)|
    ensures WellClassified(src.hash, src.integrity, src.Window(skip, want)[i])
    ensures src.Window(skip, want)[i].combination <==> skip + i >= |src.Deterministic()|
  {
    hide Enumerated, DeterministicPart, Combinations, TakeDraws, SkipDraws, WellClassified;
    hide SaturatingAdd, SaturatingSub;
    var ds := src.Deterministic();
    var from, to := Min(skip, |ds|), Min(skip + want, |ds|);
    if i < to - from {
      PartClassified(src.hash, ds[from..to], src.integrity, i);
    } else {
      var iterations := SaturatingSub(SaturatingAdd(skip, want), to);
      var (s, left) := SkipDraws(src.draw, src.seed, skip - from, iterations);
      CombinationsClassified(src.hash, src.integrity, src.draw, s, want - (to - from), left, i - (to - from));
    }
  }

  // ----- Lazy is eager -----

  lemma {:induction false} PartDrop<Hash>(hash: seq<Intent> -> Hash, ds: seq<Descriptor>, k: nat, integrity: Policy)
    requires k <= |ds|
    ensures DeterministicPart(hash, ds, integrity)[k..] == DeterministicPart(hash, ds[k..], integrity)
  {
  }

  lemma {:induction false} CombinationsDrop<Hash>(hash: seq<Intent> -> Hash, draws: seq<seq<Intent>>, k: nat)
    ensures Drop(Combinations(hash, draws), k) == Combinations(hash, Drop(draws, k))
  {
    if k <= |draws| {
      assert Combinations(hash, draws)[k..] == Combinations(hash, draws[k..]);
    }
  }

  lemma DropJoin<T>(a: seq<T>, b: seq<T>, k: nat)
    ensures Drop(a + b, k) == if k <= |a| then a[k..] + b else Drop(b, k - |a|)
  {
  }

  /** The combination part of a window. */
  lemma {:induction false} LazyTail<S, Hash>(src: Source<S, Hash>, skip: nat, want: nat, iterations: nat)
    requires SaturatingSub(iterations, skip) <= want
    ensures var (s, left) := SkipDraws(src.draw, src.seed, skip, iterations);
            Combinations(src.hash, TakeDraws(src.draw, s, want, left))
            == Drop(Combinations(src.hash, Drawn(src.draw, src.seed, iterations)), skip)
  {
    hide Combinations, Drawn, TakeDraws, SkipDraws;
    SkipDrops(src.draw, src.seed, skip, iterations);
    var (s, left) := SkipDraws(src.draw, src.seed, skip, iterations);
    TakeAll(src.draw, s, want, left);
    CombinationsDrop(src.hash, Drawn(src.draw, src.seed, iterations), skip);
  }

  lemma DropNothing<T>(s: seq<T>)
    ensures Drop(s, 0) == s
  {
  }

  /** Past the deterministic cases. */
  lemma {:induction false} LazySkipFar<S, Hash>(src: Source<S, Hash>, skip: nat, want: nat)
    requires skip + want <= U64_MAX && skip + want > |src.Deterministic()|
    ensures src.Window(skip, want) == Drop(src.Eager(skip + want), skip)
  {
    hide Enumerated, DeterministicPart, Combinations, Drawn, TakeDraws, SkipDraws;
    var ds := src.Deterministic();
    var from := Min(skip, |ds|);
    var iterations := skip + want - |ds|;
    var tail := if src.streaming then Combinations(src.hash, Drawn(src.draw, src.seed, iterations)) else [];
    assert ds[from..|ds|] == ds[from..];
    PartDrop(src.hash, ds, from, src.integrity);
    DropJoin(DeterministicPart(src.hash, ds, src.integrity), tail, skip);
    DropNothing(tail);
    if src.streaming {
      LazyTail(src, skip - from, want - (|ds| - from), iterations);
    }
  }

  /** The window that skips `skip` cases and builds `want` is the first `skip + want` cases without the
      first `skip`: empty draws and the shared iteration budget included. */
  lemma {:induction false} LazySkip<S, Hash>(src: Source<S, Hash>, skip: nat, want: nat)
    requires skip + want <= U64_MAX
    ensures src.Window(skip, want) == Drop(src.Eager(skip + want), skip)
  {
    var ds := src.Deterministic();
    var n := skip + want;
    if n > |ds| {
      LazySkipFar(src, skip, want);
    } else {
      hide Enumerated, DeterministicPart, Combinations, Drawn, TakeDraws, SkipDraws;
      assert ds[..n][skip..] == ds[skip..n];
      PartDrop(src.hash, ds[..n], skip, src.integrity);
    }
  }

  /** How many of the first `n` cases there are. */
  lemma {:induction false} EagerCounts<S, Hash>(src: Source<S, Hash>, n: nat)
    ensures var d := |src.Deterministic()|;
            |src.Eager(n)| == if n <= d then n
                              else d + if src.streaming then |Drawn(src.draw, src.seed, n - d)| else 0
  {
    hide Enumerated, Drawn, DeterministicCase, CombinationCase;
  }

  /** None of the first `n` draws is empty. */
  ghost predicate NoneEmpty<S(!new)>(draw: S -> (seq<Intent>, S), s: S, n: nat) {
    forall i: nat :: i < n ==> NthDraw(draw, s, i) != []
  }

  /** The draws from number `from` up to `to` are all empty. */
  ghost predicate AllEmpty<S(!new)>(draw: S -> (seq<Intent>, S), s: S, from: nat, to: nat) {
    forall i: nat :: from <= i < to ==> NthDraw(draw, s, i) == []
  }

  lemma NextDraw<S>(draw: S -> (seq<Intent>, S), s: S, i: nat)
    ensures NthDraw(draw, s, i + 1) == NthDraw(draw, draw(s).1, i)
    ensures NthDraw(draw, s, 0) == draw(s).0
  {
  }

  lemma NoneEmptyNext<S(!new)>(draw: S -> (seq<Intent>, S), s: S, n: nat)
    ensures NoneEmpty(draw, s, n + 1) <==> draw(s).0 != [] && NoneEmpty(draw, draw(s).1, n)
  {
    hide NthDraw;
    NextDraw(draw, s, 0);
    if NoneEmpty(draw, s, n + 1) {
      forall i: nat | i < n ensures NthDraw(draw, draw(s).1, i) != [] {
        NextDraw(draw, s, i);
      }
    } else if draw(s).0 != [] {
      var i: nat :| i < n + 1 && NthDraw(draw, s, i) == [];
      NextDraw(draw, s, i - 1);
    }
  }

  lemma NoDraws<S(!new)>(draw: S -> (seq<Intent>, S), s: S, n: nat)
    ensures NoneEmpty(draw, s, 0) && AllEmpty(draw, s, n, n)
  {
  }

  /** As many cases as draws: no draw was empty. */
  lemma {:induction false} DrawnFull<S(!new)>(draw: S -> (seq<Intent>, S), s: S, n: nat)
    ensures |Drawn(draw, s, n)| == n <==> NoneEmpty(draw, s, n)
  {
    hide NoneEmpty;
    if n == 0 {
      NoDraws(draw, s, 0);
    } else {
      DrawnFull(draw, draw(s).1, n - 1);
      NoneEmptyNext(draw, s, n - 1);
    }
  }

  lemma AllEmptyNext<S(!new)>(draw: S -> (seq<Intent>, S), s: S, from: nat, to: nat)
    ensures AllEmpty(draw, s, from + 1, to + 1) <==> AllEmpty(draw, draw(s).1, from, to)
    ensures AllEmpty(draw, s, 0, to + 1) <==> draw(s).0 == [] && AllEmpty(draw, draw(s).1, 0, to)
  {
    hide NthDraw;
    NextDraw(draw, s, 0);
    forall i: nat {
      NextDraw(draw, s, i);
    }
    forall f: nat | AllEmpty(draw, draw(s).1, f, to)
      ensures AllEmpty(draw, s, f + 1, to + 1)
    {
      forall i: nat | f + 1 <= i < to + 1 ensures NthDraw(draw, s, i) == [] {
        NextDraw(draw, s, i - 1);
      }
    }
  }

  /** `m` further draws add no case: all of them were empty. */
  lemma {:induction false} DrawnStays<S(!new)>(draw: S -> (seq<Intent>, S), s: S, n: nat, m: nat)
    ensures |Drawn(draw, s, n + m)| == |Drawn(draw, s, n)| <==> AllEmpty(draw, s, n, n + m)
    decreases n + m
  {
    hide AllEmpty;
    if n > 0 {
      DrawnStays(draw, draw(s).1, n - 1, m);
      AllEmptyNext(draw, s, n - 1, n - 1 + m);
    } else if m > 0 {
      DrawnStays(draw, draw(s).1, 0, m - 1);
      AllEmptyNext(draw, s, 0, m - 1);
    } else {
      NoDraws(draw, s, n);
    }
  }

  lemma {:induction false} PartGrows<Hash>(hash: seq<Intent> -> Hash, ds: seq<Descriptor>, k: nat, integrity: Policy)
    requires k <= |ds|
    ensures DeterministicPart(hash, ds[..k], integrity) <= DeterministicPart(hash, ds, integrity)
  {
  }

  lemma {:induction false} CombinationsGrow<Hash>(hash: seq<Intent> -> Hash, a: seq<seq<Intent>>, b: seq<seq<Intent>>)
    requires a <= b
    ensures Combinations(hash, a) <= Combinations(hash, b)
  {
  }

  lemma {:induction false} DrawnGrows<S>(draw: S -> (seq<Intent>, S), s: S, n: nat, m: nat)
    ensures Drawn(draw, s, n) <= Drawn(draw, s, n + m)
    decreases n
  {
    if n > 0 {
      DrawnGrows(draw, draw(s).1, n - 1, m);
    }
  }

  /** More cases never change the ones before. */
  lemma {:induction false} EagerGrows<S, Hash>(src: Source<S, Hash>, k: nat, m: nat)
    ensures src.Eager(k) <= src.Eager(k + m) && |src.Eager(k)| <= k
  {
    hide Enumerated, DeterministicPart, Combinations, Drawn;
    var ds := src.Deterministic();
    if k > |ds| {
      DrawnGrows(src.draw, src.seed, k - |ds|, m);
      CombinationsGrow(src.hash, Drawn(src.draw, src.seed, k - |ds|), Drawn(src.draw, src.seed, k + m - |ds|));
    } else if k + m <= |ds| {
      assert ds[..k + m][..k] == ds[..k];
      PartGrows(src.hash, ds[..k + m], k, src.integrity);
    } else {
      PartGrows(src.hash, ds, k, src.integrity);
    }
  }

  lemma JoinExactly<T>(first: seq<T>, all: seq<T>, k: nat)
    requires first <= all && |first| <= k
    ensures first + Drop(all, k) == all <==> |first| == k || all == first
  {
    assert |first| == k ==> all == first + all[k..];
  }

  /** Two windows in a row are the one long window exactly when nothing is drawn, when the first one ends
      inside the deterministic cases, when none of its draws is empty, or when all draws of the second
      one are: an empty draw shortens the first window for good. */
  lemma {:induction false} WindowsJoin<S(!new), Hash>(src: Source<S, Hash>, k: nat, m: nat)
    requires k + m <= U64_MAX
    ensures var d := |src.Deterministic()|;
            src.Window(0, k) + src.Window(k, m) == src.Window(0, k + m)
            <==> !src.streaming || k <= d
                 || NoneEmpty(src.draw, src.seed, k - d) || AllEmpty(src.draw, src.seed, k - d, k + m - d)
  {
    hide Source<S, Hash>.Eager, Source<S, Hash>.Window, Source<S, Hash>.Deterministic, NoneEmpty, AllEmpty;
    LazySkip(src, 0, k);
    LazySkip(src, k, m);
    LazySkip(src, 0, k + m);
    DropNothing(src.Eager(k));
    DropNothing(src.Eager(k + m));
    EagerGrows(src, k, m);
    JoinExactly(src.Eager(k), src.Eager(k + m), k);
    EagerCounts(src, k);
    EagerCounts(src, k + m);
    if src.streaming && k > |src.Deterministic()| {
      DrawnFull(src.draw, src.seed, k - |src.Deterministic()|);
      DrawnStays(src.draw, src.seed, k - |src.Deterministic()|, m);
    }
  }

  /** A campaign over a field of bytes and a one-byte scalar: the first draw selects the bytes alone and is
      empty, the later ones set the scalar. */
  function UnevenSource(): Source<int, seq<Intent>> {
    var bytes := FieldDef(Named("erofs.superblock.uuid"), Superblock, 48, 16, ByteString, Always);
    var scalar := FieldDef(Named("erofs.superblock.blkszbits"), Superblock, 12, 1, U8, Always);
    Source([bytes, scalar], [Target(SuperblockObject, bytes.id), Target(SuperblockObject, scalar.id)], Recalculate,
           true, n => (if n == 0 then [] else [SetValue(SuperblockObject, scalar.id, n % 256)], n + 1), 0,
           intents => intents)
  }

  lemma NoByteCases(schema: Schema, target: Target)
    requires FieldById(schema, target.field).Some? && FieldById(schema, target.field).value.encoding.ByteString?
    ensures TargetCases(schema, target) == []
  {
  }

  lemma UnevenCount()
    ensures |UnevenSource().Deterministic()| <= 12
  {
    hide WidthMax, Boundary, TargetCases;
    var src := UnevenSource();
    var scalar := src.schema[1];
    assert src.targets[1..] == [src.targets[1]] && src.targets[1..][1..] == [];
    assert FieldById(src.schema, src.targets[0].field) == Some(src.schema[0]);
    assert FieldById(src.schema, src.targets[1].field) == Some(scalar) by {
      assert Rest(src.schema)[0] == scalar;
    }
    assert |TargetCases(src.schema, src.targets[0])| == 0 by { NoByteCases(src.schema, src.targets[0]); }
    TargetEnumeration(src.schema, src.targets[1], scalar);
    BoundarySize(WidthMax(1));
  }

  /** Its windows do not join behind the first draw: the one case of the long window is in neither. */
  lemma WindowsPart()
    ensures var src := UnevenSource();
            var d := |src.Deterministic()|;
            d + 2 <= U64_MAX && src.Window(0, d + 1) + src.Window(d + 1, 1) != src.Window(0, d + 2)
  {
    var src := UnevenSource();
    var d := |src.Deterministic()|;
    UnevenCount();
    assert NthDraw(src.draw, src.seed, 0) == [];
    assert NthDraw(src.draw, src.seed, 1) != [] by {
      assert NthDraw(src.draw, 1, 0) != [];
    }
    hide Source<int, seq<Intent>>.Window, Source<int, seq<Intent>>.Deterministic, UnevenSource, NthDraw;
    WindowsJoin(src, d + 1, 1);
  }
}
