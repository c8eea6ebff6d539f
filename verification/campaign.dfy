/** Running a campaign: novelty, the oracle ladder, budgets and the accounting of reports. */
module Campaigns {
  import opened Results
  import opened Generator

  type Hash = string

  datatype Status =
    | Accepted | Rejected | Crashed | TimedOut | ResourceExhausted | Unsupported | HarnessError | Cancelled

  datatype Profile = RustFull | FsckFull | LinuxKasan

  datatype Funnel = Novelty | All | MaterializeOnly

  /** What one oracle run reports. */
  datatype Run = Run(status: Status, phase: string, signature: string)

  datatype Identity = Identity(profile: string, status: Status, phase: string, signature: string)

  function UntilColon(s: string): string {
    if s == "" || s[0] == ':' then "" else [s[0]] + UntilColon(s[1..])
  }

  function IdentityOf(run: Run): (r: Identity)
    ensures r.status == run.status
  {
    Identity(UntilColon(run.signature), run.status, run.phase, run.signature)
  }

  lemma {:induction false} UntilColonIs(s: string)
    ensures UntilColon(s) <= s && ':' !in UntilColon(s)
    ensures UntilColon(s) == s || s[|UntilColon(s)|] == ':'
  {
    if s != "" && s[0] != ':' {
      UntilColonIs(s[1..]);
      assert s == [s[0]] + s[1..];
    }
  }

  /** Two runs have one identity exactly when they report the same; its profile is the signature up to the
      first colon. */
  lemma IdentityIs(a: Run, b: Run)
    ensures IdentityOf(a) == IdentityOf(b) <==> a == b
    ensures var profile := IdentityOf(a).profile;
            && profile <= a.signature && ':' !in profile
            && (profile == a.signature || a.signature[|profile|] == ':')
  {
    UntilColonIs(a.signature);
  }

  datatype NoveltyIndex = NoveltyIndex(bytes: set<Hash>, plans: set<Hash>, results: set<Identity>)

  datatype CaseReport = CaseReport(
    caseId: string, sample: Option<Hash>, plan: Option<Hash>, duplicateBytes: bool, duplicatePlan: bool,
    planningError: bool, results: seq<Identity>, expectation: Expectation, mismatch: bool)
  {
    /** Every case ends in exactly one of three ways. */
    predicate Failed() {
      planningError && sample == None && !duplicateBytes && !duplicatePlan && results == []
    }

    predicate Duplicate() {
      !planningError && sample.Some? && duplicateBytes && results == []
    }

    predicate Materialized() {
      !planningError && sample.Some? && !duplicateBytes
    }
  }

  datatype NamedCase = NamedCase(id: string, expectation: Expectation)

  datatype Stop = Completed | StoppedCancelled | WallTime | OracleBudget

  datatype Report = Report(cases: seq<CaseReport>, materialized: nat, oracleRuns: nat, stopped: Stop)

  /** How publishing a sample ends. An I/O error ends the whole campaign without a report. */
  datatype Publishing = Published | Panicked | Failing

  /** Everything the loop cannot know: clock, operator, planning, publishing and the oracles. Each case
      asks for cancellation and time at numbered points. */
  datatype World = World(
    cancelled: (nat, nat) -> bool,
    late: (nat, nat) -> bool,
    planned: nat -> Option<(Hash, Hash)>,
    published: nat -> Publishing,
    run: (nat, Profile) -> Option<Run>)

  predicate Abnormal(status: Status) {
    status.Crashed? || status.TimedOut? || status.ResourceExhausted?
  }

  /** A fixed share of the rejected cases escalates as well. */
  predicate SeededRetention(caseId: string) {
    caseId != "" && caseId[0] as int % 8 == 0
  }

  function ExpectationMismatch(expectation: Expectation, results: seq<Identity>): bool {
    match expectation
    case Exploratory => false
    case ExpectAccepted => exists i :: 0 <= i < |results| && results[i].status != Accepted
    case ExpectRejected => exists i :: 0 <= i < |results| && results[i].status != Rejected
  }

  // ----- The ladder of one case -----

  const LADDER: seq<Profile> := [RustFull, FsckFull, LinuxKasan]

  /** The reader's verdict asks for a second opinion. */
  predicate FirstEscalates(funnel: Funnel, caseId: string, rust: Run, novel: bool) {
    !rust.status.Cancelled?
    && (funnel.All? || novel || Abnormal(rust.status) || (rust.status.Rejected? && SeededRetention(caseId)))
  }

  /** The two verdicts ask for a third. */
  predicate SecondEscalates(funnel: Funnel, rust: Run, fsck: Run, novel: bool) {
    !fsck.status.Cancelled?
    && (funnel.All? || novel || rust.status != fsck.status || Abnormal(fsck.status))
  }

  function Members(results: seq<Identity>): set<Identity> {
    set x | x in results
  }

  /** What the ladder did: the recorded results, the runs spent, the known identities, and whether the
      last run was cancelled. */
  datatype Climb = Climb(results: seq<Identity>, runs: nat, known: set<Identity>, cancelled: bool)

  /** One more run, recorded unless it was cancelled. */
  function Record(climb: Climb, run: Run): Climb {
    if run.status.Cancelled? then climb.(runs := climb.runs + 1, cancelled := true)
    else climb.(runs := climb.runs + 1, results := climb.results + [IdentityOf(run)],
                known := climb.known + {IdentityOf(run)})
  }

  predicate IsNovel(climb: Climb, run: Run) {
    !run.status.Cancelled? && IdentityOf(run) !in climb.known
  }

  /** The results are what the oracles said, level by level. */
  ghost predicate Ladder(world: World, i: nat, results: seq<Identity>) {
    && |results| <= 3
    && forall j :: 0 <= j < |results| ==>
         world.run(i, LADDER[j]).Some? && results[j] == IdentityOf(world.run(i, LADDER[j]).value)
         && !results[j].status.Cancelled?
  }

  /** Every run is on record, in ladder order, except a cancelled last one. */
  ghost predicate Honest(world: World, i: nat, before: nat, known: set<Identity>, c: Climb) {
    && before <= c.runs && Ladder(world, i, c.results)
    && c.runs - before == |c.results| + (if c.cancelled then 1 else 0)
    && c.known == known + Members(c.results)
  }

  /** Which oracles were asked, by statuses and index: the reader first, if oracles run at all; `fsck` unless
      the reader was cancelled, or gave a known verdict that is not abnormal and not a retained rejection;
      the kernel unless `fsck` was cancelled, or gave a known verdict that is the reader's and not abnormal.
      `All` asks in any of these cases. Budget and time must be left each time. */
  ghost predicate Escalation(
      world: World, i: nat, caseId: string, funnel: Funnel, maxRuns: nat, before: nat, known: set<Identity>, spent: nat)
  {
    var rust, fsck := world.run(i, RustFull), world.run(i, FsckFull);
    && spent <= 3
    && (spent > 0 <==> !funnel.MaterializeOnly? && before < maxRuns && !world.late(i, 1))
    && (spent > 0 ==>
          && rust.Some?
          && (spent > 1 <==>
                && !rust.value.status.Cancelled? && before + 1 < maxRuns && !world.late(i, 2)
                && (|| funnel.All? || IdentityOf(rust.value) !in known
                    || rust.value.status in {Crashed, TimedOut, ResourceExhausted}
                    || (rust.value.status == Rejected && caseId != "" && caseId[0] as int % 8 == 0))))
    && (spent > 1 ==>
          && fsck.Some?
          && (spent > 2 <==>
                && !fsck.value.status.Cancelled? && before + 2 < maxRuns && !world.late(i, 3)
                && (|| funnel.All? || IdentityOf(fsck.value) !in known + {IdentityOf(rust.value)}
                    || fsck.value.status != rust.value.status
                    || fsck.value.status in {Crashed, TimedOut, ResourceExhausted})))
  }

  lemma MembersSnoc(results: seq<Identity>, id: Identity)
    ensures Members(results + [id]) == Members(results) + {id}
  {
  }

  lemma RecordHonest(world: World, i: nat, before: nat, known: set<Identity>, c: Climb, run: Run)
    requires Honest(world, i, before, known, c) && !c.cancelled && |c.results| < 3
    requires world.run(i, LADDER[|c.results|]) == Some(run)
    ensures Honest(world, i, before, known, Record(c, run))
  {
    hide IdentityOf;
    var id := IdentityOf(run);
    MembersSnoc(c.results, id);
    assert forall j :: 0 <= j < |c.results| ==> (c.results + [id])[j] == c.results[j];
    assert (c.results + [id])[|c.results|] == id;
  }

  lemma NothingRun(world: World, i: nat, runs: nat, known: set<Identity>)
    ensures Honest(world, i, runs, known, Climb([], runs, known, false))
  {
  }

  /** The reader's verdict, on statuses. */
  lemma FirstAsks(funnel: Funnel, caseId: string, rust: Run, novel: bool)
    ensures FirstEscalates(funnel, caseId, rust, novel) <==>
      && !rust.status.Cancelled?
      && (|| funnel.All? || novel || rust.status in {Crashed, TimedOut, ResourceExhausted}
          || (rust.status == Rejected && caseId != "" && caseId[0] as int % 8 == 0))
  {
  }

  /** The two verdicts, on statuses. */
  lemma SecondAsks(funnel: Funnel, rust: Run, fsck: Run, novel: bool)
    ensures SecondEscalates(funnel, rust, fsck, novel) <==>
      && !fsck.status.Cancelled?
      && (|| funnel.All? || novel || fsck.status != rust.status
          || fsck.status in {Crashed, TimedOut, ResourceExhausted})
  {
  }

  /** Runs the oracles for one materialized case. */
  method RunLadder(world: World, i: nat, caseId: string, funnel: Funnel, maxRuns: nat, runs: nat, known: set<Identity>)
    returns (r: Option<Climb>)
    requires funnel.MaterializeOnly? || runs <= maxRuns
    ensures r.Some? ==> Honest(world, i, runs, known, r.value)
    ensures r.Some? ==> r.value.runs <= (if funnel.MaterializeOnly? then runs else maxRuns)
    ensures r.Some? ==> Escalation(world, i, caseId, funnel, maxRuns, runs, known, r.value.runs - runs)
  {
    hide IdentityOf, Honest, FirstEscalates, SecondEscalates;
    var climb := Climb([], runs, known, false);
    assert Honest(world, i, runs, known, climb) by {
      NothingRun(world, i, runs, known);
    }
    if funnel.MaterializeOnly? || runs >= maxRuns || world.late(i, 1) {
      return Some(climb);
    }
    var rust := world.run(i, RustFull);
    if rust.None? {
      return None;
    }
    var novel := IsNovel(climb, rust.value);
    RecordHonest(world, i, runs, known, climb, rust.value);
    climb := Record(climb, rust.value);
    FirstAsks(funnel, caseId, rust.value, novel);
    if FirstEscalates(funnel, caseId, rust.value, novel) && climb.runs < maxRuns && !world.late(i, 2) {
      var fsck := world.run(i, FsckFull);
      if fsck.None? {
        return None;
      }
      var fsckNovel := IsNovel(climb, fsck.value);
      RecordHonest(world, i, runs, known, climb, fsck.value);
      climb := Record(climb, fsck.value);
      SecondAsks(funnel, rust.value, fsck.value, fsckNovel);
      if SecondEscalates(funnel, rust.value, fsck.value, fsckNovel) && climb.runs < maxRuns && !world.late(i, 3) {
        var linux := world.run(i, LinuxKasan);
        if linux.None? {
          return None;
        }
        RecordHonest(world, i, runs, known, climb, linux.value);
        climb := Record(climb, linux.value);
      }
    }
    r := Some(climb);
  }

  // ----- The whole run -----

  /** Output hashes of the first `n` cases that could be planned. */
  ghost function Outputs(world: World, n: nat): set<Hash> {
    set k | 0 <= k < n && world.planned(k).Some? :: world.planned(k).value.1
  }

  ghost function Plans(world: World, n: nat): set<Hash> {
    set k | 0 <= k < n && world.planned(k).Some? :: world.planned(k).value.0
  }

  function MaterializedCount(reports: seq<CaseReport>): nat {
    if reports == [] then 0
    else MaterializedCount(reports[..|reports| - 1]) + (if reports[|reports| - 1].Materialized() then 1 else 0)
  }

  function ResultCount(reports: seq<CaseReport>): nat {
    if reports == [] then 0 else ResultCount(reports[..|reports| - 1]) + |reports[|reports| - 1].results|
  }

  /** The verdict is not the expected one. */
  predicate Against(expectation: Expectation, status: Status) {
    (expectation == ExpectAccepted && status != Accepted) || (expectation == ExpectRejected && status != Rejected)
  }

  lemma MismatchIs(expectation: Expectation, results: seq<Identity>)
    ensures ExpectationMismatch(expectation, results)
            <==> exists k :: 0 <= k < |results| && Against(expectation, results[k].status)
  {
  }

  /** The report of case `j` is about that case, and of one of the three kinds. It is a duplicate of
      bytes (of a plan) exactly when they are in the novelty index or an earlier case produced them; it is
      a mismatch exactly when some verdict is not the expected one; it is a failure exactly when planning
      failed or publishing a new sample panicked; its results are those of the oracles, in ladder order. */
  ghost predicate Accounted(world: World, cases: seq<NamedCase>, start: NoveltyIndex, j: nat, report: CaseReport)
    requires j < |cases|
  {
    && report.caseId == cases[j].id && report.expectation == cases[j].expectation
    && (report.Failed() || report.Duplicate() || report.Materialized())
    && (report.mismatch <==>
          exists k :: 0 <= k < |report.results| && Against(report.expectation, report.results[k].status))
    && (report.sample.Some? ==>
          && report.plan.Some? && world.planned(j) == Some((report.plan.value, report.sample.value))
          && (report.duplicateBytes <==> report.sample.value in start.bytes + Outputs(world, j))
          && (report.duplicatePlan <==> report.plan.value in start.plans + Plans(world, j)))
    && (report.Failed() <==>
          world.planned(j).None?
          || (world.planned(j).value.1 !in start.bytes + Outputs(world, j) && world.published(j).Panicked?))
    && Ladder(world, j, report.results)
  }

  ghost predicate AllAccounted(world: World, cases: seq<NamedCase>, start: NoveltyIndex, reports: seq<CaseReport>) {
    && |reports| <= |cases|
    && forall j :: 0 <= j < |reports| ==> Accounted(world, cases, start, j, reports[j])
  }

  function FailedReport(c: NamedCase): CaseReport {
    CaseReport(c.id, None, None, false, false, true, [], c.expectation, false)
  }

  lemma NoMismatch(expectation: Expectation)
    ensures !ExpectationMismatch(expectation, [])
  {
  }

  lemma NoResults(world: World, i: nat)
    ensures Ladder(world, i, [])
  {
  }

  lemma NothingYet(world: World)
    ensures MaterializedCount([]) == 0 && ResultCount([]) == 0
    ensures Outputs(world, 0) == {} && Plans(world, 0) == {}
  {
  }

  lemma MoreOutputs(world: World, i: nat)
    ensures Outputs(world, i + 1)
            == Outputs(world, i) + (if world.planned(i).Some? then {world.planned(i).value.1} else {})
    ensures Plans(world, i + 1)
            == Plans(world, i) + (if world.planned(i).Some? then {world.planned(i).value.0} else {})
  {
  }

  lemma AccountFailed(world: World, cases: seq<NamedCase>, start: NoveltyIndex, i: nat, report: CaseReport)
    requires i < |cases| && report == FailedReport(cases[i])
    requires world.planned(i).None?
             || (world.planned(i).value.1 !in start.bytes + Outputs(world, i) && world.published(i).Panicked?)
    ensures Accounted(world, cases, start, i, report)
  {
  }

  lemma AccountPlanned(world: World, cases: seq<NamedCase>, start: NoveltyIndex, i: nat, report: CaseReport)
    requires i < |cases| && report.caseId == cases[i].id && report.expectation == cases[i].expectation
    requires report.Duplicate() || report.Materialized()
    requires report.plan.Some? && world.planned(i) == Some((report.plan.value, report.sample.value))
    requires report.duplicateBytes <==> report.sample.value in start.bytes + Outputs(world, i)
    requires report.duplicatePlan <==> report.plan.value in start.plans + Plans(world, i)
    requires report.mismatch == ExpectationMismatch(report.expectation, report.results)
    requires report.Materialized() ==> !world.published(i).Panicked?
    requires Ladder(world, i, report.results)
    ensures Accounted(world, cases, start, i, report)
  {
    hide ExpectationMismatch;
    MismatchIs(report.expectation, report.results);
  }

  lemma Counted(reports: seq<CaseReport>, report: CaseReport)
    ensures MaterializedCount(reports + [report])
            == MaterializedCount(reports) + (if report.Materialized() then 1 else 0)
    ensures ResultCount(reports + [report]) == ResultCount(reports) + |report.results|
  {
    assert (reports + [report])[..|reports + [report]| - 1] == reports;
  }

  lemma ClimbCounts(world: World, i: nat, before: nat, known: set<Identity>, c: Climb)
    requires Honest(world, i, before, known, c)
    ensures c.runs == before + |c.results| + (if c.cancelled then 1 else 0)
    ensures c.known == known + Members(c.results)
    ensures Ladder(world, i, c.results)
  {
  }

  /** The identities known after some reports: those of the index and all recorded ones. */
  ghost function KnownAfter(start: NoveltyIndex, reports: seq<CaseReport>): set<Identity> {
    start.results + set k, x | 0 <= k < |reports| && x in reports[k].results :: x
  }

  /** The ladder of case `j` went as its rules say, from what was known and spent before it. */
  ghost predicate Climbed(
      world: World, funnel: Funnel, maxRuns: nat, start: NoveltyIndex, reports: seq<CaseReport>, j: nat, spent: nat)
    requires j < |reports|
  {
    if reports[j].Materialized() then
      Escalation(world, j, reports[j].caseId, funnel, maxRuns, ResultCount(reports[..j]),
                 KnownAfter(start, reports[..j]), spent)
    else spent == 0
  }

  /** Why the campaign stops behind a materialized case, if it does. */
  ghost function StopAfter(world: World, funnel: Funnel, maxRuns: nat, j: nat, runs: nat, killed: bool): Option<Stop> {
    if killed || world.cancelled(j, 4) then Some(StoppedCancelled)
    else if world.late(j, 4) then Some(WallTime)
    else if runs >= maxRuns && !funnel.MaterializeOnly? then Some(OracleBudget)
    else None
  }

  /** Case `j` was begun, judged by its ladder, and did not stop the campaign. */
  ghost predicate Passed(
      world: World, funnel: Funnel, maxRuns: nat, start: NoveltyIndex, reports: seq<CaseReport>, j: nat)
    requires j < |reports|
  {
    && !world.cancelled(j, 0) && !world.late(j, 0)
    && Climbed(world, funnel, maxRuns, start, reports, j, |reports[j].results|)
    && (reports[j].Materialized() ==>
          StopAfter(world, funnel, maxRuns, j, ResultCount(reports[..j + 1]), false) == None)
  }

  ghost predicate AllPassed(
      world: World, funnel: Funnel, maxRuns: nat, start: NoveltyIndex, reports: seq<CaseReport>)
  {
    forall j :: 0 <= j < |reports| ==> Passed(world, funnel, maxRuns, start, reports, j)
  }

  /** The last reported case was begun and judged, one unrecorded run included, and stopped the campaign. */
  ghost predicate StoppedBehind(world: World, funnel: Funnel, maxRuns: nat, start: NoveltyIndex, r: Report) {
    && |r.cases| > 0
    && var last := |r.cases| - 1;
       var recorded := ResultCount(r.cases);
       && AllPassed(world, funnel, maxRuns, start, r.cases[..last]) && r.cases[last].Materialized()
       && !world.cancelled(last, 0) && !world.late(last, 0) && r.oracleRuns >= recorded
       && Climbed(world, funnel, maxRuns, start, r.cases, last, |r.cases[last].results| + r.oracleRuns - recorded)
       && StopAfter(world, funnel, maxRuns, last, r.oracleRuns, r.oracleRuns > recorded) == Some(r.stopped)
  }

  /** Or no reported case did: all are reported, or the next one was not begun. */
  ghost predicate StoppedBefore(
      world: World, cases: seq<NamedCase>, funnel: Funnel, maxRuns: nat, start: NoveltyIndex, r: Report)
  {
    var n := |r.cases|;
    && AllPassed(world, funnel, maxRuns, start, r.cases) && r.oracleRuns == ResultCount(r.cases)
    && if n >= |cases| then r.stopped == Completed
       else if world.cancelled(n, 0) then r.stopped == StoppedCancelled
       else world.late(n, 0) && r.stopped == WallTime
  }

  lemma KnownSnoc(start: NoveltyIndex, reports: seq<CaseReport>, report: CaseReport)
    ensures KnownAfter(start, reports + [report]) == KnownAfter(start, reports) + Members(report.results)
  {
    var all := reports + [report];
    assert all[|reports|] == report && forall k :: 0 <= k < |reports| ==> all[k] == reports[k];
  }

  lemma PassedStays(
      world: World, funnel: Funnel, maxRuns: nat, start: NoveltyIndex, reports: seq<CaseReport>, report: CaseReport)
    requires AllPassed(world, funnel, maxRuns, start, reports)
    ensures forall j :: 0 <= j < |reports| ==> Passed(world, funnel, maxRuns, start, reports + [report], j)
  {
    hide Escalation, ResultCount, KnownAfter, StopAfter;
    var all := reports + [report];
    forall j | 0 <= j < |reports| ensures Passed(world, funnel, maxRuns, start, all, j) {
      assert all[j] == reports[j] && all[..j] == reports[..j] && all[..j + 1] == reports[..j + 1];
      assert Passed(world, funnel, maxRuns, start, reports, j);
    }
  }

  /** A case that was not materialized passes. */
  lemma PassesOver(
      world: World, funnel: Funnel, maxRuns: nat, start: NoveltyIndex, reports: seq<CaseReport>, report: CaseReport)
    requires AllPassed(world, funnel, maxRuns, start, reports)
    requires !report.Materialized() && report.results == []
    requires !world.cancelled(|reports|, 0) && !world.late(|reports|, 0)
    ensures AllPassed(world, funnel, maxRuns, start, reports + [report])
    ensures KnownAfter(start, reports + [report]) == KnownAfter(start, reports)
  {
    PassedStays(world, funnel, maxRuns, start, reports, report);
    KnownSnoc(start, reports, report);
    hide KnownAfter, ResultCount;
  }

  lemma PassedLast(world: World, funnel: Funnel, maxRuns: nat, start: NoveltyIndex, all: seq<CaseReport>)
    requires |all| > 0 && Passed(world, funnel, maxRuns, start, all, |all| - 1)
    requires forall j :: 0 <= j < |all| - 1 ==> Passed(world, funnel, maxRuns, start, all, j)
    ensures AllPassed(world, funnel, maxRuns, start, all)
  {
    hide Passed;
  }

  /** The ladder of the case behind `reports`. */
  lemma ClimbedLast(
      world: World, funnel: Funnel, maxRuns: nat, start: NoveltyIndex, reports: seq<CaseReport>, report: CaseReport,
      spent: nat)
    requires report.Materialized()
    requires Escalation(world, |reports|, report.caseId, funnel, maxRuns, ResultCount(reports),
                        KnownAfter(start, reports), spent)
    ensures Climbed(world, funnel, maxRuns, start, reports + [report], |reports|, spent)
  {
    hide KnownAfter, ResultCount, Escalation;
    assert (reports + [report])[..|reports|] == reports;
  }

  lemma PassesHere(
      world: World, funnel: Funnel, maxRuns: nat, start: NoveltyIndex, reports: seq<CaseReport>, report: CaseReport)
    requires AllPassed(world, funnel, maxRuns, start, reports)
    requires !world.cancelled(|reports|, 0) && !world.late(|reports|, 0)
    requires Climbed(world, funnel, maxRuns, start, reports + [report], |reports|, |report.results|)
    requires StopAfter(world, funnel, maxRuns, |reports|, ResultCount(reports + [report]), false) == None
    ensures AllPassed(world, funnel, maxRuns, start, reports + [report])
  {
    PassedStays(world, funnel, maxRuns, start, reports, report);
    hide Climbed, ResultCount, StopAfter, AllPassed;
    var all := reports + [report];
    assert all[..|reports| + 1] == all;
    assert Passed(world, funnel, maxRuns, start, all, |reports|);
    PassedLast(world, funnel, maxRuns, start, all);
  }

  lemma StopsHere(
      world: World, funnel: Funnel, maxRuns: nat, start: NoveltyIndex, reports: seq<CaseReport>, report: CaseReport,
      spent: nat, r: Report)
    requires r.cases == reports + [report] && report.Materialized()
    requires AllPassed(world, funnel, maxRuns, start, reports)
    requires !world.cancelled(|reports|, 0) && !world.late(|reports|, 0)
    requires Climbed(world, funnel, maxRuns, start, r.cases, |reports|, spent)
    requires spent >= |report.results| && ResultCount(r.cases) + (spent - |report.results|) == r.oracleRuns
    requires StopAfter(world, funnel, maxRuns, |reports|, r.oracleRuns, spent > |report.results|) == Some(r.stopped)
    ensures StoppedBehind(world, funnel, maxRuns, start, r)
  {
    hide AllPassed, Climbed, ResultCount, StopAfter;
    assert r.cases[..|reports|] == reports;
  }

  /** A materialized case passes unless there is a reason to stop. */
  lemma PassesOn(
      world: World, funnel: Funnel, maxRuns: nat, start: NoveltyIndex, reports: seq<CaseReport>, report: CaseReport,
      spent: nat)
    requires AllPassed(world, funnel, maxRuns, start, reports) && report.Materialized()
    requires !world.cancelled(|reports|, 0) && !world.late(|reports|, 0)
    requires Escalation(world, |reports|, report.caseId, funnel, maxRuns, ResultCount(reports),
                        KnownAfter(start, reports), spent)
    requires |report.results| <= spent <= |report.results| + 1
    ensures var all, runs, killed := reports + [report], ResultCount(reports) + spent, spent > |report.results|;
            match StopAfter(world, funnel, maxRuns, |reports|, runs, killed)
            case None => AllPassed(world, funnel, maxRuns, start, all)
            case Some(reason) =>
              StoppedBehind(world, funnel, maxRuns, start, Report(all, MaterializedCount(all), runs, reason))
    ensures KnownAfter(start, reports + [report]) == KnownAfter(start, reports) + Members(report.results)
  {
    hide KnownAfter, ResultCount, Escalation, MaterializedCount, Climbed, AllPassed, StoppedBehind;
    KnownSnoc(start, reports, report);
    Counted(reports, report);
    ClimbedLast(world, funnel, maxRuns, start, reports, report, spent);
    var all, runs, killed := reports + [report], ResultCount(reports) + spent, spent > |report.results|;
    var reason := StopAfter(world, funnel, maxRuns, |reports|, runs, killed);
    if reason.Some? {
      hide StopAfter;
      StopsHere(world, funnel, maxRuns, start, reports, report, spent,
                Report(all, MaterializedCount(all), runs, reason.value));
    } else {
      PassesHere(world, funnel, maxRuns, start, reports, report);
    }
  }

  lemma NothingPassed(world: World, funnel: Funnel, maxRuns: nat, start: NoveltyIndex)
    ensures AllPassed(world, funnel, maxRuns, start, []) && KnownAfter(start, []) == start.results
  {
  }

  lemma NothingAccounted(world: World, cases: seq<NamedCase>, start: NoveltyIndex)
    ensures AllAccounted(world, cases, start, [])
  {
  }

  lemma AccountedNext(
      world: World, cases: seq<NamedCase>, start: NoveltyIndex, reports: seq<CaseReport>, report: CaseReport)
    requires AllAccounted(world, cases, start, reports) && |reports| < |cases|
    requires Accounted(world, cases, start, |reports|, report)
    ensures AllAccounted(world, cases, start, reports + [report])
  {
    hide Accounted;
  }

  /** Plans, publishes and judges one case after the other until something stops the run. */
  method RunCampaign(
      cases: seq<NamedCase>, world: World, funnel: Funnel, maxRuns: nat, start: NoveltyIndex)
    returns (r: Option<Report>, novelty: NoveltyIndex)
    ensures r.Some? ==> AllAccounted(world, cases, start, r.value.cases)
    ensures r.Some? ==> r.value.materialized == MaterializedCount(r.value.cases)
    ensures r.Some? ==> r.value.oracleRuns <= (if funnel.MaterializeOnly? then 0 else maxRuns)
    ensures r.Some? ==>
      r.value.oracleRuns == ResultCount(r.value.cases)
      || (r.value.oracleRuns == ResultCount(r.value.cases) + 1 && r.value.stopped == StoppedCancelled)
    ensures r.Some? ==>
      || StoppedBefore(world, cases, funnel, maxRuns, start, r.value)
      || StoppedBehind(world, funnel, maxRuns, start, r.value)
    ensures r.Some? ==>
      && novelty.bytes == start.bytes + Outputs(world, |r.value.cases|)
      && novelty.plans == start.plans + Plans(world, |r.value.cases|)
      && novelty.results == KnownAfter(start, r.value.cases)
  {
    hide Accounted, MaterializedCount, ResultCount, Outputs, Plans, Honest, ExpectationMismatch, Ladder;
    hide AllPassed, StoppedBehind, Escalation, KnownAfter, AllAccounted;
    NothingAccounted(world, cases, start);
    novelty := start;
    var reports: seq<CaseReport> := [];
    var materialized, oracleRuns := 0, 0;
    var stopped := Completed;
    NothingYet(world);
    NothingPassed(world, funnel, maxRuns, start);
    for i := 0 to |cases|
      invariant |reports| == i && AllAccounted(world, cases, start, reports)
      invariant AllPassed(world, funnel, maxRuns, start, reports)
      invariant materialized == MaterializedCount(reports)
      invariant oracleRuns <= (if funnel.MaterializeOnly? then 0 else maxRuns)
      invariant oracleRuns == ResultCount(reports) && stopped == Completed
      invariant novelty.bytes == start.bytes + Outputs(world, i)
      invariant novelty.plans == start.plans + Plans(world, i)
      invariant novelty.results == KnownAfter(start, reports)
    {
      if world.cancelled(i, 0) {
        return Some(Report(reports, materialized, oracleRuns, StoppedCancelled)), novelty;
      }
      if world.late(i, 0) {
        return Some(Report(reports, materialized, oracleRuns, WallTime)), novelty;
      }
      var planned := world.planned(i);
      MoreOutputs(world, i);
      if planned.None? {
        var report := FailedReport(cases[i]);
        AccountFailed(world, cases, start, i, report);
        AccountedNext(world, cases, start, reports, report);
        Counted(reports, report);
        PassesOver(world, funnel, maxRuns, start, reports, report);
        reports := reports + [report];
        continue;
      }
      var (plan, output) := planned.value;
      var duplicatePlan := plan in novelty.plans;
      var duplicateBytes := output in novelty.bytes;
      novelty := novelty.(plans := novelty.plans + {plan}, bytes := novelty.bytes + {output});
      if duplicateBytes {
        var report := CaseReport(cases[i].id, Some(output), Some(plan), true, duplicatePlan, false, [],
                                 cases[i].expectation, false);
        NoMismatch(cases[i].expectation);
        NoResults(world, i);
        AccountPlanned(world, cases, start, i, report);
        AccountedNext(world, cases, start, reports, report);
        Counted(reports, report);
        PassesOver(world, funnel, maxRuns, start, reports, report);
        reports := reports + [report];
        continue;
      }
      if world.published(i).Failing? {
        return None, novelty;
      }
      if world.published(i).Panicked? {
        var report := FailedReport(cases[i]);
        AccountFailed(world, cases, start, i, report);
        AccountedNext(world, cases, start, reports, report);
        Counted(reports, report);
        PassesOver(world, funnel, maxRuns, start, reports, report);
        reports := reports + [report];
        continue;
      }
      materialized := materialized + 1;
      var climb := RunLadder(world, i, cases[i].id, funnel, maxRuns, oracleRuns, novelty.results);
      if climb.None? {
        return None, novelty;
      }
      ClimbCounts(world, i, oracleRuns, novelty.results, climb.value);
      ghost var spent := climb.value.runs - oracleRuns;
      oracleRuns := climb.value.runs;
      novelty := novelty.(results := climb.value.known);
      var mismatch := ExpectationMismatch(cases[i].expectation, climb.value.results);
      var report := CaseReport(cases[i].id, Some(output), Some(plan), false, duplicatePlan, false,
                               climb.value.results, cases[i].expectation, mismatch);
      AccountPlanned(world, cases, start, i, report);
      AccountedNext(world, cases, start, reports, report);
      Counted(reports, report);
      PassesOn(world, funnel, maxRuns, start, reports, report, spent);
      reports := reports + [report];
      if climb.value.cancelled || world.cancelled(i, 4) {
        return Some(Report(reports, materialized, oracleRuns, StoppedCancelled)), novelty;
      }
      if world.late(i, 4) {
        return Some(Report(reports, materialized, oracleRuns, WallTime)), novelty;
      }
      if oracleRuns >= maxRuns && !funnel.MaterializeOnly? {
        return Some(Report(reports, materialized, oracleRuns, OracleBudget)), novelty;
      }
    }
    r := Some(Report(reports, materialized, oracleRuns, stopped));
  }

  // ----- What the accounting says -----

  /** A materialized sample is new: not in the starting index, and not materialized before. */
  lemma MaterializedAreNew(
      world: World, cases: seq<NamedCase>, start: NoveltyIndex, reports: seq<CaseReport>, i: nat, j: nat)
    requires AllAccounted(world, cases, start, reports) && j < |reports| && reports[j].Materialized()
    ensures reports[j].sample.value !in start.bytes
    ensures i < j && reports[i].sample.Some? ==> reports[i].sample != reports[j].sample
  {
    assert Accounted(world, cases, start, j, reports[j]);
    if i < j && reports[i].sample.Some? {
      assert Accounted(world, cases, start, i, reports[i]);
      assert reports[i].sample.value in Outputs(world, j);
    }
  }

  /** How many results of each kind. A cancelled run is none of them. */
  datatype Verdicts = Verdicts(
    accepted: nat, rejected: nat, crashes: nat, timeouts: nat, exhausted: nat, unsupported: nat, harnessErrors: nat)
  {
    function Sum(): nat {
      accepted + rejected + crashes + timeouts + exhausted + unsupported + harnessErrors
    }

    function Abnormal(): nat {
      crashes + timeouts + exhausted + harnessErrors
    }

    function And(status: Status): Verdicts {
      match status
      case Accepted => this.(accepted := accepted + 1)
      case Rejected => this.(rejected := rejected + 1)
      case Crashed => this.(crashes := crashes + 1)
      case TimedOut => this.(timeouts := timeouts + 1)
      case ResourceExhausted => this.(exhausted := exhausted + 1)
      case Unsupported => this.(unsupported := unsupported + 1)
      case HarnessError => this.(harnessErrors := harnessErrors + 1)
      case Cancelled => this
    }

    function AndAll(results: seq<Identity>): Verdicts {
      if results == [] then this else AndAll(results[..|results| - 1]).And(results[|results| - 1].status)
    }
  }

  function One(b: bool): nat {
    if b then 1 else 0
  }

  /** The aggregated counts of a report. */
  datatype Summary = Summary(
    completed: nat, materialized: nat, duplicateBytes: nat, duplicatePlans: nat, planningErrors: nat,
    verdicts: Verdicts, expectedAccepted: nat, expectedRejected: nat, mismatches: nat)
  {
    function And(report: CaseReport): Summary {
      Summary(
        completed + 1,
        materialized + One(report.sample.Some? && !report.duplicateBytes),
        duplicateBytes + One(report.duplicateBytes),
        duplicatePlans + One(report.duplicatePlan),
        planningErrors + One(report.planningError),
        verdicts.AndAll(report.results),
        expectedAccepted + One(report.expectation.ExpectAccepted?),
        expectedRejected + One(report.expectation.ExpectRejected?),
        mismatches + One(report.mismatch))
    }
  }

  const NOTHING: Summary := Summary(0, 0, 0, 0, 0, Verdicts(0, 0, 0, 0, 0, 0, 0), 0, 0, 0)

  function SummaryOf(reports: seq<CaseReport>): Summary {
    if reports == [] then NOTHING else SummaryOf(reports[..|reports| - 1]).And(reports[|reports| - 1])
  }

  /** The summary loop over a finished report. */
  method FromReport(reports: seq<CaseReport>) returns (summary: Summary)
    ensures summary == SummaryOf(reports)
  {
    summary := NOTHING;
    for i := 0 to |reports|
      invariant summary == SummaryOf(reports[..i])
    {
      assert reports[..i + 1][..i] == reports[..i];
      var verdicts := summary.verdicts;
      var results := reports[i].results;
      for j := 0 to |results|
        invariant verdicts == summary.verdicts.AndAll(results[..j])
      {
        assert results[..j + 1][..j] == results[..j];
        verdicts := verdicts.And(results[j].status);
      }
      assert results[..|results|] == results;
      summary := summary.And(reports[i]).(verdicts := verdicts);
    }
    assert reports[..|reports|] == reports;
  }

  lemma {:induction false} VerdictsSum(verdicts: Verdicts, results: seq<Identity>)
    requires forall j :: 0 <= j < |results| ==> !results[j].status.Cancelled?
    ensures verdicts.AndAll(results).Sum() == verdicts.Sum() + |results|
  {
    if results != [] {
      VerdictsSum(verdicts, results[..|results| - 1]);
    }
  }

  /** Recomputed from the report alone, the summary has the loop's own counter of materialized samples;
      every case is in exactly one of three classes, and every recorded result in exactly one of seven. */
  lemma {:induction false} SummaryAgrees(
      world: World, cases: seq<NamedCase>, start: NoveltyIndex, reports: seq<CaseReport>)
    requires AllAccounted(world, cases, start, reports)
    ensures var s := SummaryOf(reports);
            && s.completed == |reports| && s.materialized == MaterializedCount(reports)
            && s.completed == s.planningErrors + s.duplicateBytes + s.materialized
            && s.verdicts.Sum() == ResultCount(reports)
  {
    if reports != [] {
      hide Outputs, Plans, ExpectationMismatch;
      var front, last := reports[..|reports| - 1], reports[|reports| - 1];
      assert AllAccounted(world, cases, start, front);
      SummaryAgrees(world, cases, start, front);
      assert Accounted(world, cases, start, |reports| - 1, last);
      VerdictsSum(SummaryOf(front).verdicts, last.results);
    }
  }

  // ----- What the summary counts -----

  function Statuses(results: seq<Identity>): (r: seq<Status>)
    ensures |r| == |results|
  {
    seq(|results|, i requires 0 <= i < |results| => results[i].status)
  }

  /** The statuses of all recorded results, in order. */
  function AllStatuses(reports: seq<CaseReport>): seq<Status> {
    if reports == [] then []
    else AllStatuses(reports[..|reports| - 1]) + Statuses(reports[|reports| - 1].results)
  }

  /** How often each status occurs is what is counted for it. */
  ghost predicate Tallied(verdicts: Verdicts, statuses: multiset<Status>) {
    && verdicts.accepted == statuses[Accepted] && verdicts.rejected == statuses[Rejected]
    && verdicts.crashes == statuses[Crashed] && verdicts.timeouts == statuses[TimedOut]
    && verdicts.exhausted == statuses[ResourceExhausted] && verdicts.unsupported == statuses[Unsupported]
    && verdicts.harnessErrors == statuses[HarnessError]
  }

  lemma TalliedAnd(verdicts: Verdicts, statuses: multiset<Status>, status: Status)
    requires Tallied(verdicts, statuses)
    ensures Tallied(verdicts.And(status), statuses + multiset{status})
  {
  }

  lemma {:induction false} TalliedAll(verdicts: Verdicts, statuses: multiset<Status>, results: seq<Identity>)
    requires Tallied(verdicts, statuses)
    ensures Tallied(verdicts.AndAll(results), statuses + multiset(Statuses(results)))
  {
    hide Verdicts.And, Tallied;
    if results == [] {
      assert statuses + multiset(Statuses(results)) == statuses;
    } else {
      var front, last := results[..|results| - 1], results[|results| - 1];
      TalliedAll(verdicts, statuses, front);
      TalliedAnd(verdicts.AndAll(front), statuses + multiset(Statuses(front)), last.status);
      assert Statuses(results) == Statuses(front) + [last.status];
      assert statuses + multiset(Statuses(results)) == statuses + multiset(Statuses(front)) + multiset{last.status};
    }
  }

  /** Each verdict counter is the number of recorded results of its status. */
  lemma {:induction false} VerdictsCounted(reports: seq<CaseReport>)
    ensures Tallied(SummaryOf(reports).verdicts, multiset(AllStatuses(reports)))
  {
    if reports != [] {
      hide Tallied, Verdicts.AndAll;
      var front, last := reports[..|reports| - 1], reports[|reports| - 1];
      VerdictsCounted(front);
      TalliedAll(SummaryOf(front).verdicts, multiset(AllStatuses(front)), last.results);
      assert multiset(AllStatuses(reports)) == multiset(AllStatuses(front)) + multiset(Statuses(last.results));
    }
  }

  /** The abnormal ones are the crashed, timed-out, exhausted and failed ones. */
  lemma AbnormalCounted(reports: seq<CaseReport>)
    ensures var statuses := multiset(AllStatuses(reports));
            SummaryOf(reports).verdicts.Abnormal()
            == statuses[Crashed] + statuses[TimedOut] + statuses[ResourceExhausted] + statuses[HarnessError]
  {
    hide AllStatuses, SummaryOf;
    VerdictsCounted(reports);
  }

  /** How many reports there are with a property. */
  ghost function Those(reports: seq<CaseReport>, property: CaseReport -> bool): nat {
    |set i | 0 <= i < |reports| && property(reports[i])|
  }

  lemma ThoseSnoc(reports: seq<CaseReport>, property: CaseReport -> bool)
    requires reports != []
    ensures var last := |reports| - 1;
            Those(reports, property) == Those(reports[..last], property) + One(property(reports[last]))
  {
    var last := |reports| - 1;
    var before := set i | 0 <= i < last && property(reports[..last][i]);
    var now := set i | 0 <= i < |reports| && property(reports[i]);
    assert now == before + (if property(reports[last]) then {last} else {});
  }

  /** Each of the other counters is the number of reports it is about. */
  lemma {:induction false} ReportsCounted(reports: seq<CaseReport>)
    ensures var s := SummaryOf(reports);
            && s.completed == |reports|
            && s.materialized == Those(reports, (c: CaseReport) => c.sample.Some? && !c.duplicateBytes)
            && s.duplicateBytes == Those(reports, (c: CaseReport) => c.duplicateBytes)
            && s.duplicatePlans == Those(reports, (c: CaseReport) => c.duplicatePlan)
            && s.planningErrors == Those(reports, (c: CaseReport) => c.planningError)
            && s.expectedAccepted == Those(reports, (c: CaseReport) => c.expectation == ExpectAccepted)
            && s.expectedRejected == Those(reports, (c: CaseReport) => c.expectation == ExpectRejected)
            && s.mismatches == Those(reports, (c: CaseReport) => c.mismatch)
  {
    if reports != [] {
      hide Those, Verdicts.AndAll;
      ReportsCounted(reports[..|reports| - 1]);
      ThoseSnoc(reports, (c: CaseReport) => c.sample.Some? && !c.duplicateBytes);
      ThoseSnoc(reports, (c: CaseReport) => c.duplicateBytes);
      ThoseSnoc(reports, (c: CaseReport) => c.duplicatePlan);
      ThoseSnoc(reports, (c: CaseReport) => c.planningError);
      ThoseSnoc(reports, (c: CaseReport) => c.expectation == ExpectAccepted);
      ThoseSnoc(reports, (c: CaseReport) => c.expectation == ExpectRejected);
      ThoseSnoc(reports, (c: CaseReport) => c.mismatch);
    }
  }
}
