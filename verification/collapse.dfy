/** Collapsing a write map into patches: maximal runs of consecutive bytes with one origin. */
module Collapse {
  import Bytes
  import Results
  import opened Patches
  import Hex

  lemma {:induction false} LeastOf(s: set<nat>, x: nat, k: nat)
    requires x in s && k in s && forall j :: j in s - {x} ==> k <= j
    ensures exists m :: m in s && forall j :: j in s ==> m <= j
  {
    var m := if x < k then x else k;
    forall j | j in s
      ensures m <= j
    {
      assert j == x || j in s - {x};
    }
  }

  lemma {:induction false} LeastExists(s: set<nat>)
    requires s != {}
    ensures exists k :: k in s && forall j :: j in s ==> k <= j
    decreases |s|
  {
    var x :| x in s;
    if s - {x} == {} {
      assert forall j :: j in s ==> j == x || j in s - {x};
    } else {
      LeastExists(s - {x});
      var k :| k in s - {x} && forall j :: j in s - {x} ==> k <= j;
      LeastOf(s, x, k);
    }
  }

  function Least(s: set<nat>): (k: nat)
    requires s != {}
    ensures k in s && forall j :: j in s ==> k <= j
  {
    LeastExists(s);
    var k :| k in s && forall j :: j in s ==> k <= j;
    k
  }

  /** The keys of an ordered map, in order. */
  function Ascending(s: set<nat>): (r: seq<nat>)
    ensures forall k :: k in r <==> k in s
    ensures forall i, j :: 0 <= i < j < |r| ==> r[i] < r[j]
    decreases |s|
  {
    if s == {} then []
    else
      var k := Least(s);
      var rest := Ascending(s - {k});
      assert forall x :: x in s <==> x == k || x in s - {k};
      [k] + rest
  }

  type Entry = (nat, PlannedByte)

  /** The entries of the map, in key order. */
  function Entries(writes: WriteMap): (r: seq<Entry>)
    ensures |r| == |Ascending(writes.Keys)|
  {
    var keys := Ascending(writes.Keys);
    seq(|keys|, i requires 0 <= i < |keys| => assert keys[i] in keys; (keys[i], writes[keys[i]]))
  }

  /** A patch under construction: consecutive bytes with one origin. */
  datatype Run = Run(offset: nat, before: seq<Bytes.byte>, after: seq<Bytes.byte>, meta: Meta)

  predicate Joins(run: Run, e: Entry) {
    run.offset + |run.before| == e.0 && run.meta == e.1.meta
  }

  function Start(e: Entry): Run {
    Run(e.0, [e.1.before], [e.1.after], e.1.meta)
  }

  function Extend(run: Run, e: Entry): Run {
    run.(before := run.before + [e.1.before], after := run.after + [e.1.after])
  }

  /** The runs of a list of entries: each entry extends the last run where it can. */
  function Runs(es: seq<Entry>): seq<Run> {
    if es == [] then []
    else
      var e, runs := es[|es| - 1], Runs(es[..|es| - 1]);
      if runs != [] && Joins(runs[|runs| - 1], e)
      then runs[..|runs| - 1] + [Extend(runs[|runs| - 1], e)]
      else runs + [Start(e)]
  }

  /** The entries a run stands for. */
  ghost function RunEntries(run: Run): (r: seq<Entry>)
    requires |run.before| == |run.after|
    ensures |r| == |run.before|
  {
    seq(|run.before|, i requires 0 <= i < |run.before| =>
      (run.offset + i, PlannedByte(run.before[i], run.after[i], run.meta)))
  }

  ghost predicate Shaped(runs: seq<Run>) {
    forall i :: 0 <= i < |runs| ==> |runs[i].before| == |runs[i].after| > 0
  }

  ghost function Flatten(runs: seq<Run>): seq<Entry>
    requires Shaped(runs)
  {
    if runs == [] then [] else Flatten(runs[..|runs| - 1]) + RunEntries(runs[|runs| - 1])
  }

  /** No two neighbouring runs could have been one. */
  ghost predicate Maximal(runs: seq<Run>) {
    forall i :: 0 <= i < |runs| - 1 ==>
      !(runs[i].offset + |runs[i].before| == runs[i + 1].offset && runs[i].meta == runs[i + 1].meta)
  }

  ghost predicate Increasing(es: seq<Entry>) {
    forall i, j :: 0 <= i < j < |es| ==> es[i].0 < es[j].0
  }

  lemma {:induction false} ExtendEntries(run: Run, e: Entry)
    requires |run.before| == |run.after| && Joins(run, e)
    ensures RunEntries(Extend(run, e)) == RunEntries(run) + [e]
  {
  }

  lemma {:induction false} RunsStep(es: seq<Entry>, e: Entry)
    ensures Runs(es + [e]) == if Runs(es) != [] && Joins(Runs(es)[|Runs(es)| - 1], e)
                              then Runs(es)[..|Runs(es)| - 1] + [Extend(Runs(es)[|Runs(es)| - 1], e)]
                              else Runs(es) + [Start(e)]
  {
    assert (es + [e])[..|es + [e]| - 1] == es;
  }

  lemma {:induction false} FlattenSnoc(runs: seq<Run>, run: Run)
    requires Shaped(runs) && |run.before| == |run.after| > 0
    ensures Shaped(runs + [run])
    ensures Flatten(runs + [run]) == Flatten(runs) + RunEntries(run)
  {
    assert (runs + [run])[..|runs + [run]| - 1] == runs;
  }

  lemma {:induction false} Regrouped<T>(a: seq<T>, b: seq<T>, c: seq<T>)
    ensures a + (b + c) == (a + b) + c
  {
  }

  /** Extending the last run keeps the shape, and no neighbours meet that did not before. */
  lemma {:induction false} ExtendLast(front: seq<Run>, last: Run, e: Entry)
    requires Shaped(front + [last]) && Maximal(front + [last]) && Joins(last, e)
    ensures Shaped(front + [Extend(last, e)]) && Maximal(front + [Extend(last, e)])
    ensures Flatten(front + [Extend(last, e)]) == Flatten(front + [last]) + [e]
  {
    hide Flatten, RunEntries;
    var was, now := front + [last], front + [Extend(last, e)];
    assert forall i :: 0 <= i < |front| ==> was[i] == front[i] && now[i] == front[i];
    assert was[|front|] == last && now[|front|] == Extend(last, e);
    FlattenSnoc(front, last);
    FlattenSnoc(front, Extend(last, e));
    ExtendEntries(last, e);
    Regrouped(Flatten(front), RunEntries(last), [e]);
  }

  lemma {:induction false} StartEntries(e: Entry)
    ensures RunEntries(Start(e)) == [e]
  {
  }

  /** A run that cannot join the last one starts anew. */
  lemma {:induction false} StartNew(runs: seq<Run>, e: Entry)
    requires Shaped(runs) && Maximal(runs) && (runs != [] ==> !Joins(runs[|runs| - 1], e))
    ensures Shaped(runs + [Start(e)]) && Maximal(runs + [Start(e)])
    ensures Flatten(runs + [Start(e)]) == Flatten(runs) + [e]
  {
    hide Flatten, RunEntries;
    var now := runs + [Start(e)];
    assert forall i :: 0 <= i < |runs| ==> now[i] == runs[i];
    assert now[|runs|] == Start(e);
    FlattenSnoc(runs, Start(e));
    StartEntries(e);
  }

  /** Collapsing loses nothing: flattened, the runs are the entries again, and no run is cut short. */
  lemma {:induction false} RunsLossless(es: seq<Entry>)
    ensures Shaped(Runs(es)) && Maximal(Runs(es)) && Flatten(Runs(es)) == es
  {
    if es == [] {
      assert Runs(es) == [];
    } else {
      hide Runs, Flatten, RunEntries, Shaped, Maximal, Joins, Extend, Start;
      var e, front := es[|es| - 1], es[..|es| - 1];
      assert es == front + [e];
      RunsLossless(front);
      RunsStep(front, e);
      var runs := Runs(front);
      if runs != [] && Joins(runs[|runs| - 1], e) {
        assert runs == runs[..|runs| - 1] + [runs[|runs| - 1]];
        ExtendLast(runs[..|runs| - 1], runs[|runs| - 1], e);
      } else {
        StartNew(runs, e);
      }
    }
  }

  /** Runs in order, none reaching into the next. */
  ghost predicate Ordered(runs: seq<Run>) {
    forall i, j :: 0 <= i < j < |runs| ==> runs[i].offset + |runs[i].before| <= runs[j].offset
  }

  lemma {:induction false} FlattenEnd(runs: seq<Run>)
    requires Shaped(runs) && runs != []
    ensures var last := runs[|runs| - 1];
            var es := Flatten(runs);
            && es != [] && es[|es| - 1].0 == last.offset + |last.before| - 1
            && |last.before| <= |es| && es[|es| - |last.before|].0 == last.offset
  {
  }

  lemma {:induction false} OrderedSnoc(front: seq<Run>, last: Run)
    requires Shaped(front) && Ordered(front) && front != []
    requires front[|front| - 1].offset + |front[|front| - 1].before| <= last.offset
    ensures Ordered(front + [last])
  {
    var runs := front + [last];
    forall i, j | 0 <= i < j < |runs|
      ensures runs[i].offset + |runs[i].before| <= runs[j].offset
    {
      if j == |front| && i < |front| - 1 {
        assert front[i].offset + |front[i].before| <= front[|front| - 1].offset;
      }
    }
  }

  /** Entries in key order give runs in address order, none overlapping. */
  lemma {:induction false} RunsOrdered(runs: seq<Run>)
    requires Shaped(runs) && Increasing(Flatten(runs))
    ensures Ordered(runs)
  {
    if |runs| > 1 {
      hide Flatten;
      var front, last := runs[..|runs| - 1], runs[|runs| - 1];
      assert runs == front + [last];
      FlattenSnoc(front, last);
      FlattenEnd(front);
      FlattenEnd(runs);
      assert forall i :: 0 <= i < |Flatten(front)| ==> Flatten(runs)[i] == Flatten(front)[i];
      RunsOrdered(front);
      OrderedSnoc(front, last);
    }
  }

  function Shorten(run: Run): Run
    requires |run.before| > 0 && |run.after| > 0
  {
    run.(before := run.before[..|run.before| - 1], after := run.after[..|run.after| - 1])
  }

  lemma {:induction false} LastOf(a: seq<Entry>, b: seq<Entry>, init: seq<Entry>, e: Entry)
    requires b != [] && a + b == init + [e]
    ensures e == b[|b| - 1] && init == a + b[..|b| - 1]
  {
    assert (a + b)[|a + b| - 1] == b[|b| - 1];
    assert (a + b)[..|a + b| - 1] == a + b[..|b| - 1];
    assert (init + [e])[..|init + [e]| - 1] == init;
  }

  lemma {:induction false} Unstart(front: seq<Run>, last: Run, e: Entry, init: seq<Entry>)
    requires Shaped(front + [last]) && Maximal(front + [last]) && |last.before| == 1
    requires Flatten(front + [last]) == init + [e]
    ensures last == Start(e) && Shaped(front) && Maximal(front) && Flatten(front) == init
    ensures front != [] ==> !Joins(front[|front| - 1], e)
  {
    hide Flatten;
    var runs := front + [last];
    assert forall i :: 0 <= i < |front| ==> runs[i] == front[i];
    assert runs[|front|] == last;
    FlattenSnoc(front, last);
    LastOf(Flatten(front), RunEntries(last), init, e);
    assert last.before == [e.1.before] && last.after == [e.1.after];
  }

  lemma {:induction false} Unextend(front: seq<Run>, last: Run, e: Entry, init: seq<Entry>)
    requires Shaped(front + [last]) && Maximal(front + [last]) && |last.before| > 1 && |last.after| > 1
    requires Flatten(front + [last]) == init + [e]
    ensures Shaped(front + [Shorten(last)]) && Maximal(front + [Shorten(last)])
    ensures Flatten(front + [Shorten(last)]) == init
    ensures Joins(Shorten(last), e) && Extend(Shorten(last), e) == last
  {
    hide Flatten;
    var runs, cut := front + [last], front + [Shorten(last)];
    assert forall i :: 0 <= i < |front| ==> runs[i] == front[i] && cut[i] == front[i];
    assert runs[|front|] == last && cut[|front|] == Shorten(last);
    FlattenSnoc(front, last);
    FlattenSnoc(front, Shorten(last));
    var all, less := RunEntries(last), RunEntries(Shorten(last));
    assert all == less + [all[|all| - 1]];
    LastOf(Flatten(front), all, init, e);
    assert last.before == last.before[..|last.before| - 1] + [e.1.before];
    assert last.after == last.after[..|last.after| - 1] + [e.1.after];
  }

  /** The runs are the only ones: whatever maximal runs flatten to the entries are these. */
  lemma {:induction false} RunsUnique(runs: seq<Run>, es: seq<Entry>)
    requires Shaped(runs) && Maximal(runs) && Flatten(runs) == es
    ensures runs == Runs(es)
    decreases |es|
  {
    if runs == [] {
      assert es == [];
    } else {
      hide Flatten, Runs, RunEntries, Joins, Extend, Start;
      var front, last := runs[..|runs| - 1], runs[|runs| - 1];
      assert runs == front + [last];
      FlattenEnd(runs);
      var e, init := es[|es| - 1], es[..|es| - 1];
      assert es == init + [e];
      RunsStep(init, e);
      if |last.before| == 1 {
        Unstart(front, last, e, init);
        RunsUnique(front, init);
      } else {
        var shorter := Shorten(last);
        Unextend(front, last, e, init);
        RunsUnique(front + [shorter], init);
        assert (front + [shorter])[..|front|] == front;
      }
    }
  }

  /** The runs of a write map: in address order and disjoint, maximal, and flattening back to exactly
      the planned bytes. */
  lemma {:induction false} CollapseLossless(writes: WriteMap)
    ensures var es := Entries(writes);
            && Increasing(es) && Shaped(Runs(es)) && Ordered(Runs(es)) && Maximal(Runs(es))
            && Flatten(Runs(es)) == es
    ensures forall k :: k in writes ==> (k, writes[k]) in Entries(writes)
    ensures forall e :: e in Entries(writes) ==> e.0 in writes && e.1 == writes[e.0]
  {
    hide Runs, Flatten, Maximal, Ordered, Shaped;
    var es, keys := Entries(writes), Ascending(writes.Keys);
    RunsLossless(es);
    RunsOrdered(Runs(es));
    forall k | k in writes
      ensures (k, writes[k]) in es
    {
      assert k in keys;
      var i :| 0 <= i < |keys| && keys[i] == k;
      assert es[i] == (k, writes[k]);
    }
    forall i | 0 <= i < |es|
      ensures es[i].0 in writes && es[i].1 == writes[es[i].0]
    {
      assert keys[i] in keys;
    }
  }

  // ----- Patches -----

  /** A resolved patch: span, preimage and new bytes in hexadecimal. */
  datatype Patch = Patch(meta: Meta, offset: nat, length: nat, beforeHex: string, afterHex: string)

  function MakePatch(run: Run): Patch {
    Patch(run.meta, run.offset, |run.before|, Hex.Encode(run.before), Hex.Encode(run.after))
  }

  function PatchesOf(runs: seq<Run>): (r: seq<Patch>)
    ensures |r| == |runs|
  {
    seq(|runs|, i requires 0 <= i < |runs| => MakePatch(runs[i]))
  }

  lemma {:induction false} PatchesSnoc(runs: seq<Run>, run: Run)
    ensures PatchesOf(runs + [run]) == PatchesOf(runs) + [MakePatch(run)]
  {
  }

  method Finish(run: Run) returns (patch: Patch)
    ensures patch == MakePatch(run)
  {
    var before := Hex.ToHex(run.before);
    var after := Hex.ToHex(run.after);
    patch := Patch(run.meta, run.offset, |run.before|, before, after);
  }

  lemma {:induction false} NoRuns()
    ensures Runs([]) == [] && PatchesOf([]) == []
  {
  }

  /** One pass over the write map in key order, cutting a patch wherever a run ends. */
  method CollapseWrites(writes: WriteMap) returns (patches: seq<Patch>)
    ensures patches == PatchesOf(Runs(Entries(writes)))
  {
    hide Runs, PatchesOf, MakePatch;
    var entries := Entries(writes);
    patches := [];
    var current: Results.Option<Run> := Results.None;
    ghost var done: seq<Run> := [];
    NoRuns();
    for i := 0 to |entries|
      invariant patches == PatchesOf(done)
      invariant Runs(entries[..i]) == done + (if current.Some? then [current.value] else [])
      invariant current.None? ==> i == 0 && done == []
    {
      var e := entries[i];
      assert entries[..i + 1] == entries[..i] + [e];
      RunsStep(entries[..i], e);
      if current.Some? && Joins(current.value, e) {
        assert (done + [current.value])[..|done|] == done;
        current := Results.Some(Extend(current.value, e));
      } else {
        if current.Some? {
          var patch := Finish(current.value);
          PatchesSnoc(done, current.value);
          patches := patches + [patch];
          done := done + [current.value];
        }
        current := Results.Some(Start(e));
      }
    }
    assert entries[..|entries|] == entries;
    if current.Some? {
      var patch := Finish(current.value);
      PatchesSnoc(done, current.value);
      patches := patches + [patch];
    }
  }
}
