/** Replaying patches onto an image, and why a collapsed plan always replays. */
module Replay {
  import opened Bytes
  import opened Results
  import opened Format
  import opened Patches
  import opened Collapse
  import Hex

  datatype Resize = Truncate(beforeLen: nat, afterLen: nat)

  /** One patch: its hexadecimal must read as bytes of its length, and its preimage must match. */
  function ApplyOne(img: seq<byte>, patch: Patch): (r: Planned<seq<byte>>)
    ensures r.Ok? ==> |r.value| == |img|
  {
    if patch.offset + patch.length >= WORD then Err(Bounds)
    else
      match (Hex.Decode(patch.beforeHex), Hex.Decode(patch.afterHex))
      case (Some(before), Some(after)) =>
        if |before| != patch.length || |after| != patch.length || patch.offset + patch.length > |img|
           || img[patch.offset..patch.offset + patch.length] != before
        then Err(Preimage(patch.offset))
        else Ok(Blit(img, patch.offset, after))
      case (_, _) => Err(InvalidHex)
  }

  function ApplyPatches(parent: seq<byte>, patches: seq<Patch>): (r: Planned<seq<byte>>)
    ensures r.Ok? ==> |r.value| == |parent|
  {
    if patches == [] then Ok(parent)
    else
      var img :- ApplyPatches(parent, patches[..|patches| - 1]);
      ApplyOne(img, patches[|patches| - 1])
  }

  function Cut(img: seq<byte>, len: nat): seq<byte> {
    if len < |img| then img[..len] else img
  }

  function Resized(parentLen: nat, img: seq<byte>, resize: Option<Resize>): Planned<seq<byte>> {
    match resize
    case None => Ok(img)
    case Some(t) => if t.beforeLen != parentLen then Err(ParentIdentity) else Ok(Cut(img, t.afterLen))
  }

  function Apply(parent: seq<byte>, patches: seq<Patch>, resize: Option<Resize>): Planned<seq<byte>> {
    var img :- ApplyPatches(parent, patches);
    Resized(|parent|, img, resize)
  }

  /** A plan with a truncation applies to images of the length it was made for and to no others. */
  lemma ResizeExactly(img: seq<byte>, patches: seq<Patch>, resize: Option<Resize>)
    ensures Apply(img, patches, resize).Ok?
            <==> ApplyPatches(img, patches).Ok? && (resize.Some? ==> resize.value.beforeLen == |img|)
    ensures Apply(img, patches, resize).Ok? ==>
      var patched := ApplyPatches(img, patches).value;
      Apply(img, patches, resize).value
      == if resize.Some? && resize.value.afterLen < |img| then patched[..resize.value.afterLen] else patched
  {
    hide ApplyPatches;
  }

  lemma {:induction false} FailureStays(parent: seq<byte>, patches: seq<Patch>, i: nat)
    requires i <= |patches| && ApplyPatches(parent, patches[..i]).Err?
    ensures ApplyPatches(parent, patches) == ApplyPatches(parent, patches[..i])
    decreases |patches| - i
  {
    if i == |patches| {
      assert patches[..i] == patches;
    } else {
      assert patches[..i + 1][..i] == patches[..i];
      FailureStays(parent, patches, i + 1);
    }
  }

  /** The replay loop: patch after patch onto a copy of the parent, then the resize. */
  method ApplyPlanBytes(parent: seq<byte>, patches: seq<Patch>, resize: Option<Resize>)
    returns (r: Planned<seq<byte>>)
    ensures r == Apply(parent, patches, resize)
  {
    hide ApplyOne, Resized;
    var output := parent;
    for i := 0 to |patches|
      invariant ApplyPatches(parent, patches[..i]) == Ok(output)
    {
      assert patches[..i + 1][..i] == patches[..i];
      var next := ApplyOne(output, patches[i]);
      if next.Err? {
        FailureStays(parent, patches, i + 1);
        return Err(next.error);
      }
      output := next.value;
    }
    assert patches[..|patches|] == patches;
    r := Resized(|parent|, output, resize);
  }

  // ----- Collapsed plans replay -----

  ghost predicate Fits(parent: seq<byte>, es: seq<Entry>) {
    && Increasing(es)
    && forall i :: 0 <= i < |es| ==> es[i].0 < |parent| && es[i].1.before == parent[es[i].0]
  }

  /** The parent with every entry written. */
  ghost function Written(parent: seq<byte>, es: seq<Entry>): (r: seq<byte>)
    requires Fits(parent, es)
    ensures |r| == |parent|
  {
    if es == [] then parent
    else
      assert Fits(parent, es[..|es| - 1]);
      Written(parent, es[..|es| - 1])[es[|es| - 1].0 := es[|es| - 1].1.after]
  }

  /** Beyond the last key nothing has changed. */
  lemma {:induction false} WrittenBeyond(parent: seq<byte>, es: seq<Entry>, k: nat)
    requires Fits(parent, es) && k < |parent|
    requires forall i :: 0 <= i < |es| ==> es[i].0 < k
    ensures Written(parent, es)[k] == parent[k]
  {
    if es != [] {
      WrittenBeyond(parent, es[..|es| - 1], k);
    }
  }

  lemma {:induction false} ApplySnoc(parent: seq<byte>, patches: seq<Patch>, patch: Patch)
    ensures ApplyPatches(parent, patches + [patch])
            == match ApplyPatches(parent, patches)
               case Ok(img) => ApplyOne(img, patch)
               case Err(e) => Err(e)
  {
    assert (patches + [patch])[..|patches + [patch]| - 1] == patches;
  }

  lemma {:induction false} ApplyRun(img: seq<byte>, run: Run)
    requires |img| < WORD && |run.before| == |run.after|
    ensures ApplyOne(img, MakePatch(run)).Ok?
            <==> run.offset + |run.before| <= |img| && img[run.offset..run.offset + |run.before|] == run.before
    ensures ApplyOne(img, MakePatch(run)).Ok?
            ==> ApplyOne(img, MakePatch(run)) == Ok(Blit(img, run.offset, run.after))
  {
    Hex.RoundTrip(run.before);
    Hex.RoundTrip(run.after);
  }

  /** Extending the last patch by the next byte writes that byte as well. */
  lemma {:induction false} ApplyExtended(img: seq<byte>, run: Run, e: Entry, now: seq<byte>)
    requires |img| < WORD && |run.before| == |run.after| && Joins(run, e) && e.0 < |img|
    requires ApplyOne(img, MakePatch(run)) == Ok(now) && |now| == |img| && now[e.0] == e.1.before
    ensures ApplyOne(img, MakePatch(Extend(run, e))) == Ok(now[e.0 := e.1.after])
  {
    hide ApplyOne, MakePatch;
    ApplyRun(img, run);
    ApplyRun(img, Extend(run, e));
    var n := |run.before|;
    assert img[run.offset..run.offset + n + 1] == run.before + [e.1.before];
    assert Blit(img, run.offset, run.after + [e.1.after]) == Blit(img, run.offset, run.after)[e.0 := e.1.after];
  }

  lemma {:induction false} ApplyStarted(img: seq<byte>, e: Entry)
    requires |img| < WORD && e.0 < |img| && img[e.0] == e.1.before
    ensures ApplyOne(img, MakePatch(Start(e))) == Ok(img[e.0 := e.1.after])
  {
    hide ApplyOne, MakePatch;
    ApplyRun(img, Start(e));
    assert img[e.0..e.0 + 1] == [e.1.before];
    assert Blit(img, e.0, [e.1.after]) == img[e.0 := e.1.after];
  }

  lemma {:induction false} LastShape(runs: seq<Run>)
    requires Shaped(runs) && runs != []
    ensures |runs[|runs| - 1].before| == |runs[|runs| - 1].after|
  {
  }

  /** One more entry: its byte is written, whether the last patch grows or a new one starts. */
  lemma {:induction false} RunsApplyStep(parent: seq<byte>, init: seq<Entry>, e: Entry, img: seq<byte>)
    requires ApplyPatches(parent, PatchesOf(Runs(init))) == Ok(img)
    requires |img| < WORD && e.0 < |img| && img[e.0] == e.1.before
    ensures ApplyPatches(parent, PatchesOf(Runs(init + [e]))) == Ok(img[e.0 := e.1.after])
  {
    hide Runs, PatchesOf, ApplyPatches, ApplyOne, MakePatch, Extend, Start, Joins, Shaped;
    RunsStep(init, e);
    RunsLossless(init);
    var runs := Runs(init);
    if runs != [] && Joins(runs[|runs| - 1], e) {
      var front, last := runs[..|runs| - 1], runs[|runs| - 1];
      assert runs == front + [last];
      PatchesSnoc(front, last);
      PatchesSnoc(front, Extend(last, e));
      ApplySnoc(parent, PatchesOf(front), MakePatch(last));
      ApplySnoc(parent, PatchesOf(front), MakePatch(Extend(last, e)));
      LastShape(runs);
      ApplyExtended(ApplyPatches(parent, PatchesOf(front)).value, last, e, img);
    } else {
      PatchesSnoc(runs, Start(e));
      ApplySnoc(parent, PatchesOf(runs), MakePatch(Start(e)));
      ApplyStarted(img, e);
    }
  }

  /** Replaying the runs of matching entries never fails and writes exactly the entries. */
  lemma {:induction false} RunsApply(parent: seq<byte>, es: seq<Entry>)
    requires Fits(parent, es) && |parent| < WORD
    ensures ApplyPatches(parent, PatchesOf(Runs(es))) == Ok(Written(parent, es))
  {
    if es == [] {
      NoRuns();
    } else {
      hide Runs, PatchesOf, ApplyPatches;
      var e, init := es[|es| - 1], es[..|es| - 1];
      assert es == init + [e] && Fits(parent, init);
      RunsApply(parent, init);
      WrittenBeyond(parent, init, e.0);
      RunsApplyStep(parent, init, e, Written(parent, init));
    }
  }

  /** The last run reached one entry further only if it also held without it. */
  lemma {:induction false} ExtendedNeeds(img: seq<byte>, run: Run, e: Entry)
    requires |img| < WORD && |run.before| == |run.after| && Joins(run, e)
    requires ApplyOne(img, MakePatch(Extend(run, e))).Ok?
    ensures e.0 < |img| && img[e.0] == e.1.before
    ensures ApplyOne(img, MakePatch(run)).Ok?
    ensures ApplyOne(img, MakePatch(run)).value[e.0] == img[e.0]
  {
    hide ApplyOne, MakePatch;
    ApplyRun(img, run);
    ApplyRun(img, Extend(run, e));
    var n := |run.before|;
    assert img[run.offset..run.offset + n + 1] == run.before + [e.1.before];
    assert img[run.offset..run.offset + n] == img[run.offset..run.offset + n + 1][..n];
    assert img[run.offset + n] == img[run.offset..run.offset + n + 1][n];
  }

  lemma {:induction false} StartedNeeds(img: seq<byte>, e: Entry)
    requires |img| < WORD && ApplyOne(img, MakePatch(Start(e))).Ok?
    ensures e.0 < |img| && img[e.0] == e.1.before
  {
    hide ApplyOne, MakePatch;
    ApplyRun(img, Start(e));
    assert img[e.0..e.0 + 1] == [e.1.before];
    assert img[e.0] == img[e.0..e.0 + 1][0];
  }

  /** What one more entry demands of the image. */
  lemma {:induction false} RunsNeedStep(img: seq<byte>, init: seq<Entry>, e: Entry)
    requires |img| < WORD && ApplyPatches(img, PatchesOf(Runs(init + [e]))).Ok?
    ensures ApplyPatches(img, PatchesOf(Runs(init))).Ok? && e.0 < |img|
    ensures ApplyPatches(img, PatchesOf(Runs(init))).value[e.0] == e.1.before
  {
    hide Runs, PatchesOf, ApplyPatches, ApplyOne, MakePatch, Extend, Start, Joins, Shaped;
    RunsStep(init, e);
    RunsLossless(init);
    var runs := Runs(init);
    if runs != [] && Joins(runs[|runs| - 1], e) {
      var front, last := runs[..|runs| - 1], runs[|runs| - 1];
      assert runs == front + [last];
      PatchesSnoc(front, last);
      PatchesSnoc(front, Extend(last, e));
      ApplySnoc(img, PatchesOf(front), MakePatch(last));
      ApplySnoc(img, PatchesOf(front), MakePatch(Extend(last, e)));
      LastShape(runs);
      ExtendedNeeds(ApplyPatches(img, PatchesOf(front)).value, last, e);
    } else {
      PatchesSnoc(runs, Start(e));
      ApplySnoc(img, PatchesOf(runs), MakePatch(Start(e)));
      StartedNeeds(ApplyPatches(img, PatchesOf(runs)).value, e);
    }
  }

  /** Replay accepts exactly the images that agree with every preimage. */
  lemma {:induction false} ReplaysExactly(img: seq<byte>, es: seq<Entry>)
    requires Increasing(es) && |img| < WORD
    ensures ApplyPatches(img, PatchesOf(Runs(es))).Ok? <==> Fits(img, es)
  {
    if es == [] {
      NoRuns();
    } else {
      var e, init := es[|es| - 1], es[..|es| - 1];
      assert es == init + [e] && Increasing(init);
      if Fits(img, es) {
        RunsApply(img, es);
      }
      ReplaysExactly(img, init);
      hide Runs, PatchesOf, ApplyPatches;
      if ApplyPatches(img, PatchesOf(Runs(es))).Ok? {
        RunsNeedStep(img, init, e);
        RunsApply(img, init);
        WrittenBeyond(img, init, e.0);
      }
    }
  }

  // ----- From the map to its entries -----

  lemma {:induction false} WrittenAt(parent: seq<byte>, es: seq<Entry>, i: nat)
    requires Fits(parent, es) && i < |es|
    ensures Written(parent, es)[es[i].0] == es[i].1.after
  {
    if i < |es| - 1 {
      WrittenAt(parent, es[..|es| - 1], i);
    }
  }

  lemma {:induction false} WrittenElsewhere(parent: seq<byte>, es: seq<Entry>, k: nat)
    requires Fits(parent, es) && k < |parent| && forall i :: 0 <= i < |es| ==> es[i].0 != k
    ensures Written(parent, es)[k] == parent[k]
  {
    if es != [] {
      WrittenElsewhere(parent, es[..|es| - 1], k);
    }
  }

  lemma {:induction false} EntriesFit(parent: seq<byte>, writes: WriteMap)
    requires Consistent(parent, writes)
    ensures Fits(parent, Entries(writes))
    ensures Written(parent, Entries(writes)) == Overlay(parent, writes)
  {
    var es, keys := Entries(writes), Ascending(writes.Keys);
    forall i | 0 <= i < |es|
      ensures es[i].0 < |parent| && es[i].1.before == parent[es[i].0]
    {
      assert keys[i] in writes.Keys;
    }
    forall k | 0 <= k < |parent|
      ensures Written(parent, es)[k] == Overlay(parent, writes)[k]
    {
      if k in writes {
        assert k in keys;
        var i :| 0 <= i < |keys| && keys[i] == k;
        WrittenAt(parent, es, i);
      } else {
        assert k !in keys;
        WrittenElsewhere(parent, es, k);
      }
    }
  }

  /** Collapsing is lossless: the patches of a consistent write map replay without a preimage error,
      and the result is the byte overlay. */
  lemma {:induction false} CollapsedReplays(parent: seq<byte>, writes: WriteMap)
    requires Consistent(parent, writes) && |parent| < WORD
    ensures ApplyPatches(parent, PatchesOf(Runs(Entries(writes)))) == Ok(Overlay(parent, writes))
  {
    hide Runs, PatchesOf, ApplyPatches, Entries, Overlay, Written;
    EntriesFit(parent, writes);
    RunsApply(parent, Entries(writes));
  }
}
