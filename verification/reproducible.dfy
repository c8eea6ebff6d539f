/** The image does not depend on the order in which the host lists a directory. */
module Reproducible {
  import opened Bytes
  import opened Results
  import opened Names
  import opened Sorting
  import DirPacking
  import opened Trees
  import Emitter
  import opened Builder
  import Reader
  import opened RoundTrip

  /** What the scan takes of a host file besides its kind: with a fixed time, not the file's times. */
  function Attributes(h: Host, fixedTime: Option<u64>): Host {
    if fixedTime.Some? then h.(mtime := 0, mtimeNsec := 0, kind := HostOther) else h.(kind := HostOther)
  }

  /** The same files under the same names, directories listed in any order. */
  ghost predicate SameFiles(a: Host, b: Host, fixedTime: Option<u64>)
    decreases a
  {
    && Attributes(a, fixedTime) == Attributes(b, fixedTime)
    && match (a.kind, b.kind)
       case (HostDir(xs), HostDir(ys)) =>
         && (forall i :: 0 <= i < |xs| ==> TwinIn(xs[i], ys, fixedTime))
         && (forall j :: 0 <= j < |ys| ==> TwinOf(xs, ys[j], fixedTime))
       case (HostDir(_), _) => false
       case (_, HostDir(_)) => false
       case (_, _) => a.kind == b.kind
  }

  ghost predicate TwinIn(x: HostEntry, ys: seq<HostEntry>, fixedTime: Option<u64>)
    decreases x, 1
  {
    exists j :: 0 <= j < |ys| && SameEntry(x, ys[j], fixedTime)
  }

  ghost predicate TwinOf(xs: seq<HostEntry>, y: HostEntry, fixedTime: Option<u64>)
    decreases xs, 1
  {
    exists i :: 0 <= i < |xs| && SameEntry(xs[i], y, fixedTime)
  }

  ghost predicate SameEntry(x: HostEntry, y: HostEntry, fixedTime: Option<u64>)
    decreases x, 0
  {
    x.name == y.name && SameFiles(x.file, y.file, fixedTime)
  }

  lemma FirstLeast<T(!new)>(s: seq<T>, e: T, key: T -> Name)
    requires Strict(s, key) && e in s
    ensures e == s[0] || Less(key(s[0]), key(e))
  {
  }

  lemma TailMembers<T(!new)>(s: seq<T>, key: T -> Name)
    requires Strict(s, key) && s != []
    ensures Strict(s[1..], key) && forall e :: e in s[1..] <==> e in s && e != s[0]
  {
    StrictDistinct(s, key);
  }

  lemma SameTails<T(!new)>(s: seq<T>, t: seq<T>, key: T -> Name)
    requires Strict(s, key) && Strict(t, key) && s != [] && t != [] && s[0] == t[0]
    requires forall e :: e in s <==> e in t
    ensures Strict(s[1..], key) && Strict(t[1..], key) && forall e :: e in s[1..] <==> e in t[1..]
  {
    TailMembers(s, key);
    TailMembers(t, key);
  }

  /** Strictly increasing lists with the same members are the same list. */
  lemma {:induction false} StrictUnique<T(!new)>(s: seq<T>, t: seq<T>, key: T -> Name)
    requires Strict(s, key) && Strict(t, key) && forall e :: e in s <==> e in t
    ensures s == t
  {
    assert s != [] ==> s[0] in s;
    assert t != [] ==> t[0] in t;
    if s != [] && t != [] {
      FirstLeast(s, t[0], key);
      FirstLeast(t, s[0], key);
      if s[0] != t[0] {
        LessTransitive(key(s[0]), key(t[0]), key(s[0]));
        LessIrreflexive(key(s[0]));
      }
      SameTails(s, t, key);
      StrictUnique(s[1..], t[1..], key);
      assert s == [s[0]] + s[1..] && t == [t[0]] + t[1..];
    }
  }

  /** The scan of a list is the scan of each of its entries. */
  lemma {:induction false} ScanEach(es: seq<HostEntry>, fixedTime: Option<u64>)
    ensures ScanAll(es, fixedTime).Ok?
            <==> forall i :: 0 <= i < |es| ==> Scan(es[i].file, es[i].name, fixedTime).Ok?
    ensures ScanAll(es, fixedTime).Ok? ==>
      forall i :: 0 <= i < |es| ==> Scan(es[i].file, es[i].name, fixedTime) == Ok(ScanAll(es, fixedTime).value[i])
  {
    hide Scan;
    if es != [] {
      ScanEach(es[1..], fixedTime);
      assert forall i :: 0 <= i < |es| - 1 ==> es[1..][i] == es[i + 1];
      if forall i :: 0 <= i < |es| ==> Scan(es[i].file, es[i].name, fixedTime).Ok? {
        assert Scan(es[0].file, es[0].name, fixedTime).Ok?;
      }
    }
  }

  ghost predicate SameScan(x: HostEntry, y: HostEntry, fixedTime: Option<u64>) {
    Scan(x.file, x.name, fixedTime).Ok? ==> Scan(y.file, y.name, fixedTime) == Scan(x.file, x.name, fixedTime)
  }

  lemma ScanTold(x: HostEntry, y: HostEntry, fixedTime: Option<u64>)
    requires SameScan(x, y, fixedTime) && Scan(x.file, x.name, fixedTime).Ok?
    ensures Scan(y.file, y.name, fixedTime).Ok?
  {
    hide Scan;
  }

  ghost predicate ScansIn(x: HostEntry, ys: seq<HostEntry>, fixedTime: Option<u64>) {
    exists j :: 0 <= j < |ys| && SameScan(x, ys[j], fixedTime)
  }

  ghost predicate ScansOf(xs: seq<HostEntry>, y: HostEntry, fixedTime: Option<u64>) {
    exists i :: 0 <= i < |xs| && SameScan(xs[i], y, fixedTime)
  }

  lemma ScanTwin(xs: seq<HostEntry>, y: HostEntry, fixedTime: Option<u64>)
    requires ScansOf(xs, y, fixedTime)
    ensures exists i :: 0 <= i < |xs| && SameScan(xs[i], y, fixedTime)
  {
    hide SameScan;
  }

  lemma SameNode(xs: seq<HostEntry>, ys: seq<HostEntry>, fixedTime: Option<u64>, i: nat, j: nat)
    requires ScanAll(xs, fixedTime).Ok? && ScanAll(ys, fixedTime).Ok?
    requires i < |xs| && j < |ys| && SameScan(xs[i], ys[j], fixedTime)
    ensures ScanAll(xs, fixedTime).value[i] == ScanAll(ys, fixedTime).value[j]
  {
    hide Scan, ScanAll;
    ScanEach(xs, fixedTime);
    ScanEach(ys, fixedTime);
  }

  lemma TwinScan(x: HostEntry, ys: seq<HostEntry>, fixedTime: Option<u64>)
    requires ScansIn(x, ys, fixedTime)
    ensures exists j :: 0 <= j < |ys| && SameScan(x, ys[j], fixedTime)
  {
    hide SameScan;
  }

  lemma SameMembers(xs: seq<HostEntry>, ys: seq<HostEntry>, fixedTime: Option<u64>)
    requires ScanAll(xs, fixedTime).Ok? && ScanAll(ys, fixedTime).Ok?
    requires forall i :: 0 <= i < |xs| ==> ScansIn(xs[i], ys, fixedTime)
    requires forall j :: 0 <= j < |ys| ==> ScansOf(xs, ys[j], fixedTime)
    ensures forall n :: n in ScanAll(xs, fixedTime).value <==> n in ScanAll(ys, fixedTime).value
  {
    hide Scan, ScanAll, SameScan, ScansIn, ScansOf;
    var ns, ms := ScanAll(xs, fixedTime).value, ScanAll(ys, fixedTime).value;
    forall i | 0 <= i < |ns| ensures ns[i] in ms {
      TwinScan(xs[i], ys, fixedTime);
      var j :| 0 <= j < |ys| && SameScan(xs[i], ys[j], fixedTime);
      SameNode(xs, ys, fixedTime, i, j);
    }
    forall j | 0 <= j < |ms| ensures ms[j] in ns {
      ScanTwin(xs, ys[j], fixedTime);
      var i :| 0 <= i < |xs| && SameScan(xs[i], ys[j], fixedTime);
      SameNode(xs, ys, fixedTime, i, j);
    }
  }

  lemma DistinctNodes(es: seq<HostEntry>, fixedTime: Option<u64>)
    requires ScanAll(es, fixedTime).Ok? && Distinct(es, HostName)
    ensures Distinct(ScanAll(es, fixedTime).value, NodeName)
  {
    hide ScanAll;
    ScanAllNames(es, fixedTime);
    var ns := ScanAll(es, fixedTime).value;
    forall i, j | 0 <= i < j < |ns| ensures NodeName(ns[i]) != NodeName(ns[j]) {
      assert HostName(es[i]) != HostName(es[j]);
    }
  }

  /** A directory's scanned and sorted children depend on which entries there are alone. */
  lemma {:induction false} SameChildren(xs: seq<HostEntry>, ys: seq<HostEntry>, fixedTime: Option<u64>)
    requires ScanAll(xs, fixedTime).Ok?
    requires Distinct(xs, HostName) && Distinct(ys, HostName)
    requires forall i :: 0 <= i < |xs| ==> ScansIn(xs[i], ys, fixedTime)
    requires forall j :: 0 <= j < |ys| ==> ScansOf(xs, ys[j], fixedTime)
    ensures ScanAll(ys, fixedTime).Ok?
    ensures Sort(ScanAll(xs, fixedTime).value, NodeName) == Sort(ScanAll(ys, fixedTime).value, NodeName)
  {
    hide Scan, ScanAll, SameScan, ScansIn, ScansOf, Distinct;
    ScanEach(xs, fixedTime);
    ScanEach(ys, fixedTime);
    forall j | 0 <= j < |ys| ensures Scan(ys[j].file, ys[j].name, fixedTime).Ok? {
      ScanTwin(xs, ys[j], fixedTime);
      var i :| 0 <= i < |xs| && SameScan(xs[i], ys[j], fixedTime);
      ScanTold(xs[i], ys[j], fixedTime);
    }
    var ns, ms := ScanAll(xs, fixedTime).value, ScanAll(ys, fixedTime).value;
    SameMembers(xs, ys, fixedTime);
    DistinctNodes(xs, fixedTime);
    DistinctNodes(ys, fixedTime);
    SortStrict(ns, NodeName);
    SortStrict(ms, NodeName);
    SortMembers(ns, NodeName);
    SortMembers(ms, NodeName);
    StrictUnique(Sort(ns, NodeName), Sort(ms, NodeName), NodeName);
  }

  lemma SameListing(a: Host, b: Host, fixedTime: Option<u64>)
    requires SameFiles(a, b, fixedTime) && a.kind.HostDir?
    ensures b.kind.HostDir? && Attributes(a, fixedTime) == Attributes(b, fixedTime)
    ensures forall i :: 0 <= i < |a.kind.entries| ==> TwinIn(a.kind.entries[i], b.kind.entries, fixedTime)
    ensures forall j :: 0 <= j < |b.kind.entries| ==> TwinOf(a.kind.entries, b.kind.entries[j], fixedTime)
  {
    hide TwinIn, TwinOf;
  }

  lemma {:induction false} LegalEntry(es: seq<HostEntry>, i: nat)
    requires LegalEntries(es) && i < |es|
    ensures LegalHost(es[i].file)
  {
    if i > 0 {
      LegalEntry(es[1..], i - 1);
    }
  }

  lemma ChildrenScanned(h: Host, name: Name, fixedTime: Option<u64>)
    requires h.kind.HostDir? && Scan(h, name, fixedTime).Ok?
    ensures ScanAll(h.kind.entries, fixedTime).Ok?
  {
    hide ScanAll;
  }

  lemma SameDirectory(a: Host, b: Host, name: Name, fixedTime: Option<u64>)
    requires a.kind.HostDir? && b.kind.HostDir? && Attributes(a, fixedTime) == Attributes(b, fixedTime)
    requires ScanAll(a.kind.entries, fixedTime).Ok? && ScanAll(b.kind.entries, fixedTime).Ok?
    requires Sort(ScanAll(a.kind.entries, fixedTime).value, NodeName)
             == Sort(ScanAll(b.kind.entries, fixedTime).value, NodeName)
    ensures Scan(a, name, fixedTime) == Scan(b, name, fixedTime)
  {
    hide ScanAll, Sort, CountDirs;
  }

  lemma SameLeaf(a: Host, b: Host, name: Name, fixedTime: Option<u64>)
    requires SameFiles(a, b, fixedTime) && !a.kind.HostDir?
    ensures Scan(a, name, fixedTime) == Scan(b, name, fixedTime)
  {
    hide ScanAll;
  }

  lemma {:induction false} ScanReordered(a: Host, b: Host, name: Name, fixedTime: Option<u64>)
    requires LegalHost(a) && LegalHost(b) && SameFiles(a, b, fixedTime) && Scan(a, name, fixedTime).Ok?
    ensures Scan(b, name, fixedTime) == Scan(a, name, fixedTime)
    decreases a
  {
    hide Scan, ScanAll, SameScan, ScansIn, ScansOf, SameFiles, SameEntry;
    if a.kind.HostDir? {
      SameListing(a, b, fixedTime);
      ChildrenScanned(a, name, fixedTime);
      TwinsScan(a.kind.entries, b.kind.entries, fixedTime);
      SameChildren(a.kind.entries, b.kind.entries, fixedTime);
      SameDirectory(a, b, name, fixedTime);
    } else {
      SameLeaf(a, b, name, fixedTime);
    }
  }

  lemma {:induction false} TwinsScan(xs: seq<HostEntry>, ys: seq<HostEntry>, fixedTime: Option<u64>)
    requires LegalEntries(xs) && LegalEntries(ys)
    requires forall i :: 0 <= i < |xs| ==> TwinIn(xs[i], ys, fixedTime)
    requires forall j :: 0 <= j < |ys| ==> TwinOf(xs, ys[j], fixedTime)
    ensures forall i :: 0 <= i < |xs| ==> ScansIn(xs[i], ys, fixedTime)
    ensures forall j :: 0 <= j < |ys| ==> ScansOf(xs, ys[j], fixedTime)
    decreases xs, 1
  {
    hide LegalEntries, TwinIn, TwinOf, ScansIn, ScansOf;
    forall i | 0 <= i < |xs| ensures ScansIn(xs[i], ys, fixedTime) {
      LegalEntry(xs, i);
      TwinInScans(xs[i], ys, fixedTime);
    }
    forall j | 0 <= j < |ys| ensures ScansOf(xs, ys[j], fixedTime) {
      LegalEntry(ys, j);
      TwinOfScans(xs, ys[j], fixedTime);
    }
  }

  lemma {:induction false} TwinInScans(x: HostEntry, ys: seq<HostEntry>, fixedTime: Option<u64>)
    requires LegalHost(x.file) && LegalEntries(ys) && TwinIn(x, ys, fixedTime)
    ensures ScansIn(x, ys, fixedTime)
    decreases x, 1
  {
    hide LegalEntries, SameEntry, SameScan, LegalHost;
    var j :| 0 <= j < |ys| && SameEntry(x, ys[j], fixedTime);
    LegalEntry(ys, j);
    EntryReordered(x, ys[j], fixedTime);
  }

  lemma {:induction false} TwinOfScans(xs: seq<HostEntry>, y: HostEntry, fixedTime: Option<u64>)
    requires LegalEntries(xs) && LegalHost(y.file) && TwinOf(xs, y, fixedTime)
    ensures ScansOf(xs, y, fixedTime)
    decreases xs, 0
  {
    hide LegalEntries, SameEntry, SameScan, LegalHost;
    var i :| 0 <= i < |xs| && SameEntry(xs[i], y, fixedTime);
    LegalEntry(xs, i);
    EntryReordered(xs[i], y, fixedTime);
  }

  lemma {:induction false} EntryReordered(x: HostEntry, y: HostEntry, fixedTime: Option<u64>)
    requires LegalHost(x.file) && LegalHost(y.file) && SameEntry(x, y, fixedTime)
    ensures SameScan(x, y, fixedTime)
    decreases x, 0
  {
    hide Scan, LegalHost, SameFiles;
    if Scan(x.file, x.name, fixedTime).Ok? {
      ScanReordered(x.file, y.file, x.name, fixedTime);
    }
  }

  lemma {:induction false} SameFilesSwap(a: Host, b: Host, fixedTime: Option<u64>)
    requires SameFiles(a, b, fixedTime)
    ensures SameFiles(b, a, fixedTime)
    decreases a
  {
    hide TwinIn, TwinOf, SameEntry;
    if a.kind.HostDir? {
      var xs, ys := a.kind.entries, b.kind.entries;
      forall i | 0 <= i < |xs| ensures TwinOf(ys, xs[i], fixedTime) {
        TwinInSwap(xs[i], ys, fixedTime);
      }
      forall j | 0 <= j < |ys| ensures TwinIn(ys[j], xs, fixedTime) {
        TwinOfSwap(xs, ys[j], fixedTime);
      }
    }
  }

  lemma {:induction false} TwinInSwap(x: HostEntry, ys: seq<HostEntry>, fixedTime: Option<u64>)
    requires TwinIn(x, ys, fixedTime)
    ensures TwinOf(ys, x, fixedTime)
    decreases x
  {
    hide SameFiles;
    var j :| 0 <= j < |ys| && SameEntry(x, ys[j], fixedTime);
    SameFilesSwap(x.file, ys[j].file, fixedTime);
  }

  lemma {:induction false} TwinOfSwap(xs: seq<HostEntry>, y: HostEntry, fixedTime: Option<u64>)
    requires TwinOf(xs, y, fixedTime)
    ensures TwinIn(y, xs, fixedTime)
    decreases xs
  {
    hide SameFiles;
    var i :| 0 <= i < |xs| && SameEntry(xs[i], y, fixedTime);
    SameFilesSwap(xs[i].file, y.file, fixedTime);
  }

  /** Legal names are short enough, so a legal host can only be refused for a file's type. */
  lemma {:induction false} OnlyTypesRefused(h: Host, name: Name, fixedTime: Option<u64>)
    requires LegalHost(h) && |name| <= 255 && Scan(h, name, fixedTime).Err?
    ensures Scan(h, name, fixedTime).error == UnsupportedFileType
    decreases h
  {
    hide ScanAll;
    if h.kind.HostDir? {
      OnlyTypesRefusedAll(h.kind.entries, fixedTime);
    }
  }

  lemma {:induction false} OnlyTypesRefusedAll(es: seq<HostEntry>, fixedTime: Option<u64>)
    requires LegalEntries(es)
    ensures ScanAll(es, fixedTime).Err? ==> ScanAll(es, fixedTime).error == UnsupportedFileType
    decreases es
  {
    hide Scan, LegalHost;
    if es != [] {
      OnlyTypesRefusedAll(es[1..], fixedTime);
      if Scan(es[0].file, es[0].name, fixedTime).Err? {
        OnlyTypesRefused(es[0].file, es[0].name, fixedTime);
      }
    }
  }

  /** The scan is the same, refusals included. */
  lemma ScansAlike(a: Host, b: Host, fixedTime: Option<u64>)
    requires LegalHost(a) && LegalHost(b) && SameFiles(a, b, fixedTime)
    ensures Scan(a, [], fixedTime) == Scan(b, [], fixedTime)
  {
    hide Scan, LegalHost, SameFiles;
    if Scan(a, [], fixedTime).Ok? {
      ScanReordered(a, b, [], fixedTime);
    } else if Scan(b, [], fixedTime).Ok? {
      SameFilesSwap(a, b, fixedTime);
      ScanReordered(b, a, [], fixedTime);
    } else {
      OnlyTypesRefused(a, [], fixedTime);
      OnlyTypesRefused(b, [], fixedTime);
    }
  }

  lemma SameGuard(a: Host, b: Host, fixedTime: Option<u64>)
    requires SameFiles(a, b, fixedTime)
    ensures a.IsDirPath() == b.IsDirPath()
  {
  }

  lemma PlansAlike(a: Host, b: Host, fixedTime: Option<u64>)
    requires LegalHost(a) && LegalHost(b) && SameFiles(a, b, fixedTime)
    ensures PlanTree(a, fixedTime) == PlanTree(b, fixedTime)
  {
    hide Scan, Number, Place, SameFiles, LegalHost;
    SameGuard(a, b, fixedTime);
    ScansAlike(a, b, fixedTime);
  }

  /** Whether a plan's image can be emitted does not depend on the superblock; the image tells its build
      time. */
  lemma BytesTellTime(p: Plan, s: Settings, t: Settings)
    requires s.Valid() && t.Valid() && Framed(p) && Bounded(p.root)
    ensures ImageBytes(p, s).Ok? <==> ImageBytes(p, t).Ok?
    ensures ImageBytes(p, s).Err? ==> ImageBytes(p, s) == ImageBytes(p, t)
    ensures ImageBytes(p, s).Ok? && ImageBytes(p, s) == ImageBytes(p, t) ==> s.buildTime == t.buildTime
  {
    hide Emitter.Emitted, Framed, Bounded, SuperblockHead, ImageOf, Blit, Unchanged, Count, Reader.Open;
    var zeros := Zeros(DirPacking.BLOCK_SIZE * p.totalBlocks);
    EmissionFinishes(zeros, p, s);
    EmissionFinishes(zeros, p, t);
    EmissionSucceeds(Blit(zeros, 1024, SuperblockHead(s, FIRST_NID, Count(p.root), p.totalBlocks)), p.root);
    EmissionSucceeds(Blit(zeros, 1024, SuperblockHead(t, FIRST_NID, Count(p.root), p.totalBlocks)), p.root);
    if ImageBytes(p, s).Ok? && ImageBytes(p, s) == ImageBytes(p, t) {
      OpenBuilt(ImageBytes(p, s).value, p, s);
      OpenBuilt(ImageBytes(p, s).value, p, t);
    }
  }

  /** Reproducible images: the same files, in whatever order directories are listed and, under a fixed
      time, whenever they were written, give the same result at two times exactly when there is a fixed
      time, the two times are one, or the build is refused; and then it is the same refusal. */
  lemma BuildReproducible(builder: ImageBuilder, a: Host, b: Host, c: u64, d: u64)
    requires builder.Valid() && LegalHost(a) && LegalHost(b) && SameFiles(a, b, builder.fixedTime)
    ensures BuildOf(builder, a, c) == BuildOf(builder, b, d)
            <==> builder.fixedTime.Some? || c == d || BuildOf(builder, a, c).Err?
  {
    hide PlanTree, ImageBytes, SameFiles, LegalHost, Framed, Bounded, Scan, Count;
    PlansAlike(a, b, builder.fixedTime);
    var plan := PlanTree(a, builder.fixedTime);
    if plan.Ok? {
      PlanFrames(a, builder.fixedTime);
      BytesTellTime(plan.value, builder.SettingsAt(c), builder.SettingsAt(d));
    }
  }
}
