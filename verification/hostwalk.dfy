/** What a walk of a built image says about the host: the files below a directory, by path. */
module HostWalk {
  import opened Bytes
  import opened Results
  import opened Types
  import opened Names
  import opened Utf8
  import opened Sorting
  import opened Trees
  import Layout
  import opened Builder
  import Reader
  import opened Lookup
  import opened RoundTrip
  import opened Listings
  import WalkDirs
  import opened WalkTrip

  // ----- The order of paths -----

  /** A directory comes before what is below it, siblings in byte order. */
  predicate PathLess(p: Path, q: Path) {
    if q == [] then false
    else if p == [] then true
    else Less(p[0], q[0]) || (p[0] == q[0] && PathLess(p[1..], q[1..]))
  }

  lemma {:induction false} PathLessBelow(dir: Path, p: Path, q: Path)
    ensures PathLess(dir + p, dir + q) <==> PathLess(p, q)
  {
    if dir == [] {
      assert dir + p == p && dir + q == q;
    } else {
      LessIrreflexive(dir[0]);
      PathLessBelow(dir[1..], p, q);
      assert (dir + p)[1..] == dir[1..] + p && (dir + q)[1..] == dir[1..] + q;
    }
  }

  lemma {:induction false} PathIrreflexive(p: Path)
    ensures !PathLess(p, p)
  {
    if p != [] {
      LessIrreflexive(p[0]);
      PathIrreflexive(p[1..]);
    }
  }

  // ----- The nodes below a directory, by path -----

  datatype Spot = Spot(path: Path, node: Node)

  /** The spots as seen from one directory higher. */
  function Under(name: Name, spots: seq<Spot>): (r: seq<Spot>)
    ensures |r| == |spots|
    ensures forall i :: 0 <= i < |r| ==> r[i] == Spot([name] + spots[i].path, spots[i].node)
  {
    seq(|spots|, i requires 0 <= i < |spots| => Spot([name] + spots[i].path, spots[i].node))
  }

  function Below(c: Node): seq<Spot>
    decreases c, 1
  {
    if c.IsDir() then Under(c.name, Spots(c.kind.children)) else []
  }

  /** Everything below a directory with these children, in pre-order. */
  function Spots(cs: seq<Node>): seq<Spot>
    decreases cs, 0
  {
    if cs == [] then [] else [Spot([cs[0].name], cs[0])] + Below(cs[0]) + Spots(cs[1..])
  }

  /** The node a non-empty path leads to. */
  function FindBelow(cs: seq<Node>, q: Path): Option<Node> {
    if q == [] then None
    else match Find(cs, NodeName, q[0])
      case None => None
      case Some(c) => TreeLookup(c, q[1..])
  }

  lemma SpotOfUnder(name: Name, spots: seq<Spot>, q: Path, m: Node)
    ensures Spot(q, m) in Under(name, spots) <==> q != [] && q[0] == name && Spot(q[1..], m) in spots
  {
    var up := Under(name, spots);
    if Spot(q, m) in up {
      var i :| 0 <= i < |up| && up[i] == Spot(q, m);
      assert q[1..] == spots[i].path && spots[i] == Spot(q[1..], m);
    }
    if q != [] && q[0] == name && Spot(q[1..], m) in spots {
      var i :| 0 <= i < |spots| && spots[i] == Spot(q[1..], m);
      assert q == [name] + q[1..] && up[i] == Spot(q, m);
    }
  }

  lemma StrictParts(cs: seq<Node>)
    requires Strict(cs, NodeName) && cs != []
    ensures Strict(cs[1..], NodeName)
    ensures forall j :: 0 <= j < |cs| - 1 ==> Less(cs[0].name, cs[1..][j].name)
  {
    hide Less;
    var rest := cs[1..];
    assert forall i :: 0 <= i < |rest| ==> rest[i] == cs[i + 1];
    forall j | 0 <= j < |rest| ensures Less(cs[0].name, rest[j].name) {
      assert Less(NodeName(cs[0]), NodeName(cs[j + 1]));
    }
  }

  /** No sibling has the first one's name. */
  lemma NotAmong(cs: seq<Node>, q: Path)
    requires Strict(cs, NodeName) && cs != [] && q != [] && q[0] == cs[0].name
    ensures FindBelow(cs[1..], q) == None
  {
    StrictParts(cs);
    LessIrreflexive(cs[0].name);
  }

  /** A legal directory's spots are exactly the nodes its paths lead to. */
  lemma {:induction false} SpotsFound(cs: seq<Node>, q: Path, m: Node)
    requires Strict(cs, NodeName) && LegalAll(cs)
    ensures Spot(q, m) in Spots(cs) <==> FindBelow(cs, q) == Some(m)
    decreases cs
  {
    hide Less, Legal;
    if cs != [] {
      var c := cs[0];
      assert cs == [c] + cs[1..];
      StrictParts(cs);
      SpotsFound(cs[1..], q, m);
      SpotBelow(c, q, m);
      assert Spot(q, m) == Spot([c.name], c) <==> q == [c.name] && m == c;
      if q != [] && q[0] == c.name {
        NotAmong(cs, q);
        assert q == [c.name] <==> q[1..] == [];
      }
    }
  }

  lemma {:induction false} SpotBelow(c: Node, q: Path, m: Node)
    requires LegalTree(c)
    ensures Spot(q, m) in Below(c) <==> |q| > 1 && q[0] == c.name && TreeLookup(c, q[1..]) == Some(m)
    decreases c
  {
    hide Less, Legal, Spots, Find;
    if c.IsDir() {
      SpotOfUnder(c.name, Spots(c.kind.children), q, m);
      if q != [] {
        SpotsFound(c.kind.children, q[1..], m);
      }
    }
  }

  // ----- Spots in order -----

  ghost predicate Increasing(spots: seq<Spot>) {
    forall i, j :: 0 <= i < j < |spots| ==> PathLess(spots[i].path, spots[j].path)
  }

  /** Every path starts with a name behind `name`. */
  ghost predicate Behind(name: Name, spots: seq<Spot>) {
    forall i :: 0 <= i < |spots| ==> spots[i].path != [] && Less(name, spots[i].path[0])
  }

  ghost predicate NonEmpty(spots: seq<Spot>) {
    forall i :: 0 <= i < |spots| ==> spots[i].path != []
  }

  lemma {:induction false} SpotsBehind(name: Name, cs: seq<Node>)
    requires forall j :: 0 <= j < |cs| ==> Less(name, cs[j].name)
    ensures Behind(name, Spots(cs))
    decreases cs
  {
    hide Less;
    if cs != [] {
      assert forall j :: 0 <= j < |cs| - 1 ==> cs[1..][j] == cs[j + 1];
      SpotsBehind(name, cs[1..]);
    }
  }

  lemma {:induction false} SpotsNonEmpty(cs: seq<Node>)
    ensures NonEmpty(Spots(cs))
    decreases cs
  {
    if cs != [] {
      SpotsNonEmpty(cs[1..]);
    }
  }

  lemma UnderIncreasing(name: Name, spots: seq<Spot>)
    requires Increasing(spots)
    ensures Increasing(Under(name, spots))
  {
    hide PathLess;
    forall i, j | 0 <= i < j < |spots|
      ensures PathLess(Under(name, spots)[i].path, Under(name, spots)[j].path)
    {
      PathLessBelow([name], spots[i].path, spots[j].path);
    }
  }

  /** A directory, what is below it, and what follows it. */
  lemma JoinIncreasing(first: Spot, below: seq<Spot>, rest: seq<Spot>, name: Name)
    requires first.path == [name] && Increasing(below) && Increasing(rest) && Behind(name, rest)
    requires forall i :: 0 <= i < |below| ==> |below[i].path| > 1 && below[i].path[0] == name
    ensures Increasing([first] + below + rest)
  {
    hide Less;
    var all := [first] + below + rest;
    forall i, j | 0 <= i < j < |all| ensures PathLess(all[i].path, all[j].path) {
      if j <= |below| {
        if i == 0 {
          assert all[j] == below[j - 1];
        } else {
          assert all[i] == below[i - 1] && all[j] == below[j - 1];
        }
      } else if i > |below| {
        assert all[i] == rest[i - 1 - |below|] && all[j] == rest[j - 1 - |below|];
      } else {
        assert all[j] == rest[j - 1 - |below|] && all[i].path[0] == name;
      }
    }
  }

  lemma {:induction false} SpotsIncreasing(cs: seq<Node>)
    requires Strict(cs, NodeName) && LegalAll(cs)
    ensures Increasing(Spots(cs))
    decreases cs
  {
    hide Less, Legal, PathLess;
    if cs != [] {
      var c := cs[0];
      StrictParts(cs);
      SpotsIncreasing(cs[1..]);
      SpotsBehind(c.name, cs[1..]);
      if c.IsDir() {
        SpotsIncreasing(c.kind.children);
        UnderIncreasing(c.name, Spots(c.kind.children));
        SpotsNonEmpty(c.kind.children);
      }
      hide Increasing, Behind;
      JoinIncreasing(Spot([c.name], c), Below(c), Spots(cs[1..]), c.name);
    }
  }

  // ----- The listing under the stored names -----

  /** The item for a spot below `dir`, whose entries are at `depth`. */
  function ItemAt(dir: Path, depth: nat, s: Spot): Item
    requires s.path != []
  {
    var last := |s.path| - 1;
    Found(depth + last, DirEntry(dir + s.path[..last], s.node.nid, s.node.GetFileType(), s.path[last]), InodeOf(s.node))
  }

  ghost predicate ItemsAt(items: seq<Item>, dir: Path, depth: nat, spots: seq<Spot>) {
    |items| == |spots|
    && forall i :: 0 <= i < |spots| ==> spots[i].path != [] && items[i] == ItemAt(dir, depth, spots[i])
  }

  lemma ItemUnder(dir: Path, depth: nat, name: Name, s: Spot)
    requires s.path != []
    ensures ItemAt(dir, depth, Spot([name] + s.path, s.node)) == ItemAt(dir + [name], depth + 1, s)
  {
    var last := |s.path| - 1;
    assert ([name] + s.path)[..last + 1] == [name] + s.path[..last];
    assert dir + ([name] + s.path[..last]) == dir + [name] + s.path[..last];
  }

  lemma ItemsUnder(items: seq<Item>, dir: Path, depth: nat, name: Name, spots: seq<Spot>)
    requires ItemsAt(items, dir + [name], depth + 1, spots)
    ensures ItemsAt(items, dir, depth, Under(name, spots))
  {
    hide ItemAt;
    forall i | 0 <= i < |spots|
      ensures items[i] == ItemAt(dir, depth, Under(name, spots)[i])
    {
      ItemUnder(dir, depth, name, spots[i]);
    }
  }

  lemma ItemsJoin(a: seq<Item>, b: seq<Item>, dir: Path, depth: nat, s: seq<Spot>, t: seq<Spot>)
    requires ItemsAt(a, dir, depth, s) && ItemsAt(b, dir, depth, t)
    ensures ItemsAt(a + b, dir, depth, s + t)
  {
    hide ItemAt;
  }

  lemma NoItems(dir: Path, depth: nat)
    ensures ItemsAt([], dir, depth, [])
  {
  }

  lemma OneItem(dir: Path, depth: nat, c: Node)
    ensures ItemsAt([Found(depth, DirEntry(dir, c.nid, c.GetFileType(), c.name), InodeOf(c))], dir, depth,
                    [Spot([c.name], c)])
  {
    hide InodeOf;
    assert dir + [c.name][..0] == dir;
  }

  /** The listing under the stored names is the spots, one item each. */
  lemma {:induction false} NamedSpots(cs: seq<Node>, dir: Path, depth: nat)
    ensures ItemsAt(NamedOrder(cs, dir, depth), dir, depth, Spots(cs))
    decreases cs
  {
    hide InodeOf, ItemsAt;
    if cs == [] {
      assert ItemsAt([], dir, depth, []) by { NoItems(dir, depth); }
    } else {
      var c := cs[0];
      var first := [Found(depth, DirEntry(dir, c.nid, c.GetFileType(), c.name), InodeOf(c))];
      var below := if c.IsDir() then NamedOrder(c.kind.children, dir + [c.name], depth + 1) else [];
      OneItem(dir, depth, c);
      NamedSpots(cs[1..], dir, depth);
      if c.IsDir() {
        NamedSpots(c.kind.children, dir + [c.name], depth + 1);
        ItemsUnder(below, dir, depth, c.name, Spots(c.kind.children));
      } else {
        NoItems(dir, depth);
      }
      ItemsJoin(first, below, dir, depth, [Spot([c.name], c)], Below(c));
      ItemsJoin(first + below, NamedOrder(cs[1..], dir, depth), dir, depth,
                [Spot([c.name], c)] + Below(c), Spots(cs[1..]));
    }
  }

  // ----- Names and depths, by path -----

  function LastName(q: Path): Name
    requires q != []
  {
    q[|q| - 1]
  }

  ghost predicate SpotsNamed(spots: seq<Spot>) {
    forall i :: 0 <= i < |spots| ==> spots[i].path != [] && ValidUtf8(LastName(spots[i].path))
  }

  lemma NamedOne(c: Node)
    ensures SpotsNamed([Spot([c.name], c)]) <==> ValidUtf8(c.name)
    ensures SpotsNamed([])
  {
    hide ValidUtf8;
    assert [Spot([c.name], c)][0].path == [c.name] && LastName([c.name]) == c.name;
  }

  lemma NamedUnder(name: Name, spots: seq<Spot>)
    requires NonEmpty(spots)
    ensures SpotsNamed(Under(name, spots)) <==> SpotsNamed(spots)
  {
    hide ValidUtf8;
    var up := Under(name, spots);
    forall i | 0 <= i < |spots| ensures up[i].path != [] && LastName(up[i].path) == LastName(spots[i].path) {
    }
  }

  lemma NamedJoin(s: seq<Spot>, t: seq<Spot>)
    ensures SpotsNamed(s + t) <==> SpotsNamed(s) && SpotsNamed(t)
  {
    hide ValidUtf8;
    assert forall i :: 0 <= i < |s| ==> (s + t)[i] == s[i];
    assert forall i :: 0 <= i < |t| ==> (s + t)[|s| + i] == t[i];
  }

  lemma {:induction false} NamesOfSpots(cs: seq<Node>)
    ensures ValidNames(cs) <==> SpotsNamed(Spots(cs))
    decreases cs
  {
    hide ValidUtf8;
    if cs != [] {
      var c := cs[0];
      NamesOfSpots(cs[1..]);
      if c.IsDir() {
        NamesOfSpots(c.kind.children);
        SpotsNonEmpty(c.kind.children);
        NamedUnder(c.name, Spots(c.kind.children));
      }
      hide SpotsNamed;
      NamedOne(c);
      NamedJoin([Spot([c.name], c)], Below(c));
      NamedJoin([Spot([c.name], c)] + Below(c), Spots(cs[1..]));
    }
  }

  /** Some directory among the spots is at least `n` levels down. */
  ghost predicate DirAt(spots: seq<Spot>, n: nat) {
    exists i :: 0 <= i < |spots| && spots[i].node.IsDir() && |spots[i].path| >= n
  }

  lemma DirAtUnder(name: Name, spots: seq<Spot>, n: nat)
    ensures DirAt(Under(name, spots), n + 1) <==> DirAt(spots, n)
  {
    var up := Under(name, spots);
    if DirAt(spots, n) {
      var i :| 0 <= i < |spots| && spots[i].node.IsDir() && |spots[i].path| >= n;
      assert up[i].node.IsDir() && |up[i].path| >= n + 1;
    }
    if DirAt(up, n + 1) {
      var i :| 0 <= i < |up| && up[i].node.IsDir() && |up[i].path| >= n + 1;
      assert spots[i].node.IsDir() && |spots[i].path| >= n;
    }
  }

  lemma DirAtJoin(s: seq<Spot>, t: seq<Spot>, n: nat)
    ensures DirAt(s + t, n) <==> DirAt(s, n) || DirAt(t, n)
  {
    if DirAt(s, n) {
      var i :| 0 <= i < |s| && s[i].node.IsDir() && |s[i].path| >= n;
      assert (s + t)[i] == s[i];
    }
    if DirAt(t, n) {
      var i :| 0 <= i < |t| && t[i].node.IsDir() && |t[i].path| >= n;
      assert (s + t)[|s| + i] == t[i];
    }
  }

  lemma DirAtOne(c: Node, n: nat)
    ensures DirAt([Spot([c.name], c)], n) <==> c.IsDir() && n <= 1
    ensures !DirAt([], n)
  {
    assert [Spot([c.name], c)][0] == Spot([c.name], c);
  }

  lemma NoDirAt(n: nat)
    ensures !DirAt([], n)
  {
  }

  /** The deepest directory is the longest path to one; with `depth` levels above, `n` more are reached. */
  lemma {:induction false} DepthOfSpots(cs: seq<Node>, depth: nat, n: nat)
    requires depth > 0
    ensures DirDepth(cs, depth) >= depth + n <==> DirAt(Spots(cs), n + 1)
    decreases cs
  {
    hide DirAt, Under;
    if cs == [] {
      assert !DirAt([], n + 1) by { NoDirAt(n + 1); }
    } else {
      var c := cs[0];
      DepthOfSpots(cs[1..], depth, n);
      DirAtOne(c, n + 1);
      if c.IsDir() && n > 0 {
        DepthOfSpots(c.kind.children, depth + 1, n - 1);
        DirAtUnder(c.name, Spots(c.kind.children), n);
      }
      DirAtJoin([Spot([c.name], c)], Below(c), n + 1);
      DirAtJoin([Spot([c.name], c)] + Below(c), Spots(cs[1..]), n + 1);
    }
  }

  // ----- From the host -----

  /** A non-empty path below `f` that names a file. */
  ghost predicate IsBelow(f: Host, q: Path) {
    q != [] && HostLookup(f, q).Some?
  }

  /** Every name below `f` is valid UTF-8. */
  ghost predicate NamesValid(f: Host) {
    forall q :: IsBelow(f, q) ==> ValidUtf8(LastName(q))
  }

  /** A directory lies at depth `n` or more below `f`. */
  ghost predicate DeepDir(f: Host, n: nat) {
    exists q :: IsBelow(f, q) && |q| >= n && HostLookup(f, q).value.kind.HostDir?
  }

  /** The planned node is the scan of the host file. */
  ghost predicate Planned(n: Node, f: Host, name: Name, fixedTime: Option<u64>) {
    Scan(f, name, fixedTime) == Ok(Layout.Strip(n))
  }

  lemma BelowIsLookup(n: Node, q: Path)
    requires n.IsDir() && q != []
    ensures FindBelow(n.kind.children, q) == TreeLookup(n, q)
  {
  }

  /** Below a planned directory there is at each path the planned node of the host's file there. */
  lemma PlannedBelow(n: Node, f: Host, name: Name, fixedTime: Option<u64>, q: Path)
    requires Planned(n, f, name, fixedTime) && n.IsDir() && q != []
    ensures match HostLookup(f, q)
            case None => FindBelow(n.kind.children, q) == None
            case Some(g) => FindBelow(n.kind.children, q).Some?
                            && Planned(FindBelow(n.kind.children, q).value, g, LastName(q), fixedTime)
  {
    hide Scan, HostLookup, Layout.Strip;
    LookupScanned(f, name, fixedTime, q);
    LookupStripped(n, q);
    BelowIsLookup(n, q);
  }

  function HostType(f: Host): FileType {
    match f.kind
    case HostDir(_) => Directory
    case HostFile(_, _) => RegularFile
    case HostLink(_, _) => Symlink
    case HostOther => Unknown
  }

  lemma PlannedKind(n: Node, f: Host, name: Name, fixedTime: Option<u64>)
    requires Planned(n, f, name, fixedTime)
    ensures n.IsDir() <==> f.kind.HostDir?
    ensures n.GetFileType() == HostType(f) && Describes(InodeOf(n), f, fixedTime)
  {
    ScanDescribes(n, f, name, fixedTime);
    hide Layout.StripAll, Describes;
  }

  /** A spot of a planned directory: the planned node of the host's file at its path. */
  lemma SpotPlanned(n: Node, f: Host, name: Name, fixedTime: Option<u64>, i: nat)
    requires Planned(n, f, name, fixedTime) && n.IsDir() && LegalTree(n) && i < |Spots(n.kind.children)|
    ensures var s := Spots(n.kind.children)[i];
            && IsBelow(f, s.path) && Planned(s.node, HostLookup(f, s.path).value, LastName(s.path), fixedTime)
  {
    hide HostLookup, Planned, Spots, TreeLookup, Find;
    var s := Spots(n.kind.children)[i];
    assert s in Spots(n.kind.children) && s == Spot(s.path, s.node);
    SpotsFound(n.kind.children, s.path, s.node);
    SpotsNonEmpty(n.kind.children);
    PlannedBelow(n, f, name, fixedTime, s.path);
  }

  /** The spot at which the host has a file. */
  lemma SpotAt(n: Node, f: Host, name: Name, fixedTime: Option<u64>, q: Path) returns (i: nat)
    requires Planned(n, f, name, fixedTime) && n.IsDir() && LegalTree(n) && IsBelow(f, q)
    ensures i < |Spots(n.kind.children)| && Spots(n.kind.children)[i].path == q
  {
    hide HostLookup, Planned, Spots, FindBelow;
    PlannedBelow(n, f, name, fixedTime, q);
    var m := FindBelow(n.kind.children, q).value;
    SpotsFound(n.kind.children, q, m);
    i :| 0 <= i < |Spots(n.kind.children)| && Spots(n.kind.children)[i] == Spot(q, m);
  }

  lemma NamesPlanned(n: Node, f: Host, name: Name, fixedTime: Option<u64>)
    requires Planned(n, f, name, fixedTime) && n.IsDir() && LegalTree(n)
    ensures ValidNames(n.kind.children) <==> NamesValid(f)
  {
    hide HostLookup, Planned, Spots, ValidNames, ValidUtf8, LegalTree;
    NamesOfSpots(n.kind.children);
    var spots := Spots(n.kind.children);
    if NamesValid(f) {
      forall i | 0 <= i < |spots| ensures spots[i].path != [] && ValidUtf8(LastName(spots[i].path)) {
        SpotPlanned(n, f, name, fixedTime, i);
      }
    }
    if SpotsNamed(spots) {
      forall q | IsBelow(f, q) ensures ValidUtf8(LastName(q)) {
        var i := SpotAt(n, f, name, fixedTime, q);
      }
    }
  }

  lemma DepthPlanned(n: Node, f: Host, name: Name, fixedTime: Option<u64>, limit: nat)
    requires Planned(n, f, name, fixedTime) && n.IsDir() && LegalTree(n) && limit > 0
    ensures DirDepth(n.kind.children, 1) >= limit <==> DeepDir(f, limit)
  {
    hide HostLookup, Planned, Spots, DirDepth, LegalTree;
    DepthOfSpots(n.kind.children, 1, limit - 1);
    var spots := Spots(n.kind.children);
    if DirAt(spots, limit) {
      var i :| 0 <= i < |spots| && spots[i].node.IsDir() && |spots[i].path| >= limit;
      SpotPlanned(n, f, name, fixedTime, i);
      PlannedKind(spots[i].node, HostLookup(f, spots[i].path).value, LastName(spots[i].path), fixedTime);
    }
    if DeepDir(f, limit) {
      var q :| IsBelow(f, q) && |q| >= limit && HostLookup(f, q).value.kind.HostDir?;
      var i := SpotAt(n, f, name, fixedTime, q);
      SpotPlanned(n, f, name, fixedTime, i);
      PlannedKind(spots[i].node, HostLookup(f, q).value, LastName(q), fixedTime);
    }
  }

  // ----- What the walk lists -----

  /** An item shows the host's file at path `q` below `f`, where `dir` is the directory walked. */
  ghost predicate ShowsFile(item: Item, dir: Path, f: Host, fixedTime: Option<u64>, q: Path) {
    && IsBelow(f, q) && item.Found? && item.depth == |q| && item.entry.GetPath() == dir + q
    && item.entry.fileType == HostType(HostLookup(f, q).value)
    && Describes(item.inode, HostLookup(f, q).value, fixedTime)
  }

  /** The items list the files below `f`: one for each path of at most `limit` names, none else, in the
      order of the paths. */
  ghost predicate Lists(
      items: seq<Item>, paths: seq<Path>, dir: Path, f: Host, fixedTime: Option<u64>, limit: Option<nat>)
  {
    && |items| == |paths|
    && (forall i :: 0 <= i < |items| ==> ShowsFile(items[i], dir, f, fixedTime, paths[i]))
    && (forall q :: q in paths <==> IsBelow(f, q) && (limit.Some? ==> |q| <= limit.value))
    && (forall i, j :: 0 <= i < j < |paths| ==> PathLess(paths[i], paths[j]))
  }

  function PathsOf(spots: seq<Spot>): (r: seq<Path>)
    ensures |r| == |spots|
    ensures forall i :: 0 <= i < |r| ==> r[i] == spots[i].path
  {
    seq(|spots|, i requires 0 <= i < |spots| => spots[i].path)
  }

  lemma ItemShows(dir: Path, s: Spot, f: Host, name: Name, fixedTime: Option<u64>)
    requires IsBelow(f, s.path) && Planned(s.node, HostLookup(f, s.path).value, LastName(s.path), fixedTime)
    ensures ShowsFile(ItemAt(dir, 1, s), dir, f, fixedTime, s.path)
  {
    hide HostLookup, Planned, Describes;
    PlannedKind(s.node, HostLookup(f, s.path).value, LastName(s.path), fixedTime);
    var last := |s.path| - 1;
    assert dir + s.path == dir + s.path[..last] + [s.path[last]];
  }

  /** The full listing under the stored names lists the host's files. */
  lemma NamedLists(n: Node, f: Host, name: Name, fixedTime: Option<u64>, dir: Path)
    requires Planned(n, f, name, fixedTime) && n.IsDir() && LegalTree(n)
    ensures Lists(NamedOrder(n.kind.children, dir, 1), PathsOf(Spots(n.kind.children)), dir, f, fixedTime, None)
  {
    hide HostLookup, Planned, Spots, NamedOrder, Describes, PathLess, IsBelow;
    var spots, items := Spots(n.kind.children), NamedOrder(n.kind.children, dir, 1);
    var paths := PathsOf(spots);
    NamedSpots(n.kind.children, dir, 1);
    SpotsIncreasing(n.kind.children);
    forall i | 0 <= i < |items| ensures ShowsFile(items[i], dir, f, fixedTime, paths[i]) {
      SpotPlanned(n, f, name, fixedTime, i);
      ItemShows(dir, spots[i], f, name, fixedTime);
    }
    forall q | IsBelow(f, q) ensures q in paths {
      var i := SpotAt(n, f, name, fixedTime, q);
      assert paths[i] == q;
    }
    forall q | q in paths ensures IsBelow(f, q) {
      var i :| 0 <= i < |paths| && paths[i] == q;
      SpotPlanned(n, f, name, fixedTime, i);
    }
  }

  lemma ShownDepth(item: Item, dir: Path, f: Host, fixedTime: Option<u64>, q: Path)
    requires ShowsFile(item, dir, f, fixedTime, q)
    ensures item.Found? && item.depth == |q|
  {
    hide IsBelow, Describes;
  }

  /** The part of a listing no deeper than `limit` lists the paths of at most that many names. */
  lemma {:induction false} ShallowLists(
      items: seq<Item>, paths: seq<Path>, dir: Path, f: Host, fixedTime: Option<u64>, limit: nat)
    returns (kept: seq<Path>)
    requires |items| == |paths|
    requires forall i :: 0 <= i < |items| ==> ShowsFile(items[i], dir, f, fixedTime, paths[i])
    requires forall i, j :: 0 <= i < j < |paths| ==> PathLess(paths[i], paths[j])
    ensures |Shallow(items, limit)| == |kept|
    ensures forall i :: 0 <= i < |kept| ==> ShowsFile(Shallow(items, limit)[i], dir, f, fixedTime, kept[i])
    ensures forall q :: q in kept <==> q in paths && |q| <= limit
    ensures forall i, j :: 0 <= i < j < |kept| ==> PathLess(kept[i], kept[j])
  {
    hide PathLess, ShowsFile;
    kept := [];
    if items != [] {
      var rest := ShallowLists(items[1..], paths[1..], dir, f, fixedTime, limit);
      ShownDepth(items[0], dir, f, fixedTime, paths[0]);
      assert paths == [paths[0]] + paths[1..];
      if |paths[0]| <= limit {
        kept := [paths[0]] + rest;
        forall j | 0 < j < |kept| ensures PathLess(kept[0], kept[j]) {
          assert kept[j] == rest[j - 1] && rest[j - 1] in paths[1..];
          var k :| 0 <= k < |paths[1..]| && paths[1..][k] == rest[j - 1];
          assert paths[k + 1] == kept[j];
        }
      } else {
        kept := rest;
      }
    }
  }

  /** No path is listed twice. */
  lemma ListedOnce(items: seq<Item>, paths: seq<Path>, dir: Path, f: Host, fixedTime: Option<u64>,
                   limit: Option<nat>, i: nat, j: nat)
    requires Lists(items, paths, dir, f, fixedTime, limit)
    requires i < |paths| && j < |paths| && paths[i] == paths[j]
    ensures i == j
  {
    hide PathLess, ShowsFile, IsBelow;
    PathIrreflexive(paths[i]);
  }

  /** What a walk of a directory of a legal, planned tree lists. */
  lemma WalkLists(n: Node, f: Host, name: Name, fixedTime: Option<u64>, dir: Path, maxDepth: nat)
    returns (paths: seq<Path>)
    requires Planned(n, f, name, fixedTime) && n.IsDir() && LegalTree(n) && NamesValid(f)
    ensures maxDepth == 0 && DeepDir(f, DEFAULT_MAX_DEPTH) ==>
      var walk := TreeWalk(n.kind.children, dir, 1, 0);
      walk != [] && walk[|walk| - 1] == Failed(DepthLimit)
    ensures maxDepth > 0 || !DeepDir(f, DEFAULT_MAX_DEPTH) ==>
      Lists(TreeWalk(n.kind.children, dir, 1, maxDepth), paths, dir, f, fixedTime,
            if maxDepth > 0 then Some(maxDepth) else None)
  {
    hide HostLookup, Planned, Spots, NamedOrder, PreOrder, TreeWalk, NamesValid, DeepDir, LegalTree, ShowsFile,
      PathLess, DirDepth, ValidNames, IsBelow, Shallow;
    var cs := n.kind.children;
    NamesPlanned(n, f, name, fixedTime);
    NamesExact(cs, dir, 1);
    NamedLists(n, f, name, fixedTime, dir);
    paths := PathsOf(Spots(cs));
    if maxDepth > 0 {
      ExplicitDepthExact(cs, dir, 1, maxDepth);
      paths := ShallowLists(PreOrder(cs, dir, 1), paths, dir, f, fixedTime, maxDepth);
    } else {
      DefaultDepthExact(cs, dir, 1);
      DepthPlanned(n, f, name, fixedTime, DEFAULT_MAX_DEPTH);
    }
  }

  /** The directory a path of a built image leads to, as a planned node. */
  lemma BuiltDir(h: Host, fixedTime: Option<u64>, img: seq<byte>, settings: Settings, comps: Path)
    returns (top: Node, name: Name)
    requires PlanTree(h, fixedTime).Ok? && LegalHost(h)
    requires ImageOf(img, PlanTree(h, fixedTime).value, settings)
    requires HostLookup(h, comps).Some? && HostLookup(h, comps).value.kind.HostDir?
    ensures TreeLookup(PlanTree(h, fixedTime).value.root, comps) == Some(top)
    ensures Planned(top, HostLookup(h, comps).value, name, fixedTime) && top.IsDir() && LegalTree(top)
  {
    hide PlanTree, Scan, ImageOf, HostLookup, Sound, LegalTree, ModeTells, TreeLookup;
    var root := PlanTree(h, fixedTime).value.root;
    BuiltTree(h, fixedTime, img, settings);
    LookupScanned(h, [], fixedTime, comps);
    LookupStripped(root, comps);
    top := TreeLookup(root, comps).value;
    name := if comps == [] then [] else comps[|comps| - 1];
    ScannedDir(top, HostLookup(h, comps).value, name, fixedTime);
    var above := LookupKeeps(img, root, FIRST_NID, comps);
  }

  lemma BuiltIsDir(n: Node, f: Host, name: Name, fixedTime: Option<u64>)
    requires Planned(n, f, name, fixedTime) && n.IsDir()
    ensures InodeOf(n).IsDir() && InodeOf(n).nid == n.nid
  {
    hide Planned;
    PlannedKind(n, f, name, fixedTime);
  }

  /** The whole way: walking a directory of a built image whose names are valid UTF-8 lists the host's files
      below it, each once, in path order, down to the limit; without a limit it fails exactly when a
      directory lies 256 levels down or deeper. */
  method BuildThenWalkAll(
      ghost h: Host, ghost fixedTime: Option<u64>, ghost settings: Settings,
      img: seq<byte>, core: Reader.Core, comps: Path, maxDepth: nat)
    returns (items: seq<Item>, ghost paths: seq<Path>)
    requires PlanTree(h, fixedTime).Ok? && LegalHost(h)
    requires ImageOf(img, PlanTree(h, fixedTime).value, settings) && Reader.Open(img) == Ok(core)
    requires forall c :: c in comps ==> c != DOT && c != DOTDOT
    requires HostLookup(h, comps).Some? && HostLookup(h, comps).value.kind.HostDir?
    requires NamesValid(HostLookup(h, comps).value)
    ensures var f := HostLookup(h, comps).value;
            if maxDepth == 0 && DeepDir(f, DEFAULT_MAX_DEPTH)
            then items != [] && items[|items| - 1] == Failed(DepthLimit)
            else Lists(items, paths, comps, f, fixedTime, if maxDepth > 0 then Some(maxDepth) else None)
  {
    hide PlanTree, ImageOf, Reader.Open, ResolvePath, HostLookup, NamesValid, DeepDir, Lists, LegalHost, OpenDir,
      WalkStack, TreeWalk, Planned, LegalTree, ChildEntries, InodeOf, TreeLookup;
    BuildThenWalk(h, fixedTime, img, settings, comps, maxDepth);
    ghost var top, name := BuiltDir(h, fixedTime, img, settings, comps);
    paths := WalkLists(top, HostLookup(h, comps).value, name, fixedTime, comps, maxDepth);
    BuiltIsDir(top, HostLookup(h, comps).value, name, fixedTime);
    var walked := WalkDirs.WalkAll(img, core, comps, maxDepth);
    items := walked.value;
  }
}
