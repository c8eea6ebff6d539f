/** Build, then stream: reading a built file returns the bytes the host held. */
module FileTrip {
  import Arithmetic
  import opened Bytes
  import opened Results
  import opened Types
  import opened Names
  import opened DirPacking
  import opened Trees
  import opened Layout
  import opened Storage
  import opened Builder
  import opened Reader
  import opened Lookup
  import opened RoundTrip
  import opened Files

  lemma BuiltValid(core: Core)
    requires BuiltCore(core)
    ensures ValidCore(core)
  {
    BlockBits();
  }

  lemma PayloadPlan(core: Core, n: Node, offset: nat)
    requires BuiltCore(core) && offset < n.size
    requires BLOCK_SIZE * n.blkaddr + n.size <= U64_MAX
    ensures var start := BlockStart(offset, BLOCK_SIZE);
            PlanInodeBlockRead(core, InodeOf(n), offset)
            == Ok(Direct(BLOCK_SIZE * n.blkaddr + start, Arithmetic.Min(BLOCK_SIZE, n.size - start)))
  {
    var start := BlockStart(offset, BLOCK_SIZE);
  }

  /** One block of a stored payload. */
  lemma PayloadBlock(img: seq<byte>, core: Core, n: Node, offset: nat)
    requires BuiltCore(core) && PayloadStored(img, n) && |img| <= U64_MAX
    requires offset < n.size == PayloadLen(n)
    ensures var start := BlockStart(offset, BLOCK_SIZE);
            var len := Arithmetic.Min(BLOCK_SIZE, n.size - start);
            start + len <= |Payload(n)|
            && GetInodeBlock(img, core, InodeOf(n), offset) == Ok(Payload(n)[start..start + len])
  {
    hide Payload;
    var start := BlockStart(offset, BLOCK_SIZE);
    var len := Arithmetic.Min(BLOCK_SIZE, n.size - start);
    var base := BLOCK_SIZE * n.blkaddr;
    PayloadPlan(core, n, offset);
    SubSlice(img, base, base + PayloadLen(n), start, start + len);
    hide PlanInodeBlockRead, PayloadStored;
    ReadDirect(img, core, InodeOf(n), offset, base + start, len);
  }

  lemma {:induction false} PayloadFrom(img: seq<byte>, core: Core, n: Node, start: nat)
    requires BuiltCore(core) && ValidCore(core) && PayloadStored(img, n) && |img| <= U64_MAX
    requires n.size == PayloadLen(n) && start % BLOCK_SIZE == 0
    requires Readable(img, core, InodeOf(n))
    ensures ContentFrom(img, core, InodeOf(n), start)
            == if start < n.size then Payload(n)[start..] else []
    decreases if start < n.size then n.size - start else 0
  {
    hide GetInodeBlock, Payload, Readable;
    if start < n.size {
      NextStart(start, BLOCK_SIZE);
      PayloadBlock(img, core, n, start);
      PayloadFrom(img, core, n, start + BLOCK_SIZE);
      assert |Payload(n)| == n.size;
    }
  }

  /** A stored file or symlink is readable, and its content is its payload. */
  lemma BuiltContent(img: seq<byte>, core: Core, n: Node)
    requires BuiltCore(core) && PayloadStored(img, n) && |img| <= U64_MAX && !n.IsDir()
    ensures ValidCore(core) && Readable(img, core, InodeOf(n))
    ensures Content(img, core, InodeOf(n)) == if n.size > 0 then Payload(n) else []
  {
    hide GetInodeBlock, Payload, PayloadStored;
    BuiltValid(core);
    forall offset: nat | offset < n.size ensures GetInodeBlock(img, core, InodeOf(n), offset).Ok? {
      PayloadBlock(img, core, n, offset);
    }
    PayloadFrom(img, core, n, 0);
  }

  /** Opens a file by path; anything but a regular file is refused. */
  method OpenFile(img: seq<byte>, core: Core, path: seq<Name>) returns (r: Outcome<File>)
    requires ValidCore(core) && core.blockSize > 0
    ensures r.Ok? ==>
      && fresh(r.value) && r.value.Valid() && r.value.img == img && r.value.core == core && r.value.offset == 0
      && ResolvePath(img, core, core.sb.rootNid, path) == Ok(Some(r.value.inode)) && r.value.inode.IsFile()
    ensures r.Err? ==>
      match ResolvePath(img, core, core.sb.rootNid, path)
      case Err(e) => r.error == e
      case Ok(None) => r.error == PathNotFound
      case Ok(Some(inode)) => !inode.IsFile() && r.error == NotAFile
  {
    hide ResolvePath;
    var found :- GetPathInode(img, core, path);
    if found.None? {
      return Err(PathNotFound);
    }
    if !found.value.IsFile() {
      return Err(NotAFile);
    }
    var file := new File(img, core, found.value);
    return Ok(file);
  }

  /** The bytes a host file or symlink stands for. */
  function HostBytes(f: Host): seq<byte> {
    match f.kind
    case HostFile(len, content) => if len == 0 then [] else content
    case HostLink(target, _) => target
    case _ => []
  }

  lemma ScannedBytes(m: Node, f: Host, name: Name, fixedTime: Option<u64>)
    requires !f.kind.HostDir? && Scan(f, name, fixedTime) == Ok(Strip(m))
    ensures !m.IsDir() && (if m.size > 0 then Payload(m) else []) == HostBytes(f)
  {
  }

  lemma {:induction false} LookupStored(img: seq<byte>, n: Node, parent: nat, comps: seq<Name>)
    requires Sound(img, n, parent) && TreeLookup(n, comps).Some?
    ensures PayloadStored(img, TreeLookup(n, comps).value)
    decreases |comps|
  {
    hide InodeStored, PayloadStored, FieldsFit, DirStored;
    if comps != [] {
      var c := FindChild(n, comps[0]).value;
      SoundMember(img, n.kind.children, n.nid, c);
      LookupStored(img, c, n.nid, comps[1..]);
    }
  }

  /** Round trip: in every built image, the content at a file's or symlink's path is its host bytes. */
  lemma BuildThenRead(h: Host, fixedTime: Option<u64>, img: seq<byte>, settings: Settings, comps: seq<Name>)
    requires PlanTree(h, fixedTime).Ok? && LegalHost(h)
    requires ImageOf(img, PlanTree(h, fixedTime).value, settings)
    requires forall c :: c in comps ==> c != DOT && c != DOTDOT
    requires HostLookup(h, comps).Some? && !HostLookup(h, comps).value.kind.HostDir?
    ensures Open(img).Ok? && ValidCore(Open(img).value)
    ensures var core := Open(img).value;
            var r := ResolvePath(img, core, core.sb.rootNid, comps);
            && r.Ok? && r.value.Some? && Readable(img, core, r.value.value)
            && Content(img, core, r.value.value) == HostBytes(HostLookup(h, comps).value)
  {
    hide PlanTree, Scan, ImageOf, Open, ResolvePath, InodeOf, HostLookup, Content, Readable,
      InodeStored, PayloadStored, FieldsFit, DirStored, Legal, HostBytes;
    var root := PlanTree(h, fixedTime).value.root;
    BuiltTree(h, fixedTime, img, settings);
    OpenBuilt(img, PlanTree(h, fixedTime).value, settings);
    var core := Open(img).value;
    ResolveMeetsTree(img, core, root, FIRST_NID, comps);
    LookupScanned(h, [], fixedTime, comps);
    LookupStripped(root, comps);
    var m := TreeLookup(root, comps).value;
    ScannedBytes(m, HostLookup(h, comps).value, if comps == [] then [] else comps[|comps| - 1], fixedTime);
    LookupStored(img, root, FIRST_NID, comps);
    BuiltContent(img, core, m);
  }

  /** The handle `OpenFile` gives for a host file's path, and what its content is. */
  lemma FileFound(h: Host, fixedTime: Option<u64>, img: seq<byte>, settings: Settings, comps: seq<Name>)
    requires PlanTree(h, fixedTime).Ok? && LegalHost(h)
    requires ImageOf(img, PlanTree(h, fixedTime).value, settings)
    requires forall c :: c in comps ==> c != DOT && c != DOTDOT
    requires HostLookup(h, comps).Some? && HostLookup(h, comps).value.kind.HostFile?
    ensures Open(img).Ok? && ValidCore(Open(img).value)
    ensures var core := Open(img).value;
            var r := ResolvePath(img, core, core.sb.rootNid, comps);
            && r.Ok? && r.value.Some? && r.value.value.IsFile() && Readable(img, core, r.value.value)
            && Content(img, core, r.value.value) == HostBytes(HostLookup(h, comps).value)
  {
    hide PlanTree, ImageOf, Open, ResolvePath, HostLookup, Content, Readable, HostBytes, LegalHost;
    BuildThenRead(h, fixedTime, img, settings, comps);
    BuildThenLookup(h, fixedTime, img, settings, comps);
  }

  /** The whole way: in every built image a host file's path opens, and reads of any sizes return its
      bytes one after the other; enough reads into non-empty buffers return all of them. */
  method OpenThenRead(
      ghost h: Host, ghost fixedTime: Option<u64>, ghost settings: Settings,
      img: seq<byte>, core: Core, comps: seq<Name>, wants: seq<nat>)
    returns (output: seq<byte>)
    requires PlanTree(h, fixedTime).Ok? && LegalHost(h)
    requires ImageOf(img, PlanTree(h, fixedTime).value, settings) && Open(img) == Ok(core)
    requires forall c :: c in comps ==> c != DOT && c != DOTDOT
    requires HostLookup(h, comps).Some? && HostLookup(h, comps).value.kind.HostFile?
    ensures output <= HostBytes(HostLookup(h, comps).value)
    ensures |wants| >= |HostBytes(HostLookup(h, comps).value)| && 0 !in wants
            ==> output == HostBytes(HostLookup(h, comps).value)
  {
    hide PlanTree, ImageOf, Open, ResolvePath, HostLookup, Content, Readable, HostBytes, LegalHost;
    FileFound(h, fixedTime, img, settings, comps);
    var file := OpenFile(img, core, comps);
    var failed;
    output, failed := file.value.ReadRun(wants);
  }
}
