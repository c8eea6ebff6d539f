/** The builder's tree: scanning a host tree, numbering inodes and placing payloads. */
module Trees {
  import Arithmetic
  import opened Bytes
  import opened Results
  import opened Types
  import opened Names
  import opened Sorting
  import opened DirPacking

  const FIRST_NID: nat := 36

  const NULL_BLOCK_ADDR: nat := U32_MAX

  const S_IFDIR: nat := 0x4000

  const S_IFREG: nat := 0x8000

  const S_IFLNK: nat := 0xa000

  datatype BuildError =
    | VolumeNameTooLong | NotADirectoryRoot | NameTooLong | UnsupportedFileType | TooManyBlocks | FileChanged

  type Built<+T> = Result<T, BuildError>

  /** A host file as the scan finds it. `len` is the size the scan sees, `content` what a later
      read returns; a link also says whether following it ends at a directory. */
  datatype Host = Host(mode: u32, uid: u32, gid: u32, mtime: i64, mtimeNsec: i64, kind: HostKind)
  {
    /** `Path::is_dir`, which follows links. */
    predicate IsDirPath() {
      kind.HostDir? || (kind.HostLink? && kind.leadsToDir)
    }
  }

  datatype HostKind =
    | HostDir(entries: seq<HostEntry>)
    | HostFile(len: u64, content: seq<byte>)
    | HostLink(target: seq<byte>, leadsToDir: bool)
    | HostOther

  datatype HostEntry = HostEntry(name: Name, file: Host)

  datatype Node = Node(name: Name, mode: nat, uid: u32, gid: u32, mtime: nat, mtimeNsec: nat,
                       nlink: nat, nid: nat, ino: nat, size: nat, blkaddr: nat, kind: Kind)
  {
    predicate IsDir() {
      kind.DirKind?
    }

    function GetFileType(): FileType {
      match kind
      case DirKind(_, _) => Directory
      case FileKind(_) => RegularFile
      case LinkKind(_) => Symlink
    }
  }

  datatype Kind =
    | DirKind(children: seq<Node>, data: seq<byte>)
    | FileKind(content: seq<byte>)
    | LinkKind(target: seq<byte>)

  function NodeName(n: Node): Name {
    n.name
  }

  function EntryName(e: Entry): Name {
    e.name
  }

  function CountDirs(children: seq<Node>): nat {
    if children == [] then 0 else (if children[0].IsDir() then 1 else 0) + CountDirs(children[1..])
  }

  /** The planning scan: bounds names, clamps times, sorts children, counts links. */
  function Scan(h: Host, name: Name, fixedTime: Option<u64>): Built<Node>
    decreases h
  {
    if |name| > 255 then Err(NameTooLong)
    else
      var mtime := if fixedTime.Some? then fixedTime.value else if h.mtime < 0 then 0 else h.mtime;
      var nsec := if fixedTime.Some? || h.mtimeNsec < 0 || h.mtimeNsec > U32_MAX then 0 else h.mtimeNsec;
      var perm := h.mode % 0x1000;
      var node := Node(name, perm, h.uid, h.gid, mtime, nsec, 1, 0, 0, 0, NULL_BLOCK_ADDR, FileKind([]));
      match h.kind
      case HostDir(entries) =>
        var scanned :- ScanAll(entries, fixedTime);
        var children := Sort(scanned, NodeName);
        Ok(node.(mode := perm + S_IFDIR, nlink := (2 + CountDirs(children)) % 0x1_0000_0000,
                 kind := DirKind(children, [])))
      case HostFile(len, content) =>
        Ok(node.(mode := perm + S_IFREG, size := len, kind := FileKind(content)))
      case HostLink(target, _) =>
        Ok(node.(mode := perm + S_IFLNK, size := |target|, kind := LinkKind(target)))
      case HostOther => Err(UnsupportedFileType)
  }

  function ScanAll(entries: seq<HostEntry>, fixedTime: Option<u64>): (r: Built<seq<Node>>)
    ensures r.Ok? ==> |r.value| == |entries|
    decreases entries
  {
    if entries == [] then Ok([])
    else
      var first :- Scan(entries[0].file, entries[0].name, fixedTime);
      var rest :- ScanAll(entries[1..], fixedTime);
      Ok([first] + rest)
  }

  /** The number of inodes of a subtree. */
  function Count(n: Node): (c: nat)
    ensures c >= 1
    decreases n
  {
    1 + if n.IsDir() then CountAll(n.kind.children) else 0
  }

  function CountAll(cs: seq<Node>): nat
    decreases cs
  {
    if cs == [] then 0 else Count(cs[0]) + CountAll(cs[1..])
  }

  /** Pre-order numbering: two slots per inode; the inode number is a wrapping 32-bit counter. */
  function Number(n: Node, nid: nat, ino: nat): (r: Node)
    decreases n
  {
    var kind := if n.IsDir()
                then n.kind.(children := NumberAll(n.kind.children, nid + 2, (ino + 1) % 0x1_0000_0000))
                else n.kind;
    n.(nid := nid, ino := ino, kind := kind)
  }

  function NumberAll(cs: seq<Node>, nid: nat, ino: nat): (r: seq<Node>)
    ensures |r| == |cs|
    decreases cs
  {
    if cs == [] then []
    else [Number(cs[0], nid, ino)]
         + NumberAll(cs[1..], nid + 2 * Count(cs[0]), (ino + Count(cs[0])) % 0x1_0000_0000)
  }

  /** A child's entry in its parent directory. */
  function EntryOf(child: Node): Entry {
    Entry(child.nid, child.GetFileType(), child.name)
  }

  function EntriesOf(children: seq<Node>): (r: seq<Entry>)
    ensures |r| == |children|
    ensures forall i :: 0 <= i < |r| ==> r[i] == EntryOf(children[i])
  {
    seq(|children|, i requires 0 <= i < |children| => EntryOf(children[i]))
  }

  /** A directory's entries before sorting: the dots and the children. */
  function RawEntries(nid: nat, parentNid: nat, children: seq<Node>): (r: seq<Entry>)
    ensures |r| == |children| + 2
  {
    [Entry(nid, Directory, DOT), Entry(parentNid, Directory, DOTDOT)] + EntriesOf(children)
  }

  /** A directory's entries in canonical order: dots included, everything sorted byte-wise. */
  function DirEntries(nid: nat, parentNid: nat, children: seq<Node>): (r: seq<Entry>)
    ensures |r| == |children| + 2
  {
    Sort(RawEntries(nid, parentNid, children), EntryName)
  }

  /** Everything below `n` is within the scan's bounds: name lengths, field widths, link sizes. */
  ghost predicate Bounded(n: Node)
    decreases n
  {
    && |n.name| <= 255 && n.mode <= U16_MAX && n.mtime <= U64_MAX && n.mtimeNsec <= U32_MAX
    && n.nlink <= U32_MAX && n.ino <= U32_MAX && n.blkaddr <= U32_MAX
    && (n.kind.LinkKind? ==> n.size == |n.kind.target|)
    && (n.IsDir() ==> BoundedAll(n.kind.children))
  }

  ghost predicate BoundedAll(cs: seq<Node>)
    decreases cs
  {
    cs == [] || (Bounded(cs[0]) && BoundedAll(cs[1..]))
  }

  lemma {:induction false} BoundedMember(cs: seq<Node>, c: Node)
    requires BoundedAll(cs) && c in cs
    ensures Bounded(c)
  {
    if c != cs[0] { BoundedMember(cs[1..], c); }
  }

  lemma BlocksSound(entries: seq<Entry>)
    requires entries != [] && Packable(entries)
    ensures BlocksFit(Blocks(entries)) && Greedy(Blocks(entries))
    ensures Flatten(Blocks(entries)) == entries
  {
    hide Pack, Used;
    NoneUsed();
    PackSound([], entries);
    PackFlattens([], entries);
    assert [] + entries == entries;
  }

  lemma DirEntriesPackable(nid: nat, parentNid: nat, children: seq<Node>)
    requires BoundedAll(children)
    ensures Packable(DirEntries(nid, parentNid, children))
    ensures BlocksFit(Blocks(DirEntries(nid, parentNid, children)))
  {
    hide Blocks, BlocksFit;
    var raw := RawEntries(nid, parentNid, children);
    SortMembers(raw, EntryName);
    forall e | e in DirEntries(nid, parentNid, children) ensures |e.name| <= 255 {
      assert e in raw;
      var i :| 0 <= i < |raw| && raw[i] == e;
      if i >= 2 {
        assert e == EntryOf(children[i - 2]);
        BoundedMember(children, children[i - 2]);
      }
    }
    BlocksSound(DirEntries(nid, parentNid, children));
  }

  /** Reserves whole blocks for `len` payload bytes; the start block must fit 32 bits. */
  function TakeBlocks(cursor: nat, len: nat): Built<(nat, nat)> {
    if cursor > U32_MAX then Err(TooManyBlocks) else Ok((cursor, cursor + Arithmetic.DivCeil(len, BLOCK_SIZE)))
  }

  /** Directory payloads and data blocks in pre-order, starting at block `cursor`. */
  function Place(n: Node, parentNid: nat, cursor: nat): Built<(Node, nat)>
    requires Bounded(n)
    decreases n
  {
    match n.kind
    case DirKind(children, _) =>
      DirEntriesPackable(n.nid, parentNid, children);
      var blocks := Blocks(DirEntries(n.nid, parentNid, children));
      var data := DirBytes(blocks);
      var taken :- TakeBlocks(cursor, |data|);
      var placed :- PlaceAll(children, n.nid, taken.1);
      Ok((n.(size := LogicalSize(blocks), blkaddr := taken.0, kind := DirKind(placed.0, data)), placed.1))
    case _ =>
      if n.size > 0 then
        var taken :- TakeBlocks(cursor, n.size);
        Ok((n.(blkaddr := taken.0), taken.1))
      else Ok((n, cursor))
  }

  function PlaceAll(cs: seq<Node>, parentNid: nat, cursor: nat): Built<(seq<Node>, nat)>
    requires BoundedAll(cs)
    decreases cs
  {
    if cs == [] then Ok(([], cursor))
    else
      var first :- Place(cs[0], parentNid, cursor);
      var rest :- PlaceAll(cs[1..], parentNid, first.1);
      Ok(([first.0] + rest.0, rest.1))
  }
}
