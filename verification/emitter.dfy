/** Writing the placed tree into the image, in place. */
module Emitter {
  import opened Bytes
  import opened Results
  import opened DirPacking
  import opened Trees
  import opened Layout

  /** `copy_from_slice` into part of a buffer. */
  method CopyInto(buf: array<byte>, offset: nat, bytes: seq<byte>)
    requires offset + |bytes| <= buf.Length
    modifies buf
    ensures buf[..] == Blit(old(buf[..]), offset, bytes)
  {
    forall i | 0 <= i < |bytes| {
      buf[offset + i] := bytes[i];
    }
  }

  lemma BlitTwice(s: seq<byte>, offset: nat, a: seq<byte>, b: seq<byte>)
    requires offset + |a| + |b| <= |s|
    ensures Blit(Blit(s, offset, a), offset + |a|, b) == Blit(s, offset, a + b)
  {
  }

  /** Little-endian field writer over `len` bytes of a buffer. */
  class Cursor {
    const buf: array<byte>
    const start: nat
    const len: nat
    var pos: nat
    ghost const before: seq<byte>
    ghost var written: seq<byte>

    ghost predicate Valid()
      reads this, buf
    {
      && start + len <= buf.Length == |before|
      && pos == |written| <= len
      && buf[..] == Blit(before, start, written)
    }

    constructor (buf: array<byte>, start: nat, len: nat)
      requires start + len <= buf.Length
      ensures Valid() && this.buf == buf && this.start == start && this.len == len
      ensures written == [] && before == buf[..]
    {
      this.buf, this.start, this.len, pos := buf, start, len, 0;
      before, written := buf[..], [];
      new;
      assert Blit(before, start, []) == before;
    }

    method Put(bytes: seq<byte>)
      requires Valid() && |written| + |bytes| <= len
      modifies buf, this`pos, this`written
      ensures Valid() && written == old(written) + bytes
    {
      CopyInto(buf, start + pos, bytes);
      pos := pos + |bytes|;
      written := written + bytes;
      BlitTwice(before, start, old(written), bytes);
    }

    method U8(value: byte)
      requires Valid() && |written| + 1 <= len
      modifies buf, this`pos, this`written
      ensures Valid() && written == old(written) + [value]
    {
      Put([value]);
    }

    method U16(value: nat)
      requires Valid() && |written| + 2 <= len
      modifies buf, this`pos, this`written
      ensures Valid() && written == old(written) + LeBytes(value, 2)
    {
      Put(LeBytes(value, 2));
    }

    method U32(value: nat)
      requires Valid() && |written| + 4 <= len
      modifies buf, this`pos, this`written
      ensures Valid() && written == old(written) + LeBytes(value, 4)
    {
      Put(LeBytes(value, 4));
    }

    method U64(value: nat)
      requires Valid() && |written| + 8 <= len
      modifies buf, this`pos, this`written
      ensures Valid() && written == old(written) + LeBytes(value, 8)
    {
      Put(LeBytes(value, 8));
    }
  }

  lemma CursorWrote(put: Cursor)
    requires put.Valid()
    ensures put.start + |put.written| <= |put.before|
    ensures put.buf[..] == Blit(put.before, put.start, put.written)
  {
  }

  lemma BlitNothing(s: seq<byte>, offset: nat, patch: seq<byte>)
    requires offset + |patch| <= |s|
    ensures patch == [] ==> Blit(s, offset, patch) == s
  {
  }

  /** `w` followed by an inode's first 20 bytes: format to start block. */
  function PlaceOn(w: seq<byte>, n: Node): (s: seq<byte>)
    ensures |s| == |w| + 20
  {
    w + LeBytes(1, 2) + LeBytes(0, 2) + LeBytes(n.mode, 2) + LeBytes(0, 2) + LeBytes(n.size, 8)
    + LeBytes(n.blkaddr, 4)
  }

  /** `w` followed by the next 28 bytes: inode number to link count. */
  function OwnerOn(w: seq<byte>, n: Node): (s: seq<byte>)
    ensures |s| == |w| + 28
  {
    w + LeBytes(n.ino, 4) + LeBytes(n.uid, 4) + LeBytes(n.gid, 4)
    + LeBytes(n.mtime, 8) + LeBytes(n.mtimeNsec, 4) + LeBytes(n.nlink, 4)
  }

  /** The 48 bytes the builder writes of an extended inode; 16 reserved bytes stay zero behind them. */
  function InodeHead(n: Node): (s: seq<byte>)
    ensures |s| == 48
  {
    OwnerOn(PlaceOn([], n), n)
  }

  method PutPlace(put: Cursor, node: Node)
    requires put.Valid() && |put.written| + 20 <= put.len
    modifies put.buf, put`pos, put`written
    ensures put.Valid() && put.written == PlaceOn(old(put.written), node)
  {
    hide LeBytes, Blit, Cursor.Valid;
    put.U16(1);
    put.U16(0);
    put.U16(node.mode);
    put.U16(0);
    put.U64(node.size);
    put.U32(node.blkaddr);
  }

  method PutOwner(put: Cursor, node: Node)
    requires put.Valid() && |put.written| + 28 <= put.len
    modifies put.buf, put`pos, put`written
    ensures put.Valid() && put.written == OwnerOn(old(put.written), node)
  {
    hide LeBytes, Blit, Cursor.Valid;
    put.U32(node.ino);
    put.U32(node.uid);
    put.U32(node.gid);
    put.U64(node.mtime);
    put.U32(node.mtimeNsec);
    put.U32(node.nlink);
  }

  /** Writes one extended inode at its slot. */
  method WriteInode(image: array<byte>, node: Node)
    requires 32 * node.nid + 64 <= image.Length
    modifies image
    ensures image[..] == Blit(old(image[..]), 32 * node.nid, InodeHead(node))
  {
    hide PlaceOn, OwnerOn, Blit, Cursor.Valid;
    var put := new Cursor(image, node.nid * 32, 64);
    PutPlace(put, node);
    PutOwner(put, node);
    assert put.written == InodeHead(node);
    CursorWrote(put);
  }

  /** The image is long enough for the slot and payload of every node of the subtree. */
  ghost predicate Room(n: Node, length: nat)
    decreases n
  {
    && 32 * n.nid + 64 <= length
    && (n.IsDir() || PayloadLen(n) > 0 ==> BLOCK_SIZE * n.blkaddr + PayloadLen(n) <= length)
    && (n.IsDir() ==> RoomAll(n.kind.children, length))
  }

  ghost predicate RoomAll(cs: seq<Node>, length: nat)
    decreases cs
  {
    cs == [] || (Room(cs[0], length) && RoomAll(cs[1..], length))
  }

  /** One node's payload: a file is read again, and must still have the size the scan saw. */
  function EmitPayload(img: seq<byte>, n: Node): (r: Built<seq<byte>>)
    requires PayloadLen(n) > 0 ==> BLOCK_SIZE * n.blkaddr + PayloadLen(n) <= |img|
    requires n.kind.LinkKind? ==> n.size == |n.kind.target|
    ensures r.Ok? ==> |r.value| == |img|
  {
    if PayloadLen(n) == 0 then Ok(img)
    else if |Payload(n)| != PayloadLen(n) then Err(FileChanged)
    else Ok(Blit(img, BLOCK_SIZE * n.blkaddr, Payload(n)))
  }

  /** The image after emitting a subtree: inode, payload, then the children in order. */
  function Emitted(img: seq<byte>, n: Node): (r: Built<seq<byte>>)
    requires Room(n, |img|) && Bounded(n)
    ensures r.Ok? ==> |r.value| == |img|
    decreases n
  {
    var img1 := Blit(img, 32 * n.nid, InodeHead(n));
    var img2 :- EmitPayload(img1, n);
    if n.IsDir() then EmittedAll(img2, n.kind.children) else Ok(img2)
  }

  function EmittedAll(img: seq<byte>, cs: seq<Node>): (r: Built<seq<byte>>)
    requires RoomAll(cs, |img|) && BoundedAll(cs)
    ensures r.Ok? ==> |r.value| == |img|
    decreases cs
  {
    if cs == [] then Ok(img)
    else
      var img1 :- Emitted(img, cs[0]);
      EmittedAll(img1, cs[1..])
  }

  lemma EmittedAllStep(img: seq<byte>, cs: seq<Node>)
    requires RoomAll(cs, |img|) && BoundedAll(cs)
    ensures cs == [] ==> EmittedAll(img, cs) == Ok(img)
    ensures cs != [] ==> Room(cs[0], |img|) && Bounded(cs[0])
                         && RoomAll(cs[1..], |img|) && BoundedAll(cs[1..])
    ensures cs != [] ==>
      EmittedAll(img, cs) == (var img1 :- Emitted(img, cs[0]); EmittedAll(img1, cs[1..]))
  {
  }

  /** The emission pass: one array is filled in by recursion over the tree. */
  method Emit(image: array<byte>, node: Node) returns (r: Built<()>)
    requires Room(node, image.Length) && Bounded(node)
    modifies image
    ensures r.Ok? ==> Emitted(old(image[..]), node) == Ok(image[..])
    ensures r.Err? ==> Emitted(old(image[..]), node) == Err(r.error)
    decreases node
  {
    hide InodeHead, Blit;
    WriteInode(image, node);
    match node.kind {
      case DirKind(children, data) =>
        ghost var inode := image[..];
        CopyInto(image, node.blkaddr * BLOCK_SIZE, data);
        BlitNothing(inode, node.blkaddr * BLOCK_SIZE, data);
        ghost var emitted := image[..];
        assert children[0..] == children;
        for i := 0 to |children|
          invariant RoomAll(children[i..], image.Length) && BoundedAll(children[i..])
          invariant EmittedAll(emitted, children) == EmittedAll(image[..], children[i..])
        {
          assert children[i..][0] == children[i] && children[i..][1..] == children[i + 1..];
          EmittedAllStep(image[..], children[i..]);
          var _ :- Emit(image, children[i]);
        }
        EmittedAllStep(image[..], children[|children|..]);
      case FileKind(content) =>
        if node.size > 0 {
          if |content| != node.size {
            return Err(FileChanged);
          }
          CopyInto(image, node.blkaddr * BLOCK_SIZE, content);
        }
      case LinkKind(target) =>
        if target != [] {
          CopyInto(image, node.blkaddr * BLOCK_SIZE, target);
        }
    }
    return Ok(());
  }
}
