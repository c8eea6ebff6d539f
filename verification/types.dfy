/** On-disk records of the filesystem and the reader's error kinds. */
module Types {
  import opened Bytes
  import opened Results

  const SUPERBLOCK_MAGIC: nat := 0xe0f5_e1e2

  const SUPERBLOCK_OFFSET: nat := 1024

  const SUPERBLOCK_SIZE: nat := 128

  datatype Error =
    | UnexpectedEof
    | OutOfBounds
    | OutOfRange(index: nat, limit: nat)
    | InvalidSuperblock
    | NotSupported
    | InvalidLayout(code: nat)
    | InvalidFileType(code: nat)
    | BadNameOffset
    | NameHasSlash
    | SparseChunk
    | BadChunkFormat
    | AddressOverflow
    | TraversalCycle
    | DepthLimit
    | PathNotFound
    | NotADirectory
    | NotAFile

  type Outcome<+T> = Result<T, Error>

  /** The file type byte of a directory entry. */
  datatype FileType =
    | Unknown | RegularFile | Directory | CharacterDevice | BlockDevice | Fifo | Socket | Symlink
  {
    function Code(): (c: byte)
      ensures FromCode(c) == Ok(this)
    {
      match this
      case Unknown => 0
      case RegularFile => 1
      case Directory => 2
      case CharacterDevice => 3
      case BlockDevice => 4
      case Fifo => 5
      case Socket => 6
      case Symlink => 7
    }

    static function FromCode(c: byte): Outcome<FileType> {
      if c == 0 then Ok(Unknown)
      else if c == 1 then Ok(RegularFile)
      else if c == 2 then Ok(Directory)
      else if c == 3 then Ok(CharacterDevice)
      else if c == 4 then Ok(BlockDevice)
      else if c == 5 then Ok(Fifo)
      else if c == 6 then Ok(Socket)
      else if c == 7 then Ok(Symlink)
      else Err(InvalidFileType(c))
    }
  }

  /** One 12-byte directory entry header. */
  datatype Dirent = Dirent(nid: nat, nameOff: nat, fileType: byte)

  datatype Layout = FlatPlain | CompressedFull | FlatInline | CompressedCompact | ChunkBased

  /** Compact (32-byte) and extended (64-byte) inodes, each with the nid it was read at. */
  datatype Inode =
    | Compact(nid: nat, format: nat, xattrCount: nat, mode: nat, nlink: nat, size: nat,
              inodeData: nat, ino: nat, uid: nat, gid: nat)
    | Extended(nid: nat, format: nat, xattrCount: nat, mode: nat, nlink: nat, size: nat,
               inodeData: nat, ino: nat, uid: nat, gid: nat, mtime: nat, mtimeNsec: nat)
  {
    /** The data layout in bits 1 to 3 of `i_format`. */
    function GetLayout(): Outcome<Layout> {
      var code := format / 2 % 8;
      if code == 0 then Ok(FlatPlain)
      else if code == 1 then Ok(CompressedFull)
      else if code == 2 then Ok(FlatInline)
      else if code == 3 then Ok(CompressedCompact)
      else if code == 4 then Ok(ChunkBased)
      else Err(InvalidLayout(code))
    }

    function InodeSize(): nat {
      if Compact? then 32 else 64
    }

    function XattrSize(): nat {
      if xattrCount == 0 then 0 else (xattrCount - 1) * 4 + 12
    }

    predicate IsDir() {
      mode / 0x1000 % 16 == 4
    }

    predicate IsFile() {
      mode / 0x1000 % 16 == 8
    }

    predicate IsSymlink() {
      mode / 0x1000 % 16 == 10
    }
  }

  /** A little-endian field of `width` bytes at `offset`, or end of file. */
  function ReadLe(data: seq<byte>, offset: nat, width: nat): (r: Outcome<nat>)
    ensures r.Ok? <==> offset + width <= |data|
  {
    if offset + width <= |data| then Ok(LeVal(data[offset..offset + width])) else Err(UnexpectedEof)
  }
}
