/** Checked address arithmetic and bounded reads over an image of any content. */
module Format {
  import opened Arithmetic
  import opened Bytes
  import opened Results

  const WORD: nat := 0x1_0000_0000_0000_0000

  /** Images are shorter than this, as every slice in memory is. */
  const IMAGE_LIMIT: nat := 0x8000_0000_0000_0000

  /** Failures of the locator, without the object each one quotes. */
  datatype LocateError =
    | ReadFailed
    | Overflow
    | OutOfBounds
    | ObjectMismatch
    | AbsentByFeature
    | UnresolvedParent
    | InvalidStructure
    | UnsupportedCapability

  type Located<+T> = Result<T, LocateError>

  /** `len` bytes from `offset` on. */
  datatype Span = Span(offset: nat, len: nat) {
    predicate IsWithin(imageLen: nat) {
      offset + len <= imageLen && offset + len < WORD
    }
  }

  /** `Span::new` and then `ensure_span`. */
  function CheckSpan(offset: nat, len: nat, imageLen: nat): (r: Located<Span>)
    ensures r.Ok? ==> r.value == Span(offset, len) && offset + len <= imageLen
    ensures offset + len <= imageLen < WORD ==> r.Ok?
  {
    if offset + len >= WORD then Err(Overflow)
    else if !Span(offset, len).IsWithin(imageLen) then Err(LocateError.OutOfBounds)
    else Ok(Span(offset, len))
  }

  /** The little-endian number of `len` bytes at `at`. */
  function NumberAt(image: seq<byte>, at: nat, len: nat): (r: nat)
    requires at + len <= |image|
    ensures r < Pow256(len)
  {
    LeValBound(image[at..at + len]);
    LeVal(image[at..at + len])
  }

  function U16At(image: seq<byte>, at: nat): u16
    requires at + 2 <= |image|
  {
    Pow256Values();
    NumberAt(image, at, 2)
  }

  function U32At(image: seq<byte>, at: nat): u32
    requires at + 4 <= |image|
  {
    Pow256Values();
    NumberAt(image, at, 4)
  }

  function U64At(image: seq<byte>, at: nat): u64
    requires at + 8 <= |image|
  {
    Pow256Values();
    NumberAt(image, at, 8)
  }

  /** Reads at an address not known to be inside the image. An address is a 64-bit word, so that
      forming one without a check is shown not to overflow. */
  function ReadU8(image: seq<byte>, at: u64): Located<byte> {
    if at < |image| then Ok(image[at]) else Err(ReadFailed)
  }

  function ReadU16(image: seq<byte>, at: u64): Located<u16> {
    if at + 2 <= |image| then Ok(U16At(image, at)) else Err(ReadFailed)
  }

  /** `checked_add` and `checked_mul`. */
  function Plus(a: nat, b: nat): (r: Located<nat>)
    ensures r.Ok? ==> r.value == a + b < WORD
    ensures a + b < WORD ==> r.Ok?
  {
    CheckedAdd(a, b, Overflow)
  }

  function Times(a: nat, b: nat): (r: Located<nat>)
    ensures r.Ok? ==> r.value == a * b < WORD
    ensures a * b < WORD ==> r.Ok?
  {
    CheckedMul(a, b, Overflow)
  }

  /** `1 << bits`, if it is a word. */
  function Shift(bits: nat): (r: Located<nat>)
    ensures r.Ok? <==> bits < 64
    ensures r.Ok? ==> r.value == Pow2(bits)
  {
    if bits < 64 then Ok(Pow2(bits)) else Err(Overflow)
  }

  /** The byte offset of an inode slot in the primary metadata. */
  function PrimaryInodeOffset(metaBlkAddr: nat, blkSizeBits: nat, nid: nat): (r: Located<nat>)
    ensures r.Ok? ==> blkSizeBits < 64 && r.value == metaBlkAddr * Pow2(blkSizeBits) + nid * 32 < WORD
  {
    var blockSize :- Shift(blkSizeBits);
    var metadata :- Times(metaBlkAddr, blockSize);
    var slot :- Times(nid, 32);
    Plus(metadata, slot)
  }

  /** Inode slots are aligned to four bytes when blocks are. */
  lemma SlotAligned(meta: nat, bits: nat, nid: nat)
    requires bits >= 2 && PrimaryInodeOffset(meta, bits, nid).Ok?
    ensures PrimaryInodeOffset(meta, bits, nid).value % 4 == 0
  {
    hide Pow2;
    FourTimes(meta, bits);
  }

  lemma RoundDown(v: nat, a: nat)
    requires a > 0
    ensures v - a < Quotient(v, a) * a <= v
    ensures Quotient(v, a) * a % a == 0
  {
    assert v == v / a * a + v % a;
    DivUnique(v / a * a, a, v / a, 0);
  }

  /** The next multiple of `alignment`. */
  function RoundUp(value: nat, alignment: nat): (r: nat)
    requires alignment > 0
    ensures value <= r < value + alignment && r % alignment == 0
  {
    RoundDown(value + alignment - 1, alignment);
    Quotient(value + alignment - 1, alignment) * alignment
  }

  /** `align_up`: the next multiple, if it can be formed. */
  function AlignUp(value: nat, alignment: nat): (r: Located<nat>)
    requires alignment > 0
    ensures r.Ok? ==> r.value < WORD
  {
    if value + alignment - 1 < WORD then Ok(RoundUp(value, alignment)) else Err(Overflow)
  }

  lemma Rounded(v: nat)
    ensures RoundUp(v, 4) == v + (if v % 4 == 0 then 0 else 4 - v % 4)
  {
  }
}
