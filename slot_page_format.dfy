/** On-page types, constants and status codes of the slotted-page record manager,
    and the byte image of the page header and of a slot-directory entry.

    Every header field and every slot-entry field is a C `short`: 16 bits,
    two's complement. The byte order of the image is little-endian (the order of
    the machines the page files are written on); the record manager itself never
    reads the image byte by byte, it reinterprets the buffer as typed structs. */
module SlotPageFormat {

  /** A byte of the page buffer (a C `char` read as unsigned). */
  newtype byte = x: int | 0 <= x < 0x100

  /** The paging layer's page size. Its definition is not part of this model; a
      page must hold at least the header and one slot entry, and `freePtr`, a
      short, must be able to hold it. Left without a value, so every proof holds
      for each size in that range. */
  type PageSizeRange = x: int | 12 <= x <= 32767 witness 4096
  const PAGE_SIZE: PageSizeRange

  /** sizeof(SP_PageHeader) and sizeof(SP_SlotEntry). */
  const HEADER_SIZE: int := 8
  const SLOT_SIZE: int := 4

  /** SP_MAX_SLOTS: as many slot entries as fit between the header and the page end. */
  const MAX_SLOTS: int := (PAGE_SIZE - HEADER_SIZE) / SLOT_SIZE

  /** SP_INVALID_SLOT: "no slot", the end of the free list. */
  const NO_SLOT: int := -1
  /** The `length` of a deleted (tombstoned) slot. */
  const TOMBSTONE: int := -1

  const SHORT_MIN: int := -32768
  const SHORT_MAX: int := 32767

  predicate IsShort(x: int) {
    SHORT_MIN <= x <= SHORT_MAX
  }

  /** Conversion of a signed value to `size_t` (64 bits), as C performs it when a
      short is compared with a `sizeof` expression. */
  function AsSizeT(x: int): (r: int)
    ensures 0 <= x < 0x1_0000_0000_0000_0000 ==> r == x
    ensures x < 0 && -0x1_0000_0000_0000_0000 <= x ==> r == x + 0x1_0000_0000_0000_0000
  {
    x % 0x1_0000_0000_0000_0000
  }

  /** Conversion of an `int` to `short` as the C compiler performs it: the value
      is taken modulo 2^16 and read back as two's complement. */
  function ToShort(x: int): (r: int)
    ensures IsShort(r)
    ensures IsShort(x) ==> r == x
    ensures (r - x) % 0x1_0000 == 0
  {
    var u := x % 0x1_0000;
    if u <= SHORT_MAX then u else u - 0x1_0000
  }

  /** SP_OK, SP_ERR_NOSPACE, SP_ERR_INVALID_SLOT, SP_ERR_EMPTY. */
  datatype Status = Ok | ErrNoSpace | ErrInvalidSlot | ErrEmpty

  /** The C integer each status is returned as. */
  function Code(s: Status): (c: int)
    ensures -3 <= c <= 0
    ensures c == 0 <==> s == Ok
  {
    match s
    case Ok => 0
    case ErrNoSpace => -1
    case ErrInvalidSlot => -2
    case ErrEmpty => -3
  }

  /** Reads a returned integer back as a status; other integers are not statuses. */
  function StatusOfCode(c: int): (r: Option<Status>)
    ensures r.Some? <==> -3 <= c <= 0
  {
    if c == 0 then Some(Ok)
    else if c == -1 then Some(ErrNoSpace)
    else if c == -2 then Some(ErrInvalidSlot)
    else if c == -3 then Some(ErrEmpty)
    else None
  }

  datatype Option<T> = None | Some(value: T)

  /** The four codes are distinct: each code reads back as the status it came from. */
  lemma CodeRoundTrip(s: Status)
    ensures StatusOfCode(Code(s)) == Some(s)
  {
  }

  /** SP_PageHeader: four shorts, in this order, at byte offsets 0, 2, 4 and 6. */
  datatype PageHeader = PageHeader(slotCount: int, freeListHead: int, freePtr: int, attrLength: int)
  {
    predicate Fits() {
      IsShort(slotCount) && IsShort(freeListHead) && IsShort(freePtr) && IsShort(attrLength)
    }
  }

  /** SP_SlotEntry (declared in slot_page.c): two shorts, `offset` then `length`.
      Active: `length > 0` and `offset` is where the record starts. Tombstoned:
      `length == TOMBSTONE` and `offset` is the next free slot or NO_SLOT. */
  datatype SlotEntry = SlotEntry(offset: int, length: int)
  {
    predicate Active() { length > 0 }
    function End(): int { offset + length }
    predicate Fits() { IsShort(offset) && IsShort(length) }
  }

  /** SP_RecordRef: a record anywhere in a file is the pair (page number, slot id). */
  datatype RecordRef = RecordRef(pageNum: int, slotId: int)

  // ---------------------------------------------------------------------------
  // Byte image
  // ---------------------------------------------------------------------------

  function EncodeShort(x: int): (r: seq<byte>)
    requires IsShort(x)
    ensures |r| == 2
  {
    var u := x % 0x1_0000;
    [(u % 0x100) as byte, (u / 0x100) as byte]
  }

  function DecodeShort(lo: byte, hi: byte): (r: int)
    ensures IsShort(r)
  {
    var u := lo as int + 0x100 * hi as int;
    if u <= SHORT_MAX then u else u - 0x1_0000
  }

  lemma ShortRoundTrip(x: int)
    requires IsShort(x)
    ensures DecodeShort(EncodeShort(x)[0], EncodeShort(x)[1]) == x
  {
  }

  function EncodeHeader(h: PageHeader): (r: seq<byte>)
    requires h.Fits()
    ensures |r| == HEADER_SIZE
  {
    EncodeShort(h.slotCount) + EncodeShort(h.freeListHead) + EncodeShort(h.freePtr)
      + EncodeShort(h.attrLength)
  }

  /** The short stored at byte offset `at` of an image. */
  function ShortAt(b: seq<byte>, at: nat): (r: int)
    requires at + 2 <= |b|
    ensures IsShort(r)
  {
    DecodeShort(b[at], b[at + 1])
  }

  function DecodeHeader(b: seq<byte>): (h: PageHeader)
    requires |b| >= HEADER_SIZE
    ensures h.Fits()
  {
    PageHeader(ShortAt(b, 0), ShortAt(b, 2), ShortAt(b, 4), ShortAt(b, 6))
  }

  /** Any header whose fields are shorts reads back from its 8-byte image. */
  lemma HeaderRoundTrip(h: PageHeader)
    requires h.Fits()
    ensures DecodeHeader(EncodeHeader(h)) == h
  {
    var b := EncodeHeader(h);
    ShortRoundTrip(h.slotCount);
    ShortRoundTrip(h.freeListHead);
    ShortRoundTrip(h.freePtr);
    ShortRoundTrip(h.attrLength);
    assert b[0..2] == EncodeShort(h.slotCount);
    assert b[2..4] == EncodeShort(h.freeListHead);
    assert b[4..6] == EncodeShort(h.freePtr);
    assert b[6..8] == EncodeShort(h.attrLength);
  }

  function EncodeSlot(e: SlotEntry): (r: seq<byte>)
    requires e.Fits()
    ensures |r| == SLOT_SIZE
  {
    EncodeShort(e.offset) + EncodeShort(e.length)
  }

  predicate AllFit(d: seq<SlotEntry>) {
    forall i :: 0 <= i < |d| ==> d[i].Fits()
  }

  /** The slot directory's image: entry i at bytes [4*i, 4*i + 4) of it. */
  function EncodeDirectory(d: seq<SlotEntry>): (r: seq<byte>)
    requires AllFit(d)
    ensures |r| == SLOT_SIZE * |d|
  {
    if d == [] then [] else EncodeDirectory(d[..|d| - 1]) + EncodeSlot(d[|d| - 1])
  }

  /** The entry of slot `i` read from a page image: the shorts at 8 + 4*i and 8 + 4*i + 2. */
  function SlotAt(b: seq<byte>, i: nat): (e: SlotEntry)
    requires HEADER_SIZE + SLOT_SIZE * i + SLOT_SIZE <= |b|
    ensures e.Fits()
  {
    SlotEntry(ShortAt(b, HEADER_SIZE + SLOT_SIZE * i), ShortAt(b, HEADER_SIZE + SLOT_SIZE * i + 2))
  }

  /** The image of a header followed by a directory: each slot reads back from its place. */
  lemma {:induction false} DirectoryRoundTrip(h: PageHeader, d: seq<SlotEntry>, i: nat)
    requires h.Fits() && AllFit(d) && i < |d|
    ensures DecodeHeader(EncodeHeader(h) + EncodeDirectory(d)) == h
    ensures SlotAt(EncodeHeader(h) + EncodeDirectory(d), i) == d[i]
  {
    var hb := EncodeHeader(h);
    var n := |d| - 1;
    var prefix := EncodeDirectory(d[..n]);
    assert EncodeDirectory(d) == prefix + EncodeSlot(d[n]);
    HeaderRoundTrip(h);
    assert (hb + EncodeDirectory(d))[..HEADER_SIZE] == hb;
    if i == n {
      var at := HEADER_SIZE + SLOT_SIZE * i;
      var img := hb + EncodeDirectory(d);
      assert img == (hb + prefix) + EncodeSlot(d[n]);
      assert img[at..at + 4] == EncodeSlot(d[n]);
      ShortRoundTrip(d[n].offset);
      ShortRoundTrip(d[n].length);
    } else {
      assert d[..n][i] == d[i];
      DirectoryRoundTrip(h, d[..n], i);
      var img := hb + EncodeDirectory(d);
      assert img == (hb + prefix) + EncodeSlot(d[n]);
      var at := HEADER_SIZE + SLOT_SIZE * i;
      assert img[at] == (hb + prefix)[at];
      assert img[at + 1] == (hb + prefix)[at + 1];
      assert img[at + 2] == (hb + prefix)[at + 2];
      assert img[at + 3] == (hb + prefix)[at + 3];
    }
  }
}
