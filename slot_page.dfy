/** The slotted-page record manager: variable-length records inside one page buffer.

    [header | slot directory -> ... free ... <- records]

    The header's four shorts and the slot directory live at the start of the page
    buffer in the source, which reinterprets those bytes as structs. Here they are
    the fields `slotCount`, `freeListHead`, `freePtr`, `attrLength` and the array
    `dir` of slot entries; their byte image is given in SlotPageFormat. The page
    invariant keeps every record at or above `freePtr`, which is never below the
    end of the directory, so record bytes and directory bytes never meet. */
module SlotPage {
  import opened SlotPageFormat
  import opened SlotSpace

  /** First byte past the slot directory of `slotCount` entries. */
  function DirectoryEnd(slotCount: int): int {
    HEADER_SIZE + SLOT_SIZE * slotCount
  }

  /** The page invariant, over the header, the directory entries in use and the free
      list (the chain of tombstones from `freeListHead`, as a sequence). */
  predicate PageInvariant(h: PageHeader, d: seq<SlotEntry>, fl: seq<int>) {
    |d| == h.slotCount && h.slotCount <= MAX_SLOTS
    && DirectoryEnd(h.slotCount) <= h.freePtr <= PAGE_SIZE
    && IsShort(h.attrLength)
    && (forall i :: 0 <= i < |d| ==> d[i].Active() || d[i].length == TOMBSTONE)
    && WithinArea(d, h.freePtr, PAGE_SIZE)
    && NonOverlapping(d)
    && FreeListOf(d, h.freeListHead, fl)
  }

  /** Under the invariant every header field and every entry field is a short, so the
      page has a byte image. */
  lemma InvariantFitsShorts(h: PageHeader, d: seq<SlotEntry>, fl: seq<int>)
    requires PageInvariant(h, d, fl)
    ensures h.Fits() && AllFit(d)
  {
    forall i | 0 <= i < |d| ensures d[i].Fits() {
      if !d[i].Active() {
        var k :| 0 <= k < |fl| && fl[k] == i;
        ChainAt(d, fl, k);
        if k + 1 < |fl| {
          ChainAt(d, fl, k + 1);
        }
      }
    }
  }

  /** Under the invariant the active records fit between `freePtr` and the page end. */
  lemma UsedWithinRecordArea(h: PageHeader, d: seq<SlotEntry>, fl: seq<int>)
    requires PageInvariant(h, d, fl)
    ensures UsedOf(d) <= PAGE_SIZE - h.freePtr
  {
    UsedFits(d, h.freePtr, PAGE_SIZE);
  }

  /** SP_MAX_SLOTS is exactly the number of entries whose directory ends inside the page. */
  lemma MaxSlotsFit(slotCount: int)
    requires 0 <= slotCount
    ensures slotCount < MAX_SLOTS <==> DirectoryEnd(slotCount + 1) <= PAGE_SIZE
  {
  }

  /** The first slot id GetNextRecord examines, computed without narrowing to a short:
      it is never negative and always past the cursor. */
  function ScanStart(cursor: int): (start: int)
    ensures start >= 0 && start > cursor
    ensures cursor >= 0 ==> start == cursor + 1
  {
    if cursor < 0 then 0 else cursor + 1
  }

  /** The start as slot_page.c computes it: `cursor + 1` stored into a short. */
  function ScanStartAsWritten(cursor: int): (start: int)
    requires IsShort(cursor)
    ensures IsShort(start)
  {
    if cursor < 0 then 0 else ToShort(cursor + 1)
  }

  /** The narrowed start agrees with the intended one except at the largest cursor,
      where it wraps to -32768 and the scan would read slot entries before the page. */
  lemma ScanStartWraps(cursor: int)
    requires IsShort(cursor)
    ensures ScanStartAsWritten(cursor) == ScanStart(cursor) <==> cursor != SHORT_MAX
    ensures ScanStartAsWritten(SHORT_MAX) == SHORT_MIN < 0
  {
  }

  /** Tombstoning entries keeps the placement facts of the records that stay. */
  lemma FewerActive(d: seq<SlotEntry>, d1: seq<SlotEntry>, lo: int, hi: int)
    requires |d1| == |d| && NonOverlapping(d) && WithinArea(d, lo, hi)
    requires forall i :: 0 <= i < |d1| && d1[i].Active() ==> d1[i] == d[i]
    ensures NonOverlapping(d1) && WithinArea(d1, lo, hi)
  {
  }

  /** Pushing a fresh tombstone on the free list keeps the chain. */
  lemma PushChain(d: seq<SlotEntry>, fl: seq<int>, head: int, id: int)
    requires FreeListOf(d, head, fl) && 0 <= id < |d| && d[id].Active()
    ensures FreeListOf(d[id := SlotEntry(head, TOMBSTONE)], id, [id] + fl)
  {
    var d1 := d[id := SlotEntry(head, TOMBSTONE)];
    var fl1 := [id] + fl;
    forall k | 0 <= k < |fl| ensures fl[k] != id {
      ChainAt(d, fl, k);
    }
    forall k | 0 <= k < |fl1|
      ensures 0 <= fl1[k] < |d1| && d1[fl1[k]].length == TOMBSTONE
      ensures d1[fl1[k]].offset == NextOf(fl1, k)
    {
      if k > 0 {
        assert fl1[k] == fl[k - 1] && NextOf(fl1, k) == NextOf(fl, k - 1);
        ChainAt(d, fl, k - 1);
      }
    }
    assert Distinct(fl1);
  }

  /** Tombstoning an active slot and pushing it on the free list keeps the invariant,
      removes exactly that record and frees exactly its bytes. */
  lemma TombstoneStep(h: PageHeader, d: seq<SlotEntry>, fl: seq<int>, b: seq<byte>, id: int,
                      h1: PageHeader, d1: seq<SlotEntry>, fl1: seq<int>)
    requires PageInvariant(h, d, fl) && |b| == PAGE_SIZE && 0 <= id < |d| && d[id].Active()
    requires h1 == h.(freeListHead := id) && fl1 == [id] + fl
    requires d1 == d[id := SlotEntry(h.freeListHead, TOMBSTONE)]
    ensures InBounds(d, |b|) && InBounds(d1, |b|)
    ensures id in RecordsOf(d, b) && |RecordsOf(d, b)[id]| == d[id].length
    ensures PageInvariant(h1, d1, fl1)
    ensures RecordsOf(d1, b) == RecordsOf(d, b) - {id}
    ensures UsedOf(d1) == UsedOf(d) - d[id].length
  {
    UsedOfUpdate(d, id, SlotEntry(h.freeListHead, TOMBSTONE));
    FewerActive(d, d1, h.freePtr, PAGE_SIZE);
    PushChain(d, fl, h.freeListHead, id);
    TombstoneRecords(d, d1, b, id);
    RecordOf(d, b, id);
  }

  /** Deactivating slot `id` and nothing else removes its record and no other. */
  lemma TombstoneRecords(d: seq<SlotEntry>, d1: seq<SlotEntry>, b: seq<byte>, id: int)
    requires InBounds(d, |b|) && |d1| == |d| && 0 <= id < |d| && !d1[id].Active()
    requires forall i :: 0 <= i < |d| && i != id ==> d1[i] == d[i]
    ensures InBounds(d1, |b|)
    ensures RecordsOf(d1, b) == RecordsOf(d, b) - {id}
  {
  }

  /** Popping the head of the free list, whose slot now holds a record, keeps the rest of
      the chain: the new head is the link the popped tombstone held. */
  lemma PopChain(d: seq<SlotEntry>, fl: seq<int>, head: int, e: SlotEntry)
    requires FreeListOf(d, head, fl) && fl != [] && e.Active()
    ensures 0 <= fl[0] < |d|
    ensures FreeListOf(d[fl[0] := e], d[fl[0]].offset, fl[1..])
  {
    var d1 := d[fl[0] := e];
    var fl1 := fl[1..];
    ChainAt(d, fl, 0);
    forall k | 0 <= k < |fl1|
      ensures 0 <= fl1[k] < |d1| && d1[fl1[k]].length == TOMBSTONE
      ensures d1[fl1[k]].offset == NextOf(fl1, k)
    {
      ChainAt(d, fl, k + 1);
      assert fl1[k] == fl[k + 1] != fl[0];
      assert NextOf(fl1, k) == NextOf(fl, k + 1);
    }
    forall i | 0 <= i < |d1| && !d1[i].Active() ensures i in fl1 {
      var k :| 0 <= k < |fl| && fl[k] == i;
      assert k != 0;
      assert fl1[k - 1] == i;
    }
    assert ChainLinks(d1, fl1);
  }

  /** SP_InsertRecord's placement into a reused tombstone: the record `e` sits right below
      `freePtr`, above the directory. The invariant holds with `e` as the new `freePtr`, and
      the page holds one more record. */
  lemma PlaceInTombstone(h: PageHeader, d: seq<SlotEntry>, fl: seq<int>, b: seq<byte>,
                         b1: seq<byte>, e: SlotEntry)
    requires PageInvariant(h, d, fl) && fl != [] && |b| == PAGE_SIZE && |b1| == PAGE_SIZE
    requires e.Active() && DirectoryEnd(h.slotCount) <= e.offset && e.End() == h.freePtr
    requires forall k :: 0 <= k < |b| && !(e.offset <= k < e.End()) ==> b1[k] == b[k]
    ensures 0 <= fl[0] < |d| && InBounds(d, |b|) && fl[0] !in RecordsOf(d, b)
    ensures var d1 := d[fl[0] := e];
      PageInvariant(PageHeader(h.slotCount, d[fl[0]].offset, e.offset, h.attrLength), d1, fl[1..])
      && RecordsOf(d1, b1) == RecordsOf(d, b)[fl[0] := b1[e.offset..e.End()]]
      && UsedOf(d1) == UsedOf(d) + e.length
  {
    var id := fl[0];
    ChainAt(d, fl, 0);
    var d1 := d[id := e];
    PopChain(d, fl, h.freeListHead, e);
    UsedOfUpdate(d, id, e);
    forall i | 0 <= i < |d| && d[i].Active() ensures Disjoint(d[i], e) {
    }
    PlacementRecords(d, b, d1, b1, id, e);
    RecordOf(d, b, id);
  }

  /** A new last entry for a record right below `freePtr`, with the directory still ending at
      or below it, keeps the invariant; the free list stays empty. */
  lemma AppendKeepsInvariant(h: PageHeader, d: seq<SlotEntry>, e: SlotEntry)
    requires PageInvariant(h, d, []) && e.Active()
    requires DirectoryEnd(h.slotCount + 1) <= e.offset && e.End() == h.freePtr
    ensures PageInvariant(PageHeader(h.slotCount + 1, NO_SLOT, e.offset, h.attrLength), d + [e], [])
  {
    var d1 := d + [e];
    MaxSlotsFit(h.slotCount);
    forall i | 0 <= i < |d1| ensures d1[i].Active() {
      if i < |d| {
        assert d1[i] == d[i];
      }
    }
    forall i, j | 0 <= i < |d1| && 0 <= j < |d1| && i != j && d1[i].Active() && d1[j].Active()
      ensures Disjoint(d1[i], d1[j])
    {
      if i < |d| && j < |d| {
        assert d1[i] == d[i] && d1[j] == d[j] && Disjoint(d[i], d[j]);
      }
    }
    assert WithinArea(d1, e.offset, PAGE_SIZE);
  }

  /** SP_InsertRecord's placement into a new last slot, when the free list is empty: the
      directory grows by one entry, which still ends at or below the record. */
  lemma PlaceAppended(h: PageHeader, d: seq<SlotEntry>, fl: seq<int>, b: seq<byte>,
                      b1: seq<byte>, e: SlotEntry)
    requires PageInvariant(h, d, fl) && fl == [] && |b| == PAGE_SIZE && |b1| == PAGE_SIZE
    requires e.Active() && DirectoryEnd(h.slotCount + 1) <= e.offset && e.End() == h.freePtr
    requires forall k :: 0 <= k < |b| && !(e.offset <= k < e.End()) ==> b1[k] == b[k]
    ensures h.slotCount < MAX_SLOTS && InBounds(d, |b|) && |d| !in RecordsOf(d, b)
    ensures var d1 := d + [e];
      PageInvariant(PageHeader(h.slotCount + 1, NO_SLOT, e.offset, h.attrLength), d1, [])
      && RecordsOf(d1, b1) == RecordsOf(d, b)[|d| := b1[e.offset..e.End()]]
      && UsedOf(d1) == UsedOf(d) + e.length
  {
    var d1 := d + [e];
    MaxSlotsFit(h.slotCount);
    UsedOfAppend(d, e);
    AppendKeepsInvariant(h, d, e);
    forall i | 0 <= i < |d| && d[i].Active() ensures Disjoint(d[i], e) {
    }
    forall i | 0 <= i < |d1| && i != |d| ensures i < |d| && d1[i] == d[i] {
    }
    PlacementRecords(d, b, d1, b1, |d|, e);
    RecordOf(d, b, |d|);
  }

  /** The slot SP_InsertRecord gives a new record: the head of the free list, or else a
      new last entry. */
  function InsertSlot(d: seq<SlotEntry>, fl: seq<int>): int {
    if fl != [] then fl[0] else |d|
  }

  /** The directory in use once slot InsertSlot(d, fl) describes record `e`. */
  function InsertDirectory(d: seq<SlotEntry>, fl: seq<int>, e: SlotEntry): seq<SlotEntry>
    requires fl != [] ==> 0 <= fl[0] < |d|
  {
    if fl != [] then d[fl[0] := e] else d + [e]
  }

  /** The header once record `e` is placed: `freePtr` at the record, and either the free
      list popped or one more slot in use. */
  function InsertHeader(h: PageHeader, d: seq<SlotEntry>, fl: seq<int>, e: SlotEntry): PageHeader
    requires fl != [] ==> 0 <= fl[0] < |d|
  {
    if fl != [] then PageHeader(h.slotCount, d[fl[0]].offset, e.offset, h.attrLength)
    else PageHeader(h.slotCount + 1, NO_SLOT, e.offset, h.attrLength)
  }

  /** The free list once its head, if any, is reused. */
  function InsertFreeList(fl: seq<int>): seq<int> {
    if fl != [] then fl[1..] else []
  }

  /** Room for a record of `len` bytes, and a new slot entry unless the free list has a
      tombstone to reuse: the free list is empty exactly when its head is "no slot". */
  lemma RoomToPlace(h: PageHeader, d: seq<SlotEntry>, fl: seq<int>, len: int)
    requires PageInvariant(h, d, fl)
    requires len + (if h.freeListHead == NO_SLOT then SLOT_SIZE else 0) <= h.freePtr - DirectoryEnd(h.slotCount)
    ensures h.freeListHead == NO_SLOT <==> fl == []
    ensures DirectoryEnd(h.slotCount) + len + (if fl == [] then SLOT_SIZE else 0) <= h.freePtr <= PAGE_SIZE
    ensures fl != [] ==> 0 <= fl[0] < |d|
  {
    if fl != [] {
      ChainAt(d, fl, 0);
    }
  }

  /** The whole of SP_InsertRecord's placement on a page with room for it: `data` is
      written just below `freePtr` (`b1`), and slot InsertSlot(d, fl) describes it. The
      header, directory and free list after it (`h1`, `d1`, `fl1`) keep the invariant,
      and the page holds `data` as one more record. */
  lemma Placement(h: PageHeader, d: seq<SlotEntry>, fl: seq<int>, b: seq<byte>, data: seq<byte>,
                  h1: PageHeader, d1: seq<SlotEntry>, fl1: seq<int>, b1: seq<byte>)
    requires PageInvariant(h, d, fl) && |b| == PAGE_SIZE && 0 < |data|
    requires DirectoryEnd(h.slotCount) + |data| + (if fl == [] then SLOT_SIZE else 0) <= h.freePtr
    requires fl != [] ==> 0 <= fl[0] < |d|
    requires b1 == b[..h.freePtr - |data|] + data + b[h.freePtr..]
    requires var e := SlotEntry(h.freePtr - |data|, |data|);
      h1 == InsertHeader(h, d, fl, e) && d1 == InsertDirectory(d, fl, e) && fl1 == InsertFreeList(fl)
    ensures PageInvariant(h1, d1, fl1) && InBounds(d, |b|) && InBounds(d1, |b1|)
    ensures InsertSlot(d, fl) !in RecordsOf(d, b)
    ensures RecordsOf(d1, b1) == RecordsOf(d, b)[InsertSlot(d, fl) := data]
    ensures UsedOf(d1) == UsedOf(d) + |data|
  {
    var e := SlotEntry(h.freePtr - |data|, |data|);
    Spliced(b, b1, e.offset, data);
    if fl != [] {
      PlaceInTombstone(h, d, fl, b, b1, e);
    } else {
      PlaceAppended(h, d, fl, b, b1, e);
    }
  }

  /** Record `id` moving to `to`, its bytes with it, onto bytes no other record uses:
      every record keeps its bytes. */
  lemma MoveRecords(d: seq<SlotEntry>, b: seq<byte>, b1: seq<byte>, id: int, to: int)
    requires InBounds(d, |b|) && |b1| == |b|
    requires 0 <= id < |d| && d[id].Active() && 0 <= to && to + d[id].length <= |b|
    requires forall j :: 0 <= j < |d| && j != id && d[j].Active() ==>
      Disjoint(d[j], SlotEntry(to, d[id].length))
    requires forall k {:trigger b1[k]} :: 0 <= k < |b| ==>
      b1[k] == if to <= k < to + d[id].length then b[k - to + d[id].offset] else b[k]
    ensures RecordsOf(d[id := SlotEntry(to, d[id].length)], b1) == RecordsOf(d, b)
  {
    var e := SlotEntry(to, d[id].length);
    var d1 := d[id := e];
    var dm := d[id := SlotEntry(NO_SLOT, TOMBSTONE)];
    TombstoneRecords(d, dm, b, id);
    forall k | 0 <= k < |b| && !(to <= k < e.End()) ensures b1[k] == b[k] {
      assert !(to <= k < to + d[id].length);
    }
    PlacementRecords(dm, b, d1, b1, id, e);
    var r := RecordsOf(d, b);
    RecordOf(d, b, id);
    assert b1[to..e.End()] == r[id] by {
      forall k | 0 <= k < e.length ensures b1[to..e.End()][k] == r[id][k] {
        assert b1[to + k] == b[d[id].offset + k];
      }
    }
    assert (r - {id})[id := r[id]] == r;
  }

  /** One step of SP_CompactPage's repacking: record `id` moves to `to`, above `freePtr`,
      onto bytes no other record uses. The invariant still holds. */
  lemma MoveKeepsInvariant(h: PageHeader, d: seq<SlotEntry>, fl: seq<int>, id: int, to: int)
    requires PageInvariant(h, d, fl)
    requires 0 <= id < |d| && d[id].Active()
    requires h.freePtr <= to && to + d[id].length <= PAGE_SIZE
    requires forall j :: 0 <= j < |d| && j != id && d[j].Active() ==>
      Disjoint(d[j], SlotEntry(to, d[id].length))
    ensures PageInvariant(h, d[id := SlotEntry(to, d[id].length)], fl)
  {
    var d1 := d[id := SlotEntry(to, d[id].length)];
    forall k | 0 <= k < |fl| ensures fl[k] != id {
      ChainAt(d, fl, k);
    }
    forall k | 0 <= k < |fl|
      ensures 0 <= fl[k] < |d1| && d1[fl[k]].length == TOMBSTONE
      ensures d1[fl[k]].offset == NextOf(fl, k)
    {
      ChainAt(d, fl, k);
    }
    assert FreeListOf(d1, h.freeListHead, fl);
  }

  /** Compaction moves records and nothing else: every entry keeps its length, and every
      entry that is not an active slot below `count` keeps its offset too. */
  predicate OnlyMoved(d0: seq<SlotEntry>, d1: seq<SlotEntry>, count: int) {
    |d0| == |d1|
    && forall x :: 0 <= x < |d0| ==>
      d1[x].length == d0[x].length && (!(x < count && d0[x].Active()) ==> d1[x] == d0[x])
  }

  /** Records that lay one below the other still do. */
  predicate KeepsOrder(d0: seq<SlotEntry>, d1: seq<SlotEntry>) {
    |d0| == |d1|
    && forall x, y ::
      (0 <= x < |d0| && 0 <= y < |d0| && d0[x].Active() && d0[y].Active() && d0[x].offset < d0[y].offset)
      ==> d1[x].End() <= d1[y].offset
  }

  /** The records of `ord` from position `i` on have not moved yet. */
  predicate Unmoved(d0: seq<SlotEntry>, d: seq<SlotEntry>, ord: seq<int>, i: int) {
    forall k :: 0 <= i <= k < |ord| ==> 0 <= ord[k] < |d| == |d0| && d[ord[k]] == d0[ord[k]]
  }

  /** The records of `ord` before position `i` have moved, each to at or above `fp`. */
  predicate MovedAbove(d: seq<SlotEntry>, ord: seq<int>, i: int, fp: int) {
    forall k :: 0 <= k < i <= |ord| ==> 0 <= ord[k] < |d| && fp <= d[ord[k]].offset
  }

  /** The records of `ord` before position `i` lie each one below the one before it. */
  predicate Stacked(d: seq<SlotEntry>, ord: seq<int>, i: int) {
    forall k1, k2 :: 0 <= k1 < k2 < i <= |ord| ==>
      0 <= ord[k1] < |d| && 0 <= ord[k2] < |d| && d[ord[k2]].End() <= d[ord[k1]].offset
  }

  /** The state of SP_CompactPage's repacking loop after `i` records of `ord` have moved.
      `d0`/`b0` are the directory in use and the page bytes before compaction, `d`/`b` the
      current ones and `fp` the loop's free pointer. The moved records lie from `fp` up, each
      below the one moved before it; the others are where they were; the page invariant and
      the records are as before; and when the page was packed already, nothing changes. */
  ghost predicate Repacked(h: PageHeader, fl: seq<int>, d0: seq<SlotEntry>, b0: seq<byte>,
                           ord: seq<int>, i: int, fp: int, d: seq<SlotEntry>, b: seq<byte>)
  {
    |d0| == |d| && |b0| == PAGE_SIZE == |b|
    && PageInvariant(h, d0, fl) && RepackOrder(ord, d0)
    && 0 <= i <= |ord| && AllIndices(ord[..i], d0)
    && fp == PAGE_SIZE - LengthSum(ord[..i], d0)
    && PageInvariant(h, d, fl)
    && RecordsOf(d, b) == RecordsOf(d0, b0)
    && OnlyMoved(d0, d, |d0|)
    && Unmoved(d0, d, ord, i) && MovedAbove(d, ord, i, fp) && Stacked(d, ord, i)
    && (h.freePtr == PAGE_SIZE - UsedOf(d0) ==> d == d0 && b == b0)
  }

  /** Before any record has moved. */
  lemma RepackStart(h: PageHeader, fl: seq<int>, d0: seq<SlotEntry>, b0: seq<byte>, ord: seq<int>)
    requires |b0| == PAGE_SIZE && PageInvariant(h, d0, fl) && RepackOrder(ord, d0)
    ensures InBounds(d0, |b0|)
    ensures Repacked(h, fl, d0, b0, ord, 0, PAGE_SIZE, d0, b0)
  {
    assert ord[..0] == [];
  }

  /** Where the next record goes: into the record area, below `fp`, at or above its place;
      and it overlaps none of the other records on the page. */
  lemma RepackNext(h: PageHeader, fl: seq<int>, d0: seq<SlotEntry>, b0: seq<byte>,
                   ord: seq<int>, i: int, fp: int, d: seq<SlotEntry>, b: seq<byte>)
    requires Repacked(h, fl, d0, b0, ord, i, fp, d, b) && i < |ord|
    ensures 0 <= ord[i] < |d| && d[ord[i]] == d0[ord[i]] && d0[ord[i]].Active()
    ensures HEADER_SIZE <= h.freePtr <= d0[ord[i]].offset <= fp - d0[ord[i]].length
    ensures fp <= PAGE_SIZE
    ensures AllIndices(ord[..i + 1], d0)
    ensures fp - d0[ord[i]].length == PAGE_SIZE - LengthSum(ord[..i + 1], d0)
    ensures h.freePtr == PAGE_SIZE - UsedOf(d0) ==> fp - d0[ord[i]].length == d0[ord[i]].offset
    ensures forall k :: i < k < |ord| ==> d0[ord[k]].End() <= d0[ord[i]].offset
  {
    RepackStep(ord, d0, h.freePtr, PAGE_SIZE, i);
    assert LengthSum(ord[..i], d0) >= 0 by {
      assert AllActive(ord[..i], d0);
    }
    assert LengthSum(ord[i + 1..], d0) >= 0 by {
      assert AllActive(ord[i + 1..], d0);
    }
  }

  /** The place of the next record overlaps none of the other records on the page. */
  lemma MovedDisjoint(d0: seq<SlotEntry>, d: seq<SlotEntry>, ord: seq<int>, i: int, fp: int, e: SlotEntry)
    requires RepackOrder(ord, d0) && OnlyMoved(d0, d, |d0|) && 0 <= i < |ord|
    requires Unmoved(d0, d, ord, i) && MovedAbove(d, ord, i, fp)
    requires e.End() <= fp && forall k :: i < k < |ord| ==> d0[ord[k]].End() <= e.offset
    ensures forall j :: 0 <= j < |d| && j != ord[i] && d[j].Active() ==> Disjoint(d[j], e)
  {
    forall j | 0 <= j < |d| && j != ord[i] && d[j].Active() ensures Disjoint(d[j], e) {
      assert d0[j].Active() && j in ord;
      var k :| 0 <= k < |ord| && ord[k] == j;
    }
  }

  /** Moving record ord[i] to `e` keeps the three placement facts, one position further. */
  lemma MovedStep(d0: seq<SlotEntry>, d: seq<SlotEntry>, ord: seq<int>, i: int, fp: int, e: SlotEntry)
    requires Distinct(ord) && 0 <= i < |ord| && 0 <= ord[i] < |d|
    requires Unmoved(d0, d, ord, i) && MovedAbove(d, ord, i, fp) && Stacked(d, ord, i)
    requires e.End() == fp && e.offset <= fp
    ensures Unmoved(d0, d[ord[i] := e], ord, i + 1)
    ensures MovedAbove(d[ord[i] := e], ord, i + 1, e.offset)
    ensures Stacked(d[ord[i] := e], ord, i + 1)
  {
    var d1 := d[ord[i] := e];
    forall k | 0 <= i + 1 <= k < |ord| ensures 0 <= ord[k] < |d1| == |d0| && d1[ord[k]] == d0[ord[k]] {
      assert ord[k] != ord[i];
    }
    forall k | 0 <= k < i + 1 <= |ord| ensures 0 <= ord[k] < |d1| && e.offset <= d1[ord[k]].offset {
      if k < i {
        assert ord[k] != ord[i];
      }
    }
    forall k1, k2 | 0 <= k1 < k2 < i + 1 <= |ord|
      ensures 0 <= ord[k1] < |d1| && 0 <= ord[k2] < |d1| && d1[ord[k2]].End() <= d1[ord[k1]].offset
    {
      assert ord[k1] != ord[i];
      if k2 < i {
        assert ord[k2] != ord[i];
      }
    }
  }

  /** The byte image after the next record of the repack order moves to just below `fp`. */
  predicate MovedBytes(b: seq<byte>, b1: seq<byte>, to: int, from: int, len: int)
    requires 0 <= to && 0 <= from && to + len <= |b| && from + len <= |b|
  {
    |b1| == |b| &&
    forall k {:trigger b1[k]} :: 0 <= k < |b| ==>
      b1[k] == if to <= k < to + len then b[k - to + from] else b[k]
  }

  /** The next record of the repack order, moved to just below `fp`, keeps its bytes, and
      so does every other record. */
  lemma AdvanceRecords(d0: seq<SlotEntry>, ord: seq<int>, i: int, fp: int, d: seq<SlotEntry>,
                       b: seq<byte>, b1: seq<byte>)
    requires RepackOrder(ord, d0) && OnlyMoved(d0, d, |d0|) && 0 <= i < |ord|
    requires Unmoved(d0, d, ord, i) && MovedAbove(d, ord, i, fp) && InBounds(d, |b|)
    requires 0 <= ord[i] < |d| && d[ord[i]] == d0[ord[i]] && d0[ord[i]].Active()
    requires 0 <= d0[ord[i]].offset <= fp - d0[ord[i]].length && fp <= |b|
    requires MovedBytes(b, b1, fp - d0[ord[i]].length, d0[ord[i]].offset, d0[ord[i]].length)
    requires forall k :: i < k < |ord| ==> d0[ord[k]].End() <= d0[ord[i]].offset
    ensures RecordsOf(d[ord[i] := SlotEntry(fp - d0[ord[i]].length, d0[ord[i]].length)], b1)
      == RecordsOf(d, b)
  {
    var e := SlotEntry(fp - d0[ord[i]].length, d0[ord[i]].length);
    MovedDisjoint(d0, d, ord, i, fp, e);
    MoveRecords(d, b, b1, ord[i], e.offset);
  }

  /** The next record of the repack order, moved to just below `fp`, keeps the invariant. */
  lemma AdvanceInvariant(h: PageHeader, fl: seq<int>, d0: seq<SlotEntry>,
                         ord: seq<int>, i: int, fp: int, d: seq<SlotEntry>)
    requires RepackOrder(ord, d0) && OnlyMoved(d0, d, |d0|) && 0 <= i < |ord|
    requires Unmoved(d0, d, ord, i) && MovedAbove(d, ord, i, fp) && PageInvariant(h, d, fl)
    requires 0 <= ord[i] < |d| && d[ord[i]] == d0[ord[i]] && d0[ord[i]].Active()
    requires h.freePtr <= d0[ord[i]].offset <= fp - d0[ord[i]].length && fp <= PAGE_SIZE
    requires forall k :: i < k < |ord| ==> d0[ord[k]].End() <= d0[ord[i]].offset
    ensures PageInvariant(h, d[ord[i] := SlotEntry(fp - d0[ord[i]].length, d0[ord[i]].length)], fl)
  {
    var e := SlotEntry(fp - d0[ord[i]].length, d0[ord[i]].length);
    MovedDisjoint(d0, d, ord, i, fp, e);
    MoveKeepsInvariant(h, d, fl, ord[i], e.offset);
  }

  /** The next record of the repack order, moved to just below `fp`, keeps the placement
      facts one position further on. */
  lemma AdvancePlacement(d0: seq<SlotEntry>, ord: seq<int>, i: int, fp: int, d: seq<SlotEntry>)
    requires Distinct(ord) && OnlyMoved(d0, d, |d0|) && 0 <= i < |ord|
    requires Unmoved(d0, d, ord, i) && MovedAbove(d, ord, i, fp) && Stacked(d, ord, i)
    requires 0 <= ord[i] < |d| && d0[ord[i]].Active() && d0[ord[i]].length <= fp
    ensures var d1 := d[ord[i] := SlotEntry(fp - d0[ord[i]].length, d0[ord[i]].length)];
      OnlyMoved(d0, d1, |d0|) && Unmoved(d0, d1, ord, i + 1)
      && MovedAbove(d1, ord, i + 1, fp - d0[ord[i]].length) && Stacked(d1, ord, i + 1)
  {
    MovedStep(d0, d, ord, i, fp, SlotEntry(fp - d0[ord[i]].length, d0[ord[i]].length));
  }

  /** On a page that was packed already, the next record stays where it is. */
  lemma AdvancePacked(d: seq<SlotEntry>, b: seq<byte>, b1: seq<byte>, id: int, e: SlotEntry)
    requires 0 <= id < |d| && d[id] == e && 0 <= e.offset && 0 <= e.length && e.End() <= |b|
    requires MovedBytes(b, b1, e.offset, e.offset, e.length)
    ensures d[id := e] == d && b1 == b
  {
    assert forall k :: 0 <= k < |b| ==> b1[k] == b[k];
  }

  /** One turn of the repacking loop keeps the loop's state. */
  lemma RepackAdvance(h: PageHeader, fl: seq<int>, d0: seq<SlotEntry>, b0: seq<byte>,
                      ord: seq<int>, i: int, fp: int, d: seq<SlotEntry>, b: seq<byte>, b1: seq<byte>)
    requires Repacked(h, fl, d0, b0, ord, i, fp, d, b) && i < |ord|
    requires 0 <= ord[i] < |d| && 0 <= d0[ord[i]].offset && 0 <= d0[ord[i]].length
    requires 0 <= fp - d0[ord[i]].length && fp <= |b| && d0[ord[i]].End() <= |b|
    requires MovedBytes(b, b1, fp - d0[ord[i]].length, d0[ord[i]].offset, d0[ord[i]].length)
    ensures Repacked(h, fl, d0, b0, ord, i + 1, fp - d0[ord[i]].length,
                     d[ord[i] := SlotEntry(fp - d0[ord[i]].length, d0[ord[i]].length)], b1)
  {
    RepackNext(h, fl, d0, b0, ord, i, fp, d, b);
    RepackTotal(ord, d0);
    assert InBounds(d, |b|) by {
      assert WithinArea(d, h.freePtr, PAGE_SIZE);
    }
    AdvanceRecords(d0, ord, i, fp, d, b, b1);
    AdvanceInvariant(h, fl, d0, ord, i, fp, d);
    AdvancePlacement(d0, ord, i, fp, d);
    if h.freePtr == PAGE_SIZE - UsedOf(d0) {
      var e := SlotEntry(fp - d0[ord[i]].length, d0[ord[i]].length);
      assert e == d0[ord[i]] == d[ord[i]];
      AdvancePacked(d, b, b1, ord[i], e);
      assert d == d0 && b == b0;
    }
  }

  /** Every record ends at or below `hi` and each listed one starts at or above `fp`:
      with every active slot listed, all of them lie in [fp, hi). */
  lemma MovedWithin(d0: seq<SlotEntry>, d: seq<SlotEntry>, ord: seq<int>, fp: int, lo: int, hi: int)
    requires RepackOrder(ord, d0) && OnlyMoved(d0, d, |d0|)
    requires MovedAbove(d, ord, |ord|, fp) && WithinArea(d, lo, hi)
    ensures WithinArea(d, fp, hi)
  {
    forall x | 0 <= x < |d| && d[x].Active() ensures fp <= d[x].offset {
      assert d0[x].Active() && x in ord;
      var k :| 0 <= k < |ord| && ord[k] == x;
    }
  }

  /** Stacked in the repack order, which runs by decreasing old offset: the old order holds. */
  lemma StackedKeepsOrder(d0: seq<SlotEntry>, d: seq<SlotEntry>, ord: seq<int>)
    requires RepackOrder(ord, d0) && |d0| == |d| && Stacked(d, ord, |ord|)
    ensures KeepsOrder(d0, d)
  {
    forall x, y | 0 <= x < |d0| && 0 <= y < |d0| && d0[x].Active() && d0[y].Active()
      && d0[x].offset < d0[y].offset
      ensures d[x].End() <= d[y].offset
    {
      assert x in ord && y in ord;
      var kx :| 0 <= kx < |ord| && ord[kx] == x;
      var ky :| 0 <= ky < |ord| && ord[ky] == y;
      assert ky < kx;
    }
  }

  /** When every record has moved: they all lie from the final `fp` up, packed against the
      page end in their old order, and `fp` is the page size less the bytes in use. */
  lemma RepackDone(h: PageHeader, fl: seq<int>, d0: seq<SlotEntry>, b0: seq<byte>,
                   ord: seq<int>, fp: int, d: seq<SlotEntry>, b: seq<byte>)
    requires Repacked(h, fl, d0, b0, ord, |ord|, fp, d, b)
    ensures fp == PAGE_SIZE - UsedOf(d0)
    ensures h.freePtr <= fp && WithinArea(d, fp, PAGE_SIZE)
    ensures KeepsOrder(d0, d)
    ensures h.freePtr == fp ==> d == d0 && b == b0
  {
    RepackTotal(ord, d0);
    assert ord[..|ord|] == ord;
    UsedWithinRecordArea(h, d0, fl);
    MovedWithin(d0, d, ord, fp, h.freePtr, PAGE_SIZE);
    StackedKeepsOrder(d0, d, ord);
  }

  /** memcpy into the page: `src` lands at [dst, dst + |src|) and no other byte changes. */
  method CopyBytes(a: array<byte>, dst: int, src: seq<byte>)
    requires 0 <= dst && dst + |src| <= a.Length
    modifies a
    ensures a[..] == old(a[..])[..dst] + src + old(a[..])[dst + |src|..]
  {
    forall k | dst <= k < dst + |src| {
      a[k] := src[k - dst];
    }
  }

  /** The bytes of a page after a copy into [dst, dst + |src|): the copy is there and
      every other byte is as it was. */
  lemma Spliced(b: seq<byte>, b1: seq<byte>, dst: int, src: seq<byte>)
    requires 0 <= dst && dst + |src| <= |b| && b1 == b[..dst] + src + b[dst + |src|..]
    ensures |b1| == |b| && b1[dst..dst + |src|] == src
    ensures forall k :: 0 <= k < |b| && !(dst <= k < dst + |src|) ==> b1[k] == b[k]
  {
    assert b1[dst..dst + |src|] == src;
  }

  /** memmove inside the page: the n bytes at `from`, as they were before the call, land
      at `dst`, also when the two ranges overlap; no other byte changes. */
  method MoveBytes(a: array<byte>, dst: int, from: int, n: int)
    requires 0 <= dst && 0 <= from && 0 <= n && dst + n <= a.Length && from + n <= a.Length
    modifies a
    ensures MovedBytes(old(a[..]), a[..], dst, from, n)
  {
    var saved := a[from..from + n];
    CopyBytes(a, dst, saved);
    Spliced(old(a[..]), a[..], dst, saved);
  }

  /** Bytes outside [lo, hi) did not change, so neither did a slice that avoids it. */
  lemma SliceOutside(s: seq<byte>, t: seq<byte>, lo: int, hi: int, a: int, b: int)
    requires |s| == |t| && 0 <= a <= b <= |s| && (b <= lo || hi <= a)
    requires forall k :: 0 <= k < |s| && !(lo <= k < hi) ==> s[k] == t[k]
    ensures s[a..b] == t[a..b]
  {
    assert forall k :: 0 <= k < b - a ==> s[a..b][k] == s[a + k] && t[a..b][k] == t[a + k];
  }

  /** Placing record `e` in slot `id` (a tombstone or the new last entry) and writing its
      bytes adds exactly that record and leaves every other record as it was. */
  lemma {:induction false} PlacementRecords(d0: seq<SlotEntry>, b0: seq<byte>, d1: seq<SlotEntry>,
                                            b1: seq<byte>, id: int, e: SlotEntry)
    requires |b0| == |b1| && InBounds(d0, |b0|)
    requires e.Active() && 0 <= e.offset && e.End() <= |b1|
    requires |d1| == |d0| || |d1| == |d0| + 1
    requires 0 <= id < |d1| && d1[id] == e && (id < |d0| ==> !d0[id].Active())
    requires forall i :: 0 <= i < |d1| && i != id ==> i < |d0| && d1[i] == d0[i]
    requires forall i :: 0 <= i < |d0| && d0[i].Active() ==> Disjoint(d0[i], e)
    requires forall k :: 0 <= k < |b0| && !(e.offset <= k < e.End()) ==> b1[k] == b0[k]
    ensures InBounds(d1, |b1|)
    ensures RecordsOf(d1, b1) == RecordsOf(d0, b0)[id := b1[e.offset..e.End()]]
  {
    var r0, r1 := RecordsOf(d0, b0), RecordsOf(d1, b1);
    forall i | i in r1 && i != id ensures i in r0 && r1[i] == r0[i] {
      SliceOutside(b1, b0, e.offset, e.End(), d0[i].offset, d0[i].End());
    }
    forall i | i in r0 ensures i in r1 {
      assert i != id && d1[i] == d0[i];
    }
  }

  /** Raising the free pointer over a gap that holds no record keeps the invariant. */
  lemma RaiseFreePtr(h: PageHeader, d: seq<SlotEntry>, fl: seq<int>, fp: int)
    requires PageInvariant(h, d, fl) && h.freePtr <= fp <= PAGE_SIZE && WithinArea(d, fp, PAGE_SIZE)
    ensures PageInvariant(h.(freePtr := fp), d, fl)
  {
  }

  /** Moving records leaves the total record length as it was. */
  lemma OnlyMovedUsed(d0: seq<SlotEntry>, d: seq<SlotEntry>)
    requires OnlyMoved(d0, d, |d0|)
    ensures UsedOf(d) == UsedOf(d0)
  {
    UsedOfSameLengths(d0, d);
  }

  /** Two sequences that agree below and from `k` are equal. */
  lemma SlicesJoin<T>(s: seq<T>, t: seq<T>, k: int)
    requires 0 <= k <= |s| == |t| && s[..k] == t[..k] && s[k..] == t[k..]
    ensures s == t
  {
    assert s == s[..k] + s[k..] && t == t[..k] + t[k..];
  }

  class SlottedPage {
    /** The page buffer, PAGE_SIZE bytes, handed in by the paging layer. */
    const bytes: array<byte>
    /** The slot directory: entry i describes slot id i; the first `slotCount` are in use. */
    const dir: array<SlotEntry>

    var slotCount: int
    var freeListHead: int
    var freePtr: int
    var attrLength: int

    /** The free list, head first, as `offset` links thread it through the tombstones. */
    ghost var freeList: seq<int>

    ghost predicate Shape() {
      bytes.Length == PAGE_SIZE && dir.Length == MAX_SLOTS
    }

    function Header(): PageHeader
      reads this
    {
      PageHeader(slotCount, freeListHead, freePtr, attrLength)
    }

    function Directory(): seq<SlotEntry>
      reads this, dir
      requires 0 <= slotCount <= dir.Length
    {
      dir[..slotCount]
    }

    ghost predicate Valid()
      reads this, dir
    {
      Shape() && 0 <= slotCount <= MAX_SLOTS && PageInvariant(Header(), dir[..slotCount], freeList)
    }

    /** The records the page holds: each active slot id with the bytes of its record. */
    ghost function Records(): map<int, seq<byte>>
      reads this, bytes, dir
      requires Valid()
    {
      RecordsOf(dir[..slotCount], bytes[..])
    }

    /** The free space a compaction would leave: page minus header, directory and records. */
    ghost function FreeAfterCompaction(): int
      reads this, dir
      requires Valid()
    {
      PAGE_SIZE - DirectoryEnd(slotCount) - UsedOf(dir[..slotCount])
    }

    /** The bytes an insert of `length` needs: the record, and a new directory entry
        unless a tombstoned one can be reused. */
    function Needed(length: int): int
      reads this
    {
      length + if freeListHead == NO_SLOT then SLOT_SIZE else 0
    }

    /** A page buffer handed in by the paging layer, not yet initialized. */
    constructor Attach(buffer: array<byte>)
      requires buffer.Length == PAGE_SIZE
      ensures bytes == buffer && fresh(dir) && Shape()
    {
      bytes := buffer;
      dir := new SlotEntry[MAX_SLOTS](_ => SlotEntry(0, 0));
      slotCount, freeListHead, freePtr, attrLength := 0, 0, 0, 0;
      freeList := [];
    }

    /** SP_InitPage: zero the page, no slots, empty free list, free space from the page end. */
    method InitPage()
      requires Shape()
      modifies this, bytes, dir
      ensures Valid()
      ensures forall k :: 0 <= k < bytes.Length ==> bytes[k] == 0
      ensures Header() == PageHeader(0, NO_SLOT, PAGE_SIZE, 0) && freeList == []
      ensures Records() == map[]
      ensures FreeSpace() == PAGE_SIZE - HEADER_SIZE && UsedOf(Directory()) == 0
    {
      forall k | 0 <= k < bytes.Length {
        bytes[k] := 0;
      }
      // the directory is part of the zeroed buffer
      forall k | 0 <= k < dir.Length {
        dir[k] := SlotEntry(0, 0);
      }
      slotCount := 0;
      freeListHead := NO_SLOT;
      freePtr := PAGE_SIZE;
      attrLength := 0;
      freeList := [];
    }

    /** SP_PageFreeSpace: the gap between the directory and the records. It is never
        negative and never more than a compaction would free. */
    function FreeSpace(): (r: int)
      reads this, dir
      requires Valid()
      ensures 0 <= r <= FreeAfterCompaction()
    {
      UsedWithinRecordArea(Header(), dir[..slotCount], freeList);
      freePtr - DirectoryEnd(slotCount)
    }

    /** SP_PageUsedBytes: the total length of the active records. */
    method UsedBytes() returns (used: int)
      requires Valid()
      ensures used == UsedOf(Directory())
      ensures 0 <= used <= PAGE_SIZE - freePtr
    {
      used := 0;
      var i := 0;
      while i < slotCount
        invariant 0 <= i <= slotCount
        invariant used == UsedOf(dir[..i])
      {
        assert dir[..i + 1][..i] == dir[..i];
        if dir[i].length > 0 {
          used := used + dir[i].length;
        }
        i := i + 1;
      }
      UsedWithinRecordArea(Header(), dir[..slotCount], freeList);
    }

    /** SP_ReserveSlot: pop the free list, or else append a directory entry, or else report
        that the directory is full. The entry itself is left for the caller to fill. */
    method ReserveSlot() returns (slotId: int)
      requires Shape() && 0 <= slotCount <= MAX_SLOTS
      requires FreeListOf(Directory(), freeListHead, freeList)
      modifies this
      ensures freePtr == old(freePtr) && attrLength == old(attrLength)
      ensures old(freeListHead) != NO_SLOT ==>
        0 <= slotId < slotCount && slotId == old(freeList)[0]
        && slotCount == old(slotCount) && freeListHead == dir[slotId].offset
        && freeList == old(freeList)[1..]
      ensures old(freeListHead) == NO_SLOT && old(slotCount) < MAX_SLOTS ==>
        slotId == old(slotCount) && slotCount == old(slotCount) + 1
        && freeListHead == NO_SLOT && freeList == old(freeList) == []
      ensures old(freeListHead) == NO_SLOT && old(slotCount) >= MAX_SLOTS ==>
        slotId == Code(ErrNoSpace) && unchanged(this)
    {
      if freeListHead != NO_SLOT {
        slotId := freeListHead;
        freeListHead := dir[slotId].offset;
        freeList := freeList[1..];
        return;
      }
      // the source compares the short slotCount with an unsigned size
      if AsSizeT(slotCount) >= MAX_SLOTS {
        return Code(ErrNoSpace);
      }
      slotId := slotCount;
      slotCount := slotCount + 1;
    }

    /** SP_EnsureSpace: enough free space as it is, or else after a compaction. Succeeds
        exactly when the records leave room for `needed` more bytes. */
    method EnsureSpace(needed: int) returns (status: Status)
      requires Valid()
      modifies this, bytes, dir
      ensures Valid()
      ensures status == Ok || status == ErrNoSpace
      ensures status == Ok <==> needed <= old(FreeAfterCompaction())
      ensures status == Ok ==> needed <= FreeSpace()
      ensures slotCount == old(slotCount) && freeListHead == old(freeListHead)
      ensures attrLength == old(attrLength) && freeList == old(freeList)
      ensures Records() == old(Records()) && UsedOf(Directory()) == old(UsedOf(Directory()))
      ensures OnlyMoved(old(Directory()), Directory(), slotCount)
      ensures dir[slotCount..] == old(dir[slotCount..])
      ensures needed <= old(FreeSpace()) ==> unchanged(this) && unchanged(bytes) && unchanged(dir)
      ensures old(FreeSpace()) < needed ==> freePtr == PAGE_SIZE - old(UsedOf(Directory()))
    {
      if FreeSpace() >= needed {
        return Ok;
      }
      Compact();
      if FreeSpace() >= needed {
        return Ok;
      }
      return ErrNoSpace;
    }

    /** SP_InsertRecord: copy `length` bytes of `data` just below the free pointer, after
        compacting if that is what makes room, and give them a slot: the head of the free
        list if there is one, else a new last slot. */
    method Insert(data: seq<byte>, length: int) returns (status: Status, slotId: int)
      requires Valid() && IsShort(length) && (length > 0 ==> length <= |data|)
      modifies this, bytes, dir
      ensures Valid()
      ensures status == Ok || status == ErrNoSpace
      ensures status == Ok <==> 0 < length && old(Needed(length)) <= old(FreeAfterCompaction())
      ensures length <= 0 ==> unchanged(this) && unchanged(bytes) && unchanged(dir)
      ensures attrLength == old(attrLength)
      ensures status != Ok ==>
        slotId == NO_SLOT && Records() == old(Records())
        && slotCount == old(slotCount) && freeListHead == old(freeListHead) && freeList == old(freeList)
      ensures status == Ok ==>
        slotId !in old(Records()) && Records() == old(Records())[slotId := data[..length]]
        && 0 <= slotId < slotCount && dir[slotId] == SlotEntry(freePtr, length)
        && UsedOf(Directory()) == old(UsedOf(Directory())) + length
        && freePtr == (if old(Needed(length)) <= old(FreeSpace()) then old(freePtr)
                       else PAGE_SIZE - old(UsedOf(Directory()))) - length
      ensures status == Ok && old(freeListHead) != NO_SLOT ==>
        slotId == old(freeListHead) && slotCount == old(slotCount) && freeList == old(freeList)[1..]
      ensures status == Ok && old(freeListHead) == NO_SLOT ==>
        slotId == old(slotCount) && slotCount == old(slotCount) + 1 && freeList == []
      ensures status == Ok && old(Needed(length)) <= old(FreeSpace()) ==>
        (forall i :: 0 <= i < old(slotCount) && i != slotId ==> dir[i] == old(dir[i]))
        && forall k :: 0 <= k < bytes.Length && !(freePtr <= k < old(freePtr)) ==> bytes[k] == old(bytes[k])
    {
      var needSlotBytes := if freeListHead == NO_SLOT then SLOT_SIZE else 0;
      var needed := length + needSlotBytes;
      if length <= 0 {
        return ErrNoSpace, NO_SLOT;
      }
      var st := EnsureSpace(needed);
      if st != Ok {
        return ErrNoSpace, NO_SLOT;
      }
      slotId := PlaceRecord(data[..length]);
      return Ok, slotId;
    }

    /** The second half of SP_InsertRecord, once the space is ensured: the record goes just
        below the free pointer and takes the reserved slot. */
    method PlaceRecord(data: seq<byte>) returns (slotId: int)
      requires Valid() && 0 < |data| && IsShort(|data|) && Needed(|data|) <= FreeSpace()
      modifies this, bytes, dir
      ensures Valid()
      ensures slotId !in old(Records()) && Records() == old(Records())[slotId := data]
      ensures 0 <= slotId < slotCount && dir[slotId] == SlotEntry(freePtr, |data|)
      ensures freePtr == old(freePtr) - |data| && attrLength == old(attrLength)
      ensures UsedOf(Directory()) == old(UsedOf(Directory())) + |data|
      ensures forall i :: 0 <= i < old(slotCount) && i != slotId ==> dir[i] == old(dir[i])
      ensures forall k :: 0 <= k < bytes.Length && !(freePtr <= k < old(freePtr)) ==> bytes[k] == old(bytes[k])
      ensures old(freeListHead) != NO_SLOT ==>
        slotId == old(freeListHead) && slotCount == old(slotCount) && freeList == old(freeList)[1..]
      ensures old(freeListHead) == NO_SLOT ==>
        slotId == old(slotCount) && slotCount == old(slotCount) + 1 && freeList == []
    {
      ghost var h0, d0, fl0, b0 := Header(), Directory(), freeList, bytes[..];
      RoomToPlace(h0, d0, fl0, |data|);
      assert old(Records()) == RecordsOf(d0, b0) && old(UsedOf(Directory())) == UsedOf(d0);
      slotId := StoreRecord(data);
      Placement(h0, d0, fl0, b0, data, Header(), Directory(), freeList, bytes[..]);
    }

    /** Lines 127-139 of SP_InsertRecord: `data` goes just below the free pointer, which
        moves down to it, and a reserved slot describes it. The space was ensured, so
        `dest` is never below the header and there is always a slot. */
    method StoreRecord(data: seq<byte>) returns (id: int)
      requires Shape() && 0 <= slotCount <= MAX_SLOTS && 0 < |data| && IsShort(|data|)
      requires FreeListOf(Directory(), freeListHead, freeList)
      requires DirectoryEnd(slotCount) + |data| + (if freeList == [] then SLOT_SIZE else 0) <= freePtr
      requires freePtr <= PAGE_SIZE
      modifies this, bytes, dir
      ensures old(freeList) != [] ==> 0 <= old(freeList)[0] < old(slotCount)
      ensures var e := SlotEntry(old(freePtr) - |data|, |data|);
        id == InsertSlot(old(Directory()), old(freeList))
        && Header() == InsertHeader(old(Header()), old(Directory()), old(freeList), e)
        && freeList == InsertFreeList(old(freeList))
        && 0 <= slotCount <= dir.Length
        && Directory() == InsertDirectory(old(Directory()), old(freeList), e)
      ensures bytes[..] == old(bytes[..])[..old(freePtr) - |data|] + data + old(bytes[..])[old(freePtr)..]
      ensures 0 <= id < slotCount && dir[id] == SlotEntry(freePtr, |data|)
      ensures forall i :: 0 <= i < dir.Length && i != id ==> dir[i] == old(dir[i])
      ensures forall k :: 0 <= k < bytes.Length && !(freePtr <= k < old(freePtr)) ==> bytes[k] == old(bytes[k])
    {
      if freeList != [] {
        ChainAt(Directory(), freeList, 0);
      }
      var dest := ToShort(freePtr - |data|);
      // the short `dest` is compared with an unsigned size: with the space ensured it is
      // at or above the end of the directory, and that early return is never taken
      assert !(AsSizeT(dest) < HEADER_SIZE);
      CopyBytes(bytes, dest, data);
      freePtr := dest;
      id := ReserveSlot();
      // a negative `id` would be returned as the status; with the space ensured there is
      // always a slot
      dir[id] := SlotEntry(dest, |data|);
    }

    /** SP_DeleteRecord: tombstone an active slot and push it on the free list. The record's
        bytes stay where they are until a compaction reclaims them. */
    method Delete(slotId: int) returns (status: Status)
      requires Valid() && IsShort(slotId)
      modifies this, dir
      ensures Valid()
      ensures status == Ok || status == ErrInvalidSlot
      ensures status == Ok <==> slotId in old(Records())
      ensures status != Ok ==> unchanged(this) && unchanged(dir)
      ensures status == Ok ==>
        Records() == old(Records()) - {slotId}
        && dir[slotId] == SlotEntry(old(freeListHead), TOMBSTONE)
        && freeListHead == slotId && freeList == [slotId] + old(freeList)
        && slotCount == old(slotCount) && freePtr == old(freePtr) && attrLength == old(attrLength)
        && (forall i :: 0 <= i < dir.Length && i != slotId ==> dir[i] == old(dir[i]))
        && UsedOf(Directory()) == old(UsedOf(Directory())) - |old(Records())[slotId]|
    {
      if slotId < 0 || slotId >= slotCount {
        return ErrInvalidSlot;
      }
      if dir[slotId].length <= 0 {
        return ErrInvalidSlot;
      }
      ghost var h0, d0, fl0, b0 := Header(), Directory(), freeList, bytes[..];
      assert old(Records()) == RecordsOf(d0, b0) && old(UsedOf(Directory())) == UsedOf(d0);
      dir[slotId] := SlotEntry(freeListHead, TOMBSTONE);
      freeListHead := slotId;
      freeList := [slotId] + freeList;
      status := Ok;
      TombstoneStep(h0, d0, fl0, b0, slotId, Header(), Directory(), freeList);
    }

    /** SP_GetRecord: where an active slot's record lies. */
    method GetRecord(slotId: int) returns (status: Status, offset: int, length: int)
      requires Valid() && IsShort(slotId)
      ensures status == Ok || status == ErrInvalidSlot
      ensures status == Ok <==> slotId in Records()
      ensures status == Ok ==>
        0 <= offset && 0 < length && offset + length <= bytes.Length
        && SlotEntry(offset, length) == dir[slotId]
        && bytes[offset..offset + length] == Records()[slotId]
    {
      if slotId < 0 || slotId >= slotCount {
        return ErrInvalidSlot, 0, 0;
      }
      if dir[slotId].length <= 0 {
        return ErrInvalidSlot, 0, 0;
      }
      return Ok, dir[slotId].offset, dir[slotId].length;
    }

    /** SP_GetNextRecord: the first active slot after the cursor, in slot-id order. */
    method GetNextRecord(cursor: int) returns (status: Status, next: int, offset: int, length: int)
      requires Valid() && IsShort(cursor)
      ensures status == Ok || status == ErrEmpty
      ensures status == Ok ==>
        ScanStart(cursor) <= next && next in Records()
        && (forall j :: ScanStart(cursor) <= j < next ==> j !in Records())
        && 0 <= offset && 0 < length && offset + length <= bytes.Length
        && SlotEntry(offset, length) == dir[next]
        && bytes[offset..offset + length] == Records()[next]
      ensures status == ErrEmpty ==>
        next == NO_SLOT && forall j :: ScanStart(cursor) <= j ==> j !in Records()
    {
      var start := ScanStart(cursor);
      var i := start;
      while i < slotCount
        invariant start <= i
        invariant forall j :: start <= j < i && j < slotCount ==> dir[j].length <= 0
      {
        if dir[i].length > 0 {
          RecordOf(dir[..slotCount], bytes[..], i);
          forall j | start <= j < i ensures j !in Records() {
            RecordOf(dir[..slotCount], bytes[..], j);
          }
          return Ok, i, dir[i].offset, dir[i].length;
        }
        i := i + 1;
      }
      forall j | start <= j ensures j !in Records() {
        RecordOf(dir[..slotCount], bytes[..], j);
      }
      return ErrEmpty, NO_SLOT, 0, 0;
    }

    /** The first loop of SP_CompactPage: the active slot ids, in increasing order. */
    method CollectActive() returns (order: array<int>, n: int)
      requires Valid()
      ensures fresh(order) && order.Length == MAX_SLOTS && 0 <= n <= order.Length
      ensures order[..n] == ActiveSlots(Directory())
    {
      order := new int[MAX_SLOTS];
      n := 0;
      var i := 0;
      while i < slotCount
        invariant 0 <= n <= i <= slotCount
        invariant order[..n] == ActiveSlots(dir[..i])
      {
        assert dir[..i + 1][..i] == dir[..i];
        if dir[i].length > 0 {
          order[n] := i;
          n := n + 1;
        }
        i := i + 1;
      }
    }

    /** The second loop of SP_CompactPage, an exchange sort: afterwards the ids run by
        strictly decreasing record offset. */
    method SortByOffset(order: array<int>, n: int)
      requires 0 <= slotCount <= dir.Length && 0 <= n <= order.Length
      requires NonOverlapping(Directory()) && order[..n] == ActiveSlots(Directory())
      modifies order
      ensures RepackOrder(order[..n], Directory())
      ensures multiset(order[..n]) == multiset(old(order[..n]))
    {
      ghost var start := order[..n];
      ActiveSlotsDistinct(Directory());
      var i := 0;
      while i < n
        invariant 0 <= i <= n
        invariant AllActive(order[..n], Directory()) && Distinct(order[..n])
        invariant SortedPrefix(order[..n], Directory(), i)
        invariant multiset(order[..n]) == multiset(start)
      {
        var j := i + 1;
        while j < n
          invariant i + 1 <= j <= n
          invariant AllActive(order[..n], Directory()) && Distinct(order[..n])
          invariant SortedPrefix(order[..n], Directory(), i) && MaxAt(order[..n], Directory(), i, j)
          invariant multiset(order[..n]) == multiset(start)
        {
          CompareSwap(order, n, i, j);
          j := j + 1;
        }
        SortedGrows(order[..n], Directory(), i);
        i := i + 1;
      }
      assert start == old(order[..n]);
      SortedIsRepackOrder(order[..n], Directory());
    }

    /** The body of the inner loop of that sort: one comparison, and the swap when the
        later slot's record lies higher in the page. */
    method CompareSwap(order: array<int>, n: int, i: int, j: int)
      requires 0 <= slotCount <= dir.Length && 0 <= i < j < n <= order.Length
      requires AllActive(order[..n], Directory()) && Distinct(order[..n])
      requires SortedPrefix(order[..n], Directory(), i) && MaxAt(order[..n], Directory(), i, j)
      modifies order
      ensures AllActive(order[..n], Directory()) && Distinct(order[..n])
      ensures SortedPrefix(order[..n], Directory(), i) && MaxAt(order[..n], Directory(), i, j + 1)
      ensures multiset(order[..n]) == multiset(old(order[..n]))
    {
      ghost var d := Directory();
      ghost var s := order[..n];
      if dir[order[i]].offset < dir[order[j]].offset {
        order[i], order[j] := order[j], order[i];
        assert order[..n] == s[i := s[j]][j := s[i]];
      }
      assert Directory() == d;
      SwapStep(s, d, i, j, order[..n]);
    }

    /** The third loop of SP_CompactPage: in that order, each record moves to just below
        the one placed before it, starting from the page end. Returns the new free pointer. */
    method Repack(order: array<int>, n: int) returns (fp: int)
      requires Valid() && 0 <= n <= order.Length && RepackOrder(order[..n], Directory())
      modifies bytes, dir
      ensures Valid()
      ensures fp == PAGE_SIZE - old(UsedOf(Directory()))
      ensures freePtr <= fp && WithinArea(Directory(), fp, PAGE_SIZE)
      ensures Records() == old(Records())
      ensures OnlyMoved(old(Directory()), Directory(), slotCount)
      ensures dir[slotCount..] == old(dir[slotCount..])
      ensures KeepsOrder(old(Directory()), Directory())
      ensures freePtr == fp ==> dir[..] == old(dir[..]) && bytes[..] == old(bytes[..])
    {
      ghost var h, fl := Header(), freeList;
      ghost var d0, b0 := Directory(), bytes[..];
      ghost var tail := dir[slotCount..];
      ghost var ord := order[..n];
      RepackStart(h, fl, d0, b0, ord);
      fp := PAGE_SIZE;
      var i := 0;
      while i < n
        invariant 0 <= i <= n && order[..n] == ord
        invariant Repacked(h, fl, d0, b0, ord, i, fp, dir[..slotCount], bytes[..])
        invariant dir[slotCount..] == tail
      {
        fp := MoveNext(h, fl, d0, b0, ord, i, order[i], fp);
        i := i + 1;
      }
      RepackDone(h, fl, d0, b0, ord, fp, dir[..slotCount], bytes[..]);
      if freePtr == fp {
        SlicesJoin(old(dir[..]), dir[..], slotCount);
      }
    }

    /** The body of the third loop of SP_CompactPage: the record of slot `id`, the next
        in the order, moves to just below `fp`; returns the new `fp`. */
    method MoveNext(ghost h: PageHeader, ghost fl: seq<int>, ghost d0: seq<SlotEntry>, ghost b0: seq<byte>,
                    ghost ord: seq<int>, ghost i: int, id: int, fp: int) returns (fp1: int)
      requires 0 <= slotCount <= dir.Length && 0 <= i < |ord| && id == ord[i]
      requires Repacked(h, fl, d0, b0, ord, i, fp, dir[..slotCount], bytes[..])
      modifies bytes, dir
      ensures Repacked(h, fl, d0, b0, ord, i + 1, fp1, dir[..slotCount], bytes[..])
      ensures dir[slotCount..] == old(dir[slotCount..])
    {
      ghost var d, b := dir[..slotCount], bytes[..];
      RepackNext(h, fl, d0, b0, ord, i, fp, d, b);
      assert dir[id] == d0[id];
      var len := dir[id].length;
      var from := dir[id].offset;
      fp1 := ToShort(fp - len);
      // the short free pointer is compared with an unsigned size: it never drops below
      // the record area, so the clamp to the header size never applies
      assert !(AsSizeT(fp1) < HEADER_SIZE);
      if from != fp1 {
        MoveBytes(bytes, fp1, from, len);
      } else {
        assert MovedBytes(b, b, fp1, from, len);
      }
      dir[id] := SlotEntry(fp1, len);
      assert dir[..slotCount] == d[id := SlotEntry(fp1, len)];
      assert fp1 == fp - d0[id].length && SlotEntry(fp1, len) == SlotEntry(fp - d0[id].length, d0[id].length);
      RepackAdvance(h, fl, d0, b0, ord, i, fp, d, b, bytes[..]);
    }

    /** SP_CompactPage: slide every active record up against the page end, keeping their
        relative order, so that all free space lies in one gap below the free pointer. */
    method Compact()
      requires Valid()
      modifies this, bytes, dir
      ensures Valid()
      ensures slotCount == old(slotCount) && freeListHead == old(freeListHead)
      ensures attrLength == old(attrLength) && freeList == old(freeList)
      ensures freePtr == PAGE_SIZE - old(UsedOf(Directory()))
      ensures FreeSpace() == old(FreeAfterCompaction())
      ensures Records() == old(Records()) && UsedOf(Directory()) == old(UsedOf(Directory()))
      ensures OnlyMoved(old(Directory()), Directory(), slotCount)
      ensures dir[slotCount..] == old(dir[slotCount..])
      ensures KeepsOrder(old(Directory()), Directory())
      ensures freePtr == old(freePtr) ==> dir[..] == old(dir[..]) && bytes[..] == old(bytes[..])
    {
      ghost var d0 := Directory();
      var order, n := CollectActive();
      SortByOffset(order, n);
      var fp := Repack(order, n);
      ghost var h := Header();
      RaiseFreePtr(h, Directory(), freeList, fp);
      OnlyMovedUsed(d0, Directory());
      freePtr := fp;
      assert Header() == h.(freePtr := fp);
    }
  }
}
