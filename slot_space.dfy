/** Facts about a slot directory, independent of the page object that holds it:
    how many bytes its active records use, why those bytes always fit in the record
    area, the ids of its active slots, and the free list threaded through its
    tombstones. `d` is the directory as a sequence indexed by slot id. */
module SlotSpace {
  import opened SlotPageFormat

  // ---------------------------------------------------------------------------
  // Used bytes
  // ---------------------------------------------------------------------------

  function Contribution(e: SlotEntry): nat {
    if e.Active() then e.length else 0
  }

  /** The bytes held by active records: the sum SP_PageUsedBytes accumulates. */
  function UsedOf(d: seq<SlotEntry>): (r: int)
    ensures r >= 0
    ensures (forall i :: 0 <= i < |d| ==> !d[i].Active()) ==> r == 0
  {
    if d == [] then 0 else UsedOf(d[..|d| - 1]) + Contribution(d[|d| - 1])
  }

  /** Replacing one entry changes the sum by the difference of their contributions. */
  lemma {:induction false} UsedOfUpdate(d: seq<SlotEntry>, m: int, e: SlotEntry)
    requires 0 <= m < |d|
    ensures UsedOf(d[m := e]) == UsedOf(d) - Contribution(d[m]) + Contribution(e)
  {
    var n := |d| - 1;
    var d' := d[m := e];
    assert d'[n] == if m == n then e else d[n];
    if m == n {
      assert d'[..n] == d[..n];
    } else {
      assert d'[..n] == d[..n][m := e];
      UsedOfUpdate(d[..n], m, e);
    }
  }

  /** Only the lengths count: moving records leaves the sum as it was. */
  lemma {:induction false} UsedOfSameLengths(d: seq<SlotEntry>, d1: seq<SlotEntry>)
    requires |d| == |d1| && forall i :: 0 <= i < |d| ==> d[i].length == d1[i].length
    ensures UsedOf(d) == UsedOf(d1)
  {
    if d != [] {
      var n := |d| - 1;
      UsedOfSameLengths(d[..n], d1[..n]);
    }
  }

  /** Appending an entry adds its contribution. */
  lemma UsedOfAppend(d: seq<SlotEntry>, e: SlotEntry)
    ensures UsedOf(d + [e]) == UsedOf(d) + Contribution(e)
  {
    assert (d + [e])[..|d|] == d;
  }

  // ---------------------------------------------------------------------------
  // Placement of the active records
  // ---------------------------------------------------------------------------

  predicate Disjoint(a: SlotEntry, b: SlotEntry) {
    a.End() <= b.offset || b.End() <= a.offset
  }

  /** No two active records share a byte. */
  predicate NonOverlapping(d: seq<SlotEntry>) {
    forall i, j {:trigger Disjoint(d[i], d[j])} ::
      0 <= i < |d| && 0 <= j < |d| && i != j && d[i].Active() && d[j].Active() ==>
      Disjoint(d[i], d[j])
  }

  /** Every active record lies inside [lo, hi). */
  predicate WithinArea(d: seq<SlotEntry>, lo: int, hi: int) {
    forall i :: 0 <= i < |d| && d[i].Active() ==> lo <= d[i].offset && d[i].End() <= hi
  }

  /** Two distinct active records never start at the same byte. */
  lemma DistinctOffsets(d: seq<SlotEntry>, x: int, y: int)
    requires NonOverlapping(d)
    requires 0 <= x < |d| && 0 <= y < |d| && x != y && d[x].Active() && d[y].Active()
    ensures d[x].offset != d[y].offset
  {
    assert Disjoint(d[x], d[y]);
  }

  // ---------------------------------------------------------------------------
  // Lists of slot ids and the lengths they add up to
  // ---------------------------------------------------------------------------

  predicate Distinct(s: seq<int>) {
    forall i, j :: 0 <= i < j < |s| ==> s[i] != s[j]
  }

  predicate AllIndices(ids: seq<int>, d: seq<SlotEntry>) {
    forall k :: 0 <= k < |ids| ==> 0 <= ids[k] < |d|
  }

  predicate AllActive(ids: seq<int>, d: seq<SlotEntry>) {
    forall k :: 0 <= k < |ids| ==> 0 <= ids[k] < |d| && d[ids[k]].Active()
  }

  /** The sum of the lengths of the listed slots. */
  function LengthSum(ids: seq<int>, d: seq<SlotEntry>): (r: int)
    requires AllIndices(ids, d)
    ensures AllActive(ids, d) ==> r >= |ids|
  {
    if ids == [] then 0 else LengthSum(ids[..|ids| - 1], d) + d[ids[|ids| - 1]].length
  }

  function RemoveAt(s: seq<int>, p: int): (r: seq<int>)
    requires 0 <= p < |s|
    ensures |r| == |s| - 1
    ensures forall k :: 0 <= k < p ==> r[k] == s[k]
    ensures forall k :: p <= k < |r| ==> r[k] == s[k + 1]
  {
    s[..p] + s[p + 1..]
  }

  /** Taking one id out of a list without duplicates leaves every other id and no other. */
  lemma RemoveAtMembers(s: seq<int>, p: int)
    requires 0 <= p < |s| && Distinct(s)
    ensures Distinct(RemoveAt(s, p))
    ensures forall x :: x in RemoveAt(s, p) <==> x in s && x != s[p]
  {
    var r := RemoveAt(s, p);
    forall x | x in s && x != s[p] ensures x in r {
      var k :| 0 <= k < |s| && s[k] == x;
      if k < p { assert r[k] == x; } else { assert r[k - 1] == x; }
    }
  }

  lemma {:induction false} LengthSumRemove(ids: seq<int>, d: seq<SlotEntry>, p: int)
    requires AllIndices(ids, d) && 0 <= p < |ids|
    ensures LengthSum(ids, d) == LengthSum(RemoveAt(ids, p), d) + d[ids[p]].length
  {
    var n := |ids| - 1;
    var r := RemoveAt(ids, p);
    assert AllIndices(r, d);
    if p == n {
      assert r == ids[..n];
    } else {
      var init := ids[..n];
      var r0 := RemoveAt(init, p);
      assert r[..n - 1] == r0;
      assert r[n - 1] == ids[n];
      LengthSumRemove(init, d, p);
      assert LengthSum(r, d) == LengthSum(r0, d) + d[ids[n]].length;
    }
  }

  lemma {:induction false} LengthSumAppend(a: seq<int>, b: seq<int>, d: seq<SlotEntry>)
    requires AllIndices(a, d) && AllIndices(b, d)
    ensures AllIndices(a + b, d)
    ensures LengthSum(a + b, d) == LengthSum(a, d) + LengthSum(b, d)
  {
    if b != [] {
      var m := |b| - 1;
      assert (a + b)[..|a + b| - 1] == a + b[..m];
      LengthSumAppend(a, b[..m], d);
    } else {
      assert a + b == a;
    }
  }

  lemma LengthSumSplit(ids: seq<int>, d: seq<SlotEntry>, m: int)
    requires AllIndices(ids, d) && 0 <= m <= |ids|
    ensures AllIndices(ids[..m], d) && AllIndices(ids[m..], d)
    ensures LengthSum(ids, d) == LengthSum(ids[..m], d) + LengthSum(ids[m..], d)
  {
    assert ids == ids[..m] + ids[m..];
    LengthSumAppend(ids[..m], ids[m..], d);
  }

  /** THE PACKING BOUND. Distinct active records that lie inside [lo, hi) and do not
      overlap hold at most hi - lo bytes together. The record with the highest end,
      when one ends at hi, leaves every other record below its start. */
  lemma {:induction false} LengthsFit(ids: seq<int>, d: seq<SlotEntry>, lo: int, hi: int)
    requires AllActive(ids, d) && Distinct(ids) && NonOverlapping(d) && lo <= hi
    requires forall k :: 0 <= k < |ids| ==> lo <= d[ids[k]].offset && d[ids[k]].End() <= hi
    ensures LengthSum(ids, d) <= hi - lo
    decreases hi - lo
  {
    if ids == [] {
    } else if p :| 0 <= p < |ids| && d[ids[p]].End() == hi {
      var top := d[ids[p]];
      var rest := RemoveAt(ids, p);
      RemoveAtMembers(ids, p);
      forall k | 0 <= k < |rest| ensures lo <= d[rest[k]].offset && d[rest[k]].End() <= top.offset {
        assert rest[k] in ids && rest[k] != ids[p];
        assert Disjoint(d[rest[k]], top);
      }
      LengthsFit(rest, d, lo, top.offset);
      LengthSumRemove(ids, d, p);
    } else {
      assert d[ids[0]].End() <= hi - 1;
      LengthsFit(ids, d, lo, hi - 1);
    }
  }

  // ---------------------------------------------------------------------------
  // The active slot ids, in increasing order
  // ---------------------------------------------------------------------------

  /** The ids SP_CompactPage collects into `order`: the active slots, in increasing order. */
  function ActiveSlots(d: seq<SlotEntry>): (r: seq<int>)
    ensures AllActive(r, d)
    ensures forall i, j :: 0 <= i < j < |r| ==> r[i] < r[j]
    ensures forall x :: 0 <= x < |d| && d[x].Active() ==> x in r
  {
    if d == [] then []
    else
      var n := |d| - 1;
      assert forall x :: 0 <= x < n ==> d[..n][x] == d[x];
      ActiveSlots(d[..n]) + (if d[n].Active() then [n] else [])
  }

  /** Taking the highest slot `m` out of a list of every active slot up to `m`: the rest
      lists every active slot below `m`, and the list held `d[m]`'s length more. */
  lemma WithoutLast(ids: seq<int>, d: seq<SlotEntry>, m: int) returns (rest: seq<int>)
    requires 0 <= m < |d| && d[m].Active() && AllActive(ids, d) && Distinct(ids)
    requires forall k :: 0 <= k < |ids| ==> ids[k] <= m
    requires forall x :: 0 <= x <= m && d[x].Active() ==> x in ids
    ensures AllActive(rest, d) && Distinct(rest)
    ensures forall k :: 0 <= k < |rest| ==> rest[k] < m
    ensures forall x :: 0 <= x < m && d[x].Active() ==> x in rest
    ensures LengthSum(ids, d) == LengthSum(rest, d) + d[m].length
  {
    assert m in ids;
    var p :| 0 <= p < |ids| && ids[p] == m;
    rest := RemoveAt(ids, p);
    RemoveAtMembers(ids, p);
    forall k | 0 <= k < |rest| ensures 0 <= rest[k] < |d| && d[rest[k]].Active() && rest[k] < m {
      assert rest[k] in ids && rest[k] != m;
    }
    forall x | 0 <= x < m && d[x].Active() ensures x in rest {
      assert x in ids;
    }
    LengthSumRemove(ids, d, p);
  }

  /** Listing every active slot below n exactly once adds up to the used bytes of d[..n]. */
  lemma {:induction false} LengthSumOfActive(ids: seq<int>, d: seq<SlotEntry>, n: int)
    requires 0 <= n <= |d| && AllActive(ids, d) && Distinct(ids)
    requires forall k :: 0 <= k < |ids| ==> ids[k] < n
    requires forall x :: 0 <= x < n && d[x].Active() ==> x in ids
    ensures LengthSum(ids, d) == UsedOf(d[..n])
    decreases n
  {
    if n == 0 {
      DistinctBounded(ids, n);
    } else {
      var m := n - 1;
      assert d[..n][..m] == d[..m];
      assert UsedOf(d[..n]) == UsedOf(d[..m]) + Contribution(d[m]);
      if d[m].Active() {
        var rest := WithoutLast(ids, d, m);
        LengthSumOfActive(rest, d, m);
      } else {
        forall k | 0 <= k < |ids| ensures ids[k] < m {
          assert d[ids[k]].Active();
        }
        LengthSumOfActive(ids, d, m);
      }
    }
  }

  /** Non-overlapping active records inside [lo, hi) use at most hi - lo bytes. */
  lemma UsedFits(d: seq<SlotEntry>, lo: int, hi: int)
    requires NonOverlapping(d) && WithinArea(d, lo, hi) && lo <= hi
    ensures UsedOf(d) <= hi - lo
  {
    var ids := ActiveSlots(d);
    LengthsFit(ids, d, lo, hi);
    LengthSumOfActive(ids, d, |d|);
    assert d[..|d|] == d;
  }

  /** The order SP_CompactPage repacks in: every active slot, by strictly decreasing offset. */
  predicate RepackOrder(ord: seq<int>, d: seq<SlotEntry>) {
    AllActive(ord, d)
    && (forall k1, k2 :: 0 <= k1 < k2 < |ord| ==> d[ord[k2]].offset < d[ord[k1]].offset)
    && (forall x {:trigger x in ord} :: 0 <= x < |d| && d[x].Active() ==> x in ord)
  }

  /** The active slots are listed once each. */
  lemma ActiveSlotsDistinct(d: seq<SlotEntry>)
    ensures Distinct(ActiveSlots(d))
  {
    var r := ActiveSlots(d);
    forall i, j | 0 <= i < j < |r| ensures r[i] != r[j] {
      assert r[i] < r[j];
    }
  }

  /** The offset of the slot listed at position `k`. */
  function OffsetAt(s: seq<int>, d: seq<SlotEntry>, k: int): int
    requires 0 <= k < |s| && 0 <= s[k] < |d|
  {
    d[s[k]].offset
  }

  /** The first `i` positions of `s` hold its largest offsets, largest first. */
  predicate SortedPrefix(s: seq<int>, d: seq<SlotEntry>, i: int)
    requires AllActive(s, d)
  {
    forall p, q :: 0 <= p < i && p < q < |s| ==> OffsetAt(s, d, q) <= OffsetAt(s, d, p)
  }

  /** Position `i` holds the largest offset among positions `i` to `j - 1`. */
  predicate MaxAt(s: seq<int>, d: seq<SlotEntry>, i: int, j: int)
    requires AllActive(s, d) && 0 <= i < |s|
  {
    forall q :: i < q < j && q < |s| ==> OffsetAt(s, d, q) <= OffsetAt(s, d, i)
  }

  /** One comparison of the exchange sort: swapping when position `j` beats position `i`
      keeps the elements and the sorted prefix, and makes `i` the largest up to `j`. */
  lemma SwapStep(s: seq<int>, d: seq<SlotEntry>, i: int, j: int, t: seq<int>)
    requires AllActive(s, d) && Distinct(s) && 0 <= i < j < |s|
    requires SortedPrefix(s, d, i) && MaxAt(s, d, i, j)
    requires t == if d[s[i]].offset < d[s[j]].offset then s[i := s[j]][j := s[i]] else s
    ensures AllActive(t, d) && Distinct(t) && multiset(t) == multiset(s)
    ensures SortedPrefix(t, d, i) && MaxAt(t, d, i, j + 1)
  {
    if d[s[i]].offset < d[s[j]].offset {
      SwapKeeps(s, d, i, j);
      forall p, q | 0 <= p < i && p < q < |t| ensures OffsetAt(t, d, q) <= OffsetAt(t, d, p) {
        assert t[p] == s[p];
        if q == i {
          assert t[q] == s[j] && OffsetAt(s, d, j) <= OffsetAt(s, d, p);
        } else if q == j {
          assert t[q] == s[i] && OffsetAt(s, d, i) <= OffsetAt(s, d, p);
        } else {
          assert t[q] == s[q] && OffsetAt(s, d, q) <= OffsetAt(s, d, p);
        }
      }
      forall q | i < q < j + 1 && q < |t| ensures OffsetAt(t, d, q) <= OffsetAt(t, d, i) {
        if q != j {
          assert t[q] == s[q] && OffsetAt(s, d, q) <= OffsetAt(s, d, i);
        }
      }
    } else {
      assert MaxAt(s, d, i, j + 1) by {
        assert OffsetAt(s, d, j) <= OffsetAt(s, d, i);
      }
    }
  }

  /** Swapping two positions keeps the elements of the sequence. */
  lemma SwapKeeps(s: seq<int>, d: seq<SlotEntry>, i: int, j: int)
    requires AllActive(s, d) && Distinct(s) && 0 <= i < j < |s|
    ensures var t := s[i := s[j]][j := s[i]];
      AllActive(t, d) && Distinct(t) && multiset(t) == multiset(s)
  {
    var t := s[i := s[j]][j := s[i]];
    forall k | 0 <= k < |t| ensures t[k] == s[if k == i then j else if k == j then i else k] {
    }
    forall k1, k2 | 0 <= k1 < k2 < |t| ensures t[k1] != t[k2] {
      assert t[k1] == s[if k1 == i then j else if k1 == j then i else k1];
      assert t[k2] == s[if k2 == i then j else if k2 == j then i else k2];
    }
  }

  /** After a full pass the sorted prefix grows by one. */
  lemma SortedGrows(s: seq<int>, d: seq<SlotEntry>, i: int)
    requires AllActive(s, d) && 0 <= i < |s| && SortedPrefix(s, d, i) && MaxAt(s, d, i, |s|)
    ensures SortedPrefix(s, d, i + 1)
  {
  }

  /** A permutation of the active slots, sorted by offset, is the repack order. */
  lemma SortedIsRepackOrder(s: seq<int>, d: seq<SlotEntry>)
    requires AllActive(s, d) && Distinct(s) && SortedPrefix(s, d, |s|) && NonOverlapping(d)
    requires multiset(s) == multiset(ActiveSlots(d))
    ensures RepackOrder(s, d)
  {
    forall p, q | 0 <= p < q < |s| ensures d[s[q]].offset < d[s[p]].offset {
      assert OffsetAt(s, d, q) <= OffsetAt(s, d, p);
      DistinctOffsets(d, s[p], s[q]);
    }
    forall x | 0 <= x < |d| && d[x].Active() ensures x in s {
      assert x in ActiveSlots(d);
      assert x in multiset(ActiveSlots(d));
    }
  }

  /** The repack order lists each slot once, and its lengths add up to the used bytes. */
  lemma RepackTotal(ord: seq<int>, d: seq<SlotEntry>)
    requires RepackOrder(ord, d)
    ensures Distinct(ord)
    ensures LengthSum(ord, d) == UsedOf(d)
  {
    LengthSumOfActive(ord, d, |d|);
    assert d[..|d|] == d;
  }

  /** The records up to and including the i-th of the repack order all start at or above
      its start, so together they fit between its start and `hi`. */
  lemma RepackAbove(ord: seq<int>, d: seq<SlotEntry>, hi: int, i: int)
    requires RepackOrder(ord, d) && NonOverlapping(d) && Distinct(ord) && 0 <= i < |ord|
    requires forall k :: 0 <= k < |ord| ==> d[ord[k]].End() <= hi
    ensures AllIndices(ord[..i + 1], d)
    ensures d[ord[i]].offset <= hi - LengthSum(ord[..i + 1], d)
  {
    var above := ord[..i + 1];
    forall k | 0 <= k < |above| ensures d[ord[i]].offset <= d[above[k]].offset {
      assert above[k] == ord[k];
    }
    LengthsFit(above, d, d[ord[i]].offset, hi);
  }

  /** The records after the i-th of the repack order all end at or below its start. */
  lemma RepackBelow(ord: seq<int>, d: seq<SlotEntry>, lo: int, i: int)
    requires RepackOrder(ord, d) && NonOverlapping(d) && Distinct(ord) && 0 <= i < |ord|
    requires forall k :: 0 <= k < |ord| ==> lo <= d[ord[k]].offset
    ensures AllIndices(ord[i + 1..], d)
    ensures forall k :: i < k < |ord| ==> d[ord[k]].End() <= d[ord[i]].offset
    ensures lo + LengthSum(ord[i + 1..], d) <= d[ord[i]].offset
  {
    var e := d[ord[i]];
    forall k | i < k < |ord| ensures d[ord[k]].End() <= e.offset {
      assert Disjoint(d[ord[k]], e);
    }
    var below := ord[i + 1..];
    forall k | 0 <= k < |below| ensures lo <= d[below[k]].offset && d[below[k]].End() <= e.offset {
      assert below[k] == ord[i + 1 + k];
    }
    LengthsFit(below, d, lo, e.offset);
  }

  /** Where the i-th record of the repack order can go. Packed from `hi` down, the records
      before it and itself end up no lower than its own start, and the records after it
      still fit between `lo` and its start. */
  lemma RepackStep(ord: seq<int>, d: seq<SlotEntry>, lo: int, hi: int, i: int)
    requires RepackOrder(ord, d) && NonOverlapping(d) && WithinArea(d, lo, hi) && 0 <= i < |ord|
    ensures AllIndices(ord[..i], d) && AllIndices(ord[..i + 1], d) && AllIndices(ord[i + 1..], d)
    ensures LengthSum(ord[..i + 1], d) == LengthSum(ord[..i], d) + d[ord[i]].length
    ensures d[ord[i]].offset <= hi - LengthSum(ord[..i + 1], d)
    ensures lo + LengthSum(ord[i + 1..], d) <= d[ord[i]].offset
    ensures UsedOf(d) == LengthSum(ord[..i + 1], d) + LengthSum(ord[i + 1..], d)
    ensures forall k :: i < k < |ord| ==> d[ord[k]].End() <= d[ord[i]].offset
  {
    RepackTotal(ord, d);
    forall k | 0 <= k < |ord| ensures lo <= d[ord[k]].offset && d[ord[k]].End() <= hi {
      assert d[ord[k]].Active();
    }
    assert ord[..i + 1][..i] == ord[..i];
    RepackAbove(ord, d, hi, i);
    RepackBelow(ord, d, lo, i);
    LengthSumSplit(ord, d, i + 1);
  }

  // ---------------------------------------------------------------------------
  // Record contents
  // ---------------------------------------------------------------------------

  predicate InBounds(d: seq<SlotEntry>, size: int) {
    WithinArea(d, 0, size)
  }

  /** What a page holds, as its users see it: each active slot id with its record's bytes. */
  function RecordsOf(d: seq<SlotEntry>, b: seq<byte>): map<int, seq<byte>>
    requires InBounds(d, |b|)
  {
    map i | 0 <= i < |d| && d[i].Active() :: b[d[i].offset..d[i].End()]
  }

  /** A slot holds a record exactly when it is active, and the record is its byte range. */
  lemma RecordOf(d: seq<SlotEntry>, b: seq<byte>, i: int)
    requires InBounds(d, |b|)
    ensures i in RecordsOf(d, b) <==> 0 <= i < |d| && d[i].Active()
    ensures i in RecordsOf(d, b) ==> RecordsOf(d, b)[i] == b[d[i].offset..d[i].End()]
  {
  }

  // ---------------------------------------------------------------------------
  // The free list
  // ---------------------------------------------------------------------------

  function HeadOf(fl: seq<int>): int {
    if fl == [] then NO_SLOT else fl[0]
  }

  function NextOf(fl: seq<int>, k: int): int {
    if 0 <= k && k + 1 < |fl| then fl[k + 1] else NO_SLOT
  }

  /** `fl` is a chain of distinct tombstones, each one's `offset` naming the next. */
  predicate ChainLinks(d: seq<SlotEntry>, fl: seq<int>) {
    Distinct(fl) &&
    (forall k :: 0 <= k < |fl| ==> 0 <= fl[k] < |d|) &&
    forall k {:trigger d[fl[k]]} :: 0 <= k < |fl| ==>
      d[fl[k]].length == TOMBSTONE && d[fl[k]].offset == NextOf(fl, k)
  }

  /** One link of the chain. */
  lemma ChainAt(d: seq<SlotEntry>, fl: seq<int>, k: int)
    requires ChainLinks(d, fl) && 0 <= k < |fl|
    ensures 0 <= fl[k] < |d| && d[fl[k]].length == TOMBSTONE && d[fl[k]].offset == NextOf(fl, k)
  {
  }

  /** `fl` is the free list of `d` starting at `head`: it holds every tombstone. */
  predicate FreeListOf(d: seq<SlotEntry>, head: int, fl: seq<int>) {
    head == HeadOf(fl) && ChainLinks(d, fl) &&
    forall i :: 0 <= i < |d| && !d[i].Active() ==> i in fl
  }

  /** Following `offset` links from `cur`, at most `fuel` steps, until "no slot". */
  function Walk(d: seq<SlotEntry>, cur: int, fuel: nat): seq<int>
    decreases fuel
  {
    if fuel == 0 || !(0 <= cur < |d|) then [] else [cur] + Walk(d, d[cur].offset, fuel - 1)
  }

  /** Following the links from the head visits exactly the chain and then reaches "no slot":
      the free list has no cycle. */
  lemma {:induction false} WalkFollowsChain(d: seq<SlotEntry>, fl: seq<int>, fuel: nat)
    requires ChainLinks(d, fl) && fuel >= |fl|
    ensures Walk(d, HeadOf(fl), fuel) == fl
    ensures fuel > |fl| ==> Walk(d, HeadOf(fl), fuel) == Walk(d, HeadOf(fl), |fl|)
  {
    if fl != [] {
      var tail := fl[1..];
      assert ChainLinks(d, tail) by {
        forall k | 0 <= k < |tail|
          ensures 0 <= tail[k] < |d| && d[tail[k]].length == TOMBSTONE
          ensures d[tail[k]].offset == NextOf(tail, k)
        {
          ChainAt(d, fl, k + 1);
          assert NextOf(tail, k) == NextOf(fl, k + 1);
        }
      }
      ChainAt(d, fl, 0);
      assert d[fl[0]].offset == HeadOf(tail);
      WalkFollowsChain(d, tail, fuel - 1);
      WalkFollowsChain(d, tail, |fl| - 1);
    }
  }

  /** A list of distinct ids below n has at most n entries. */
  lemma {:induction false} DistinctBounded(s: seq<int>, n: int)
    requires Distinct(s) && 0 <= n
    requires forall k :: 0 <= k < |s| ==> 0 <= s[k] < n
    ensures |s| <= n
  {
    if s == [] {
    } else if p :| 0 <= p < |s| && s[p] == n - 1 {
      RemoveAtMembers(s, p);
      var r := RemoveAt(s, p);
      forall k | 0 <= k < |r| ensures 0 <= r[k] < n - 1 {
        assert r[k] in s && r[k] != s[p];
      }
      DistinctBounded(r, n - 1);
    } else {
      assert 0 <= s[0] < n;
      DistinctBounded(s, n - 1);
    }
  }

  /** The free list is never longer than the directory, so the walk from the head ends
      within |d| steps. */
  lemma FreeListWalkEnds(d: seq<SlotEntry>, head: int, fl: seq<int>)
    requires FreeListOf(d, head, fl)
    ensures |fl| <= |d|
    ensures Walk(d, head, |d|) == fl
  {
    forall k | 0 <= k < |fl| ensures 0 <= fl[k] < |d| {
      ChainAt(d, fl, k);
    }
    DistinctBounded(fl, |d|);
    WalkFollowsChain(d, fl, |d|);
  }
}
