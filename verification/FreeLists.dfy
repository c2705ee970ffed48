// The list of holes between marked bytes: what PageMap.make_free_list computes
// and what PageMap.reserve keeps.
module FreeLists {
  import opened Bytes
  import opened Images
  import opened Sorting

  datatype Range = Range(lo: nat, hi: nat)

  ghost predicate Ordered(list: seq<Range>) {
    && (forall k :: 0 <= k < |list| ==> list[k].lo % 2 == 0 && list[k].hi % 2 == 0 && list[k].lo <= list[k].hi)
    && (forall j, k :: 0 <= j < k < |list| ==> list[j].hi <= list[k].lo)
  }

  ghost predicate InList(list: seq<Range>, a: nat) {
    exists k :: 0 <= k < |list| && list[k].lo <= a < list[k].hi
  }

  /** Sorted, disjoint, 2-aligned ranges that hold no marked byte. */
  ghost predicate FreeListOf(img: Image, list: seq<Range>) {
    && Ordered(list)
    && (forall k, a: nat {:trigger list[k], img.marked(a)} ::
          0 <= k < |list| && list[k].lo <= a < list[k].hi ==> !img.marked(a))
  }

  /** No range is empty, and no two of them meet. */
  ghost predicate Maximal(list: seq<Range>) {
    && (forall k :: 0 <= k < |list| ==> list[k].lo < list[k].hi)
    && (forall j, k :: 0 <= j < k < |list| ==> list[j].hi < list[k].lo)
  }

  ghost predicate Clear(img: Image, from: nat, to: nat) {
    forall a: nat :: from <= a < to ==> !img.marked(a)
  }

  ghost predicate Absent(img: Image, from: nat, to: nat) {
    forall a: nat {:trigger img.Present(a)} :: from <= a < to ==> !img.Present(a)
  }

  ghost predicate MarkBelow(img: Image, a: nat) {
    exists m: nat :: m < a && img.marked(m)
  }

  /** A hole may open at the first usable address or, after some marked byte, on any existing page. */
  ghost predicate Opens(img: Image, c: nat) {
    if MarkBelow(img, c) then img.Present(c) else c == Base(FIRST_PN)
  }

  /** The aligned byte pair at a lies in a hole that a marked byte below end closes. */
  ghost predicate InHoleBelow(img: Image, a: nat, end: nat) {
    && a % 2 == 0
    && (exists c: nat :: c <= a && Opens(img, c) && Clear(img, c, a + 2))
    && (exists m: nat :: a + 1 < m < end && img.marked(m))
  }

  ghost predicate InHole(img: Image, a: nat) {
    && a % 2 == 0
    && (exists c: nat :: c <= a && Opens(img, c) && Clear(img, c, a + 2))
    && (exists m: nat :: a + 1 < m && img.marked(m))
  }

  datatype HoleState = HoleState(img: Image, list: seq<Range>)

  const NO_HOLES := HoleState(NO_PAGES.image, [])

  /**
   * With every page at or above FIRST_PN, each aligned unmarked pair on a page, marked bytes following, is in
   * a hole.
   */
  lemma UnmarkedPairIsInHole(img: Image, a: nat, m: nat)
    requires img.WellFormed()
    requires forall pn :: pn in img.pages ==> FIRST_PN <= pn
    requires a % 2 == 0 && img.Present(a) && !img.marked(a) && !img.marked(a + 1)
    requires a + 1 < m && img.marked(m)
    ensures InHole(img, a)
  {
    if MarkBelow(img, a) {
      assert Opens(img, a) && Clear(img, a, a + 2);
    } else {
      var first: nat := Base(FIRST_PN);
      assert PageOf(a) in img.pages;
      assert first <= a;
      assert !MarkBelow(img, first);
      assert Opens(img, first) && Clear(img, first, a + 2);
    }
  }

  /** The state of the scan when every byte below pos has been looked at; last is the last marked one. */
  ghost predicate Scanned(img: Image, pos: nat, cur: Option<nat>, last: Option<nat>, list: seq<Range>) {
    && FreeListOf(img, list) && Maximal(list)
    && (match last
        case None => !MarkBelow(img, pos) && cur == Some(Base(FIRST_PN)) && list == []
        case Some(l) =>
          && l < pos && img.marked(l) && Clear(img, l + 1, pos)
          && (forall k :: 0 <= k < |list| ==> list[k].hi <= l)
          && match cur
             case None => Absent(img, l + 1, pos)
             case Some(c) => l < c < pos && img.Present(c) && Absent(img, l + 1, c))
    && (forall a: nat {:trigger InList(list, a)} :: a % 2 == 0 ==> (InList(list, a) <==> InHoleBelow(img, a, pos)))
  }

  ghost function PagesEnd(pageList: seq<nat>, n: nat): nat
    requires n <= |pageList|
  {
    if n == 0 then 0 else Base(pageList[n - 1] + 1)
  }

  lemma GapBeforePage(img: Image, pageList: seq<nat>, n: nat)
    requires SortedListOf(pageList, img.pages) && n < |pageList|
    ensures PagesEnd(pageList, n) <= Base(pageList[n])
    ensures Absent(img, PagesEnd(pageList, n), Base(pageList[n]))
  {
    forall a: nat | PagesEnd(pageList, n) <= a < Base(pageList[n]) ensures !img.Present(a) {
      forall k | 0 <= k < |pageList| ensures pageList[k] != PageOf(a) {
        assert k < n - 1 ==> pageList[k] < pageList[n - 1];
        assert n < k ==> pageList[n] < pageList[k];
      }
    }
  }

  lemma AllPagesScanned(img: Image, pageList: seq<nat>)
    requires img.WellFormed() && SortedListOf(pageList, img.pages)
    ensures forall a: nat :: InHole(img, a) <==> InHoleBelow(img, a, PagesEnd(pageList, |pageList|))
  {
    forall m: nat | img.marked(m) ensures m < PagesEnd(pageList, |pageList|) {
      assert img.Present(m);
      assert PageOf(m) in pageList;
    }
  }

  lemma HolesUnchanged(img: Image, pos: nat, pos': nat)
    requires pos <= pos' && Clear(img, pos, pos')
    ensures forall a: nat :: InHoleBelow(img, a, pos) <==> InHoleBelow(img, a, pos')
  {
  }

  /** Addresses between pages are stepped over. */
  lemma SkipAbsent(img: Image, pos: nat, pos': nat, cur: Option<nat>, last: Option<nat>, list: seq<Range>)
    requires img.WellFormed() && Scanned(img, pos, cur, last, list)
    requires pos <= pos' && Absent(img, pos, pos')
    ensures Scanned(img, pos', cur, last, list)
  {
    forall a: nat | pos <= a < pos' ensures !img.marked(a) {
      assert !img.Present(a);
    }
    HolesUnchanged(img, pos, pos');
  }

  /** An unmarked byte opens a hole when none is open. */
  lemma ScanUnmarked(img: Image, pos: nat, cur: Option<nat>, last: Option<nat>, list: seq<Range>)
    requires img.WellFormed() && Scanned(img, pos, cur, last, list)
    requires img.Present(pos) && !img.marked(pos)
    ensures Scanned(img, pos + 1, if cur.None? then Some(pos) else cur, last, list)
  {
    HolesUnchanged(img, pos, pos + 1);
  }

  /** `(a + 1) & ~1`. */
  function EvenUp(a: nat): (e: nat)
    ensures e % 2 == 0 && a <= e <= a + 1
  {
    (a + 1) / 2 * 2
  }

  /** `a & ~1`. */
  function EvenDown(a: nat): (e: nat)
    ensures e % 2 == 0 && e <= a <= e + 1
  {
    a / 2 * 2
  }

  function Closed(cur: Option<nat>, pos: nat, list: seq<Range>): seq<Range> {
    if cur.Some? && EvenUp(cur.value) < EvenDown(pos) then list + [Range(EvenUp(cur.value), EvenDown(pos))] else list
  }

  lemma InListAppend(list: seq<Range>, r: Range, a: nat)
    ensures InList(list + [r], a) <==> InList(list, a) || r.lo <= a < r.hi
  {
    var list' := list + [r];
    if InList(list, a) {
      var k :| 0 <= k < |list| && list[k].lo <= a < list[k].hi;
      assert list'[k] == list[k];
    }
    if r.lo <= a < r.hi {
      assert list'[|list|] == r;
    }
  }

  lemma ClosedListIsFree(img: Image, pos: nat, cur: Option<nat>, last: Option<nat>, list: seq<Range>)
    requires Scanned(img, pos, cur, last, list)
    ensures FreeListOf(img, Closed(cur, pos, list)) && Maximal(Closed(cur, pos, list))
    ensures forall k :: 0 <= k < |Closed(cur, pos, list)| ==> Closed(cur, pos, list)[k].hi <= pos
  {
    if Closed(cur, pos, list) != list {
      var r := Range(EvenUp(cur.value), EvenDown(pos));
      LongerListIsFree(img, list, r);
    }
  }

  lemma LongerListIsFree(img: Image, list: seq<Range>, r: Range)
    requires FreeListOf(img, list) && Maximal(list) && r.lo % 2 == 0 && r.hi % 2 == 0 && r.lo < r.hi
    requires Clear(img, r.lo, r.hi) && forall k :: 0 <= k < |list| ==> list[k].hi < r.lo
    ensures FreeListOf(img, list + [r]) && Maximal(list + [r])
  {
    var list' := list + [r];
    forall k, a: nat | 0 <= k < |list'| && list'[k].lo <= a < list'[k].hi ensures !img.marked(a) {
      if k < |list| {
        assert list'[k] == list[k];
      }
    }
  }

  /** A marked byte closes the hole that is open, if it is at least one aligned pair. */
  lemma ScanMarked(img: Image, pos: nat, cur: Option<nat>, last: Option<nat>, list: seq<Range>)
    requires img.WellFormed() && Scanned(img, pos, cur, last, list)
    requires img.marked(pos)
    ensures Scanned(img, pos + 1, None, Some(pos), Closed(cur, pos, list))
  {
    ClosedListIsFree(img, pos, cur, last, list);
    forall a: nat {:trigger InList(Closed(cur, pos, list), a)} | a % 2 == 0
      ensures InList(Closed(cur, pos, list), a) <==> InHoleBelow(img, a, pos + 1)
    {
      ClosedPair(img, pos, cur, last, list, a);
      assert InList(list, a) <==> InHoleBelow(img, a, pos);
      if cur.Some? {
        InListAppend(list, Range(EvenUp(cur.value), EvenDown(pos)), a);
      }
    }
  }

  lemma NothingScanned(img: Image)
    ensures Scanned(img, 0, Some(Base(FIRST_PN)), None, [])
  {
  }

  /** With every page looked at, the list is complete. */
  lemma ScannedIsComplete(img: Image, pageList: seq<nat>, cur: Option<nat>, last: Option<nat>, list: seq<Range>)
    requires img.WellFormed() && SortedListOf(pageList, img.pages)
    requires Scanned(img, PagesEnd(pageList, |pageList|), cur, last, list)
    ensures Complete(HoleState(img, list))
  {
    AllPagesScanned(img, pageList);
  }

  /** One round of the scan. */
  lemma ScanStep(img: Image, pos: nat, cur: Option<nat>, last: Option<nat>, list: seq<Range>)
    requires img.WellFormed() && Scanned(img, pos, cur, last, list) && img.Present(pos)
    ensures if img.marked(pos)
            then Scanned(img, pos + 1, None, Some(pos), Closed(cur, pos, list))
            else Scanned(img, pos + 1, if cur.None? then Some(pos) else cur, last, list)
  {
    if img.marked(pos) {
      ScanMarked(img, pos, cur, last, list);
    } else {
      ScanUnmarked(img, pos, cur, last, list);
    }
  }

  /** A pair is closed off by the marked byte at pos, or was by an earlier one. */
  lemma ClosedPair(img: Image, pos: nat, cur: Option<nat>, last: Option<nat>, list: seq<Range>, a: nat)
    requires img.WellFormed() && Scanned(img, pos, cur, last, list)
    requires img.marked(pos) && a % 2 == 0
    ensures InHoleBelow(img, a, pos + 1) <==>
            InHoleBelow(img, a, pos) || (cur.Some? && cur.value <= a && a + 1 < pos)
  {
    if cur.Some? && cur.value <= a && a + 1 < pos {
      var c := cur.value;
      if last.None? {
        assert !MarkBelow(img, c);
      } else {
        assert MarkBelow(img, c);
      }
      assert Opens(img, c) && Clear(img, c, a + 2);
    }
    if InHoleBelow(img, a, pos + 1) && !InHoleBelow(img, a, pos) {
      var c: nat :| c <= a && Opens(img, c) && Clear(img, c, a + 2);
      assert a + 1 < pos;
      if last.Some? {
        assert last.value < c;
        assert MarkBelow(img, c) && img.Present(c);
      } else {
        assert !MarkBelow(img, c);
      }
    }
  }

  /** Where reserve_page starts to search: FIRST_PN, or just past the lowest page if that is below FIRST_PN. */
  ghost function SearchStart(pages: set<nat>): nat {
    if pages != {} && Least(pages) < FIRST_PN then Least(pages) + 1 else FIRST_PN
  }

  /** The number of pages that hold size bytes. */
  ghost function PagesNeeded(size: nat): (n: nat)
    ensures Base(n) >= size
  {
    PageOf(size + 4095)
  }

  /** Some page is among the n starting at q. */
  ghost predicate Blocked(pages: set<nat>, q: nat, n: nat) {
    exists pn :: pn in pages && q <= pn < q + n
  }

  /** r is the least start of n consecutive absent pages, from SearchStart on. */
  ghost predicate FirstGap(pages: set<nat>, n: nat, r: nat) {
    && SearchStart(pages) <= r
    && !Blocked(pages, r, n)
    && forall q: nat :: SearchStart(pages) <= q < r ==> Blocked(pages, q, n)
  }

  /** No fewer pages hold size bytes. */
  lemma PagesNeededLeast(size: nat)
    ensures 4096 * PagesNeeded(size) - 4096 < size <= 4096 * PagesNeeded(size)
  {
    BaseIsProduct(PagesNeeded(size));
  }

  /** reserve_page after n of the page numbers: every start before cur is blocked. */
  ghost predicate GapScan(pages: set<nat>, pnList: seq<nat>, n: nat, cur: nat, needed: nat) {
    && SortedListOf(pnList, pages) && n <= |pnList|
    && (if n == 0 then cur == FIRST_PN else SearchStart(pages) <= cur)
    && (forall k :: 0 <= k < n ==> pnList[k] < cur)
    && (n > 0 ==> forall q: nat :: SearchStart(pages) <= q < cur ==> Blocked(pages, q, needed))
  }

  lemma FirstIsLeast(pages: set<nat>, pnList: seq<nat>)
    requires SortedListOf(pnList, pages)
    ensures pages == {} <==> pnList == []
    ensures pnList != [] ==> Least(pages) == pnList[0]
  {
    if pnList != [] {
      assert pnList[0] in pages;
      var k :| 0 <= k < |pnList| && pnList[k] == Least(pages);
      assert k > 0 ==> pnList[0] < pnList[k];
    }
  }

  lemma GapScanNext(pages: set<nat>, pnList: seq<nat>, n: nat, cur: nat, needed: nat)
    requires GapScan(pages, pnList, n, cur, needed) && n < |pnList| && pnList[n] - cur < needed
    ensures GapScan(pages, pnList, n + 1, pnList[n] + 1, needed)
  {
    FirstIsLeast(pages, pnList);
    assert pnList[n] in pages;
    assert forall k :: 0 <= k < n ==> pnList[k] < pnList[n];
  }

  lemma GapScanDone(pages: set<nat>, pnList: seq<nat>, n: nat, cur: nat, needed: nat)
    requires GapScan(pages, pnList, n, cur, needed) && (n < |pnList| ==> pnList[n] - cur >= needed)
    ensures FirstGap(pages, needed, cur)
  {
    FirstIsLeast(pages, pnList);
    forall pn | pn in pages ensures pn < cur || cur + needed <= pn {
      var k :| 0 <= k < |pnList| && pnList[k] == pn;
      assert k > n ==> pnList[n] < pnList[k];
    }
  }

  // ----- taking a block out of the list -----

  ghost predicate Fits(list: seq<Range>, k: int, size: nat) {
    0 <= k < |list| && list[k].lo + size <= list[k].hi
  }

  /** How far the near edge of a range is from base. */
  function EdgeDistance(r: Range, base: nat): int {
    if r.lo > base then r.lo - base else base - r.hi
  }

  /** Where a block of size bytes is cut from a range: at the edge nearer to base. */
  function CutAt(r: Range, base: nat, size: nat): int {
    if r.lo > base then r.lo else r.hi - size
  }

  function CutRange(r: Range, base: nat, size: nat): Range
    requires r.lo + size <= r.hi
  {
    if r.lo > base then Range(r.lo + size, r.hi) else Range(r.lo, r.hi - size)
  }

  /** Range k is a closest range among those that can hold size bytes. */
  ghost predicate Closest(list: seq<Range>, k: int, base: nat, size: nat) {
    && Fits(list, k, size)
    && forall j :: Fits(list, j, size) ==> EdgeDistance(list[k], base) <= EdgeDistance(list[j], base)
  }

  /** Between ranges at the same distance the upper side comes first, and on one side the range met first. */
  ghost predicate Preferred(list: seq<Range>, k: int, j: int, base: nat)
    requires 0 <= k < |list| && 0 <= j < |list|
  {
    EdgeDistance(list[k], base) == EdgeDistance(list[j], base) ==>
      if list[k].lo > base then list[j].lo > base ==> k <= j else list[j].lo <= base && j <= k
  }

  /** Range k is the one that reserve takes. */
  ghost predicate Chosen(list: seq<Range>, k: int, base: nat, size: nat) {
    Closest(list, k, base, size) && forall j :: Fits(list, j, size) ==> Preferred(list, k, j, base)
  }

  /** list' and near are what is left of list and what is handed out. */
  ghost predicate CutFrom(list: seq<Range>, list': seq<Range>, k: int, base: nat, size: nat, near: nat) {
    && Fits(list, k, size)
    && near == CutAt(list[k], base, size)
    && list' == list[k := CutRange(list[k], base, size)]
  }

  /** Everything up to s lies at or below base, everything after it above. */
  ghost predicate Splits(list: seq<Range>, base: nat, s: int) {
    && -1 <= s < |list|
    && (forall k :: 0 <= k <= s ==> list[k].hi <= base)
    && (forall k :: s < k < |list| ==> list[k].lo > base)
  }

  /** The outcome of PageMap.reserve: an address, or one of the exceptions it raises. */
  datatype Reservation =
    | Reserved(addr: nat)
    | EmptyFreeList
    | FailedToReserve

  /**
   * What reserve does: it fails exactly when no range can hold size bytes, changing
   * nothing; otherwise it takes an aligned unmarked block from a closest fitting range, the upper one of two.
   */
  ghost predicate ReserveEffect(img: Image, img': Image, list: seq<Range>, list': seq<Range>, base: nat, size: nat,
                                r: Reservation) {
    match r
    case EmptyFreeList => list == [] && img' == img && list' == list
    case FailedToReserve => list != [] && (forall k :: !Fits(list, k, size)) && img' == img && list' == list
    case Reserved(near) =>
      && near % 2 == 0
      && Clear(img, near, near + size)
      && Wrote(img, img', near, Zeros(size))
      && FreeListOf(img', list')
      && exists k :: Chosen(list, k, base, size) && CutFrom(list, list', k, base, size, near)
  }

  /** The nearest fitting range on either side of base is the one to take, or the other side's is. */
  lemma NearestOnEachSide(list: seq<Range>, base: nat, size: nat, s0: int, s: int, e: int)
    requires Ordered(list) && Splits(list, base, s0) && -1 <= s <= s0 && s0 + 1 <= e <= |list|
    requires (s == -1 || Fits(list, s, size)) && (e == |list| || Fits(list, e, size))
    requires forall k :: s < k < e ==> !Fits(list, k, size)
    ensures forall k :: Fits(list, k, size) ==> k <= s || e <= k
    ensures s >= 0 && (e < |list| ==> base - list[s].hi < list[e].lo - base) ==> Chosen(list, s, base, size)
    ensures e < |list| && (s >= 0 ==> list[e].lo - base <= base - list[s].hi) ==> Chosen(list, e, base, size)
  {
  }

  /** A base in no range splits the list where the ranges beside it do. */
  lemma SplitsHere(list: seq<Range>, base: nat, s: int)
    requires Ordered(list) && !InList(list, base) && -1 <= s < |list|
    requires (s >= 0 ==> list[s].hi <= base) && (s + 1 < |list| ==> base < list[s + 1].lo)
    ensures Splits(list, base, s)
  {
    forall k | 0 <= k < s ensures list[k].hi <= base {
      assert list[k].hi <= list[s].lo;
    }
  }

  lemma BaseInNoRange(img: Image, list: seq<Range>, base: nat)
    requires FreeListOf(img, list) && img.marked(base)
    ensures !InList(list, base)
  {
  }

  /** Writing the block keeps the list a free list of the new image. */
  lemma CutKeepsFreeList(img: Image, img': Image, list: seq<Range>, list': seq<Range>, k: int, base: nat, size: nat,
                         near: nat)
    requires FreeListOf(img, list) && size % 2 == 0
    requires CutFrom(list, list', k, base, size, near)
    requires Wrote(img, img', near, Zeros(size))
    ensures near % 2 == 0 && Clear(img, near, near + size)
    ensures FreeListOf(img', list')
  {
    CutIsOrdered(list, list', k, base, size, near);
    forall j, a: nat | 0 <= j < |list'| && list'[j].lo <= a < list'[j].hi
      ensures !img'.marked(a)
    {
      assert list[j].lo <= a < list[j].hi;
      assert !InRange(a, near, size);
    }
  }

  /** The block lies in the range it is cut from, beside what is left of it. */
  lemma CutIsOrdered(list: seq<Range>, list': seq<Range>, k: int, base: nat, size: nat, near: nat)
    requires Ordered(list) && size % 2 == 0 && CutFrom(list, list', k, base, size, near)
    ensures Ordered(list') && near % 2 == 0 && list[k].lo <= near && near + size <= list[k].hi
    ensures |list'| == |list| && forall j, a: nat :: 0 <= j < |list'| && list'[j].lo <= a < list'[j].hi ==>
      list[j].lo <= a < list[j].hi && !InRange(a, near, size)
  {
  }

  /** The list loses the block and nothing else. */
  lemma CutLosesBlock(list: seq<Range>, list': seq<Range>, k: int, base: nat, size: nat, near: nat, a: nat)
    requires Ordered(list) && size % 2 == 0 && CutFrom(list, list', k, base, size, near)
    ensures InList(list', a) <==> InList(list, a) && !InRange(a, near, size)
    ensures InRange(a, near, size) ==> InList(list, a)
  {
    CutIsOrdered(list, list', k, base, size, near);
    if InList(list', a) {
      var j :| 0 <= j < |list'| && list'[j].lo <= a < list'[j].hi;
      assert list[j].lo <= a < list[j].hi;
    }
    if InList(list, a) && !InRange(a, near, size) {
      var j :| 0 <= j < |list| && list[j].lo <= a < list[j].hi;
      assert list'[j].lo <= a < list'[j].hi;
    }
    if InRange(a, near, size) {
      assert list[k].lo <= a < list[k].hi;
    }
  }

  ghost predicate NoneMeet(list: seq<Range>) {
    forall j, k :: 0 <= j < k < |list| ==> list[j].hi < list[k].lo
  }

  /** In a list whose ranges do not meet some range fits exactly if some size bytes in a row are free. */
  lemma RoomFits(list: seq<Range>, size: nat)
    requires Ordered(list) && NoneMeet(list) && size > 0
    ensures (exists k :: Fits(list, k, size)) <==>
      exists a: nat {:trigger Room(list, a, size)} :: Room(list, a, size)
  {
    if k :| Fits(list, k, size) {
      assert Room(list, list[k].lo, size);
    }
    if a: nat :| Room(list, a, size) {
      assert InList(list, a);
      var k :| 0 <= k < |list| && list[k].lo <= a < list[k].hi;
      assert Fits(list, k, size) by {
        assert !InList(list, list[k].hi);
      }
    }
  }

  ghost predicate Room(list: seq<Range>, a: nat, size: nat) {
    forall b: nat :: a <= b < a + size ==> InList(list, b)
  }

  // ----- how far the block is -----

  function Distance(a: nat, b: nat): nat {
    if a < b then b - a else a - b
  }

  /** A block cut from a range is as far from base as the range's edge, plus its own size when the range lies below. */
  lemma CutDistance(list: seq<Range>, k: int, base: nat, size: nat)
    requires Ordered(list) && !InList(list, base) && Fits(list, k, size)
    ensures Distance(CutAt(list[k], base, size), base)
      == EdgeDistance(list[k], base) + if list[k].lo > base then 0 else size
  {
    assert list[k].hi <= base || base < list[k].lo;
  }

  lemma BlockDistance(list: seq<Range>, list': seq<Range>, k: int, base: nat, size: nat, near: nat)
    requires Ordered(list) && !InList(list, base) && CutFrom(list, list', k, base, size, near)
    ensures Distance(near, base) == EdgeDistance(list[k], base) + if list[k].lo > base then 0 else size
  {
    CutDistance(list, k, base, size);
  }

  /** So no other choice of a fitting range would bring the block closer by more than its size. */
  lemma BlockIsNear(list: seq<Range>, list': seq<Range>, k: int, base: nat, size: nat, near: nat, j: int)
    requires Ordered(list) && !InList(list, base)
    requires Closest(list, k, base, size) && CutFrom(list, list', k, base, size, near) && Fits(list, j, size)
    ensures Distance(near, base) <= Distance(CutAt(list[j], base, size), base) + size
  {
    BlockDistance(list, list', k, base, size, near);
    assert list[j].hi <= base || base < list[j].lo;
  }

  /**
   * No other choice would bring the block closer at all exactly when the chosen range lies above base, or
   * every fitting range above base is farther by at least the size of the block.
   */
  lemma BlockIsNearest(list: seq<Range>, k: int, base: nat, size: nat)
    requires Ordered(list) && !InList(list, base) && Closest(list, k, base, size)
    ensures (forall j :: Fits(list, j, size) ==>
               Distance(CutAt(list[k], base, size), base) <= Distance(CutAt(list[j], base, size), base))
       <==> (list[k].lo > base || forall j :: Fits(list, j, size) && list[j].lo > base ==>
               EdgeDistance(list[k], base) + size <= EdgeDistance(list[j], base))
  {
    forall j | Fits(list, j, size)
      ensures Distance(CutAt(list[j], base, size), base)
        == EdgeDistance(list[j], base) + if list[j].lo > base then 0 else size
    {
      CutDistance(list, j, base, size);
    }
  }

  /** One page at FIRST_PN, with the marked bytes [100, 108) and 200. */
  ghost function SampleImage(): Image {
    var start := Base(FIRST_PN);
    Image({FIRST_PN}, _ => 0, (a: nat) => start + 100 <= a < start + 108 || a == start + 200)
  }

  function SampleList(): seq<Range> {
    var start := Base(FIRST_PN);
    [Range(start, start + 100), Range(start + 108, start + 200)]
  }

  lemma SampleIsWellFormed()
    ensures SampleImage().WellFormed()
    ensures forall a: nat :: Base(FIRST_PN) <= a < Base(FIRST_PN) + 4096 ==> SampleImage().Present(a)
  {
  }

  lemma HoleInSample(a: nat)
    requires InHole(SampleImage(), a)
    ensures Base(FIRST_PN) <= a < Base(FIRST_PN) + 100 || Base(FIRST_PN) + 108 <= a < Base(FIRST_PN) + 200
  {
    var img, start := SampleImage(), Base(FIRST_PN);
    var c: nat :| c <= a && Opens(img, c) && Clear(img, c, a + 2);
    var m: nat :| a + 1 < m && img.marked(m);
    assert m <= start + 200 && start <= c;
    assert !img.marked(a) && !img.marked(a + 1);
  }

  lemma SampleInHole(a: nat)
    requires a % 2 == 0
    ensures InList(SampleList(), a) <==> InHole(SampleImage(), a)
  {
    var img, list, start := SampleImage(), SampleList(), Base(FIRST_PN);
    SampleIsWellFormed();
    assert list[0] == Range(start, start + 100) && list[1] == Range(start + 108, start + 200);
    assert img.marked(start + 104) && img.marked(start + 200);
    if start <= a < start + 100 {
      assert Opens(img, start) && Clear(img, start, a + 2);
    } else if start + 108 <= a < start + 200 {
      assert MarkBelow(img, start + 108);
      assert Opens(img, start + 108) && Clear(img, start + 108, a + 2);
    }
    if InHole(img, a) {
      HoleInSample(a);
    }
  }

  /**
   * In this image, whose free list is complete, a marked base gets a block 42 bytes away though one would be
   * 6 bytes away.
   */
  lemma NearerBlockMissed()
    ensures var img, list, base, size := SampleImage(), SampleList(), Base(FIRST_PN) + 102, 40;
      img.WellFormed() && Complete(HoleState(img, list)) && img.marked(base) &&
      Fits(list, 0, size) && Fits(list, 1, size) && Closest(list, 0, base, size) && !Closest(list, 1, base, size) &&
      Distance(CutAt(list[0], base, size), base) == 42 && Distance(CutAt(list[1], base, size), base) == 6
  {
    SampleIsWellFormed();
    forall a: nat {:trigger InList(SampleList(), a)} | a % 2 == 0
      ensures InList(SampleList(), a) <==> InHole(SampleImage(), a)
    {
      SampleInHole(a);
    }
  }

  // ----- any sequence of reservations -----

  datatype Request = Request(base: nat, size: nat)

  /** A run of reserve, with the image and free list after each request. */
  datatype Trace =
    | Start(last: HoleState)
    | Step(prev: Trace, request: Request, result: Reservation, last: HoleState)

  ghost predicate ReserveStep(h: HoleState, h': HoleState, q: Request, r: Reservation) {
    && h.img.marked(q.base) && q.size % 2 == 0
    && ReserveEffect(h.img, h'.img, h.list, h'.list, q.base, q.size, r)
  }

  /** The first list is a free list, and every request is answered as reserve does. */
  ghost predicate TraceOk(t: Trace) {
    match t
    case Start(h) => FreeListOf(h.img, h.list)
    case Step(prev, q, r, h) => TraceOk(prev) && ReserveStep(prev.last, h, q, r)
  }

  /** The state a run started from. */
  function Root(t: Trace): HoleState {
    if t.Start? then t.last else Root(t.prev)
  }

  function Requests(t: Trace): seq<Request> {
    if t.Start? then [] else Requests(t.prev) + [t.request]
  }

  /** No request has failed. */
  predicate Granted(t: Trace) {
    t.Start? || (t.result.Reserved? && Granted(t.prev))
  }

  /** u is a part of the run t, from its start on. */
  ghost predicate Earlier(u: Trace, t: Trace)
    decreases t
  {
    u == t || (t.Step? && Earlier(u, t.prev))
  }

  /** The free list stays sorted, disjoint, aligned and made of unmarked bytes. */
  lemma {:induction false} TraceKeepsFreeList(t: Trace)
    requires TraceOk(t)
    ensures FreeListOf(t.last.img, t.last.list)
  {
    if t.Step? {
      TraceKeepsFreeList(t.prev);
    }
  }

  lemma {:induction false} MarksStay(u: Trace, t: Trace, a: nat)
    requires TraceOk(t) && Earlier(u, t) && u.last.img.marked(a)
    ensures t.last.img.marked(a)
    decreases t
  {
    if u != t {
      MarksStay(u, t.prev, a);
    }
  }

  lemma {:induction false} EarlierOk(u: Trace, t: Trace)
    requires TraceOk(t) && Earlier(u, t)
    ensures TraceOk(u)
    decreases t
  {
    if u != t {
      EarlierOk(u, t.prev);
    }
  }

  /**
   * Every block handed out is aligned, touches no byte marked at any earlier time, and is apart from all
   * earlier blocks.
   */
  lemma BlocksApart(u: Trace, t: Trace)
    requires TraceOk(t) && t.Step? && t.result.Reserved? && Earlier(u, t.prev)
    ensures t.result.addr % 2 == 0 && Clear(u.last.img, t.result.addr, t.result.addr + t.request.size)
    ensures u.Step? && u.result.Reserved? ==>
      Disjoint(u.result.addr, u.request.size, t.result.addr, t.request.size)
  {
    var near, size := t.result.addr, t.request.size;
    forall a: nat | near <= a < near + size ensures !u.last.img.marked(a) {
      if u.last.img.marked(a) {
        MarksStay(u, t.prev, a);
        assert false;
      }
    }
    EarlierOk(u, t.prev);
    if u.Step? && u.result.Reserved? {
      forall a | InRange(a, u.result.addr, u.request.size) ensures !InRange(a, near, size) {
        assert u.last.img.marked(a);
      }
    }
  }

  const NO_SEARCH := Start(NO_HOLES)

  /** A run of reserve. */
  type Search = t: Trace | TraceOk(t) ghost witness NO_SEARCH

  lemma Searched(t: Search, q: Request, r: Reservation, h: HoleState) returns (t': Search)
    requires ReserveStep(t.last, h, q, r)
    ensures t' == Step(t, q, r, h)
  {
    t' := Step(t, q, r, h);
  }

  /** A free list that holds every pair in a hole, each hole in one piece. */
  ghost predicate Complete(h: HoleState) {
    && FreeListOf(h.img, h.list) && Maximal(h.list)
    && forall a: nat {:trigger InList(h.list, a)} :: a % 2 == 0 ==> (InList(h.list, a) <==> InHole(h.img, a))
  }

  /** The list keeps what no block has taken: the bytes of the first list that are still unmarked. */
  lemma {:induction false} ListIsRest(t: Trace, a: nat)
    requires TraceOk(t)
    ensures InList(t.last.list, a) <==> InList(Root(t).list, a) && !t.last.img.marked(a)
  {
    if t.Start? {
      FreeBytes(t.last.img, t.last.list, a);
    } else {
      ListIsRest(t.prev, a);
      TraceKeepsFreeList(t.prev);
      StepTakes(t.prev.last, t.last, t.request, t.result, a);
    }
  }

  lemma FreeBytes(img: Image, list: seq<Range>, a: nat)
    requires FreeListOf(img, list)
    ensures InList(list, a) ==> !img.marked(a)
  {
  }

  /** A step takes from the list the bytes that it marks. */
  lemma StepTakes(h: HoleState, h': HoleState, q: Request, r: Reservation, a: nat)
    requires FreeListOf(h.img, h.list) && ReserveStep(h, h', q, r)
    ensures InList(h'.list, a) <==> InList(h.list, a) && (r.Reserved? ==> !InRange(a, r.addr, q.size))
    ensures h'.img.marked(a) <==> h.img.marked(a) || (r.Reserved? && InRange(a, r.addr, q.size))
  {
    if r.Reserved? {
      var k :| Chosen(h.list, k, q.base, q.size) && CutFrom(h.list, h'.list, k, q.base, q.size, r.addr);
      CutLosesBlock(h.list, h'.list, k, q.base, q.size, r.addr, a);
    }
  }

  lemma {:induction false} NoneMeetLater(t: Trace)
    requires TraceOk(t) && NoneMeet(Root(t).list)
    ensures NoneMeet(t.last.list)
  {
    if t.Step? {
      NoneMeetLater(t.prev);
      TraceKeepsFreeList(t.prev);
      NoneMeetNext(t.prev.last, t.last, t.request, t.result);
    }
  }

  lemma NoneMeetNext(h: HoleState, h': HoleState, q: Request, r: Reservation)
    requires FreeListOf(h.img, h.list) && ReserveStep(h, h', q, r) && NoneMeet(h.list)
    ensures NoneMeet(h'.list)
  {
  }

  /** Reserve refuses exactly when no size bytes in a row are unmarked bytes of the first list. */
  lemma RefusedForRoom(t: Trace)
    requires TraceOk(t) && t.Step? && NoneMeet(Root(t).list) && t.request.size > 0
    ensures !t.result.Reserved? <==>
      forall a: nat {:trigger UnmarkedRoom(t.prev, a, t.request.size)} :: !UnmarkedRoom(t.prev, a, t.request.size)
  {
    var h, size := t.prev.last, t.request.size;
    NoneMeetLater(t.prev);
    TraceKeepsFreeList(t.prev);
    RoomFits(h.list, size);
    forall a: nat ensures UnmarkedRoom(t.prev, a, size) <==> Room(h.list, a, size) {
      forall b: nat ensures InList(h.list, b) <==> InList(Root(t.prev).list, b) && !h.img.marked(b) {
        ListIsRest(t.prev, b);
      }
    }
  }

  /** The size bytes from a on are unmarked bytes of the list that the run started with. */
  ghost predicate UnmarkedRoom(t: Trace, a: nat, size: nat) {
    forall b: nat :: a <= b < a + size ==> InList(Root(t).list, b) && !t.last.img.marked(b)
  }
}
