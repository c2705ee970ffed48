// The paged byte memory of a checkpoint image (class Page and class PageMap).
module PageMaps {
  import opened Bytes
  import opened FreeLists
  import opened ImageFiles
  import opened Images
  import opened Sorting

  class Page {
    var bitmap: set<nat>
    var data: seq<byte>

    ghost function Contents(): PageData
      reads this
    {
      PageData(data, bitmap)
    }

    constructor (bitmap: set<nat>, data: seq<byte>)
      ensures Contents() == PageData(data, bitmap)
    {
      this.bitmap, this.data := bitmap, data;
    }

    method Put(offs: nat, part: seq<byte>)
      requires Contents().Valid() && offs + |part| <= 4096
      modifies this
      ensures Contents().AfterPut(old(Contents()), offs, part)
    {
      data := data[..offs] + part + data[offs + |part|..];
      bitmap := bitmap + Interval(offs, offs + |part|);
    }

    predicate IsFree(offs: nat)
      reads this
    {
      offs !in bitmap
    }
  }

  /** The pages of the first n numbers in a list. */
  ghost function FirstPages(view: map<nat, PageData>, pageList: seq<nat>, n: nat): map<nat, PageData>
    requires SortedListOf(pageList, view.Keys) && n <= |pageList|
  {
    map pn | pn in pageList[..n] && pn in view :: view[pn]
  }

  lemma OneMorePage(view: map<nat, PageData>, pageList: seq<nat>, i: nat)
    requires SortedListOf(pageList, view.Keys) && i < |pageList|
    ensures pageList[i] in view && pageList[i] !in FirstPages(view, pageList, i)
    ensures FirstPages(view, pageList, i + 1) == FirstPages(view, pageList, i)[pageList[i] := view[pageList[i]]]
  {
    assert pageList[..i + 1] == pageList[..i] + [pageList[i]];
    assert pageList[i] in view.Keys;
  }

  lemma AllPagesFirst(view: map<nat, PageData>, pageList: seq<nat>)
    requires SortedListOf(pageList, view.Keys)
    ensures FirstPages(view, pageList, |pageList|) == view
  {
    assert pageList[..|pageList|] == pageList;
  }

  class PageMap {
    var pages: map<nat, Page>
    ghost var memory: Memory  // what the pages hold, and the image that is
    ghost var Repr: set<object>
    ghost var home: map<Page, nat>  // the page number of each page: no page is filed twice

    ghost function View(): map<nat, PageData>
      reads this, Repr
    {
      map pn | pn in pages && pages[pn] in Repr :: pages[pn].Contents()
    }

    ghost predicate Valid()
      reads this, Repr
    {
      Filed() && memory.view == View()
    }

    ghost function Img(): Image
      reads this
    {
      memory.image
    }

    constructor ()
      ensures Valid() && fresh(Repr) && pages == map[]
    {
      pages, home, Repr := map[], map[], {this};
      memory := NO_PAGES;
    }

    /** `copy.deepcopy`: the same image on pages of its own. */
    constructor Copy(other: PageMap)
      requires other.Valid()
      ensures Valid() && fresh(Repr) && Img() == other.Img()
    {
      pages, home, Repr := map[], map[], {this};
      memory := other.memory;
      new;
      var pageList := SortKeys(other.pages.Keys);
      FileAll(other, pageList);
    }

    method FileAll(other: PageMap, pageList: seq<nat>)
      requires Filed() && View() == map[] && other.Valid() && other.Repr !! Repr
        && SortedListOf(pageList, other.View().Keys)
      modifies this
      ensures Filed() && fresh(Repr - old(Repr)) && memory == old(memory) && View() == other.View()
    {
      ghost var was := other.View();
      for i := 0 to |pageList|
        invariant Filed() && fresh(Repr - old(Repr)) && memory == old(memory)
        invariant View() == FirstPages(was, pageList, i)
      {
        FileNext(other, pageList, i, was);
      }
      AllPagesFirst(was, pageList);
    }

    /** A page of this map's own with the contents of the other map's page. */
    method FileNext(other: PageMap, pageList: seq<nat>, i: nat, ghost was: map<nat, PageData>)
      requires Filed() && other.Valid() && other.View() == was && other.Repr !! Repr
      requires SortedListOf(pageList, was.Keys) && i < |pageList| && View() == FirstPages(was, pageList, i)
      modifies this
      ensures Filed() && fresh(Repr - old(Repr)) && memory == old(memory)
      ensures View() == FirstPages(was, pageList, i + 1)
    {
      var pn := pageList[i];
      OneMorePage(was, pageList, i);
      FilePage(pn, other.pages[pn].bitmap, other.pages[pn].data);
    }

    /** Every page is filed under one number. */
    ghost predicate Filed()
      reads this, Repr
    {
      this in Repr && forall pn :: pn in pages ==> pages[pn] in Repr && pages[pn] in home && home[pages[pn]] == pn
    }

    method FilePage(pn: nat, bitmap: set<nat>, data: seq<byte>)
      requires Filed() && pn !in View()
      modifies this
      ensures Filed() && fresh(Repr - old(Repr)) && pn in pages && memory == old(memory)
      ensures View() == old(View())[pn := PageData(data, bitmap)]
    {
      var page := new Page(bitmap, data);
      pages, home, Repr := pages[pn := page], home[page := pn], Repr + {page};
    }

    lemma ImgWellFormed()
      requires Valid()
      ensures Img().WellFormed()
    {
      assert Represents(memory.image, memory.view);
    }

    /** `self[pn]`: the page, created blank when absent. */
    method GetPage(pn: nat) returns (page: Page)
      requires Valid()
      modifies this
      ensures Valid() && fresh(Repr - old(Repr))
      ensures pn in pages && page == pages[pn]
      ensures Img() == old(Img()).(pages := old(Img()).pages + {pn})
    {
      if pn !in pages {
        AddBlank(pn);
      }
      page := pages[pn];
      assert Img().pages == old(Img()).pages + {pn};
    }

    method AddBlank(pn: nat)
      requires Valid() && pn !in pages
      modifies this
      ensures Valid() && fresh(Repr - old(Repr)) && pn in pages
      ensures Img() == old(Img()).(pages := old(Img()).pages + {pn})
    {
      FilePage(pn, {}, Zeros(4096));
      memory := WithBlankPage(memory, pn);
    }

    /** A write to flat memory, one page at a time. */
    method Put(addr: nat, data: seq<byte>)
      requires Valid()
      modifies Repr
      ensures Valid() && fresh(Repr - old(Repr))
      ensures Wrote(old(Img()), Img(), addr, data)
    {
      var beginPn := ShiftToPage(addr);
      var endPn := ShiftToPage(addr + |data| + PAGE_SIZE - 1);
      ghost var img := Img();
      for pn := beginPn to endPn
        invariant Valid() && fresh(Repr - old(Repr))
        invariant WrittenBelow(img, Img(), addr, data, pn)
      {
        PutOnPage(pn, addr, data, img);
      }
      assert forall a: nat :: InRange(a, addr, |data|) ==> a < Base(endPn);
    }

    /** The loop body of put. */
    method PutOnPage(pn: nat, addr: nat, data: seq<byte>, ghost img: Image)
      requires Valid() && PageOf(addr) <= pn < PageOf(addr + |data| + 4095)
      requires WrittenBelow(img, Img(), addr, data, pn)
      modifies Repr
      ensures Valid() && fresh(Repr - old(Repr))
      ensures WrittenBelow(img, Img(), addr, data, pn + 1)
    {
      var offs, part := PartFor(pn, addr, data);
      ghost var before := Img();
      PutPart(pn, offs, part);
      WrittenOneMorePage(img, before, Img(), addr, data, pn, offs, part);
    }

    /** `self[pn].put(offs, part)`. */
    method PutPart(pn: nat, offs: nat, part: seq<byte>)
      requires Valid() && offs + |part| <= 4096
      modifies Repr
      ensures Valid() && fresh(Repr - old(Repr))
      ensures Img().pages == old(Img()).pages + {pn}
      ensures WroteInPage(old(Img()), Img(), pn, offs, part)
    {
      var _ := GetPage(pn);
      PutInPage(pn, offs, part);
    }

    /** The part of a write that falls into page pn. */
    static method PartFor(pn: nat, addr: nat, data: seq<byte>) returns (offs: nat, part: seq<byte>)
      requires PageOf(addr) <= pn < PageOf(addr + |data| + 4095)
      ensures IsPart(pn, addr, data, offs, part)
    {
      var beginAddr := if addr > Base(pn) then addr else Base(pn);
      var endAddr := if addr + |data| < Base(pn + 1) then addr + |data| else Base(pn + 1);
      offs := beginAddr - Base(pn);  // beginAddr & PAGE_OFFS_MASK
      part := data[beginAddr - addr..endAddr - addr];
    }

    /** A write to an existing page. */
    method PutInPage(pn: nat, offs: nat, part: seq<byte>)
      requires Valid() && pn in pages && offs + |part| <= 4096
      modifies pages[pn], `memory
      ensures Valid() && Repr == old(Repr) && Img().pages == old(Img()).pages
      ensures WroteInPage(old(Img()), Img(), pn, offs, part)
    {
      assert memory.view[pn] == pages[pn].Contents();
      pages[pn].Put(offs, part);
      memory := WithPart(memory, pn, offs, part, pages[pn].Contents());
      assert View() == memory.view;
    }

    /** The holes between marked bytes, found in one pass over every byte of every page. */
    method MakeFreeList() returns (freeList: seq<Range>)
      requires Valid()
      ensures Complete(HoleState(Img(), freeList))
    {
      freeList := [];
      var cur: Option<nat> := Some(Base(FIRST_PN));
      ghost var last: Option<nat> := None;
      var pageList := SortKeys(pages.Keys);
      ghost var img := Img();
      PagesListed(pageList);
      ImgWellFormed();
      NothingScanned(img);
      for n := 0 to |pageList|
        invariant Scanned(img, PagesEnd(pageList, n), cur, last, freeList)
      {
        cur, last, freeList := ScanListed(pageList, n, img, cur, last, freeList);
      }
      ScannedIsComplete(img, pageList, cur, last, freeList);
    }

    /** The outer loop body of make_free_list: page n of the list, and the gap before it. */
    method ScanListed(pageList: seq<nat>, n: nat, ghost img: Image, cur: Option<nat>, ghost last: Option<nat>,
                      freeList: seq<Range>)
      returns (cur': Option<nat>, ghost last': Option<nat>, freeList': seq<Range>)
      requires Valid() && img == Img() && img.WellFormed() && SortedListOf(pageList, img.pages) && n < |pageList|
      requires Scanned(img, PagesEnd(pageList, n), cur, last, freeList)
      ensures Scanned(img, PagesEnd(pageList, n + 1), cur', last', freeList')
    {
      var pn := pageList[n];
      GapBeforePage(img, pageList, n);
      SkipAbsent(img, PagesEnd(pageList, n), Base(pn), cur, last, freeList);
      ListedIsPage(pageList, n);
      cur', last', freeList' := ScanOwn(pn, img, cur, last, freeList);
    }

    method ScanOwn(pn: nat, ghost img: Image, cur: Option<nat>, ghost last: Option<nat>, freeList: seq<Range>)
      returns (cur': Option<nat>, ghost last': Option<nat>, freeList': seq<Range>)
      requires Valid() && img == Img() && pn in pages && Scanned(img, Base(pn), cur, last, freeList)
      ensures Scanned(img, Base(pn + 1), cur', last', freeList')
    {
      PageBits(pn, img);
      cur', last', freeList' := ScanPage(pages[pn], pn, img, cur, last, freeList);
    }

    lemma ListedIsPage(pageList: seq<nat>, n: nat)
      requires Valid() && SortedListOf(pageList, Img().pages) && n < |pageList|
      ensures pageList[n] in pages
    {
      PagesAreValid(memory);
      assert memory.view.Keys == pages.Keys;
      assert pageList[n] in pageList;
    }

    lemma PageBits(pn: nat, img: Image)
      requires Valid() && pn in pages && img == Img()
      ensures img.WellFormed() && pn in img.pages
      ensures MarksOf(pages[pn].bitmap, pn, img)
    {
      forall i: nat | i < 4096 ensures i in pages[pn].bitmap <==> img.marked(Base(pn) + i) {
        assert PageOf(Base(pn) + i) == pn && OffsOf(Base(pn) + i) == i;
      }
    }

    /** The inner loop of make_free_list. */
    static method ScanPage(page: Page, pn: nat, ghost img: Image, cur0: Option<nat>, ghost last0: Option<nat>,
                           freeList0: seq<Range>)
      returns (cur: Option<nat>, ghost last: Option<nat>, freeList: seq<Range>)
      requires img.WellFormed() && pn in img.pages
      requires MarksOf(page.bitmap, pn, img)
      requires Scanned(img, Base(pn), cur0, last0, freeList0)
      ensures Scanned(img, Base(pn + 1), cur, last, freeList)
    {
      cur, last, freeList := cur0, last0, freeList0;
      var pa := Base(pn);
      for i := 0 to 4096
        invariant Scanned(img, pa + i, cur, last, freeList)
      {
        assert PageOf(pa + i) == pn;
        cur, last, freeList := ScanByte(img, pa + i, page.IsFree(i), cur, last, freeList);
      }
    }

    /** The loop body of make_free_list, for the byte at pos. */
    static method ScanByte(ghost img: Image, pos: nat, free: bool, cur: Option<nat>, ghost last: Option<nat>,
                           freeList: seq<Range>)
      returns (cur': Option<nat>, ghost last': Option<nat>, freeList': seq<Range>)
      requires img.WellFormed() && Scanned(img, pos, cur, last, freeList)
      requires img.Present(pos) && (free <==> !img.marked(pos))
      ensures Scanned(img, pos + 1, cur', last', freeList')
    {
      ScanStep(img, pos, cur, last, freeList);
      cur', last', freeList' := cur, if free then last else Some(pos), freeList;
      if cur.None? && free {
        cur' := Some(pos);
      } else if cur.Some? && !free {
        var begin, end := EvenUp(cur.value), EvenDown(pos);
        if begin < end {
          freeList' := freeList + [Range(begin, end)];
        }
        cur' := None;
      }
    }

    /** The binary search of reserve; base lies in no range. */
    method Bracket(freeList: array<Range>, base: nat) returns (s: int, e: int)
      requires freeList.Length > 0 && Ordered(freeList[..]) && !InList(freeList[..], base)
      ensures Splits(freeList[..], base, s) && e == s + 1
    {
      ghost var list := freeList[..];
      assert forall k :: 0 <= k < |list| ==> list[k].hi <= base || list[k].lo > base;
      if base < freeList[0].lo {
        s, e := -1, 0;
      } else if base >= freeList[freeList.Length - 1].hi {
        s, e := freeList.Length - 1, freeList.Length;
      } else {
        s, e := 0, freeList.Length - 1;
        while s + 1 < e
          invariant 0 <= s < e < freeList.Length
          invariant list[s].hi <= base < list[e].lo
        {
          var m := (s + e) / 2;
          assert freeList[m] == list[m];
          if freeList[m].hi <= base {
            s := m;
          } else if freeList[m].lo > base {
            e := m;
          }
        }
      }
      SplitsHere(list, base, s);
    }

    /** The two-way scan of reserve: the closest fitting range on either side. */
    method ScanBothWays(freeList: array<Range>, s0: int, e0: int, size: nat, ghost base: nat)
      returns (s: int, e: int, sHit: bool, eHit: bool)
      requires Splits(freeList[..], base, s0) && e0 == s0 + 1
      ensures -1 <= s <= s0 && e0 <= e <= freeList.Length
      ensures sHit <==> Fits(freeList[..], s, size)
      ensures eHit <==> Fits(freeList[..], e, size)
      ensures forall k :: s < k <= s0 ==> !Fits(freeList[..], k, size)
      ensures forall k :: e0 <= k < e ==> !Fits(freeList[..], k, size)
      ensures (!sHit ==> s == -1) && (!eHit ==> e == freeList.Length)
    {
      s, e, sHit, eHit := s0, e0, false, false;
      while true
        invariant -1 <= s <= s0 && e0 <= e <= freeList.Length
        invariant sHit ==> Fits(freeList[..], s, size)
        invariant eHit ==> Fits(freeList[..], e, size)
        invariant forall k :: s < k <= s0 ==> !Fits(freeList[..], k, size)
        invariant forall k :: e0 <= k < e ==> !Fits(freeList[..], k, size)
        decreases s + freeList.Length - e + (if sHit then 0 else 1) + (if eHit then 0 else 1)
      {
        var doS := s >= 0 && !sHit;
        var doE := e < freeList.Length && !eHit;
        if !(doS || doE) {
          break;
        }
        if doS {
          if freeList[s].lo + size <= freeList[s].hi {
            sHit := true;
          } else {
            s := s - 1;
          }
        }
        if doE {
          if freeList[e].hi as int - size >= freeList[e].lo {
            eHit := true;
          } else {
            e := e + 1;
          }
        }
      }
    }

    /** The selection in reserve: a fitting range closest to base, the upper one of two, or none. */
    method Select(freeList: array<Range>, base: nat, size: nat) returns (use: Option<nat>)
      requires freeList.Length > 0 && Ordered(freeList[..]) && !InList(freeList[..], base)
      ensures use.None? ==> forall k :: !Fits(freeList[..], k, size)
      ensures use.Some? ==> Chosen(freeList[..], use.value, base, size)
    {
      var s0, e0 := Bracket(freeList, base);
      var s, e, sHit, eHit := ScanBothWays(freeList, s0, e0, size, base);
      NearestOnEachSide(freeList[..], base, size, s0, s, e);
      if sHit && eHit {
        var sDist := base - freeList[s].hi;
        var eDist := freeList[e].lo - base;
        use := Some(if sDist < eDist then s else e);
      } else if sHit {
        use := Some(s);
      } else if eHit {
        use := Some(e);
      } else {
        use := None;
      }
    }

    /** Cuts size bytes out of a range closest to base and marks them. */
    method Reserve(freeList: array<Range>, base: nat, size: nat) returns (r: Reservation)
      requires Valid() && FreeListOf(Img(), freeList[..])
      requires Img().marked(base) && size % 2 == 0
      requires freeList !in Repr
      modifies Repr, freeList
      ensures Valid() && fresh(Repr - old(Repr))
      ensures ReserveEffect(old(Img()), Img(), old(freeList[..]), freeList[..], base, size, r)
    {
      if freeList.Length == 0 {
        return EmptyFreeList;
      }
      ghost var list, img := freeList[..], Img();
      BaseInNoRange(img, list, base);
      var use := Select(freeList, base, size);
      if use.None? {
        return FailedToReserve;
      }
      var nearAddr := Take(freeList, base, size, use.value);
      Put(nearAddr, Zeros(size));
      CutKeepsFreeList(img, Img(), list, freeList[..], use.value, base, size, nearAddr);
      return Reserved(nearAddr);
    }

    /** Shortens range useI of the list by a block at its edge nearer to base. */
    static method Take(freeList: array<Range>, base: nat, size: nat, useI: nat) returns (nearAddr: nat)
      requires Fits(freeList[..], useI, size)
      modifies freeList
      ensures CutFrom(old(freeList[..]), freeList[..], useI, base, size, nearAddr)
    {
      var range := freeList[useI];
      if range.lo > base {
        freeList[useI] := Range(range.lo + size, range.hi);
        nearAddr := range.lo;
      } else {
        freeList[useI] := Range(range.lo, range.hi - size);
        nearAddr := range.hi - size;
      }
    }

    /** The first page number from which pagesNeeded absent pages follow. */
    method ReservePage(size: nat) returns (cur: nat)
      requires Valid()
      ensures FirstGap(Img().pages, PagesNeeded(size), cur)
    {
      var pagesNeeded := ShiftToPage(size + PAGE_SIZE - 1);
      cur := FIRST_PN;
      var pnList := SortKeys(pages.Keys);
      PagesListed(pnList);
      ghost var present, stop := Img().pages, |pnList|;
      for n := 0 to |pnList|
        invariant GapScan(present, pnList, n, cur, pagesNeeded)
      {
        if pnList[n] - cur < pagesNeeded {
          GapScanNext(present, pnList, n, cur, pagesNeeded);
          cur := pnList[n] + 1;
        } else {
          stop := n;
          break;
        }
      }
      GapScanDone(present, pnList, stop, cur, pagesNeeded);
    }

    lemma PagesListed(pageList: seq<nat>)
      requires Valid() && SortedListOf(pageList, pages.Keys)
      ensures SortedListOf(pageList, memory.view.Keys) && memory.view.Keys == Img().pages
      ensures forall pn :: pn in memory.view ==> memory.view[pn].Valid()
    {
      PagesAreValid(memory);
      assert memory.view.Keys == pages.Keys;
    }

    /** The cfg and dump of the pages: runs of consecutive pages become segments. */
    method Dump(ghost codec: Codec) returns (file: ImageFile)
      requires Valid()
      ensures LoadsTo(file, codec, PagesOf(memory.view)) && Holds(PagesOf(memory.view), Img())
      ensures SegmentsApart(file.cfg) && AllRaw(file.cfg)
    {
      var pageList := SortKeys(pages.Keys);
      PagesListed(pageList);
      var cfg := DumpConfigs(pageList, memory.view);
      var dump := WritePages(pageList);
      file := ImageFile(cfg, dump);
      DumpLoads(memory, pageList, codec, file);
    }

    /** The first two loops of dump. */
    static method DumpConfigs(pageList: seq<nat>, ghost view: map<nat, PageData>) returns (cfg: seq<Segment>)
      requires SortedListOf(pageList, view.Keys) && forall pn :: pn in view ==> view[pn].Valid()
      ensures cfg == RawFile(RunsFor(view, pageList)).cfg
    {
      RunsAreValid(view, pageList);
      var cfgs := MergePages(pageList, view);
      cfg := WriteConfigs(cfgs, RunsFor(view, pageList));
    }

    /** The first loop of dump: (pn, count) for each run of consecutive pages. */
    static method MergePages(pageList: seq<nat>, ghost view: map<nat, PageData>) returns (cfgs: seq<(nat, nat)>)
      requires SortedListOf(pageList, view.Keys) && forall pn :: pn in view ==> view[pn].Valid()
      ensures CountsOf(cfgs, RunsFor(view, pageList))
    {
      cfgs := [];
      var lastPn: Option<nat> := None;
      for i := 0 to |pageList|
        invariant CountsOf(cfgs, RunsFor(view, pageList[..i]))
        invariant lastPn == if i == 0 then None else Some(pageList[i - 1])
      {
        var pn := pageList[i];
        MergeStep(cfgs, view, pageList, i);
        if lastPn.None? || lastPn.value + 1 < pn {
          cfgs := cfgs + [(pn, 1)];
        } else {
          cfgs := cfgs[..|cfgs| - 1] + [(cfgs[|cfgs| - 1].0, cfgs[|cfgs| - 1].1 + 1)];
        }
        lastPn := Some(pn);
      }
      assert pageList[..|pageList|] == pageList;
    }

    /** The second loop of dump. */
    static method WriteConfigs(cfgs: seq<(nat, nat)>, ghost runs: seq<Run>) returns (cfg: seq<Segment>)
      requires CountsOf(cfgs, runs) && forall run :: run in runs ==> run.Valid()
      ensures cfg == RawFile(runs).cfg
    {
      cfg := [];
      var offs: nat := 0;
      for i := 0 to |cfgs|
        invariant cfg == RawFile(runs[..i]).cfg && offs == |RawFile(runs[..i]).dump|
      {
        var size := Base(cfgs[i].1);
        assert runs[i] in runs;
        JoinedPages(runs[i].pages);
        RawFileAppend(runs[..i], runs[i]);
        assert runs[..i + 1] == runs[..i] + [runs[i]];
        cfg := cfg + [Segment(Base(cfgs[i].0), offs, size, size)];
        offs := offs + size;
      }
      assert runs[..|cfgs|] == runs;
    }

    /** The last loop of dump. */
    method WritePages(pageList: seq<nat>) returns (dump: seq<byte>)
      requires Valid() && forall pn :: pn in pageList ==> pn in memory.view
      ensures dump == PageBytes(memory.view, pageList)
    {
      dump := [];
      for i := 0 to |pageList|
        invariant dump == PageBytes(memory.view, pageList[..i])
      {
        assert memory.view[pageList[i]] == pages[pageList[i]].Contents();
        assert pageList[..i + 1][..i] == pageList[..i];
        dump := dump + pages[pageList[i]].data;
      }
      assert pageList[..|pageList|] == pageList;
    }
  }

  lemma RunsAreValid(view: map<nat, PageData>, pageList: seq<nat>)
    requires SortedListOf(pageList, view.Keys) && forall pn :: pn in view ==> view[pn].Valid()
    ensures forall run :: run in RunsFor(view, pageList) ==> run.Valid()
  {
    RunsForDump(view, pageList, Codec(d => d, (d, n) => Some(d)));
  }

  lemma DumpLoads(m: Memory, pageList: seq<nat>, codec: Codec, file: ImageFile)
    requires SortedListOf(pageList, m.view.Keys)
    requires file == ImageFile(RawFile(RunsFor(m.view, pageList)).cfg, PageBytes(m.view, pageList))
    ensures LoadsTo(file, codec, PagesOf(m.view)) && Holds(PagesOf(m.view), m.image)
    ensures SegmentsApart(file.cfg) && AllRaw(file.cfg)
  {
    PagesAreValid(m);
    RunsForDump(m.view, pageList, codec);
    PagesHold(m);
    assert file == RawFile(RunsFor(m.view, pageList));
  }

  lemma PagesAreValid(m: Memory)
    ensures m.view.Keys == m.image.pages && forall pn :: pn in m.view ==> m.view[pn].Valid()
  {
  }

  lemma CountsFiled(cfgs: seq<(nat, nat)>, runs: seq<Run>, pn: nat, data: seq<byte>)
    requires CountsOf(cfgs, runs)
    ensures Gap(runs, pn) ==> CountsOf(cfgs + [(pn, 1)], Filed(runs, pn, data))
    ensures !Gap(runs, pn) ==> cfgs != []
    ensures !Gap(runs, pn) ==>
      CountsOf(cfgs[..|cfgs| - 1] + [(cfgs[|cfgs| - 1].0, cfgs[|cfgs| - 1].1 + 1)], Filed(runs, pn, data))
  {
  }

  /** Page i of the list continues the last run or opens a new one. */
  lemma MergeStep(cfgs: seq<(nat, nat)>, view: map<nat, PageData>, pageList: seq<nat>, i: nat)
    requires SortedListOf(pageList, view.Keys) && forall pn :: pn in view ==> view[pn].Valid()
    requires i < |pageList| && CountsOf(cfgs, RunsFor(view, pageList[..i]))
    ensures if i == 0 || pageList[i - 1] + 1 < pageList[i]
      then CountsOf(cfgs + [(pageList[i], 1)], RunsFor(view, pageList[..i + 1]))
      else
        cfgs != [] &&
        var last := cfgs[|cfgs| - 1];
        CountsOf(cfgs[..|cfgs| - 1] + [(last.0, last.1 + 1)], RunsFor(view, pageList[..i + 1]))
  {
    var runs := RunsFor(view, pageList[..i]);
    CountsFiled(cfgs, runs, pageList[i], view[pageList[i]].data);
    AllPages(view, pageList);
    RunsForStep(view, pageList, i);
  }

  /** cfgs lists the first page and the length of each run. */
  ghost predicate CountsOf(cfgs: seq<(nat, nat)>, runs: seq<Run>) {
    && |cfgs| == |runs|
    && forall k :: 0 <= k < |cfgs| ==> cfgs[k].0 == runs[k].pn && cfgs[k].1 == |runs[k].pages|
  }
}
