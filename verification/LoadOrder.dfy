// main.c: the loader sorts the segments by address to find its place, and by offset to map them.
module LoadOrders {
  import opened Bytes
  import opened Images
  import opened ImageFiles
  import opened LoaderBases
  import opened Loaders

  ghost predicate AllOnPages(cfg: seq<Segment>) {
    forall seg :: seg in cfg ==> OnPages(seg)
  }

  /** m has page p exactly as the segment says. */
  ghost predicate PageFrom(m: ProcessMemory, seg: Segment, dump: seq<byte>, codec: Codec, p: nat)
    requires OnPages(seg) && OfSegment(seg, p)
  {
    var c, i := Content(seg, dump, codec), p - PageOf(seg.addr);
    c.Some? && Base(i) + 4096 <= |c.value| && p in m && m[p] == PageAt(c.value, i)
  }

  /** m holds the pages of the segments and no other; which segment comes first plays no part. */
  ghost predicate MadeOfSegments(m: ProcessMemory, cfg: seq<Segment>, dump: seq<byte>, codec: Codec)
    requires AllOnPages(cfg)
  {
    && (forall p :: p in m ==> exists seg :: seg in cfg && OfSegment(seg, p))
    && (forall seg, p: nat {:trigger PageFrom(m, seg, dump, codec, p)} ::
          seg in cfg && OfSegment(seg, p) ==> PageFrom(m, seg, dump, codec, p))
  }

  /** What segments that are apart load to, segment by segment. */
  lemma {:induction false} LoadMakes(cfg: seq<Segment>, dump: seq<byte>, codec: Codec)
    requires AllOnPages(cfg) && PagesApart(cfg)
    ensures Load(cfg, dump, codec, map[]).Some? <==> forall seg :: seg in cfg ==> Content(seg, dump, codec).Some?
    ensures Load(cfg, dump, codec, map[]).Some? ==>
      MadeOfSegments(Load(cfg, dump, codec, map[]).value, cfg, dump, codec)
  {
    if cfg != [] {
      var init, last := cfg[..|cfg| - 1], cfg[|cfg| - 1];
      assert cfg == init + [last];
      LoadMakes(init, dump, codec);
      if Load(cfg, dump, codec, map[]).Some? {
        LastMakes(init, last, Load(init, dump, codec, map[]).value, Load(cfg, dump, codec, map[]).value, dump, codec);
      }
    }
  }

  lemma LastMakes(init: seq<Segment>, last: Segment, m: ProcessMemory, m': ProcessMemory, dump: seq<byte>, codec: Codec)
    requires AllOnPages(init + [last]) && PagesApart(init + [last]) && MadeOfSegments(m, init, dump, codec)
    requires Content(last, dump, codec).Some?
    requires m' == MapAt(m, PageOf(last.addr), PageOf(last.size), Content(last, dump, codec).value)
    ensures MadeOfSegments(m', init + [last], dump, codec)
  {
    var pn, n, c := PageOf(last.addr), PageOf(last.size), Content(last, dump, codec).value;
    forall p | p in m' ensures exists seg :: seg in init + [last] && OfSegment(seg, p) {
      MapAtPage(m, pn, n, c, p);
      if OfSegment(last, p) {
        assert last in init + [last];
      } else {
        var seg :| seg in init && OfSegment(seg, p);
        assert seg in init + [last];
      }
    }
    forall seg, p: nat | seg in init + [last] && OfSegment(seg, p) ensures PageFrom(m', seg, dump, codec, p) {
      MapAtPage(m, pn, n, c, p);
      if !OfSegment(last, p) {
        assert PageFrom(m, seg, dump, codec, p);
      } else {
        LastOwns(init, last, seg, p);
      }
    }
  }

  lemma LastOwns(init: seq<Segment>, last: Segment, seg: Segment, p: nat)
    requires PagesApart(init + [last]) && seg in init + [last] && OfSegment(seg, p) && OfSegment(last, p)
    ensures seg == last
  {
    var cfg := init + [last];
    var j :| 0 <= j < |cfg| && cfg[j] == seg;
    assert OfSegment(cfg[|init|], p);
  }

  lemma SameMade(m: ProcessMemory, m': ProcessMemory, cfg: seq<Segment>, cfg': seq<Segment>, dump: seq<byte>,
                 codec: Codec)
    requires AllOnPages(cfg) && AllOnPages(cfg') && forall seg :: seg in cfg <==> seg in cfg'
    requires MadeOfSegments(m, cfg, dump, codec) && MadeOfSegments(m', cfg', dump, codec)
    ensures m == m'
  {
    forall p | p in m ensures p in m' && m'[p] == m[p] {
      var seg :| seg in cfg && OfSegment(seg, p);
      assert PageFrom(m, seg, dump, codec, p) && PageFrom(m', seg, dump, codec, p);
    }
    forall p | p in m' ensures p in m {
      var seg :| seg in cfg' && OfSegment(seg, p);
      assert PageFrom(m, seg, dump, codec, p);
    }
  }

  // ----- sorting -----

  ghost predicate Permutes(cfg': seq<Segment>, cfg: seq<Segment>) {
    multiset(cfg') == multiset(cfg)
  }

  lemma SameSegments(cfg': seq<Segment>, cfg: seq<Segment>)
    requires Permutes(cfg', cfg)
    ensures forall seg :: seg in cfg' <==> seg in cfg
  {
    forall seg ensures seg in cfg' <==> seg in cfg {
      assert seg in multiset(cfg') <==> seg in multiset(cfg);
    }
  }

  lemma {:induction false} TwiceListed(cfg: seq<Segment>, seg: Segment) returns (j: nat, k: nat)
    requires multiset(cfg)[seg] >= 2
    ensures j < k < |cfg| && cfg[j] == seg == cfg[k]
  {
    var init, last := cfg[..|cfg| - 1], cfg[|cfg| - 1];
    assert cfg == init + [last];
    if last == seg {
      k := |cfg| - 1;
      assert seg in multiset(init);
      j :| 0 <= j < |init| && init[j] == seg;
    } else {
      j, k := TwiceListed(init, seg);
    }
  }

  lemma ListedTwice(cfg: seq<Segment>, j: nat, k: nat)
    requires j < k < |cfg| && cfg[j] == cfg[k]
    ensures multiset(cfg)[cfg[j]] >= 2
  {
    var a, b := cfg[..k], cfg[k..];
    assert cfg == a + b && cfg[j] == a[j] && cfg[j] == b[0];
    assert multiset(cfg) == multiset(a) + multiset(b);
  }

  lemma PermutedApart(cfg': seq<Segment>, cfg: seq<Segment>)
    requires Permutes(cfg', cfg) && PagesApart(cfg)
    ensures PagesApart(cfg')
  {
    forall j, k, p: nat | 0 <= j < k < |cfg'| && OfSegment(cfg'[j], p) ensures !OfSegment(cfg'[k], p) {
      var x, y := BothListed(cfg', cfg, j, k);
      assert OfSegment(cfg[x], p);
    }
  }

  lemma BothListed(cfg': seq<Segment>, cfg: seq<Segment>, j: nat, k: nat) returns (x: nat, y: nat)
    requires Permutes(cfg', cfg) && j < k < |cfg'|
    ensures x < |cfg| && y < |cfg| && x != y && cfg[x] == cfg'[j] && cfg[y] == cfg'[k]
  {
    SameSegments(cfg', cfg);
    if cfg'[j] == cfg'[k] {
      ListedTwice(cfg', j, k);
      x, y := TwiceListed(cfg, cfg'[j]);
    } else {
      assert cfg'[j] in cfg && cfg'[k] in cfg;
      x :| 0 <= x < |cfg| && cfg[x] == cfg'[j];
      y :| 0 <= y < |cfg| && cfg[y] == cfg'[k];
    }
  }

  /** Segments that are apart may be mapped in any order. */
  lemma AnyOrder(cfg': seq<Segment>, cfg: seq<Segment>, dump: seq<byte>, codec: Codec)
    requires Permutes(cfg', cfg) && PagesApart(cfg) && AllOnPages(cfg)
    ensures AllOnPages(cfg') && Load(cfg', dump, codec, map[]) == Load(cfg, dump, codec, map[])
  {
    SameSegments(cfg', cfg);
    PermutedApart(cfg', cfg);
    LoadMakes(cfg, dump, codec);
    LoadMakes(cfg', dump, codec);
    if Load(cfg, dump, codec, map[]).Some? {
      SameMade(Load(cfg', dump, codec, map[]).value, Load(cfg, dump, codec, map[]).value, cfg', cfg, dump, codec);
    }
  }

  // ----- main -----

  ghost predicate SortedByOffset(cfg: seq<Segment>) {
    forall j, k :: 0 <= j < k < |cfg| ==> cfg[j].offset <= cfg[k].offset
  }

  /** The two calls of the library's quicksort; what it does with equal keys is left open. */
  datatype Sorters = Sorters(byAddr: seq<Segment> -> seq<Segment>, byOffset: seq<Segment> -> seq<Segment>)
  {
    ghost predicate Correct() {
      && (forall cfg :: Permutes(byAddr(cfg), cfg) && SortedByAddr(byAddr(cfg)))
      && (forall cfg :: Permutes(byOffset(cfg), cfg) && SortedByOffset(byOffset(cfg)))
    }
  }

  /** No page of the memory overlaps the loader. */
  ghost predicate ClearOf(mem: ProcessMemory, base: nat, total: nat) {
    forall p :: p in mem ==> Base(p) + 4096 <= base || base + total <= Base(p)
  }

  /** The segments are not empty, and theirs are exactly the pages of the memory. */
  ghost predicate Cover(cfg: seq<Segment>, mem: ProcessMemory) {
    && (forall seg :: seg in cfg ==> seg.size > 0)
    && (forall p: nat :: p in mem <==> exists seg :: seg in cfg && OfSegment(seg, p))
  }

  lemma MadeIsCovered(m: ProcessMemory, cfg: seq<Segment>, dump: seq<byte>, codec: Codec)
    requires AllOnPages(cfg) && MadeOfSegments(m, cfg, dump, codec) && forall seg :: seg in cfg ==> seg.size > 0
    ensures Cover(cfg, m)
  {
    forall seg, p: nat | seg in cfg && OfSegment(seg, p) ensures p in m {
      assert PageFrom(m, seg, dump, codec, p);
    }
  }

  /** The loader clashes with a segment exactly where it is in the way of a page. */
  lemma ClashIsNotClear(cfg: seq<Segment>, mem: ProcessMemory, base: nat, total: nat)
    requires AllOnPages(cfg) && Cover(cfg, mem) && total > 0
    ensures Clashes(base, total, cfg) <==> !ClearOf(mem, base, total)
  {
    if Clashes(base, total, cfg) {
      var k :| 0 <= k < |cfg| && Overlaps(base, total, cfg[k]);
      var p := PageInTheWay(cfg[k], base, total);
      assert cfg[k] in cfg && p in mem;
    }
    if !ClearOf(mem, base, total) {
      var p :| p in mem && Base(p) + 4096 > base && base + total > Base(p);
      var seg :| seg in cfg && OfSegment(seg, p);
      var k :| 0 <= k < |cfg| && cfg[k] == seg;
      assert OnPages(seg) && Overlaps(base, total, cfg[k]);
    }
  }

  lemma PageInTheWay(seg: Segment, base: nat, total: nat) returns (p: nat)
    requires OnPages(seg) && seg.size > 0 && Overlaps(base, total, seg) && total > 0
    ensures OfSegment(seg, p) && Base(p) + 4096 > base && base + total > Base(p)
  {
    p := PageOf(if base < seg.addr then seg.addr else base);
  }

  lemma ClashesInAnyOrder(base: nat, total: nat, cfg': seq<Segment>, cfg: seq<Segment>)
    requires Permutes(cfg', cfg)
    ensures Clashes(base, total, cfg') <==> Clashes(base, total, cfg)
  {
    SameSegments(cfg', cfg);
    if Clashes(base, total, cfg') {
      var k :| 0 <= k < |cfg'| && Overlaps(base, total, cfg'[k]);
      assert cfg'[k] in cfg;
    }
    if Clashes(base, total, cfg) {
      var k :| 0 <= k < |cfg| && Overlaps(base, total, cfg[k]);
      assert cfg[k] in cfg';
    }
  }

  lemma LoaderIsClear(m: ProcessMemory, cfg: seq<Segment>, dump: seq<byte>, codec: Codec, base: nat, total: nat)
    requires AllOnPages(cfg) && MadeOfSegments(m, cfg, dump, codec) && !Clashes(base, total, cfg)
    ensures ClearOf(m, base, total)
  {
    forall p | p in m ensures Base(p) + 4096 <= base || base + total <= Base(p) {
      var seg :| seg in cfg && OfSegment(seg, p);
      var k :| 0 <= k < |cfg| && cfg[k] == seg;
      assert !Overlaps(base, total, cfg[k]);
    }
  }

  /**
   * The loader's main: it finds the first place that no segment overlaps, unless there is none, and maps
   * the image as if in the order of the cfg; ok is false where it gives up or mapping panics.
   */
  method Launch(file: ImageFile, sorters: Sorters, total: nat, codec: Codec)
    returns (base: int, ok: bool, mem: ProcessMemory)
    requires AllOnPages(file.cfg) && PagesApart(file.cfg) && sorters.Correct()
    ensures base >= 0 ==> CL_BASE <= base && base + total <= CL_TOP && !Clashes(base, total, file.cfg)
    ensures forall b: nat :: CL_BASE <= b < base ==> Clashes(b, total, file.cfg)
    ensures base == -1 <==> forall b: nat :: CL_BASE <= b && b + total <= CL_TOP ==> Clashes(b, total, file.cfg)
    ensures base >= -1
    ensures ok <==> base >= 0 && Load(file.cfg, file.dump, codec, map[]).Some?
    ensures ok ==> mem == Load(file.cfg, file.dump, codec, map[]).value && ClearOf(mem, base, total)
  {
    mem := map[];
    var byAddr := sorters.byAddr(file.cfg);
    base := PlaceLoader(byAddr, total);
    forall b: nat ensures Clashes(b, total, byAddr) <==> Clashes(b, total, file.cfg) {
      ClashesInAnyOrder(b, total, byAddr, file.cfg);
    }
    if base < 0 {
      return base, false, mem;
    }
    var byOffset := sorters.byOffset(byAddr);
    AnyOrder(byOffset, file.cfg, file.dump, codec);
    var process := new Process();
    ok := process.MapPages(byOffset, file.dump, codec);
    mem := process.mem;
    if ok {
      LoadMakes(file.cfg, file.dump, codec);
      LoaderIsClear(mem, file.cfg, file.dump, codec, base, total);
    }
  }
}
