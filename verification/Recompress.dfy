// compress.py: the offline recompression of an image file.
module Recompression {
  import opened Bytes
  import opened Images
  import opened ImageFiles
  import opened Loaders
  import opened Sorting

  // ----- reading -----

  /** What compress.py asserts of its input: only uncompressed segments, none past the end of the dump. */
  ghost predicate Readable(file: ImageFile) {
    forall seg :: seg in file.cfg ==> Whole(seg, file.dump)
  }

  ghost predicate Whole(seg: Segment, dump: seq<byte>) {
    seg.size == seg.length && seg.offset + seg.length <= |dump|
  }

  ghost predicate OfPages(mem: ProcessMemory) {
    forall p :: p in mem ==> |mem[p]| == 4096
  }

  /**
   * The pages that uncompressed segments hold, wherever they lie in the dump; a later segment overrides an
   * earlier one.
   */
  ghost function RawPages(cfg: seq<Segment>, dump: seq<byte>): ProcessMemory
    requires forall seg :: seg in cfg ==> OnPages(seg) && Whole(seg, dump)
  {
    if cfg == [] then map[]
    else
      var last := cfg[|cfg| - 1];
      assert OnPages(last) && Whole(last, dump);
      MapAt(RawPages(cfg[..|cfg| - 1], dump), PageOf(last.addr), PageOf(last.size),
            dump[last.offset..last.offset + last.length])
  }

  /** Where the offsets are aligned, they are what the loader maps. */
  lemma {:induction false} RawPagesLoad(cfg: seq<Segment>, dump: seq<byte>, codec: Codec)
    requires forall seg :: seg in cfg ==> OnPages(seg) && Whole(seg, dump) && Aligned(seg.offset)
    ensures Load(cfg, dump, codec, map[]) == Some(RawPages(cfg, dump))
  {
    if cfg != [] {
      RawPagesLoad(cfg[..|cfg| - 1], dump, codec);
    }
  }

  lemma {:induction false} RawPagesWhole(cfg: seq<Segment>, dump: seq<byte>)
    requires forall seg :: seg in cfg ==> OnPages(seg) && Whole(seg, dump)
    ensures OfPages(RawPages(cfg, dump))
  {
    if cfg != [] {
      var last := cfg[|cfg| - 1];
      assert Whole(last, dump);
      RawPagesWhole(cfg[..|cfg| - 1], dump);
      MapAtOfPages(RawPages(cfg[..|cfg| - 1], dump), PageOf(last.addr), PageOf(last.size),
                   dump[last.offset..last.offset + last.length]);
    }
  }

  lemma {:induction false} MapAtOfPages(mem: ProcessMemory, pn: nat, n: nat, content: seq<byte>)
    requires OfPages(mem) && Base(n) <= |content|
    ensures OfPages(MapAt(mem, pn, n, content))
  {
    if n > 0 {
      MapAtOfPages(mem, pn, n - 1, content);
    }
  }

  /** The pages of an uncompressed image file. */
  method ReadPages(file: ImageFile) returns (r: Result<ProcessMemory, string>)
    requires forall seg :: seg in file.cfg ==> OnPages(seg)
    ensures r.Ok? <==> Readable(file)
    ensures r.Ok? ==> r.value == RawPages(file.cfg, file.dump) && OfPages(r.value)
  {
    var process := new Process();
    for i := 0 to |file.cfg|
      invariant forall seg :: seg in file.cfg[..i] ==> Whole(seg, file.dump)
      invariant process.mem == RawPages(file.cfg[..i], file.dump)
    {
      var seg := file.cfg[i];
      assert file.cfg[..i + 1] == file.cfg[..i] + [seg];
      assert seg in file.cfg;
      if seg.size != seg.length {
        assert !Whole(seg, file.dump);
        return Err("Expected uncompressed data");
      }
      if seg.offset + seg.length > |file.dump| {
        assert !Whole(seg, file.dump);
        return Err("Unexpected EOF");
      }
      var pn := ShiftToPage(seg.addr);
      var n := ShiftToPage(seg.size);
      process.MapBytes(pn, n, file.dump[seg.offset..seg.offset + seg.length]);
    }
    assert file.cfg[..|file.cfg|] == file.cfg;
    RawPagesWhole(file.cfg, file.dump);
    return Ok(process.mem);
  }

  // ----- classifying -----

  /** The pages of the run are pages of mem. */
  ghost predicate RunIn(run: Run, mem: ProcessMemory) {
    run.Valid() && forall p {:trigger p in mem} {:trigger mem[p]} :: run.pn <= p < End(run) ==>
      p in mem && mem[p] == run.pages[p - run.pn]
  }

  function End(run: Run): nat {
    run.pn + |run.pages|
  }

  /** Page p is in one of the runs. */
  ghost predicate InRuns(runs: seq<Run>, p: int) {
    exists k :: 0 <= k < |runs| && runs[k].pn <= p < End(runs[k])
  }

  /** The runs hold pages of mem, ascending and apart, all of them below page end. */
  ghost predicate RunsOf(runs: seq<Run>, mem: ProcessMemory, end: nat) {
    && (forall k :: 0 <= k < |runs| ==> RunIn(runs[k], mem) && End(runs[k]) <= end)
    && (forall j, k :: 0 <= j < k < |runs| ==> End(runs[j]) <= runs[k].pn)
  }

  /** Whether compress.py takes a page for compressible. */
  predicate Compressible(codec: Codec, page: seq<byte>, maxRatio: real) {
    |codec.compress(page)| as real <= |page| as real * maxRatio
  }

  /** Why a compressed run is short: one page within the ratio, or several within the length. */
  ghost predicate Short(run: Run, codec: Codec, maxRatio: real, maxLength: int) {
    var n := |codec.compress(Join(run.pages))|;
    n <= maxLength || (|run.pages| == 1 && n as real <= 4096.0 * maxRatio)
  }

  /** The page at pn either extends the last run or opens a new one. */
  method AddPage(runs: seq<Run>, pn: nat, page: seq<byte>, extend: bool, ghost end: nat, ghost mem: ProcessMemory)
    returns (runs': seq<Run>)
    requires RunsOf(runs, mem, end) && end <= pn && |page| == 4096 && pn in mem && mem[pn] == page
    requires extend ==> !Gap(runs, pn)
    ensures RunsOf(runs', mem, pn + 1)
    ensures forall p :: InRuns(runs', p) <==> InRuns(runs, p) || p == pn
    ensures if extend then runs != [] && runs' == Grown(runs, page) else runs' == runs + [Run(pn, [page])]
  {
    if extend {
      runs' := Grown(runs, page);
      GrownRuns(runs, pn, page, end, mem);
    } else {
      runs' := runs + [Run(pn, [page])];
      OpenedRuns(runs, pn, page, end, mem);
    }
  }

  lemma GrownRuns(runs: seq<Run>, pn: nat, page: seq<byte>, end: nat, mem: ProcessMemory)
    requires RunsOf(runs, mem, end) && end <= pn && |page| == 4096 && pn in mem && mem[pn] == page && !Gap(runs, pn)
    ensures RunsOf(Grown(runs, page), mem, pn + 1)
    ensures forall p :: InRuns(Grown(runs, page), p) <==> InRuns(runs, p) || p == pn
  {
    var n, runs' := |runs| - 1, Grown(runs, page);
    var last := runs[n];
    assert RunIn(last, mem) && End(last) == pn && runs'[n] == Run(last.pn, last.pages + [page]);
    forall k | 0 <= k < |runs'| ensures RunIn(runs'[k], mem) && End(runs'[k]) <= pn + 1 {
      if k < n {
        assert runs'[k] == runs[k] && RunIn(runs[k], mem);
      } else {
        RunInGrows(last, page, mem);
      }
    }
    assert runs'[..n] == runs[..n];
    forall p ensures InRuns(runs', p) <==> InRuns(runs, p) || p == pn {
      InRunsLast(runs, p);
      InRunsLast(runs', p);
    }
  }

  lemma RunInGrows(run: Run, page: seq<byte>, mem: ProcessMemory)
    requires RunIn(run, mem) && |page| == 4096 && End(run) in mem && mem[End(run)] == page
    ensures RunIn(Run(run.pn, run.pages + [page]), mem)
  {
  }

  lemma OpenedRuns(runs: seq<Run>, pn: nat, page: seq<byte>, end: nat, mem: ProcessMemory)
    requires RunsOf(runs, mem, end) && end <= pn && |page| == 4096 && pn in mem && mem[pn] == page
    ensures RunsOf(runs + [Run(pn, [page])], mem, pn + 1)
    ensures forall p :: InRuns(runs + [Run(pn, [page])], p) <==> InRuns(runs, p) || p == pn
  {
    var n, runs' := |runs|, runs + [Run(pn, [page])];
    assert runs'[..n] == runs;
    forall p ensures InRuns(runs', p) <==> InRuns(runs, p) || p == pn {
      InRunsLast(runs', p);
    }
  }

  /** The runs hold exactly the pages of mem below end that are, or are not, compressible. */
  ghost predicate Sorts(runs: seq<Run>, mem: ProcessMemory, end: nat, codec: Codec, maxRatio: real,
                        compressible: bool) {
    && RunsOf(runs, mem, end)
    && forall p: nat :: InRuns(runs, p) <==>
      p < end && p in mem && Compressible(codec, mem[p], maxRatio) == compressible
  }

  /** However a run of several pages is cut short, it is within the length. */
  ghost predicate GrownShort(run: Run, codec: Codec, maxLength: int) {
    forall n {:trigger run.pages[..n]} :: 2 <= n <= |run.pages| ==> |codec.compress(Join(run.pages[..n]))| <= maxLength
  }

  /** With the first page of the next run, if that is the next page, the run would be too long. */
  ghost predicate Full(run: Run, next: Run, codec: Codec, maxLength: int) {
    next.pages != [] && End(run) == next.pn ==> |codec.compress(Join(run.pages) + next.pages[0])| > maxLength
  }

  /** Each run is as long as it may be, and no longer. */
  ghost predicate Greedy(runs: seq<Run>, codec: Codec, maxRatio: real, maxLength: int) {
    && (forall k :: 0 <= k < |runs| ==>
          Short(runs[k], codec, maxRatio, maxLength) && GrownShort(runs[k], codec, maxLength))
    && forall k :: 0 < k < |runs| ==> Full(runs[k - 1], runs[k], codec, maxLength)
  }

  /** No run ends where the next one starts. */
  ghost predicate NeverMeet(runs: seq<Run>) {
    forall k :: 0 < k < |runs| ==> End(runs[k - 1]) < runs[k].pn
  }

  /** A page is in the runs to compress exactly if what it compresses to is within the ratio. */
  ghost predicate ByRatio(mem: ProcessMemory, uncomp: seq<Run>, comp: seq<Run>, codec: Codec, maxRatio: real) {
    forall p :: p in mem ==>
      && (InRuns(comp, p) <==> |codec.compress(mem[p])| as real <= 4096.0 * maxRatio)
      && (InRuns(uncomp, p) <==> |codec.compress(mem[p])| as real > 4096.0 * maxRatio)
  }

  /** Together they hold exactly the pages of mem, each page where the ratio puts it. */
  ghost predicate Parted(mem: ProcessMemory, uncomp: seq<Run>, comp: seq<Run>, end: nat, codec: Codec, maxRatio: real) {
    && (forall p :: p in mem ==> p < end)
    && Sorts(comp, mem, end, codec, maxRatio, true) && Sorts(uncomp, mem, end, codec, maxRatio, false)
    && NeverMeet(uncomp) && ByRatio(mem, uncomp, comp, codec, maxRatio)
  }

  /** The pages below end have been classified. */
  ghost predicate Classified(mem: ProcessMemory, uncomp: seq<Run>, comp: seq<Run>, end: nat, codec: Codec,
                             maxRatio: real, maxLength: int) {
    && Sorts(comp, mem, end, codec, maxRatio, true) && Sorts(uncomp, mem, end, codec, maxRatio, false)
    && Greedy(comp, codec, maxRatio, maxLength) && NeverMeet(uncomp)
  }

  lemma AllClassified(mem: ProcessMemory, order: seq<nat>, uncomp: seq<Run>, comp: seq<Run>, end: nat, codec: Codec,
                      maxRatio: real, maxLength: int)
    requires OfPages(mem) && Classified(mem, uncomp, comp, end, codec, maxRatio, maxLength)
    requires SortedListOf(order, mem.Keys) && end == if order == [] then 0 else order[|order| - 1] + 1
    ensures Parted(mem, uncomp, comp, end, codec, maxRatio) && Greedy(comp, codec, maxRatio, maxLength)
  {
    AllBelow(mem, order, end);
    SortedByRatio(mem, uncomp, comp, end, codec, maxRatio);
  }

  lemma SortedByRatio(mem: ProcessMemory, uncomp: seq<Run>, comp: seq<Run>, end: nat, codec: Codec, maxRatio: real)
    requires OfPages(mem) && forall p :: p in mem ==> p < end
    requires Sorts(comp, mem, end, codec, maxRatio, true) && Sorts(uncomp, mem, end, codec, maxRatio, false)
    ensures ByRatio(mem, uncomp, comp, codec, maxRatio)
  {
    forall p | p in mem
      ensures InRuns(comp, p) <==> |codec.compress(mem[p])| as real <= 4096.0 * maxRatio
      ensures InRuns(uncomp, p) <==> |codec.compress(mem[p])| as real > 4096.0 * maxRatio
    {
      assert InRuns(comp, p) <==> Compressible(codec, mem[p], maxRatio);
      assert InRuns(uncomp, p) <==> !Compressible(codec, mem[p], maxRatio);
    }
  }

  /** Splits the pages into runs to compress and runs to leave alone: exactly by the ratio each page compresses at. */
  method Classify(codec: Codec, pageMap: ProcessMemory, maxRatio: real, maxLength: int)
    returns (comp: seq<Run>, uncomp: seq<Run>, ghost end: nat)
    requires OfPages(pageMap)
    ensures Parted(pageMap, uncomp, comp, end, codec, maxRatio) && Greedy(comp, codec, maxRatio, maxLength)
  {
    comp, uncomp, end := [], [], 0;
    var order := SortKeys(pageMap.Keys);
    for i := 0 to |order|
      invariant end == if i == 0 then 0 else order[i - 1] + 1
      invariant Classified(pageMap, uncomp, comp, end, codec, maxRatio, maxLength)
    {
      comp, uncomp := ClassifyNext(codec, comp, uncomp, order, i, pageMap, maxRatio, maxLength, end);
      end := order[i] + 1;
    }
    AllClassified(pageMap, order, uncomp, comp, end, codec, maxRatio, maxLength);
  }

  lemma AllBelow(mem: ProcessMemory, order: seq<nat>, end: nat)
    requires SortedListOf(order, mem.Keys) && end == if order == [] then 0 else order[|order| - 1] + 1
    ensures forall p :: p in mem ==> p < end
  {
    forall p | p in mem ensures p < end {
      assert p in order;
      var k :| 0 <= k < |order| && order[k] == p;
      assert k < |order| - 1 ==> order[k] < order[|order| - 1];
    }
  }

  method ClassifyNext(codec: Codec, comp: seq<Run>, uncomp: seq<Run>, order: seq<nat>, i: nat, pageMap: ProcessMemory,
                      maxRatio: real, maxLength: int, ghost end: nat) returns (comp': seq<Run>, uncomp': seq<Run>)
    requires OfPages(pageMap) && SortedListOf(order, pageMap.Keys) && i < |order|
      && end == if i == 0 then 0 else order[i - 1] + 1
    requires Classified(pageMap, uncomp, comp, end, codec, maxRatio, maxLength)
    ensures Classified(pageMap, uncomp', comp', order[i] + 1, codec, maxRatio, maxLength)
  {
    NextPage(pageMap, order, i, end);
    comp', uncomp' := ClassifyPage(codec, comp, uncomp, order[i], pageMap, maxRatio, maxLength, end);
  }

  lemma NextPage(mem: ProcessMemory, order: seq<nat>, i: nat, end: nat)
    requires SortedListOf(order, mem.Keys) && i < |order| && end == if i == 0 then 0 else order[i - 1] + 1
    ensures end <= order[i] && order[i] in mem
    ensures forall p: nat :: end <= p < order[i] ==> p !in mem
  {
    forall p: nat | p in mem ensures !(end <= p < order[i]) {
      assert p in order;
      var k :| 0 <= k < |order| && order[k] == p;
      assert k < i - 1 ==> order[k] < order[i - 1];
      assert i < k ==> order[i] < order[k];
    }
    assert order[i] in order;
  }

  /** The loop body of the classification. */
  method ClassifyPage(codec: Codec, comp: seq<Run>, uncomp: seq<Run>, pn: nat, pageMap: ProcessMemory, maxRatio: real,
                      maxLength: int, ghost end: nat) returns (comp': seq<Run>, uncomp': seq<Run>)
    requires OfPages(pageMap) && pn in pageMap && end <= pn && forall p: nat :: end <= p < pn ==> p !in pageMap
    requires Classified(pageMap, uncomp, comp, end, codec, maxRatio, maxLength)
    ensures Classified(pageMap, uncomp', comp', pn + 1, codec, maxRatio, maxLength)
  {
    var data := pageMap[pn];
    comp', uncomp' := comp, uncomp;
    if Compressible(codec, data, maxRatio) {
      comp' := AddCompressible(codec, comp, pn, data, maxRatio, maxLength, end, pageMap);
    } else {
      uncomp' := AddPage(uncomp, pn, data, !Gap(uncomp, pn), end, pageMap);
      MeetsNone(uncomp, pn, data);
    }
  }

  /** A page that compresses well joins the last compressed run if the whole stays short. */
  method AddCompressible(codec: Codec, comp: seq<Run>, pn: nat, data: seq<byte>, ghost maxRatio: real, maxLength: int,
                         ghost end: nat, ghost mem: ProcessMemory) returns (comp': seq<Run>)
    requires RunsOf(comp, mem, end) && end <= pn && |data| == 4096 && pn in mem && mem[pn] == data
    requires Greedy(comp, codec, maxRatio, maxLength) && Compressible(codec, data, maxRatio)
    ensures RunsOf(comp', mem, pn + 1)
    ensures forall p :: InRuns(comp', p) <==> InRuns(comp, p) || p == pn
    ensures Greedy(comp', codec, maxRatio, maxLength)
  {
    var extend := !Gap(comp, pn) && |codec.compress(Join(comp[|comp| - 1].pages) + data)| <= maxLength;
    comp' := AddPage(comp, pn, data, extend, end, mem);
    if extend {
      GreedyGrown(comp, data, codec, maxRatio, maxLength);
    } else {
      GreedyOpened(comp, pn, data, codec, maxRatio, maxLength);
    }
  }

  lemma MeetsNone(runs: seq<Run>, pn: nat, page: seq<byte>)
    requires NeverMeet(runs)
    ensures Gap(runs, pn) ==> NeverMeet(runs + [Run(pn, [page])])
    ensures !Gap(runs, pn) ==> NeverMeet(Grown(runs, page))
  {
    var n := |runs| - 1;
    if !Gap(runs, pn) {
      assert Grown(runs, page)[n] == Run(runs[n].pn, runs[n].pages + [page]);
    }
  }

  lemma GreedyGrown(runs: seq<Run>, page: seq<byte>, codec: Codec, maxRatio: real, maxLength: int)
    requires Greedy(runs, codec, maxRatio, maxLength) && runs != [] && runs[|runs| - 1].pages != []
    requires |codec.compress(Join(runs[|runs| - 1].pages) + page)| <= maxLength
    ensures Greedy(Grown(runs, page), codec, maxRatio, maxLength)
  {
    var n, runs' := |runs| - 1, Grown(runs, page);
    assert runs'[n] == Run(runs[n].pn, runs[n].pages + [page]);
    JoinAppend(runs[n].pages, page);
    GrownShorter(runs[n], page, codec, maxLength);
    assert n > 0 ==> Full(runs[n - 1], runs[n], codec, maxLength);
    forall k | 0 < k < |runs'| ensures Full(runs'[k - 1], runs'[k], codec, maxLength) {
      assert k < n ==> Full(runs[k - 1], runs[k], codec, maxLength);
    }
  }

  lemma GrownShorter(run: Run, page: seq<byte>, codec: Codec, maxLength: int)
    requires GrownShort(run, codec, maxLength) && |codec.compress(Join(run.pages + [page]))| <= maxLength
    ensures GrownShort(Run(run.pn, run.pages + [page]), codec, maxLength)
  {
    var pages := run.pages + [page];
    assert pages[..|pages|] == pages;
    forall n | 2 <= n < |pages| ensures |codec.compress(Join(pages[..n]))| <= maxLength {
      assert pages[..n] == run.pages[..n];
    }
  }

  lemma GreedyOpened(runs: seq<Run>, pn: nat, page: seq<byte>, codec: Codec, maxRatio: real, maxLength: int)
    requires Greedy(runs, codec, maxRatio, maxLength)
    requires |codec.compress(page)| as real <= 4096.0 * maxRatio
    requires runs != [] && End(runs[|runs| - 1]) == pn ==>
      |codec.compress(Join(runs[|runs| - 1].pages) + page)| > maxLength
    ensures Greedy(runs + [Run(pn, [page])], codec, maxRatio, maxLength)
  {
    JoinOne(page);
    var n, runs' := |runs|, runs + [Run(pn, [page])];
    forall k | 0 < k < |runs'| ensures Full(runs'[k - 1], runs'[k], codec, maxLength) {
      assert k < n ==> Full(runs[k - 1], runs[k], codec, maxLength);
    }
  }

  /** Runs that are apart hold what they say. */
  lemma {:induction false} AddRunsAt(runs: seq<Run>, mem: ProcessMemory, end: nat, p: nat)
    requires RunsOf(runs, mem, end)
    ensures p in AddRuns(map[], runs) <==> InRuns(runs, p)
    ensures p in AddRuns(map[], runs) ==> p in mem && AddRuns(map[], runs)[p] == mem[p]
  {
    if runs != [] {
      var n := |runs| - 1;
      AddRunsAt(runs[..n], mem, end, p);
      AddPagesAt(AddRuns(map[], runs[..n]), runs[n].pn, runs[n].pages, p);
      InRunsLast(runs, p);
      RunAt(runs[n], mem, p);
    }
  }

  lemma InRunsLast(runs: seq<Run>, p: int)
    requires runs != []
    ensures InRuns(runs, p) <==> InRuns(runs[..|runs| - 1], p) || runs[|runs| - 1].pn <= p < End(runs[|runs| - 1])
  {
    var n := |runs| - 1;
    if InRuns(runs[..n], p) {
      var k :| 0 <= k < n && runs[..n][k].pn <= p < End(runs[..n][k]);
      assert runs[k].pn <= p < End(runs[k]);
    }
    if InRuns(runs, p) {
      var k :| 0 <= k <= n && runs[k].pn <= p < End(runs[k]);
      assert k < n ==> runs[..n][k].pn <= p < End(runs[..n][k]);
    }
  }

  lemma RunAt(run: Run, mem: ProcessMemory, p: int)
    requires RunIn(run, mem)
    ensures run.pn <= p < End(run) ==> p in mem && mem[p] == run.pages[p - run.pn]
  {
  }

  lemma {:induction false} AddPagesAt(mem: ProcessMemory, pn: nat, pages: seq<seq<byte>>, p: nat)
    ensures p in AddPages(mem, pn, pages) <==> pn <= p < pn + |pages| || p in mem
    ensures pn <= p < pn + |pages| ==> AddPages(mem, pn, pages)[p] == pages[p - pn]
    ensures !(pn <= p < pn + |pages|) && p in mem ==> AddPages(mem, pn, pages)[p] == mem[p]
  {
    if pages != [] {
      AddPagesAt(mem, pn, pages[..|pages| - 1], p);
    }
  }

  lemma Covered(codec: Codec, pageMap: ProcessMemory, comp: seq<Run>, uncomp: seq<Run>, maxRatio: real, end: nat)
    requires forall p :: p in pageMap ==> p < end
    requires Sorts(comp, pageMap, end, codec, maxRatio, true) && Sorts(uncomp, pageMap, end, codec, maxRatio, false)
    ensures AddRuns(AddRuns(map[], uncomp), comp) == pageMap
  {
    AddRunsOver(AddRuns(map[], uncomp), comp);
    SortsHold(codec, pageMap, uncomp, maxRatio, end, false);
    SortsHold(codec, pageMap, comp, maxRatio, end, true);
    UnionOf(AddRuns(map[], uncomp), AddRuns(map[], comp), pageMap);
  }

  lemma UnionOf(a: ProcessMemory, b: ProcessMemory, m: ProcessMemory)
    requires (forall p :: p in a ==> p in m && a[p] == m[p]) && (forall p :: p in b ==> p in m && b[p] == m[p])
    requires forall p :: p in m ==> p in a || p in b
    ensures a + b == m
  {
  }

  lemma SortsHold(codec: Codec, pageMap: ProcessMemory, runs: seq<Run>, maxRatio: real, end: nat, compressible: bool)
    requires forall p :: p in pageMap ==> p < end
    requires Sorts(runs, pageMap, end, codec, maxRatio, compressible)
    ensures forall p :: p in AddRuns(map[], runs) <==>
      p in pageMap && Compressible(codec, pageMap[p], maxRatio) == compressible
    ensures forall p :: p in AddRuns(map[], runs) ==> AddRuns(map[], runs)[p] == pageMap[p]
  {
    forall p: nat
      ensures p in AddRuns(map[], runs) <==> p in pageMap && Compressible(codec, pageMap[p], maxRatio) == compressible
      ensures p in AddRuns(map[], runs) ==> AddRuns(map[], runs)[p] == pageMap[p]
    {
      AddRunsAt(runs, pageMap, end, p);
    }
  }

  // ----- writing -----

  /** The first n segments are uncompressed and can be mapped straight from the file. */
  ghost predicate RawFirst(cfg: seq<Segment>, n: nat) {
    && (forall seg :: seg in cfg ==> OnPages(seg))
    && forall k :: 0 <= k < n <= |cfg| ==> cfg[k].size == cfg[k].length && Aligned(cfg[k].offset)
  }

  /** The segment has the run's address and size. */
  ghost predicate PlacedAs(seg: Segment, run: Run) {
    seg.addr == Base(run.pn) && seg.size == Base(|run.pages|)
  }

  /** Its bytes in the dump are the run compressed. */
  ghost predicate PackedAs(seg: Segment, dump: seq<byte>, run: Run, codec: Codec) {
    && PlacedAs(seg, run)
    && seg.offset + seg.length <= |dump|
    && dump[seg.offset..seg.offset + seg.length] == codec.compress(Join(run.pages))
  }

  /** The file holds the uncompressed runs raw, then each of the others compressed. */
  ghost predicate Packed(file: ImageFile, codec: Codec, uncomp: seq<Run>, comp: seq<Run>) {
    && |file.cfg| == |uncomp| + |comp| && RawFirst(file.cfg, |uncomp|)
    && (forall k :: 0 <= k < |uncomp| ==> PlacedAs(file.cfg[k], uncomp[k]))
    && forall k :: 0 <= k < |comp| ==> PackedAs(file.cfg[|uncomp| + k], file.dump, comp[k], codec)
  }

  /**
   * The loader gets a compressed run back from its segment: the segment is told from a raw one by its
   * length and fits the loader's buffer, or it is taken for a raw one and that does no harm.
   */
  ghost predicate LoadsBack(seg: Segment, run: Run, codec: Codec) {
    if seg.length == seg.size then Aligned(seg.offset) && codec.compress(Join(run.pages)) == Join(run.pages)
    else seg.length <= CL_BUF_SIZE
  }

  /** The loader gets every compressed run back. */
  ghost predicate AllBack(cfg: seq<Segment>, uncomp: seq<Run>, comp: seq<Run>, codec: Codec)
    requires |uncomp| + |comp| <= |cfg|
  {
    forall k :: 0 <= k < |comp| ==> LoadsBack(cfg[|uncomp| + k], comp[k], codec)
  }

  /** That is exactly what it takes. */
  lemma PackedContent(seg: Segment, dump: seq<byte>, run: Run, codec: Codec)
    requires run.Valid() && codec.Lossless() && OnPages(seg) && PackedAs(seg, dump, run, codec)
    ensures Content(seg, dump, codec) == Some(Join(run.pages)) <==> LoadsBack(seg, run, codec)
    ensures Content(seg, dump, codec).Some? ==> |Content(seg, dump, codec).value| == |Join(run.pages)|
  {
    JoinedPages(run.pages);
    PageOfBase(|run.pages|);
    assert Base(|run.pages|) >= 4096;
    assert codec.decompress(codec.compress(Join(run.pages)), seg.size) == Some(Join(run.pages));
    assert Join(run.pages) + Zeros(0) == Join(run.pages);
  }

  /** Writes the runs out: first the raw ones, which must stay page-aligned, then the compressed ones. */
  method Emit(codec: Codec, comp: seq<Run>, uncomp: seq<Run>) returns (file: ImageFile)
    requires codec.Lossless()
    requires forall run :: run in comp || run in uncomp ==> run.Valid()
    ensures Packed(file, codec, uncomp, comp)
    ensures AllBack(file.cfg, uncomp, comp, codec) ==> LoadsTo(file, codec, AddRuns(AddRuns(map[], uncomp), comp))
  {
    file := EmitRaw(codec, uncomp);
    file := EmitPacked(codec, comp, uncomp, file);
  }

  method EmitRaw(codec: Codec, uncomp: seq<Run>) returns (file: ImageFile)
    requires forall run :: run in uncomp ==> run.Valid()
    ensures Packed(file, codec, uncomp, [])
    ensures LoadsTo(file, codec, AddRuns(map[], uncomp))
  {
    file := ImageFile([], []);
    for k := 0 to |uncomp|
      invariant file == RawFile(uncomp[..k])
    {
      var run := uncomp[k];
      RawFileAppend(uncomp[..k], run);
      assert uncomp[..k + 1] == uncomp[..k] + [run];
      file := ImageFile(file.cfg + [RawSegment(run, |file.dump|)], file.dump + Join(run.pages));
    }
    assert uncomp[..|uncomp|] == uncomp;
    RawFileLoads(uncomp, codec);
    forall k | 0 <= k < |uncomp| ensures PlacedAs(file.cfg[k], uncomp[k]) {
      RawFileSegment(uncomp, k);
    }
  }

  /** After k compressed runs. */
  ghost predicate PackedSoFar(file: ImageFile, codec: Codec, mem: ProcessMemory, uncomp: seq<Run>, comp: seq<Run>,
                              k: nat) {
    && k <= |comp| && Packed(file, codec, uncomp, comp[..k])
    && (AllBack(file.cfg, uncomp, comp[..k], codec) ==> LoadsTo(file, codec, AddRuns(mem, comp[..k])))
  }

  lemma PackedStep(file: ImageFile, codec: Codec, mem: ProcessMemory, uncomp: seq<Run>, comp: seq<Run>, k: nat)
    requires k < |comp| && comp[k].Valid() && codec.Lossless() && PackedSoFar(file, codec, mem, uncomp, comp, k)
    ensures PackedSoFar(WithRun(file, comp[k], codec), codec, mem, uncomp, comp, k + 1)
  {
    var run, init := comp[k], comp[..k];
    PackedMore(file, codec, uncomp, init, run);
    assert comp[..k + 1] == init + [run];
    BackBefore(file, codec, uncomp, init, run);
    if AllBack(WithRun(file, run, codec).cfg, uncomp, init + [run], codec) {
      LoadsMore(file, codec, AddRuns(mem, init), run);
      AddRunsAppend(mem, init, run);
    }
  }

  lemma BackBefore(file: ImageFile, codec: Codec, uncomp: seq<Run>, comp: seq<Run>, run: Run)
    requires |file.cfg| == |uncomp| + |comp|
    ensures AllBack(WithRun(file, run, codec).cfg, uncomp, comp + [run], codec) ==>
      AllBack(file.cfg, uncomp, comp, codec) && LoadsBack(PackedSegment(run, |file.dump|, codec), run, codec)
  {
    var cfg', n := WithRun(file, run, codec).cfg, |uncomp|;
    if AllBack(cfg', uncomp, comp + [run], codec) {
      forall j | 0 <= j < |comp| ensures LoadsBack(file.cfg[n + j], comp[j], codec) {
        assert LoadsBack(cfg'[n + j], (comp + [run])[j], codec);
      }
      assert LoadsBack(cfg'[n + |comp|], (comp + [run])[|comp|], codec);
    }
  }

  lemma PackedMore(file: ImageFile, codec: Codec, uncomp: seq<Run>, comp: seq<Run>, run: Run)
    requires Packed(file, codec, uncomp, comp) && run.Valid()
    ensures Packed(WithRun(file, run, codec), codec, uncomp, comp + [run])
  {
    var file', n, data := WithRun(file, run, codec), |uncomp|, codec.compress(Join(run.pages));
    NewSegment(file.dump, run, codec);
    forall j | 0 <= j < |comp + [run]| ensures PackedAs(file'.cfg[n + j], file'.dump, (comp + [run])[j], codec) {
      if j < |comp| {
        PackedStays(file.cfg[n + j], file.dump, data, comp[j], codec);
      }
    }
  }

  lemma NewSegment(dump: seq<byte>, run: Run, codec: Codec)
    requires run.Valid()
    ensures OnPages(PackedSegment(run, |dump|, codec))
    ensures PackedAs(PackedSegment(run, |dump|, codec), dump + codec.compress(Join(run.pages)), run, codec)
  {
    PageOfBase(run.pn);
    PageOfBase(|run.pages|);
    AfterDump(dump, codec.compress(Join(run.pages)));
  }

  lemma LoadsMore(file: ImageFile, codec: Codec, mem: ProcessMemory, run: Run)
    requires codec.Lossless() && run.Valid() && LoadsTo(file, codec, mem)
      && LoadsBack(PackedSegment(run, |file.dump|, codec), run, codec)
    ensures LoadsTo(WithRun(file, run, codec), codec, AddPages(mem, run.pn, run.pages))
  {
    var seg, data := PackedSegment(run, |file.dump|, codec), codec.compress(Join(run.pages));
    NewSegment(file.dump, run, codec);
    PackedContent(seg, file.dump + data, run, codec);
    AppendContent(file, codec, mem, run, seg, data);
  }

  lemma PackedStays(seg: Segment, dump: seq<byte>, more: seq<byte>, run: Run, codec: Codec)
    requires PackedAs(seg, dump, run, codec)
    ensures PackedAs(seg, dump + more, run, codec)
  {
    assert (dump + more)[seg.offset..seg.offset + seg.length] == dump[seg.offset..seg.offset + seg.length];
  }

  function WithRun(file: ImageFile, run: Run, codec: Codec): ImageFile {
    ImageFile(file.cfg + [PackedSegment(run, |file.dump|, codec)], file.dump + codec.compress(Join(run.pages)))
  }

  method EmitPacked(codec: Codec, comp: seq<Run>, ghost uncomp: seq<Run>, raw: ImageFile) returns (file: ImageFile)
    requires codec.Lossless()
    requires forall run :: run in comp ==> run.Valid()
    requires Packed(raw, codec, uncomp, [])
    requires LoadsTo(raw, codec, AddRuns(map[], uncomp))
    ensures Packed(file, codec, uncomp, comp)
    ensures AllBack(file.cfg, uncomp, comp, codec) ==> LoadsTo(file, codec, AddRuns(AddRuns(map[], uncomp), comp))
  {
    file := raw;
    ghost var mem := AddRuns(map[], uncomp);
    for k := 0 to |comp|
      invariant PackedSoFar(file, codec, mem, uncomp, comp, k)
    {
      PackedStep(file, codec, mem, uncomp, comp, k);
      file := WithRun(file, comp[k], codec);
    }
    assert comp[..|comp|] == comp;
  }

  // ----- the whole program -----

  /** A compressed run that the loader does not get back spoils the memory: no later segment overrides its pages. */
  lemma SpoiltRun(file: ImageFile, codec: Codec, uncomp: seq<Run>, comp: seq<Run>, mem: ProcessMemory, end: nat, k: nat)
    requires codec.Lossless() && Packed(file, codec, uncomp, comp) && RunsOf(comp, mem, end)
    requires k < |comp| && !LoadsBack(file.cfg[|uncomp| + k], comp[k], codec)
    ensures !LoadsTo(file, codec, mem)
  {
    if LoadsTo(file, codec, mem) {
      LoadedRun(file, codec, uncomp, comp, mem, end, k);
    }
  }

  /** Every compressed run of a file that loads to its pages has been got back. */
  lemma LoadedRun(file: ImageFile, codec: Codec, uncomp: seq<Run>, comp: seq<Run>, mem: ProcessMemory, end: nat, k: nat)
    requires codec.Lossless() && Packed(file, codec, uncomp, comp) && RunsOf(comp, mem, end)
    requires k < |comp| && LoadsTo(file, codec, mem)
    ensures LoadsBack(file.cfg[|uncomp| + k], comp[k], codec)
  {
    var n, run := |uncomp| + k, comp[k];
    PackedAt(file, codec, uncomp, comp, k);
    assert RunIn(run, mem);
    forall j | n < j < |file.cfg|
      ensures PageOf(file.cfg[n].addr) + PageOf(file.cfg[n].size) <= PageOf(file.cfg[j].addr) {
      LaterAbove(file, codec, uncomp, comp, mem, end, k, j - |uncomp|);
    }
    LoadedContent(file, codec, mem, n, run);
    GotBack(file.cfg[n], file.dump, run, codec, mem);
  }

  lemma PackedAt(file: ImageFile, codec: Codec, uncomp: seq<Run>, comp: seq<Run>, k: nat)
    requires Packed(file, codec, uncomp, comp) && k < |comp|
    ensures file.cfg[|uncomp| + k] in file.cfg && PackedAs(file.cfg[|uncomp| + k], file.dump, comp[k], codec)
  {
  }

  /** The pages of a run are the ones that the loader makes of its segment, if no later segment overrides them. */
  lemma LoadedContent(file: ImageFile, codec: Codec, mem: ProcessMemory, n: nat, run: Run)
    requires LoadsTo(file, codec, mem) && n < |file.cfg|
    requires file.cfg[n].addr == Base(run.pn) && file.cfg[n].size == Base(|run.pages|)
    requires forall j :: n < j < |file.cfg| ==>
      PageOf(file.cfg[n].addr) + PageOf(file.cfg[n].size) <= PageOf(file.cfg[j].addr)
    ensures Content(file.cfg[n], file.dump, codec).Some?
    ensures MadeOf(Content(file.cfg[n], file.dump, codec).value, run, mem)
  {
    LoadNeedsAll(file.cfg, file.dump, codec, map[], n);
    PageOfBase(run.pn);
    PageOfBase(|run.pages|);
    forall i: nat | i < |run.pages| ensures PageMade(Content(file.cfg[n], file.dump, codec).value, run, mem, i) {
      LoadedPage(file.cfg, file.dump, codec, n, i);
    }
  }

  ghost predicate PageMade(c: seq<byte>, run: Run, mem: ProcessMemory, i: nat) {
    Base(i) + 4096 <= |c| && run.pn + i in mem && mem[run.pn + i] == PageAt(c, i)
  }

  ghost predicate MadeOf(c: seq<byte>, run: Run, mem: ProcessMemory) {
    forall i: nat :: i < |run.pages| ==> PageMade(c, run, mem, i)
  }

  lemma GotBack(seg: Segment, dump: seq<byte>, run: Run, codec: Codec, mem: ProcessMemory)
    requires RunIn(run, mem) && codec.Lossless() && OnPages(seg) && PackedAs(seg, dump, run, codec)
    requires Content(seg, dump, codec).Some? && MadeOf(Content(seg, dump, codec).value, run, mem)
    ensures LoadsBack(seg, run, codec)
  {
    PackedContent(seg, dump, run, codec);
    var c := Content(seg, dump, codec).value;
    forall i: nat | i < |run.pages| ensures Base(i) + 4096 <= |c| && PageAt(c, i) == run.pages[i] {
      assert PageMade(c, run, mem, i);
      RunAt(run, mem, run.pn + i);
    }
    SamePages(c, run.pages);
  }

  lemma LaterAbove(file: ImageFile, codec: Codec, uncomp: seq<Run>, comp: seq<Run>, mem: ProcessMemory, end: nat,
                   k: nat, j: nat)
    requires Packed(file, codec, uncomp, comp) && RunsOf(comp, mem, end) && k < j < |comp|
    ensures var seg, later := file.cfg[|uncomp| + k], file.cfg[|uncomp| + j];
      PageOf(seg.addr) + PageOf(seg.size) <= PageOf(later.addr)
  {
    assert PackedAs(file.cfg[|uncomp| + k], file.dump, comp[k], codec)
      && PackedAs(file.cfg[|uncomp| + j], file.dump, comp[j], codec);
    PageOfBase(comp[k].pn);
    PageOfBase(|comp[k].pages|);
    PageOfBase(comp[j].pn);
  }

  /** Contents of that length are the joined pages if each page is. */
  lemma {:induction false} SamePages(c: seq<byte>, pages: seq<seq<byte>>)
    requires (forall p :: p in pages ==> |p| == 4096) && |c| == |Join(pages)|
    requires forall i: nat :: i < |pages| ==> Base(i) + 4096 <= |c| && PageAt(c, i) == pages[i]
    ensures c == Join(pages)
  {
    if pages != [] {
      var first, rest, later := c[..4096], c[4096..], pages[1..];
      assert c == first + rest && PageAt(c, 0) == first;
      JoinedPages(later);
      forall i: nat | i < |later| ensures PageAt(rest, i) == later[i] {
        PageAtSuffix(first, rest, i);
      }
      SamePages(rest, later);
    }
  }

  /**
   * compress.py: for any limits on ratio and length, the recompressed image loads to the memory of the
   * original one exactly when the loader gets every compressed run back.
   */
  method Compress(codec: Codec, file: ImageFile, maxRatio: real, maxLength: int, ghost mem: ProcessMemory)
    returns (r: Result<ImageFile, string>, ghost uncomp: seq<Run>, ghost comp: seq<Run>, ghost end: nat)
    requires codec.Lossless()
    requires forall seg :: seg in file.cfg ==> OnPages(seg)
    ensures r.Ok? <==> Readable(file)
    ensures r.Ok? ==> Packed(r.value, codec, uncomp, comp) && Greedy(comp, codec, maxRatio, maxLength)
    ensures r.Ok? ==> AllValid(uncomp) && AllValid(comp) && PagesApart(r.value.cfg)
    ensures r.Ok? && LoadsTo(file, codec, mem) ==>
      && Parted(mem, uncomp, comp, end, codec, maxRatio)
      && (LoadsTo(r.value, codec, mem) <==> AllBack(r.value.cfg, uncomp, comp, codec))
    ensures r.Ok? && maxRatio < 1.0 && maxLength < 4096 ==>
      forall k :: |uncomp| <= k < |r.value.cfg| ==> r.value.cfg[k].length < r.value.cfg[k].size
    ensures r.Ok? && maxRatio <= 0.5 && maxLength <= CL_BUF_SIZE ==> AllBack(r.value.cfg, uncomp, comp, codec)
  {
    uncomp, comp, end := [], [], 0;
    var pages := ReadPages(file);
    if pages.Err? {
      return Err(pages.error), uncomp, comp, end;
    }
    var out;
    out, uncomp, comp, end := Recompress(codec, pages.value, maxRatio, maxLength);
    r := Ok(out);
    if maxRatio < 1.0 && maxLength < 4096 {
      LimitsSuffice(out, codec, uncomp, comp, maxRatio, maxLength);
    }
    if LoadsTo(file, codec, mem) {
      LoadedIsAligned(file, codec);
      RawPagesLoad(file.cfg, file.dump, codec);
    }
  }

  /** What compress.py does to the pages it has read. */
  method Recompress(codec: Codec, pages: ProcessMemory, maxRatio: real, maxLength: int)
    returns (out: ImageFile, ghost uncomp: seq<Run>, ghost comp: seq<Run>, ghost end: nat)
    requires codec.Lossless() && OfPages(pages)
    ensures Packed(out, codec, uncomp, comp) && Greedy(comp, codec, maxRatio, maxLength)
    ensures Parted(pages, uncomp, comp, end, codec, maxRatio)
    ensures AllValid(uncomp) && AllValid(comp) && PagesApart(out.cfg)
    ensures LoadsTo(out, codec, pages) <==> AllBack(out.cfg, uncomp, comp, codec)
  {
    var packed, raw;
    packed, raw, end := Classify(codec, pages, maxRatio, maxLength);
    uncomp, comp := raw, packed;
    Covered(codec, pages, comp, uncomp, maxRatio, end);
    RunsAreValid(comp, pages, end);
    RunsAreValid(uncomp, pages, end);
    out := Emit(codec, packed, raw);
    RunsNeverMeet(pages, uncomp, comp, codec, maxRatio, end);
    SegmentsNeverMeet(out, codec, uncomp, comp);
    forall k | 0 <= k < |comp| && !LoadsBack(out.cfg[|uncomp| + k], comp[k], codec)
      ensures !LoadsTo(out, codec, pages) {
      SpoiltRun(out, codec, uncomp, comp, pages, end, k);
    }
  }

  ghost predicate AllValid(runs: seq<Run>) {
    forall run :: run in runs ==> run.Valid()
  }

  /** No page is in two runs. */
  ghost predicate RunsApart(runs: seq<Run>) {
    forall j, k :: 0 <= j < k < |runs| ==> End(runs[j]) <= runs[k].pn || End(runs[k]) <= runs[j].pn
  }

  /** Compressible pages and others are never the same. */
  lemma RunsNeverMeet(mem: ProcessMemory, uncomp: seq<Run>, comp: seq<Run>, codec: Codec, maxRatio: real, end: nat)
    requires Sorts(comp, mem, end, codec, maxRatio, true) && Sorts(uncomp, mem, end, codec, maxRatio, false)
    ensures RunsApart(uncomp + comp)
  {
    forall j, k | 0 <= j < |uncomp| && 0 <= k < |comp|
      ensures End(uncomp[j]) <= comp[k].pn || End(comp[k]) <= uncomp[j].pn {
      var p := if uncomp[j].pn < comp[k].pn then comp[k].pn else uncomp[j].pn;
      assert RunIn(comp[k], mem) && RunIn(uncomp[j], mem);
      assert p < End(comp[k]) ==> InRuns(comp, p);
      assert p < End(uncomp[j]) ==> InRuns(uncomp, p);
    }
  }

  lemma SegmentsNeverMeet(file: ImageFile, codec: Codec, uncomp: seq<Run>, comp: seq<Run>)
    requires Packed(file, codec, uncomp, comp) && RunsApart(uncomp + comp)
    ensures PagesApart(file.cfg)
  {
    var runs := uncomp + comp;
    forall k | 0 <= k < |file.cfg| ensures PlacedAs(file.cfg[k], runs[k]) {
      assert k >= |uncomp| ==> PackedAs(file.cfg[|uncomp| + (k - |uncomp|)], file.dump, comp[k - |uncomp|], codec);
    }
    forall j, k, p: nat | 0 <= j < k < |file.cfg| && OfSegment(file.cfg[j], p) ensures !OfSegment(file.cfg[k], p) {
      RunPages(file.cfg[j], runs[j]);
      RunPages(file.cfg[k], runs[k]);
    }
  }

  lemma RunPages(seg: Segment, run: Run)
    requires PlacedAs(seg, run)
    ensures PageOf(seg.addr) == run.pn && PageOf(seg.addr) + PageOf(seg.size) == End(run)
  {
    PageOfBase(run.pn);
    PageOfBase(|run.pages|);
  }

  lemma RunsAreValid(runs: seq<Run>, mem: ProcessMemory, end: nat)
    requires RunsOf(runs, mem, end)
    ensures AllValid(runs)
  {
    assert forall k :: 0 <= k < |runs| ==> RunIn(runs[k], mem);
  }

  /**
   * Below ratio 1 and length 4096 no compressed segment can be taken for a raw one; up to 0.5 and the
   * buffer's size all load back.
   */
  lemma LimitsSuffice(file: ImageFile, codec: Codec, uncomp: seq<Run>, comp: seq<Run>, maxRatio: real, maxLength: int)
    requires Packed(file, codec, uncomp, comp) && Greedy(comp, codec, maxRatio, maxLength)
      && forall run :: run in comp ==> run.Valid()
    requires maxRatio < 1.0 && maxLength < 4096
    ensures forall k :: |uncomp| <= k < |file.cfg| ==> file.cfg[k].length < file.cfg[k].size
    ensures maxRatio <= 0.5 && maxLength <= CL_BUF_SIZE ==> AllBack(file.cfg, uncomp, comp, codec)
  {
    forall k | |uncomp| <= k < |file.cfg|
      ensures file.cfg[k].length < file.cfg[k].size
      ensures maxRatio <= 0.5 && maxLength <= CL_BUF_SIZE ==> file.cfg[k].length <= CL_BUF_SIZE
    {
      var run, seg := comp[k - |uncomp|], file.cfg[k];
      assert PackedAs(file.cfg[|uncomp| + (k - |uncomp|)], file.dump, run, codec);
      assert run in comp && Short(run, codec, maxRatio, maxLength);
      assert |file.dump[seg.offset..seg.offset + seg.length]| == seg.length;
      assert run.Valid() && Base(|run.pages|) >= 4096;
    }
    forall k | 0 <= k < |comp| && maxRatio <= 0.5 && maxLength <= CL_BUF_SIZE
      ensures LoadsBack(file.cfg[|uncomp| + k], comp[k], codec)
    {
      assert file.cfg[|uncomp| + k].length <= CL_BUF_SIZE;
    }
  }

  // ----- a limit that is too high -----

  /** A lossless codec that saves nothing: it complements every byte. */
  function Complement(d: seq<byte>): (c: seq<byte>)
    ensures |c| == |d|
  {
    seq(|d|, i requires 0 <= i < |d| => 255 - d[i])
  }

  lemma ComplementTwice(d: seq<byte>)
    ensures Complement(Complement(d)) == d
  {
  }

  const COMPLEMENTER := Codec(Complement, (c, n) => Some(Complement(c)))

  /**
   * At ratio 1 a page that compresses to its own size is taken for a raw one: the file loads, but to the
   * wrong bytes.
   */
  lemma RatioTooHigh()
    ensures COMPLEMENTER.Lossless()
    ensures var run, raw := Run(FIRST_PN, [Zeros(4096)]), [];
      var file, mem := WithRun(ImageFile([], []), run, COMPLEMENTER), map[FIRST_PN := Zeros(4096)];
      Sorts([run], mem, FIRST_PN + 1, COMPLEMENTER, 1.0, true) && Packed(file, COMPLEMENTER, raw, [run]) &&
      !LoadsBack(file.cfg[0], run, COMPLEMENTER) &&
      Load(file.cfg, file.dump, COMPLEMENTER, map[]).Some? && !LoadsTo(file, COMPLEMENTER, mem)
  {
    ComplementerIsLossless();
    var page, run := Zeros(4096), Run(FIRST_PN, [Zeros(4096)]);
    var file, mem := WithRun(ImageFile([], []), run, COMPLEMENTER), map[FIRST_PN := page];
    JoinOne(page);
    SampleSorts(mem, run);
    SamplePacked(file, run);
    assert Complement(page)[0] == 255;
    SpoiltRun(file, COMPLEMENTER, [], [run], mem, FIRST_PN + 1, 0);
  }

  lemma ComplementerIsLossless()
    ensures COMPLEMENTER.Lossless()
  {
    forall d: seq<byte> | |d| >= 16 ensures COMPLEMENTER.decompress(COMPLEMENTER.compress(d), |d|) == Some(d) {
      ComplementTwice(d);
    }
  }

  lemma SampleSorts(mem: ProcessMemory, run: Run)
    requires run == Run(FIRST_PN, [Zeros(4096)]) && mem == map[FIRST_PN := Zeros(4096)]
    ensures Sorts([run], mem, FIRST_PN + 1, COMPLEMENTER, 1.0, true)
  {
    forall p: nat
      ensures InRuns([run], p) <==> p < FIRST_PN + 1 && p in mem && Compressible(COMPLEMENTER, mem[p], 1.0)
    {
      assert [run][0].pn <= FIRST_PN < End([run][0]);
    }
  }

  lemma SamplePacked(file: ImageFile, run: Run)
    requires run == Run(FIRST_PN, [Zeros(4096)]) && file == WithRun(ImageFile([], []), run, COMPLEMENTER)
    ensures Packed(file, COMPLEMENTER, [], [run]) && Load(file.cfg, file.dump, COMPLEMENTER, map[]).Some?
    ensures file.cfg[0].length == file.cfg[0].size && Aligned(file.cfg[0].offset)
  {
    JoinOne(Zeros(4096));
    PageOfBase(FIRST_PN);
    PageOfBase(1);
    PageOfBase(0);
    var seg := PackedSegment(run, 0, COMPLEMENTER);
    assert file.cfg == [] + [seg] && file.dump == Complement(Zeros(4096));
    assert file.dump[0..4096] == file.dump;
    assert OnPages(seg) && Content(seg, file.dump, COMPLEMENTER) == Some(file.dump);
    LoadAppend([], seg, file.dump, COMPLEMENTER, map[]);
  }
}
