// The cfg/dump file pair of a checkpoint, and what the loader makes of it.
module ImageFiles {
  import opened Bytes
  import opened Images
  import opened Sorting

  const CL_BUF_SIZE := 2048

  /** One line of a cfg file (mmap_cfg). */
  datatype Segment = Segment(addr: nat, offset: nat, size: nat, length: nat)

  datatype ImageFile = ImageFile(cfg: seq<Segment>, dump: seq<byte>)

  /** The compression library: None is the zero that fastlz_decompress returns on failure. */
  datatype Codec = Codec(compress: seq<byte> -> seq<byte>, decompress: (seq<byte>, nat) -> Option<seq<byte>>)
  {
    ghost predicate Lossless() {
      forall d: seq<byte> {:trigger compress(d)} :: |d| >= 16 ==> decompress(compress(d), |d|) == Some(d)
    }
  }

  /** A process memory, page by page. */
  type ProcessMemory = map<nat, seq<byte>>

  ghost predicate Aligned(a: nat) {
    Base(PageOf(a)) == a
  }

  ghost predicate OnPages(seg: Segment) {
    Aligned(seg.addr) && Aligned(seg.size)
  }

  /** Page i of a byte string that is a whole number of pages. */
  function PageAt(content: seq<byte>, i: nat): seq<byte>
    requires Base(i) + 4096 <= |content|
  {
    content[Base(i)..Base(i) + 4096]
  }

  /** mem after n pages of content are mapped from page pn on. */
  ghost function MapAt(mem: ProcessMemory, pn: nat, n: nat, content: seq<byte>): ProcessMemory
    requires Base(n) <= |content|
  {
    if n == 0 then mem else MapAt(mem, pn, n - 1, content)[pn + n - 1 := PageAt(content, n - 1)]
  }

  /** What the loader puts at a segment, or None where it stops with an error. */
  ghost function Content(seg: Segment, dump: seq<byte>, codec: Codec): (r: Option<seq<byte>>)
    requires OnPages(seg)
    ensures r.Some? ==> |r.value| == seg.size == Base(PageOf(seg.size))
  {
    if seg.size == seg.length then
      // mmap of the file itself: the offset must be page-aligned
      if Aligned(seg.offset) && seg.offset + seg.size <= |dump|
      then Some(dump[seg.offset..seg.offset + seg.size]) else None
    else if seg.length > CL_BUF_SIZE || seg.offset + seg.length > |dump| then None
    else
      match codec.decompress(dump[seg.offset..seg.offset + seg.length], seg.size)
      case None => None
      case Some(out) => if 0 < |out| <= seg.size then Some(out + Zeros(seg.size - |out|)) else None
  }

  /** The memory map_pages builds from mem, segment after segment. */
  ghost function Load(cfg: seq<Segment>, dump: seq<byte>, codec: Codec, mem: ProcessMemory): Option<ProcessMemory>
    requires forall seg :: seg in cfg ==> OnPages(seg)
  {
    if cfg == [] then Some(mem)
    else
      var last := cfg[|cfg| - 1];
      match Load(cfg[..|cfg| - 1], dump, codec, mem)
      case None => None
      case Some(m) =>
        match Content(last, dump, codec)
        case None => None
        case Some(c) => Some(MapAt(m, PageOf(last.addr), PageOf(last.size), c))
  }

  lemma LoadAppend(cfg: seq<Segment>, seg: Segment, dump: seq<byte>, codec: Codec, mem: ProcessMemory)
    requires forall s :: s in cfg + [seg] ==> OnPages(s)
    requires Load(cfg, dump, codec, mem).Some? && Content(seg, dump, codec).Some?
    ensures Load(cfg + [seg], dump, codec, mem) == Some(MapAt(Load(cfg, dump, codec, mem).value,
              PageOf(seg.addr), PageOf(seg.size), Content(seg, dump, codec).value))
  {
    assert (cfg + [seg])[..|cfg|] == cfg;
  }

  lemma ContentKept(seg: Segment, dump: seq<byte>, more: seq<byte>, codec: Codec)
    requires OnPages(seg) && Content(seg, dump, codec).Some?
    ensures Content(seg, dump + more, codec) == Content(seg, dump, codec)
  {
    assert (dump + more)[seg.offset..seg.offset + seg.length] == dump[seg.offset..seg.offset + seg.length];
  }

  /** Appending to the dump does not disturb what is already loaded from it. */
  lemma {:induction false} LoadKept(cfg: seq<Segment>, dump: seq<byte>, more: seq<byte>, codec: Codec,
                                    mem: ProcessMemory)
    requires forall seg :: seg in cfg ==> OnPages(seg)
    requires Load(cfg, dump, codec, mem).Some?
    ensures Load(cfg, dump + more, codec, mem) == Load(cfg, dump, codec, mem)
  {
    if cfg != [] {
      LoadKept(cfg[..|cfg| - 1], dump, more, codec, mem);
      ContentKept(cfg[|cfg| - 1], dump, more, codec);
    }
  }

  // ----- runs of consecutive pages -----

  datatype Run = Run(pn: nat, pages: seq<seq<byte>>)
  {
    ghost predicate Valid() {
      pages != [] && forall p :: p in pages ==> |p| == 4096
    }
  }

  ghost function AddPages(mem: ProcessMemory, pn: nat, pages: seq<seq<byte>>): ProcessMemory {
    if pages == [] then mem
    else AddPages(mem, pn, pages[..|pages| - 1])[pn + |pages| - 1 := pages[|pages| - 1]]
  }

  /** mem with every page of every run put in place. */
  ghost function AddRuns(mem: ProcessMemory, runs: seq<Run>): ProcessMemory {
    if runs == [] then mem
    else
      var last := runs[|runs| - 1];
      AddPages(AddRuns(mem, runs[..|runs| - 1]), last.pn, last.pages)
  }

  lemma AddRunsAppend(mem: ProcessMemory, runs: seq<Run>, run: Run)
    ensures AddRuns(mem, runs + [run]) == AddPages(AddRuns(mem, runs), run.pn, run.pages)
  {
    assert (runs + [run])[..|runs|] == runs;
  }

  /** The runs after the last one has grown by a page. */
  function Grown(runs: seq<Run>, page: seq<byte>): seq<Run>
    requires runs != []
  {
    var last := runs[|runs| - 1];
    runs[..|runs| - 1] + [Run(last.pn, last.pages + [page])]
  }

  lemma AddRunsGrown(mem: ProcessMemory, runs: seq<Run>, page: seq<byte>)
    requires runs != []
    ensures var last := runs[|runs| - 1];
      AddRuns(mem, Grown(runs, page)) == AddRuns(mem, runs)[last.pn + |last.pages| := page]
  {
    var last := runs[|runs| - 1];
    AddRunsAppend(mem, runs[..|runs| - 1], Run(last.pn, last.pages + [page]));
    assert (last.pages + [page])[..|last.pages|] == last.pages;
  }

  lemma {:induction false} AddPagesOver(m0: ProcessMemory, m1: ProcessMemory, pn: nat, pages: seq<seq<byte>>)
    ensures AddPages(m0 + m1, pn, pages) == m0 + AddPages(m1, pn, pages)
  {
    if pages != [] {
      AddPagesOver(m0, m1, pn, pages[..|pages| - 1]);
    }
  }

  /** Runs put over a memory: theirs where they have a page, the memory's elsewhere. */
  lemma {:induction false} AddRunsOver(mem: ProcessMemory, runs: seq<Run>)
    ensures AddRuns(mem, runs) == mem + AddRuns(map[], runs)
  {
    if runs != [] {
      var last := runs[|runs| - 1];
      AddRunsOver(mem, runs[..|runs| - 1]);
      AddPagesOver(mem, AddRuns(map[], runs[..|runs| - 1]), last.pn, last.pages);
    }
  }

  lemma SliceOfSuffix(a: seq<byte>, b: seq<byte>, x: nat, y: nat)
    requires x <= y <= |b|
    ensures (a + b)[|a| + x..|a| + y] == b[x..y]
  {
  }

  lemma PageAtSuffix(first: seq<byte>, rest: seq<byte>, i: nat)
    requires |first| == 4096 && Base(i) + 4096 <= |rest|
    ensures PageAt(first + rest, i + 1) == PageAt(rest, i)
  {
    SliceOfSuffix(first, rest, Base(i), Base(i) + 4096);
    assert Base(i + 1) == 4096 + Base(i);
  }

  /** Page i of joined pages is pages[i]. */
  lemma {:induction false} JoinedPages(pages: seq<seq<byte>>)
    requires forall p :: p in pages ==> |p| == 4096
    ensures |Join(pages)| == Base(|pages|)
    ensures forall i: nat :: i < |pages| ==> Base(i) + 4096 <= Base(|pages|) && PageAt(Join(pages), i) == pages[i]
  {
    if pages != [] {
      JoinedPages(pages[1..]);
      forall i: nat | i < |pages| ensures PageAt(Join(pages), i) == pages[i] {
        if i > 0 {
          assert PageAt(Join(pages[1..]), i - 1) == pages[1..][i - 1];
          PageAtSuffix(pages[0], Join(pages[1..]), i - 1);
        }
      }
    }
  }

  lemma PageOfBase(pn: nat)
    ensures PageOf(Base(pn)) == pn && Aligned(Base(pn))
  {
  }

  lemma {:induction false} MapPagesOf(mem: ProcessMemory, pn: nat, pages: seq<seq<byte>>, content: seq<byte>)
    requires Base(|pages|) <= |content|
    requires forall i: nat :: i < |pages| ==> Base(i) + 4096 <= |content| && PageAt(content, i) == pages[i]
    ensures MapAt(mem, pn, |pages|, content) == AddPages(mem, pn, pages)
  {
    if pages != [] {
      MapPagesOf(mem, pn, pages[..|pages| - 1], content);
    }
  }

  /** Mapping the joined pages of a run adds exactly the run. */
  lemma MapRun(mem: ProcessMemory, run: Run)
    requires run.Valid()
    ensures |Join(run.pages)| == Base(|run.pages|)
    ensures MapAt(mem, run.pn, |run.pages|, Join(run.pages)) == AddPages(mem, run.pn, run.pages)
  {
    JoinedPages(run.pages);
    MapPagesOf(mem, run.pn, run.pages, Join(run.pages));
  }

  /** An image file under construction loads to mem. */
  ghost predicate LoadsTo(file: ImageFile, codec: Codec, mem: ProcessMemory) {
    && (forall seg :: seg in file.cfg ==> OnPages(seg))
    && Load(file.cfg, file.dump, codec, map[]) == Some(mem)
  }

  function RawSegment(run: Run, offset: nat): Segment {
    Segment(Base(run.pn), offset, Base(|run.pages|), Base(|run.pages|))
  }

  lemma AppendContent(file: ImageFile, codec: Codec, mem: ProcessMemory, run: Run, seg: Segment, data: seq<byte>)
    requires LoadsTo(file, codec, mem) && run.Valid()
    requires seg.addr == Base(run.pn) && seg.size == Base(|run.pages|) && OnPages(seg)
    requires Content(seg, file.dump + data, codec) == Some(Join(run.pages))
    ensures LoadsTo(ImageFile(file.cfg + [seg], file.dump + data), codec, AddPages(mem, run.pn, run.pages))
  {
    PageOfBase(run.pn);
    PageOfBase(|run.pages|);
    LoadKept(file.cfg, file.dump, data, codec, map[]);
    LoadAppend(file.cfg, seg, file.dump + data, codec, map[]);
    MapRun(mem, run);
  }

  /** Writing a run uncompressed at an aligned offset adds the run to what the file loads to. */
  lemma AppendRaw(file: ImageFile, codec: Codec, mem: ProcessMemory, run: Run)
    requires LoadsTo(file, codec, mem) && run.Valid() && Aligned(|file.dump|)
    ensures LoadsTo(ImageFile(file.cfg + [RawSegment(run, |file.dump|)], file.dump + Join(run.pages)), codec,
                    AddPages(mem, run.pn, run.pages))
    ensures Aligned(|file.dump + Join(run.pages)|)
  {
    RawContent(file.dump, codec, run);
    StaysAligned(file.dump, run);
    AppendContent(file, codec, mem, run, RawSegment(run, |file.dump|), Join(run.pages));
  }

  lemma RawContent(dump: seq<byte>, codec: Codec, run: Run)
    requires run.Valid() && Aligned(|dump|)
    ensures OnPages(RawSegment(run, |dump|))
    ensures Content(RawSegment(run, |dump|), dump + Join(run.pages), codec) == Some(Join(run.pages))
  {
    JoinedPages(run.pages);
    PageOfBase(run.pn);
    PageOfBase(|run.pages|);
    AfterDump(dump, Join(run.pages));
  }

  lemma StaysAligned(dump: seq<byte>, run: Run)
    requires run.Valid() && Aligned(|dump|)
    ensures Aligned(|dump + Join(run.pages)|)
  {
    JoinedPages(run.pages);
    AlignedSum(|dump|, |run.pages|);
  }

  lemma AlignedSum(a: nat, count: nat)
    requires Aligned(a)
    ensures Aligned(a + Base(count))
  {
    PageOfBase(PageOf(a) + count);
  }

  lemma AfterDump(dump: seq<byte>, data: seq<byte>)
    ensures (dump + data)[|dump|..|dump| + |data|] == data
  {
  }

  function PackedSegment(run: Run, offset: nat, codec: Codec): Segment {
    Segment(Base(run.pn), offset, Base(|run.pages|), |codec.compress(Join(run.pages))|)
  }

  // ----- uncompressed image files -----

  /** Whether the last run stops short of page pn; there may be none. */
  predicate Gap(runs: seq<Run>, pn: nat) {
    runs == [] || runs[|runs| - 1].pn + |runs[|runs| - 1].pages| < pn
  }

  /** The file that holds the runs uncompressed, one segment each, in order. */
  ghost function RawFile(runs: seq<Run>): ImageFile {
    if runs == [] then ImageFile([], [])
    else
      var file, last := RawFile(runs[..|runs| - 1]), runs[|runs| - 1];
      ImageFile(file.cfg + [RawSegment(last, |file.dump|)], file.dump + Join(last.pages))
  }

  lemma RawFileAppend(runs: seq<Run>, run: Run)
    ensures var file := RawFile(runs);
      RawFile(runs + [run]) == ImageFile(file.cfg + [RawSegment(run, |file.dump|)], file.dump + Join(run.pages))
  {
    assert (runs + [run])[..|runs|] == runs;
  }

  /** It loads to exactly the runs, from aligned offsets. */
  lemma {:induction false} RawFileLoads(runs: seq<Run>, codec: Codec)
    requires forall run :: run in runs ==> run.Valid()
    ensures LoadsTo(RawFile(runs), codec, AddRuns(map[], runs)) && Aligned(|RawFile(runs).dump|)
    ensures |RawFile(runs).cfg| == |runs|
    ensures forall seg :: seg in RawFile(runs).cfg ==>
      OnPages(seg) && seg.size == seg.length > 0 && Aligned(seg.offset)
  {
    if runs == [] {
      PageOfBase(0);
    } else {
      var init, last := runs[..|runs| - 1], runs[|runs| - 1];
      RawFileLoads(init, codec);
      AppendRaw(RawFile(init), codec, AddRuns(map[], init), last);
    }
  }

  /** Each segment of the file is the segment of its run. */
  lemma {:induction false} RawFileSegment(runs: seq<Run>, k: nat)
    requires k < |runs|
    ensures |RawFile(runs).cfg| == |runs|
    ensures RawFile(runs).cfg[k] == RawSegment(runs[k], |RawFile(runs[..k]).dump|)
  {
    var init := runs[..|runs| - 1];
    if k < |runs| - 1 {
      RawFileSegment(init, k);
      assert init[..k] == runs[..k];
    } else if init != [] {
      RawFileSegment(init, 0);
    }
  }

  // ----- the runs of a page table -----

  /** Consecutive page numbers of an ascending list, gathered into runs. */
  ghost function RunsFor(view: map<nat, PageData>, order: seq<nat>): seq<Run>
    requires forall pn :: pn in order ==> pn in view
  {
    if order == [] then []
    else
      Filed(RunsFor(view, order[..|order| - 1]), order[|order| - 1], view[order[|order| - 1]].data)
  }

  function PageBytes(view: map<nat, PageData>, order: seq<nat>): seq<byte>
    requires forall pn :: pn in order ==> pn in view
  {
    if order == [] then [] else PageBytes(view, order[..|order| - 1]) + view[order[|order| - 1]].data
  }

  ghost function DataOf(view: map<nat, PageData>, order: seq<nat>): (mem: ProcessMemory)
    requires forall pn :: pn in order ==> pn in view
    ensures forall pn :: pn in mem <==> pn in order
    ensures forall pn :: pn in order ==> mem[pn] == view[pn].data
  {
    if order == [] then map[]
    else
      var init, pn := order[..|order| - 1], order[|order| - 1];
      assert init + [pn] == order;
      DataOf(view, init)[pn := view[pn].data]
  }

  /** Nonempty runs, in ascending order with a gap between any two; they end where order ends. */
  ghost predicate Separated(runs: seq<Run>, order: seq<nat>) {
    && (forall run :: run in runs ==> run.Valid())
    && (order == [] <==> runs == [])
    && (order != [] ==> runs[|runs| - 1].pn + |runs[|runs| - 1].pages| == order[|order| - 1] + 1)
    && (forall j, k :: 0 <= j < k < |runs| ==> runs[j].pn + |runs[j].pages| < runs[k].pn)
  }

  /** The runs after page pn has been filed. */
  ghost function Filed(runs: seq<Run>, pn: nat, data: seq<byte>): seq<Run> {
    if Gap(runs, pn) then runs + [Run(pn, [data])] else Grown(runs, data)
  }

  lemma FiledSeparated(runs: seq<Run>, order: seq<nat>, pn: nat, data: seq<byte>)
    requires Separated(runs, order) && |data| == 4096
    requires order != [] ==> order[|order| - 1] < pn
    ensures Separated(Filed(runs, pn, data), order + [pn])
  {
    var runs' := Filed(runs, pn, data);
    if !Gap(runs, pn) {
      assert runs[|runs| - 1].Valid();
      assert runs'[|runs'| - 1].Valid();
    }
    assert forall run :: run in runs' ==> run in runs || run == runs'[|runs'| - 1];
  }

  lemma FiledAdds(runs: seq<Run>, pn: nat, data: seq<byte>)
    requires !Gap(runs, pn) ==> runs[|runs| - 1].pn + |runs[|runs| - 1].pages| == pn
    ensures AddRuns(map[], Filed(runs, pn, data)) == AddRuns(map[], runs)[pn := data]
  {
    if Gap(runs, pn) {
      AddRunsAppend(map[], runs, Run(pn, [data]));
      assert [data][..0] == [];
    } else {
      AddRunsGrown(map[], runs, data);
    }
  }

  lemma FiledDumps(runs: seq<Run>, pn: nat, data: seq<byte>)
    ensures RawFile(Filed(runs, pn, data)).dump == RawFile(runs).dump + data
  {
    if Gap(runs, pn) {
      RawFileAppend(runs, Run(pn, [data]));
      JoinOne(data);
    } else {
      var init, last := runs[..|runs| - 1], runs[|runs| - 1];
      RawFileAppend(init, Run(last.pn, last.pages + [data]));
      JoinAppend(last.pages, data);
      assert RawFile(runs).dump == RawFile(init).dump + Join(last.pages);
    }
  }

  ghost predicate PageList(view: map<nat, PageData>, order: seq<nat>) {
    && (forall pn :: pn in order ==> pn in view && view[pn].Valid())
    && StrictlyAscending(order)
  }

  lemma PageListInit(view: map<nat, PageData>, order: seq<nat>)
    requires PageList(view, order) && order != []
    ensures var init, pn := order[..|order| - 1], order[|order| - 1];
      && PageList(view, init) && (init != [] ==> init[|init| - 1] < pn)
      && init + [pn] == order
      && RunsFor(view, order) == Filed(RunsFor(view, init), pn, view[pn].data)
  {
  }

  /** Gathering ascending pages gives runs that are apart ... */
  lemma {:induction false} RunsForSeparated(view: map<nat, PageData>, order: seq<nat>)
    requires PageList(view, order)
    ensures Separated(RunsFor(view, order), order)
  {
    if order != [] {
      var init, pn := order[..|order| - 1], order[|order| - 1];
      PageListInit(view, order);
      RunsForSeparated(view, init);
      FiledSeparated(RunsFor(view, init), init, pn, view[pn].data);
    }
  }

  /** ... and that hold exactly those pages, byte for byte in page order. */
  lemma {:induction false} RunsForHoldPages(view: map<nat, PageData>, order: seq<nat>)
    requires PageList(view, order)
    ensures AddRuns(map[], RunsFor(view, order)) == DataOf(view, order)
    ensures RawFile(RunsFor(view, order)).dump == PageBytes(view, order)
  {
    if order != [] {
      var init, pn := order[..|order| - 1], order[|order| - 1];
      PageListInit(view, order);
      RunsForHoldPages(view, init);
      RunsForSeparated(view, init);
      FiledAdds(RunsFor(view, init), pn, view[pn].data);
      FiledDumps(RunsFor(view, init), pn, view[pn].data);
    }
  }

  /** One more page: whether it opens a run shows in the page number before it. */
  lemma RunsForStep(view: map<nat, PageData>, order: seq<nat>, i: nat)
    requires PageList(view, order) && i < |order|
    ensures RunsFor(view, order[..i + 1]) == Filed(RunsFor(view, order[..i]), order[i], view[order[i]].data)
    ensures Gap(RunsFor(view, order[..i]), order[i]) <==> i == 0 || order[i - 1] + 1 < order[i]
  {
    var next := order[..i + 1];
    assert PageList(view, next) && next[..i] == order[..i];
    PageListInit(view, next);
    RunsForSeparated(view, order[..i]);
  }

  lemma JoinOne(page: seq<byte>)
    ensures Join([page]) == page
  {
    assert Join([page]) == page + Join([]);
  }

  /** The page data of a page table, as a process memory. */
  ghost function PagesOf(view: map<nat, PageData>): ProcessMemory {
    map pn | pn in view :: view[pn].data
  }

  /** A process memory that has exactly the pages and bytes of an image. */
  ghost predicate Holds(mem: ProcessMemory, img: Image) {
    && mem.Keys == img.pages
    && (forall pn :: pn in mem ==> |mem[pn]| == 4096)
    && forall a: nat {:trigger img.bytes(a)} :: img.Present(a) ==> mem[PageOf(a)][OffsOf(a)] == img.bytes(a)
  }

  lemma PagesHold(m: Memory)
    ensures Holds(PagesOf(m.view), m.image)
  {
    assert PagesOf(m.view).Keys == m.image.pages;
    assert forall pn :: pn in m.view ==> m.view[pn].Valid();
  }

  /** Page p belongs to the segment. */
  ghost predicate OfSegment(seg: Segment, p: nat) {
    PageOf(seg.addr) <= p < PageOf(seg.addr) + PageOf(seg.size)
  }

  /** No page belongs to two segments. */
  ghost predicate PagesApart(cfg: seq<Segment>) {
    forall j, k, p: nat {:trigger OfSegment(cfg[j], p), OfSegment(cfg[k], p)} ::
      0 <= j < k < |cfg| && OfSegment(cfg[j], p) ==> !OfSegment(cfg[k], p)
  }

  /** Every segment is uncompressed, and none is empty. */
  ghost predicate AllRaw(cfg: seq<Segment>) {
    forall seg :: seg in cfg ==> seg.size == seg.length > 0
  }

  /** Ascending segments with at least one unmapped page between any two. */
  ghost predicate SegmentsApart(cfg: seq<Segment>) {
    forall j, k :: 0 <= j < k < |cfg| ==> cfg[j].addr + cfg[j].size < cfg[k].addr
  }

  lemma SegmentsShareNoPage(cfg: seq<Segment>)
    requires SegmentsApart(cfg) && forall seg :: seg in cfg ==> OnPages(seg)
    ensures PagesApart(cfg)
  {
    forall j, k, p: nat | 0 <= j < k < |cfg| && OfSegment(cfg[j], p) ensures !OfSegment(cfg[k], p) {
      assert OnPages(cfg[j]) && OnPages(cfg[k]);
    }
  }

  lemma RawFileApart(runs: seq<Run>)
    requires forall j, k :: 0 <= j < k < |runs| ==> runs[j].pn + |runs[j].pages| < runs[k].pn
    ensures |RawFile(runs).cfg| == |runs| && SegmentsApart(RawFile(runs).cfg)
  {
    if runs != [] {
      RawFileSegment(runs, 0);
    }
    var cfg := RawFile(runs).cfg;
    forall j, k | 0 <= j < k < |cfg| ensures cfg[j].addr + cfg[j].size < cfg[k].addr {
      RawFileSegment(runs, j);
      RawFileSegment(runs, k);
      assert runs[j].pn + |runs[j].pages| < runs[k].pn;
    }
  }

  lemma AllPages(view: map<nat, PageData>, order: seq<nat>)
    requires SortedListOf(order, view.Keys) && forall pn :: pn in view ==> view[pn].Valid()
    ensures PageList(view, order) && DataOf(view, order) == PagesOf(view)
  {
  }

  /** Dumping a page table: the file loads to its pages, in separate ascending segments. */
  lemma RunsForDump(view: map<nat, PageData>, order: seq<nat>, codec: Codec)
    requires SortedListOf(order, view.Keys) && forall pn :: pn in view ==> view[pn].Valid()
    ensures var file := RawFile(RunsFor(view, order));
      && LoadsTo(file, codec, PagesOf(view)) && SegmentsApart(file.cfg) && AllRaw(file.cfg)
      && file.dump == PageBytes(view, order)
    ensures forall run :: run in RunsFor(view, order) ==> run.Valid()
  {
    AllPages(view, order);
    RunsForSeparated(view, order);
    RawFileLoads(RunsFor(view, order), codec);
    RawFileApart(RunsFor(view, order));
    RunsForHoldPages(view, order);
  }
}
