// From the file of a rewritten image through recompression and the loader to the replayed run.
module EndToEnd {
  import opened Bytes
  import opened Checkpoints
  import opened ImageFiles
  import opened Images
  import opened Layouts
  import opened LoadOrders
  import opened LoaderBases
  import opened Passes
  import opened Recompression
  import opened ReplayRuns
  import opened ReplayTables
  import opened Replays
  import opened Trampolines

  /** A flat memory that has the bytes of the loaded pages; elsewhere it may hold anything. */
  ghost predicate FlatOf(ram: seq<byte>, mem: ProcessMemory) {
    forall a: nat {:trigger ram[a]} :: a < |ram| && PageOf(a) in mem && OffsOf(a) < |mem[PageOf(a)]| ==>
      ram[a] == mem[PageOf(a)][OffsOf(a)]
  }

  /** Every slot of the plan is, byte for byte, where the plan says in the loaded memory. */
  lemma SlotLoaded(plan: Plan, x: Inputs, p: Places, img0: Image, img: Image, mem: ProcessMemory, ram: seq<byte>,
                   s: Slot)
    requires Installed(plan, x, p, img0, img) && img.WellFormed() && Holds(mem, img) && FlatOf(ram, mem)
    requires IsSlot(x.calls, s) && BlockOf(x, p, s).addr + |BlockOf(x, p, s).data| <= |ram|
    ensures At(ram, BlockOf(x, p, s).addr, BlockOf(x, p, s).data)
  {
    var b := BlockOf(x, p, s);
    forall i | 0 <= i < |b.data| ensures ram[b.addr + i] == b.data[i] {
      LoadedBlocks(plan, x, p, img0, img, mem, s, b.addr + i);
    }
    AtBytes(ram, b.addr, b.data);
  }

  lemma AtBytes(ram: seq<byte>, a: nat, bs: seq<byte>)
    requires a + |bs| <= |ram| && forall i :: 0 <= i < |bs| ==> ram[a + i] == bs[i]
    ensures At(ram, a, bs)
  {
  }

  /**
   * A run of the checkpoint that process_once made: in the memory its file loads to, the replay table is in
   * place, so the entry call returns the recorded a0, every later call applies exactly its recorded write and
   * returns its recorded value, and the last one checks the stores. That run is a Recording asks that calls and
   * program leave the table as it is.
   */
  method ReplayCheckpoint(ram: array<byte>, x: Inputs, p: Places, stores: seq<Store>, verbose: bool,
                          program: seq<seq<Write>>, ghost plan: Plan, ghost img0: Image, ghost img: Image,
                          ghost mem: ProcessMemory, ghost run: Recording)
    returns (values: seq<nat>, printed: seq<nat>, result: Outcome)
    requires Installed(plan, x, p, img0, img) && img.WellFormed() && Holds(mem, img) && FlatOf(ram[..], mem)
    requires x.table == TableBytes(x.regs[10], x.calls, stores, verbose) && TableAddr(p) + |x.table| <= ram.Length
    requires run == RunData(x.calls, program, stores, verbose, ram.Length, TableAddr(p), TableAddr(p) + |x.table|)
    modifies ram
    ensures ram[..] == MemAfter(old(ram[..]), program, x.calls, |x.calls|)
    ensures values == [FromLe(x.regs[10])] + Retvals(x.calls[..|x.calls| - 1])
    ensures printed == if verbose then Retvals(x.calls[..|x.calls| - 1]) else []
    ensures result == if StoresHold(ram[..], SortStores(stores)) then Finished else StoreAssertionFailed
  {
    TableLoaded(plan, x, p, img0, img, mem, ram[..]);
    values, printed, result :=
      ReplayTable(ram, TableAddr(p), x.table, x.regs[10], x.calls, stores, verbose, program, run);
  }

  method ReplayTable(ram: array<byte>, table: nat, ghost bytes: seq<byte>, reg: seq<byte>, calls: seq<SysCall>,
                     stores: seq<Store>, verbose: bool, program: seq<seq<Write>>, ghost run: Recording)
    returns (values: seq<nat>, printed: seq<nat>, result: Outcome)
    requires |reg| == 8 && bytes == TableBytes(reg, calls, stores, verbose) && At(ram[..], table, bytes)
    requires run == RunData(calls, program, stores, verbose, ram.Length, table, table + |bytes|)
    modifies ram
    ensures ram[..] == MemAfter(old(ram[..]), program, calls, |calls|)
    ensures values == [FromLe(reg)] + Retvals(calls[..|calls| - 1])
    ensures printed == if verbose then Retvals(calls[..|calls| - 1]) else []
    ensures result == if StoresHold(ram[..], SortStores(stores)) then Finished else StoreAssertionFailed
  {
    RegisterIsWord(reg);
    values, printed, result := ReplayRuns.Run(ram, table, FromLe(reg), calls, stores, verbose, program);
  }

  lemma TableLoaded(plan: Plan, x: Inputs, p: Places, img0: Image, img: Image, mem: ProcessMemory, ram: seq<byte>)
    requires Installed(plan, x, p, img0, img) && img.WellFormed() && Holds(mem, img) && FlatOf(ram, mem)
    requires TableAddr(p) + |x.table| <= |ram|
    ensures At(ram, TableAddr(p), x.table) && |x.regs[10]| == 8
  {
    SlotLoaded(plan, x, p, img0, img, mem, ram, Table);
    assert x.regs[10] in x.regs;
  }

  lemma RegisterIsWord(reg: seq<byte>)
    requires |reg| == 8
    ensures IsWord(FromLe(reg)) && Le(FromLe(reg), 8) == reg
  {
    FromLeRoundTrip(reg);
    WordIsEightBytes();
  }

  // ----- from the file to the run -----

  /** What compress.py makes of a file, and the runs of pages below end that it writes raw and packs. */
  datatype Recompressed = Recompressed(file: ImageFile, uncomp: seq<Run>, comp: seq<Run>, end: nat)
  {
    /** It is made of the pages of mem, within the limits. */
    ghost predicate MadeOf(mem: ProcessMemory, codec: Codec, maxRatio: real, maxLength: int) {
      && Packed(file, codec, uncomp, comp) && AllValid(uncomp) && AllValid(comp)
      && Parted(mem, uncomp, comp, end, codec, maxRatio) && Greedy(comp, codec, maxRatio, maxLength)
    }

    /** The loader gets every compressed run back. */
    ghost predicate GotBack(codec: Codec) {
      |uncomp| + |comp| <= |file.cfg| && AllBack(file.cfg, uncomp, comp, codec)
    }
  }

  /** Every base that leaves room for the loader below CL_TOP is in the way of a page. */
  ghost predicate NoRoom(mem: ProcessMemory, total: nat) {
    forall b: nat :: CL_BASE <= b && b + total <= CL_TOP ==> !ClearOf(mem, b, total)
  }

  /** The first base from CL_BASE on at which the loader is in the way of no page. */
  ghost predicate FirstRoom(mem: ProcessMemory, base: nat, total: nat) {
    && CL_BASE <= base && base + total <= CL_TOP && ClearOf(mem, base, total)
    && forall b: nat :: CL_BASE <= b < base ==> !ClearOf(mem, b, total)
  }

  /**
   * The file of a pass, recompressed and loaded: the loader takes the first place clear of the image's pages,
   * unless there is none, and then the image is back in memory exactly if it gets every compressed run back.
   */
  method LoadRecompressed(file: ImageFile, codec: Codec, maxRatio: real, maxLength: int, sorters: Sorters, total: nat,
                          ghost mem0: ProcessMemory)
    returns (base: int, ok: bool, mem: ProcessMemory, ghost out: Recompressed)
    requires codec.Lossless() && sorters.Correct() && total > 0
    requires LoadsTo(file, codec, mem0) && SegmentsApart(file.cfg) && AllRaw(file.cfg)
    ensures base >= -1 && (base == -1 <==> NoRoom(mem0, total))
    ensures base >= 0 ==> FirstRoom(mem0, base, total)
    ensures out.MadeOf(mem0, codec, maxRatio, maxLength) && (LoadsTo(out.file, codec, mem0) <==> out.GotBack(codec))
    ensures ok && mem == mem0 <==> base >= 0 && out.GotBack(codec)
    ensures ok <==> base >= 0 && Load(out.file.cfg, out.file.dump, codec, map[]).Some?
    ensures ok ==> LoadsTo(out.file, codec, mem)
    ensures maxRatio <= 0.5 && maxLength <= CL_BUF_SIZE ==> out.GotBack(codec)
  {
    var file';
    file', out := RecompressFile(file, codec, maxRatio, maxLength, mem0);
    base, ok, mem := LaunchBeside(file', sorters, total, codec, mem0);
  }

  /** compress.py on the file of a pass. */
  method RecompressFile(file: ImageFile, codec: Codec, maxRatio: real, maxLength: int, ghost mem: ProcessMemory)
    returns (r: ImageFile, ghost out: Recompressed)
    requires codec.Lossless() && LoadsTo(file, codec, mem) && AllRaw(file.cfg)
    ensures out.file == r && AllOnPages(r.cfg) && PagesApart(r.cfg) && Cover(r.cfg, mem)
    ensures out.MadeOf(mem, codec, maxRatio, maxLength) && (LoadsTo(r, codec, mem) <==> out.GotBack(codec))
    ensures maxRatio <= 0.5 && maxLength <= CL_BUF_SIZE ==> out.GotBack(codec)
  {
    RawIsReadable(file, codec);
    var compressed;
    ghost var uncomp, comp, end;
    compressed, uncomp, comp, end := Compress(codec, file, maxRatio, maxLength, mem);
    r := compressed.value;
    out := Recompressed(r, uncomp, comp, end);
    PackedCovers(r, codec, uncomp, comp, mem, end, maxRatio);
  }

  /** The loader on a file whose segments have the pages of mem; whether they load to mem is another matter. */
  method LaunchBeside(file: ImageFile, sorters: Sorters, total: nat, codec: Codec, ghost mem0: ProcessMemory)
    returns (base: int, ok: bool, mem: ProcessMemory)
    requires AllOnPages(file.cfg) && PagesApart(file.cfg) && Cover(file.cfg, mem0) && sorters.Correct() && total > 0
    ensures base >= -1 && (base == -1 <==> NoRoom(mem0, total))
    ensures base >= 0 ==> FirstRoom(mem0, base, total)
    ensures ok <==> base >= 0 && Load(file.cfg, file.dump, codec, map[]).Some?
    ensures ok ==> LoadsTo(file, codec, mem)
  {
    base, ok, mem := Launch(file, sorters, total, codec);
    RoomBeside(file.cfg, mem0, total);
  }

  /** The segments of a recompressed file have exactly the pages of the memory. */
  lemma PackedCovers(file: ImageFile, codec: Codec, uncomp: seq<Run>, comp: seq<Run>, mem: ProcessMemory, end: nat,
                     maxRatio: real)
    requires Packed(file, codec, uncomp, comp) && AllValid(uncomp) && AllValid(comp)
    requires Parted(mem, uncomp, comp, end, codec, maxRatio)
    ensures Cover(file.cfg, mem)
  {
    var runs := uncomp + comp;
    forall k | 0 <= k < |file.cfg| ensures PlacedAs(file.cfg[k], runs[k]) && runs[k].Valid() {
      assert k >= |uncomp| ==> PackedAs(file.cfg[|uncomp| + (k - |uncomp|)], file.dump, comp[k - |uncomp|], codec);
    }
    forall p: nat ensures p in mem <==> exists seg :: seg in file.cfg && OfSegment(seg, p) {
      PartedPage(mem, uncomp, comp, end, codec, maxRatio, p);
      SegmentOfRun(file.cfg, runs, p);
    }
  }

  lemma PartedPage(mem: ProcessMemory, uncomp: seq<Run>, comp: seq<Run>, end: nat, codec: Codec, maxRatio: real, p: nat)
    requires Parted(mem, uncomp, comp, end, codec, maxRatio)
    ensures p in mem <==> InRuns(uncomp + comp, p)
  {
    InBoth(uncomp, comp, p);
  }

  lemma InBoth(a: seq<Run>, b: seq<Run>, p: nat)
    ensures InRuns(a + b, p) <==> InRuns(a, p) || InRuns(b, p)
  {
    var runs := a + b;
    if InRuns(a, p) {
      var k :| 0 <= k < |a| && a[k].pn <= p < End(a[k]);
      assert runs[k].pn <= p < End(runs[k]);
    }
    if InRuns(b, p) {
      var k :| 0 <= k < |b| && b[k].pn <= p < End(b[k]);
      assert runs[|a| + k].pn <= p < End(runs[|a| + k]);
    }
    if InRuns(runs, p) {
      var k :| 0 <= k < |runs| && runs[k].pn <= p < End(runs[k]);
      assert if k < |a| then runs[k] == a[k] else runs[k] == b[k - |a|];
    }
  }

  lemma SegmentOfRun(cfg: seq<Segment>, runs: seq<Run>, p: nat)
    requires |cfg| == |runs| && forall k :: 0 <= k < |cfg| ==> PlacedAs(cfg[k], runs[k])
    ensures InRuns(runs, p) <==> exists seg :: seg in cfg && OfSegment(seg, p)
  {
    forall k | 0 <= k < |cfg| ensures OfSegment(cfg[k], p) <==> runs[k].pn <= p < End(runs[k]) {
      RunPages(cfg[k], runs[k]);
    }
    if InRuns(runs, p) {
      var k :| 0 <= k < |runs| && runs[k].pn <= p < End(runs[k]);
      assert cfg[k] in cfg;
    }
  }

  lemma RoomBeside(cfg: seq<Segment>, mem: ProcessMemory, total: nat)
    requires AllOnPages(cfg) && Cover(cfg, mem) && total > 0
    ensures forall b: nat :: Clashes(b, total, cfg) <==> !ClearOf(mem, b, total)
  {
    forall b: nat ensures Clashes(b, total, cfg) <==> !ClearOf(mem, b, total) {
      ClashIsNotClear(cfg, mem, b, total);
    }
  }

  /** The file as it was dumped: the image is back in memory unless its pages leave no room for the loader. */
  method LoadDumped(file: ImageFile, codec: Codec, sorters: Sorters, total: nat, ghost mem0: ProcessMemory)
    returns (base: int, ok: bool, mem: ProcessMemory)
    requires sorters.Correct() && total > 0
    requires LoadsTo(file, codec, mem0) && SegmentsApart(file.cfg) && AllRaw(file.cfg)
    ensures base >= -1 && (base == -1 <==> NoRoom(mem0, total)) && (ok <==> base >= 0)
    ensures ok ==> mem == mem0 && FirstRoom(mem, base, total)
  {
    SegmentsShareNoPage(file.cfg);
    assert AllOnPages(file.cfg);
    LoadMakes(file.cfg, file.dump, codec);
    MadeIsCovered(mem0, file.cfg, file.dump, codec);
    base, ok, mem := LaunchBeside(file, sorters, total, codec, mem0);
  }

  lemma RawIsReadable(file: ImageFile, codec: Codec)
    requires forall seg :: seg in file.cfg ==> OnPages(seg)
    requires Load(file.cfg, file.dump, codec, map[]).Some? && AllRaw(file.cfg)
    ensures Readable(file)
  {
    forall seg | seg in file.cfg ensures Whole(seg, file.dump) {
      var k :| 0 <= k < |file.cfg| && file.cfg[k] == seg;
      Loaders.LoadNeedsAll(file.cfg, file.dump, codec, map[], k);
    }
  }

  /** Outside the loaded pages ram is as before. */
  ghost predicate RestOf(ram: seq<byte>, mem: ProcessMemory, rest: seq<byte>) {
    |ram| == |rest| && forall a: nat {:trigger ram[a]} :: a < |ram| && PageOf(a) !in mem ==> ram[a] == rest[a]
  }

  /** The flat memory that has the loaded pages, and is as before elsewhere. */
  method Flatten(mem: ProcessMemory, rest: seq<byte>) returns (ram: array<byte>)
    ensures fresh(ram) && ram.Length == |rest| && FlatOf(ram[..], mem) && RestOf(ram[..], mem, rest)
  {
    ram := new byte[|rest|](a requires 0 <= a < |rest| =>
      var pn, offs := a / PAGE_SIZE, a % PAGE_SIZE;
      if pn in mem && offs < |mem[pn]| then mem[pn][offs] else rest[a]);
    forall a: nat | a < |rest| && PageOf(a) in mem && OffsOf(a) < |mem[PageOf(a)]|
      ensures ram[a] == mem[PageOf(a)][OffsOf(a)] {
      PageByDivision(a);
    }
    forall a: nat | a < |rest| && PageOf(a) !in mem ensures ram[a] == rest[a] {
      PageByDivision(a);
    }
  }

  /**
   * A checkpoint from its file to the end of its run: whatever the compression limits within the loader's
   * buffer, wherever the loader finds room, and whatever else is in memory, the run returns the recorded a0
   * and values, applies exactly the recorded writes and checks the stores.
   */
  method RunCheckpoint(output: Output, codec: Codec, maxRatio: real, maxLength: int, sorters: Sorters, total: nat,
                       rest: seq<byte>, x: Inputs, p: Places, stores: seq<Store>, verbose: bool,
                       program: seq<seq<Write>>,
                       ghost made: Product, ghost img0: Image, ghost run: Recording)
    returns (base: int, values: seq<nat>, printed: seq<nat>, result: Outcome, ghost before: seq<byte>,
             ghost after: seq<byte>)
    requires codec.Lossless() && sorters.Correct() && maxRatio <= 0.5 && maxLength <= CL_BUF_SIZE && total > 0
    requires made.Made(output, codec, x, img0) && made.p == p
    requires x.table == TableBytes(x.regs[10], x.calls, stores, verbose) && TableAddr(p) + |x.table| <= |rest|
    requires run == RunData(x.calls, program, stores, verbose, |rest|, TableAddr(p), TableAddr(p) + |x.table|)
    ensures base >= -1 && (base == -1 <==> NoRoom(made.mem, total))
    ensures base >= 0 ==> FirstRoom(made.mem, base, total)
    ensures base >= 0 ==> values == [FromLe(x.regs[10])] + Retvals(x.calls[..|x.calls| - 1])
    ensures base >= 0 ==> printed == if verbose then Retvals(x.calls[..|x.calls| - 1]) else []
    ensures base >= 0 ==> FlatOf(before, made.mem) && RestOf(before, made.mem, rest)
    ensures base >= 0 ==> |program| == |x.calls| && after == MemAfter(before, program, x.calls, |x.calls|)
    ensures base >= 0 ==> result == if StoresHold(after, SortStores(stores)) then Finished else StoreAssertionFailed
  {
    var ok, mem;
    ghost var out;
    base, ok, mem, out := LoadRecompressed(output.file, codec, maxRatio, maxLength, sorters, total, made.mem);
    values, printed, result, before, after := [], [], StoreAssertionFailed, [], [];
    if base >= 0 {
      var ram := Flatten(mem, rest);
      before := ram[..];
      values, printed, result :=
        ReplayCheckpoint(ram, x, p, stores, verbose, program, made.plan, img0, made.img, mem, run);
      after := ram[..];
    }
  }
}
