// Checkpoint.process: one pass, or a second one with the executions of the breakpoint merged in.
module Passes {
  import opened Bytes
  import opened Checkpoints
  import opened FreeLists
  import opened ImageFiles
  import opened Images
  import opened Layouts
  import opened Merging
  import opened PageMaps
  import opened ReplayRuns
  import opened ReplayTables
  import opened SearchRuns
  import opened Trampolines

  datatype Stop = Rewriting(failure: Failure) | Rerunning(problem: Problem)

  /** What a pass makes: the plan and its places, the image and the memory its file loads to. */
  datatype Product = Product(plan: Plan, p: Places, img: Image, mem: ProcessMemory)
  {
    /** The file loads to memory in which the plan for x is installed, img0 being the image before. */
    ghost predicate Made(output: Output, codec: Codec, x: Inputs, img0: Image) {
      && output.regsAddr == p.regs && AllReachable(x, p)
      && Installed(plan, x, p, img0, img) && img.WellFormed() && Holds(mem, img)
      && LoadsTo(output.file, codec, mem) && SegmentsApart(output.file.cfg) && AllRaw(output.file.cfg)
    }
  }

  /** A pass in hindsight: what it was for, what it made, and its search for space. */
  datatype Account = Account(x: Inputs, made: Product, t: Trace)

  const NO_ACCOUNT := Account(NO_INPUTS, Product(map[], Places(map[], 0, 0, 0), NO_PAGES.image, map[]), NO_SEARCH)

  /**
   * A pass from the given image: it searches for space as reserve does, and makes its product at the places
   * found, or fails because it has to.
   */
  ghost predicate Passed(r: Result<Output, Failure>, a: Account, codec: Codec, img0: Image) {
    && TraceOk(a.t) && FromHoles(a.t, img0, a.x.calls)
    && match r
       case Ok(output) => a.made.Made(output, codec, a.x, img0) && Settled(a.t, a.x, a.made.p)
       case Err(f) => HadToFail(f, a.t, a.x, a.made.p)
  }

  method Pass(c: Checkpoint, verbose: bool, ghost codec: Codec) returns (r: Result<Output, Failure>, ghost a: Account)
    requires c.Loaded() && c !in c.pages.Repr
    modifies c.pages.Repr
    ensures c.pages.Valid() && a.x == c.AllInputs(verbose)
    ensures Passed(r, a, codec, old(c.pages.Img()))
  {
    ghost var plan, p, t;
    ghost var x := c.AllInputs(verbose);
    r, plan, p, t := c.ProcessOnce(verbose, codec);
    a := Account(x, Product(plan, p, c.pages.Img(), PagesOf(c.pages.memory.view)), t);
    c.pages.ImgWellFormed();
  }

  lemma OneGap(pages: set<nat>, n: nat, q: nat, r: nat)
    requires FirstGap(pages, n, q) && FirstGap(pages, n, r)
    ensures q == r
  {
  }

  /** Whether a pass succeeds, and where it puts things, is settled by the image and what the pass is for. */
  lemma OneOutcome(r: Result<Output, Failure>, r': Result<Output, Failure>, a: Account, a': Account, codec: Codec,
                   img0: Image)
    requires Passed(r, a, codec, img0) && Passed(r', a', codec, img0) && a.x == a'.x
    ensures r.Ok? <==> r'.Ok?
    ensures r.Ok? ==> a.made.p == a'.made.p && r.value.regsAddr == r'.value.regsAddr
  {
    if r.Ok? && r'.Ok? {
      SettledOnce(a.t, a'.t, a.x, a.made.p, a'.made.p, img0);
    }
    if r.Ok? && r'.Err? {
      FailureIsFinal(r'.error, a', a, img0);
    }
    if r.Err? && r'.Ok? {
      FailureIsFinal(r.error, a, a', img0);
    }
  }

  lemma SettledOnce(t: Trace, u: Trace, x: Inputs, p: Places, p': Places, img0: Image)
    requires TraceOk(t) && FromHoles(t, img0, x.calls) && TraceOk(u) && FromHoles(u, img0, x.calls)
    requires Settled(t, x, p) && Settled(u, x, p')
    ensures p == p'
  {
    OnePlace(t, u, img0, x.asm, x.calls, x.entryPc, p, p');
    OneGap(t.last.img.pages, PagesNeeded(StackSize(x.table)), PageOf(p.regs), PageOf(p'.regs));
  }

  /** Where one pass has to fail, no other can succeed. */
  lemma FailureIsFinal(f: Failure, a: Account, b: Account, img0: Image)
    requires TraceOk(a.t) && FromHoles(a.t, img0, a.x.calls) && HadToFail(f, a.t, a.x, a.made.p)
    requires TraceOk(b.t) && FromHoles(b.t, img0, b.x.calls) && b.x == a.x
    ensures !(Settled(b.t, b.x, b.made.p) && AllReachable(b.x, b.made.p))
  {
    var x := a.x;
    if Settled(a.t, x, a.made.p) && Settled(b.t, x, b.made.p) {
      SettledOnce(a.t, b.t, x, a.made.p, b.made.p, img0);
    }
    var wanted := WantedNears(x.asm, x.calls) + WantedCalls(x.asm, x.entryPc);
    if f.NoHole? && LastRefused(a.t, f.reservation, wanted) && Requests(b.t) == wanted {
      RefusalIsFinal(f.reservation, a.t, b.t, img0, x.calls, wanted);
    }
    if NextTooLong(a.t, x.asm, x.calls) {
      TooLongSomewhere(a.t, x);
    }
  }

  lemma TooLongSomewhere(t: Trace, x: Inputs)
    requires NextTooLong(t, x.asm, x.calls)
    ensures !NoneTooLong(x)
  {
    var nears, n := WantedNears(x.asm, x.calls), |Requests(t)|;
    if n < |nears| {
      WantedIsSite(x.asm, x.calls, n);
    }
  }

  /** The rerun's values are words, and its breakpoint is at a call site or clear of them. */
  ghost predicate RerunOk(bp: Breakpoint, calls: seq<SysCall>, lines: seq<Line>) {
    && (forall v :: v in HitValues(lines) ==> IsWord(v))
    && (forall s :: s in calls ==> s.addr == bp.addr || s.addr + 4 <= bp.addr || bp.addr + 4 <= s.addr)
  }

  /** The calls of the second pass can be encoded and replayed, and their sites are spaced. */
  lemma SecondPassFits(result: seq<SysCall>, bp: Breakpoint, calls: seq<SysCall>, lines: seq<Line>, n: nat)
    requires SecondPass(result, bp, calls, lines, n) && RerunOk(bp, calls, lines)
    requires Spaced(calls) && forall s :: s in calls ==> s.Encodable()
    ensures Recorded(result) && Spaced(result)
  {
    HitsOfPrefix(lines, n);
    SecondPassIsRecorded(result, bp, calls, lines, n);
    var last := |result| - 1;
    OnlyCallsAndHits(result[..last], bp, calls, HitValues(lines[..n]));
    forall s | s in result ensures s in calls || s.addr == bp.addr {
      assert s in result[..last] || s == result[last];
    }
  }

  lemma {:induction false} HitsOfPrefix(lines: seq<Line>, n: nat)
    requires n <= |lines|
    ensures forall v :: v in HitValues(lines[..n]) ==> v in HitValues(lines)
  {
    if n < |lines| {
      assert lines[..|lines| - 1][..n] == lines[..n];
      HitsOfPrefix(lines[..|lines| - 1], n);
    } else {
      assert lines[..n] == lines;
    }
  }

  /** The calls after process: those recorded, or with a breakpoint those merged with its executions. */
  ghost predicate CallsAfter(calls': seq<SysCall>, bp: Option<Breakpoint>, calls: seq<SysCall>, lines: seq<Line>,
                             n: nat) {
    if bp.None? then calls' == calls
    else StopsAt(bp.value, calls, lines, n) && SecondPass(calls', bp.value, calls, lines, n) && Recorded(calls')
  }

  /** The first of two passes, which the rerun runs. */
  ghost predicate FirstMade(first: Option<Output>, a1: Account, codec: Codec, x1: Inputs, img0: Image) {
    first.Some? ==> a1.x == x1 && Passed(Ok(first.value), a1, codec, img0)
  }

  /**
   * How process ends: with what its last pass made of the original pages, or because a pass failed, the first
   * one or the one for the merged calls, or because no prefix of the rerun completes the merge.
   */
  ghost predicate Processed(r: Result<Output, Stop>, first: Option<Output>, a: Account, codec: Codec, img0: Image,
                            bp: Option<Breakpoint>, calls: seq<SysCall>, lines: seq<Line>, n: nat) {
    match r
    case Ok(output) =>
      && (first.Some? <==> bp.Some?) && CallsAfter(a.x.calls, bp, calls, lines, n)
      && Passed(Ok(output), a, codec, img0)
    case Err(Rewriting(f)) =>
      && (if first.None? then a.x.calls == calls else bp.Some? && CallsAfter(a.x.calls, bp, calls, lines, n))
      && Passed(Err(f), a, codec, img0)
    case Err(Rerunning(_)) => first.Some? && bp.Some? && forall n: nat :: !StopsAt(bp.value, calls, lines, n)
  }

  /**
   * Checkpoint.process; lines is the output of the rerun. The second pass starts from the pages as they were
   * before the first one, and its calls are the merged ones.
   */
  method Process(c: Checkpoint, bp: Option<Breakpoint>, lines: seq<Line>, ghost codec: Codec)
    returns (r: Result<Output, Stop>, first: Option<Output>, ghost a1: Account, ghost a: Account, ghost n: nat)
    requires c.Loaded() && c !in c.pages.Repr
    requires bp.Some? ==> RerunOk(bp.value, c.syscalls, lines)
    modifies c`syscalls, c`pages, c.pages.Repr
    ensures Processed(r, first, a, codec, old(c.pages.Img()), bp, old(c.syscalls), lines, n)
    ensures FirstMade(first, a1, codec, old(c.AllInputs(true)), old(c.pages.Img()))
    ensures GoodRegs(c.regs) && a.x == c.AllInputs(bp.Some? && first.None?)
  {
    if bp.None? {
      n, first, a1 := 0, None, NO_ACCOUNT;
      r, a := LastPass(c, bp, c.syscalls, lines, n, first, codec);
    } else {
      r, first, a1, a, n := TwoPasses(c, bp.value, lines, codec);
    }
  }

  method TwoPasses(c: Checkpoint, bp: Breakpoint, lines: seq<Line>, ghost codec: Codec)
    returns (r: Result<Output, Stop>, first: Option<Output>, ghost a1: Account, ghost a: Account, ghost n: nat)
    requires c.Loaded() && c !in c.pages.Repr && RerunOk(bp, c.syscalls, lines)
    modifies c`syscalls, c`pages, c.pages.Repr
    ensures Processed(r, first, a, codec, old(c.pages.Img()), Some(bp), old(c.syscalls), lines, n)
    ensures FirstMade(first, a1, codec, old(c.AllInputs(true)), old(c.pages.Img()))
    ensures GoodRegs(c.regs) && a.x == c.AllInputs(first.None?)
  {
    var pages := new PageMap.Copy(c.pages);
    var pass;
    pass, a1 := FirstPass(c, pages, codec);
    if pass.Err? {
      r, first, a, n := Err(Rewriting(pass.error)), None, a1, 0;
    } else {
      first := Some(pass.value);
      r, a, n := Rerun(c, bp, lines, pages, first, codec);
    }
  }

  /** The first pass leaves the copy of the pages alone. */
  method FirstPass(c: Checkpoint, ghost pages: PageMap, ghost codec: Codec)
    returns (r: Result<Output, Failure>, ghost a: Account)
    requires c.Loaded() && c !in c.pages.Repr && pages.Valid() && pages.Repr !! c.pages.Repr
    modifies c.pages.Repr
    ensures unchanged(pages, old(pages.Repr))
    ensures a.x == c.AllInputs(true) && Passed(r, a, codec, old(c.pages.Img()))
  {
    r, a := Pass(c, true, codec);
  }

  /** The merge, and the second pass on the pages set aside before the first one. */
  method Rerun(c: Checkpoint, bp: Breakpoint, lines: seq<Line>, pages: PageMap, ghost first: Option<Output>,
               ghost codec: Codec)
    returns (r: Result<Output, Stop>, ghost a: Account, ghost n: nat)
    requires c.Logged() && RerunOk(bp, c.syscalls, lines) && first.Some?
    requires pages.Valid() && pages.Img().marked(c.entryPc) && c !in pages.Repr
    modifies c`syscalls, c`pages, pages.Repr
    ensures Processed(r, first, a, codec, old(pages.Img()), Some(bp), old(c.syscalls), lines, n)
    ensures GoodRegs(c.regs) && a.x == c.AllInputs(false)
  {
    var merged;
    merged, n := Merge(bp, c.syscalls, lines);
    if merged.Err? {
      r, a := Err(Rerunning(merged.error)), NO_ACCOUNT.(x := c.AllInputs(false));
    } else {
      SecondPassFits(merged.value, bp, c.syscalls, lines, n);
      r, a := SecondRound(c, bp, merged.value, pages, c.syscalls, lines, n, first, codec);
    }
  }

  method SecondRound(c: Checkpoint, ghost bp: Breakpoint, merged: seq<SysCall>, pages: PageMap,
                     ghost calls: seq<SysCall>, ghost lines: seq<Line>, ghost n: nat, ghost first: Option<Output>,
                     ghost codec: Codec)
    returns (r: Result<Output, Stop>, ghost a: Account)
    requires c.Logged() && Spaced(merged) && CallsAfter(merged, Some(bp), calls, lines, n) && first.Some?
    requires pages.Valid() && pages.Img().marked(c.entryPc) && c !in pages.Repr
    modifies c`syscalls, c`pages, pages.Repr
    ensures Processed(r, first, a, codec, old(pages.Img()), Some(bp), calls, lines, n)
    ensures GoodRegs(c.regs) && a.x == c.AllInputs(false)
  {
    c.syscalls, c.pages := merged, pages;
    r, a := LastPass(c, Some(bp), calls, lines, n, first, codec);
  }

  /** The only pass, or the second one. */
  method LastPass(c: Checkpoint, ghost bp: Option<Breakpoint>, ghost calls: seq<SysCall>, ghost lines: seq<Line>,
                  ghost n: nat, ghost first: Option<Output>, ghost codec: Codec)
    returns (r: Result<Output, Stop>, ghost a: Account)
    requires c.Loaded() && c !in c.pages.Repr && CallsAfter(c.syscalls, bp, calls, lines, n)
    requires first.Some? <==> bp.Some?
    modifies c.pages.Repr
    ensures Processed(r, first, a, codec, old(c.pages.Img()), bp, calls, lines, n)
    ensures c.pages.Valid() && GoodRegs(c.regs) && a.x == c.AllInputs(false)
  {
    var pass;
    pass, a := Pass(c, false, codec);
    r := match pass case Ok(output) => Ok(output) case Err(f) => Err(Rewriting(f));
  }
}
