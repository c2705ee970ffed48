// Checkpoint.process_once: rewriting a checkpoint image so that it replays its system calls.
module Checkpoints {
  import opened Bytes
  import opened FreeLists
  import opened ImageFiles
  import opened Images
  import opened Layouts
  import opened PageMaps
  import opened ReplayTables
  import opened Trampolines

  // ----- the final plan -----

  /** Everything the contents of the slots depend on. */
  datatype InputState = InputState(asm: Assembly, calls: seq<SysCall>, entryPc: nat, regs: seq<seq<byte>>,
                                   table: seq<byte>)

  ghost predicate GoodRegs(regs: seq<seq<byte>>) {
    |regs| == 64 && forall reg :: reg in regs ==> |reg| == 8
  }

  const NO_INPUTS := InputState(LONG_ASSEMBLY, [], 0, seq(64, _ => Zeros(8)), [])

  type Inputs = x: InputState | GoodRegs(x.regs) ghost witness NO_INPUTS

  const REGFILE_SIZE := 512

  function TableAddr(p: Places): nat {
    p.regs + REGFILE_SIZE + 8 + 8
  }

  function BufAddr(p: Places, x: Inputs): nat {
    TableAddr(p) + |x.table|
  }

  /** The register file, with the far call as x0 and the entry call as x10. */
  function RegFile(x: Inputs, p: Places): seq<byte>
  {
    Join(x.regs[0 := Le(p.far, 8)][10 := Le(p.entry, 8)])
  }

  /** Where a slot is and what it holds. */
  ghost function BlockOf(x: Inputs, p: Places, s: Slot): Block
  {
    match s
    case Trap(a) => Block(a, if a in p.near then x.asm.jump(p.near[a] - a) else [])
    case Near(a) =>
      if a in p.near
      then Block(p.near[a], x.asm.NearCode(a + 4, p.near[a], BufAddr(p, x), Some(p.far), FirstRd(x.calls, a)))
      else Block(0, [])
    case Entry => Block(p.entry, x.asm.NearCode(x.entryPc, p.entry, BufAddr(p, x), None, None))
    case Far => Block(p.far, x.asm.far(p.regs + REGFILE_SIZE, p.regs + REGFILE_SIZE + 8))
    case Regs => Block(p.regs, RegFile(x, p))
    case Table => Block(TableAddr(p), x.table)
    case Buf => Block(BufAddr(p, x), x.regs[2])
  }

  /** The slots of a checkpoint: a trap and a near call for each site, and the fixed ones. */
  ghost predicate IsSlot(calls: seq<SysCall>, s: Slot) {
    match s
    case Trap(a) => a in Sites(calls)
    case Near(a) => a in Sites(calls)
    case _ => true
  }

  /** plan is the final plan: every slot, where BlockOf says. */
  ghost predicate PlanOf(plan: Plan, x: Inputs, p: Places)
  {
    && (forall s :: s in plan <==> IsSlot(x.calls, s))
    && (forall s :: s in plan ==> plan[s] == BlockOf(x, p, s))
  }

  lemma FinalPlan(x: Inputs, p: Places) returns (plan: Plan)
    ensures PlanOf(plan, x, p)
  {
    var sites := Sites(x.calls);
    var slots := (set a | a in sites :: Trap(a)) + (set a | a in sites :: Near(a)) + {Entry, Far, Regs, Table, Buf};
    plan := map s | s in slots :: BlockOf(x, p, s);
  }

  lemma RegFileLength(x: Inputs, p: Places)
    ensures |RegFile(x, p)| == REGFILE_SIZE
  {
    JoinLength(x.regs[0 := Le(p.far, 8)][10 := Le(p.entry, 8)], 8);
  }

  /** The stack pages lie beyond everything reserved: the final plan is disjoint and spares every needed byte. */
  ghost predicate Planned(plan: Plan, x: Inputs, p: Places, img0: Image, img: Image)
  {
    && PlanOf(plan, x, p)
    && p.near.Keys == Sites(x.calls)
    && PairwiseDisjoint(plan)
    && (forall s, a: nat :: s in plan && In(a, plan[s]) && !s.Trap? ==> !img0.marked(a))
    && PagesDrafted(plan, {}, img0, img)
    && (forall a: nat :: Outside(plan, a) ==> img.bytes(a) == img0.bytes(a) && (img.marked(a) <==> img0.marked(a)))
  }

  ghost predicate StackSlot(s: Slot) {
    s.Regs? || s.Table? || s.Buf?
  }

  /** A reserved slot has in the final plan the place it was reserved at. */
  lemma ReservedShape(plan: Plan, x: Inputs, p: Places, s: Slot)
    requires AllReserved(plan, x.asm, x.calls, p) && IsSlot(x.calls, s) && !StackSlot(s)
    ensures s in plan && plan[s].addr == BlockOf(x, p, s).addr && |plan[s].data| == |BlockOf(x, p, s).data|
  {
    var near := plan - {Entry, Far};
    match s
    case Trap(a) => assert s in near;
    case Near(a) => assert s in near;
    case _ =>
  }

  lemma ReservedKeys(plan: Plan, x: Inputs, p: Places, s: Slot)
    requires AllReserved(plan, x.asm, x.calls, p) && s in plan
    ensures IsSlot(x.calls, s) && !StackSlot(s)
  {
    if !s.Entry? && !s.Far? {
      assert s in plan - {Entry, Far};
    }
  }

  /** The stack slots tile the reserved pages. */
  lemma StackTiles(x: Inputs, p: Places, s: Slot, a: nat)
    requires StackSlot(s) && In(a, BlockOf(x, p, s))
    ensures p.regs <= a < p.regs + REGFILE_SIZE + 8 + 8 + |x.table| + 8
    ensures s.Regs? ==> a < TableAddr(p)
    ensures s.Table? ==> TableAddr(p) <= a < BufAddr(p, x)
    ensures s.Buf? ==> BufAddr(p, x) <= a
  {
    RegFileLength(x, p);
    assert x.regs[2] in x.regs;
  }

  /** The stack pages are unmarked, everything else that is planned is set aside. */
  ghost predicate StackFree(plan: Plan, x: Inputs, p: Places, img0: Image, img: Image) {
    && AllReserved(plan, x.asm, x.calls, p) && SetAside(plan, img0, img) && PagesClaimed(plan, img0, img)
    && forall a: nat :: p.regs <= a < p.regs + REGFILE_SIZE + 8 + 8 + |x.table| + 8 ==> !img.marked(a)
  }

  lemma PlannedByte(plan: Plan, x: Inputs, p: Places, img0: Image, img: Image, s: Slot, a: nat)
    requires StackFree(plan, x, p, img0, img) && IsSlot(x.calls, s) && In(a, BlockOf(x, p, s))
    ensures !StackSlot(s) ==> s in plan && In(a, plan[s]) && img.marked(a)
    ensures StackSlot(s) ==> !img.marked(a)
    ensures s.Trap? || !img0.marked(a)
  {
    if StackSlot(s) {
      StackTiles(x, p, s, a);
    } else {
      ReservedShape(plan, x, p, s);
    }
  }

  lemma PlannedApart(plan: Plan, x: Inputs, p: Places, img0: Image, img: Image, s: Slot, t: Slot, a: nat)
    requires StackFree(plan, x, p, img0, img) && IsSlot(x.calls, s) && IsSlot(x.calls, t)
    requires In(a, BlockOf(x, p, s)) && In(a, BlockOf(x, p, t))
    ensures s == t
  {
    PlannedByte(plan, x, p, img0, img, s, a);
    PlannedByte(plan, x, p, img0, img, t, a);
    if StackSlot(s) && StackSlot(t) {
      StackTiles(x, p, s, a);
      StackTiles(x, p, t, a);
    }
  }

  lemma PlannedOutside(plan: Plan, final: Plan, x: Inputs, p: Places, img0: Image, img: Image, a: nat)
    requires StackFree(plan, x, p, img0, img) && PlanOf(final, x, p) && Outside(final, a)
    ensures Outside(plan, a)
  {
    forall s | s in plan ensures !In(a, plan[s]) {
      ReservedKeys(plan, x, p, s);
      ReservedShape(plan, x, p, s);
      assert s in final;
    }
  }

  lemma PlannedPages(plan: Plan, final: Plan, x: Inputs, p: Places, img0: Image, img: Image)
    requires AllReserved(plan, x.asm, x.calls, p) && PlanOf(final, x, p) && PagesClaimed(plan, img0, img)
    ensures PagesDrafted(final, {}, img0, img)
  {
    forall pn: nat ensures pn in img0.pages ==> pn in img.pages {
      assert TouchedBy(plan, pn) || !TouchedBy(plan, pn);
    }
    forall pn: nat | pn in img.pages ensures pn in img0.pages || TouchedBy(final, pn) {
      if TouchedBy(plan, pn) {
        var s :| s in plan && pn in Touched(plan[s].addr, |plan[s].data|);
        ReservedKeys(plan, x, p, s);
        ReservedShape(plan, x, p, s);
        assert s in final;
      }
    }
  }

  lemma StackIsPlanned(plan: Plan, final: Plan, x: Inputs, p: Places, img0: Image, img: Image)
    requires StackFree(plan, x, p, img0, img) && PlanOf(final, x, p)
    ensures Planned(final, x, p, img0, img)
  {
    forall s, a: nat | s in final && In(a, final[s]) && !s.Trap? ensures !img0.marked(a) {
      PlannedByte(plan, x, p, img0, img, s, a);
    }
    forall s, t, a: nat | s in final && t in final && In(a, final[s]) && In(a, final[t]) ensures s == t {
      PlannedApart(plan, x, p, img0, img, s, t, a);
    }
    forall a: nat | Outside(final, a)
      ensures img.bytes(a) == img0.bytes(a) && (img.marked(a) <==> img0.marked(a))
    {
      PlannedOutside(plan, final, x, p, img0, img, a);
    }
    PlannedPages(plan, final, x, p, img0, img);
  }

  // ----- writing -----

  /** MakeHelper.jump; None is the assertion that the offset fits a jal. */
  method Jump(asm: Assembly, offset: int) returns (r: Option<seq<byte>>)
    ensures r == if JumpInRange(offset) then Some(asm.jump(offset)) else None
  {
    if !JumpInRange(offset) {
      return None;
    }
    r := Some(asm.jump(offset));
  }

  /** MakeHelper.near. */
  method MakeNear(asm: Assembly, retPc: nat, nearPc: nat, buf: nat, far: Option<nat>, rd: Option<nat>)
    returns (r: Option<seq<byte>>)
    ensures r.Some? <==> JumpInRange(retPc - nearPc - |asm.nearBody(buf, far, rd)|)
    ensures r.Some? ==> r.value == asm.NearCode(retPc, nearPc, buf, far, rd)
  {
    var body := asm.nearBody(buf, far, rd);
    var ret := Jump(asm, retPc - nearPc - |body|);
    if ret.None? {
      return None;
    }
    r := Some(body + ret.value);
  }

  /** done is the traps and near calls of sites. */
  ghost predicate DoneSites(done: set<Slot>, sites: set<nat>) {
    forall s :: s in done <==> (s.Trap? && s.site in sites) || (s.Near? && s.site in sites)
  }

  /** Both jumps of every site reach: to the near call, and from its end back behind the trap. */
  ghost predicate Reachable(x: Inputs, p: Places, sites: set<nat>)
  {
    forall a :: a in sites && a in p.near ==>
      && JumpInRange(p.near[a] - a)
      && JumpInRange(a + 4 - p.near[a] - |x.asm.nearBody(BufAddr(p, x), Some(p.far), FirstRd(x.calls, a))|)
  }

  /** One put on behalf of a slot of the plan. */
  method PutSlot(pages: PageMap, addr: nat, data: seq<byte>, ghost s: Slot, ghost d: Draft) returns (ghost d': Draft)
    requires pages.Valid() && pages.Img() == d.img
    requires s in d.plan && d.plan[s] == Block(addr, data)
    modifies pages.Repr
    ensures pages.Valid() && fresh(pages.Repr - old(pages.Repr))
    ensures d' == DraftState(d.plan, d.done + {s}, d.img0, pages.Img())
  {
    pages.Put(addr, data);
    d' := Drafted(d, s, pages.Img());
  }

  /** Two puts in a row. */
  method PutBoth(pages: PageMap, addr: nat, data: seq<byte>, addr': nat, data': seq<byte>, ghost s: Slot,
                 ghost t: Slot, ghost d: Draft) returns (ghost d': Draft)
    requires pages.Valid() && pages.Img() == d.img
    requires s in d.plan && d.plan[s] == Block(addr, data) && t in d.plan && d.plan[t] == Block(addr', data')
    modifies pages.Repr
    ensures pages.Valid() && fresh(pages.Repr - old(pages.Repr))
    ensures d' == DraftState(d.plan, d.done + {s} + {t}, d.img0, pages.Img())
  {
    d' := PutSlot(pages, addr, data, s, d);
    d' := PutSlot(pages, addr', data', t, d');
  }

  /** The trap and the near call of one site. */
  method WriteSite(pages: PageMap, x: Inputs, p: Places, site: nat, rd: Option<nat>, ghost d: Draft)
    returns (ok: bool, ghost d': Draft)
    requires pages.Valid() && pages.Img() == d.img
    requires site in p.near && rd == FirstRd(x.calls, site)
    requires Trap(site) in d.plan && d.plan[Trap(site)] == BlockOf(x, p, Trap(site))
    requires Near(site) in d.plan && d.plan[Near(site)] == BlockOf(x, p, Near(site))
    modifies pages.Repr
    ensures pages.Valid() && fresh(pages.Repr - old(pages.Repr))
    ensures ok <==> Reachable(x, p, {site})
    ensures ok ==> d' == DraftState(d.plan, d.done + {Trap(site)} + {Near(site)}, d.img0, pages.Img())
  {
    d' := d;
    var nearAddr := p.near[site];
    var trap := Jump(x.asm, nearAddr - site);
    if trap.None? {
      return false, d;
    }
    var nearCall := MakeNear(x.asm, site + 4, nearAddr, BufAddr(p, x), Some(p.far), rd);
    if nearCall.None? {
      return false, d;
    }
    d' := PutBoth(pages, site, trap.value, nearAddr, nearCall.value, Trap(site), Near(site), d);
    ok := true;
  }

  /** The draft carries out the final plan. */
  ghost predicate DraftOf(d: Draft, x: Inputs, p: Places) {
    p.near.Keys == Sites(x.calls) && PlanOf(d.plan, x, p)
  }

  /** The loop that writes traps and near calls; each site is taken out of the map when it is done. */
  method WriteSites(pages: PageMap, x: Inputs, p: Places, ghost d: Draft) returns (ok: bool, ghost d': Draft)
    requires pages.Valid() && pages.Img() == d.img && DraftOf(d, x, p) && d.done == {}
    modifies pages.Repr
    ensures pages.Valid() && fresh(pages.Repr - old(pages.Repr))
    ensures ok ==> SitesDrafted(d, d', pages.Img(), Sites(x.calls))
    ensures ok <==> Reachable(x, p, Sites(x.calls))
  {
    var todo := p.near;
    d' := d;
    for i := 0 to |x.calls|
      invariant pages.Valid() && fresh(pages.Repr - old(pages.Repr))
      invariant WroteUpTo(todo, x, p, d, d', pages.Img(), i)
    {
      ok, todo, d' := WriteCallSite(pages, x, p, i, todo, d, d');
      if !ok {
        return false, d;
      }
    }
    AllWritten(todo, x, p, d, d', pages.Img());
    ok := true;
  }

  /** The body of that loop. */
  method WriteCallSite(pages: PageMap, x: Inputs, p: Places, i: nat, todo: map<nat, nat>, ghost d0: Draft,
                       ghost d: Draft)
    returns (ok: bool, todo': map<nat, nat>, ghost d': Draft)
    requires pages.Valid() && DraftOf(d, x, p) && i < |x.calls|
    requires WroteUpTo(todo, x, p, d0, d, pages.Img(), i)
    modifies pages.Repr
    ensures pages.Valid() && fresh(pages.Repr - old(pages.Repr))
    ensures ok ==> WroteUpTo(todo', x, p, d0, d', pages.Img(), i + 1)
    ensures Reachable(x, p, Sites(x.calls)) ==> ok
  {
    var site := x.calls[i].addr;
    if site !in todo {
      SiteSkipped(todo, x, p, d0, d, pages.Img(), i);
      return true, todo, d;
    }
    SiteTodo(todo, x, p, d, i);
    ok, d' := WriteSite(pages, x, p, site, x.calls[i].alterRd, d);
    SiteWritten(todo, x, p, d0, d, d', pages.Img(), i, ok);
    todo' := todo - {site};
  }

  /** d' goes on from d: the traps and near calls of sites are written. */
  ghost predicate SitesDrafted(d: Draft, d': Draft, img: Image, sites: set<nat>) {
    d'.plan == d.plan && d'.img0 == d.img0 && d'.img == img && DoneSites(d'.done, sites)
  }

  /** The first i calls have their traps and near calls, all within reach. */
  ghost predicate WroteUpTo(todo: map<nat, nat>, x: Inputs, p: Places, d: Draft, d': Draft, img: Image, i: nat) {
    && SitesLeft(todo, x, p, i)
    && SitesDrafted(d, d', img, Sites(x.calls[..i]))
    && Reachable(x, p, Sites(x.calls[..i]))
  }

  lemma AllWritten(todo: map<nat, nat>, x: Inputs, p: Places, d: Draft, d': Draft, img: Image)
    requires WroteUpTo(todo, x, p, d, d', img, |x.calls|)
    ensures SitesDrafted(d, d', img, Sites(x.calls)) && Reachable(x, p, Sites(x.calls))
  {
    assert x.calls[..|x.calls|] == x.calls;
  }

  lemma SiteSkipped(todo: map<nat, nat>, x: Inputs, p: Places, d: Draft, d': Draft, img: Image, i: nat)
    requires i < |x.calls| && WroteUpTo(todo, x, p, d, d', img, i) && x.calls[i].addr !in todo
    ensures WroteUpTo(todo, x, p, d, d', img, i + 1)
  {
    SiteOf(x.calls, i);
    SitesUpTo(x.calls, i);
    assert Sites(x.calls[..i + 1]) == Sites(x.calls[..i]);
  }

  lemma SiteWritten(todo: map<nat, nat>, x: Inputs, p: Places, d: Draft, before: Draft, after: Draft, img: Image,
                    i: nat, reached: bool)
    requires i < |x.calls| && WroteUpTo(todo, x, p, d, before, before.img, i) && x.calls[i].addr in todo
    requires reached <==> Reachable(x, p, {x.calls[i].addr})
    requires reached ==>
      after == DraftState(before.plan, before.done + {Trap(x.calls[i].addr)} + {Near(x.calls[i].addr)},
                          before.img0, img)
    ensures reached ==> WroteUpTo(todo - {x.calls[i].addr}, x, p, d, after, img, i + 1)
    ensures Reachable(x, p, Sites(x.calls)) ==> reached
  {
    SiteOf(x.calls, i);
    SitesUpTo(x.calls, i);
    if reached {
      assert Reachable(x, p, Sites(x.calls[..i]) + {x.calls[i].addr});
    }
  }

  lemma SiteTodo(todo: map<nat, nat>, x: Inputs, p: Places, d: Draft, i: nat)
    requires i < |x.calls| && SitesLeft(todo, x, p, i) && x.calls[i].addr in todo && DraftOf(d, x, p)
    ensures var site := x.calls[i].addr;
      && site in p.near && FirstRd(x.calls, site) == x.calls[i].alterRd
      && Trap(site) in d.plan && d.plan[Trap(site)] == BlockOf(x, p, Trap(site))
      && Near(site) in d.plan && d.plan[Near(site)] == BlockOf(x, p, Near(site))
  {
    FirstOfSite(x.calls, i);
  }

  /** near_map after i rounds: the sites first met later on. */
  ghost predicate SitesLeft(todo: map<nat, nat>, x: Inputs, p: Places, i: nat) {
    && i <= |x.calls|
    && (forall a :: a in todo <==> a in Sites(x.calls) && a !in Sites(x.calls[..i]))
    && (forall a :: a in todo ==> a in p.near && todo[a] == p.near[a])
  }

  ghost predicate EntryReachable(x: Inputs, p: Places) {
    JumpInRange(x.entryPc - p.entry - |x.asm.nearBody(BufAddr(p, x), None, None)|)
  }

  /** The entry and far calls. */
  method WriteCalls(pages: PageMap, x: Inputs, p: Places, ghost d: Draft) returns (ok: bool, ghost d': Draft)
    requires pages.Valid() && pages.Img() == d.img && DraftOf(d, x, p)
    modifies pages.Repr
    ensures pages.Valid() && fresh(pages.Repr - old(pages.Repr))
    ensures ok <==> EntryReachable(x, p)
    ensures ok ==> d' == DraftState(d.plan, d.done + {Entry} + {Far}, d.img0, pages.Img())
  {
    var entryCall := MakeNear(x.asm, x.entryPc, p.entry, BufAddr(p, x), None, None);
    if entryCall.None? {
      return false, d;
    }
    var farCall := x.asm.far(p.regs + REGFILE_SIZE, p.regs + REGFILE_SIZE + 8);
    d' := PutBoth(pages, p.entry, entryCall.value, p.far, farCall, Entry, Far, d);
    ok := true;
  }

  /** The register file, the replay table and the buffer of the near calls. */
  method WriteStack(pages: PageMap, x: Inputs, p: Places, ghost d: Draft) returns (ghost d': Draft)
    requires pages.Valid() && pages.Img() == d.img && DraftOf(d, x, p)
    modifies pages.Repr
    ensures pages.Valid() && fresh(pages.Repr - old(pages.Repr))
    ensures d' == DraftState(d.plan, d.done + {Regs} + {Table} + {Buf}, d.img0, pages.Img())
  {
    var regs := x.regs;
    regs := regs[0 := Le(p.far, 8)];
    regs := regs[10 := Le(p.entry, 8)];
    d' := PutBoth(pages, p.regs, Join(regs), TableAddr(p), x.table, Regs, Table, d);
    d' := PutSlot(pages, BufAddr(p, x), x.regs[2], Buf, d');
  }

  // ----- process_once -----

  /**
   * The image after process_once: every slot holds its bytes, nothing else has changed, and the pages that the slots
   * touch have been added.
   */
  ghost predicate Installed(plan: Plan, x: Inputs, p: Places, img0: Image, img: Image)
  {
    && Planned(plan, x, p, img0, img)
    && (forall s :: s in plan ==> BlockHeld(img, plan[s]))
    && PagesClaimed(plan, img0, img)
  }

  /** Bytes the program needs survive, the trap sites aside. */
  lemma NeededBytesKept(plan: Plan, x: Inputs, p: Places, img0: Image, img: Image, a: nat)
    requires Installed(plan, x, p, img0, img)
    requires img0.marked(a) && forall site :: site in Sites(x.calls) ==> !InRange(a, site, 4)
    ensures img.bytes(a) == img0.bytes(a) && img.marked(a)
  {
    forall s | s in plan ensures !In(a, plan[s]) {
      if s.Trap? {
        assert IsSlot(x.calls, s);
        assert plan[s].addr == s.site && |plan[s].data| == 4;
      }
    }
  }

  lemma SlotHeld(plan: Plan, x: Inputs, p: Places, img0: Image, img: Image, s: Slot)
    requires Installed(plan, x, p, img0, img) && IsSlot(x.calls, s)
    ensures BlockHeld(img, BlockOf(x, p, s))
  {
    assert s in plan;
  }

  /** Pages found by reserve_page hold no marked byte. */
  lemma GapIsUnmarked(img: Image, pn: nat, n: nat)
    requires img.WellFormed() && !Blocked(img.pages, pn, n)
    ensures forall a: nat :: Base(pn) <= a < Base(pn + n) ==> !img.marked(a)
  {
    forall a: nat | Base(pn) <= a < Base(pn + n) ensures !img.marked(a) {
      assert pn <= PageOf(a) < pn + n;
      assert !img.Present(a);
    }
  }

  /** The bytes needed for the register file, two slots, the table and the buffer. */
  function StackSize(table: seq<byte>): nat {
    REGFILE_SIZE + 8 + 8 + |table| + 8
  }

  /** A disjoint final plan, with nothing written yet. */
  lemma StartDraft(c: Claim, x: Inputs, p: Places, pn: nat) returns (d: Draft)
    requires c.img.WellFormed() && AllReserved(c.plan, x.asm, x.calls, p)
    requires p.regs == Base(pn) && FirstGap(c.img.pages, PagesNeeded(StackSize(x.table)), pn)
    ensures d.done == {} && d.img0 == c.img0 && d.img == c.img
    ensures DraftOf(d, x, p) && Planned(d.plan, x, p, c.img0, c.img)
  {
    GapIsUnmarked(c.img, pn, PagesNeeded(StackSize(x.table)));
    var final := FinalPlan(x, p);
    StackIsPlanned(c.plan, final, x, p, c.img0, c.img);
    d := DraftState(final, {}, c.img0, c.img);
  }

  /** With every slot written, the plan is installed. */
  lemma FinishDraft(d0: Draft, d: Draft, x: Inputs, p: Places)
    requires DraftOf(d0, x, p) && Planned(d0.plan, x, p, d0.img0, d0.img)
    requires d.plan == d0.plan && d.img0 == d0.img0
    requires forall s :: IsSlot(x.calls, s) ==> s in d.done
    ensures Installed(d.plan, x, p, d.img0, d.img)
  {
    PagesDone(d.plan, d.done, d.img0, d.img);
  }

  lemma AllDone(calls: seq<SysCall>, done: set<Slot>, s: Slot)
    requires DoneSites(done, Sites(calls)) && IsSlot(calls, s)
    ensures s in done + {Entry} + {Far} + {Regs} + {Table} + {Buf}
  {
    assert s.Trap? ==> s in done;
    assert s.Near? ==> s in done;
  }

  /** What process_once leaves behind: the image file and the address of the register file. */
  datatype Output = Output(file: ImageFile, regsAddr: nat)

  class Checkpoint {
    const asm: Assembly
    var entryPc: nat
    var regs: seq<seq<byte>>  // pc, 31 integer and 32 floating-point registers
    var syscalls: seq<SysCall>
    var pages: PageMap
    var stores: seq<Store>

    constructor (asm: Assembly, entryPc: nat, regs: seq<seq<byte>>, syscalls: seq<SysCall>, pages: PageMap,
                 stores: seq<Store>)
      ensures this.asm == asm && this.entryPc == entryPc && this.regs == regs
      ensures this.syscalls == syscalls && this.pages == pages && this.stores == stores
    {
      this.asm, this.entryPc, this.regs := asm, entryPc, regs;
      this.syscalls, this.pages, this.stores := syscalls, pages, stores;
    }

    /** What the log must provide. */
    ghost predicate Loaded()
      reads this, pages, pages.Repr
    {
      Logged() && pages.Valid() && pages.Img().marked(entryPc)
    }

    /** The part of it that passes keep: all but the pages. */
    ghost predicate Logged()
      reads this
    {
      && GoodRegs(regs) && Spaced(syscalls)
      && (forall s :: s in syscalls ==> s.Encodable()) && (forall s :: s in stores ==> s.Encodable())
    }

    ghost function Table(verbose: bool): seq<byte>
      reads this
      requires GoodRegs(regs)
    {
      TableBytes(regs[10], syscalls, stores, verbose)
    }

    ghost function AllInputs(verbose: bool): Inputs
      reads this
      requires GoodRegs(regs)
    {
      InputState(asm, syscalls, entryPc, regs, Table(verbose))
    }

    /**
     * process_once. When it succeeds the image holds every trap, trampoline and stack block at
     * disjoint places, with all jumps in range, and is otherwise what it was, and the file written
     * loads to exactly that image; when it fails, it had to.
     */
    method ProcessOnce(verbose: bool, ghost codec: Codec)
      returns (r: Result<Output, Failure>, ghost plan: Plan, ghost p: Places, ghost t: Trace)
      requires Loaded() && this !in pages.Repr
      modifies pages.Repr
      ensures pages.Valid()
      ensures TraceOk(t) && FromHoles(t, old(pages.Img()), syscalls)
      ensures
        match r
        case Ok(output) =>
          Settled(t, AllInputs(verbose), p) && AllReachable(AllInputs(verbose), p)
          && Installed(plan, AllInputs(verbose), p, old(pages.Img()), pages.Img())
          && output.regsAddr == p.regs && Dumped(output.file, codec, pages)
        case Err(f) => HadToFail(f, t, AllInputs(verbose), p)
    {
      // the table depends on nothing that is reserved, so it can be made first
      var x := MakeInputs(verbose);
      var regsAddr;
      regsAddr, plan, p, t := RewriteImage(pages, x);
      r := DumpImage(regsAddr, codec);
      assert AllInputs(verbose) == x;
    }

    method MakeInputs(verbose: bool) returns (x: Inputs)
      requires Loaded()
      ensures x == AllInputs(verbose)
    {
      var table := MakeReplayTable(regs[10], syscalls, stores, verbose);
      x := InputState(asm, syscalls, entryPc, regs, table);
    }

    /** The dump, if the image could be rewritten. */
    method DumpImage(regsAddr: Result<nat, Failure>, ghost codec: Codec) returns (r: Result<Output, Failure>)
      requires pages.Valid()
      ensures pages.Valid()
      ensures r.Ok? <==> regsAddr.Ok?
      ensures r.Err? ==> r.error == regsAddr.error
      ensures r.Ok? ==> r.value.regsAddr == regsAddr.value && Dumped(r.value.file, codec, pages)
    {
      if regsAddr.Err? {
        return Err(regsAddr.error);
      }
      var file := pages.Dump(codec);
      r := Ok(Output(file, regsAddr.value));
    }
  }

  /** The file loads to exactly the pages and bytes of the image, from uncompressed segments that are apart. */
  ghost predicate Dumped(file: ImageFile, codec: Codec, pages: PageMap)
    reads pages
  {
    && LoadsTo(file, codec, PagesOf(pages.memory.view)) && Holds(PagesOf(pages.memory.view), pages.Img())
    && SegmentsApart(file.cfg) && AllRaw(file.cfg)
  }

  // ----- the outcome -----

  ghost predicate AllReachable(x: Inputs, p: Places) {
    Reachable(x, p, Sites(x.calls)) && EntryReachable(x, p)
  }

  /** No call is too long, and every request was granted; the places are those handed out, and the first free pages. */
  ghost predicate Settled(t: Trace, x: Inputs, p: Places) {
    NoneTooLong(x) && PlacesFrom(t, x.asm, x.calls, x.entryPc, p) && StackAt(t.last.img, x, p)
  }

  ghost predicate NoneTooLong(x: Inputs) {
    && (forall a :: a in Sites(x.calls) ==> !TooLong(x.asm, Some(0), FirstRd(x.calls, a)))
    && !TooLong(x.asm, None, None)
  }

  /** The register file starts the first pages that are free for the stack. */
  ghost predicate StackAt(img: Image, x: Inputs, p: Places) {
    Aligned(p.regs) && FirstGap(img.pages, PagesNeeded(StackSize(x.table)), PageOf(p.regs))
  }

  /** Reserve refused one of the requests, a body was too long for its jump back, or a jump did not reach. */
  ghost predicate HadToFail(f: Failure, t: Trace, x: Inputs, p: Places) {
    || Stuck(f, t, x.asm, x.calls, WantedNears(x.asm, x.calls) + WantedCalls(x.asm, x.entryPc))
    || (f == JumpTooFar && Settled(t, x, p) && !AllReachable(x, p))
  }

  /** A successful rewrite installs the plan with all jumps in range; a failed one had to fail. */
  ghost predicate Rewritten(r: Result<nat, Failure>, plan: Plan, p: Places, t: Trace, x: Inputs, img0: Image,
                            img: Image) {
    match r
    case Ok(regsAddr) => regsAddr == p.regs && Settled(t, x, p) && AllReachable(x, p)
      && Installed(plan, x, p, img0, img)
    case Err(f) => HadToFail(f, t, x, p)
  }

  /** process_once from the marking of the sites up to the dump; the result is the address of the register file. */
  method RewriteImage(pages: PageMap, x: Inputs)
    returns (r: Result<nat, Failure>, ghost plan: Plan, ghost p: Places, ghost t: Trace)
    requires pages.Valid() && Spaced(x.calls) && pages.Img().marked(x.entryPc)
    modifies pages.Repr
    ensures pages.Valid() && fresh(pages.Repr - old(pages.Repr))
    ensures TraceOk(t) && FromHoles(t, old(pages.Img()), x.calls)
    ensures Rewritten(r, plan, p, t, x, old(pages.Img()), pages.Img())
  {
    var trampolines;
    ghost var c, o;
    trampolines, c, t, o := SetTrampolines(x.asm, pages, x.calls, x.entryPc);
    SearchStarted(o, t);
    r, plan, p := InstallAll(pages, x, trampolines, t, c);
  }

  lemma SearchStarted(o: Origin, t: Search)
    requires o.root == Root(t)
    ensures TraceOk(t) && FromHoles(t, o.img0, o.calls)
  {
  }

  /** The stack and all code, if there is space for the trampolines. */
  method InstallAll(pages: PageMap, x: Inputs, trampolines: Result<Places, Failure>, ghost t: Search, ghost c: Claim)
    returns (r: Result<nat, Failure>, ghost plan: Plan, ghost p: Places)
    requires pages.Valid() && c.img == pages.Img() == t.last.img
    requires TrampolinesSet(trampolines, c.plan, t, x.asm, x.calls, x.entryPc)
    modifies pages.Repr
    ensures pages.Valid() && fresh(pages.Repr - old(pages.Repr))
    ensures Rewritten(r, plan, p, t, x, c.img0, pages.Img())
  {
    if trampolines.Err? {
      r, plan, p := Err(trampolines.error), c.plan, Places(map[], 0, 0, 0);
    } else {
      r, plan, p := InstallStack(pages, x, trampolines.value, t, c);
    }
  }

  /** The replay stack: pages for it, then everything is written. */
  method InstallStack(pages: PageMap, x: Inputs, trampolines: Places, ghost t: Search, ghost c: Claim)
    returns (r: Result<nat, Failure>, ghost plan: Plan, ghost p: Places)
    requires pages.Valid() && c.img == pages.Img() == t.last.img
    requires AllReserved(c.plan, x.asm, x.calls, trampolines) && PlacesFrom(t, x.asm, x.calls, x.entryPc, trampolines)
    modifies pages.Repr
    ensures pages.Valid() && fresh(pages.Repr - old(pages.Repr))
    ensures Rewritten(r, plan, p, t, x, c.img0, pages.Img())
  {
    var places;
    ghost var d;
    places, d := PlanStack(pages, x, trampolines, t, c);
    plan, p := d.plan, places;
    r := WriteSettled(pages, x, places, d, t);
  }

  method WriteSettled(pages: PageMap, x: Inputs, p: Places, ghost d: Draft, ghost t: Search)
    returns (r: Result<nat, Failure>)
    requires pages.Valid() && pages.Img() == d.img && d.done == {} && DraftOf(d, x, p)
    requires Planned(d.plan, x, p, d.img0, d.img) && Settled(t, x, p)
    modifies pages.Repr
    ensures pages.Valid() && fresh(pages.Repr - old(pages.Repr))
    ensures Rewritten(r, d.plan, p, t, x, d.img0, pages.Img())
  {
    var ok := WritePlan(pages, x, p, d);
    r := if ok then Ok(p.regs) else Err(JumpTooFar);
    PlanWritten(r, ok, d.plan, p, t, x, d.img0, pages.Img());
  }

  lemma PlanWritten(r: Result<nat, Failure>, ok: bool, plan: Plan, p: Places, t: Trace, x: Inputs, img0: Image,
                    img: Image)
    requires r == (if ok then Ok(p.regs) else Err(JumpTooFar)) && Settled(t, x, p) && (ok <==> AllReachable(x, p))
    requires ok ==> Installed(plan, x, p, img0, img)
    ensures Rewritten(r, plan, p, t, x, img0, img)
  {
  }

  /** Chooses the pages of the stack; the plan is then complete, with nothing written yet. */
  method PlanStack(pages: PageMap, x: Inputs, trampolines: Places, ghost t: Search, ghost c: Claim)
    returns (p: Places, ghost d: Draft)
    requires pages.Valid() && c.img == pages.Img() == t.last.img
    requires AllReserved(c.plan, x.asm, x.calls, trampolines) && PlacesFrom(t, x.asm, x.calls, x.entryPc, trampolines)
    ensures pages.Valid() && d.img0 == c.img0 && d.img == c.img == pages.Img() && d.done == {}
    ensures DraftOf(d, x, p) && Planned(d.plan, x, p, c.img0, c.img)
    ensures Settled(t, x, p)
  {
    var pn := pages.ReservePage(StackSize(x.table));
    p := trampolines.(regs := Base(pn));
    pages.ImgWellFormed();
    PageOfBase(pn);
    d := StartDraft(c, x, p, pn);
  }

  /** Whatever the plan puts into the image is at its address in the memory the file loads to. */
  lemma LoadedBlocks(plan: Plan, x: Inputs, p: Places, img0: Image, img: Image, mem: ProcessMemory, s: Slot, a: nat)
    requires Installed(plan, x, p, img0, img) && Holds(mem, img) && img.WellFormed()
    requires IsSlot(x.calls, s) && In(a, BlockOf(x, p, s))
    ensures PageOf(a) in mem && OffsOf(a) < |mem[PageOf(a)]|
    ensures mem[PageOf(a)][OffsOf(a)] == BlockOf(x, p, s).data[a - BlockOf(x, p, s).addr]
  {
    SlotHeld(plan, x, p, img0, img, s);
    assert img.marked(a) && img.Present(a);
  }

  /** Carries out a plan for space that has been claimed: the second half of process_once. */
  method WritePlan(pages: PageMap, x: Inputs, p: Places, ghost d: Draft) returns (ok: bool)
    requires pages.Valid() && pages.Img() == d.img && d.done == {} && DraftOf(d, x, p)
    requires Planned(d.plan, x, p, d.img0, d.img)
    modifies pages.Repr
    ensures pages.Valid() && fresh(pages.Repr - old(pages.Repr))
    ensures ok <==> AllReachable(x, p)
    ensures ok ==> Installed(d.plan, x, p, d.img0, pages.Img())
  {
    ghost var d';
    ok, d' := WriteSites(pages, x, p, d);
    if !ok {
      return;
    }
    ghost var done := d'.done;
    ok, d' := WriteCalls(pages, x, p, d');
    if !ok {
      return;
    }
    d' := WriteStack(pages, x, p, d');
    forall s | IsSlot(x.calls, s) ensures s in d'.done {
      AllDone(x.calls, done, s);
    }
    FinishDraft(d, d', x, p);
  }
}
