// The first half of Checkpoint.process_once: setting space aside for every trampoline.
module Trampolines {
  import opened Bytes
  import opened FreeLists
  import opened Images
  import opened Layouts
  import opened PageMaps
  import opened ReplayTables

  datatype Failure = NoHole(reservation: Reservation) | JumpTooFar

  // ----- sites -----

  /** The distinct call sites. */
  ghost function Sites(calls: seq<SysCall>): set<nat> {
    if calls == [] then {} else Sites(calls[..|calls| - 1]) + {calls[|calls| - 1].addr}
  }

  lemma SitesUpTo(calls: seq<SysCall>, i: nat)
    requires i < |calls|
    ensures Sites(calls[..i + 1]) == Sites(calls[..i]) + {calls[i].addr}
  {
    assert calls[..i + 1][..i] == calls[..i];
  }

  lemma {:induction false} SiteOf(calls: seq<SysCall>, i: nat)
    requires i < |calls|
    ensures calls[i].addr in Sites(calls)
  {
    if i < |calls| - 1 {
      SiteOf(calls[..|calls| - 1], i);
    }
  }

  lemma {:induction false} CallOf(calls: seq<SysCall>, a: nat) returns (i: nat)
    requires a in Sites(calls)
    ensures i < |calls| && calls[i].addr == a
  {
    if a in Sites(calls[..|calls| - 1]) {
      i := CallOf(calls[..|calls| - 1], a);
    } else {
      i := |calls| - 1;
    }
  }

  /** The alter_rd of the first call at a site: the one its trampoline is made for. */
  ghost function FirstRd(calls: seq<SysCall>, site: nat): Option<nat> {
    if calls == [] then None
    else
      var init, last := calls[..|calls| - 1], calls[|calls| - 1];
      if last.addr == site && site !in Sites(init) then last.alterRd else FirstRd(init, site)
  }

  /** A call that comes before all others at its site. */
  lemma {:induction false} FirstOfSite(calls: seq<SysCall>, i: nat)
    requires i < |calls| && calls[i].addr !in Sites(calls[..i])
    ensures FirstRd(calls, calls[i].addr) == calls[i].alterRd && calls[i].addr in Sites(calls)
  {
    var init := calls[..|calls| - 1];
    if i < |calls| - 1 {
      assert init[..i] == calls[..i];
      FirstOfSite(init, i);
    }
  }

  /** Two call sites are the same or at least an instruction apart. */
  ghost predicate Spaced(calls: seq<SysCall>) {
    forall s, t :: s in calls && t in calls ==> s.addr == t.addr || s.addr + 4 <= t.addr || t.addr + 4 <= s.addr
  }

  ghost function TrapPlan(sites: set<nat>): Plan {
    map s | s in (set a | a in sites :: Trap(a)) :: Block(s.site, Zeros(4))
  }

  /** The length of the near call of a site. */
  function NearLength(asm: Generators, rd: Option<nat>): nat {
    |asm.NearCode(0, 0, 0, Some(0), rd)|
  }

  // ----- reserving -----

  /** The space set aside so far: every trap, and a near block for each site in near. */
  ghost predicate NearsReserved(plan: Plan, asm: Generators, calls: seq<SysCall>, near: map<nat, nat>) {
    && near.Keys <= Sites(calls)
    && (forall s :: s in plan ==> s.Trap? || s.Near?)
    && TrapsIn(plan, Sites(calls)) && NearsIn(plan, asm, calls, near)
  }

  ghost predicate TrapsIn(plan: Plan, sites: set<nat>) {
    && (forall a :: Trap(a) in plan <==> a in sites)
    && (forall a :: a in sites ==> plan[Trap(a)] == Block(a, Zeros(4)))
  }

  ghost predicate NearsIn(plan: Plan, asm: Generators, calls: seq<SysCall>, near: map<nat, nat>) {
    && (forall a :: Near(a) in plan <==> a in near)
    && (forall a :: a in near ==> plan[Near(a)] == Block(near[a], Zeros(NearLength(asm, FirstRd(calls, a)))))
    && (forall a :: a in near ==> !TooLong(asm, Some(0), FirstRd(calls, a)))
  }

  /** The body of a call, generated for address zero, is longer than a jump. */
  ghost predicate TooLong(asm: Generators, far: Option<nat>, rd: Option<nat>) {
    !JumpInRange(-|asm.nearBody(0, far, rd)|)
  }

  /** The pages that the marking of sites touches. */
  ghost function SitePages(sites: set<nat>): set<nat> {
    set a, pn | a in sites && pn in Touched(a, 4) :: pn
  }

  /** The first loop of process_once: all four bytes of every trap site become marked. */
  method MarkSites(pages: PageMap, calls: seq<SysCall>) returns (ghost c: Claim)
    requires pages.Valid() && Spaced(calls)
    modifies pages.Repr
    ensures pages.Valid() && fresh(pages.Repr - old(pages.Repr))
    ensures c == ClaimState(TrapPlan(Sites(calls)), old(pages.Img()), pages.Img())
    ensures pages.Img().pages == old(pages.Img()).pages + SitePages(Sites(calls))
  {
    ghost var plan: Plan := map[];
    ghost var img0 := pages.Img();
    for i := 0 to |calls|
      invariant pages.Valid() && fresh(pages.Repr - old(pages.Repr))
      invariant plan == TrapPlan(Sites(calls[..i])) && SetAside(plan, img0, pages.Img())
      invariant pages.Img().pages == img0.pages + SitePages(Sites(calls[..i]))
    {
      ghost var img := pages.Img();
      pages.Put(calls[i].addr, Zeros(4));
      OneMoreTrap(plan, calls, i, img0, img, pages.Img());
      plan := plan[Trap(calls[i].addr) := Block(calls[i].addr, Zeros(4))];
    }
    assert calls[..|calls|] == calls;
    TrapPlanPages(Sites(calls), img0, pages.Img());
    c := ClaimState(plan, img0, pages.Img());
  }

  lemma TrapPlanPages(sites: set<nat>, img0: Image, img: Image)
    requires img.pages == img0.pages + SitePages(sites)
    ensures PagesClaimed(TrapPlan(sites), img0, img)
  {
    var plan := TrapPlan(sites);
    forall pn: nat ensures TouchedBy(plan, pn) <==> pn in SitePages(sites) {
      if pn in SitePages(sites) {
        var a :| a in sites && pn in Touched(a, 4);
        assert Trap(a) in plan && plan[Trap(a)] == Block(a, Zeros(4));
      }
    }
  }

  lemma OneMoreTrap(plan: Plan, calls: seq<SysCall>, i: nat, img0: Image, img: Image, img': Image)
    requires i < |calls| && Spaced(calls) && plan == TrapPlan(Sites(calls[..i]))
    requires SetAside(plan, img0, img) && Wrote(img, img', calls[i].addr, Zeros(4))
    ensures var plan' := plan[Trap(calls[i].addr) := Block(calls[i].addr, Zeros(4))];
      plan' == TrapPlan(Sites(calls[..i + 1])) && SetAside(plan', img0, img')
    ensures img.pages == img0.pages + SitePages(Sites(calls[..i])) ==>
      img'.pages == img0.pages + SitePages(Sites(calls[..i + 1]))
  {
    SitesUpTo(calls, i);
    forall s | s in plan
      ensures s.Trap? && plan[s] == Block(s.site, Zeros(4))
      ensures s.site == calls[i].addr || s.site + 4 <= calls[i].addr || calls[i].addr + 4 <= s.site
    {
      var j := CallOf(calls[..i], s.site);
      assert calls[j] in calls && calls[i] in calls;
    }
    SetAsideTrap(plan, img0, img, img', calls[i].addr);
  }

  /** The run of reserve so far has led to the pages and the free list as they are. */
  ghost predicate Tracks(t: Search, c: Claim, pages: PageMap, freeList: array<Range>)
    reads pages, freeList
  {
    t.last == HoleState(pages.Img(), freeList[..]) && c.img == pages.Img()
  }

  /** One call of reserve on behalf of a slot, from a marked base. */
  method ReserveSlot(pages: PageMap, freeList: array<Range>, base: nat, size: nat, ghost s: Slot, ghost c: Claim,
                     ghost t: Search)
    returns (r: Reservation, ghost c': Claim, ghost t': Search)
    requires pages.Valid() && freeList !in pages.Repr && Tracks(t, c, pages, freeList)
    requires c.img.marked(base) && size % 2 == 0 && s !in c.plan
    modifies pages.Repr, freeList
    ensures pages.Valid() && fresh(pages.Repr - old(pages.Repr)) && Tracks(t', c', pages, freeList)
    ensures t' == Step(t, Request(base, size), r, t'.last)
    ensures c' == if r.Reserved? then ClaimState(c.plan[s := Block(r.addr, Zeros(size))], c.img0, pages.Img()) else c
  {
    TraceKeepsFreeList(t);
    r := pages.Reserve(freeList, base, size);
    t' := Searched(t, Request(base, size), r, HoleState(pages.Img(), freeList[..]));
    c' := c;
    if r.Reserved? {
      c' := Claimed(c, s, Block(r.addr, Zeros(size)), pages.Img());
    }
  }

  // ----- what is asked of reserve -----

  /** The requests for near blocks: one for each site, when its first call comes up. */
  ghost function WantedNears(asm: Generators, calls: seq<SysCall>): seq<Request> {
    if calls == [] then []
    else
      var init, call := calls[..|calls| - 1], calls[|calls| - 1];
      var wanted := if call.addr in Sites(init) then [] else [Request(call.addr, NearLength(asm, call.alterRd))];
      WantedNears(asm, init) + wanted
  }

  ghost function WantedCalls(asm: Generators, entryPc: nat): seq<Request> {
    [Request(entryPc, |asm.NearCode(0, 0, 0, None, None)|), Request(entryPc, |asm.far(0, 0)|)]
  }

  lemma {:induction false} WantedPrefix(asm: Generators, calls: seq<SysCall>, i: nat)
    requires i <= |calls|
    ensures WantedNears(asm, calls[..i]) <= WantedNears(asm, calls)
  {
    if i < |calls| {
      var init := calls[..|calls| - 1];
      assert init[..i] == calls[..i];
      WantedPrefix(asm, init, i);
    } else {
      assert calls[..i] == calls;
    }
  }

  /** The blocks handed out, by the base they were asked for. */
  function Blocks(t: Trace): map<nat, nat> {
    if t.Start? then map[]
    else Blocks(t.prev)[t.request.base := if t.result.Reserved? then t.result.addr else 0]
  }

  /** The last request was refused, after all the earlier ones were granted. */
  ghost predicate LastRefused(t: Trace, r: Reservation, wanted: seq<Request>) {
    t.Step? && t.result == r && !r.Reserved? && Granted(t.prev) && Requests(t) <= wanted
  }

  /** The next request could not be made, because its call is too long, after all the earlier ones were granted. */
  ghost predicate NextTooLong(t: Trace, asm: Generators, calls: seq<SysCall>) {
    var nears, n := WantedNears(asm, calls), |Requests(t)|;
    && Granted(t) && Requests(t) <= nears
    && if n < |nears| then TooLong(asm, Some(0), FirstRd(calls, nears[n].base)) else TooLong(asm, None, None)
  }

  /** Why space could not be found: reserve refused one of the requests, or a body was too long to ask for space. */
  ghost predicate Stuck(f: Failure, t: Trace, asm: Generators, calls: seq<SysCall>, wanted: seq<Request>) {
    match f
    case NoHole(r) => LastRefused(t, r, wanted)
    case JumpTooFar => NextTooLong(t, asm, calls)
  }

  /** How far the second loop has got: the first i calls are done, or why it stopped. */
  datatype NearState = NearState(plan: Plan, asm: Generators, calls: seq<SysCall>, near: map<nat, nat>, t: Trace,
                                 i: nat, failure: Option<Failure>)

  const NO_NEARS := NearState(map[], LONG_ASSEMBLY, [], map[], NO_SEARCH, 0, None)

  type Nears = n: NearState | NearsUpTo(n) ghost witness NO_NEARS

  /** Every site of the first i calls has the near block that was handed out for it; or the loop had to stop. */
  ghost predicate NearsUpTo(n: NearState) {
    n.i <= |n.calls| &&
    match n.failure
    case None => PlanUpTo(n.plan, n.asm, n.calls, n.near, n.i) && TraceUpTo(n.t, n.asm, n.calls, n.near, n.i)
    case Some(f) => Stuck(f, n.t, n.asm, n.calls, WantedNears(n.asm, n.calls))
  }

  ghost predicate PlanUpTo(plan: Plan, asm: Generators, calls: seq<SysCall>, near: map<nat, nat>, i: nat)
    requires i <= |calls|
  {
    NearsReserved(plan, asm, calls, near) && near.Keys == Sites(calls[..i])
  }

  ghost predicate TraceUpTo(t: Trace, asm: Generators, calls: seq<SysCall>, near: map<nat, nat>, i: nat)
    requires i <= |calls|
  {
    Granted(t) && Requests(t) == WantedNears(asm, calls[..i]) && Blocks(t) == near
  }

  /** The second loop: one near block for each distinct site. */
  method ReserveNears(asm: Assembly, pages: PageMap, freeList: array<Range>, calls: seq<SysCall>, ghost c0: Claim,
                      ghost t0: Search)
    returns (r: Result<map<nat, nat>, Failure>, ghost c: Claim, ghost t: Search, ghost n: Nears)
    requires t0.Start?
    requires pages.Valid() && freeList !in pages.Repr && Tracks(t0, c0, pages, freeList)
    requires c0.plan == TrapPlan(Sites(calls))
    modifies pages.Repr, freeList
    ensures pages.Valid() && fresh(pages.Repr - old(pages.Repr)) && Tracks(t, c, pages, freeList)
    ensures c.img0 == c0.img0 && Root(t) == t0.last
    ensures NearsSet(r, c, t, n, asm, calls)
  {
    var near: map<nat, nat> := map[];
    n := FirstNears(c0.plan, asm, calls, t0);
    c, t := c0, t0;
    var failure: Option<Failure> := None;
    var i := 0;
    while i < |calls| && failure.None?
      invariant i <= |calls|
      invariant pages.Valid() && fresh(pages.Repr - old(pages.Repr)) && freeList !in pages.Repr
      invariant Tracks(t, c, pages, freeList) && c.img0 == c0.img0 && Root(t) == t0.last
      invariant n == NearState(c.plan, asm, calls, near, t, i, failure)
    {
      failure, near, c, t, n := ReserveNear(asm, pages, freeList, calls, i, near, c, t, n);
      i := i + 1;
    }
    r := if failure.Some? then Err(failure.value) else Ok(near);
  }

  lemma FirstNears(plan: Plan, asm: Generators, calls: seq<SysCall>, t: Trace) returns (n: Nears)
    requires plan == TrapPlan(Sites(calls)) && t.Start?
    ensures n == NearState(plan, asm, calls, map[], t, 0, None)
  {
    n := NearsAt(plan, asm, calls, map[], t, 0);
  }

  lemma NearsAt(plan: Plan, asm: Generators, calls: seq<SysCall>, near: map<nat, nat>, t: Trace, i: nat)
    returns (n: Nears)
    requires i <= |calls| && PlanUpTo(plan, asm, calls, near, i) && TraceUpTo(t, asm, calls, near, i)
    ensures n == NearState(plan, asm, calls, near, t, i, None)
  {
    n := NearState(plan, asm, calls, near, t, i, None);
  }

  /** What ReserveNears returns: the near blocks of all calls, with their claim, or why there are none. */
  ghost predicate NearsSet(r: Result<map<nat, nat>, Failure>, c: Claim, t: Search, n: Nears, asm: Generators,
                           calls: seq<SysCall>) {
    match r
    case Ok(near) => n == NearState(c.plan, asm, calls, near, t, |calls|, None)
    case Err(f) => n == NearState(c.plan, asm, calls, n.near, t, n.i, Some(f))
  }

  /** The body of that loop: a site that already has its near block is skipped. */
  method ReserveNear(asm: Assembly, pages: PageMap, freeList: array<Range>, calls: seq<SysCall>, i: nat,
                     near: map<nat, nat>, ghost c: Claim, ghost t: Search, ghost n: Nears)
    returns (failure: Option<Failure>, near': map<nat, nat>, ghost c': Claim, ghost t': Search, ghost n': Nears)
    requires pages.Valid() && freeList !in pages.Repr && Tracks(t, c, pages, freeList)
    requires i < |calls| && n == NearState(c.plan, asm, calls, near, t, i, None)
    modifies pages.Repr, freeList
    ensures pages.Valid() && fresh(pages.Repr - old(pages.Repr)) && Tracks(t', c', pages, freeList)
    ensures c'.img0 == c.img0 && Root(t') == Root(t)
    ensures n' == NearState(c'.plan, asm, calls, near', t', i + 1, failure)
  {
    if calls[i].addr in near {
      failure, near', c', t' := None, near, c, t;
      n' := NearSkipped(n);
    } else {
      var size := NearSize(asm, calls[i].alterRd);
      failure, near', c', t', n' := ReserveNext(asm, pages, freeList, calls, i, near, size, c, t, n);
    }
  }

  /** The near block of call i, the first at its site, unless its body is too long. */
  method ReserveNext(ghost asm: Generators, pages: PageMap, freeList: array<Range>, calls: seq<SysCall>, i: nat,
                     near: map<nat, nat>, size: Option<nat>, ghost c: Claim, ghost t: Search, ghost n: Nears)
    returns (failure: Option<Failure>, near': map<nat, nat>, ghost c': Claim, ghost t': Search, ghost n': Nears)
    requires pages.Valid() && freeList !in pages.Repr && Tracks(t, c, pages, freeList)
    requires i < |calls| && n == NearState(c.plan, asm, calls, near, t, i, None) && calls[i].addr !in near
    requires SizeOf(size, asm, calls[i].alterRd)
    modifies pages.Repr, freeList
    ensures pages.Valid() && fresh(pages.Repr - old(pages.Repr)) && Tracks(t', c', pages, freeList)
    ensures c'.img0 == c.img0 && Root(t') == Root(t)
    ensures n' == NearState(c'.plan, asm, calls, near', t', i + 1, failure)
  {
    if size.None? {
      n' := NearTooLong(n);
      return Some(JumpTooFar), near, c, t, n';
    }
    failure, near', c', t', n' := ReserveSized(asm, pages, freeList, calls, i, near, size.value, c, t, n);
  }

  method ReserveSized(ghost asm: Generators, pages: PageMap, freeList: array<Range>, calls: seq<SysCall>, i: nat,
                      near: map<nat, nat>, size: nat, ghost c: Claim, ghost t: Search, ghost n: Nears)
    returns (failure: Option<Failure>, near': map<nat, nat>, ghost c': Claim, ghost t': Search, ghost n': Nears)
    requires pages.Valid() && freeList !in pages.Repr && Tracks(t, c, pages, freeList)
    requires i < |calls| && n == NearState(c.plan, asm, calls, near, t, i, None) && calls[i].addr !in near
    requires SizeOf(Some(size), asm, calls[i].alterRd)
    modifies pages.Repr, freeList
    ensures pages.Valid() && fresh(pages.Repr - old(pages.Repr)) && Tracks(t', c', pages, freeList)
    ensures c'.img0 == c.img0 && Root(t') == Root(t)
    ensures n' == NearState(c'.plan, asm, calls, near', t', i + 1, failure)
  {
    NextNear(c, n);
    var site := calls[i].addr;
    var got;
    got, c', t' := ReserveSlot(pages, freeList, site, size, Near(site), c, t);
    failure, near' := None, near;
    if got.Reserved? {
      near' := near[site := got.addr];
      n' := NearAdded(n, t', site, Block(got.addr, Zeros(size)));
    } else {
      failure := Some(NoHole(got));
      n' := NearRefused(n, t');
    }
  }

  /** The next call has no near block yet, and its body is longer than a jump. */
  lemma NearTooLong(n: Nears) returns (n': Nears)
    requires n.failure.None? && n.i < |n.calls| && n.calls[n.i].addr !in n.near
    requires TooLong(n.asm, Some(0), n.calls[n.i].alterRd)
    ensures n' == n.(i := n.i + 1, failure := Some(JumpTooFar))
  {
    NextIsTooLong(n);
    n' := n.(i := n.i + 1, failure := Some(JumpTooFar));
  }

  lemma NextIsTooLong(n: Nears)
    requires n.failure.None? && n.i < |n.calls| && n.calls[n.i].addr !in n.near
    requires TooLong(n.asm, Some(0), n.calls[n.i].alterRd)
    ensures NextTooLong(n.t, n.asm, n.calls)
  {
    assert n.calls[..n.i + 1][..n.i] == n.calls[..n.i];
    assert WantedNears(n.asm, n.calls[..n.i + 1])
      == Requests(n.t) + [Request(n.calls[n.i].addr, NearLength(n.asm, n.calls[n.i].alterRd))];
    WantedPrefix(n.asm, n.calls, n.i + 1);
    FirstOfSite(n.calls, n.i);
  }

  /** The next call's site has its near block already. */
  lemma NearSkipped(n: Nears) returns (n': Nears)
    requires n.failure.None? && n.i < |n.calls| && n.calls[n.i].addr in n.near
    ensures n' == n.(i := n.i + 1)
  {
    CallSkipped(n);
    n' := n.(i := n.i + 1);
  }

  lemma CallSkipped(n: Nears)
    requires n.failure.None? && n.i < |n.calls| && n.calls[n.i].addr in n.near
    ensures PlanUpTo(n.plan, n.asm, n.calls, n.near, n.i + 1) && TraceUpTo(n.t, n.asm, n.calls, n.near, n.i + 1)
  {
    SitesUpTo(n.calls, n.i);
    assert Sites(n.calls[..n.i + 1]) == Sites(n.calls[..n.i]);
    assert n.calls[..n.i + 1][..n.i] == n.calls[..n.i];
  }

  /** The request for call i, whose site is new, has been answered. */
  ghost predicate NextRequest(n: NearState, t: Trace) {
    && n.failure.None? && n.i < |n.calls| && n.calls[n.i].addr !in n.near
    && t.Step? && t.prev == n.t
    && t.request == Request(n.calls[n.i].addr, NearLength(n.asm, n.calls[n.i].alterRd))
  }

  lemma NextIsWanted(n: NearState, t: Trace)
    requires NextRequest(n, t) && PlanUpTo(n.plan, n.asm, n.calls, n.near, n.i)
      && TraceUpTo(n.t, n.asm, n.calls, n.near, n.i)
    ensures Requests(t) == WantedNears(n.asm, n.calls[..n.i + 1])
  {
    assert n.calls[..n.i + 1][..n.i] == n.calls[..n.i];
  }

  lemma NearRefused(n: Nears, t: Trace) returns (n': Nears)
    requires NextRequest(n, t) && !t.result.Reserved?
    ensures n' == n.(t := t, i := n.i + 1, failure := Some(NoHole(t.result)))
  {
    NextIsWanted(n, t);
    WantedPrefix(n.asm, n.calls, n.i + 1);
    n' := n.(t := t, i := n.i + 1, failure := Some(NoHole(t.result)));
  }

  lemma NearAdded(n: Nears, t: Trace, site: nat, b: Block) returns (n': Nears)
    requires NextRequest(n, t) && t.result == Reserved(b.addr) && site == t.request.base && site in Sites(n.calls)
    requires b == Block(b.addr, Zeros(NearLength(n.asm, FirstRd(n.calls, site))))
    requires !TooLong(n.asm, Some(0), FirstRd(n.calls, site))
    ensures n' == NearState(n.plan[Near(site) := b], n.asm, n.calls, n.near[site := b.addr], t, n.i + 1, None)
  {
    var plan', near' := n.plan[Near(site) := b], n.near[site := b.addr];
    NearPlanned(n.plan, n.asm, n.calls, n.near, n.i, site, b, plan', near');
    NextIsWanted(n, t);
    NearTraced(n.t, t, n.asm, n.calls, n.near, n.i, near');
    n' := NearsAt(plan', n.asm, n.calls, near', t, n.i + 1);
  }

  lemma NearTraced(t: Trace, t': Trace, asm: Generators, calls: seq<SysCall>, near: map<nat, nat>, i: nat,
                   near': map<nat, nat>)
    requires i < |calls| && TraceUpTo(t, asm, calls, near, i) && t'.Step? && t'.prev == t && t'.result.Reserved?
    requires Requests(t') == WantedNears(asm, calls[..i + 1]) && near' == near[t'.request.base := t'.result.addr]
    ensures TraceUpTo(t', asm, calls, near', i + 1)
  {
  }

  lemma NearPlanned(plan: Plan, asm: Generators, calls: seq<SysCall>, near: map<nat, nat>, i: nat, site: nat, b: Block,
                    plan': Plan, near': map<nat, nat>)
    requires i < |calls| && PlanUpTo(plan, asm, calls, near, i) && site == calls[i].addr && site in Sites(calls)
    requires b == Block(b.addr, Zeros(NearLength(asm, FirstRd(calls, site))))
    requires !TooLong(asm, Some(0), FirstRd(calls, site))
    requires plan' == plan[Near(site) := b] && near' == near[site := b.addr]
    ensures PlanUpTo(plan', asm, calls, near', i + 1)
  {
    SitesUpTo(calls, i);
    OneMoreNear(plan, asm, calls, near, site, b);
    assert near'.Keys == near.Keys + {site};
  }

  lemma OneMoreNear(plan: Plan, asm: Generators, calls: seq<SysCall>, near: map<nat, nat>, site: nat, b: Block)
    requires NearsReserved(plan, asm, calls, near) && site in Sites(calls)
    requires b == Block(b.addr, Zeros(NearLength(asm, FirstRd(calls, site))))
    requires !TooLong(asm, Some(0), FirstRd(calls, site))
    ensures NearsReserved(plan[Near(site) := b], asm, calls, near[site := b.addr])
  {
    TrapsKept(plan, Sites(calls), site, b);
    NearAlsoIn(plan, asm, calls, near, site, b);
  }

  lemma TrapsKept(plan: Plan, sites: set<nat>, site: nat, b: Block)
    requires TrapsIn(plan, sites)
    ensures TrapsIn(plan[Near(site) := b], sites)
  {
    forall a | a in sites ensures plan[Near(site) := b][Trap(a)] == Block(a, Zeros(4)) {
      assert Trap(a) in plan;
    }
  }

  lemma NearAlsoIn(plan: Plan, asm: Generators, calls: seq<SysCall>, near: map<nat, nat>, site: nat, b: Block)
    requires NearsIn(plan, asm, calls, near) && b == Block(b.addr, Zeros(NearLength(asm, FirstRd(calls, site))))
    requires !TooLong(asm, Some(0), FirstRd(calls, site))
    ensures NearsIn(plan[Near(site) := b], asm, calls, near[site := b.addr])
  {
    var plan', near' := plan[Near(site) := b], near[site := b.addr];
    forall a | a in near' ensures plan'[Near(a)] == Block(near'[a], Zeros(NearLength(asm, FirstRd(calls, a)))) {
      assert a != site ==> Near(a) in plan && plan'[Near(a)] == plan[Near(a)];
    }
  }

  ghost predicate SizeOf(size: Option<nat>, asm: Generators, rd: Option<nat>) {
    match size
    case None => TooLong(asm, Some(0), rd)
    case Some(n) => !TooLong(asm, Some(0), rd) && n == NearLength(asm, rd) && n % 2 == 0
  }

  /** The size of a near call, from generating one for address zero; jump asserts its range there too. */
  method NearSize(asm: Assembly, rd: Option<nat>) returns (r: Option<nat>)
    ensures SizeOf(r, asm, rd)
  {
    var body := asm.nearBody(0, Some(0), rd);
    if !JumpInRange(-|body|) {
      return None;
    }
    r := Some(|asm.NearCode(0, 0, 0, Some(0), rd)|);
  }

  /** Call i is the first at its site, and the site is marked. */
  lemma NextNear(c: Claim, n: Nears)
    requires n.failure.None? && n.plan == c.plan && n.i < |n.calls| && n.calls[n.i].addr !in n.near
    ensures
      var site := n.calls[n.i].addr;
      FirstRd(n.calls, site) == n.calls[n.i].alterRd
      && c.img.marked(site) && Near(site) !in c.plan && site in Sites(n.calls)
  {
    var site := n.calls[n.i].addr;
    FirstOfSite(n.calls, n.i);
    assert In(site, c.plan[Trap(site)]);
  }

  // ----- the entry and far calls -----

  /** The addresses process_once chooses. */
  datatype Places = Places(near: map<nat, nat>, entry: nat, far: nat, regs: nat)

  /** The third step: the entry and far calls, both near the entry point. */
  method ReserveCalls(asm: Assembly, pages: PageMap, freeList: array<Range>, entryPc: nat, ghost c: Claim,
                      ghost t: Search)
    returns (r: Result<(nat, nat), Failure>, ghost c': Claim, ghost t': Search)
    requires c.img0.marked(entryPc) && Entry !in c.plan && Far !in c.plan
    requires pages.Valid() && freeList !in pages.Repr && Tracks(t, c, pages, freeList)
    modifies pages.Repr, freeList
    ensures pages.Valid() && fresh(pages.Repr - old(pages.Repr))
    ensures c'.img0 == c.img0 && c'.img == pages.Img() == t'.last.img
    ensures CallsSet(r, c.plan, c'.plan, t, t', asm, entryPc)
  {
    var body := asm.nearBody(0, None, None);
    if !JumpInRange(-|body|) {
      r, c', t' := Err(JumpTooFar), c, t;
    } else {
      r, c', t' := ReserveBoth(pages, freeList, entryPc, |asm.NearCode(0, 0, 0, None, None)|, |asm.far(0, 0)|, c, t);
    }
  }

  /** What ReserveCalls returns: the two addresses, with their blocks in the plan, or why there are none. */
  ghost predicate CallsSet(r: Result<(nat, nat), Failure>, plan: Plan, plan': Plan, t: Trace, t': Trace,
                           asm: Generators, entryPc: nat) {
    match r
    case Err(JumpTooFar) => t' == t && TooLong(asm, None, None)
    case _ =>
      && !TooLong(asm, None, None)
      && BothSet(r, plan, plan', t, t', WantedCalls(asm, entryPc)[0], WantedCalls(asm, entryPc)[1])
  }

  /** Two requests near the same base, for the entry and far calls. */
  method ReserveBoth(pages: PageMap, freeList: array<Range>, base: nat, entrySize: nat, farSize: nat,
                     ghost c: Claim, ghost t: Search)
    returns (r: Result<(nat, nat), Failure>, ghost c': Claim, ghost t': Search)
    requires c.img0.marked(base) && Entry !in c.plan && Far !in c.plan && entrySize % 2 == 0 && farSize % 2 == 0
    requires pages.Valid() && freeList !in pages.Repr && Tracks(t, c, pages, freeList)
    modifies pages.Repr, freeList
    ensures pages.Valid() && fresh(pages.Repr - old(pages.Repr))
    ensures c'.img0 == c.img0 && c'.img == pages.Img() == t'.last.img
    ensures BothSet(r, c.plan, c'.plan, t, t', Request(base, entrySize), Request(base, farSize))
  {
    var entry;
    ghost var c1, t1;
    entry, c1, t1 := ReserveSlot(pages, freeList, base, entrySize, Entry, c, t);
    r, c', t' := ReserveFar(pages, freeList, base, entry, farSize, c1, t1);
  }

  /** The second of them, if the first was granted. */
  method ReserveFar(pages: PageMap, freeList: array<Range>, base: nat, entry: Reservation, size: nat,
                    ghost c: Claim, ghost t: Search)
    returns (r: Result<(nat, nat), Failure>, ghost c': Claim, ghost t': Search)
    requires c.img0.marked(base) && Far !in c.plan && size % 2 == 0
    requires pages.Valid() && freeList !in pages.Repr && Tracks(t, c, pages, freeList)
    modifies pages.Repr, freeList
    ensures pages.Valid() && fresh(pages.Repr - old(pages.Repr))
    ensures c'.img0 == c.img0 && c'.img == pages.Img() == t'.last.img
    ensures FarSet(r, entry, c.plan, c'.plan, t, t', Request(base, size))
  {
    if !entry.Reserved? {
      return Err(NoHole(entry)), c, t;
    }
    var far;
    far, c', t' := ReserveSlot(pages, freeList, base, size, Far, c, t);
    r := if far.Reserved? then Ok((entry.addr, far.addr)) else Err(NoHole(far));
  }

  /** After the first request has been answered: the second is granted as well, or one of them was refused. */
  ghost predicate FarSet(r: Result<(nat, nat), Failure>, entry: Reservation, plan: Plan, plan': Plan, t: Trace,
                         t': Trace, q: Request) {
    match r
    case Ok(at) =>
      && entry == Reserved(at.0) && t' == Step(t, q, Reserved(at.1), t'.last)
      && plan' == plan[Far := Block(at.1, Zeros(q.size))]
    case Err(f) =>
      f.NoHole? && !f.reservation.Reserved? &&
      if entry.Reserved? then t' == Step(t, q, f.reservation, t'.last) else f.reservation == entry && t' == t
  }

  /** The two requests were granted, and the plan has their blocks; or one of them was refused. */
  ghost predicate BothSet(r: Result<(nat, nat), Failure>, plan: Plan, plan': Plan, t: Trace, t': Trace,
                          q0: Request, q1: Request) {
    match r
    case Ok(at) =>
      && t'.Step? && t'.prev.Step?
      && t' == Step(Step(t, q0, Reserved(at.0), t'.prev.last), q1, Reserved(at.1), t'.last)
      && plan' == plan[Entry := Block(at.0, Zeros(q0.size))][Far := Block(at.1, Zeros(q1.size))]
    case Err(f) => f.NoHole? && !f.reservation.Reserved? && BothRefused(f.reservation, t, t', q0, q1)
  }

  ghost predicate BothRefused(r: Reservation, t: Trace, t': Trace, q0: Request, q1: Request) {
    || t' == Step(t, q0, r, t'.last)
    || (t'.Step? && t'.prev.Step? && t'.prev.result.Reserved?
        && t' == Step(Step(t, q0, t'.prev.result, t'.prev.last), q1, r, t'.last))
  }

  ghost function WithCalls(plan: Plan, asm: Generators, entry: nat, far: nat): Plan {
    plan[Entry := Block(entry, Zeros(|asm.NearCode(0, 0, 0, None, None)|))][Far := Block(far, Zeros(|asm.far(0, 0)|))]
  }

  /** The plan has a trap and a near block for each site, and blocks for the entry and far calls. */
  ghost predicate AllReserved(plan: Plan, asm: Generators, calls: seq<SysCall>, p: Places) {
    && NearsReserved(plan - {Entry, Far}, asm, calls, p.near) && p.near.Keys == Sites(calls)
    && Entry in plan && plan[Entry] == Block(p.entry, Zeros(|asm.NearCode(0, 0, 0, None, None)|))
    && Far in plan && plan[Far] == Block(p.far, Zeros(|asm.far(0, 0)|)) && !TooLong(asm, None, None)
  }

  // ----- the whole search -----

  /** The places are those handed out for the near calls, the entry call and the far call. */
  ghost predicate PlacesFrom(t: Trace, asm: Generators, calls: seq<SysCall>, entryPc: nat, p: Places) {
    && Granted(t) && Requests(t) == WantedNears(asm, calls) + WantedCalls(asm, entryPc)
    && t.Step? && t.prev.Step? && Blocks(t.prev.prev) == p.near
    && t.prev.result == Reserved(p.entry) && t.result == Reserved(p.far)
  }

  datatype OriginState = OriginState(img0: Image, calls: seq<SysCall>, root: HoleState)

  const NO_ORIGIN := OriginState(NO_PAGES.image, [], NO_HOLES)

  /** Where the search starts. */
  type Origin = o: OriginState | OriginOk(o) ghost witness NO_ORIGIN

  /** The complete free list of the pages on which the traps have been marked. */
  ghost predicate OriginOk(o: OriginState) {
    Complete(o.root) && SitesMarked(o.img0, o.calls, o.root.img)
  }

  /** All that the marking of the sites does to the image. */
  ghost predicate SitesMarked(img0: Image, calls: seq<SysCall>, img: Image) {
    SetAside(TrapPlan(Sites(calls)), img0, img) && img.pages == img0.pages + SitePages(Sites(calls))
  }

  ghost predicate FromHoles(t: Trace, img0: Image, calls: seq<SysCall>) {
    OriginOk(OriginState(img0, calls, Root(t)))
  }

  /** Sets space aside for every trampoline. */
  method SetTrampolines(asm: Assembly, pages: PageMap, calls: seq<SysCall>, entryPc: nat)
    returns (r: Result<Places, Failure>, ghost c: Claim, ghost t: Search, ghost o: Origin)
    requires pages.Valid() && Spaced(calls) && pages.Img().marked(entryPc)
    modifies pages.Repr
    ensures pages.Valid() && fresh(pages.Repr - old(pages.Repr))
    ensures c.img0 == old(pages.Img()) && c.img == pages.Img() == t.last.img
    ensures o == OriginState(old(pages.Img()), calls, Root(t))
    ensures TrampolinesSet(r, c.plan, t, asm, calls, entryPc)
  {
    ghost var c0, t0;
    var freeList;
    c0 := MarkSites(pages, calls);
    freeList, t0 := FindHoles(pages);
    o := OriginState(c0.img0, calls, t0.last);
    r, c, t := SetNears(asm, pages, freeList, calls, entryPc, c0, t0);
  }

  /** The near calls, then the entry and far calls. */
  method SetNears(asm: Assembly, pages: PageMap, freeList: array<Range>, calls: seq<SysCall>, entryPc: nat,
                  ghost c0: Claim, ghost t0: Search)
    returns (r: Result<Places, Failure>, ghost c: Claim, ghost t: Search)
    requires pages.Valid() && freeList !in pages.Repr && Tracks(t0, c0, pages, freeList) && t0.Start?
    requires c0.plan == TrapPlan(Sites(calls)) && c0.img0.marked(entryPc)
    modifies pages.Repr, freeList
    ensures pages.Valid() && fresh(pages.Repr - old(pages.Repr))
    ensures c.img0 == c0.img0 && c.img == pages.Img() == t.last.img && Root(t) == t0.last
    ensures TrampolinesSet(r, c.plan, t, asm, calls, entryPc)
  {
    var nears;
    ghost var c1, t1, n;
    nears, c1, t1, n := ReserveNears(asm, pages, freeList, calls, c0, t0);
    r, c, t := SetCalls(asm, pages, freeList, calls, entryPc, nears, c1, t1, n);
  }

  /**
   * Every request was granted, the places are those handed out and the plan has their blocks; or the search
   * was stuck.
   */
  ghost predicate TrampolinesSet(r: Result<Places, Failure>, plan: Plan, t: Trace, asm: Generators, calls: seq<SysCall>,
                                 entryPc: nat) {
    match r
    case Ok(p) => AllReserved(plan, asm, calls, p) && PlacesFrom(t, asm, calls, entryPc, p)
    case Err(f) => Stuck(f, t, asm, calls, WantedNears(asm, calls) + WantedCalls(asm, entryPc))
  }

  /** The entry and far calls, if all near calls were granted. */
  method SetCalls(asm: Assembly, pages: PageMap, freeList: array<Range>, calls: seq<SysCall>, entryPc: nat,
                  nears: Result<map<nat, nat>, Failure>, ghost c: Claim, ghost t: Search, ghost n: Nears)
    returns (r: Result<Places, Failure>, ghost c': Claim, ghost t': Search)
    requires pages.Valid() && freeList !in pages.Repr && Tracks(t, c, pages, freeList) && c.img0.marked(entryPc)
    requires NearsSet(nears, c, t, n, asm, calls)
    modifies pages.Repr, freeList
    ensures pages.Valid() && fresh(pages.Repr - old(pages.Repr))
    ensures c'.img0 == c.img0 && c'.img == pages.Img() == t'.last.img && Root(t') == Root(t)
    ensures TrampolinesSet(r, c'.plan, t', asm, calls, entryPc)
  {
    if nears.Err? {
      r, c', t' := Err(nears.error), c, t;
      StuckEarly(nears.error, t, asm, calls, entryPc);
    } else {
      NoCallsYet(n);
      var ends;
      ends, c', t' := ReserveCalls(asm, pages, freeList, entryPc, c, t);
      r := if ends.Ok? then Ok(Places(nears.value, ends.value.0, ends.value.1, 0)) else Err(ends.error);
      CallsAreSet(ends, r, n, c'.plan, t', entryPc);
    }
  }

  lemma NoCallsYet(n: Nears)
    requires n.failure.None?
    ensures Entry !in n.plan && Far !in n.plan
  {
  }

  lemma CallsAreSet(ends: Result<(nat, nat), Failure>, r: Result<Places, Failure>, n: Nears, plan: Plan, t: Trace,
                    entryPc: nat)
    requires n.failure.None? && n.i == |n.calls| && CallsSet(ends, n.plan, plan, n.t, t, n.asm, entryPc)
    requires r == if ends.Ok? then Ok(Places(n.near, ends.value.0, ends.value.1, 0)) else Err(ends.error)
    ensures TrampolinesSet(r, plan, t, n.asm, n.calls, entryPc) && Root(t) == Root(n.t)
  {
    assert n.calls[..|n.calls|] == n.calls;
    match r {
      case Ok(p) =>
        AllGranted(n.t, t, n.asm, n.calls, entryPc, p);
        CallsAreReserved(n.plan, n.asm, n.calls, p);
      case Err(NoHole(refusal)) =>
        RefusedIsStuck(refusal, n.t, t, n.asm, n.calls, entryPc);
      case Err(JumpTooFar) =>
    }
  }

  lemma CallsAreReserved(plan: Plan, asm: Generators, calls: seq<SysCall>, p: Places)
    requires NearsReserved(plan, asm, calls, p.near) && p.near.Keys == Sites(calls) && !TooLong(asm, None, None)
    ensures AllReserved(WithCalls(plan, asm, p.entry, p.far), asm, calls, p)
  {
    assert WithCalls(plan, asm, p.entry, p.far) - {Entry, Far} == plan;
  }

  lemma StuckEarly(f: Failure, t: Trace, asm: Generators, calls: seq<SysCall>, entryPc: nat)
    requires Stuck(f, t, asm, calls, WantedNears(asm, calls))
    ensures Stuck(f, t, asm, calls, WantedNears(asm, calls) + WantedCalls(asm, entryPc))
  {
  }

  lemma AllGranted(t: Trace, t': Trace, asm: Generators, calls: seq<SysCall>, entryPc: nat, p: Places)
    requires Granted(t) && Requests(t) == WantedNears(asm, calls) && Blocks(t) == p.near
    requires t'.Step? && t'.prev == Step(t, WantedCalls(asm, entryPc)[0], Reserved(p.entry), t'.prev.last)
    requires t' == Step(t'.prev, WantedCalls(asm, entryPc)[1], Reserved(p.far), t'.last)
    ensures PlacesFrom(t', asm, calls, entryPc, p) && Root(t') == Root(t)
  {
    assert Requests(t') == WantedNears(asm, calls) + WantedCalls(asm, entryPc);
  }

  lemma RefusedIsStuck(r: Reservation, t: Trace, t': Trace, asm: Generators, calls: seq<SysCall>, entryPc: nat)
    requires Granted(t) && Requests(t) == WantedNears(asm, calls) && !r.Reserved?
    requires BothRefused(r, t, t', WantedCalls(asm, entryPc)[0], WantedCalls(asm, entryPc)[1])
    ensures LastRefused(t', r, WantedNears(asm, calls) + WantedCalls(asm, entryPc)) && Root(t') == Root(t)
  {
    var wanted := WantedCalls(asm, entryPc);
    if t'.prev == t {
      assert Requests(t') == WantedNears(asm, calls) + wanted[..1];
    } else {
      assert Requests(t') == WantedNears(asm, calls) + wanted;
    }
  }

  /** The free list of the pages, in an array that reserve updates in place. */
  method FindHoles(pages: PageMap) returns (freeList: array<Range>, ghost t: Search)
    requires pages.Valid()
    ensures fresh(freeList) && freeList !in pages.Repr
    ensures t == Start(HoleState(pages.Img(), freeList[..])) && Complete(t.last)
  {
    var list := pages.MakeFreeList();
    freeList := new Range[|list|](i requires 0 <= i < |list| => list[i]);
    assert freeList[..] == list;
    t := Start(HoleState(pages.Img(), list));
  }
}
