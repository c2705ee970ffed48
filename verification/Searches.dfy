// What reserve leaves open: nothing. The searches for space from one image agree in all their answers.
module SearchRuns {
  import opened FreeLists
  import opened Images
  import opened Layouts
  import opened ReplayTables
  import opened Trampolines

  // ----- one answer -----

  lemma OneChosen(list: seq<Range>, j: int, k: int, base: nat, size: nat)
    requires Chosen(list, j, base, size) && Chosen(list, k, base, size)
    ensures j == k
  {
    assert Preferred(list, j, k, base) && Preferred(list, k, j, base);
  }

  /** The free list and the request determine the answer and what is left of the list. */
  lemma OneAnswer(h: HoleState, h1: HoleState, h': HoleState, h1': HoleState, q: Request, r: Reservation,
                  r1: Reservation)
    requires ReserveStep(h, h', q, r) && ReserveStep(h1, h1', q, r1) && h.list == h1.list
    ensures r == r1 && h'.list == h1'.list
    ensures h.img.pages == h1.img.pages ==> h'.img.pages == h1'.img.pages
  {
    GrantedFits(h, h', q, r);
    GrantedFits(h1, h1', q, r1);
    if r.Reserved? {
      var j :| Chosen(h.list, j, q.base, q.size) && CutFrom(h.list, h'.list, j, q.base, q.size, r.addr);
      var k :| Chosen(h.list, k, q.base, q.size) && CutFrom(h.list, h1'.list, k, q.base, q.size, r1.addr);
      OneChosen(h.list, j, k, q.base, q.size);
    }
  }

  lemma GrantedFits(h: HoleState, h': HoleState, q: Request, r: Reservation)
    requires ReserveStep(h, h', q, r)
    ensures r.Reserved? <==> exists k :: Fits(h.list, k, q.size)
  {
    if r.Reserved? {
      var k :| Chosen(h.list, k, q.base, q.size);
      assert Fits(h.list, k, q.size);
    }
  }

  function Results(t: Trace): seq<Reservation> {
    if t.Start? then [] else Results(t.prev) + [t.result]
  }

  lemma {:induction false} RunsAgree(t: Trace, u: Trace)
    requires TraceOk(t) && TraceOk(u) && Root(t).list == Root(u).list && Requests(t) == Requests(u)
    ensures Results(t) == Results(u) && t.last.list == u.last.list
    ensures Root(t).img.pages == Root(u).img.pages ==> t.last.img.pages == u.last.img.pages
  {
    if t.Step? {
      LastRequest(t, u);
      RunsAgree(t.prev, u.prev);
      OneAnswer(t.prev.last, u.prev.last, t.last, u.last, t.request, t.result, u.result);
    }
  }

  lemma LastRequest(t: Trace, u: Trace)
    requires t.Step? && Requests(t) == Requests(u)
    ensures u.Step? && t.request == u.request && Requests(t.prev) == Requests(u.prev)
    ensures Results(t) == Results(u) ==> t.result == u.result && Results(t.prev) == Results(u.prev)
  {
    assert u.Step?;
    assert Requests(t)[..|Requests(t)| - 1] == Requests(t.prev) && Requests(u)[..|Requests(u)| - 1] == Requests(u.prev);
    assert t.request == Requests(t)[|Requests(t)| - 1] == u.request;
    assert Results(t)[..|Results(t)| - 1] == Results(t.prev) && Results(u)[..|Results(u)| - 1] == Results(u.prev);
    assert t.result == Results(t)[|Results(t)| - 1] && u.result == Results(u)[|Results(u)| - 1];
  }

  lemma {:induction false} SameBlocks(t: Trace, u: Trace)
    requires Requests(t) == Requests(u) && Results(t) == Results(u)
    ensures Blocks(t) == Blocks(u)
  {
    if t.Step? {
      LastRequest(t, u);
      SameBlocks(t.prev, u.prev);
    }
  }

  // ----- one list -----

  /** Every range of one list reaches as far as some range of the other. */
  lemma LastReaches(l: seq<Range>, l': seq<Range>)
    requires Ordered(l) && Maximal(l) && Ordered(l') && l != []
    requires forall a: nat {:trigger InList(l, a)} :: a % 2 == 0 && InList(l, a) ==> InList(l', a)
    ensures l' != [] && l[|l| - 1].hi <= l'[|l'| - 1].hi
  {
    var r := l[|l| - 1];
    assert InList(l, r.hi - 2);
    var k :| 0 <= k < |l'| && l'[k].lo <= r.hi - 2 < l'[k].hi;
    assert k < |l'| - 1 ==> l'[k].hi <= l'[|l'| - 1].lo;
  }

  lemma LastStarts(l: seq<Range>, l': seq<Range>)
    requires Ordered(l) && Maximal(l) && Ordered(l') && Maximal(l') && l != [] && l' != []
    requires forall a: nat {:trigger InList(l, a)} :: a % 2 == 0 && InList(l, a) ==> InList(l', a)
    requires l[|l| - 1].hi == l'[|l'| - 1].hi
    ensures l'[|l'| - 1].lo <= l[|l| - 1].lo
  {
    var r, r' := l[|l| - 1], l'[|l'| - 1];
    if r'.lo >= 2 {
      GapInFront(l');
      InLast(l, r'.lo - 2);
    }
  }

  lemma InLast(l: seq<Range>, a: nat)
    requires l != []
    ensures l[|l| - 1].lo <= a < l[|l| - 1].hi ==> InList(l, a)
  {
  }

  lemma GapInFront(l: seq<Range>)
    requires Ordered(l) && Maximal(l) && l != [] && l[|l| - 1].lo >= 2
    ensures !InList(l, l[|l| - 1].lo - 2)
  {
    forall k | 0 <= k < |l| - 1 ensures l[k].hi < l[|l| - 1].lo - 1 {
      assert l[k].hi < l[|l| - 1].lo;
    }
  }

  /** Lists of the same pairs, each hole in one piece, are the same. */
  lemma {:induction false} SameList(l: seq<Range>, l': seq<Range>)
    requires Ordered(l) && Maximal(l) && Ordered(l') && Maximal(l')
    requires forall a: nat {:trigger InList(l, a)} {:trigger InList(l', a)} ::
      a % 2 == 0 ==> (InList(l, a) <==> InList(l', a))
    ensures l == l'
    decreases |l|
  {
    if l == [] || l' == [] {
      if l != [] {
        LastReaches(l, l');
      }
      if l' != [] {
        LastReaches(l', l);
      }
    } else {
      LastReaches(l, l');
      LastReaches(l', l);
      LastStarts(l, l');
      LastStarts(l', l);
      var n, n' := |l| - 1, |l'| - 1;
      SameFront(l, l');
      SameList(l[..n], l'[..n']);
      assert l == l[..n] + [l[n]] && l' == l'[..n'] + [l'[n']];
    }
  }

  lemma SameFront(l: seq<Range>, l': seq<Range>)
    requires Ordered(l) && Ordered(l') && l != [] && l' != [] && l[|l| - 1] == l'[|l'| - 1]
    requires forall a: nat {:trigger InList(l, a)} {:trigger InList(l', a)} ::
      a % 2 == 0 ==> (InList(l, a) <==> InList(l', a))
    ensures forall a: nat {:trigger InList(l[..|l| - 1], a)} {:trigger InList(l'[..|l'| - 1], a)} ::
      a % 2 == 0 ==> (InList(l[..|l| - 1], a) <==> InList(l'[..|l'| - 1], a))
  {
    forall a: nat | a % 2 == 0 ensures InList(l[..|l| - 1], a) <==> InList(l'[..|l'| - 1], a) {
      InFront(l, a);
      InFront(l', a);
    }
  }

  lemma InFront(l: seq<Range>, a: nat)
    requires Ordered(l) && l != []
    ensures InList(l[..|l| - 1], a) <==> InList(l, a) && a < l[|l| - 1].lo
  {
    var init := l[..|l| - 1];
    if InList(init, a) {
      var k :| 0 <= k < |init| && init[k].lo <= a < init[k].hi;
      assert l[k].lo <= a < l[k].hi && l[k].hi <= l[|l| - 1].lo;
    }
    if InList(l, a) && a < l[|l| - 1].lo {
      var k :| 0 <= k < |l| && l[k].lo <= a < l[k].hi;
      assert init[k].lo <= a < init[k].hi;
    }
  }

  /** The same pages and the same marks. */
  ghost predicate SameMarks(img: Image, img': Image) {
    img.pages == img'.pages && forall a: nat :: img.marked(a) <==> img'.marked(a)
  }

  lemma SameHoles(img: Image, img': Image, a: nat)
    requires SameMarks(img, img') && InHole(img, a)
    ensures InHole(img', a)
  {
    var c: nat :| c <= a && Opens(img, c) && Clear(img, c, a + 2);
    assert MarkBelow(img, c) <==> MarkBelow(img', c);
    assert img.Present(c) <==> img'.Present(c);
    assert Opens(img', c) && Clear(img', c, a + 2);
  }

  /** An image has only one complete list. */
  lemma OneCompleteList(h: HoleState, h': HoleState)
    requires Complete(h) && Complete(h') && SameMarks(h.img, h'.img)
    ensures h.list == h'.list
  {
    forall a: nat | a % 2 == 0 ensures InList(h.list, a) <==> InList(h'.list, a) {
      if InHole(h.img, a) {
        SameHoles(h.img, h'.img, a);
      }
      if InHole(h'.img, a) {
        SameHoles(h'.img, h.img, a);
      }
    }
    SameList(h.list, h'.list);
  }

  // ----- one search -----

  lemma SitesMarkedOnce(img0: Image, calls: seq<SysCall>, img: Image, img': Image)
    requires SitesMarked(img0, calls, img) && SitesMarked(img0, calls, img')
    ensures SameMarks(img, img')
  {
    var plan := TrapPlan(Sites(calls));
    forall a: nat ensures img.marked(a) <==> img'.marked(a) {
      if !Outside(plan, a) {
        var s :| s in plan && In(a, plan[s]);
        assert img.marked(a) && img'.marked(a);
      }
    }
  }

  /** Searches for the trampolines of the same calls in the same image that ask the same get the same answers. */
  lemma SearchIsDetermined(t: Trace, u: Trace, img0: Image, calls: seq<SysCall>)
    requires TraceOk(t) && FromHoles(t, img0, calls) && TraceOk(u) && FromHoles(u, img0, calls)
    requires Requests(t) == Requests(u)
    ensures Results(t) == Results(u) && t.last.list == u.last.list && t.last.img.pages == u.last.img.pages
  {
    SitesMarkedOnce(img0, calls, Root(t).img, Root(u).img);
    OneCompleteList(Root(t), Root(u));
    RunsAgree(t, u);
  }

  /** The part of a run in which the first n requests are answered. */
  lemma {:induction false} UpToRequest(u: Trace, n: nat) returns (v: Trace)
    requires TraceOk(u) && n <= |Requests(u)|
    ensures TraceOk(v) && Requests(v) == Requests(u)[..n] && Root(v) == Root(u) && (Granted(u) ==> Granted(v))
  {
    if n == |Requests(u)| {
      v := u;
      assert Requests(u)[..n] == Requests(u);
    } else {
      v := UpToRequest(u.prev, n);
      assert Requests(u)[..n] == Requests(u.prev)[..n];
    }
  }

  /** So a refusal is final: no search of the same kind can have every request granted. */
  lemma RefusalIsFinal(r: Reservation, t: Trace, u: Trace, img0: Image, calls: seq<SysCall>, wanted: seq<Request>)
    requires TraceOk(t) && FromHoles(t, img0, calls) && TraceOk(u) && FromHoles(u, img0, calls)
    requires LastRefused(t, r, wanted) && Requests(u) == wanted
    ensures !Granted(u)
  {
    var v := UpToRequest(u, |Requests(t)|);
    SearchIsDetermined(t, v, img0, calls);
    assert t.result == Results(t)[|Results(t)| - 1];
    assert v.result == Results(v)[|Results(v)| - 1];
  }

  /** The places found are the only ones. */
  lemma OnePlace(t: Trace, u: Trace, img0: Image, asm: Generators, calls: seq<SysCall>, entryPc: nat, p: Places,
                 p': Places)
    requires TraceOk(t) && FromHoles(t, img0, calls) && TraceOk(u) && FromHoles(u, img0, calls)
    requires PlacesFrom(t, asm, calls, entryPc, p) && PlacesFrom(u, asm, calls, entryPc, p')
    ensures p.near == p'.near && p.entry == p'.entry && p.far == p'.far && t.last.img.pages == u.last.img.pages
  {
    SearchIsDetermined(t, u, img0, calls);
    LastRequest(t, u);
    LastRequest(t.prev, u.prev);
    SameBlocks(t.prev.prev, u.prev.prev);
  }

  /** A request for a near block is for a site. */
  lemma {:induction false} WantedIsSite(asm: Generators, calls: seq<SysCall>, k: nat)
    requires k < |WantedNears(asm, calls)|
    ensures WantedNears(asm, calls)[k].base in Sites(calls)
  {
    var init := calls[..|calls| - 1];
    if k < |WantedNears(asm, init)| {
      WantedIsSite(asm, init, k);
    }
  }
}
