// The places of a settled search: what was asked of reserve for each of them, and where the stack goes.
module SettledPlaces {
  import opened Bytes
  import opened Checkpoints
  import opened FreeLists
  import opened Images
  import opened InstalledImages
  import opened Layouts
  import opened ReplayTables
  import opened Trampolines

  /** The last two requests are for the entry call and the far call, both near the entry point. */
  lemma CallsRequested(t: Trace, x: Inputs, p: Places)
    requires Settled(t, x, p)
    ensures t.Step? && t.result == Reserved(p.far) && t.request == Request(x.entryPc, |x.asm.far(0, 0)|)
    ensures t.prev.Step? && t.prev.result == Reserved(p.entry)
      && t.prev.request == Request(x.entryPc, |x.asm.nearBody(0, None, None)| + 4)
  {
    var nears, calls := WantedNears(x.asm, x.calls), WantedCalls(x.asm, x.entryPc);
    var first := Requests(t.prev.prev);
    assert Requests(t) == first + [t.prev.request] + [t.request];
    LastTwo(first, t.prev.request, t.request, nears, calls[0], calls[1]);
  }

  lemma LastTwo(a: seq<Request>, q: Request, r: Request, b: seq<Request>, q': Request, r': Request)
    requires a + [q] + [r] == b + [q', r']
    ensures a == b && q == q' && r == r'
  {
    var all := a + [q] + [r];
    assert |a| == |b| && all[|a|] == q && all[|a| + 1] == r && all[|b|] == q' && all[|b| + 1] == r';
    assert all[..|a|] == a && all[..|b|] == b;
  }

  /** The step of the run that asks for a block at base. */
  ghost predicate Asked(u: Trace, t: Trace, base: nat, size: nat, addr: nat) {
    Earlier(u, t) && u.Step? && u.request == Request(base, size) && u.result == Reserved(addr)
  }

  /** The near call of a site was asked for near the site, with the length that the first call there needs. */
  lemma NearRequested(t: Trace, x: Inputs, p: Places, i: nat) returns (u: Trace)
    requires Settled(t, x, p) && FirstAtSite(x.calls, i)
    ensures x.calls[i].addr in p.near
    ensures Asked(u, t, x.calls[i].addr, |x.asm.nearBody(0, Some(0), x.calls[i].alterRd)| + 4, p.near[x.calls[i].addr])
  {
    CallsRequested(t, x, p);
    var first, site := t.prev.prev, x.calls[i].addr;
    var nears := WantedNears(x.asm, x.calls);
    assert Requests(t) == Requests(first) + [t.prev.request] + [t.request];
    LastTwo(Requests(first), t.prev.request, t.request, nears, WantedCalls(x.asm, x.entryPc)[0],
            WantedCalls(x.asm, x.entryPc)[1]);
    FirstIsNew(x.calls, i);
    var k := SiteWanted(x.asm, x.calls, i);
    NearsOnce(x.asm, x.calls);
    assert Granted(t.prev);
    u := BlockAsked(first, nears, k);
    assert Earlier(u, t.prev);
  }

  lemma {:induction false} SiteWanted(asm: Generators, calls: seq<SysCall>, i: nat) returns (k: nat)
    requires FirstAtSite(calls, i)
    ensures k < |WantedNears(asm, calls)|
      && WantedNears(asm, calls)[k] == Request(calls[i].addr, NearLength(asm, calls[i].alterRd))
  {
    var init := calls[..|calls| - 1];
    if i < |calls| - 1 {
      assert init[i] == calls[i];
      k := SiteWanted(asm, init, i);
    } else {
      FirstIsNew(calls, i);
      k := |WantedNears(asm, init)|;
    }
  }

  /** No two requests for near calls have the same base. */
  ghost predicate Once(wanted: seq<Request>) {
    forall j, k :: 0 <= j < k < |wanted| ==> wanted[j].base != wanted[k].base
  }

  lemma {:induction false} NearsOnce(asm: Generators, calls: seq<SysCall>)
    ensures Once(WantedNears(asm, calls))
    ensures forall q :: q in WantedNears(asm, calls) ==> q.base in Sites(calls)
  {
    if calls != [] {
      NearsOnce(asm, calls[..|calls| - 1]);
    }
  }

  /** A block handed out for a base that no later request has. */
  lemma {:induction false} BlockAsked(t: Trace, wanted: seq<Request>, k: nat) returns (u: Trace)
    requires Granted(t) && Requests(t) == wanted && Once(wanted) && k < |wanted|
    ensures wanted[k].base in Blocks(t)
    ensures Asked(u, t, wanted[k].base, wanted[k].size, Blocks(t)[wanted[k].base])
  {
    var n := |wanted| - 1;
    assert Requests(t.prev) == wanted[..n] && wanted[n] == t.request;
    if k == n {
      u := t;
    } else {
      assert Once(wanted[..n]);
      u := BlockAsked(t.prev, wanted[..n], k);
    }
  }

  /**
   * The replay stack starts a page, and no page that holds a byte of it exists before; with all pages from 0x10 on
   * there is no lower such place. It has 536 bytes beside the table.
   */
  lemma StackPlaced(t: Trace, x: Inputs, p: Places) returns (n: nat)
    requires Settled(t, x, p)
    ensures p.regs % 4096 == 0 && 4096 * n - 4096 < 536 + |x.table| <= 4096 * n
    ensures forall pn :: p.regs / 4096 <= pn < p.regs / 4096 + n ==> pn !in t.last.img.pages
    ensures (forall pn :: pn in t.last.img.pages ==> 0x10 <= pn) ==>
      0x10_000 <= p.regs && forall q: nat :: 0x10 <= q < p.regs / 4096 ==> Blocked(t.last.img.pages, q, n)
  {
    var pages, size := t.last.img.pages, StackSize(x.table);
    n := PagesNeeded(size);
    PagesNeededLeast(size);
    BaseIsProduct(PageOf(p.regs));
  }

  /** No call is too long exactly if a jump over the body of each reaches back. */
  lemma BodiesFit(x: Inputs)
    ensures NoneTooLong(x) <==>
      && |x.asm.nearBody(0, None, None)| <= 0x10_0000
      && forall i: nat :: FirstAtSite(x.calls, i) ==> |x.asm.nearBody(0, Some(0), x.calls[i].alterRd)| <= 0x10_0000
  {
    forall i: nat | FirstAtSite(x.calls, i)
      ensures x.calls[i].addr in Sites(x.calls) && FirstRd(x.calls, x.calls[i].addr) == x.calls[i].alterRd {
      FirstIsNew(x.calls, i);
      FirstOfSite(x.calls, i);
    }
    if forall i: nat :: FirstAtSite(x.calls, i) ==> |x.asm.nearBody(0, Some(0), x.calls[i].alterRd)| <= 0x10_0000 {
      forall a | a in Sites(x.calls) ensures !TooLong(x.asm, Some(0), FirstRd(x.calls, a)) {
        var i := FirstCallAt(x.calls, a);
        assert |x.asm.nearBody(0, Some(0), x.calls[i].alterRd)| <= 0x10_0000;
      }
    }
  }
}
