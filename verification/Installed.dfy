// What an installed plan puts where, slot by slot: registers, buffer, trampolines and their jumps.
module InstalledImages {
  import opened Bytes
  import opened Checkpoints
  import opened Images
  import opened Layouts
  import opened ReplayTables
  import opened Trampolines

  /** The image holds data at addr. */
  ghost predicate Held(img: Image, addr: nat, data: seq<byte>) {
    forall a: nat :: addr <= a < addr + |data| ==> img.bytes(a) == data[a - addr] && img.marked(a)
  }

  lemma HeldSlot(plan: Plan, x: Inputs, p: Places, img0: Image, img: Image, s: Slot, addr: nat, data: seq<byte>)
    requires Installed(plan, x, p, img0, img) && IsSlot(x.calls, s) && BlockOf(x, p, s) == Block(addr, data)
    ensures Held(img, addr, data)
  {
    SlotHeld(plan, x, p, img0, img, s);
    HeldBlock(img, Block(addr, data));
  }

  lemma HeldBlock(img: Image, b: Block)
    requires BlockHeld(img, b)
    ensures Held(img, b.addr, b.data)
  {
    forall a: nat | b.addr <= a < b.addr + |b.data| ensures img.bytes(a) == b.data[a - b.addr] && img.marked(a) {
      assert In(a, b);
    }
  }

  lemma HeldParts(img: Image, addr: nat, b0: seq<byte>, b1: seq<byte>)
    requires Held(img, addr, b0 + b1)
    ensures Held(img, addr, b0) && Held(img, addr + |b0|, b1)
  {
  }

  // ----- the replay stack -----

  lemma {:induction false} JoinedEights(parts: seq<seq<byte>>, i: nat)
    requires i < |parts| && forall q :: q in parts ==> |q| == 8
    ensures 8 * i + 8 <= |Join(parts)| && Join(parts)[8 * i..8 * i + 8] == parts[i]
  {
    var rest := Join(parts[1..]);
    assert |parts[0]| == 8 && Join(parts) == parts[0] + rest;
    if i > 0 {
      JoinedEights(parts[1..], i - 1);
      assert Join(parts)[8 * i..8 * i + 8] == rest[8 * i - 8..8 * i];
    }
  }

  lemma HeldSlice(img: Image, addr: nat, data: seq<byte>, lo: nat, hi: nat)
    requires lo <= hi <= |data| && Held(img, addr, data)
    ensures Held(img, addr + lo, data[lo..hi])
  {
  }

  /**
   * The register file: the far call's address as register 0, the entry call's as register 10, the others as
   * recorded.
   */
  lemma RegisterHeld(plan: Plan, x: Inputs, p: Places, img0: Image, img: Image, i: nat)
    requires Installed(plan, x, p, img0, img) && i < 64
    ensures Held(img, p.regs + 8 * i, if i == 0 then Le(p.far, 8) else if i == 10 then Le(p.entry, 8) else x.regs[i])
  {
    HeldSlot(plan, x, p, img0, img, Regs, p.regs, Join(x.regs[0 := Le(p.far, 8)][10 := Le(p.entry, 8)]));
    RegisterOf(img, p.regs, x.regs, Le(p.far, 8), Le(p.entry, 8), i);
  }

  lemma RegisterOf(img: Image, addr: nat, regs: seq<seq<byte>>, r0: seq<byte>, r10: seq<byte>, i: nat)
    requires GoodRegs(regs) && |r0| == 8 && |r10| == 8 && i < 64
    requires Held(img, addr, Join(regs[0 := r0][10 := r10]))
    ensures Held(img, addr + 8 * i, if i == 0 then r0 else if i == 10 then r10 else regs[i])
  {
    var file := regs[0 := r0][10 := r10];
    JoinedEights(file, i);
    HeldSlice(img, addr, Join(file), 8 * i, 8 * i + 8);
  }

  /** Two words behind it begins the replay table. */
  lemma TableHeld(plan: Plan, x: Inputs, p: Places, img0: Image, img: Image)
    requires Installed(plan, x, p, img0, img)
    ensures Held(img, p.regs + 528, x.table)
  {
    HeldSlot(plan, x, p, img0, img, Table, p.regs + 528, x.table);
  }

  /** Behind the table the buffer of the near calls holds the recorded sp. */
  lemma BufferHeld(plan: Plan, x: Inputs, p: Places, img0: Image, img: Image)
    requires Installed(plan, x, p, img0, img)
    ensures Held(img, p.regs + 528 + |x.table|, x.regs[2])
  {
    HeldSlot(plan, x, p, img0, img, Buf, p.regs + 528 + |x.table|, x.regs[2]);
  }

  /** The far call works on the two words between the register file and the table. */
  lemma FarCallHeld(plan: Plan, x: Inputs, p: Places, img0: Image, img: Image)
    requires Installed(plan, x, p, img0, img)
    ensures Held(img, p.far, x.asm.far(p.regs + 512, p.regs + 520))
  {
    HeldSlot(plan, x, p, img0, img, Far, p.far, x.asm.far(p.regs + 512, p.regs + 520));
  }

  // ----- pages -----

  /** The pages are those from before and the ones that a slot touches. */
  lemma PagesAdded(plan: Plan, x: Inputs, p: Places, img0: Image, img: Image, pn: nat)
    requires Installed(plan, x, p, img0, img)
    ensures pn in img.pages <==>
      (pn in img0.pages ||
       exists s :: IsSlot(x.calls, s) && pn in Touched(BlockOf(x, p, s).addr, |BlockOf(x, p, s).data|))
  {
    if TouchedBy(plan, pn) {
      var s :| s in plan && pn in Touched(plan[s].addr, |plan[s].data|);
      assert IsSlot(x.calls, s);
    }
    if s :| IsSlot(x.calls, s) && pn in Touched(BlockOf(x, p, s).addr, |BlockOf(x, p, s).data|) {
      assert s in plan;
    }
  }

  // ----- jumps -----

  /** At addr lies the body of a near call, with its buffer behind the table, and behind it a jump to target. */
  ghost predicate CallHeld(x: Inputs, p: Places, img: Image, addr: nat, far: Option<nat>, rd: Option<nat>,
                           target: nat) {
    var body := x.asm.nearBody(p.regs + 528 + |x.table|, far, rd);
    Held(img, addr, body) && Held(img, addr + |body|, x.asm.jump(target - (addr + |body|)))
  }

  lemma CallParts(x: Inputs, p: Places, img: Image, addr: nat, far: Option<nat>, rd: Option<nat>, target: nat)
    requires Held(img, addr, x.asm.NearCode(target, addr, p.regs + 528 + |x.table|, far, rd))
    ensures CallHeld(x, p, img, addr, far, rd, target)
  {
    var body := x.asm.nearBody(p.regs + 528 + |x.table|, far, rd);
    assert target - addr - |body| == target - (addr + |body|);
    HeldParts(img, addr, body, x.asm.jump(target - addr - |body|));
  }

  ghost predicate FirstAtSite(calls: seq<SysCall>, i: nat) {
    i < |calls| && forall j :: 0 <= j < i ==> calls[j].addr != calls[i].addr
  }

  lemma FirstIsNew(calls: seq<SysCall>, i: nat)
    requires FirstAtSite(calls, i)
    ensures calls[i].addr !in Sites(calls[..i])
  {
    if calls[i].addr in Sites(calls[..i]) {
      var j := CallOf(calls[..i], calls[i].addr);
    }
  }

  /**
   * Control passes from every site to a near call made for the first call at the site, and from its end back
   * behind the trap.
   */
  lemma ControlReturns(plan: Plan, x: Inputs, p: Places, img0: Image, img: Image, i: nat)
    requires Installed(plan, x, p, img0, img) && FirstAtSite(x.calls, i)
    ensures
      var site := x.calls[i].addr;
      && site in p.near && Held(img, site, x.asm.jump(p.near[site] - site))
      && CallHeld(x, p, img, p.near[site], Some(p.far), x.calls[i].alterRd, site + 4)
  {
    var site := x.calls[i].addr;
    FirstIsNew(x.calls, i);
    FirstOfSite(x.calls, i);
    TrapHeld(plan, x, p, img0, img, site);
    NearHeld(plan, x, p, img0, img, site);
    CallParts(x, p, img, p.near[site], Some(p.far), x.calls[i].alterRd, site + 4);
  }

  lemma TrapHeld(plan: Plan, x: Inputs, p: Places, img0: Image, img: Image, site: nat)
    requires Installed(plan, x, p, img0, img) && site in Sites(x.calls)
    ensures site in p.near && Held(img, site, x.asm.jump(p.near[site] as int - site as int))
  {
    assert site in p.near.Keys;
    var offset: int := p.near[site] - site;
    HeldSlot(plan, x, p, img0, img, Trap(site), site, x.asm.jump(offset));
  }

  /** The near call of a site. */
  ghost function CodeAt(x: Inputs, p: Places, site: nat): seq<byte>
    requires site in p.near
  {
    x.asm.NearCode(site + 4, p.near[site], p.regs + 528 + |x.table|, Some(p.far), FirstRd(x.calls, site))
  }

  lemma NearBlock(x: Inputs, p: Places, site: nat)
    requires site in p.near
    ensures BlockOf(x, p, Near(site)) == Block(p.near[site], CodeAt(x, p, site))
  {
  }

  lemma NearHeld(plan: Plan, x: Inputs, p: Places, img0: Image, img: Image, site: nat)
    requires Installed(plan, x, p, img0, img) && site in Sites(x.calls) && site in p.near
    ensures Held(img, p.near[site], CodeAt(x, p, site))
  {
    NearBlock(x, p, site);
    HeldSlot(plan, x, p, img0, img, Near(site), p.near[site], CodeAt(x, p, site));
  }

  /** The entry call ends in a jump to the point where the checkpoint was taken. */
  lemma EntryReturns(plan: Plan, x: Inputs, p: Places, img0: Image, img: Image)
    requires Installed(plan, x, p, img0, img)
    ensures CallHeld(x, p, img, p.entry, None, None, x.entryPc)
  {
    HeldSlot(plan, x, p, img0, img, Entry, p.entry,
             x.asm.NearCode(x.entryPc, p.entry, p.regs + 528 + |x.table|, None, None));
    CallParts(x, p, img, p.entry, None, None, x.entryPc);
  }

  /** The jumps of the near call for the first call at a site, and of the entry call, span less than 2^20 bytes. */
  ghost predicate SiteJumps(x: Inputs, p: Places, i: nat)
    requires i < |x.calls|
  {
    var site := x.calls[i].addr;
    site in p.near ==>
      var end := p.near[site] + |x.asm.nearBody(p.regs + 528 + |x.table|, Some(p.far), x.calls[i].alterRd)|;
      -0x10_0000 <= p.near[site] - site < 0x10_0000 && -0x10_0000 <= site + 4 - end < 0x10_0000
  }

  ghost predicate EntryJump(x: Inputs, p: Places) {
    var end := p.entry + |x.asm.nearBody(p.regs + 528 + |x.table|, None, None)|;
    -0x10_0000 <= x.entryPc - end < 0x10_0000
  }

  /** What it takes for all jumps to reach. */
  lemma AllJumps(x: Inputs, p: Places)
    ensures AllReachable(x, p) <==> (forall i: nat :: FirstAtSite(x.calls, i) ==> SiteJumps(x, p, i)) && EntryJump(x, p)
  {
    forall i: nat | FirstAtSite(x.calls, i)
      ensures x.calls[i].addr in Sites(x.calls) && FirstRd(x.calls, x.calls[i].addr) == x.calls[i].alterRd {
      FirstIsNew(x.calls, i);
      FirstOfSite(x.calls, i);
    }
    if forall i: nat :: FirstAtSite(x.calls, i) ==> SiteJumps(x, p, i) {
      forall a | a in Sites(x.calls) && a in p.near
        ensures JumpInRange(p.near[a] - a)
        ensures JumpInRange(a + 4 - p.near[a] - |x.asm.nearBody(BufAddr(p, x), Some(p.far), FirstRd(x.calls, a))|) {
        var i := FirstCallAt(x.calls, a);
        assert SiteJumps(x, p, i);
      }
    }
    if Reachable(x, p, Sites(x.calls)) {
      forall i: nat | FirstAtSite(x.calls, i) ensures SiteJumps(x, p, i) {
        FirstIsNew(x.calls, i);
      }
    }
  }

  lemma {:induction false} FirstCallAt(calls: seq<SysCall>, a: nat) returns (i: nat)
    requires a in Sites(calls)
    ensures FirstAtSite(calls, i) && calls[i].addr == a
  {
    var init := calls[..|calls| - 1];
    if a in Sites(init) {
      i := FirstCallAt(init, a);
    } else {
      i := |calls| - 1;
      forall j | 0 <= j < i ensures calls[j].addr != a {
        SiteOf(init, j);
      }
    }
  }
}
