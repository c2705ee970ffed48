// Where process_once puts things: traps, trampolines and the replay stack.
module Layouts {
  import opened Bytes
  import opened Images
  import opened ReplayTables

  const J_MAX_OFFS := 0x10_0000

  /**
   * The code generators (make near.bin and friends), kept abstract: only the lengths of what they
   * generate are known.
   */
  datatype Generators = Generators(
    jump: int -> seq<byte>,
    nearBody: (nat, Option<nat>, Option<nat>) -> seq<byte>,
    far: (nat, nat) -> seq<byte>)
  {
    ghost predicate WellFormed() {
      && (forall offset :: |jump(offset)| == 4)
      && (forall buf, far, rd :: |nearBody(buf, far, rd)| == |nearBody(0, if far.Some? then Some(0) else None, rd)|)
      && (forall buf, far, rd :: |nearBody(buf, far, rd)| % 2 == 0)
      && (forall sp, pc :: |this.far(sp, pc)| == |this.far(0, 0)|)
      && |far(0, 0)| % 2 == 0
    }

    /** A near call: its body, then a jump back to retPc. */
    function NearCode(retPc: nat, nearPc: nat, buf: nat, far: Option<nat>, rd: Option<nat>): seq<byte> {
      var body := nearBody(buf, far, rd);
      body + jump(retPc - nearPc - |body|)
    }
  }

  const LONG_ASSEMBLY := Generators(_ => Zeros(4), (_, _, _) => Zeros(J_MAX_OFFS + J_MAX_OFFS), (_, _) => [])

  type Assembly = g: Generators | g.WellFormed() ghost witness LONG_ASSEMBLY

  predicate JumpInRange(offset: int) {
    -J_MAX_OFFS <= offset < J_MAX_OFFS
  }

  /** The things process_once places in the image. */
  datatype Slot = Trap(site: nat) | Near(site: nat) | Entry | Far | Regs | Table | Buf

  datatype Block = Block(addr: nat, data: seq<byte>)

  /** A plan assigns every slot an address and its intended bytes. */
  type Plan = map<Slot, Block>

  ghost predicate In(a: nat, b: Block) {
    InRange(a, b.addr, |b.data|)
  }

  ghost predicate Outside(plan: Plan, a: nat) {
    forall s :: s in plan ==> !In(a, plan[s])
  }

  ghost predicate PairwiseDisjoint(plan: Plan) {
    forall s, t, a: nat {:trigger In(a, plan[s]), In(a, plan[t])} ::
      s in plan && t in plan && In(a, plan[s]) && In(a, plan[t]) ==> s == t
  }

  ghost predicate BlockHeld(img: Image, b: Block) {
    forall a: nat :: In(a, b) ==> img.bytes(a) == b.data[a - b.addr] && img.marked(a)
  }

  /**
   * The state while space is being set aside: slots are disjoint and marked, only traps lie on
   * bytes the program needs, and nothing else has changed since img0.
   */
  ghost predicate SetAside(plan: Plan, img0: Image, img: Image) {
    && PairwiseDisjoint(plan)
    && (forall s, a: nat :: s in plan && In(a, plan[s]) ==> img.marked(a) && (s.Trap? || !img0.marked(a)))
    && (forall a: nat :: img0.marked(a) ==> img.marked(a))
    && (forall a: nat :: Outside(plan, a) ==> img.bytes(a) == img0.bytes(a) && (img.marked(a) <==> img0.marked(a)))
  }

  /** Setting aside a block of unmarked bytes. */
  lemma SetAsideMore(plan: Plan, img0: Image, img: Image, img': Image, s: Slot, b: Block)
    requires SetAside(plan, img0, img) && s !in plan
    requires forall a: nat :: In(a, b) ==> !img.marked(a)
    requires Wrote(img, img', b.addr, b.data)
    ensures SetAside(plan[s := b], img0, img')
  {
    var plan' := plan[s := b];
    forall a: nat | Outside(plan', a)
      ensures img'.bytes(a) == img0.bytes(a) && (img'.marked(a) <==> img0.marked(a))
    {
      assert !In(a, plan'[s]);
      assert forall t :: t in plan ==> !In(a, plan'[t]);
    }
  }

  /** Setting aside the four bytes of a trap site, apart from every other site. */
  lemma SetAsideTrap(plan: Plan, img0: Image, img: Image, img': Image, site: nat)
    requires SetAside(plan, img0, img)
    requires forall s :: s in plan ==>
      s.Trap? && plan[s] == Block(s.site, Zeros(4)) && (s.site == site || s.site + 4 <= site || site + 4 <= s.site)
    requires Wrote(img, img', site, Zeros(4))
    ensures SetAside(plan[Trap(site) := Block(site, Zeros(4))], img0, img')
  {
    var plan' := plan[Trap(site) := Block(site, Zeros(4))];
    forall a: nat | Outside(plan', a)
      ensures img'.bytes(a) == img0.bytes(a) && (img'.marked(a) <==> img0.marked(a))
    {
      assert !In(a, plan'[Trap(site)]);
      assert forall t :: t in plan ==> !In(a, plan'[t]);
    }
  }

  // ----- pages -----

  /** A slot of the plan touches page pn. */
  ghost predicate TouchedBy(plan: Plan, pn: nat) {
    exists s :: s in plan && pn in Touched(plan[s].addr, |plan[s].data|)
  }

  lemma TouchedByMore(plan: Plan, s: Slot, b: Block, pn: nat)
    requires s in plan ==> plan[s] == b
    ensures TouchedBy(plan[s := b], pn) <==> TouchedBy(plan, pn) || pn in Touched(b.addr, |b.data|)
  {
    var plan' := plan[s := b];
    if TouchedBy(plan', pn) {
      var t :| t in plan' && pn in Touched(plan'[t].addr, |plan'[t].data|);
      assert t == s || (t in plan && plan[t] == plan'[t]);
    }
    if TouchedBy(plan, pn) {
      var t :| t in plan && pn in Touched(plan[t].addr, |plan[t].data|);
      assert t in plan' && plan'[t] == plan[t];
    }
    if pn in Touched(b.addr, |b.data|) {
      assert s in plan' && plan'[s] == b;
    }
  }

  /** The image has the pages it had, those that the plan touches, and no others. */
  ghost predicate PagesClaimed(plan: Plan, img0: Image, img: Image) {
    forall pn: nat {:trigger TouchedBy(plan, pn)} :: pn in img.pages <==> pn in img0.pages || TouchedBy(plan, pn)
  }

  lemma PagesClaimedMore(plan: Plan, img0: Image, img: Image, img': Image, s: Slot, b: Block)
    requires PagesClaimed(plan, img0, img) && (s in plan ==> plan[s] == b)
    requires img'.pages == img.pages + Touched(b.addr, |b.data|)
    ensures PagesClaimed(plan[s := b], img0, img')
  {
    forall pn: nat ensures pn in img'.pages <==> pn in img0.pages || TouchedBy(plan[s := b], pn) {
      TouchedByMore(plan, s, b, pn);
    }
  }

  ghost predicate SlotThere(plan: Plan, s: Slot, pages: set<nat>) {
    s in plan ==> Touched(plan[s].addr, |plan[s].data|) <= pages
  }

  /** No pages but those of the plan have been added, and those of the slots that are done are there. */
  ghost predicate PagesDrafted(plan: Plan, done: set<Slot>, img0: Image, img: Image) {
    && img0.pages <= img.pages
    && (forall pn: nat {:trigger TouchedBy(plan, pn)} ::
          pn in img.pages ==> pn in img0.pages || TouchedBy(plan, pn))
    && forall s {:trigger SlotThere(plan, s, img.pages)} :: s in done ==> SlotThere(plan, s, img.pages)
  }

  lemma PagesWritten(plan: Plan, done: set<Slot>, img0: Image, img: Image, img': Image, s: Slot)
    requires PagesDrafted(plan, done, img0, img) && s in plan
    requires img'.pages == img.pages + Touched(plan[s].addr, |plan[s].data|)
    ensures PagesDrafted(plan, done + {s}, img0, img')
  {
    assert plan[s := plan[s]] == plan;
    forall pn: nat | pn in img'.pages ensures pn in img0.pages || TouchedBy(plan, pn) {
      TouchedByMore(plan, s, plan[s], pn);
    }
    forall t | t in done + {s} ensures SlotThere(plan, t, img'.pages) {
      assert t != s ==> SlotThere(plan, t, img.pages);
    }
  }

  /** When all slots are done the pages of the plan have been added. */
  lemma PagesDone(plan: Plan, done: set<Slot>, img0: Image, img: Image)
    requires PagesDrafted(plan, done, img0, img) && forall s :: s in plan ==> s in done
    ensures PagesClaimed(plan, img0, img)
  {
    forall pn: nat ensures pn in img.pages <==> pn in img0.pages || TouchedBy(plan, pn) {
      if TouchedBy(plan, pn) {
        var s :| s in plan && pn in Touched(plan[s].addr, |plan[s].data|);
        assert SlotThere(plan, s, img.pages);
      }
    }
  }

  datatype ClaimState = ClaimState(plan: Plan, img0: Image, img: Image)

  const NO_CLAIM := ClaimState(map[], NO_PAGES.image, NO_PAGES.image)

  /** Space claimed so far: a plan that is set aside in img. */
  type Claim = c: ClaimState | ClaimOk(c) ghost witness NO_CLAIM

  ghost predicate ClaimOk(c: ClaimState) {
    SetAside(c.plan, c.img0, c.img) && PagesClaimed(c.plan, c.img0, c.img)
  }

  /** One more block claimed. */
  lemma Claimed(c: Claim, s: Slot, b: Block, img: Image) returns (c': Claim)
    requires s !in c.plan && Wrote(c.img, img, b.addr, b.data)
    requires forall a: nat :: In(a, b) ==> !c.img.marked(a)
    ensures c' == ClaimState(c.plan[s := b], c.img0, img)
  {
    SetAsideMore(c.plan, c.img0, c.img, img, s, b);
    PagesClaimedMore(c.plan, c.img0, c.img, img, s, b);
    c' := ClaimState(c.plan[s := b], c.img0, img);
  }

  /** The state while code is being written: done slots hold their bytes, nothing outside the plan has changed. */
  ghost predicate Writing(plan: Plan, done: set<Slot>, img0: Image, img: Image) {
    && (forall s :: s in done && s in plan ==> BlockHeld(img, plan[s]))
    && (forall a: nat :: Outside(plan, a) ==> img.bytes(a) == img0.bytes(a) && (img.marked(a) <==> img0.marked(a)))
  }

  lemma WriteSlot(plan: Plan, done: set<Slot>, img0: Image, img: Image, img': Image, s: Slot)
    requires PairwiseDisjoint(plan) && s in plan
    requires Writing(plan, done, img0, img) && Wrote(img, img', plan[s].addr, plan[s].data)
    ensures Writing(plan, done + {s}, img0, img')
  {
    forall t | t in done && t in plan && t != s
      ensures BlockHeld(img', plan[t])
    {
      assert BlockHeld(img, plan[t]);
      forall a: nat | In(a, plan[t])
        ensures img'.bytes(a) == plan[t].data[a - plan[t].addr] && img'.marked(a)
      {
        assert !In(a, plan[s]);
      }
    }
    forall a: nat | Outside(plan, a)
      ensures img'.bytes(a) == img0.bytes(a) && (img'.marked(a) <==> img0.marked(a))
    {
      assert !In(a, plan[s]);
    }
  }

  datatype DraftState = DraftState(plan: Plan, done: set<Slot>, img0: Image, img: Image)

  const NO_DRAFT := DraftState(map[], {}, NO_PAGES.image, NO_PAGES.image)

  /** A disjoint plan that has been carried out for some of its slots. */
  type Draft = d: DraftState | DraftOk(d) ghost witness NO_DRAFT

  ghost predicate DraftOk(d: DraftState) {
    && PairwiseDisjoint(d.plan) && Writing(d.plan, d.done, d.img0, d.img)
    && PagesDrafted(d.plan, d.done, d.img0, d.img)
  }

  /** The draft after one more slot has been written. */
  lemma Drafted(d: Draft, s: Slot, img: Image) returns (d': Draft)
    requires s in d.plan && Wrote(d.img, img, d.plan[s].addr, d.plan[s].data)
    ensures d' == DraftState(d.plan, d.done + {s}, d.img0, img)
  {
    WriteSlot(d.plan, d.done, d.img0, d.img, img, s);
    PagesWritten(d.plan, d.done, d.img0, d.img, img, s);
    d' := DraftState(d.plan, d.done + {s}, d.img0, img);
  }
}
