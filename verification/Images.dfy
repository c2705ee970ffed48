// What a page map means, as a flat byte memory.
//
// An Image says which pages exist, which byte is at every address and which
// addresses the traced program needs ("marked").
module Images {
  import opened Bytes

  const PAGE_SIZE := 4096
  const FIRST_PN := 0x10

  ghost predicate InRange(a: int, addr: int, len: int) {
    addr <= a < addr + len
  }

  ghost predicate Disjoint(addr: int, len: int, addr': int, len': int) {
    forall a :: !(InRange(a, addr, len) && InRange(a, addr', len'))
  }

  // ----- page numbers -----
  // Base and PageOf say pn * 4096 and a / 4096 without multiplication or
  // division, which keeps every proof about addresses linear.

  function Times16(n: nat): nat {
    n + n + n + n + n + n + n + n + n + n + n + n + n + n + n + n
  }

  /** The address of page pn. */
  function Base(pn: nat): nat {
    Times16(Times16(Times16(pn)))
  }

  lemma BaseIsProduct(pn: nat)
    ensures Base(pn) == pn * PAGE_SIZE
  {
  }

  lemma PageExists(a: nat)
    ensures exists pn: nat :: Base(pn) <= a < Base(pn) + 4096
  {
    var pn := a / 4096;
    BaseIsProduct(pn);
    assert Base(pn) <= a < Base(pn) + 4096;
  }

  /** The page that address a lies in. */
  ghost function PageOf(a: nat): (pn: nat)
    ensures Base(pn) <= a < Base(pn) + 4096
  {
    PageExists(a);
    var pn: nat :| Base(pn) <= a < Base(pn) + 4096;
    pn
  }

  ghost function OffsOf(a: nat): (offs: nat)
    ensures offs < 4096
  {
    a - Base(PageOf(a))
  }

  lemma PageByDivision(a: nat)
    ensures PageOf(a) == a / PAGE_SIZE && OffsOf(a) == a % PAGE_SIZE
  {
    BaseIsProduct(a / PAGE_SIZE);
  }

  /** `a >> PAGE_OFFS`. */
  method ShiftToPage(a: nat) returns (pn: nat)
    ensures pn == PageOf(a)
  {
    pn := a / PAGE_SIZE;
    BaseIsProduct(pn);
  }

  function Interval(lo: nat, hi: nat): (s: set<nat>)
    ensures forall p :: p in s <==> lo <= p < hi
  {
    if hi <= lo then {} else Interval(lo, hi - 1) + {hi - 1}
  }

  datatype Image = Image(pages: set<nat>, bytes: nat -> byte, marked: nat -> bool)
  {
    ghost predicate Present(a: nat) {
      PageOf(a) in pages
    }

    /** Marks and nonzero bytes live on existing pages only. */
    ghost predicate WellFormed() {
      forall a: nat :: !Present(a) ==> !marked(a) && bytes(a) == 0
    }
  }

  /** The pages a write of len bytes at addr touches, an unaligned empty write included. */
  ghost function Touched(addr: nat, len: nat): set<nat> {
    Interval(PageOf(addr), PageOf(addr + len + 4095))
  }

  /** Those are the pages that hold a byte of it; an empty write touches a page it starts inside. */
  lemma TouchedPages(addr: nat, len: nat, pn: nat)
    ensures len > 0 ==> (pn in Touched(addr, len) <==> exists a :: addr <= a < addr + len && PageOf(a) == pn)
    ensures len == 0 ==> (pn in Touched(addr, len) <==> Base(pn) < addr < Base(pn + 1))
  {
    var end := PageOf(addr + len + 4095);
    if len > 0 && pn in Touched(addr, len) {
      var a := if addr < Base(pn) then Base(pn) else addr;
      assert Base(pn + 1) <= Base(end) && addr <= a < addr + len && PageOf(a) == pn;
    }
    if a: nat :| addr <= a < addr + len && PageOf(a) == pn {
      assert PageOf(addr) <= pn < end;
    }
  }

  /** img' is img after writing data at addr in flat byte memory. */
  ghost predicate Wrote(img: Image, img': Image, addr: nat, data: seq<byte>) {
    && img'.pages == img.pages + Touched(addr, |data|)
    && (forall a: nat :: img'.bytes(a) == if InRange(a, addr, |data|) then data[a - addr] else img.bytes(a))
    && (forall a: nat :: img'.marked(a) <==> InRange(a, addr, |data|) || img.marked(a))
  }

  /** Address a is one of len bytes at offs in page pn. */
  ghost predicate InPart(a: nat, pn: nat, offs: nat, len: nat) {
    PageOf(a) == pn && InRange(OffsOf(a), offs, len)
  }

  /** img' is img after the part of a write that lies below page pn. */
  ghost predicate WrittenBelow(img: Image, img': Image, addr: nat, data: seq<byte>, pn: nat) {
    && img'.pages == img.pages + Interval(PageOf(addr), pn)
    && (forall a: nat ::
          img'.bytes(a) == if InRange(a, addr, |data|) && a < Base(pn) then data[a - addr] else img.bytes(a))
    && (forall a: nat :: img'.marked(a) <==> (InRange(a, addr, |data|) && a < Base(pn)) || img.marked(a))
  }

  /** The contents of a page: its data and the offsets marked in its bitmap. */
  datatype PageData = PageData(data: seq<byte>, bitmap: set<nat>)
  {
    ghost predicate Valid() {
      |data| == 4096 && forall i :: i in bitmap ==> i < 4096
    }

    /** this is p after part has been written at offs. */
    ghost predicate AfterPut(p: PageData, offs: nat, part: seq<byte>) {
      && Valid()
      && (forall i: nat :: i < 4096 && |p.data| == 4096 ==>
            data[i] == if InRange(i, offs, |part|) then part[i - offs] else p.data[i])
      && (forall i: nat :: i in bitmap <==> InRange(i, offs, |part|) || i in p.bitmap)
    }
  }

  /** The image img is exactly what the pages in view hold. */
  ghost predicate Represents(img: Image, view: map<nat, PageData>) {
    && img.pages == view.Keys
    && (forall pn :: pn in view ==> view[pn].Valid())
    && (forall a: nat {:trigger img.bytes(a)} ::
          img.bytes(a)
          == if PageOf(a) in view && |view[PageOf(a)].data| == 4096 then view[PageOf(a)].data[OffsOf(a)] else 0)
    && (forall a: nat {:trigger img.marked(a)} ::
          img.marked(a) <==> PageOf(a) in view && OffsOf(a) in view[PageOf(a)].bitmap)
  }

  datatype Pages = Pages(image: Image, view: map<nat, PageData>)

  const NO_PAGES := Pages(Image({}, _ => 0, _ => false), map[])

  /** A page table together with the image it stands for. */
  type Memory = m: Pages | Represents(m.image, m.view) ghost witness NO_PAGES

  /** A blank page changes no byte and no mark. */
  lemma WithBlankPage(m: Memory, pn: nat) returns (m': Memory)
    requires pn !in m.view
    ensures m'.image == m.image.(pages := m.image.pages + {pn})
    ensures m'.view == m.view[pn := PageData(Zeros(4096), {})]
  {
    m' := Pages(m.image.(pages := m.image.pages + {pn}), m.view[pn := PageData(Zeros(4096), {})]);
  }

  lemma PartRepresented(m: Memory, pn: nat, offs: nat, part: seq<byte>, page: PageData, img': Image)
    requires pn in m.view && offs + |part| <= 4096
    requires page.AfterPut(m.view[pn], offs, part)
    requires img'.pages == m.image.pages && WroteInPage(m.image, img', pn, offs, part)
    ensures Represents(img', m.view[pn := page])
  {
    var view' := m.view[pn := page];
    forall a: nat
      ensures img'.bytes(a) == if PageOf(a) in view' then view'[PageOf(a)].data[OffsOf(a)] else 0
      ensures img'.marked(a) <==> PageOf(a) in view' && OffsOf(a) in view'[PageOf(a)].bitmap
    {
      assert m.image.bytes(a) == if PageOf(a) in m.view then m.view[PageOf(a)].data[OffsOf(a)] else 0;
      assert m.image.marked(a) <==> PageOf(a) in m.view && OffsOf(a) in m.view[PageOf(a)].bitmap;
    }
  }

  /** Writing into one page writes the same bytes of the image. */
  ghost function WithPart(m: Memory, pn: nat, offs: nat, part: seq<byte>, page: PageData): (m': Memory)
    requires pn in m.view && offs + |part| <= 4096
    requires page.AfterPut(m.view[pn], offs, part)
    ensures m'.view == m.view[pn := page]
    ensures m'.image.pages == m.image.pages && WroteInPage(m.image, m'.image, pn, offs, part)
  {
    var img := m.image;
    var img' := Image(img.pages,
      (a: nat) => if InPart(a, pn, offs, |part|) then part[OffsOf(a) - offs] else img.bytes(a),
      (a: nat) => InPart(a, pn, offs, |part|) || img.marked(a));
    PartRepresented(m, pn, offs, part, page, img');
    Pages(img', m.view[pn := page])
  }

  /** img' is img after writing part at offs in page pn. */
  ghost predicate WroteInPage(img: Image, img': Image, pn: nat, offs: nat, part: seq<byte>) {
    && (forall a: nat ::
          img'.bytes(a) == if InPart(a, pn, offs, |part|) then part[OffsOf(a) - offs] else img.bytes(a))
    && (forall a: nat :: img'.marked(a) <==> InPart(a, pn, offs, |part|) || img.marked(a))
  }

  /** Bit i of the bitmap of page pn is the mark of its byte i. */
  ghost predicate MarksOf(bitmap: set<nat>, pn: nat, img: Image) {
    forall i: nat :: i < 4096 ==> (i in bitmap <==> img.marked(Base(pn) + i))
  }

  /** part, at offs in page pn, is what a write of data at addr puts into that page. */
  ghost predicate IsPart(pn: nat, addr: nat, data: seq<byte>, offs: nat, part: seq<byte>) {
    && offs + |part| <= 4096
    && offs == (if addr > Base(pn) then addr - Base(pn) else 0)
    && offs + |part| == (if addr + |data| < Base(pn + 1) then addr + |data| - Base(pn) else 4096)
    && addr <= Base(pn) + offs <= addr + |data|
    && forall i :: 0 <= i < |part| ==> part[i] == data[Base(pn) + offs - addr + i]
  }

  /** One round of the loop in PageMap.Put. */
  lemma WrittenOneMorePage(img: Image, before: Image, after: Image, addr: nat, data: seq<byte>, pn: nat, offs: nat,
                           part: seq<byte>)
    requires WrittenBelow(img, before, addr, data, pn)
    requires PageOf(addr) <= pn && IsPart(pn, addr, data, offs, part)
    requires after.pages == before.pages + {pn}
    requires WroteInPage(before, after, pn, offs, part)
    ensures WrittenBelow(img, after, addr, data, pn + 1)
  {
    forall a: nat
      ensures after.bytes(a) == if InRange(a, addr, |data|) && a < Base(pn + 1) then data[a - addr] else img.bytes(a)
      ensures after.marked(a) <==> (InRange(a, addr, |data|) && a < Base(pn + 1)) || img.marked(a)
    {
      assert before.bytes(a) == if InRange(a, addr, |data|) && a < Base(pn) then data[a - addr] else img.bytes(a);
      assert before.marked(a) <==> (InRange(a, addr, |data|) && a < Base(pn)) || img.marked(a);
    }
  }
}
