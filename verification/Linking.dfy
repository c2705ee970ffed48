// The assembler's link step: laying out sections, looking labels up and patching every
// relocated instruction.
module Linking {
  import opened Bytes
  import opened PcRelative

  /** The section index of absolute symbols. */
  const SHN_ABS: nat := 0xfff1

  datatype Place = Place(section: nat, offset: nat)

  datatype Section = Section(base: nat, size: nat)

  datatype Label = Label(name: string, place: Place, num: int)

  /** The relocation types; the I and S forms of the lower halves differ only in their encoding. */
  datatype Kind = Jal | Branch | Hi20 | Lo12 | PcrelHi20 | PcrelLo12 | Call | Word32 | Word64 | Other

  datatype Reloc = Reloc(place: Place, name: string, kind: Kind)

  predicate Before(p: Place, q: Place) {
    p.section < q.section || (p.section == q.section && p.offset < q.offset)
  }

  // ----- looking labels up -----

  /** Labels by name, and by place in order. */
  datatype Labels = Labels(byName: map<string, Label>, byPlace: seq<Label>)

  predicate IsDigit(c: char) {
    '0' <= c <= '9'
  }

  /** Digits followed by f or b. */
  predicate IsLocal(name: string) {
    |name| >= 2 && (name[|name| - 1] == 'f' || name[|name| - 1] == 'b') &&
    forall k :: 0 <= k < |name| - 1 ==> IsDigit(name[k])
  }

  function Digits(s: string): nat {
    if s == [] then 0
    else Digits(s[..|s| - 1]) * 10 + if IsDigit(s[|s| - 1]) then (s[|s| - 1] - '0') as nat else 0
  }

  /** What strtoull leaves in a signed 64-bit number. */
  function Number(s: string): int {
    var v := if Digits(s) < WORD64 then Digits(s) else WORD64 - 1;
    if v < 0x8000_0000_0000_0000 then v else v - WORD64
  }

  /** A number in decimal digits. */
  function Decimal(n: nat): string {
    (if n < 10 then "" else Decimal(n / 10)) + [('0' as int + n % 10) as char]
  }

  /** A number written in decimal is read as itself, if it fits. */
  lemma NumberRead(n: nat)
    requires n < 0x8000_0000_0000_0000
    ensures Number(Decimal(n)) == n
  {
    DigitsRead(n);
  }

  lemma {:induction false} DigitsRead(n: nat)
    ensures Digits(Decimal(n)) == n
  {
    var s := Decimal(n);
    if n < 10 {
      assert s[..|s| - 1] == "";
    } else {
      DigitsRead(n / 10);
      assert s[..|s| - 1] == Decimal(n / 10);
    }
  }

  /** The first label after a place that has the number. */
  function Forward(byPlace: seq<Label>, at: Place, num: int): Option<Label> {
    if byPlace == [] then None
    else if Before(at, byPlace[0].place) && byPlace[0].num == num then Some(byPlace[0])
    else Forward(byPlace[1..], at, num)
  }

  /** The last label up to a place that has the number. */
  function Backward(byPlace: seq<Label>, at: Place, num: int): Option<Label> {
    if byPlace == [] then None
    else
      var last := byPlace[|byPlace| - 1];
      if !Before(at, last.place) && last.num == num then Some(last)
      else Backward(byPlace[..|byPlace| - 1], at, num)
  }

  ghost predicate InOrder(byPlace: seq<Label>) {
    forall i: nat, k: nat :: i < k < |byPlace| ==> Before(byPlace[i].place, byPlace[k].place)
  }

  /**
   * Forward finds a label after the place, with the number, and none of them is nearer; it finds none only
   * when there is none.
   */
  lemma {:induction false} ForwardIsNearest(byPlace: seq<Label>, at: Place, num: int)
    requires InOrder(byPlace)
    ensures Forward(byPlace, at, num) == None ==>
      forall k: nat :: k < |byPlace| ==> !(Before(at, byPlace[k].place) && byPlace[k].num == num)
    ensures forall l :: Forward(byPlace, at, num) == Some(l) ==>
      l in byPlace && Before(at, l.place) && l.num == num
      && forall k: nat :: k < |byPlace| && Before(at, byPlace[k].place) && byPlace[k].num == num ==>
        !Before(byPlace[k].place, l.place)
  {
    if byPlace != [] {
      var rest := byPlace[1..];
      assert forall k: nat :: 0 < k < |byPlace| ==> byPlace[k] == rest[k - 1];
      ForwardIsNearest(rest, at, num);
    }
  }

  lemma {:induction false} BackwardIsNearest(byPlace: seq<Label>, at: Place, num: int)
    requires InOrder(byPlace)
    ensures Backward(byPlace, at, num) == None ==>
      forall k: nat :: k < |byPlace| ==> !(!Before(at, byPlace[k].place) && byPlace[k].num == num)
    ensures forall l :: Backward(byPlace, at, num) == Some(l) ==>
      l in byPlace && !Before(at, l.place) && l.num == num
      && forall k: nat :: k < |byPlace| && !Before(at, byPlace[k].place) && byPlace[k].num == num ==>
        !Before(l.place, byPlace[k].place)
  {
    if byPlace != [] {
      BackwardIsNearest(byPlace[..|byPlace| - 1], at, num);
    }
  }

  /** A local name means the nearest label of that number in its direction, any other name the label of that name. */
  function Resolve(labels: Labels, at: Place, name: string): Option<Label> {
    if IsLocal(name) then
      var num := Number(name[..|name| - 1]);
      if name[|name| - 1] == 'f' then Forward(labels.byPlace, at, num) else Backward(labels.byPlace, at, num)
    else ByName(labels, name)
  }

  function ByName(labels: Labels, name: string): Option<Label> {
    if name in labels.byName then Some(labels.byName[name]) else None
  }

  lemma {:induction false} DecimalIsDigits(n: nat)
    ensures |Decimal(n)| >= 1 && forall k :: 0 <= k < |Decimal(n)| ==> IsDigit(Decimal(n)[k])
  {
    if n >= 10 {
      DecimalIsDigits(n / 10);
    }
  }

  /** l is the nearest of the labels with the number that come after the place, or that do not. */
  ghost predicate Nearest(byPlace: seq<Label>, at: Place, n: nat, later: bool, l: Option<Label>) {
    match l
    case None => forall k: nat :: k < |byPlace| ==> byPlace[k].num != n || Before(at, byPlace[k].place) != later
    case Some(l) =>
      && l in byPlace && l.num == n && Before(at, l.place) == later
      && forall k: nat :: k < |byPlace| && byPlace[k].num == n && Before(at, byPlace[k].place) == later ==>
        if later then !Before(byPlace[k].place, l.place) else !Before(l.place, byPlace[k].place)
  }

  /** nf means the nearest label n after the place, nb the nearest one up to it. */
  lemma LocalNames(labels: Labels, at: Place, n: nat)
    requires InOrder(labels.byPlace) && n < 0x8000_0000_0000_0000
    ensures Nearest(labels.byPlace, at, n, true, Resolve(labels, at, Decimal(n) + "f"))
    ensures Nearest(labels.byPlace, at, n, false, Resolve(labels, at, Decimal(n) + "b"))
  {
    var s, f, b := Decimal(n), Decimal(n) + "f", Decimal(n) + "b";
    DecimalIsDigits(n);
    NumberRead(n);
    assert f[..|f| - 1] == s && b[..|b| - 1] == s;
    assert IsLocal(f) && IsLocal(b);
    ForwardIsNearest(labels.byPlace, at, n);
    BackwardIsNearest(labels.byPlace, at, n);
  }

  /** The label maps agree with each other, and no label has a local name. */
  ghost predicate LabelsValid(labels: Labels, sections: nat) {
    InOrder(labels.byPlace) &&
    (forall n :: n in labels.byName ==>
      labels.byName[n].name == n && !IsLocal(n)
      && (labels.byName[n].place.section < sections || labels.byName[n].place.section == SHN_ABS)) &&
    forall k :: 0 <= k < |labels.byPlace| ==> Listed(labels, labels.byPlace[k])
  }

  ghost predicate Listed(labels: Labels, l: Label) {
    l.name in labels.byName && labels.byName[l.name] == l
  }

  lemma ResolvedIsListed(labels: Labels, sections: nat, at: Place, name: string)
    requires LabelsValid(labels, sections)
    ensures forall l :: Resolve(labels, at, name) == Some(l) ==>
      Listed(labels, l) && Resolve(labels, at, l.name) == Some(l)
  {
    if IsLocal(name) {
      var num := Number(name[..|name| - 1]);
      ForwardIsNearest(labels.byPlace, at, num);
      BackwardIsNearest(labels.byPlace, at, num);
    }
  }

  // ----- addresses -----

  ghost predicate Inside(sections: seq<Section>, p: Place) {
    p.section < |sections|
  }

  function Address(sections: seq<Section>, p: Place): nat
    requires p.section < |sections|
  {
    Wrap64(sections[p.section].base + p.offset)
  }

  function Target(sections: seq<Section>, l: Label): nat
    requires l.place.section < |sections| || l.place.section == SHN_ABS
  {
    if l.place.section == SHN_ABS then Wrap64(l.place.offset) else Address(sections, l.place)
  }

  /** Every section starts where the one before it ends. */
  ghost predicate LaidOut(sections: seq<Section>) {
    sections != [] && sections[0].base == 0 &&
    forall k: nat :: 0 < k < |sections| ==> sections[k].base == sections[k - 1].base + sections[k - 1].size
  }

  /** No byte of a section has the address of a byte of another. */
  lemma {:induction false} SectionsApart(sections: seq<Section>, i: nat, k: nat)
    requires LaidOut(sections) && i < k < |sections|
    ensures sections[i].base + sections[i].size <= sections[k].base
  {
    if i < k - 1 {
      SectionsApart(sections, i, k - 1);
    }
  }

  // ----- relocations -----

  ghost predicate RelocsInOrder(relocs: seq<Reloc>) {
    forall i: nat, k: nat :: i < k < |relocs| ==> Before(relocs[i].place, relocs[k].place)
  }

  /** The relocation at a place. */
  function Find(relocs: seq<Reloc>, p: Place): (k: Option<nat>)
    ensures k.Some? ==> k.value < |relocs| && relocs[k.value].place == p
    ensures k.None? ==> forall i: nat :: i < |relocs| ==> relocs[i].place != p
  {
    if relocs == [] then None
    else if relocs[|relocs| - 1].place == p then Some(|relocs| - 1)
    else Find(relocs[..|relocs| - 1], p)
  }

  function Following(p: Place): Place {
    Place(p.section, p.offset + 4)
  }

  /**
   * The instruction or word at a relocation of target t is patched; a PcrelLo12 has its target and place from
   * its pair.
   */
  predicate Patched(kind: Kind, p: Place, a: nat, t: nat, fields: map<Place, int>, words: map<Place, nat>) {
    match kind
    case Jal => p in fields && fields[p] == FieldJ(ToInt(Wrap64(t - a)))
    case Branch => p in fields && fields[p] == FieldB(ToInt(Wrap64(t - a)))
    case Hi20 => p in fields && fields[p] == Upper(t, 0)
    case Lo12 => p in fields && fields[p] == Lower(t, 0)
    case PcrelHi20 => p in fields && fields[p] == Upper(t, a)
    case PcrelLo12 => p in fields && fields[p] == Lower(t, a)
    case Call => p in fields && fields[p] == Upper(t, a) && Following(p) in fields
      && fields[Following(p)] == Lower(t, a)
    case Word32 => p in words && words[p] == t % WORD32
    case Word64 => p in words && words[p] == t
    case Other => true
  }

  /** The label a relocation names. */
  function LabelOf(labels: Labels, r: Reloc): Option<Label> {
    Resolve(labels, r.place, r.name)
  }

  ghost predicate Usable(sections: seq<Section>, l: Label) {
    Inside(sections, l.place) || l.place.section == SHN_ABS
  }

  /**
   * The relocation found through the label of a PcrelLo12: the one at the label's address, taken in the
   * relocation's own section.
   */
  ghost function PairOf(sections: seq<Section>, labels: Labels, relocs: seq<Reloc>, r: Reloc): (k: Option<nat>)
    ensures k.Some? ==> k.value < |relocs|
  {
    var l := LabelOf(labels, r);
    if l.Some? && Usable(sections, l.value)
    then Find(relocs, Place(r.place.section, Target(sections, l.value)))
    else None
  }

  /** Relocation i can be applied when its turn comes, all earlier relocations having their labels' names by then. */
  ghost predicate Solvable(sections: seq<Section>, labels: Labels, relocs: seq<Reloc>, i: nat)
    requires i < |relocs|
  {
    LabelOf(labels, relocs[i]).Some? &&
    (relocs[i].kind == PcrelLo12 ==>
      var k := PairOf(sections, labels, relocs, relocs[i]);
      k.Some? && if k.value <= i then LabelOf(labels, relocs[k.value]).Some?
        else ByName(labels, relocs[k.value].name).Some?)
  }

  /** How many of the first n relocations cannot be applied. */
  ghost function Unsolvable(sections: seq<Section>, labels: Labels, relocs: seq<Reloc>, n: nat): nat
    requires n <= |relocs|
  {
    if n == 0 then 0
    else Unsolvable(sections, labels, relocs, n - 1) + if Solvable(sections, labels, relocs, n - 1) then 0 else 1
  }

  lemma {:induction false} NoneUnsolvable(sections: seq<Section>, labels: Labels, relocs: seq<Reloc>, n: nat)
    requires n <= |relocs|
    ensures Unsolvable(sections, labels, relocs, n) == 0 <==>
      forall i: nat :: i < n ==> Solvable(sections, labels, relocs, i)
  {
    if n > 0 {
      NoneUnsolvable(sections, labels, relocs, n - 1);
    }
  }

  /** Relocation i is applied: what it patches is there, with target and place taken from its pair for a PcrelLo12. */
  ghost predicate Done(sections: seq<Section>, labels: Labels, relocs: seq<Reloc>, i: nat, fields: map<Place, int>,
                       words: map<Place, nat>)
    requires i < |relocs|
  {
    var r := relocs[i];
    var k := if r.kind == PcrelLo12 then PairOf(sections, labels, relocs, r) else Some(i);
    k.Some? && LabelOf(labels, relocs[k.value]).Some? && Inside(sections, relocs[k.value].place) &&
    Usable(sections, LabelOf(labels, relocs[k.value]).value) &&
    Patched(r.kind, r.place, Address(sections, relocs[k.value].place),
            Target(sections, LabelOf(labels, relocs[k.value]).value), fields, words)
  }

  /** The symbol of the relocation that a PcrelLo12 leads to is in a section. */
  ghost predicate PairsInside(sections: seq<Section>, labels: Labels, relocs: seq<Reloc>) {
    forall i: nat, k: nat :: i < |relocs| && k < |relocs| && relocs[i].kind == PcrelLo12
      && PairOf(sections, labels, relocs, relocs[i]) == Some(k) && LabelOf(labels, relocs[k]).Some?
      ==> Inside(sections, LabelOf(labels, relocs[k]).value.place)
  }

  /** The same relocations, for names that may have become the names of their labels. */
  ghost predicate Renamed(labels: Labels, relocs: seq<Reloc>, relocs': seq<Reloc>) {
    |relocs| == |relocs'| &&
    forall k: nat :: k < |relocs| ==>
      relocs'[k].place == relocs[k].place && relocs'[k].kind == relocs[k].kind
      && LabelOf(labels, relocs'[k]) == LabelOf(labels, relocs[k])
  }

  lemma {:induction false} RenamedFind(labels: Labels, relocs: seq<Reloc>, relocs': seq<Reloc>, p: Place)
    requires Renamed(labels, relocs, relocs')
    ensures Find(relocs', p) == Find(relocs, p)
  {
    if relocs != [] {
      var n := |relocs| - 1;
      assert Renamed(labels, relocs[..n], relocs'[..n]);
      RenamedFind(labels, relocs[..n], relocs'[..n], p);
    }
  }

  lemma RenamedPair(sections: seq<Section>, labels: Labels, relocs: seq<Reloc>, relocs': seq<Reloc>, i: nat)
    requires Renamed(labels, relocs, relocs') && i < |relocs|
    ensures PairOf(sections, labels, relocs', relocs'[i]) == PairOf(sections, labels, relocs, relocs[i])
  {
    var l := LabelOf(labels, relocs[i]);
    if l.Some? && Usable(sections, l.value) {
      RenamedFind(labels, relocs, relocs', Place(relocs[i].place.section, Target(sections, l.value)));
    }
  }

  lemma RenamedDone(sections: seq<Section>, labels: Labels, relocs: seq<Reloc>, relocs': seq<Reloc>, i: nat,
                    fields: map<Place, int>, words: map<Place, nat>)
    requires Renamed(labels, relocs, relocs') && i < |relocs|
    ensures Done(sections, labels, relocs', i, fields, words) <==> Done(sections, labels, relocs, i, fields, words)
  {
    RenamedPair(sections, labels, relocs, relocs', i);
  }

  lemma RenamedPairsInside(sections: seq<Section>, labels: Labels, relocs: seq<Reloc>, relocs': seq<Reloc>)
    requires Renamed(labels, relocs, relocs') && PairsInside(sections, labels, relocs)
    ensures PairsInside(sections, labels, relocs')
  {
    forall i: nat | i < |relocs|
      ensures PairOf(sections, labels, relocs', relocs'[i]) == PairOf(sections, labels, relocs, relocs[i])
    {
      RenamedPair(sections, labels, relocs, relocs', i);
    }
  }

  // ----- a whole link -----

  /** The sections, each starting where the one before it ends. */
  function Placed(sections: seq<Section>): (placed: seq<Section>)
    ensures |placed| == |sections|
  {
    if sections == [] then []
    else
      var n := |sections| - 1;
      var before := Placed(sections[..n]);
      before + [Section(if n == 0 then 0 else before[n - 1].base + before[n - 1].size, sections[n].size)]
  }

  lemma PlacedIsLaidOut(sections: seq<Section>)
    requires sections != []
    ensures LaidOut(Placed(sections))
    ensures forall k: nat :: k < |sections| ==> Placed(sections)[k].size == sections[k].size
  {
    forall k: nat | k < |sections|
      ensures Placed(sections)[k].base
        == if k == 0 then 0 else Placed(sections)[k - 1].base + Placed(sections)[k - 1].size
      ensures Placed(sections)[k].size == sections[k].size
    {
      PlacedAt(sections, k);
    }
  }

  lemma {:induction false} PlacedAt(sections: seq<Section>, k: nat)
    requires k < |sections|
    ensures Placed(sections)[k].base
      == if k == 0 then 0 else Placed(sections)[k - 1].base + Placed(sections)[k - 1].size
    ensures Placed(sections)[k].size == sections[k].size
  {
    var n := |sections| - 1;
    if k < n {
      PlacedAt(sections[..n], k);
    }
  }

  /** No relocation is at the second instruction of relocation i, if that is a Call. */
  ghost predicate Undisturbed(relocs: seq<Reloc>, i: nat)
    requires i < |relocs|
  {
    relocs[i].kind == Call ==> forall k: nat :: k < |relocs| ==> relocs[k].place != Following(relocs[i].place)
  }

  /** The first n relocations have the names of their labels. */
  ghost predicate NamedUpto(labels: Labels, relocs: seq<Reloc>, relocs': seq<Reloc>, n: nat) {
    |relocs'| == |relocs| && forall k: nat :: k < |relocs| ==>
      relocs'[k] == if k < n && LabelOf(labels, relocs[k]).Some?
                    then relocs[k].(name := LabelOf(labels, relocs[k]).value.name) else relocs[k]
  }

  lemma NamedIsRenamed(labels: Labels, sections: nat, relocs: seq<Reloc>, relocs': seq<Reloc>, n: nat)
    requires LabelsValid(labels, sections) && NamedUpto(labels, relocs, relocs', n)
    ensures Renamed(labels, relocs, relocs')
  {
    forall k: nat | k < |relocs| ensures LabelOf(labels, relocs'[k]) == LabelOf(labels, relocs[k]) {
      ResolvedIsListed(labels, sections, relocs[k].place, relocs[k].name);
    }
  }

  /** When the turn of relocation i comes, the pair of a PcrelLo12 is known by name exactly when it was to be known. */
  lemma SolvableNow(sections: seq<Section>, labels: Labels, relocs: seq<Reloc>, relocs': seq<Reloc>, i: nat)
    requires LabelsValid(labels, |sections|) && NamedUpto(labels, relocs, relocs', i + 1) && i < |relocs|
    ensures Solvable(sections, labels, relocs, i) <==>
      LabelOf(labels, relocs[i]).Some? && (relocs[i].kind == PcrelLo12 ==>
        var k := PairOf(sections, labels, relocs', relocs'[i]);
        k.Some? && ByName(labels, relocs'[k.value].name).Some?)
  {
    NamedIsRenamed(labels, |sections|, relocs, relocs', i + 1);
    RenamedPair(sections, labels, relocs, relocs', i);
    var k := PairOf(sections, labels, relocs, relocs[i]);
    if k.Some? && k.value <= i {
      ResolvedIsListed(labels, |sections|, relocs[k.value].place, relocs[k.value].name);
    }
  }

  /** The instructions that a relocation patches: its own and, for a Call, the one after it. */
  ghost function FieldsOf(r: Reloc): set<Place> {
    match r.kind
    case Call => {r.place, Following(r.place)}
    case Word32 => {}
    case Word64 => {}
    case Other => {}
    case _ => {r.place}
  }

  /** The data words that it patches. */
  ghost function WordsOf(r: Reloc): set<Place> {
    if r.kind == Word32 || r.kind == Word64 then {r.place} else {}
  }

  ghost predicate SameAt<V>(m: map<Place, V>, m': map<Place, V>, q: Place) {
    (q in m' <==> q in m) && (q in m' ==> m'[q] == m[q])
  }

  /** Nothing is written but what the relocation patches, and nothing at all when it is refused. */
  ghost predicate Kept(fields: map<Place, int>, words: map<Place, nat>, fields': map<Place, int>,
                       words': map<Place, nat>, r: Reloc, ok: bool) {
    && (forall q :: !(ok && q in FieldsOf(r)) ==> SameAt(fields, fields', q))
    && (forall q :: !(ok && q in WordsOf(r)) ==> SameAt(words, words', q))
  }

  /** None of the first n relocations that can be applied patches the instruction at q. */
  ghost predicate NoField(sections: seq<Section>, labels: Labels, relocs: seq<Reloc>, n: nat, q: Place) {
    n <= |relocs| && forall k: nat :: k < n && Solvable(sections, labels, relocs, k) ==>
      && (q == relocs[k].place ==> relocs[k].kind in {Word32, Word64, Other})
      && (relocs[k].kind == Call ==> q != Place(relocs[k].place.section, relocs[k].place.offset + 4))
  }

  ghost predicate NoWord(sections: seq<Section>, labels: Labels, relocs: seq<Reloc>, n: nat, q: Place) {
    n <= |relocs| && forall k: nat :: k < n && Solvable(sections, labels, relocs, k) ==>
      (q == relocs[k].place ==> relocs[k].kind !in {Word32, Word64})
  }

  /** After n relocations everything else is as it was. */
  ghost predicate Framed(sections: seq<Section>, labels: Labels, relocs: seq<Reloc>, n: nat, fields: map<Place, int>,
                         words: map<Place, nat>, fields': map<Place, int>, words': map<Place, nat>) {
    && (forall q :: NoField(sections, labels, relocs, n, q) ==> SameAt(fields, fields', q))
    && (forall q :: NoWord(sections, labels, relocs, n, q) ==> SameAt(words, words', q))
  }

  lemma FramedNext(sections: seq<Section>, labels: Labels, relocs: seq<Reloc>, i: nat, r: Reloc,
                   fields: map<Place, int>, words: map<Place, nat>, f: map<Place, int>, w: map<Place, nat>,
                   f': map<Place, int>,
                   w': map<Place, nat>)
    requires i < |relocs| && Framed(sections, labels, relocs, i, fields, words, f, w)
    requires r.place == relocs[i].place && r.kind == relocs[i].kind
    requires Kept(f, w, f', w', r, Solvable(sections, labels, relocs, i))
    ensures Framed(sections, labels, relocs, i + 1, fields, words, f', w')
  {
    forall q | NoField(sections, labels, relocs, i + 1, q) ensures SameAt(fields, f', q) {
      assert NoField(sections, labels, relocs, i, q) && SameAt(f, f', q);
    }
    forall q | NoWord(sections, labels, relocs, i + 1, q) ensures SameAt(words, w', q) {
      assert NoWord(sections, labels, relocs, i, q) && SameAt(w, w', q);
    }
  }

  /** Later relocations leave what earlier ones patched. */
  lemma DoneStays(sections: seq<Section>, labels: Labels, relocs: seq<Reloc>, k: nat, i: nat,
                  fields: map<Place, int>, words: map<Place, nat>, fields': map<Place, int>, words': map<Place, nat>,
                  ok: bool)
    requires k < i < |relocs| && RelocsInOrder(relocs) && Undisturbed(relocs, k)
    requires Kept(fields, words, fields', words', relocs[i], ok)
    requires Done(sections, labels, relocs, k, fields, words)
    ensures Done(sections, labels, relocs, k, fields', words')
  {
    var p, q := relocs[k].place, relocs[i].place;
    assert Before(p, q);
    assert p != q && p != Following(q) && (relocs[k].kind == Call ==> q != Following(p));
    assert SameAt(fields, fields', p) && SameAt(words, words', p);
    assert relocs[k].kind == Call ==> SameAt(fields, fields', Following(p));
  }

  /** The first i relocations that could be applied and are undisturbed stay applied. */
  lemma AllDoneStay(sections: seq<Section>, labels: Labels, relocs: seq<Reloc>, i: nat, fields: map<Place, int>,
                    words: map<Place, nat>, fields': map<Place, int>, words': map<Place, nat>, ok: bool)
    requires i < |relocs| && RelocsInOrder(relocs) && Kept(fields, words, fields', words', relocs[i], ok)
    requires DoneUpto(sections, labels, relocs, i, fields, words)
    requires Solvable(sections, labels, relocs, i) ==> Done(sections, labels, relocs, i, fields', words')
    ensures DoneUpto(sections, labels, relocs, i + 1, fields', words')
  {
    forall k: nat | k < i && Solvable(sections, labels, relocs, k) && Undisturbed(relocs, k)
      ensures Done(sections, labels, relocs, k, fields', words') {
      DoneStays(sections, labels, relocs, k, i, fields, words, fields', words', ok);
    }
  }

  ghost predicate DoneUpto(sections: seq<Section>, labels: Labels, relocs: seq<Reloc>, n: nat,
                           fields: map<Place, int>, words: map<Place, nat>) {
    n <= |relocs| && forall k: nat :: k < n && Solvable(sections, labels, relocs, k) && Undisturbed(relocs, k) ==>
      Done(sections, labels, relocs, k, fields, words)
  }
}
