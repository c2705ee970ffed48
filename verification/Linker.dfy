// The link step of the assembler, as it runs: lookups by scanning the label map,
// relocations applied one by one, in place.
module Linkers {
  import opened Bytes
  import opened PcRelative
  import opened Linking

  class Assembler {
    var sections: seq<Section>
    var labels: Labels
    var relocs: seq<Reloc>
    // The immediate the machine reads from the instruction at a place, and the data words.
    var fields: map<Place, int>
    var words: map<Place, nat>

    constructor ()
      ensures sections == [Section(0, 0), Section(0, 0)] && labels == Labels(map[], []) && relocs == []
        && fields == map[] && words == map[]
    {
      sections, labels, relocs, fields, words := [Section(0, 0), Section(0, 0)], Labels(map[], []), [], map[], map[];
    }

    ghost predicate Valid()
      reads this
    {
      |sections| <= SHN_ABS && LabelsValid(labels, |sections|) && RelocsInOrder(relocs) &&
      forall i: nat :: i < |relocs| ==> Inside(sections, relocs[i].place)
    }

    method LookupForward(at: Place, num: int) returns (r: Option<Label>)
      requires InOrder(labels.byPlace)
      ensures r == Forward(labels.byPlace, at, num)
    {
      var found, i, byPlace := false, 0, labels.byPlace;
      while i < |byPlace|
        invariant i <= |byPlace|
        invariant found ==> 0 < i && Before(at, byPlace[i - 1].place)
        invariant Forward(byPlace, at, num) == Forward(byPlace[i..], at, num)
      {
        if Before(at, byPlace[i].place) {
          found := true;
        }
        if found && byPlace[i].num == num {
          return Some(byPlace[i]);
        }
        assert byPlace[i..][1..] == byPlace[i + 1..];
        i := i + 1;
      }
      r := None;
    }

    method LookupBackward(at: Place, num: int) returns (r: Option<Label>)
      requires InOrder(labels.byPlace)
      ensures r == Backward(labels.byPlace, at, num)
    {
      r := None;
      var i, byPlace := 0, labels.byPlace;
      while i < |byPlace|
        invariant i <= |byPlace|
        invariant r == Backward(byPlace[..i], at, num)
      {
        if Before(at, byPlace[i].place) {
          BackwardStops(byPlace, at, num, i, |byPlace|);
          assert byPlace[..|byPlace|] == byPlace;
          return;
        }
        assert byPlace[..i + 1][..i] == byPlace[..i];
        if byPlace[i].num == num {
          r := Some(byPlace[i]);
        }
        i := i + 1;
      }
      assert byPlace[..i] == byPlace;
    }

    method Lookup(at: Place, name: string) returns (r: Option<Label>)
      requires InOrder(labels.byPlace)
      ensures r == Resolve(labels, at, name)
    {
      if IsLocal(name) {
        var num := Number(name[..|name| - 1]);
        if name[|name| - 1] == 'f' {
          r := LookupForward(at, num);
        } else {
          r := LookupBackward(at, num);
        }
      } else {
        r := ByName(labels, name);
      }
    }

    /** Writes the values of one relocation at p, for a target t and an instruction address a. */
    method Patch(p: Place, kind: Kind, a: nat, t: nat, ghost r: Reloc)
      requires r.place == p && r.kind == kind
      modifies this`fields, this`words
      ensures Patched(kind, p, a, t, fields, words)
      ensures Kept(old(fields), old(words), fields, words, r, true)
    {
      match kind {
        case Jal =>
          fields := fields[p := FieldJ(ToInt(Wrap64(t - a)))];
        case Branch =>
          fields := fields[p := FieldB(ToInt(Wrap64(t - a)))];
        case Hi20 =>
          HalvesFit(t, 0);
          fields := fields[p := FieldU(Upper(t, 0))];
        case Lo12 =>
          HalvesFit(t, 0);
          fields := fields[p := FieldI(Lower(t, 0))];
        case PcrelHi20 =>
          HalvesFit(t, a);
          fields := fields[p := FieldU(Upper(t, a))];
        case PcrelLo12 =>
          HalvesFit(t, a);
          fields := fields[p := FieldI(Lower(t, a))];
        case Call =>
          HalvesFit(t, a);
          fields := fields[Following(p) := FieldI(Lower(t, a))];
          fields := fields[p := FieldU(Upper(t, a))];
        case Word32 =>
          words := words[p := t % WORD32];
        case Word64 =>
          words := words[p := t];
        case Other =>
      }
    }

    /** The names after relocation i has looked its label up. */
    ghost function Renaming(i: nat): seq<Reloc>
      requires i < |relocs|
      reads this
    {
      var l := LabelOf(labels, relocs[i]);
      if l.Some? then relocs[i := relocs[i].(name := l.value.name)] else relocs
    }

    /**
     * Applies relocation i; it is refused exactly when its label is missing or, for a PcrelLo12, when no
     * relocation with a known symbol is found through the label.
     */
    method Relocate(i: nat) returns (ok: bool)
      requires Valid() && i < |relocs| && PairsInside(sections, labels, relocs)
      modifies this`relocs, this`fields, this`words
      ensures relocs == old(Renaming(i))
      ensures ok <==> old(LabelOf(labels, relocs[i])).Some? && (relocs[i].kind == PcrelLo12 ==> PairKnown(i))
      ensures ok ==> Done(sections, labels, relocs, i, fields, words)
      ensures Kept(old(fields), old(words), fields, words, relocs[i], ok)
    {
      var p, kind := relocs[i].place, relocs[i].kind;
      ResolvedIsListed(labels, |sections|, p, relocs[i].name);
      var symbol := Lookup(p, relocs[i].name);
      if symbol.None? {
        return false;
      }
      RenamingKeeps(i);
      relocs := relocs[i := relocs[i].(name := symbol.value.name)];
      var t := Target(sections, symbol.value);
      if kind == PcrelLo12 {
        ok := RelocateLower(i, t);
      } else {
        Patch(p, kind, Address(sections, p), t, relocs[i]);
        ok := true;
      }
    }

    lemma RenamingKeeps(i: nat)
      requires Valid() && i < |relocs|
      ensures Renamed(labels, relocs, Renaming(i))
      ensures PairsInside(sections, labels, relocs) ==> PairsInside(sections, labels, Renaming(i))
    {
      ResolvedIsListed(labels, |sections|, relocs[i].place, relocs[i].name);
      if PairsInside(sections, labels, relocs) {
        RenamedPairsInside(sections, labels, relocs, Renaming(i));
      }
    }

    ghost predicate PairKnown(i: nat)
      requires i < |relocs|
      reads this
    {
      var k := PairOf(sections, labels, relocs, relocs[i]);
      k.Some? && ByName(labels, relocs[k.value].name).Some?
    }

    lemma PairIs(i: nat, k: nat, l: Label)
      requires Valid() && i < |relocs| && PairsInside(sections, labels, relocs) && relocs[i].kind == PcrelLo12
      requires PairOf(sections, labels, relocs, relocs[i]) == Some(k)
      requires ByName(labels, relocs[k].name) == Some(l)
      ensures LabelOf(labels, relocs[k]) == Some(l) && Inside(sections, l.place) && Inside(sections, relocs[k].place)
      ensures Patched(PcrelLo12, relocs[i].place, Address(sections, relocs[k].place), Address(sections, l.place),
                      fields, words)
          ==> Done(sections, labels, relocs, i, fields, words)
    {
      assert !IsLocal(relocs[k].name);
      assert LabelOf(labels, relocs[k]) == Some(l);
      assert Inside(sections, LabelOf(labels, relocs[k]).value.place);
    }

    /** The lower half of a pair, with its target and place from the relocation its label leads to. */
    method RelocateLower(i: nat, t: nat) returns (ok: bool)
      requires Valid() && i < |relocs| && PairsInside(sections, labels, relocs) && relocs[i].kind == PcrelLo12
      requires LabelOf(labels, relocs[i]).Some? && Usable(sections, LabelOf(labels, relocs[i]).value)
      requires t == Target(sections, LabelOf(labels, relocs[i]).value)
      modifies this`fields, this`words
      ensures ok <==> PairKnown(i)
      ensures ok ==> Done(sections, labels, relocs, i, fields, words)
      ensures Kept(old(fields), old(words), fields, words, relocs[i], ok)
    {
      var k := Find(relocs, Place(relocs[i].place.section, t));
      assert k == PairOf(sections, labels, relocs, relocs[i]);
      if k.None? {
        return false;
      }
      var source := relocs[k.value];
      var symbol := ByName(labels, source.name);
      if symbol.None? {
        return false;
      }
      PairIs(i, k.value, symbol.value);
      Patch(relocs[i].place, PcrelLo12, Address(sections, source.place), Address(sections, symbol.value.place),
            relocs[i]);
      ok := true;
    }

    method LayOut()
      requires sections != []
      modifies this`sections
      ensures sections == Placed(old(sections))
    {
      ghost var was := sections;
      PlacedAt(was, 0);
      sections := sections[0 := sections[0].(base := 0)];
      var n := 1;
      while n < |sections|
        invariant 1 <= n <= |sections| == |was|
        invariant forall k: nat :: k < n ==> sections[k] == Placed(was)[k]
        invariant forall k: nat :: n <= k < |was| ==> sections[k] == was[k]
      {
        PlacedAt(was, n);
        sections := sections[n := sections[n].(base := sections[n - 1].base + sections[n - 1].size)];
        n := n + 1;
      }
    }

    /**
     * Links: the sections follow each other, and every relocation that can be applied is, and stays so to
     * the end unless another one stands on its second instruction; the others are counted. Nothing else is
     * written.
     */
    method Link() returns (unresolved: nat)
      requires Valid() && sections != []
      requires PairsInside(Placed(sections), labels, relocs)
      modifies this
      ensures sections == Placed(old(sections)) && LaidOut(sections) && labels == old(labels)
      ensures NamedUpto(labels, old(relocs), relocs, |relocs|)
      ensures unresolved == Unsolvable(sections, labels, old(relocs), |relocs|)
      ensures unresolved == 0 <==> forall i: nat :: i < |relocs| ==> Solvable(sections, labels, old(relocs), i)
      ensures forall i: nat ::
        i < |relocs| && Solvable(sections, labels, old(relocs), i) && Undisturbed(old(relocs), i) ==>
        Done(sections, labels, old(relocs), i, fields, words)
      ensures Framed(sections, labels, old(relocs), |relocs|, old(fields), old(words), fields, words)
    {
      PlacedIsLaidOut(sections);
      LayOut();
      NoneUnsolvable(sections, labels, relocs, |relocs|);
      unresolved := RelocateAll(relocs);
    }

    method RelocateAll(ghost was: seq<Reloc>) returns (unresolved: nat)
      requires was == relocs && Progress(was, 0)
      modifies this`relocs, this`fields, this`words
      ensures Progress(was, |was|)
      ensures unresolved == Unsolvable(sections, labels, was, |was|)
      ensures Framed(sections, labels, was, |was|, old(fields), old(words), fields, words)
    {
      unresolved := 0;
      ghost var f, w := fields, words;
      for i := 0 to |relocs|
        invariant Progress(was, i)
        invariant unresolved == Unsolvable(sections, labels, was, i)
        invariant Framed(sections, labels, was, i, f, w, fields, words)
      {
        ghost var f0, w0 := fields, words;
        var ok := LinkOne(i, was);
        FramedNext(sections, labels, was, i, was[i], f, w, f0, w0, fields, words);
        unresolved := unresolved + if ok then 0 else 1;
      }
    }

    /** The first n of the relocations are linked, if they can be. */
    ghost predicate Progress(was: seq<Reloc>, n: nat)
      reads this
    {
      n <= |was| == |relocs| && Valid() && RelocsInOrder(was) && PairsInside(sections, labels, relocs) &&
      NamedUpto(labels, was, relocs, n) && DoneUpto(sections, labels, was, n, fields, words)
    }

    method LinkOne(i: nat, ghost was: seq<Reloc>) returns (ok: bool)
      requires Progress(was, i) && i < |relocs|
      modifies this`relocs, this`fields, this`words
      ensures Progress(was, i + 1)
      ensures ok <==> Solvable(sections, labels, was, i)
      ensures Kept(old(fields), old(words), fields, words, was[i], ok)
    {
      ghost var f, w := fields, words;
      NamedIsRenamed(labels, |sections|, was, relocs, i);
      RenamingKeeps(i);
      ok := Relocate(i);
      SolvableNow(sections, labels, was, relocs, i);
      NamedIsRenamed(labels, |sections|, was, relocs, i + 1);
      RenamedDone(sections, labels, was, relocs, i, fields, words);
      AllDoneStay(sections, labels, was, i, f, w, fields, words, ok);
    }
  }

  /** Labels past a later one are past the place too. */
  lemma {:induction false} BackwardStops(byPlace: seq<Label>, at: Place, num: int, i: nat, k: nat)
    requires InOrder(byPlace) && i < |byPlace| && i <= k <= |byPlace| && Before(at, byPlace[i].place)
    ensures Backward(byPlace[..k], at, num) == Backward(byPlace[..i], at, num)
  {
    if i < k {
      assert byPlace[..k][..k - 1] == byPlace[..k - 1];
      assert Before(at, byPlace[k - 1].place);
      BackwardStops(byPlace, at, num, i, k - 1);
    }
  }
}
