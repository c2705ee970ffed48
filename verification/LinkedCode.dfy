// Where the instructions of a linked program lead: what Done means to the machine.
module LinkedCode {
  import opened Bytes
  import opened PcRelative
  import opened Linking

  /** What a pair of halves is to the machine, for any values that hold them. */
  lemma HalvesHold(t: nat, a: nat, u: int, l: int)
    requires t < WORD64 && a < WORD64 && u == Upper(t, a) && l == Lower(t, a)
    ensures -2048 <= l <= 2047
    ensures Wrap64(a + u + l) == t <==> NearEnough(t, a)
  {
    LowerFits(t, a);
    HalvesReach(t, a);
  }

  lemma AddressIsWord(sections: seq<Section>, l: Label)
    requires Usable(sections, l)
    ensures Target(sections, l) < WORD64
  {
  }

  /** A linked call reaches its symbol exactly when it is near enough, and its lower half always fits. */
  lemma CallReaches(sections: seq<Section>, labels: Labels, relocs: seq<Reloc>, i: nat, fields: map<Place, int>,
                    words: map<Place, nat>)
    requires i < |relocs| && relocs[i].kind == Call && Done(sections, labels, relocs, i, fields, words)
    ensures
      var p, t := relocs[i].place, Target(sections, LabelOf(labels, relocs[i]).value);
      var a := Address(sections, p);
      var q := Place(p.section, p.offset + 4);
      -2048 <= fields[q] <= 2047 && (Wrap64(a + fields[p] + fields[q]) == t <==> NearEnough(t, a))
  {
    var t, a := Target(sections, LabelOf(labels, relocs[i]).value), Address(sections, relocs[i].place);
    AddressIsWord(sections, LabelOf(labels, relocs[i]).value);
    HalvesHold(t, a, fields[relocs[i].place], fields[Following(relocs[i].place)]);
  }

  /**
   * A linked auipc k and the instruction i that names it reach the symbol of the auipc exactly when it is
   * near enough to the auipc.
   */
  lemma PairReaches(sections: seq<Section>, labels: Labels, relocs: seq<Reloc>, k: nat, i: nat,
                    fields: map<Place, int>, words: map<Place, nat>)
    requires k < |relocs| && i < |relocs| && relocs[k].kind == PcrelHi20 && relocs[i].kind == PcrelLo12
    requires PairOf(sections, labels, relocs, relocs[i]) == Some(k)
    requires Done(sections, labels, relocs, k, fields, words) && Done(sections, labels, relocs, i, fields, words)
    ensures
      var t, a := Target(sections, LabelOf(labels, relocs[k]).value), Address(sections, relocs[k].place);
      -2048 <= fields[relocs[i].place] <= 2047 &&
      (Wrap64(a + fields[relocs[k].place] + fields[relocs[i].place]) == t <==> NearEnough(t, a))
  {
    var t, a := Target(sections, LabelOf(labels, relocs[k]).value), Address(sections, relocs[k].place);
    AddressIsWord(sections, LabelOf(labels, relocs[k]).value);
    HalvesHold(t, a, fields[relocs[k].place], fields[relocs[i].place]);
  }

  /**
   * A linked lui and the instruction that adds the lower half give the symbol's address exactly when 32
   * signed bits, rounded, can.
   */
  lemma AbsoluteReaches(sections: seq<Section>, labels: Labels, relocs: seq<Reloc>, k: nat, i: nat,
                        fields: map<Place, int>, words: map<Place, nat>)
    requires k < |relocs| && i < |relocs| && relocs[k].kind == Hi20 && relocs[i].kind == Lo12
    requires LabelOf(labels, relocs[k]) == LabelOf(labels, relocs[i])
    requires Done(sections, labels, relocs, k, fields, words) && Done(sections, labels, relocs, i, fields, words)
    ensures
      var t := Target(sections, LabelOf(labels, relocs[i]).value);
      Wrap64(fields[relocs[k].place] + fields[relocs[i].place]) == t <==> NearEnough(t, 0)
  {
    var t := Target(sections, LabelOf(labels, relocs[i]).value);
    AddressIsWord(sections, LabelOf(labels, relocs[i]).value);
    HalvesReach(t, 0);
  }

  /** A linked jump or branch reaches its symbol exactly when the distance is even and within the reach of its field. */
  lemma BranchesReach(sections: seq<Section>, labels: Labels, relocs: seq<Reloc>, i: nat, fields: map<Place, int>,
                      words: map<Place, nat>)
    requires i < |relocs| && (relocs[i].kind == Jal || relocs[i].kind == Branch)
    requires Done(sections, labels, relocs, i, fields, words)
    ensures
      var t, a := Target(sections, LabelOf(labels, relocs[i]).value), Address(sections, relocs[i].place);
      var reach := if relocs[i].kind == Jal then 0x10_0000 else 0x1000;
      Wrap64(a + fields[relocs[i].place]) == t <==> Distance(t, a) % 2 == 0 && -reach <= Distance(t, a) < reach
  {
    var t, a := Target(sections, LabelOf(labels, relocs[i]).value), Address(sections, relocs[i].place);
    AddressIsWord(sections, LabelOf(labels, relocs[i]).value);
    JumpReaches(t, a);
    BranchReaches(t, a);
  }

  /** A linked word holds the address of its symbol, cut to its width. */
  lemma WordsHold(sections: seq<Section>, labels: Labels, relocs: seq<Reloc>, i: nat, fields: map<Place, int>,
                  words: map<Place, nat>)
    requires i < |relocs| && (relocs[i].kind == Word32 || relocs[i].kind == Word64)
    requires Done(sections, labels, relocs, i, fields, words)
    ensures
      var l := LabelOf(labels, relocs[i]).value.place;
      var v := if l.section == 0xfff1 then l.offset else sections[l.section].base + l.offset;
      relocs[i].place in words &&
      words[relocs[i].place] == v % if relocs[i].kind == Word32 then 0x1_0000_0000 else 0x1_0000_0000_0000_0000
  {
    var l := LabelOf(labels, relocs[i]).value.place;
    var v := if l.section == SHN_ABS then l.offset else sections[l.section].base + l.offset;
    var k := Wrap64Splits(v);
    CutTwice(v, Wrap64(v), k);
  }

  lemma CutTwice(v: nat, u: nat, k: int)
    requires v == WORD64 * k + u
    ensures v % WORD32 == u % WORD32
  {
    var a, b := u / WORD32, u % WORD32;
    var m := WORD32 * k + a;
    assert v == WORD32 * m + b;
    RemainderIs(v, m, b);
  }

  lemma RemainderIs(v: int, m: int, b: int)
    requires v == WORD32 * m + b && 0 <= b < WORD32
    ensures v % WORD32 == b
  {
  }

  lemma FindUnique(relocs: seq<Reloc>, k: nat)
    requires RelocsInOrder(relocs) && k < |relocs|
    ensures Find(relocs, relocs[k].place) == Some(k)
  {
    assert forall j: nat :: j < k ==> Before(relocs[j].place, relocs[k].place);
    assert forall j: nat :: k < j < |relocs| ==> Before(relocs[k].place, relocs[j].place);
  }

  /**
   * A lower half whose label stands at the auipc k finds the auipc exactly when its section starts at address
   * zero: the search takes the label's address for an offset in the section.
   */
  lemma PairFound(sections: seq<Section>, labels: Labels, relocs: seq<Reloc>, k: nat, i: nat)
    requires RelocsInOrder(relocs) && k < |relocs| && i < |relocs|
    requires relocs[i].place.section == relocs[k].place.section && Inside(sections, relocs[k].place)
    requires sections[relocs[k].place.section].base < WORD64 && relocs[k].place.offset < WORD64 && |sections| <= SHN_ABS
    requires LabelOf(labels, relocs[i]).Some? && LabelOf(labels, relocs[i]).value.place == relocs[k].place
    ensures PairOf(sections, labels, relocs, relocs[i]) == Some(k) <==> sections[relocs[k].place.section].base == 0
  {
    var p := relocs[k].place;
    var b := sections[p.section].base;
    FindUnique(relocs, k);
    if b != 0 {
      var j := Wrap64Splits(b + p.offset);
      assert Address(sections, p) != p.offset;
    }
  }

  lemma LowerSamples()
    ensures Lower(12, 4) == 8 && Lower(4, 8) == -4
  {
    assert Wrap64(0x808) == 0x808 && Wrap64(0x7fc) == 0x7fc;
    assert Upper(12, 4) == 0 && Upper(4, 8) == 0;
    assert Wrap64(8) == 8 && Wrap64(-4) == WORD64 - 4;
  }

  /**
   * Four bytes before the code section are enough for a lower half to take itself for its auipc, and to be
   * patched with the wrong value.
   */
  lemma PairMissed()
    ensures
      var sections := [Section(0, 4), Section(4, 8)];
      var here, there := Label(".Lhere", Place(1, 0), 0), Label("there", Place(1, 8), 0);
      var labels := Labels(map[".Lhere" := here, "there" := there], [here, there]);
      var relocs := [Reloc(Place(1, 0), "there", PcrelHi20), Reloc(Place(1, 4), ".Lhere", PcrelLo12)];
      LaidOut(sections) && LabelsValid(labels, |sections|) && RelocsInOrder(relocs) &&
      PairOf(sections, labels, relocs, relocs[1]) == Some(1) && Solvable(sections, labels, relocs, 1) &&
      Lower(Target(sections, there), Address(sections, relocs[0].place)) == 8 &&
      Lower(Target(sections, here), Address(sections, relocs[1].place)) == -4
  {
    var here, there := Label(".Lhere", Place(1, 0), 0), Label("there", Place(1, 8), 0);
    var labels := Labels(map[".Lhere" := here, "there" := there], [here, there]);
    var relocs := [Reloc(Place(1, 0), "there", PcrelHi20), Reloc(Place(1, 4), ".Lhere", PcrelLo12)];
    LowerSamples();
    assert !IsLocal(".Lhere") && !IsLocal("there");
    assert Resolve(labels, Place(1, 4), ".Lhere") == Some(here);
    FindUnique(relocs, 1);
  }
}
