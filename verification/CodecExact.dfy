// When the decision tree is exact for an opcode: exact conditions, to be read off the built tree, for
// "every word that finds the opcode matches it" and "every word that matches it finds it".
module CodecExactness {
  import opened Bytes
  import opened CodecTrees

  /** The selected bits of a node, as a set. */
  ghost function BitsOf(node: Node): set<nat> {
    Marked({}, node.bits)
  }

  /** u is a choice of the selected bits for which the node has no explicit case. */
  ghost predicate Unlisted(node: Node, u: set<nat>) {
    u <= BitsOf(node) && Value(u, node.bits) !in node.vals
  }

  /** u agrees with o on the selected bits that o constrains. */
  ghost predicate AgreesAt(node: Node, o: Opcode, u: set<nat>) {
    forall b :: b in node.bits && b in o.mask ==> (b in u <==> b in o.pattern)
  }

  /** On o's way there is a node that files o under DEFAULT while every choice of its bits is listed. */
  ghost predicate Never(node: Node, o: Opcode)
    decreases node
  {
    node.bits != [] &&
    var k := Key(o, node.bits);
    || (k == DEFAULT && forall u :: !Unlisted(node, u))
    || (k in node.valDecodes && Never(node.valDecodes[k], o))
  }

  /** At every node on o's way that files o under DEFAULT, every unlisted choice of the bits agrees with o. */
  ghost predicate Guarded(node: Node, o: Opcode)
    decreases node
  {
    node.bits == [] ||
    var k := Key(o, node.bits);
    && (k == DEFAULT ==> forall u :: Unlisted(node, u) ==> AgreesAt(node, o, u))
    && (k in node.valDecodes ==> Guarded(node.valDecodes[k], o))
  }

  /** At every node on o's way that files o under DEFAULT, no listed choice of the bits agrees with o. */
  ghost predicate Unshadowed(node: Node, o: Opcode)
    decreases node
  {
    node.bits == [] ||
    var k := Key(o, node.bits);
    && (k == DEFAULT ==> forall u :: u <= BitsOf(node) && AgreesAt(node, o, u) ==> Unlisted(node, u))
    && (k in node.valDecodes ==> Unshadowed(node.valDecodes[k], o))
  }

  /** Only the selected bits of a word matter to its value. */
  lemma ValueOfPart(w: set<nat>, bits: seq<nat>, all: set<nat>)
    requires forall b :: b in bits ==> b in all
    ensures Value(w * all, bits) == Value(w, bits)
  {
    ValueInjective(w * all, w, bits);
  }

  // ----- finding only what matches -----

  /** A word that finds o takes o's branch. */
  lemma FoundBranch(node: Node, ops: seq<Opcode>, done: set<nat>, o: Opcode, w: set<nat>)
    requires Built(node, ops, done) && node.bits != [] && o in ops && o in Decode(node, ops, w)
    ensures Branch(node, w) == Key(o, node.bits) && Key(o, node.bits) in node.vals
    ensures o in Filter(ops, node.bits, Key(o, node.bits))
    ensures o in Decode(node.valDecodes[Key(o, node.bits)], Filter(ops, node.bits, Key(o, node.bits)), w)
    ensures Key(o, node.bits) == DEFAULT ==> Unlisted(node, w * BitsOf(node))
  {
    if Branch(node, w) != Key(o, node.bits) {
      NotElsewhere(node, ops, done, o, w);
    }
    FilterMembers(ops, node.bits, Key(o, node.bits));
    ValueIsExplicit(w, node.bits, ops, done);
    ValueOfPart(w, node.bits, BitsOf(node));
  }

  lemma {:induction false} NeverFound(node: Node, ops: seq<Opcode>, done: set<nat>, o: Opcode, w: set<nat>)
    requires Built(node, ops, done) && o in ops && Never(node, o)
    ensures o !in Decode(node, ops, w)
    decreases node
  {
    if o in Decode(node, ops, w) {
      var k := Key(o, node.bits);
      FoundBranch(node, ops, done, o, w);
      if Never(node.valDecodes[k], o) {
        NeverFound(node.valDecodes[k], Filter(ops, node.bits, k), Marked(done, node.bits), o, w);
      }
    }
  }

  /** The bits of a guarded opcode that are not compared on the way agree all the same. */
  lemma {:induction false} GuardedAgrees(node: Node, ops: seq<Opcode>, done: set<nat>, o: Opcode, w: set<nat>)
    requires Built(node, ops, done) && o in ops && Guarded(node, o) && o in Decode(node, ops, w)
    ensures forall b :: b in Lost(node, o) ==> (b in w <==> b in o.pattern)
    decreases node
  {
    if node.bits != [] {
      var k := Key(o, node.bits);
      FoundBranch(node, ops, done, o, w);
      GuardedAgrees(node.valDecodes[k], Filter(ops, node.bits, k), Marked(done, node.bits), o, w);
    }
  }

  lemma GuardedMatches(node: Node, ops: seq<Opcode>, o: Opcode, w: set<nat>)
    requires Built(node, ops, {}) && o in ops && (forall b :: b in o.mask ==> b < MAX_WIDTH)
    requires Guarded(node, o) && o in Decode(node, ops, w)
    ensures Matches(w, o)
  {
    FoundAgrees(node, ops, {}, o, w);
    GuardedAgrees(node, ops, {}, o, w);
    forall b | b in o.mask ensures b in w <==> b in o.pattern {
      EveryBitAccounted(node, ops, {}, o, b);
    }
  }

  // ----- a word that finds an opcode -----

  /** Below a node only the bits that are not done matter. */
  lemma {:induction false} DecodeLocal(node: Node, ops: seq<Opcode>, done: set<nat>, w: set<nat>, u: set<nat>)
    requires Built(node, ops, done) && forall b :: b !in done ==> (b in w <==> b in u)
    ensures Decode(node, ops, w) == Decode(node, ops, u)
    decreases node
  {
    if node.bits != [] {
      assert forall b :: b in node.bits ==> b !in done;
      ValueInjective(w, u, node.bits);
      var v := Branch(node, w);
      if v in node.vals {
        DecodeLocal(node.valDecodes[v], Filter(ops, node.bits, v), Marked(done, node.bits), w, u);
      }
    }
  }

  /** The word that has the bits of u at a node and those of below elsewhere. */
  ghost function Splice(node: Node, u: set<nat>, below: set<nat>): set<nat> {
    u * BitsOf(node) + (below - BitsOf(node))
  }

  /** Such a word takes o's branch if u does, and then finds what below finds. */
  lemma SpliceFinds(node: Node, ops: seq<Opcode>, done: set<nat>, o: Opcode, u: set<nat>, below: set<nat>)
    requires Built(node, ops, done) && node.bits != [] && o in ops
    requires if Key(o, node.bits) == DEFAULT then Unlisted(node, u) else u == o.pattern
    requires Key(o, node.bits) in node.vals
    requires o in Decode(node.valDecodes[Key(o, node.bits)], Filter(ops, node.bits, Key(o, node.bits)), below)
    ensures o in Decode(node, ops, Splice(node, u, below))
  {
    var w, k := Splice(node, u, below), Key(o, node.bits);
    ValueInjective(w, u, node.bits);
    ValueIsExplicit(o.pattern, node.bits, ops, done);
    DecodeLocal(node.valDecodes[k], Filter(ops, node.bits, k), Marked(done, node.bits), w, below);
  }

  /**
   * An opcode that is not out of reach is found by some word; if it is not guarded, by one that disagrees
   * with it on a bit not yet done.
   */
  lemma {:induction false} SomeWordFinds(node: Node, ops: seq<Opcode>, done: set<nat>, o: Opcode, wrong: bool)
    returns (w: set<nat>, b: nat)
    requires Built(node, ops, done) && o in ops && !Never(node, o)
    requires wrong ==> !Guarded(node, o)
    ensures o in Decode(node, ops, w)
    ensures wrong ==> b in o.mask && b !in done && !(b in w <==> b in o.pattern)
    decreases node
  {
    w, b := {}, 0;
    if node.bits != [] {
      var k := Key(o, node.bits);
      assert k in node.vals;
      FilterMembers(ops, node.bits, k);
      var u, here := ChooseBits(node, ops, done, o, wrong);
      if here.Some? {
        var below, _ := SomeWordFinds(node.valDecodes[k], Filter(ops, node.bits, k), Marked(done, node.bits), o, false);
        w, b := Splice(node, u, below), here.value;
        SpliceFinds(node, ops, done, o, u, below);
      } else {
        var below, deeper :=
          SomeWordFinds(node.valDecodes[k], Filter(ops, node.bits, k), Marked(done, node.bits), o, wrong);
        w, b := Splice(node, u, below), deeper;
        SpliceFinds(node, ops, done, o, u, below);
      }
    }
  }

  /** The bits of such a word at one node: a selected bit that disagrees with o, if there is to be one and can be. */
  lemma ChooseBits(node: Node, ops: seq<Opcode>, done: set<nat>, o: Opcode, wrong: bool)
    returns (u: set<nat>, b: Option<nat>)
    requires Built(node, ops, done) && node.bits != [] && o in ops && !Never(node, o) && Key(o, node.bits) in node.vals
    requires wrong ==> !Guarded(node, o)
    ensures if Key(o, node.bits) == DEFAULT then Unlisted(node, u) else u == o.pattern
    ensures b.Some? ==>
      b.value in BitsOf(node) && b.value in o.mask && b.value !in done && !(b.value in u <==> b.value in o.pattern)
    ensures wrong && b.None? ==> !Guarded(node.valDecodes[Key(o, node.bits)], o)
  {
    b := None;
    if Key(o, node.bits) != DEFAULT {
      u := o.pattern;
    } else if wrong && exists v :: Unlisted(node, v) && !AgreesAt(node, o, v) {
      u :| Unlisted(node, u) && !AgreesAt(node, o, u);
      var c :| c in node.bits && c in o.mask && !(c in u <==> c in o.pattern);
      b := Some(c);
    } else {
      u :| Unlisted(node, u);
    }
  }

  /**
   * Every word that finds o matches it exactly when no word finds o at all, or every unlisted choice of
   * the bits where o is under DEFAULT agrees with o.
   */
  lemma OnlyMatchesFound(node: Node, ops: seq<Opcode>, o: Opcode)
    requires Built(node, ops, {}) && o in ops && (forall b :: b in o.mask ==> b < MAX_WIDTH)
    ensures (forall w :: o in Decode(node, ops, w) ==> Matches(w, o)) <==> Never(node, o) || Guarded(node, o)
  {
    if Never(node, o) {
      forall w ensures o !in Decode(node, ops, w) {
        NeverFound(node, ops, {}, o, w);
      }
    } else if Guarded(node, o) {
      forall w | o in Decode(node, ops, w) ensures Matches(w, o) {
        GuardedMatches(node, ops, o, w);
      }
    } else {
      var w, b := SomeWordFinds(node, ops, {}, o, true);
      assert o in Decode(node, ops, w) && !Matches(w, o);
    }
  }

  /** No word finds o exactly when its way ends at a node that lists every choice of its bits. */
  lemma NeverExactly(node: Node, ops: seq<Opcode>, o: Opcode)
    requires Built(node, ops, {}) && o in ops
    ensures (forall w :: o !in Decode(node, ops, w)) <==> Never(node, o)
  {
    if Never(node, o) {
      forall w ensures o !in Decode(node, ops, w) {
        NeverFound(node, ops, {}, o, w);
      }
    } else {
      var w, _ := SomeWordFinds(node, ops, {}, o, false);
    }
  }

  // ----- finding all that matches -----

  /** An opcode that is not unshadowed has a matching word that is shadowed. */
  lemma {:induction false} SomeWordShadowed(node: Node, o: Opcode) returns (w: set<nat>)
    requires !Unshadowed(node, o)
    ensures Matches(w, o) && Shadowed(node, o, w)
    decreases node
  {
    var k := Key(o, node.bits);
    if k == DEFAULT && exists u :: u <= BitsOf(node) && AgreesAt(node, o, u) && !Unlisted(node, u) {
      var u :| u <= BitsOf(node) && AgreesAt(node, o, u) && !Unlisted(node, u);
      w := Splice(node, u, o.pattern);
      ValueInjective(w, u, node.bits);
    } else {
      w := SomeWordShadowed(node.valDecodes[k], o);
    }
  }

  lemma {:induction false} NoWordShadowed(node: Node, o: Opcode, w: set<nat>)
    requires Unshadowed(node, o) && Matches(w, o)
    ensures !Shadowed(node, o, w)
    decreases node
  {
    if node.bits != [] {
      var k := Key(o, node.bits);
      ValueOfPart(w, node.bits, BitsOf(node));
      assert k == DEFAULT ==> AgreesAt(node, o, w * BitsOf(node));
      if k in node.valDecodes {
        NoWordShadowed(node.valDecodes[k], o, w);
      }
    }
  }

  /**
   * Every word that matches o finds it exactly when no listed choice of the bits where o is under DEFAULT
   * agrees with o.
   */
  lemma AllMatchesFound(node: Node, ops: seq<Opcode>, o: Opcode)
    requires Built(node, ops, {}) && o in ops
    ensures (forall w :: Matches(w, o) ==> o in Decode(node, ops, w)) <==> Unshadowed(node, o)
  {
    if Unshadowed(node, o) {
      forall w | Matches(w, o) ensures o in Decode(node, ops, w) {
        NoWordShadowed(node, o, w);
        DecodesUnlessShadowed(node, ops, {}, o, w);
      }
    } else {
      var w := SomeWordShadowed(node, o);
      DecodesUnlessShadowed(node, ops, {}, o, w);
    }
  }

  // ----- exactness -----

  /** The tree finds o for exactly the words that match it, exactly when both conditions hold. */
  lemma DecodeExact(node: Node, ops: seq<Opcode>, o: Opcode)
    requires Built(node, ops, {}) && o in ops && (forall b :: b in o.mask ==> b < MAX_WIDTH)
    ensures (forall w :: o in Decode(node, ops, w) <==> Matches(w, o))
       <==> (Never(node, o) || Guarded(node, o)) && Unshadowed(node, o)
  {
    OnlyMatchesFound(node, ops, o);
    AllMatchesFound(node, ops, o);
  }

  /**
   * For such an opcode, guarded or out of reach, a word finds it iff the word matches and the opcode is not
   * shadowed.
   */
  lemma DecodeGuarded(node: Node, ops: seq<Opcode>, o: Opcode, w: set<nat>)
    requires Built(node, ops, {}) && o in ops && (forall b :: b in o.mask ==> b < MAX_WIDTH)
    requires Never(node, o) || Guarded(node, o)
    ensures o in Decode(node, ops, w) <==> Matches(w, o) && !Shadowed(node, o, w)
  {
    OnlyMatchesFound(node, ops, o);
    if Matches(w, o) {
      DecodesUnlessShadowed(node, ops, {}, o, w);
    }
  }

  /** An opcode that loses no bit is guarded. */
  lemma {:induction false} LosslessIsGuarded(node: Node, o: Opcode)
    requires Lost(node, o) == {}
    ensures Guarded(node, o)
    decreases node
  {
    if node.bits != [] {
      var k := Key(o, node.bits);
      if k == DEFAULT {
        forall u ensures AgreesAt(node, o, u) {
          assert forall b :: b in node.bits && b in o.mask ==> b in Lost(node, o);
        }
      }
      if k in node.valDecodes {
        assert Lost(node.valDecodes[k], o) <= Lost(node, o);
        LosslessIsGuarded(node.valDecodes[k], o);
      }
    }
  }

  /** o has an explicit value at every node on its way. */
  ghost predicate ExplicitWay(node: Node, o: Opcode)
    decreases node
  {
    node.bits == [] ||
    var k := Key(o, node.bits);
    k != DEFAULT && (k in node.valDecodes ==> ExplicitWay(node.valDecodes[k], o))
  }

  lemma {:induction false} ExplicitIsSafe(node: Node, o: Opcode)
    requires ExplicitWay(node, o)
    ensures Guarded(node, o) && Unshadowed(node, o)
    decreases node
  {
    if node.bits != [] {
      var k := Key(o, node.bits);
      if k in node.valDecodes {
        ExplicitIsSafe(node.valDecodes[k], o);
      }
    }
  }

  /** An opcode filed explicitly all the way is found by exactly the words that match it. */
  lemma ExplicitOpcodesDecode(node: Node, ops: seq<Opcode>, o: Opcode, w: set<nat>)
    requires Built(node, ops, {}) && o in ops && (forall b :: b in o.mask ==> b < MAX_WIDTH)
    requires ExplicitWay(node, o)
    ensures o in Decode(node, ops, w) <==> Matches(w, o)
  {
    ExplicitIsSafe(node, o);
    DecodeExact(node, ops, o);
  }
}
