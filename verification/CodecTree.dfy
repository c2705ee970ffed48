// The decoder decision tree of rv-meta.cc: what generate_codec_node builds, and
// what walking the tree with an instruction word finds.
//
// Masks, patterns, marks and instruction words are sets of bit numbers.
module CodecTrees {
  import opened Powers

  const MAX_WIDTH := 32
  const DEFAULT: nat := 0x7fff_ffff_ffff_ffff  // the largest ssize_t

  class Opcode {
    const mask: set<nat>
    const pattern: set<nat>  // the field `match`
    var done: set<nat>

    constructor (mask: set<nat>, pattern: set<nat>)
      ensures this.mask == mask && this.pattern == pattern && done == {}
    {
      this.mask, this.pattern, this.done := mask, pattern, {};
    }
  }

  datatype Node = Node(bits: seq<nat>, vals: seq<nat>, valOpcodes: map<nat, seq<Opcode>>, valDecodes: map<nat, Node>)

  const LEAF := Node([], [], map[], map[])

  /** Word w is an instance of opcode o. */
  ghost predicate Matches(w: set<nat>, o: Opcode) {
    forall b :: b in o.mask ==> (b in w <==> b in o.pattern)
  }

  // ----- selecting bits -----

  /** How many opcodes of the list constrain bit b. */
  function Rows(ops: seq<Opcode>, b: nat): nat {
    if ops == [] then 0 else Rows(ops[..|ops| - 1], b) + if b in ops[|ops| - 1].mask then 1 else 0
  }

  lemma {:induction false} RowsPositive(ops: seq<Opcode>, b: nat)
    ensures Rows(ops, b) > 0 <==> exists o :: o in ops && b in o.mask
  {
    if ops != [] {
      RowsPositive(ops[..|ops| - 1], b);
      assert ops == ops[..|ops| - 1] + [ops[|ops| - 1]];
    }
  }

  /** That is the number of their places in the list. */
  lemma {:induction false} RowsCount(ops: seq<Opcode>, b: nat)
    ensures Rows(ops, b) == |set i | 0 <= i < |ops| && b in ops[i].mask|
  {
    if ops != [] {
      var n := |ops| - 1;
      RowsCount(ops[..n], b);
      assert (set i | 0 <= i < n && b in ops[..n][i].mask) == set i | 0 <= i < n && b in ops[i].mask;
      assert (set i | 0 <= i < |ops| && b in ops[i].mask)
        == (set i | 0 <= i < n && b in ops[i].mask) + if b in ops[n].mask then {n} else {};
    }
  }

  /** A bit still to be tested, for opcodes whose marks are done. */
  ghost predicate Open(ops: seq<Opcode>, done: set<nat>, b: nat) {
    b < MAX_WIDTH && b !in done && Rows(ops, b) > 0
  }

  ghost predicate Descending(bits: seq<nat>) {
    forall i, j :: 0 <= i < j < |bits| ==> bits[i] > bits[j]
  }

  /** bits are the open bits that most opcodes constrain, from the highest down; none if no bit is open. */
  ghost predicate Selection(bits: seq<nat>, ops: seq<Opcode>, done: set<nat>) {
    && Descending(bits)
    && (forall b :: b in bits <==>
          Open(ops, done, b) && forall c :: Open(ops, done, c) ==> Rows(ops, c) <= Rows(ops, b))
  }

  // ----- values -----

  /** The selected bits of a word, packed; the first bit is the most significant. */
  function Value(w: set<nat>, bits: seq<nat>): nat {
    if bits == [] then 0 else 2 * Value(w, bits[..|bits| - 1]) + if bits[|bits| - 1] in w then 1 else 0
  }

  predicate Full(o: Opcode, bits: seq<nat>) {
    forall i :: 0 <= i < |bits| ==> bits[i] in o.mask
  }

  /** The value an opcode is filed under. */
  function Key(o: Opcode, bits: seq<nat>): nat {
    if Full(o, bits) then Value(o.pattern, bits) else DEFAULT
  }

  /** Equal values mean equal bits. */
  lemma {:induction false} ValueInjective(w: set<nat>, u: set<nat>, bits: seq<nat>)
    ensures Value(w, bits) == Value(u, bits) <==> forall b :: b in bits ==> (b in w <==> b in u)
  {
    if bits != [] {
      var init, last := bits[..|bits| - 1], bits[|bits| - 1];
      ValueInjective(w, u, init);
      assert bits == init + [last];
    }
  }

  /** Bit i of the list is bit |bits| - 1 - i of the value. */
  lemma {:induction false} ValueBit(w: set<nat>, bits: seq<nat>, i: nat)
    requires i < |bits|
    ensures Bit(Value(w, bits), |bits| - 1 - i) <==> bits[i] in w
  {
    var n := |bits| - 1;
    if i < n {
      ValueBit(w, bits[..n], i);
    }
  }

  lemma {:induction false} ValueBound(w: set<nat>, bits: seq<nat>)
    ensures Value(w, bits) < Pow2(|bits|)
  {
    if bits != [] {
      ValueBound(w, bits[..|bits| - 1]);
    }
  }

  lemma {:induction false} DescendingLength(bits: seq<nat>, n: nat)
    requires Descending(bits) && forall b :: b in bits ==> b < n
    ensures |bits| <= n
  {
    if bits != [] {
      assert bits[0] in bits;
      forall b | b in bits[1..] ensures b < n - 1 {
        var i :| 0 <= i < |bits[1..]| && bits[1..][i] == b;
        assert bits[i + 1] < bits[0];
      }
      DescendingLength(bits[1..], n - 1);
    }
  }

  /** No packed value of selected bits can be mistaken for DEFAULT. */
  lemma ValueIsExplicit(w: set<nat>, bits: seq<nat>, ops: seq<Opcode>, done: set<nat>)
    requires Selection(bits, ops, done)
    ensures Value(w, bits) < DEFAULT
  {
    DescendingLength(bits, MAX_WIDTH);
    ValueBound(w, bits);
    Pow2Monotone(|bits|, 32);
    assert Pow2(8) == 0x100;
    assert Pow2(12) == 0x1000;
    assert Pow2(16) == 0x1_0000;
    assert Pow2(20) == 0x10_0000;
    assert Pow2(24) == 0x100_0000;
    assert Pow2(28) == 0x1000_0000;
    assert Pow2(32) == 0x1_0000_0000;
  }

  // ----- the tree -----

  function Filter(ops: seq<Opcode>, bits: seq<nat>, v: nat): seq<Opcode> {
    if ops == [] then []
    else
      var rest, o := Filter(ops[..|ops| - 1], bits, v), ops[|ops| - 1];
      if Key(o, bits) == v then rest + [o] else rest
  }

  lemma {:induction false} FilterMembers(ops: seq<Opcode>, bits: seq<nat>, v: nat)
    ensures forall o :: o in Filter(ops, bits, v) <==> o in ops && Key(o, bits) == v
    ensures |Filter(ops, bits, v)| <= |ops|
  {
    if ops != [] {
      var init, last := ops[..|ops| - 1], ops[|ops| - 1];
      FilterMembers(init, bits, v);
      assert ops == init + [last];
    }
  }

  ghost predicate Ascending(vals: seq<nat>) {
    forall i, j :: 0 <= i < j < |vals| ==> vals[i] < vals[j]
  }

  ghost function Marked(done: set<nat>, bits: seq<nat>): set<nat> {
    done + set b | b in bits :: b
  }

  /** node is what generate_codec_node makes of ops, all of which have the marks done. */
  ghost predicate Built(node: Node, ops: seq<Opcode>, done: set<nat>)
    decreases node
  {
    && Selection(node.bits, ops, done)
    && if node.bits == [] then node == LEAF
       else
         && Ascending(node.vals)
         && (forall v :: v in node.vals <==> exists o :: o in ops && Key(o, node.bits) == v)
         && (forall v :: v in node.vals ==> v in node.valOpcodes && node.valOpcodes[v] == Filter(ops, node.bits, v))
         && (forall v :: v in node.vals ==> v in node.valDecodes)
         && (forall v :: v in node.vals ==>
           Built(node.valDecodes[v], Filter(ops, node.bits, v), Marked(done, node.bits)))
  }

  // ----- walking -----

  /** Where the generated switch goes for word w: an explicit case, else the default case. */
  function Branch(node: Node, w: set<nat>): nat {
    if Value(w, node.bits) in node.vals then Value(w, node.bits) else DEFAULT
  }

  /** The opcodes at the leaf that word w ends in; none if the switch has no case for w. */
  function Decode(node: Node, ops: seq<Opcode>, w: set<nat>): seq<Opcode>
    decreases node
  {
    if node.bits == [] then ops
    else
      var v := Branch(node, w);
      if v in node.vals && v in node.valDecodes && v in node.valOpcodes
      then Decode(node.valDecodes[v], node.valOpcodes[v], w) else []
  }

  /** On o's way down the tree it is filed under DEFAULT at a node where w has a listed explicit value. */
  ghost predicate Shadowed(node: Node, o: Opcode, w: set<nat>)
    decreases node
  {
    node.bits != [] &&
    var k := Key(o, node.bits);
    || (k == DEFAULT && Value(w, node.bits) in node.vals)
    || (k in node.valDecodes && Shadowed(node.valDecodes[k], o, w))
  }

  /** A word that matches o decodes to a leaf that lists o exactly when o is nowhere shadowed on its way. */
  lemma {:induction false} DecodesUnlessShadowed(node: Node, ops: seq<Opcode>, done: set<nat>, o: Opcode, w: set<nat>)
    requires Built(node, ops, done) && o in ops && Matches(w, o)
    ensures o in Decode(node, ops, w) <==> !Shadowed(node, o, w)
    decreases node
  {
    if node.bits != [] {
      var k, v := Key(o, node.bits), Branch(node, w);
      assert k in node.vals;
      MatchingValue(node, ops, done, o, w);
      if v == k {
        FilterMembers(ops, node.bits, k);
        DecodesUnlessShadowed(node.valDecodes[k], Filter(ops, node.bits, k), Marked(done, node.bits), o, w);
      } else {
        NotElsewhere(node, ops, done, o, w);
      }
    }
  }

  /** A matching word takes o's branch unless o is under DEFAULT and the word's value is listed. */
  lemma MatchingValue(node: Node, ops: seq<Opcode>, done: set<nat>, o: Opcode, w: set<nat>)
    requires Built(node, ops, done) && node.bits != [] && o in ops && Matches(w, o)
    ensures Branch(node, w) == Key(o, node.bits) <==>
      !(Key(o, node.bits) == DEFAULT && Value(w, node.bits) in node.vals)
  {
    ValueIsExplicit(w, node.bits, ops, done);
    ValueIsExplicit(o.pattern, node.bits, ops, done);
    assert Key(o, node.bits) in node.vals;
    if Full(o, node.bits) {
      ValueInjective(w, o.pattern, node.bits);
    }
  }

  /** Off its own branch an opcode is never found. */
  lemma NotElsewhere(node: Node, ops: seq<Opcode>, done: set<nat>, o: Opcode, w: set<nat>)
    requires Built(node, ops, done) && node.bits != [] && Branch(node, w) != Key(o, node.bits)
    ensures o !in Decode(node, ops, w)
  {
    var v := Branch(node, w);
    if v in node.vals && o in Decode(node.valDecodes[v], node.valOpcodes[v], w) {
      FilterMembers(ops, node.bits, v);
      DecodeIsSublist(node.valDecodes[v], Filter(ops, node.bits, v), Marked(done, node.bits), o, w);
    }
  }

  lemma {:induction false} DecodeIsSublist(node: Node, ops: seq<Opcode>, done: set<nat>, o: Opcode, w: set<nat>)
    requires Built(node, ops, done) && o in Decode(node, ops, w)
    ensures o in ops
    decreases node
  {
    if node.bits != [] {
      var v := Branch(node, w);
      DecodeIsSublist(node.valDecodes[v], Filter(ops, node.bits, v), Marked(done, node.bits), o, w);
      FilterMembers(ops, node.bits, v);
    }
  }

  /** Two opcodes under different explicit values of a node have no word in common. */
  lemma SeparatedOpcodes(bits: seq<nat>, o: Opcode, p: Opcode, w: set<nat>)
    requires Full(o, bits) && Full(p, bits) && Key(o, bits) != Key(p, bits)
    ensures !(Matches(w, o) && Matches(w, p))
  {
    ValueInjective(w, o.pattern, bits);
    ValueInjective(w, p.pattern, bits);
  }

  // ----- what a leaf tells about the word -----

  /** The bits of o that are compared with the word on o's way down. */
  ghost function Tested(node: Node, o: Opcode): set<nat>
    decreases node
  {
    if node.bits == [] then {}
    else
      var k := Key(o, node.bits);
      (if k != DEFAULT then Marked({}, node.bits) else {}) +
      (if k in node.valDecodes then Tested(node.valDecodes[k], o) else {})
  }

  /** The bits of o that are marked done without a comparison, because o is filed under DEFAULT there. */
  ghost function Lost(node: Node, o: Opcode): set<nat>
    decreases node
  {
    if node.bits == [] then {}
    else
      var k := Key(o, node.bits);
      (if k == DEFAULT then Marked({}, node.bits) * o.mask else {}) +
      (if k in node.valDecodes then Lost(node.valDecodes[k], o) else {})
  }

  /** A word that finds o agrees with it on every tested bit. */
  lemma {:induction false} FoundAgrees(node: Node, ops: seq<Opcode>, done: set<nat>, o: Opcode, w: set<nat>)
    requires Built(node, ops, done) && o in ops && o in Decode(node, ops, w)
    ensures forall b :: b in Tested(node, o) ==> (b in w <==> b in o.pattern)
    decreases node
  {
    if node.bits != [] {
      var k := Key(o, node.bits);
      if Branch(node, w) != k {
        NotElsewhere(node, ops, done, o, w);
      }
      assert k in node.vals;
      FilterMembers(ops, node.bits, k);
      FoundAgrees(node.valDecodes[k], Filter(ops, node.bits, k), Marked(done, node.bits), o, w);
      ValueInjective(w, o.pattern, node.bits);
    }
  }

  /** Some open bit has the most rows, so a selection is empty only when no bit is open. */
  lemma {:induction false} WidestOpen(ops: seq<Opcode>, done: set<nat>, n: nat) returns (b: nat)
    requires exists c: nat :: c < n && Open(ops, done, c)
    ensures b < n && Open(ops, done, b)
    ensures forall c: nat :: c < n && Open(ops, done, c) ==> Rows(ops, c) <= Rows(ops, b)
  {
    if c0: nat :| c0 < n - 1 && Open(ops, done, c0) {
      b := WidestOpen(ops, done, n - 1);
      if Open(ops, done, n - 1) && Rows(ops, n - 1) > Rows(ops, b) {
        b := n - 1;
      }
    } else {
      b := n - 1;
    }
  }

  lemma NothingOpen(ops: seq<Opcode>, done: set<nat>)
    requires Selection([], ops, done)
    ensures forall b :: !Open(ops, done, b)
  {
    if b0: nat :| Open(ops, done, b0) {
      var b := WidestOpen(ops, done, MAX_WIDTH);
      assert false;
    }
  }

  /** Every bit of o is marked already, tested on the way, or lost on the way. */
  lemma {:induction false} EveryBitAccounted(node: Node, ops: seq<Opcode>, done: set<nat>, o: Opcode, b: nat)
    requires Built(node, ops, done) && o in ops && b in o.mask && b < MAX_WIDTH
    ensures b in done || b in Tested(node, o) || b in Lost(node, o)
    decreases node
  {
    if node.bits == [] {
      NothingOpen(ops, done);
      RowsPositive(ops, b);
    } else {
      var k := Key(o, node.bits);
      assert k in node.vals;
      FilterMembers(ops, node.bits, k);
      EveryBitAccounted(node.valDecodes[k], Filter(ops, node.bits, k), Marked(done, node.bits), o, b);
    }
  }

  // ----- the opcodes of a leaf -----

  /** Word w goes the way of o. */
  ghost predicate Follows(node: Node, o: Opcode, w: set<nat>)
    decreases node
  {
    node.bits == [] ||
    var k := Key(o, node.bits);
    k == Branch(node, w) && k in node.valDecodes && Follows(node.valDecodes[k], o, w)
  }

  /** The opcodes of the list whose way w goes, in list order. */
  ghost function OnWay(node: Node, ops: seq<Opcode>, w: set<nat>): seq<Opcode> {
    if ops == [] then []
    else
      var rest, o := OnWay(node, ops[..|ops| - 1], w), ops[|ops| - 1];
      if Follows(node, o, w) then rest + [o] else rest
  }

  lemma {:induction false} OnWayLeaf(node: Node, ops: seq<Opcode>, w: set<nat>)
    requires node.bits == []
    ensures OnWay(node, ops, w) == ops
  {
    if ops != [] {
      OnWayLeaf(node, ops[..|ops| - 1], w);
      assert ops == ops[..|ops| - 1] + [ops[|ops| - 1]];
    }
  }

  lemma {:induction false} OnWayChild(node: Node, ops: seq<Opcode>, w: set<nat>)
    requires node.bits != [] && Branch(node, w) in node.valDecodes
    ensures OnWay(node, ops, w) == OnWay(node.valDecodes[Branch(node, w)], Filter(ops, node.bits, Branch(node, w)), w)
  {
    if ops != [] {
      var init, o, v := ops[..|ops| - 1], ops[|ops| - 1], Branch(node, w);
      OnWayChild(node, init, w);
      var below := Filter(init, node.bits, v);
      if Key(o, node.bits) == v {
        assert (below + [o])[..|below|] == below;
      }
    }
  }

  lemma {:induction false} OnWayEmpty(node: Node, ops: seq<Opcode>, w: set<nat>)
    requires node.bits != [] && forall o :: o in ops ==> Key(o, node.bits) != Branch(node, w)
    ensures OnWay(node, ops, w) == []
  {
    if ops != [] {
      assert ops[|ops| - 1] in ops;
      OnWayEmpty(node, ops[..|ops| - 1], w);
    }
  }

  /** A leaf lists exactly the opcodes that share its way: none lost, none repeated, order kept. */
  lemma {:induction false} LeafInOrder(node: Node, ops: seq<Opcode>, done: set<nat>, w: set<nat>)
    requires Built(node, ops, done)
    ensures Decode(node, ops, w) == OnWay(node, ops, w)
    decreases node
  {
    if node.bits == [] {
      OnWayLeaf(node, ops, w);
    } else {
      var v := Branch(node, w);
      if v in node.vals {
        LeafInOrder(node.valDecodes[v], Filter(ops, node.bits, v), Marked(done, node.bits), w);
        OnWayChild(node, ops, w);
      } else {
        OnWayEmpty(node, ops, w);
      }
    }
  }

  /** The children's lists of a node, one after the other. */
  function FilterAll(ops: seq<Opcode>, bits: seq<nat>, vals: seq<nat>): seq<Opcode> {
    if vals == [] then [] else FilterAll(ops, bits, vals[..|vals| - 1]) + Filter(ops, bits, vals[|vals| - 1])
  }

  lemma {:induction false} FilterAllLast(ops: seq<Opcode>, bits: seq<nat>, vals: seq<nat>)
    requires ops != [] && Ascending(vals)
    ensures var o := ops[|ops| - 1];
      multiset(FilterAll(ops, bits, vals)) ==
      multiset(FilterAll(ops[..|ops| - 1], bits, vals)) + if Key(o, bits) in vals then multiset{o} else multiset{}
  {
    if vals != [] {
      var init, v := vals[..|vals| - 1], vals[|vals| - 1];
      FilterAllLast(ops, bits, init);
      assert vals == init + [v];
      assert v !in init;
    }
  }

  lemma {:induction false} FilterAllEmpty(bits: seq<nat>, vals: seq<nat>)
    ensures FilterAll([], bits, vals) == []
  {
    if vals != [] {
      FilterAllEmpty(bits, vals[..|vals| - 1]);
    }
  }

  /** The children of a node share out its opcodes. */
  lemma {:induction false} ChildrenPartition(ops: seq<Opcode>, bits: seq<nat>, vals: seq<nat>)
    requires Ascending(vals) && forall o :: o in ops ==> Key(o, bits) in vals
    ensures multiset(FilterAll(ops, bits, vals)) == multiset(ops)
  {
    if ops == [] {
      FilterAllEmpty(bits, vals);
    } else {
      var init, o := ops[..|ops| - 1], ops[|ops| - 1];
      assert ops == init + [o];
      FilterAllLast(ops, bits, vals);
      ChildrenPartition(init, bits, vals);
    }
  }

  /** All leaves of the tree, from left to right. */
  ghost function Leaves(node: Node, ops: seq<Opcode>): seq<Opcode>
    decreases node, |node.vals| + 1
  {
    if node.bits == [] then ops else LeavesUpTo(node, ops, |node.vals|)
  }

  ghost function LeavesUpTo(node: Node, ops: seq<Opcode>, n: nat): seq<Opcode>
    requires n <= |node.vals|
    decreases node, n
  {
    if n == 0 then []
    else
      var v := node.vals[n - 1];
      LeavesUpTo(node, ops, n - 1) +
      if v in node.valDecodes then Leaves(node.valDecodes[v], Filter(ops, node.bits, v)) else []
  }

  /** The leaves of the tree partition the list it was built from. */
  lemma {:induction false} LeavesPartition(node: Node, ops: seq<Opcode>, done: set<nat>)
    requires Built(node, ops, done)
    ensures multiset(Leaves(node, ops)) == multiset(ops)
    decreases node, |node.vals| + 1
  {
    if node.bits != [] {
      LeavesUpToPartition(node, ops, done, |node.vals|);
      assert node.vals[..|node.vals|] == node.vals;
      ChildrenPartition(ops, node.bits, node.vals);
    }
  }

  lemma {:induction false} LeavesUpToPartition(node: Node, ops: seq<Opcode>, done: set<nat>, n: nat)
    requires Built(node, ops, done) && node.bits != [] && n <= |node.vals|
    ensures multiset(LeavesUpTo(node, ops, n)) == multiset(FilterAll(ops, node.bits, node.vals[..n]))
    decreases node, n
  {
    if n > 0 {
      var v := node.vals[n - 1];
      assert v in node.vals;
      var here := Filter(ops, node.bits, v);
      LeavesUpToPartition(node, ops, done, n - 1);
      LeavesPartition(node.valDecodes[v], here, Marked(done, node.bits));
      FilterAllSnoc(ops, node.bits, node.vals, n);
      assert LeavesUpTo(node, ops, n) == LeavesUpTo(node, ops, n - 1) + Leaves(node.valDecodes[v], here);
    }
  }

  lemma FilterAllSnoc(ops: seq<Opcode>, bits: seq<nat>, vals: seq<nat>, n: nat)
    requires 0 < n <= |vals|
    ensures FilterAll(ops, bits, vals[..n]) == FilterAll(ops, bits, vals[..n - 1]) + Filter(ops, bits, vals[n - 1])
  {
    assert vals[..n][..n - 1] == vals[..n - 1];
  }
}
