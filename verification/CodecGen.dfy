// rv_gen::generate_map and rv_gen::generate_codec_node: building the decision tree.
module CodecGenerators {
  import opened CodecExactness
  import opened CodecTrees
  import opened Powers
  import opened Sorting

  // ----- generate_map -----

  /** One mask of an opcode: bits msb..lsb have the value val. */
  datatype BitMask = BitMask(msb: nat, lsb: nat, val: nat)

  ghost predicate Covers(m: BitMask, b: nat) {
    m.lsb <= b <= m.msb
  }

  /** The loops of generate_map, for one opcode. */
  method GenerateMap(masks: seq<BitMask>) returns (o: Opcode)
    ensures fresh(o) && o.done == {}
    ensures forall b :: b in o.mask <==> exists m :: m in masks && Covers(m, b)
    ensures forall b: nat :: b in o.pattern <==> exists m :: m in masks && Covers(m, b) && Bit(m.val, b - m.lsb)
  {
    var mask: set<nat>, match_: set<nat> := {}, {};
    for i := 0 to |masks|
      invariant forall b :: b in mask <==> exists m :: m in masks[..i] && Covers(m, b)
      invariant forall b: nat :: b in match_ <==> exists m :: m in masks[..i] && Covers(m, b) && Bit(m.val, b - m.lsb)
    {
      assert masks[..i + 1] == masks[..i] + [masks[i]];
      var wide, set_ := MaskBits(masks[i]);
      mask, match_ := mask + wide, match_ + set_;
    }
    assert masks[..|masks|] == masks;
    o := new Opcode(mask, match_);
  }

  /** The inner loop: from msb down to lsb. */
  method MaskBits(m: BitMask) returns (mask: set<nat>, match_: set<nat>)
    ensures forall b :: b in mask <==> Covers(m, b)
    ensures forall b: nat :: b in match_ <==> Covers(m, b) && Bit(m.val, b - m.lsb)
  {
    mask, match_ := {}, {};
    var bit: int := m.msb;
    while bit >= m.lsb
      invariant m.msb >= m.lsb ==> m.lsb - 1 <= bit <= m.msb
      invariant forall b :: b in mask <==> Covers(m, b) && bit < b
      invariant forall b: nat :: b in match_ <==> Covers(m, b) && bit < b && Bit(m.val, b - m.lsb)
      decreases bit
    {
      mask := mask + {bit};
      if Bit(m.val, bit - m.lsb) {
        match_ := match_ + {bit};
      }
      bit := bit - 1;
    }
  }

  // ----- the steps of generate_codec_node -----

  /** Rows that one opcode adds. */
  method CountOpcode(sum: array<nat>, o: Opcode)
    requires sum.Length == MAX_WIDTH
    modifies sum
    ensures forall b :: 0 <= b < MAX_WIDTH ==>
      sum[b] == old(sum[b]) + if b in o.mask && b !in o.done then 1 else 0
  {
    var bit := MAX_WIDTH - 1;
    while bit >= 0
      invariant -1 <= bit < MAX_WIDTH
      invariant forall b :: 0 <= b < MAX_WIDTH ==>
        sum[b] == old(sum[b]) + if bit < b && b in o.mask && b !in o.done then 1 else 0
    {
      if bit in o.mask && bit !in o.done {
        sum[bit] := sum[bit] + 1;
      }
      bit := bit - 1;
    }
  }

  ghost predicate Uniform(ops: seq<Opcode>, done: set<nat>)
    reads ops
  {
    forall o :: o in ops ==> o.done == done
  }

  /** Row coverage of each column. */
  method CountRows(ops: seq<Opcode>, ghost done: set<nat>) returns (sum: array<nat>)
    requires Uniform(ops, done)
    ensures fresh(sum) && sum.Length == MAX_WIDTH
    ensures forall b :: 0 <= b < MAX_WIDTH ==> sum[b] == if b in done then 0 else Rows(ops, b)
  {
    sum := new nat[MAX_WIDTH](_ => 0);
    for i := 0 to |ops|
      invariant forall b :: 0 <= b < MAX_WIDTH ==> sum[b] == if b in done then 0 else Rows(ops[..i], b)
    {
      assert ops[..i + 1][..i] == ops[..i];
      assert ops[i] in ops;
      CountOpcode(sum, ops[i]);
    }
    assert ops[..|ops|] == ops;
  }

  /** The columns with the most rows, from the highest bit down. */
  method SelectBits(ops: seq<Opcode>, ghost done: set<nat>) returns (bits: seq<nat>)
    requires Uniform(ops, done)
    ensures Selection(bits, ops, done)
  {
    var sum := CountRows(ops, done);
    assert forall b: nat :: b < MAX_WIDTH ==> (Open(ops, done, b) <==> sum[b] > 0);
    assert forall b: nat :: Open(ops, done, b) ==> sum[b] == Rows(ops, b);
    var maxRows := 0;
    var bit := MAX_WIDTH - 1;
    while bit >= 0
      invariant -1 <= bit < MAX_WIDTH
      invariant forall b :: bit < b < MAX_WIDTH ==> sum[b] <= maxRows
      invariant maxRows == 0 || exists b :: bit < b < MAX_WIDTH && sum[b] == maxRows
    {
      if sum[bit] > maxRows {
        maxRows := sum[bit];
      }
      bit := bit - 1;
    }
    bits := [];
    if maxRows == 0 {
      return;
    }
    bit := MAX_WIDTH - 1;
    while bit >= 0
      invariant -1 <= bit < MAX_WIDTH
      invariant Descending(bits)
      invariant forall b :: b in bits <==> bit < b < MAX_WIDTH && sum[b] == maxRows
    {
      if sum[bit] == maxRows {
        assert forall k :: 0 <= k < |bits| ==> bits[k] in bits;
        bits := bits + [bit];
      }
      bit := bit - 1;
    }
  }

  /** The packed value of an opcode, DEFAULT if it leaves a selected bit open. */
  method OpcodeValue(o: Opcode, bits: seq<nat>) returns (val: nat)
    ensures val == Key(o, bits)
  {
    val := 0;
    var partialMatch := false;
    for i := 0 to |bits|
      invariant partialMatch <==> !Full(o, bits[..i])
      invariant !partialMatch ==> val == Value(o.pattern, bits[..i])
    {
      assert bits[..i + 1][..i] == bits[..i];
      if bits[i] !in o.mask {
        partialMatch := true;
      } else {
        val := 2 * val + if bits[i] in o.pattern then 1 else 0;
      }
    }
    assert bits[..|bits|] == bits;
    if partialMatch {
      val := DEFAULT;
    }
  }

  /** Files every opcode under its value. */
  method FileOpcodes(ops: seq<Opcode>, bits: seq<nat>) returns (vals: seq<nat>, valOpcodes: map<nat, seq<Opcode>>)
    ensures Ascending(vals)
    ensures forall v :: v in vals <==> exists o :: o in ops && Key(o, bits) == v
    ensures forall v :: v in vals ==> v in valOpcodes && valOpcodes[v] == Filter(ops, bits, v)
  {
    vals, valOpcodes := [], map[];
    for i := 0 to |ops|
      invariant forall v :: v in vals <==> v in valOpcodes
      invariant forall v :: v in valOpcodes ==> valOpcodes[v] != []
      invariant forall v :: Filter(ops[..i], bits, v) == if v in valOpcodes then valOpcodes[v] else []
    {
      assert ops[..i + 1][..i] == ops[..i];
      var val := OpcodeValue(ops[i], bits);
      if val !in vals {
        vals := vals + [val];
      }
      if val !in valOpcodes {
        valOpcodes := valOpcodes[val := []];
      }
      valOpcodes := valOpcodes[val := valOpcodes[val] + [ops[i]]];
    }
    assert ops[..|ops|] == ops;
    forall v ensures v in valOpcodes <==> exists o :: o in ops && Key(o, bits) == v {
      FilterNonempty(ops, bits, v);
    }
    vals := SortKeys(set v | v in vals);
  }

  lemma FilterNonempty(ops: seq<Opcode>, bits: seq<nat>, v: nat)
    ensures Filter(ops, bits, v) != [] <==> exists o :: o in ops && Key(o, bits) == v
  {
    FilterMembers(ops, bits, v);
    if Filter(ops, bits, v) != [] {
      assert Filter(ops, bits, v)[0] in Filter(ops, bits, v);
    }
  }

  /** Marks the chosen bits as done in every opcode. */
  method MarkDone(ops: seq<Opcode>, bits: seq<nat>, ghost done: set<nat>)
    requires Uniform(ops, done)
    modifies set o | o in ops
    ensures Uniform(ops, Marked(done, bits))
  {
    for i := 0 to |ops|
      invariant forall o :: o in ops ==> o.done == done || o.done == Marked(done, bits)
      invariant forall k :: 0 <= k < i ==> ops[k].done == Marked(done, bits)
    {
      MarkOpcode(ops[i], bits, done);
    }
  }

  method MarkOpcode(o: Opcode, bits: seq<nat>, ghost done: set<nat>)
    requires o.done == done || o.done == Marked(done, bits)
    modifies o
    ensures o.done == Marked(done, bits)
  {
    ghost var was := o.done;
    for j := 0 to |bits|
      invariant forall b :: b in o.done <==> b in was || b in bits[..j]
    {
      assert bits[..j + 1] == bits[..j] + [bits[j]];
      o.done := o.done + {bits[j]};
    }
    assert bits[..|bits|] == bits;
  }

  // ----- termination -----

  /** The mask bits of the list that are not marked yet. */
  ghost function Unmarked(ops: seq<Opcode>, done: set<nat>): nat {
    if ops == [] then 0 else Unmarked(ops[..|ops| - 1], done) + |ops[|ops| - 1].mask - done|
  }

  lemma Fewer(small: set<nat>, large: set<nat>)
    requires small <= large
    ensures |small| <= |large|
    ensures small != large ==> |small| < |large|
  {
    assert large == small + (large - small);
    assert |large| == |small| + |large - small|;
    if |large - small| == 0 {
      assert large - small == {};
    }
  }

  lemma {:induction false} UnmarkedDrops(ops: seq<Opcode>, done: set<nat>, bits: seq<nat>, v: nat)
    ensures Unmarked(Filter(ops, bits, v), Marked(done, bits)) <= Unmarked(ops, done)
    ensures (exists o, b :: o in ops && b in o.mask && b in bits && b !in done) ==>
      Unmarked(Filter(ops, bits, v), Marked(done, bits)) < Unmarked(ops, done)
  {
    if ops != [] {
      var init, o := ops[..|ops| - 1], ops[|ops| - 1];
      assert ops == init + [o];
      UnmarkedDrops(init, done, bits, v);
      Fewer(o.mask - Marked(done, bits), o.mask - done);
      var below := Filter(init, bits, v);
      assert (below + [o])[..|below|] == below;
      if b :| b in o.mask && b in bits && b !in done {
        assert b in o.mask - done && b !in o.mask - Marked(done, bits);
      }
    }
  }

  lemma SelectedIsUnmarked(ops: seq<Opcode>, done: set<nat>, bits: seq<nat>)
    requires Selection(bits, ops, done) && bits != []
    ensures exists o, b :: o in ops && b in o.mask && b in bits && b !in done
  {
    var b := bits[0];
    assert b in bits;
    RowsPositive(ops, b);
  }

  /** Opcodes under different values are different objects. */
  lemma FilesApart(ops: seq<Opcode>, bits: seq<nat>, u: nat, v: nat)
    requires u != v
    ensures forall o :: o in Filter(ops, bits, u) ==> o !in Filter(ops, bits, v)
  {
    FilterMembers(ops, bits, u);
    FilterMembers(ops, bits, v);
  }

  // ----- the recursion -----

  /** generate_codec_node; the node is built as a value. */
  method GenerateCodecNode(ops: seq<Opcode>, ghost done: set<nat>) returns (node: Node)
    requires Uniform(ops, done)
    modifies set o | o in ops
    ensures Built(node, ops, done)
    decreases Unmarked(ops, done), 1
  {
    var bits := SelectBits(ops, done);
    if bits == [] {
      return LEAF;
    }
    var vals, valOpcodes := FileOpcodes(ops, bits);
    MarkDone(ops, bits, done);
    var valDecodes := GenerateChildren(ops, bits, vals, valOpcodes, done);
    node := Node(bits, vals, valOpcodes, valDecodes);
  }

  /** The last loop: one subtree for each value. */
  method GenerateChildren(ops: seq<Opcode>, bits: seq<nat>, vals: seq<nat>, valOpcodes: map<nat, seq<Opcode>>,
                          ghost done: set<nat>)
    returns (valDecodes: map<nat, Node>)
    requires Selection(bits, ops, done) && bits != [] && Ascending(vals) && Uniform(ops, Marked(done, bits))
    requires forall v :: v in vals ==> v in valOpcodes && valOpcodes[v] == Filter(ops, bits, v)
    modifies set o | o in ops
    ensures forall v :: v in vals ==> v in valDecodes
    ensures forall v :: v in vals ==> Built(valDecodes[v], Filter(ops, bits, v), Marked(done, bits))
    decreases Unmarked(ops, done), 0
  {
    valDecodes := map[];
    forall k | 0 <= k < |vals| ensures Uniform(Filter(ops, bits, vals[k]), Marked(done, bits)) {
      FilterMembers(ops, bits, vals[k]);
    }
    for i := 0 to |vals|
      invariant forall k :: i <= k < |vals| ==> Uniform(Filter(ops, bits, vals[k]), Marked(done, bits))
      invariant ChildrenBuilt(valDecodes, vals, i, ops, bits, done)
    {
      var v := vals[i];
      FilterMembers(ops, bits, v);
      SelectedIsUnmarked(ops, done, bits);
      UnmarkedDrops(ops, done, bits, v);
      forall k | i < k < |vals| ensures forall o :: o in Filter(ops, bits, vals[k]) ==> o !in Filter(ops, bits, v) {
        FilesApart(ops, bits, vals[k], v);
      }
      assert v in vals;
      assert forall o :: o in valOpcodes[v] ==> o in ops;
      var child := GenerateCodecNode(valOpcodes[v], Marked(done, bits));
      ChildAdded(valDecodes, vals, i, child, ops, bits, done);
      valDecodes := valDecodes[v := child];
    }
  }

  /** The subtrees of the first n values are built. */
  ghost predicate ChildrenBuilt(valDecodes: map<nat, Node>, vals: seq<nat>, n: nat, ops: seq<Opcode>, bits: seq<nat>,
                                done: set<nat>) {
    n <= |vals| && forall k :: 0 <= k < n ==>
      vals[k] in valDecodes && Built(valDecodes[vals[k]], Filter(ops, bits, vals[k]), Marked(done, bits))
  }

  lemma ChildAdded(valDecodes: map<nat, Node>, vals: seq<nat>, i: nat, child: Node, ops: seq<Opcode>, bits: seq<nat>,
                   done: set<nat>)
    requires ChildrenBuilt(valDecodes, vals, i, ops, bits, done) && i < |vals| && Ascending(vals)
    requires Built(child, Filter(ops, bits, vals[i]), Marked(done, bits))
    ensures ChildrenBuilt(valDecodes[vals[i] := child], vals, i + 1, ops, bits, done)
  {
  }

  /** generate_codec: the tree for the opcodes that are not pseudo-instructions, none of them marked yet. */
  method GenerateCodec(ops: seq<Opcode>) returns (root: Node)
    requires Uniform(ops, {})
    modifies set o | o in ops
    ensures Built(root, ops, {})
  {
    root := GenerateCodecNode(ops, {});
  }

  // ----- an opcode that loses a bit -----

  /**
   * The tree is not exact for opcodes that share a default branch: with masks {0, 1}, {0} and {1},
   * both bits are selected at the root, bit 0 of the second opcode is marked done untested, and the
   * word 0 is decoded as that opcode without matching it.
   */
  lemma UntestedBit(both: Opcode, low: Opcode, high: Opcode, node: Node)
    requires both.mask == {0, 1} && both.pattern == {0, 1}
    requires low.mask == {0} && low.pattern == {0}
    requires high.mask == {1} && high.pattern == {1}
    requires Built(node, [both, low, high], {})
    ensures low in Decode(node, [both, low, high], {}) && !Matches({}, low)
    ensures !Never(node, low) && !Guarded(node, low)
  {
    var ops := [both, low, high];
    forall b { ThreeRows(both, low, high, b); }
    SelectionOfTwo(ops, node.bits);
    UntestedAtRoot(both, low, high, node.bits);
    FilterMembers(ops, [1, 0], DEFAULT);
    assert low in ops && forall o :: o in ops ==> o == both || o == low || o == high;
    var rest := Filter(ops, [1, 0], DEFAULT);
    assert Key(low, [1, 0]) in node.vals;
    assert Value({}, [1, 0]) !in node.vals;
    var bits: seq<nat> := [1, 0];
    assert bits[0] == 1 && bits[1] == 0;
    assert 1 in bits && 0 in bits;
    AllMarkedIsLeaf(node.valDecodes[DEFAULT], rest, Marked({}, [1, 0]));
    OnlyMatchesFound(node, ops, low);
  }

  lemma UntestedAtRoot(both: Opcode, low: Opcode, high: Opcode, bits: seq<nat>)
    requires both.mask == {0, 1} && both.pattern == {0, 1} && low.mask == {0} && high.mask == {1} && bits == [1, 0]
    ensures Key(both, bits) == 3 && Key(low, bits) == DEFAULT && Key(high, bits) == DEFAULT && Value({}, bits) == 0
  {
    assert bits[0] !in low.mask && bits[1] !in high.mask;
    assert !Full(low, bits) && !Full(high, bits);
    ValueOfTwo({});
    ValueOfTwo({0, 1});
  }

  lemma AllMarkedIsLeaf(node: Node, ops: seq<Opcode>, done: set<nat>)
    requires Built(node, ops, done) && forall o :: o in ops ==> o.mask <= done
    ensures node.bits == []
  {
    forall b ensures !Open(ops, done, b) {
      RowsPositive(ops, b);
    }
    DescendingLength(node.bits, 0);
  }

  lemma ThreeRows(both: Opcode, low: Opcode, high: Opcode, b: nat)
    requires both.mask == {0, 1} && low.mask == {0} && high.mask == {1}
    ensures Rows([both, low, high], b) == if b == 0 || b == 1 then 2 else 0
  {
    var three, two, one := [both, low, high], [both, low], [both];
    assert three[..2] == two && two[..1] == one && one[..0] == [];
    assert Rows(one, b) == if b in both.mask then 1 else 0;
    assert Rows(two, b) == Rows(one, b) + if b in low.mask then 1 else 0;
    assert Rows(three, b) == Rows(two, b) + if b in high.mask then 1 else 0;
  }

  lemma SelectionOfTwo(ops: seq<Opcode>, bits: seq<nat>)
    requires Selection(bits, ops, {}) && forall b :: Rows(ops, b) == if b == 0 || b == 1 then 2 else 0
    ensures bits == [1, 0]
  {
    assert forall b :: b in bits <==> b == 0 || b == 1;
    DescendingLength(bits, 2);
    assert 0 in bits && 1 in bits;
  }

  lemma ValueOfTwo(w: set<nat>)
    ensures Value(w, [1, 0]) == (if 1 in w then 2 else 0) + if 0 in w then 1 else 0
  {
    var two: seq<nat>, one: seq<nat> := [1, 0], [1];
    assert two[..1] == one && one[..0] == [];
    assert Value(w, one) == if 1 in w then 1 else 0;
  }
}
