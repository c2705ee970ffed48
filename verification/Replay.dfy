// replay.c: the interpreter of the replay table, over a flat memory.
module Replays {
  import opened Bytes
  import opened ReplayTables

  /** The 64-bit little-endian word at a. */
  function Word(mem: seq<byte>, a: nat): nat
    requires a + 8 <= |mem|
  {
    FromLe(mem[a..a + 8])
  }

  /** mem holds bs at address a. */
  ghost predicate At(mem: seq<byte>, a: nat, bs: seq<byte>) {
    a + |bs| <= |mem| && mem[a..a + |bs|] == bs
  }

  ghost predicate Apart(w: Write, lo: nat, hi: nat) {
    w.addr + |w.data| <= lo || hi <= w.addr
  }

  /** mem after a write; writes outside memory, which no theorem allows, are left out. */
  function Apply(mem: seq<byte>, w: Write): (mem': seq<byte>)
    ensures |mem'| == |mem|
  {
    if w.addr + |w.data| <= |mem| then mem[..w.addr] + w.data + mem[w.addr + |w.data|..] else mem
  }

  /** A write outside a region leaves what the region holds. */
  lemma ApplyKeeps(mem: seq<byte>, w: Write, a: nat, bs: seq<byte>)
    requires w.addr + |w.data| <= |mem| && At(mem, a, bs) && Apart(w, a, a + |bs|)
    ensures At(Apply(mem, w), a, bs)
  {
    var mem' := Apply(mem, w);
    forall i | 0 <= i < |bs| ensures mem'[a..a + |bs|][i] == bs[i] {
      assert mem[a..a + |bs|][i] == bs[i];
    }
  }

  lemma AtSplit(mem: seq<byte>, a: nat, b0: seq<byte>, b1: seq<byte>)
    ensures At(mem, a, b0 + b1) <==> At(mem, a, b0) && At(mem, a + |b0|, b1)
  {
    if At(mem, a, b0 + b1) {
      assert b0 == (b0 + b1)[..|b0|] && b1 == (b0 + b1)[|b0|..];
    }
    if At(mem, a, b0) && At(mem, a + |b0|, b1) {
      assert mem[a..a + |b0 + b1|] == mem[a..a + |b0|] + mem[a + |b0|..a + |b0| + |b1|];
    }
  }

  lemma WordAt(mem: seq<byte>, a: nat, v: nat)
    requires At(mem, a, Le(v, 8)) && IsWord(v)
    ensures Word(mem, a) == v
  {
    WordRoundTrip(v);
  }

  lemma RecordAt(mem: seq<byte>, a: nat, code: nat, v: nat)
    requires At(mem, a, Record(code, v)) && IsWord(code) && IsWord(v)
    ensures a + 16 <= |mem| && Word(mem, a) == code && Word(mem, a + 8) == v
  {
    AtSplit(mem, a, Le(code, 8), Le(v, 8));
    WordAt(mem, a, code);
    WordAt(mem, a + 8, v);
  }

  /** What the interpreter reads of an encoded write: address, size and the data behind them. */
  lemma WriteAt(mem: seq<byte>, a: nat, w: Write)
    requires At(mem, a, WriteBytes(w)) && IsWord(w.addr) && IsWord(|w.data|)
    ensures a + 16 <= |mem| && Word(mem, a) == w.addr && Word(mem, a + 8) == |w.data| && At(mem, a + 16, w.data)
  {
    var head, pad := Le(w.addr, 8) + Le(|w.data|, 8), Zeros(Padded(|w.data|) - |w.data|);
    AtSplit(mem, a, head + w.data, pad);
    AtSplit(mem, a, head, w.data);
    AtSplit(mem, a, Le(w.addr, 8), Le(|w.data|, 8));
    WordAt(mem, a, w.addr);
    WordAt(mem, a + 8, |w.data|);
  }

  // ----- check_stores -----

  /** The memory meets a store assertion; other sizes are not compared. */
  ghost predicate StoreHolds(mem: seq<byte>, s: Store) {
    s.size in {1, 2, 4, 8} ==> At(mem, s.addr, Le(s.data, s.size))
  }

  /** The assertions up to the first one at address zero, which reads as the terminator. */
  function Effective(stores: seq<Store>): (r: seq<Store>)
    ensures |r| <= |stores| && r == stores[..|r|]
    ensures |r| == |stores| || stores[|r|].addr == 0
    ensures forall s :: s in r ==> s.addr != 0
  {
    if stores == [] || stores[0].addr == 0 then [] else [stores[0]] + Effective(stores[1..])
  }

  /**
   * Of the sorted assertions all are checked if none is at address zero; if one is, it comes first and none is
   * checked.
   */
  lemma ZeroStoreHidesAll(stores: seq<Store>)
    ensures Effective(SortStores(stores)) == if exists s :: s in stores && s.addr == 0 then [] else SortStores(stores)
  {
    var sorted := SortStores(stores);
    var n := |Effective(sorted)|;
    SortedInOrder(stores);
    if s :| s in stores && s.addr == 0 {
      var i :| 0 <= i < |sorted| && sorted[i] == s;
      assert i > 0 ==> Before(sorted[0], sorted[i]);
    } else {
      assert forall i :: 0 <= i < |sorted| ==> sorted[i] in stores && sorted[i].addr != 0;
      assert n == |sorted|;
    }
  }

  lemma {:induction false} FromLeInjective(a: seq<byte>, b: seq<byte>)
    requires |a| == |b| && FromLe(a) == FromLe(b)
    ensures a == b
  {
    if a != [] {
      assert a[0] as nat == FromLe(a) % 256 && b[0] as nat == FromLe(b) % 256;
      FromLeInjective(a[1..], b[1..]);
      assert a == [a[0]] + a[1..] && b == [b[0]] + b[1..];
    }
  }

  lemma StoreAt(mem: seq<byte>, a: nat, s: Store)
    requires At(mem, a, StoreBytes(s)) && s.Encodable()
    ensures a + 24 <= |mem| && Word(mem, a) == s.addr && Word(mem, a + 8) == s.size && At(mem, a + 16, Le(s.data, 8))
  {
    AtSplit(mem, a, Le(s.addr, 8) + Le(s.size, 8), Le(s.data, 8));
    AtSplit(mem, a, Le(s.addr, 8), Le(s.size, 8));
    WordAt(mem, a, s.addr);
    WordAt(mem, a + 8, s.size);
  }

  lemma SlicePrefix(s: seq<byte>, a: nat, n: nat, w: nat)
    requires w <= n && a + n <= |s|
    ensures s[a..a + n][..w] == s[a..a + w]
  {
  }

  /** A 64-bit load. */
  method LoadWord(ram: array<byte>, a: nat) returns (v: nat)
    requires a + 8 <= ram.Length
    ensures v == Word(ram[..], a)
  {
    assert ram[a..a + 8] == ram[..][a..a + 8];
    v := FromLe(ram[a..a + 8]);
  }

  /** One comparison of check_stores at the given width. */
  method CompareWidth(ram: array<byte>, addr: nat, data: nat, width: nat, ghost s: Store) returns (equal: bool)
    requires addr + width <= ram.Length && width <= 8
    requires At(ram[..], data, Le(s.data, 8))
    ensures equal <==> At(ram[..], addr, Le(s.data, width))
  {
    equal := FromLe(ram[addr..addr + width]) == FromLe(ram[data..data + width]);
    LePrefix(s.data, 8, width);
    ghost var mem := ram[..];
    assert mem[data..data + 8] == Le(s.data, 8);
    SlicePrefix(mem, data, 8, width);
    assert ram[data..data + width] == mem[data..data + width] == Le(s.data, width);
    assert ram[addr..addr + width] == ram[..][addr..addr + width];
    if equal {
      FromLeInjective(ram[addr..addr + width], ram[data..data + width]);
    }
  }

  /** Where the n-th assertion starts. */
  function StoreOffset(n: nat): nat {
    if n == 0 then 0 else StoreOffset(n - 1) + 24
  }

  ghost predicate HoldUpto(mem: seq<byte>, stores: seq<Store>, n: nat)
    requires n <= |stores|
  {
    forall k :: 0 <= k < n ==> StoreHolds(mem, stores[k])
  }

  lemma HoldAll(mem: seq<byte>, stores: seq<Store>, n: nat)
    requires n <= |stores| && HoldUpto(mem, stores, n)
    ensures n == |stores| ==> forall s :: s in stores ==> StoreHolds(mem, s)
    ensures n < |stores| ==> (HoldUpto(mem, stores, n + 1) <==> StoreHolds(mem, stores[n]))
  {
  }

  /** The bytes an assertion is compared with are in memory. */
  predicate Comparable(s: Store, size: nat) {
    s.size in {1, 2, 4, 8} ==> s.addr + s.size <= size
  }

  /** check_stores: None stands for the NULL it returns at the first mismatch. */
  method CheckStores(ram: array<byte>, start: nat, ghost stores: seq<Store>) returns (r: Option<nat>)
    requires At(ram[..], start, StoresBytes(stores))
    requires forall s :: s in stores ==> s.Encodable()
    requires forall s :: s in Effective(stores) ==> Comparable(s, ram.Length)
    ensures r.Some? <==> forall s :: s in Effective(stores) ==> StoreHolds(ram[..], s)
    ensures r.Some? ==> r.value == start + StoreOffset(|Effective(stores)|)
    ensures r.Some? ==> At(ram[..], r.value, Le(0, 8))
  {
    var head := start;
    ghost var i, mem, checked := 0, ram[..], Effective(stores);
    while true
      invariant 0 <= i <= |checked| && head == start + StoreOffset(i)
      invariant ram[..] == mem && At(mem, head, StoresBytes(stores[i..]))
      invariant HoldUpto(mem, checked, i)
      decreases |checked| - i
    {
      AtNext(mem, head, stores, i);
      HoldAll(mem, checked, i);
      var addr := LoadWord(ram, head);
      if addr == 0 {
        return Some(head);
      }
      var equal := CheckStore(ram, head, checked[i]);
      if !equal {
        return None;
      }
      head := head + 24;
      i := i + 1;
    }
  }

  /** The loop body of check_stores. */
  method CheckStore(ram: array<byte>, head: nat, ghost s: Store) returns (ok: bool)
    requires At(ram[..], head, StoreBytes(s)) && s.Encodable() && Comparable(s, ram.Length)
    ensures ok <==> StoreHolds(ram[..], s)
  {
    StoreAt(ram[..], head, s);
    var addr, size := FromLe(ram[head..head + 8]), FromLe(ram[head + 8..head + 16]);
    assert ram[head..head + 8] == ram[..][head..head + 8] && ram[head + 8..head + 16] == ram[..][head + 8..head + 16];
    if size == 1 || size == 2 || size == 4 || size == 8 {
      ok := CompareWidth(ram, addr, head + 16, size, s);
    } else {
      ok := true;
    }
  }

  lemma AtTerminator(mem: seq<byte>, head: nat, stores: seq<Store>)
    requires At(mem, head, StoresBytes(stores[|Effective(stores)|..]))
    ensures At(mem, head, Le(0, 8))
  {
    var rest := stores[|Effective(stores)|..];
    if rest == [] {
      AtSplit(mem, head, Le(0, 8), Le(0, 8));
    } else {
      var s := rest[0];
      assert s == stores[|Effective(stores)|] && s.addr == 0;
      AtSplit(mem, head, StoreBytes(s), StoresBytes(rest[1..]));
      AtSplit(mem, head, Le(s.addr, 8) + Le(s.size, 8), Le(s.data, 8));
      AtSplit(mem, head, Le(s.addr, 8), Le(s.size, 8));
    }
  }

  lemma EffectiveAt(stores: seq<Store>, i: nat)
    requires i < |Effective(stores)|
    ensures stores[i] == Effective(stores)[i]
    ensures StoresBytes(stores[i..]) == StoreBytes(stores[i]) + StoresBytes(stores[i + 1..])
  {
    assert stores[..|Effective(stores)|][i] == stores[i];
    assert stores[i..][0] == stores[i] && stores[i..][1..] == stores[i + 1..];
  }

  lemma AtStore(mem: seq<byte>, head: nat, stores: seq<Store>, i: nat)
    requires i < |Effective(stores)| && At(mem, head, StoresBytes(stores[i..]))
    requires forall s :: s in stores ==> s.Encodable()
    ensures var s := Effective(stores)[i];
      && s in stores && s in Effective(stores) && At(mem, head, StoreBytes(s))
      && At(mem, head + 24, StoresBytes(stores[i + 1..]))
      && head + 8 <= |mem| && Word(mem, head) != 0
  {
    var s := Effective(stores)[i];
    EffectiveAt(stores, i);
    AtSplit(mem, head, StoreBytes(s), StoresBytes(stores[i + 1..]));
    StoreAt(mem, head, s);
  }

  /** The next word is the terminator, or the address of assertion i. */
  lemma AtNext(mem: seq<byte>, head: nat, stores: seq<Store>, i: nat)
    requires i <= |Effective(stores)| && At(mem, head, StoresBytes(stores[i..]))
    requires forall s :: s in stores ==> s.Encodable()
    ensures head + 8 <= |mem|
    ensures Word(mem, head) == 0 <==> i == |Effective(stores)|
    ensures i == |Effective(stores)| ==> At(mem, head, Le(0, 8))
    ensures i < |Effective(stores)| ==>
      var s := Effective(stores)[i];
      s.Encodable() && s in Effective(stores) && At(mem, head, StoreBytes(s))
        && At(mem, head + 24, StoresBytes(stores[i + 1..]))
  {
    if i == |Effective(stores)| {
      AtTerminator(mem, head, stores);
      WordAt(mem, head, 0);
    } else {
      AtStore(mem, head, stores, i);
    }
  }

  // ----- replay -----

  /** What one call of replay ends in: a return to the program, or the end of the run. */
  datatype Outcome =
    | Returned(next: nat, printed: Option<nat>)
    | Finished
    | StoreAssertionFailed

  ghost predicate WriteOk(w: Write, size: nat) {
    && RET_VERBOSE < w.addr && IsWord(w.addr)
    && 0 < |w.data| && IsWord(|w.data|)
    && w.addr + |w.data| <= size
  }

  /** fast_memcpy, a do-while loop: n must not be zero. */
  method FastMemcpy(ram: array<byte>, dest: nat, src: nat, n: nat)
    requires 0 < n && dest + n <= ram.Length && src + n <= ram.Length
    requires dest + n <= src || src + n <= dest
    modifies ram
    ensures ram[..] == Apply(old(ram[..]), Write(dest, old(ram[src..src + n])))
  {
    ghost var mem := ram[..];
    var i := 0;
    while true
      invariant 0 <= i < n
      invariant Copied(mem, ram[..], dest, src, i)
      decreases n - i
    {
      CopyOne(mem, ram[..], dest, src, i, n);
      ram[dest + i] := ram[src + i];
      i := i + 1;
      if i == n {
        break;
      }
    }
    CopiedIsApplied(mem, ram[..], dest, src, n);
    assert ram[src..src + n] == ram[..][src..src + n];
  }

  /** The first i bytes have been copied, and nothing else has changed. */
  ghost predicate Copied(mem: seq<byte>, mem': seq<byte>, dest: nat, src: nat, i: nat) {
    && |mem'| == |mem| && src + i <= |mem|
    && forall k {:trigger mem'[k]} :: 0 <= k < |mem| ==>
      mem'[k] == if dest <= k < dest + i then mem[src + (k - dest)] else mem[k]
  }

  lemma CopyOne(mem: seq<byte>, mem': seq<byte>, dest: nat, src: nat, i: nat, n: nat)
    requires Copied(mem, mem', dest, src, i) && i < n && dest + n <= |mem| && src + n <= |mem|
    requires dest + n <= src || src + n <= dest
    ensures Copied(mem, mem'[dest + i := mem'[src + i]], dest, src, i + 1)
  {
    assert mem'[src + i] == mem[src + i];
  }

  lemma CopiedIsApplied(mem: seq<byte>, mem': seq<byte>, dest: nat, src: nat, n: nat)
    requires Copied(mem, mem', dest, src, n) && dest + n <= |mem|
    ensures mem' == Apply(mem, Write(dest, mem[src..src + n]))
  {
    assert mem' == mem[..dest] + mem[src..src + n] + mem[dest + n..];
  }

  /** The bytes of a list of writes and the record that ends them. */
  function WritesBytes(writes: seq<Write>, end: seq<byte>): seq<byte> {
    if writes == [] then end else WriteBytes(writes[0]) + WritesBytes(writes[1..], end)
  }

  function ApplyAll(mem: seq<byte>, writes: seq<Write>): (mem': seq<byte>)
    ensures |mem'| == |mem|
    decreases |writes|
  {
    if writes == [] then mem else ApplyAll(Apply(mem, writes[0]), writes[1..])
  }

  /** The default case of the switch: one recorded write is copied into place. */
  method ReplayWrite(ram: array<byte>, head: nat, ghost w: Write, ghost rest: seq<byte>) returns (head': nat)
    requires At(ram[..], head, WriteBytes(w) + rest) && WriteOk(w, ram.Length)
    requires Apart(w, head, head + |WriteBytes(w) + rest|)
    modifies ram
    ensures ram[..] == Apply(old(ram[..]), w)
    ensures head' == head + |WriteBytes(w)| && At(ram[..], head', rest)
  {
    ghost var after := Apply(ram[..], w);
    WriteDone(ram[..], head, w, rest);
    var size := CopyWrite(ram, head, w, rest);
    assert ram[..] == after;
    head' := head + 16 + Padded(size);
  }

  method CopyWrite(ram: array<byte>, head: nat, ghost w: Write, ghost rest: seq<byte>) returns (size: nat)
    requires At(ram[..], head, WriteBytes(w) + rest) && WriteOk(w, ram.Length)
    requires Apart(w, head, head + |WriteBytes(w) + rest|)
    modifies ram
    ensures ram[..] == Apply(old(ram[..]), w) && size == |w.data|
  {
    WriteFirst(ram[..], head, w, rest);
    var addr := LoadWord(ram, head);
    size := LoadWord(ram, head + 8);
    CopyData(ram, addr, head + 16, size, w);
  }

  method CopyData(ram: array<byte>, dest: nat, src: nat, n: nat, ghost w: Write)
    requires dest == w.addr && n == |w.data| && At(ram[..], src, w.data) && WriteOk(w, ram.Length)
    requires Apart(w, src, src + n)
    modifies ram
    ensures ram[..] == Apply(old(ram[..]), w)
  {
    assert ram[src..src + n] == ram[..][src..src + n] == w.data;
    FastMemcpy(ram, dest, src, n);
    assert Write(dest, w.data) == w;
  }

  lemma WriteFirst(mem: seq<byte>, head: nat, w: Write, rest: seq<byte>)
    requires At(mem, head, WriteBytes(w) + rest) && IsWord(w.addr) && IsWord(|w.data|)
    ensures head + 16 <= |mem| && Word(mem, head) == w.addr && Word(mem, head + 8) == |w.data|
      && At(mem, head + 16, w.data)
  {
    AtSplit(mem, head, WriteBytes(w), rest);
    WriteAt(mem, head, w);
  }

  lemma WriteDone(mem: seq<byte>, head: nat, w: Write, rest: seq<byte>)
    requires At(mem, head, WriteBytes(w) + rest) && w.addr + |w.data| <= |mem|
    requires Apart(w, head, head + |WriteBytes(w) + rest|)
    ensures At(Apply(mem, w), head + |WriteBytes(w)|, rest)
  {
    ApplyKeeps(mem, w, head, WriteBytes(w) + rest);
    AtSplit(Apply(mem, w), head, WriteBytes(w), rest);
  }

  /** The assertions behind an EXIT record can be checked. */
  ghost predicate Checkable(stores: seq<Store>, size: nat) {
    && (forall s :: s in stores ==> s.Encodable())
    && (forall s :: s in Effective(stores) ==> Comparable(s, size))
  }

  ghost predicate StoresHold(mem: seq<byte>, stores: seq<Store>) {
    forall s :: s in Effective(stores) ==> StoreHolds(mem, s)
  }

  /** The writes of an entry fit memory and stay clear of the table from head on. */
  ghost predicate WritesOk(writes: seq<Write>, size: nat, lo: nat, hi: nat) {
    forall w :: w in writes ==> WriteOk(w, size) && Apart(w, lo, hi)
  }

  /** How a call ends when it meets the given stop record at head. */
  ghost predicate EndsWith(r: Outcome, mem: seq<byte>, head: nat, code: nat, value: nat, stores: seq<Store>) {
    match code
    case 0 => r == Returned(head + 16, None)
    case 1 => r == if StoresHold(mem, stores) then Finished else StoreAssertionFailed
    case 2 => r == Returned(head + 16, None)
    case 3 => r == Returned(head + 16, Some(value))
    case _ => false
  }

  /**
   * One call of replay on a memory that holds, at head0, some writes, a stop record and end. It
   * applies exactly the writes, in order, and stops on the record.
   */
  method Replay(ram: array<byte>, head0: nat, ghost writes: seq<Write>, ghost code: nat, ghost value: nat,
                ghost end: seq<byte>, ghost stores: seq<Store>) returns (r: Outcome)
    requires Pending(ram[..], head0, writes, Record(code, value) + end)
    requires code <= RET_VERBOSE && IsWord(value)
    requires code == EXIT ==> end == StoresBytes(stores) && Checkable(stores, ram.Length)
    modifies ram
    ensures ram[..] == ApplyAll(old(ram[..]), writes)
    ensures EndsWith(r, ram[..], StopAt(head0, writes), code, value, stores)
    ensures At(ram[..], StopAt(head0, writes), Record(code, value) + end)
  {
    var head := ReplayWrites(ram, head0, writes, code, Record(code, value) + end);
    AtSplit(ram[..], head, Record(code, value), end);
    RecordAt(ram[..], head, code, value);
    var op := LoadWord(ram, head);
    if op == EXIT {
      var checked := CheckStores(ram, head + 16, stores);
      return if checked.None? then StoreAssertionFailed else Finished;
    }
    if op == RET_VERBOSE {
      var size := LoadWord(ram, head + 8);
      return Returned(head + 16, Some(size));
    }
    return Returned(head + 16, None);
  }

  /** Where the stop record behind some writes lies. */
  function StopAt(head: nat, writes: seq<Write>): nat
    decreases |writes|
  {
    if writes == [] then head else StopAt(head + |WriteBytes(writes[0])|, writes[1..])
  }

  /** The writes still to do lie at head, and none of them touches the table from there on. */
  ghost predicate Pending(mem: seq<byte>, head: nat, todo: seq<Write>, rest: seq<byte>) {
    && At(mem, head, WritesBytes(todo, rest))
    && WritesOk(todo, |mem|, head, head + |WritesBytes(todo, rest)|)
  }

  lemma PendingFirst(mem: seq<byte>, head: nat, todo: seq<Write>, rest: seq<byte>)
    requires Pending(mem, head, todo, rest) && todo != []
    ensures At(mem, head, WriteBytes(todo[0]) + WritesBytes(todo[1..], rest))
    ensures WriteOk(todo[0], |mem|)
    ensures Apart(todo[0], head, head + |WriteBytes(todo[0]) + WritesBytes(todo[1..], rest)|)
    ensures WritesOk(todo[1..], |mem|, head + |WriteBytes(todo[0])|, head + |WritesBytes(todo, rest)|)
  {
    assert todo[0] in todo;
    forall w | w in todo[1..]
      ensures WriteOk(w, |mem|) && Apart(w, head + |WriteBytes(todo[0])|, head + |WritesBytes(todo, rest)|)
    {
      assert w in todo;
    }
  }

  method ReplayNext(ram: array<byte>, head: nat, ghost todo: seq<Write>, ghost rest: seq<byte>) returns (head': nat)
    requires Pending(ram[..], head, todo, rest) && todo != []
    modifies ram
    ensures ApplyAll(ram[..], todo[1..]) == ApplyAll(old(ram[..]), todo)
    ensures StopAt(head', todo[1..]) == StopAt(head, todo) && Pending(ram[..], head', todo[1..], rest)
  {
    PendingFirst(ram[..], head, todo, rest);
    head' := ReplayWrite(ram, head, todo[0], WritesBytes(todo[1..], rest));
  }

  /** The default case of the switch, until a stop record is met. */
  method ReplayWrites(ram: array<byte>, head0: nat, ghost writes: seq<Write>, ghost code: nat, ghost rest: seq<byte>)
    returns (head: nat)
    requires Pending(ram[..], head0, writes, rest)
    requires code <= RET_VERBOSE && Le(code, 8) <= rest
    modifies ram
    ensures ram[..] == ApplyAll(old(ram[..]), writes)
    ensures head == StopAt(head0, writes) && At(ram[..], head, rest)
  {
    head := head0;
    ghost var todo, stop, done := writes, StopAt(head0, writes), ApplyAll(ram[..], writes);
    while true
      invariant Pending(ram[..], head, todo, rest)
      invariant StopAt(head, todo) == stop && ApplyAll(ram[..], todo) == done
      decreases |todo|
    {
      NextAddr(ram[..], head, todo, code, rest);
      var addr := LoadWord(ram, head);
      if addr <= RET_VERBOSE {
        return;
      }
      head := ReplayNext(ram, head, todo, rest);
      todo := todo[1..];
    }
  }

  /** The word at head tells a write from a stop record. */
  lemma NextAddr(mem: seq<byte>, head: nat, todo: seq<Write>, code: nat, rest: seq<byte>)
    requires At(mem, head, WritesBytes(todo, rest)) && code <= RET_VERBOSE && Le(code, 8) <= rest
    requires forall w :: w in todo ==> WriteOk(w, |mem|)
    ensures head + 8 <= |mem| && (Word(mem, head) <= RET_VERBOSE <==> todo == [])
  {
    if todo == [] {
      assert rest == Le(code, 8) + rest[8..];
      AtSplit(mem, head, Le(code, 8), rest[8..]);
      WordAt(mem, head, code);
    } else {
      assert todo[0] in todo;
      WriteFirst(mem, head, todo[0], WritesBytes(todo[1..], rest));
    }
  }

  /** A write is told from a stop record exactly when its address is above the stop codes. */
  lemma DecodesAsWrite(mem: seq<byte>, head: nat, w: Write)
    requires At(mem, head, WriteBytes(w)) && IsWord(w.addr) && IsWord(|w.data|)
    ensures head + 8 <= |mem|
    ensures Word(mem, head) !in {RET, EXIT, ENTRY, RET_VERBOSE} <==> w.addr > 3
  {
    WriteAt(mem, head, w);
  }
}
