// The replay table: how parse.py encodes the recorded system calls and store
// assertions, and the byte-level facts the interpreter relies on.
module ReplayTables {
  import opened Bytes

  // REPLAY_* in replay.h, and the constants of class SysCall
  const RET := 0
  const EXIT := 1
  const ENTRY := 2
  const RET_VERBOSE := 3

  datatype Write = Write(addr: nat, data: seq<byte>)

  /** A recorded system call; write is None when the call changed no memory. */
  datatype SysCall = SysCall(addr: nat, retval: nat, alterRd: Option<nat>, isBreak: bool, write: Option<Write>)
  {
    ghost predicate Encodable() {
      && IsWord(retval)
      && (write.Some? ==> IsWord(write.value.addr) && IsWord(|write.value.data|))
    }

    /** One entry of the table. */
    method MakeEntry(verbose: bool) returns (entry: seq<byte>)
      requires Encodable()
      ensures entry == EntryBytes(this, verbose)
      ensures IsEntry(entry, this, verbose)
    {
      var buf: seq<seq<byte>> := [];
      if write.Some? {
        var w := write.value;
        var paddedSize := Padded(|w.data|);
        var paddingSize := paddedSize - |w.data|;
        buf := buf + [Le(w.addr, 8)];
        buf := buf + [Le(|w.data|, 8)];
        buf := buf + [w.data];
        buf := buf + [Zeros(paddingSize)];
      }
      if isBreak {
        buf := buf + [Le(EXIT, 8)];
        buf := buf + [Le(0, 8)];
      } else {
        var ret := if verbose then RET_VERBOSE else RET;
        buf := buf + [Le(ret, 8)];
        buf := buf + [Le(retval, 8)];
      }
      entry := Join(buf);
      if write.Some? {
        JoinSix(buf);
      } else {
        JoinTwo(buf);
      }
      EntryLayout(this, verbose);
    }
  }

  /** At offset k the bytes data. */
  ghost predicate Has(table: seq<byte>, k: int, data: seq<byte>) {
    0 <= k && k + |data| <= |table| && table[k..k + |data|] == data
  }

  lemma HasAfter(a: seq<byte>, b: seq<byte>, k: int, data: seq<byte>)
    requires Has(b, k, data)
    ensures Has(a + b, |a| + k, data)
  {
    assert (a + b)[|a| + k..|a| + k + |data|] == b[k..k + |data|];
  }

  lemma HasBefore(a: seq<byte>, b: seq<byte>, k: int, data: seq<byte>)
    requires Has(a, k, data)
    ensures Has(a + b, k, data)
  {
    assert (a + b)[k..k + |data|] == a[k..k + |data|];
  }

  lemma HasAll(a: seq<byte>)
    ensures Has(a, 0, a)
  {
  }

  /** The first bytes up to end record a write: address, size, the data, and zeros up to the next multiple of 8. */
  ghost predicate IsWrite(entry: seq<byte>, w: Write, end: int) {
    var n := |w.data|;
    && Has(entry, 0, Le(w.addr, 8)) && Has(entry, 8, Le(n, 8)) && Has(entry, 16, w.data)
    && end % 8 == 0 && 16 + n <= end < 16 + n + 8 && end <= |entry|
    && forall k :: 16 + n <= k < end ==> entry[k] == 0
  }

  /** At offset k a stop record: 1 and zero for a break, otherwise 0 or 3 and the return value. */
  ghost predicate IsStop(entry: seq<byte>, k: int, s: SysCall, verbose: bool) {
    && Has(entry, k, Le(if s.isBreak then 1 else if verbose then 3 else 0, 8))
    && Has(entry, k + 8, Le(if s.isBreak then 0 else s.retval, 8))
  }

  /** The entry is a multiple of 8 bytes long: the write, if any, and a stop record of 16 bytes. */
  ghost predicate IsEntry(entry: seq<byte>, s: SysCall, verbose: bool) {
    && |entry| % 8 == 0 && |entry| >= 16 && IsStop(entry, |entry| - 16, s, verbose)
    && if s.write.Some? then IsWrite(entry, s.write.value, |entry| - 16) else |entry| == 16
  }

  /** What the bytes of an entry are, position by position. */
  lemma EntryLayout(s: SysCall, verbose: bool)
    ensures IsEntry(EntryBytes(s, verbose), s, verbose)
  {
    var stop := StopBytes(s, verbose);
    StopLayout(s, verbose);
    if s.write.Some? {
      WriteThenStop(s, s.write.value, verbose);
    } else {
      assert [] + stop == stop;
    }
  }

  lemma WriteThenStop(s: SysCall, w: Write, verbose: bool)
    requires s.write == Some(w)
    ensures IsEntry(WriteBytes(w) + StopBytes(s, verbose), s, verbose)
  {
    StopLayout(s, verbose);
    WriteLayout(w);
    BothAreEntry(WriteBytes(w), w, StopBytes(s, verbose), s, verbose);
  }

  lemma BothAreEntry(pre: seq<byte>, w: Write, stop: seq<byte>, s: SysCall, verbose: bool)
    requires IsWrite(pre, w, |pre|) && IsStop(stop, 0, s, verbose) && |stop| == 16 && s.write == Some(w)
    ensures IsEntry(pre + stop, s, verbose)
  {
    BothLaidOut(pre, w, stop, s, verbose);
    assert |pre + stop| - 16 == |pre|;
  }

  lemma BothLaidOut(pre: seq<byte>, w: Write, stop: seq<byte>, s: SysCall, verbose: bool)
    requires IsWrite(pre, w, |pre|) && IsStop(stop, 0, s, verbose)
    ensures IsWrite(pre + stop, w, |pre|) && IsStop(pre + stop, |pre|, s, verbose)
  {
    HasBefore(pre, stop, 0, Le(w.addr, 8));
    HasBefore(pre, stop, 8, Le(|w.data|, 8));
    HasBefore(pre, stop, 16, w.data);
    HasAfter(pre, stop, 0, Le(if s.isBreak then 1 else if verbose then 3 else 0, 8));
    HasAfter(pre, stop, 8, Le(if s.isBreak then 0 else s.retval, 8));
  }

  lemma StopLayout(s: SysCall, verbose: bool)
    ensures IsStop(StopBytes(s, verbose), 0, s, verbose)
  {
    TwoParts(Le(StopCode(s, verbose), 8), Le(if s.isBreak then 0 else s.retval, 8));
  }

  lemma WriteLayout(w: Write)
    ensures IsWrite(WriteBytes(w), w, |WriteBytes(w)|)
  {
    var n, m := |w.data|, Padded(|w.data|) - |w.data|;
    FourParts(Le(w.addr, 8), Le(n, 8), w.data, Zeros(m));
    ZerosAt(WriteBytes(w), 16 + n, m);
  }

  lemma FourParts(a: seq<byte>, b: seq<byte>, c: seq<byte>, d: seq<byte>)
    ensures Has(a + b + c + d, 0, a) && Has(a + b + c + d, |a|, b)
    ensures Has(a + b + c + d, |a| + |b|, c) && Has(a + b + c + d, |a| + |b| + |c|, d)
  {
    TwoParts(a, b);
    TwoParts(a + b, c);
    TwoParts(a + b + c, d);
    HasBefore(a + b, c, 0, a);
    HasBefore(a + b, c, |a|, b);
    HasBefore(a + b + c, d, 0, a);
    HasBefore(a + b + c, d, |a|, b);
    HasBefore(a + b + c, d, |a| + |b|, c);
  }

  lemma TwoParts(a: seq<byte>, b: seq<byte>)
    ensures Has(a + b, 0, a) && Has(a + b, |a|, b)
  {
    HasAll(a);
    HasAll(b);
    HasBefore(a, b, 0, a);
    HasAfter(a, b, 0, b);
  }

  lemma ZerosAt(all: seq<byte>, k: nat, n: nat)
    requires Has(all, k, Zeros(n))
    ensures forall i :: k <= i < k + n ==> all[i] == 0
  {
    forall i | k <= i < k + n ensures all[i] == 0 {
      assert all[i] == all[k..k + n][i - k];
    }
  }

  lemma JoinTwo(b: seq<seq<byte>>)
    requires |b| == 2
    ensures Join(b) == b[0] + b[1]
  {
    assert Join(b[1..]) == b[1] + Join(b[1..][1..]);
    assert Join(b[1..][1..]) == [];
  }

  lemma JoinSix(b: seq<seq<byte>>)
    requires |b| == 6
    ensures Join(b) == b[0] + b[1] + b[2] + b[3] + (b[4] + b[5])
  {
    assert Join(b) == b[0] + Join(b[1..]);
    assert b[1..][1..] == b[2..] && b[2..][1..] == b[3..] && b[3..][1..] == b[4..];
    assert Join(b[1..]) == b[1] + Join(b[2..]);
    assert Join(b[2..]) == b[2] + Join(b[3..]);
    assert Join(b[3..]) == b[3] + Join(b[4..]);
    JoinTwo(b[4..]);
  }

  /** `(n + 7) & ~7`. */
  function Padded(n: nat): (p: nat)
    ensures p % 8 == 0 && n <= p < n + 8
  {
    (n + 7) / 8 * 8
  }

  function Record(code: nat, value: nat): (r: seq<byte>)
    ensures |r| == 16
  {
    Le(code, 8) + Le(value, 8)
  }

  function WriteBytes(w: Write): (r: seq<byte>)
    ensures |r| == 16 + Padded(|w.data|)
  {
    Le(w.addr, 8) + Le(|w.data|, 8) + w.data + Zeros(Padded(|w.data|) - |w.data|)
  }

  function StopCode(s: SysCall, verbose: bool): nat {
    if s.isBreak then EXIT else if verbose then RET_VERBOSE else RET
  }

  function StopBytes(s: SysCall, verbose: bool): (r: seq<byte>)
    ensures |r| == 16
  {
    Record(StopCode(s, verbose), if s.isBreak then 0 else s.retval)
  }

  function EntryBytes(s: SysCall, verbose: bool): seq<byte> {
    (if s.write.Some? then WriteBytes(s.write.value) else []) + StopBytes(s, verbose)
  }

  /** The entries of a list of calls, followed by end. */
  function EntriesBytes(calls: seq<SysCall>, verbose: bool, end: seq<byte>): seq<byte> {
    if calls == [] then end else EntryBytes(calls[0], verbose) + EntriesBytes(calls[1..], verbose, end)
  }

  // ----- store assertions -----

  datatype Store = Store(addr: nat, size: nat, data: nat)
  {
    ghost predicate Encodable() {
      IsWord(addr) && IsWord(size) && IsWord(data)
    }
  }

  function StoreBytes(s: Store): (r: seq<byte>)
    ensures |r| == 24
  {
    Le(s.addr, 8) + Le(s.size, 8) + Le(s.data, 8)
  }

  function StoresBytes(stores: seq<Store>): seq<byte> {
    if stores == [] then Record(0, 0) else StoreBytes(stores[0]) + StoresBytes(stores[1..])
  }

  /** Tuple order, as Python's sorted uses it. */
  predicate Before(s: Store, t: Store) {
    s.addr < t.addr || (s.addr == t.addr && (s.size < t.size || (s.size == t.size && s.data <= t.data)))
  }

  ghost predicate InTupleOrder(stores: seq<Store>) {
    forall i, j :: 0 <= i < j < |stores| ==> Before(stores[i], stores[j])
  }

  function Insert(s: Store, sorted: seq<Store>): (r: seq<Store>)
    ensures multiset(r) == multiset(sorted) + multiset{s}
    ensures |r| == |sorted| + 1
  {
    if sorted == [] then [s]
    else if Before(s, sorted[0]) then
      assert sorted == [sorted[0]] + sorted[1..];
      [s] + sorted
    else
      assert sorted == [sorted[0]] + sorted[1..];
      [sorted[0]] + Insert(s, sorted[1..])
  }

  /** `sorted(self.stores)`. */
  function SortStores(stores: seq<Store>): (r: seq<Store>)
    ensures multiset(r) == multiset(stores)
  {
    if stores == [] then [] else
      assert stores == [stores[0]] + stores[1..];
      Insert(stores[0], SortStores(stores[1..]))
  }

  lemma {:induction false} InsertInOrder(s: Store, sorted: seq<Store>)
    requires InTupleOrder(sorted)
    ensures InTupleOrder(Insert(s, sorted)) && forall t :: t in Insert(s, sorted) <==> t == s || t in sorted
  {
    if sorted != [] {
      var first, rest := sorted[0], sorted[1..];
      assert sorted == [first] + rest;
      assert forall t :: t in rest ==> Before(first, t);
      if !Before(s, first) {
        InsertInOrder(s, rest);
        FirstInOrder(first, Insert(s, rest));
      } else {
        FirstInOrder(s, sorted);
      }
    }
  }

  lemma FirstInOrder(s: Store, rest: seq<Store>)
    requires InTupleOrder(rest) && forall t :: t in rest ==> Before(s, t)
    ensures InTupleOrder([s] + rest)
  {
  }

  /** Sorting keeps the assertions and puts them in tuple order. */
  lemma {:induction false} SortedInOrder(stores: seq<Store>)
    ensures InTupleOrder(SortStores(stores)) && forall s :: s in SortStores(stores) <==> s in stores
  {
    if stores != [] {
      SortedInOrder(stores[1..]);
      InsertInOrder(stores[0], SortStores(stores[1..]));
    }
  }

  /** By address, then by size, then by data. */
  lemma StoresByAddress(stores: seq<Store>, i: nat, j: nat)
    requires i < j < |SortStores(stores)|
    ensures var s, t := SortStores(stores)[i], SortStores(stores)[j];
      s.addr <= t.addr && (s.addr == t.addr ==> s.size <= t.size && (s.size == t.size ==> s.data <= t.data))
  {
    SortedInOrder(stores);
  }

  // ----- the whole table -----

  function TableBytes(a0: seq<byte>, calls: seq<SysCall>, stores: seq<Store>, verbose: bool): seq<byte> {
    Le(ENTRY, 8) + a0 + EntriesBytes(calls, verbose, StoresBytes(SortStores(stores)))
  }

  lemma {:induction false} EntriesAppend(calls: seq<SysCall>, s: SysCall, verbose: bool, end: seq<byte>)
    ensures EntriesBytes(calls + [s], verbose, end) == EntriesBytes(calls, verbose, EntryBytes(s, verbose) + end)
  {
    if calls == [] {
      assert [s][1..] == [] && [] + [s] == [s];
    } else {
      assert (calls + [s])[1..] == calls[1..] + [s];
      EntriesAppend(calls[1..], s, verbose, end);
    }
  }

  lemma {:induction false} EntriesEnd(calls: seq<SysCall>, verbose: bool, a: seq<byte>, b: seq<byte>)
    ensures EntriesBytes(calls, verbose, a + b) == EntriesBytes(calls, verbose, a) + b
  {
    if calls != [] {
      EntriesEnd(calls[1..], verbose, a, b);
    }
  }

  lemma {:induction false} StoresAppend(stores: seq<Store>, n: nat, prefix: seq<byte>)
    requires n < |stores|
    ensures prefix + StoresBytes(stores[n..]) == prefix + StoreBytes(stores[n]) + StoresBytes(stores[n + 1..])
  {
    assert stores[n..][1..] == stores[n + 1..];
  }

  lemma EntriesStep(calls: seq<SysCall>, i: nat, verbose: bool)
    requires i < |calls|
    ensures EntriesBytes(calls[..i + 1], verbose, [])
      == EntriesBytes(calls[..i], verbose, []) + EntryBytes(calls[i], verbose)
  {
    var entry := EntryBytes(calls[i], verbose);
    assert calls[..i + 1] == calls[..i] + [calls[i]];
    EntriesAppend(calls[..i], calls[i], verbose, []);
    assert entry + [] == [] + entry;
    EntriesEnd(calls[..i], verbose, [], entry);
  }

  /** make_replay_table. */
  method MakeReplayTable(a0: seq<byte>, calls: seq<SysCall>, stores: seq<Store>, verbose: bool)
    returns (table: seq<byte>)
    requires forall s :: s in calls ==> s.Encodable()
    requires forall s :: s in stores ==> s.Encodable()
    ensures table == TableBytes(a0, calls, stores, verbose)
    ensures InTupleOrder(SortStores(stores)) && multiset(SortStores(stores)) == multiset(stores)
  {
    SortedInOrder(stores);
    var entries := MakeEntries(calls, verbose);
    var assertions := MakeAssertions(stores);
    table := Le(ENTRY, 8) + a0 + entries + assertions;
    EntriesThenEnd(calls, verbose, assertions);
    ConcatAssoc(Le(ENTRY, 8) + a0, entries, assertions);
  }

  lemma EntriesThenEnd(calls: seq<SysCall>, verbose: bool, end: seq<byte>)
    ensures EntriesBytes(calls, verbose, end) == EntriesBytes(calls, verbose, []) + end
  {
    assert [] + end == end;
    EntriesEnd(calls, verbose, [], end);
  }

  lemma ConcatAssoc(a: seq<byte>, b: seq<byte>, c: seq<byte>)
    ensures (a + b) + c == a + (b + c)
  {
  }

  method MakeEntries(calls: seq<SysCall>, verbose: bool) returns (table: seq<byte>)
    requires forall s :: s in calls ==> s.Encodable()
    ensures table == EntriesBytes(calls, verbose, [])
  {
    table := [];
    for i := 0 to |calls|
      invariant table == EntriesBytes(calls[..i], verbose, [])
    {
      var entry := calls[i].MakeEntry(verbose);
      EntriesStep(calls, i, verbose);
      table := table + entry;
    }
    assert calls[..|calls|] == calls;
  }

  method MakeAssertions(stores: seq<Store>) returns (table: seq<byte>)
    requires forall s :: s in stores ==> s.Encodable()
    ensures table == StoresBytes(SortStores(stores))
  {
    var order := SortStores(stores);
    table := [];
    assert order[0..] == order;
    for i := 0 to |order|
      invariant StoresBytes(order) == table + StoresBytes(order[i..])
    {
      StoresAppend(order, i, table);
      table := table + StoreBytes(order[i]);
    }
    table := table + Record(0, 0);
    assert order[|order|..] == [];
  }
}
