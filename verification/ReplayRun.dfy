// A whole run of a checkpoint: the program executes between system calls, and at
// each call site the trampoline calls replay with the head saved by the last call.
module ReplayRuns {
  import opened Bytes
  import opened ReplayTables
  import opened Replays

  function WritesOf(s: SysCall): seq<Write> {
    if s.write.Some? then [s.write.value] else []
  }

  /** Memory after the first n calls; program[i] is what the program stores before call i. */
  function MemAfter(mem: seq<byte>, program: seq<seq<Write>>, calls: seq<SysCall>, n: nat): (mem': seq<byte>)
    requires n <= |calls| == |program|
    ensures |mem'| == |mem|
  {
    if n == 0 then mem
    else ApplyAll(ApplyAll(MemAfter(mem, program, calls, n - 1), program[n - 1]), WritesOf(calls[n - 1]))
  }

  ghost predicate Covers(w: Write, a: nat) {
    w.addr <= a < w.addr + |w.data|
  }

  ghost predicate InMemory(writes: seq<Write>, size: nat) {
    forall w :: w in writes ==> w.addr + |w.data| <= size
  }

  /** No write from the given one on touches byte a. */
  ghost predicate NoneFrom(writes: seq<Write>, from: nat, a: nat) {
    forall j :: from <= j < |writes| ==> !Covers(writes[j], a)
  }

  /** Of several writes to a byte the last one counts. */
  lemma {:induction false} LastWriteCounts(mem: seq<byte>, writes: seq<Write>, k: nat, a: nat)
    requires InMemory(writes, |mem|) && k < |writes| && Covers(writes[k], a) && NoneFrom(writes, k + 1, a)
    ensures ApplyAll(mem, writes)[a] == writes[k].data[a - writes[k].addr]
    decreases |writes|
  {
    assert writes[0] in writes;
    if k > 0 {
      LastWriteCounts(Apply(mem, writes[0]), writes[1..], k - 1, a);
    } else {
      ByteStays(Apply(mem, writes[0]), writes[1..], a);
    }
  }

  lemma {:induction false} ByteStays(mem: seq<byte>, writes: seq<Write>, a: nat)
    requires InMemory(writes, |mem|) && a < |mem| && NoneFrom(writes, 0, a)
    ensures ApplyAll(mem, writes)[a] == mem[a]
    decreases |writes|
  {
    if writes != [] {
      assert writes[0] in writes;
      ByteStays(Apply(mem, writes[0]), writes[1..], a);
    }
  }

  /** A byte after call n: from the call's own write, else from the last store of the program, else from before. */
  lemma ByteAfterCall(mem: seq<byte>, program: seq<seq<Write>>, calls: seq<SysCall>, n: nat, a: nat)
    requires n < |calls| == |program| && a < |mem|
    requires InMemory(program[n], |mem|) && InMemory(WritesOf(calls[n]), |mem|)
    ensures var before, after := MemAfter(mem, program, calls, n)[a], MemAfter(mem, program, calls, n + 1)[a];
      if calls[n].write.Some? && Covers(calls[n].write.value, a) then
        after == calls[n].write.value.data[a - calls[n].write.value.addr]
      else
        && (NoneFrom(program[n], 0, a) ==> after == before)
        && forall k: nat :: k < |program[n]| && Covers(program[n][k], a) && NoneFrom(program[n], k + 1, a) ==>
          after == program[n][k].data[a - program[n][k].addr]
  {
    var before, w := MemAfter(mem, program, calls, n), WritesOf(calls[n]);
    var between := ApplyAll(before, program[n]);
    if calls[n].write.Some? && Covers(calls[n].write.value, a) {
      LastWriteCounts(between, w, 0, a);
    } else {
      ByteStays(between, w, a);
      ByteAfterStores(before, program[n], a);
    }
  }

  lemma ByteAfterStores(mem: seq<byte>, stores: seq<Write>, a: nat)
    requires InMemory(stores, |mem|) && a < |mem|
    ensures NoneFrom(stores, 0, a) ==> ApplyAll(mem, stores)[a] == mem[a]
    ensures forall k: nat :: k < |stores| && Covers(stores[k], a) && NoneFrom(stores, k + 1, a) ==>
      ApplyAll(mem, stores)[a] == stores[k].data[a - stores[k].addr]
  {
    if NoneFrom(stores, 0, a) {
      ByteStays(mem, stores, a);
    }
    forall k: nat | k < |stores| && Covers(stores[k], a) && NoneFrom(stores, k + 1, a)
      ensures ApplyAll(mem, stores)[a] == stores[k].data[a - stores[k].addr] {
      LastWriteCounts(mem, stores, k, a);
    }
  }

  /** The only break is the last call, and every call can be encoded. */
  ghost predicate Recorded(calls: seq<SysCall>) {
    && calls != []
    && (forall i :: 0 <= i < |calls| ==> (calls[i].isBreak <==> i == |calls| - 1))
    && (forall s :: s in calls ==> s.Encodable())
  }

  /** No recorded write and no store of the program touches the table in [lo, hi). */
  ghost predicate TableUntouched(calls: seq<SysCall>, program: seq<seq<Write>>, size: nat, lo: nat, hi: nat) {
    && |program| == |calls|
    && (forall s :: s in calls ==> WritesOk(WritesOf(s), size, lo, hi))
    && (forall p :: p in program ==> forall w :: w in p ==> w.addr + |w.data| <= size && Apart(w, lo, hi))
  }

  ghost predicate RunOk(calls: seq<SysCall>, program: seq<seq<Write>>, stores: seq<Store>, size: nat, lo: nat,
                        hi: nat) {
    Recorded(calls) && TableUntouched(calls, program, size, lo, hi) && Checkable(SortStores(stores), size)
  }

  function Retvals(calls: seq<SysCall>): seq<nat> {
    if calls == [] then [] else [calls[0].retval] + Retvals(calls[1..])
  }

  lemma {:induction false} RetvalsAt(calls: seq<SysCall>)
    ensures |Retvals(calls)| == |calls| && forall i :: 0 <= i < |calls| ==> Retvals(calls)[i] == calls[i].retval
  {
    if calls != [] {
      RetvalsAt(calls[1..]);
    }
  }

  lemma {:induction false} RetvalsAppend(calls: seq<SysCall>, i: nat)
    requires i < |calls|
    ensures Retvals(calls[..i + 1]) == Retvals(calls[..i]) + [calls[i].retval]
  {
    assert calls[..i + 1] == calls[..i] + [calls[i]];
    RetvalsSnoc(calls[..i], calls[i]);
  }

  lemma {:induction false} RetvalsSnoc(calls: seq<SysCall>, s: SysCall)
    ensures Retvals(calls + [s]) == Retvals(calls) + [s.retval]
  {
    if calls != [] {
      assert (calls + [s])[1..] == calls[1..] + [s];
      RetvalsSnoc(calls[1..], s);
    }
  }

  /** The stores the program makes between two calls. */
  method Execute(ram: array<byte>, writes: seq<Write>, ghost a: nat, ghost bs: seq<byte>)
    requires At(ram[..], a, bs)
    requires forall w :: w in writes ==> w.addr + |w.data| <= ram.Length && Apart(w, a, a + |bs|)
    modifies ram
    ensures ram[..] == ApplyAll(old(ram[..]), writes) && At(ram[..], a, bs)
  {
    var todo := writes;
    while todo != []
      invariant At(ram[..], a, bs)
      invariant forall w :: w in todo ==> w in writes
      invariant ApplyAll(ram[..], todo) == ApplyAll(old(ram[..]), writes)
      decreases |todo|
    {
      assert todo[0] in writes;
      ApplyKeeps(ram[..], todo[0], a, bs);
      Poke(ram, todo[0]);
      todo := todo[1..];
    }
  }

  method Poke(ram: array<byte>, w: Write)
    requires w.addr + |w.data| <= ram.Length
    modifies ram
    ensures ram[..] == Apply(old(ram[..]), w)
  {
    forall k | 0 <= k < |w.data| {
      ram[w.addr + k] := w.data[k];
    }
  }

  /** What is left of the table when the calls from i on are still to be replayed. */
  ghost function Rest(calls: seq<SysCall>, i: nat, stores: seq<Store>, verbose: bool): seq<byte>
    requires i <= |calls|
  {
    EntriesBytes(calls[i..], verbose, StoresBytes(SortStores(stores)))
  }

  /** An entry is its write, if any, then its stop record, then the rest of the table. */
  lemma EntryIsPending(mem: seq<byte>, head: nat, hi: nat, calls: seq<SysCall>, i: nat, stores: seq<Store>,
                       verbose: bool)
    requires i < |calls| && At(mem, head, Rest(calls, i, stores, verbose))
      && head + |Rest(calls, i, stores, verbose)| == hi
    requires WritesOk(WritesOf(calls[i]), |mem|, head, hi)
    ensures Pending(mem, head, WritesOf(calls[i]), StopBytes(calls[i], verbose) + Rest(calls, i + 1, stores, verbose))
    ensures StopAt(head, WritesOf(calls[i])) + 16 + |Rest(calls, i + 1, stores, verbose)| == hi
  {
    var s, stop, rest := calls[i], StopBytes(calls[i], verbose), Rest(calls, i + 1, stores, verbose);
    assert calls[i..][0] == s && calls[i..][1..] == calls[i + 1..];
    assert Rest(calls, i, stores, verbose) == EntryBytes(s, verbose) + rest;
    if s.write.Some? {
      var w := WritesOf(s);
      assert w[1..] == [];
      ConcatAssoc(WriteBytes(s.write.value), stop, rest);
      assert WritesBytes(w, stop + rest) == WriteBytes(w[0]) + WritesBytes(w[1..], stop + rest);
      assert StopAt(head, w) == StopAt(head + |WriteBytes(w[0])|, w[1..]);
    } else {
      assert [] + stop + rest == stop + rest;
    }
  }

  /** Replays one call; the value the trampoline loads is the word below the returned head. */
  method ReplayCall(ram: array<byte>, head: nat, ghost hi: nat, ghost calls: seq<SysCall>, ghost i: nat,
                    ghost stores: seq<Store>, ghost verbose: bool) returns (r: Outcome)
    requires i < |calls| && Recorded(calls) && Checkable(SortStores(stores), ram.Length)
    requires At(ram[..], head, Rest(calls, i, stores, verbose)) && head + |Rest(calls, i, stores, verbose)| == hi
    requires WritesOk(WritesOf(calls[i]), ram.Length, head, hi)
    modifies ram
    ensures ram[..] == ApplyAll(old(ram[..]), WritesOf(calls[i]))
    ensures CallEnds(r, ram[..], head, hi, calls, i, stores, verbose)
  {
    assert calls[i] in calls;
    EntryIsPending(ram[..], head, hi, calls, i, stores, verbose);
    LastHasNoRest(calls, i, stores, verbose);
    ghost var s := calls[i];
    r := Replay(ram, head, WritesOf(s), StopCode(s, verbose), if s.isBreak then 0 else s.retval,
                Rest(calls, i + 1, stores, verbose), SortStores(stores));
    CallStopped(r, ram[..], head, hi, calls, i, stores, verbose);
  }

  /** How call i ends: it returns with its value and the next entry, or it was the last. */
  ghost predicate CallEnds(r: Outcome, mem: seq<byte>, head: nat, hi: nat, calls: seq<SysCall>, i: nat,
                           stores: seq<Store>, verbose: bool)
    requires i < |calls|
  {
    if i < |calls| - 1 then
      && r == Returned(head + |EntryBytes(calls[i], verbose)|, if verbose then Some(calls[i].retval) else None)
      && 8 <= r.next <= |mem| && Word(mem, r.next - 8) == calls[i].retval
      && At(mem, r.next, Rest(calls, i + 1, stores, verbose))
      && r.next + |Rest(calls, i + 1, stores, verbose)| == hi
    else
      r == if StoresHold(mem, SortStores(stores)) then Finished else StoreAssertionFailed
  }

  lemma CallStopped(r: Outcome, mem: seq<byte>, head: nat, hi: nat, calls: seq<SysCall>, i: nat, stores: seq<Store>,
                    verbose: bool)
    requires i < |calls| && Recorded(calls) && head + |Rest(calls, i, stores, verbose)| == hi
    requires StopAt(head, WritesOf(calls[i])) + 16 + |Rest(calls, i + 1, stores, verbose)| == hi
    requires At(mem, StopAt(head, WritesOf(calls[i])),
                StopBytes(calls[i], verbose) + Rest(calls, i + 1, stores, verbose))
    requires EndsWith(r, mem, StopAt(head, WritesOf(calls[i])), StopCode(calls[i], verbose),
                      if calls[i].isBreak then 0 else calls[i].retval, SortStores(stores))
    ensures CallEnds(r, mem, head, hi, calls, i, stores, verbose)
  {
    var s, stop := calls[i], StopAt(head, WritesOf(calls[i]));
    assert s in calls;
    AtSplit(mem, stop, StopBytes(s, verbose), Rest(calls, i + 1, stores, verbose));
    RecordAt(mem, stop, StopCode(s, verbose), if s.isBreak then 0 else s.retval);
    EntryLength(calls, i, stores, verbose);
  }

  lemma EntryLength(calls: seq<SysCall>, i: nat, stores: seq<Store>, verbose: bool)
    requires i < |calls|
    ensures |Rest(calls, i, stores, verbose)| == |EntryBytes(calls[i], verbose)| + |Rest(calls, i + 1, stores, verbose)|
  {
    assert calls[i..][0] == calls[i] && calls[i..][1..] == calls[i + 1..];
  }

  lemma LastHasNoRest(calls: seq<SysCall>, i: nat, stores: seq<Store>, verbose: bool)
    requires i < |calls|
    ensures i == |calls| - 1 ==> Rest(calls, i + 1, stores, verbose) == StoresBytes(SortStores(stores))
  {
    assert i == |calls| - 1 ==> calls[i + 1..] == [];
  }

  /**
   * A whole run from the start of the table: the entry call returns the recorded a0, every later
   * call applies exactly its recorded write and returns its recorded value, and the last one checks
   * the store assertions: all of them, or none if one is at address zero (ZeroStoreHidesAll). The head never
   * leaves the table, and verbosity changes only what is printed.
   */
  method Run(ram: array<byte>, table: nat, a0: nat, calls: seq<SysCall>, stores: seq<Store>, verbose: bool,
             program: seq<seq<Write>>)
    returns (values: seq<nat>, printed: seq<nat>, result: Outcome)
    requires IsWord(a0) && At(ram[..], table, TableBytes(Le(a0, 8), calls, stores, verbose))
    requires RunOk(calls, program, stores, ram.Length, table, table + |TableBytes(Le(a0, 8), calls, stores, verbose)|)
    modifies ram
    ensures ram[..] == MemAfter(old(ram[..]), program, calls, |calls|)
    ensures values == [a0] + Retvals(calls[..|calls| - 1])
    ensures printed == if verbose then Retvals(calls[..|calls| - 1]) else []
    ensures result == if StoresHold(ram[..], SortStores(stores)) then Finished else StoreAssertionFailed
  {
    ghost var x := RunData(calls, program, stores, verbose, ram.Length, table,
                           table + |TableBytes(Le(a0, 8), calls, stores, verbose)|);
    ghost var mem := ram[..];
    var head, v := EnterTable(ram, table, a0, x);
    head, values, printed := Rounds(ram, head, program, v, x, mem);
    result := Step(ram, head, program, |program| - 1, x, mem);
  }

  // ----- the calls in turn -----

  /** The table lies in [lo, hi) of a memory of the given size. */
  datatype RunData = RunData(calls: seq<SysCall>, program: seq<seq<Write>>, stores: seq<Store>, verbose: bool,
                             size: nat, lo: nat, hi: nat)

  const ONE_BREAK := RunData([SysCall(0, 0, None, true, None)], [[]], [], false, 0, 0, 0)

  /** What a run needs to know, with its table left untouched. */
  type Recording = x: RunData | RunOk(x.calls, x.program, x.stores, x.size, x.lo, x.hi) ghost witness ONE_BREAK

  /** Call i is next: the rest of the table is at head, and ends at hi. */
  ghost predicate Running(now: seq<byte>, mem: seq<byte>, head: nat, x: Recording, i: nat) {
    && i < |x.calls| && |mem| == x.size
    && now == MemAfter(mem, x.program, x.calls, i)
    && x.lo <= head && At(now, head, Rest(x.calls, i, x.stores, x.verbose))
      && head + |Rest(x.calls, i, x.stores, x.verbose)| == x.hi
  }

  ghost predicate Reported(values: seq<nat>, printed: seq<nat>, a0: nat, calls: seq<SysCall>, i: nat, verbose: bool)
    requires i <= |calls|
  {
    values == [a0] + Retvals(calls[..i]) && printed == if verbose then Retvals(calls[..i]) else []
  }

  lemma MoreReported(values: seq<nat>, printed: seq<nat>, a0: nat, calls: seq<SysCall>, i: nat, verbose: bool)
    requires i < |calls| && Reported(values, printed, a0, calls, i, verbose)
    ensures Reported(values + [calls[i].retval], printed + if verbose then [calls[i].retval] else [],
                     a0, calls, i + 1, verbose)
  {
    RetvalsAppend(calls, i);
  }

  /** All calls but the last, after the entry call has returned a0. */
  method Rounds(ram: array<byte>, head0: nat, program: seq<seq<Write>>, a0: nat, ghost x: Recording,
                ghost mem: seq<byte>)
    returns (head: nat, values: seq<nat>, printed: seq<nat>)
    requires Running(ram[..], mem, head0, x, 0) && program == x.program
    modifies ram
    ensures Running(ram[..], mem, head, x, |program| - 1)
    ensures Reported(values, printed, a0, x.calls, |program| - 1, x.verbose)
  {
    head, values, printed := head0, [a0], [];
    for i := 0 to |program| - 1
      invariant Running(ram[..], mem, head, x, i)
      invariant Reported(values, printed, a0, x.calls, i, x.verbose)
    {
      head, values, printed := Round(ram, head, program, i, values, printed, a0, x, mem);
    }
  }

  /** A call that is not the last: the program goes on with its value. */
  method Round(ram: array<byte>, head: nat, program: seq<seq<Write>>, i: nat, values: seq<nat>, printed: seq<nat>,
               ghost a0: nat, ghost x: Recording, ghost mem: seq<byte>)
    returns (head': nat, values': seq<nat>, printed': seq<nat>)
    requires Running(ram[..], mem, head, x, i) && program == x.program && i < |x.calls| - 1
    requires Reported(values, printed, a0, x.calls, i, x.verbose)
    modifies ram
    ensures Running(ram[..], mem, head', x, i + 1)
    ensures Reported(values', printed', a0, x.calls, i + 1, x.verbose)
  {
    var v, shown;
    head', v, shown := Advance(ram, head, program, i, x, mem);
    MoreReported(values, printed, a0, x.calls, i, x.verbose);
    values', printed' := values + [v], printed + shown;
  }

  method Advance(ram: array<byte>, head: nat, program: seq<seq<Write>>, i: nat, ghost x: Recording,
                 ghost mem: seq<byte>)
    returns (head': nat, v: nat, shown: seq<nat>)
    requires Running(ram[..], mem, head, x, i) && program == x.program && i < |x.calls| - 1
    modifies ram
    ensures Running(ram[..], mem, head', x, i + 1)
    ensures v == x.calls[i].retval && shown == if x.verbose then [x.calls[i].retval] else []
  {
    var r := StepOn(ram, head, program, i, x, mem);
    head' := r.next;
    v := LoadWord(ram, head' - 8);
    shown := if r.printed.Some? then [r.printed.value] else [];
  }

  method StepOn(ram: array<byte>, head: nat, program: seq<seq<Write>>, i: nat, ghost x: Recording, ghost mem: seq<byte>)
    returns (r: Outcome)
    requires Running(ram[..], mem, head, x, i) && program == x.program && i < |x.calls| - 1
    modifies ram
    ensures r.Returned? && Running(ram[..], mem, r.next, x, i + 1)
    ensures r.printed == if x.verbose then Some(x.calls[i].retval) else None
    ensures 8 <= r.next <= ram.Length && Word(ram[..], r.next - 8) == x.calls[i].retval
  {
    r := Step(ram, head, program, i, x, mem);
    NextRunning(ram[..], mem, head, x, i, r);
  }

  /** After a call that is not the last, the next one is next. */
  lemma NextRunning(now: seq<byte>, mem: seq<byte>, head: nat, x: Recording, i: nat, r: Outcome)
    requires i < |x.calls| - 1 && x.lo <= head && |mem| == x.size
    requires now == MemAfter(mem, x.program, x.calls, i + 1)
    requires CallEnds(r, now, head, x.hi, x.calls, i, x.stores, x.verbose)
    ensures r.Returned? && Running(now, mem, r.next, x, i + 1)
    ensures r.printed == if x.verbose then Some(x.calls[i].retval) else None
    ensures 8 <= r.next <= |now| && Word(now, r.next - 8) == x.calls[i].retval
  {
  }

  /** The call made by the entry trampoline. */
  method EnterTable(ram: array<byte>, table: nat, a0: nat, ghost x: Recording) returns (head: nat, v: nat)
    requires IsWord(a0) && table == x.lo && x.size == ram.Length
    requires At(ram[..], table, TableBytes(Le(a0, 8), x.calls, x.stores, x.verbose))
    requires x.hi == table + |TableBytes(Le(a0, 8), x.calls, x.stores, x.verbose)|
    modifies ram
    ensures ram[..] == old(ram[..]) && v == a0
    ensures Running(ram[..], ram[..], head, x, 0)
  {
    ghost var mem := ram[..];
    TableStarts(mem, table, a0, x.calls, x.stores, x.verbose);
    head := EnterCall(ram, table, a0, Rest(x.calls, 0, x.stores, x.verbose));
    v := LoadWord(ram, head - 8);
    assert ram[..] == mem;
  }

  method EnterCall(ram: array<byte>, table: nat, ghost a0: nat, ghost rest: seq<byte>) returns (head: nat)
    requires IsWord(a0) && Pending(ram[..], table, [], Record(ENTRY, a0) + rest)
    modifies ram
    ensures ram[..] == old(ram[..]) && head == table + 16
  {
    var entry := Replay(ram, table, [], ENTRY, a0, rest, []);
    head := entry.next;
  }

  /** The program's stores before call i, then the call. */
  method Step(ram: array<byte>, head: nat, program: seq<seq<Write>>, i: nat, ghost x: Recording, ghost mem: seq<byte>)
    returns (r: Outcome)
    requires Running(ram[..], mem, head, x, i) && program == x.program
    modifies ram
    ensures ram[..] == MemAfter(mem, x.program, x.calls, i + 1)
    ensures CallEnds(r, ram[..], head, x.hi, x.calls, i, x.stores, x.verbose)
  {
    CallIsOk(x, i, head);
    Execute(ram, program[i], head, Rest(x.calls, i, x.stores, x.verbose));
    r := ReplayCall(ram, head, x.hi, x.calls, i, x.stores, x.verbose);
  }

  lemma CallIsOk(x: Recording, i: nat, head: nat)
    requires i < |x.calls| && x.lo <= head
    ensures WritesOk(WritesOf(x.calls[i]), x.size, head, x.hi)
    ensures forall w :: w in x.program[i] ==> w.addr + |w.data| <= x.size && Apart(w, head, x.hi)
  {
    assert x.calls[i] in x.calls && x.program[i] in x.program;
  }

  lemma TableStarts(mem: seq<byte>, table: nat, a0: nat, calls: seq<SysCall>, stores: seq<Store>, verbose: bool)
    requires IsWord(a0) && At(mem, table, TableBytes(Le(a0, 8), calls, stores, verbose))
    ensures Pending(mem, table, [], Record(ENTRY, a0) + Rest(calls, 0, stores, verbose))
    ensures At(mem, table + 16, Rest(calls, 0, stores, verbose))
    ensures 16 + |Rest(calls, 0, stores, verbose)| == |TableBytes(Le(a0, 8), calls, stores, verbose)|
    ensures table + 16 <= |mem| && Word(mem, table + 8) == a0
  {
    assert calls[0..] == calls;
    AtSplit(mem, table, Record(ENTRY, a0), Rest(calls, 0, stores, verbose));
    RecordAt(mem, table, ENTRY, a0);
  }
}
