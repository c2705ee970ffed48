// Checkpoint.process, second pass: the breakpoint executions seen in a rerun are
// merged into the recorded system calls.
module Merging {
  import opened Bytes
  import opened ReplayRuns
  import opened ReplayTables

  /** A line of the rerun's output. */
  datatype Line = Execute(val: nat) | Syscall(val: nat) | Other

  datatype Problem = IncompleteExecution | QueueEmpty | ValueMismatch

  datatype Breakpoint = Breakpoint(addr: nat, rd: nat, repeat: int)

  function Hit(bp: Breakpoint, val: nat): SysCall {
    SysCall(bp.addr, val, Some(bp.rd), false, None)
  }

  const BREAK_RETVAL := 0  // never encoded: an EXIT record carries zero

  function Break(bp: Breakpoint): SysCall {
    SysCall(bp.addr, BREAK_RETVAL, None, true, None)
  }

  /** Interleaving: merged is the calls and the breakpoint executions with the given values, each in order. */
  ghost predicate Interleaves(merged: seq<SysCall>, bp: Breakpoint, calls: seq<SysCall>, vals: seq<nat>)
    decreases |merged|
  {
    if merged == [] then calls == [] && vals == []
    else
      var last, rest := merged[|merged| - 1], merged[..|merged| - 1];
      || (vals != [] && last == Hit(bp, vals[|vals| - 1]) && Interleaves(rest, bp, calls, vals[..|vals| - 1]))
      || (calls != [] && last == calls[|calls| - 1] && Interleaves(rest, bp, calls[..|calls| - 1], vals))
  }

  /** The values of the breakpoint executions in the output. */
  function HitValues(lines: seq<Line>): seq<nat> {
    if lines == [] then []
    else
      var vals := HitValues(lines[..|lines| - 1]);
      match lines[|lines| - 1]
      case Execute(v) => vals + [v]
      case _ => vals
  }

  /** Every system call line so far agrees with the recorded call it stands for. */
  ghost predicate Agrees(calls: seq<SysCall>, lines: seq<Line>) {
    lines == [] ||
    var init, n := lines[..|lines| - 1], SyscallCount(lines[..|lines| - 1]);
    && Agrees(calls, init)
    && (lines[|lines| - 1].Syscall? ==> n < |calls| && !calls[n].isBreak && calls[n].retval == lines[|lines| - 1].val)
  }

  function SyscallCount(lines: seq<Line>): nat {
    if lines == [] then 0 else SyscallCount(lines[..|lines| - 1]) + if lines[|lines| - 1].Syscall? then 1 else 0
  }

  /**
   * The entry a line gives rise to, when it comes after the given lines: an execution, the next recorded
   * call, or none.
   */
  function EntryOf(bp: Breakpoint, calls: seq<SysCall>, before: seq<Line>, line: Line): seq<SysCall> {
    match line
    case Execute(v) => [Hit(bp, v)]
    case Syscall(_) => if SyscallCount(before) < |calls| then [calls[SyscallCount(before)]] else []
    case Other => []
  }

  /** The entries of all lines, in the order of the lines. */
  function Merged(bp: Breakpoint, calls: seq<SysCall>, lines: seq<Line>): seq<SysCall> {
    if lines == [] then []
    else
      var init := lines[..|lines| - 1];
      Merged(bp, calls, init) + EntryOf(bp, calls, init, lines[|lines| - 1])
  }

  /** So the entries of any line stand right after those of the lines before it. */
  lemma {:induction false} EntryInPlace(bp: Breakpoint, calls: seq<SysCall>, lines: seq<Line>, j: nat)
    requires j < |lines|
    ensures Merged(bp, calls, lines[..j]) + EntryOf(bp, calls, lines[..j], lines[j]) <= Merged(bp, calls, lines)
  {
    var n := |lines| - 1;
    var init, last := Merged(bp, calls, lines[..n]), EntryOf(bp, calls, lines[..n], lines[n]);
    assert Merged(bp, calls, lines) == init + last;
    if j < n {
      assert lines[..n][..j] == lines[..j];
      EntryInPlace(bp, calls, lines[..n], j);
      assert init <= init + last;
    }
  }

  /** The loop stops after n lines: all calls used, all but one of the executions seen. */
  ghost predicate StopsAt(bp: Breakpoint, calls: seq<SysCall>, lines: seq<Line>, n: nat) {
    && 0 < n <= |lines| && Agrees(calls, lines[..n])
    && SyscallCount(lines[..n]) == |calls| && |HitValues(lines[..n])| == bp.repeat - 1
  }

  lemma Snoc<T>(s: seq<T>, n: nat)
    requires n < |s|
    ensures s[..n + 1] == s[..n] + [s[n]] && s[..n + 1][..n] == s[..n]
  {
  }

  /** After i lines: what has been merged so far, and no earlier stop. */
  ghost predicate MergedSoFar(bp: Breakpoint, calls: seq<SysCall>, lines: seq<Line>, i: nat, merged: seq<SysCall>,
                              used: nat) {
    && i <= |lines| && used == SyscallCount(lines[..i]) <= |calls| && Agrees(calls, lines[..i])
    && merged == Merged(bp, calls, lines[..i]) && Interleaves(merged, bp, calls[..used], HitValues(lines[..i]))
    && (forall s :: s in merged ==> !s.isBreak)
    && |merged| == used + |HitValues(lines[..i])|
  }

  /**
   * The sequence for the second pass: the entries of the lines in their order, all calls and executions among
   * them, then one break.
   */
  ghost predicate SecondPass(result: seq<SysCall>, bp: Breakpoint, calls: seq<SysCall>, lines: seq<Line>, n: nat) {
    && n <= |lines| && |result| == |calls| + bp.repeat > 0
    && result[..|result| - 1] == Merged(bp, calls, lines[..n])
    && Interleaves(result[..|result| - 1], bp, calls, HitValues(lines[..n]))
    && result[|result| - 1] == Break(bp)
    && forall i :: 0 <= i < |result| ==> (result[i].isBreak <==> i == |result| - 1)
  }

  /**
   * The merge loop. It ends normally iff some prefix of the output uses up the recorded calls with
   * exactly repeat - 1 executions, every value agreeing; the result is then an interleaving of the
   * calls and those executions, in order, with one break at the end.
   */
  method Merge(bp: Breakpoint, calls: seq<SysCall>, lines: seq<Line>)
    returns (r: Result<seq<SysCall>, Problem>, ghost n: nat)
    ensures r.Ok? ==> StopsAt(bp, calls, lines, n) && SecondPass(r.value, bp, calls, lines, n)
    ensures r.Err? ==> forall n: nat :: !StopsAt(bp, calls, lines, n)
  {
    n := 0;
    var repeat := bp.repeat;
    var used := 0;  // the queue is calls[used..]
    var merged: seq<SysCall> := [];
    for i := 0 to |lines|
      invariant MergedSoFar(bp, calls, lines, i, merged, used)
      invariant repeat == bp.repeat - |HitValues(lines[..i])|
      invariant forall n :: 0 < n <= i ==> !StopsAt(bp, calls, lines, n)
    {
      var problem;
      problem, merged, used, repeat := MergeLine(bp, calls, lines, i, lines[i], merged, used, repeat);
      if problem.Some? {
        return Err(problem.value), n;
      }
      StopsHere(bp, calls, lines, i + 1, merged, used);
      if repeat == 1 && used == |calls| {
        Stopped(bp, calls, lines, i + 1, merged);
        return Ok(merged + [Break(bp)]), i + 1;
      }
    }
    return Err(IncompleteExecution), n;
  }

  /** One line: an execution, a system call that must agree with the next recorded one, or anything else. */
  method MergeLine(bp: Breakpoint, calls: seq<SysCall>, ghost lines: seq<Line>, ghost i: nat, line: Line,
                   merged: seq<SysCall>, used: nat, repeat: int)
    returns (problem: Option<Problem>, merged': seq<SysCall>, used': nat, repeat': int)
    requires i < |lines| && line == lines[i] && MergedSoFar(bp, calls, lines, i, merged, used)
    requires repeat == bp.repeat - |HitValues(lines[..i])|
    requires forall n :: 0 < n <= i ==> !StopsAt(bp, calls, lines, n)
    ensures problem.Some? ==> forall n :: !StopsAt(bp, calls, lines, n)
    ensures problem.None? ==>
      MergedSoFar(bp, calls, lines, i + 1, merged', used') && repeat' == bp.repeat - |HitValues(lines[..i + 1])|
  {
    problem, merged', used', repeat' := None, merged, used, repeat;
    match line {
      case Execute(val) =>
        MergeHit(bp, calls, lines, i, merged, used);
        merged', repeat' := merged + [Hit(bp, val)], repeat - 1;
      case Syscall(val) =>
        MergeCall(bp, calls, lines, i, merged, used);
        if used == |calls| {
          problem := Some(QueueEmpty);
        } else if calls[used].isBreak || calls[used].retval != val {  // a break has no return value to agree with
          problem := Some(ValueMismatch);
        } else {
          merged', used' := merged + [calls[used]], used + 1;
        }
      case Other =>
        MergeOther(bp, calls, lines, i, merged, used);
    }
  }

  /** An interleaving holds nothing but the calls and the executions. */
  lemma {:induction false} OnlyCallsAndHits(merged: seq<SysCall>, bp: Breakpoint, calls: seq<SysCall>, vals: seq<nat>)
    requires Interleaves(merged, bp, calls, vals)
    ensures forall s :: s in merged ==> s in calls || exists v :: v in vals && s == Hit(bp, v)
    decreases |merged|
  {
    if merged != [] {
      var n := |merged| - 1;
      if vals != [] && merged[n] == Hit(bp, vals[|vals| - 1])
        && Interleaves(merged[..n], bp, calls, vals[..|vals| - 1]) {
        OnlyCallsAndHits(merged[..n], bp, calls, vals[..|vals| - 1]);
      } else {
        OnlyCallsAndHits(merged[..n], bp, calls[..|calls| - 1], vals);
        assert merged[n] in calls && forall s :: s in calls[..|calls| - 1] ==> s in calls;
      }
      assert forall s :: s in merged ==> s in merged[..n] || s == merged[n];
    }
  }

  /** It can be encoded and replayed, if the recorded calls can and the values are 64-bit words. */
  lemma SecondPassIsRecorded(result: seq<SysCall>, bp: Breakpoint, calls: seq<SysCall>, lines: seq<Line>, n: nat)
    requires SecondPass(result, bp, calls, lines, n)
    requires (forall s :: s in calls ==> s.Encodable()) && forall v :: v in HitValues(lines[..n]) ==> IsWord(v)
    ensures Recorded(result)
  {
    var last := |result| - 1;
    OnlyCallsAndHits(result[..last], bp, calls, HitValues(lines[..n]));
    forall s | s in result ensures s.Encodable() {
      var i :| 0 <= i < |result| && result[i] == s;
      if i < last {
        assert s == result[..last][i];
      }
    }
  }

  lemma MergeHit(bp: Breakpoint, calls: seq<SysCall>, lines: seq<Line>, i: nat, merged: seq<SysCall>, used: nat)
    requires i < |lines| && MergedSoFar(bp, calls, lines, i, merged, used) && lines[i].Execute?
    ensures MergedSoFar(bp, calls, lines, i + 1, merged + [Hit(bp, lines[i].val)], used)
    ensures |HitValues(lines[..i + 1])| == |HitValues(lines[..i])| + 1
  {
    Snoc(lines, i);
    var next, vals := merged + [Hit(bp, lines[i].val)], HitValues(lines[..i + 1]);
    assert next[..|next| - 1] == merged && vals[..|vals| - 1] == HitValues(lines[..i]);
  }

  lemma MergeCall(bp: Breakpoint, calls: seq<SysCall>, lines: seq<Line>, i: nat, merged: seq<SysCall>, used: nat)
    requires i < |lines| && MergedSoFar(bp, calls, lines, i, merged, used) && lines[i].Syscall?
    requires forall n :: 0 < n <= i ==> !StopsAt(bp, calls, lines, n)
    ensures used < |calls| && !calls[used].isBreak && calls[used].retval == lines[i].val ==>
      MergedSoFar(bp, calls, lines, i + 1, merged + [calls[used]], used + 1)
    ensures !(used < |calls| && !calls[used].isBreak && calls[used].retval == lines[i].val) ==>
      forall n :: !StopsAt(bp, calls, lines, n)
    ensures HitValues(lines[..i + 1]) == HitValues(lines[..i])
  {
    Snoc(lines, i);
    if used < |calls| && !calls[used].isBreak && calls[used].retval == lines[i].val {
      Snoc(calls, used);
      var next := merged + [calls[used]];
      assert next[..|next| - 1] == merged;
    } else {
      NeverAgrees(bp, calls, lines, i);
    }
  }

  lemma MergeOther(bp: Breakpoint, calls: seq<SysCall>, lines: seq<Line>, i: nat, merged: seq<SysCall>, used: nat)
    requires i < |lines| && MergedSoFar(bp, calls, lines, i, merged, used) && lines[i].Other?
    ensures MergedSoFar(bp, calls, lines, i + 1, merged, used) && HitValues(lines[..i + 1]) == HitValues(lines[..i])
  {
    Snoc(lines, i);
  }

  lemma StopsHere(bp: Breakpoint, calls: seq<SysCall>, lines: seq<Line>, n: nat, merged: seq<SysCall>, used: nat)
    requires 0 < n && MergedSoFar(bp, calls, lines, n, merged, used)
    ensures StopsAt(bp, calls, lines, n) <==> used == |calls| && |HitValues(lines[..n])| == bp.repeat - 1
  {
  }

  lemma Stopped(bp: Breakpoint, calls: seq<SysCall>, lines: seq<Line>, n: nat, merged: seq<SysCall>)
    requires 0 < n && MergedSoFar(bp, calls, lines, n, merged, |calls|) && |HitValues(lines[..n])| == bp.repeat - 1
    ensures StopsAt(bp, calls, lines, n) && SecondPass(merged + [Break(bp)], bp, calls, lines, n)
  {
    var result := merged + [Break(bp)];
    assert calls[..|calls|] == calls && result[..|result| - 1] == merged;
    forall i | 0 <= i < |result| ensures result[i].isBreak <==> i == |result| - 1 {
      assert i < |merged| ==> result[i] in merged;
    }
  }

  /** A wrong or surplus system call line rules out every longer prefix. */
  lemma NeverAgrees(bp: Breakpoint, calls: seq<SysCall>, lines: seq<Line>, i: nat)
    requires i < |lines| && !Agrees(calls, lines[..i + 1])
    requires forall n :: 0 < n <= i ==> !StopsAt(bp, calls, lines, n)
    ensures forall n :: !StopsAt(bp, calls, lines, n)
  {
    forall n | i < n <= |lines| ensures !Agrees(calls, lines[..n]) {
      StillDisagrees(calls, lines, i + 1, n);
    }
  }

  lemma {:induction false} StillDisagrees(calls: seq<SysCall>, lines: seq<Line>, i: nat, n: nat)
    requires i <= n <= |lines| && !Agrees(calls, lines[..i])
    ensures !Agrees(calls, lines[..n])
    decreases n
  {
    if i < n {
      StillDisagrees(calls, lines, i, n - 1);
      Snoc(lines, n - 1);
    }
  }

  // ----- what the second pass replays -----

  /** The values that the lines print, in order. */
  function Printed(lines: seq<Line>): seq<nat> {
    if lines == [] then []
    else
      Printed(lines[..|lines| - 1]) +
      match lines[|lines| - 1]
      case Execute(v) => [v]
      case Syscall(v) => [v]
      case Other => []
  }

  /** Those are the values of the entries. */
  lemma {:induction false} MergedPrints(bp: Breakpoint, calls: seq<SysCall>, lines: seq<Line>)
    requires Agrees(calls, lines)
    ensures Retvals(Merged(bp, calls, lines)) == Printed(lines)
  {
    if lines != [] {
      var n := |lines| - 1;
      MergedPrints(bp, calls, lines[..n]);
      var init, entry := Merged(bp, calls, lines[..n]), EntryOf(bp, calls, lines[..n], lines[n]);
      if entry == [] {
        assert init + entry == init && lines[n].Other?;
      } else {
        assert init + entry == init + [entry[0]];
        RetvalsSnoc(init, entry[0]);
      }
    }
  }

  lemma {:induction false} AgreesBefore(calls: seq<SysCall>, lines: seq<Line>, n: nat)
    requires n <= |lines| && Agrees(calls, lines)
    ensures Agrees(calls, lines[..n])
  {
    if n < |lines| {
      AgreesBefore(calls, lines[..|lines| - 1], n);
      assert lines[..|lines| - 1][..n] == lines[..n];
    } else {
      assert lines[..n] == lines;
    }
  }

  /** The second pass replays the very values that the first one printed, in their order, then breaks at bp. */
  lemma ValuesPrinted(result: seq<SysCall>, bp: Breakpoint, calls: seq<SysCall>, lines: seq<Line>, n: nat)
    requires StopsAt(bp, calls, lines, n) && SecondPass(result, bp, calls, lines, n)
    ensures Retvals(result[..|result| - 1]) == Printed(lines[..n])
    ensures var last := result[|result| - 1];
      last.isBreak && last.addr == bp.addr && last.alterRd == None && last.write == None
  {
    MergedPrints(bp, calls, lines[..n]);
  }

  lemma LineInPlace(result: seq<SysCall>, bp: Breakpoint, calls: seq<SysCall>, lines: seq<Line>, n: nat, j: nat)
    requires StopsAt(bp, calls, lines, n) && SecondPass(result, bp, calls, lines, n) && j < n && !lines[j].Other?
    ensures Agrees(calls, lines[..j + 1])
    ensures var k := |Printed(lines[..j])|; k < |result| - 1 && [result[k]] == EntryOf(bp, calls, lines[..j], lines[j])
  {
    EarlierPrefix(lines, j, n);
    EntryInPlace(bp, calls, lines[..n], j);
    AgreesBefore(calls, lines[..n], j + 1);
    AgreesBefore(calls, lines[..n], j);
    Snoc(lines, j);
    MergedPrints(bp, calls, lines[..j]);
    RetvalsAt(Merged(bp, calls, lines[..j]));
    Placed(Merged(bp, calls, lines[..j]), EntryOf(bp, calls, lines[..j], lines[j]), result);
  }

  lemma EarlierPrefix(lines: seq<Line>, j: nat, n: nat)
    requires j < n <= |lines|
    ensures lines[..n][..j] == lines[..j] && lines[..n][j] == lines[j] && lines[..n][..j + 1] == lines[..j + 1]
  {
  }

  lemma Placed(before: seq<SysCall>, entry: seq<SysCall>, result: seq<SysCall>)
    requires result != [] && before + entry <= result[..|result| - 1] && |entry| == 1
    ensures |before| < |result| - 1 && [result[|before|]] == entry
  {
    assert (before + entry)[|before|] == result[|before|];
  }

  /**
   * A printed execution of the breakpoint becomes an entry, in its place, that puts the printed value into the
   * breakpoint's register.
   */
  lemma HitRecorded(result: seq<SysCall>, bp: Breakpoint, calls: seq<SysCall>, lines: seq<Line>, n: nat, j: nat)
    requires StopsAt(bp, calls, lines, n) && SecondPass(result, bp, calls, lines, n) && j < n && lines[j].Execute?
    ensures var k := |Printed(lines[..j])|;
      && k < |result| - 1 && result[k].addr == bp.addr && result[k].retval == lines[j].val
      && result[k].alterRd == Some(bp.rd) && !result[k].isBreak && result[k].write == None
  {
    LineInPlace(result, bp, calls, lines, n, j);
    assert EntryOf(bp, calls, lines[..j], lines[j]) == [Hit(bp, lines[j].val)];
  }

  /** A printed system call becomes the next recorded one, which returned what is printed. */
  lemma CallRecorded(result: seq<SysCall>, bp: Breakpoint, calls: seq<SysCall>, lines: seq<Line>, n: nat, j: nat)
    requires StopsAt(bp, calls, lines, n) && SecondPass(result, bp, calls, lines, n) && j < n && lines[j].Syscall?
    ensures var k, i := |Printed(lines[..j])|, SyscallCount(lines[..j]);
      && k < |result| - 1 && i < |calls| && result[k] == calls[i] && calls[i].retval == lines[j].val
  {
    LineInPlace(result, bp, calls, lines, n, j);
    Snoc(lines, j);
  }

  /** It stops when as many lines as there are recorded calls print one, and repeat - 1 lines an execution. */
  lemma StopCounts(bp: Breakpoint, calls: seq<SysCall>, lines: seq<Line>, n: nat)
    requires StopsAt(bp, calls, lines, n)
    ensures |set j | 0 <= j < n && lines[j].Syscall?| == |calls|
    ensures |set j | 0 <= j < n && lines[j].Execute?| == bp.repeat - 1
  {
    SyscallLines(lines, n);
    HitLines(lines, n);
  }

  lemma {:induction false} SyscallLines(lines: seq<Line>, n: nat)
    requires n <= |lines|
    ensures SyscallCount(lines[..n]) == |set j | 0 <= j < n && lines[j].Syscall?|
  {
    if n > 0 {
      SyscallLines(lines, n - 1);
      Snoc(lines, n - 1);
      assert (set j | 0 <= j < n && lines[j].Syscall?)
        == (set j | 0 <= j < n - 1 && lines[j].Syscall?) + if lines[n - 1].Syscall? then {n - 1} else {};
    }
  }

  lemma {:induction false} HitLines(lines: seq<Line>, n: nat)
    requires n <= |lines|
    ensures |HitValues(lines[..n])| == |set j | 0 <= j < n && lines[j].Execute?|
  {
    if n > 0 {
      HitLines(lines, n - 1);
      Snoc(lines, n - 1);
      assert (set j | 0 <= j < n && lines[j].Execute?)
        == (set j | 0 <= j < n - 1 && lines[j].Execute?) + if lines[n - 1].Execute? then {n - 1} else {};
    }
  }
}
