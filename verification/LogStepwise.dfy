/** Replaying a log one transaction at a time. */
module LogStepwise {
  import opened LogFormat
  import opened LogReader
  import opened LogDelete
  import opened LogExecute
  import opened LogRecovery

  /** jr_LogExecuteNextTransactionByOffset, and the same with truncation, with a
      callback that never asks to stop. */
  ghost predicate OneAtATime(p: Replay) {
    p.style.toTransactionEnd && p.style.nextEntry && NeverStopped(p)
  }

  /** Nesting depth after a sequence of callbacks. */
  ghost function CallDepth(t: seq<Call>): int {
    if |t| == 0 then 0 else CallDepth(t[..|t| - 1]) + DepthChange(t[|t| - 1].entry)
  }

  /** The callbacks of one step: depth 0 is not reached before the last one. */
  ghost predicate OneUnit(t: seq<Call>) {
    forall j :: 0 < j < |t| ==> CallDepth(t[..j]) != 0
  }

  lemma OneUnitGrows(t: seq<Call>, c: Call)
    requires OneUnit(t) && (|t| > 0 ==> CallDepth(t) != 0)
    ensures OneUnit(t + [c]) && CallDepth(t + [c]) == CallDepth(t) + DepthChange(c.entry)
  {
    var u := t + [c];
    assert u[..|t|] == t;
    forall j | 0 < j < |u|
      ensures CallDepth(u[..j]) != 0
    {
      if j < |t| {
        assert u[..j] == t[..j];
      }
    }
  }

  /** One call runs exactly one top-level entry or one whole outermost
      transaction; it is incomplete only at the end of the file, or at the
      truncate offset when that counts. */
  lemma {:induction false} StepRunsOneUnit(bytes: seq<byte>, p: Replay, st: RunState)
    requires OneAtATime(p)
    requires OneUnit(st.trace) && st.depth == CallDepth(st.trace)
    requires |st.trace| > 0 && st.depth == 0 ==> st.lastValid == st.curr
    ensures var r := Run(bytes, p, st);
            && OneUnit(r.state.trace) && r.state.depth == CallDepth(r.state.trace)
            && st.curr <= r.state.curr
            && (|r.state.trace| > |st.trace| ==> st.curr < r.state.curr)
            && st.trace <= r.state.trace
            && (|r.state.trace| > 0 && r.state.depth == 0 ==> r.state.lastValid == r.state.curr)
            && (!r.failed ==>
                  || (|r.state.trace| > 0 && r.state.depth == 0)
                  || ReadAt(bytes, r.state.curr, p.bs).Eof?
                  || (p.style.truncate && p.truncateOffset <= r.state.curr))
    decreases |bytes| - st.curr
  {
    hide ReadAt, OneUnit, CallDepth, NeverStopped;
    if !Finished(p, st) {
      match ReadAt(bytes, st.curr, p.bs)
      case Eof(_) =>
      case Bad =>
      case Got(e, offset, next) =>
        if e.kind == HEADER_ENTRY {
          StepRunsOneUnit(bytes, p, st.(curr := next));
        } else {
          OneUnitGrows(st.trace, Call(e, offset));
          StepRunsOneUnit(bytes, p, Execute(st, e, offset, next));
        }
    }
  }

  /** Calling the stepwise replay again and again, each time from the offset the
      last call returned, until a call fails, calls nothing back, comes to the end
      of the file or has cut a transaction off: all callbacks, and the rest as the
      last call leaves it. */
  ghost function ReplayedStepwise(bytes: seq<byte>, p: Replay, start: nat): ReplayResult
    requires OneAtATime(p) && p.bs > 0
    decreases |bytes| - start
  {
    StepRunsOneUnit(bytes, p, Start(start));
    var r := ReplaySpec(bytes, p, start);
    if !r.ok || r.trace == [] || Truncates(bytes, p, start) || |bytes| <= r.offset then r
    else
      var rest := ReplayedStepwise(bytes, p, r.offset);
      rest.(trace := r.trace + rest.trace)
  }

  /** The same replay by offset to the end of the file, in one go. */
  ghost predicate InOneGo(full: Replay, step: Replay, size: nat) {
    && full.bs == step.bs && full.truncateOffset == step.truncateOffset && full.style.truncate == step.style.truncate
    && !full.style.nextEntry && size <= full.stop && NeverStopped(full)
  }

  /** The full replay passes through the state in which a step stops. */
  lemma {:induction false} FullPassesThroughStep(bytes: seq<byte>, full: Replay, step: Replay, st: RunState)
    requires OneAtATime(step) && InOneGo(full, step, |bytes|)
    ensures var r := Run(bytes, step, st);
            if r.failed then Run(bytes, full, st) == r
            else Run(bytes, full, st) == Run(bytes, full, r.state)
    decreases |bytes| - st.curr
  {
    hide ReadAt;
    if !Finished(step, st) {
      if Finished(full, st) {
        PastTheEnd(bytes, st.curr, step.bs);
      } else {
        match ReadAt(bytes, st.curr, step.bs)
        case Eof(_) =>
        case Bad =>
        case Got(e, offset, next) => FullPassesThroughStep(bytes, full, step, Passed(st, e, offset, next));
      }
    }
  }

  lemma PastTheEnd(bytes: seq<byte>, a: nat, bs: BlockSize)
    requires |bytes| <= a
    ensures ReadAt(bytes, a, bs).Eof?
  {
  }

  function AfterCalls(t: seq<Call>, st: RunState): RunState {
    st.(trace := t + st.trace)
  }

  /** The callbacks already made do not influence the ones to come. */
  lemma {:induction false} TraceIsExtended(bytes: seq<byte>, full: Replay, st: RunState, t: seq<Call>)
    requires NeverStopped(full) && !full.style.nextEntry
    ensures var r := Run(bytes, full, st);
            Run(bytes, full, AfterCalls(t, st)) == RunResult(AfterCalls(t, r.state), r.failed)
    decreases |bytes| - st.curr
  {
    hide ReadAt;
    if !Finished(full, st) {
      match ReadAt(bytes, st.curr, full.bs)
      case Eof(_) =>
      case Bad =>
      case Got(e, offset, next) =>
        assert t + st.trace + [Call(e, offset)] == t + (st.trace + [Call(e, offset)]);
        TraceIsExtended(bytes, full, Passed(st, e, offset, next), t);
    }
  }

  /** So a replay goes on from depth 0 as if it started there. */
  lemma GoesOnAlone(bytes: seq<byte>, full: Replay, st: RunState)
    requires NeverStopped(full) && !full.style.nextEntry && st.depth == 0 && st.lastValid == st.curr
    ensures var r := Run(bytes, full, Start(st.curr));
            Run(bytes, full, st) == RunResult(AfterCalls(st.trace, r.state), r.failed)
  {
    assert AfterCalls(st.trace, Start(st.curr)) == st;
    TraceIsExtended(bytes, full, Start(st.curr), st.trace);
  }

  lemma FullStops(bytes: seq<byte>, full: Replay, st: RunState)
    requires || |bytes| <= st.curr || ReadAt(bytes, st.curr, full.bs).Eof?
             || (full.style.truncate && full.truncateOffset <= st.curr)
    ensures Run(bytes, full, st) == RunResult(st, false)
  {
    if |bytes| <= st.curr {
      PastTheEnd(bytes, st.curr, full.bs);
    }
  }

  ghost predicate SameResult(r: ReplayResult, r2: ReplayResult) {
    r.ok == r2.ok && (r.ok ==> r.offset == r2.offset) && r.trace == r2.trace && r.bytes == r2.bytes
  }

  /** Of results made from the same run but for callbacks made before. */
  lemma ResultAfter(bytes: seq<byte>, full: Replay, start: nat, mid: nat, t: seq<Call>)
    requires full.bs > 0
    requires var r := Run(bytes, full, Start(mid)); Run(bytes, full, Start(start)) == RunResult(AfterCalls(t, r.state), r.failed)
    ensures var r := ReplaySpec(bytes, full, mid);
            SameResult(ReplaySpec(bytes, full, start), r.(trace := t + r.trace))
  {
    hide Run, DeleteSpec;
  }

  /** Replaying transaction by transaction makes the same callbacks in the same
      order as one full replay, fails when that fails, ends at the same offset and
      leaves the same file; with truncation as well as without. */
  lemma {:induction false} StepwiseEqualsFull(bytes: seq<byte>, full: Replay, step: Replay, start: nat)
    requires OneAtATime(step) && InOneGo(full, step, |bytes|) && full.bs > 0
    ensures SameResult(ReplayedStepwise(bytes, step, start), ReplaySpec(bytes, full, start))
    decreases |bytes| - start
  {
    hide ReadAt, Run, DeleteSpec;
    StepRunsOneUnit(bytes, step, Start(start));
    FullPassesThroughStep(bytes, full, step, Start(start));
    var run, r := Run(bytes, step, Start(start)), ReplaySpec(bytes, step, start);
    var st := run.state;
    if !run.failed {
      if !(|st.trace| > 0 && st.depth == 0) {
        FullStops(bytes, full, st);
        assert SameResult(r, ReplaySpec(bytes, full, start));
        if r.ok && r.trace != [] && !Truncates(bytes, step, start) && r.offset < |bytes| {
          NothingMore(bytes, step, st.curr);
        }
      } else if |bytes| <= st.curr {
        FullStops(bytes, full, st);
      } else {
        GoesOnAlone(bytes, full, st);
        ResultAfter(bytes, full, start, st.curr, st.trace);
        StepwiseEqualsFull(bytes, full, step, st.curr);
      }
    }
  }

  /** A call at the end of the file, without truncation. */
  lemma NothingMore(bytes: seq<byte>, step: Replay, start: nat)
    requires OneAtATime(step) && step.bs > 0 && ReadAt(bytes, start, step.bs).Eof?
    ensures ReplayedStepwise(bytes, step, start) == ReplayResult(true, start, [], bytes)
  {
  }
}
