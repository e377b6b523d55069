/** Replaying a log: every entry is handed to a callback, and an unfinished
    transaction at the end can be cut off. */
module LogExecute {
  import opened LogFormat
  import opened LogReader
  import opened LogFile
  import opened LogDelete

  /** The execution style bits, by offset. */
  datatype Style = Style(truncate: bool, toTransactionEnd: bool, nextEntry: bool)

  /** What the callback is given: an entry and the offset it was read at. */
  datatype Call = Call(entry: LogEntry, offset: nat)

  /** The local state of the replay loop; the number of executed entries is the
      length of the trace. */
  datatype RunState = RunState(curr: nat, depth: int, lastValid: nat, trace: seq<Call>)

  datatype RunResult = RunResult(state: RunState, failed: bool)

  /** Parameters fixed during one replay. The callback's answer "stop if not in
      a transaction" may depend on everything it has been given so far. */
  datatype Replay = Replay(bs: BlockSize, style: Style, stop: nat, truncateOffset: nat, wantsStop: seq<Call> -> bool)

  function DepthChange(e: LogEntry): int {
    if e.kind == TRANSACTION_BEGIN then 1 else if e.kind == TRANSACTION_COMMIT then -1 else 0
  }

  /** The three tests made before the next entry is read. */
  predicate Finished(p: Replay, st: RunState) {
    var inside := p.style.toTransactionEnd && st.depth != 0;
    || (!p.style.nextEntry && p.stop <= st.curr && !inside)
    || (p.style.truncate && p.truncateOffset <= st.curr)
    || (p.style.nextEntry && |st.trace| > 0 && !inside)
  }

  /** One executed entry. */
  function Execute(st: RunState, e: LogEntry, offset: nat, next: nat): RunState {
    var depth := st.depth + DepthChange(e);
    RunState(next, depth, if depth == 0 then next else st.lastValid, st.trace + [Call(e, offset)])
  }

  /** One entry read: header entries are passed over. */
  function Passed(st: RunState, e: LogEntry, offset: nat, next: nat): RunState {
    if e.kind == HEADER_ENTRY then st.(curr := next) else Execute(st, e, offset, next)
  }

  function Run(bytes: seq<byte>, p: Replay, st: RunState): RunResult
    decreases |bytes| - st.curr
  {
    if Finished(p, st) then RunResult(st, false)
    else
      match ReadAt(bytes, st.curr, p.bs)
      case Eof(_) => RunResult(st, false)
      case Bad => RunResult(st, true)
      case Got(e, offset, next) =>
        if e.kind == HEADER_ENTRY then Run(bytes, p, st.(curr := next))
        else
          var st' := Execute(st, e, offset, next);
          if st'.depth == 0 && p.wantsStop(st'.trace) then RunResult(st', false)
          else Run(bytes, p, st')
  }

  function Start(offset: nat): RunState {
    RunState(offset, 0, offset, [])
  }

  function AbortEntry(): LogEntry {
    LogEntry(TRANSACTION_ABORT, 0, [], [])
  }

  /** Status, end offset, callbacks made, and the file afterwards. */
  datatype ReplayResult = ReplayResult(ok: bool, offset: nat, trace: seq<Call>, bytes: seq<byte>)

  function ReplaySpec(bytes: seq<byte>, p: Replay, start: nat): ReplayResult
    requires p.bs > 0
  {
    var r := Run(bytes, p, Start(start));
    if r.failed then ReplayResult(false, start, r.state.trace, bytes)
    else if r.state.depth != 0 && p.style.truncate then
      var trace := r.state.trace + [Call(AbortEntry(), r.state.curr)];
      var d := DeleteSpec(bytes, p.bs, r.state.lastValid, p.truncateOffset);
      if d.status == Success then ReplayResult(true, r.state.lastValid, trace, d.bytes)
      else ReplayResult(false, start, trace, d.bytes)
    else ReplayResult(true, r.state.curr, r.state.trace, bytes)
  }

  /** A replay that succeeds in cutting off an open transaction. */
  predicate Truncates(bytes: seq<byte>, p: Replay, start: nat)
    requires p.bs > 0
  {
    ReplaySpec(bytes, p, start).ok && p.style.truncate && Run(bytes, p, Start(start)).state.depth != 0
  }

  /** The loop of jr_LogExecuteEntries. */
  method RunEntries(file: File, p: Replay, start: nat) returns (r: RunResult)
    modifies file`pos
    ensures r == Run(file.bytes, p, Start(start))
    ensures r.state.depth != 0 && p.style.truncate ==> r.state.lastValid < p.truncateOffset
  {
    hide ReadAt;
    file.Seek(start);
    var st := Start(start);
    while !Finished(p, st)
      invariant file.pos == st.curr && st.lastValid <= st.curr
      invariant st.depth != 0 && p.style.truncate ==> st.lastValid < p.truncateOffset
      invariant Run(file.bytes, p, st) == Run(file.bytes, p, Start(start))
      decreases |file.bytes| - st.curr
    {
      var read := ReadEntryFromFile(file, p.bs);
      if read.Eof? {
        return RunResult(st, false);
      }
      if read.Bad? {
        return RunResult(st, true);
      }
      if read.entry.kind == HEADER_ENTRY {
        st := st.(curr := read.next);
      } else {
        st := Execute(st, read.entry, read.offset, read.next);
        if st.depth == 0 && p.wantsStop(st.trace) {
          return RunResult(st, false);
        }
      }
    }
    r := RunResult(st, false);
  }

  /** jr_LogExecuteEntries by offset. */
  method ExecuteEntries(file: File, p: Replay, start: nat) returns (r: ReplayResult)
    requires p.bs > 0
    modifies file
    ensures r.ok == ReplaySpec(old(file.bytes), p, start).ok
    ensures r.ok ==> r.offset == ReplaySpec(old(file.bytes), p, start).offset
    ensures r.trace == ReplaySpec(old(file.bytes), p, start).trace
    ensures file.bytes == r.bytes == ReplaySpec(old(file.bytes), p, start).bytes
    ensures file.pos == if Truncates(old(file.bytes), p, start) then |file.bytes| else old(file.pos)
  {
    hide Run, DeleteSpec;
    var oldOffset := file.pos;
    var run := RunEntries(file, p, start);
    if run.failed {
      file.Seek(oldOffset);
      return ReplayResult(false, start, run.state.trace, file.bytes);
    }
    var trace := run.state.trace;
    var offset := run.state.curr;
    if run.state.depth != 0 && p.style.truncate {
      trace := trace + [Call(AbortEntry(), offset)];
      var status := DeleteRange(file, p.bs, run.state.lastValid, p.truncateOffset);
      if status != Success {
        file.Seek(oldOffset);
        return ReplayResult(false, start, trace, file.bytes);
      }
      offset := run.state.lastValid;
    } else {
      file.Seek(oldOffset);
    }
    r := ReplayResult(true, offset, trace, file.bytes);
  }

  // ----- replaying a well-formed stream -----

  /** The callbacks a stream leads to, header entries being passed over. */
  ghost function Calls(bytes: seq<byte>, bs: BlockSize, a: nat, es: seq<LogEntry>, b: nat): seq<Call>
    requires Reads(bytes, bs, a, es, b)
    decreases |es|
  {
    if |es| == 0 then []
    else
      var r := ReadAt(bytes, a, bs);
      (if es[0].kind == HEADER_ENTRY then [] else [Call(es[0], r.offset)]) + Calls(bytes, bs, r.next, es[1..], b)
  }

  ghost function WithoutHeaders(es: seq<LogEntry>): seq<LogEntry> {
    if |es| == 0 then []
    else (if es[0].kind == HEADER_ENTRY then [] else [es[0]]) + WithoutHeaders(es[1..])
  }

  ghost function Entries(calls: seq<Call>): seq<LogEntry> {
    if |calls| == 0 then [] else [calls[0].entry] + Entries(calls[1..])
  }

  lemma {:induction false} CallsAreTheEntries(bytes: seq<byte>, bs: BlockSize, a: nat, es: seq<LogEntry>, b: nat)
    requires Reads(bytes, bs, a, es, b)
    ensures Entries(Calls(bytes, bs, a, es, b)) == WithoutHeaders(es)
    decreases |es|
  {
    hide ReadAt;
    if |es| > 0 {
      var r := ReadAt(bytes, a, bs);
      CallsAreTheEntries(bytes, bs, r.next, es[1..], b);
      var rest := Calls(bytes, bs, r.next, es[1..], b);
      assert [] + rest == rest && ([Call(es[0], r.offset)] + rest)[1..] == rest;
      assert [] + WithoutHeaders(es[1..]) == WithoutHeaders(es[1..]);
    }
  }

  /** Nesting depth after a stream of entries. */
  ghost function Depth(es: seq<LogEntry>): int {
    if |es| == 0 then 0 else DepthChange(es[0]) + Depth(es[1..])
  }

  /** How many entries are of a type. */
  ghost function Count(es: seq<LogEntry>, kind: int): nat {
    if |es| == 0 then 0 else (if es[0].kind == kind then 1 else 0) + Count(es[1..], kind)
  }

  /** The depth is the number of begins, less that of commits, of the types -10 and -11;
      no other entry counts. */
  lemma {:induction false} DepthCounts(es: seq<LogEntry>)
    ensures Depth(es) == Count(es, -10) - Count(es, -11)
  {
    if |es| > 0 {
      DepthCounts(es[1..]);
    }
  }

  lemma {:induction false} DepthConcat(es: seq<LogEntry>, fs: seq<LogEntry>)
    ensures Depth(es + fs) == Depth(es) + Depth(fs)
  {
    if |es| == 0 {
      assert es + fs == fs;
    } else {
      assert (es + fs)[1..] == es[1..] + fs;
      DepthConcat(es[1..], fs);
    }
  }

  /** A replay changes nothing in front of where it starts. */
  lemma ReplayKeepsFront(bytes: seq<byte>, p: Replay, start: nat, n: nat)
    requires p.bs > 0 && n <= start && n <= |bytes|
    ensures var r := ReplaySpec(bytes, p, start).bytes;
            n <= |r| && r[..n] == bytes[..n]
  {
    hide Run, DeleteSpec;
    CutBehindStart(bytes, p, Start(start), start);
    DeleteKeepsFront(bytes, p.bs, Run(bytes, p, Start(start)).state.lastValid, p.truncateOffset, n);
  }

  lemma {:induction false} CutBehindStart(bytes: seq<byte>, p: Replay, st: RunState, start: nat)
    requires start <= st.lastValid && start <= st.curr
    ensures Run(bytes, p, st).state.lastValid >= start
    decreases |bytes| - st.curr
  {
    hide ReadAt;
    if !Finished(p, st) {
      match ReadAt(bytes, st.curr, p.bs)
      case Eof(_) =>
      case Bad =>
      case Got(e, offset, next) =>
        CutBehindStart(bytes, p, Passed(st, e, offset, next), start);
    }
  }
}
