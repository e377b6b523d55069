/** Logs over several openings: created, left by a crash, reopened again, recovered
    and used on. */
module LogReopen {
  import opened LogFormat
  import opened LogReader
  import opened LogFile
  import opened LogExecute
  import opened LogTransactions
  import opened LogRuns
  import opened Log
  import LogNesting

  lemma AtEnd(st: LogState, t: Trail)
    requires RunInvariant(st, t)
    ensures ValidState(st) && st.pos == |st.bytes| && st.inTransaction == |st.stack| && |t.marks| == |st.stack|
  {
  }

  /** Every run on a log that has just been created keeps the run invariant. */
  lemma EveryRunFromNewLog(time: nat, bs: BlockSize, ops: seq<Op>)
    requires ValidTime(time) && bs >= HEADER_ENTRY_SIZE && ValidOps(ops)
    ensures ValidState(NewLog(time, bs))
    ensures var r, t := RunOps(NewLog(time, bs), ops), RunTrail(Trail([], []), ops);
            && RunInvariant(r, t) && r.bs == bs && r.inTransaction == |r.stack| == Depth(t.es)
            && forall i, j :: 0 <= i < j < |r.stack| ==> r.stack[i].beginOffset < r.stack[j].beginOffset
  {
    hide RunInvariant, ValidState, RunOps, RunTrail, Depth, HeaderBytes;
    NewLogInvariant(time, bs);
    AtEnd(NewLog(time, bs), Trail([], []));
    EveryRunKeepsInvariant(NewLog(time, bs), Trail([], []), ops);
    BlockSizeStays(NewLog(time, bs), ops);
  }

  /** A file left by any run is reopened again with its own block size, and with its
      end as truncate offset. */
  lemma LeftLogOpens(st: LogState, now: nat)
    requires ValidState(st) && ValidTime(now)
    ensures OpenSpec(st.bytes, ForAppending, st.bs, now)
         == Opened(st.bytes, |st.bytes|, st.startTime, st.synced, |st.bytes|)
  {
    ReopenAcceptedIff(st.bytes, ForAppending, st.startTime, st.synced, st.bs, st.bs, now);
  }

  /** Opening an empty file for writing makes a new log, for every block size but 0. */
  lemma EmptyFileBecomesLog(mode: OpenMode, bs: BlockSize, now: nat)
    requires ValidTime(now) && mode != ForReading && bs > 0
    ensures var r, st := OpenSpec([], mode, bs, now), NewLog(now, bs);
            && r.Opened? && r.bytes == st.bytes && r.pos == st.pos == |st.bytes| && r.startTime == st.startTime == now
            && r.synced && st.synced && HasHeader(r.bytes, now, true, bs)
            && r.truncateOffset == 0
  {
    hide HeaderBytes;
    assert HeaderBytes(now, true, bs)[..HEADER_ENTRY_SIZE] == HeaderBytes(now, true, bs);
  }

  /** Whatever was done to a log, reopening it finds it synced if and only if nothing
      has been written to it since the last sync, or since it was created. */
  lemma SyncIsFoundAgain(time: nat, bs: BlockSize, ops: seq<Op>, mode: OpenMode, now: nat)
    requires ValidTime(time) && ValidTime(now) && bs >= HEADER_ENTRY_SIZE && ValidOps(ops) && ValidState(NewLog(time, bs))
    ensures var st := NewLog(time, bs);
            var r := OpenSpec(RunOps(st, ops).bytes, mode, bs, now);
            && r.Opened?
            && (r.synced <==>
                  || (forall j :: 0 <= j < |ops| ==> !LogNesting.Writes(st, ops, j))
                  || exists i :: 0 <= i < |ops| && ops[i].SyncLog? && forall j :: i < j < |ops| ==> !LogNesting.Writes(st, ops, j))
  {
    hide HeaderBytes, OpenSpec, RunOps, LogNesting.Writes;
    var left := RunOps(NewLog(time, bs), ops);
    BlockSizeStays(NewLog(time, bs), ops);
    LogNesting.SyncedIff(NewLog(time, bs), ops);
    ReopenAcceptedIff(left.bytes, mode, left.startTime, left.synced, bs, bs, now);
  }

  /** The state of a log reopened on what a run has left, after a replay of it; it
      stands at its end and knows of no transaction. */
  ghost function Recovered(st: LogState, p: Replay): LogState
    requires p.bs > 0
  {
    var bytes := ReplaySpec(st.bytes, p, HEADER_ENTRY_SIZE).bytes;
    LogState(bytes, |bytes|, st.bs, st.startTime, st.synced, 0, [], 0)
  }

  /** The entries that a recovery leaves: those before the outermost transaction. */
  ghost function Survivors(t: Trail): Trail
    requires |t.marks| > 0 ==> t.marks[0] <= |t.es|
  {
    Trail(if |t.marks| > 0 then t.es[..t.marks[0]] else t.es, [])
  }

  /** A recovery that succeeds leaves a log that keeps the run invariant. */
  lemma RecoveredInvariant(st: LogState, t: Trail, p: Replay)
    requires RunInvariant(st, t) && p.bs == st.bs && ReplaysAll(p, |st.bytes|)
    requires ReplaySpec(st.bytes, p, HEADER_ENTRY_SIZE).ok
    ensures |t.marks| > 0 ==> t.marks[0] <= |t.es|
    ensures RunInvariant(Recovered(st, p), Survivors(t))
  {
    hide ReplaySpec, Calls, ReplaysAll, Reads, HeaderBytes, Depth;
    RecoveryAfterRun(st, t, p);
    if |st.stack| > 0 {
      assert MarkHolds(st, t, 0);
      MarkBounds(st, t, 0);
      var begin := st.stack[0].beginOffset;
      TruncatedStream(st, t, begin);
    }
  }

  lemma TruncatedStream(st: LogState, t: Trail, begin: nat)
    requires ValidState(st) && |st.stack| == |t.marks| > 0 && MarkHolds(st, t, 0) && begin == st.stack[0].beginOffset
    requires HEADER_ENTRY_SIZE <= begin <= |st.bytes|
    ensures Truncated(st.bytes, begin) == st.bytes[..begin]
    ensures Reads(st.bytes[..begin], st.bs, HEADER_ENTRY_SIZE, t.es[..t.marks[0]], begin)
    ensures HasHeader(st.bytes[..begin], st.startTime, st.synced, st.bs)
  {
    hide Reads, HeaderBytes;
    WindowOfPrefix(st.bytes, st.bs, t.es[..t.marks[0]], begin, begin);
    assert st.bytes[..begin][..HEADER_ENTRY_SIZE] == st.bytes[..HEADER_ENTRY_SIZE];
  }

  /** A log is created, run and left anywhere; it can be reopened again, replaying
      it with truncation succeeds, and every further run keeps the run invariant,
      with the entries before the outermost open transaction in front. */
  lemma RunAfterRecovery(time: nat, bs: BlockSize, ops: seq<Op>, now: nat, p: Replay, more: seq<Op>)
    requires ValidTime(time) && ValidTime(now) && bs >= HEADER_ENTRY_SIZE && ValidOps(ops) && ValidOps(more)
    requires ValidState(NewLog(time, bs))
    requires var reopened := OpenSpec(RunOps(NewLog(time, bs), ops).bytes, ForAppending, bs, now);
             reopened.Opened? ==> p.truncateOffset == reopened.truncateOffset && ReplaysAll(p, |reopened.bytes|)
    requires p.bs == bs
    ensures var left, t := RunOps(NewLog(time, bs), ops), RunTrail(Trail([], []), ops);
            && OpenSpec(left.bytes, ForAppending, bs, now) == Opened(left.bytes, |left.bytes|, left.startTime, left.synced, |left.bytes|)
            && ReplaySpec(left.bytes, p, HEADER_ENTRY_SIZE).ok
            && (|t.marks| > 0 ==> t.marks[0] <= |t.es|)
            && ValidState(Recovered(left, p))
            && RunInvariant(RunOps(Recovered(left, p), more), RunTrail(Survivors(t), more))
  {
    hide RunInvariant, ReplaySpec, OpenSpec, ReplaysAll, RunOps, RunTrail;
    EveryRunFromNewLog(time, bs, ops);
    var left, t := RunOps(NewLog(time, bs), ops), RunTrail(Trail([], []), ops);
    LeftLogOpens(left, now);
    RecoveryAfterRun(left, t, p);
    RecoveredInvariant(left, t, p);
    AtEnd(Recovered(left, p), Survivors(t));
    EveryRunKeepsInvariant(Recovered(left, p), Survivors(t), more);
  }

  // ----- a truncate offset that no longer fits -----

  lemma NoGap(off: nat)
    requires off % 16 == 0
    ensures Gap(off, 32, 16) == []
  {
  }

  /** One BEGIN entry at the end of a log with blocks of 32 bytes takes 16. */
  lemma BeginTakes16(st: LogState)
    requires ValidState(st) && st.bs == 32 && st.pos == |st.bytes| && |st.bytes| % 16 == 0
    ensures |Step(st, Begin).bytes| == |st.bytes| + 16 && Step(st, Begin).bs == 32
    ensures Step(st, Begin).stack == st.stack + [TransInfo(|st.bytes|, false)]
  {
    hide HeaderBytes, Added, EncodeEntry;
    var e := Marker(TRANSACTION_BEGIN);
    MarkerLayout();
    AddedAtEnd(st, e, false);
    StackAfterAdd(st, e, false);
    ClearedValid(st);
    NoGap(|st.bytes|);
  }

  /** The same for a log that keeps the run invariant. */
  lemma OneMoreBegin(st: LogState, t: Trail)
    requires RunInvariant(st, t) && st.bs == 32 && |st.bytes| % 16 == 0
    ensures ValidState(st) && RunInvariant(Step(st, Begin), NextTrail(t, Begin))
    ensures |Step(st, Begin).bytes| == |st.bytes| + 16 && Step(st, Begin).bs == 32
    ensures Step(st, Begin).stack == st.stack + [TransInfo(|st.bytes|, false)]
  {
    hide RunInvariant, Step, NextTrail, ValidState;
    AtEnd(st, t);
    StepKeepsInvariant(st, t, Begin);
    BeginTakes16(st);
  }

  lemma TwoBegins(time: nat) returns (t: Trail)
    requires ValidTime(time) && ValidState(NewLog(time, 32))
    ensures var left := RunOps(NewLog(time, 32), [Begin, Begin]);
            && RunInvariant(left, t) && |left.bytes| == 64 && left.bs == 32
            && left.stack == [TransInfo(32, false), TransInfo(48, false)]
  {
    hide RunInvariant, Step, NextTrail, ValidState, RunOps;
    var st0, t0 := NewLog(time, 32), Trail([], []);
    NewLogInvariant(time, 32);
    OneMoreBegin(st0, t0);
    OneMoreBegin(Step(st0, Begin), NextTrail(t0, Begin));
    RunTwo(st0);
    t := NextTrail(NextTrail(t0, Begin), Begin);
  }

  lemma RunTwo(st: LogState)
    requires ValidState(st)
    ensures ValidState(Step(st, Begin)) && RunOps(st, [Begin, Begin]) == Step(Step(st, Begin), Begin)
  {
    hide Step, ValidState;
    StepValid(st, Begin);
    StepValid(Step(st, Begin), Begin);
    assert [Begin, Begin][1..] == [Begin] && [Begin][1..] == [];
  }

  /** Behind a BEGIN entry at the header's end, 64 cuts a file of 64 bytes and not
      one of 48. */
  lemma CutOrStuck(st: LogState, t: Trail, p: Replay)
    requires RunInvariant(st, t) && st.bs == 32 && |st.stack| > 0 && st.stack[0].beginOffset == 32
    requires p.bs == 32 && p.truncateOffset == 64 && ReplaysAll(p, |st.bytes|)
    requires |st.bytes| >= 32
    ensures var r := ReplaySpec(st.bytes, p, HEADER_ENTRY_SIZE);
            && (r.ok <==> |st.bytes| == 64)
            && r.bytes == if r.ok then st.bytes[..32] else st.bytes
  {
    hide RunInvariant, ReplaySpec, ReplaysAll, Calls;
    RecoveryAfterRun(st, t, p);
    assert 64 % 32 == 32 % 32;
  }

  /** Opened on a file of 64 bytes that holds nothing but two open transactions, a
      log keeps 64 as its truncate offset. Recovery cuts the file to its header;
      after one more BEGIN the next recovery fails and leaves the file alone. */
  lemma RecoveredThenStuck(time: nat, now: nat, p: Replay)
    requires ValidTime(time) && ValidTime(now) && ValidState(NewLog(time, 32))
    requires p.bs == 32 && p.truncateOffset == 64 && ReplaysAll(p, 48) && ReplaysAll(p, 64)
    ensures var left := RunOps(NewLog(time, 32), [Begin, Begin]);
            && |left.bytes| == 64
            && OpenSpec(left.bytes, ForAppending, 32, now) == Opened(left.bytes, 64, left.startTime, left.synced, 64)
            && ReplaySpec(left.bytes, p, HEADER_ENTRY_SIZE).ok && |Recovered(left, p).bytes| == 32
            && ValidState(Recovered(left, p))
            && var stuck := Step(Recovered(left, p), Begin).bytes;
               |stuck| == 48 && !ReplaySpec(stuck, p, HEADER_ENTRY_SIZE).ok && ReplaySpec(stuck, p, HEADER_ENTRY_SIZE).bytes == stuck
  {
    hide RunInvariant, ReplaySpec, OpenSpec, ReplaysAll, ValidState, Step, NextTrail, RunOps;
    var t := TwoBegins(time);
    var left := RunOps(NewLog(time, 32), [Begin, Begin]);
    LeftLogOpens(left, now);
    CutOrStuck(left, t, p);
    RecoveredInvariant(left, t, p);
    var st, t2 := Recovered(left, p), Survivors(t);
    AtEnd(st, t2);
    OneMoreBegin(st, t2);
    CutOrStuck(Step(st, Begin), NextTrail(t2, Begin), p);
  }
}
