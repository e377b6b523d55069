/** What holds after every run of begin, add, commit, abort and sync. */
module LogRuns {
  import opened LogFormat
  import opened LogReader
  import opened LogFile
  import opened LogDelete
  import opened LogExecute
  import opened LogRecovery
  import opened LogTransactions

  // ----- the file always holds the open transactions -----

  /** The entries behind the header and, for each open transaction, the index
      of its BEGIN entry. */
  datatype Trail = Trail(es: seq<LogEntry>, marks: seq<nat>)

  ghost predicate MarkHolds(st: LogState, t: Trail, i: nat)
    requires |st.stack| == |t.marks| && i < |t.marks|
  {
    var m := t.marks[i];
    && m < |t.es|
    && t.es[m].kind == TRANSACTION_BEGIN
    && Reads(st.bytes, st.bs, HEADER_ENTRY_SIZE, t.es[..m], st.stack[i].beginOffset)
    && Depth(t.es[..m]) == i
    && forall j :: m < j <= |t.es| ==> Depth(t.es[..j]) > i
  }

  ghost predicate RunInvariant(st: LogState, t: Trail) {
    && ValidState(st)
    && st.pos == |st.bytes|
    && |t.marks| == |st.stack|
    && Reads(st.bytes, st.bs, HEADER_ENTRY_SIZE, t.es, |st.bytes|)
    && Depth(t.es) == |st.stack|
    && (forall j :: 0 <= j < |t.es| ==> t.es[j].kind != HEADER_ENTRY)
    && (forall i, j :: 0 <= i < j < |t.marks| ==> t.marks[i] < t.marks[j])
    && (forall i :: 0 <= i < |t.marks| ==> MarkHolds(st, t, i))
  }

  ghost function NextTrail(t: Trail, op: Op): Trail {
    match op
    case Begin => Trail(t.es + [Marker(TRANSACTION_BEGIN)], t.marks + [|t.es|])
    case Add(e, _) => Trail(t.es + [e], t.marks)
    case Commit => if |t.marks| == 0 then t
                   else Trail(t.es + [Marker(TRANSACTION_COMMIT)], t.marks[..|t.marks| - 1])
    case Abort => if |t.marks| == 0 || t.marks[|t.marks| - 1] > |t.es| then t
                  else Trail(t.es[..t.marks[|t.marks| - 1]], t.marks[..|t.marks| - 1])
    case SyncLog => t
  }

  /** The state after an entry is appended at the end of the file. */
  lemma AddedAtEnd(st: LogState, e: LogEntry, sync: bool)
    requires ValidState(st) && st.pos == |st.bytes| && ValidEntry(e)
    ensures var a := Added(st, e, sync);
            && a.bytes == Cleared(st).bytes + EntryBytes(|st.bytes|, st.bs, e)
            && a.pos == |a.bytes|
  {
    hide HeaderBytes, PutEntry, EncodeEntry;
    ClearedValid(st);
    PutAtEnd(Cleared(st).bytes, st.bs, e);
    NextEntryOffsetIsUsed(st.pos, |EncodeEntry(e)|, st.bs);
  }

  /** Rewriting the header leaves the stream behind it as it was. */
  lemma HeaderChangeKeepsStream(bytes: seq<byte>, bytes2: seq<byte>, bs: BlockSize, es: seq<LogEntry>, b: nat)
    requires HEADER_ENTRY_SIZE <= |bytes| == |bytes2| && b <= |bytes|
    requires bytes[HEADER_ENTRY_SIZE..] == bytes2[HEADER_ENTRY_SIZE..]
    requires Reads(bytes, bs, HEADER_ENTRY_SIZE, es, b)
    ensures Reads(bytes2, bs, HEADER_ENTRY_SIZE, es, b)
  {
    ReadsBounds(bytes, bs, HEADER_ENTRY_SIZE, es, b);
    var n := HEADER_ENTRY_SIZE;
    assert bytes[n..b] == bytes[n..][..b - n];
    assert bytes2[n..b] == bytes2[n..][..b - n];
    ReadsWindow(bytes, bs, n, es, b, bytes2, n);
  }

  /** Appending keeps every stream that ended within the old file. */
  lemma GrowingKeepsStream(bytes: seq<byte>, more: seq<byte>, bs: BlockSize, es: seq<LogEntry>, b: nat)
    requires HEADER_ENTRY_SIZE <= |bytes| && b <= |bytes|
    requires Reads(bytes, bs, HEADER_ENTRY_SIZE, es, b)
    ensures Reads(bytes + more, bs, HEADER_ENTRY_SIZE, es, b)
  {
    hide Reads;
    ReadsBounds(bytes, bs, HEADER_ENTRY_SIZE, es, b);
    var n := HEADER_ENTRY_SIZE;
    assert (bytes + more)[n..b] == bytes[n..b];
    ReadsWindow(bytes, bs, n, es, b, bytes + more, n);
  }

  lemma DepthOfAppended(es: seq<LogEntry>, e: LogEntry)
    ensures Depth(es + [e]) == Depth(es) + DepthChange(e)
  {
    DepthConcat(es, [e]);
    assert Depth([e]) == DepthChange(e) + Depth([e][1..]);
  }

  /** A mark survives appending an entry that keeps the depth above it. */
  lemma MarkSurvivesAppend(st: LogState, t: Trail, st2: LogState, t2: Trail, i: nat, e: LogEntry)
    requires |st.stack| == |t.marks| && i < |t.marks| && MarkHolds(st, t, i)
    requires |st2.stack| == |t2.marks| && i < |t2.marks|
    requires t2.marks[i] == t.marks[i] && t2.es == t.es + [e]
    requires st2.stack[i].beginOffset == st.stack[i].beginOffset && st2.bs == st.bs
    requires Reads(st2.bytes, st.bs, HEADER_ENTRY_SIZE, t.es[..t.marks[i]], st.stack[i].beginOffset)
    requires Depth(t.es) + DepthChange(e) > i
    ensures MarkHolds(st2, t2, i)
  {
    hide Reads;
    var m := t.marks[i];
    assert t2.es[..m] == t.es[..m];
    forall j | m < j <= |t2.es|
      ensures Depth(t2.es[..j]) > i
    {
      if j <= |t.es| {
        assert t2.es[..j] == t.es[..j];
      } else {
        assert t2.es[..j] == t.es + [e];
        DepthOfAppended(t.es, e);
      }
    }
  }

  /** Streams found before an entry is added are still found afterwards. */
  lemma StreamAfterAdd(st: LogState, e: LogEntry, sync: bool, es: seq<LogEntry>, b: nat)
    requires ValidState(st) && st.pos == |st.bytes| && ValidEntry(e)
    requires b <= |st.bytes| && Reads(st.bytes, st.bs, HEADER_ENTRY_SIZE, es, b)
    ensures Reads(Added(st, e, sync).bytes, st.bs, HEADER_ENTRY_SIZE, es, b)
  {
    hide Reads, HeaderBytes, EntryBytes;
    ClearedValid(st);
    AddedAtEnd(st, e, sync);
    var c := Cleared(st);
    assert c.bytes[HEADER_ENTRY_SIZE..] == st.bytes[HEADER_ENTRY_SIZE..];
    HeaderChangeKeepsStream(st.bytes, c.bytes, st.bs, es, b);
    GrowingKeepsStream(c.bytes, EntryBytes(|st.bytes|, st.bs, e), st.bs, es, b);
  }

  /** The added entry ends the stream of the whole file. */
  lemma StreamWithAdded(st: LogState, e: LogEntry, sync: bool, es: seq<LogEntry>)
    requires ValidState(st) && st.pos == |st.bytes| && ValidEntry(e)
    requires Reads(st.bytes, st.bs, HEADER_ENTRY_SIZE, es, |st.bytes|)
    ensures var a := Added(st, e, sync);
            && ValidState(a) && a.pos == |a.bytes| && a.bs == st.bs
            && Reads(a.bytes, a.bs, HEADER_ENTRY_SIZE, es + [e], |a.bytes|)
  {
    hide Reads, HeaderBytes, EntryBytes;
    ClearedValid(st);
    AddedValid(st, e, sync);
    AddedAtEnd(st, e, sync);
    StackAfterAdd(st, e, sync);
    var c := Cleared(st);
    assert c.bytes[HEADER_ENTRY_SIZE..] == st.bytes[HEADER_ENTRY_SIZE..];
    HeaderChangeKeepsStream(st.bytes, c.bytes, st.bs, es, |st.bytes|);
    AppendReads(c.bytes, st.bs, HEADER_ENTRY_SIZE, es, e);
  }

  lemma MarkAfterAdd(st: LogState, t: Trail, i: nat, e: LogEntry, sync: bool)
    requires RunInvariant(st, t) && i < |t.marks| && ValidEntry(e)
    ensures MarkHolds(st, t, i)
    ensures Reads(Added(st, e, sync).bytes, st.bs, HEADER_ENTRY_SIZE, t.es[..t.marks[i]], st.stack[i].beginOffset)
  {
    hide Reads, HasHeader, Added;
    assert MarkHolds(st, t, i);
    MarkBounds(st, t, i);
    StreamAfterAdd(st, e, sync, t.es[..t.marks[i]], st.stack[i].beginOffset);
  }

  /** The stream up to a mark is a prefix of the whole stream, so the begin
      offset lies before the end of the file. */
  lemma MarkBounds(st: LogState, t: Trail, i: nat)
    requires |st.stack| == |t.marks| && i < |t.marks| && MarkHolds(st, t, i)
    requires HEADER_ENTRY_SIZE <= |st.bytes|
    ensures HEADER_ENTRY_SIZE <= st.stack[i].beginOffset <= |st.bytes|
  {
    ReadsBounds(st.bytes, st.bs, HEADER_ENTRY_SIZE, t.es[..t.marks[i]], st.stack[i].beginOffset);
  }

  lemma BeginKeepsInvariant(st: LogState, t: Trail)
    requires RunInvariant(st, t)
    ensures RunInvariant(Step(st, Begin), NextTrail(t, Begin))
  {
    hide Reads, HasHeader, Added, MarkHolds;
    var e := Marker(TRANSACTION_BEGIN);
    var st2, t2 := Step(st, Begin), NextTrail(t, Begin);
    StepValid(st, Begin);
    StackAfterAdd(st, e, false);
    StreamWithAdded(st, e, false, t.es);
    DepthOfAppended(t.es, e);
    forall i | 0 <= i < |t2.marks|
      ensures MarkHolds(st2, t2, i)
    {
      if i < |t.marks| {
        MarkAfterAdd(st, t, i, e, false);
        MarkSurvivesAppend(st, t, st2, t2, i, e);
      } else {
        NewMark(st, t, st2, t2);
      }
    }
    MarksBelow(st, t);
  }

  lemma MarksBelow(st: LogState, t: Trail)
    requires RunInvariant(st, t)
    ensures forall i :: 0 <= i < |t.marks| ==> t.marks[i] < |t.es|
  {
    forall i | 0 <= i < |t.marks|
      ensures t.marks[i] < |t.es|
    {
      assert MarkHolds(st, t, i);
    }
  }

  lemma NewMark(st: LogState, t: Trail, st2: LogState, t2: Trail)
    requires RunInvariant(st, t)
    requires st2 == Step(st, Begin) && t2 == NextTrail(t, Begin)
    requires |st2.stack| == |t2.marks| == |t.marks| + 1 && st2.stack[|t.marks|].beginOffset == st.pos
    ensures MarkHolds(st2, t2, |t.marks|)
  {
    hide HasHeader, Reads, Added;
    var e := Marker(TRANSACTION_BEGIN);
    StreamAfterAdd(st, e, false, t.es, |st.bytes|);
    StackAfterAdd(st, e, false);
    assert t2.es[..|t.es|] == t.es;
    DepthOfAppended(t.es, e);
    assert t2.es[..|t2.es|] == t2.es;
  }

  lemma StackAfterAdd(st: LogState, e: LogEntry, sync: bool)
    requires ValidState(st) && ValidEntry(e)
    ensures var a := Added(st, e, sync);
            && a.inTransaction == st.inTransaction && a.bs == st.bs && |a.stack| == |st.stack|
            && (forall i :: 0 <= i < |st.stack| ==> a.stack[i].beginOffset == st.stack[i].beginOffset)
            && (!sync ==> a.stack == st.stack)
  {
    hide HeaderBytes, PutEntry, EncodeEntry;
  }

  lemma AddKeepsInvariant(st: LogState, t: Trail, e: LogEntry, sync: bool)
    requires RunInvariant(st, t) && UserEntry(e)
    ensures RunInvariant(Step(st, Add(e, sync)), NextTrail(t, Add(e, sync)))
  {
    hide Reads, HasHeader, Added, MarkHolds;
    var st2, t2 := Added(st, e, sync), Trail(t.es + [e], t.marks);
    StackAfterAdd(st, e, sync);
    StreamWithAdded(st, e, sync, t.es);
    DepthOfAppended(t.es, e);
    forall i | 0 <= i < |t2.marks|
      ensures MarkHolds(st2, t2, i)
    {
      MarkAfterAdd(st, t, i, e, sync);
      MarkSurvivesAppend(st, t, st2, t2, i, e);
    }
  }

  lemma CommitKeepsInvariant(st: LogState, t: Trail)
    requires RunInvariant(st, t) && st.inTransaction > 0
    ensures RunInvariant(Step(st, Commit), NextTrail(t, Commit))
  {
    hide Reads, HasHeader, Added, MarkHolds;
    var e := Marker(TRANSACTION_COMMIT);
    var n := |st.stack| - 1;
    var sync := st.stack[n].requiresSync;
    var p := Popped(st);
    var st2, t2 := Step(st, Commit), NextTrail(t, Commit);
    StackAfterAdd(p, e, sync);
    AddedValid(p, e, sync);
    AddIgnoresStack(st, p, e, sync);
    StreamWithAdded(st, e, sync, t.es);
    DepthOfAppended(t.es, e);
    forall i | 0 <= i < |t2.marks|
      ensures MarkHolds(st2, t2, i)
    {
      MarkAfterAdd(st, t, i, e, sync);
      MarkSurvivesAppend(st, t, st2, t2, i, e);
    }
  }

  lemma AddIgnoresStack(st: LogState, p: LogState, e: LogEntry, sync: bool)
    requires ValidState(st) && ValidState(p) && ValidEntry(e)
    requires p == st.(inTransaction := p.inTransaction, stack := p.stack)
    ensures Added(p, e, sync).bytes == Added(st, e, sync).bytes
    ensures Added(p, e, sync).pos == Added(st, e, sync).pos
  {
    hide HeaderBytes, PutEntry, EncodeEntry;
  }

  lemma AbortKeepsInvariant(st: LogState, t: Trail)
    requires RunInvariant(st, t) && st.inTransaction > 0
    ensures RunInvariant(Step(st, Abort), NextTrail(t, Abort))
  {
    hide Reads, HasHeader;
    var n := |st.stack| - 1;
    var m := t.marks[n];
    var begin := st.stack[n].beginOffset;
    var st2, t2 := Step(st, Abort), NextTrail(t, Abort);
    StepValid(st, Abort);
    assert MarkHolds(st, t, n);
    MarkBounds(st, t, n);
    TruncatedReads(st.bytes, st.bs, HEADER_ENTRY_SIZE, t.es[..m], begin);
    forall i | 0 <= i < |t2.marks|
      ensures MarkHolds(st2, t2, i)
    {
      assert MarkHolds(st, t, i);
      MarkBounds(st, t, i);
      MarkSurvivesAbort(st, t, i, n);
      var k := t.marks[i];
      assert t2.es[..k] == t.es[..k];
      forall j | k < j <= |t2.es|
        ensures Depth(t2.es[..j]) > i
      {
        assert t2.es[..j] == t.es[..j];
      }
    }
  }

  lemma MarkSurvivesAbort(st: LogState, t: Trail, i: nat, n: nat)
    requires |st.stack| == |t.marks| && i < n < |t.marks| && HEADER_ENTRY_SIZE <= |st.bytes|
    requires MarkHolds(st, t, i) && MarkHolds(st, t, n) && t.marks[i] < t.marks[n]
    ensures var begin := st.stack[n].beginOffset;
            && st.stack[i].beginOffset < begin <= |st.bytes|
            && Reads(st.bytes[..begin], st.bs, HEADER_ENTRY_SIZE, t.es[..t.marks[i]], st.stack[i].beginOffset)
  {
    hide Reads;
    var b, begin := st.stack[i].beginOffset, st.stack[n].beginOffset;
    var es := t.es[..t.marks[i]];
    MarkBounds(st, t, n);
    MarkBounds(st, t, i);
    LongerStreamEndsLater(st.bytes, st.bs, HEADER_ENTRY_SIZE, es, b, t.es[..t.marks[n]], begin);
    WindowOfPrefix(st.bytes, st.bs, es, b, begin);
  }

  lemma WindowOfPrefix(bytes: seq<byte>, bs: BlockSize, es: seq<LogEntry>, b: nat, n: nat)
    requires HEADER_ENTRY_SIZE <= b <= n <= |bytes|
    requires Reads(bytes, bs, HEADER_ENTRY_SIZE, es, b)
    ensures Reads(bytes[..n], bs, HEADER_ENTRY_SIZE, es, b)
  {
    hide Reads;
    assert bytes[..n][HEADER_ENTRY_SIZE..b] == bytes[HEADER_ENTRY_SIZE..b];
    ReadsWindow(bytes, bs, HEADER_ENTRY_SIZE, es, b, bytes[..n], HEADER_ENTRY_SIZE);
  }

  lemma SyncKeepsInvariant(st: LogState, t: Trail)
    requires RunInvariant(st, t)
    ensures RunInvariant(Step(st, SyncLog), t)
  {
    hide Reads, HeaderBytes;
    var st2 := WithSyncBit(st, true);
    assert st2.bytes[HEADER_ENTRY_SIZE..] == st.bytes[HEADER_ENTRY_SIZE..];
    HeaderChangeKeepsStream(st.bytes, st2.bytes, st.bs, t.es, |st.bytes|);
    forall i | 0 <= i < |t.marks|
      ensures MarkHolds(st2, t, i)
    {
      assert MarkHolds(st, t, i);
      MarkBounds(st, t, i);
      HeaderChangeKeepsStream(st.bytes, st2.bytes, st.bs, t.es[..t.marks[i]], st.stack[i].beginOffset);
    }
  }

  /** Every operation keeps the invariant. */
  lemma StepKeepsInvariant(st: LogState, t: Trail, op: Op)
    requires RunInvariant(st, t) && ValidOp(op)
    ensures ValidState(Step(st, op))
    ensures RunInvariant(Step(st, op), NextTrail(t, op))
  {
    StepValid(st, op);
    assert |t.marks| > 0 ==> MarkHolds(st, t, |t.marks| - 1);
    hide Reads, HasHeader, Added, MarkHolds;
    match op
    case Begin => BeginKeepsInvariant(st, t);
    case Add(e, sync) => AddKeepsInvariant(st, t, e, sync);
    case Commit => if st.inTransaction > 0 { CommitKeepsInvariant(st, t); }
    case Abort => if st.inTransaction > 0 { AbortKeepsInvariant(st, t); }
    case SyncLog => SyncKeepsInvariant(st, t);
  }

  // ----- whole runs -----

  ghost predicate ValidOps(ops: seq<Op>) {
    forall i :: 0 <= i < |ops| ==> ValidOp(ops[i])
  }

  ghost function RunOps(st: LogState, ops: seq<Op>): LogState
    requires ValidState(st) && ValidOps(ops)
    ensures ValidState(RunOps(st, ops))
    decreases |ops|
  {
    if |ops| == 0 then st
    else
      StepValid(st, ops[0]);
      RunOps(Step(st, ops[0]), ops[1..])
  }

  ghost function RunTrail(t: Trail, ops: seq<Op>): Trail
    decreases |ops|
  {
    if |ops| == 0 then t else RunTrail(NextTrail(t, ops[0]), ops[1..])
  }

  /** A log that has just been created. */
  ghost function NewLog(time: nat, bs: BlockSize): LogState
    requires ValidTime(time)
  {
    LogState(HeaderBytes(time, true, bs), HEADER_ENTRY_SIZE, bs, time, true, 0, [], 0)
  }

  lemma NewLogInvariant(time: nat, bs: BlockSize)
    requires ValidTime(time) && bs >= HEADER_ENTRY_SIZE
    ensures RunInvariant(NewLog(time, bs), Trail([], []))
  {
    hide HeaderBytes;
    var h := HeaderBytes(time, true, bs);
    assert h[..HEADER_ENTRY_SIZE] == h;
  }

  /** After any run the number of open transactions is the number of unclosed
      BEGIN entries in the file, each open transaction's begin offset is where
      its BEGIN entry starts, and begin offsets strictly increase. */
  lemma {:induction false} EveryRunKeepsInvariant(st: LogState, t: Trail, ops: seq<Op>)
    requires RunInvariant(st, t) && ValidOps(ops)
    ensures var r := RunOps(st, ops);
            && RunInvariant(r, RunTrail(t, ops))
            && r.inTransaction == |r.stack| == Depth(RunTrail(t, ops).es)
            && forall i, j :: 0 <= i < j < |r.stack| ==> r.stack[i].beginOffset < r.stack[j].beginOffset
    decreases |ops|
  {
    if |ops| == 0 {
      OffsetsIncrease(st, t);
    } else {
      hide RunInvariant, Step, NextTrail;
      StepKeepsInvariant(st, t, ops[0]);
      EveryRunKeepsInvariant(Step(st, ops[0]), NextTrail(t, ops[0]), ops[1..]);
    }
  }

  lemma OffsetsIncrease(st: LogState, t: Trail)
    requires RunInvariant(st, t)
    ensures forall i, j :: 0 <= i < j < |st.stack| ==> st.stack[i].beginOffset < st.stack[j].beginOffset
  {
    hide Reads, HasHeader;
    forall i, j | 0 <= i < j < |st.stack|
      ensures st.stack[i].beginOffset < st.stack[j].beginOffset
    {
      assert MarkHolds(st, t, i) && MarkHolds(st, t, j);
      MarkSurvivesAbort(st, t, i, j);
    }
  }

  // ----- crash recovery -----

  /** A replay with truncation of a whole file: the truncate offset is at the end or
      behind it, and nothing else ends it earlier. */
  ghost predicate ReplaysAll(p: Replay, size: nat) {
    StopsByTruncateOffset(p, size) && size <= p.truncateOffset
  }

  lemma LastCutPointIsUnique(es: seq<LogEntry>, d: int, j: nat, k: nat)
    requires LastCutPoint(es, d, j) && LastCutPoint(es, d, k)
    ensures j == k
  {
  }

  /** Whether a replay with truncation can cut the log at the begin of its
      outermost open transaction: not when the truncate offset lies past the end
      of the file at the same place in its block as that begin. */
  ghost predicate CanCut(st: LogState, truncateOffset: nat)
    requires st.bs > 0 && |st.stack| > 0
  {
    truncateOffset == |st.bytes| || st.stack[0].beginOffset % st.bs != truncateOffset % st.bs
  }

  /** Replaying with truncation whatever a run has left in the file cuts it at
      the begin offset of the outermost open transaction, if it can, and aborts
      that transaction towards the callback; else the file is left as it is. */
  lemma RecoveryAfterRun(st: LogState, t: Trail, p: Replay)
    requires RunInvariant(st, t)
    requires p.bs == st.bs && ReplaysAll(p, |st.bytes|)
    ensures var r := ReplaySpec(st.bytes, p, HEADER_ENTRY_SIZE);
            && (r.ok <==> |st.stack| == 0 || CanCut(st, p.truncateOffset))
            && r.bytes == (if r.ok && |st.stack| > 0 then Truncated(st.bytes, st.stack[0].beginOffset) else st.bytes)
            && (r.ok ==> r.offset == |r.bytes|)
            && r.trace == Calls(st.bytes, st.bs, HEADER_ENTRY_SIZE, t.es, |st.bytes|)
                        + if |st.stack| > 0 then [Call(AbortEntry(), |st.bytes|)] else []
  {
    hide Reads, HasHeader, ReplaySpec, Calls, StopsByTruncateOffset, ReadAt;
    EndOfFileIsEof(st.bytes, st.bs);
    var k, b := RecoveryOfWhole(st.bytes, p, HEADER_ENTRY_SIZE, t.es, |st.bytes|);
    if |st.stack| > 0 {
      assert MarkHolds(st, t, 0);
      MarkBounds(st, t, 0);
      var m := t.marks[0];
      assert LastCutPoint(t.es, 0, m) by {
        assert m > 0 ==> t.es[m - 1].kind != HEADER_ENTRY;
      }
      LastCutPointIsUnique(t.es, 0, k, m);
      LongerStreamEndsLater(st.bytes, st.bs, HEADER_ENTRY_SIZE, t.es[..k], b, t.es[..m], st.stack[0].beginOffset);
    }
  }

  /** After each of the operations a transaction is still open. */
  ghost predicate StaysOpen(st: LogState, ops: seq<Op>)
    requires ValidState(st) && ValidOps(ops)
    decreases |ops|
  {
    |ops| > 0 ==>
      (StepValid(st, ops[0]); Step(st, ops[0]).inTransaction > 0 && StaysOpen(Step(st, ops[0]), ops[1..]))
  }

  /** The part of the file before the outermost open transaction. */
  ghost predicate Kept(st: LogState, before: seq<byte>) {
    && st.inTransaction > 0 && |st.stack| > 0
    && st.stack[0].beginOffset == |before| <= |st.bytes|
    && HEADER_ENTRY_SIZE <= |before|
    && st.bytes[HEADER_ENTRY_SIZE..|before|] == before[HEADER_ENTRY_SIZE..]
  }

  lemma StepKeepsBefore(st: LogState, t: Trail, op: Op, before: seq<byte>)
    requires RunInvariant(st, t) && ValidOp(op) && Kept(st, before)
    requires Step(st, op).inTransaction > 0
    ensures ValidState(Step(st, op)) && Kept(Step(st, op), before)
  {
    hide Reads, HeaderBytes, EntryBytes, Added;
    StepValid(st, op);
    match op
    case Begin => AddedKeeps(st, Marker(TRANSACTION_BEGIN), false, before);
    case Add(e, sync) => AddedKeeps(st, e, sync, before);
    case Commit =>
      var sync := st.stack[|st.stack| - 1].requiresSync;
      StackAfterAdd(Popped(st), Marker(TRANSACTION_COMMIT), sync);
      AddedKeeps(Popped(st), Marker(TRANSACTION_COMMIT), sync, before);
    case Abort =>
      OffsetsIncrease(st, t);
      var n := |st.stack| - 1;
      assert MarkHolds(st, t, n);
      MarkBounds(st, t, n);
      var begin := st.stack[n].beginOffset;
      assert st.bytes[..begin][HEADER_ENTRY_SIZE..|before|] == st.bytes[HEADER_ENTRY_SIZE..|before|];
    case SyncLog =>
      var st2 := WithSyncBit(st, true);
      assert st2.bytes[HEADER_ENTRY_SIZE..|before|] == st.bytes[HEADER_ENTRY_SIZE..|before|];
  }

  lemma AddedKeeps(st: LogState, e: LogEntry, sync: bool, before: seq<byte>)
    requires ValidState(st) && st.pos == |st.bytes| && ValidEntry(e) && Kept(st, before)
    ensures var a := Added(st, e, sync);
            && a.inTransaction == st.inTransaction && |a.stack| == |st.stack| && Kept(a, before)
  {
    hide HeaderBytes, EntryBytes, Added;
    AddedAtEnd(st, e, sync);
    StackAfterAdd(st, e, sync);
    ClearedValid(st);
    var c := Cleared(st);
    assert c.bytes[HEADER_ENTRY_SIZE..] == st.bytes[HEADER_ENTRY_SIZE..];
    assert c.bytes[HEADER_ENTRY_SIZE..|before|] == c.bytes[HEADER_ENTRY_SIZE..][..|before| - HEADER_ENTRY_SIZE];
    assert st.bytes[HEADER_ENTRY_SIZE..|before|] == st.bytes[HEADER_ENTRY_SIZE..][..|before| - HEADER_ENTRY_SIZE];
    var b := c.bytes + EntryBytes(|st.bytes|, st.bs, e);
    assert b[HEADER_ENTRY_SIZE..|before|] == c.bytes[HEADER_ENTRY_SIZE..|before|];
  }

  lemma {:induction false} RunKeepsBefore(st: LogState, t: Trail, ops: seq<Op>, before: seq<byte>)
    requires RunInvariant(st, t) && ValidOps(ops) && StaysOpen(st, ops) && Kept(st, before)
    ensures Kept(RunOps(st, ops), before)
    decreases |ops|
  {
    if |ops| > 0 {
      hide RunInvariant, Kept, Step, NextTrail;
      StepKeepsInvariant(st, t, ops[0]);
      StepKeepsBefore(st, t, ops[0], before);
      RunKeepsBefore(Step(st, ops[0]), NextTrail(t, ops[0]), ops[1..], before);
    }
  }

  /** A crash loses exactly the open transaction: when a run begins a
      transaction outside any other and is cut off before that transaction is
      closed, recovery gives back the file as it was at its begin, apart from
      the sync flag in the header. It can fail only for a truncate offset that is
      not the end of the file, and then leaves the file as it is. */
  lemma CrashLosesOnlyTheOpenTransaction(st: LogState, t: Trail, ops: seq<Op>, p: Replay)
    requires RunInvariant(st, t) && st.inTransaction == 0
    requires ValidOps(ops) && StaysOpen(st, [Begin] + ops)
    requires var crashed := RunOps(st, [Begin] + ops);
             p.bs == st.bs && ReplaysAll(p, |crashed.bytes|)
    ensures var crashed := RunOps(st, [Begin] + ops);
            var r := ReplaySpec(crashed.bytes, p, HEADER_ENTRY_SIZE);
            && (r.ok <==> p.truncateOffset == |crashed.bytes| || |st.bytes| % st.bs != p.truncateOffset % st.bs)
            && (r.ok ==> |r.bytes| == |st.bytes| && r.bytes[HEADER_ENTRY_SIZE..] == st.bytes[HEADER_ENTRY_SIZE..])
            && (!r.ok ==> r.bytes == crashed.bytes)
  {
    hide Reads, HasHeader, ReplaySpec, Calls, Added, ReplaysAll, MarkHolds;
    assert ([Begin] + ops)[1..] == ops && ValidOps([Begin] + ops);
    StepKeepsInvariant(st, t, Begin);
    var st1, t1 := Step(st, Begin), NextTrail(t, Begin);
    BeginKeeps(st);
    RunKeepsBefore(st1, t1, ops, st.bytes);
    EveryRunKeepsInvariant(st1, t1, ops);
    var crashed := RunOps(st, [Begin] + ops);
    assert crashed == RunOps(st1, ops);
    BlockSizeStays(st, [Begin] + ops);
    RecoveryAfterRun(crashed, RunTrail(t1, ops), p);
    var r := ReplaySpec(crashed.bytes, p, HEADER_ENTRY_SIZE);
    if r.ok {
      assert r.bytes[HEADER_ENTRY_SIZE..] == crashed.bytes[HEADER_ENTRY_SIZE..|st.bytes|];
    }
  }

  lemma BeginKeeps(st: LogState)
    requires ValidState(st) && st.inTransaction == 0 && st.pos == |st.bytes|
    ensures Kept(Step(st, Begin), st.bytes)
  {
    hide HeaderBytes, EntryBytes, Added;
    var e := Marker(TRANSACTION_BEGIN);
    AddedAtEnd(st, e, false);
    StackAfterAdd(st, e, false);
    ClearedValid(st);
    var c := Cleared(st);
    assert c.bytes[HEADER_ENTRY_SIZE..] == st.bytes[HEADER_ENTRY_SIZE..];
    var b := c.bytes + EntryBytes(|st.bytes|, st.bs, e);
    assert b[HEADER_ENTRY_SIZE..|st.bytes|] == c.bytes[HEADER_ENTRY_SIZE..];
  }

  lemma {:induction false} BlockSizeStays(st: LogState, ops: seq<Op>)
    requires ValidState(st) && ValidOps(ops)
    ensures RunOps(st, ops).bs == st.bs
    decreases |ops|
  {
    if |ops| > 0 {
      StepBlockSize(st, ops[0]);
      hide Step;
      StepValid(st, ops[0]);
      BlockSizeStays(Step(st, ops[0]), ops[1..]);
    }
  }

  lemma StepBlockSize(st: LogState, op: Op)
    requires ValidState(st) && ValidOp(op)
    ensures Step(st, op).bs == st.bs
  {
    hide HasHeader, HeaderBytes, PutEntry, EncodeEntry;
  }
}
