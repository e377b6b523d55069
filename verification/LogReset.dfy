/** Resetting a log: a new log is written behind the old one in the same file, from
    the next block boundary on, and then the old one is cut off. */
module LogReset {
  import opened LogFormat
  import opened LogReader
  import opened LogFile
  import opened LogDelete
  import opened LogTransactions
  import opened LogRuns

  // ----- the operations -----

  function WithStartTime(st: LogState, time: nat): LogState
    requires ValidState(st) && ValidTime(time)
  {
    st.(startTime := time, bytes := HeaderBytes(time, st.synced, st.bs) + st.bytes[HEADER_ENTRY_SIZE..])
  }

  function ResetOffset(st: LogState): nat {
    NextEntryOffset(st.pos, INT_MAX, st.bs)
  }

  /** The file padded to the next block boundary, where it then stands. */
  function PaddedState(st: LogState): LogState {
    st.(bytes := PadFile(st.bytes, st.pos, st.bs, INT_MAX), pos := ResetOffset(st))
  }

  /** The file is padded to the next block boundary, where the header of the new
      log is written; the header at the front stays. */
  function ResetStarted(st: LogState, time: nat): LogState
    requires ValidTime(time)
  {
    var padded := PaddedState(st);
    padded.(bytes := PutEntry(padded.bytes, padded.pos, st.bs, HeaderEntry(time, false, st.bs)),
            pos := padded.pos + HEADER_ENTRY_SIZE)
  }

  datatype ResetResult = ResetResult(status: Status, state: LogState)

  /** The start time is changed first, then everything in front of the offset is
      deleted; when that is refused the old start time is put back. */
  function ResetSpec(st: LogState, newTime: nat, offset: nat): ResetResult
    requires ValidState(st) && ValidTime(newTime)
  {
    var t := WithStartTime(st, newTime);
    var d := DeleteSpec(t.bytes, st.bs, 0, offset);
    match d.status
    case Success => ResetResult(Success, t.(bytes := d.bytes, pos := if offset == 0 then st.pos else |d.bytes|))
    case CorruptedError => ResetResult(CorruptedError, t.(pos := offset))
    case GenericError => ResetResult(GenericError, st.(pos := |st.bytes|))
  }

  /** Setting the start time sets it in the header and in the log, and changes nothing
      else. */
  lemma WithStartTimeValid(st: LogState, time: nat)
    requires ValidState(st) && ValidTime(time)
    ensures ValidState(WithStartTime(st, time)) && HasHeader(WithStartTime(st, time).bytes, time, st.synced, st.bs)
    ensures |WithStartTime(st, time).bytes| == |st.bytes|
    ensures WithStartTime(st, time).bytes[HEADER_ENTRY_SIZE..] == st.bytes[HEADER_ENTRY_SIZE..]
    ensures WithStartTime(st, time) == st.(startTime := time, bytes := WithStartTime(st, time).bytes)
    ensures WithStartTime(WithStartTime(st, time), st.startTime) == st
  {
    hide HeaderBytes;
  }

  /** A reset is accepted at the file's front, at a block boundary within the file,
      and at the end or past it away from a boundary; in the last case nothing is
      left of the file, header included. A refused reset leaves the log as it was,
      or, past the end on a boundary, with the new start time. */
  lemma ResetAcceptedIff(st: LogState, newTime: nat, offset: nat)
    requires ValidState(st) && ValidTime(newTime)
    ensures var r, boundary := ResetSpec(st, newTime, offset), offset % st.bs == 0;
            && (r.status == Success <==> if boundary then offset <= |st.bytes| else offset >= |st.bytes|)
            && (r.status == Success && offset > 0 ==> r.state.bytes == if boundary then st.bytes[offset..] else [])
            && (r.status == Success && offset == 0 ==> r.state == WithStartTime(st, newTime))
            && (r.status == GenericError <==> !boundary && offset < |st.bytes|)
            && (r.status == GenericError ==> r.state == st.(pos := |st.bytes|))
            && (r.status == CorruptedError ==> r.state == WithStartTime(st, newTime).(pos := offset))
  {
    hide HeaderBytes, DeleteSpec, WithStartTime;
    var t := WithStartTime(st, newTime);
    WithStartTimeValid(st, newTime);
    DeleteFront(t.bytes, st.bs, offset);
    ShortOffset(offset, st.bs);
    if HEADER_ENTRY_SIZE <= offset <= |st.bytes| {
      assert t.bytes[offset..] == t.bytes[HEADER_ENTRY_SIZE..][offset - HEADER_ENTRY_SIZE..];
      assert st.bytes[offset..] == st.bytes[HEADER_ENTRY_SIZE..][offset - HEADER_ENTRY_SIZE..];
    }
  }

  lemma ShortOffset(offset: nat, bs: BlockSize)
    requires bs >= HEADER_ENTRY_SIZE
    ensures 0 < offset < HEADER_ENTRY_SIZE ==> offset % bs != 0
  {
    if offset < HEADER_ENTRY_SIZE {
      ModUnique(offset, 0, offset, bs);
    }
  }

  /** Deleting everything in front of an offset. */
  lemma DeleteFront(bytes: seq<byte>, bs: BlockSize, offset: nat)
    requires bs > 0
    ensures DeleteSpec(bytes, bs, 0, offset) ==
      if offset % bs == 0 then
        if offset <= |bytes| then DeleteResult(Success, bytes[offset..]) else DeleteResult(CorruptedError, bytes)
      else if |bytes| <= offset then DeleteResult(Success, [])
      else DeleteResult(GenericError, bytes)
  {
    if offset <= |bytes| {
      assert [] + bytes[offset..] == bytes[offset..];
    }
  }

  // ----- a run behind the old log is a run on a new log -----

  /** The states of a log in use behind its old contents, which end at a block
      boundary, and of a log of its own. The lowest j transactions were open before;
      nothing is known of where they began. */
  ghost predicate Behind(big: LogState, small: LogState, off: nat, time: nat, j: nat) {
    && ValidState(big) && ValidState(small) && big.bs == small.bs
    && HEADER_ENTRY_SIZE <= off && off % big.bs == 0
    && big.pos == |big.bytes| == off + |small.bytes| && small.pos == |small.bytes|
    && ValidTime(time) && small.startTime == time
    && big.bytes[off..] == HeaderBytes(time, false, big.bs) + small.bytes[HEADER_ENTRY_SIZE..]
    && big.inTransaction == small.inTransaction
    && (forall i :: 0 <= i < |big.stack| ==> big.stack[i].requiresSync == small.stack[i].requiresSync)
    && forall i :: j <= i < |big.stack| ==> big.stack[i] == Shifted(small.stack[i], off)
  }

  ghost function Shifted(info: TransInfo, off: nat): TransInfo {
    info.(beginOffset := info.beginOffset + off)
  }

  lemma GapBehind(x: nat, off: nat, bs: BlockSize, e: LogEntry)
    requires ValidEntry(e) && bs > 0 && off % bs == 0
    ensures EntryBytes(off + x, bs, e) == EntryBytes(x, bs, e)
  {
    hide EncodeEntry, Padding;
    ModOfSum(off, x, bs);
  }

  lemma AddedBehind(big: LogState, small: LogState, off: nat, time: nat, j: nat, e: LogEntry, sync: bool)
    requires Behind(big, small, off, time, j) && ValidEntry(e)
    ensures Behind(Added(big, e, sync), Added(small, e, sync), off, time, j)
  {
    hide HeaderBytes, EntryBytes, Added;
    var b, s := Added(big, e, sync), Added(small, e, sync);
    AddedValid(big, e, sync);
    AddedValid(small, e, sync);
    AddedAtEnd(big, e, sync);
    AddedAtEnd(small, e, sync);
    GapBehind(|small.bytes|, off, big.bs, e);
    ClearedBehind(big, small, off, time, j);
    AddedFields(big, e, sync);
    AddedFields(small, e, sync);
    var more := EntryBytes(|small.bytes|, big.bs, e);
    var c, d := Cleared(big).bytes, Cleared(small).bytes;
    assert (c + more)[off..] == c[off..] + more;
    assert (d + more)[HEADER_ENTRY_SIZE..] == d[HEADER_ENTRY_SIZE..] + more;
    assert HeaderBytes(time, false, big.bs) + (d[HEADER_ENTRY_SIZE..] + more) == c[off..] + more;
  }

  lemma AddedFields(st: LogState, e: LogEntry, sync: bool)
    requires ValidState(st) && ValidEntry(e)
    ensures var a := Added(st, e, sync);
            && a.bs == st.bs && a.startTime == st.startTime && a.inTransaction == st.inTransaction
            && a.stack == if sync && st.inTransaction > 0 then MarkTop(st.stack) else st.stack
  {
    hide HeaderBytes, PutEntry, EncodeEntry;
  }

  lemma ClearedBehind(big: LogState, small: LogState, off: nat, time: nat, j: nat)
    requires Behind(big, small, off, time, j)
    ensures |Cleared(big).bytes| == |big.bytes| && |Cleared(small).bytes| == |small.bytes|
    ensures Cleared(big).bytes[off..] == big.bytes[off..]
    ensures Cleared(small).bytes[HEADER_ENTRY_SIZE..] == small.bytes[HEADER_ENTRY_SIZE..]
  {
    hide HeaderBytes;
    SyncBitBehind(big, small, off, false);
  }

  lemma SyncBitBehind(big: LogState, small: LogState, off: nat, bit: bool)
    requires ValidState(big) && ValidState(small) && HEADER_ENTRY_SIZE <= off <= |big.bytes|
    ensures WithSyncBit(big, bit).bytes[off..] == big.bytes[off..]
    ensures WithSyncBit(small, bit).bytes[HEADER_ENTRY_SIZE..] == small.bytes[HEADER_ENTRY_SIZE..]
  {
    hide HeaderBytes;
    var b := WithSyncBit(big, bit).bytes;
    assert b[off..] == b[HEADER_ENTRY_SIZE..][off - HEADER_ENTRY_SIZE..];
    assert big.bytes[off..] == big.bytes[HEADER_ENTRY_SIZE..][off - HEADER_ENTRY_SIZE..];
  }

  lemma TruncatedBehind(big: seq<byte>, small: seq<byte>, off: nat, head: seq<byte>, n: nat)
    requires |head| == HEADER_ENTRY_SIZE <= n && HEADER_ENTRY_SIZE <= |small| && |big| == off + |small|
    requires big[off..] == head + small[HEADER_ENTRY_SIZE..]
    ensures Truncated(big, off + n)[off..] == head + Truncated(small, n)[HEADER_ENTRY_SIZE..]
  {
    var b, s := Truncated(big, off + n), Truncated(small, n);
    if n <= |small| {
      assert b[off..] == big[off..][..n];
    } else {
      assert b[off..] == big[off..] + Zeros(n - |small|);
    }
  }

  lemma AbortBehind(big: LogState, small: LogState, off: nat, time: nat, j: nat)
    requires Behind(big, small, off, time, j) && small.inTransaction > j
    ensures Behind(Step(big, Abort), Step(small, Abort), off, time, j)
  {
    hide HeaderBytes, Truncated;
    StepValid(big, Abort);
    StepValid(small, Abort);
    var begin := small.stack[|small.stack| - 1].beginOffset;
    TruncatedBehind(big.bytes, small.bytes, off, HeaderBytes(time, false, big.bs), begin);
  }

  /** Whether an operation leaves the transactions alone that were open before, or
      commits one of them. */
  ghost predicate AllowedInside(st: LogState, op: Op, j: nat) {
    op.Abort? ==> st.inTransaction <= 0 || st.inTransaction > j
  }

  /** How many of them are open afterwards. */
  ghost function OuterLeft(st: LogState, j: nat): nat {
    if |st.stack| < j then |st.stack| else j
  }

  /** Each operation does behind the old log what it does in a log of its own. */
  lemma StepBehind(big: LogState, small: LogState, off: nat, time: nat, j: nat, op: Op)
    requires Behind(big, small, off, time, j) && ValidOp(op) && AllowedInside(small, op, j)
    ensures Behind(Step(big, op), Step(small, op), off, time, OuterLeft(Step(small, op), j))
  {
    hide HasHeader, HeaderBytes, Added;
    StepValid(big, op);
    StepValid(small, op);
    match op
    case Begin =>
      AddedBehind(big, small, off, time, j, Marker(TRANSACTION_BEGIN), false);
    case Add(e, sync) => AddedBehind(big, small, off, time, j, e, sync);
    case Commit =>
      if small.inTransaction > 0 {
        var sync := small.stack[|small.stack| - 1].requiresSync;
        AddedBehind(Popped(big), Popped(small), off, time, j, Marker(TRANSACTION_COMMIT), sync);
      }
    case Abort =>
      if small.inTransaction > 0 {
        AbortBehind(big, small, off, time, j);
      }
    case SyncLog => SyncBitBehind(big, small, off, true);
  }

  /** A run that aborts none of the lowest j transactions. */
  ghost predicate AbortsOnlyInner(st: LogState, ops: seq<Op>, j: nat)
    requires ValidState(st) && ValidOps(ops)
    decreases |ops|
  {
    |ops| > 0 ==>
      && AllowedInside(st, ops[0], j)
      && (StepValid(st, ops[0]); AbortsOnlyInner(Step(st, ops[0]), ops[1..], OuterLeft(Step(st, ops[0]), j)))
  }

  lemma {:induction false} NothingOuter(st: LogState, ops: seq<Op>)
    requires ValidState(st) && ValidOps(ops)
    ensures AbortsOnlyInner(st, ops, 0)
    decreases |ops|
  {
    if |ops| > 0 {
      hide Step, ValidState;
      StepValid(st, ops[0]);
      NothingOuter(Step(st, ops[0]), ops[1..]);
    }
  }

  lemma {:induction false} RunBehind(big: LogState, small: LogState, off: nat, time: nat, j: nat, ops: seq<Op>) returns (left: nat)
    requires Behind(big, small, off, time, j) && ValidState(big) && ValidState(small) && ValidOps(ops)
    requires AbortsOnlyInner(small, ops, j)
    ensures Behind(RunOps(big, ops), RunOps(small, ops), off, time, left) && left <= j
    decreases |ops|
  {
    left := j;
    if |ops| > 0 {
      hide Behind, Step, ValidState;
      StepBehind(big, small, off, time, j, ops[0]);
      StepValid(big, ops[0]);
      StepValid(small, ops[0]);
      left := RunBehind(Step(big, ops[0]), Step(small, ops[0]), off, time, OuterLeft(Step(small, ops[0]), j), ops[1..]);
    }
  }

  /** At the end of the file the new log starts behind the padding. */
  lemma ResetStartedBytes(st: LogState, time: nat)
    requires ValidState(st) && st.pos == |st.bytes| && ValidTime(time)
    ensures var r, off := ResetStarted(st, time), ResetOffset(st);
            && off >= |st.bytes| && off % st.bs == 0
            && |r.bytes| == r.pos && r.bytes[..|st.bytes|] == st.bytes
            && r.bytes[off..] == HeaderBytes(time, false, st.bs)
  {
    hide HeaderData, EncodeEntry, EncodeHeader, HasHeader;
    var e := HeaderEntry(time, false, st.bs);
    assert |HeaderBytes(time, false, st.bs)| == HEADER_ENTRY_SIZE;
    var off := ResetOffset(st);
    NextEntryOffsetIsUsed(st.pos, INT_MAX, st.bs);
    BoundaryAfterSpace(st.pos, st.bs);
    var padded := PadFile(st.bytes, st.pos, st.bs, INT_MAX);
    PadKeepsFront(st.bytes, st.pos, st.bs, INT_MAX, |st.bytes|);
    assert |padded| <= off;
    assert PutEntry(padded, off, st.bs, e) == padded + Zeros(off - |padded|) + EncodeEntry(e);
  }

  lemma HeaderEncoded(time: nat, bs: BlockSize)
    requires ValidTime(time)
    ensures ValidEntry(HeaderEntry(time, false, bs)) && HeaderBytes(time, false, bs) == EncodeEntry(HeaderEntry(time, false, bs))
  {
    hide HeaderData, EncodeEntry;
  }

  lemma ResetStartedValid(st: LogState, time: nat)
    requires ValidState(st) && ValidTime(time)
    ensures ValidState(ResetStarted(st, time))
    ensures var e := HeaderEntry(time, false, st.bs);
            && ValidEntry(e) && |EncodeEntry(e)| == HEADER_ENTRY_SIZE
            && NextEntryOffset(ResetOffset(st), |EncodeEntry(e)|, st.bs) == ResetOffset(st)
  {
    hide HeaderData, EncodeEntry, PutEntry, PadFile, HeaderBytes;
    var e := HeaderEntry(time, false, st.bs);
    assert |HeaderBytes(time, false, st.bs)| == HEADER_ENTRY_SIZE;
    HeaderEncoded(time, st.bs);
    var off := ResetOffset(st);
    NextEntryOffsetIsUsed(st.pos, INT_MAX, st.bs);
    BoundaryAfterSpace(st.pos, st.bs);
    var padded := PadFile(st.bytes, st.pos, st.bs, INT_MAX);
    PadKeepsFront(st.bytes, st.pos, st.bs, INT_MAX, HEADER_ENTRY_SIZE);
    PutKeepsFront(padded, off, st.bs, e, HEADER_ENTRY_SIZE);
    var r := PutEntry(padded, off, st.bs, e);
    assert r[..HEADER_ENTRY_SIZE] == st.bytes[..HEADER_ENTRY_SIZE];
  }

  /** A new log with as many open transactions. */
  ghost function NewLogInside(st: LogState, time: nat): LogState
    requires ValidTime(time)
  {
    NewLog(time, st.bs).(inTransaction := |st.stack|,
      stack := seq(|st.stack|, i requires 0 <= i < |st.stack| => TransInfo(HEADER_ENTRY_SIZE, st.stack[i].requiresSync)))
  }

  lemma ResetStartsNewLog(st: LogState, time: nat)
    requires ValidState(st) && st.pos == |st.bytes| && ValidTime(time)
    ensures Behind(ResetStarted(st, time), NewLogInside(st, time), ResetOffset(st), time, |st.stack|)
    ensures st.inTransaction == 0 ==> NewLogInside(st, time) == NewLog(time, st.bs)
  {
    hide HeaderBytes, PutEntry, PadFile, NextEntryOffset;
    ResetStartedBytes(st, time);
    NewLogInvariant(time, st.bs);
    var r := ResetStarted(st, time);
    assert r.bytes[..HEADER_ENTRY_SIZE] == r.bytes[..|st.bytes|][..HEADER_ENTRY_SIZE] == st.bytes[..HEADER_ENTRY_SIZE];
    var h := HeaderBytes(time, true, st.bs);
    assert h[HEADER_ENTRY_SIZE..] == [];
    if st.inTransaction == 0 {
      assert NewLogInside(st, time).stack == [];
    }
  }

  // ----- what a reset leaves -----

  /** A log starts a reset, inside transactions or not, runs on without aborting one
      of those, and is then reset at the offset it was given. The reset succeeds, and
      the file is exactly what the same run leaves in a new log of its own, with as
      many open transactions at its start, marked as not synced. */
  lemma ResetRun(st: LogState, time: nat, ops: seq<Op>, newTime: nat) returns (left: nat)
    requires ValidState(st) && st.pos == |st.bytes|
    requires ValidTime(time) && ValidTime(newTime) && ValidOps(ops)
    requires ValidState(NewLogInside(st, time)) && AbortsOnlyInner(NewLogInside(st, time), ops, |st.stack|)
    ensures ValidState(ResetStarted(st, time)) && left <= |st.stack|
    ensures var big, small := RunOps(ResetStarted(st, time), ops), RunOps(NewLogInside(st, time), ops);
            var r := ResetSpec(big, newTime, ResetOffset(st));
            && Behind(big, small, ResetOffset(st), time, left)
            && r.status == Success && r.state.pos == |r.state.bytes|
            && r.state.bytes == WithSyncBit(small, false).bytes
            && r.state.startTime == newTime && r.state.synced == big.synced && r.state.bs == st.bs
            && r.state.inTransaction == small.inTransaction
            && r.state.stack == big.stack
  {
    hide HeaderBytes, ResetStarted, ResetOffset, ResetSpec, Step, NewLogInside;
    ResetStartsNewLog(st, time);
    var off := ResetOffset(st);
    left := RunBehind(ResetStarted(st, time), NewLogInside(st, time), off, time, |st.stack|, ops);
    var big, small := RunOps(ResetStarted(st, time), ops), RunOps(NewLogInside(st, time), ops);
    BlockSizeStays(NewLogInside(st, time), ops);
    InsideBlockSize(st, time);
    ResetAcceptedIff(big, newTime, off);
    ResetFields(big, newTime, off);
  }

  lemma InsideBlockSize(st: LogState, time: nat)
    requires ValidTime(time)
    ensures NewLogInside(st, time).bs == st.bs
  {
    hide HeaderBytes;
  }

  lemma ResetFields(st: LogState, newTime: nat, offset: nat)
    requires ValidState(st) && ValidTime(newTime)
    ensures var r := ResetSpec(st, newTime, offset);
            r.status == Success ==>
              && r.state.startTime == newTime && r.state.synced == st.synced && r.state.bs == st.bs
              && r.state.inTransaction == st.inTransaction && r.state.stack == st.stack
              && (offset > 0 ==> r.state.pos == |r.state.bytes|)
  {
    hide HeaderBytes, DeleteSpec;
  }

  lemma HeadersDiffer(time: nat, synced: bool, time2: nat, synced2: bool, bs: BlockSize)
    requires ValidTime(time) && ValidTime(time2) && HeaderBytes(time, synced, bs) == HeaderBytes(time2, synced2, bs)
    requires bs >= HEADER_ENTRY_SIZE
    ensures time == time2 && synced == synced2
  {
    hide HeaderBytes, HeaderData, BigEndian;
    var h := HeaderBytes(time, synced, bs);
    assert h[..HEADER_ENTRY_SIZE] == h;
    HeaderIsRead(h, time, synced, bs, bs);
    HeaderIsRead(h, time2, synced2, bs, bs);
    assert HeaderEntry(time, synced, bs).data[0] == HeaderEntry(time2, synced2, bs).data[0];
    SyncBitShows(synced, synced2, bs);
  }

  lemma SyncBitShows(synced: bool, synced2: bool, bs: BlockSize)
    requires HeaderData(synced, bs) == HeaderData(synced2, bs)
    ensures synced == synced2
  {
    hide BigEndian;
    var a, b := if synced then 1 else 0, if synced2 then 1 else 0;
    assert HeaderData(synced, bs)[4..8] == BigEndian(4, a);
    assert HeaderData(synced2, bs)[4..8] == BigEndian(4, b);
    PowersOf256();
    NumberRoundTrip(4, a);
    NumberRoundTrip(4, b);
  }

  /** The open log agrees with the file after a reset if and only if the start time
      is the one in the new header, the log is not taken to be synced, and no
      transaction was open: the begin offsets of an open one are not moved. */
  lemma ResetInvariantIff(st: LogState, time: nat, ops: seq<Op>, newTime: nat)
    requires ValidState(st) && st.pos == |st.bytes| && st.inTransaction == 0
    requires ValidTime(time) && ValidTime(newTime) && ValidOps(ops) && ValidState(ResetStarted(st, time))
    ensures var big, t := RunOps(ResetStarted(st, time), ops), RunTrail(Trail([], []), ops);
            RunInvariant(ResetSpec(big, newTime, ResetOffset(st)).state, t)
            <==> newTime == time && !big.synced && big.inTransaction == 0
  {
    hide HeaderBytes, ResetStarted, ResetOffset, ResetSpec, Step, RunInvariant, RunOps, Behind;
    NewLogInvariant(time, st.bs);
    ResetStartsNewLog(st, time);
    NothingOuter(NewLog(time, st.bs), ops);
    var left := ResetRun(st, time, ops, newTime);
    EveryRunKeepsInvariant(NewLog(time, st.bs), Trail([], []), ops);
    BlockSizeStays(NewLog(time, st.bs), ops);
    var big, small := RunOps(ResetStarted(st, time), ops), RunOps(NewLog(time, st.bs), ops);
    var after := ResetSpec(big, newTime, ResetOffset(st)).state;
    AgreesIff(big, small, ResetOffset(st), time, 0, newTime, after, RunTrail(Trail([], []), ops));
  }

  lemma AgreesIff(big: LogState, small: LogState, off: nat, time: nat, j: nat, newTime: nat, after: LogState, t: Trail)
    requires Behind(big, small, off, time, j) && j == 0 && RunInvariant(small, t) && ValidTime(newTime)
    requires after.bytes == WithSyncBit(small, false).bytes && after.pos == |after.bytes| && after.bs == small.bs
    requires after.startTime == newTime && after.synced == big.synced
    requires after.inTransaction == small.inTransaction && after.stack == big.stack
    ensures RunInvariant(after, t) <==> newTime == time && !big.synced && big.inTransaction == 0
  {
    hide HeaderBytes, Reads;
    var h := HeaderBytes(time, false, small.bs);
    assert after.bytes[..HEADER_ENTRY_SIZE] == h;
    assert after.bytes[HEADER_ENTRY_SIZE..] == small.bytes[HEADER_ENTRY_SIZE..];
    HeaderChangeKeepsStream(small.bytes, after.bytes, small.bs, t.es, |small.bytes|);
    if newTime == time && !big.synced && big.inTransaction == 0 {
      assert RunInvariant(after, t);
    } else if RunInvariant(after, t) {
      HeadersDiffer(time, false, newTime, big.synced, small.bs);
      StaleBegin(big, small, off, time, j, after, t);
      assert false;
    }
  }

  /** The begin offset of a transaction that was open at the reset is not where its
      BEGIN entry stands now. */
  lemma StaleBegin(big: LogState, small: LogState, off: nat, time: nat, j: nat, after: LogState, t: Trail)
    requires Behind(big, small, off, time, j) && j == 0 && RunInvariant(small, t) && big.inTransaction > 0
    requires after.bytes == WithSyncBit(small, false).bytes && after.bs == small.bs && after.stack == big.stack
    ensures !RunInvariant(after, t)
  {
    hide HeaderBytes, Reads;
    if RunInvariant(after, t) {
      assert MarkHolds(small, t, 0) && MarkHolds(after, t, 0);
      MarkBounds(small, t, 0);
      var b := small.stack[0].beginOffset;
      assert after.bytes[HEADER_ENTRY_SIZE..] == small.bytes[HEADER_ENTRY_SIZE..];
      HeaderChangeKeepsStream(small.bytes, after.bytes, small.bs, t.es[..t.marks[0]], b);
      LongerStreamEndsLater(after.bytes, small.bs, HEADER_ENTRY_SIZE, t.es[..t.marks[0]], b, t.es[..t.marks[0]], b + off);
      assert false;
    }
  }
}
