/** Runs whose transactions are properly nested: what is written, what an abort
    takes back, and when the file is forced to disk. */
module LogNesting {
  import opened LogFormat
  import opened LogReader
  import opened LogFile
  import opened LogTransactions
  import opened LogRuns

  /** A single entry, or a transaction that is committed or aborted. */
  datatype Item =
    | Plain(entry: LogEntry, sync: bool)
    | Nested(body: seq<Item>, commits: bool)

  predicate ValidItem(item: Item) {
    match item
    case Plain(e, _) => UserEntry(e)
    case Nested(body, _) => forall i :: 0 <= i < |body| ==> ValidItem(body[i])
  }

  predicate ValidItems(items: seq<Item>) {
    forall i :: 0 <= i < |items| ==> ValidItem(items[i])
  }

  /** The operations that carry out an item. */
  ghost function Ops(item: Item): (ops: seq<Op>)
    requires ValidItem(item)
    ensures ValidOps(ops)
    decreases item, 0
  {
    match item
    case Plain(e, sync) => [Add(e, sync)]
    case Nested(body, commits) => [Begin] + AllOps(body) + [if commits then Commit else Abort]
  }

  ghost function AllOps(items: seq<Item>): (ops: seq<Op>)
    requires ValidItems(items)
    ensures ValidOps(ops)
    decreases items, 1
  {
    if |items| == 0 then [] else Ops(items[0]) + AllOps(items[1..])
  }

  /** What remains in the file: nothing of an aborted transaction. */
  ghost function Remaining(item: Item): (es: seq<LogEntry>)
    requires ValidItem(item)
    ensures AllValid(es)
    decreases item, 0
  {
    match item
    case Plain(e, _) => [e]
    case Nested(body, commits) =>
      if commits then [Marker(TRANSACTION_BEGIN)] + AllRemaining(body) + [Marker(TRANSACTION_COMMIT)] else []
  }

  ghost function AllRemaining(items: seq<Item>): (es: seq<LogEntry>)
    requires ValidItems(items)
    ensures AllValid(es)
    decreases items, 1
  {
    if |items| == 0 then [] else Remaining(items[0]) + AllRemaining(items[1..])
  }

  /** The item contains an entry that requires sync and lies in no aborted
      transaction. */
  ghost predicate NeedsSync(item: Item)
    decreases item, 0
  {
    match item
    case Plain(_, sync) => sync
    case Nested(body, commits) => commits && exists i :: 0 <= i < |body| && NeedsSync(body[i])
  }

  ghost predicate SomeNeedSync(items: seq<Item>) {
    exists i :: 0 <= i < |items| && NeedsSync(items[i])
  }

  /** How many of the items need a sync. */
  ghost function SyncCount(items: seq<Item>): nat {
    if |items| == 0 then 0 else (if NeedsSync(items[0]) then 1 else 0) + SyncCount(items[1..])
  }

  lemma SomeNeedSyncSplit(items: seq<Item>)
    requires |items| > 0
    ensures SomeNeedSync(items) == (NeedsSync(items[0]) || SomeNeedSync(items[1..]))
  {
    if SomeNeedSync(items[1..]) {
      var i :| 0 <= i < |items[1..]| && NeedsSync(items[1..][i]);
      assert NeedsSync(items[i + 1]);
    }
    if SomeNeedSync(items) && !NeedsSync(items[0]) {
      var i :| 0 <= i < |items| && NeedsSync(items[i]);
      assert NeedsSync(items[1..][i - 1]);
    }
  }

  // ----- running concatenated operations -----

  lemma {:induction false} RunConcat(st: LogState, xs: seq<Op>, ys: seq<Op>)
    requires ValidState(st) && ValidOps(xs) && ValidOps(ys)
    ensures ValidOps(xs + ys) && RunOps(st, xs + ys) == RunOps(RunOps(st, xs), ys)
    decreases |xs|
  {
    hide Step;
    if |xs| == 0 {
      assert xs + ys == ys;
    } else {
      assert (xs + ys)[1..] == xs[1..] + ys;
      StepValid(st, xs[0]);
      RunConcat(Step(st, xs[0]), xs[1..], ys);
    }
  }

  lemma RunOne(st: LogState, op: Op)
    requires ValidState(st) && ValidOp(op)
    ensures ValidOps([op]) && ValidState(Step(st, op)) && RunOps(st, [op]) == Step(st, op)
  {
    hide Step;
    StepValid(st, op);
    assert [op][1..] == [];
  }

  lemma {:induction false} WriteAllConcat(bytes: seq<byte>, bs: BlockSize, es: seq<LogEntry>, fs: seq<LogEntry>)
    requires AllValid(es) && AllValid(fs)
    ensures AllValid(es + fs)
    ensures WriteAll(bytes, bs, es + fs) == WriteAll(WriteAll(bytes, bs, es), bs, fs)
    decreases |es|
  {
    hide EntryBytes, ValidEntry;
    if |es| == 0 {
      assert es + fs == fs;
    } else {
      assert (es + fs)[1..] == es[1..] + fs;
      WriteAllConcat(bytes + EntryBytes(|bytes|, bs, es[0]), bs, es[1..], fs);
    }
  }

  lemma {:induction false} WriteAllGrows(bytes: seq<byte>, bs: BlockSize, es: seq<LogEntry>)
    requires AllValid(es)
    ensures |bytes| <= |WriteAll(bytes, bs, es)| && WriteAll(bytes, bs, es)[..|bytes|] == bytes
    decreases |es|
  {
    hide EntryBytes, ValidEntry;
    if |es| > 0 {
      var more := bytes + EntryBytes(|bytes|, bs, es[0]);
      WriteAllGrows(more, bs, es[1..]);
      var file := WriteAll(more, bs, es[1..]);
      assert file[..|bytes|] == file[..|more|][..|bytes|];
    }
  }

  // ----- the effect of an item -----

  /** The state after the effect of some items: their remaining entries are in
      the file; inside a transaction a needed sync is noted, outside any it has
      been carried out. */
  ghost function Effect(st: LogState, es: seq<LogEntry>, needed: bool, syncs: nat): LogState
    requires AllValid(es)
  {
    var bytes := WriteAll(st.bytes, st.bs, es);
    st.(bytes := bytes, pos := |bytes|,
        stack := if |st.stack| > 0 && needed then MarkTop(st.stack) else st.stack,
        diskSyncs := if |st.stack| > 0 then st.diskSyncs else st.diskSyncs + syncs)
  }

  /** A valid log positioned at its end, the header not claiming it is synced. */
  ghost predicate Ready(st: LogState) {
    ValidState(st) && st.pos == |st.bytes| && !st.synced
  }

  lemma AddEffect(st: LogState, e: LogEntry, sync: bool)
    requires Ready(st) && ValidEntry(e)
    ensures Added(st, e, sync) == Effect(st, [e], sync, if sync then 1 else 0)
    ensures Ready(Added(st, e, sync))
  {
    hide HeaderBytes, EncodeEntry, EntryBytes, PutEntry, Overwrite, Gap;
    AddedAtEnd(st, e, sync);
    AddedValid(st, e, sync);
    var bytes := st.bytes + EntryBytes(|st.bytes|, st.bs, e);
    assert [e][1..] == [];
    assert WriteAll(bytes, st.bs, []) == bytes;
    assert WriteAll(st.bytes, st.bs, [e]) == bytes;
  }

  lemma EffectConcat(st: LogState, es: seq<LogEntry>, n1: bool, s1: nat, fs: seq<LogEntry>, n2: bool, s2: nat)
    requires AllValid(es) && AllValid(fs)
    ensures AllValid(es + fs)
    ensures Effect(Effect(st, es, n1, s1), fs, n2, s2) == Effect(st, es + fs, n1 || n2, s1 + s2)
  {
    hide ValidEntry, WriteAll;
    WriteAllConcat(st.bytes, st.bs, es, fs);
  }

  ghost function SyncsOf(item: Item): nat {
    if NeedsSync(item) then 1 else 0
  }

  /** Main result on nested transactions. Whatever the items, running them
      appends exactly their remaining entries; an aborted transaction leaves the
      file, the position and the stack as they were. Inside a transaction no
      sync happens; outside, each item syncs once exactly when it contains an
      entry that requires sync and lies in no aborted transaction. */
  lemma {:induction false} NestedRun(st: LogState, items: seq<Item>)
    requires Ready(st) && ValidItems(items)
    ensures RunOps(st, AllOps(items)) == Effect(st, AllRemaining(items), SomeNeedSync(items), SyncCount(items))
    ensures Ready(RunOps(st, AllOps(items)))
    decreases items, 1
  {
    hide Ready, Effect, NeedsSync, RunOps, Ops, Remaining;
    if |items| == 0 {
      NoEffect(st);
    } else {
      ItemRun(st, items[0]);
      RunConcat(st, Ops(items[0]), AllOps(items[1..]));
      var st1 := RunOps(st, Ops(items[0]));
      assert ValidState(st1);
      NestedRun(st1, items[1..]);
      EffectConcat(st, Remaining(items[0]), NeedsSync(items[0]), SyncsOf(items[0]),
                   AllRemaining(items[1..]), SomeNeedSync(items[1..]), SyncCount(items[1..]));
      SomeNeedSyncSplit(items);
    }
  }

  lemma NoEffect(st: LogState)
    requires Ready(st)
    ensures RunOps(st, []) == st == Effect(st, [], false, 0)
    ensures ValidState(st)
  {
    assert WriteAll(st.bytes, st.bs, []) == st.bytes;
  }

  lemma {:induction false} ItemRun(st: LogState, item: Item)
    requires Ready(st) && ValidItem(item)
    ensures ValidState(st)
    ensures RunOps(st, Ops(item)) == Effect(st, Remaining(item), NeedsSync(item), SyncsOf(item))
    ensures Ready(RunOps(st, Ops(item)))
    decreases item, 0
  {
    match item
    case Plain(e, sync) =>
      hide Added, Effect;
      AddEffect(st, e, sync);
      RunOne(st, Add(e, sync));
    case Nested(body, commits) =>
      hide Added, Effect, Ready, HasHeader;
      var last := if commits then Commit else Abort;
      BeginEffect(st);
      RunOne(st, Begin);
      var st1 := Step(st, Begin);
      NestedRun(st1, body);
      var st2 := RunOps(st1, AllOps(body));
      RunConcat(st, [Begin], AllOps(body));
      RunConcat(st, [Begin] + AllOps(body), [last]);
      RunOne(st2, last);
      CloseEffect(st, AllRemaining(body), SomeNeedSync(body), SyncCount(body), commits);
  }

  /** Beginning a transaction writes its marker and pushes its begin offset. */
  ghost function Opened(st: LogState): LogState {
    var s := Effect(st, [Marker(TRANSACTION_BEGIN)], false, 0);
    s.(inTransaction := s.inTransaction + 1, stack := s.stack + [TransInfo(|st.bytes|, false)])
  }

  lemma BeginEffect(st: LogState)
    requires Ready(st)
    ensures ValidState(st) && Step(st, Begin) == Opened(st) && Ready(Opened(st))
  {
    hide Added, HeaderBytes, Effect, HasHeader;
    AddEffect(st, Marker(TRANSACTION_BEGIN), false);
    StepValid(st, Begin);
  }

  lemma CloseEffect(st: LogState, es: seq<LogEntry>, needed: bool, syncs: nat, commits: bool)
    requires Ready(st) && AllValid(es)
    requires Ready(Effect(Opened(st), es, needed, syncs))
    ensures AllValid([Marker(TRANSACTION_BEGIN)] + es + [Marker(TRANSACTION_COMMIT)])
    ensures var st2 := Effect(Opened(st), es, needed, syncs);
            var closed := Step(st2, if commits then Commit else Abort);
            && Ready(closed)
            && closed == if commits
                         then Effect(st, [Marker(TRANSACTION_BEGIN)] + es + [Marker(TRANSACTION_COMMIT)],
                                     needed, if needed then 1 else 0)
                         else Effect(st, [], false, 0)
  {
    hide Effect, Ready, Step, Opened;
    if commits {
      CommitEffect(st, es, needed, syncs);
    } else {
      AbortEffect(st, es, needed, syncs);
    }
  }

  /** Inside the transaction just opened, with a sync noted or not. */
  lemma InsideState(st: LogState, es: seq<LogEntry>, needed: bool, syncs: nat)
    requires Ready(st) && AllValid(es)
    ensures AllValid([Marker(TRANSACTION_BEGIN)] + es)
    ensures var st2 := Effect(Opened(st), es, needed, syncs);
            var bytes := WriteAll(st.bytes, st.bs, [Marker(TRANSACTION_BEGIN)] + es);
            st2 == st.(bytes := bytes, pos := |bytes|, inTransaction := st.inTransaction + 1,
                       stack := st.stack + [TransInfo(|st.bytes|, needed)])
  {
    hide WriteAll, HasHeader;
    WriteAllConcat(st.bytes, st.bs, [Marker(TRANSACTION_BEGIN)], es);
    assert AllValid([Marker(TRANSACTION_BEGIN)]);
    var top := st.stack + [TransInfo(|st.bytes|, false)];
    assert MarkTop(top) == st.stack + [TransInfo(|st.bytes|, true)];
  }

  lemma AbortEffect(st: LogState, es: seq<LogEntry>, needed: bool, syncs: nat)
    requires Ready(st) && AllValid(es)
    requires Ready(Effect(Opened(st), es, needed, syncs))
    ensures AllValid([Marker(TRANSACTION_BEGIN)] + es + [Marker(TRANSACTION_COMMIT)])
    ensures Step(Effect(Opened(st), es, needed, syncs), Abort) == Effect(st, [], false, 0)
    ensures Ready(Effect(st, [], false, 0))
  {
    hide HasHeader, Opened, WriteAll, EncodeEntry;
    InsideState(st, es, needed, syncs);
    WriteAllGrows(st.bytes, st.bs, [Marker(TRANSACTION_BEGIN)] + es);
    NoEffect(st);
    var st2 := Effect(Opened(st), es, needed, syncs);
    hide Effect;
    assert Popped(st2).stack == st.stack;
  }

  lemma CommitEffect(st: LogState, es: seq<LogEntry>, needed: bool, syncs: nat)
    requires Ready(st) && AllValid(es)
    requires Ready(Effect(Opened(st), es, needed, syncs))
    ensures AllValid([Marker(TRANSACTION_BEGIN)] + es + [Marker(TRANSACTION_COMMIT)])
    ensures Step(Effect(Opened(st), es, needed, syncs), Commit)
         == Effect(st, [Marker(TRANSACTION_BEGIN)] + es + [Marker(TRANSACTION_COMMIT)], needed, if needed then 1 else 0)
    ensures Ready(Step(Effect(Opened(st), es, needed, syncs), Commit))
  {
    hide HasHeader, Opened, Added, WriteAll;
    var b, c := Marker(TRANSACTION_BEGIN), Marker(TRANSACTION_COMMIT);
    InsideState(st, es, needed, syncs);
    var st2 := Effect(Opened(st), es, needed, syncs);
    var p := Popped(st2);
    assert p.stack == st.stack;
    AddEffect(p, c, needed);
    WriteAllConcat(st.bytes, st.bs, [b] + es, [c]);
  }

  /** An aborted transaction, whatever was done inside it, restores the file as
      it was at its begin, except that the header no longer claims it is synced. */
  lemma AbortRestoresTheFile(st: LogState, body: seq<Item>)
    requires ValidState(st) && st.pos == |st.bytes| && ValidItems(body)
    ensures RunOps(st, Ops(Nested(body, false))) == Cleared(st)
  {
    hide HasHeader, Effect, HeaderBytes, Added;
    var c := Cleared(st);
    ClearedValid(st);
    ItemRun(c, Nested(body, false));
    NoEffect(c);
    StepClears(st, Begin);
    var ops := Ops(Nested(body, false));
    assert ops[0] == Begin;
  }

  /** The first entry added clears the flag before anything else happens. */
  lemma StepClears(st: LogState, op: Op)
    requires ValidState(st) && ValidOp(op) && (op.Begin? || op.Add?)
    ensures ValidState(Cleared(st)) && Step(st, op) == Step(Cleared(st), op)
  {
    hide HeaderBytes, PutEntry, EncodeEntry;
    ClearedValid(st);
  }

  // ----- inside a transaction -----

  /** One operation after which a transaction is still open forces nothing to disk. */
  lemma StepSyncs(st: LogState, op: Op)
    requires ValidState(st) && ValidOp(op) && Step(st, op).inTransaction > 0
    requires st.inTransaction > 0 || op.Begin?
    ensures Step(st, op).diskSyncs == st.diskSyncs
  {
    hide HasHeader, HeaderBytes, PutEntry, EncodeEntry;
  }

  /** However its transactions are nested, and whether they are ever closed, a run
      that stays inside a transaction forces nothing to disk. */
  lemma {:induction false} NoSyncInside(st: LogState, ops: seq<Op>)
    requires ValidState(st) && ValidOps(ops) && st.inTransaction > 0 && StaysOpen(st, ops)
    ensures RunOps(st, ops).diskSyncs == st.diskSyncs
    decreases |ops|
  {
    if |ops| > 0 {
      hide Step, ValidState;
      StepValid(st, ops[0]);
      StepSyncs(st, ops[0]);
      NoSyncInside(Step(st, ops[0]), ops[1..]);
    }
  }

  /** Nor does the BEGIN that such a run may start with. */
  lemma NoSyncBeforeCommit(st: LogState, ops: seq<Op>)
    requires ValidState(st) && ValidOps(ops) && StaysOpen(st, [Begin] + ops)
    ensures ValidOps([Begin] + ops) && RunOps(st, [Begin] + ops).diskSyncs == st.diskSyncs
  {
    assert ([Begin] + ops)[0] == Begin && ([Begin] + ops)[1..] == ops;
    hide Step, ValidState;
    StepValid(st, Begin);
    StepSyncs(st, Begin);
    NoSyncInside(Step(st, Begin), ops);
  }

  // ----- the sync flag over a run -----

  /** Operation j of a run writes an entry: a commit does inside a transaction. */
  ghost predicate Writes(st: LogState, ops: seq<Op>, j: nat)
    requires ValidState(st) && ValidOps(ops) && j < |ops|
  {
    ops[j].Begin? || ops[j].Add? || (ops[j].Commit? && RunOps(st, ops[..j]).inTransaction > 0)
  }

  /** After any run the log, and its header, claim that the file is synced if and only
      if no entry has been written since the last sync, or since a start at which
      they claimed it. */
  lemma {:induction false} SyncedIff(st: LogState, ops: seq<Op>)
    requires ValidState(st) && ValidOps(ops)
    ensures var r := RunOps(st, ops);
            && HasHeader(r.bytes, r.startTime, r.synced, r.bs)
            && (r.synced <==>
                  || (st.synced && forall j :: 0 <= j < |ops| ==> !Writes(st, ops, j))
                  || exists i :: 0 <= i < |ops| && ops[i].SyncLog? && forall j :: i < j < |ops| ==> !Writes(st, ops, j))
    decreases |ops|
  {
    hide Step, HasHeader;
    if |ops| > 0 {
      var n := |ops| - 1;
      var front, last := ops[..n], ops[n];
      assert ops == front + [last];
      RunConcat(st, front, [last]);
      var before := RunOps(st, front);
      RunOne(before, last);
      StepFlag(before, last);
      SyncedIff(st, front);
      hide RunOps;
      forall j | 0 <= j < n
        ensures Writes(st, ops, j) <==> Writes(st, front, j)
      {
        assert front[..j] == ops[..j];
      }
      if before.synced && !Writes(st, ops, n) {
        if i: int :| 0 <= i < n && front[i].SyncLog? && forall j :: i < j < n ==> !Writes(st, front, j) {
          assert ops[i].SyncLog?;
        }
      } else if i: int :| 0 <= i < n && ops[i].SyncLog? && forall j :: i < j <= n ==> !Writes(st, ops, j) {
        assert front[i].SyncLog?;
      }
    }
  }
}
