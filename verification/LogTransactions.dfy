/** Nested transactions on an open log: its header, the states it goes through, and
    what one operation makes of a state. */
module LogTransactions {
  import opened LogFormat
  import opened LogReader
  import opened LogFile

  /** Size of the log header entry at offset 0, jr_LogHeaderEntryLength. */
  const HEADER_ENTRY_SIZE: nat := 32

  /** One open transaction. */
  datatype TransInfo = TransInfo(beginOffset: nat, requiresSync: bool)

  /** An open log: file contents and position, the fields of jr_LogType, and
      how often the file has been forced to disk. */
  datatype LogState = LogState(
    bytes: seq<byte>, pos: nat, bs: BlockSize, startTime: nat, synced: bool,
    inTransaction: int, stack: seq<TransInfo>, diskSyncs: nat)

  // ----- the log header entry -----

  predicate ValidTime(t: nat) {
    t < 0x1_0000_0000_0000_0000
  }

  function HeaderData(synced: bool, bs: BlockSize): (s: seq<byte>)
    ensures |s| == 12
  {
    BigEndian(4, MAGIC_NUMBER) + BigEndian(4, if synced then 1 else 0) + BigEndian(4, bs)
  }

  function HeaderEntry(time: nat, synced: bool, bs: BlockSize): LogEntry {
    LogEntry(HEADER_ENTRY, time, [], [HeaderData(synced, bs)])
  }

  function HeaderBytes(time: nat, synced: bool, bs: BlockSize): (s: seq<byte>)
    requires ValidTime(time)
    ensures |s| == HEADER_ENTRY_SIZE
  {
    var e := HeaderEntry(time, synced, bs);
    assert Flatten(e.data) == e.data[0] + Flatten(e.data[1..]);
    EncodeEntry(e)
  }

  /** The header of a log file: an entry of type -1 with the start time and one piece
      of data, which holds a second magic number, the sync flag and the block size. */
  lemma LogHeaderLayout(time: nat, synced: bool, bs: BlockSize)
    requires ValidTime(time)
    ensures var s := HeaderBytes(time, synced, bs);
            && Word(s, 0) == Word(s, 20) == 0x5a5b5a5b
            && s[4] == s[5] == 0xff && s[6] == 0 && s[7] == 1
            && 0x1_0000_0000 * Word(s, 8) + Word(s, 12) == time
            && Word(s, 16) == 12
            && Word(s, 24) == (if synced then 1 else 0)
            && Word(s, 28) == bs
  {
    hide EncodeEntry, BigEndian, Word;
    var e, s := HeaderEntry(time, synced, bs), HeaderBytes(time, synced, bs);
    EntryLayout(e);
    assert e.data[..0] == [] && Word(s, 16 + 4 * 0) == |e.data[0]|;
    assert s[20..32] == HeaderData(synced, bs);
    var d, bit := HeaderData(synced, bs), if synced then 1 else 0;
    assert s[20..24] == d[0..4] == BigEndian(4, MAGIC_NUMBER);
    assert s[24..28] == d[4..8] == BigEndian(4, bit);
    assert s[28..32] == d[8..12] == BigEndian(4, bs);
    WordIs(s, 20, MAGIC_NUMBER);
    WordIs(s, 24, bit);
    WordIs(s, 28, bs);
  }

  /** The entries that begin and commit a transaction are a bare header, of type -10
      and -11. */
  lemma MarkerLayout()
    ensures var b, c := EncodeEntry(Marker(TRANSACTION_BEGIN)), EncodeEntry(Marker(TRANSACTION_COMMIT));
            && |b| == |c| == 16 && Word(b, 0) == Word(c, 0) == 0x5a5b5a5b
            && b[4] == c[4] == 0xff && b[5] == 0xf6 && c[5] == 0xf5
            && forall i :: 6 <= i < 16 ==> b[i] == c[i] == 0
  {
    hide EncodeEntry;
    EntryLayout(Marker(TRANSACTION_BEGIN));
    EntryLayout(Marker(TRANSACTION_COMMIT));
    assert Flatten([]) == [];
  }

  predicate HasHeader(bytes: seq<byte>, time: nat, synced: bool, bs: BlockSize) {
    ValidTime(time) && HEADER_ENTRY_SIZE <= |bytes| && bytes[..HEADER_ENTRY_SIZE] == HeaderBytes(time, synced, bs)
  }

  /** The header is found whatever block size the reader assumes. */
  lemma HeaderIsRead(bytes: seq<byte>, time: nat, synced: bool, recorded: BlockSize, bs: BlockSize)
    requires HasHeader(bytes, time, synced, recorded) && bs >= ENTRY_HEADER_SIZE
    ensures ReadAt(bytes, 0, bs) == Got(HeaderEntry(time, synced, recorded), 0, HEADER_ENTRY_SIZE)
  {
    hide EncodeEntry, EntryAt, DecodeHeader;
    var e := HeaderEntry(time, synced, recorded);
    assert bytes[0..HEADER_ENTRY_SIZE] == EncodeEntry(e);
    EncodedEntryIsRead(bytes, 0, e);
  }

  predicate ValidState(st: LogState) {
    && HEADER_ENTRY_SIZE <= st.bs
    && HEADER_ENTRY_SIZE <= st.pos
    && HasHeader(st.bytes, st.startTime, st.synced, st.bs)
    && st.inTransaction == |st.stack|
    && forall i :: 0 <= i < |st.stack| ==> HEADER_ENTRY_SIZE <= st.stack[i].beginOffset
  }

  // ----- the operations -----

  function WithSyncBit(st: LogState, bit: bool): LogState
    requires ValidState(st)
  {
    st.(synced := bit, bytes := HeaderBytes(st.startTime, bit, st.bs) + st.bytes[HEADER_ENTRY_SIZE..])
  }

  /** Before anything is added the header no longer claims the file is synced. */
  function Cleared(st: LogState): LogState
    requires ValidState(st)
  {
    if st.synced then WithSyncBit(st, false) else st
  }

  function MarkTop(stack: seq<TransInfo>): (r: seq<TransInfo>)
    requires |stack| > 0
    ensures |r| == |stack|
  {
    stack[|stack| - 1 := stack[|stack| - 1].(requiresSync := true)]
  }

  function Written(st: LogState, e: LogEntry): LogState
    requires ValidEntry(e)
  {
    st.(bytes := PutEntry(st.bytes, st.pos, st.bs, e),
        pos := NextEntryOffset(st.pos, |EncodeEntry(e)|, st.bs) + |EncodeEntry(e)|)
  }

  /** A sync wanted inside a transaction is left to its commit. */
  function SyncWanted(st: LogState): LogState
    requires st.inTransaction == |st.stack|
  {
    if st.inTransaction > 0 then st.(stack := MarkTop(st.stack))
    else st.(diskSyncs := st.diskSyncs + 1)
  }

  function Added(st: LogState, e: LogEntry, sync: bool): LogState
    requires ValidState(st) && ValidEntry(e)
  {
    var w := Written(Cleared(st), e);
    if sync then SyncWanted(w) else w
  }

  function Marker(kind: int): LogEntry {
    LogEntry(kind, 0, [], [])
  }

  function Popped(st: LogState): LogState
    requires |st.stack| > 0
  {
    st.(inTransaction := st.inTransaction - 1, stack := st.stack[..|st.stack| - 1])
  }

  datatype Op = Begin | Add(entry: LogEntry, sync: bool) | Commit | Abort | SyncLog

  /** Entries added by a caller: user types are positive. */
  predicate UserEntry(e: LogEntry) {
    ValidEntry(e) && e.kind > 0
  }

  predicate ValidOp(op: Op) {
    op.Add? ==> UserEntry(op.entry)
  }

  /** The effect of one operation; commit and abort outside a transaction are
      refused. */
  function Step(st: LogState, op: Op): LogState
    requires ValidState(st) && ValidOp(op)
  {
    match op
    case Begin =>
      var a := Added(st, Marker(TRANSACTION_BEGIN), false);
      a.(inTransaction := a.inTransaction + 1, stack := a.stack + [TransInfo(st.pos, false)])
    case Add(e, sync) => Added(st, e, sync)
    case Commit =>
      if st.inTransaction <= 0 then st
      else Added(Popped(st), Marker(TRANSACTION_COMMIT), st.stack[|st.stack| - 1].requiresSync)
    case Abort =>
      if st.inTransaction <= 0 then st
      else
        var begin := st.stack[|st.stack| - 1].beginOffset;
        Popped(st).(bytes := Truncated(st.bytes, begin), pos := begin)
    case SyncLog => WithSyncBit(st, true)
  }

  // ----- valid states stay valid -----

  lemma PutKeepsFront(bytes: seq<byte>, pos: nat, bs: BlockSize, e: LogEntry, n: nat)
    requires ValidEntry(e) && n <= |bytes| && n <= pos
    ensures n <= |PutEntry(bytes, pos, bs, e)| && PutEntry(bytes, pos, bs, e)[..n] == bytes[..n]
  {
    hide Overwrite, EncodeEntry, PadFile;
    var s := EncodeEntry(e);
    NextEntryOffsetIsUsed(pos, |s|, bs);
    PadKeepsFront(bytes, pos, bs, |s|, n);
    OverwriteKeepsFront(PadFile(bytes, pos, bs, |s|), NextEntryOffset(pos, |s|, bs), s, n);
  }

  lemma ClearedValid(st: LogState)
    requires ValidState(st)
    ensures ValidState(Cleared(st)) && !Cleared(st).synced
    ensures |Cleared(st).bytes| == |st.bytes|
    ensures Cleared(Cleared(st)) == Cleared(st)
  {
    hide HeaderBytes;
  }

  lemma AddedValid(st: LogState, e: LogEntry, sync: bool)
    requires ValidState(st) && ValidEntry(e)
    ensures ValidState(Added(st, e, sync)) && !Added(st, e, sync).synced
    ensures |Added(st, e, sync).stack| == |st.stack|
  {
    hide HeaderBytes, PutEntry, EncodeEntry;
    ClearedValid(st);
    var c := Cleared(st);
    PutKeepsFront(c.bytes, c.pos, c.bs, e, HEADER_ENTRY_SIZE);
    NextEntryOffsetIsUsed(c.pos, |EncodeEntry(e)|, c.bs);
  }

  lemma StepValid(st: LogState, op: Op)
    requires ValidState(st) && ValidOp(op)
    ensures ValidState(Step(st, op))
  {
    hide HeaderBytes, Added;
    match op
    case Begin => AddedValid(st, Marker(TRANSACTION_BEGIN), false);
    case Add(e, sync) => AddedValid(st, e, sync);
    case Commit =>
      if st.inTransaction > 0 {
        AddedValid(Popped(st), Marker(TRANSACTION_COMMIT), st.stack[|st.stack| - 1].requiresSync);
      }
    case Abort =>
      if st.inTransaction > 0 {
        var begin := st.stack[|st.stack| - 1].beginOffset;
        assert Truncated(st.bytes, begin)[..HEADER_ENTRY_SIZE] == st.bytes[..HEADER_ENTRY_SIZE];
      }
    case SyncLog =>
  }

  // ----- the sync flag -----

  /** A sync sets the flag in the header and in the log, and changes nothing else. */
  lemma SyncSetsTheFlag(st: LogState)
    requires ValidState(st)
    ensures var r := Step(st, SyncLog);
            && r.synced && HasHeader(r.bytes, st.startTime, true, st.bs)
            && |r.bytes| == |st.bytes| && r.bytes[HEADER_ENTRY_SIZE..] == st.bytes[HEADER_ENTRY_SIZE..]
            && r == st.(bytes := r.bytes, synced := true)
  {
    hide HeaderBytes;
  }

  /** Which operations leave the flag set, and which clear it. */
  lemma StepFlag(st: LogState, op: Op)
    requires ValidState(st) && ValidOp(op)
    ensures Step(st, op).synced <==>
              op.SyncLog? || (st.synced && !op.Begin? && !op.Add? && (op.Commit? ==> st.inTransaction == 0))
  {
    hide HeaderBytes, Added;
    match op
    case Begin => AddedValid(st, Marker(TRANSACTION_BEGIN), false);
    case Add(e, sync) => AddedValid(st, e, sync);
    case Commit =>
      if st.inTransaction > 0 {
        AddedValid(Popped(st), Marker(TRANSACTION_COMMIT), st.stack[|st.stack| - 1].requiresSync);
      }
    case Abort =>
    case SyncLog =>
  }
}
