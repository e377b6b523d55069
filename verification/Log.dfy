/** The open log object: its methods change the file and the transaction stack
    in place, and each is proved to take the step of LogTransactions. */
module Log {
  import opened LogFormat
  import opened LogReader
  import opened LogFile
  import opened LogDelete
  import opened LogExecute
  import opened LogTransactions
  import opened LogReset

  datatype OpenMode = ForReading | ForWriting | ForAppending

  datatype OpenError = ZeroBlockSize | BlockTooSmall | UnreadableHeader | BadMagic | BlockSizeMismatch

  /** A file is either given a header or its header is read and checked. */
  datatype OpenResult =
    | Refused(error: OpenError)
    | Opened(bytes: seq<byte>, pos: nat, startTime: nat, synced: bool, truncateOffset: nat)

  function OpenSpec(bytes: seq<byte>, mode: OpenMode, bs: BlockSize, now: nat): OpenResult
    requires ValidTime(now)
  {
    if |bytes| == 0 && mode != ForReading then
      if bs == 0 then Refused(ZeroBlockSize)
      else Opened(HeaderBytes(now, true, bs), HEADER_ENTRY_SIZE, now, true, 0)
    else if bs == 0 then Refused(ZeroBlockSize)
    else if bs < HEADER_ENTRY_SIZE then Refused(BlockTooSmall)
    else
      match ReadAt(bytes, 0, bs)
      case Eof(_) => Refused(UnreadableHeader)
      case Bad => Refused(UnreadableHeader)
      case Got(e, _, next) =>
        if |e.data| == 0 || |e.data[0]| < 12 then Refused(UnreadableHeader)
        else if Number(e.data[0][..4]) != MAGIC_NUMBER then Refused(BadMagic)
        else if Number(e.data[0][8..12]) != bs then Refused(BlockSizeMismatch)
        else Opened(bytes, if mode == ForAppending then |bytes| else next, e.time,
                    Number(e.data[0][4..8]) % 2 == 1, |bytes|)
  }

  class LogObject {
    const file: File
    const blockSize: BlockSize
    const readOnly: bool
    var truncateOffset: nat
    var startTime: nat
    var isSynced: bool
    var isExecuting: bool
    var inTransaction: int
    var stack: seq<TransInfo>
    var diskSyncs: nat

    constructor (f: File, bs: BlockSize, mode: OpenMode, time: nat, synced: bool, truncate: nat)
      ensures State() == LogState(f.bytes, f.pos, bs, time, synced, 0, [], 0)
      ensures file == f && readOnly == (mode == ForReading) && truncateOffset == truncate && !isExecuting
    {
      file, blockSize, readOnly := f, bs, mode == ForReading;
      startTime, isSynced, isExecuting, truncateOffset := time, synced, false, truncate;
      inTransaction, stack, diskSyncs := 0, [], 0;
    }

    ghost function State(): LogState
      reads this, file
    {
      LogState(file.bytes, file.pos, blockSize, startTime, isSynced, inTransaction, stack, diskSyncs)
    }

    /** A log opened for reading never gets into a transaction. */
    ghost predicate Valid()
      reads this, file
    {
      ValidState(State()) && (readOnly ==> inTransaction == 0)
    }

    /** jr_LogSetFileSyncBit: rewrites the header entry in place. */
    method SetFileSyncBit(bit: bool) returns (ok: bool)
      requires Valid()
      modifies this`isSynced, file
      ensures ok == !readOnly
      ensures State() == if ok then WithSyncBit(old(State()), bit) else old(State())
    {
      if readOnly {
        return false;
      }
      hide HeaderBytes, PutEntry, EncodeEntry, ReadAt, HeaderData;
      ghost var bytes := file.bytes;
      HeaderIsRead(bytes, startTime, isSynced, blockSize, blockSize);
      var oldOffset := file.pos;
      file.Seek(0);
      var read := ReadEntryFromFile(file, blockSize);
      var data := read.entry.data[0];
      var patched := data[..4] + BigEndian(4, if bit then 1 else 0) + data[8..];
      HeaderPatched(isSynced, bit, blockSize);
      var e := read.entry.(data := [patched]);
      assert e == HeaderEntry(startTime, bit, blockSize);
      file.Seek(0);
      HeaderRewritten(bytes, startTime, bit, blockSize);
      AddEntryToFile(file, e, blockSize);
      isSynced := bit;
      file.Seek(oldOffset);
      ok := true;
    }

    /** jr_LogAddEntry. A log that is being replayed takes no entries, but no
        longer claims to be synced. */
    method AddEntry(e: LogEntry, requiresSync: bool) returns (ok: bool)
      requires Valid() && ValidEntry(e)
      modifies this`isSynced, this`stack, this`diskSyncs, file
      ensures ok == (!readOnly && !isExecuting)
      ensures State() == if ok then Added(old(State()), e, requiresSync) else if readOnly then old(State()) else Cleared(old(State()))
      ensures Valid()
    {
      if readOnly {
        return false;
      }
      AddedValid(State(), e, requiresSync);
      ClearedValid(State());
      hide HeaderBytes, PutEntry, EncodeEntry, HasHeader;
      if isSynced {
        var cleared := SetFileSyncBit(false);
      }
      if isExecuting {
        return false;
      }
      AddEntryToFile(file, e, blockSize);
      if requiresSync {
        if inTransaction > 0 {
          var top := stack[|stack| - 1];
          stack := stack[|stack| - 1 := top.(requiresSync := true)];
        } else {
          diskSyncs := diskSyncs + 1;
        }
      }
      ok := true;
    }

    /** jr_LogTransactionBegin. */
    method TransactionBegin() returns (ok: bool)
      requires Valid()
      modifies this`isSynced, this`stack, this`diskSyncs, this`inTransaction, file
      ensures ok == (!readOnly && !isExecuting)
      ensures State() == if ok then Step(old(State()), Begin) else if readOnly then old(State()) else Cleared(old(State()))
      ensures Valid()
    {
      StepValid(State(), Begin);
      hide Added, HasHeader, Cleared;
      var offset := file.pos;
      ok := AddEntry(Marker(TRANSACTION_BEGIN), false);
      if ok {
        inTransaction := inTransaction + 1;
        stack := stack + [TransInfo(offset, false)];
      }
    }

    static lemma CommitIs(st: LogState)
      requires ValidState(st)
      ensures st.inTransaction == |st.stack| && ValidEntry(Marker(TRANSACTION_COMMIT))
      ensures st.inTransaction > 0 ==> ValidState(Popped(st))
      ensures st.inTransaction > 0 ==>
        Step(st, Commit) == Added(Popped(st), Marker(TRANSACTION_COMMIT), st.stack[|st.stack| - 1].requiresSync)
      ensures st.inTransaction <= 0 ==> Step(st, Commit) == st
    {
      hide Added, HasHeader;
    }

    static lemma PoppedValid(st: LogState)
      requires ValidState(st) && |st.stack| > 0
      ensures ValidState(Popped(st)) && Popped(st).stack == st.stack[..|st.stack| - 1]
    {
    }

    /** Leaving the innermost transaction. */
    method PopTransaction() returns (info: TransInfo)
      requires Valid() && |stack| > 0
      modifies this`inTransaction, this`stack
      ensures Valid() && State() == Popped(old(State()))
      ensures info == old(stack[|stack| - 1])
    {
      PoppedValid(State());
      inTransaction := inTransaction - 1;
      info := stack[|stack| - 1];
      stack := stack[..|stack| - 1];
    }

    /** jr_LogTransactionCommit; the stack is popped before the commit entry is
        added, so that the entry belongs to the outer transaction. When the entry
        is refused the transaction is cut off instead. */
    method TransactionCommit() returns (ok: bool)
      requires Valid()
      modifies this`isSynced, this`stack, this`diskSyncs, this`inTransaction, file
      ensures ok == (old(inTransaction) > 0 && !isExecuting)
      ensures State() == if isExecuting && old(inTransaction) > 0 then Step(Cleared(old(State())), Abort)
                         else Step(old(State()), Commit)
      ensures Valid()
    {
      ghost var st := State();
      RefusedCommit(st);
      hide Step, Added, HasHeader, ValidState, Popped, ValidEntry, Cleared;
      CommitIs(st);
      if inTransaction <= 0 {
        return false;
      }
      var info := PopTransaction();
      ok := AddEntry(Marker(TRANSACTION_COMMIT), info.requiresSync);
      if !ok {
        TruncateAt(info.beginOffset);
      }
    }

    /** jr_LogTruncate. */
    method TruncateAt(offset: nat)
      modifies file
      ensures State() == old(State()).(bytes := Truncated(old(file.bytes), offset), pos := offset)
    {
      file.Truncate(offset);
      file.Seek(offset);
    }

    static lemma RefusedCommit(st: LogState)
      requires ValidState(st)
      ensures ValidState(Cleared(st))
      ensures st.inTransaction > 0 ==>
        (var info, c := st.stack[|st.stack| - 1], Cleared(Popped(st));
         Step(Cleared(st), Abort) == c.(bytes := Truncated(c.bytes, info.beginOffset), pos := info.beginOffset))
      ensures ValidState(Step(Cleared(st), Abort))
    {
      hide HeaderBytes;
      ClearedValid(st);
      StepValid(Cleared(st), Abort);
    }

    /** jr_LogTransactionAbort. */
    method TransactionAbort() returns (ok: bool)
      requires Valid()
      modifies this`stack, this`inTransaction, file
      ensures ok == (old(inTransaction) > 0)
      ensures State() == Step(old(State()), Abort)
      ensures Valid()
    {
      StepValid(State(), Abort);
      if inTransaction <= 0 {
        return false;
      }
      inTransaction := inTransaction - 1;
      var info := stack[|stack| - 1];
      stack := stack[..|stack| - 1];
      TruncateAt(info.beginOffset);
      ok := true;
    }

    /** jr_LogSync. */
    method Sync() returns (ok: bool)
      requires Valid()
      modifies this`isSynced, file
      ensures ok == !readOnly
      ensures State() == if ok then Step(old(State()), SyncLog) else old(State())
      ensures Valid()
      ensures ok ==> isSynced && HasHeader(file.bytes, startTime, true, blockSize) && file.pos == old(file.pos)
      ensures |file.bytes| == old(|file.bytes|) && file.bytes[HEADER_ENTRY_SIZE..] == old(file.bytes[HEADER_ENTRY_SIZE..])
    {
      hide HeaderBytes;
      StepValid(State(), SyncLog);
      SyncSetsTheFlag(State());
      ok := SetFileSyncBit(true);
    }

    /** jr_LogExecuteEntries on this log. A replay that starts behind the header
        leaves the log as it needs to be. */
    method Execute(style: Style, start: nat, stop: nat, wantsStop: seq<Call> -> bool) returns (r: ReplayResult)
      requires Valid()
      modifies this`isExecuting, file
      ensures var p := Replay(blockSize, style, stop, truncateOffset, wantsStop);
              var spec := ReplaySpec(old(file.bytes), p, start);
              && r.ok == spec.ok && r.trace == spec.trace && (r.ok ==> r.offset == spec.offset)
              && file.bytes == spec.bytes
              && file.pos == if Truncates(old(file.bytes), p, start) then |file.bytes| else old(file.pos)
      ensures !isExecuting
      ensures start >= HEADER_ENTRY_SIZE ==> Valid()
    {
      hide ReplaySpec, HeaderBytes, Truncates;
      ghost var p, bytes := Replay(blockSize, style, stop, truncateOffset, wantsStop), file.bytes;
      isExecuting := true;
      r := ExecuteEntries(file, Replay(blockSize, style, stop, truncateOffset, wantsStop), start);
      isExecuting := false;
      if start >= HEADER_ENTRY_SIZE {
        ReplayKeepsFront(bytes, p, start, HEADER_ENTRY_SIZE);
      }
    }

    /** jr_LogSetTruncateOffset: the file is padded to the next block boundary,
        which is where later replays stop and truncations end. */
    method SetTruncateOffset()
      requires Valid() && !readOnly
      modifies this`truncateOffset, file
      ensures State() == PaddedState(old(State())) && truncateOffset == file.pos
      ensures Valid()
    {
      hide HeaderBytes, PadFile;
      PadKeepsFront(file.bytes, file.pos, blockSize, INT_MAX, HEADER_ENTRY_SIZE);
      NextEntryOffsetIsUsed(file.pos, INT_MAX, blockSize);
      truncateOffset := AvoidBlockBoundary(file, blockSize, INT_MAX);
    }

    /** jr_LogSetStartTime: rewrites the header entry in place. */
    method SetStartTime(time: nat) returns (ok: bool)
      requires Valid() && ValidTime(time)
      modifies this`startTime, file
      ensures ok == !readOnly
      ensures State() == if ok then WithStartTime(old(State()), time) else old(State())
      ensures ok ==> startTime == time && HasHeader(file.bytes, time, isSynced, blockSize)
      ensures Valid()
    {
      if readOnly {
        return false;
      }
      WithStartTimeValid(State(), time);
      hide HeaderBytes, PutEntry, EncodeEntry, ReadAt, HeaderData;
      ghost var bytes := file.bytes;
      HeaderIsRead(bytes, startTime, isSynced, blockSize, blockSize);
      var oldOffset := file.pos;
      file.Seek(0);
      var read := ReadEntryFromFile(file, blockSize);
      var e := read.entry.(time := time);
      assert e == HeaderEntry(time, isSynced, blockSize);
      file.Seek(0);
      HeaderRewritten(bytes, time, isSynced, blockSize);
      AddEntryToFile(file, e, blockSize);
      startTime := time;
      file.Seek(oldOffset);
      ok := true;
    }

    /** jr_LogGetResetOffset: starts a new log behind this one. */
    method GetResetOffset(time: nat) returns (offset: nat)
      requires Valid() && ValidTime(time) && !readOnly
      modifies file
      ensures offset == ResetOffset(old(State())) && State() == ResetStarted(old(State()), time)
      ensures Valid()
    {
      hide HeaderBytes, PadFile, PutEntry, HeaderData, EncodeEntry, HasHeader, NextEntryOffset;
      ResetStartedValid(State(), time);
      offset := AvoidBlockBoundary(file, blockSize, INT_MAX);
      AddEntryToFile(file, HeaderEntry(time, false, blockSize), blockSize);
    }

    /** jr_LogResetFromOffset: what is in front of the offset is cut off, header
        included. */
    method ResetFromOffset(newTime: nat, offset: nat) returns (status: Status)
      requires Valid() && ValidTime(newTime)
      modifies this`startTime, file
      ensures readOnly ==> status == GenericError && State() == old(State())
      ensures !readOnly ==> ResetResult(status, State()) == ResetSpec(old(State()), newTime, offset)
    {
      hide HeaderBytes, DeleteSpec;
      ghost var st := State();
      var currTime := startTime;
      var ok := SetStartTime(newTime);
      if !ok {
        return GenericError;
      }
      WithStartTimeValid(st, newTime);
      DeleteAcceptedIff(State().bytes, blockSize, 0, offset);
      status := DeleteRange(file, blockSize, 0, offset);
      if status == GenericError {
        ok := SetStartTime(currTime);
      }
    }
  }

  lemma HeaderPatched(was: bool, bit: bool, bs: BlockSize)
    ensures var d := HeaderData(was, bs);
            d[..4] + BigEndian(4, if bit then 1 else 0) + d[8..] == HeaderData(bit, bs)
  {
    hide BigEndian;
  }

  lemma HeaderRewritten(bytes: seq<byte>, time: nat, bit: bool, bs: BlockSize)
    requires ValidTime(time) && |bytes| >= HEADER_ENTRY_SIZE && bs > 0
    ensures ValidEntry(HeaderEntry(time, bit, bs))
    ensures PutEntry(bytes, 0, bs, HeaderEntry(time, bit, bs)) == HeaderBytes(time, bit, bs) + bytes[HEADER_ENTRY_SIZE..]
  {
    hide HeaderData, PutEntry, EncodeEntry;
    var e := HeaderEntry(time, bit, bs);
    assert |HeaderBytes(time, bit, bs)| == HEADER_ENTRY_SIZE;
    PutInPlace(bytes, 0, bs, e);
    assert bytes[..0] + EncodeEntry(e) == EncodeEntry(e);
  }

  /** jr_LogOpen on a file that could be opened and locked. */
  method OpenLog(file: File, mode: OpenMode, bs: BlockSize, now: nat) returns (r: OpenResult, log: LogObject?)
    requires ValidTime(now)
    modifies file
    ensures r == OpenSpec(old(file.bytes), mode, bs, now)
    ensures r.Refused? <==> log == null
    ensures r.Refused? ==> file.bytes == old(file.bytes)
    ensures r.Opened? ==> fresh(log) && log.file == file && log.truncateOffset == r.truncateOffset
    ensures r.Opened? ==> log.readOnly == (mode == ForReading) && !log.isExecuting
    ensures r.Opened? ==> log.State() == LogState(r.bytes, r.pos, bs, r.startTime, r.synced, 0, [], 0)
  {
    hide HeaderBytes, EncodeEntry, ReadAt, HeaderData;
    log := null;
    file.SeekEnd();
    var fileSize := file.pos;
    if fileSize == 0 && mode != ForReading {
      if bs == 0 {
        return Refused(ZeroBlockSize), null;
      }
      FirstHeader(file.bytes, now, bs);
      AddEntryToFile(file, HeaderEntry(now, true, bs), bs);
      r := Opened(file.bytes, file.pos, now, true, fileSize);
    } else {
      file.Seek(0);
      if bs == 0 {
        return Refused(ZeroBlockSize), null;
      }
      if bs < HEADER_ENTRY_SIZE {
        return Refused(BlockTooSmall), null;
      }
      var read := ReadEntryFromFile(file, bs);
      if !read.Got? {
        return Refused(UnreadableHeader), null;
      }
      var e := read.entry;
      if |e.data| == 0 || |e.data[0]| < 12 {
        return Refused(UnreadableHeader), null;
      }
      if Number(e.data[0][..4]) != MAGIC_NUMBER {
        return Refused(BadMagic), null;
      }
      if Number(e.data[0][8..12]) != bs {
        return Refused(BlockSizeMismatch), null;
      }
      if mode == ForAppending {
        file.SeekEnd();
      }
      r := Opened(file.bytes, file.pos, e.time, Number(e.data[0][4..8]) % 2 == 1, fileSize);
    }
    log := new LogObject(file, bs, mode, r.startTime, r.synced, r.truncateOffset);
  }

  lemma FirstHeader(bytes: seq<byte>, now: nat, bs: BlockSize)
    requires |bytes| == 0 && ValidTime(now) && bs > 0
    ensures ValidEntry(HeaderEntry(now, true, bs))
    ensures PutEntry(bytes, 0, bs, HeaderEntry(now, true, bs)) == HeaderBytes(now, true, bs)
    ensures |EncodeEntry(HeaderEntry(now, true, bs))| == HEADER_ENTRY_SIZE
    ensures NextEntryOffset(0, HEADER_ENTRY_SIZE, bs) == 0
  {
    hide HeaderData, EncodeEntry;
    PutAtEnd(bytes, bs, HeaderEntry(now, true, bs));
    assert |HeaderBytes(now, true, bs)| == HEADER_ENTRY_SIZE;
    var s := EncodeEntry(HeaderEntry(now, true, bs));
    assert bytes + ([] + s) == s;
  }

  /** Whatever the header and entries that follow it, an append-open accepts the
      block size the header records exactly when it is at least the size of the
      header entry; creating a log accepts every size but 0. */
  lemma ReopenAcceptedIff(bytes: seq<byte>, mode: OpenMode, time: nat, synced: bool, recorded: BlockSize, bs: BlockSize, now: nat)
    requires ValidTime(now) && HasHeader(bytes, time, synced, recorded) && recorded > 0
    ensures OpenSpec(bytes, mode, bs, now).Opened? <==> bs == recorded && bs >= HEADER_ENTRY_SIZE
    ensures OpenSpec(bytes, mode, bs, now).Opened? ==>
              OpenSpec(bytes, mode, bs, now)
              == Opened(bytes, if mode == ForAppending then |bytes| else HEADER_ENTRY_SIZE, time, synced, |bytes|)
  {
    hide EncodeEntry, ReadAt, HeaderBytes;
    if bs >= HEADER_ENTRY_SIZE {
      HeaderIsRead(bytes, time, synced, recorded, bs);
      HeaderFields(synced, recorded);
    }
  }

  /** A file that is not empty, or opened for reading, is opened exactly when its first
      entry can be read and begins with data of 12 bytes or more: the magic number, the
      sync flag and the block size, which has to be the one given and no smaller than
      the header entry of a log. Nothing is written. */
  lemma OpenedIff(bytes: seq<byte>, mode: OpenMode, bs: BlockSize, now: nat)
    requires ValidTime(now) && (bytes != [] || mode == ForReading)
    ensures var r, first := OpenSpec(bytes, mode, bs, now), ReadAt(bytes, 0, bs);
            && (r.Opened? <==>
                  && bs >= 32 && first.Got? && |first.entry.data| > 0 && |first.entry.data[0]| >= 12
                  && Word(first.entry.data[0], 0) == 0x5a5b5a5b && Word(first.entry.data[0], 8) == bs)
            && (r.Opened? ==>
                  && r.bytes == bytes && r.truncateOffset == |bytes| && r.startTime == first.entry.time
                  && r.pos == (if mode == ForAppending then |bytes| else first.next)
                  && (r.synced <==> Word(first.entry.data[0], 4) % 2 == 1))
  {
    hide ReadAt, Number, Word;
    var first := ReadAt(bytes, 0, bs);
    if first.Got? && |first.entry.data| > 0 && |first.entry.data[0]| >= 12 {
      WordNumber(first.entry.data[0], 0);
      WordNumber(first.entry.data[0], 4);
      WordNumber(first.entry.data[0], 8);
    }
  }

  lemma WordNumber(s: seq<byte>, at: nat)
    requires at + 4 <= |s|
    ensures Number(s[at..at + 4]) == Word(s, at)
  {
    LastWord(s[at..at + 4]);
    assert s[at..at + 4][..0] == [];
  }

  lemma HeaderFields(synced: bool, bs: BlockSize)
    ensures var d := HeaderData(synced, bs);
            Number(d[..4]) == MAGIC_NUMBER && Number(d[4..8]) == (if synced then 1 else 0) && Number(d[8..12]) == bs
  {
    hide BigEndian, Number;
    PowersOf256();
    var d := HeaderData(synced, bs);
    var bit := if synced then 1 else 0;
    NumberRoundTrip(4, MAGIC_NUMBER);
    NumberRoundTrip(4, bit);
    NumberRoundTrip(4, bs);
    assert d[..4] == BigEndian(4, MAGIC_NUMBER);
    assert d[4..8] == BigEndian(4, bit);
    assert d[8..12] == BigEndian(4, bs);
  }
}
