/** A truncate offset that has been set during a run (jr_LogSetTruncateOffset): the
    padding in front of it, and the recovery that comes later. */
module LogPadding {
  import opened LogFormat
  import opened LogReader
  import opened LogFile
  import opened LogDelete
  import opened LogExecute
  import opened LogRecovery
  import opened LogTransactions
  import opened LogRuns
  import opened LogReset
  import opened LogReopen

  /** At the end of a file padding appends a pad header, if one fits. */
  lemma PadAtEnd(bytes: seq<byte>, bs: BlockSize) returns (more: seq<byte>)
    requires bs >= ENTRY_HEADER_SIZE
    ensures PadFile(bytes, |bytes|, bs, INT_MAX) == bytes + more
    ensures |bytes| % bs == 0 ==> more == []
    ensures |bytes| % bs != 0 ==>
              var space := SpaceInBlock(|bytes|, bs);
              && (space >= ENTRY_HEADER_SIZE ==> more == EncodeHeader(Header(MAGIC_NUMBER, PAD_ENTRY, 0, 0, space)))
              && (space < ENTRY_HEADER_SIZE ==> more == [])
    ensures var t := NextEntryOffset(|bytes|, INT_MAX, bs);
            |bytes| + |more| <= t && t == |bytes| + if |bytes| % bs == 0 then 0 else SpaceInBlock(|bytes|, bs)
  {
    hide EncodeHeader, Overwrite;
    more := [];
    if |bytes| % bs != 0 && SpaceInBlock(|bytes|, bs) >= ENTRY_HEADER_SIZE {
      more := EncodeHeader(Header(MAGIC_NUMBER, PAD_ENTRY, 0, 0, SpaceInBlock(|bytes|, bs)));
      OverwriteAppends(bytes, |bytes|, more);
      assert bytes + Zeros(0) + more == bytes + more;
    } else {
      assert bytes + [] == bytes;
    }
  }

  /** Behind the last entry there is nothing but padding. */
  lemma OnlyPadding(bytes: seq<byte>, bs: BlockSize, es: seq<LogEntry>)
    requires bs >= ENTRY_HEADER_SIZE && Reads(bytes, bs, HEADER_ENTRY_SIZE, es, |bytes|) && HEADER_ENTRY_SIZE <= |bytes|
    ensures var padded := PadFile(bytes, |bytes|, bs, INT_MAX);
            && |bytes| <= |padded| <= NextEntryOffset(|bytes|, INT_MAX, bs)
            && Reads(padded, bs, HEADER_ENTRY_SIZE, es, |bytes|) && ReadAt(padded, |bytes|, bs).Eof?
  {
    hide Reads, EncodeHeader, DecodeHeader, PadFile, ReadAt;
    var more := PadAtEnd(bytes, bs);
    var padded, at := bytes + more, |bytes|;
    GrowingKeepsStream(bytes, more, bs, es, |bytes|);
    SkipFrom(at, bs);
    if more == [] {
      NothingToRead(padded, at, bs);
    } else {
      var h := Header(MAGIC_NUMBER, PAD_ENTRY, 0, 0, SpaceInBlock(at, bs));
      HeaderRoundTrip(h);
      assert padded[at..at + ENTRY_HEADER_SIZE] == more;
      PadStep(padded, at, at, bs);
      NothingToRead(padded, at + h.time, bs);
    }
  }

  lemma NothingToRead(bytes: seq<byte>, at: nat, bs: BlockSize)
    requires |bytes| <= SkipShort(at, bs)
    ensures ReadAt(bytes, at, bs).Eof?
  {
  }

  /** Recovery right after the truncate offset has been set. It cuts an open
      transaction off, if it can: the truncate offset may lie behind the pad header,
      and then it cannot when the outermost transaction begins a block. */
  lemma RecoveryOfPadded(st: LogState, t: Trail, p: Replay)
    requires RunInvariant(st, t) && p.bs == st.bs && p.truncateOffset == ResetOffset(st)
    requires StopsByTruncateOffset(p, |st.bytes|)
    ensures var bytes := PaddedState(st).bytes;
            var r := ReplaySpec(bytes, p, HEADER_ENTRY_SIZE);
            && r.trace == Calls(st.bytes, st.bs, HEADER_ENTRY_SIZE, t.es, |st.bytes|)
                        + (if |st.stack| > 0 then [Call(AbortEntry(), |st.bytes|)] else [])
            && (r.ok <==> |st.stack| == 0 || |bytes| == p.truncateOffset || st.stack[0].beginOffset % st.bs != 0)
            && r.bytes == if r.ok && |st.stack| > 0 then Truncated(st.bytes, st.stack[0].beginOffset) else bytes
  {
    hide Reads, HasHeader, ReplaySpec, Calls, StopsByTruncateOffset, ReadAt, PadFile, MarkHolds;
    var bytes := PaddedState(st).bytes;
    OnlyPadding(st.bytes, st.bs, t.es);
    BoundaryOffset(st);
    var k, c := RecoveryOfWhole(bytes, p, HEADER_ENTRY_SIZE, t.es, |st.bytes|);
    PadKeepsFront(st.bytes, |st.bytes|, st.bs, INT_MAX, |st.bytes|);
    SameCalls(st.bytes, bytes, st.bs, HEADER_ENTRY_SIZE, t.es, |st.bytes|);
    if |st.stack| > 0 {
      CutIsOutermost(st, t, k);
      WindowAgrees(st, t, bytes, k, c);
      assert bytes[..c] == bytes[..|st.bytes|][..c] == st.bytes[..c];
    }
  }

  lemma BoundaryOffset(st: LogState)
    requires st.bs > 0
    ensures ResetOffset(st) % st.bs == 0
  {
    BoundaryAfterSpace(st.pos, st.bs);
  }

  lemma CutIsOutermost(st: LogState, t: Trail, k: nat)
    requires RunInvariant(st, t) && |st.stack| > 0 && LastCutPoint(t.es, 0, k)
    ensures k == t.marks[0] && Reads(st.bytes, st.bs, HEADER_ENTRY_SIZE, t.es[..k], st.stack[0].beginOffset)
    ensures HEADER_ENTRY_SIZE <= st.stack[0].beginOffset <= |st.bytes|
  {
    hide Reads, HasHeader;
    assert MarkHolds(st, t, 0);
    MarkBounds(st, t, 0);
    var m := t.marks[0];
    assert LastCutPoint(t.es, 0, m) by {
      assert m > 0 ==> t.es[m - 1].kind != HEADER_ENTRY;
    }
    LastCutPointIsUnique(t.es, 0, k, m);
  }

  lemma WindowAgrees(st: LogState, t: Trail, bytes: seq<byte>, k: nat, c: nat)
    requires k <= |t.es| && |st.stack| > 0 && |st.bytes| <= |bytes| && bytes[..|st.bytes|] == st.bytes
    requires Reads(st.bytes, st.bs, HEADER_ENTRY_SIZE, t.es[..k], st.stack[0].beginOffset)
    requires HEADER_ENTRY_SIZE <= st.stack[0].beginOffset <= |st.bytes|
    requires Reads(bytes, st.bs, HEADER_ENTRY_SIZE, t.es[..k], c)
    ensures c == st.stack[0].beginOffset
  {
    hide Reads;
    GrowingKeepsStream(st.bytes, bytes[|st.bytes|..], st.bs, t.es[..k], st.stack[0].beginOffset);
    assert st.bytes + bytes[|st.bytes|..] == bytes;
    SameEnd(bytes, st.bs, HEADER_ENTRY_SIZE, t.es[..k], c, st.stack[0].beginOffset);
  }

  /** The callbacks of a stretch do not depend on what follows it. */
  lemma {:induction false} SameCalls(bytes: seq<byte>, bytes2: seq<byte>, bs: BlockSize, a: nat, es: seq<LogEntry>, b: nat)
    requires Reads(bytes, bs, a, es, b) && a <= b <= |bytes| <= |bytes2| && bytes2[..|bytes|] == bytes
    ensures Reads(bytes2, bs, a, es, b) && Calls(bytes2, bs, a, es, b) == Calls(bytes, bs, a, es, b)
    decreases |es|
  {
    hide ReadAt;
    if |es| > 0 {
      var r := ReadAt(bytes, a, bs);
      ReadsBounds(bytes, bs, r.next, es[1..], b);
      SameStretch(bytes, bytes2, a, r.next);
      ReadWindow(bytes, a, r, bytes2, a, bs);
      SameCalls(bytes, bytes2, bs, r.next, es[1..], b);
    }
  }

  lemma SameStretch(bytes: seq<byte>, bytes2: seq<byte>, a: nat, b: nat)
    requires a <= b <= |bytes| <= |bytes2| && bytes2[..|bytes|] == bytes
    ensures bytes2[a..b] == bytes[a..b]
  {
    forall i | 0 <= i < b - a
      ensures bytes2[a..b][i] == bytes[a..b][i]
    {
      assert bytes2[a + i] == bytes2[..|bytes|][a + i];
    }
  }

  // ----- an entry added behind the padding -----

  /** What the file holds after padding and one more entry. */
  lemma PutBehindPadding(bytes: seq<byte>, bs: BlockSize, e: LogEntry)
    requires bs >= ENTRY_HEADER_SIZE && |bytes| % bs != 0 && ValidEntry(e)
    ensures var t := NextEntryOffset(|bytes|, INT_MAX, bs);
            && t % bs == 0
            && PutEntry(PadFile(bytes, |bytes|, bs, INT_MAX), t, bs, e)
               == bytes + Padding(SpaceInBlock(|bytes|, bs)) + EncodeEntry(e)
            && |bytes| + |Padding(SpaceInBlock(|bytes|, bs))| == t
  {
    hide EncodeEntry, EncodeHeader, Overwrite, PadFile;
    var t := NextEntryOffset(|bytes|, INT_MAX, bs);
    var more := PadAtEnd(bytes, bs);
    BoundaryAfterSpace(|bytes|, bs);
    var padded, s := bytes + more, EncodeEntry(e);
    NoPadOnBoundary(padded, t, bs, |s|);
    OverwriteAppends(padded, t, s);
    if SpaceInBlock(|bytes|, bs) < ENTRY_HEADER_SIZE {
      assert [] + Zeros(t - |padded|) == Zeros(t - |padded|);
    }
    assert more + Zeros(t - |padded|) == Padding(SpaceInBlock(|bytes|, bs));
    assert bytes + more + Zeros(t - |padded|) == bytes + (more + Zeros(t - |padded|));
  }

  lemma NoPadOnBoundary(bytes: seq<byte>, pos: nat, bs: BlockSize, len: nat)
    requires bs > 0 && pos % bs == 0
    ensures PadFile(bytes, pos, bs, len) == bytes && NextEntryOffset(pos, len, bs) == pos
  {
  }

  /** It is found from the old end, and stands on the boundary. */
  lemma FoundBehindPadding(bytes: seq<byte>, bs: BlockSize, e: LogEntry)
    requires bs >= ENTRY_HEADER_SIZE && |bytes| % bs != 0 && ValidEntry(e)
    ensures var t, file := |bytes| + SpaceInBlock(|bytes|, bs), bytes + Padding(SpaceInBlock(|bytes|, bs)) + EncodeEntry(e);
            && ReadAt(file, |bytes|, bs) == Got(e, t, |file|)
            && Reads(file, bs, t, [e], |file|)
  {
    hide EncodeEntry, EncodeHeader, EntryAt, DecodeHeader;
    var space := SpaceInBlock(|bytes|, bs);
    var t, pad, s := |bytes| + space, Padding(space), EncodeEntry(e);
    var file := bytes + pad + s;
    assert file[t..t + |s|] == s;
    if space >= ENTRY_HEADER_SIZE {
      var h := EncodeHeader(Header(MAGIC_NUMBER, PAD_ENTRY, 0, 0, space));
      assert file[|bytes|..|bytes| + ENTRY_HEADER_SIZE] == pad[..ENTRY_HEADER_SIZE] == h;
    }
    PaddingIsSkipped(file, |bytes|, bs);
    BoundaryAfterSpace(|bytes|, bs);
    BoundarySkip(t, bs);
    EncodedEntryIsRead(file, t, e);
    EntryStep(file, t, t, bs);
    assert [e][1..] == [];
  }

  lemma PaddedValid(st: LogState)
    requires ValidState(st)
    ensures ValidState(PaddedState(st)) && PaddedState(st).bs == st.bs
  {
    hide HeaderBytes, PadFile;
    PadKeepsFront(st.bytes, st.pos, st.bs, INT_MAX, HEADER_ENTRY_SIZE);
    NextEntryOffsetIsUsed(st.pos, INT_MAX, st.bs);
  }

  /** Clearing the sync flag and padding do not get in each other's way. */
  lemma ClearedThenPadded(st: LogState)
    requires ValidState(st) && st.pos == |st.bytes|
    ensures ValidState(PaddedState(st)) && Cleared(PaddedState(st)) == PaddedState(Cleared(st))
  {
    hide HeaderBytes, PadFile, EncodeHeader;
    PaddedValid(st);
    ClearedValid(st);
    var more := PadAtEnd(st.bytes, st.bs);
    var more2 := PadAtEnd(Cleared(st).bytes, st.bs);
    assert more2 == more;
    assert (st.bytes + more)[HEADER_ENTRY_SIZE..] == st.bytes[HEADER_ENTRY_SIZE..] + more;
    if st.synced {
      var h := HeaderBytes(st.startTime, false, st.bs);
      assert h + (st.bytes[HEADER_ENTRY_SIZE..] + more) == h + st.bytes[HEADER_ENTRY_SIZE..] + more;
    }
  }

  lemma Outermost(st: LogState, t: Trail)
    requires RunInvariant(st, t)
    ensures Reads(st.bytes, st.bs, HEADER_ENTRY_SIZE, t.es, |st.bytes|) && Depth(t.es) == |st.stack|
    ensures |st.stack| > 0 ==>
      && t.marks[0] <= |t.es| && HEADER_ENTRY_SIZE <= st.stack[0].beginOffset <= |st.bytes|
      && Reads(st.bytes, st.bs, HEADER_ENTRY_SIZE, t.es[..t.marks[0]], st.stack[0].beginOffset)
  {
    hide Reads, HasHeader;
    if |st.stack| > 0 {
      assert MarkHolds(st, t, 0);
      MarkBounds(st, t, 0);
    }
  }

  lemma AddedPaddedBytes(st: LogState, x: LogEntry, sync: bool)
    requires ValidState(st) && st.pos == |st.bytes| && |st.bytes| % st.bs != 0 && ValidEntry(x)
    ensures ValidState(PaddedState(st))
    ensures Added(PaddedState(st), x, sync).bytes
         == Cleared(st).bytes + Padding(SpaceInBlock(|st.bytes|, st.bs)) + EncodeEntry(x)
    ensures ResetOffset(st) == |st.bytes| + SpaceInBlock(|st.bytes|, st.bs) && ResetOffset(st) % st.bs == 0
  {
    hide HeaderBytes, PadFile, EncodeEntry, PutEntry, Padding, NextEntryOffset;
    ClearedThenPadded(st);
    ClearedValid(st);
    PutBehindPadding(Cleared(st).bytes, st.bs, x);
    var more := PadAtEnd(st.bytes, st.bs);
  }

  /** The file after a truncate offset was set away from a block boundary and an
      entry added: what was there is read as before. */
  lemma StreamBehindPadding(st: LogState, x: LogEntry, sync: bool, es: seq<LogEntry>, b: nat)
    requires ValidState(st) && st.pos == |st.bytes| && |st.bytes| % st.bs != 0 && ValidEntry(x) && ValidState(PaddedState(st))
    requires Reads(st.bytes, st.bs, HEADER_ENTRY_SIZE, es, b) && b <= |st.bytes|
    ensures Reads(Added(PaddedState(st), x, sync).bytes, st.bs, HEADER_ENTRY_SIZE, es, b)
  {
    hide HeaderBytes, EncodeEntry, Reads, Padding, ResetOffset, Added, SpaceInBlock, PaddedState;
    AddedPaddedBytes(st, x, sync);
    ClearedValid(st);
    var c := Cleared(st);
    var file := c.bytes + Padding(SpaceInBlock(|c.bytes|, st.bs)) + EncodeEntry(x);
    assert c.bytes[HEADER_ENTRY_SIZE..] == st.bytes[HEADER_ENTRY_SIZE..];
    StillRead(st.bytes, c.bytes, file, st.bs, es, b);
  }

  /** And the entry is found from the old end of the file, at the truncate offset. */
  lemma AddedBehindPadding(st: LogState, x: LogEntry, sync: bool)
    requires ValidState(st) && st.pos == |st.bytes| && |st.bytes| % st.bs != 0 && ValidEntry(x) && ValidState(PaddedState(st))
    ensures var file := Added(PaddedState(st), x, sync).bytes;
            && |st.bytes| < ResetOffset(st) < |file| && ResetOffset(st) % st.bs == 0
            && ReadAt(file, |st.bytes|, st.bs) == Got(x, ResetOffset(st), |file|)
            && Reads(file, st.bs, ResetOffset(st), [x], |file|)
  {
    hide HeaderBytes, EncodeEntry, Reads, ReadAt, Padding, ResetOffset, Added, PaddedState, HasHeader;
    AddedPaddedBytes(st, x, sync);
    ClearedValid(st);
    FoundBehindPadding(Cleared(st).bytes, st.bs, x);
  }

  /** The entries in front of the outermost open transaction. */
  ghost function Outer(t: Trail): seq<LogEntry> {
    if |t.marks| > 0 && t.marks[0] <= |t.es| then t.es[..t.marks[0]] else t.es
  }

  lemma StillRead(bytes: seq<byte>, cleared: seq<byte>, file: seq<byte>, bs: BlockSize, es: seq<LogEntry>, b: nat)
    requires HEADER_ENTRY_SIZE <= |bytes| == |cleared| <= |file| && b <= |bytes|
    requires cleared[HEADER_ENTRY_SIZE..] == bytes[HEADER_ENTRY_SIZE..] && file[..|cleared|] == cleared
    requires Reads(bytes, bs, HEADER_ENTRY_SIZE, es, b)
    ensures Reads(file, bs, HEADER_ENTRY_SIZE, es, b)
  {
    hide Reads;
    HeaderChangeKeepsStream(bytes, cleared, bs, es, b);
    assert file == cleared + file[|cleared|..];
    GrowingKeepsStream(cleared, file[|cleared|..], bs, es, b);
  }

  lemma BlockEnd(bytes: seq<byte>, bs: BlockSize, s: nat, e: nat)
    requires bs > 0 && e <= |bytes| && e % bs == 0
    ensures Deletable(bytes, bs, s, e)
  {
  }

  /** An entry outlives its transaction. When the truncate offset is set away from a
      block boundary, the first entry added after that is run by a later recovery,
      inside the transactions that are open. These are aborted and cut off, which
      always succeeds; the entry stays in the file, outside of all transactions. */
  lemma EntrySurvivesItsTransaction(st: LogState, t: Trail, x: LogEntry, sync: bool, p: Replay)
    requires ValidState(st) && RunInvariant(st, t) && |st.bytes| % st.bs != 0 && UserEntry(x) && ValidState(PaddedState(st))
    requires p.bs == st.bs && p.truncateOffset == ResetOffset(st)
    requires StopsByTruncateOffset(p, |Added(PaddedState(st), x, sync).bytes|)
    ensures var file := Added(PaddedState(st), x, sync).bytes;
            var r := ReplaySpec(file, p, HEADER_ENTRY_SIZE);
            && Reads(file, st.bs, HEADER_ENTRY_SIZE, t.es, |st.bytes|)
            && r.ok
            && r.trace == Calls(file, st.bs, HEADER_ENTRY_SIZE, t.es, |st.bytes|) + [Call(x, p.truncateOffset)]
                        + (if |st.stack| > 0 then [Call(AbortEntry(), |file|)] else [])
            && (|st.stack| > 0 ==> Reads(r.bytes, st.bs, HEADER_ENTRY_SIZE, Outer(t) + [x], |r.bytes|))
            && (|st.stack| == 0 ==> r.bytes == file)
  {
    hide Reads, HasHeader, ReplaySpec, Calls, StopsByTruncateOffset, ReadAt, PaddedState, ResetOffset, RunInvariant, Added, Deletable, LastCutPoint;
    AtEnd(st, t);
    Outermost(st, t);
    AddedBehindPadding(st, x, sync);
    StreamBehindPadding(st, x, sync, t.es, |st.bytes|);
    var file := Added(PaddedState(st), x, sync).bytes;
    assert [x] + [] == [x];
    var k, c := RecoveryBehindPadding(file, p, HEADER_ENTRY_SIZE, t.es, |st.bytes|, x, []);
    BlockEnd(file, st.bs, c, p.truncateOffset);
    if |st.stack| > 0 {
      CutIsOutermost(st, t, k);
      assert t.es[..k] + [x] + [] == t.es[..k] + [x];
    }
  }

  /** An instance: blocks of 32 bytes, and a log that holds nothing but an unfinished
      transaction. */
  lemma EntryOfUnfinishedTransaction(time: nat, x: LogEntry, p: Replay)
    requires ValidTime(time) && UserEntry(x) && ValidState(NewLog(time, 32))
    requires p.bs == 32 && p.truncateOffset == 64 && NeverStopped(p) && p.style.truncate && !p.style.nextEntry && p.stop >= 64
    ensures var begun := Step(NewLog(time, 32), Begin);
            && ValidState(begun) && ValidState(PaddedState(begun)) && PaddedState(begun).pos == 64
            && var r := ReplaySpec(Added(PaddedState(begun), x, false).bytes, p, HEADER_ENTRY_SIZE);
               && r.ok && |r.trace| == 3
               && r.trace[0] == Call(Marker(TRANSACTION_BEGIN), 32) && r.trace[1] == Call(x, 64)
               && r.trace[2].entry == AbortEntry()
               && Reads(r.bytes, 32, HEADER_ENTRY_SIZE, [x], |r.bytes|)
  {
    hide RunInvariant, Step, ValidState, Added, ReplaySpec, Reads, ReadAt, PaddedState, NewLog, Calls, ResetOffset;
    var t0, t := Trail([], []), Trail([Marker(TRANSACTION_BEGIN)], [0]);
    NewLogInvariant(time, 32);
    NewLogIs(time);
    OneMoreBegin(NewLog(time, 32), t0);
    var begun := Step(NewLog(time, 32), Begin);
    assert NextTrail(t0, Begin) == t;
    AtEnd(begun, t);
    PaddedTo64(begun);
    PaddedValid(begun);
    Outermost(begun, t);
    StreamBehindPadding(begun, x, false, t.es, 48);
    EntrySurvivesItsTransaction(begun, t, x, false, p);
    FirstCall(Added(PaddedState(begun), x, false).bytes, Marker(TRANSACTION_BEGIN));
    assert Outer(t) + [x] == [x];
  }

  lemma NewLogIs(time: nat)
    requires ValidTime(time)
    ensures NewLog(time, 32).bs == 32 && |NewLog(time, 32).bytes| == 32 && NewLog(time, 32).stack == []
  {
    hide HeaderBytes;
  }

  lemma PaddedTo64(st: LogState)
    requires st.bs == 32 && st.pos == 48 == |st.bytes|
    ensures ResetOffset(st) == 64 && PaddedState(st).pos == 64 && |st.bytes| % 32 != 0
  {
  }

  lemma FirstCall(bytes: seq<byte>, e: LogEntry)
    requires Reads(bytes, 32, 32, [e], 48) && e.kind != HEADER_ENTRY
    ensures Calls(bytes, 32, 32, [e], 48) == [Call(e, 32)]
  {
    hide ReadAt;
    var r := ReadAt(bytes, 32, 32);
    assert [e][1..] == [];
    assert Reads(bytes, 32, r.next, [], 48);
    assert Calls(bytes, 32, r.next, [e][1..], 48) == [];
  }
}
