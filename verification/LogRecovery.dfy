/** Recovering a log: what a replay over a readable file runs, where it stops, and
    what is left when it cuts an open transaction off. */
module LogRecovery {
  import opened LogFormat
  import opened LogReader
  import opened LogDelete
  import opened LogExecute

  // ----- what a replay runs -----

  /** From state st the replay reads exactly the entries es and goes no further than
      their end b. */
  ghost predicate Replays(bytes: seq<byte>, p: Replay, st: RunState, es: seq<LogEntry>, b: nat) {
    Reads(bytes, p.bs, st.curr, es, b) && Run(bytes, p, st).state.curr == b
  }

  lemma {:induction false} RunAdvances(bytes: seq<byte>, p: Replay, st: RunState)
    ensures st.curr <= Run(bytes, p, st).state.curr
    decreases |bytes| - st.curr
  {
    hide ReadAt;
    if !Finished(p, st) {
      match ReadAt(bytes, st.curr, p.bs)
      case Eof(_) =>
      case Bad =>
      case Got(e, offset, next) => RunAdvances(bytes, p, Passed(st, e, offset, next));
    }
  }

  /** The callback's answer to an entry e ends the replay in state st behind it. */
  ghost predicate AskedToStop(p: Replay, st: RunState, e: LogEntry) {
    e.kind != HEADER_ENTRY && st.depth == 0 && p.wantsStop(st.trace)
  }

  /** A replay that reads something executes its first entry and goes on behind it. */
  lemma RunStep(bytes: seq<byte>, p: Replay, st: RunState, es: seq<LogEntry>, b: nat)
    requires |es| > 0 && Replays(bytes, p, st, es, b)
    ensures var r := ReadAt(bytes, st.curr, p.bs);
            && !Finished(p, st) && r.Got? && r.entry == es[0]
            && var st' := Passed(st, es[0], r.offset, r.next);
               if AskedToStop(p, st', es[0]) then Run(bytes, p, st) == RunResult(st', false) && es == [es[0]] && r.next == b
               else Run(bytes, p, st) == Run(bytes, p, st') && Replays(bytes, p, st', es[1..], b)
  {
    hide ReadAt, Finished;
    var r := ReadAt(bytes, st.curr, p.bs);
    ReadsBounds(bytes, p.bs, r.next, es[1..], b);
    if |es| > 1 {
      assert ReadAt(bytes, r.next, p.bs).Got?;
    }
  }

  lemma RunEnds(bytes: seq<byte>, p: Replay, st: RunState)
    requires Replays(bytes, p, st, [], st.curr)
    ensures Run(bytes, p, st).state == st
  {
    hide ReadAt, Finished;
    if !Finished(p, st) {
      match ReadAt(bytes, st.curr, p.bs)
      case Eof(_) =>
      case Bad =>
      case Got(e, offset, next) => RunAdvances(bytes, p, Passed(st, e, offset, next));
    }
  }

  /** One of the tests ends a replay that stands at y and has made the calls since
      state st, having read es. */
  ghost predicate EndsAt(p: Replay, st: RunState, es: seq<LogEntry>, y: nat, calls: seq<Call>) {
    var here := RunState(y, st.depth + Depth(es), y, st.trace + calls);
    Finished(p, here) || (|es| > 0 && AskedToStop(p, here, es[|es| - 1]))
  }

  /** Over a file that can be read up to z, from where nothing more can be read, a
      replay ends at the first place where one of the tests ends it, or at z. */
  lemma {:induction false} ReplayedPart(bytes: seq<byte>, p: Replay, st: RunState, all: seq<LogEntry>, z: nat) returns (n: nat, b: nat)
    requires Reads(bytes, p.bs, st.curr, all, z) && !ReadAt(bytes, z, p.bs).Got?
    ensures n <= |all| && Replays(bytes, p, st, all[..n], b) && Reads(bytes, p.bs, b, all[n..], z)
    ensures var ends := EndsAt(p, st, all[..n], b, Calls(bytes, p.bs, st.curr, all[..n], b));
            (n < |all| ==> ends) && (Run(bytes, p, st).failed <==> !ends && ReadAt(bytes, z, p.bs).Bad?)
    ensures forall m: nat, y: nat :: m < n && Reads(bytes, p.bs, st.curr, all[..m], y) ==>
              !EndsAt(p, st, all[..m], y, Calls(bytes, p.bs, st.curr, all[..m], y))
    decreases |all|
  {
    hide ReadAt, Finished, Run, EndsAt;
    n, b := 0, st.curr;
    assert all[0..] == all;
    NoCalls(bytes, p.bs, st.curr, st.curr);
    NothingRead(p, st);
    if Finished(p, st) || |all| == 0 {
      EndsHere(bytes, p, st);
    } else {
      var r := ReadAt(bytes, st.curr, p.bs);
      var st' := Passed(st, all[0], r.offset, r.next);
      GoesOn(bytes, p, st, all, z);
      if AskedToStop(p, st', all[0]) {
        n, b := 1, r.next;
        EndsBehind(bytes, p, st, all[..1], b);
      } else {
        n, b := ReplayedPart(bytes, p, st', all[1..], z);
        assert all[1..][..n] == all[..n + 1][1..] && all[1..][n..] == all[n + 1..];
        n := n + 1;
        EndsBehind(bytes, p, st, all[..n], b);
        forall m: nat, y: nat | m < n && Reads(bytes, p.bs, st.curr, all[..m], y)
          ensures !EndsAt(p, st, all[..m], y, Calls(bytes, p.bs, st.curr, all[..m], y))
        {
          if m > 0 {
            assert all[1..][..m - 1] == all[..m][1..];
            EndsBehind(bytes, p, st, all[..m], y);
          }
        }
      }
    }
  }

  lemma NoCalls(bytes: seq<byte>, bs: BlockSize, a: nat, b: nat)
    requires Reads(bytes, bs, a, [], b)
    ensures a == b && Calls(bytes, bs, a, [], b) == []
  {
  }

  lemma NothingRead(p: Replay, st: RunState)
    ensures EndsAt(p, st, [], st.curr, []) <==> Finished(p, st)
  {
  }

  lemma EndsHere(bytes: seq<byte>, p: Replay, st: RunState)
    requires Finished(p, st) || !ReadAt(bytes, st.curr, p.bs).Got?
    ensures Run(bytes, p, st) == RunResult(st, !Finished(p, st) && ReadAt(bytes, st.curr, p.bs).Bad?)
  {
    hide ReadAt, Finished;
  }

  lemma GoesOn(bytes: seq<byte>, p: Replay, st: RunState, all: seq<LogEntry>, z: nat)
    requires |all| > 0 && Reads(bytes, p.bs, st.curr, all, z) && !Finished(p, st)
    ensures var r := ReadAt(bytes, st.curr, p.bs);
            var st' := Passed(st, all[0], r.offset, r.next);
            Run(bytes, p, st) == if AskedToStop(p, st', all[0]) then RunResult(st', false) else Run(bytes, p, st')
  {
    hide ReadAt, Finished;
  }

  /** The first of the calls can be counted among those made before, here t. */
  lemma CallsAgain(bytes: seq<byte>, bs: BlockSize, a: nat, es: seq<LogEntry>, b: nat, t: seq<Call>)
    requires |es| > 0 && Reads(bytes, bs, a, es, b)
    ensures var r := ReadAt(bytes, a, bs);
            && r.Got? && Reads(bytes, bs, r.next, es[1..], b)
            && t + Calls(bytes, bs, a, es, b)
               == (if es[0].kind == HEADER_ENTRY then t else t + [Call(es[0], r.offset)]) + Calls(bytes, bs, r.next, es[1..], b)
  {
    hide ReadAt;
    var r := ReadAt(bytes, a, bs);
    var calls := Calls(bytes, bs, r.next, es[1..], b);
    assert t + ([Call(es[0], r.offset)] + calls) == t + [Call(es[0], r.offset)] + calls;
    assert [] + calls == calls;
  }

  /** What ends a replay behind its first entry. */
  lemma EndsBehind(bytes: seq<byte>, p: Replay, st: RunState, es: seq<LogEntry>, y: nat)
    requires |es| > 0 && Reads(bytes, p.bs, st.curr, es, y)
    ensures var r := ReadAt(bytes, st.curr, p.bs);
            var st' := Passed(st, es[0], r.offset, r.next);
            && Reads(bytes, p.bs, r.next, es[1..], y)
            && (EndsAt(p, st, es, y, Calls(bytes, p.bs, st.curr, es, y)) <==>
                  || EndsAt(p, st', es[1..], y, Calls(bytes, p.bs, r.next, es[1..], y))
                  || (|es| == 1 && AskedToStop(p, st', es[0])))
  {
    hide ReadAt, Finished;
    var r := ReadAt(bytes, st.curr, p.bs);
    var st' := Passed(st, es[0], r.offset, r.next);
    CallsAgain(bytes, p.bs, st.curr, es, y, st.trace);
    if |es| == 1 {
      assert es[1..] == [] && st'.trace + [] == st'.trace;
    } else {
      assert es[1..][|es| - 2] == es[|es| - 1];
    }
  }

  /** A replay by offset with truncation that neither its stop offset nor an answer
      ends: it goes on to the first end of an entry at the truncate offset or behind
      it. */
  ghost predicate StopsByTruncateOffset(p: Replay, z: nat) {
    p.style.truncate && !p.style.nextEntry && (z <= p.stop || p.truncateOffset <= p.stop) && NeverStopped(p)
  }

  ghost predicate NeverStopped(p: Replay) {
    forall t :: !p.wantsStop(t)
  }

  lemma WhereItStops(bytes: seq<byte>, p: Replay, start: nat, all: seq<LogEntry>, z: nat) returns (n: nat, b: nat)
    requires Reads(bytes, p.bs, start, all, z) && ReadAt(bytes, z, p.bs).Eof? && StopsByTruncateOffset(p, z)
    ensures n <= |all| && Replays(bytes, p, Start(start), all[..n], b) && Reads(bytes, p.bs, b, all[n..], z)
    ensures !Run(bytes, p, Start(start)).failed
    ensures n < |all| ==> p.truncateOffset <= b
    ensures forall m: nat, y: nat :: m < n && Reads(bytes, p.bs, start, all[..m], y) ==> y < p.truncateOffset
  {
    hide ReadAt, Calls, Run, Reads;
    n, b := ReplayedPart(bytes, p, Start(start), all, z);
    ReadsBounds(bytes, p.bs, b, all[n..], z);
  }

  /** Such a replay runs nothing that ends behind the truncate offset if and only if
      an entry, or the place where it starts, ends just there, or no entry ends
      behind it. Else it runs exactly one such entry, its last. */
  lemma BehindTruncateOffset(bytes: seq<byte>, p: Replay, start: nat, all: seq<LogEntry>, z: nat) returns (n: nat, b: nat)
    requires Reads(bytes, p.bs, start, all, z) && ReadAt(bytes, z, p.bs).Eof?
    requires StopsByTruncateOffset(p, z) && start <= p.truncateOffset
    ensures n <= |all| && Replays(bytes, p, Start(start), all[..n], b)
    ensures b <= p.truncateOffset <==>
              z <= p.truncateOffset || exists m :: 0 <= m <= |all| && Reads(bytes, p.bs, start, all[..m], p.truncateOffset)
    ensures p.truncateOffset < b ==>
              n > 0 && forall m: nat, y: nat :: m < n && Reads(bytes, p.bs, start, all[..m], y) ==> y < p.truncateOffset
  {
    hide ReadAt, Run, Reads;
    n, b := WhereItStops(bytes, p, start, all, z);
    ReadsBounds(bytes, p.bs, b, all[n..], z);
    if p.truncateOffset < b {
      EndOfNothing(bytes, p, start, all, n, b);
      forall m | 0 <= m <= |all|
        ensures !Reads(bytes, p.bs, start, all[..m], p.truncateOffset)
      {
        if n <= m && Reads(bytes, p.bs, start, all[..m], p.truncateOffset) {
          LongerStreamEndsLater(bytes, p.bs, start, all[..n], b, all[..m], p.truncateOffset);
        }
      }
    } else if b < p.truncateOffset {
      assert n == |all| && all[..n] == all;
      SameEnd(bytes, p.bs, start, all, b, z);
    }
  }

  lemma EndOfNothing(bytes: seq<byte>, p: Replay, start: nat, all: seq<LogEntry>, n: nat, b: nat)
    requires n <= |all| && Reads(bytes, p.bs, start, all[..n], b)
    ensures n == 0 ==> b == start
  {
  }

  lemma SameEnd(bytes: seq<byte>, bs: BlockSize, a: nat, es: seq<LogEntry>, b: nat, c: nat)
    requires Reads(bytes, bs, a, es, b) && Reads(bytes, bs, a, es, c)
    ensures b == c
  {
    LongerStreamEndsLater(bytes, bs, a, es, b, es, c);
  }

  // ----- where it may be cut -----

  /** A place where a replay that started at depth d may be cut: the beginning,
      or after an executed entry that brings the depth to 0. */
  ghost predicate CutPoint(es: seq<LogEntry>, d: int, k: nat)
    requires k <= |es|
  {
    k == 0 || (es[k - 1].kind != HEADER_ENTRY && d + Depth(es[..k]) == 0)
  }

  ghost predicate LastCutPoint(es: seq<LogEntry>, d: int, k: nat) {
    && k <= |es|
    && CutPoint(es, d, k)
    && forall j :: k < j <= |es| ==> !CutPoint(es, d, j)
  }

  lemma CutPointTail(es: seq<LogEntry>, d: int, k: nat)
    requires 0 < k <= |es|
    ensures k > 1 ==> CutPoint(es, d, k) == CutPoint(es[1..], d + DepthChange(es[0]), k - 1)
  {
    assert es[..k][1..] == es[1..][..k - 1];
  }

  /** Running over a stream: all callbacks are made, the depth is the nesting
      depth, and lastValid is the offset of the last cut point. */
  lemma {:induction false} RunOverStream(bytes: seq<byte>, p: Replay, st: RunState, es: seq<LogEntry>, b: nat) returns (k: nat)
    requires Replays(bytes, p, st, es, b)
    ensures Run(bytes, p, st).state.depth == st.depth + Depth(es)
    ensures Run(bytes, p, st).state.trace == st.trace + Calls(bytes, p.bs, st.curr, es, b)
    ensures LastCutPoint(es, st.depth, k)
    ensures k == 0 ==> Run(bytes, p, st).state.lastValid == st.lastValid
    ensures k > 0 ==> Reads(bytes, p.bs, st.curr, es[..k], Run(bytes, p, st).state.lastValid)
    decreases |es|
  {
    hide ReadAt, Finished, Run, LastCutPoint;
    assert LastCutPoint([], st.depth, 0) by {
      NothingToCut(st.depth);
    }
    if |es| == 0 {
      RunEnds(bytes, p, st);
      k := 0;
    } else {
      var r := ReadAt(bytes, st.curr, p.bs);
      var st' := Passed(st, es[0], r.offset, r.next);
      RunStep(bytes, p, st, es, b);
      var k' := 0;
      if AskedToStop(p, st', es[0]) {
        NothingToCut(st'.depth);
      } else {
        k' := RunOverStream(bytes, p, st', es[1..], b);
      }
      CallsAgain(bytes, p.bs, st.curr, es, b, st.trace);
      if |es| == 1 {
        assert st'.trace + [] == st'.trace;
      }
      hide Calls;
      k := if k' > 0 then k' + 1 else if es[0].kind != HEADER_ENTRY && st'.depth == 0 then 1 else 0;
      LastCutPointTail(es, st.depth, k', k);
      if k' > 0 {
        assert es[..k][1..] == es[1..][..k'];
      }
    }
  }

  lemma NothingToCut(d: int)
    ensures LastCutPoint([], d, 0)
  {
  }

  lemma LastCutPointTail(es: seq<LogEntry>, d: int, k': nat, k: nat)
    requires |es| > 0 && LastCutPoint(es[1..], d + DepthChange(es[0]), k')
    requires k == if k' > 0 then k' + 1
                  else if es[0].kind != HEADER_ENTRY && d + DepthChange(es[0]) == 0 then 1 else 0
    ensures LastCutPoint(es, d, k)
  {
    forall j | 0 < j <= |es|
      ensures CutPoint(es, d, j) == if j == 1 then es[0].kind != HEADER_ENTRY && d + DepthChange(es[0]) == 0
                                    else CutPoint(es[1..], d + DepthChange(es[0]), j - 1)
    {
      CutPointTail(es, d, j);
      if j == 1 {
        assert es[..1] == [es[0]];
        assert Depth([es[0]]) == DepthChange(es[0]) + Depth([es[0]][1..]);
      }
    }
  }

  /** Inside a transaction the last cut point lies in front of the truncate offset. */
  lemma {:induction false} CutInFront(bytes: seq<byte>, p: Replay, st: RunState)
    requires p.style.truncate && st.lastValid <= st.curr && (st.depth != 0 ==> st.lastValid < p.truncateOffset)
    ensures Run(bytes, p, st).state.depth != 0 ==> Run(bytes, p, st).state.lastValid < p.truncateOffset
    decreases |bytes| - st.curr
  {
    hide ReadAt;
    if !Finished(p, st) {
      match ReadAt(bytes, st.curr, p.bs)
      case Eof(_) =>
      case Bad =>
      case Got(e, offset, next) => CutInFront(bytes, p, Passed(st, e, offset, next));
    }
  }

  /** What a replay over a stream hands to the deletion: the callbacks, and the
      offset c of the last cut point. */
  lemma RunToCut(bytes: seq<byte>, p: Replay, start: nat, es: seq<LogEntry>, b: nat) returns (k: nat, c: nat)
    requires Replays(bytes, p, Start(start), es, b)
    ensures LastCutPoint(es, 0, k) && Reads(bytes, p.bs, start, es[..k], c) && start <= c <= b
    ensures var r := Run(bytes, p, Start(start));
            && r.state.depth == Depth(es) && r.state.lastValid == c
            && r.state.trace == Calls(bytes, p.bs, start, es, b)
    ensures p.style.truncate && Depth(es) != 0 ==> c < p.truncateOffset && c <= |bytes|
  {
    hide ReadAt, Run, Calls;
    k := RunOverStream(bytes, p, Start(start), es, b);
    c := Run(bytes, p, Start(start)).state.lastValid;
    assert Start(start).trace + Calls(bytes, p.bs, start, es, b) == Calls(bytes, p.bs, start, es, b);
    assert k == 0 ==> es[..k] == [];
    ReadsBounds(bytes, p.bs, start, es[..k], c);
    assert es == es[..k] + es[k..];
    ReadsSplit(bytes, p.bs, start, es[..k], c, es[k..], b);
    ReadsBounds(bytes, p.bs, c, es[k..], b);
    ReadsBounds(bytes, p.bs, start, es, b);
    if p.style.truncate {
      CutInFront(bytes, p, Start(start));
    }
  }

  // ----- where a replay ends -----

  /** Where a replay ends, whatever its style and the callback's answers, over a file
      that can be read up to z and then ends or is damaged. It goes on to the first
      end of an entry, at offset b, where it is past its truncate offset; or past its
      stop offset or behind its one entry, and outside of a transaction if that
      counts; or asked to stop outside of all transactions. It fails when it gets to
      the damage. */
  lemma WhereAReplayEnds(bytes: seq<byte>, p: Replay, start: nat, all: seq<LogEntry>, z: nat) returns (n: nat, b: nat, ends: bool)
    requires p.bs > 0 && Reads(bytes, p.bs, start, all, z) && !ReadAt(bytes, z, p.bs).Got?
    ensures n <= |all| && Reads(bytes, p.bs, start, all[..n], b) && Reads(bytes, p.bs, b, all[n..], z)
    ensures ends <==>
              || (p.style.truncate && p.truncateOffset <= b)
              || (!p.style.nextEntry && p.stop <= b && (p.style.toTransactionEnd ==> Depth(all[..n]) == 0))
              || (p.style.nextEntry && Calls(bytes, p.bs, start, all[..n], b) != [] && (p.style.toTransactionEnd ==> Depth(all[..n]) == 0))
              || (n > 0 && all[n - 1].kind != HEADER_ENTRY && Depth(all[..n]) == 0 && p.wantsStop(Calls(bytes, p.bs, start, all[..n], b)))
    ensures n < |all| ==> ends
    ensures forall m: nat, y: nat :: m < n && Reads(bytes, p.bs, start, all[..m], y) ==>
              && (p.style.truncate ==> y < p.truncateOffset)
              && (!p.style.nextEntry && (p.style.toTransactionEnd ==> Depth(all[..m]) == 0) ==> y < p.stop)
              && (p.style.nextEntry && (p.style.toTransactionEnd ==> Depth(all[..m]) == 0) ==> Calls(bytes, p.bs, start, all[..m], y) == [])
              && (m > 0 && all[m - 1].kind != HEADER_ENTRY && Depth(all[..m]) == 0 ==> !p.wantsStop(Calls(bytes, p.bs, start, all[..m], y)))
    ensures var r, calls, depth := ReplaySpec(bytes, p, start), Calls(bytes, p.bs, start, all[..n], b), Depth(all[..n]);
            var failed := !ends && ReadAt(bytes, z, p.bs).Bad?;
            && r.trace == calls + (if p.style.truncate && depth != 0 && !failed then [Call(LogEntry(TRANSACTION_ABORT, 0, [], []), b)] else [])
            && (failed ==> !r.ok)
            && (depth == 0 || !p.style.truncate ==> (r.ok <==> !failed) && (r.ok ==> r.offset == b) && r.bytes == bytes)
  {
    hide ReadAt, Calls, Run, Reads, DeleteSpec;
    n, b := ReplayedPart(bytes, p, Start(start), all, z);
    var calls := Calls(bytes, p.bs, start, all[..n], b);
    ends := EndsAt(p, Start(start), all[..n], b, calls);
    forall t: seq<Call>
      ensures Start(start).trace + t == t
    {
    }
    var k, c := RunToCut(bytes, p, start, all[..n], b);
    assert calls + [] == calls;
  }

  // ----- recovery -----

  /** The callbacks of a replay that ends at b, with the ABORT of an open
      transaction. */
  ghost function AllCalls(bytes: seq<byte>, bs: BlockSize, start: nat, es: seq<LogEntry>, b: nat): seq<Call>
    requires Reads(bytes, bs, start, es, b)
  {
    Calls(bytes, bs, start, es, b) + if Depth(es) != 0 then [Call(AbortEntry(), b)] else []
  }

  /** Recovery. Replaying entries es with truncation, wherever the truncate offset
      is and whatever else the style says, makes every callback in order and adds
      one ABORT exactly when a transaction is left open. Then the range from the
      last cut point, at offset c, to the truncate offset is deleted, if it can be;
      else the replay fails and leaves the file as it is. */
  lemma Recovery(bytes: seq<byte>, p: Replay, start: nat, es: seq<LogEntry>, b: nat) returns (k: nat, c: nat)
    requires p.bs > 0 && p.style.truncate && Replays(bytes, p, Start(start), es, b) && !Run(bytes, p, Start(start)).failed
    ensures LastCutPoint(es, 0, k) && Reads(bytes, p.bs, start, es[..k], c) && start <= c <= b
    ensures Depth(es) != 0 ==> c < p.truncateOffset && c <= |bytes|
    ensures var r := ReplaySpec(bytes, p, start);
            && r.trace == AllCalls(bytes, p.bs, start, es, b)
            && (r.ok <==> Depth(es) == 0 || Deletable(bytes, p.bs, c, p.truncateOffset))
            && (r.ok ==> r.offset == if Depth(es) == 0 then b else c)
            && r.bytes == if r.ok && Depth(es) != 0 then DeleteSpec(bytes, p.bs, c, p.truncateOffset).bytes else bytes
  {
    hide ReadAt, Run, Calls, DeleteSpec, Deletable;
    k, c := RunToCut(bytes, p, start, es, b);
    if Depth(es) != 0 {
      DeleteAcceptedIff(bytes, p.bs, c, p.truncateOffset);
    } else {
      assert Calls(bytes, p.bs, start, es, b) + [] == Calls(bytes, p.bs, start, es, b);
    }
  }

  /** What a deletion by recovery leaves when the truncate offset is the end of the
      file or behind it: precisely the part up to the last cut point. */
  lemma CutAtEnd(bytes: seq<byte>, bs: BlockSize, start: nat, es: seq<LogEntry>, c: nat, e: nat)
    requires bs > 0 && Reads(bytes, bs, start, es, c) && start <= c <= |bytes| <= e && c < e && Deletable(bytes, bs, c, e)
    ensures DeleteSpec(bytes, bs, c, e).bytes == bytes[..c] && Reads(bytes[..c], bs, start, es, c)
  {
    TruncatedReads(bytes, bs, start, es, c);
    assert bytes[..c] + bytes[|bytes|..] == bytes[..c];
  }

  /** Recovery of a whole file, with the truncate offset at the end or behind it. The
      file may end in padding. */
  lemma RecoveryOfWhole(bytes: seq<byte>, p: Replay, start: nat, es: seq<LogEntry>, z: nat) returns (k: nat, c: nat)
    requires p.bs > 0 && StopsByTruncateOffset(p, z) && |bytes| <= p.truncateOffset
    requires Reads(bytes, p.bs, start, es, z) && z <= |bytes| && ReadAt(bytes, z, p.bs).Eof?
    ensures LastCutPoint(es, 0, k) && Reads(bytes, p.bs, start, es[..k], c) && start <= c <= z
    ensures var r := ReplaySpec(bytes, p, start);
            && r.trace == AllCalls(bytes, p.bs, start, es, z)
            && (r.ok <==> Depth(es) == 0 || p.truncateOffset == |bytes| || c % p.bs != p.truncateOffset % p.bs)
            && r.bytes == (if r.ok && Depth(es) != 0 then bytes[..c] else bytes)
            && (r.ok ==> r.offset == if Depth(es) != 0 then c else z)
            && (r.ok && Depth(es) != 0 ==> Reads(r.bytes, p.bs, start, es[..k], |r.bytes|))
  {
    hide ReadAt, ReplaySpec, Reads, Calls, DeleteSpec, Run;
    var n, b := WhereItStops(bytes, p, start, es, z);
    ReadsBounds(bytes, p.bs, b, es[n..], z);
    assert n == |es| && es[..n] == es;
    SameEnd(bytes, p.bs, start, es, b, z);
    k, c := Recovery(bytes, p, start, es, z);
    if Depth(es) != 0 && Deletable(bytes, p.bs, c, p.truncateOffset) {
      CutAtEnd(bytes, p.bs, start, es[..k], c, p.truncateOffset);
    }
  }

  /** Recovery with the truncate offset in front of the end of the file, when the
      file can be read from there on: as entries fs, up to z. What is left reads as
      the entries in front of the last cut point followed by all of fs, those of
      them that were run included. */
  lemma RecoveryInFront(bytes: seq<byte>, p: Replay, start: nat, es: seq<LogEntry>, b: nat, fs: seq<LogEntry>, z: nat)
    returns (k: nat, c: nat, y: nat)
    requires p.bs >= ENTRY_HEADER_SIZE && p.style.truncate
    requires Replays(bytes, p, Start(start), es, b) && !Run(bytes, p, Start(start)).failed
    requires Reads(bytes, p.bs, p.truncateOffset, fs, z) && p.truncateOffset <= z <= |bytes|
    ensures LastCutPoint(es, 0, k) && Reads(bytes, p.bs, start, es[..k], c) && start <= c <= b
    ensures var r := ReplaySpec(bytes, p, start);
            && r.trace == AllCalls(bytes, p.bs, start, es, b)
            && (r.ok <==> Depth(es) == 0 || Deletable(bytes, p.bs, c, p.truncateOffset))
            && (r.ok ==> r.offset == if Depth(es) == 0 then b else c)
            && (r.ok && Depth(es) != 0 ==> Reads(r.bytes, p.bs, start, es[..k] + fs, y))
            && (r.ok && Depth(es) != 0 && z == |bytes| ==> y == |r.bytes|)
            && (Depth(es) == 0 || !r.ok ==> r.bytes == bytes)
  {
    hide ReadAt, ReplaySpec, Reads, Calls, DeleteSpec, Deletable, Run;
    k, c := Recovery(bytes, p, start, es, b);
    y := c;
    if Depth(es) != 0 && Deletable(bytes, p.bs, c, p.truncateOffset) {
      y := DeleteKeepsStream(bytes, p.bs, start, es[..k], c, p.truncateOffset, fs, z);
    }
  }

  /** A truncate offset that an entry x starts at, behind padding, as
      jr_LogSetTruncateOffset leaves it: x is run, and counts for the depth, but
      is behind the cut. When it is in an aborted transaction it is left as an entry
      outside of all transactions. */
  lemma RecoveryBehindPadding(bytes: seq<byte>, p: Replay, start: nat, es: seq<LogEntry>, b: nat, x: LogEntry, more: seq<LogEntry>)
    returns (k: nat, c: nat)
    requires p.bs >= ENTRY_HEADER_SIZE && StopsByTruncateOffset(p, |bytes|)
    requires Reads(bytes, p.bs, start, es, b) && b < p.truncateOffset
    requires ReadAt(bytes, b, p.bs).Got? && ReadAt(bytes, b, p.bs).entry == x && ReadAt(bytes, b, p.bs).offset == p.truncateOffset
    requires Reads(bytes, p.bs, p.truncateOffset, [x] + more, |bytes|)
    ensures Depth(es) + DepthChange(x) != 0 ==>
              LastCutPoint(es, 0, k) && Reads(bytes, p.bs, start, es[..k], c) && start <= c <= b
    ensures var r, header := ReplaySpec(bytes, p, start), x.kind == HEADER_ENTRY;
            var depth, next := Depth(es) + DepthChange(x), ReadAt(bytes, b, p.bs).next;
            && r.trace == Calls(bytes, p.bs, start, es, b)
                        + (if header then [] else [Call(x, p.truncateOffset)])
                        + (if depth != 0 then [Call(AbortEntry(), next)] else [])
            && (r.ok <==> depth == 0 || Deletable(bytes, p.bs, c, p.truncateOffset))
            && (r.ok ==> r.offset == if depth == 0 then next else c)
            && (r.ok && depth != 0 ==> Reads(r.bytes, p.bs, start, es[..k] + [x] + more, |r.bytes|))
            && (depth == 0 || !r.ok ==> r.bytes == bytes)
  {
    hide ReadAt, ReplaySpec, Reads, Calls, DeleteSpec, Deletable, LastCutPoint, Run;
    var next := ReadAt(bytes, b, p.bs).next;
    OneMoreEntry(bytes, p, start, es, b, x, more);
    CallsOfOneMore(bytes, p.bs, start, es, b, x);
    DepthConcat(es, [x]);
    assert Depth([x]) == DepthChange(x) + Depth([x][1..]);
    var y;
    k, c, y := RecoveryInFront(bytes, p, start, es + [x], next, [x] + more, |bytes|);
    if Depth(es + [x]) != 0 {
      CutBefore(es, x, k);
      assert (es + [x])[..k] == es[..k];
      assert es[..k] + ([x] + more) == es[..k] + [x] + more;
      LongerStreamEndsLater(bytes, p.bs, start, es[..k], c, es, b);
    }
  }

  lemma OneMoreEntry(bytes: seq<byte>, p: Replay, start: nat, es: seq<LogEntry>, b: nat, x: LogEntry, more: seq<LogEntry>)
    requires p.bs >= ENTRY_HEADER_SIZE && StopsByTruncateOffset(p, |bytes|)
    requires Reads(bytes, p.bs, start, es, b) && b < p.truncateOffset
    requires ReadAt(bytes, b, p.bs).Got? && ReadAt(bytes, b, p.bs).entry == x && ReadAt(bytes, b, p.bs).offset == p.truncateOffset
    requires Reads(bytes, p.bs, p.truncateOffset, [x] + more, |bytes|)
    ensures Replays(bytes, p, Start(start), es + [x], ReadAt(bytes, b, p.bs).next) && !Run(bytes, p, Start(start)).failed
  {
    hide ReadAt, Run;
    var next, all := ReadAt(bytes, b, p.bs).next, es + ([x] + more);
    FoundThere(bytes, b, p.bs);
    assert Reads(bytes, p.bs, next, [], next) && Reads(bytes, p.bs, b, [x], next);
    ReadsConcat(bytes, p.bs, start, es, b, [x], next);
    assert ([x] + more)[1..] == more;
    assert Reads(bytes, p.bs, b, [x] + more, |bytes|);
    ReadsConcat(bytes, p.bs, start, es, b, [x] + more, |bytes|);
    EndOfFileIsEof(bytes, p.bs);
    hide Reads;
    var n, y := WhereItStops(bytes, p, start, all, |bytes|);
    assert all[..|es| + 1] == es + [x];
    if n <= |es| {
      LongerStreamEndsLater(bytes, p.bs, start, all[..n], y, es, b);
    }
    SameEnd(bytes, p.bs, start, es + [x], if n == |es| + 1 then y else next, next);
  }

  /** An entry found behind padding is found from where it starts as well. */
  lemma {:induction false} FoundThere(bytes: seq<byte>, off: nat, bs: BlockSize)
    requires bs >= ENTRY_HEADER_SIZE && ReadAt(bytes, off, bs).Got?
    ensures ReadAt(bytes, ReadAt(bytes, off, bs).offset, bs) == ReadAt(bytes, off, bs)
    decreases |bytes| - off
  {
    hide ReadAt, SkipShort, DecodeHeader;
    GotStep(bytes, off, bs);
    SkipFrom(off, bs);
    var at := SkipShort(off, bs);
    var h := DecodeHeader(bytes[at..at + ENTRY_HEADER_SIZE]);
    if h.kind == PAD_ENTRY {
      FoundThere(bytes, at + h.time, bs);
    } else {
      EntryStep(bytes, at, at, bs);
    }
  }

  lemma {:induction false} CallsConcat(bytes: seq<byte>, bs: BlockSize, a: nat, es: seq<LogEntry>, b: nat, fs: seq<LogEntry>, c: nat)
    requires Reads(bytes, bs, a, es, b) && Reads(bytes, bs, b, fs, c)
    ensures Reads(bytes, bs, a, es + fs, c)
    ensures Calls(bytes, bs, a, es + fs, c) == Calls(bytes, bs, a, es, b) + Calls(bytes, bs, b, fs, c)
    decreases |es|
  {
    hide ReadAt, Reads, Calls;
    ReadsConcat(bytes, bs, a, es, b, fs, c);
    var rest := Calls(bytes, bs, b, fs, c);
    if |es| == 0 {
      NoCalls(bytes, bs, a, b);
      assert es + fs == fs && [] + rest == rest;
    } else {
      CallsAgain(bytes, bs, a, es, b, []);
      CallsAgain(bytes, bs, a, es + fs, c, []);
      assert (es + fs)[1..] == es[1..] + fs && (es + fs)[0] == es[0];
      CallsConcat(bytes, bs, ReadAt(bytes, a, bs).next, es[1..], b, fs, c);
      var calls, more := Calls(bytes, bs, a, es, b), Calls(bytes, bs, a, es + fs, c);
      assert [] + calls == calls && [] + more == more;
    }
  }

  lemma CallsOfOneMore(bytes: seq<byte>, bs: BlockSize, a: nat, es: seq<LogEntry>, b: nat, x: LogEntry)
    requires Reads(bytes, bs, a, es, b) && ReadAt(bytes, b, bs).Got? && ReadAt(bytes, b, bs).entry == x
    ensures var r := ReadAt(bytes, b, bs);
            && Reads(bytes, bs, a, es + [x], r.next)
            && Calls(bytes, bs, a, es + [x], r.next)
               == Calls(bytes, bs, a, es, b) + if x.kind == HEADER_ENTRY then [] else [Call(x, r.offset)]
  {
    hide ReadAt;
    var r := ReadAt(bytes, b, bs);
    assert Reads(bytes, bs, r.next, [], r.next) && [x][1..] == [];
    assert Reads(bytes, bs, b, [x], r.next);
    CallsConcat(bytes, bs, a, es, b, [x], r.next);
    var one := if x.kind == HEADER_ENTRY then [] else [Call(x, r.offset)];
    assert one + [] == one;
    assert Calls(bytes, bs, b, [x], r.next) == one + Calls(bytes, bs, r.next, [x][1..], r.next);
  }

  lemma CutBefore(es: seq<LogEntry>, x: LogEntry, k: nat)
    requires LastCutPoint(es + [x], 0, k) && Depth(es + [x]) != 0
    ensures k <= |es| && LastCutPoint(es, 0, k)
  {
    var all := es + [x];
    assert all[..|all|] == all;
    forall j: nat | j <= |es|
      ensures CutPoint(all, 0, j) <==> CutPoint(es, 0, j)
    {
      assert all[..j] == es[..j];
    }
  }

}
