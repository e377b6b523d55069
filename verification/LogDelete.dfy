/** Cutting a byte range out of a log so that what remains still parses. */
module LogDelete {
  import opened LogFormat
  import opened LogReader
  import opened LogFile

  const INT_MAX: nat := 0x7fff_ffff

  datatype Status = Success | GenericError | CorruptedError

  /** Status and file contents. */
  datatype DeleteResult = DeleteResult(status: Status, bytes: seq<byte>)

  /** Removing the bytes from s to e, both within the file. */
  function Removed(bytes: seq<byte>, s: nat, e: nat): seq<byte>
    requires s <= e <= |bytes|
  {
    bytes[..s] + bytes[e..]
  }

  function DeleteSpec(bytes: seq<byte>, bs: BlockSize, s: nat, e: nat): DeleteResult
    requires bs > 0
  {
    if e < s then DeleteResult(GenericError, bytes)
    else if s == e then DeleteResult(Success, bytes)
    else if s % bs == e % bs then
      if |bytes| < e then DeleteResult(CorruptedError, bytes)
      else DeleteResult(Success, Removed(bytes, s, e))
    else if |bytes| <= e then DeleteResult(Success, Truncated(bytes, s))
    else if e % bs != 0 then DeleteResult(GenericError, bytes)
    else
      BoundaryBetween(s, e, bs);
      PadFileSize(bytes, s, bs, e);
      DeleteResult(Success, Removed(PadFile(bytes, s, bs, INT_MAX), NextEntryOffset(s, INT_MAX, bs), e))
  }

  /** The first block boundary at or after s lies at or before every later boundary. */
  lemma BoundaryBetween(s: nat, e: nat, bs: BlockSize)
    requires bs > 0 && s < e && e % bs == 0
    ensures NextEntryOffset(s, INT_MAX, bs) <= e
  {
    if s % bs != 0 {
      var space := SpaceInBlock(s, bs);
      var q, r := s / bs, e / bs;
      assert s + space == (q + 1) * bs;
      assert e == r * bs;
      if r <= q {
        assert r * bs <= q * bs;
      } else {
        assert (q + 1) * bs <= r * bs;
      }
    }
  }

  /** Padding before e changes neither the file's length nor anything from e on. */
  lemma PadFileSize(bytes: seq<byte>, s: nat, bs: BlockSize, e: nat)
    requires bs > 0 && s < e <= |bytes|
    requires NextEntryOffset(s, INT_MAX, bs) <= e
    ensures |PadFile(bytes, s, bs, INT_MAX)| == |bytes|
    ensures PadFile(bytes, s, bs, INT_MAX)[..s] == bytes[..s]
    ensures PadFile(bytes, s, bs, INT_MAX)[e..] == bytes[e..]
  {
    hide EncodeHeader;
    NextEntryOffsetIsUsed(s, INT_MAX, bs);
  }

  // ----- the copy loop -----

  /** The file after k bytes from e on have been copied down to s. */
  ghost function Slid(bytes: seq<byte>, s: nat, e: nat, k: nat): seq<byte>
    requires s <= e && e + k <= |bytes|
  {
    bytes[..s] + bytes[e..e + k] + bytes[s + k..]
  }

  lemma SlidSuffix(bytes: seq<byte>, s: nat, e: nat, k: nat, m: nat)
    requires s <= e && e + k <= |bytes|
    requires s + k <= m <= |bytes|
    ensures |Slid(bytes, s, e, k)| == |bytes|
    ensures Slid(bytes, s, e, k)[m..] == bytes[m..]
  {
    assert Slid(bytes, s, e, k)[m..] == bytes[s + k..][m - (s + k)..];
  }

  lemma SlidEnds(bytes: seq<byte>, s: nat, e: nat)
    requires s <= e <= |bytes|
    ensures Slid(bytes, s, e, 0) == bytes
    ensures Truncated(Slid(bytes, s, e, |bytes| - e), s + (|bytes| - e)) == Removed(bytes, s, e)
  {
  }

  lemma SlidGrows(bytes: seq<byte>, s: nat, e: nat, k: nat, n: nat)
    requires s <= e && e + k + n <= |bytes|
    ensures Slid(bytes, s, e, k)[..s + k] == bytes[..s] + bytes[e..e + k]
    ensures Slid(bytes, s, e, k + n) == bytes[..s] + bytes[e..e + k] + bytes[e + k..e + k + n] + bytes[s + k + n..]
  {
    assert bytes[e..e + k] + bytes[e + k..e + k + n] == bytes[e..e + k + n];
  }

  lemma SameWindow(f: seq<byte>, bytes: seq<byte>, a: nat, n: nat)
    requires a + n <= |f| && a + n <= |bytes| && f[a..] == bytes[a..]
    ensures f[a..a + n] == bytes[a..a + n]
  {
    assert f[a..a + n] == f[a..][..n];
    assert bytes[a..a + n] == bytes[a..][..n];
  }

  lemma SlideChunk(bytes: seq<byte>, s: nat, e: nat, k: nat, n: nat)
    requires s <= e && e + k + n <= |bytes| && n > 0
    ensures Chunk(Slid(bytes, s, e, k), e + k, n) == bytes[e + k..e + k + n]
    ensures Overwrite(Slid(bytes, s, e, k), s + k, bytes[e + k..e + k + n]) == Slid(bytes, s, e, k + n)
  {
    var f := Slid(bytes, s, e, k);
    SlidSuffix(bytes, s, e, k, e + k);
    SlidSuffix(bytes, s, e, k, s + k + n);
    var c := bytes[e + k..e + k + n];
    SameWindow(f, bytes, e + k, n);
    SlidGrows(bytes, s, e, k, n);
    hide Slid, Overwrite;
    SlideWrite(bytes[..s] + bytes[e..e + k], f, s + k, c);
  }

  lemma SlideWrite(before: seq<byte>, f: seq<byte>, pos: nat, c: seq<byte>)
    requires |before| == pos && pos + |c| <= |f| && f[..pos] == before && |c| > 0
    ensures Overwrite(f, pos, c) == before + c + f[pos + |c|..]
  {
  }

  /** The loop of jr_LogDeleteRange with the truncation that follows it. When
      end lies past the end of the file the unsigned byte count wraps and the
      first read comes back short. */
  method CopyDownAndTruncate(file: File, bs: BlockSize, s: nat, e: nat) returns (status: Status)
    requires bs > 0 && (s <= e || e == |file.bytes|)
    modifies file
    ensures status == if e <= |old(file.bytes)| then Success else CorruptedError
    ensures status == Success ==> file.pos == |file.bytes|
    ensures status == Success && s <= e ==> file.bytes == Removed(old(file.bytes), s, e)
    ensures status == Success && s > e ==> file.bytes == Truncated(old(file.bytes), s)
    ensures status != Success ==> file.bytes == old(file.bytes) && file.pos == e
  {
    hide Slid, Overwrite, Removed, Truncated;
    ghost var bytes := file.bytes;
    file.SeekEnd();
    var readSize: nat := bs;
    if file.pos < e {
      file.Seek(e);
      var none := file.Read(readSize);
      assert |none| != readSize;
      return CorruptedError;
    }
    var numBytes: nat := file.pos - e;
    var start, end := s, e;
    if s <= e {
      SlidEnds(bytes, s, e);
    }
    while numBytes > 0
      invariant readSize > 0
      invariant s > e ==> numBytes == 0 && file.bytes == bytes && start == s
      invariant s <= e ==> start - s == end - e >= 0 && end + numBytes == |bytes|
      invariant s <= e ==> file.bytes == Slid(bytes, s, e, end - e)
    {
      file.Seek(end);
      if numBytes < readSize {
        readSize := numBytes;
      }
      SlideChunk(bytes, s, e, end - e, readSize);
      var buffer := file.Read(readSize);
      file.Seek(start);
      file.Write(buffer);
      numBytes := numBytes - readSize;
      start := start + readSize;
      end := end + readSize;
    }
    file.Truncate(start);
    file.Seek(start);
    status := Success;
  }

  /** jr_LogDeleteRange. */
  method DeleteRange(file: File, bs: BlockSize, startOffset: nat, endOffset: nat) returns (status: Status)
    requires bs > 0
    modifies file
    ensures DeleteResult(status, file.bytes) == DeleteSpec(old(file.bytes), bs, startOffset, endOffset)
    ensures status == Success && startOffset != endOffset ==> file.pos == |file.bytes|
    ensures startOffset == endOffset ==> file.pos == old(file.pos)
    ensures status == CorruptedError ==> file.pos == endOffset
    ensures status == GenericError && startOffset <= endOffset ==> file.pos == |file.bytes|
  {
    hide PadFile, NextEntryOffset;
    var s, e := startOffset, endOffset;
    if e < s {
      return GenericError;
    }
    if s == e {
      return Success;
    }
    if s % bs != e % bs {
      file.SeekEnd();
      var eof := file.pos;
      if eof <= e {
        e := eof;
      } else {
        if e % bs != 0 {
          return GenericError;
        }
        if s % bs != 0 {
          BoundaryBetween(s, e, bs);
          PadFileSize(file.bytes, s, bs, e);
          file.Seek(s);
          s := AvoidBlockBoundary(file, bs, INT_MAX);
        }
      }
    }
    status := CopyDownAndTruncate(file, bs, s, e);
    assert s <= e == |old(file.bytes)| ==> old(file.bytes)[..s] + [] == old(file.bytes)[..s];
  }

  // ----- what the remaining log contains -----

  /** A range can be cut when its ends stand at the same place in their blocks, when
      it ends the file, or when it ends on a block boundary; one that ends behind
      the file when its ends do not stand at the same place. */
  predicate Deletable(bytes: seq<byte>, bs: BlockSize, s: nat, e: nat)
    requires bs > 0
  {
    if e <= |bytes| then s == e || s % bs == e % bs || e == |bytes| || e % bs == 0
    else s % bs != e % bs
  }

  /** Deletion is accepted exactly for the ranges above and for empty ones, wherever
      they are, and never for one that ends in front of its start. A refused deletion
      leaves the file alone. */
  lemma DeleteAcceptedIff(bytes: seq<byte>, bs: BlockSize, s: nat, e: nat)
    requires bs > 0
    ensures var r := DeleteSpec(bytes, bs, s, e);
            && (r.status == Success <==> s <= e && (s == e || Deletable(bytes, bs, s, e)))
            && (r.status == CorruptedError <==> s < e && |bytes| < e && s % bs == e % bs)
            && (r.status != Success || s == e ==> r.bytes == bytes)
  {
  }

  /** What an accepted deletion leaves: the bytes in front of the range and, less than
      a block behind these and at the same place in its block, what was behind it. */
  lemma WhatDeletionLeaves(bytes: seq<byte>, bs: BlockSize, s: nat, e: nat)
    requires bs > 0 && s < e && s <= |bytes| && DeleteSpec(bytes, bs, s, e).status == Success
    ensures var r, tail := DeleteSpec(bytes, bs, s, e).bytes, if e < |bytes| then |bytes| - e else 0;
            && s <= |r| - tail && r[..s] == bytes[..s]
            && r[|r| - tail..] == bytes[|bytes| - tail..]
            && (tail == 0 || s % bs == e % bs ==> |r| - tail == s)
            && (tail > 0 ==> |r| - tail < s + bs && (|r| - tail) % bs == e % bs)
  {
    hide PadFile, NextEntryOffset;
    if s % bs != e % bs && e < |bytes| {
      BoundaryBetween(s, e, bs);
      PadFileSize(bytes, s, bs, e);
      NextEntryOffsetIsUsed(s, INT_MAX, bs);
      var padded, at := PadFile(bytes, s, bs, INT_MAX), NextEntryOffset(s, INT_MAX, bs);
      var r := Removed(padded, at, e);
      assert r[..s] == padded[..s] && r[at..] == padded[e..];
    }
  }

  /** Bytes that follow in the same block position read the same entries. */
  lemma RemovedReads(bytes: seq<byte>, bs: BlockSize, a: nat, es: seq<LogEntry>, s: nat, e: nat, fs: seq<LogEntry>, z: nat)
    requires bs > 0 && a <= s <= e <= z <= |bytes| && s % bs == e % bs
    requires Reads(bytes, bs, a, es, s) && Reads(bytes, bs, e, fs, z)
    ensures Reads(Removed(bytes, s, e), bs, a, es + fs, z - (e - s))
  {
    hide Reads;
    var r := Removed(bytes, s, e);
    assert r[a..s] == bytes[a..s];
    ReadsWindow(bytes, bs, a, es, s, r, a);
    assert r[s..s + (z - e)] == bytes[e..z];
    ReadsWindow(bytes, bs, e, fs, z, r, s);
    ReadsConcat(r, bs, a, es, s, fs, z - (e - s));
  }

  lemma TruncatedReads(bytes: seq<byte>, bs: BlockSize, a: nat, es: seq<LogEntry>, s: nat)
    requires a <= s <= |bytes| && Reads(bytes, bs, a, es, s)
    ensures Reads(bytes[..s], bs, a, es, s)
  {
    hide Reads;
    assert bytes[..s][a..s] == bytes[a..s];
    ReadsWindow(bytes, bs, a, es, s, bytes[..s], a);
  }

  /** A stream found at the next block boundary is also found from where the
      padding before it starts. */
  lemma PaddedReads(bytes: seq<byte>, bs: BlockSize, s: nat, e: nat, fs: seq<LogEntry>, z: nat)
    requires bs >= ENTRY_HEADER_SIZE && s < e < |bytes| && e <= z <= |bytes| && e % bs == 0 && s % bs != 0
    requires Reads(bytes, bs, e, fs, z)
    ensures DeleteSpec(bytes, bs, s, e).status == Success
    ensures var r := DeleteSpec(bytes, bs, s, e).bytes;
            && |r| >= s && |r| >= |bytes| - z && r[..s] == bytes[..s]
            && (fs != [] ==> Reads(r, bs, s, fs, |r| - (|bytes| - z)))
  {
    hide EncodeHeader, ReadAt, DeleteSpec, SpaceInBlock, Reads;
    var r, s2 := PaddedBytes(bytes, bs, s, e);
    BoundaryAfterSpace(s, bs);
    if fs == [] {
      EmptyEnds(bytes, bs, e, z);
    } else {
      ReadsBounds(bytes, bs, e, fs, z);
      assert r[s2..s2 + (z - e)] == r[s2..][..z - e] == bytes[e..z];
      ReadsWindow(bytes, bs, e, fs, z, r, s2);
      PaddingIsSkipped(r, s, bs);
      FromSameRead(r, bs, s, s2, fs, s2 + (z - e));
    }
  }

  lemma FromSameRead(bytes: seq<byte>, bs: BlockSize, a: nat, a2: nat, fs: seq<LogEntry>, b: nat)
    requires Reads(bytes, bs, a2, fs, b) && fs != [] && ReadAt(bytes, a, bs) == ReadAt(bytes, a2, bs)
    ensures Reads(bytes, bs, a, fs, b)
  {
    hide ReadAt;
  }

  /** The bytes that are left: those in front of s, padding up to the next block
      boundary, and those from e on. */
  lemma PaddedBytes(bytes: seq<byte>, bs: BlockSize, s: nat, e: nat) returns (r: seq<byte>, s2: nat)
    requires bs >= ENTRY_HEADER_SIZE && s < e < |bytes| && e % bs == 0 && s % bs != 0
    ensures DeleteSpec(bytes, bs, s, e) == DeleteResult(Success, r) && s2 == s + SpaceInBlock(s, bs)
    ensures |r| == s2 + (|bytes| - e) && r[..s] == bytes[..s] && r[s2..] == bytes[e..]
    ensures SpaceInBlock(s, bs) >= ENTRY_HEADER_SIZE ==>
              r[s..s + ENTRY_HEADER_SIZE] == EncodeHeader(Header(MAGIC_NUMBER, PAD_ENTRY, 0, 0, SpaceInBlock(s, bs)))
  {
    hide EncodeHeader;
    BoundaryBetween(s, e, bs);
    PadFileSize(bytes, s, bs, e);
    NextEntryOffsetIsUsed(s, INT_MAX, bs);
    var padded := PadFile(bytes, s, bs, INT_MAX);
    s2 := NextEntryOffset(s, INT_MAX, bs);
    r := Removed(padded, s2, e);
    if s2 - s >= ENTRY_HEADER_SIZE {
      var h := EncodeHeader(Header(MAGIC_NUMBER, PAD_ENTRY, 0, 0, s2 - s));
      assert r[s..s + ENTRY_HEADER_SIZE] == padded[s..s + ENTRY_HEADER_SIZE] == h;
    }
    assert r[..s] == padded[..s] == bytes[..s];
  }

  /** Deleting from an entry boundary s to an offset e, from which the file reads as
      entries fs that end at z, leaves a log that reads as the entries before s
      followed by fs, and ends at y, as far from the end of the file as z was, or at
      s. What stood between, and whether an entry ended at e, does not matter. */
  lemma DeleteKeepsStream(bytes: seq<byte>, bs: BlockSize, a: nat, es: seq<LogEntry>, s: nat, e: nat, fs: seq<LogEntry>, z: nat) returns (y: nat)
    requires bs >= ENTRY_HEADER_SIZE && a <= s <= e <= z <= |bytes|
    requires Reads(bytes, bs, a, es, s) && Reads(bytes, bs, e, fs, z)
    requires Deletable(bytes, bs, s, e)
    ensures var r := DeleteSpec(bytes, bs, s, e);
            && r.status == Success && Reads(r.bytes, bs, a, es + fs, y)
            && (|r.bytes| - y == |bytes| - z || (fs == [] && y == s))
            && (z == |bytes| ==> y == |r.bytes|)
  {
    hide Reads, DeleteSpec, Removed;
    DeletedBytes(bytes, bs, s, e);
    ReadsBounds(bytes, bs, e, fs, z);
    var r := DeleteSpec(bytes, bs, s, e).bytes;
    y := s;
    if fs == [] {
      EmptyEnds(bytes, bs, e, z);
      assert es + fs == es;
    }
    if s == e {
      ReadsConcat(bytes, bs, a, es, s, fs, z);
      y := z;
    } else if s % bs == e % bs {
      RemovedReads(bytes, bs, a, es, s, e, fs, z);
      y := z - (e - s);
    } else if e == |bytes| {
      TruncatedReads(bytes, bs, a, es, s);
    } else {
      PaddedReads(bytes, bs, s, e, fs, z);
      assert r[a..s] == r[..s][a..] == bytes[a..s];
      ReadsWindow(bytes, bs, a, es, s, r, a);
      if fs != [] {
        y := |r| - (|bytes| - z);
        ReadsConcat(r, bs, a, es, s, fs, y);
      }
    }
  }

  lemma DeletedBytes(bytes: seq<byte>, bs: BlockSize, s: nat, e: nat)
    requires bs > 0 && s <= e <= |bytes| && Deletable(bytes, bs, s, e)
    ensures var r := DeleteSpec(bytes, bs, s, e);
            && r.status == Success
            && (s == e ==> r.bytes == bytes)
            && (s % bs == e % bs ==> r.bytes == Removed(bytes, s, e) && |r.bytes| == |bytes| - (e - s))
            && (s % bs != e % bs && e == |bytes| ==> r.bytes == bytes[..s])
  {
    hide PadFile;
    assert bytes[..s] + bytes[s..] == bytes;
  }

  lemma EmptyEnds(bytes: seq<byte>, bs: BlockSize, a: nat, b: nat)
    requires Reads(bytes, bs, a, [], b)
    ensures a == b
  {
  }

  /** Deletion changes nothing in front of the range. */
  lemma DeleteKeepsFront(bytes: seq<byte>, bs: BlockSize, s: nat, e: nat, n: nat)
    requires bs > 0 && n <= s && n <= |bytes|
    ensures var r := DeleteSpec(bytes, bs, s, e).bytes;
            n <= |r| && r[..n] == bytes[..n]
  {
    hide PadFile;
    PadKeepsFront(bytes, s, bs, INT_MAX, n);
    if s < e && e < |bytes| && e % bs == 0 && s % bs != 0 {
      BoundaryBetween(s, e, bs);
      PadFileSize(bytes, s, bs, e);
      NextEntryOffsetIsUsed(s, INT_MAX, bs);
    }
  }
}
