/** Where log entries lie in the file: how the writer keeps entries off block
    boundaries and how the reader finds them again. */
module LogReader {
  import opened LogFormat

  /** jr_int is 32 bits wide; a block size of 0 turns blocking off. */
  type BlockSize = x: nat | x < 0x8000_0000

  datatype ReadResult =
    | Eof(at: nat)
    | Bad
    | Got(entry: LogEntry, offset: nat, next: nat)

  // ----- arithmetic on offsets inside a block -----

  function SpaceInBlock(off: nat, bs: BlockSize): (space: nat)
    requires bs > 0
    ensures 0 < space <= bs
  {
    bs - off % bs
  }

  lemma ModOfSum(a: nat, t: nat, m: nat)
    requires m > 0
    ensures (a + t) % m == (a % m + t) % m
  {
    var q, r := a / m, a % m;
    assert a == q * m + r;
    var q2, r2 := (r + t) / m, (r + t) % m;
    assert a + t == (q + q2) * m + r2;
    ModUnique(a + t, q + q2, r2, m);
  }

  lemma ModUnique(x: nat, q: nat, r: nat, m: nat)
    requires r < m && x == q * m + r
    ensures x % m == r
  {
    var d := x / m - q;
    assert d * m == r - x % m;
    assert d >= 1 ==> d * m >= m;
    assert d <= -1 ==> d * m <= -1 * m;
  }

  /** Two offsets at the same distance from a block boundary. */
  predicate SameInBlock(a: nat, b: nat, bs: BlockSize) {
    bs > 0 ==> a % bs == b % bs
  }

  lemma SameOffsetInBlock(a: nat, b: nat, t: nat, bs: BlockSize)
    requires bs > 0 && a % bs == b % bs
    ensures (a + t) % bs == (b + t) % bs
  {
    ModOfSum(a, t, bs);
    ModOfSum(b, t, bs);
  }

  lemma BoundaryAfterSpace(off: nat, bs: BlockSize)
    requires bs > 0
    ensures (off + SpaceInBlock(off, bs)) % bs == 0
  {
    var q := off / bs;
    assert off + SpaceInBlock(off, bs) == (q + 1) * bs;
    ModUnique(off + SpaceInBlock(off, bs), q + 1, 0, bs);
  }

  // ----- the reader -----

  /** Where the reader looks for a header: with less room than a header in the
      block it goes to the next block. */
  function SkipShort(off: nat, bs: BlockSize): (at: nat)
    ensures off <= at
  {
    if bs > 0 && SpaceInBlock(off, bs) < ENTRY_HEADER_SIZE then off + SpaceInBlock(off, bs) else off
  }

  /** The entry whose header has already been read at offset at. */
  function EntryAt(bytes: seq<byte>, at: nat): (r: ReadResult)
    requires at + ENTRY_HEADER_SIZE <= |bytes|
    ensures !r.Eof?
    ensures r.Got? ==> r.offset == at && at + ENTRY_HEADER_SIZE <= r.next <= |bytes|
  {
    var h := DecodeHeader(bytes[at..at + ENTRY_HEADER_SIZE]);
    if h.magic != MAGIC_NUMBER || h.numInts > 127 || h.numPtrs > 127 then Bad
    else
      var rest := bytes[at + ENTRY_HEADER_SIZE..];
      var body := DecodeBody(rest, h.numInts, h.numPtrs);
      if body.None? then Bad
      else
        DecodeBodyPrefix(rest, h.numInts, h.numPtrs, 4 * h.numInts + 4 * h.numPtrs + |Flatten(body.value.1)|, []);
        var e := LogEntry(h.kind, h.time, body.value.0, body.value.1);
        Got(e, at, at + ENTRY_HEADER_SIZE + BodySize(e))
  }

  /** Reading one entry, stepping over pad entries. A pad shorter than its own
      header is reported as bad. */
  function ReadAt(bytes: seq<byte>, off: nat, bs: BlockSize): (r: ReadResult)
    ensures r.Got? ==> off <= r.offset && r.offset + ENTRY_HEADER_SIZE <= r.next <= |bytes|
    ensures r.Eof? ==> |bytes| <= r.at
    decreases |bytes| - off
  {
    var at := SkipShort(off, bs);
    if |bytes| <= at then Eof(at)
    else if |bytes| < at + ENTRY_HEADER_SIZE then Bad
    else
      var h := DecodeHeader(bytes[at..at + ENTRY_HEADER_SIZE]);
      if h.kind == PAD_ENTRY then
        if h.time < ENTRY_HEADER_SIZE then Bad else ReadAt(bytes, at + h.time, bs)
      else EntryAt(bytes, at)
  }

  /** One step of the reader: over a pad entry, or to the entry itself. */
  lemma PadStep(bytes: seq<byte>, off: nat, at: nat, bs: BlockSize)
    requires SkipShort(off, bs) == at && at + ENTRY_HEADER_SIZE <= |bytes|
    requires DecodeHeader(bytes[at..at + ENTRY_HEADER_SIZE]).kind == PAD_ENTRY
    ensures var time := DecodeHeader(bytes[at..at + ENTRY_HEADER_SIZE]).time;
            ReadAt(bytes, off, bs) == if time < ENTRY_HEADER_SIZE then Bad else ReadAt(bytes, at + time, bs)
  {
    hide SkipShort, DecodeHeader, EntryAt;
  }

  lemma EntryStep(bytes: seq<byte>, off: nat, at: nat, bs: BlockSize)
    requires SkipShort(off, bs) == at && at + ENTRY_HEADER_SIZE <= |bytes|
    requires DecodeHeader(bytes[at..at + ENTRY_HEADER_SIZE]).kind != PAD_ENTRY
    ensures ReadAt(bytes, off, bs) == EntryAt(bytes, at)
  {
    hide SkipShort, DecodeHeader, EntryAt;
  }

  lemma GotStep(bytes: seq<byte>, off: nat, bs: BlockSize)
    requires ReadAt(bytes, off, bs).Got?
    ensures var at := SkipShort(off, bs);
            && at + ENTRY_HEADER_SIZE <= |bytes|
            && (var h := DecodeHeader(bytes[at..at + ENTRY_HEADER_SIZE]);
                if h.kind == PAD_ENTRY then h.time >= ENTRY_HEADER_SIZE && ReadAt(bytes, off, bs) == ReadAt(bytes, at + h.time, bs)
                else ReadAt(bytes, off, bs) == EntryAt(bytes, at))
  {
    hide SkipShort, DecodeHeader, EntryAt;
  }

  /** What is found at an offset with room for a header in its block: the end of the
      file, a pad entry to be stepped over, damage, or an entry with the fields that
      stand there in network byte order. */
  lemma WhatIsRead(bytes: seq<byte>, off: nat, bs: BlockSize)
    requires bs == 0 || off % bs + ENTRY_HEADER_SIZE <= bs
    ensures var r := ReadAt(bytes, off, bs);
            && (|bytes| <= off ==> r == Eof(off))
            && (off < |bytes| < off + 16 ==> r.Bad?)
            && (off + 16 <= |bytes| ==>
                  var kind, time := bytes[off + 4] as int * 0x100 + bytes[off + 5], 0x1_0000_0000 * Word(bytes, off + 8) + Word(bytes, off + 12);
                  if kind == 0xfffe then r == if time < 16 then Bad else ReadAt(bytes, off + time, bs)
                  else
                    && (Word(bytes, off) != 0x5a5b5a5b || bytes[off + 6] > 127 || bytes[off + 7] > 127 ==> r.Bad?)
                    && (r.Got? ==>
                          && r.entry.kind == (if kind < 0x8000 then kind else kind - 0x1_0000) && r.entry.time == time
                          && |r.entry.ints| == bytes[off + 6] && |r.entry.data| == bytes[off + 7]
                          && r.offset == off && off + 16 + 4 * |r.entry.ints| + 4 * |r.entry.data| <= r.next <= |bytes|))
  {
    assert SkipShort(off, bs) == off;
    if off + 16 <= |bytes| {
      hide SkipShort, EntryAt, DecodeHeader, Word, ReadAt;
      HeaderFields(bytes, off);
      FieldsOfEntry(bytes, off);
      if DecodeHeader(bytes[off..off + 16]).kind == PAD_ENTRY {
        PadStep(bytes, off, off, bs);
      } else {
        EntryStep(bytes, off, off, bs);
      }
    }
  }

  lemma HeaderFields(bytes: seq<byte>, off: nat)
    requires off + 16 <= |bytes|
    ensures var h, kind := DecodeHeader(bytes[off..off + 16]), bytes[off + 4] as int * 0x100 + bytes[off + 5];
            && h.magic == Word(bytes, off) && h.kind == (if kind < 0x8000 then kind else kind - 0x1_0000)
            && h.numInts == bytes[off + 6] && h.numPtrs == bytes[off + 7]
            && h.time == 0x1_0000_0000 * Word(bytes, off + 8) + Word(bytes, off + 12)
  {
    hide DecodeHeader;
    DecodedLayout(bytes[off..off + 16]);
  }

  lemma FieldsOfEntry(bytes: seq<byte>, at: nat)
    requires at + 16 <= |bytes|
    ensures var h, r := DecodeHeader(bytes[at..at + 16]), EntryAt(bytes, at);
            && (h.magic != MAGIC_NUMBER || h.numInts > 127 || h.numPtrs > 127 ==> r.Bad?)
            && (r.Got? ==> r.entry.kind == h.kind && r.entry.time == h.time && |r.entry.ints| == h.numInts && |r.entry.data| == h.numPtrs
                           && at + 16 + 4 * |r.entry.ints| + 4 * |r.entry.data| <= r.next)
  {
    hide DecodeHeader, DecodeInts, CutPieces, Flatten;
  }

  lemma SameStart(bytes: seq<byte>, off: nat, at: nat, bs: BlockSize)
    requires SkipShort(off, bs) == at == SkipShort(at, bs)
    ensures ReadAt(bytes, off, bs) == ReadAt(bytes, at, bs)
  {
    hide SkipShort, DecodeHeader, EntryAt;
  }

  /** Decoding an entry depends on no byte before its header or past its end. */
  lemma EntryAtWindow(bytes: seq<byte>, a: nat, bytes2: seq<byte>, b: nat)
    requires a + ENTRY_HEADER_SIZE <= |bytes|
    requires EntryAt(bytes, a).Got?
    requires b + (EntryAt(bytes, a).next - a) <= |bytes2|
    requires bytes2[b..b + (EntryAt(bytes, a).next - a)] == bytes[a..EntryAt(bytes, a).next]
    ensures EntryAt(bytes2, b) == Got(EntryAt(bytes, a).entry, b, b + (EntryAt(bytes, a).next - a))
  {
    hide DecodeHeader, DecodeInts, CutPieces, Flatten;
    var next := EntryAt(bytes, a).next;
    var n := next - a;
    var window := bytes[a..next];
    var h := DecodeHeader(bytes[a..a + ENTRY_HEADER_SIZE]);
    assert bytes[a..a + ENTRY_HEADER_SIZE] == window[..ENTRY_HEADER_SIZE];
    assert bytes2[b..b + ENTRY_HEADER_SIZE] == bytes2[b..b + n][..ENTRY_HEADER_SIZE];
    var rest := bytes[a + ENTRY_HEADER_SIZE..];
    var rest2 := bytes2[b + ENTRY_HEADER_SIZE..];
    var size := n - ENTRY_HEADER_SIZE;
    assert rest[..size] == window[ENTRY_HEADER_SIZE..];
    assert rest2[..size] == bytes2[b..b + n][ENTRY_HEADER_SIZE..];
    DecodeBodyPrefix(rest, h.numInts, h.numPtrs, size, rest2[size..]);
    assert rest2 == rest[..size] + rest2[size..];
  }

  /** What is read depends only on the bytes up to the end of the entry and on
      the offset within the block. */
  lemma {:induction false} ReadWindow(bytes: seq<byte>, a: nat, r: ReadResult, bytes2: seq<byte>, b: nat, bs: BlockSize)
    requires SameInBlock(a, b, bs)
    requires r == ReadAt(bytes, a, bs) && r.Got?
    requires b + (r.next - a) <= |bytes2|
    requires bytes2[b..b + (r.next - a)] == bytes[a..r.next]
    ensures ReadAt(bytes2, b, bs) == Got(r.entry, b + (r.offset - a), b + (r.next - a))
    decreases |bytes| - a
  {
    hide EntryAt, DecodeHeader, SkipShort, ReadAt, SameInBlock;
    var at := SkipShort(a, bs);
    GotStep(bytes, a, bs);
    SkipShortShift(a, b, bs);
    HeaderInWindow(bytes, a, r.next, bytes2, b, at);
    var h := DecodeHeader(bytes[at..at + ENTRY_HEADER_SIZE]);
    if h.kind == PAD_ENTRY {
      PadInWindow(bytes, a, r.next, bytes2, b, at + h.time, bs);
      ReadWindow(bytes, at + h.time, r, bytes2, b + (at - a) + h.time, bs);
      PadStep(bytes2, b, b + (at - a), bs);
    } else {
      EntryAtWindow(bytes, at, bytes2, b + (at - a));
      EntryStep(bytes2, b, b + (at - a), bs);
    }
  }

  /** The header found in one window is found in the other. */
  lemma HeaderInWindow(bytes: seq<byte>, a: nat, c: nat, bytes2: seq<byte>, b: nat, at: nat)
    requires a <= at && at + ENTRY_HEADER_SIZE <= c <= |bytes| && b + (c - a) <= |bytes2|
    requires bytes2[b..b + (c - a)] == bytes[a..c]
    ensures var at2 := b + (at - a);
            && bytes2[at2..b + (c - a)] == bytes[at..c]
            && bytes2[at2..at2 + ENTRY_HEADER_SIZE] == bytes[at..at + ENTRY_HEADER_SIZE]
  {
    SubWindow(bytes, a, c, bytes2, b, at);
    WindowStart(bytes, at, c, bytes2, b + (at - a), at + ENTRY_HEADER_SIZE);
  }

  /** What follows a pad entry lies in both windows at the same place in the block. */
  lemma PadInWindow(bytes: seq<byte>, a: nat, c: nat, bytes2: seq<byte>, b: nat, m: nat, bs: BlockSize)
    requires a <= m <= c <= |bytes| && b + (c - a) <= |bytes2| && SameInBlock(a, b, bs)
    requires bytes2[b..b + (c - a)] == bytes[a..c]
    ensures bytes2[b + (m - a)..b + (c - a)] == bytes[m..c]
    ensures SameInBlock(m, b + (m - a), bs)
  {
    SubWindow(bytes, a, c, bytes2, b, m);
    if bs > 0 {
      SameOffsetInBlock(a, b, m - a, bs);
    }
  }

  lemma SkipShortShift(a: nat, b: nat, bs: BlockSize)
    requires SameInBlock(a, b, bs)
    ensures SkipShort(b, bs) - b == SkipShort(a, bs) - a
  {
  }

  lemma WindowStart(bytes: seq<byte>, a: nat, c: nat, bytes2: seq<byte>, b: nat, m: nat)
    requires a <= m <= c <= |bytes| && b + (c - a) <= |bytes2|
    requires bytes2[b..b + (c - a)] == bytes[a..c]
    ensures bytes2[b..b + (m - a)] == bytes[a..m]
  {
    assert bytes[a..m] == bytes[a..c][..m - a];
    assert bytes2[b..b + (m - a)] == bytes2[b..b + (c - a)][..m - a];
  }

  lemma SubWindow(bytes: seq<byte>, a: nat, c: nat, bytes2: seq<byte>, b: nat, m: nat)
    requires a <= m <= c <= |bytes| && b + (c - a) <= |bytes2|
    requires bytes2[b..b + (c - a)] == bytes[a..c]
    ensures bytes2[b + (m - a)..b + (c - a)] == bytes[m..c]
  {
    assert bytes[m..c] == bytes[a..c][m - a..];
    assert bytes2[b + (m - a)..b + (c - a)] == bytes2[b..b + (c - a)][m - a..];
  }

  // ----- the writer -----

  /** The bytes put between the end of the file and an entry of length len so
      that the entry does not cross into the next block. */
  function Gap(off: nat, bs: BlockSize, len: nat): seq<byte> {
    if bs == 0 || off % bs == 0 || len <= SpaceInBlock(off, bs) then []
    else Padding(SpaceInBlock(off, bs))
  }

  function Padding(space: nat): (s: seq<byte>)
    requires space < 0x8000_0000
    ensures |s| == space
  {
    if space < ENTRY_HEADER_SIZE then Zeros(space)
    else EncodeHeader(Header(MAGIC_NUMBER, PAD_ENTRY, 0, 0, space)) + Zeros(space - ENTRY_HEADER_SIZE)
  }

  /** jr_NextLogEntryOffset. */
  function NextEntryOffset(off: nat, len: nat, bs: BlockSize): nat {
    if bs == 0 || off % bs == 0 then off
    else if SpaceInBlock(off, bs) < len then off + SpaceInBlock(off, bs)
    else off
  }

  function EntryBytes(off: nat, bs: BlockSize, e: LogEntry): (s: seq<byte>)
    requires ValidEntry(e)
    ensures |s| >= ENTRY_HEADER_SIZE
  {
    Gap(off, bs, |EncodeEntry(e)|) + EncodeEntry(e)
  }

  /** The predicted offset is the one the writer uses. It is the old one when that is a
      block boundary or the entry fits in the rest of the block, and else the next
      boundary; from there an entry that fits in a block stays within one block. */
  lemma NextEntryOffsetIsUsed(off: nat, len: nat, bs: BlockSize)
    ensures NextEntryOffset(off, len, bs) == off + |Gap(off, bs, len)|
    ensures bs > 0 && len <= bs ==> NextEntryOffset(off, len, bs) % bs + len <= bs
    ensures bs == 0 || off % bs == 0 || off % bs + len <= bs ==> NextEntryOffset(off, len, bs) == off
    ensures bs > 0 && off % bs != 0 && off % bs + len > bs ==>
              NextEntryOffset(off, len, bs) % bs == 0 && off < NextEntryOffset(off, len, bs) < off + bs
  {
    if bs > 0 {
      BoundaryAfterSpace(off, bs);
    }
  }

  /** A block must have room for an entry header; opening an existing log
      demands more, namely room for the whole log header entry. */
  predicate UsableBlockSize(bs: BlockSize) {
    bs == 0 || bs >= ENTRY_HEADER_SIZE
  }

  lemma EncodedEntryIsRead(bytes: seq<byte>, at: nat, e: LogEntry)
    requires ValidEntry(e)
    requires at + |EncodeEntry(e)| <= |bytes|
    requires bytes[at..at + |EncodeEntry(e)|] == EncodeEntry(e)
    ensures EntryAt(bytes, at) == Got(e, at, at + |EncodeEntry(e)|)
    ensures DecodeHeader(bytes[at..at + ENTRY_HEADER_SIZE]).kind != PAD_ENTRY
  {
    hide DecodeHeader, EncodeHeader, DecodeBody;
    var s := EncodeEntry(e);
    var h := EntryHeader(e);
    HeaderRoundTrip(h);
    assert bytes[at..at + ENTRY_HEADER_SIZE] == s[..ENTRY_HEADER_SIZE] == EncodeHeader(h);
    var rest := bytes[at + ENTRY_HEADER_SIZE..];
    var tail := bytes[at + |s|..];
    assert s[ENTRY_HEADER_SIZE..] == EncodeBody(e);
    assert rest == bytes[at..at + |s|][ENTRY_HEADER_SIZE..] + tail;
    BodyRoundTrip(e, tail);
  }

  /** Padding written at off makes the reader continue at the block boundary. */
  lemma PaddingIsSkipped(bytes: seq<byte>, off: nat, bs: BlockSize)
    requires bs >= ENTRY_HEADER_SIZE && off % bs != 0
    requires off + SpaceInBlock(off, bs) <= |bytes|
    requires SpaceInBlock(off, bs) >= ENTRY_HEADER_SIZE ==>
               bytes[off..off + ENTRY_HEADER_SIZE] ==
               EncodeHeader(Header(MAGIC_NUMBER, PAD_ENTRY, 0, 0, SpaceInBlock(off, bs)))
    ensures ReadAt(bytes, off, bs) == ReadAt(bytes, off + SpaceInBlock(off, bs), bs)
  {
    hide EncodeHeader, DecodeHeader, SkipShort, SpaceInBlock, ReadAt;
    var space := SpaceInBlock(off, bs);
    SkipFrom(off, bs);
    if space >= ENTRY_HEADER_SIZE {
      HeaderRoundTrip(Header(MAGIC_NUMBER, PAD_ENTRY, 0, 0, space));
      PadStep(bytes, off, off, bs);
    } else {
      SameStart(bytes, off, off + space, bs);
    }
  }

  lemma SkipFrom(off: nat, bs: BlockSize)
    requires bs >= ENTRY_HEADER_SIZE
    ensures var space := SpaceInBlock(off, bs);
            if space >= ENTRY_HEADER_SIZE then SkipShort(off, bs) == off
            else SkipShort(off, bs) == off + space == SkipShort(off + space, bs)
  {
    if SpaceInBlock(off, bs) < ENTRY_HEADER_SIZE {
      BoundaryAfterSpace(off, bs);
      BoundarySkip(off + SpaceInBlock(off, bs), bs);
    }
  }

  /** On a block boundary the reader has a whole block of room. */
  lemma BoundarySkip(off: nat, bs: BlockSize)
    requires bs >= ENTRY_HEADER_SIZE && off % bs == 0
    ensures SkipShort(off, bs) == off
  {
  }

  /** An entry written at the end of a file is read back from there, whatever
      follows it. */
  lemma WrittenEntryIsRead(pre: seq<byte>, e: LogEntry, bs: BlockSize, tail: seq<byte>)
    requires UsableBlockSize(bs) && ValidEntry(e)
    ensures var gap := Gap(|pre|, bs, |EncodeEntry(e)|);
            ReadAt(pre + EntryBytes(|pre|, bs, e) + tail, |pre|, bs)
            == Got(e, |pre| + |gap|, |pre| + |EntryBytes(|pre|, bs, e)|)
  {
    hide EntryAt, DecodeHeader, EncodeHeader, EncodeEntry;
    var off := |pre|;
    var gap := Gap(off, bs, |EncodeEntry(e)|);
    var bytes := pre + EntryBytes(off, bs, e) + tail;
    var at := off + |gap|;
    assert bytes[at..at + |EncodeEntry(e)|] == EncodeEntry(e);
    EncodedEntryIsRead(bytes, at, e);
    if |gap| > 0 {
      var space := SpaceInBlock(off, bs);
      BoundaryAfterSpace(off, bs);
      if space >= ENTRY_HEADER_SIZE {
        var h := EncodeHeader(Header(MAGIC_NUMBER, PAD_ENTRY, 0, 0, space));
        assert bytes[off..off + ENTRY_HEADER_SIZE] == gap[..ENTRY_HEADER_SIZE] == h;
      }
      PaddingIsSkipped(bytes, off, bs);
    }
    assert SkipShort(at, bs) == at;
  }

  // ----- streams of entries -----

  /** From offset a the reader returns exactly the entries es and then stands
      at offset b. */
  ghost predicate Reads(bytes: seq<byte>, bs: BlockSize, a: nat, es: seq<LogEntry>, b: nat)
    decreases |es|
  {
    if |es| == 0 then a == b
    else
      var r := ReadAt(bytes, a, bs);
      r.Got? && r.entry == es[0] && Reads(bytes, bs, r.next, es[1..], b)
  }

  lemma {:induction false} ReadsBounds(bytes: seq<byte>, bs: BlockSize, a: nat, es: seq<LogEntry>, b: nat)
    requires Reads(bytes, bs, a, es, b)
    ensures a <= b
    ensures |es| > 0 ==> a < b <= |bytes|
    decreases |es|
  {
    hide ReadAt;
    if |es| > 0 {
      ReadsBounds(bytes, bs, ReadAt(bytes, a, bs).next, es[1..], b);
    }
  }

  lemma {:induction false} ReadsConcat(bytes: seq<byte>, bs: BlockSize, a: nat, es: seq<LogEntry>, b: nat, fs: seq<LogEntry>, c: nat)
    requires Reads(bytes, bs, a, es, b) && Reads(bytes, bs, b, fs, c)
    ensures Reads(bytes, bs, a, es + fs, c)
    decreases |es|
  {
    hide ReadAt;
    if |es| == 0 {
      assert es + fs == fs;
    } else {
      ReadsConcat(bytes, bs, ReadAt(bytes, a, bs).next, es[1..], b, fs, c);
      assert (es + fs)[1..] == es[1..] + fs;
    }
  }

  /** Of a stream read in two parts the second is read from where the first ends. */
  lemma {:induction false} ReadsSplit(bytes: seq<byte>, bs: BlockSize, a: nat, es: seq<LogEntry>, m: nat, fs: seq<LogEntry>, b: nat)
    requires Reads(bytes, bs, a, es + fs, b) && Reads(bytes, bs, a, es, m)
    ensures Reads(bytes, bs, m, fs, b)
    decreases |es|
  {
    hide ReadAt;
    if |es| == 0 {
      assert es + fs == fs;
    } else {
      assert (es + fs)[1..] == es[1..] + fs;
      ReadsSplit(bytes, bs, ReadAt(bytes, a, bs).next, es[1..], m, fs, b);
    }
  }

  /** The stream of entries is determined by where it starts and ends. */
  lemma {:induction false} ReadsUnique(bytes: seq<byte>, bs: BlockSize, a: nat, es: seq<LogEntry>, fs: seq<LogEntry>, b: nat)
    requires Reads(bytes, bs, a, es, b) && Reads(bytes, bs, a, fs, b)
    ensures es == fs
    decreases |es|
  {
    hide ReadAt;
    ReadsBounds(bytes, bs, a, es, b);
    ReadsBounds(bytes, bs, a, fs, b);
    if |es| > 0 && |fs| > 0 {
      ReadsUnique(bytes, bs, ReadAt(bytes, a, bs).next, es[1..], fs[1..], b);
      assert es == [es[0]] + es[1..];
      assert fs == [fs[0]] + fs[1..];
    }
  }

  lemma {:induction false} LongerStreamEndsLater(bytes: seq<byte>, bs: BlockSize, a: nat, es: seq<LogEntry>, b: nat, fs: seq<LogEntry>, c: nat)
    requires Reads(bytes, bs, a, es, b) && Reads(bytes, bs, a, fs, c)
    requires |es| <= |fs|
    ensures |es| < |fs| ==> b < c
    ensures |es| == |fs| ==> b == c
    decreases |es|
  {
    hide ReadAt;
    ReadsBounds(bytes, bs, a, fs, c);
    if |es| > 0 {
      LongerStreamEndsLater(bytes, bs, ReadAt(bytes, a, bs).next, es[1..], b, fs[1..], c);
    }
  }

  /** A stream reads the same wherever its bytes stand, provided the offset in
      the block is the same. */
  lemma {:induction false} ReadsWindow(bytes: seq<byte>, bs: BlockSize, a: nat, es: seq<LogEntry>, b: nat, bytes2: seq<byte>, a2: nat)
    requires Reads(bytes, bs, a, es, b)
    requires bs > 0 ==> a % bs == a2 % bs
    requires a <= b <= |bytes| && a2 + (b - a) <= |bytes2|
    requires bytes2[a2..a2 + (b - a)] == bytes[a..b]
    ensures Reads(bytes2, bs, a2, es, a2 + (b - a))
    decreases |es|
  {
    hide ReadAt;
    if |es| > 0 {
      var r := ReadAt(bytes, a, bs);
      ReadsBounds(bytes, bs, r.next, es[1..], b);
      var n := r.next - a;
      assert bytes[a..r.next] == bytes[a..b][..n];
      assert bytes2[a2..a2 + n] == bytes2[a2..a2 + (b - a)][..n];
      ReadWindow(bytes, a, r, bytes2, a2, bs);
      if bs > 0 {
        SameOffsetInBlock(a, a2, n, bs);
      }
      assert bytes[r.next..b] == bytes[a..b][n..];
      assert bytes2[a2 + n..a2 + (b - a)] == bytes2[a2..a2 + (b - a)][n..];
      ReadsWindow(bytes, bs, r.next, es[1..], b, bytes2, a2 + n);
    }
  }

  /** Appending an entry to a log that ends cleanly adds it to the stream. */
  lemma AppendReads(bytes: seq<byte>, bs: BlockSize, a: nat, es: seq<LogEntry>, e: LogEntry)
    requires UsableBlockSize(bs) && ValidEntry(e)
    requires a <= |bytes| && Reads(bytes, bs, a, es, |bytes|)
    ensures var bytes2 := bytes + EntryBytes(|bytes|, bs, e);
            Reads(bytes2, bs, a, es + [e], |bytes2|)
  {
    hide ReadAt, EntryBytes;
    var bytes2 := bytes + EntryBytes(|bytes|, bs, e);
    assert bytes2[a..|bytes|] == bytes[a..|bytes|];
    ReadsWindow(bytes, bs, a, es, |bytes|, bytes2, a);
    WrittenEntryIsRead(bytes, e, bs, []);
    assert bytes2 == bytes + EntryBytes(|bytes|, bs, e) + [];
    assert Reads(bytes2, bs, |bytes2|, [], |bytes2|);
    assert Reads(bytes2, bs, |bytes|, [e], |bytes2|);
    ReadsConcat(bytes2, bs, a, es, |bytes|, [e], |bytes2|);
  }

  lemma EndOfFileIsEof(bytes: seq<byte>, bs: BlockSize)
    ensures ReadAt(bytes, |bytes|, bs).Eof?
  {
  }

  ghost predicate AllValid(es: seq<LogEntry>) {
    forall i :: 0 <= i < |es| ==> ValidEntry(es[i])
  }

  /** The file after writing entries one after the other at its end. */
  ghost function WriteAll(bytes: seq<byte>, bs: BlockSize, es: seq<LogEntry>): seq<byte>
    requires AllValid(es)
    decreases |es|
  {
    if |es| == 0 then bytes
    else WriteAll(bytes + EntryBytes(|bytes|, bs, es[0]), bs, es[1..])
  }

  /** Round trip: reading a written log returns the written entries in order
      and ends exactly at the end of the file. */
  lemma {:induction false} WriteReadRoundTrip(bytes: seq<byte>, bs: BlockSize, a: nat, before: seq<LogEntry>, es: seq<LogEntry>)
    requires UsableBlockSize(bs) && AllValid(es)
    requires a <= |bytes| && Reads(bytes, bs, a, before, |bytes|)
    ensures var file := WriteAll(bytes, bs, es);
            a <= |file| && Reads(file, bs, a, before + es, |file|) && ReadAt(file, |file|, bs).Eof?
    decreases |es|
  {
    hide ReadAt, EntryBytes;
    if |es| == 0 {
      assert before + es == before;
      EndOfFileIsEof(bytes, bs);
    } else {
      AppendReads(bytes, bs, a, before, es[0]);
      WriteReadRoundTrip(bytes + EntryBytes(|bytes|, bs, es[0]), bs, a, before + [es[0]], es[1..]);
      assert before + [es[0]] + es[1..] == before + es;
    }
  }
}
