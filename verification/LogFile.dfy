/** The file under a log and the two loops that move one entry to or from it. */
module LogFile {
  import opened LogFormat
  import opened LogReader

  // ----- the file -----

  /** Writing b at offset pos; the part between the end of the file and pos
      reads as zeros afterwards. Writing nothing changes nothing. */
  function Overwrite(bytes: seq<byte>, pos: nat, b: seq<byte>): seq<byte> {
    if |b| == 0 then bytes
    else
      var before := if pos <= |bytes| then bytes[..pos] else bytes + Zeros(pos - |bytes|);
      before + b + if pos + |b| < |bytes| then bytes[pos + |b|..] else []
  }

  function Chunk(bytes: seq<byte>, pos: nat, n: nat): (b: seq<byte>)
    ensures |b| <= n
  {
    if |bytes| <= pos then []
    else if |bytes| < pos + n then bytes[pos..]
    else bytes[pos..pos + n]
  }

  function Truncated(bytes: seq<byte>, n: nat): (r: seq<byte>)
    ensures |r| == n
  {
    if n <= |bytes| then bytes[..n] else bytes + Zeros(n - |bytes|)
  }

  class File {
    var bytes: seq<byte>
    var pos: nat

    constructor (content: seq<byte>)
      ensures bytes == content && pos == 0
    {
      bytes, pos := content, 0;
    }

    method Write(b: seq<byte>)
      modifies this
      ensures bytes == Overwrite(old(bytes), old(pos), b) && pos == old(pos) + |b|
    {
      bytes := Overwrite(bytes, pos, b);
      pos := pos + |b|;
    }

    method Read(n: nat) returns (b: seq<byte>)
      modifies `pos
      ensures b == Chunk(bytes, old(pos), n) && pos == old(pos) + |b|
    {
      b := Chunk(bytes, pos, n);
      pos := pos + |b|;
    }

    method Seek(offset: nat)
      modifies `pos
      ensures pos == offset
    {
      pos := offset;
    }

    method SeekEnd()
      modifies `pos
      ensures pos == |bytes|
    {
      pos := |bytes|;
    }

    method Truncate(size: nat)
      modifies `bytes
      ensures bytes == Truncated(old(bytes), size)
    {
      bytes := Truncated(bytes, size);
    }
  }

  lemma OverwriteTwice(bytes: seq<byte>, pos: nat, x: seq<byte>, y: seq<byte>)
    ensures Overwrite(Overwrite(bytes, pos, x), pos + |x|, y) == Overwrite(bytes, pos, x + y)
  {
    if |x| == 0 {
      assert x + y == y;
    } else if |y| == 0 {
      assert x + y == x;
    } else {
      hide Overwrite;
      var before := if pos <= |bytes| then bytes[..pos] else bytes + Zeros(pos - |bytes|);
      Written(bytes, pos, x, before);
      Written(bytes, pos, x + y, before);
      var behind := if pos + |x| < |bytes| then bytes[pos + |x|..] else [];
      WriteOn(before, x, behind, y);
      if pos + |x + y| < |bytes| {
        assert behind[|y|..] == bytes[pos + |x + y|..];
      }
    }
  }

  lemma Written(bytes: seq<byte>, pos: nat, b: seq<byte>, before: seq<byte>)
    requires |b| > 0 && before == if pos <= |bytes| then bytes[..pos] else bytes + Zeros(pos - |bytes|)
    ensures Overwrite(bytes, pos, b) == before + b + if pos + |b| < |bytes| then bytes[pos + |b|..] else []
  {
  }

  lemma WriteOn(before: seq<byte>, x: seq<byte>, behind: seq<byte>, y: seq<byte>)
    requires |y| > 0
    ensures Overwrite(before + x + behind, |before| + |x|, y)
         == before + (x + y) + if |y| < |behind| then behind[|y|..] else []
  {
    var one := before + x + behind;
    assert one[..|before| + |x|] == before + x;
    if |y| < |behind| {
      assert one[|before| + |x| + |y|..] == behind[|y|..];
    }
  }

  // ----- writing an entry -----

  /** The file after jr_AvoidLogBlockBoundary: a pad header where one fits. */
  function PadFile(bytes: seq<byte>, pos: nat, bs: BlockSize, len: nat): seq<byte> {
    var space := |Gap(pos, bs, len)|;
    if space < ENTRY_HEADER_SIZE then bytes
    else Overwrite(bytes, pos, EncodeHeader(Header(MAGIC_NUMBER, PAD_ENTRY, 0, 0, space)))
  }

  function PutEntry(bytes: seq<byte>, pos: nat, bs: BlockSize, e: LogEntry): seq<byte>
    requires ValidEntry(e)
  {
    var s := EncodeEntry(e);
    Overwrite(PadFile(bytes, pos, bs, |s|), NextEntryOffset(pos, |s|, bs), s)
  }

  method AvoidBlockBoundary(file: File, bs: BlockSize, len: nat) returns (offset: nat)
    modifies file
    ensures file.bytes == PadFile(old(file.bytes), old(file.pos), bs, len)
    ensures file.pos == offset == NextEntryOffset(old(file.pos), len, bs)
  {
    offset := file.pos;
    if bs == 0 || offset % bs == 0 {
      return;
    }
    var space := bs - offset % bs;
    if space < len {
      if ENTRY_HEADER_SIZE <= space {
        file.Write(EncodeHeader(Header(MAGIC_NUMBER, PAD_ENTRY, 0, 0, space)));
      }
      offset := offset + space;
      file.Seek(offset);
    }
  }

  lemma {:induction false} FlattenAppend(data: seq<seq<byte>>, last: seq<byte>)
    ensures Flatten(data + [last]) == Flatten(data) + last
  {
    if |data| > 0 {
      FlattenAppend(data[1..], last);
      assert (data + [last])[1..] == data[1..] + [last];
    }
  }

  lemma FlattenPrefix(data: seq<seq<byte>>, i: nat)
    requires i < |data|
    ensures Flatten(data[..i + 1]) == Flatten(data[..i]) + data[i]
  {
    assert data[..i + 1] == data[..i] + [data[i]];
    FlattenAppend(data[..i], data[i]);
  }

  /** jr_LogEntrySavedLength. */
  method SavedLength(e: LogEntry) returns (n: nat)
    requires ValidEntry(e)
    ensures n == |EncodeEntry(e)|
  {
    var varLength := 0;
    for i := 0 to |e.data|
      invariant varLength == |Flatten(e.data[..i])|
    {
      FlattenPrefix(e.data, i);
      varLength := varLength + |e.data[i]|;
    }
    assert e.data[..|e.data|] == e.data;
    n := ENTRY_HEADER_SIZE;
    n := n + 4 * |e.ints|;
    n := n + 4 * |e.data|;
    n := n + varLength;
  }

  lemma NothingFlat(data: seq<seq<byte>>)
    ensures Flatten(data[..0]) == []
  {
  }

  /** jr_LogEntryAddToFilePtr. */
  method AddEntryToFile(file: File, e: LogEntry, bs: BlockSize)
    requires ValidEntry(e)
    modifies file
    ensures file.bytes == PutEntry(old(file.bytes), old(file.pos), bs, e)
    ensures file.pos == NextEntryOffset(old(file.pos), |EncodeEntry(e)|, bs) + |EncodeEntry(e)|
  {
    hide Overwrite, PadFile, EncodeHeader, NextEntryOffset, Flatten, EncodeInts, Lengths;
    var total := SavedLength(e);
    var at := AvoidBlockBoundary(file, bs, total);
    ghost var padded := file.bytes;
    ghost var h := EncodeHeader(EntryHeader(e));
    file.Write(EncodeHeader(EntryHeader(e)));
    file.Write(EncodeInts(e.ints));
    OverwriteTwice(padded, at, h, EncodeInts(e.ints));
    file.Write(EncodeInts(Lengths(e.data)));
    ghost var done := h + EncodeInts(e.ints) + EncodeInts(Lengths(e.data));
    OverwriteTwice(padded, at, h + EncodeInts(e.ints), EncodeInts(Lengths(e.data)));
    NothingFlat(e.data);
    assert done + [] == done;
    for i := 0 to |e.data|
      invariant file.bytes == Overwrite(padded, at, done + Flatten(e.data[..i]))
      invariant file.pos == at + |done| + |Flatten(e.data[..i])|
    {
      file.Write(e.data[i]);
      OverwriteTwice(padded, at, done + Flatten(e.data[..i]), e.data[i]);
      FlattenPrefix(e.data, i);
      assert done + Flatten(e.data[..i]) + e.data[i] == done + Flatten(e.data[..i + 1]);
    }
    assert e.data[..|e.data|] == e.data;
    assert done + Flatten(e.data) == EncodeEntry(e);
  }

  /** Writing at or behind offset n leaves what is in front of it. */
  lemma OverwriteKeepsFront(bytes: seq<byte>, pos: nat, b: seq<byte>, n: nat)
    requires n <= |bytes| && n <= pos
    ensures n <= |Overwrite(bytes, pos, b)| && Overwrite(bytes, pos, b)[..n] == bytes[..n]
  {
  }

  lemma PadKeepsFront(bytes: seq<byte>, pos: nat, bs: BlockSize, len: nat, n: nat)
    requires n <= |bytes| && n <= pos
    ensures n <= |PadFile(bytes, pos, bs, len)| && PadFile(bytes, pos, bs, len)[..n] == bytes[..n]
  {
    hide Overwrite, EncodeHeader;
    var space := |Gap(pos, bs, len)|;
    if space >= ENTRY_HEADER_SIZE {
      OverwriteKeepsFront(bytes, pos, EncodeHeader(Header(MAGIC_NUMBER, PAD_ENTRY, 0, 0, space)), n);
    }
  }

  /** At the end of the file, adding an entry appends its padding and bytes. */
  lemma PutAtEnd(bytes: seq<byte>, bs: BlockSize, e: LogEntry)
    requires ValidEntry(e)
    ensures PutEntry(bytes, |bytes|, bs, e) == bytes + EntryBytes(|bytes|, bs, e)
  {
    hide EncodeEntry, EncodeHeader, Overwrite;
    var s := EncodeEntry(e);
    var gap := Gap(|bytes|, bs, |s|);
    NextEntryOffsetIsUsed(|bytes|, |s|, bs);
    if |gap| >= ENTRY_HEADER_SIZE {
      var h := EncodeHeader(Header(MAGIC_NUMBER, PAD_ENTRY, 0, 0, |gap|));
      OverwriteAppends(bytes, |bytes|, h);
      assert bytes + Zeros(0) + h == bytes + h;
      OverwriteAppends(bytes + h, |bytes| + |gap|, s);
      assert bytes + h + Zeros(|gap| - |h|) + s == bytes + (gap + s);
    } else {
      assert gap == Zeros(|gap|);
      OverwriteAppends(bytes, |bytes| + |gap|, s);
      assert bytes + gap + s == bytes + (gap + s);
    }
  }

  lemma OverwriteAppends(bytes: seq<byte>, pos: nat, b: seq<byte>)
    requires |bytes| <= pos && |b| > 0
    ensures Overwrite(bytes, pos, b) == bytes + Zeros(pos - |bytes|) + b
  {
  }

  /** On a block boundary inside the file the entry replaces bytes in place. */
  lemma PutInPlace(bytes: seq<byte>, pos: nat, bs: BlockSize, e: LogEntry)
    requires ValidEntry(e)
    requires bs > 0 ==> pos % bs == 0
    requires pos + |EncodeEntry(e)| <= |bytes|
    ensures PutEntry(bytes, pos, bs, e) == bytes[..pos] + EncodeEntry(e) + bytes[pos + |EncodeEntry(e)|..]
  {
  }

  // ----- reading an entry -----

  ghost function Joined(data: seq<seq<byte>>, more: Option<seq<seq<byte>>>): Option<seq<seq<byte>>> {
    if more.None? then None else Some(data + more.value)
  }

  /** Skips to the next block when no header fits, then reads a header. */
  method ReadHeaderBytes(file: File, bs: BlockSize) returns (offset: nat, head: seq<byte>)
    modifies file`pos
    ensures offset == SkipShort(old(file.pos), bs)
    ensures head == Chunk(file.bytes, offset, ENTRY_HEADER_SIZE)
    ensures file.pos == offset + |head|
  {
    offset := file.pos;
    if bs > 0 {
      var space := bs - offset % bs;
      if space < ENTRY_HEADER_SIZE {
        offset := offset + space;
        file.Seek(offset);
      }
    }
    head := file.Read(ENTRY_HEADER_SIZE);
  }

  /** jr_LogEntryInitFromFilePtr. */
  method ReadEntryFromFile(file: File, bs: BlockSize) returns (r: ReadResult)
    modifies file`pos
    ensures r == ReadAt(file.bytes, old(file.pos), bs)
    ensures r.Got? ==> file.pos == r.next
    ensures r.Eof? ==> file.pos == r.at
  {
    hide DecodeHeader, EntryAt, SkipShort;
    var offset, head := ReadHeaderBytes(file, bs);
    while |head| == ENTRY_HEADER_SIZE && DecodeHeader(head).kind == PAD_ENTRY
      invariant file.pos == offset + |head| && |head| <= ENTRY_HEADER_SIZE
      invariant head == Chunk(file.bytes, offset, ENTRY_HEADER_SIZE)
      invariant exists p: nat :: offset == SkipShort(p, bs) && ReadAt(file.bytes, p, bs) == ReadAt(file.bytes, old(file.pos), bs)
      decreases |file.bytes| - offset
    {
      var padding := DecodeHeader(head).time;
      if padding < ENTRY_HEADER_SIZE {
        return Bad;
      }
      file.Seek(file.pos + (padding - ENTRY_HEADER_SIZE));
      offset, head := ReadHeaderBytes(file, bs);
    }
    if |head| != ENTRY_HEADER_SIZE {
      return if |head| == 0 then Eof(offset) else Bad;
    }
    r := ReadBodyFromFile(file, offset, DecodeHeader(head));
  }

  /** An entry is its header, the integers, the lengths and the pieces, each read
      where the one before ended. */
  lemma BodyParts(bytes: seq<byte>, offset: nat, h: Header)
    requires offset + ENTRY_HEADER_SIZE <= |bytes| && h == DecodeHeader(bytes[offset..offset + ENTRY_HEADER_SIZE])
    ensures var ints := offset + ENTRY_HEADER_SIZE;
            var lengths := ints + 4 * h.numInts;
            var data := lengths + 4 * h.numPtrs;
            EntryAt(bytes, offset) ==
            if h.magic != MAGIC_NUMBER || h.numInts > 127 || h.numPtrs > 127 || |bytes| < data then Bad
            else
              var pieces := CutPieces(bytes[data..], DecodeInts(bytes[lengths..data], h.numPtrs));
              if pieces.None? then Bad
              else Got(LogEntry(h.kind, h.time, DecodeInts(bytes[ints..lengths], h.numInts), pieces.value),
                       offset, data + |Flatten(pieces.value)|)
  {
    hide DecodeHeader, CutPieces, DecodeInts, Flatten;
    var ints := offset + ENTRY_HEADER_SIZE;
    var lengths := ints + 4 * h.numInts;
    var data := lengths + 4 * h.numPtrs;
    if data <= |bytes| {
      var rest := bytes[ints..];
      assert rest[4 * h.numInts..] == bytes[lengths..];
      assert bytes[lengths..][4 * h.numPtrs..] == bytes[data..];
      DecodeIntsPrefix(bytes[ints..lengths], rest, h.numInts);
      DecodeIntsPrefix(bytes[lengths..data], bytes[lengths..], h.numPtrs);
    }
  }

  /** The part of jr_LogEntryInitFromFilePtr after the header loop. */
  method ReadBodyFromFile(file: File, offset: nat, h: Header) returns (r: ReadResult)
    requires file.pos == offset + ENTRY_HEADER_SIZE <= |file.bytes|
    requires h == DecodeHeader(file.bytes[offset..offset + ENTRY_HEADER_SIZE])
    modifies file`pos
    ensures r == EntryAt(file.bytes, offset)
    ensures r.Got? ==> file.pos == r.next
  {
    hide DecodeHeader, CutPieces, DecodeInts, Flatten, EntryAt;
    BodyParts(file.bytes, offset, h);
    ghost var start := file.pos;
    if h.magic != MAGIC_NUMBER || h.numInts > 127 || h.numPtrs > 127 {
      return Bad;
    }
    var raw := file.Read(4 * h.numInts);
    if |raw| < 4 * h.numInts {
      return Bad;
    }
    var rawLengths := file.Read(4 * h.numPtrs);
    if |rawLengths| < 4 * h.numPtrs {
      return Bad;
    }
    var pieces := ReadPiecesFromFile(file, DecodeInts(rawLengths, h.numPtrs));
    if pieces.None? {
      return Bad;
    }
    var e := LogEntry(h.kind, h.time, DecodeInts(raw, h.numInts), pieces.value);
    r := Got(e, offset, file.pos);
  }

  method ReadPiecesFromFile(file: File, lens: seq<nat>) returns (r: Option<seq<seq<byte>>>)
    requires file.pos <= |file.bytes|
    modifies file`pos
    ensures r == CutPieces(file.bytes[old(file.pos)..], lens)
    ensures r.Some? ==> file.pos == old(file.pos) + |Flatten(r.value)|
  {
    hide CutPieces, Flatten;
    var data := [];
    ghost var start := file.pos;
    ghost var rest := file.bytes[start..];
    ghost var whole := CutPieces(rest, lens);
    CutAll(rest, lens);
    for i := 0 to |lens|
      invariant start <= file.pos <= |file.bytes|
      invariant file.pos == start + |Flatten(data)|
      invariant rest == file.bytes[file.pos..]
      invariant whole == Joined(data, CutPieces(rest, lens[i..]))
    {
      assert lens[i..][1..] == lens[i + 1..];
      CutOne(rest, lens[i..], data);
      if lens[i] >= 0x8000_0000 {
        return None;
      }
      var piece := file.Read(lens[i]);
      if |piece| < lens[i] {
        return None;
      }
      assert piece == rest[..lens[i]];
      rest := rest[lens[i]..];
      FlattenAppend(data, piece);
      data := data + [piece];
    }
    CutAll(rest, lens[|lens|..]);
    assert data + [] == data;
    r := Some(data);
  }

  lemma CutAll(rest: seq<byte>, lens: seq<nat>)
    ensures lens[0..] == lens
    ensures Joined([], CutPieces(rest, lens)) == CutPieces(rest, lens)
    ensures |lens| == 0 ==> CutPieces(rest, lens) == Some([])
    ensures Flatten([]) == []
  {
    var r := CutPieces(rest, lens);
    assert r.Some? ==> [] + r.value == r.value;
  }

  lemma CutOne(rest: seq<byte>, lens: seq<nat>, data: seq<seq<byte>>)
    requires |lens| > 0
    ensures Joined(data, CutPieces(rest, lens))
         == if lens[0] < 0x8000_0000 && lens[0] <= |rest|
            then Joined(data + [rest[..lens[0]]], CutPieces(rest[lens[0]..], lens[1..]))
            else None
  {
    if lens[0] < 0x8000_0000 && lens[0] <= |rest| {
      var piece := rest[..lens[0]];
      var more := CutPieces(rest[lens[0]..], lens[1..]);
      assert more.Some? ==> data + ([piece] + more.value) == data + [piece] + more.value;
    }
  }
}
