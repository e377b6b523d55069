/** The archive entry as the program works on it: header fields set in place,
    entries written to and read from a stream. */
module Tar {
  import opened LogFormat
  import opened TarHeader
  import opened TarArchive
  import opened TarLayout
  import opened LogFile

  class TarEntry {
    var header: Fields
    var size: nat
    var mode: nat
    var uid: nat
    var gid: nat
    var mtime: nat
    var chksum: nat

    /** jr_TarEntryInit. */
    constructor ()
      ensures header == NullHeader() && size == 0
    {
      header := NullHeader();
      size, mode, uid, gid, mtime, chksum := 0, 0, 0, 0, 0, 0;
    }

    /** The search for the end of the prefix in jr_TarEntrySetPathInfo. */
    method FindPrefix(path: seq<byte>) returns (slash: int)
      ensures slash == LastSlash(path, |path|)
    {
      slash := |path|;
      while slash >= 0
        invariant -1 <= slash <= |path|
        invariant LastSlash(path, |path|) == if slash < |path| then LastSlash(path, slash + 1) else LastSlash(path, |path|)
      {
        if slash < |path| && path[slash] == SLASH {
          var prefixLength := slash + 1;
          if prefixLength <= 155 {
            break;
          }
        }
        slash := slash - 1;
      }
    }

    /** The name field, with the slash of a directory and a null byte. */
    method PutName(rest: seq<byte>, isDir: bool, total: nat)
      requires ValidFields(header) && |rest| <= total <= 100
      modifies `header
      ensures ValidFields(header) && header == StoreName(old(header), rest, isDir, total)
    {
      var name := rest + Zeros(100 - |rest|);
      if isDir {
        if |rest| < 100 {
          name := Patched(name, |rest|, SLASH);
        } else {
          header := header[MODE := Patched(header[MODE], 0, SLASH)];
        }
      }
      if total < 100 {
        name := Patched(name, total, 0);
      }
      header := header[NAME := name];
    }

    /** jr_TarEntrySetPathInfo. */
    method SetPathInfo(path: seq<byte>, isDir: bool, newMode: int, newMtime: int)
      requires ValidFields(header)
      modifies this
      ensures ValidFields(header)
      ensures header == TarHeader.SetPathInfo(old(header), path, isDir, newMode, newMtime)
      ensures |StoredPath(path, isDir)| > 255 ==> header == old(header)
    {
      hide StoreName, StorePrefix, LastSlash, Octal, SetSmall, SetLarge, SetPath;
      var total := |path|;
      if isDir && |path| > 0 && path[|path| - 1] != SLASH {
        total := total + 1;
      }
      if total > 100 + 155 {
        return;
      }
      header := header[TYPEFLAG := TypeField(isDir)];
      mode := if newMode < 0 then 0 else newMode;
      header := SetSmall(header, MODE, mode);
      mtime := if newMtime < 0 then 0 else newMtime;
      header := SetLarge(header, MTIME, mtime);
      PutPath(path, isDir, total);
    }

    /** The part of jr_TarEntrySetPathInfo that stores the path. */
    method PutPath(path: seq<byte>, isDir: bool, total: nat)
      requires ValidFields(header) && total == |StoredPath(path, isDir)| <= 255
      modifies `header
      ensures ValidFields(header) && header == SetPath(old(header), path, isDir)
    {
      hide StoreName, StorePrefix, LastSlash, StoredPath;
      if total > 100 {
        var slash := FindPrefix(path);
        if slash > 0 && total - (slash + 1) <= 100 {
          header := StorePrefix(header, path, slash + 1);
          PutName(path[slash + 1..], isDir, total - (slash + 1));
        } else {
          header := header[NAME := Patched(header[NAME], 0, 0)];
        }
      } else {
        header := header[PREFIX := Zeros(155)];
        PutName(path, isDir, total);
      }
    }

    /** jr_TarEntrySetUserInfo without names. */
    method SetUserInfo(newUid: int, newGid: int)
      requires ValidFields(header)
      modifies this
      ensures ValidFields(header)
      ensures header == SetSmall(SetSmall(old(header), UID, NotNegative(newUid, USHRT_MAX)), GID, NotNegative(newGid, USHRT_MAX))
    {
      uid := if newUid < 0 then USHRT_MAX else newUid;
      header := SetSmall(header, UID, uid);
      gid := if newGid < 0 then USHRT_MAX else newGid;
      header := SetSmall(header, GID, gid);
    }

    /** jr_TarEntryWriteSegment with all of the data at once. The header of a
        directory or link says size 0, and what data comes with it is not filled up
        to a whole block. */
    method Write(file: File, data: seq<byte>)
      requires ValidFields(header)
      modifies this, file
      ensures var total := if old(header[TYPEFLAG]) in {[49], [50], [53]} then 0 else |data|;
              && ValidFields(header) && header == Finished(old(header), total)
              && file.bytes == Overwrite(old(file.bytes), old(file.pos),
                   Flatten(header) + Zeros(BLOCK - HEADER_BYTES) + data + Zeros(Fill(|data|, total)))
              && file.pos == old(file.pos) + BLOCK + |data| + Fill(|data|, total)
      ensures var s, p := file.bytes, old(file.pos);
              && |s| >= p + 500
              && HoldsNumber(s[p + 148..p + 156], Sum(s[p..p + 148]) + 8 * 32 + Sum(s[p + 156..p + 500]))
    {
      hide Octal, CheckSum, Flatten, Overwrite, Zeros, SetSmall, Finished, HoldsNumber, Sum, Fill;
      ghost var at, before, h := file.pos, file.bytes, header;
      var total := |data|;
      if header[TYPEFLAG] in {[49], [50], [DIRTYPE]} {
        total := 0;
      }
      FinishHeader(total);
      WriteBlocks(file, data, total);
      ghost var gap, pad := Zeros(BLOCK - HEADER_BYTES), Zeros(Fill(|data|, total));
      assert Flatten(header) + gap + data + pad == Flatten(header) + (gap + data + pad);
      CheckSumInFile(before, at, h, total, gap + data + pad);
    }

    /** The header in its block, and the data, filled up if it is all of it. */
    method WriteBlocks(file: File, data: seq<byte>, total: nat)
      requires ValidFields(header)
      modifies file
      ensures file.bytes == Overwrite(old(file.bytes), old(file.pos),
                Flatten(header) + Zeros(BLOCK - HEADER_BYTES) + data + Zeros(Fill(|data|, total)))
      ensures file.pos == old(file.pos) + BLOCK + |data| + Fill(|data|, total)
    {
      hide Flatten, Overwrite, Zeros, Padding;
      ghost var at, before := file.pos, file.bytes;
      SplitRoundTrip(header, []);
      WriteParts(file, data);
      var toBlockEnd := 0;
      if |data| == total {
        toBlockEnd := Padding(|data|);
      }
      WriteNulls(file, toBlockEnd, before, at, Flatten(header) + Zeros(BLOCK - HEADER_BYTES) + data);
    }

    /** The header, the rest of its block, and the data. */
    method WriteParts(file: File, data: seq<byte>)
      requires ValidFields(header)
      modifies file
      ensures file.bytes == Overwrite(old(file.bytes), old(file.pos), Flatten(header) + Zeros(BLOCK - HEADER_BYTES) + data)
      ensures file.pos == old(file.pos) + BLOCK + |data|
    {
      hide Flatten, Overwrite, Zeros;
      SplitRoundTrip(header, []);
      ghost var at, before, head, gap := file.pos, file.bytes, Flatten(header), Zeros(BLOCK - HEADER_BYTES);
      file.Write(Flatten(header));
      file.Write(Zeros(BLOCK - HEADER_BYTES));
      OverwriteTwice(before, at, head, gap);
      file.Write(data);
      OverwriteTwice(before, at, head + gap, data);
    }

    /** jr_TarFilePtrAlignFifoWrite: n null bytes, one by one. */
    method WriteNulls(file: File, n: nat, ghost before: seq<byte>, ghost at: nat, ghost done: seq<byte>)
      requires file.bytes == Overwrite(before, at, done) && file.pos == at + |done|
      modifies file
      ensures file.bytes == Overwrite(before, at, done + Zeros(n)) && file.pos == at + |done| + n
    {
      hide Overwrite, Zeros;
      NullsGrow(done, 0);
      for k := 0 to n
        invariant file.bytes == Overwrite(before, at, done + Zeros(k)) && file.pos == at + |done| + k
      {
        file.Write([0]);
        OverwriteTwice(before, at, done + Zeros(k), [0]);
        NullsGrow(done, k);
      }
    }

    static lemma NullsGrow(s: seq<byte>, k: nat)
      ensures s + Zeros(k) + [0] == s + Zeros(k + 1)
      ensures s + Zeros(0) == s
    {
    }

    /** jr_TarEntrySetSize and jr_TarEntryMakePosixConformant. */
    method FinishHeader(total: nat)
      requires ValidFields(header)
      modifies this
      ensures ValidFields(header) && header == Finished(old(header), total)
    {
      hide Octal, Flatten, CheckSum;
      size := total;
      header := header[SIZE := Octal(if total < UINT_MAX then total else UINT_MAX, 11) + [0]];
      header := header[MAGIC := USTAR()];
      header := header[VERSION := VersionText()];
      InitCheckSum();
    }

    /** jr_TarEntryInitCheckSum: the fields one by one, with spaces in the place of the
        checksum. */
    method InitCheckSum()
      requires ValidFields(header)
      modifies this`header, this`chksum
      ensures chksum == CheckSum(old(header)) && header == SetSmall(old(header), CHKSUM, chksum)
    {
      hide Flatten, Sum;
      ghost var h := header[CHKSUM := Spaces(8)];
      var sum := 0;
      NothingSummed(h);
      for i := 0 to 16
        invariant header == old(header) && sum == Sum(Flatten(h[..i]))
      {
        var part := SumByteString(if i == CHKSUM then Spaces(8) else header[i]);
        SumOfFields(h, i);
        sum := sum + part;
      }
      assert h[..16] == h;
      chksum := sum;
      header := SetSmall(header, CHKSUM, chksum);
    }

    static lemma NothingSummed(h: Fields)
      ensures Sum(Flatten(h[..0])) == 0
    {
    }

    static lemma SumOfFields(h: Fields, i: nat)
      requires i < |h|
      ensures Sum(Flatten(h[..i + 1])) == Sum(Flatten(h[..i])) + Sum(h[i])
    {
      hide Flatten, Sum;
      var front := h[..i + 1];
      FlattenInTwo(front, i);
      FlattenFrom(front, i);
      NoFields(front);
      assert front[..i] == h[..i] && h[i] + [] == h[i];
      SumOfTwo(Flatten(h[..i]), h[i]);
    }

    /** SumByteString. */
    method SumByteString(s: seq<byte>) returns (sum: nat)
      ensures sum == Sum(s)
    {
      hide Sum;
      sum := 0;
      SumOfSpaces(0);
      assert s[..0] == Spaces(0);
      for i := 0 to |s|
        invariant sum == Sum(s[..i])
      {
        SumOfTwo(s[..i], [s[i]]);
        assert s[..i + 1] == s[..i] + [s[i]];
        sum := sum + s[i];
      }
      assert s[..|s|] == s;
    }

    /** jr_TarEntryInitFromFifoRfp. */
    method InitFromStream(file: File) returns (r: TarRead)
      requires file.pos <= |file.bytes|
      modifies this, file`pos
      ensures ValidFields(header) && file.pos <= |file.bytes|
      ensures |file.bytes| - old(file.pos) < HEADER_BYTES ==> r == TarEof
      ensures |file.bytes| - old(file.pos) >= HEADER_BYTES ==>
        header == SplitHeader(file.bytes[old(file.pos)..]) && r == Interpret(header)
      ensures |file.bytes| - old(file.pos) >= HEADER_BYTES ==> file.bytes[file.pos..] == Drop(file.bytes[old(file.pos)..], BLOCK)
      ensures r.Found? ==> size == r.size && mode == r.mode && uid == r.uid && gid == r.gid && mtime == r.mtime
    {
      hide SplitHeader, Interpret;
      header := NullHeader();
      ghost var s := file.bytes[file.pos..];
      var bytes := file.Read(HEADER_BYTES);
      if |bytes| < HEADER_BYTES {
        return TarEof;
      }
      assert bytes == s[..HEADER_BYTES];
      SplitFront(s);
      header := SplitHeader(bytes);
      var aligned := file.Read(BLOCK - HEADER_BYTES);
      TailAfter(file.bytes, old(file.pos), BLOCK, file.pos);
      r := Interpret(header);
      if r.Found? {
        size, mode, uid, gid, mtime, chksum := r.size, r.mode, r.uid, r.gid, r.mtime, r.chksum;
      }
    }

    static lemma TailAfter(bytes: seq<byte>, pos: nat, n: nat, next: nat)
      requires pos <= |bytes| && next == if pos + n <= |bytes| then pos + n else |bytes|
      ensures bytes[next..] == Drop(bytes[pos..], n)
    {
    }

    static lemma SplitFront(s: seq<byte>)
      requires |s| >= HEADER_BYTES
      ensures SplitHeader(s) == SplitHeader(s[..HEADER_BYTES])
    {
      hide SplitHeader;
      forall i | 0 <= i < 16
        ensures SplitHeader(s)[i] == SplitHeader(s[..HEADER_BYTES])[i]
      {
        SplitAt(s, i);
        SplitAt(s[..HEADER_BYTES], i);
        hide Offset;
        SliceOfFront(s, HEADER_BYTES, Offset(i), Offset(i + 1));
      }
    }

    static lemma SliceOfFront(s: seq<byte>, n: nat, a: nat, b: nat)
      requires a <= b <= n <= |s|
      ensures s[..n][a..b] == s[a..b]
    {
    }

    /** jr_TarEntryReadData: the data, and then the rest of its last block as far
        as there is one. */
    method ReadData(file: File) returns (data: Option<seq<byte>>)
      requires file.pos <= |file.bytes|
      modifies file`pos
      ensures file.pos <= |file.bytes|
      ensures data.Some? <==> |file.bytes| - old(file.pos) >= size
      ensures data.Some? ==> data.value == file.bytes[old(file.pos)..][..size]
      ensures data.Some? ==> file.bytes[file.pos..] == Drop(file.bytes[old(file.pos)..], size + Padding(size))
    {
      data := Some([]);
      if size > 0 {
        var bytes := file.Read(size);
        if |bytes| < size {
          return None;
        }
        data := Some(bytes);
        var toBlockEnd := Padding(size);
        ghost var start := file.pos;
        for k := 0 to toBlockEnd
          invariant start <= file.pos <= |file.bytes|
          invariant file.pos == if start + k <= |file.bytes| then start + k else |file.bytes|
        {
          var one := file.Read(1);
          if |one| == 0 {
            break;
          }
        }
      }
    }
  }

  lemma OverwriteNothing(bytes: seq<byte>, pos: nat)
    ensures Overwrite(bytes, pos, []) == bytes
  {
  }

  /** jr_TarFileWriteEOF. */
  method WriteEOF(file: File)
    modifies file
    ensures file.bytes == Overwrite(old(file.bytes), old(file.pos), Zeros(2 * BLOCK))
    ensures file.pos == old(file.pos) + 2 * BLOCK
  {
    OverwriteNothing(file.bytes, file.pos);
    NullsJoin(0, 0);
    hide Overwrite, Zeros;
    for k := 0 to 2
      invariant file.bytes == Overwrite(old(file.bytes), old(file.pos), Zeros(k * BLOCK))
      invariant file.pos == old(file.pos) + k * BLOCK
    {
      file.Write(Zeros(BLOCK));
      OverwriteTwice(old(file.bytes), old(file.pos), Zeros(k * BLOCK), Zeros(BLOCK));
      NullsJoin(k * BLOCK, BLOCK);
    }
  }

  lemma NullsJoin(m: nat, n: nat)
    ensures Zeros(m) + Zeros(n) == Zeros(m + n) && Zeros(0) == []
  {
  }

  // ----- whole archives -----

  /** The type in an item's header. */
  lemma LinkTypeOf(item: TarItem)
    ensures ItemHeader(item)[TYPEFLAG] in {[49], [50], [53]} <==> item.isDir && |StoredPath(item.path, item.isDir)| <= 255
  {
    hide SetPath, StoredPath, Octal, Zeros;
    if |StoredPath(item.path, item.isDir)| <= 255 {
      PathLeavesOthers(BeforePath(item), item.path, item.isDir, TYPEFLAG);
    } else {
      FirstNull(1);
    }
  }

  /** One item put into an archive, in an entry of its own. */
  method WriteItem(file: File, item: TarItem)
    modifies file
    ensures file.bytes == Overwrite(old(file.bytes), old(file.pos), EncodeItem(item))
    ensures file.pos == old(file.pos) + |EncodeItem(item)|
  {
    hide Octal, CheckSum, Flatten, Overwrite, Zeros, Padding, SetSmall, Finished, TarHeader.SetPathInfo, StoredPath;
    var entry := new TarEntry();
    entry.SetPathInfo(item.path, item.isDir, item.mode, item.mtime);
    entry.SetUserInfo(item.uid, item.gid);
    assert entry.header == ItemHeader(item);
    LinkTypeOf(item);
    SplitRoundTrip(Finished(ItemHeader(item), DataSize(item)), []);
    entry.Write(file, item.data);
  }

  /** The calls that write an archive: every item, and the end. */
  method WriteArchive(file: File, items: seq<TarItem>)
    modifies file
    ensures file.bytes == Overwrite(old(file.bytes), old(file.pos), EncodeAll(items) + Zeros(2 * BLOCK))
    ensures file.pos == old(file.pos) + |EncodeAll(items)| + 2 * BLOCK
  {
    hide EncodeItem, Overwrite, Zeros, EncodeAll;
    NothingEncoded(items);
    OverwriteNothing(file.bytes, file.pos);
    for i := 0 to |items|
      invariant file.bytes == Overwrite(old(file.bytes), old(file.pos), EncodeAll(items[..i]))
      invariant file.pos == old(file.pos) + |EncodeAll(items[..i])|
    {
      WriteItem(file, items[i]);
      OneMoreEncoded(items, i);
      OverwriteTwice(old(file.bytes), old(file.pos), EncodeAll(items[..i]), EncodeItem(items[i]));
    }
    assert items[..|items|] == items;
    WriteEOF(file);
    OverwriteTwice(old(file.bytes), old(file.pos), EncodeAll(items), Zeros(2 * BLOCK));
  }

  lemma NothingEncoded(items: seq<TarItem>)
    ensures EncodeAll(items[..0]) == []
  {
  }

  lemma OneMoreEncoded(items: seq<TarItem>, i: nat)
    requires i < |items|
    ensures EncodeAll(items[..i + 1]) == EncodeAll(items[..i]) + EncodeItem(items[i])
  {
    assert items[..i + 1] == items[..i] + [items[i]];
    EncodedConcat(items[..i], items[i]);
  }

  lemma {:induction false} EncodedConcat(items: seq<TarItem>, item: TarItem)
    ensures EncodeAll(items + [item]) == EncodeAll(items) + EncodeItem(item)
  {
    hide EncodeItem;
    if items == [] {
      assert [item][1..] == [] && [] + [item] == [item];
    } else {
      assert (items + [item])[1..] == items[1..] + [item];
      EncodedConcat(items[1..], item);
    }
  }

  /** Items in front of those that are still to be read. */
  function InFront(items: seq<TarItem>, more: Option<seq<TarItem>>): Option<seq<TarItem>> {
    if more.None? then None else Some(items + more.value)
  }

  /** The calls that read an archive: entries, each with its data, until the end or
      an error. */
  method ReadItems(file: File) returns (r: Option<seq<TarItem>>)
    requires file.pos <= |file.bytes|
    modifies file`pos
    ensures r == ReadArchive(file.bytes[old(file.pos)..])
  {
    hide ReadArchive, SplitHeader, Interpret, FullPath, Padding, Drop;
    var items := [];
    NothingInFront(ReadArchive(file.bytes[file.pos..]));
    while true
      invariant file.pos <= |file.bytes|
      invariant ReadArchive(file.bytes[old(file.pos)..]) == InFront(items, ReadArchive(file.bytes[file.pos..]))
      decreases |file.bytes| - file.pos
    {
      ghost var s := file.bytes[file.pos..];
      ReadUnfolds(s);
      var entry := new TarEntry();
      var found := entry.InitFromStream(file);
      if found.TarEof? {
        assert items + [] == items;
        return Some(items);
      }
      if found.TarError? {
        return None;
      }
      ghost var rest := file.bytes[file.pos..];
      var path := FullPath(entry.header);
      var data := entry.ReadData(file);
      if data.None? || path.None? {
        return None;
      }
      DropShorter(s, BLOCK);
      DropShorter(rest, found.size + Padding(found.size));
      var item := TarItem(path.value, entry.header[TYPEFLAG][0] == DIRTYPE, found.mode, found.mtime, found.uid, found.gid, data.value);
      OneMoreInFront(items, item, ReadArchive(file.bytes[file.pos..]));
      items := items + [item];
    }
  }

  lemma NothingInFront(more: Option<seq<TarItem>>)
    ensures InFront([], more) == more
  {
    if more.Some? {
      assert [] + more.value == more.value;
    }
  }

  lemma OneMoreInFront(items: seq<TarItem>, item: TarItem, more: Option<seq<TarItem>>)
    ensures InFront(items, InFront([item], more)) == InFront(items + [item], more)
  {
    if more.Some? {
      assert items + ([item] + more.value) == items + [item] + more.value;
    }
  }

  lemma DropShorter(s: seq<byte>, n: nat)
    ensures |Drop(s, n)| <= |s| && (|s| > 0 && n > 0 ==> |Drop(s, n)| < |s|)
  {
  }

  /** One step of the reader, case by case. */
  lemma ReadUnfolds(s: seq<byte>)
    ensures |s| < HEADER_BYTES ==> ReadArchive(s) == Some([])
    ensures |s| >= HEADER_BYTES ==>
              var h := SplitHeader(s);
              var rest := Drop(s, BLOCK);
              match Interpret(h)
              case TarEof => ReadArchive(s) == Some([])
              case TarError => ReadArchive(s) == None
              case Found(size, mode, uid, gid, mtime, _) =>
                if |rest| < size || FullPath(h).None? then ReadArchive(s) == None
                else ReadArchive(s) == InFront([TarItem(FullPath(h).value, h[TYPEFLAG][0] == DIRTYPE, mode, mtime, uid, gid, rest[..size])],
                                              ReadArchive(Drop(rest, size + Padding(size))))
  {
    hide SplitHeader, Interpret, FullPath, Padding, Drop;
  }

  /** Writing any items into an empty file and reading it from its front gives the
      items back, with the slash of directories, exactly when each of them can be
      restored. */
  method WriteAndRead(items: seq<TarItem>) returns (r: Option<seq<TarItem>>)
    requires forall i :: 0 <= i < |items| ==> Storable(items[i])
    ensures r == Some(StoredAll(items)) <==> forall i :: 0 <= i < |items| ==> Restorable(items[i])
  {
    hide EncodeAll, Zeros, ReadArchive, Storable, Restorable, StoredAll;
    var file := new File([]);
    WriteArchive(file, items);
    var stream := EncodeAll(items) + Zeros(2 * BLOCK);
    assert file.bytes == stream;
    file.Seek(0);
    assert file.bytes[0..] == stream;
    ArchiveRoundTrip(items);
    r := ReadItems(file);
  }
}
