/** An archive as a stream: every entry is a header block and its data, filled up
    to whole blocks, and two null blocks end it. */
module TarArchive {
  import opened LogFormat
  import opened TarHeader

  const BLOCK: nat := 512
  const HEADER_BYTES: nat := 500
  const USHRT_MAX: nat := 65535

  /** What is put into an archive, and what comes out of it again. */
  datatype TarItem = TarItem(path: seq<byte>, isDir: bool, mode: int, mtime: int, uid: int, gid: int, data: seq<byte>)

  datatype TarRead =
    | TarEof
    | TarError
    | Found(size: nat, mode: nat, uid: nat, gid: nat, mtime: nat, chksum: nat)

  // ----- the header as bytes -----

  function Offset(i: nat): nat
    requires i <= 16
  {
    if i == 0 then 0 else Offset(i - 1) + FieldSize(i - 1)
  }

  lemma {:induction false} OffsetGrows(i: nat, j: nat)
    requires i <= j <= 16
    ensures Offset(i) <= Offset(j) && (i < j ==> Offset(i) + FieldSize(i) <= Offset(j))
    decreases j
  {
    if i < j {
      OffsetGrows(i, j - 1);
    }
  }

  lemma HeaderBytes()
    ensures Offset(16) == HEADER_BYTES
  {
    assert Offset(8) == 157;
  }

  /** One field of a header at the front of a stream. */
  function FieldOf(s: seq<byte>, i: nat): (f: seq<byte>)
    requires |s| >= HEADER_BYTES && i < 16
    ensures |f| == FieldSize(i)
  {
    FieldInside(i);
    s[Offset(i)..Offset(i + 1)]
  }

  lemma FieldInside(i: nat)
    requires i < 16
    ensures Offset(i) <= Offset(i + 1) <= HEADER_BYTES && Offset(i + 1) == Offset(i) + FieldSize(i)
  {
    HeaderBytes();
    OffsetGrows(i, i + 1);
    OffsetGrows(i + 1, 16);
  }

  /** The header struct filled with the first bytes of a stream. */
  function SplitHeader(s: seq<byte>): (h: Fields)
    requires |s| >= HEADER_BYTES
    ensures ValidFields(h)
  {
    seq(16, i requires 0 <= i < 16 => FieldOf(s, i))
  }

  lemma {:induction false} FlattenLength(h: Fields, i: nat)
    requires ValidFields(h) && i <= 16
    ensures |Flatten(h[i..])| == Offset(16) - Offset(i)
    decreases 16 - i
  {
    if i < 16 {
      FlattenLength(h, i + 1);
      FlattenFrom(h, i);
      OffsetGrows(i + 1, 16);
    }
  }

  lemma DropFront(t: seq<byte>, a: nat, x: seq<byte>, rest: seq<byte>, tail: seq<byte>)
    requires a <= |t| && t[a..] == (x + rest) + tail
    ensures a + |x| <= |t| && t[a..a + |x|] == x && t[a + |x|..] == rest + tail
  {
    var u := t[a..];
    assert u[..|x|] == x && u[|x|..] == rest + tail;
    assert t[a..a + |x|] == u[..|x|];
    assert t[a + |x|..] == u[|x|..];
  }

  /** Where the fields from i on begin. */
  lemma {:induction false} FieldInBytes(h: Fields, i: nat, t: seq<byte>, tail: seq<byte>)
    requires ValidFields(h) && i <= 16 && t == Flatten(h) + tail
    ensures Offset(i) <= |t| && t[Offset(i)..] == Flatten(h[i..]) + tail
  {
    if i == 0 {
      assert h[0..] == h;
    } else {
      assert Offset(i) == Offset(i - 1) + |h[i - 1]|;
      hide Flatten, Offset, FieldSize;
      FieldInBytes(h, i - 1, t, tail);
      FlattenFrom(h, i - 1);
      DropFront(t, Offset(i - 1), h[i - 1], Flatten(h[i..]), tail);
    }
  }

  lemma FieldAlone(h: Fields, i: nat, t: seq<byte>, tail: seq<byte>)
    requires ValidFields(h) && i < 16 && t == Flatten(h) + tail
    ensures Offset(i) <= Offset(i + 1) <= |t| && t[Offset(i)..Offset(i + 1)] == h[i]
  {
    assert Offset(i + 1) == Offset(i) + |h[i]|;
    hide Flatten, Offset, FieldSize;
    FieldInBytes(h, i, t, tail);
    FlattenFrom(h, i);
    DropFront(t, Offset(i), h[i], Flatten(h[i + 1..]), tail);
  }

  lemma SplitAt(s: seq<byte>, i: nat)
    requires |s| >= HEADER_BYTES && i < 16
    ensures Offset(i) <= Offset(i + 1) <= |s| && SplitHeader(s)[i] == s[Offset(i)..Offset(i + 1)]
  {
    FieldInside(i);
  }

  lemma SplitRoundTrip(h: Fields, tail: seq<byte>)
    requires ValidFields(h)
    ensures |Flatten(h)| == HEADER_BYTES && SplitHeader(Flatten(h) + tail) == h
  {
    HeaderBytes();
    FlattenLength(h, 0);
    assert h[0..] == h;
    hide SplitHeader, Flatten, Offset, FieldSize;
    var s := Flatten(h) + tail;
    forall i | 0 <= i < 16
      ensures SplitHeader(s)[i] == h[i]
    {
      SplitAt(s, i);
      FieldAlone(h, i, s, tail);
    }
  }

  // ----- writing -----

  function Sum(s: seq<byte>): nat {
    if s == [] then 0 else s[0] + Sum(s[1..])
  }

  lemma {:induction false} SumBound(s: seq<byte>)
    ensures Sum(s) <= 255 * |s|
  {
    if s != [] {
      SumBound(s[1..]);
    }
  }

  function Spaces(n: nat): (s: seq<byte>)
    ensures |s| == n
  {
    seq(n, _ => 32)
  }

  function USTAR(): (s: seq<byte>)
    ensures |s| == 6
  {
    [117, 115, 116, 97, 114, 0]
  }

  function VersionText(): (s: seq<byte>)
    ensures |s| == 2
  {
    [48, 48]
  }

  /** jr_TarEntryInitCheckSum: the field itself counts as spaces. */
  function CheckSum(h: Fields): nat
    requires ValidFields(h)
  {
    Sum(Flatten(h[CHKSUM := Spaces(8)]))
  }

  /** What jr_TarEntryWriteSegment does to the header first. */
  function Finished(h: Fields, size: nat): (r: Fields)
    requires ValidFields(h)
    ensures ValidFields(r)
  {
    var h1 := h[SIZE := Octal(if size < UINT_MAX then size else UINT_MAX, 11) + [0]];
    var h2 := h1[MAGIC := USTAR()][VERSION := VersionText()];
    SetSmall(h2, CHKSUM, CheckSum(h2))
  }

  function Padding(n: nat): (r: nat)
    ensures r < BLOCK
  {
    if n % BLOCK == 0 then 0 else BLOCK - n % BLOCK
  }

  /** The header of an item: jr_TarEntryInit, SetPathInfo and SetUserInfo. */
  function ItemHeader(item: TarItem): (h: Fields)
    ensures ValidFields(h)
  {
    var h := SetPathInfo(NullHeader(), item.path, item.isDir, item.mode, item.mtime);
    SetSmall(SetSmall(h, UID, NotNegative(item.uid, USHRT_MAX)), GID, NotNegative(item.gid, USHRT_MAX))
  }

  /** The size in the header: none for a directory, unless its path is so long that
      the type was not set. */
  function DataSize(item: TarItem): nat {
    if item.isDir && |StoredPath(item.path, item.isDir)| <= 255 then 0 else |item.data|
  }

  /** Null bytes behind n bytes of data, up to a whole block; only data as long as
      the header says is filled up. */
  function Fill(n: nat, size: nat): nat {
    if n == size then Padding(n) else 0
  }

  function EncodeItem(item: TarItem): seq<byte> {
    Flatten(Finished(ItemHeader(item), DataSize(item))) + Zeros(BLOCK - HEADER_BYTES)
    + item.data + Zeros(Fill(|item.data|, DataSize(item)))
  }

  function EncodeAll(items: seq<TarItem>): seq<byte> {
    if items == [] then [] else EncodeItem(items[0]) + EncodeAll(items[1..])
  }

  // ----- reading -----

  function ParseAt(h: Fields, i: nat): Option<nat>
    requires i <= |h|
  {
    ParseOctal(Flatten(h[i..]))
  }

  predicate HasNoData(h: Fields)
    requires ValidFields(h)
  {
    h[TYPEFLAG][0] in {49, 50, 51, 52, 53, 54}
  }

  /** A field that may be left empty, but not hold something else. */
  predicate OptionalOk(h: Fields, i: nat)
    requires ValidFields(h) && i < 16 && FieldSize(i) == 8
  {
    ParseAt(h, i).Some? || h[i][0] == 0
  }

  predicate MagicOk(h: Fields)
    requires ValidFields(h)
  {
    h[MAGIC][..5] == USTAR()[..5] || h[MAGIC][5] == 0 || h[MAGIC][5] == 32
  }

  /** jr_TarEntryInitFromFifoRfp, once the header has been read. */
  function Interpret(h: Fields): TarRead
    requires ValidFields(h)
  {
    if h[NAME][0] == 0 && h[PREFIX][0] == 0 then TarEof
    else if !MagicOk(h) then TarError
    else
      var size := if HasNoData(h) then Some(0) else ParseOctal(h[SIZE] + [0]);
      var mode, uid, gid := ParseAt(h, MODE), ParseAt(h, UID), ParseAt(h, GID);
      var mtime, chksum := ParseOctal(h[MTIME] + [0]), ParseAt(h, CHKSUM);
      if size.None? || mode.None? || uid.None? || gid.None? || mtime.None? || chksum.None? then TarError
      else if !OptionalOk(h, DEVMAJOR) || !OptionalOk(h, DEVMINOR) then TarError
      else Found(size.value, mode.value, uid.value, gid.value, mtime.value, chksum.value)
  }

  function Drop(s: seq<byte>, n: nat): (r: seq<byte>)
    ensures |s| > 0 && n > 0 ==> |r| < |s|
    ensures |r| <= |s|
  {
    if n <= |s| then s[n..] else []
  }

  /** Reading entries, each with its data, until the end; None for an error. */
  function ReadArchive(s: seq<byte>): Option<seq<TarItem>>
    decreases |s|
  {
    if |s| < HEADER_BYTES then Some([])
    else
      var h := SplitHeader(s);
      var path := FullPath(h);
      match Interpret(h)
      case TarEof => Some([])
      case TarError => None
      case Found(size, mode, uid, gid, mtime, _) =>
        var rest := Drop(s, BLOCK);
        if |rest| < size || path.None? then None
        else
          var tail := ReadArchive(Drop(rest, size + Padding(size)));
          if tail.None? then None
          else Some([TarItem(path.value, h[TYPEFLAG][0] == DIRTYPE, mode, mtime, uid, gid, rest[..size])] + tail.value)
  }

  // ----- the round trip -----

  /** Items whose numbers fit their fields, and whose path is a string. */
  ghost predicate Storable(item: TarItem) {
    && NoNull(item.path)
    && 0 <= item.mode < 0x1F_FFFF && 0 <= item.uid < 0x1F_FFFF && 0 <= item.gid < 0x1F_FFFF
    && 0 <= item.mtime < 0xFFFF_FFFF && |item.data| < 0xFFFF_FFFF
  }

  /** Items that come back: the path is one, and fits, and no data is given for a
      directory. */
  ghost predicate Restorable(item: TarItem) {
    item.path != [] && Fits(item.path, item.isDir) && DataSize(item) == |item.data|
  }

  /** The item as it comes back: a directory's path ends in a slash. */
  function Stored(item: TarItem): TarItem {
    item.(path := StoredPath(item.path, item.isDir))
  }

  /** Storing a path changes no field behind the mode, and leaves the mode's end. */
  lemma PathLeavesOthers(h: Fields, path: seq<byte>, isDir: bool, i: nat)
    requires ValidFields(h) && |StoredPath(path, isDir)| <= 255 && 0 < i < 15
    ensures i != MODE || Fits(path, isDir) ==> SetPath(h, path, isDir)[i] == h[i]
    ensures i == MODE ==> SetPath(h, path, isDir)[i][7] == h[i][7]
  {
    hide StoreName, StorePrefix, LastSlash, Zeros, StoredPath;
    var total := |StoredPath(path, isDir)|;
    if total <= 100 {
      NameLeavesOthers(h[PREFIX := Zeros(155)], path, isDir, total, i);
    } else if Splits(path, isDir) {
      var n := LastSlash(path, |path|) + 1;
      NameLeavesOthers(StorePrefix(h, path, n), path[n..], isDir, total - n, i);
      PrefixLeavesOthers(h, path, n, i);
    }
  }

  lemma NameLeavesOthers(h: Fields, rest: seq<byte>, isDir: bool, total: nat, i: nat)
    requires ValidFields(h) && |rest| <= total <= 100 && 0 < i < 16
    ensures i != MODE || total < 100 ==> StoreName(h, rest, isDir, total)[i] == h[i]
    ensures i == MODE ==> StoreName(h, rest, isDir, total)[i][7] == h[i][7]
  {
  }

  lemma PrefixLeavesOthers(h: Fields, path: seq<byte>, n: nat, i: nat)
    requires ValidFields(h) && n <= |path| && n <= 155 && i < 15
    ensures StorePrefix(h, path, n)[i] == h[i]
  {
  }

  /** The path is read from the prefix, the name and what follows that up to a
      null byte, here at the end of the mode at the latest. */
  lemma SamePath(h: Fields, h2: Fields)
    requires ValidFields(h) && ValidFields(h2) && h[PREFIX] == h2[PREFIX]
    requires h[NAME] == h2[NAME] && h[MODE] == h2[MODE] && h[MODE][7] == 0
    ensures FullPath(h2) == FullPath(h)
  {
    PrefixAlone(h, h2);
    NameAndMode(h);
    NameAndMode(h2);
    hide FullPath;
    assert StringAt(h, NAME) == StringAt(h2, NAME);
    SameParts(h, h2);
  }

  lemma SameParts(h: Fields, h2: Fields)
    requires ValidFields(h) && ValidFields(h2)
    requires StringAt(h, NAME) == StringAt(h2, NAME) && StringAt(h, PREFIX) == StringAt(h2, PREFIX)
    ensures FullPath(h2) == FullPath(h)
  {
    hide StringAt;
  }

  lemma NameAndMode(h: Fields)
    requires ValidFields(h) && h[MODE][7] == 0
    ensures StringAt(h, NAME) == CString(h[NAME] + h[MODE])
  {
    FlattenFrom(h, NAME);
    FlattenFrom(h, MODE);
    var s, tail := h[NAME] + h[MODE], Flatten(h[MODE + 1..]);
    assert s[107] == 0;
    assert Flatten(h[NAME..]) == s + tail;
    CStringInFront(s, tail);
  }

  /** A string that ends within s does not depend on what follows. */
  lemma {:induction false} CStringInFront(s: seq<byte>, tail: seq<byte>)
    requires 0 in s
    ensures CString(s + tail) == CString(s)
  {
    if s[0] != 0 {
      assert (s + tail)[1..] == s[1..] + tail;
      CStringInFront(s[1..], tail);
    }
  }

  lemma SmallReads(h: Fields, i: nat, v: nat)
    requires ValidFields(h) && i < 16 && FieldSize(i) == 8 && v < MAX_7_BYTE && h[i] == Octal(v, 7) + [0]
    ensures ParseAt(h, i) == Some(v)
  {
    FlattenFrom(h, i);
    OctalLimits();
    var tail := [0] + Flatten(h[i + 1..]);
    assert Flatten(h[i..]) == Octal(v, 7) + tail;
    OctalRoundTrip(v, 7, tail);
  }

  lemma LargeReads(v: nat)
    requires v < UINT_MAX
    ensures ParseOctal(Octal(v, 11) + [0] + [0]) == Some(v)
  {
    OctalLimits();
    OctalRoundTrip(v, 11, [0, 0]);
    assert Octal(v, 11) + [0] + [0] == Octal(v, 11) + [0, 0];
  }

  lemma EmptyReadsNothing(h: Fields, i: nat)
    requires ValidFields(h) && i < 16 && FieldSize(i) == 8 && h[i] == Zeros(8)
    ensures OptionalOk(h, i)
  {
  }

  /** The header of an item before its path is stored. */
  function BeforePath(item: TarItem): (h: Fields)
    ensures ValidFields(h)
  {
    var h := NullHeader()[TYPEFLAG := TypeField(item.isDir)];
    SetLarge(SetSmall(h, MODE, NotNegative(item.mode, 0)), MTIME, NotNegative(item.mtime, 0))
  }

  /** The fields of the header that is written for an item. */
  lemma WrittenFields(item: TarItem)
    requires Storable(item) && |StoredPath(item.path, item.isDir)| <= 255
    ensures var h, h2 := Finished(ItemHeader(item), DataSize(item)), SetPath(BeforePath(item), item.path, item.isDir);
            && h[NAME] == h2[NAME] && h[MODE] == h2[MODE] && h[PREFIX] == h2[PREFIX]
            && h[UID] == Octal(item.uid, 7) + [0] && h[GID] == Octal(item.gid, 7) + [0]
            && h[SIZE] == Octal(DataSize(item), 11) + [0] && h[MTIME] == Octal(item.mtime, 11) + [0]
            && h[TYPEFLAG] == TypeField(item.isDir) && h[MAGIC] == USTAR() && h[VERSION] == VersionText()
            && h[DEVMAJOR] == Zeros(8) && h[DEVMINOR] == Zeros(8)
            && (exists c: nat :: c < MAX_7_BYTE && h[CHKSUM] == Octal(c, 7) + [0])
  {
    hide Octal, FullPath, SetPath, CheckSum, StoredPath, Zeros;
    var h1 := BeforePath(item);
    var h2 := SetPath(h1, item.path, item.isDir);
    forall i | 1 < i < 15
      ensures h2[i] == h1[i]
    {
      PathLeavesOthers(h1, item.path, item.isDir, i);
    }
    NullsSame();
    var h3 := ItemHeader(item);
    assert h3 == SetSmall(SetSmall(h2, UID, item.uid), GID, item.gid);
    var h4 := h3[SIZE := Octal(DataSize(item), 11) + [0]][MAGIC := USTAR()][VERSION := VersionText()];
    CheckSumSmall(h4);
    var h := Finished(h3, DataSize(item));
    assert h == h4[CHKSUM := Octal(CheckSum(h4), 7) + [0]];
  }

  /** The path is read from a written header if and only if it fits. */
  lemma WrittenPathIff(item: TarItem)
    requires Storable(item)
    ensures var h := Finished(ItemHeader(item), DataSize(item));
            && (item.path != [] ==> (FullPath(h) == Some(StoredPath(item.path, item.isDir)) <==> Fits(item.path, item.isDir)))
            && (Fits(item.path, item.isDir) ==> h[MODE] == Octal(item.mode, 7) + [0])
            && (item.path == [] ==> FullPath(h) == Some([]) && h[NAME][0] == 0 && h[PREFIX][0] == 0)
  {
    hide Octal, FullPath, SetPath, Finished, Zeros, LastSlash;
    var h1 := BeforePath(item);
    var h := Finished(ItemHeader(item), DataSize(item));
    FreshFields(item);
    if |StoredPath(item.path, item.isDir)| > 255 {
      TooLongPath(item);
    } else {
      WrittenFields(item);
      var h2 := SetPath(h1, item.path, item.isDir);
      PathLeavesOthers(h1, item.path, item.isDir, MODE);
      SamePath(h2, h);
      PathRoundTripIff(h1, item.path, item.isDir);
      FreshEntryIff(h1, item.path, item.isDir);
      if item.path == [] {
        NoPathStored(h1, item.isDir);
        NullBlockPath(h);
      }
    }
  }

  lemma NoPathStored(h: Fields, isDir: bool)
    requires ValidFields(h)
    ensures SetPath(h, [], isDir)[NAME][0] == 0 && SetPath(h, [], isDir)[PREFIX][0] == 0
  {
  }

  lemma FreshFields(item: TarItem)
    requires Storable(item)
    ensures var h := BeforePath(item);
            && h[MODE] == Octal(item.mode, 7) + [0] && ModeSet(h) && h[MODE][7] == 0 && h[PREFIX] == Zeros(155)
  {
    hide Octal;
    FirstDigit(item.mode, BeforePath(item)[MODE]);
    NullsSame();
  }

  /** Of a path that is too long nothing is stored. */
  lemma TooLongPath(item: TarItem)
    requires |StoredPath(item.path, item.isDir)| > 255
    ensures var h := Finished(ItemHeader(item), DataSize(item));
            && h[NAME][0] == 0 && h[PREFIX][0] == 0 && FullPath(h) == Some([])
  {
    hide Octal, CheckSum, FullPath, StoredPath, Zeros;
    NullsSame();
    FirstNull(100);
    FirstNull(155);
    NullBlockPath(Finished(ItemHeader(item), DataSize(item)));
  }

  lemma FirstNull(n: nat)
    requires n > 0
    ensures Zeros(n)[0] == 0
  {
  }

  lemma NullsSame()
    ensures NullHeader()[NAME] == Zeros(100) && NullHeader()[PREFIX] == Zeros(155)
    ensures NullHeader()[DEVMAJOR] == Zeros(8) && NullHeader()[DEVMINOR] == Zeros(8)
  {
  }

  lemma FirstDigit(v: nat, field: seq<byte>)
    requires field == Octal(v, 7) + [0]
    ensures field[0] != 0
  {
    assert field[0] == Octal(v, 7)[0];
  }

  lemma CheckSumSmall(h: Fields)
    requires ValidFields(h)
    ensures CheckSum(h) < MAX_7_BYTE
  {
    var h2 := h[CHKSUM := Spaces(8)];
    SplitRoundTrip(h2, []);
    SumBound(Flatten(h2));
  }

  predicate FoundAs(r: TarRead, item: TarItem) {
    && r.Found? && r.size == DataSize(item) && r.mode == item.mode && r.uid == item.uid
    && r.gid == item.gid && r.mtime == item.mtime
  }

  /** The header written for an item whose path fits is understood as that item. */
  lemma WrittenIsFound(item: TarItem)
    requires Storable(item) && item.path != [] && Fits(item.path, item.isDir)
    ensures var h := Finished(ItemHeader(item), DataSize(item));
            && FoundAs(Interpret(h), item)
            && FullPath(h) == Some(StoredPath(item.path, item.isDir))
            && h[TYPEFLAG] == TypeField(item.isDir)
  {
    WrittenFields(item);
    WrittenPathIff(item);
    hide Octal, FullPath, ItemHeader, Finished, StoredPath, ParseAt, ParseOctal, Zeros, Flatten, Interpret, OptionalOk, Fits;
    var h := Finished(ItemHeader(item), DataSize(item));
    var c: nat :| c < MAX_7_BYTE && h[CHKSUM] == Octal(c, 7) + [0];
    SmallReads(h, MODE, item.mode);
    SmallReads(h, UID, item.uid);
    SmallReads(h, GID, item.gid);
    SmallReads(h, CHKSUM, c);
    LargeReads(DataSize(item));
    LargeReads(item.mtime);
    EmptyReadsNothing(h, DEVMAJOR);
    EmptyReadsNothing(h, DEVMINOR);
    NotNullBlock(h, item.path, item.isDir);
    Understood(h, DataSize(item), item.mode, item.uid, item.gid, item.mtime, c, item.isDir);
  }

  /** The tests of the reader, one by one. */
  lemma Understood(h: Fields, size: nat, mode: nat, uid: nat, gid: nat, mtime: nat, c: nat, isDir: bool)
    requires ValidFields(h) && (h[NAME][0] != 0 || h[PREFIX][0] != 0)
    requires h[MAGIC] == USTAR() && h[TYPEFLAG] == TypeField(isDir) && (isDir ==> size == 0)
    requires ParseOctal(h[SIZE] + [0]) == Some(size) && ParseOctal(h[MTIME] + [0]) == Some(mtime)
    requires ParseAt(h, MODE) == Some(mode) && ParseAt(h, UID) == Some(uid) && ParseAt(h, GID) == Some(gid)
    requires ParseAt(h, CHKSUM) == Some(c) && OptionalOk(h, DEVMAJOR) && OptionalOk(h, DEVMINOR)
    ensures Interpret(h) == Found(size, mode, uid, gid, mtime, c)
  {
    hide ParseOctal, ParseAt, OptionalOk;
  }

  lemma NotNullBlock(h: Fields, path: seq<byte>, isDir: bool)
    requires ValidFields(h) && path != [] && FullPath(h) == Some(StoredPath(path, isDir))
    ensures h[NAME][0] != 0 || h[PREFIX][0] != 0
  {
    if h[NAME][0] == 0 && h[PREFIX][0] == 0 {
      NullBlockPath(h);
    }
  }

  lemma NullBlockPath(h: Fields)
    requires ValidFields(h) && h[NAME][0] == 0 && h[PREFIX][0] == 0
    ensures FullPath(h) == Some([])
  {
    FlattenFrom(h, NAME);
    FlattenFrom(h, PREFIX);
    CStringIs(Flatten(h[NAME..]), 0);
    CStringIs(Flatten(h[PREFIX..]), 0);
  }

  lemma NullBlockEnds(s: seq<byte>)
    requires |s| >= HEADER_BYTES && forall i :: 0 <= i < HEADER_BYTES ==> s[i] == 0
    ensures ReadArchive(s) == Some([])
  {
    var h := SplitHeader(s);
    SplitAt(s, 0);
    SplitAt(s, 15);
    OffsetsTo15();
    hide SplitHeader;
    assert h[NAME][0] == s[0] == 0;
    assert h[PREFIX][0] == s[345] == 0;
  }

  lemma OffsetsTo15()
    ensures Offset(15) == 345 && Offset(0) == 0 && Offset(1) == 100 && Offset(16) == 500
  {
    assert Offset(8) == 157;
  }

  /** Writing any items and the two null blocks, and reading the stream, gives the
      items back in order, then the end, if and only if every one of them has a path
      that fits and no directory comes with data. */
  lemma {:induction false} ArchiveRoundTrip(items: seq<TarItem>)
    requires forall i :: 0 <= i < |items| ==> Storable(items[i])
    ensures ReadArchive(EncodeAll(items) + Zeros(2 * BLOCK)) == Some(StoredAll(items))
            <==> forall i :: 0 <= i < |items| ==> Restorable(items[i])
    decreases |items|
  {
    hide EncodeItem, EncodeAll, ReadArchive, Zeros, Stored, Storable, Restorable, StoredAll;
    if items == [] {
      EndBlocks();
    } else {
      var item := items[0];
      var more := EncodeAll(items[1..]) + Zeros(2 * BLOCK);
      ArchiveRoundTrip(items[1..]);
      FirstEncoded(items, Zeros(2 * BLOCK));
      FirstAndRest(items);
      if Restorable(item) {
        ItemIsRead(item, more);
        SameFirst(Stored(item), ReadArchive(more), StoredAll(items[1..]));
      } else {
        ItemIsLost(item, more);
      }
    }
  }

  lemma FirstEncoded(items: seq<TarItem>, end: seq<byte>)
    requires items != []
    ensures EncodeAll(items) + end == EncodeItem(items[0]) + (EncodeAll(items[1..]) + end)
  {
    hide EncodeItem;
  }

  lemma SameFirst(x: TarItem, r: Option<seq<TarItem>>, rest: seq<TarItem>)
    ensures (if r.None? then None else Some([x] + r.value)) == Some([x] + rest) <==> r == Some(rest)
  {
    if r.Some? && [x] + r.value == [x] + rest {
      assert r.value == ([x] + r.value)[1..] == rest;
    }
  }

  lemma EndBlocks()
    ensures ReadArchive(EncodeAll([]) + Zeros(2 * BLOCK)) == Some([]) == Some(StoredAll([]))
  {
    hide ReadArchive;
    var end := Zeros(2 * BLOCK);
    assert EncodeAll([]) + end == end;
    NullBlockEnds(end);
  }

  lemma FirstAndRest(items: seq<TarItem>)
    requires items != []
    ensures StoredAll(items) == [Stored(items[0])] + StoredAll(items[1..])
    ensures (forall i :: 0 <= i < |items| ==> Restorable(items[i]))
            <==> Restorable(items[0]) && forall i :: 0 <= i < |items[1..]| ==> Restorable(items[1..][i])
  {
    hide Restorable, Stored;
    assert items == [items[0]] + items[1..];
  }

  function StoredAll(items: seq<TarItem>): (r: seq<TarItem>)
    ensures |r| == |items| && forall i :: 0 <= i < |items| ==> r[i] == Stored(items[i])
  {
    seq(|items|, i requires 0 <= i < |items| => Stored(items[i]))
  }

  /** One item that comes back, in front of a stream. */
  lemma ItemIsRead(item: TarItem, more: seq<byte>)
    requires Storable(item) && Restorable(item)
    ensures ReadArchive(EncodeItem(item) + more) ==
      if ReadArchive(more).None? then None else Some([Stored(item)] + ReadArchive(more).value)
  {
    WrittenIsFound(item);
    StreamParts(item, more);
    hide EncodeItem, SplitHeader, Interpret, FullPath, Finished, ItemHeader, Drop, Storable, StoredPath, Padding, ReadArchive;
    var h := Finished(ItemHeader(item), |item.data|);
    ReadStep(EncodeItem(item) + more, h, StoredPath(item.path, item.isDir), Interpret(h), more);
  }

  /** Any other item is not what is read first, whatever follows it. */
  lemma ItemIsLost(item: TarItem, more: seq<byte>)
    requires Storable(item) && !Restorable(item)
    ensures var r := ReadArchive(EncodeItem(item) + more);
            r.Some? && r.value != [] ==> r.value[0] != Stored(item)
  {
    var s, h := EncodeItem(item) + more, Finished(ItemHeader(item), DataSize(item));
    StreamParts(item, more);
    WrittenPathIff(item);
    if item.path != [] && Fits(item.path, item.isDir) {
      WrittenIsFound(item);
    }
    hide EncodeItem, SplitHeader, FullPath, Finished, ItemHeader, Drop, StoredPath, Padding, ReadArchive, Interpret, Fits;
    if item.path == [] {
      NullBlock(h);
    }
    FirstRead(s);
  }

  lemma NullBlock(h: Fields)
    requires ValidFields(h) && h[NAME][0] == 0 && h[PREFIX][0] == 0
    ensures Interpret(h) == TarEof
  {
  }

  /** What the first item read has of the header in front. */
  lemma FirstRead(s: seq<byte>)
    requires |s| >= HEADER_BYTES
    ensures var r, h := ReadArchive(s), SplitHeader(s);
            r.Some? && r.value != [] ==> Interpret(h).Found? && FullPath(h) == Some(r.value[0].path)
                                         && |r.value[0].data| == Interpret(h).size
  {
    hide SplitHeader, FullPath, Interpret, Drop, Padding;
  }

  /** One step of the reader. */
  lemma ReadStep(s: seq<byte>, h: Fields, path: seq<byte>, r: TarRead, more: seq<byte>)
    requires |s| >= HEADER_BYTES && SplitHeader(s) == h && Interpret(h) == r && r.Found? && FullPath(h) == Some(path)
    requires var rest := Drop(s, BLOCK);
             |rest| >= r.size && Drop(rest, r.size + Padding(r.size)) == more
    ensures h[TYPEFLAG] != []
    ensures ReadArchive(s) ==
      if ReadArchive(more).None? then None
      else Some([TarItem(path, h[TYPEFLAG][0] == DIRTYPE, r.mode, r.mtime, r.uid, r.gid, Drop(s, BLOCK)[..r.size])]
                + ReadArchive(more).value)
  {
    hide SplitHeader, Interpret, FullPath, Drop, Padding;
  }

  /** The parts of the stream that the reader takes in turn. */
  lemma StreamParts(item: TarItem, more: seq<byte>)
    ensures var s := EncodeItem(item) + more;
            var h := Finished(ItemHeader(item), DataSize(item));
            && |s| >= HEADER_BYTES && SplitHeader(s) == h
            && |Drop(s, BLOCK)| >= |item.data| && Drop(s, BLOCK)[..|item.data|] == item.data
            && (DataSize(item) == |item.data| ==> Drop(Drop(s, BLOCK), |item.data| + Padding(|item.data|)) == more)
  {
    hide Finished, ItemHeader, SplitHeader, Padding;
    var h := Finished(ItemHeader(item), DataSize(item));
    var head, pad := Zeros(BLOCK - HEADER_BYTES), Zeros(Fill(|item.data|, DataSize(item)));
    var s := EncodeItem(item) + more;
    SplitRoundTrip(h, head + item.data + pad + more);
    assert s == Flatten(h) + (head + item.data + pad + more);
    assert s == (Flatten(h) + head) + (item.data + pad + more);
    assert Drop(s, BLOCK) == item.data + pad + more;
  }
}
