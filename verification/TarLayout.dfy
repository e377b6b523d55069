/** The header of an archive entry byte by byte: what is written, and what a header
    that is read has to hold. */
module TarLayout {
  import opened LogFormat
  import opened TarHeader
  import opened TarArchive
  import opened LogFile

  // ----- where the fields are -----

  lemma Offsets()
    ensures Offset(0) == 0 && Offset(1) == 100 && Offset(2) == 108 && Offset(3) == 116 && Offset(4) == 124
    ensures Offset(5) == 136 && Offset(6) == 148 && Offset(7) == 156 && Offset(8) == 157 && Offset(9) == 257
    ensures Offset(10) == 263 && Offset(11) == 265 && Offset(12) == 297 && Offset(13) == 329 && Offset(14) == 337
    ensures Offset(15) == 345 && Offset(16) == 500
  {
    assert Offset(8) == 157;
  }

  lemma {:induction false} FlattenInTwo(h: Fields, i: nat)
    requires i <= |h|
    ensures Flatten(h) == Flatten(h[..i]) + Flatten(h[i..])
  {
    if i == 0 {
      assert h[..0] == [] && h[0..] == h && [] + Flatten(h) == Flatten(h);
    } else {
      FlattenInTwo(h[1..], i - 1);
      assert h[..i][1..] == h[1..][..i - 1] && h[1..][i - 1..] == h[i..];
    }
  }

  /** One field of a header, and the bytes on both sides of it. */
  lemma AroundField(h: Fields, i: nat)
    requires ValidFields(h) && i < 16
    ensures |Flatten(h[..i])| == Offset(i)
    ensures Flatten(h) == Flatten(h[..i]) + h[i] + Flatten(h[i + 1..])
  {
    hide Flatten, Offset, FieldSize;
    FlattenInTwo(h, i);
    FlattenFrom(h, i);
    FlattenLength(h, 0);
    FlattenLength(h, i);
    assert h[0..] == h;
    AtFront();
  }

  lemma AtFront()
    ensures Offset(0) == 0
  {
  }

  lemma FieldOnDisk(h: Fields, i: nat, s: seq<byte>)
    requires ValidFields(h) && i < 16 && Flatten(h) <= s
    ensures Offset(i) <= Offset(i + 1) <= |s| && s[Offset(i)..Offset(i + 1)] == h[i]
  {
    hide Flatten, Offset;
    assert s == Flatten(h) + s[|Flatten(h)|..];
    FieldAlone(h, i, s, s[|Flatten(h)|..]);
  }

  // ----- octal digits -----

  /** What a row of octal digits stands for. */
  function OctalValue(s: seq<byte>): int {
    if |s| == 0 then 0 else 8 * OctalValue(s[..|s| - 1]) + (s[|s| - 1] as int - 48)
  }

  ghost predicate OctalDigits(s: seq<byte>) {
    forall i :: 0 <= i < |s| ==> 48 <= s[i] <= 55
  }

  /** The field holds a number: octal digits, and a null byte behind them. */
  ghost predicate HoldsNumber(field: seq<byte>, v: int) {
    |field| > 0 && var n := |field| - 1; field[n] == 0 && OctalDigits(field[..n]) && OctalValue(field[..n]) == v
  }

  lemma {:induction false} OctalValueOf(n: nat, d: nat)
    requires n < Pow8(d)
    ensures OctalValue(Octal(n, d)) == n
  {
    if d > 0 {
      OctalValueOf(n / 8, d - 1);
      assert Octal(n, d)[..d - 1] == Octal(n / 8, d - 1);
    }
  }

  lemma FieldHolds(v: nat, d: nat)
    requires v < Pow8(d)
    ensures HoldsNumber(Octal(v, d) + [0], v)
  {
    OctalValueOf(v, d);
    assert (Octal(v, d) + [0])[..d] == Octal(v, d);
  }

  lemma {:induction false} DigitsAre(digits: seq<byte>, tail: seq<byte>)
    requires OctalDigits(digits)
    ensures OctalValue(digits) >= 0
    ensures Digits(digits + tail, 0, 0) == Digits(tail, OctalValue(digits), |digits|)
    decreases |digits|
  {
    if digits == [] {
      assert digits + tail == tail;
    } else {
      var n := |digits| - 1;
      var last := [digits[n]] + tail;
      DigitsAre(digits[..n], last);
      assert digits + tail == digits[..n] + last && last[1..] == tail;
    }
  }

  lemma {:induction false} SpacesSkipped(spaces: seq<byte>, rest: seq<byte>)
    requires forall i :: 0 <= i < |spaces| ==> spaces[i] == 32 || 9 <= spaces[i] <= 13
    requires rest == [] || !(rest[0] == 32 || 9 <= rest[0] <= 13)
    ensures SkipSpaces(spaces + rest) == rest
  {
    if spaces == [] {
      assert spaces + rest == rest;
    } else {
      assert (spaces + rest)[1..] == spaces[1..] + rest;
      SpacesSkipped(spaces[1..], rest);
    }
  }

  /** A number is read from octal digits behind white space, up to the first byte that
      is something else; without digits there is none. */
  lemma NumberIsRead(spaces: seq<byte>, digits: seq<byte>, tail: seq<byte>)
    requires forall i :: 0 <= i < |spaces| ==> spaces[i] == 32 || 9 <= spaces[i] <= 13
    requires OctalDigits(digits) && (tail != [] ==> !(48 <= tail[0] <= 55))
    requires digits == [] && tail != [] ==> !(tail[0] == 32 || 9 <= tail[0] <= 13)
    ensures OctalValue(digits) >= 0
    ensures ParseOctal(spaces + digits + tail) == if digits == [] then None else Some(OctalValue(digits))
  {
    var rest := digits + tail;
    if digits != [] {
      assert rest[0] == digits[0];
    } else {
      assert rest == tail;
    }
    SpacesSkipped(spaces, rest);
    assert spaces + digits + tail == spaces + rest;
    DigitsAre(digits, tail);
  }

  // ----- the checksum -----

  /** The sum counts every byte once. */
  lemma {:induction false} SumOfTwo(a: seq<byte>, b: seq<byte>)
    ensures Sum(a + b) == Sum(a) + Sum(b)
    ensures forall x: byte :: Sum([x]) == x
  {
    if a == [] {
      assert [] + b == b;
    } else {
      assert (a + b)[1..] == a[1..] + b;
      SumOfTwo(a[1..], b);
    }
  }

  lemma {:induction false} SumOfSpaces(n: nat)
    ensures Sum(Spaces(n)) == 32 * n
  {
    if n > 0 {
      assert Spaces(n)[1..] == Spaces(n - 1);
      SumOfSpaces(n - 1);
    }
  }

  /** Eight spaces in the place of the field, then the digits of what comes out. */
  lemma CheckSumField(h: Fields)
    requires ValidFields(h)
    ensures var c, front, behind := CheckSum(h), Flatten(h[..CHKSUM]), Flatten(h[CHKSUM + 1..]);
            && c == Sum(front) + 256 + Sum(behind) < MAX_7_BYTE && |front| == 148
            && Flatten(SetSmall(h, CHKSUM, c)) == front + (Octal(c, 7) + [0]) + behind
  {
    hide Flatten, Octal, Offset, Sum, Spaces;
    CheckSumSmall(h);
    var h1, h2 := h[CHKSUM := Spaces(8)], SetSmall(h, CHKSUM, CheckSum(h));
    AroundField(h1, CHKSUM);
    AroundField(h2, CHKSUM);
    Offsets();
    assert h1[..CHKSUM] == h2[..CHKSUM] == h[..CHKSUM];
    assert h1[CHKSUM + 1..] == h2[CHKSUM + 1..] == h[CHKSUM + 1..];
    SumOfSpaces(8);
    SumOfTwo(Flatten(h[..CHKSUM]) + Spaces(8), Flatten(h[CHKSUM + 1..]));
    SumOfTwo(Flatten(h[..CHKSUM]), Spaces(8));
  }

  /** The checksum written: the eight bytes at 148 hold the sum of all 500 bytes of the
      header, with those eight counted as spaces. */
  lemma CheckSumWritten(h: Fields, size: nat, s: seq<byte>)
    requires ValidFields(h) && Flatten(Finished(h, size)) <= s
    ensures |s| >= 500 && HoldsNumber(s[148..156], Sum(s[..148]) + 8 * 32 + Sum(s[156..500]))
  {
    hide Flatten, Octal, Sum, CheckSum, HoldsNumber;
    var h2 := h[SIZE := Octal(if size < UINT_MAX then size else UINT_MAX, 11) + [0]][MAGIC := USTAR()][VERSION := VersionText()];
    var c, front, behind := CheckSum(h2), Flatten(h2[..CHKSUM]), Flatten(h2[CHKSUM + 1..]);
    CheckSumField(h2);
    OctalLimits();
    FieldHolds(c, 7);
    SplitRoundTrip(Finished(h, size), []);
    ThreeSlices(s, front, Octal(c, 7) + [0], behind);
  }

  /** The same in a file the header has been written to. */
  lemma CheckSumInFile(bytes: seq<byte>, pos: nat, h: Fields, size: nat, more: seq<byte>)
    requires ValidFields(h)
    ensures var r := Overwrite(bytes, pos, Flatten(Finished(h, size)) + more);
            && |r| >= pos + 500
            && HoldsNumber(r[pos + 148..pos + 156], Sum(r[pos..pos + 148]) + 8 * 32 + Sum(r[pos + 156..pos + 500]))
  {
    hide Flatten, Sum, HoldsNumber, Finished;
    var s := Flatten(Finished(h, size)) + more;
    CheckSumWritten(h, size, s);
    var r := Overwrite(bytes, pos, s);
    assert r[pos..pos + |s|] == s;
    hide Overwrite;
    assert r[pos + 148..pos + 156] == r[pos..pos + |s|][148..156];
    assert r[pos..pos + 148] == r[pos..pos + |s|][..148];
    assert r[pos + 156..pos + 500] == r[pos..pos + |s|][156..500];
  }

  lemma ThreeSlices(s: seq<byte>, a: seq<byte>, b: seq<byte>, c: seq<byte>)
    requires a + b + c <= s
    ensures |s| >= |a| + |b| + |c|
    ensures s[..|a|] == a && s[|a|..|a| + |b|] == b && s[|a| + |b|..|a| + |b| + |c|] == c
  {
    var t := a + b + c;
    assert s[..|a|] == t[..|a|] && s[|a|..|a| + |b|] == t[|a|..|a| + |b|];
    assert s[|a| + |b|..|a| + |b| + |c|] == t[|a| + |b|..];
  }

  // ----- the header of an item -----

  lemma HeaderFirst(item: TarItem)
    ensures Flatten(Finished(ItemHeader(item), DataSize(item))) <= EncodeItem(item)
  {
    hide Flatten, Finished, ItemHeader, DataSize, Zeros, Padding;
  }

  /** Every item that is written, whatever its numbers, has a right checksum. */
  lemma ItemCheckSum(item: TarItem)
    ensures var s := EncodeItem(item);
            |s| >= 500 && HoldsNumber(s[148..156], Sum(s[..148]) + 8 * 32 + Sum(s[156..500]))
  {
    hide Flatten, Finished, ItemHeader, EncodeItem, HoldsNumber, Sum;
    HeaderFirst(item);
    CheckSumWritten(ItemHeader(item), DataSize(item), EncodeItem(item));
  }

  /** Numbers below zero are written as 65535 for ids and as 0 for mode and time. */
  lemma NegativeNumbers(item: TarItem)
    ensures EncodeItem(item) == EncodeItem(item.(
              mode := if item.mode < 0 then 0 else item.mode, mtime := if item.mtime < 0 then 0 else item.mtime,
              uid := if item.uid < 0 then 65535 else item.uid, gid := if item.gid < 0 then 65535 else item.gid))
  {
    hide Flatten, Finished, Zeros, Padding, SetPath, SetSmall, SetLarge, StoredPath;
  }

  /** The bytes of the header written for an item whose numbers fit: ids, size and
      time in octal digits, the type, and the magic and version texts. */
  lemma ItemLayout(item: TarItem)
    requires Storable(item) && |StoredPath(item.path, item.isDir)| <= 255
    ensures var s := EncodeItem(item);
            && |s| >= 512
            && HoldsNumber(s[108..116], item.uid) && HoldsNumber(s[116..124], item.gid)
            && HoldsNumber(s[124..136], if item.isDir then 0 else |item.data|)
            && HoldsNumber(s[136..148], item.mtime)
            && s[156] == (if item.isDir then 53 else 48)
            && s[257..263] == [117, 115, 116, 97, 114, 0] && s[263..265] == [48, 48]
    ensures Fits(item.path, item.isDir) ==> HoldsNumber(EncodeItem(item)[100..108], item.mode)
  {
    hide Flatten, Finished, ItemHeader, EncodeItem, HoldsNumber, Octal, SetPath, BeforePath, CheckSum, FullPath, FieldSize, Offset, Fits;
    var h, s := Finished(ItemHeader(item), DataSize(item)), EncodeItem(item);
    HeaderFirst(item);
    EncodedLength(item);
    WrittenFields(item);
    WrittenPathIff(item);
    Offsets();
    OctalLimits();
    FieldOnDisk(h, MODE, s);
    FieldOnDisk(h, UID, s);
    FieldOnDisk(h, GID, s);
    FieldOnDisk(h, SIZE, s);
    FieldOnDisk(h, MTIME, s);
    FieldOnDisk(h, TYPEFLAG, s);
    FieldOnDisk(h, MAGIC, s);
    FieldOnDisk(h, VERSION, s);
    FieldHolds(item.mode, 7);
    FieldHolds(item.uid, 7);
    FieldHolds(item.gid, 7);
    FieldHolds(DataSize(item), 11);
    FieldHolds(item.mtime, 11);
    assert s[156..157][0] == s[156];
  }

  /** Ids, a mode and a time that are too large are not stored, and a size that is too
      large is stored as the largest. */
  lemma LargeNumbers(item: TarItem)
    requires |StoredPath(item.path, item.isDir)| <= 255
    ensures var s := EncodeItem(item);
            && |s| >= 512
            && (item.uid >= 0x1F_FFFF ==> s[108..116] == Zeros(8)) && (item.gid >= 0x1F_FFFF ==> s[116..124] == Zeros(8))
            && (item.mtime >= 0xFFFF_FFFF ==> s[136..148] == Zeros(12))
            && (!item.isDir && |item.data| >= 0xFFFF_FFFF ==> HoldsNumber(s[124..136], 0xFFFF_FFFF))
    ensures Fits(item.path, item.isDir) && item.mode >= 0x1F_FFFF ==> EncodeItem(item)[100..108] == Zeros(8)
  {
    hide Flatten, EncodeItem, HoldsNumber, Octal, SetPath, CheckSum, Offset, Fits, StoredPath, Zeros;
    var h, s := Finished(ItemHeader(item), DataSize(item)), EncodeItem(item);
    HeaderFirst(item);
    EncodedLength(item);
    Offsets();
    OctalLimits();
    FieldHolds(UINT_MAX, 11);
    NotStored(item);
    hide Finished, ItemHeader, FieldSize;
    FieldOnDisk(h, MODE, s);
    FieldOnDisk(h, UID, s);
    FieldOnDisk(h, GID, s);
    FieldOnDisk(h, SIZE, s);
    FieldOnDisk(h, MTIME, s);
  }

  lemma NotStored(item: TarItem)
    requires |StoredPath(item.path, item.isDir)| <= 255
    ensures var h := Finished(ItemHeader(item), DataSize(item));
            && (item.uid >= 0x1F_FFFF ==> h[UID] == Zeros(8)) && (item.gid >= 0x1F_FFFF ==> h[GID] == Zeros(8))
            && (item.mtime >= 0xFFFF_FFFF ==> h[MTIME] == Zeros(12))
            && (Fits(item.path, item.isDir) && item.mode >= 0x1F_FFFF ==> h[MODE] == Zeros(8))
            && (!item.isDir && |item.data| >= 0xFFFF_FFFF ==> h[SIZE] == Octal(UINT_MAX, 11) + [0])
  {
    hide Octal, SetPath, CheckSum, Fits, StoredPath, Zeros;
    var h1 := BeforePath(item);
    var h2 := SetPath(h1, item.path, item.isDir);
    PathLeavesOthers(h1, item.path, item.isDir, MODE);
    PathLeavesOthers(h1, item.path, item.isDir, UID);
    PathLeavesOthers(h1, item.path, item.isDir, GID);
    PathLeavesOthers(h1, item.path, item.isDir, MTIME);
    var nulls := NullHeader();
    assert nulls[UID] == nulls[GID] == nulls[MODE] == Zeros(8) && nulls[MTIME] == Zeros(12);
    var h3 := ItemHeader(item);
    assert h3 == SetSmall(SetSmall(h2, UID, NotNegative(item.uid, USHRT_MAX)), GID, NotNegative(item.gid, USHRT_MAX));
    var h := Finished(h3, DataSize(item));
    assert h[UID] == h3[UID] && h[GID] == h3[GID] && h[MTIME] == h3[MTIME] == h1[MTIME] && h[MODE] == h3[MODE] == h2[MODE];
  }

  lemma EncodedLength(item: TarItem)
    ensures |EncodeItem(item)| >= 512
  {
    DataLayout(item);
  }

  /** Behind the header, in the next block, the data, with null bytes around it. Unless
      data comes with a directory, the item takes whole blocks and no more of them than
      it needs. */
  lemma DataLayout(item: TarItem)
    ensures var s, n := EncodeItem(item), |item.data|;
            && |s| >= 512 + n && s[512..512 + n] == item.data
            && (forall i :: 500 <= i < 512 || 512 + n <= i < |s| ==> s[i] == 0)
            && (!item.isDir || n == 0 ==> |s| % 512 == 0 && |s| < 1024 + n)
            && (item.isDir && n > 0 && |StoredPath(item.path, item.isDir)| <= 255 ==> |s| == 512 + n)
  {
    hide Flatten, Finished, ItemHeader, Padding, StoredPath;
    SplitRoundTrip(Finished(ItemHeader(item), DataSize(item)), []);
    PaddingFills(|item.data|);
    var h, gap := Flatten(Finished(ItemHeader(item), DataSize(item))), Zeros(BLOCK - HEADER_BYTES);
    var pad := Zeros(Fill(|item.data|, DataSize(item)));
    var s := EncodeItem(item);
    assert s == (h + gap) + (item.data + pad) && s == h + (gap + item.data + pad);
  }

  lemma PaddingFills(n: nat)
    ensures (n + Padding(n)) % 512 == (512 + n + Padding(n)) % 512 == 0
  {
  }

  /** The path of an item that fits, up to a slash in the prefix, n bytes of it, and
      the rest in the name; none in the prefix when it is short. That of a directory
      ends in a slash. */
  lemma PathLayout(item: TarItem) returns (n: nat, path: seq<byte>)
    requires Storable(item) && item.path != [] && Fits(item.path, item.isDir)
    ensures var s := EncodeItem(item);
            && |s| >= 512 && n <= |path| && n < 155 && |path| - n < 100
            && (n > 0 ==> path[n - 1] == 47) && (n == 0 <==> |path| < 100)
            && s[345..345 + n] == path[..n] && s[345 + n] == 0
            && s[..|path| - n] == path[n..] && s[|path| - n] == 0
    ensures path == if item.isDir && item.path[|item.path| - 1] != 47 then item.path + [47] else item.path
  {
    hide EncodeItem, Storable, Fits, StoredPath;
    var s := EncodeItem(item);
    var name, prefix;
    name, prefix, n := PathPart(item);
    path := StoredPath(item.path, item.isDir);
    WholeName(item.path, item.isDir);
    FrontOf(s, 0, name, path[n..]);
    FrontOf(s, 345, prefix, path[..n]);
    assert s[345..345 + n] == path[..n] && s[..|path| - n] == path[n..];
  }

  /** A text and its null byte at the front of a field. */
  lemma FrontOf(s: seq<byte>, at: nat, field: seq<byte>, text: seq<byte>)
    requires at + |field| <= |s| && s[at..at + |field|] == field && text + [0] <= field
    ensures at + |text| < |s| && s[at..at + |text|] == text && s[at + |text|] == 0
  {
    var whole := text + [0];
    assert s[at + |text|] == field[|text|] == whole[|text|];
    assert s[at..at + |text|] == field[..|text|] == whole[..|text|];
  }

  /** The two fields that hold the path. */
  lemma PathPart(item: TarItem) returns (name: seq<byte>, prefix: seq<byte>, n: nat)
    requires Storable(item) && item.path != [] && Fits(item.path, item.isDir)
    ensures |name| == 100 && |prefix| == 155
    ensures |EncodeItem(item)| >= 512 && EncodeItem(item)[0..100] == name && EncodeItem(item)[345..500] == prefix
    ensures var path := StoredPath(item.path, item.isDir);
            && n <= |path| && n < 155 && |path| - n < 100
            && (n > 0 ==> path[n - 1] == 47) && (n == 0 <==> |path| < 100)
            && path[..n] + [0] <= prefix && path[n..] + [0] <= name
  {
    hide Flatten, Finished, ItemHeader, EncodeItem, BeforePath, SetPath, FieldSize, Offset, Storable, StoredPath, LastSlash, Octal;
    var written, s := Finished(ItemHeader(item), DataSize(item)), EncodeItem(item);
    HeaderFirst(item);
    EncodedLength(item);
    WrittenFields(item);
    Offsets();
    FieldOnDisk(written, NAME, s);
    FieldOnDisk(written, PREFIX, s);
    name, prefix := written[NAME], written[PREFIX];
    n := PathFields(BeforePath(item), item.path, item.isDir);
  }

  lemma PathFields(h: Fields, path: seq<byte>, isDir: bool) returns (n: nat)
    requires ValidFields(h) && path != [] && Fits(path, isDir)
    ensures var all, r := StoredPath(path, isDir), SetPath(h, path, isDir);
            && |r| == 16 && n <= |all| && n < 155 && |all| - n < 100
            && (n > 0 ==> all[n - 1] == 47) && (n == 0 <==> |all| < 100)
            && all[..n] + [0] <= r[PREFIX] && all[n..] + [0] <= r[NAME]
  {
    hide LastSlash, StoreName, StorePrefix, Fits, ValidFields, StoredPath, SetPath;
    var all := StoredPath(path, isDir);
    n := WherePathIs(h, path, isDir);
    StaysValid(h, path, isDir);
    if n == 0 {
      WholeName(path, isDir);
      NameField(h[PREFIX := Zeros(155)], path, isDir, |all|);
      assert all[..0] + [0] == [0] && all[0..] == all;
    } else {
      RestOfName(path, isDir, n);
      PrefixField(h, path, n);
      NameField(StorePrefix(h, path, n), path[n..], isDir, |all| - n);
    }
  }

  lemma StaysValid(h: Fields, path: seq<byte>, isDir: bool)
    requires ValidFields(h) && |StoredPath(path, isDir)| <= 255
    ensures |SetPath(h, path, isDir)| == 16 == |h|
  {
  }

  lemma WherePathIs(h: Fields, path: seq<byte>, isDir: bool) returns (n: nat)
    requires ValidFields(h) && path != [] && Fits(path, isDir)
    ensures var all := StoredPath(path, isDir);
            && |path| <= |all| <= 255 && n <= |path| && n < 155 && |all| - n < 100 && (n == 0 <==> |all| < 100)
            && (n > 0 ==> path[n - 1] == 47 && path[n - 1] == all[n - 1])
            && ValidFields(h[PREFIX := Zeros(155)])
            && SetPath(h, path, isDir) == if n == 0 then StoreName(h[PREFIX := Zeros(155)], path, isDir, |all|)
                                          else StoreName(StorePrefix(h, path, n), path[n..], isDir, |all| - n)
  {
    hide LastSlash, StoreName, StorePrefix;
    n := if |StoredPath(path, isDir)| < 100 then 0 else LastSlash(path, |path|) + 1;
  }

  lemma WholeName(path: seq<byte>, isDir: bool)
    ensures var all := StoredPath(path, isDir);
            && |path| <= |all| <= |path| + (if isDir then 1 else 0) && all == path + (if |all| > |path| then [47] else [])
            && (path != [] ==> all == if isDir && path[|path| - 1] != 47 then path + [47] else path)
  {
  }

  lemma RestOfName(path: seq<byte>, isDir: bool, n: nat)
    requires n <= |path|
    ensures var all, rest := StoredPath(path, isDir), path[n..];
            && |path| <= |all| <= |path| + (if isDir then 1 else 0)
            && all[n..] == rest + (if |all| > |path| then [47] else []) && all[..n] == path[..n]
  {
  }

  lemma PrefixField(h: Fields, path: seq<byte>, n: nat)
    requires ValidFields(h) && n <= |path| && n < 155
    ensures ValidFields(StorePrefix(h, path, n)) && path[..n] + [0] <= StorePrefix(h, path, n)[PREFIX]
  {
  }

  lemma NameField(h: Fields, rest: seq<byte>, isDir: bool, total: nat)
    requires ValidFields(h) && |rest| <= total < 100 && total <= |rest| + (if isDir then 1 else 0)
    ensures var r := StoreName(h, rest, isDir, total);
            r[PREFIX] == h[PREFIX] && rest + (if total > |rest| then [47] else []) + [0] <= r[NAME]
  {
  }

  // ----- a header that is read -----

  /** What a field sees of a header that is read, up to the header's end. */
  lemma {:induction false} FromField(s: seq<byte>, i: nat)
    requires |s| >= 500 && i <= 16
    ensures Offset(i) <= 500 && Flatten(SplitHeader(s)[i..]) == s[Offset(i)..500]
    decreases 16 - i
  {
    hide Flatten, SplitHeader, FieldSize, Offset;
    HeaderBytes();
    if i == 16 {
      NoFields(SplitHeader(s));
    } else {
      FieldInside(i);
      FromField(s, i + 1);
      SplitAt(s, i);
      FlattenFrom(SplitHeader(s), i);
      JoinedSlices(s, Offset(i), Offset(i + 1), 500);
    }
  }

  lemma JoinedSlices(s: seq<byte>, a: nat, b: nat, c: nat)
    requires a <= b <= c <= |s|
    ensures s[a..c] == s[a..b] + s[b..c]
  {
  }

  lemma NoFields(h: Fields)
    ensures Flatten(h[|h|..]) == []
  {
  }

  /** Number field i of a header that is read. */
  lemma NumberAt(s: seq<byte>, i: nat)
    requires |s| >= 500 && i < 16
    ensures Offset(i) <= 500 && ParseAt(SplitHeader(s), i) == ParseOctal(s[Offset(i)..500])
  {
    hide Flatten, SplitHeader, Offset, ParseOctal;
    FromField(s, i);
  }

  /** A header is the end of the archive exactly when its name and prefix are empty.
      It is understood exactly when it has the magic text, or a null byte or space
      behind one that is something else; numbers in its mode, ids, time and checksum,
      and in its size unless it is of one of the types 1 to 6, which have no data; and
      device numbers or none. Anything else is an error. */
  lemma UnderstoodIff(s: seq<byte>)
    requires |s| >= 500
    ensures var r := Interpret(SplitHeader(s));
            && (r.TarEof? <==> s[0] == 0 && s[345] == 0)
            && (r.Found? <==>
                  && (s[0] != 0 || s[345] != 0)
                  && (s[257..262] == [117, 115, 116, 97, 114] || s[262] == 0 || s[262] == 32)
                  && (49 <= s[156] <= 54 || ParseOctal(s[124..136] + [0]).Some?)
                  && ParseOctal(s[100..500]).Some? && ParseOctal(s[108..500]).Some? && ParseOctal(s[116..500]).Some?
                  && ParseOctal(s[136..148] + [0]).Some? && ParseOctal(s[148..500]).Some?
                  && (ParseOctal(s[329..500]).Some? || s[329] == 0) && (ParseOctal(s[337..500]).Some? || s[337] == 0))
            && (r.Found? ==>
                  && Some(r.size) == (if 49 <= s[156] <= 54 then Some(0) else ParseOctal(s[124..136] + [0]))
                  && Some(r.mode) == ParseOctal(s[100..500])
                  && Some(r.uid) == ParseOctal(s[108..500]) && Some(r.gid) == ParseOctal(s[116..500])
                  && Some(r.mtime) == ParseOctal(s[136..148] + [0]) && Some(r.chksum) == ParseOctal(s[148..500]))
  {
    hide ParseOctal, ParseAt, SplitHeader, Offset, FieldSize, Flatten;
    Offsets();
    var h := SplitHeader(s);
    NumberAt(s, MODE);
    NumberAt(s, UID);
    NumberAt(s, GID);
    NumberAt(s, CHKSUM);
    NumberAt(s, DEVMAJOR);
    NumberAt(s, DEVMINOR);
    SplitAt(s, NAME);
    SplitAt(s, SIZE);
    SplitAt(s, MTIME);
    SplitAt(s, TYPEFLAG);
    SplitAt(s, MAGIC);
    SplitAt(s, DEVMAJOR);
    SplitAt(s, DEVMINOR);
    SplitAt(s, PREFIX);
    assert h[MAGIC][..5] == s[257..262];
  }
}
