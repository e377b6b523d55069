/** The ustar header of one archive entry: sixteen fixed-width fields, numbers
    as octal digits, and a path that may be split over two of the fields. */
module TarHeader {
  import opened LogFormat

  const SLASH: byte := 47
  const NAME: nat := 0
  const MODE: nat := 1
  const UID: nat := 2
  const GID: nat := 3
  const SIZE: nat := 4
  const MTIME: nat := 5
  const CHKSUM: nat := 6
  const TYPEFLAG: nat := 7
  const MAGIC: nat := 9
  const VERSION: nat := 10
  const DEVMAJOR: nat := 13
  const DEVMINOR: nat := 14
  const PREFIX: nat := 15
  const MAX_7_BYTE: nat := 0x1FFFFF
  const UINT_MAX: nat := 0xFFFF_FFFF
  const REGTYPE: byte := 48
  const DIRTYPE: byte := 53

  /** Widths of name, mode, uid, gid, size, mtime, chksum, typeflag, linkname,
      magic, version, uname, gname, devmajor, devminor and prefix. */
  function FieldSize(i: nat): nat {
    if i == 0 || i == 8 then 100
    else if i == 4 || i == 5 then 12
    else if i == 7 then 1
    else if i == 9 then 6
    else if i == 10 then 2
    else if i == 11 || i == 12 then 32
    else if i == 15 then 155
    else 8
  }

  /** The fields in the order they have in memory. */
  type Fields = seq<seq<byte>>

  predicate ValidFields(h: Fields) {
    |h| == 16 && forall i :: 0 <= i < 16 ==> |h[i]| == FieldSize(i)
  }

  /** jr_TarEntryInit. */
  function NullHeader(): (h: Fields)
    ensures ValidFields(h)
  {
    seq(16, i requires 0 <= i < 16 => Zeros(FieldSize(i)))
  }

  // ----- strings -----

  /** The bytes in front of the first null byte, if there is one. */
  function CString(s: seq<byte>): (r: Option<seq<byte>>) {
    if s == [] then None
    else if s[0] == 0 then Some([])
    else
      var rest := CString(s[1..]);
      if rest.None? then None else Some([s[0]] + rest.value)
  }

  lemma {:induction false} CStringIs(s: seq<byte>, n: nat)
    requires n < |s| && s[n] == 0 && forall i :: 0 <= i < n ==> s[i] != 0
    ensures CString(s) == Some(s[..n])
  {
    if n > 0 {
      CStringIs(s[1..], n - 1);
      assert [s[0]] + s[1..][..n - 1] == s[..n];
    }
  }

  /** A string that starts with n bytes that are not null is longer than that. */
  lemma {:induction false} CStringLonger(s: seq<byte>, n: nat)
    requires n < |s| && forall i :: 0 <= i <= n ==> s[i] != 0
    ensures CString(s).Some? ==> |CString(s).value| > n
  {
    if n > 0 {
      CStringLonger(s[1..], n - 1);
    }
  }

  lemma {:induction false} NoCString(s: seq<byte>)
    requires forall i :: 0 <= i < |s| ==> s[i] != 0
    ensures CString(s).None?
  {
    if s != [] {
      NoCString(s[1..]);
    }
  }

  /** What a string function sees from a field on: it does not stop at the end of
      the field. None when it would leave the header. */
  function StringAt(h: Fields, i: nat): Option<seq<byte>>
    requires i <= |h|
  {
    CString(Flatten(h[i..]))
  }

  lemma FlattenFrom(h: Fields, i: nat)
    requires i < |h|
    ensures Flatten(h[i..]) == h[i] + Flatten(h[i + 1..])
  {
    assert h[i..] == [h[i]] + h[i + 1..];
    assert h[i..][0] == h[i] && h[i..][1..] == h[i + 1..];
  }

  // ----- octal numbers -----

  function Pow8(d: nat): nat {
    if d == 0 then 1 else 8 * Pow8(d - 1)
  }

  function Octal(n: nat, d: nat): (s: seq<byte>)
    ensures |s| == d
    ensures forall i :: 0 <= i < d ==> IsOctal(s[i])
  {
    if d == 0 then [] else Octal(n / 8, d - 1) + [48 + n % 8]
  }

  predicate IsOctal(b: byte) {
    48 <= b < 56
  }

  /** The value of the octal digits at the front of s, and how many they are. */
  function Digits(s: seq<byte>, value: nat, count: nat): (nat, nat) {
    if s == [] || !IsOctal(s[0]) then (value, count) else Digits(s[1..], 8 * value + (s[0] - 48), count + 1)
  }

  function IsSpace(b: byte): bool {
    b == 32 || 9 <= b <= 13
  }

  function SkipSpaces(s: seq<byte>): seq<byte> {
    if s != [] && IsSpace(s[0]) then SkipSpaces(s[1..]) else s
  }

  /** sscanf with " %lo", for a number without a sign. */
  function ParseOctal(s: seq<byte>): Option<nat> {
    var (value, count) := Digits(SkipSpaces(s), 0, 0);
    if count == 0 then None else Some(value)
  }

  lemma {:induction false} DigitsOfOctal(n: nat, d: nat, tail: seq<byte>, value: nat, count: nat)
    requires n < Pow8(d)
    ensures Digits(Octal(n, d) + tail, value, count) == Digits(tail, value * Pow8(d) + n, count + d)
    decreases d
  {
    if d == 0 {
      assert [] + tail == tail;
    } else {
      var last := [48 + n % 8] + tail;
      assert Octal(n, d) + tail == Octal(n / 8, d - 1) + last;
      DigitsOfOctal(n / 8, d - 1, last, value, count);
      assert last[1..] == tail;
      var v := value * Pow8(d - 1) + n / 8;
      OctalShift(value, Pow8(d - 1), n);
    }
  }

  lemma OctalShift(value: nat, p: nat, n: nat)
    ensures 8 * (value * p + n / 8) + n % 8 == value * (8 * p) + n
  {
    assert 8 * (value * p) == value * (8 * p);
  }

  /** Octal digits followed by a null byte read back as the number. */
  lemma OctalRoundTrip(n: nat, d: nat, tail: seq<byte>)
    requires 0 < d && n < Pow8(d) && tail != [] && tail[0] == 0
    ensures ParseOctal(Octal(n, d) + tail) == Some(n)
  {
    var s := Octal(n, d) + tail;
    assert IsOctal(s[0]) by {
      assert s[0] == Octal(n, d)[0];
    }
    assert SkipSpaces(s) == s;
    hide Octal, Pow8;
    DigitsOfOctal(n, d, tail, 0, 0);
    assert Digits(tail, n, d) == (n, d);
  }

  lemma OctalLimits()
    ensures Pow8(7) == 0x20_0000 && Pow8(11) == 0x2_0000_0000
  {
    assert Pow8(4) == 4096;
  }

  // ----- setting fields -----

  /** A 7 digit field is set only for values that are small enough. */
  function SetSmall(h: Fields, i: nat, v: int): (r: Fields)
    requires ValidFields(h) && i < 16 && FieldSize(i) == 8
    ensures ValidFields(r)
  {
    if 0 <= v < MAX_7_BYTE then h[i := Octal(v, 7) + [0]] else h
  }

  function SetLarge(h: Fields, i: nat, v: int): (r: Fields)
    requires ValidFields(h) && i < 16 && FieldSize(i) == 12
    ensures ValidFields(r)
  {
    if 0 <= v < UINT_MAX then h[i := Octal(v, 11) + [0]] else h
  }

  function NotNegative(v: int, otherwise: nat): nat {
    if v < 0 then otherwise else v
  }

  function TypeField(isDir: bool): (s: seq<byte>)
    ensures |s| == 1
  {
    [if isDir then DIRTYPE else REGTYPE]
  }

  // ----- the path -----

  /** Does the path of a directory get a slash it does not have? */
  function AddsSlash(path: seq<byte>, isDir: bool): bool {
    isDir && |path| > 0 && path[|path| - 1] != SLASH
  }

  /** The path as it should come back. */
  function StoredPath(path: seq<byte>, isDir: bool): (r: seq<byte>)
    ensures |path| <= |r| <= |path| + 1
  {
    if AddsSlash(path, isDir) then path + [SLASH] else path
  }

  /** The last slash in front of index i that ends a prefix which fits. */
  function LastSlash(path: seq<byte>, i: nat): (r: int)
    requires i <= |path|
    ensures -1 <= r < i && (r >= 0 ==> r < 155 && path[r] == SLASH)
  {
    if i == 0 then -1
    else if path[i - 1] == SLASH && i <= 155 then i - 1
    else LastSlash(path, i - 1)
  }

  function Patched(s: seq<byte>, k: nat, b: byte): (r: seq<byte>)
    requires k < |s|
    ensures |r| == |s| && r[k] == b && forall i :: 0 <= i < |s| && i != k ==> r[i] == s[i]
  {
    s[k := b]
  }

  /** strncpy to the name field, then the slash of a directory and the null byte
      where it fits. A directory's slash behind a full name lands in the next
      field. */
  function StoreName(h: Fields, rest: seq<byte>, isDir: bool, total: nat): (r: Fields)
    requires ValidFields(h) && |rest| <= total <= 100
    ensures ValidFields(r)
  {
    var name := rest + Zeros(100 - |rest|);
    var h1 := if isDir && |rest| == 100 then h[MODE := Patched(h[MODE], 0, SLASH)] else h;
    var name1 := if isDir && |rest| < 100 then Patched(name, |rest|, SLASH) else name;
    h1[NAME := if total < 100 then Patched(name1, total, 0) else name1]
  }

  function StorePrefix(h: Fields, path: seq<byte>, n: nat): (r: Fields)
    requires ValidFields(h) && n <= |path| && n <= 155
    ensures ValidFields(r)
  {
    h[PREFIX := path[..n] + (if n < 155 then [0] + h[PREFIX][n + 1..] else [])]
  }

  /** The path part of jr_TarEntrySetPathInfo. */
  function SetPath(h: Fields, path: seq<byte>, isDir: bool): (r: Fields)
    requires ValidFields(h) && |StoredPath(path, isDir)| <= 255
    ensures ValidFields(r)
  {
    var total := |StoredPath(path, isDir)|;
    if total > 100 then
      var i := LastSlash(path, |path|);
      if i > 0 && total - (i + 1) <= 100 then
        StoreName(StorePrefix(h, path, i + 1), path[i + 1..], isDir, total - (i + 1))
      else h[NAME := Patched(h[NAME], 0, 0)]
    else StoreName(h[PREFIX := Zeros(155)], path, isDir, total)
  }

  /** jr_TarEntrySetPathInfo. */
  function SetPathInfo(h: Fields, path: seq<byte>, isDir: bool, mode: int, mtime: int): (r: Fields)
    requires ValidFields(h)
    ensures ValidFields(r)
  {
    if |StoredPath(path, isDir)| > 255 then h
    else
      var h1 := h[TYPEFLAG := TypeField(isDir)];
      SetPath(SetLarge(SetSmall(h1, MODE, NotNegative(mode, 0)), MTIME, NotNegative(mtime, 0)), path, isDir)
  }

  /** jr_TarEntryMakeFullPath; None when it would read past the header. */
  function FullPath(h: Fields): Option<seq<byte>>
    requires ValidFields(h)
  {
    var prefix, name := StringAt(h, PREFIX), StringAt(h, NAME);
    if prefix.None? || name.None? then None
    else if prefix.value == [] then Some(name.value)
    else if prefix.value[|prefix.value| - 1] == SLASH then Some(prefix.value + name.value)
    else Some(prefix.value + [SLASH] + name.value)
  }

  /** A path that is too long for the name is split when the last slash that ends
      a prefix which fits leaves a name which fits. */
  predicate Splits(path: seq<byte>, isDir: bool) {
    var i := LastSlash(path, |path|);
    i > 0 && |StoredPath(path, isDir)| - (i + 1) <= 100
  }

  /** Paths that come back whatever the header held before: shorter than the name
      field, or with the last slash that fits leaving less than both fields. */
  predicate Fits(path: seq<byte>, isDir: bool) {
    var total := |StoredPath(path, isDir)|;
    var i := LastSlash(path, |path|);
    total < 100 || (100 < total <= 255 && 0 < i < 154 && total - (i + 1) < 100)
  }

  /** A name that fills its field ends there only when the mode behind it begins
      with a null byte, and no slash is put in front of that. */
  predicate FullNameEnds(h: Fields, path: seq<byte>, isDir: bool, n: nat)
    requires ValidFields(h)
  {
    |StoredPath(path, isDir)| - n == 100 && h[MODE][0] == 0 && !(isDir && |path| - n == 100)
  }

  /** A path that cannot be split clears the name only: the prefix that was there
      before is what is read. */
  predicate OldPrefixIs(h: Fields, text: seq<byte>)
    requires ValidFields(h)
  {
    var before := StringAt(h, PREFIX);
    before.Some? && before.value != []
    && text == if before.value[|before.value| - 1] == SLASH then before.value else before.value + [SLASH]
  }

  /** Paths that come back from a header with these contents before. */
  predicate ComesBack(h: Fields, path: seq<byte>, isDir: bool)
    requires ValidFields(h)
  {
    var total := |StoredPath(path, isDir)|;
    if total <= 100 then Fits(path, isDir) || FullNameEnds(h, path, isDir, 0)
    else if Splits(path, isDir) then
      var n := LastSlash(path, |path|) + 1;
      Fits(path, isDir) || (n < 155 && FullNameEnds(h, path, isDir, n))
    else OldPrefixIs(h, StoredPath(path, isDir))
  }

  predicate NoNull(s: seq<byte>) {
    forall i :: 0 <= i < |s| ==> s[i] != 0
  }

  /** A header field with digits does not begin with a null byte. */
  predicate ModeSet(h: Fields)
    requires ValidFields(h)
  {
    h[MODE][0] != 0
  }

  // ----- what comes back -----

  /** The name field read back, when its null byte fits. */
  lemma NameReads(h: Fields, rest: seq<byte>, isDir: bool, total: nat, text: seq<byte>)
    requires ValidFields(h) && NoNull(text) && |text| == total < 100
    requires text == rest || (isDir && text == rest + [SLASH])
    ensures StringAt(StoreName(h, rest, isDir, total), NAME) == Some(text)
    ensures StoreName(h, rest, isDir, total)[PREFIX] == h[PREFIX]
  {
    var r := StoreName(h, rest, isDir, total);
    FlattenFrom(r, NAME);
    assert forall i :: 0 <= i < total ==> r[NAME][i] == text[i];
    var s := Flatten(r[NAME..]);
    assert forall i :: 0 <= i <= total ==> s[i] == r[NAME][i];
    assert s[..total] == text;
    CStringIs(s, total);
  }

  /** A full name field is read on into the mode, unless that begins with a null
      byte. */
  lemma FullNameOverruns(h: Fields, rest: seq<byte>, isDir: bool, text: seq<byte>)
    requires ValidFields(h) && NoNull(text) && |text| == 100
    requires text == rest || (isDir && text == rest + [SLASH])
    ensures var s, ends := StringAt(StoreName(h, rest, isDir, 100), NAME), h[MODE][0] == 0 && !(isDir && |rest| == 100);
            && (ends ==> s == Some(text))
            && (!ends ==> s.None? || |s.value| > 100)
  {
    var r := StoreName(h, rest, isDir, 100);
    FlattenFrom(r, NAME);
    FlattenFrom(r, MODE);
    assert r[NAME] == text;
    var s := Flatten(r[NAME..]);
    assert forall i :: 0 <= i < 100 ==> s[i] == text[i];
    assert s[100] == Flatten(r[MODE..])[0] == r[MODE][0];
    if r[MODE][0] == 0 {
      CStringIs(s, 100);
      assert s[..100] == text;
    } else {
      CStringLonger(s, 100);
    }
  }

  lemma PrefixReads(h: Fields, path: seq<byte>, n: nat)
    requires ValidFields(h) && n <= |path| && NoNull(path)
    ensures n < 155 ==> StringAt(StorePrefix(h, path, n), PREFIX) == Some(path[..n])
    ensures n == 155 ==> StringAt(StorePrefix(h, path, n), PREFIX).None?
  {
    if n <= 155 {
      var r := StorePrefix(h, path, n);
      FlattenFrom(r, PREFIX);
      assert r[PREFIX + 1..] == [];
      assert Flatten(r[PREFIX..]) == r[PREFIX];
      if n < 155 {
        assert r[PREFIX][..n] == path[..n];
        CStringIs(r[PREFIX], n);
      } else {
        NoCString(r[PREFIX]);
      }
    }
  }

  /** String functions on the prefix see only the prefix. */
  lemma PrefixAlone(h: Fields, h2: Fields)
    requires ValidFields(h) && ValidFields(h2) && h2[PREFIX] == h[PREFIX]
    ensures StringAt(h2, PREFIX) == StringAt(h, PREFIX)
  {
    assert h[PREFIX..] == [h[PREFIX]] && h2[PREFIX..] == [h2[PREFIX]];
  }

  lemma {:induction false} LastSlashIsSlash(path: seq<byte>, i: nat)
    requires i <= |path|
    ensures var r := LastSlash(path, i);
            && (r >= 0 ==> path[r] == SLASH && r < 155)
            && (forall j :: r < j < i && j < 155 ==> path[j] != SLASH)
  {
    if i > 0 && !(path[i - 1] == SLASH && i <= 155) {
      LastSlashIsSlash(path, i - 1);
    }
  }

  /** Which paths fit, without the search: a slash may stand at index 154 only of
      a path that needs no splitting, however else the path could be split. */
  lemma FitsIff(path: seq<byte>, isDir: bool)
    ensures var total := |StoredPath(path, isDir)|;
            Fits(path, isDir) <==>
            total < 100
            || (100 < total <= 255 && (|path| > 154 ==> path[154] != SLASH)
                && exists i :: 0 < i < |path| && i < 154 && path[i] == SLASH && total - (i + 1) < 100)
  {
    LastSlashIsSlash(path, |path|);
  }

  /** Exactly which paths come back from the two fields, whatever the header held
      before. */
  lemma PathRoundTripIff(h: Fields, path: seq<byte>, isDir: bool)
    requires ValidFields(h) && NoNull(path) && |StoredPath(path, isDir)| <= 255
    ensures FullPath(SetPath(h, path, isDir)) == Some(StoredPath(path, isDir)) <==> ComesBack(h, path, isDir)
  {
    hide FullPath, StringAt, StoreName, StorePrefix, NoNull, StoredPath, LastSlash;
    var total := |StoredPath(path, isDir)|;
    if total > 100 {
      var i := LastSlash(path, |path|);
      if Splits(path, isDir) {
        SplitPathReads(h, path, isDir, i + 1);
      } else {
        ClearedNameReads(h, SetPath(h, path, isDir), StoredPath(path, isDir));
      }
    } else {
      ShortPathReads(h, path, isDir);
    }
  }

  /** In an entry that has just been initialised, and given its mode, the paths
      that come back are those that fit. */
  lemma FreshEntryIff(h: Fields, path: seq<byte>, isDir: bool)
    requires ValidFields(h) && ModeSet(h) && h[PREFIX] == Zeros(155) && |StoredPath(path, isDir)| <= 255
    ensures ComesBack(h, path, isDir) <==> Fits(path, isDir)
  {
    FlattenFrom(h, PREFIX);
    CStringIs(Flatten(h[PREFIX..]), 0);
    assert StringAt(h, PREFIX) == Some([]);
  }

  /** The name is empty, the prefix as it was. */
  lemma ClearedNameReads(h: Fields, r: Fields, text: seq<byte>)
    requires ValidFields(h) && ValidFields(r) && r[NAME][0] == 0 && r[PREFIX] == h[PREFIX] && text != []
    ensures FullPath(r) == Some(text) <==> OldPrefixIs(h, text)
  {
    FlattenFrom(r, NAME);
    CStringIs(Flatten(r[NAME..]), 0);
    PrefixAlone(h, r);
    assert StringAt(r, NAME) == Some([]);
    hide StringAt;
    var prefix := StringAt(h, PREFIX);
    if prefix.Some? {
      assert prefix.value + [] == prefix.value && prefix.value + [SLASH] + [] == prefix.value + [SLASH];
    }
  }

  lemma ShortPathReads(h: Fields, path: seq<byte>, isDir: bool)
    requires ValidFields(h) && NoNull(path) && |StoredPath(path, isDir)| <= 100
    ensures FullPath(SetPath(h, path, isDir)) == Some(StoredPath(path, isDir))
            <==> |StoredPath(path, isDir)| < 100 || FullNameEnds(h, path, isDir, 0)
  {
    var text := StoredPath(path, isDir);
    var h1 := h[PREFIX := Zeros(155)];
    var r := SetPath(h, path, isDir);
    assert r == StoreName(h1, path, isDir, |text|);
    FlattenFrom(r, PREFIX);
    CStringIs(Flatten(r[PREFIX..]), 0);
    assert StringAt(r, PREFIX) == Some([]);
    if |text| < 100 {
      NameReads(h1, path, isDir, |text|, text);
    } else {
      FullNameOverruns(h1, path, isDir, text);
    }
  }

  lemma SplitPathReads(h: Fields, path: seq<byte>, isDir: bool, n: nat)
    requires ValidFields(h) && NoNull(path)
    requires 0 < n <= 155 && n <= |path| && path[n - 1] == SLASH
    requires |StoredPath(path, isDir)| - n <= 100 && n <= |StoredPath(path, isDir)|
    ensures var r := StoreName(StorePrefix(h, path, n), path[n..], isDir, |StoredPath(path, isDir)| - n);
            FullPath(r) == Some(StoredPath(path, isDir))
            <==> n < 155 && (|StoredPath(path, isDir)| - n < 100 || FullNameEnds(h, path, isDir, n))
  {
    var text := StoredPath(path, isDir);
    var h1 := StorePrefix(h, path, n);
    assert h1[MODE] == h[MODE];
    PrefixReads(h, path, n);
    StoredParts(path, isDir, n);
    hide StringAt, StorePrefix, StoreName, StoredPath;
    var total := |text| - n;
    var r := StoreName(h1, path[n..], isDir, total);
    if total < 100 {
      NameReads(h1, path[n..], isDir, total, text[n..]);
    } else {
      FullNameOverruns(h1, path[n..], isDir, text[n..]);
      NamePrefix(h1, path[n..], isDir, total);
    }
    PrefixAlone(h1, r);
    if n < 155 {
      Joined(r, path[..n]);
    }
  }

  /** A path with slashes at 150 and 154 has a split that leaves room in both
      fields, but the one that is chosen fills the prefix. */
  lemma SplitAtFullPrefixIsLost()
    ensures var path := seq(200, i => if i == 150 || i == 154 then SLASH else 97);
            !Fits(path, false) && 150 + 1 < 155 && |path| - (150 + 1) < 100 && path[150] == SLASH
  {
    var path := seq(200, i => if i == 150 || i == 154 then SLASH else 97);
    FitsIff(path, false);
  }

  lemma NamePrefix(h: Fields, rest: seq<byte>, isDir: bool, total: nat)
    requires ValidFields(h) && |rest| <= total <= 100
    ensures StoreName(h, rest, isDir, total)[PREFIX] == h[PREFIX]
  {
  }

  lemma StoredParts(path: seq<byte>, isDir: bool, n: nat)
    requires n <= |path| && NoNull(path)
    ensures var text := StoredPath(path, isDir);
            && |path| <= |text| && text == path[..n] + text[n..] && NoNull(text[n..])
            && (text[n..] == path[n..] || (isDir && text[n..] == path[n..] + [SLASH]))
  {
  }

  /** A prefix that ends in a slash is followed by the name at once. */
  lemma Joined(r: Fields, prefix: seq<byte>)
    requires ValidFields(r) && prefix != [] && prefix[|prefix| - 1] == SLASH
    requires StringAt(r, PREFIX) == Some(prefix)
    ensures FullPath(r) == if StringAt(r, NAME).None? then None else Some(prefix + StringAt(r, NAME).value)
  {
  }
}
