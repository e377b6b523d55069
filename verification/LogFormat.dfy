/** The byte format of a log entry: a 16 byte header, the integer values, the
    data lengths and then the data pieces, every number in network byte order. */
module LogFormat {
  type byte = x: int | 0 <= x < 256

  const MAGIC_NUMBER: nat := 0x5a5b5a5b
  const ENTRY_HEADER_SIZE: nat := 16
  const HEADER_ENTRY := -1
  const PAD_ENTRY := -2
  const TRANSACTION_BEGIN := -10
  const TRANSACTION_COMMIT := -11
  const TRANSACTION_ABORT := -12

  datatype Option<+T> = None | Some(value: T)

  datatype Header = Header(magic: nat, kind: int, numInts: nat, numPtrs: nat, time: nat)

  datatype LogEntry = LogEntry(kind: int, time: nat, ints: seq<nat>, data: seq<seq<byte>>)

  function Zeros(n: nat): (s: seq<byte>)
    ensures |s| == n && forall i :: 0 <= i < n ==> s[i] == 0
  {
    seq(n, _ => 0)
  }

  // ----- numbers -----

  function Pow256(n: nat): nat {
    if n == 0 then 1 else 256 * Pow256(n - 1)
  }

  function BigEndian(n: nat, v: nat): (s: seq<byte>)
    ensures |s| == n
  {
    if n == 0 then [] else BigEndian(n - 1, v / 256) + [v % 256]
  }

  function Number(s: seq<byte>): nat {
    if |s| == 0 then 0 else 256 * Number(s[..|s| - 1]) + s[|s| - 1]
  }

  lemma {:induction false} NumberRoundTrip(n: nat, v: nat)
    requires v < Pow256(n)
    ensures Number(BigEndian(n, v)) == v
  {
    if n > 0 {
      NumberRoundTrip(n - 1, v / 256);
      assert BigEndian(n, v)[..n - 1] == BigEndian(n - 1, v / 256);
    }
  }

  lemma PowersOf256()
    ensures Pow256(1) == 0x100 && Pow256(2) == 0x1_0000
    ensures Pow256(4) == 0x1_0000_0000 && Pow256(8) == 0x1_0000_0000_0000_0000
  {
    assert Pow256(3) == 256 * Pow256(2);
    assert Pow256(5) == 256 * Pow256(4);
    assert Pow256(6) == 256 * Pow256(5);
    assert Pow256(7) == 256 * Pow256(6);
  }

  // ----- the entry header -----

  predicate ValidHeader(h: Header) {
    && h.magic < 0x1_0000_0000
    && -0x8000 <= h.kind < 0x8000
    && h.numInts < 0x100
    && h.numPtrs < 0x100
    && h.time < 0x1_0000_0000_0000_0000
  }

  /** The 16 bit two's complement form of an entry type number. */
  function ShortBits(v: int): nat
    requires -0x8000 <= v < 0x8000
  {
    if v < 0 then v + 0x1_0000 else v
  }

  function EncodeHeader(h: Header): (s: seq<byte>)
    requires ValidHeader(h)
    ensures |s| == ENTRY_HEADER_SIZE
  {
    BigEndian(4, h.magic) + BigEndian(2, ShortBits(h.kind)) + [h.numInts] + [h.numPtrs] + BigEndian(8, h.time)
  }

  function DecodeHeader(s: seq<byte>): Header
    requires |s| == ENTRY_HEADER_SIZE
  {
    var bits := Number(s[4..6]);
    Header(Number(s[..4]), if bits < 0x8000 then bits else bits - 0x1_0000, s[6], s[7], Number(s[8..16]))
  }

  lemma HeaderRoundTrip(h: Header)
    requires ValidHeader(h)
    ensures DecodeHeader(EncodeHeader(h)) == h
  {
    hide BigEndian, Number;
    PowersOf256();
    NumberRoundTrip(4, h.magic);
    NumberRoundTrip(2, ShortBits(h.kind));
    NumberRoundTrip(8, h.time);
    var s := EncodeHeader(h);
    assert s[..4] == BigEndian(4, h.magic);
    assert s[4..6] == BigEndian(2, ShortBits(h.kind));
    assert s[8..16] == BigEndian(8, h.time);
  }

  // ----- the entry body -----

  /** What the format can store: value counts are kept in a signed char,
      values in 32 bits and data lengths in a signed 32 bit integer. */
  predicate ValidEntry(e: LogEntry) {
    && -0x8000 <= e.kind < 0x8000
    && e.kind != PAD_ENTRY
    && e.time < 0x1_0000_0000_0000_0000
    && |e.ints| <= 127
    && |e.data| <= 127
    && (forall i :: 0 <= i < |e.ints| ==> e.ints[i] < 0x1_0000_0000)
    && (forall i :: 0 <= i < |e.data| ==> |e.data[i]| < 0x8000_0000)
  }

  function EncodeInts(xs: seq<nat>): (s: seq<byte>)
    ensures |s| == 4 * |xs|
  {
    if |xs| == 0 then [] else BigEndian(4, xs[0]) + EncodeInts(xs[1..])
  }

  function DecodeInts(rest: seq<byte>, n: nat): (xs: seq<nat>)
    requires 4 * n <= |rest|
    ensures |xs| == n
    decreases n
  {
    if n == 0 then [] else [Number(rest[..4])] + DecodeInts(rest[4..], n - 1)
  }

  lemma {:induction false} IntsRoundTrip(xs: seq<nat>, tail: seq<byte>)
    requires forall i :: 0 <= i < |xs| ==> xs[i] < 0x1_0000_0000
    ensures DecodeInts(EncodeInts(xs) + tail, |xs|) == xs
  {
    if |xs| > 0 {
      PowersOf256();
      NumberRoundTrip(4, xs[0]);
      var s := EncodeInts(xs) + tail;
      assert s[..4] == BigEndian(4, xs[0]);
      assert s[4..] == EncodeInts(xs[1..]) + tail;
      IntsRoundTrip(xs[1..], tail);
    }
  }

  function Lengths(data: seq<seq<byte>>): (lens: seq<nat>)
    ensures |lens| == |data|
    ensures forall i :: 0 <= i < |data| ==> lens[i] == |data[i]|
  {
    if |data| == 0 then [] else [|data[0]|] + Lengths(data[1..])
  }

  function Flatten(data: seq<seq<byte>>): seq<byte> {
    if |data| == 0 then [] else data[0] + Flatten(data[1..])
  }

  /** Cuts data pieces of the given lengths off the front of rest. */
  function CutPieces(rest: seq<byte>, lens: seq<nat>): (r: Option<seq<seq<byte>>>)
    ensures r.Some? ==> |r.value| == |lens| && |Flatten(r.value)| <= |rest|
    decreases |lens|
  {
    if |lens| == 0 then Some([])
    else if lens[0] >= 0x8000_0000 || |rest| < lens[0] then None
    else
      var tail := CutPieces(rest[lens[0]..], lens[1..]);
      if tail.None? then None
      else
        assert ([rest[..lens[0]]] + tail.value)[1..] == tail.value;
        Some([rest[..lens[0]]] + tail.value)
  }

  lemma {:induction false} PiecesRoundTrip(data: seq<seq<byte>>, tail: seq<byte>)
    requires forall i :: 0 <= i < |data| ==> |data[i]| < 0x8000_0000
    ensures CutPieces(Flatten(data) + tail, Lengths(data)) == Some(data)
  {
    if |data| > 0 {
      var rest := Flatten(data) + tail;
      var n := |data[0]|;
      assert rest[..n] == data[0];
      assert rest[n..] == Flatten(data[1..]) + tail;
      PiecesRoundTrip(data[1..], tail);
      assert Lengths(data)[1..] == Lengths(data[1..]);
      assert [data[0]] + data[1..] == data;
    }
  }

  function EntryHeader(e: LogEntry): Header {
    Header(MAGIC_NUMBER, e.kind, |e.ints|, |e.data|, e.time)
  }

  function EncodeBody(e: LogEntry): seq<byte> {
    EncodeInts(e.ints) + EncodeInts(Lengths(e.data)) + Flatten(e.data)
  }

  function EncodeEntry(e: LogEntry): (s: seq<byte>)
    requires ValidEntry(e)
    ensures |s| >= ENTRY_HEADER_SIZE
  {
    EncodeHeader(EntryHeader(e)) + EncodeBody(e)
  }

  /** The values and data pieces that follow a header, or None when the file
      ends too early or a length is not representable. */
  function DecodeBody(rest: seq<byte>, numInts: nat, numPtrs: nat): Option<(seq<nat>, seq<seq<byte>>)> {
    if |rest| < 4 * numInts then None
    else
      var ints := DecodeInts(rest, numInts);
      var rest1 := rest[4 * numInts..];
      if |rest1| < 4 * numPtrs then None
      else
        var pieces := CutPieces(rest1[4 * numPtrs..], DecodeInts(rest1, numPtrs));
        if pieces.None? then None else Some((ints, pieces.value))
  }

  lemma BodyRoundTrip(e: LogEntry, tail: seq<byte>)
    requires ValidEntry(e)
    ensures DecodeBody(EncodeBody(e) + tail, |e.ints|, |e.data|) == Some((e.ints, e.data))
  {
    var lens := Lengths(e.data);
    var pieces := Flatten(e.data) + tail;
    var rest := EncodeBody(e) + tail;
    assert rest == EncodeInts(e.ints) + (EncodeInts(lens) + pieces);
    IntsRoundTrip(e.ints, EncodeInts(lens) + pieces);
    var rest1 := rest[4 * |e.ints|..];
    assert rest1 == EncodeInts(lens) + pieces;
    IntsRoundTrip(lens, pieces);
    assert rest1[4 * |lens|..] == pieces;
    PiecesRoundTrip(e.data, tail);
  }

  /** Number of body bytes an entry occupies. */
  function BodySize(e: LogEntry): nat {
    4 * |e.ints| + 4 * |e.data| + |Flatten(e.data)|
  }

  lemma {:induction false} CutPiecesPrefix(rest: seq<byte>, lens: seq<nat>, tail: seq<byte>)
    requires CutPieces(rest, lens).Some?
    ensures |Flatten(CutPieces(rest, lens).value)| <= |rest|
    ensures CutPieces(rest[..|Flatten(CutPieces(rest, lens).value)|] + tail, lens) == CutPieces(rest, lens)
  {
    var data := CutPieces(rest, lens).value;
    var size := |Flatten(data)|;
    if |lens| > 0 {
      var n := lens[0];
      var data1 := CutPieces(rest[n..], lens[1..]).value;
      assert data[1..] == data1;
      var size1 := |Flatten(data1)|;
      assert size == n + size1;
      CutPiecesPrefix(rest[n..], lens[1..], tail);
      var cut := rest[..size] + tail;
      assert cut[..n] == rest[..n];
      assert cut[n..] == rest[n..][..size1] + tail;
    }
  }

  lemma {:induction false} DecodeIntsPrefix(rest: seq<byte>, other: seq<byte>, n: nat)
    requires 4 * n <= |rest| && 4 * n <= |other|
    requires rest[..4 * n] == other[..4 * n]
    ensures DecodeInts(rest, n) == DecodeInts(other, n)
  {
    if n > 0 {
      assert rest[..4] == rest[..4 * n][..4] == other[..4];
      assert rest[4..][..4 * (n - 1)] == rest[..4 * n][4..];
      assert other[4..][..4 * (n - 1)] == other[..4 * n][4..];
      DecodeIntsPrefix(rest[4..], other[4..], n - 1);
    }
  }

  /** Decoding looks at no byte past the body it returns. */
  lemma DecodeBodyPrefix(rest: seq<byte>, numInts: nat, numPtrs: nat, size: nat, tail: seq<byte>)
    requires DecodeBody(rest, numInts, numPtrs).Some?
    requires size == 4 * numInts + 4 * numPtrs + |Flatten(DecodeBody(rest, numInts, numPtrs).value.1)|
    ensures size <= |rest|
    ensures DecodeBody(rest[..size] + tail, numInts, numPtrs) == DecodeBody(rest, numInts, numPtrs)
  {
    hide DecodeInts, CutPieces, Flatten;
    var a, b := 4 * numInts, 4 * numPtrs;
    var rest1 := rest[a..];
    var lens := DecodeInts(rest1, numPtrs);
    var n := size - a - b;
    CutPiecesPrefix(rest1[b..], lens, tail);
    var cut := rest[..size] + tail;
    assert cut[..a] == rest[..a];
    DecodeIntsPrefix(rest, cut, numInts);
    var cut1 := cut[a..];
    assert cut1 == rest1[..b + n] + tail;
    assert cut1[..b] == rest1[..b];
    DecodeIntsPrefix(rest1, cut1, numPtrs);
    assert cut1[b..] == rest1[b..][..n] + tail;
  }

  // ----- where the numbers stand -----

  /** Four bytes in network byte order. */
  function Word(s: seq<byte>, at: nat): nat
    requires at + 4 <= |s|
  {
    s[at] as int * 0x100_0000 + s[at + 1] as int * 0x1_0000 + s[at + 2] as int * 0x100 + s[at + 3]
  }

  /** The last four bytes of a number count least. */
  lemma LastWord(s: seq<byte>)
    requires |s| >= 4
    ensures Number(s) == 0x1_0000_0000 * Number(s[..|s| - 4]) + Word(s, |s| - 4)
  {
    var n := |s|;
    assert s[..n - 1][..n - 2] == s[..n - 2] && s[..n - 2][..n - 3] == s[..n - 3] && s[..n - 3][..n - 4] == s[..n - 4];
    assert Number(s[..n - 1]) == 256 * Number(s[..n - 2]) + s[n - 2];
    assert Number(s[..n - 2]) == 256 * Number(s[..n - 3]) + s[n - 3];
    assert Number(s[..n - 3]) == 256 * Number(s[..n - 4]) + s[n - 4];
  }

  lemma WordIs(s: seq<byte>, at: nat, v: nat)
    requires at + 4 <= |s| && s[at..at + 4] == BigEndian(4, v) && v < 0x1_0000_0000
    ensures Word(s, at) == v
  {
    hide BigEndian;
    PowersOf256();
    NumberRoundTrip(4, v);
    var w := s[at..at + 4];
    LastWord(w);
    assert w[..0] == [];
  }

  /** The fields of an entry header: the magic number, the type as a 16 bit two's
      complement number, the two counts and the time, most significant byte first. */
  lemma HeaderLayout(h: Header)
    requires ValidHeader(h)
    ensures var s := EncodeHeader(h);
            && Word(s, 0) == h.magic
            && s[4] as int * 0x100 + s[5] == (if h.kind < 0 then 0x1_0000 + h.kind else h.kind)
            && s[6] == h.numInts && s[7] == h.numPtrs
            && 0x1_0000_0000 * Word(s, 8) + Word(s, 12) == h.time
  {
    hide BigEndian;
    PowersOf256();
    var s := EncodeHeader(h);
    assert s[..4] == BigEndian(4, h.magic);
    WordIs(s, 0, h.magic);
    NumberRoundTrip(2, ShortBits(h.kind));
    var kind := s[4..6];
    assert kind == BigEndian(2, ShortBits(h.kind));
    assert Number(kind[..1]) == 256 * Number(kind[..1][..0]) + kind[0];
    NumberRoundTrip(8, h.time);
    var time := s[8..16];
    assert time == BigEndian(8, h.time);
    LastWord(time);
    LastWord(time[..4]);
    assert time[..4][..0] == [];
  }

  /** The same fields in a header that is read. */
  lemma DecodedLayout(s: seq<byte>)
    requires |s| == ENTRY_HEADER_SIZE
    ensures var h, kind := DecodeHeader(s), s[4] as int * 0x100 + s[5];
            && h.magic == Word(s, 0)
            && h.kind == (if kind < 0x8000 then kind else kind - 0x1_0000)
            && h.numInts == s[6] && h.numPtrs == s[7]
            && h.time == 0x1_0000_0000 * Word(s, 8) + Word(s, 12)
  {
    var magic, kind, time := s[..4], s[4..6], s[8..16];
    LastWord(magic);
    LastWord(time);
    LastWord(time[..4]);
    assert magic[..0] == [] && time[..4][..0] == [];
    assert Number(kind) == 256 * Number(kind[..1]) + kind[1];
    assert Number(kind[..1]) == 256 * Number(kind[..1][..0]) + kind[0];
  }

  lemma {:induction false} IntsLayout(xs: seq<nat>, i: nat)
    requires i < |xs|
    ensures EncodeInts(xs)[4 * i..4 * i + 4] == BigEndian(4, xs[i])
  {
    if i > 0 {
      IntsLayout(xs[1..], i - 1);
      assert EncodeInts(xs)[4 * i..4 * i + 4] == EncodeInts(xs[1..])[4 * (i - 1)..4 * (i - 1) + 4];
    }
  }

  lemma SliceInside(s: seq<byte>, at: nat, t: seq<byte>, a: nat, b: nat)
    requires at + |t| <= |s| && s[at..at + |t|] == t && a <= b <= |t|
    ensures s[at + a..at + b] == t[a..b]
  {
    var u := s[at..at + |t|];
    assert |u[a..b]| == |s[at + a..at + b]| == b - a;
    forall k | 0 <= k < b - a
      ensures s[at + a..at + b][k] == u[a..b][k]
    {
      assert u[a + k] == s[at + (a + k)];
    }
  }

  lemma WordsOfInts(s: seq<byte>, at: nat, xs: seq<nat>)
    requires at + 4 * |xs| <= |s| && s[at..at + 4 * |xs|] == EncodeInts(xs)
    requires forall i :: 0 <= i < |xs| ==> xs[i] < 0x1_0000_0000
    ensures forall i :: 0 <= i < |xs| ==> Word(s, at + 4 * i) == xs[i]
  {
    hide EncodeInts, BigEndian, Word;
    forall i | 0 <= i < |xs|
      ensures Word(s, at + 4 * i) == xs[i]
    {
      IntsLayout(xs, i);
      SliceInside(s, at, EncodeInts(xs), 4 * i, 4 * i + 4);
      WordIs(s, at + 4 * i, xs[i]);
    }
  }

  lemma {:induction false} PiecesLayout(data: seq<seq<byte>>, i: nat)
    requires i < |data|
    ensures |Flatten(data[..i])| + |data[i]| <= |Flatten(data)|
    ensures Flatten(data)[|Flatten(data[..i])|..|Flatten(data[..i])| + |data[i]|] == data[i]
  {
    if i > 0 {
      PiecesLayout(data[1..], i - 1);
      assert data[..i][1..] == data[1..][..i - 1];
    }
  }

  /** The bytes of an entry: the header, the integer values, the lengths of the data
      pieces, and the pieces one behind the other. */
  lemma EntryLayout(e: LogEntry)
    requires ValidEntry(e)
    ensures var s, lens := EncodeEntry(e), ENTRY_HEADER_SIZE + 4 * |e.ints|;
            var data := lens + 4 * |e.data|;
            && |s| == data + |Flatten(e.data)|
            && Word(s, 0) == 0x5a5b5a5b
            && s[4] as int * 0x100 + s[5] == (if e.kind < 0 then 0x1_0000 + e.kind else e.kind)
            && s[6] == |e.ints| && s[7] == |e.data|
            && 0x1_0000_0000 * Word(s, 8) + Word(s, 12) == e.time
            && (forall i :: 0 <= i < |e.ints| ==> Word(s, ENTRY_HEADER_SIZE + 4 * i) == e.ints[i])
            && (forall i :: 0 <= i < |e.data| ==> Word(s, lens + 4 * i) == |e.data[i]|)
            && forall i :: 0 <= i < |e.data| ==>
                 var at := data + |Flatten(e.data[..i])|;
                 at + |e.data[i]| <= |s| && s[at..at + |e.data[i]|] == e.data[i]
  {
    hide EncodeEntry, EncodeHeader, EncodeInts, Flatten, Word, ValidEntry, ValidHeader, Lengths;
    EntrySections(e);
    HeaderLayout(EntryHeader(e));
    var s, lens := EncodeEntry(e), ENTRY_HEADER_SIZE + 4 * |e.ints|;
    HeaderInFront(s, EncodeHeader(EntryHeader(e)));
    WordsOfInts(s, ENTRY_HEADER_SIZE, e.ints);
    WordsOfInts(s, lens, Lengths(e.data));
    PiecesBehind(s, lens + 4 * |e.data|, e.data);
  }

  lemma EntrySections(e: LogEntry)
    requires ValidEntry(e)
    ensures ValidHeader(EntryHeader(e))
    ensures var s, h, lens := EncodeEntry(e), EntryHeader(e), ENTRY_HEADER_SIZE + 4 * |e.ints|;
            var data := lens + 4 * |e.data|;
            && |s| == data + |Flatten(e.data)|
            && h == Header(0x5a5b5a5b, e.kind, |e.ints|, |e.data|, e.time)
            && s[..ENTRY_HEADER_SIZE] == EncodeHeader(h)
            && s[ENTRY_HEADER_SIZE..lens] == EncodeInts(e.ints)
            && s[lens..data] == EncodeInts(Lengths(e.data))
            && s[data..] == Flatten(e.data)
            && (forall i :: 0 <= i < |e.ints| ==> e.ints[i] < 0x1_0000_0000)
            && (forall i :: 0 <= i < |e.data| ==> |e.data[i]| < 0x1_0000_0000)
  {
    hide EncodeHeader, EncodeInts, Flatten;
  }

  lemma HeaderInFront(s: seq<byte>, h: seq<byte>)
    requires |s| >= ENTRY_HEADER_SIZE == |h| && s[..ENTRY_HEADER_SIZE] == h
    ensures forall i :: 0 <= i < ENTRY_HEADER_SIZE ==> s[i] == h[i]
    ensures forall i :: 0 <= i < 13 ==> Word(s, i) == Word(h, i)
  {
    assert forall i :: 0 <= i < ENTRY_HEADER_SIZE ==> s[i] == s[..ENTRY_HEADER_SIZE][i];
  }

  lemma PiecesBehind(s: seq<byte>, from: nat, data: seq<seq<byte>>)
    requires from <= |s| && s[from..] == Flatten(data)
    ensures forall i :: 0 <= i < |data| ==>
              var at := from + |Flatten(data[..i])|;
              at + |data[i]| <= |s| && s[at..at + |data[i]|] == data[i]
  {
    hide Flatten;
    forall i | 0 <= i < |data|
      ensures var at := from + |Flatten(data[..i])|;
              at + |data[i]| <= |s| && s[at..at + |data[i]|] == data[i]
    {
      PiecesLayout(data, i);
      var a := |Flatten(data[..i])|;
      assert s[from + a..from + a + |data[i]|] == s[from..][a..a + |data[i]|];
    }
  }
}
