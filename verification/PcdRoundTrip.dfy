/** What reading a written point cloud gives back, for whole files. */
module PcdRoundTrip {
  import opened Prelude
  import opened Lzf
  import opened Pcd

  datatype Cloud = Cloud(lines: seq<Text>, fields: Fields, points: Points)

  predicate IsLayoutSize(m: nat) {
    m == 3 || m == 4
  }

  /** read_header followed by read_points, as the command line runs them. */
  function ReadPcd(f: seq<Byte>): Result<Cloud, PcdError> {
    match HeaderOf(f)
    case Err(e) => Err(e)
    case Ok(h) =>
      match ReadPoints(h.rest, h.fields)
      case Err(e) => Err(e)
      case Ok(points) => Ok(Cloud(h.lines, h.fields, points))
  }

  /** write_pcd in the uncompressed binary format. */
  function WritePcd(lines: seq<Text>, rows: Matrix): seq<Byte> {
    Join(lines) + ToRows(rows)
  }

  // ---- row-major payloads ----

  lemma {:induction false} RowBytesAt(row: seq<Word>, tail: seq<Byte>, j: nat)
    requires j < |row|
    ensures WordAt(RowBytes(row) + tail, j) == row[j]
    decreases j
  {
    var head: seq<Byte>, rest: seq<Byte> := row[0], RowBytes(row[1..]) + tail;
    assert RowBytes(row) + tail == head + rest;
    if j > 0 {
      RowBytesAt(row[1..], tail, j - 1);
      assert (head + rest)[4 * j..4 * j + 4] == rest[4 * (j - 1)..4 * (j - 1) + 4];
    }
  }

  lemma {:induction false} ToRowsSize(a: Matrix, m: nat)
    requires Rectangular(a, m)
    ensures |ToRows(a)| == 4 * (|a| * m)
    decreases |a|
  {
    if a != [] {
      ToRowsSize(a[1..], m);
      assert |a| * m == m + (|a| - 1) * m;
    }
  }

  lemma {:induction false} ToRowsAt(a: Matrix, m: nat, i: nat, j: nat)
    requires Rectangular(a, m) && i < |a| && j < m
    ensures 4 * (i * m + j) + 4 <= |ToRows(a)| && i * m + j >= 0 && WordAt(ToRows(a), i * m + j) == a[i][j]
    decreases i
  {
    ToRowsSize(a, m);
    Inside(i, j, |a|, m);
    var head, rest := RowBytes(a[0]), ToRows(a[1..]);
    if i == 0 {
      RowBytesAt(a[0], rest, j);
    } else {
      ToRowsAt(a[1..], m, i - 1, j);
      var k := (i - 1) * m + j;
      assert i * m + j == m + k;
      assert (head + rest)[4 * (m + k)..4 * (m + k) + 4] == rest[4 * k..4 * k + 4];
    }
  }

  /** A written matrix reads back unchanged. */
  lemma RowsRoundTrip(a: Matrix, m: nat)
    requires Rectangular(a, m)
    ensures |ToRows(a)| == 4 * (|a| * m) && FromRows(ToRows(a), |a|, m) == a
  {
    ToRowsSize(a, m);
    var raw := ToRows(a);
    forall i | 0 <= i < |a| ensures Row(raw, i, |a|, m) == a[i] {
      forall j | 0 <= j < m ensures Row(raw, i, |a|, m)[j] == a[i][j] {
        ToRowsAt(a, m, i, j);
      }
    }
  }

  lemma FromRowsShape(raw: seq<Byte>, n: nat, m: nat)
    requires |raw| == 4 * (n * m)
    ensures |FromRows(raw, n, m)| == n && Rectangular(FromRows(raw, n, m), m)
  {
  }

  /** A read payload writes back byte for byte. */
  lemma BytesRoundTrip(raw: seq<Byte>, n: nat, m: nat)
    requires |raw| == 4 * (n * m) && m > 0
    ensures ToRows(FromRows(raw, n, m)) == raw
  {
    var a := FromRows(raw, n, m);
    FromRowsShape(raw, n, m);
    ToRowsSize(a, m);
    var out := ToRows(a);
    forall p | 0 <= p < |raw| ensures out[p] == raw[p] {
      var k, b := p / 4, p % 4;
      SplitIndex(k, n, m);
      var i, j := k / m, k % m;
      ToRowsAt(a, m, i, j);
      assert WordAt(out, k) == a[i][j] == Row(raw, i, n, m)[j] == WordAt(raw, k);
      assert WordAt(out, k)[b] == out[p] && WordAt(raw, k)[b] == raw[p];
    }
  }

  lemma SplitIndex(k: nat, n: nat, m: nat)
    requires m > 0 && k < n * m
    ensures k / m < n && k % m < m && k == k / m * m + k % m
  {
    var q := k / m;
    assert q < n || (q - n) * m >= 0;
  }

  // ---- one field at a time ----

  lemma TransposeTwice(a: Matrix, n: nat, m: nat)
    requires |a| == n && Rectangular(a, m)
    ensures Transposed(Transposed(a, m, n), n, m) == a
  {
    var t := Transposed(Transposed(a, m, n), n, m);
    forall i | 0 <= i < n ensures t[i] == a[i] {
      assert forall j :: 0 <= j < m ==> t[i][j] == a[i][j];
    }
  }

  function LittleEndianBytes(x: nat, count: nat): (b: seq<Byte>)
    ensures |b| == count
  {
    if count == 0 then [] else
      var low: Byte := x % 256;
      [low] + LittleEndianBytes(x / 256, count - 1)
  }

  function Capacity(count: nat): nat {
    if count == 0 then 1 else 256 * Capacity(count - 1)
  }

  lemma {:induction false} LittleEndianRoundTrip(x: nat, count: nat)
    requires x < Capacity(count)
    ensures LittleEndian(LittleEndianBytes(x, count)) == x
  {
    if count > 0 {
      LittleEndianRoundTrip(x / 256, count - 1);
      var b := LittleEndianBytes(x, count);
      assert b[1..] == LittleEndianBytes(x / 256, count - 1) && b[0] == x % 256;
    }
  }

  /** Field-major bytes of a matrix: every point's field 0, then field 1, ... */
  function FieldMajor(a: Matrix, m: nat): seq<Byte>
    requires Rectangular(a, m)
  {
    ToRows(Transposed(a, m, |a|))
  }

  /** A compressed payload, framed by its two lengths; any LZF encoding whose
      meaning is the field-major bytes will do. */
  function CompressedPayload(a: Matrix, m: nat, packed: seq<Byte>): seq<Byte>
    requires Rectangular(a, m)
  {
    LittleEndianBytes(|packed|, 4) + LittleEndianBytes(|FieldMajor(a, m)|, 4) + packed
  }

  /** Field-major storage is transposed the right way round: what was stored per
      field comes back per point. */
  lemma CompressedPayloadReads(a: Matrix, m: nat, packed: seq<Byte>, trailing: seq<Byte>)
    requires IsLayoutSize(m) && Rectangular(a, m) && Decode(packed, []) == Ok(FieldMajor(a, m))
    requires |packed| < Capacity(4) && |FieldMajor(a, m)| < Capacity(4)
    ensures ReadPoints(CompressedPayload(a, m, packed) + trailing, Fields(CompressedData, |a|, m)) == Ok(Floats(a))
  {
    FrameRoundTrip(|FieldMajor(a, m)|, packed, trailing);
    ColumnsRoundTrip(a, m);
  }

  lemma ColumnsRoundTrip(a: Matrix, m: nat)
    requires Rectangular(a, m)
    ensures |FieldMajor(a, m)| == 4 * (|a| * m) && FromColumns(FieldMajor(a, m), |a|, m) == a
  {
    var n := |a|;
    RowsRoundTrip(Transposed(a, m, n), n);
    assert m * n == n * m;
    TransposeTwice(a, n, m);
  }

  lemma FrameRoundTrip(rawLen: nat, packed: seq<Byte>, trailing: seq<Byte>)
    requires |packed| < Capacity(4) && rawLen < Capacity(4)
    ensures Unframe(LittleEndianBytes(|packed|, 4) + LittleEndianBytes(rawLen, 4) + packed + trailing)
         == Frame(packed, rawLen)
  {
    var one, two := LittleEndianBytes(|packed|, 4), LittleEndianBytes(rawLen, 4);
    var rest := one + two + packed + trailing;
    LittleEndianRoundTrip(|packed|, 4);
    LittleEndianRoundTrip(rawLen, 4);
    assert Short(rest, 4) == one && Short(rest[4..], 4) == two && rest[8..] == packed + trailing;
  }

  lemma LiteralPackingReads(a: Matrix, m: nat)
    requires Rectangular(a, m)
    ensures (forall t :: t in Literals(FieldMajor(a, m)) ==> Writable(t, 8192))
    ensures Decode(Encode(Literals(FieldMajor(a, m))), []) == Ok(FieldMajor(a, m))
  {
    LiteralRoundTrip(FieldMajor(a, m));
  }

  // ---- whole files ----

  /** Reading a written binary file returns the header and the matrix. */
  lemma BinaryFileRoundTrip(lines: seq<Text>, a: Matrix, m: nat)
    requires HeaderShape(lines) && Terminated(lines[|lines| - 1]) && IsLayoutSize(m) && Rectangular(a, m)
    requires HeaderFields(lines) == Ok(Fields(BinaryData, |a|, m))
    ensures ReadPcd(WritePcd(lines, a)) == Ok(Cloud(lines, Fields(BinaryData, |a|, m), Floats(a)))
  {
    SplitInvertsJoin(lines, ToRows(a));
    RowsRoundTrip(a, m);
    assert Short(ToRows(a), 4 * (|a| * m)) == ToRows(a);
  }

  function DataLine(word: Text): Text {
    DATA + [SPACE] + word + [NEWLINE]
  }

  function WithDataFormat(lines: seq<Text>, word: Text): (r: seq<Text>)
    ensures |r| == |lines|
    ensures forall i :: 0 <= i < |lines| ==> r[i] == if StartsWith(lines[i], DATA) then DataLine(word) else lines[i]
  {
    seq(|lines|, i requires 0 <= i < |lines| => if StartsWith(lines[i], DATA) then DataLine(word) else lines[i])
  }

  lemma SkipWordIs(s: Text, i: nat, j: nat)
    requires i <= j <= |s| && (forall k :: i <= k < j ==> !IsSpace(s[k])) && (j < |s| ==> IsSpace(s[j]))
    ensures SkipWord(s, i) == j
    decreases j - i
  {
    if i < j { SkipWordIs(s, i + 1, j); }
  }

  predicate OneWord(word: Text) {
    word != [] && forall k :: 0 <= k < |word| ==> !IsSpace(word[k])
  }

  lemma StripWord(word: Text)
    requires OneWord(word)
    ensures Strip(word) == word
  {
    assert TrimEnd(word) == word;
  }

  lemma DataLineWord(word: Text)
    requires OneWord(word)
    ensures SecondWord(DataLine(word)) == Some(word)
  {
    var s := DataLine(word);
    assert s[4] == SPACE && s[5 + |word|] == NEWLINE && |s| == 6 + |word|;
    assert forall k :: 0 <= k < 4 ==> s[k] == DATA[k];
    assert forall k :: 0 <= k < |word| ==> s[5 + k] == word[k];
    assert forall k :: 5 <= k < 5 + |word| ==> s[k] == word[k - 5];
    SkipWordIs(s, 0, 4);
    SkipWordIs(s, 5, 5 + |word|);
    assert s[5..5 + |word|] == word;
  }

  predicate PlainText(t: Text) {
    forall i :: 0 <= i < |t| ==> t[i] < 128 && t[i] != NEWLINE
  }

  /** A terminated ASCII line that begins with the given byte. */
  predicate Line(t: Text, first: Byte) {
    Terminated(t) && IsAscii(t) && t[0] == first
  }

  lemma PlainLine(t: Text)
    requires PlainText(t) && t != []
    ensures Line(t + [NEWLINE], t[0])
  {
    var e := t + [NEWLINE];
    assert forall i :: 0 <= i < |e| - 1 ==> e[i] == t[i];
  }

  lemma PlainBinary()
    ensures PlainText(Ascii("binary"))
  {
  }

  lemma BinaryDataLine()
    ensures Line(DataLine(Ascii("binary")), 68) && StartsWith(DataLine(Ascii("binary")), DATA)
  {
    PlainBinary();
    var line := DataLine(Ascii("binary"));
    PlainLine(DATA + [SPACE] + Ascii("binary"));
    assert line[..4] == DATA;
  }

  lemma BinaryDataFormat()
    ensures DataFormat(DataLine(Ascii("binary"))) == Ok(BinaryData)
  {
    var word := Ascii("binary");
    assert OneWord(word);
    DataLineWord(word);
    StripWord(word);
    assert |Ascii("ascii")| == 5 && |word| == 6;
  }

  /** Lookups of other keys never look at the DATA line. */
  lemma {:induction false} LookupIgnoresDataLine(lines: seq<Text>, key: Text, last: Text)
    requires lines != [] && key != [] && key[0] != DATA[0]
    requires StartsWith(lines[|lines| - 1], DATA) && StartsWith(last, DATA)
    ensures HeaderValue(lines[..|lines| - 1] + [last], key) == HeaderValue(lines, key)
    decreases |lines|
  {
    var other := lines[..|lines| - 1] + [last];
    assert lines[|lines| - 1][0] == DATA[0] && last[0] == DATA[0];
    if |lines| > 1 {
      LookupIgnoresDataLine(lines[1..], key, last);
      assert other[1..] == lines[1..][..|lines| - 2] + [last];
    } else {
      assert other[1..] == [] && lines[1..] == [];
      assert (key + [SPACE])[0] == key[0];
    }
  }

  /** The header of a compressed file, downgraded to binary: one line changes,
      and it declares the same points. */
  lemma DowngradedHeader(lines: seq<Text>, fields: Fields, other: seq<Text>)
    requires HeaderShape(lines) && HeaderFields(lines) == Ok(fields)
    requires other == WithDataFormat(lines, Ascii("binary"))
    ensures other == lines[..|lines| - 1] + [DataLine(Ascii("binary"))]
    ensures HeaderShape(other) && Terminated(other[|other| - 1])
    ensures HeaderFields(other) == Ok(fields.(format := BinaryData))
  {
    BinaryDataLine();
    BinaryDataFormat();
    OnlyLastLineChanges(lines, Ascii("binary"));
    LastLineReplaced(lines, other, DataLine(Ascii("binary")));
    SameFields(lines, other, DataLine(Ascii("binary")));
  }

  lemma OnlyLastLineChanges(lines: seq<Text>, word: Text)
    requires HeaderShape(lines)
    ensures WithDataFormat(lines, word) == lines[..|lines| - 1] + [DataLine(word)]
  {
  }

  lemma LastLineReplaced(lines: seq<Text>, other: seq<Text>, last: Text)
    requires HeaderShape(lines) && other == lines[..|lines| - 1] + [last]
    requires IsAscii(last) && Terminated(last) && StartsWith(last, DATA)
    ensures HeaderShape(other) && Terminated(other[|other| - 1])
  {
    forall i | 0 <= i < |other| - 1 ensures Terminated(other[i]) && !StartsWith(other[i], DATA) {
      assert other[i] == lines[i];
    }
  }

  lemma SameFields(lines: seq<Text>, other: seq<Text>, last: Text)
    requires lines != [] && StartsWith(lines[|lines| - 1], DATA) && StartsWith(last, DATA)
    requires other == lines[..|lines| - 1] + [last]
    ensures Layout(other) == Layout(lines) && PointCount(other) == PointCount(lines)
  {
    LayoutIgnoresDataLine(lines, last);
    LookupIgnoresDataLine(lines, Ascii("POINTS"), last);
  }

  lemma LayoutIgnoresDataLine(lines: seq<Text>, last: Text)
    requires lines != [] && StartsWith(lines[|lines| - 1], DATA) && StartsWith(last, DATA)
    ensures LayoutValues(lines[..|lines| - 1] + [last]) == LayoutValues(lines)
  {
    LookupIgnoresDataLine(lines, Ascii("FIELDS"), last);
    LookupIgnoresDataLine(lines, Ascii("SIZE"), last);
    LookupIgnoresDataLine(lines, Ascii("TYPE"), last);
    LookupIgnoresDataLine(lines, Ascii("COUNT"), last);
  }

  lemma ReadFloatsShape(rest: seq<Byte>, fields: Fields, a: Matrix)
    requires IsLayoutSize(fields.nFields) && ReadPoints(rest, fields) == Ok(Floats(a))
    ensures fields.nPoints == |a| && Rectangular(a, fields.nFields)
  {
  }

  lemma PartsOf(f: seq<Byte>, c: Cloud) returns (rest: seq<Byte>)
    requires ReadPcd(f) == Ok(c)
    ensures HeaderShape(c.lines) && HeaderFields(c.lines) == Ok(c.fields) && IsLayoutSize(c.fields.nFields)
    ensures f == Join(c.lines) + rest && ReadPoints(rest, c.fields) == Ok(c.points)
  {
    var h := HeaderOf(f).value;
    rest := h.rest;
    SplitIsHeader(f, Split(h.lines, h.rest));
    SplitRejoins(f, Split(h.lines, h.rest));
  }

  /** Every compressed file the tool accepts, rewritten as binary with no
      shift, reads back as the same matrix; only the DATA line differs. */
  lemma CompressedRewrittenAsBinary(f: seq<Byte>, c: Cloud, a: Matrix)
    requires ReadPcd(f) == Ok(c) && c.fields.format == CompressedData && c.points == Floats(a)
    ensures var lines := WithDataFormat(c.lines, Ascii("binary"));
            && c.lines != [] && lines == c.lines[..|c.lines| - 1] + [DataLine(Ascii("binary"))]
            && ReadPcd(WritePcd(lines, a)) == Ok(Cloud(lines, c.fields.(format := BinaryData), Floats(a)))
  {
    var rest := PartsOf(f, c);
    var lines := WithDataFormat(c.lines, Ascii("binary"));
    DowngradedHeader(c.lines, c.fields, lines);
    ReadFloatsShape(rest, c.fields, a);
    BinaryFileRoundTrip(lines, a, c.fields.nFields);
  }

  /** A binary file written back unshifted keeps its bytes up to the declared payload,
      so all of them exactly when nothing follows that payload. */
  lemma UnshiftedWriteIsByteIdentical(f: seq<Byte>, c: Cloud, a: Matrix)
    requires ReadPcd(f) == Ok(c) && c.fields.format == BinaryData && c.points == Floats(a)
    ensures WritePcd(c.lines, a) <= f
    ensures WritePcd(c.lines, a) == f <==> |f| == |Join(c.lines)| + 4 * (|a| * c.fields.nFields)
  {
    var rest := PartsOf(f, c);
    ReadFloatsShape(rest, c.fields, a);
    var raw := Short(rest, 4 * (|a| * c.fields.nFields));
    BytesRoundTrip(raw, |a|, c.fields.nFields);
    assert raw <= rest;
  }

  // ---- a fresh header ----

  const TITLE: Text := Ascii("# .PCD v0.7 - Point Cloud Data file format")
  const VERSION: Text := Ascii("VERSION 0.7")
  const HEIGHT: Text := Ascii("HEIGHT 1")
  const VIEWPOINT: Text := Ascii("VIEWPOINT 0 0 0 1 0 0 0")

  function MakeHeader(n: nat): seq<Text> {
    [ TITLE + [NEWLINE], VERSION + [NEWLINE],
      Entry("FIELDS", FIELDS4), Entry("SIZE", SIZE4), Entry("TYPE", TYPE4), Entry("COUNT", COUNT4),
      Entry("WIDTH", Decimal(n)), HEIGHT + [NEWLINE], VIEWPOINT + [NEWLINE],
      Entry("POINTS", Decimal(n)), DataLine(Ascii("binary")) ]
  }

  function Entry(key: string, value: Text): Text
  {
    Ascii(key) + [SPACE] + value + [NEWLINE]
  }

  /** The value of the first line with this key, when the lines before it begin
      with other letters. */
  lemma {:induction false} FindEntry(lines: seq<Text>, k: nat, key: string, value: Text)
    requires key != "" && k < |lines| && lines[k] == Entry(key, value) && Clean(value)
    requires forall i :: 0 <= i < k ==> lines[i] != [] && lines[i][0] != Ascii(key)[0]
    ensures HeaderValue(lines, Ascii(key)) == Ok(value)
    decreases k
  {
    var head := Ascii(key) + [SPACE];
    assert head[0] == Ascii(key)[0];
    if k == 0 {
      assert lines[0] == head + (value + [NEWLINE]);
      assert lines[0][..|head|] == head && lines[0][|key| + 1..] == value + [NEWLINE];
      StripLine(value);
    } else {
      assert !StartsWith(lines[0], head);
      FindEntry(lines[1..], k - 1, key, value);
    }
  }

  /** Eleven lines of the standard shape, whatever the unread ones hold. */
  lemma StandardHeader(l: seq<Text>, fields: Text, size: Text, typ: Text, count: Text, points: Text)
    requires |l| == 11 && Clean(fields) && Clean(size) && Clean(typ) && Clean(count) && Clean(points)
    requires Line(l[0], 35) && Line(l[1], 86) && Line(l[2], 70) && Line(l[3], 83) && Line(l[4], 84) && Line(l[5], 67)
    requires Line(l[6], 87) && Line(l[7], 72) && Line(l[8], 86) && Line(l[9], 80) && Line(l[10], 68)
    requires l[2] == Entry("FIELDS", fields) && l[3] == Entry("SIZE", size) && l[4] == Entry("TYPE", typ)
    requires l[5] == Entry("COUNT", count) && l[9] == Entry("POINTS", points) && StartsWith(l[10], DATA)
    ensures HeaderShape(l) && LayoutValues(l) == Ok(LayoutText(fields, size, typ, count))
    ensures HeaderValue(l, Ascii("POINTS")) == Ok(points)
  {
    assert DATA[0] == 68;
    FindEntry(l, 2, "FIELDS", fields);
    FindEntry(l, 3, "SIZE", size);
    FindEntry(l, 4, "TYPE", typ);
    FindEntry(l, 5, "COUNT", count);
    FindEntry(l, 9, "POINTS", points);
  }

  lemma PlainEntry(key: string, value: Text)
    requires PlainText(Ascii(key)) && PlainText(value) && key != ""
    ensures Line(Entry(key, value), Ascii(key)[0])
  {
    PlainLine(Ascii(key) + [SPACE] + value);
  }

  lemma FieldsLine() ensures Line(Entry("FIELDS", FIELDS4), 70) && Clean(FIELDS4) { PlainEntry("FIELDS", FIELDS4); }
  lemma SizeLine() ensures Line(Entry("SIZE", SIZE4), 83) && Clean(SIZE4) { PlainEntry("SIZE", SIZE4); }
  lemma TypeLine() ensures Line(Entry("TYPE", TYPE4), 84) && Clean(TYPE4) { PlainEntry("TYPE", TYPE4); }
  lemma CountLine() ensures Line(Entry("COUNT", COUNT4), 67) && Clean(COUNT4) { PlainEntry("COUNT", COUNT4); }
  lemma WidthLine(n: nat) ensures Line(Entry("WIDTH", Decimal(n)), 87) { PlainEntry("WIDTH", Decimal(n)); }
  lemma PointsLine(n: nat) ensures Line(Entry("POINTS", Decimal(n)), 80) && Clean(Decimal(n)) { PlainEntry("POINTS", Decimal(n)); }
  lemma TitleLine() ensures Line(TITLE + [NEWLINE], 35) { PlainLine(TITLE); }
  lemma VersionLine() ensures Line(VERSION + [NEWLINE], 86) { PlainLine(VERSION); }
  lemma HeightLine() ensures Line(HEIGHT + [NEWLINE], 72) { PlainLine(HEIGHT); }
  lemma ViewpointLine() ensures Line(VIEWPOINT + [NEWLINE], 86) { PlainLine(VIEWPOINT); }

  lemma MakeHeaderParses(n: nat)
    ensures HeaderShape(MakeHeader(n)) && Terminated(MakeHeader(n)[10])
    ensures HeaderFields(MakeHeader(n)) == Ok(Fields(BinaryData, n, 4))
  {
    TitleLine();
    VersionLine();
    FieldsLine();
    SizeLine();
    TypeLine();
    CountLine();
    WidthLine(n);
    HeightLine();
    ViewpointLine();
    PointsLine(n);
    BinaryDataLine();
    StandardHeader(MakeHeader(n), FIELDS4, SIZE4, TYPE4, COUNT4, Decimal(n));
    DecimalParses(n);
    BinaryDataFormat();
  }

  /** A fresh cloud of x/y/z/intensity points reads back as it was written. */
  lemma FreshFileRoundTrip(a: Matrix)
    requires Rectangular(a, 4)
    ensures ReadPcd(WritePcd(MakeHeader(|a|), a)) == Ok(Cloud(MakeHeader(|a|), Fields(BinaryData, |a|, 4), Floats(a)))
  {
    MakeHeaderParses(|a|);
    BinaryFileRoundTrip(MakeHeader(|a|), a, 4);
  }
}
