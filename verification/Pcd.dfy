/** Point-cloud files: the header grammar the tool accepts, the three payload
    framings, and what a read of a written file gives back. Text is ASCII, so
    header lines are byte strings; a float32 value is its four bytes. */
module Pcd {
  import opened Prelude
  import opened Lzf

  type Text = seq<Byte>
  type Word = w: seq<Byte> | |w| == 4 witness [0, 0, 0, 0]
  type Matrix = seq<seq<Word>>

  datatype Format = AsciiData | BinaryData | CompressedData

  /** Refusals the tool names itself, and the three bare Python errors that a
      malformed header can still raise (`NotAscii`, `NoDataWord`, `BadInt`). */
  datatype PcdError = EndOfFile | MissingKey(key: Text) | BadLayout | BadCount | BadFormat | BadLength
                    | BadStream(why: LzfError) | NotAscii | NoDataWord | BadInt

  /** The bytes of an ASCII literal of the program text. */
  function Ascii(s: string): (t: Text)
    ensures |t| == |s| && forall i :: 0 <= i < |t| && s[i] < 128 as char ==> t[i] == s[i] as int
  {
    seq<Byte>(|s|, i requires 0 <= i < |s| => if s[i] < 128 as char then s[i] as int else 63)
  }

  const NEWLINE: Byte := 10
  const SPACE: Byte := 32

  predicate IsSpace(b: Byte) {
    9 <= b <= 13 || 28 <= b <= 32
  }

  // ---- words and stripping ----

  function SkipSpace(s: Text, i: nat): (j: nat)
    requires i <= |s|
    ensures i <= j <= |s| && (forall k :: i <= k < j ==> IsSpace(s[k])) && (j < |s| ==> !IsSpace(s[j]))
    decreases |s| - i
  {
    if i < |s| && IsSpace(s[i]) then SkipSpace(s, i + 1) else i
  }

  function SkipWord(s: Text, i: nat): (j: nat)
    requires i <= |s|
    ensures i <= j <= |s| && (forall k :: i <= k < j ==> !IsSpace(s[k])) && (j < |s| ==> IsSpace(s[j]))
    decreases |s| - i
  {
    if i < |s| && !IsSpace(s[i]) then SkipWord(s, i + 1) else i
  }

  /** `line.split()[1]`. */
  function SecondWord(s: Text): Option<Text> {
    var i := SkipSpace(s, SkipWord(s, SkipSpace(s, 0)));
    var j := SkipWord(s, i);
    if i == j then None else Some(s[i..j])
  }

  function TrimEnd(s: Text): (t: Text)
    ensures t <= s && (t != [] ==> !IsSpace(t[|t| - 1])) && forall k :: |t| <= k < |s| ==> IsSpace(s[k])
  {
    if s != [] && IsSpace(s[|s| - 1]) then TrimEnd(s[..|s| - 1]) else s
  }

  function Strip(s: Text): Text {
    var t := TrimEnd(s);
    t[SkipSpace(t, 0)..]
  }

  /** t lies in s from i on, and all of s around it is whitespace. */
  ghost predicate CutFrom(s: Text, t: Text, i: nat) {
    i + |t| <= |s| && t == s[i..i + |t|] && forall k :: 0 <= k < |s| && (k < i || i + |t| <= k) ==> IsSpace(s[k])
  }

  /** Only whitespace is cut, at both ends. */
  lemma StripMeans(s: Text)
    ensures exists i: nat :: CutFrom(s, Strip(s), i)
    ensures Strip(s) != [] ==> !IsSpace(Strip(s)[0]) && !IsSpace(Strip(s)[|Strip(s)| - 1])
  {
    assert CutFrom(s, Strip(s), SkipSpace(TrimEnd(s), 0));
  }

  predicate Clean(v: Text) {
    v != [] && !IsSpace(v[0]) && !IsSpace(v[|v| - 1])
  }

  lemma StripLine(v: Text)
    requires Clean(v)
    ensures Strip(v + [NEWLINE]) == v
  {
    var s := v + [NEWLINE];
    var t := TrimEnd(s);
    assert s[|v| - 1] == v[|v| - 1] && s[|v|] == NEWLINE;
    assert t == s[..|v|] == v;
  }

  // ---- numbers ----

  function Digit(b: Byte): Option<nat> {
    if 48 <= b <= 57 then Some(b - 48) else None
  }

  /** Digits with single underscores between them, as `int()` allows. */
  function ParseNat(s: Text): Option<nat>
    decreases |s|
  {
    if s == [] then None
    else
      match Digit(s[|s| - 1])
      case None => None
      case Some(d) =>
        if |s| == 1 then Some(d)
        else
          var cut := if s[|s| - 2] == 95 && |s| > 2 then 2 else 1;
          match ParseNat(s[..|s| - cut])
          case None => None
          case Some(high) => Some(high * 10 + d)
  }

  function ParseInt(s: Text): Option<int> {
    if s != [] && (s[0] == 43 || s[0] == 45) then
      match ParseNat(s[1..])
      case None => None
      case Some(n) => if s[0] == 45 then Some(-(n as int)) else Some(n)
    else
      match ParseNat(s) case None => None case Some(n) => Some(n)
  }

  function Decimal(n: nat): (t: Text)
    ensures t != [] && forall k :: 0 <= k < |t| ==> 48 <= t[k] <= 57
  {
    if n < 10 then [48 + n] else Decimal(n / 10) + [48 + n % 10]
  }

  lemma {:induction false} DecimalParses(n: nat)
    ensures ParseInt(Decimal(n)) == Some(n) && ParseNat(Decimal(n)) == Some(n)
  {
    var t := Decimal(n);
    if n >= 10 {
      DecimalParses(n / 10);
      assert t[..|t| - 1] == Decimal(n / 10);
    }
  }

  // ---- header lines ----

  predicate StartsWith(line: Text, prefix: Text) {
    prefix <= line
  }

  const DATA: Text := Ascii("DATA")

  /** One past the first newline, or the end of the file. */
  function LineEnd(f: seq<Byte>): (k: nat)
    ensures k <= |f| && (f != [] ==> k > 0)
    ensures forall i :: 0 <= i < k - 1 ==> f[i] != NEWLINE
    ensures k < |f| ==> k > 0 && f[k - 1] == NEWLINE
  {
    if f == [] then 0 else if f[0] == NEWLINE then 1 else 1 + LineEnd(f[1..])
  }

  predicate IsAscii(t: Text) {
    forall b :: b in t ==> b < 128
  }

  datatype Split = Split(lines: seq<Text>, rest: seq<Byte>)

  /** Lines up to and including the first that starts with DATA. */
  function SplitHeader(f: seq<Byte>): Result<Split, PcdError>
    decreases |f|
  {
    if f == [] then Err(EndOfFile)
    else
      var line := f[..LineEnd(f)];
      var rest := f[LineEnd(f)..];
      if !IsAscii(line) then Err(NotAscii)
      else if StartsWith(line, DATA) then Ok(Split([line], rest))
      else
        match SplitHeader(rest)
        case Err(e) => Err(e)
        case Ok(s) => Ok(Split([line] + s.lines, s.rest))
  }

  function Join(lines: seq<Text>): seq<Byte> {
    if lines == [] then [] else lines[0] + Join(lines[1..])
  }

  predicate Terminated(line: Text) {
    line != [] && line[|line| - 1] == NEWLINE && forall i :: 0 <= i < |line| - 1 ==> line[i] != NEWLINE
  }

  predicate HeaderShape(lines: seq<Text>) {
    && lines != [] && (forall l :: l in lines ==> IsAscii(l))
    && StartsWith(lines[|lines| - 1], DATA)
    && forall i :: 0 <= i < |lines| - 1 ==> Terminated(lines[i]) && !StartsWith(lines[i], DATA)
  }

  lemma LineEndIs(line: Text, rest: seq<Byte>)
    requires Terminated(line)
    ensures LineEnd(line + rest) == |line| && (line + rest)[..|line|] == line && (line + rest)[|line|..] == rest
  {
    var f := line + rest;
    assert f[|line| - 1] == NEWLINE && forall i :: 0 <= i < |line| - 1 ==> f[i] == line[i];
  }

  lemma FirstLine(lines: seq<Text>)
    requires HeaderShape(lines) && Terminated(lines[|lines| - 1])
    ensures Terminated(lines[0]) && IsAscii(lines[0]) && (StartsWith(lines[0], DATA) <==> |lines| == 1)
    ensures |lines| > 1 ==> HeaderShape(lines[1..]) && Terminated(lines[1..][|lines| - 2])
  {
    assert lines[0] in lines;
    assert forall i :: 0 <= i < |lines| - 1 ==> lines[1..][i] == lines[i + 1];
  }

  lemma SplitFirstLine(line: Text, tail: seq<Byte>)
    requires Terminated(line) && IsAscii(line)
    ensures SplitHeader(line + tail) ==
              if StartsWith(line, DATA) then Ok(Split([line], tail))
              else match SplitHeader(tail) case Err(e) => Err(e) case Ok(s) => Ok(Split([line] + s.lines, s.rest))
  {
    LineEndIs(line, tail);
  }

  lemma JoinFirst(lines: seq<Text>, rest: seq<Byte>)
    requires lines != []
    ensures Join(lines) + rest == lines[0] + (Join(lines[1..]) + rest)
    ensures |lines| == 1 ==> Join(lines[1..]) + rest == rest && lines == [lines[0]]
    ensures [lines[0]] + lines[1..] == lines
  {
    assert Join(lines) == lines[0] + Join(lines[1..]);
    assert |lines| == 1 ==> Join(lines[1..]) == [];
    hide Join;
    Regroup(lines[0], Join(lines[1..]), rest);
    assert [] + rest == rest;
  }

  lemma Regroup(a: seq<Byte>, b: seq<Byte>, c: seq<Byte>)
    ensures a + b + c == a + (b + c)
  {
  }

  lemma {:induction false} SplitInvertsJoin(lines: seq<Text>, rest: seq<Byte>)
    requires HeaderShape(lines) && Terminated(lines[|lines| - 1])
    ensures SplitHeader(Join(lines) + rest) == Ok(Split(lines, rest))
    decreases |lines|
  {
    assert lines != [];
    hide *;
    JoinFirst(lines, rest);
    FirstLine(lines);
    SplitFirstLine(lines[0], Join(lines[1..]) + rest);
    if |lines| > 1 {
      SplitInvertsJoin(lines[1..], rest);
    }
  }

  lemma {:induction false} SplitRejoins(f: seq<Byte>, s: Split)
    requires SplitHeader(f) == Ok(s)
    ensures f == Join(s.lines) + s.rest
    decreases |f|
  {
    var line, rest := f[..LineEnd(f)], f[LineEnd(f)..];
    assert f == line + rest;
    if StartsWith(line, DATA) {
      LastHeaderLine(line);
    } else {
      var s' := SplitHeader(rest).value;
      SplitRejoins(rest, s');
      assert s.lines[1..] == s'.lines;
      assert line + (Join(s'.lines) + s'.rest) == line + Join(s'.lines) + s'.rest;
    }
  }

  lemma {:induction false} SplitIsHeader(f: seq<Byte>, s: Split)
    requires SplitHeader(f) == Ok(s)
    ensures HeaderShape(s.lines)
    decreases |f|
  {
    var line, rest := f[..LineEnd(f)], f[LineEnd(f)..];
    if StartsWith(line, DATA) {
      LastHeaderLine(line);
    } else {
      var s' := SplitHeader(rest).value;
      assert rest != [] && Terminated(line);
      SplitIsHeader(rest, s');
      ConsHeader(line, s'.lines);
    }
  }

  lemma LastHeaderLine(line: Text)
    requires IsAscii(line) && StartsWith(line, DATA)
    ensures HeaderShape([line]) && Join([line]) == line
  {
    assert [line][1..] == [] && line + [] == line;
  }

  lemma ConsHeader(line: Text, lines: seq<Text>)
    requires HeaderShape(lines) && Terminated(line) && IsAscii(line) && !StartsWith(line, DATA)
    ensures HeaderShape([line] + lines) && Join([line] + lines) == line + Join(lines)
  {
    assert ([line] + lines)[1..] == lines;
  }

  /** The value of the first line that begins with the key and a space. */
  function HeaderValue(lines: seq<Text>, key: Text): Result<Text, PcdError> {
    if lines == [] then Err(MissingKey(key))
    else if StartsWith(lines[0], key + [SPACE]) then Ok(Strip(lines[0][|key| + 1..]))
    else HeaderValue(lines[1..], key)
  }

  /** The first line that begins with the key and a space decides. */
  lemma {:induction false} FirstLineDecides(lines: seq<Text>, key: Text, i: nat)
    requires i < |lines| && key + [SPACE] <= lines[i] && forall k :: 0 <= k < i ==> !(key + [SPACE] <= lines[k])
    ensures HeaderValue(lines, key) == Ok(Strip(lines[i][|key| + 1..]))
  {
    if i > 0 {
      assert forall k :: 0 <= k < i - 1 ==> lines[1..][k] == lines[k + 1];
      FirstLineDecides(lines[1..], key, i - 1);
    }
  }

  lemma {:induction false} NoLineNoValue(lines: seq<Text>, key: Text)
    requires forall k :: 0 <= k < |lines| ==> !(key + [SPACE] <= lines[k])
    ensures HeaderValue(lines, key) == Err(MissingKey(key))
  {
    if lines != [] {
      assert forall k :: 0 <= k < |lines| - 1 ==> lines[1..][k] == lines[k + 1];
      NoLineNoValue(lines[1..], key);
    }
  }

  datatype Fields = Fields(format: Format, nPoints: int, nFields: nat)

  const FIELDS4: Text := Ascii("x y z intensity")
  const SIZE4: Text := Ascii("4 4 4 4")
  const TYPE4: Text := Ascii("F F F F")
  const COUNT4: Text := Ascii("1 1 1 1")
  const FIELDS3: Text := Ascii("x y z")
  const SIZE3: Text := Ascii("4 4 4")
  const TYPE3: Text := Ascii("F F F")
  const COUNT3: Text := Ascii("1 1 1")

  function ParseFormat(word: Text): Option<Format> {
    if word == Ascii("ascii") then Some(AsciiData)
    else if word == Ascii("binary") then Some(BinaryData)
    else if word == Ascii("binary_compressed") then Some(CompressedData)
    else None
  }

  datatype LayoutText = LayoutText(fields: Text, size: Text, typ: Text, count: Text)

  /** The four layout values, or the first key that is missing. */
  function LayoutValues(lines: seq<Text>): Result<LayoutText, PcdError> {
    match HeaderValue(lines, Ascii("FIELDS"))
    case Err(e) => Err(e)
    case Ok(fields) =>
      match HeaderValue(lines, Ascii("SIZE"))
      case Err(e) => Err(e)
      case Ok(size) =>
        match HeaderValue(lines, Ascii("TYPE"))
        case Err(e) => Err(e)
        case Ok(typ) =>
          match HeaderValue(lines, Ascii("COUNT"))
          case Err(e) => Err(e)
          case Ok(count) => Ok(LayoutText(fields, size, typ, count))
  }

  /** The field count of one of the two supported flat layouts. */
  function SupportedLayout(v: LayoutText): (r: Result<nat, PcdError>)
    ensures r.Ok? ==> r.value == 3 || r.value == 4
  {
    if v.fields == FIELDS4 && v.size == SIZE4 && v.typ == TYPE4 then
      if v.count == COUNT4 then Ok(4) else Err(BadCount)
    else if v.fields == FIELDS3 && v.size == SIZE3 && v.typ == TYPE3 then
      if v.count == COUNT3 then Ok(3) else Err(BadCount)
    else Err(BadLayout)
  }

  function Layout(lines: seq<Text>): (r: Result<nat, PcdError>)
    ensures r.Ok? ==> r.value == 3 || r.value == 4
  {
    match LayoutValues(lines)
    case Err(e) => Err(e)
    case Ok(v) => SupportedLayout(v)
  }

  function DataFormat(line: Text): Result<Format, PcdError> {
    match SecondWord(line)
    case None => Err(NoDataWord)
    case Some(word) => match ParseFormat(Strip(word)) case None => Err(BadFormat) case Some(f) => Ok(f)
  }

  function PointCount(lines: seq<Text>): Result<int, PcdError> {
    match HeaderValue(lines, Ascii("POINTS"))
    case Err(e) => Err(e)
    case Ok(v) => match ParseInt(v) case None => Err(BadInt) case Some(n) => Ok(n)
  }

  function HeaderFields(lines: seq<Text>): (r: Result<Fields, PcdError>)
    requires lines != []
    ensures r.Ok? ==> r.value.nFields == 3 || r.value.nFields == 4
  {
    match Layout(lines)
    case Err(e) => Err(e)
    case Ok(nFields) =>
      match DataFormat(lines[|lines| - 1])
      case Err(e) => Err(e)
      case Ok(format) =>
        match PointCount(lines)
        case Err(e) => Err(e)
        case Ok(n) => Ok(Fields(format, n, nFields))
  }

  function LayoutOf(nFields: nat): LayoutText {
    if nFields == 4 then LayoutText(FIELDS4, SIZE4, TYPE4, COUNT4) else LayoutText(FIELDS3, SIZE3, TYPE3, COUNT3)
  }

  function FormatName(f: Format): Text {
    match f
    case AsciiData => Ascii("ascii")
    case BinaryData => Ascii("binary")
    case CompressedData => Ascii("binary_compressed")
  }

  lemma FormatNamesDiffer()
    ensures Ascii("ascii") != Ascii("binary") && Ascii("ascii") != Ascii("binary_compressed")
    ensures Ascii("binary") != Ascii("binary_compressed")
  {
    assert |Ascii("ascii")| == 5 && |Ascii("binary")| == 6 && |Ascii("binary_compressed")| == 17;
  }

  lemma LayoutsDiffer()
    ensures SIZE4 != SIZE3
  {
    assert |SIZE4| != |SIZE3|;
  }

  /** What a header says: the values under the four layout keys, the word after DATA in
      its last line, and the number under POINTS. */
  ghost predicate Declares(lines: seq<Text>, f: Fields)
    requires lines != []
  {
    && (f.nFields == 3 || f.nFields == 4)
    && HeaderValue(lines, Ascii("FIELDS")) == Ok(LayoutOf(f.nFields).fields)
    && HeaderValue(lines, Ascii("SIZE")) == Ok(LayoutOf(f.nFields).size)
    && HeaderValue(lines, Ascii("TYPE")) == Ok(LayoutOf(f.nFields).typ)
    && HeaderValue(lines, Ascii("COUNT")) == Ok(LayoutOf(f.nFields).count)
    && SecondWord(lines[|lines| - 1]).Some? && Strip(SecondWord(lines[|lines| - 1]).value) == FormatName(f.format)
    && HeaderValue(lines, Ascii("POINTS")).Ok? && ParseInt(HeaderValue(lines, Ascii("POINTS")).value) == Some(f.nPoints)
  }

  /** A header is accepted, with given fields, exactly when it declares them. */
  lemma AcceptedIffDeclared(lines: seq<Text>, f: Fields)
    requires lines != []
    ensures HeaderFields(lines) == Ok(f) <==> Declares(lines, f)
  {
    hide HeaderValue, SecondWord, Strip, ParseInt, Ascii;
    FormatNamesDiffer();
    LayoutsDiffer();
  }

  datatype Header = Header(lines: seq<Text>, fields: Fields, rest: seq<Byte>)

  function HeaderOf(f: seq<Byte>): (r: Result<Header, PcdError>)
    ensures r.Ok? ==> r.value.fields.nFields == 3 || r.value.fields.nFields == 4
  {
    match SplitHeader(f)
    case Err(e) => Err(e)
    case Ok(s) =>
      if s.lines == [] then Err(EndOfFile)
      else
        match HeaderFields(s.lines)
        case Err(e) => Err(e)
        case Ok(fields) => Ok(Header(s.lines, fields, s.rest))
  }

  function Prepend(lines: seq<Text>, r: Result<Split, PcdError>): Result<Split, PcdError> {
    match r case Err(e) => Err(e) case Ok(s) => Ok(Split(lines + s.lines, s.rest))
  }

  lemma PrependTwice(lines: seq<Text>, line: Text, r: Result<Split, PcdError>)
    ensures Prepend(lines, Prepend([line], r)) == Prepend(lines + [line], r) && Prepend([], r) == r
  {
    if r.Ok? {
      var more := r.value.lines;
      assert lines + ([line] + more) == lines + [line] + more && [] + more == more;
    }
  }

  method ReadHeader(f: seq<Byte>) returns (r: Result<Header, PcdError>)
    ensures r == HeaderOf(f)
  {
    var lines: seq<Text>, rest := [], f;
    ghost var split := SplitHeader(f);
    PrependTwice([], [], split);
    while true
      invariant split == Prepend(lines, SplitHeader(rest))
      decreases |rest|
    {
      var line := rest[..LineEnd(rest)];
      if line == [] { return Err(EndOfFile); }
      rest := rest[LineEnd(rest)..];
      if !IsAscii(line) { return Err(NotAscii); }
      PrependTwice(lines, line, SplitHeader(rest));
      lines := lines + [line];
      if StartsWith(line, DATA) { break; }
    }
    assert split == Ok(Split(lines, rest));
    var fields := HeaderFields(lines);
    r := match fields case Err(e) => Err(e) case Ok(v) => Ok(Header(lines, v, rest));
  }

  // ---- payloads ----

  /** The k-th float32 of a buffer. */
  function WordAt(raw: seq<Byte>, k: nat): Word
    requires 4 * k + 4 <= |raw|
  {
    raw[4 * k..4 * k + 4]
  }

  lemma Inside(i: nat, j: nat, n: nat, m: nat)
    requires i < n && j < m
    ensures 0 <= i * m + j < n * m
  {
    assert (n - 1 - i) * m >= 0;
    assert n * m == i * m + m + (n - 1 - i) * m;
  }

  function Row(raw: seq<Byte>, i: nat, n: nat, m: nat): (row: seq<Word>)
    requires i < n && |raw| == 4 * (n * m)
  {
    seq<Word>(m, j requires 0 <= j < m => (Inside(i, j, n, m); WordAt(raw, i * m + j)))
  }

  /** `frombuffer(raw).reshape(n, m)`: element (i, j) is word i*m + j. */
  function FromRows(raw: seq<Byte>, n: nat, m: nat): (r: Matrix)
    requires |raw| == 4 * (n * m)
  {
    seq(n, i requires 0 <= i < n => Row(raw, i, n, m))
  }

  predicate Rectangular(a: Matrix, m: nat) {
    forall i :: 0 <= i < |a| ==> |a[i]| == m
  }

  /** `a.T` of an m x n matrix. */
  function Transposed(a: Matrix, n: nat, m: nat): (r: Matrix)
    requires |a| == m && Rectangular(a, n)
    ensures |r| == n && Rectangular(r, m)
    ensures forall i, j :: 0 <= i < n && 0 <= j < m ==> r[i][j] == a[j][i]
  {
    seq(n, i requires 0 <= i < n => seq(m, j requires 0 <= j < m => a[j][i]))
  }

  function RowBytes(row: seq<Word>): (b: seq<Byte>)
    ensures |b| == 4 * |row|
  {
    if row == [] then [] else row[0] + RowBytes(row[1..])
  }

  /** `points.tobytes()`: the rows one after another. */
  function ToRows(a: Matrix): seq<Byte> {
    if a == [] then [] else RowBytes(a[0]) + ToRows(a[1..])
  }

  function Short(f: seq<Byte>, n: int): seq<Byte> {
    if n < 0 || n > |f| then f else f[..n]
  }

  function LittleEndian(b: seq<Byte>): nat {
    if b == [] then 0 else b[0] + 256 * LittleEndian(b[1..])
  }

  datatype Frame = Frame(packed: seq<Byte>, rawLen: nat)

  /** The two little-endian lengths of a compressed payload, and its stream. */
  function Unframe(rest: seq<Byte>): Frame {
    var one := Short(rest, 4);
    var two := Short(rest[|one|..], 4);
    Frame(Short(rest[|one| + |two|..], LittleEndian(one)), LittleEndian(two))
  }

  /** Field-major storage: `frombuffer(raw).reshape(m, n).T`. */
  function FromColumns(raw: seq<Byte>, n: nat, m: nat): Matrix
    requires |raw| == 4 * (n * m)
  {
    assert n * m == m * n;
    Transposed(FromRows(raw, m, n), n, m)
  }

  /** Where a value lies in the two payloads: row-major, point by point; compressed,
      field by field. */
  lemma PayloadPlaces(raw: seq<Byte>, n: nat, m: nat, i: nat, j: nat)
    requires |raw| == 4 * (n * m) && i < n && j < m
    ensures 0 <= i * m + j < n * m && 0 <= j * n + i < n * m
    ensures |FromRows(raw, n, m)| == n && |FromRows(raw, n, m)[i]| == m
    ensures FromRows(raw, n, m)[i][j] == raw[4 * (i * m + j)..4 * (i * m + j) + 4]
    ensures |FromColumns(raw, n, m)| == n && |FromColumns(raw, n, m)[i]| == m
    ensures FromColumns(raw, n, m)[i][j] == raw[4 * (j * n + i)..4 * (j * n + i) + 4]
  {
    Inside(i, j, n, m);
    Inside(j, i, m, n);
    assert n * m == m * n;
    assert FromRows(raw, m, n)[j] == Row(raw, j, m, n);
  }

  /** A length field is least significant byte first. */
  lemma LengthField(a: Byte, b: Byte, c: Byte, d: Byte)
    ensures LittleEndian([a, b, c, d]) == a as int + 256 * b as int + 65536 * c as int + 16777216 * d as int
  {
    var s := [a, b, c, d];
    assert s[1..] == [b, c, d] && [b, c, d][1..] == [c, d] && [c, d][1..] == [d] && [d][1..] == [];
    assert LittleEndian([d]) == d as int;
    assert LittleEndian([c, d]) == c as int + 256 * d as int;
  }

  datatype Points = Floats(rows: Matrix) | TextPayload(text: seq<Byte>)

  /** The payload of a header's format. A read past the end returns what is
      there; every framed length is checked before the bytes are reshaped. */
  function ReadPoints(rest: seq<Byte>, fields: Fields): Result<Points, PcdError>
    requires fields.nFields == 3 || fields.nFields == 4
  {
    var n, m := fields.nPoints, fields.nFields;
    match fields.format
    case AsciiData => Ok(TextPayload(rest))
    case BinaryData =>
      var raw := Short(rest, 4 * (n * m));
      if |raw| != 4 * (n * m) then Err(BadLength)
      else Ok(Floats(FromRows(raw, n, m)))
    case CompressedData =>
      var frame := Unframe(rest);
      match Decode(frame.packed, [])
      case Err(e) => Err(BadStream(e))
      case Ok(raw) =>
        if |raw| != frame.rawLen || |raw| != 4 * (n * m) then Err(BadLength)
        else Ok(Floats(FromColumns(raw, n, m)))
  }
}
