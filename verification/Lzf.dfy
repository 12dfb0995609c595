/** The LZF decompressor behind `binary_compressed` point clouds, against a
    semantics of token lists: literal runs and back-references. */
module Lzf {
  import opened Prelude

  type Byte = b: int | 0 <= b < 256

  datatype Token = Literal(bytes: seq<Byte>) | Copy(len: nat, dist: nat)

  datatype LzfError = Truncated | BadReference(offset: nat, produced: nat)

  /** A token liblzf can write, given how many bytes are already out. */
  predicate Writable(t: Token, produced: nat) {
    match t
    case Literal(bytes) => 1 <= |bytes| <= 32
    case Copy(len, dist) => 3 <= len <= 264 && 1 <= dist <= 8192 && dist <= produced
  }

  predicate AllWritable(ts: seq<Token>, produced: nat) {
    ts == [] || (Writable(ts[0], produced) && AllWritable(ts[1..], produced + Size(ts[0])))
  }

  function Size(t: Token): nat {
    match t case Literal(bytes) => |bytes| case Copy(len, _) => len
  }

  // ---- what tokens mean ----

  /** The last `dist` bytes of `out`, repeated for `len` bytes. */
  function Periodic(out: seq<Byte>, dist: nat, len: nat): (r: seq<Byte>)
    requires 1 <= dist <= |out|
    ensures |r| == len && forall k :: 0 <= k < len ==> r[k] == out[|out| - dist + k % dist]
  {
    seq(len, k requires 0 <= k < len => out[|out| - dist + k % dist])
  }

  function Extend(out: seq<Byte>, t: Token): (r: seq<Byte>)
    requires Writable(t, |out|)
    ensures |r| == |out| + Size(t) && out <= r
  {
    match t
    case Literal(bytes) => out + bytes
    case Copy(len, dist) => out + Periodic(out, dist, len)
  }

  function Meaning(ts: seq<Token>, out: seq<Byte>): seq<Byte>
    requires AllWritable(ts, |out|)
  {
    if ts == [] then out else Meaning(ts[1..], Extend(out, ts[0]))
  }

  // ---- how tokens are written ----

  function EncodeToken(t: Token): (r: seq<Byte>)
    requires Writable(t, 8192)
    ensures r != []
  {
    match t
    case Literal(bytes) => [|bytes| - 1] + bytes
    case Copy(len, dist) =>
      var offset := dist - 1;
      if len - 2 < 7 then [(len - 2) * 32 + offset / 256, offset % 256]
      else [7 * 32 + offset / 256, len - 9, offset % 256]
  }

  function Encode(ts: seq<Token>): seq<Byte>
    requires forall t :: t in ts ==> Writable(t, 8192)
  {
    if ts == [] then [] else EncodeToken(ts[0]) + Encode(ts[1..])
  }

  // ---- the decoder ----

  datatype Reference = Reference(used: nat, len: nat, offset: nat)

  /** The back-reference at the front of the stream, if all its bytes are there. */
  function ReadReference(data: seq<Byte>): (r: Option<Reference>)
    requires data != [] && data[0] >= 32
    ensures r.Some? ==> 2 <= r.value.used <= |data|
  {
    var ctrl: int := data[0];
    if ctrl / 32 == 7 then
      if |data| < 3 then None
      else
        var more: int, low: int := data[1], data[2];
        Some(Reference(3, 9 + more, ctrl % 32 * 256 + low))
    else
      if |data| < 2 then None
      else
        var low: int := data[1];
        Some(Reference(2, ctrl / 32 + 2, ctrl % 32 * 256 + low))
  }

  /** What the byte loop computes on the unread part of the stream. A literal run
      is sliced, so one that runs past the end copies what there is. */
  function Decode(data: seq<Byte>, out: seq<Byte>): Result<seq<Byte>, LzfError>
    decreases |data|
  {
    if data == [] then Ok(out)
    else if data[0] < 32 then
      var end := Min(data[0] as int + 2, |data|);
      Decode(data[end..], out + data[1..end])
    else
      match ReadReference(data)
      case None => Err(Truncated)
      case Some(ref) =>
        if ref.offset >= |out| then Err(BadReference(ref.offset, |out|))
        else Decode(data[ref.used..], out + Periodic(out, ref.offset + 1, ref.len))
  }

  /** The stream format, token by token. A control byte below 32 announces one byte more
      of literals. */
  lemma LiteralFormat(ctrl: Byte, bytes: seq<Byte>, rest: seq<Byte>, out: seq<Byte>)
    requires |bytes| == ctrl as int + 1 <= 32
    ensures Decode([ctrl] + bytes + rest, out) == Decode(rest, out + bytes)
  {
    var data := [ctrl] + bytes + rest;
    assert data[0] == ctrl && data[1..ctrl as int + 2] == bytes && data[ctrl as int + 2..] == rest;
  }

  /** Otherwise its top three bits are the length less two, and its low five bits with
      the next byte the distance less one. */
  lemma ShortCopyFormat(ctrl: Byte, low: Byte, rest: seq<Byte>)
    requires 32 <= ctrl < 224
    ensures ReadReference([ctrl, low] + rest) == Some(Reference(2, ctrl / 32 + 2, ctrl % 32 * 256 + low))
  {
  }

  /** Seven in the top bits means that one more byte adds to the length. */
  lemma LongCopyFormat(ctrl: Byte, more: Byte, low: Byte, rest: seq<Byte>)
    requires 224 <= ctrl
    ensures ReadReference([ctrl, more, low] + rest) == Some(Reference(3, more + 9, ctrl % 32 * 256 + low))
  {
  }

  function Min(a: int, b: int): int {
    if a <= b then a else b
  }

  lemma LiteralStep(data: seq<Byte>, i: nat, out: seq<Byte>, end: nat)
    requires i < |data| && data[i] < 32 && end == Min(i + data[i] as int + 2, |data|)
    ensures Decode(data[i..], out) == Decode(data[end..], out + data[i + 1..end])
  {
    var rest := data[i..];
    assert rest[end - i..] == data[end..] && rest[1..end - i] == data[i + 1..end];
  }

  /** A copy is taken from its distance back, for its length; one that reaches past the
      output so far is refused. */
  lemma CopyStep(data: seq<Byte>, i: nat, out: seq<Byte>, ref: Option<Reference>)
    requires i < |data| && data[i] >= 32 && ReadReference(data[i..]) == ref
    ensures ref.None? ==> Decode(data[i..], out) == Err(Truncated)
    ensures ref.Some? ==>
              Decode(data[i..], out) ==
              if ref.value.offset >= |out| then Err(BadReference(ref.value.offset, |out|))
              else Decode(data[i + ref.value.used..], out + Periodic(out, ref.value.offset + 1, ref.value.len))
  {
    hide Periodic, ReadReference;
    var rest := data[i..];
    assert rest[0] == data[i];
    if ref.Some? {
      assert rest[ref.value.used..] == data[i + ref.value.used..];
    }
  }

  lemma DecodeNothing(data: seq<Byte>, out: seq<Byte>)
    ensures Decode(data[|data|..], out) == Ok(out)
  {
  }

  method ReadReferenceAt(data: seq<Byte>, at: nat) returns (r: Option<Reference>)
    requires at < |data| && data[at] >= 32
    ensures r == ReadReference(data[at..])
  {
    var i, n := at + 1, |data|;
    var ctrl: int := data[at];
    var length := ctrl / 32;
    if length == 7 {
      if i >= n { return None; }
      var more: int := data[i];
      length := length + more;
      i := i + 1;
    }
    if i >= n { return None; }
    var low: int := data[i];
    r := Some(Reference(i + 1 - at, length + 2, ctrl % 32 * 256 + low));
  }

  /** Ends on every input with bytes or an error, and never reads out of range. */
  method LzfDecompress(data: seq<Byte>) returns (r: Result<seq<Byte>, LzfError>)
    ensures r == Decode(data, [])
  {
    hide ReadReference, Periodic, Decode;
    var out: seq<Byte> := [];
    var i, n := 0, |data|;
    ghost var answer := Decode(data, []);
    assert data[0..] == data;
    while i < n
      invariant 0 <= i
      invariant answer == Decode(data[Min(i, n)..], out)
      decreases n - i
    {
      var at := i;
      var ctrl: int := data[i];
      i := i + 1;
      if ctrl < 32 {
        var length := ctrl + 1;
        LiteralStep(data, at, out, Min(i + length, n));
        out := out + data[i..Min(i + length, n)];
        i := i + length;
      } else {
        var ref := ReadReferenceAt(data, at);
        CopyStep(data, at, out, ref);
        if ref.None? { return Err(Truncated); }
        var Reference(used, length, offset) := ref.value;
        i := at + used;
        var from := |out| - offset - 1;
        if from < 0 { return Err(BadReference(offset, |out|)); }
        out := CopyBytes(out, from, length);
      }
    }
    DecodeNothing(data, out);
    r := Ok(out);
  }

  /** Byte by byte, because source and destination may overlap. */
  method CopyBytes(out0: seq<Byte>, from: nat, count: nat) returns (out: seq<Byte>)
    requires from < |out0|
    ensures out == out0 + Periodic(out0, |out0| - from, count)
  {
    out := out0;
    var src, dist := from, |out0| - from;
    for j := 0 to count
      invariant src == from + j
      invariant out == out0 + Periodic(out0, dist, j)
    {
      WrapStep(j, dist);
      assert out[src] == out0[from + j % dist];
      out := out + [out[src]];
      src := src + 1;
      assert Periodic(out0, dist, j + 1) == Periodic(out0, dist, j) + [out0[from + j % dist]];
    }
  }

  lemma WrapStep(j: nat, dist: nat)
    requires dist > 0
    ensures j >= dist ==> (j - dist) % dist == j % dist
    ensures j < dist ==> j % dist == j
  {
    if j >= dist {
      assert j == dist * (j / dist) + j % dist;
      assert j - dist == dist * (j / dist - 1) + j % dist;
      ModUnique(j - dist, dist, j / dist - 1, j % dist);
    }
  }

  lemma ModUnique(x: int, d: int, q: int, r: int)
    requires d > 0 && x == d * q + r && 0 <= r < d
    ensures x % d == r && x / d == q
  {
    var k := q - x / d;
    assert d * k == d * q - d * (x / d) == x % d - r;
    if k >= 1 { AtLeast(d, k); }
    if k <= -1 { AtLeast(d, -k); }
  }

  lemma AtLeast(d: int, k: int)
    requires d > 0 && k >= 1
    ensures d * k >= d && d * -k <= -d
  {
    assert d * (k - 1) >= 0;
  }

  // ---- the decoder against the token semantics ----

  lemma ReferenceRoundTrip(len: nat, dist: nat, rest: seq<Byte>)
    requires 3 <= len <= 264 && 1 <= dist <= 8192
    ensures var e := EncodeToken(Copy(len, dist));
            (e + rest)[0] >= 32 && ReadReference(e + rest) == Some(Reference(|e|, len, dist - 1)) && (e + rest)[|e|..] == rest
  {
    var offset := dist - 1;
    ModUnique(offset, 256, offset / 256, offset % 256);
    var high := if len - 2 < 7 then len - 2 else 7;
    ModUnique(high * 32 + offset / 256, 32, high, offset / 256);
  }

  lemma DecodeToken(t: Token, rest: seq<Byte>, out: seq<Byte>)
    requires Writable(t, |out|)
    ensures Decode(EncodeToken(t) + rest, out) == Decode(rest, Extend(out, t))
  {
    hide ReadReference, Periodic;
    match t
    case Literal(bytes) =>
      LiteralRoundTripBytes(bytes, rest);
    case Copy(len, dist) =>
      ReferenceRoundTrip(len, dist, rest);
  }

  lemma LiteralRoundTripBytes(bytes: seq<Byte>, rest: seq<Byte>)
    requires 1 <= |bytes| <= 32
    ensures var data := EncodeToken(Literal(bytes)) + rest;
            && data[0] as int == |bytes| - 1 && |data| >= |bytes| + 1
            && data[|bytes| + 1..] == rest && data[1..|bytes| + 1] == bytes
  {
  }

  lemma WritableTokens(ts: seq<Token>, produced: nat)
    requires AllWritable(ts, produced)
    ensures forall t :: t in ts ==> Writable(t, 8192)
  {
    if ts != [] {
      WritableTokens(ts[1..], produced + Size(ts[0]));
    }
  }

  lemma {:induction false} DecodeTokens(ts: seq<Token>, rest: seq<Byte>, out: seq<Byte>)
    requires AllWritable(ts, |out|) && forall t :: t in ts ==> Writable(t, 8192)
    ensures Decode(Encode(ts) + rest, out) == Decode(rest, Meaning(ts, out))
    decreases |ts|
  {
    if ts == [] {
      assert Encode(ts) + rest == rest;
    } else {
      var tail := Encode(ts[1..]) + rest;
      assert Encode(ts) + rest == EncodeToken(ts[0]) + tail;
      DecodeToken(ts[0], tail, out);
      DecodeTokens(ts[1..], rest, Extend(out, ts[0]));
    }
  }

  /** Decoding the serialisation of any token list yields exactly its meaning. */
  lemma DecodeMeetsMeaning(ts: seq<Token>)
    requires AllWritable(ts, 0)
    ensures (forall t :: t in ts ==> Writable(t, 8192)) && Decode(Encode(ts), []) == Ok(Meaning(ts, []))
  {
    WritableTokens(ts, 0);
    DecodeTokens(ts, [], []);
    assert Encode(ts) + [] == Encode(ts);
  }

  /** A literal run whose bytes are cut short by the end of the stream. */
  predicate CutLiteral(tail: seq<Byte>) {
    tail != [] && tail[0] < 32 && |tail| - 1 < tail[0] as int + 1
  }

  /** `data` is the serialisation of `ts`, possibly followed by a cut literal run. */
  ghost predicate Parses(data: seq<Byte>, out: seq<Byte>, ts: seq<Token>, tail: seq<Byte>) {
    && AllWritable(ts, |out|) && (forall t :: t in ts ==> Writable(t, 8192))
    && data == Encode(ts) + tail && (tail == [] || CutLiteral(tail))
  }

  function Cut(tail: seq<Byte>): seq<Byte> {
    if tail == [] then [] else tail[1..]
  }

  lemma DecodeCut(tail: seq<Byte>, out: seq<Byte>)
    requires CutLiteral(tail)
    ensures Decode(tail, out) == Ok(out + Cut(tail))
  {
    assert tail[1..|tail|] == tail[1..] && tail[|tail|..] == [];
  }

  lemma ReadTokenBack(data: seq<Byte>, produced: nat) returns (t: Token)
    requires data != [] && !CutLiteral(data)
    requires data[0] >= 32 ==> ReadReference(data).Some? && ReadReference(data).value.offset < produced
    ensures Writable(t, produced) && Writable(t, 8192)
    ensures EncodeToken(t) <= data
  {
    var ctrl: int := data[0];
    if ctrl < 32 {
      t := Literal(data[1..ctrl + 2]);
      assert EncodeToken(t) == data[..ctrl + 2];
    } else {
      var ref := ReadReference(data).value;
      t := Copy(ref.len, ref.offset + 1);
      ModUnique(ref.offset, 256, ctrl % 32, data[ref.used - 1]);
      assert EncodeToken(t) == data[..ref.used];
    }
  }

  /** Every accepted stream is a token list the format allows, plus at most one
      cut literal run; nothing else decodes, and the output is its meaning. */
  lemma {:induction false} AcceptedStreamsParse(data: seq<Byte>, out: seq<Byte>)
      returns (ts: seq<Token>, tail: seq<Byte>)
    requires Decode(data, out).Ok?
    ensures Parses(data, out, ts, tail) && Decode(data, out) == Ok(Meaning(ts, out) + Cut(tail))
    decreases |data|
  {
    if data == [] || CutLiteral(data) {
      ts, tail := [], data;
      assert Encode(ts) + tail == data;
      if data != [] {
        DecodeCut(data, out);
      } else {
        assert out + [] == out;
      }
    } else {
      var t := ReadTokenBack(data, |out|);
      var rest := data[|EncodeToken(t)|..];
      assert data == EncodeToken(t) + rest;
      DecodeToken(t, rest, out);
      var ts', tail' := AcceptedStreamsParse(rest, Extend(out, t));
      ts, tail := [t] + ts', tail';
      PrependToken(t, rest, out, ts', tail');
    }
  }

  lemma PrependToken(t: Token, rest: seq<Byte>, out: seq<Byte>, ts: seq<Token>, tail: seq<Byte>)
    requires Writable(t, |out|) && Writable(t, 8192) && Parses(rest, Extend(out, t), ts, tail)
    ensures Parses(EncodeToken(t) + rest, out, [t] + ts, tail)
    ensures Meaning([t] + ts, out) == Meaning(ts, Extend(out, t))
  {
    hide EncodeToken, Periodic, Writable, CutLiteral;
    var all := [t] + ts;
    assert all[1..] == ts && all[0] == t;
    assert EncodeToken(t) + (Encode(ts) + tail) == EncodeToken(t) + Encode(ts) + tail;
  }

  lemma CutLiteralDecodes(ts: seq<Token>, tail: seq<Byte>)
    requires AllWritable(ts, 0) && (forall t :: t in ts ==> Writable(t, 8192)) && CutLiteral(tail)
    ensures Decode(Encode(ts) + tail, []) == Ok(Meaning(ts, []) + Cut(tail))
  {
    DecodeTokens(ts, tail, []);
    DecodeCut(tail, Meaning(ts, []));
  }

  /** Exactly what the decoder accepts, and what it returns: an if-and-only-if
      over all inputs. A stream cut inside a back-reference is refused, but one
      cut inside a literal run is accepted short. */
  lemma DecodeExactly(data: seq<Byte>, bytes: seq<Byte>)
    ensures Decode(data, []) == Ok(bytes) <==>
              exists ts, tail :: Parses(data, [], ts, tail) && bytes == Meaning(ts, []) + Cut(tail)
  {
    if Decode(data, []) == Ok(bytes) {
      var ts, tail := AcceptedStreamsParse(data, []);
    }
    forall ts, tail | Parses(data, [], ts, tail) && bytes == Meaning(ts, []) + Cut(tail)
      ensures Decode(data, []) == Ok(bytes)
    {
      if tail == [] {
        DecodeMeetsMeaning(ts);
        assert Encode(ts) + [] == Encode(ts) && Meaning(ts, []) + [] == Meaning(ts, []);
      } else {
        CutLiteralDecodes(ts, tail);
      }
    }
  }

  /** The documented refusal of truncated streams fails on this one-byte input:
      a literal run of six bytes with none of them present. */
  lemma TruncatedLiteralIsAccepted()
    ensures Decode([5], []) == Ok([])
  {
    DecodeCut([5], []);
    assert Cut([5]) == [] && [] + Cut([5]) == [];
  }

  /** Cutting bytes off a whole stream is refused iff the cut falls inside a
      back-reference: at a token boundary or inside a literal run it is not. */
  lemma PrefixRefusedIff(ts: seq<Token>, t: Token, k: nat)
    requires AllWritable(ts, 0) && Writable(t, |Meaning(ts, [])|)
    requires Writable(t, 8192) && (forall u :: u in ts ==> Writable(u, 8192)) && 0 < k < |EncodeToken(t)|
    ensures Decode(Encode(ts) + EncodeToken(t)[..k], []).Err? <==> t.Copy?
    ensures t.Copy? ==> Decode(Encode(ts) + EncodeToken(t)[..k], []) == Err(Truncated)
    ensures t.Literal? ==> Decode(Encode(ts) + EncodeToken(t)[..k], []) == Ok(Meaning(ts, []) + t.bytes[..k - 1])
  {
    hide Periodic, Meaning, Encode;
    var cut := EncodeToken(t)[..k];
    DecodeTokens(ts, cut, []);
    if t.Literal? {
      CutLiteralDecodes(ts, cut);
      assert Cut(cut) == t.bytes[..k - 1];
    } else {
      ReferenceRoundTrip(t.len, t.dist, []);
      assert EncodeToken(t) + [] == EncodeToken(t);
    }
  }

  // ---- a literal-only encoder ----

  function Literals(bytes: seq<Byte>): (ts: seq<Token>)
    decreases |bytes|
  {
    if bytes == [] then []
    else if |bytes| <= 32 then [Literal(bytes)]
    else [Literal(bytes[..32])] + Literals(bytes[32..])
  }

  lemma {:induction false} LiteralsMean(bytes: seq<Byte>, out: seq<Byte>)
    ensures AllWritable(Literals(bytes), |out|) && Meaning(Literals(bytes), out) == out + bytes
    decreases |bytes|
  {
    var ts := Literals(bytes);
    if bytes == [] {
      assert out + bytes == out;
    } else if |bytes| <= 32 {
      assert ts[1..] == [];
    } else {
      LiteralsMean(bytes[32..], out + bytes[..32]);
      assert ts[1..] == Literals(bytes[32..]);
      assert bytes[..32] + bytes[32..] == bytes;
      assert out + bytes[..32] + bytes[32..] == out + bytes;
    }
  }

  lemma LiteralRoundTrip(bytes: seq<Byte>)
    ensures (forall t :: t in Literals(bytes) ==> Writable(t, 8192))
    ensures Decode(Encode(Literals(bytes)), []) == Ok(bytes)
  {
    LiteralsMean(bytes, []);
    DecodeMeetsMeaning(Literals(bytes));
    assert [] + bytes == bytes;
  }

  /** An overlapping copy reads bytes it has itself just written: byte k equals
      the byte `dist` positions earlier in the result. */
  lemma CopyReadsItsOwnOutput(out: seq<Byte>, len: nat, dist: nat, k: nat)
    requires 3 <= len <= 264 && 1 <= dist <= 8192 && dist <= |out| && k < len
    ensures var r := Extend(out, Copy(len, dist)); r[|out| + k] == r[|out| + k - dist]
  {
    var r, p := Extend(out, Copy(len, dist)), Periodic(out, dist, len);
    WrapStep(k, dist);
    assert r == out + p && r[|out| + k] == p[k] == out[|out| - dist + k % dist];
    if k >= dist {
      assert r[|out| + k - dist] == p[k - dist] == out[|out| - dist + (k - dist) % dist];
    } else {
      assert r[|out| + k - dist] == out[|out| - dist + k];
    }
  }
}
