/**
  protocol.ts: the query-parameter encoder, the first-newline search, the
  parser of row payloads (parseSkytableData), the response formatter and the
  handshake reply check.
*/
module Protocol {
  import opened Wire
  import opened JsValues
  import opened ClientConfig

  // ---------------------------------------------------------------------
  // Parameter encoding
  // ---------------------------------------------------------------------

  /** A query parameter, by its JavaScript `typeof`. */
  datatype Param =
    | PString(s: string)
    | PNumber(n: JsNum)
    | PBigInt(i: int)
    | PBool(b: bool)
    | PNull
    | PUndefined
    | PUnsupported(typeName: string)  // any other type: an object, a Buffer, a symbol, a function

  /** The tag characters the encoder writes. */
  const TAG_BOOL: char := 1 as char
  const TAG_UINT: char := 2 as char
  const TAG_SINT: char := 3 as char
  const TAG_FLOAT: char := 4 as char
  const TAG_STRING: char := 6 as char

  /** The callback encodeParams maps over its parameters; Err is the TypeError it throws. */
  function EncodeParam(p: Param): (r: Result<string, Failure>)
    ensures r.Err? <==> p.PUnsupported?
    ensures r.Err? ==> r.error == UnsupportedType(p.typeName)
    ensures r.Ok? ==> |r.value| >= 1
  {
    match p
    case PString(s) => Ok([TAG_STRING] + DecimalText(|s|) + "\n" + s)
    case PNumber(n) => Ok([if IsFloat(n) then TAG_FLOAT else TAG_SINT] + NumberText(n) + "\n")
    case PBigInt(i) => Ok([TAG_UINT] + NumberText(NumberOfInt(i)) + "\n")
    case PBool(b) => Ok([TAG_BOOL] + (if b then [1 as char] else "0"))
    case PNull => Ok("0")
    case PUndefined => Ok("0")
    case PUnsupported(t) => Err(UnsupportedType(t))
  }

  /** encodeParams: the encodings joined in order; the first unsupported parameter throws. */
  function EncodeParams(ps: seq<Param>): (r: Result<string, Failure>)
    ensures r.Err? ==> r.error.UnsupportedType?
  {
    if |ps| == 0 then Ok("")
    else
      match EncodeParam(ps[0])
      case Err(e) => Err(e)
      case Ok(head) =>
        match EncodeParams(ps[1..])
        case Err(e) => Err(e)
        case Ok(tail) => Ok(head + tail)
  }

  /** Encoding `a + b` is encoding `a` followed by encoding `b`, and fails when either part fails. */
  lemma {:induction false} EncodeParamsAppend(a: seq<Param>, b: seq<Param>)
    ensures EncodeParams(a + b).Ok? <==> EncodeParams(a).Ok? && EncodeParams(b).Ok?
    ensures EncodeParams(a + b).Ok? ==> EncodeParams(a + b).value == EncodeParams(a).value + EncodeParams(b).value
  {
    if |a| == 0 {
      assert a + b == b;
    } else {
      var ab := a + b;
      assert ab[0] == a[0];
      assert ab[1..] == a[1..] + b;
      EncodeParamsAppend(a[1..], b);
      if EncodeParam(a[0]).Ok? && EncodeParams(a[1..]).Ok? && EncodeParams(b).Ok? {
        var h, x, y := EncodeParam(a[0]).value, EncodeParams(a[1..]).value, EncodeParams(b).value;
        assert EncodeParams(ab).value == h + (x + y);
        assert h + (x + y) == (h + x) + y;
      }
    }
  }

  /** Only an unsupported parameter makes encodeParams throw. */
  lemma {:induction false} EncodeParamsFails(ps: seq<Param>)
    ensures EncodeParams(ps).Err? <==> exists i :: 0 <= i < |ps| && ps[i].PUnsupported?
  {
    if |ps| > 0 {
      EncodeParamsFails(ps[1..]);
      if EncodeParams(ps).Err? && !ps[0].PUnsupported? {
        var i :| 0 <= i < |ps[1..]| && ps[1..][i].PUnsupported?;
        assert ps[i + 1].PUnsupported?;
      }
      if (exists i :: 0 <= i < |ps| && ps[i].PUnsupported?) && !ps[0].PUnsupported? {
        var i :| 0 <= i < |ps| && ps[i].PUnsupported?;
        assert ps[1..][i - 1].PUnsupported?;
      }
    }
  }

  /**
    How a server reads a size-prefixed text: decimal digits up to the first
    newline, then exactly that many characters and nothing more.
  */
  function ReadSized(t: string): Option<string>
  {
    var i := IndexOf(t, '\n', 0);
    if i == -1 || !IsDigits(t[..i]) then None
    else if DigitsValue(t[..i]) != |t| - i - 1 then None
    else Some(t[i + 1..])
  }

  /** Digits without a newline that give the length of what follows their newline delimit it exactly. */
  lemma ReadSizedLine(d: string, data: string)
    requires IsDigits(d) && '\n' !in d && DigitsValue(d) == |data|
    ensures ReadSized(d + "\n" + data) == Some(data)
  {
    var g := d + "\n" + data;
    IndexOfAfter(d, '\n', data);
    assert g[..|d|] == d;
    assert g[|d| + 1..] == data;
  }

  /** A string parameter is tag 0x06, then its length and the text, which read back whole. */
  lemma StringParamRoundTrip(s: string)
    ensures EncodeParam(PString(s)).Ok?
    ensures EncodeParam(PString(s)).value[0] == TAG_STRING
    ensures ReadSized(EncodeParam(PString(s)).value[1..]) == Some(s)
  {
    var d := DecimalText(|s|);
    var r := EncodeParam(PString(s)).value;
    assert r[1..] == d + "\n" + s;
    DecimalRoundTrip(|s|);
    ReadSizedLine(d, s);
  }

  /**
    A number parameter is tag 0x04 when it is a finite non-integer and 0x03
    otherwise (NaN and the infinities included), then its text and a newline.
  */
  lemma NumberParamLayout(n: JsNum)
    ensures EncodeParam(PNumber(n)).Ok?
    ensures var r := EncodeParam(PNumber(n)).value;
      && (r[0] == TAG_FLOAT <==> IsFloat(n))
      && (r[0] == TAG_SINT <==> !IsFloat(n))
      && r[1..] == NumberText(n) + "\n"
  {
    var t := if IsFloat(n) then TAG_FLOAT else TAG_SINT;
    assert EncodeParam(PNumber(n)) == Ok([t] + NumberText(n) + "\n");
    assert ([t] + NumberText(n) + "\n")[1..] == NumberText(n) + "\n";
  }

  /** An integral number parameter's text reads back as exactly that integer, sign included. */
  lemma IntegralParamRoundTrip(v: int)
    ensures var r := EncodeParam(PNumber(Integral(v))).value;
      && r[0] == TAG_SINT
      && r[|r| - 1] == '\n'
      && IsSignedDecimal(r[1..|r| - 1]) && SignedValue(r[1..|r| - 1]) == v
  {
    var r := EncodeParam(PNumber(Integral(v))).value;
    assert r[1..|r| - 1] == IntText(v);
  }

  /**
    A bigint parameter is tag 0x02 and the text of Number(bigint): exact up to
    2^53 in magnitude.
  */
  lemma BigIntParamExact(i: int)
    requires -(SAFE_LIMIT as int) <= i <= SAFE_LIMIT
    ensures var r := EncodeParam(PBigInt(i)).value;
      && r[0] == TAG_UINT
      && r[|r| - 1] == '\n'
      && IsSignedDecimal(r[1..|r| - 1]) && SignedValue(r[1..|r| - 1]) == i
  {
    NumberOfIntExact(i);
    var r := EncodeParam(PBigInt(i)).value;
    assert r[1..|r| - 1] == IntText(i);
  }

  /** Beyond 2^53 a bigint parameter is sent rounded: 2^53 + 1 goes out as the text of 2^53. */
  lemma BigIntParamRounds()
    ensures EncodeParam(PBigInt(SAFE_LIMIT + 1)) == Ok([TAG_UINT] + IntText(SAFE_LIMIT) + "\n")
    ensures IntText(SAFE_LIMIT) != IntText(SAFE_LIMIT + 1)
  {
    NumberOfIntRounds();
    var a, b := IntText(SAFE_LIMIT), IntText(SAFE_LIMIT + 1);
    assert SignedValue(a) != SignedValue(b);
  }

  /** true is 0x01 0x01, false is 0x01 followed by the character '0', null and undefined are the character '0'. */
  lemma OtherParamLayouts()
    ensures EncodeParam(PBool(true)) == Ok([1 as char, 1 as char])
    ensures EncodeParam(PBool(false)) == Ok([1 as char, '0'])
    ensures EncodeParam(PNull) == Ok("0") && EncodeParam(PUndefined) == Ok("0")
    ensures forall t :: EncodeParam(PUnsupported(t)).Err?
  {
    assert [TAG_BOOL] + [1 as char] == [1 as char, 1 as char];
    assert [TAG_BOOL] + "0" == [1 as char, '0'];
  }

  // ---------------------------------------------------------------------
  // Row payload parsing
  // ---------------------------------------------------------------------

  /** getFirstSplitOffset: the index of the first newline, or -1. */
  function FirstSplitOffset(buffer: seq<Byte>): (k: int)
    ensures k == -1 <==> NEWLINE !in buffer
    ensures k != -1 ==> 0 <= k < |buffer| && buffer[k] == NEWLINE && NEWLINE !in buffer[..k]
  {
    IndexOf(buffer, NEWLINE, 0)
  }

  /** Big-endian unsigned reads. */
  function ReadUInt16BE(b: seq<Byte>, off: nat): nat
    requires off + 2 <= |b|
  {
    (b[off] as int) * 0x100 + b[off + 1]
  }

  function ReadUInt32BE(b: seq<Byte>, off: nat): nat
    requires off + 4 <= |b|
  {
    ReadUInt16BE(b, off) * 0x1_0000 + ReadUInt16BE(b, off + 2)
  }

  /** Two's-complement signed reads. */
  function ReadInt16BE(b: seq<Byte>, off: nat): (r: int)
    requires off + 2 <= |b|
    ensures -0x8000 <= r < 0x8000
    ensures r % 0x1_0000 == ReadUInt16BE(b, off)
  {
    var u := ReadUInt16BE(b, off);
    if u >= 0x8000 then u - 0x1_0000 else u
  }

  function ReadBigInt64BE(b: seq<Byte>, off: nat): (r: int)
    requires off + 8 <= |b|
    ensures -0x8000_0000_0000_0000 <= r < 0x8000_0000_0000_0000
    ensures r % 0x1_0000_0000_0000_0000 == ReadUInt32BE(b, off) * 0x1_0000_0000 + ReadUInt32BE(b, off + 4)
  {
    var u := ReadUInt32BE(b, off) * 0x1_0000_0000 + ReadUInt32BE(b, off + 4);
    if u >= 0x8000_0000_0000_0000 then u - 0x1_0000_0000_0000_0000 else u
  }

  /**
    A JavaScript number used as a subarray index of a buffer of length `len`:
    an integral number is itself, NaN is 0, and an infinity lies beyond the
    start or the end.
  */
  function AsIndex(n: JsNum, len: nat): (r: int)
    requires !n.Fraction?
    ensures n.NaN? ==> Clamp(r, len) == 0
    ensures n.Infinity? ==> Clamp(r, len) == (if n.negative then 0 else len)
    ensures n.Integral? ==> r == n.value
  {
    match n
    case Integral(v) => v
    case NaN => 0
    case Infinity(negative) => if negative then -(len as int) - 1 else len + 1
  }

  /**
    parseSkytableData: read one tagged value after another until the buffer
    is empty. A null consumes one byte after its tag; the fixed-width readers
    read at the offsets written and skip the number of bytes written (which
    are not the widths they read); a string is size-prefixed; binary and list
    tags end the parse; any tag above 14 throws.
  */
  function ParseSkytableData(buffer: seq<Byte>): (r: Result<seq<JsValue>, Failure>)
    ensures r.Ok? ==> |r.value| <= |buffer|
    decreases |buffer|, 0
  {
    if |buffer| == 0 then Ok([])
    else
      var t := buffer[0];
      var b := buffer[1..];
      if t == 0 then ParseNext(Null, Subarray(b, 1, |b|))
      else if t <= 11 then ParseFixed(t, b)
      else if t == 12 then Ok([])
      else if t == 13 then ParseString(b)
      else if t == 14 then Ok([])
      else Err(UnknownDataType(t))
  }

  /** The cases of tags 1 to 11: a reader at a fixed offset, then the rest after the bytes skipped. */
  function ParseFixed(t: Byte, b: seq<Byte>): (r: Result<seq<JsValue>, Failure>)
    requires 1 <= t <= 11
    ensures r.Ok? ==> 1 <= |r.value| <= |b|
    decreases |b|, 2
  {
    if t == 1 then (if |b| < 1 then Err(OutOfRange) else ParseNext(Bool(b[0] != 0), b[1..]))
    else if t == 2 then (if |b| < 1 then Err(OutOfRange) else ParseNext(Num(Integral(b[0])), b[1..]))
    else if t == 3 then (if |b| < 3 then Err(OutOfRange) else ParseNext(Num(Integral(ReadUInt16BE(b, 1))), b[2..]))
    else if t == 4 then (if |b| < 8 then Err(OutOfRange) else ParseNext(Num(Integral(ReadUInt32BE(b, 4))), b[5..]))
    else if t == 5 then (if |b| < 16 then Err(OutOfRange) else ParseNext(BigInt(ReadBigInt64BE(b, 8)), b[9..]))
    else if t == 6 then (if |b| < 1 then Err(OutOfRange) else ParseNext(Num(Integral(Int8(b[0]))), b[1..]))
    else if t == 7 then (if |b| < 3 then Err(OutOfRange) else ParseNext(Num(Integral(ReadInt16BE(b, 1))), b[2..]))
    else if t == 8 then (if |b| < 6 then Err(OutOfRange) else ParseNext(Num(Integral(ReadInt16BE(b, 4))), b[5..]))
    else if t == 9 then (if |b| < 16 then Err(OutOfRange) else ParseNext(BigInt(ReadBigInt64BE(b, 8)), b[9..]))
    else if t == 10 then (if |b| < 8 then Err(OutOfRange) else ParseNext(FloatBits(b[4..8]), b[5..]))
    else (if |b| < 12 then Err(OutOfRange) else ParseNext(FloatBits(b[8..12]), b[9..]))
  }

  /**
    The string case: the size line up to the first newline, then that many
    bytes (as far as there are any), then the rest; no newline ends the parse.
  */
  function ParseString(b: seq<Byte>): (r: Result<seq<JsValue>, Failure>)
    ensures r.Ok? ==> |r.value| <= |b| + 1
    decreases |b|, 3
  {
    var k := FirstSplitOffset(b);
    if k == -1 then Ok([]) else ParseSized(b, k, StringEnd(b, k))
  }

  /**
    `sizeOffset + 1 + Number(size)` as a subarray index: a size line that is
    not a number makes the end NaN, that is index 0, so the body is empty and
    the rest is the whole of `b` again.
  */
  function StringEnd(b: seq<Byte>, k: nat): (end: int)
    requires k <= |b|
    ensures var n := NumberOf(Latin1(b[..k]));
      n.Integral? && -(SAFE_LIMIT as int) <= k + 1 + n.value <= SAFE_LIMIT ==> end == k + 1 + n.value
    ensures NumberOf(Latin1(b[..k])).NaN? ==> Clamp(end, |b|) == 0
  {
    AsIndex(AddInt(k + 1, NumberOf(Latin1(b[..k]))), |b|)
  }

  /** The string whose size line ends at the newline at `k` and whose body ends at `end`. */
  function ParseSized(b: seq<Byte>, k: nat, end: int): (r: Result<seq<JsValue>, Failure>)
    ensures r.Ok? ==> 1 <= |r.value| <= |b| + 1 && r.value[0] == Str(Subarray(b, k + 1, end))
    ensures r.Ok? <==> ParseSkytableData(Subarray(b, end, |b|)).Ok?
    ensures r.Ok? ==> r.value[1..] == ParseSkytableData(Subarray(b, end, |b|)).value
    decreases |b|, 2
  {
    ParseNext(Str(Subarray(b, k + 1, end)), Subarray(b, end, |b|))
  }

  /** parseNext: `val` in front of the parse of the rest. */
  function ParseNext(val: JsValue, rest: seq<Byte>): (r: Result<seq<JsValue>, Failure>)
    ensures r.Ok? ==> 1 <= |r.value| <= |rest| + 1 && r.value[0] == val
    ensures r.Ok? <==> ParseSkytableData(rest).Ok?
    decreases |rest|, 1
  {
    match ParseSkytableData(rest)
    case Err(e) => Err(e)
    case Ok(vs) => Ok([val] + vs)
  }

  /**
    Tag 3 reads its value from the second and third bytes after the tag but
    skips only two, so the value's low byte is read again as the next tag.
  */
  lemma UInt16Overlap(x: Byte, hi: Byte, lo: Byte, rest: seq<Byte>)
    ensures ParseSkytableData([3, x, hi, lo] + rest) == ParseNext(Num(Integral(hi * 0x100 + lo)), [lo] + rest)
  {
    var buffer := [3, x, hi, lo] + rest;
    var b := buffer[1..];
    assert b == [x, hi, lo] + rest;
    assert b[2..] == [lo] + rest;
    assert ReadUInt16BE(b, 1) == hi * 0x100 + lo;
  }

  /**
    A string item is its size-prefixed body followed by the parse of what
    comes after it, as long as the end index is a safe integer.
  */
  lemma StringItem(body: seq<Byte>, rest: seq<Byte>)
    requires |DecimalText(|body|)| + 1 + |body| <= SAFE_LIMIT
    ensures var d := DecimalText(|body|);
      ParseSkytableData([13] + AsciiBytes(d) + [NEWLINE] + body + rest) == ParseNext(Str(body), rest)
  {
    var db := AsciiBytes(DecimalText(|body|));
    var b := db + [NEWLINE] + (body + rest);
    assert [13] + db + [NEWLINE] + body + rest == [13] + b;
    StringTag(b);
    StringPayload(body, rest);
  }

  /** Tag 13 hands everything after it to the string case. */
  lemma StringTag(b: seq<Byte>)
    ensures ParseSkytableData([13] + b) == ParseString(b)
  {
    assert ([13] + b)[0] == 13 && ([13] + b)[1..] == b;
  }

  lemma StringPayload(body: seq<Byte>, rest: seq<Byte>)
    requires |DecimalText(|body|)| + 1 + |body| <= SAFE_LIMIT
    ensures ParseString(AsciiBytes(DecimalText(|body|)) + [NEWLINE] + (body + rest)) == ParseNext(Str(body), rest)
  {
    SizeLineValue(|body|);
    SizedString(AsciiBytes(DecimalText(|body|)), body, rest);
  }

  /** A size line without a newline that reads as the size of the body that follows it. */
  lemma SizedString(line: seq<Byte>, body: seq<Byte>, rest: seq<Byte>)
    requires NEWLINE !in line
    requires NumberOf(Latin1(line)) == Integral(|body|)
    requires |line| + 1 + |body| <= SAFE_LIMIT
    ensures ParseString(line + [NEWLINE] + (body + rest)) == ParseNext(Str(body), rest)
  {
    var b := line + [NEWLINE] + (body + rest);
    var end := |line| + 1 + |body|;
    SizeLineAt(line, body + rest, b);
    BodyAt(line, body, rest, b, end);
    StringStart(b, |line|, end);
  }

  /** In `b`, the size line ends at the first newline. */
  lemma SizeLineAt(line: seq<Byte>, tail: seq<Byte>, b: seq<Byte>)
    requires NEWLINE !in line && b == line + [NEWLINE] + tail
    ensures FirstSplitOffset(b) == |line| && b[..|line|] == line
  {
    IndexOfAfter(line, NEWLINE, tail);
  }

  /** In `b`, the body follows the newline and the rest follows the body. */
  lemma BodyAt(line: seq<Byte>, body: seq<Byte>, rest: seq<Byte>, b: seq<Byte>, end: int)
    requires b == line + [NEWLINE] + (body + rest) && end == |line| + 1 + |body|
    ensures Subarray(b, |line| + 1, end) == body && Subarray(b, end, |b|) == rest
  {
    assert Subarray(b, |line| + 1, end) == b[|line| + 1..end] == body;
    assert Subarray(b, end, |b|) == b[end..] == rest;
  }

  /** The string case once the size line is found at `k` and read as ending the body at `end`. */
  lemma StringStart(b: seq<Byte>, k: nat, end: int)
    requires FirstSplitOffset(b) == k && k <= |b|
    requires end == StringEnd(b, k)
    ensures ParseString(b) == ParseSized(b, k, end)
  {
  }

  /**
    A size line that is not a number ends the body at index 0: the body is
    empty and the parse starts over at the size line itself.
  */
  lemma MalformedSizeRestarts(line: seq<Byte>, tail: seq<Byte>)
    requires NEWLINE !in line && NumberOf(Latin1(line)).NaN?
    ensures var b := line + [NEWLINE] + tail;
      ParseString(b) == ParseNext(Str([]), b)
  {
    var b := line + [NEWLINE] + tail;
    SizeLineAt(line, tail, b);
    var end := StringEnd(b, |line|);
    StringStart(b, |line|, end);
    assert Subarray(b, |line| + 1, end) == [];
    assert Subarray(b, end, |b|) == b;
  }

  /** 0x0D 0x00 0x0A 0x00: the size line is NaN, so an empty string comes first, then the size line parses as two nulls. */
  lemma MalformedSizeExample()
    ensures ParseSkytableData([13, 0, 10, 0]) == Ok([Str([]), Null, Null])
  {
    assert NumberOf(Latin1([0])) == NaN;
    MalformedSizeRestarts([0], [0]);
    assert [13, 0, 10, 0][1..] == [0] + [NEWLINE] + [0];
    TwoNulls();
    assert [Str([])] + [Null, Null] == [Str([]), Null, Null];
  }

  /** 0x00 0x0A 0x00 is two nulls: each null skips its tag and one more byte. */
  lemma TwoNulls()
    ensures ParseSkytableData([0, 10, 0]) == Ok([Null, Null])
  {
    var one: seq<Byte> := [0];
    assert ParseSkytableData(one) == Ok([Null]) by {
      assert one[1..] == [] && Subarray([], 1, 0) == [];
      assert ParseSkytableData(one) == ParseNext(Null, []);
      assert ParseSkytableData([]) == Ok([]);
      var none: seq<JsValue> := [];
      assert ParseNext(Null, []) == Ok([Null] + none);
      assert [Null] + none == [Null];
    }
    var three: seq<Byte> := [0, 10, 0];
    assert ParseSkytableData(three) == Ok([Null, Null]) by {
      assert three[1..] == [10, 0];
      assert Subarray([10, 0], 1, 2) == one;
      assert ParseSkytableData(three) == ParseNext(Null, one);
      assert [Null] + [Null] == [Null, Null];
    }
  }

  /** A size line written as decimal text reads back as the size. */
  lemma SizeLineValue(n: nat)
    requires n <= SAFE_LIMIT
    ensures NumberOf(Latin1(AsciiBytes(DecimalText(n)))) == Integral(n)
  {
    var d := DecimalText(n);
    DecimalRoundTrip(n);
    assert IsSignedDecimal(d) && SignedValue(d) == n;
    NumberOfDecimal(d);
    NumberOfIntExact(n);
  }

  /** The bytes of an ASCII digit text. */
  function AsciiBytes(d: string): (r: seq<Byte>)
    requires IsDigits(d)
    ensures |r| == |d| && NEWLINE !in r
    ensures forall i :: 0 <= i < |d| ==> r[i] == d[i] as int
    ensures Latin1(r) == d
  {
    if d == [] then [] else [d[0] as int] + AsciiBytes(d[1..])
  }

  /** An empty payload is no values; a null skips its tag and one more byte; tags above 14 throw. */
  lemma ParseSkytableDataShapes(x: Byte, rest: seq<Byte>)
    ensures ParseSkytableData([]) == Ok([])
    ensures ParseSkytableData([0, x] + rest) == ParseNext(Null, rest)
    ensures x > 14 ==> ParseSkytableData([x] + rest) == Err(UnknownDataType(x))
  {
    var buffer := [0, x] + rest;
    assert buffer[0] == 0 && buffer[1..] == [x] + rest;
    assert Subarray([x] + rest, 1, |rest| + 1) == rest;
  }

  // ---------------------------------------------------------------------
  // Responses
  // ---------------------------------------------------------------------

  const RESPONSE_ERROR: int := 0x10
  const RESPONSE_ROW: int := 0x11
  const RESPONSE_EMPTY: int := 0x12
  const RESPONSE_MULTIROW: int := 0x13

  /** The `data` of a formatted response: parsed values, or (for multirow) the raw bytes. */
  datatype ResponseData = Values(items: seq<JsValue>) | Raw(bytes: seq<Byte>)

  datatype Response = Response(success: bool, data: ResponseData, message: Option<string>)

  /** formatRow: skip the column count line and parse the values after it; no newline gives no values. */
  function FormatRow(buffer: seq<Byte>): (r: Result<seq<JsValue>, Failure>)
    ensures NEWLINE !in buffer ==> r == Ok([])
    ensures r.Ok? && r.value != [] ==> |r.value| < |buffer|
  {
    var offset := FirstSplitOffset(buffer);
    if offset == -1 then Ok([]) else ParseSkytableData(buffer[offset + 1..])
  }

  /** formatResponse: dispatch on the first byte read as a signed 8-bit value. */
  function FormatResponse(res: seq<Byte>): (r: Result<Response, Failure>)
    ensures r.Ok? ==> |res| >= 1 && RESPONSE_ERROR <= Int8(res[0]) <= RESPONSE_MULTIROW
    ensures r.Ok? ==> (r.value.success <==> Int8(res[0]) != RESPONSE_ERROR)
    ensures r.Ok? ==> (r.value.message.Some? <==> !r.value.success)
    ensures r.Ok? ==> (r.value.data.Raw? <==> Int8(res[0]) == RESPONSE_MULTIROW)
  {
    if |res| == 0 then Err(OutOfRange)
    else
      var t := Int8(res[0]);
      if t == RESPONSE_EMPTY then Ok(Response(true, Values([]), None))
      else if t == RESPONSE_ROW then
        match FormatRow(res[1..])
        case Err(e) => Err(e)
        case Ok(vs) => Ok(Response(true, Values(vs), None))
      else if t == RESPONSE_MULTIROW then Ok(Response(true, Raw(res[1..]), None))
      else if t == RESPONSE_ERROR then
        if |res| < 2 then Err(OutOfRange)
        else Ok(Response(false, Values([]), Some("error code " + IntText(Int8(res[1])))))
      else Err(UnknownResponseType)
  }

  /** Every tag decides the outcome: empty and row succeed, error fails with its code, unknown tags throw. */
  lemma FormatResponseCases(t: Byte, rest: seq<Byte>)
    ensures t == 0x12 ==> FormatResponse([t] + rest) == Ok(Response(true, Values([]), None))
    ensures t == 0x11 && FormatRow(rest).Ok? ==> FormatResponse([t] + rest) == Ok(Response(true, Values(FormatRow(rest).value), None))
    ensures t == 0x10 && |rest| >= 1 ==> FormatResponse([t] + rest).Ok? && !FormatResponse([t] + rest).value.success
    ensures t !in {0x10, 0x11, 0x12, 0x13} ==> FormatResponse([t] + rest) == Err(UnknownResponseType)
  {
    assert ([t] + rest)[1..] == rest;
  }

  // ---------------------------------------------------------------------
  // Handshake
  // ---------------------------------------------------------------------

  datatype HandshakeError = HandshakeError(code: string, msg: Option<Byte>)

  /** bufferToHandshakeResult: resolves on code "H00", otherwise rejects with the code and message. */
  function HandshakeResult(buffer: seq<Byte>): (r: Result<(), HandshakeError>)
    ensures r.Ok? <==> |buffer| >= 3 && buffer[..3] == [0x48, 0, 0]
    ensures r.Err? ==> r.error.code != SUCCESS_CODE
  {
    SuccessCodeIff(buffer);
    assert |buffer| >= 3 && buffer[0] == 0x48 && buffer[1] == 0 && buffer[2] == 0 ==> buffer[..3] == [0x48, 0, 0];
    var reply := ReadHandshakeReply(buffer);
    if reply.code == SUCCESS_CODE then Ok(()) else Err(HandshakeError(reply.code, reply.msg))
  }
}
