/**
  skytable.ts: the request frame the `query` function of createSkytable
  writes to the socket, 'S', the envelope length, a newline, then the query
  length, a newline, the query text and the encoded parameters, as UTF-8.
*/
module Skytable {
  import opened Wire
  import opened JsValues
  import opened Protocol

  /** `${query}${encodeParams(params)}` joined behind `[query.length, '\n']`: everything after the first newline. */
  function RequestData(query: string, encoded: string): (r: string)
    ensures |r| == |DecimalText(|query|)| + 1 + |query| + |encoded|
  {
    DecimalText(|query|) + "\n" + query + encoded
  }

  /** The text of the request; Err is the TypeError encodeParams throws. */
  function RequestFrame(query: string, params: seq<Param>): (r: Result<string, Failure>)
    ensures r.Ok? <==> EncodeParams(params).Ok?
    ensures r.Ok? ==> |r.value| > |query| + |EncodeParams(params).value| && r.value[0] == 'S'
  {
    match EncodeParams(params)
    case Err(e) => Err(e)
    case Ok(encoded) =>
      var data := RequestData(query, encoded);
      Ok("S" + DecimalText(|data|) + "\n" + data)
  }

  /** The buffer Buffer.from(text, 'utf-8') hands to the connection. */
  function RequestBuffer(query: string, params: seq<Param>): (r: Result<seq<Byte>, Failure>)
    ensures r.Ok? <==> EncodeParams(params).Ok?
    ensures r.Ok? ==> |r.value| >= |RequestFrame(query, params).value| > 0 && r.value[0] == 'S' as int
  {
    match RequestFrame(query, params)
    case Err(e) => Err(e)
    case Ok(text) =>
      Utf8Length(text);
      assert Utf8(text) == Utf8Char(text[0]) + Utf8(text[1..]);
      Ok(Utf8(text))
  }

  // ---------------------------------------------------------------------
  // UTF-8
  // ---------------------------------------------------------------------

  predicate IsAscii(s: string)
  {
    forall i :: 0 <= i < |s| ==> s[i] as int < 0x80
  }

  /** The UTF-8 bytes of one character: one for ASCII, two, three or four beyond. */
  function Utf8Char(c: char): (r: seq<Byte>)
    ensures 1 <= |r| <= 4
    ensures |r| == 1 <==> c as int < 0x80
    ensures c as int < 0x80 ==> r == [c as int]
  {
    var v := c as int;
    if v < 0x80 then [v]
    else if v < 0x800 then [0xC0 + v / 0x40, 0x80 + v % 0x40]
    else if v < 0x1_0000 then [0xE0 + v / 0x1000, 0x80 + (v / 0x40) % 0x40, 0x80 + v % 0x40]
    else [0xF0 + v / 0x4_0000, 0x80 + (v / 0x1000) % 0x40, 0x80 + (v / 0x40) % 0x40, 0x80 + v % 0x40]
  }

  function Utf8(s: string): seq<Byte>
  {
    if s == [] then [] else Utf8Char(s[0]) + Utf8(s[1..])
  }

  lemma {:induction false} Utf8Append(a: string, b: string)
    ensures Utf8(a + b) == Utf8(a) + Utf8(b)
  {
    if a != [] {
      assert (a + b)[0] == a[0];
      assert (a + b)[1..] == a[1..] + b;
      assert Utf8(a + b) == Utf8Char(a[0]) + Utf8(a[1..] + b);
      Utf8Append(a[1..], b);
    } else {
      assert a + b == b;
    }
  }

  /** A text takes at least one byte per character, and exactly one per character precisely when it is ASCII. */
  lemma {:induction false} Utf8Length(s: string)
    ensures |Utf8(s)| >= |s|
    ensures |Utf8(s)| == |s| <==> IsAscii(s)
  {
    if s != [] {
      Utf8Length(s[1..]);
      if IsAscii(s) {
        assert IsAscii(s[1..]) by {
          forall i | 0 <= i < |s[1..]| ensures s[1..][i] as int < 0x80 {
            assert s[1..][i] == s[i + 1];
          }
        }
      }
      if s[0] as int < 0x80 && IsAscii(s[1..]) {
        forall i | 0 <= i < |s| ensures s[i] as int < 0x80 {
          if i > 0 {
            assert s[i] == s[1..][i - 1];
          }
        }
      }
    }
  }

  /** ASCII text is its own UTF-8 encoding, one byte per character. */
  lemma {:induction false} Utf8Ascii(s: string)
    requires IsAscii(s)
    ensures Utf8(s) == AsciiText(s)
  {
    if s != [] {
      assert IsAscii(s[1..]) by {
        forall i | 0 <= i < |s[1..]| ensures s[1..][i] as int < 0x80 {
          assert s[1..][i] == s[i + 1];
        }
      }
      Utf8Ascii(s[1..]);
    }
  }

  /** The bytes of an ASCII text, character by character. */
  function AsciiText(s: string): (r: seq<Byte>)
    requires IsAscii(s)
    ensures |r| == |s|
    ensures forall i :: 0 <= i < |s| ==> r[i] == s[i] as int
  {
    if s == [] then []
    else
      assert IsAscii(s[1..]) by {
        forall i | 0 <= i < |s[1..]| ensures s[1..][i] as int < 0x80 {
          assert s[1..][i] == s[i + 1];
        }
      }
      [s[0] as int] + AsciiText(s[1..])
  }

  // ---------------------------------------------------------------------
  // The frame read back
  // ---------------------------------------------------------------------

  /**
    How a server reads a frame: 'S', the envelope length up to the first
    newline, which must count exactly the rest; inside it the query length up
    to the next newline, then that many characters of query, then the
    parameters.
  */
  function ParseFrame(f: string): Option<(string, string)>
  {
    if |f| == 0 || f[0] != 'S' then None
    else
      match ReadSized(f[1..])
      case None => None
      case Some(data) =>
        var i := IndexOf(data, '\n', 0);
        if i == -1 || !IsDigits(data[..i]) then None
        else
          var n := DigitsValue(data[..i]);
          if i + 1 + n > |data| then None
          else Some((data[i + 1..i + 1 + n], data[i + 1 + n..]))
  }

  /**
    The frame is 'S', the length of everything after its first newline, a
    newline, the query length (the query alone, never the parameters), a
    newline, the query and the encoded parameters: a server reads back the
    query and the parameters exactly.
  */
  lemma FrameRoundTrip(query: string, params: seq<Param>)
    requires EncodeParams(params).Ok?
    ensures RequestFrame(query, params).Ok?
    ensures ParseFrame(RequestFrame(query, params).value) == Some((query, EncodeParams(params).value))
  {
    FrameParse(query, EncodeParams(params).value);
  }

  /** The frame text around given encoded parameters reads back as the query and those parameters. */
  lemma FrameParse(query: string, encoded: string)
    ensures var data := RequestData(query, encoded);
      ParseFrame("S" + DecimalText(|data|) + "\n" + data) == Some((query, encoded))
  {
    var data := RequestData(query, encoded);
    var f := "S" + DecimalText(|data|) + "\n" + data;
    assert f[1..] == DecimalText(|data|) + "\n" + data;
    SizedRoundTrip(data);
    assert ReadSized(f[1..]) == Some(data);
    QueryField(query, encoded);
  }

  /** A text behind its decimal length and a newline reads back whole. */
  lemma SizedRoundTrip(data: string)
    ensures ReadSized(DecimalText(|data|) + "\n" + data) == Some(data)
  {
    DecimalRoundTrip(|data|);
    ReadSizedLine(DecimalText(|data|), data);
  }

  /** Inside the envelope, the query length field delimits the query from the parameters. */
  lemma QueryField(query: string, encoded: string)
    ensures var data := RequestData(query, encoded);
      var i := IndexOf(data, '\n', 0);
      && 0 <= i && IsDigits(data[..i]) && DigitsValue(data[..i]) == |query|
      && i + 1 + |query| <= |data|
      && data[i + 1..i + 1 + |query|] == query
      && data[i + 1 + |query|..] == encoded
  {
    var data := RequestData(query, encoded);
    var d := DecimalText(|query|);
    assert data == d + ['\n'] + (query + encoded);
    IndexOfAfter(d, '\n', query + encoded);
    assert data[..|d|] == d;
    DecimalRoundTrip(|query|);
    assert data[|d| + 1..|d| + 1 + |query|] == query;
    assert data[|d| + 1 + |query|..] == encoded;
  }

  /** With no parameters the frame ends with the query text. */
  lemma NoParamsEndsWithQuery(query: string)
    ensures RequestFrame(query, []).Ok?
    ensures var f := RequestFrame(query, []).value;
      |f| >= |query| && f[|f| - |query|..] == query
  {
    assert EncodeParams([]) == Ok("");
    var data := RequestData(query, "");
    var f := RequestFrame(query, []).value;
    assert f == "S" + DecimalText(|data|) + "\n" + DecimalText(|query|) + "\n" + query;
  }

  /**
    For ASCII query text and parameters the envelope length is the number of
    bytes after the first newline of the buffer sent.
  */
  lemma AsciiByteCount(query: string, params: seq<Param>)
    requires EncodeParams(params).Ok?
    requires IsAscii(query) && IsAscii(EncodeParams(params).value)
    ensures var data := RequestData(query, EncodeParams(params).value);
      var head := "S" + DecimalText(|data|) + "\n";
      && RequestBuffer(query, params) == Ok(Utf8(head) + Utf8(data))
      && |Utf8(data)| == |data|
  {
    var encoded := EncodeParams(params).value;
    var data := RequestData(query, encoded);
    var head := "S" + DecimalText(|data|) + "\n";
    assert RequestFrame(query, params) == Ok(head + data);
    Utf8Append(head, data);
    var d := DecimalText(|query|) + "\n";
    assert IsAscii(d);
    assert data == d + query + encoded;
    Utf8Append(d + query, encoded);
    Utf8Append(d, query);
    Utf8Length(d);
    Utf8Length(query);
    Utf8Length(encoded);
  }

  /**
    The envelope length counts characters, not bytes: once the query text
    holds a character beyond ASCII, the bytes after the first newline
    outnumber it.
  */
  lemma NonAsciiUndercount(query: string, params: seq<Param>)
    requires EncodeParams(params).Ok?
    requires !IsAscii(query)
    ensures var data := RequestData(query, EncodeParams(params).value);
      var head := "S" + DecimalText(|data|) + "\n";
      && RequestBuffer(query, params) == Ok(Utf8(head) + Utf8(data))
      && |Utf8(data)| > |data|
  {
    var encoded := EncodeParams(params).value;
    var data := RequestData(query, encoded);
    var head := "S" + DecimalText(|data|) + "\n";
    assert RequestFrame(query, params) == Ok(head + data);
    Utf8Append(head, data);
    var d := DecimalText(|query|) + "\n";
    assert data == d + query + encoded;
    Utf8Append(d + query, encoded);
    Utf8Append(d, query);
    Utf8Length(d);
    Utf8Length(query);
    Utf8Length(encoded);
  }

  /**
    The query "SELECT * FROM t WHERE id = ?" with the number 1 is sent as
    S34, newline, 28, newline, the query, then 0x03 '1' newline: a number is
    tagged 0x03 and the envelope counts 34 characters. The bigint 1 is tagged
    0x02 with the same length.
  */
  lemma ExampleFrame()
    ensures var q := "SELECT * FROM t WHERE id = ?";
      && RequestFrame(q, [PNumber(Integral(1))]) == Ok("S34\n28\n" + q + [3 as char] + "1\n")
      && RequestFrame(q, [PBigInt(1)]) == Ok("S34\n28\n" + q + [2 as char] + "1\n")
  {
    var q := "SELECT * FROM t WHERE id = ?";
    assert DigitChar(1) == '1' && DigitChar(2) == '2' && DigitChar(3) == '3'
      && DigitChar(4) == '4' && DigitChar(8) == '8';
    assert DecimalText(1) == "1";
    assert DecimalText(28) == DecimalText(2) + [DigitChar(8)] == "28";
    assert DecimalText(34) == DecimalText(3) + [DigitChar(4)] == "34";
    assert IntText(1) == "1";
    NumberOfIntExact(1);
    SingleParam(PNumber(Integral(1)));
    SingleParam(PBigInt(1));
    assert NumberText(Integral(1)) == "1";
    assert [TAG_SINT] + "1" + "\n" == [3 as char] + "1\n";
    assert [TAG_UINT] + "1" + "\n" == [2 as char] + "1\n";
    assert EncodeParam(PNumber(Integral(1))) == Ok([3 as char] + "1\n");
    assert EncodeParam(PBigInt(1)) == Ok([2 as char] + "1\n");
    assert |q| == 28;
    ExampleFrameWith(q, [3 as char] + "1\n", PNumber(Integral(1)));
    ExampleFrameWith(q, [2 as char] + "1\n", PBigInt(1));
    assert "S34\n28\n" + q + ([3 as char] + "1\n") == "S34\n28\n" + q + [3 as char] + "1\n";
    assert "S34\n28\n" + q + ([2 as char] + "1\n") == "S34\n28\n" + q + [2 as char] + "1\n";
  }

  lemma ExampleFrameWith(q: string, enc: string, p: Param)
    requires |q| == 28 && |enc| == 3
    requires EncodeParams([p]) == Ok(enc)
    requires DecimalText(28) == "28" && DecimalText(34) == "34"
    ensures RequestFrame(q, [p]) == Ok("S34\n28\n" + q + enc)
  {
    var data := RequestData(q, enc);
    assert data == "28\n" + q + enc;
    assert RequestFrame(q, [p]) == Ok("S" + "34" + "\n" + data);
    assert "S" + "34" + "\n" + data == "S34\n" + data;
    assert "S34\n" + ("28\n" + q + enc) == "S34\n28\n" + q + enc;
  }

  /** A single parameter is encoded as that parameter alone. */
  lemma SingleParam(p: Param)
    ensures EncodeParams([p]) == EncodeParam(p)
  {
    assert [p][1..] == [];
    if EncodeParam(p).Ok? {
      assert EncodeParam(p).value + "" == EncodeParam(p).value;
    }
  }
}
