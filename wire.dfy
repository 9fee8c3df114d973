/**
  Vocabulary shared by every part of the client codec: bytes, the result of
  an operation that may throw, Node's Buffer.subarray, the newline search that
  every size prefix relies on, and the decimal text JavaScript produces when it
  joins a number into a string.
*/
module Wire {

  type Byte = b: int | 0 <= b < 256

  datatype Option<+T> = None | Some(value: T)

  /** Ok carries the value a JavaScript function returns, Err the exception it throws. */
  datatype Result<+T, +E> = Ok(value: T) | Err(error: E)

  /** The exceptions the codec throws. */
  datatype Failure =
    | OutOfRange               // a Buffer read past its end (ERR_OUT_OF_RANGE)
    | UnknownDataType(tag: int) // `Unknown data type: ${tag}`
    | ResponseError(code: int) // `response error code: ${code}`
    | UnknownResponseType      // TypeError("unknown response type")
    | UnsupportedType(typeName: string) // TypeError for a parameter encodeParams cannot encode
    | InvalidBigInt            // SyntaxError from BigInt(text)
    | PropertyOfUndefined      // TypeError from writing into an undefined row
    | MalformedSize            // a size prefix that is not plain ASCII digits

  const NEWLINE: Byte := 10

  /** How Buffer.subarray reads one index: negative counts from the end; the result is clamped to the buffer. */
  function Clamp(i: int, len: nat): (r: nat)
    ensures r <= len
    ensures 0 <= i <= len ==> r == i
    ensures i < 0 && len + i >= 0 ==> r == len + i
  {
    if i < 0 then (if len + i < 0 then 0 else len + i)
    else if i > len then len
    else i
  }

  /** buf.subarray(start, end); an inverted range is empty. */
  function Subarray(buf: seq<Byte>, start: int, end: int): (r: seq<Byte>)
    ensures |r| <= |buf|
    ensures 0 <= start <= end <= |buf| ==> r == buf[start..end]
    ensures 0 <= end <= start ==> r == []
  {
    var s := Clamp(start, |buf|);
    var e := Clamp(end, |buf|);
    if e <= s then [] else buf[s..e]
  }

  /**
    The least index at or after `from` that holds `x`, or -1 when there is
    none (indices below zero hold nothing, as a JavaScript array read there is
    undefined).
  */
  function IndexOf<T(==)>(s: seq<T>, x: T, from: int): (k: int)
    decreases |s| - from
    ensures k == -1 || (0 <= from <= k < |s|) || (from < 0 && 0 <= k < |s|)
    ensures k == -1 <==> forall j :: 0 <= j < |s| && from <= j ==> s[j] != x
    ensures k != -1 ==> s[k] == x && forall j :: 0 <= j < k && from <= j ==> s[j] != x
  {
    if from >= |s| then -1
    else if from >= 0 && s[from] == x then from
    else IndexOf(s, x, from + 1)
  }

  /** A newline found in a prefix is found at the same place once more bytes are appended. */
  lemma {:induction false} IndexOfAppend<T>(s: seq<T>, t: seq<T>, x: T, from: int)
    requires IndexOf(s, x, from) != -1
    ensures IndexOf(s + t, x, from) == IndexOf(s, x, from)
  {
    var k := IndexOf(s, x, from);
    var k' := IndexOf(s + t, x, from);
    assert (s + t)[k] == x;
    assert k' != -1;
  }

  /** In `d + [x] + t` with no `x` inside `d`, the first `x` is the one right after `d`. */
  lemma IndexOfAfter<T>(d: seq<T>, x: T, t: seq<T>)
    requires x !in d
    ensures IndexOf(d + [x] + t, x, 0) == |d|
  {
    var s := d + [x] + t;
    assert s[|d|] == x;
  }

  // ---------------------------------------------------------------------
  // Decimal text
  // ---------------------------------------------------------------------

  predicate IsDigit(c: char) { '0' <= c <= '9' }

  predicate IsDigits(s: string) { forall i :: 0 <= i < |s| ==> IsDigit(s[i]) }

  function DigitChar(d: nat): (c: char)
    requires d < 10
    ensures IsDigit(c)
  {
    ('0' as int + d) as char
  }

  /** The value of a run of ASCII digits; the empty run is 0, as JavaScript's Number("") is. */
  function DigitsValue(s: string): nat
    requires IsDigits(s)
  {
    if s == [] then 0 else DigitsValue(s[..|s| - 1]) * 10 + (s[|s| - 1] as int - '0' as int)
  }

  /** String(n) for a non-negative integer: its shortest decimal text. */
  function DecimalText(n: nat): (r: string)
    ensures IsDigits(r) && |r| >= 1
    ensures '\n' !in r
  {
    if n < 10 then [DigitChar(n)] else DecimalText(n / 10) + [DigitChar(n % 10)]
  }

  /** The digits of `t` from index `i` on, read left to right onto `acc`; None at the first non-digit. */
  function ScanValue(t: string, i: nat, acc: nat): Option<nat>
    decreases |t| - i
  {
    if i >= |t| then Some(acc)
    else if !IsDigit(t[i]) then None
    else ScanValue(t, i + 1, acc * 10 + (t[i] as int - '0' as int))
  }

  /** Reading left to right gives the value DigitsValue defines from the right, and fails exactly on a non-digit. */
  lemma ScanValueDigits(t: string)
    ensures ScanValue(t, 0, 0) == if IsDigits(t) then Some(DigitsValue(t)) else None
  {
    assert t[0..0] == [] && t[0..] == t;
    ScanValueFrom(t, 0, 0, 0);
  }

  lemma {:induction false} ScanValueFrom(t: string, start: nat, i: nat, acc: nat)
    requires start <= i <= |t|
    requires IsDigits(t[start..i]) && acc == DigitsValue(t[start..i])
    ensures ScanValue(t, i, acc) == if IsDigits(t[start..]) then Some(DigitsValue(t[start..])) else None
    decreases |t| - i
  {
    if i == |t| {
      assert t[start..i] == t[start..];
    } else if !IsDigit(t[i]) {
      assert t[start..][i - start] == t[i];
    } else {
      var next := t[start..i + 1];
      assert next[..|next| - 1] == t[start..i];
      assert IsDigits(next);
      ScanValueFrom(t, start, i + 1, acc * 10 + (t[i] as int - '0' as int));
    }
  }

  /** Decimal text reads back as the number it was written from. */
  lemma {:induction false} DecimalRoundTrip(n: nat)
    ensures DigitsValue(DecimalText(n)) == n
  {
    if n >= 10 {
      var t := DecimalText(n);
      assert t[..|t| - 1] == DecimalText(n / 10);
      DecimalRoundTrip(n / 10);
    }
  }

  /** Decimal text has no leading zero, so "0" is the text of 0 alone and "00" of nothing. */
  lemma {:induction false} DecimalLeadingDigit(n: nat)
    ensures (DecimalText(n)[0] == '0') <==> n == 0
  {
    if n >= 10 {
      DecimalLeadingDigit(n / 10);
    }
  }

  lemma DecimalIsZero(n: nat)
    ensures DecimalText(n) == "0" <==> n == 0
    ensures DecimalText(n) != "00"
  {
    DecimalLeadingDigit(n);
  }

  /** Text of a run that is either plain digits (possibly empty) or a minus sign followed by digits. */
  predicate IsSignedDecimal(s: string)
  {
    IsDigits(s) || (|s| >= 2 && s[0] == '-' && IsDigits(s[1..]))
  }

  function SignedValue(s: string): int
    requires IsSignedDecimal(s)
  {
    if IsDigits(s) then DigitsValue(s) else -(DigitsValue(s[1..]) as int)
  }

  /** String(i) for an integer: its decimal text with a leading '-' when negative. */
  function IntText(i: int): (r: string)
    ensures IsSignedDecimal(r) && SignedValue(r) == i
    ensures '\n' !in r && IsLatin1(r)
  {
    DecimalRoundTrip(if i < 0 then -i else i);
    if i < 0 then
      var r := "-" + DecimalText(-i);
      assert r[1..] == DecimalText(-i);
      r
    else DecimalText(i)
  }

  /** Bytes read one char per byte; for ASCII bytes this is also their UTF-8 decoding. */
  function Latin1(b: seq<Byte>): (r: string)
    ensures |r| == |b|
    ensures forall i :: 0 <= i < |b| ==> r[i] as int == b[i]
  {
    if b == [] then [] else [b[0] as char] + Latin1(b[1..])
  }

  predicate IsLatin1(s: string) { forall i :: 0 <= i < |s| ==> s[i] as int < 256 }

  /** The one-byte-per-char encoding that Latin1 reads back. */
  function Latin1Bytes(s: string): (r: seq<Byte>)
    requires IsLatin1(s)
    ensures Latin1(r) == s
  {
    if s == [] then [] else [s[0] as int] + Latin1Bytes(s[1..])
  }

  /** buffer.readInt8: a byte read as a two's-complement signed value. */
  function Int8(b: Byte): (r: int)
    ensures -128 <= r < 128
    ensures r % 256 == b
  {
    if b >= 128 then b - 256 else b
  }
}
