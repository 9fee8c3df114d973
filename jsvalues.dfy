/**
  The JavaScript values the codec produces and consumes. A `number` is a
  double: integers beyond 2^53 are rounded when they become one, which is
  what Number(bigint) and Number(text) do. Floating-point arithmetic itself is
  not modelled: a non-integral number is carried as its decimal text.
*/
module JsValues {
  import opened Wire

  /** A JavaScript `number`. */
  datatype JsNum =
    | Integral(value: int)      // a finite double with an integral value
    | Fraction(text: string)    // a finite non-integral double, kept as the text String() gives it
    | NaN
    | Infinity(negative: bool)

  /** A JavaScript value as the decoder and the parameter parser hand it back. */
  datatype JsValue =
    | Undefined
    | Null
    | Bool(b: bool)
    | Num(n: JsNum)
    | BigInt(i: int)
    | FloatText(text: seq<Byte>)  // Number.parseFloat of this text, not evaluated
    | FloatBits(bits: seq<Byte>)  // buffer.readFloatBE of these four bytes, not evaluated
    | Str(utf8: seq<Byte>)        // buffer.toString('utf-8') of these bytes, not decoded
    | Bytes(data: seq<Byte>)      // a Buffer
    | Array(items: seq<JsValue>)

  /** Number.MAX_SAFE_INTEGER + 1, that is 2^53: every integer up to this magnitude is a double. */
  const SAFE_LIMIT: nat := 0x20_0000_0000_0000

  /** 2^1024: the least magnitude a double cannot hold. */
  const OVERFLOW_LIMIT: nat := 0x1_0000_0000_0000_0000_0000_0000_0000_0000_0000_0000_0000_0000_0000_0000_0000_0000_0000_0000_0000_0000_0000_0000_0000_0000_0000_0000_0000_0000_0000_0000_0000_0000_0000_0000_0000_0000_0000_0000_0000_0000_0000_0000_0000_0000_0000_0000_0000_0000_0000_0000_0000_0000_0000_0000_0000_0000_0000_0000_0000_0000_0000_0000_0000_0000

  /**
    The magnitude a non-negative integer has once it is a double: itself up
    to 2^53, beyond that the nearest multiple of the unit in the last place,
    ties to even.
  */
  function RoundMagnitude(m: nat): nat
  {
    if m <= SAFE_LIMIT then m else RoundBits(m / 2, m % 2 == 1, false, 1)
  }

  /**
    Rounds q * 2^e to 53 significant bits, where `guard` is the first bit
    shifted out below q and `sticky` says whether any later one was set:
    q is shifted right until it fits, then rounded up when the dropped part
    is more than half a unit, or exactly half and q is odd.
  */
  function RoundBits(q: nat, guard: bool, sticky: bool, e: nat): nat
    decreases q
  {
    if q < SAFE_LIMIT then
      (if guard && (sticky || q % 2 == 1) then ShiftLeft(q + 1, e) else ShiftLeft(q, e))
    else RoundBits(q / 2, q % 2 == 1, sticky || guard, e + 1)
  }

  /** m * 2^e */
  function ShiftLeft(m: nat, e: nat): nat
  {
    if e == 0 then m else 2 * ShiftLeft(m, e - 1)
  }

  /**
    Number(x) for an integer x: the nearest double, ties to even; a magnitude
    that rounds to 2^1024 or beyond (more than 1024 binary digits) becomes Infinity.
  */
  function NumberOfInt(x: int): (r: JsNum)
    ensures r.Integral? || r.Infinity?
    ensures r.Integral? && x >= 0 ==> r.value >= 0
    ensures r.Infinity? ==> (r.negative <==> x < 0)
  {
    var rounded := RoundMagnitude(if x < 0 then -x else x);
    if rounded >= OVERFLOW_LIMIT then Infinity(x < 0)
    else Integral(if x < 0 then -(rounded as int) else rounded)
  }

  /** Integers up to 2^53 in magnitude become numbers exactly. */
  lemma NumberOfIntExact(x: int)
    requires -(SAFE_LIMIT as int) <= x <= SAFE_LIMIT
    ensures NumberOfInt(x) == Integral(x)
  {
  }

  /** 2^53 + 1 is the first integer that does not survive: it becomes 2^53. */
  lemma NumberOfIntRounds()
    ensures NumberOfInt(SAFE_LIMIT + 1) == Integral(SAFE_LIMIT)
  {
    var h := SAFE_LIMIT / 2;
    assert (SAFE_LIMIT + 1) / 2 == h && (SAFE_LIMIT + 1) % 2 == 1;
    assert RoundBits(h, true, false, 1) == ShiftLeft(h, 1) == SAFE_LIMIT;
  }

  /** The exponent RoundBits ends with: one more for every bit it shifts out of q. */
  function RoundExp(q: nat, e: nat): nat
    decreases q
  {
    if q < SAFE_LIMIT then e else RoundExp(q / 2, e + 1)
  }

  /** Shifting distributes over a sum. */
  lemma {:induction false} ShiftLeftAdd(a: nat, b: nat, e: nat)
    ensures ShiftLeft(a + b, e) == ShiftLeft(a, e) + ShiftLeft(b, e)
  {
    if e > 0 {
      ShiftLeftAdd(a, b, e - 1);
    }
  }

  /** Shifting keeps the order of its operands. */
  lemma ShiftLeftMono(a: nat, b: nat, e: nat)
    requires a <= b
    ensures ShiftLeft(a, e) <= ShiftLeft(b, e)
  {
    ShiftLeftAdd(a, b - a, e);
  }

  /** Halving q and shifting one place further loses exactly its last bit. */
  lemma ShiftLeftHalve(q: nat, e: nat)
    ensures ShiftLeft(q, e) == ShiftLeft(q / 2, e + 1) + (if q % 2 == 1 then ShiftLeft(1, e) else 0)
  {
    ShiftLeftAdd(q / 2, q / 2, e);
    ShiftLeftAdd(q / 2 + q / 2, q % 2, e);
    if q % 2 == 0 {
      ShiftLeftAdd(0, 0, e);
    }
  }

  /**
    m is q * 2^e plus a remainder below 2^e that guard and sticky describe:
    guard says it is at least half of 2^e, sticky that it is neither 0 nor
    exactly half.
  */
  predicate Splits(m: nat, q: nat, rem: nat, guard: bool, sticky: bool, e: nat)
  {
    && m == ShiftLeft(q, e) + rem && rem < ShiftLeft(1, e)
    && (!guard && !sticky ==> rem == 0)
    && (guard && !sticky ==> 2 * rem == ShiftLeft(1, e))
    && (guard && sticky ==> 2 * rem > ShiftLeft(1, e))
    && (!guard && sticky ==> 0 < 2 * rem < ShiftLeft(1, e))
  }

  /** What RoundBits promises about the m it rounds, once its exponent is `exp`. */
  predicate RoundsNear(m: nat, r: nat, exp: nat)
  {
    var unit := ShiftLeft(1, exp);
    && ShiftLeft(SAFE_LIMIT / 2, exp) <= m < ShiftLeft(SAFE_LIMIT, exp)
    && 2 * r <= 2 * m + unit && 2 * m <= 2 * r + unit
    && (exists q': nat ::
          q' <= SAFE_LIMIT && r == ShiftLeft(q', exp) && (2 * r == 2 * m + unit || 2 * m == 2 * r + unit ==> q' % 2 == 0))
  }

  /**
    RoundBits(q, guard, sticky, e) rounds m to a double when Splits holds:
    the result is q' * 2^E with q' at most 2^53, where m lies in
    [2^52 * 2^E, 2^53 * 2^E); it is within half of 2^E of m, and an exact tie
    goes to an even q'.
  */
  lemma {:induction false} RoundBitsNear(m: nat, q: nat, rem: nat, guard: bool, sticky: bool, e: nat)
    requires q >= SAFE_LIMIT / 2 && Splits(m, q, rem, guard, sticky, e)
    ensures RoundsNear(m, RoundBits(q, guard, sticky, e), RoundExp(q, e))
    decreases q
  {
    if q < SAFE_LIMIT {
      RoundBitsLast(m, q, rem, guard, sticky, e);
    } else {
      ShiftLeftHalve(q, e);
      var rem' := (if q % 2 == 1 then ShiftLeft(1, e) else 0) + rem;
      assert Splits(m, q / 2, rem', q % 2 == 1, sticky || guard, e + 1);
      RoundBitsNear(m, q / 2, rem', q % 2 == 1, sticky || guard, e + 1);
    }
  }

  /** The last step of RoundBits: q fits in 53 bits and is rounded up or kept. */
  lemma RoundBitsLast(m: nat, q: nat, rem: nat, guard: bool, sticky: bool, e: nat)
    requires SAFE_LIMIT / 2 <= q < SAFE_LIMIT && Splits(m, q, rem, guard, sticky, e)
    ensures RoundsNear(m, RoundBits(q, guard, sticky, e), e)
  {
    ShiftLeftMono(SAFE_LIMIT / 2, q, e);
    ShiftLeftAdd(q, 1, e);
    ShiftLeftMono(q + 1, SAFE_LIMIT, e);
    var q' := if guard && (sticky || q % 2 == 1) then q + 1 else q;
    assert RoundBits(q, guard, sticky, e) == ShiftLeft(q', e);
  }

  /**
    Beyond 2^53 an integer becomes the nearest double: a multiple q' * 2^E of
    the spacing 2^E of doubles at its magnitude, with q' at most 2^53, no
    further than half the spacing from x, and with an even q' on a tie.
  */
  lemma NumberOfIntNearest(x: int)
    requires x > SAFE_LIMIT || x < -(SAFE_LIMIT as int)
    requires NumberOfInt(x).Integral?
    ensures var m := if x < 0 then -x else x;
      var v := NumberOfInt(x).value;
      var a := if v < 0 then -v else v;
      (v < 0 <==> x < 0) && RoundsNear(m, a, RoundExp(m / 2, 1))
  {
    var m: nat := if x < 0 then -x else x;
    assert ShiftLeft(m / 2, 1) == 2 * (m / 2);
    assert Splits(m, m / 2, m % 2, m % 2 == 1, false, 1);
    RoundBitsNear(m, m / 2, m % 2, m % 2 == 1, false, 1);
    assert RoundMagnitude(m) == RoundBits(m / 2, m % 2 == 1, false, 1);
    var exp := RoundExp(m / 2, 1);
    ShiftLeftMono(2, SAFE_LIMIT / 2, exp);
    ShiftLeftAdd(1, 1, exp);
    assert RoundMagnitude(m) > 0;
  }

  /**
    a + n for an integer a and a number n: the exact sum rounded to a double,
    while NaN and the infinities absorb a. A fraction, which is carried only as
    its text, is not added here.
  */
  function AddInt(a: int, n: JsNum): (r: JsNum)
    requires !n.Fraction?
    ensures !r.Fraction?
    ensures r.NaN? <==> n.NaN?
    ensures n.Infinity? ==> r == n
    ensures n.Integral? && -(SAFE_LIMIT as int) <= a + n.value <= SAFE_LIMIT ==> r == Integral(a + n.value)
  {
    match n
    case Integral(v) => NumberOfInt(a + v)
    case NaN => NaN
    case Infinity(negative) => n
  }

  /** Whether a number is finite and not an integer (isFloat in the source). */
  predicate IsFloat(n: JsNum)
  {
    n.Fraction?
  }

  /** String(n): the text a number contributes to Array.join. */
  function NumberText(n: JsNum): string
  {
    match n
    case Integral(v) => IntText(v)
    case Fraction(t) => t
    case NaN => "NaN"
    case Infinity(negative) => if negative then "-Infinity" else "Infinity"
  }

  /** Number(text) for text that is an optionally signed run of digits (empty is 0); any other text is NaN. */
  function NumberOf(text: string): (r: JsNum)
    ensures !r.Fraction?
  {
    if |text| >= 2 && text[0] == '-' then ScanDigits(text, 1, 0, true) else ScanDigits(text, 0, 0, false)
  }

  /**
    Reads the digits of `text` from index `i` on, `acc` being the value of
    the digits before it; the first non-digit makes the whole text NaN.
  */
  function ScanDigits(text: string, i: nat, acc: nat, negative: bool): (r: JsNum)
    ensures !r.Fraction?
    decreases |text| - i
  {
    if i >= |text| then NumberOfInt(if negative then -(acc as int) else acc)
    else if !IsDigit(text[i]) then NaN
    else ScanDigits(text, i + 1, acc * 10 + (text[i] as int - '0' as int), negative)
  }

  /** Number(text) is the rounded value of a signed decimal text, and NaN for any other text. */
  lemma NumberOfDecimal(text: string)
    ensures IsSignedDecimal(text) ==> NumberOf(text) == NumberOfInt(SignedValue(text))
    ensures !IsSignedDecimal(text) ==> NumberOf(text) == NaN
  {
    if |text| >= 2 && text[0] == '-' {
      assert text[1..1] == [];
      ScanDigitsValue(text, 1, 1, 0, true);
      assert !IsDigits(text) by { assert !IsDigit(text[0]); }
    } else {
      assert text[0..0] == [] && text[0..] == text;
      ScanDigitsValue(text, 0, 0, 0, false);
      if |text| >= 2 {
        assert !(text[0] == '-');
      }
    }
  }

  /** Scanning from `i`, with `acc` the value of the digits from `start` to `i`, reads the digits from `start` on. */
  lemma {:induction false} ScanDigitsValue(text: string, start: nat, i: nat, acc: nat, negative: bool)
    requires start <= i <= |text|
    requires IsDigits(text[start..i]) && acc == DigitsValue(text[start..i])
    ensures IsDigits(text[start..]) ==>
      var v := DigitsValue(text[start..]);
      ScanDigits(text, i, acc, negative) == NumberOfInt(if negative then -(v as int) else v)
    ensures !IsDigits(text[start..]) ==> ScanDigits(text, i, acc, negative) == NaN
    decreases |text| - i
  {
    if i == |text| {
      assert text[start..i] == text[start..];
    } else if !IsDigit(text[i]) {
      assert text[start..][i - start] == text[i];
    } else {
      var next := text[start..i + 1];
      assert next[..|next| - 1] == text[start..i];
      assert IsDigits(next);
      ScanDigitsValue(text, start, i + 1, acc * 10 + (text[i] as int - '0' as int), negative);
    }
  }

  /** BigInt(text): exact; None where BigInt throws a SyntaxError. */
  function BigIntOf(text: string): (r: Option<int>)
    ensures r.Some? <==> IsSignedDecimal(text)
    ensures r.Some? ==> r.value == SignedValue(text)
  {
    if IsSignedDecimal(text) then Some(SignedValue(text)) else None
  }

  /** BigInt reads the text String writes for any integer back exactly, at every magnitude. */
  lemma BigIntOfIntText(i: int)
    ensures BigIntOf(IntText(i)) == Some(i)
  {
  }

  /**
    BigInt and Number accept the same texts, and where they do, Number is
    BigInt's exact value rounded to a double.
  */
  lemma BigIntAgreesWithNumber(text: string)
    ensures BigIntOf(text).Some? <==> !NumberOf(text).NaN?
    ensures BigIntOf(text).Some? ==> NumberOf(text) == NumberOfInt(BigIntOf(text).value)
  {
    NumberOfDecimal(text);
  }

  /** Leading zeros are read, empty text is 0, and a lone sign or a decimal point throws. */
  lemma BigIntOfExamples()
    ensures BigIntOf("-0012") == Some(-12)
    ensures BigIntOf("") == Some(0)
    ensures BigIntOf("-") == None
    ensures BigIntOf("1.5") == None
  {
    assert !IsDigits("-0012") by { assert !IsDigit("-0012"[0]); }
    assert "-0012"[1..] == "0012";
    assert "0012"[..3] == "001" && "001"[..2] == "00" && "00"[..1] == "0" && "0"[..0] == "";
    assert DigitsValue("0012") == 12;
    assert !IsDigit("1.5"[1]);
  }
}
