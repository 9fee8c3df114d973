/**
  What decodeResponse does, stated about DecodeSpec for every state it can
  be called in: when a value is pending and when it completes, the fixed-size
  values, the size-prefixed ones, the list and row loops, the caches, the
  multirow loops and the error tags.
*/
module DecodeProperties {
  import opened Wire
  import opened JsValues
  import opened DecodeSpec

  predicate IsNumericTag(tag: int)
  {
    2 <= tag <= 11
  }

  /** A numeric value with no newline at or after the cursor stays pending, nothing else changes. */
  lemma NumericPending(m: Machine)
    requires IsNumericTag(m.tag)
    requires IndexOf(m.source, NEWLINE, m.cursor) == -1
    ensures Resume(m) == Ok(m.(isPending := true))
  {
  }

  /**
    A numeric value whose first newline at or after the cursor is at k is
    the parse of the bytes from the cursor to k; the cursor moves to k + 1.
  */
  lemma NumericCompletion(m: Machine)
    requires IsNumericTag(m.tag)
    requires IndexOf(m.source, NEWLINE, m.cursor) != -1
    ensures var k := IndexOf(m.source, NEWLINE, m.cursor);
      var v := NumberValue(m.tag, Subarray(m.source, m.cursor, k));
      && (Resume(m).Ok? <==> v.Ok?)
      && (v.Ok? ==> Resume(m).value.value == v.value && Resume(m).value.cursor == k + 1 && !Resume(m).value.isPending)
      && (v.Err? ==> Resume(m) == Err(InvalidBigInt))
  {
    NumericDispatch(m);
    NumericOutcome(m, Resume(m));
  }

  lemma NumericDispatch(m: Machine)
    requires IsNumericTag(m.tag)
    ensures Resume(m) == ParseNumber(m)
  {
    assert Resume(m) == DecodeValue(m);
  }

  /** ParseNumber's outcome once the newline is found, stated of any result equal to it. */
  lemma NumericOutcome(m: Machine, r: Result<Machine, Failure>)
    requires IsNumericTag(m.tag)
    requires IndexOf(m.source, NEWLINE, m.cursor) != -1
    requires r == ParseNumber(m)
    ensures var k := IndexOf(m.source, NEWLINE, m.cursor);
      var v := NumberValue(m.tag, Subarray(m.source, m.cursor, k));
      && (r.Ok? <==> v.Ok?)
      && (v.Ok? ==> r.value.value == v.value && r.value.cursor == k + 1 && !r.value.isPending)
      && (v.Err? ==> r == Err(InvalidBigInt))
  {
  }

  /** The 64-bit tags read the decimal text of any integer back exactly, beyond 2^53 too. */
  lemma BigIntTagsExact(tag: int, i: int)
    requires tag == U64INT || tag == S64INT
    ensures NumberValue(tag, Latin1Bytes(IntText(i))) == Ok(BigInt(i))
  {
  }

  /** The other integer tags read it exactly up to 2^53 in magnitude, and 2^53 + 1 as 2^53. */
  lemma NumberTagsRound(tag: int, i: int)
    requires IsNumericTag(tag) && tag != U64INT && tag != S64INT && tag != FLOAT32 && tag != FLOAT64
    ensures -(SAFE_LIMIT as int) <= i <= SAFE_LIMIT ==> NumberValue(tag, Latin1Bytes(IntText(i))) == Ok(Num(Integral(i)))
    ensures NumberValue(tag, Latin1Bytes(IntText(SAFE_LIMIT + 1))) == Ok(Num(Integral(SAFE_LIMIT)))
  {
    NumberOfDecimal(IntText(i));
    if -(SAFE_LIMIT as int) <= i <= SAFE_LIMIT {
      NumberOfIntExact(i);
    }
    NumberOfDecimal(IntText(SAFE_LIMIT + 1));
    NumberOfIntRounds();
  }

  /**
    NULL and EMPTY complete with null and leave the cursor where it was;
    BOOL is whether the byte at the cursor is non-zero and moves the cursor by
    one, and throws when there is no byte there.
  */
  lemma FixedSizeValues(m: Machine)
    ensures m.tag == NULL || m.tag == EMPTY ==> Resume(m) == Ok(m.(value := Null, isPending := false))
    ensures m.tag == BOOL && 0 <= m.cursor < |m.source| ==>
      Resume(m) == Ok(m.(value := Bool(m.source[m.cursor] != 0), cursor := m.cursor + 1, isPending := false))
    ensures m.tag == BOOL && !(0 <= m.cursor < |m.source|) ==> Resume(m) == Err(OutOfRange)
  {
    if m.tag == NULL {
      assert Resume(m) == DecodeValue(m);
    } else if m.tag == BOOL {
      assert Resume(m) == DecodeValue(m);
    }
  }

  /**
    BINARY is pending until a newline follows the cursor and the newline's
    index `k` plus the size is within the source; then it is the slice from
    the cursor, size digits included, up to that end.
  */
  lemma BinaryPendingIff(m: Machine, k: int)
    requires m.tag == BINARY && k == IndexOf(m.source, NEWLINE, m.cursor)
    ensures k == -1 ==> Resume(m) == Ok(m.(isPending := true))
    ensures k != -1 && SizeOf(m.source, m.cursor, k).Ok? ==>
      var end := k + SizeOf(m.source, m.cursor, k).value;
      && Resume(m).Ok?
      && (Resume(m).value.isPending <==> end > |m.source|)
      && (end <= |m.source| ==> Resume(m).value.value == Bytes(Subarray(m.source, m.cursor, end)) && Resume(m).value.cursor == end)
  {
    BinarySearch(m, k);
    BinaryFound(m, k, Resume(m));
  }

  lemma BinarySearch(m: Machine, k: int)
    requires m.tag == BINARY && k == IndexOf(m.source, NEWLINE, m.cursor)
    ensures Resume(m) == if k == -1 then Ok(m.(isPending := true)) else BinaryAt(m, k)
  {
    assert Resume(m) == DecodeValue(m);
  }

  /** BinaryAt's outcome, stated of any result equal to the search's. */
  lemma BinaryFound(m: Machine, k: int, r: Result<Machine, Failure>)
    requires r == if k == -1 then Ok(m.(isPending := true)) else BinaryAt(m, k)
    ensures k != -1 && SizeOf(m.source, m.cursor, k).Ok? ==>
      var end := k + SizeOf(m.source, m.cursor, k).value;
      && r.Ok?
      && (r.value.isPending <==> end > |m.source|)
      && (end <= |m.source| ==> r.value.value == Bytes(Subarray(m.source, m.cursor, end)) && r.value.cursor == end)
  {
    if k != -1 && SizeOf(m.source, m.cursor, k).Ok? {
      BinaryAtOutcome(m, k);
    }
  }

  /** BINARY once its size line is found at `k`: pending until the size's worth of bytes after the newline are in. */
  lemma BinaryAtOutcome(m: Machine, k: int)
    requires SizeOf(m.source, m.cursor, k).Ok?
    ensures var end := k + SizeOf(m.source, m.cursor, k).value;
      && BinaryAt(m, k).Ok?
      && (BinaryAt(m, k).value.isPending <==> end > |m.source|)
      && (end <= |m.source| ==> BinaryAt(m, k).value.value == Bytes(Subarray(m.source, m.cursor, end)) && BinaryAt(m, k).value.cursor == end)
  {
  }

  /**
    STRING is pending until its end, the newline's index `k` plus 2 plus the
    size, is within the source, so one byte past the body must have arrived;
    the body is then taken from the original buffer at the same indices.
  */
  lemma StringPendingIff(m: Machine, k: int)
    requires m.tag == STRING && k == IndexOf(m.source, NEWLINE, m.cursor)
    ensures k == -1 ==> Resume(m) == Ok(m.(isPending := true))
    ensures k != -1 && SizeOf(m.source, m.cursor, k).Ok? ==>
      var end := k + 2 + SizeOf(m.source, m.cursor, k).value;
      && Resume(m).Ok?
      && (Resume(m).value.isPending <==> end > |m.source|)
      && (end <= |m.source| ==> Resume(m).value.value == Str(Subarray(m.buffer, k + 2, end)) && Resume(m).value.cursor == end)
  {
    StringSearch(m, k);
    StringFound(m, k, Resume(m));
  }

  lemma StringSearch(m: Machine, k: int)
    requires m.tag == STRING && k == IndexOf(m.source, NEWLINE, m.cursor)
    ensures Resume(m) == if k == -1 then Ok(m.(isPending := true)) else StringAt(m, k)
  {
    assert Resume(m) == DecodeValue(m);
  }

  /** StringAt's outcome, stated of any result equal to the search's. */
  lemma StringFound(m: Machine, k: int, r: Result<Machine, Failure>)
    requires r == if k == -1 then Ok(m.(isPending := true)) else StringAt(m, k)
    ensures k != -1 && SizeOf(m.source, m.cursor, k).Ok? ==>
      var end := k + 2 + SizeOf(m.source, m.cursor, k).value;
      && r.Ok?
      && (r.value.isPending <==> end > |m.source|)
      && (end <= |m.source| ==> r.value.value == Str(Subarray(m.buffer, k + 2, end)) && r.value.cursor == end)
  {
    if k != -1 && SizeOf(m.source, m.cursor, k).Ok? {
      StringAtOutcome(m, k);
    }
  }

  /** STRING once its size line is found at `k`: pending until the body and one more byte are in. */
  lemma StringAtOutcome(m: Machine, k: int)
    requires SizeOf(m.source, m.cursor, k).Ok?
    ensures var end := k + 2 + SizeOf(m.source, m.cursor, k).value;
      && StringAt(m, k).Ok?
      && (StringAt(m, k).value.isPending <==> end > |m.source|)
      && (end <= |m.source| ==> StringAt(m, k).value.value == Str(Subarray(m.buffer, k + 2, end)) && StringAt(m, k).value.cursor == end)
  {
  }

  /** A size prefix that is not plain digits throws, for every size-prefixed tag. */
  lemma MalformedSizeThrows(m: Machine)
    requires m.tag == BINARY || m.tag == STRING
    requires IndexOf(m.source, NEWLINE, m.cursor) != -1
    requires SizeOf(m.source, m.cursor, IndexOf(m.source, NEWLINE, m.cursor)).Err?
    ensures Resume(m) == Err(MalformedSize)
  {
    var k := IndexOf(m.source, NEWLINE, m.cursor);
    if m.tag == STRING {
      StringSearch(m, k);
      assert StringAt(m, k) == Err(MalformedSize);
    } else {
      BinarySearch(m, k);
      assert BinaryAt(m, k) == Err(MalformedSize);
    }
  }

  /**
    A list whose size line, found for the first time, reads 0 is the empty
    list and is complete; the cursor ends one byte past the newline.
  */
  lemma EmptyList(m: Machine)
    requires m.tag == LIST && m.listOffset == 0 && m.listSize == 0
    requires IndexOf(m.source, NEWLINE, m.cursor) != -1
    requires SizeOf(m.source, m.cursor, IndexOf(m.source, NEWLINE, m.cursor)) == Ok(0)
    ensures Resume(m).Ok?
    ensures var r := Resume(m).value;
      r.value == Array([]) && !r.isPending && r.cursor == IndexOf(m.source, NEWLINE, m.cursor) + 2
  {
    ListDispatch(m);
    EmptyListAt(m, IndexOf(m.source, NEWLINE, m.cursor), Resume(m));
  }

  lemma ListDispatch(m: Machine)
    requires m.tag == LIST
    ensures Resume(m) == ResumeList(m)
  {
    assert Resume(m) == DecodeValue(m);
  }

  /** The empty list once its size line is found at `k`, for any `r` that is ResumeList(m). */
  lemma EmptyListAt(m: Machine, k: int, r: Result<Machine, Failure>)
    requires m.listOffset == 0 && m.listSize == 0
    requires k == IndexOf(m.source, NEWLINE, m.cursor) && k != -1
    requires SizeOf(m.source, m.cursor, k) == Ok(0)
    requires r == ResumeList(m)
    ensures r.Ok? && r.value.value == Array([]) && !r.value.isPending && r.value.cursor == k + 2
  {
    var m1 := m.(listOffset := k);
    assert ResumeList(m) == ListSized(m1, k);
    var m3 := SetNewArray(m1.(listSize := 0), k + 1 - m.cursor);
    var m4 := m3.(cursor := m3.cursor + 1);
    assert ListSized(m1, k) == FillInto(m4, 0);
    assert Fill(m4.source, m4.cursor, [], 0) == Ok(([], m4.cursor));
  }

  /**
    The element loop keeps what the array already held, appends in order,
    and never takes the array past `size` (nor shortens one already longer).
  */
  lemma {:induction false} FillKeeps(source: seq<Byte>, cursor: int, items: seq<JsValue>, size: nat)
    requires Fill(source, cursor, items, size).Ok?
    ensures var (r, _) := Fill(source, cursor, items, size).value;
      && |items| <= |r|
      && r[..|items|] == items
      && |r| <= (if |items| >= size then |items| else size)
    decreases size - |items|
  {
    if |items| < size {
      var s := Nested(source, cursor).value;
      if !s.isPending {
        FillKeeps(source, cursor + s.cursor, items + [s.value], size);
        var (r, _) := Fill(source, cursor, items, size).value;
        assert r[..|items| + 1][..|items|] == r[..|items|];
      }
    }
  }

  /**
    A row whose column count, read for the first time, is 0 is the empty
    row and complete; the cursor ends just past the count line.
  */
  lemma EmptyRow(m: Machine)
    requires m.tag == ROW && m.rowOffset == 0 && m.rowSize == 0
    requires IndexOf(m.source, NEWLINE, m.cursor) != -1
    requires SizeOf(m.source, m.cursor, IndexOf(m.source, NEWLINE, m.cursor)) == Ok(0)
    ensures Resume(m).Ok?
    ensures var r := Resume(m).value;
      r.value == Array([]) && !r.isPending && r.cursor == IndexOf(m.source, NEWLINE, m.cursor) + 1
  {
    var k := IndexOf(m.source, NEWLINE, m.cursor);
    assert ResumeRow(m) == RowSized(m.(rowOffset := k), k);
  }

  /**
    A row value `v` grown from the columns `before` it started with: either
    still the value `previous` it had, or an array that keeps `before` as a
    prefix and holds no more than `size` columns beyond what it had.
  */
  predicate KeepsColumns(before: seq<JsValue>, previous: JsValue, v: JsValue, size: nat)
  {
    && (v.Array? || v == previous)
    && (v.Array? ==>
          && |before| <= |v.items|
          && v.items[..|before|] == before
          && |v.items| <= if |before| >= size then |before| else size)
  }

  /**
    A row with a column count keeps the columns it already has and never
    holds more than that count. On the first call the value is undefined and
    `value || []` starts the row from no columns; a call that finds no column
    count line leaves the value as it was.
  */
  lemma RowFilling(m: Machine)
    requires m.tag == ROW
    requires Resume(m).Ok? && Resume(m).value.rowSize != 0
    ensures var r := Resume(m).value;
      KeepsColumns(CurrentArray(m).0, m.value, r.value, r.rowSize)
  {
    RowDispatch(m);
    RowFillingOf(m, Resume(m));
  }

  /** RowFilling, stated of any result equal to ResumeRow's. */
  lemma RowFillingOf(m: Machine, r: Result<Machine, Failure>)
    requires m.tag == ROW
    requires r == ResumeRow(m) && r.Ok? && r.value.rowSize != 0
    ensures KeepsColumns(CurrentArray(m).0, m.value, r.value.value, r.value.rowSize)
  {
    var offset := if m.rowOffset != 0 then m.rowOffset else IndexOf(m.source, NEWLINE, m.cursor);
    var m1 := (if m.rowOffset != 0 then m else SplitSearched(m, offset)).(rowOffset := offset);
    if offset == -1 {
      assert r.value.value == m.value;
      KeepsColumnsUnchanged(m, r.value.rowSize);
    } else {
      assert ResumeRow(m) == RowSized(m1, offset);
      assert m1.value == m.value && m1.gen == m.gen;
      RowSizedFilling(m1, offset, r);
    }
  }

  /** A value left as it was keeps its columns. */
  lemma KeepsColumnsUnchanged(m: Machine, size: nat)
    ensures KeepsColumns(CurrentArray(m).0, m.value, m.value, size)
  {
    if m.value.Array? {
      assert m.value.items[..|m.value.items|] == m.value.items;
    }
  }

  /** RowFilling once the column count line ends at `offset`. */
  lemma RowSizedFilling(m: Machine, offset: int, r: Result<Machine, Failure>)
    requires r == RowSized(m, offset) && r.Ok? && r.value.rowSize != 0
    ensures KeepsColumns(CurrentArray(m).0, m.value, r.value.value, r.value.rowSize)
  {
    var sized := if m.rowSize != 0 then Ok(m.rowSize) else SizeOf(m.source, m.cursor, offset);
    assert sized.Ok?;
    var count := sized.value;
    assert count != 0;
    var m2 := m.(rowSize := count, cursor := offset + 1);
    assert r == FillInto(m2, count);
    assert CurrentArray(m2).0 == CurrentArray(m).0;
    FillIntoKeeps(m2, count);
  }

  /** FillInto keeps the items of `value || []` as a prefix and stops at `size` items. */
  lemma FillIntoKeeps(m: Machine, size: nat)
    requires FillInto(m, size).Ok?
    ensures var r := FillInto(m, size).value;
      var before := CurrentArray(m).0;
      && r.value.Array? && r.rowSize == m.rowSize
      && |before| <= |r.value.items|
      && r.value.items[..|before|] == before
      && |r.value.items| <= if |before| >= size then |before| else size
  {
    FillKeeps(m.source, m.cursor, CurrentArray(m).0, size);
  }

  lemma RowDispatch(m: Machine)
    requires m.tag == ROW
    ensures Resume(m) == ResumeRow(m)
  {
  }

  /**
    Once the list size is cached (non-zero) it is used as it is: the size
    line is not read again and the cursor is not moved before the elements.
  */
  lemma ListSizeCached(m: Machine)
    requires m.tag == LIST && m.listOffset != 0 && m.listOffset != -1 && m.listSize != 0
    ensures Resume(m) == FillInto(m, m.listSize)
  {
    assert ResumeList(m) == ListSized(m, m.listOffset);
  }

  /**
    Once the column count is cached it is used as it is, and the cursor goes
    back to just past the count line on every call.
  */
  lemma RowSizeCached(m: Machine)
    requires m.tag == ROW && m.rowOffset != 0 && m.rowOffset != -1 && m.rowSize != 0
    ensures Resume(m) == FillInto(m.(cursor := m.rowOffset + 1), m.rowSize)
  {
    assert ResumeRow(m) == RowSized(m, m.rowOffset);
  }

  /**
    A list whose first search found no newline has -1 cached as its offset,
    which counts as cached: no later call searches again, whatever arrives.
  */
  lemma ListOffsetStuck(m: Machine, chunk: seq<Byte>)
    requires m.tag == LIST && m.listOffset == -1
    ensures Resume(m) == Ok(m)
    ensures NextCall(m, chunk) == Ok(m.(source := m.source + chunk))
  {
    assert Resume(m) == ResumeList(m);
    var m' := m.(source := m.source + chunk);
    assert Resume(m') == ResumeList(m');
  }

  /** A ROW whose column count line was not in the first chunk caches -1 and never completes. */
  lemma RowOffsetStuck(m: Machine, chunk: seq<Byte>)
    requires m.tag == ROW && m.rowOffset == -1
    ensures Resume(m) == Ok(m)
    ensures NextCall(m, chunk) == Ok(m.(source := m.source + chunk))
  {
    assert Resume(m) == ResumeRow(m);
    var m' := m.(source := m.source + chunk);
    assert Resume(m') == ResumeRow(m');
  }

  predicate EmptyRows(v: JsValue)
  {
    v == Undefined || v == Array([])
  }

  /** A multirow value is never anything but undefined or an empty array. */
  lemma MultirowStaysEmpty(m: Machine)
    requires m.tag == MULTIROW && EmptyRows(m.value)
    ensures Resume(m).Ok? ==> EmptyRows(Resume(m).value.value)
  {
    var isHistory := m.rowsOffset != 0;
    var offset := if isHistory then m.rowsOffset else IndexOf(m.source, NEWLINE, m.cursor);
    var m1 := (if isHistory then m else SplitSearched(m, offset)).(rowsOffset := offset);
    RowsDispatch(m);
    if offset != -1 {
      assert ResumeRows(m) == RowsCounted(m1, offset, isHistory);
      RowsCountedEmpty(m1, offset, isHistory);
    }
  }

  lemma RowsDispatch(m: Machine)
    requires m.tag == MULTIROW
    ensures Resume(m) == ResumeRows(m)
  {
  }

  lemma RowsCountedEmpty(m: Machine, offset: int, isHistory: bool)
    requires EmptyRows(m.value)
    ensures RowsCounted(m, offset, isHistory).Ok? ==> EmptyRows(RowsCounted(m, offset, isHistory).value.value)
  {
    var rc := SizeOf(m.source, m.cursor, offset);
    if rc.Ok? && rc.value != 0 {
      var m2 := m.(rowsRowSize := rc.value);
      var m3 := if !isHistory then m2.(cursor := m2.cursor + 1) else m2;
      assert RowsCounted(m, offset, isHistory) == RowsColumnLine(m3, offset != 0, rc.value);
      RowsColumnLineEmpty(m3, offset != 0, rc.value);
    }
  }

  lemma RowsColumnLineEmpty(m: Machine, isColumnHistory: bool, rowCount: nat)
    requires EmptyRows(m.value)
    ensures RowsColumnLine(m, isColumnHistory, rowCount).Ok? ==> EmptyRows(RowsColumnLine(m, isColumnHistory, rowCount).value.value)
  {
    var columnOffset := if m.rowsComOffset != 0 then m.rowsComOffset else IndexOf(m.source, NEWLINE, m.cursor);
    var m4 := (if m.rowsComOffset != 0 then m else SplitSearched(m, columnOffset)).(rowsComOffset := columnOffset);
    assert RowsColumnLine(m, isColumnHistory, rowCount) == RowsColumns(m4, isColumnHistory, columnOffset, rowCount);
    RowsColumnsEmpty(m4, isColumnHistory, columnOffset, rowCount);
  }

  /** The rows array is `value || []` and nothing is ever pushed onto it. */
  lemma RowsColumnsEmpty(m: Machine, isColumnHistory: bool, columnOffset: int, rowCount: nat)
    requires EmptyRows(m.value)
    ensures RowsColumns(m, isColumnHistory, columnOffset, rowCount).Ok? ==> RowsColumns(m, isColumnHistory, columnOffset, rowCount).value.value == Array([])
  {
  }

  /**
    A first call on a multirow response whose row count is one digit other
    than 0 moves the cursor onto the newline after that digit, so the column
    count is read from the empty span before that same newline: it is 0, and
    the response completes as an empty array.
  */
  lemma MultirowOneDigitRowCount(d: Byte, rest: seq<Byte>)
    requires '1' as int <= d <= '9' as int
    ensures var r := FirstCall([0x13, d, NEWLINE] + rest);
      r.Ok? && r.value.value == Array([]) && !r.value.isPending && r.value.cursor == 1
  {
    var buffer := [0x13, d, NEWLINE] + rest;
    var m := Init(buffer);
    assert m.tag == MULTIROW && m.source == [d, NEWLINE] + rest;
    RowsDispatch(m);
    assert m.source[0] == d && m.source[1] == NEWLINE;
    var m1 := m.(rowsOffset := 1);
    assert ResumeRows(m) == RowsCounted(m1, 1, false);
    assert Subarray(m.source, 0, 1) == [d];
    assert Latin1([d]) == [d as char];
    SizeOfDigits(m.source, 0, 1);
    var c: nat := d - '0' as int;
    assert SizeOf(m.source, 0, 1) == Ok(c);
    var m3 := m1.(rowsRowSize := c, cursor := 1);
    assert RowsCounted(m1, 1, false) == RowsColumnLine(m3, true, c);
    var m4 := m3.(rowsComOffset := 1);
    assert RowsColumnLine(m3, true, c) == RowsColumns(m4, true, 1, c);
    assert Subarray(m.source, 1, 1) == [];
    SizeOfDigits(m.source, 1, 1);
    assert SizeOf(m.source, 1, 1) == Ok(0);
  }

  /** An ERROR response never yields a value, nor does a tag the decoder does not know. */
  lemma ErrorsThrow(m: Machine)
    ensures m.tag == ERROR ==> Resume(m).Err?
    ensures m.tag == ERROR && |m.source| >= 2 ==> Resume(m) == Err(ResponseError(Int8(m.source[1])))
    ensures !(0 <= m.tag <= LIST) && !(ERROR <= m.tag <= MULTIROW) ==> Resume(m) == Err(UnknownDataType(m.tag))
  {
  }
}
