/**
  decode.ts as a state machine on values. `decode(buffer)` sets up a
  Machine and runs decodeResponse once; every `next(chunk)` appends the chunk
  to the source and runs decodeResponse again from where the last call left
  off. A nested value (a list element, a row column) is decoded by a fresh
  decoder on the rest of the source, of which only the first call is used.
  Err is the exception a call throws; the machine state after a throw is not
  modelled.
*/
module DecodeSpec {
  import opened Wire
  import opened JsValues

  // The response type tags (RESPONSES_RESULT).
  const NULL: int := 0
  const BOOL: int := 1
  const U64INT: int := 5
  const S64INT: int := 9
  const FLOAT32: int := 10
  const FLOAT64: int := 11
  const BINARY: int := 12
  const STRING: int := 13
  const LIST: int := 14
  const ERROR: int := 0x10
  const ROW: int := 0x11
  const EMPTY: int := 0x12
  const MULTIROW: int := 0x13

  /**
    The closure variables of one decoder: the tag, the original buffer, the
    source (the buffer after its tag, grown by every chunk), the cursor into
    the source, the value, the pending flag, the size and offset caches of
    `state`, and `gen`, the number of array objects the decoder has created so
    far, which tells whether an earlier snapshot still shares the current array.
  */
  datatype Machine = Machine(
    tag: int, buffer: seq<Byte>, source: seq<Byte>, cursor: int, value: JsValue, isPending: bool,
    listOffset: int, listSize: nat,
    rowOffset: int, rowSize: nat,
    rowsOffset: int, rowsRowSize: nat, rowsComOffset: int, rowsComSize: nat,
    gen: nat)

  /** The object decode returns: value, cursor and isPending as they were when it returned. */
  datatype Snapshot = Snapshot(value: JsValue, cursor: int, isPending: bool)

  /** The state decode sets up before its first decodeResponse. */
  function Init(buffer: seq<Byte>): (m: Machine)
    requires |buffer| > 0
    ensures m.tag == Int8(buffer[0]) && m.buffer == buffer && m.source == buffer[1..]
    ensures m.cursor == 0 && m.value == Undefined && m.isPending && m.gen == 0
  {
    Machine(Int8(buffer[0]), buffer, buffer[1..], 0, Undefined, true, 0, 0, 0, 0, 0, 0, 0, 0, 0)
  }

  /** setValue: the value is in and the cursor moves by `offset`. */
  function SetValue(m: Machine, v: JsValue, offset: int): (r: Machine)
    ensures r.value == v && r.cursor == m.cursor + offset && !r.isPending
    ensures r.source == m.source && r.tag == m.tag && r.gen == m.gen
    ensures r.(value := m.value, cursor := m.cursor, isPending := m.isPending) == m
  {
    m.(value := v, cursor := m.cursor + offset, isPending := false)
  }

  /** getNextSplitOffset when it is not found: the decoder is pending again. */
  function SplitSearched(m: Machine, k: int): (r: Machine)
    ensures r.isPending == (k == -1 || m.isPending)
    ensures r.(isPending := m.isPending) == m
  {
    if k == -1 then m.(isPending := true) else m
  }

  /** Number(size) of a size prefix; a prefix that is not plain digits is reported as malformed. */
  function SizeOf(source: seq<Byte>, from: int, to: int): Result<nat, Failure>
  {
    match ScanValue(Latin1(Subarray(source, from, to)), 0, 0)
    case None => Err(MalformedSize)
    case Some(n) => Ok(n)
  }

  /** The size is the value of the prefix when it is all digits, and MalformedSize otherwise. */
  lemma SizeOfDigits(source: seq<Byte>, from: int, to: int)
    ensures var t := Latin1(Subarray(source, from, to));
      SizeOf(source, from, to) == if IsDigits(t) then Ok(DigitsValue(t)) else Err(MalformedSize)
  {
    ScanValueDigits(Latin1(Subarray(source, from, to)));
  }

  /** The parse function parseNumber applies, chosen by the tag: BigInt, Number.parseFloat or Number. */
  function NumberValue(tag: int, text: seq<Byte>): (r: Result<JsValue, Failure>)
  {
    if tag == U64INT || tag == S64INT then
      match BigIntOf(Latin1(text))
      case None => Err(InvalidBigInt)
      case Some(i) => Ok(BigInt(i))
    else if tag == FLOAT32 || tag == FLOAT64 then Ok(FloatText(text))
    else Ok(Num(NumberOf(Latin1(text))))
  }

  /** parseNumber: the text up to the next newline, then past the newline. */
  function ParseNumber(m: Machine): Result<Machine, Failure>
  {
    var k := IndexOf(m.source, NEWLINE, m.cursor);
    if k == -1 then Ok(SplitSearched(m, k))
    else
      match NumberValue(m.tag, Subarray(m.source, m.cursor, k))
      case Err(e) => Err(e)
      case Ok(v) => Ok(SetValue(m, v, k - m.cursor + 1))
  }

  /** BINARY: the slice from the cursor (size digits included) to the newline plus the size. */
  function ResumeBinary(m: Machine): Result<Machine, Failure>
  {
    var k := IndexOf(m.source, NEWLINE, m.cursor);
    if k == -1 then Ok(SplitSearched(m, k)) else BinaryAt(m, k)
  }

  /** BINARY once its size line ends at `k`. */
  function BinaryAt(m: Machine, k: int): Result<Machine, Failure>
  {
    match SizeOf(m.source, m.cursor, k)
    case Err(e) => Err(e)
    case Ok(size) =>
      var end := k + size;
      if end > |m.source| then Ok(m.(isPending := true))
      else Ok(SetValue(m, Bytes(Subarray(m.source, m.cursor, end)), end - m.cursor))
  }

  /**
    STRING: the body is read from the original buffer at newline + 2, but
    its end is checked against the length of the source.
  */
  function ResumeString(m: Machine): Result<Machine, Failure>
  {
    var k := IndexOf(m.source, NEWLINE, m.cursor);
    if k == -1 then Ok(SplitSearched(m, k)) else StringAt(m, k)
  }

  /** STRING once its size line ends at `k`. */
  function StringAt(m: Machine, k: int): Result<Machine, Failure>
  {
    match SizeOf(m.source, m.cursor, k)
    case Err(e) => Err(e)
    case Ok(size) =>
      var end := k + 2 + size;
      if end > |m.source| then Ok(m.(isPending := true))
      else Ok(SetValue(m, Str(Subarray(m.buffer, k + 2, end)), end - m.cursor))
  }

  /** `value || []`: the current array and the number of arrays made so far once it exists. */
  function CurrentArray(m: Machine): (r: (seq<JsValue>, nat))
    ensures m.value.Array? ==> r == (m.value.items, m.gen)
    ensures !m.value.Array? ==> r == ([], m.gen + 1)
  {
    if m.value.Array? then (m.value.items, m.gen) else ([], m.gen + 1)
  }

  /** setValue([], offset) with a new array. */
  function SetNewArray(m: Machine, offset: int): (r: Machine)
    ensures r.value == Array([]) && r.gen == m.gen + 1 && !r.isPending && r.cursor == m.cursor + offset
  {
    SetValue(m.(gen := m.gen + 1), Array([]), offset)
  }

  /** A decodeResponse call that returns never changes the tag, the original buffer or the source. */
  predicate KeepsInput(m: Machine, r: Result<Machine, Failure>)
  {
    r.Ok? ==> r.value.tag == m.tag && r.value.buffer == m.buffer && r.value.source == m.source
  }

  /** decodeResponse. */
  function Resume(m: Machine): (r: Result<Machine, Failure>)
    ensures KeepsInput(m, r)
    decreases |m.source|, 6, 0
  {
    if m.tag == EMPTY then Ok(SetValue(m, Null, 0))
    else if m.tag == ROW then ResumeRow(m)
    else if m.tag == MULTIROW then ResumeRows(m)
    else if m.tag == ERROR then
      var s := Subarray(m.source, 1, 2);
      if |s| == 0 then Err(OutOfRange) else Err(ResponseError(Int8(s[0])))
    else DecodeValue(m)
  }

  /** decodeValue. */
  function DecodeValue(m: Machine): (r: Result<Machine, Failure>)
    ensures KeepsInput(m, r)
    decreases |m.source|, 5, 0
  {
    if m.tag == NULL then Ok(SetValue(m, Null, 0))
    else if m.tag == BOOL then
      if 0 <= m.cursor < |m.source| then Ok(SetValue(m, Bool(m.source[m.cursor] != 0), 1)) else Err(OutOfRange)
    else if 2 <= m.tag <= 11 then ParseNumber(m)
    else if m.tag == BINARY then ResumeBinary(m)
    else if m.tag == STRING then ResumeString(m)
    else if m.tag == LIST then ResumeList(m)
    else Err(UnknownDataType(m.tag))
  }

  /**
    LIST: the size line (offset and size cached, 0 meaning not cached), a
    size of 0 setting an empty list, the cursor moved one byte from where it
    stood unless the size was cached, then elements decoded into the current
    array from its length on.
  */
  function ResumeList(m: Machine): (r: Result<Machine, Failure>)
    ensures KeepsInput(m, r)
    decreases |m.source|, 4, 0
  {
    var sizeOffset := if m.listOffset != 0 then m.listOffset else IndexOf(m.source, NEWLINE, m.cursor);
    var m1 := if m.listOffset != 0 then m else SplitSearched(m, sizeOffset);
    var m1 := m1.(listOffset := sizeOffset);
    if sizeOffset == -1 then Ok(m1) else ListSized(m1, sizeOffset)
  }

  /** LIST once its size line ends at `sizeOffset`. */
  function ListSized(m: Machine, sizeOffset: int): (r: Result<Machine, Failure>)
    ensures KeepsInput(m, r)
    decreases |m.source|, 3, 0
  {
    var isHistory := m.listSize != 0;
    match (if isHistory then Ok(m.listSize) else SizeOf(m.source, m.cursor, sizeOffset))
    case Err(e) => Err(e)
    case Ok(size) =>
      var m2 := m.(listSize := size);
      var m3 := if size == 0 then SetNewArray(m2, sizeOffset + 1 - m2.cursor) else m2;
      var m4 := if !isHistory then m3.(cursor := m3.cursor + 1) else m3;
      FillInto(m4, size)
  }

  /**
    The machine ListSized hands to FillInto once the size is known: the size
    is cached; a size of 0 sets a new empty array and moves the cursor past
    the size line; a first call then moves the cursor one byte.
  */
  function StoreListSize(m: Machine, size: nat, isHistory: bool, sizeOffset: int): Machine
  {
    var m2 := m.(listSize := size);
    var m3 := if size == 0 then SetNewArray(m2, sizeOffset + 1 - m2.cursor) else m2;
    if !isHistory then m3.(cursor := m3.cursor + 1) else m3
  }

  /** `value || []` filled up to `size` elements, then setValue of that array. */
  function FillInto(m: Machine, size: nat): (r: Result<Machine, Failure>)
    ensures KeepsInput(m, r)
    decreases |m.source|, 2, 0
  {
    var (values, g) := CurrentArray(m);
    match Fill(m.source, m.cursor, values, size)
    case Err(e) => Err(e)
    case Ok((items, c)) => Ok(m.(value := Array(items), cursor := c, isPending := false, gen := g))
  }

  /**
    ROW: the column count line (cached like the list's), the cursor reset to
    just after that line on every call, a count of 0 setting an empty row,
    then columns decoded into the current array from its length on.
  */
  function ResumeRow(m: Machine): (r: Result<Machine, Failure>)
    ensures KeepsInput(m, r)
    decreases |m.source|, 4, 0
  {
    var offset := if m.rowOffset != 0 then m.rowOffset else IndexOf(m.source, NEWLINE, m.cursor);
    var m1 := if m.rowOffset != 0 then m else SplitSearched(m, offset);
    var m1 := m1.(rowOffset := offset);
    if offset == -1 then Ok(m1) else RowSized(m1, offset)
  }

  /** ROW once its column count line ends at `offset`. */
  function RowSized(m: Machine, offset: int): (r: Result<Machine, Failure>)
    ensures KeepsInput(m, r)
    decreases |m.source|, 3, 0
  {
    match (if m.rowSize != 0 then Ok(m.rowSize) else SizeOf(m.source, m.cursor, offset))
    case Err(e) => Err(e)
    case Ok(count) =>
      var m2 := m.(rowSize := count, cursor := offset + 1);
      if count == 0 then Ok(SetNewArray(m2, 0)) else FillInto(m2, count)
  }

  /**
    The machine RowSized goes on with once the column count is known: the
    count is cached and the cursor set just past its line; a count of 0 sets a
    new empty array.
  */
  function StoreRowSize(m: Machine, count: nat, offset: int): Machine
  {
    var m2 := m.(rowSize := count, cursor := offset + 1);
    if count == 0 then SetNewArray(m2, 0) else m2
  }

  /**
    MULTIROW: the row count, re-read on every call; the column count line,
    searched for from the cursor; then for every row a column loop that
    writes into a row that was never created.
  */
  function ResumeRows(m: Machine): (r: Result<Machine, Failure>)
    ensures KeepsInput(m, r)
    decreases |m.source|, 4, 0
  {
    var isHistory := m.rowsOffset != 0;
    var offset := if isHistory then m.rowsOffset else IndexOf(m.source, NEWLINE, m.cursor);
    var m1 := if isHistory then m else SplitSearched(m, offset);
    var m1 := m1.(rowsOffset := offset);
    if offset == -1 then Ok(m1) else RowsCounted(m1, offset, isHistory)
  }

  /** MULTIROW once its row count line ends at `offset`. */
  function RowsCounted(m: Machine, offset: int, isHistory: bool): (r: Result<Machine, Failure>)
    ensures KeepsInput(m, r)
    decreases |m.source|, 3, 0
  {
    match SizeOf(m.source, m.cursor, offset)
    case Err(e) => Err(e)
    case Ok(rowCount) =>
      var m2 := m.(rowsRowSize := rowCount);
      if rowCount == 0 then Ok(SetNewArray(m2, offset + 1 - m2.cursor))
      else
        var m3 := if !isHistory then m2.(cursor := m2.cursor + 1) else m2;
        RowsColumnLine(m3, offset != 0, rowCount)
  }

  /**
    The machine RowsCounted goes on with once the row count is known: the
    count is cached; a count of 0 sets a new empty array and moves the cursor
    past the count line, otherwise a first call moves the cursor one byte.
  */
  function StoreRowCount(m: Machine, rowCount: nat, isHistory: bool, offset: int): Machine
  {
    var m2 := m.(rowsRowSize := rowCount);
    if rowCount == 0 then SetNewArray(m2, offset + 1 - m2.cursor)
    else if !isHistory then m2.(cursor := m2.cursor + 1) else m2
  }

  /** MULTIROW's column count line, searched for from the cursor unless cached. */
  function RowsColumnLine(m: Machine, isColumnHistory: bool, rowCount: nat): (r: Result<Machine, Failure>)
    ensures KeepsInput(m, r)
    decreases |m.source|, 2, 2
  {
    var columnOffset := if m.rowsComOffset != 0 then m.rowsComOffset else IndexOf(m.source, NEWLINE, m.cursor);
    var m4 := if m.rowsComOffset != 0 then m else SplitSearched(m, columnOffset);
    RowsColumns(m4.(rowsComOffset := columnOffset), isColumnHistory, columnOffset, rowCount)
  }

  /** MULTIROW once the column count line is taken to end at `columnOffset`. */
  function RowsColumns(m: Machine, isColumnHistory: bool, columnOffset: int, rowCount: nat): (r: Result<Machine, Failure>)
    ensures KeepsInput(m, r)
    decreases |m.source|, 2, 1
  {
    match (if m.rowsComSize != 0 then Ok(m.rowsComSize) else SizeOf(m.source, m.cursor, columnOffset))
    case Err(e) => Err(e)
    case Ok(columnCount) =>
      var m5 := m.(rowsComSize := columnCount);
      var m6 := if !isColumnHistory then m5.(cursor := m5.cursor + 1) else m5;
      var (rows, g) := CurrentArray(m6);
      match RowsFill(m6.source, m6.cursor, |rows|, rowCount, columnCount)
      case Some(e) => Err(e)
      case None => Ok(m6.(value := Array(rows), isPending := false, gen := g))
  }

  /**
    The loop of LIST and ROW: decode one element at the cursor after
    another, appending each and moving the cursor by the nested cursor, until
    there are `size` of them or a nested decoder is pending.
  */
  function Fill(source: seq<Byte>, cursor: int, items: seq<JsValue>, size: nat): Result<(seq<JsValue>, int), Failure>
    decreases |source|, 1, size - |items|
  {
    if |items| >= size then Ok((items, cursor))
    else
      match Nested(source, cursor)
      case Err(e) => Err(e)
      case Ok(s) =>
        if s.isPending then Ok((items, cursor))
        else Fill(source, cursor + s.cursor, items + [s.value], size)
  }

  /**
    The two loops of MULTIROW: None when they end, Some for what they throw.
    No row ever moves the cursor, so every row runs the same column loop as
    the first.
  */
  function RowsFill(source: seq<Byte>, cursor: int, i: nat, rowCount: nat, columnCount: nat): (r: Option<Failure>)
    ensures r == if i >= rowCount then None else ColumnsFill(source, cursor, columnCount)
    decreases |source|, 1, rowCount - i + 1
  {
    if i >= rowCount then None
    else
      match ColumnsFill(source, cursor, columnCount)
      case Some(e) => Some(e)
      case None => RowsFill(source, cursor, i + 1, rowCount, columnCount)
  }

  /** One row's column loop: its first complete column is written into `undefined` and throws. */
  function ColumnsFill(source: seq<Byte>, cursor: int, columnCount: nat): Option<Failure>
    decreases |source|, 1, 0
  {
    if columnCount == 0 then None
    else
      match Nested(source, cursor)
      case Err(e) => Some(e)
      case Ok(s) => if s.isPending then None else Some(PropertyOfUndefined)
  }

  /** decode(source.subarray(cursor)), of which the caller reads value, isPending and cursor. */
  function Nested(source: seq<Byte>, cursor: int): Result<Snapshot, Failure>
    decreases |source|, 0, 0
  {
    var slice := Subarray(source, cursor, |source|);
    if |slice| == 0 then Err(OutOfRange)
    else
      match Resume(Init(slice))
      case Err(e) => Err(e)
      case Ok(m) => Ok(Snapshot(m.value, m.cursor, m.isPending))
  }

  /** A nested decode is the first call of a decoder on the rest of the source. */
  lemma NestedIsFirstCall(source: seq<Byte>, cursor: int)
    ensures Nested(source, cursor) ==
      match FirstCall(Subarray(source, cursor, |source|))
      case Err(e) => Err(e)
      case Ok(m) => Ok(SnapshotOf(m))
  {
  }

  /** decode(buffer): readInt8(0) throws on an empty buffer; otherwise the first decodeResponse. */
  function FirstCall(buffer: seq<Byte>): Result<Machine, Failure>
  {
    if |buffer| == 0 then Err(OutOfRange) else Resume(Init(buffer))
  }

  /** next(chunk): the source grows by the chunk, nothing else is reset, and decodeResponse runs again. */
  function NextCall(m: Machine, chunk: seq<Byte>): Result<Machine, Failure>
  {
    Resume(m.(source := m.source + chunk))
  }

  function SnapshotOf(m: Machine): Snapshot
  {
    Snapshot(m.value, m.cursor, m.isPending)
  }

  /**
    What the object decode returned shows after later calls: its value,
    cursor and isPending are frozen, except that an array value is the same
    array the decoder keeps filling, as long as it has not made a new one.
  */
  function View(snap: Snapshot, snapGen: nat, m: Machine): (r: Snapshot)
    ensures r.cursor == snap.cursor && r.isPending == snap.isPending
    ensures !snap.value.Array? ==> r == snap
    ensures snap.value.Array? && m.gen == snapGen ==> r.value == m.value
    ensures m.gen != snapGen ==> r == snap
  {
    if snap.value.Array? && m.gen == snapGen then snap.(value := m.value) else snap
  }
}
