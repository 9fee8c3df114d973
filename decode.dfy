/**
  decode.ts as the source runs it: one decoder object whose fields are the
  closure variables, updated in place by decodeResponse and its helpers, and
  by next(). Every method is proved to do what the matching function of
  DecodeSpec says.
*/
module Decode {
  import opened Wire
  import opened JsValues
  import Spec = DecodeSpec

  /** Ok with the state a call leaves, or Err with what it threw. */
  function Outcome(err: Option<Failure>, m: Spec.Machine): Result<Spec.Machine, Failure>
  {
    if err.None? then Ok(m) else Err(err.value)
  }

  class Decoder {
    const tag: int
    const buffer: seq<Byte>
    var source: seq<Byte>
    var cursor: int
    var value: JsValue
    var isPending: bool
    var listOffset: int
    var listSize: nat
    var rowOffset: int
    var rowSize: nat
    var rowsOffset: int
    var rowsRowSize: nat
    var rowsComOffset: int
    var rowsComSize: nat
    var gen: nat
    // The object decode returned, and how many arrays there were when it did.
    var result: Spec.Snapshot
    var resultGen: nat

    function State(): Spec.Machine
      reads this
    {
      Spec.Machine(tag, buffer, source, cursor, value, isPending,
        listOffset, listSize, rowOffset, rowSize,
        rowsOffset, rowsRowSize, rowsComOffset, rowsComSize, gen)
    }

    /** What a caller holding the returned object reads from it now. */
    function Observed(): Spec.Snapshot
      reads this
    {
      Spec.View(result, resultGen, State())
    }

    /** The closure variables decode sets up: the tag read as a signed byte, the source after it. */
    constructor (buffer: seq<Byte>)
      requires |buffer| > 0
      ensures State() == Spec.Init(buffer)
    {
      tag := Int8(buffer[0]);
      this.buffer := buffer;
      source := buffer[1..];
      cursor := 0;
      value := Undefined;
      isPending := true;
      listOffset, listSize := 0, 0;
      rowOffset, rowSize := 0, 0;
      rowsOffset, rowsRowSize, rowsComOffset, rowsComSize := 0, 0, 0, 0;
      gen := 0;
      result := Spec.Snapshot(Undefined, 0, true);
      resultGen := 0;
    }

    /**
      decode(buffer): reading the tag of an empty buffer throws; otherwise one
      decodeResponse, and the object returned holds the value, cursor and
      pending flag it left.
    */
    static method Decode(buffer: seq<Byte>) returns (r: Result<Decoder, Failure>)
      decreases |buffer|, 0, 0
      ensures r.Ok? ==> fresh(r.value)
      ensures Spec.FirstCall(buffer) == (if r.Ok? then Ok(r.value.State()) else Err(r.error))
      ensures r.Ok? ==> r.value.result == Spec.SnapshotOf(r.value.State()) && r.value.resultGen == r.value.gen
    {
      if |buffer| == 0 {
        return Err(OutOfRange);
      }
      var d := new Decoder(buffer);
      var err := d.DecodeResponse();
      if err.Some? {
        return Err(err.value);
      }
      d.result := Spec.Snapshot(d.value, d.cursor, d.isPending);
      d.resultGen := d.gen;
      return Ok(d);
    }

    /** next(chunk): the chunk is appended to the source and decodeResponse runs again; the object returned is this one, unchanged. */
    method Next(chunk: seq<Byte>) returns (err: Option<Failure>)
      modifies this
      ensures Spec.NextCall(old(State()), chunk) == Outcome(err, State())
      ensures result == old(result) && resultGen == old(resultGen)
    {
      source := source + chunk;
      err := DecodeResponse();
    }

    /** setValue. */
    method SetValue(v: JsValue, offset: int)
      modifies this
      ensures State() == Spec.SetValue(old(State()), v, offset)
      ensures result == old(result) && resultGen == old(resultGen)
    {
      value := v;
      cursor := cursor + offset;
      isPending := false;
    }

    /** getNextSplitOffset: the first newline at or after the cursor; pending when there is none. */
    method GetNextSplitOffset() returns (k: int)
      modifies this
      ensures k == IndexOf(source, NEWLINE, cursor)
      ensures State() == Spec.SplitSearched(old(State()), k)
      ensures result == old(result) && resultGen == old(resultGen)
    {
      var i := cursor;
      while i < |source|
        invariant i >= cursor
        invariant IndexOf(source, NEWLINE, i) == IndexOf(source, NEWLINE, cursor)
        decreases |source| - i
      {
        if 0 <= i && source[i] == NEWLINE {
          return i;
        }
        i := i + 1;
      }
      isPending := true;
      return -1;
    }

    /** decodeResponse. */
    method DecodeResponse() returns (err: Option<Failure>)
      modifies this
      decreases |source|, 6, 0
      ensures Spec.Resume(old(State())) == Outcome(err, State())
      ensures result == old(result) && resultGen == old(resultGen)
    {
      if tag == Spec.EMPTY {
        SetValue(Null, 0);
        return None;
      } else if tag == Spec.ROW {
        err := ResumeRow();
      } else if tag == Spec.MULTIROW {
        err := ResumeRows();
      } else if tag == Spec.ERROR {
        var s := Subarray(source, 1, 2);
        if |s| == 0 {
          return Some(OutOfRange);
        }
        return Some(ResponseError(Int8(s[0])));
      } else {
        err := DecodeValue();
      }
    }

    /** decodeValue. */
    method DecodeValue() returns (err: Option<Failure>)
      modifies this
      decreases |source|, 5, 0
      ensures Spec.DecodeValue(old(State())) == Outcome(err, State())
      ensures result == old(result) && resultGen == old(resultGen)
    {
      if tag == Spec.NULL {
        SetValue(Null, 0);
        return None;
      } else if tag == Spec.BOOL {
        if !(0 <= cursor < |source|) {
          return Some(OutOfRange);
        }
        SetValue(Bool(source[cursor] != 0), 1);
        return None;
      } else if 2 <= tag <= 11 {
        err := ParseNumber();
      } else if tag == Spec.BINARY {
        err := ResumeBinary();
      } else if tag == Spec.STRING {
        err := ResumeString();
      } else if tag == Spec.LIST {
        err := ResumeList();
      } else {
        return Some(UnknownDataType(tag));
      }
    }

    /** parseNumber. */
    method ParseNumber() returns (err: Option<Failure>)
      modifies this
      ensures Spec.ParseNumber(old(State())) == Outcome(err, State())
      ensures result == old(result) && resultGen == old(resultGen)
    {
      var offset := GetNextSplitOffset();
      if offset == -1 {
        return None;
      }
      var val := Spec.NumberValue(tag, Subarray(source, cursor, offset));
      if val.Err? {
        return Some(val.error);
      }
      SetValue(val.value, offset - cursor + 1);
      return None;
    }

    /** The BINARY case of decodeValue. */
    method ResumeBinary() returns (err: Option<Failure>)
      modifies this
      ensures Spec.ResumeBinary(old(State())) == Outcome(err, State())
      ensures result == old(result) && resultGen == old(resultGen)
    {
      var sizeOffset := GetNextSplitOffset();
      if sizeOffset == -1 {
        return None;
      }
      err := BinaryAt(sizeOffset);
    }

    /** The BINARY case once its size line ends at `sizeOffset`. */
    method BinaryAt(sizeOffset: int) returns (err: Option<Failure>)
      modifies this
      ensures Spec.BinaryAt(old(State()), sizeOffset) == Outcome(err, State())
      ensures result == old(result) && resultGen == old(resultGen)
    {
      ghost var m := State();
      var size := Spec.SizeOf(source, cursor, sizeOffset);
      if size.Err? {
        return Some(size.error);
      }
      var start, end := cursor, sizeOffset + size.value;
      if end > |source| {
        isPending := true;
        assert State() == m.(isPending := true);
        return None;
      }
      SetValue(Bytes(Subarray(source, start, end)), end - cursor);
      return None;
    }

    /** The STRING case of decodeValue. */
    method ResumeString() returns (err: Option<Failure>)
      modifies this
      ensures Spec.ResumeString(old(State())) == Outcome(err, State())
      ensures result == old(result) && resultGen == old(resultGen)
    {
      var sizeOffset := GetNextSplitOffset();
      if sizeOffset == -1 {
        return None;
      }
      err := StringAt(sizeOffset);
    }

    /** The STRING case once its size line ends at `sizeOffset`. */
    method StringAt(sizeOffset: int) returns (err: Option<Failure>)
      modifies this
      ensures Spec.StringAt(old(State()), sizeOffset) == Outcome(err, State())
      ensures result == old(result) && resultGen == old(resultGen)
    {
      ghost var m := State();
      var size := Spec.SizeOf(source, cursor, sizeOffset);
      if size.Err? {
        return Some(size.error);
      }
      var start, end := sizeOffset + 2, sizeOffset + 2 + size.value;
      if end > |source| {
        isPending := true;
        assert State() == m.(isPending := true);
        return None;
      }
      SetValue(Str(Subarray(buffer, start, end)), end - cursor);
      return None;
    }

    /** `value || []`: the array the loop fills, counting a new one when there was none. */
    method CurrentArray() returns (items: seq<JsValue>)
      modifies this
      ensures (items, gen) == Spec.CurrentArray(old(State()))
      ensures State() == old(State()).(gen := gen)
      ensures result == old(result) && resultGen == old(resultGen)
    {
      if value.Array? {
        items := value.items;
      } else {
        items := [];
        gen := gen + 1;
      }
    }

    /**
      The element loop of LIST and ROW: from the current length up to
      `size`, a nested decoder at the cursor, stopping when it is pending.
    */
    method Fill(items: seq<JsValue>, size: nat) returns (err: Option<Failure>, filled: seq<JsValue>)
      modifies this
      decreases |source|, 1, 0
      ensures var f := Spec.Fill(old(source), old(cursor), items, size);
        if err.None? then f == Ok((filled, cursor)) else f == Err(err.value)
      ensures State() == old(State()).(cursor := cursor)
      ensures result == old(result) && resultGen == old(resultGen)
    {
      filled := items;
      var i := |filled|;
      while i < size
        invariant i == |filled|
        invariant State() == old(State()).(cursor := cursor)
        invariant result == old(result) && resultGen == old(resultGen)
        invariant Spec.Fill(source, cursor, filled, size) == Spec.Fill(old(source), old(cursor), items, size)
        decreases size - i
      {
        var inner := Decode(Subarray(source, cursor, |source|));
        if inner.Err? {
          return Some(inner.error), filled;
        }
        var snap := inner.value.result;
        if snap.isPending {
          break;
        }
        filled := filled + [snap.value];
        cursor := cursor + snap.cursor;
        i := i + 1;
      }
      return None, filled;
    }

    /** The LIST case of decodeValue: its size line. */
    method ResumeList() returns (err: Option<Failure>)
      modifies this
      decreases |source|, 4, 0
      ensures Spec.ResumeList(old(State())) == Outcome(err, State())
      ensures result == old(result) && resultGen == old(resultGen)
    {
      var sizeOffset;
      if listOffset != 0 {
        sizeOffset := listOffset;
      } else {
        sizeOffset := GetNextSplitOffset();
      }
      listOffset := sizeOffset;
      if sizeOffset == -1 {
        return None;
      }
      err := ListSized(sizeOffset);
    }

    /** The LIST case once its size line ends at `sizeOffset`: the size, the cursor, the elements. */
    method ListSized(sizeOffset: int) returns (err: Option<Failure>)
      modifies this
      decreases |source|, 3, 0
      ensures Spec.ListSized(old(State()), sizeOffset) == Outcome(err, State())
      ensures result == old(result) && resultGen == old(resultGen)
    {
      var isHistory := listSize != 0;
      var size: nat;
      if listSize != 0 {
        size := listSize;
      } else {
        var parsed := Spec.SizeOf(source, cursor, sizeOffset);
        if parsed.Err? {
          return Some(parsed.error);
        }
        size := parsed.value;
      }
      StoreListSize(size, isHistory, sizeOffset);
      err := FillInto(size);
    }

    /** Caches the list size, sets the empty array for a size of 0, and steps the cursor on a first call. */
    method StoreListSize(size: nat, isHistory: bool, sizeOffset: int)
      modifies this
      ensures State() == Spec.StoreListSize(old(State()), size, isHistory, sizeOffset)
      ensures result == old(result) && resultGen == old(resultGen)
    {
      listSize := size;
      if size == 0 {
        gen := gen + 1;
        SetValue(Array([]), sizeOffset + 1 - cursor);
      }
      if !isHistory {
        cursor := cursor + 1;
      }
    }

    /** `value || []`, its loop up to `size` elements, then setValue of the array. */
    method FillInto(size: nat) returns (err: Option<Failure>)
      modifies this
      decreases |source|, 2, 0
      ensures Spec.FillInto(old(State()), size) == Outcome(err, State())
      ensures result == old(result) && resultGen == old(resultGen)
    {
      var values := CurrentArray();
      var filled;
      err, filled := Fill(values, size);
      if err.Some? {
        return;
      }
      SetValue(Array(filled), 0);
    }

    /** The ROW case of decodeResponse: its column count line. */
    method ResumeRow() returns (err: Option<Failure>)
      modifies this
      decreases |source|, 4, 0
      ensures Spec.ResumeRow(old(State())) == Outcome(err, State())
      ensures result == old(result) && resultGen == old(resultGen)
    {
      var offset;
      if rowOffset != 0 {
        offset := rowOffset;
      } else {
        offset := GetNextSplitOffset();
      }
      rowOffset := offset;
      if offset == -1 {
        return None;
      }
      err := RowSized(offset);
    }

    /** The ROW case once its column count line ends at `offset`. */
    method RowSized(offset: int) returns (err: Option<Failure>)
      modifies this
      decreases |source|, 3, 0
      ensures Spec.RowSized(old(State()), offset) == Outcome(err, State())
      ensures result == old(result) && resultGen == old(resultGen)
    {
      var columnCount: nat;
      if rowSize != 0 {
        columnCount := rowSize;
      } else {
        var parsed := Spec.SizeOf(source, cursor, offset);
        if parsed.Err? {
          return Some(parsed.error);
        }
        columnCount := parsed.value;
      }
      StoreRowSize(columnCount, offset);
      if columnCount == 0 {
        return None;
      }
      err := FillInto(columnCount);
    }

    /** Caches the column count, sets the cursor past its line, and sets the empty array for a count of 0. */
    method StoreRowSize(count: nat, offset: int)
      modifies this
      ensures State() == Spec.StoreRowSize(old(State()), count, offset)
      ensures result == old(result) && resultGen == old(resultGen)
    {
      rowSize := count;
      cursor := offset + 1;
      if count == 0 {
        gen := gen + 1;
        SetValue(Array([]), 0);
      }
    }

    /** The MULTIROW case of decodeResponse: its row count line. */
    method ResumeRows() returns (err: Option<Failure>)
      modifies this
      decreases |source|, 4, 0
      ensures Spec.ResumeRows(old(State())) == Outcome(err, State())
      ensures result == old(result) && resultGen == old(resultGen)
    {
      var isHistory := rowsOffset != 0;
      var offset;
      if rowsOffset != 0 {
        offset := rowsOffset;
      } else {
        offset := GetNextSplitOffset();
      }
      rowsOffset := offset;
      if offset == -1 {
        return None;
      }
      err := RowsCounted(offset, isHistory);
    }

    /** The MULTIROW case once its row count line ends at `offset`: the count, then the column count line. */
    method RowsCounted(offset: int, isHistory: bool) returns (err: Option<Failure>)
      modifies this
      decreases |source|, 3, 0
      ensures Spec.RowsCounted(old(State()), offset, isHistory) == Outcome(err, State())
      ensures result == old(result) && resultGen == old(resultGen)
    {
      var parsed := Spec.SizeOf(source, cursor, offset);
      if parsed.Err? {
        return Some(parsed.error);
      }
      var rowCount := parsed.value;
      StoreRowCount(rowCount, isHistory, offset);
      if rowCount == 0 {
        return None;
      }
      var isColumnHistory := offset != 0;
      err := RowsColumnLine(isColumnHistory, rowCount);
    }

    /** Caches the row count; sets the empty array for a count of 0, and otherwise steps the cursor on a first call. */
    method StoreRowCount(rowCount: nat, isHistory: bool, offset: int)
      modifies this
      ensures State() == Spec.StoreRowCount(old(State()), rowCount, isHistory, offset)
      ensures result == old(result) && resultGen == old(resultGen)
    {
      rowsRowSize := rowCount;
      if rowCount == 0 {
        gen := gen + 1;
        SetValue(Array([]), offset + 1 - cursor);
        return;
      }
      if !isHistory {
        cursor := cursor + 1;
      }
    }

    /** MULTIROW's column count line. */
    method RowsColumnLine(isColumnHistory: bool, rowCount: nat) returns (err: Option<Failure>)
      modifies this
      decreases |source|, 2, 2
      ensures Spec.RowsColumnLine(old(State()), isColumnHistory, rowCount) == Outcome(err, State())
      ensures result == old(result) && resultGen == old(resultGen)
    {
      var columnOffset;
      if rowsComOffset != 0 {
        columnOffset := rowsComOffset;
      } else {
        columnOffset := GetNextSplitOffset();
      }
      rowsComOffset := columnOffset;
      // The source tests `offset` here, which is never -1 at this point.
      err := RowsColumns(isColumnHistory, columnOffset, rowCount);
    }

    /** The MULTIROW case once the column count line is taken to end at `columnOffset`. */
    method RowsColumns(isColumnHistory: bool, columnOffset: int, rowCount: nat) returns (err: Option<Failure>)
      modifies this
      decreases |source|, 2, 1
      ensures Spec.RowsColumns(old(State()), isColumnHistory, columnOffset, rowCount) == Outcome(err, State())
      ensures result == old(result) && resultGen == old(resultGen)
    {
      var columnCount: nat;
      if rowsComSize != 0 {
        columnCount := rowsComSize;
      } else {
        var parsed := Spec.SizeOf(source, cursor, columnOffset);
        if parsed.Err? {
          return Some(parsed.error);
        }
        columnCount := parsed.value;
      }
      rowsComSize := columnCount;
      if !isColumnHistory {
        cursor := cursor + 1;
      }
      var rows := CurrentArray();
      err := FillRows(|rows|, rowCount, columnCount);
      if err.Some? {
        return;
      }
      SetValue(Array(rows), 0);
    }

    /**
      The two loops of MULTIROW. `rows[i]` is undefined for every i the outer
      loop visits, so a row's loop ends at its first pending column and throws
      at its first complete one.
    */
    method FillRows(start: nat, rowCount: nat, columnCount: nat) returns (err: Option<Failure>)
      decreases |source|, 1, 0
      ensures err == Spec.RowsFill(source, cursor, start, rowCount, columnCount)
    {
      Spec.NestedIsFirstCall(source, cursor);
      var i := start;
      while i < rowCount
        invariant start <= i
        invariant Spec.RowsFill(source, cursor, i, rowCount, columnCount) == Spec.RowsFill(source, cursor, start, rowCount, columnCount)
        decreases rowCount - i
      {
        // for (j = 0; j < columnCount; j++) never reaches a second iteration:
        // its body either breaks or throws.
        if 0 < columnCount {
          var inner := Decode(Subarray(source, cursor, |source|));
          if inner.Err? {
            return Some(inner.error);
          }
          if !inner.value.result.isPending {
            // row[j] = innerValue, with row undefined
            return Some(PropertyOfUndefined);
          }
        }
        i := i + 1;
      }
      return None;
    }
  }
}
