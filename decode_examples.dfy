/**
  Lemmas that follow whole responses through the decoder model, including
  the quirks of decode.ts that only show on concrete bytes.
*/
module DecodeExamples {
  import opened Wire
  import opened JsValues
  import opened DecodeSpec
  import opened DecodeProperties

  /** The row 0x11 "2\n" 0x0D "4\ntest" 0x00: a string column and a null column. */
  const ROW_EXAMPLE: seq<Byte> := [0x11, 50, 10, 0x0D, 52, 10, 116, 101, 115, 116, 0x00]

  /**
    The row decodes to ["test", null] in one call. The cursor stops at 9
    of the 10 bytes after the tag: the string column moves it by its whole
    item, tag byte included, but the null column moves it by nothing, not
    even its tag byte.
  */
  lemma RowExample()
    ensures FirstCall(ROW_EXAMPLE).Ok?
    ensures var m := FirstCall(ROW_EXAMPLE).value;
      m.value == Array([Str([116, 101, 115, 116]), Null]) && m.cursor == 9 && !m.isPending
  {
    var src := ROW_EXAMPLE[1..];
    var m0 := Init(ROW_EXAMPLE);
    assert m0.tag == ROW;
    assert IndexOf(src, NEWLINE, 0) == 1;
    DigitSize(src);
    var m1 := m0.(rowOffset := 1);
    assert ResumeRow(m0) == RowSized(m1, 1);
    var m2 := m1.(rowSize := 2, cursor := 2);
    assert RowSized(m1, 1) == FillInto(m2, 2);
    StringColumn(src);
    NullAt(src, 9);
    assert Fill(src, 9, [Str([116, 101, 115, 116]), Null], 2) == Ok(([Str([116, 101, 115, 116]), Null], 9));
    assert [Str([116, 101, 115, 116])] + [Null] == [Str([116, 101, 115, 116]), Null];
    assert Fill(src, 9, [Str([116, 101, 115, 116])], 2) == Ok(([Str([116, 101, 115, 116]), Null], 9));
    assert [] + [Str([116, 101, 115, 116])] == [Str([116, 101, 115, 116])];
    assert Fill(src, 2, [], 2) == Fill(src, 2 + 7, [Str([116, 101, 115, 116])], 2);
    assert Fill(src, 2, [], 2) == Ok(([Str([116, 101, 115, 116]), Null], 9));
  }

  lemma StringColumn(src: seq<Byte>)
    requires src == ROW_EXAMPLE[1..]
    ensures Nested(src, 2) == Ok(Snapshot(Str([116, 101, 115, 116]), 7, false))
  {
    var slice := Subarray(src, 2, |src|);
    assert slice == [0x0D, 52, 10, 116, 101, 115, 116, 0x00];
    var n := Init(slice);
    assert n.tag == STRING;
    assert n.source == [52, 10, 116, 101, 115, 116, 0x00];
    assert IndexOf(n.source, NEWLINE, 0) == 1;
    DigitSize(n.source);
    StringPendingIff(n, 1);
    assert Subarray(slice, 3, 7) == [116, 101, 115, 116];
  }

  /** The list "1\n" followed by a null: the size line is read, but no element is. */
  const LIST_EXAMPLE: seq<Byte> := [14, 49, 10, 0]

  /**
    A one-element list whose element is null comes back complete and empty:
    after the size line the cursor moves one byte, not past the line, so the
    element decode starts on the newline, reads it as a FLOAT32 tag with no
    newline after it, and is pending, which ends the loop.
  */
  lemma ListExample()
    ensures FirstCall(LIST_EXAMPLE).Ok?
    ensures var m := FirstCall(LIST_EXAMPLE).value;
      m.value == Array([]) && m.cursor == 1 && !m.isPending
  {
    var src := LIST_EXAMPLE[1..];
    var m0 := Init(LIST_EXAMPLE);
    assert m0.tag == LIST;
    assert IndexOf(src, NEWLINE, 0) == 1;
    DigitSize(src);
    var m1 := m0.(listOffset := 1);
    assert Resume(m0) == ResumeList(m0);
    assert ResumeList(m0) == ListSized(m1, 1);
    var m4 := m1.(listSize := 1, cursor := 1);
    assert ListSized(m1, 1) == FillInto(m4, 1);
    assert src == [49, 10, 0];
    var slice := Subarray(src, 1, |src|);
    assert slice == src[1..3];
    assert src[1..3] == [10, 0];
    var n := Init(slice);
    assert n.tag == 10 && n.source == [0];
    assert IndexOf(n.source, NEWLINE, 0) == -1;
    assert Resume(n) == ParseNumber(n);
    assert Nested(src, 1) == Ok(Snapshot(Undefined, 0, true));
    assert Fill(src, 1, [], 1) == Ok(([], 1));
  }

  /**
    next() returns the object decode() returned, whose value, cursor and
    isPending were copied when it was made: "42" split before its newline
    completes inside the decoder, yet the returned object still reads
    undefined and pending.
  */
  lemma StaleSnapshot()
    ensures FirstCall([2, 52, 50]).Ok?
    ensures var m := FirstCall([2, 52, 50]).value;
      && m.isPending && m.value == Undefined
      && NextCall(m, [10]).Ok?
      && NextCall(m, [10]).value.value == Num(Integral(42)) && !NextCall(m, [10]).value.isPending
      && View(SnapshotOf(m), m.gen, NextCall(m, [10]).value) == Snapshot(Undefined, 0, true)
  {
    var m0 := Init([2, 52, 50]);
    assert m0.source == [52, 50];
    assert IndexOf(m0.source, NEWLINE, 0) == -1;
    assert Resume(m0) == ParseNumber(m0);
    var m := m0.(isPending := true);
    var m1 := m.(source := [52, 50, 10]);
    assert m.source + [10] == [52, 50, 10];
    assert IndexOf(m1.source, NEWLINE, 0) == 2;
    assert Subarray(m1.source, 0, 2) == [52, 50];
    assert Latin1([52, 50]) == "42";
    assert "42"[..1] == "4" && "4"[..0] == "";
    assert SignedValue("42") == 42;
    NumberOfDecimal("42");
    NumberOfIntExact(42);
    assert Resume(m1) == ParseNumber(m1);
  }

  /** A row whose first column is cut off: ["a", null] once the rest arrives. */
  const ROW_HEAD: seq<Byte> := [0x11, 50, 10, 0x0D, 49, 10]
  const ROW_TAIL: seq<Byte> := [97, 0]

  /**
    The first call cannot finish the string column, and still reports the
    row complete, as an empty array. The returned object holds that very
    array, so after next() it shows both columns while its cursor and
    isPending stay as they were.
  */
  lemma RowAcrossChunks()
    ensures FirstCall(ROW_HEAD).Ok?
    ensures var m := FirstCall(ROW_HEAD).value;
      && m.value == Array([]) && !m.isPending && m.cursor == 2
      && NextCall(m, ROW_TAIL).Ok?
      && var m' := NextCall(m, ROW_TAIL).value;
      && m'.value == Array([Str([97]), Null]) && m'.cursor == 6 && !m'.isPending
      && View(SnapshotOf(m), m.gen, m') == Snapshot(Array([Str([97]), Null]), 2, false)
  {
    var src := ROW_HEAD[1..];
    var m0 := Init(ROW_HEAD);
    assert m0.tag == ROW;
    assert IndexOf(src, NEWLINE, 0) == 1;
    DigitSize(src);
    var m1 := m0.(rowOffset := 1);
    assert ResumeRow(m0) == RowSized(m1, 1);
    var m2 := m1.(rowSize := 2, cursor := 2);
    assert RowSized(m1, 1) == FillInto(m2, 2);
    CutColumn(src);
    assert Fill(src, 2, [], 2) == Ok(([], 2));
    var m := m2.(value := Array([]), isPending := false, gen := 1);
    assert Resume(m0) == Ok(m);

    var src' := src + ROW_TAIL;
    var n := m.(source := src');
    assert ResumeRow(n) == RowSized(n, 1);
    assert RowSized(n, 1) == FillInto(n.(cursor := 2), 2);
    FullColumn(src');
    NullAt(src', 6);
    assert [] + [Str([97])] == [Str([97])];
    assert [Str([97])] + [Null] == [Str([97]), Null];
    assert Fill(src', 6, [Str([97]), Null], 2) == Ok(([Str([97]), Null], 6));
    assert Fill(src', 6, [Str([97])], 2) == Ok(([Str([97]), Null], 6));
    assert Fill(src', 2, [], 2) == Fill(src', 2 + 4, [Str([97])], 2);
  }

  lemma CutColumn(src: seq<Byte>)
    requires src == ROW_HEAD[1..]
    ensures Nested(src, 2) == Ok(Snapshot(Undefined, 0, true))
  {
    var slice := Subarray(src, 2, |src|);
    assert slice == [0x0D, 49, 10];
    var n := Init(slice);
    assert n.tag == STRING && n.source == [49, 10];
    assert IndexOf(n.source, NEWLINE, 0) == 1;
    DigitSize(n.source);
    StringPendingIff(n, 1);
  }

  lemma FullColumn(src: seq<Byte>)
    requires src == ROW_HEAD[1..] + ROW_TAIL
    ensures Nested(src, 2) == Ok(Snapshot(Str([97]), 4, false))
  {
    var slice := Subarray(src, 2, |src|);
    assert slice == [0x0D, 49, 10, 97, 0];
    var n := Init(slice);
    assert n.tag == STRING && n.source == [49, 10, 97, 0];
    assert IndexOf(n.source, NEWLINE, 0) == 1;
    DigitSize(n.source);
    StringPendingIff(n, 1);
    assert Subarray(slice, 3, 4) == [97];
  }

  /** A size line of one digit reads as that digit. */
  lemma DigitSize(source: seq<Byte>)
    requires |source| >= 1 && '0' as int <= source[0] <= '9' as int
    ensures SizeOf(source, 0, 1) == Ok(source[0] - '0' as int)
  {
    var t := Latin1(Subarray(source, 0, 1));
    assert t == [source[0] as char];
    assert ScanValue(t, 1, source[0] - '0' as int) == Some(source[0] - '0' as int);
  }

  /** A null as the last byte of the source decodes without moving the cursor. */
  lemma NullAt(src: seq<Byte>, i: nat)
    requires i == |src| - 1 && src[i] == 0
    ensures Nested(src, i) == Ok(Snapshot(Null, 0, false))
  {
    var slice := Subarray(src, i, |src|);
    assert slice == [0];
    var n := Init(slice);
    assert n.tag == NULL;
    assert Resume(n) == DecodeValue(n);
  }

  /**
    A null column adds nothing to the cursor, so the next column is decoded
    from the same byte: a two-column row holding one null byte is two nulls.
  */
  lemma NullReadTwice()
    ensures FirstCall([0x11, 50, 10, 0]).Ok?
    ensures var m := FirstCall([0x11, 50, 10, 0]).value;
      m.value == Array([Null, Null]) && m.cursor == 2 && !m.isPending
  {
    var b: seq<Byte> := [0x11, 50, 10, 0];
    var src := b[1..];
    var m0 := Init(b);
    assert m0.tag == ROW;
    assert IndexOf(src, NEWLINE, 0) == 1;
    DigitSize(src);
    var m1 := m0.(rowOffset := 1);
    assert ResumeRow(m0) == RowSized(m1, 1);
    assert RowSized(m1, 1) == FillInto(m1.(rowSize := 2, cursor := 2), 2);
    NullAt(src, 2);
    assert [] + [Null] == [Null] && [Null] + [Null] == [Null, Null];
    assert Fill(src, 2, [Null], 2) == Ok(([Null, Null], 2));
    assert Fill(src, 2, [], 2) == Ok(([Null, Null], 2));
  }
}
