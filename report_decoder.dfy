/** Turning the report text returned by the service into column names and
    data rows (get_ukg_report, after the fetch). */
module ReportDecoder {
  import opened Text

  /** Rows of the report text are separated by carriage return + line feed. */
  const RowSeparator: string := "\r\n"

  /** Fields are split on the pipe character, whatever delimiter the request
      carried. */
  const Delimiter: char := '|'

  /** The column names and the data rows handed to the data frame. */
  datatype Table = Table(columns: seq<string>, rows: seq<seq<string>>)

  function Rows(data: string): seq<string> {
    Split(data, RowSeparator)
  }

  function Fields(row: string): seq<string> {
    Split(row, [Delimiter])
  }

  /** Every row of the text, each split into its fields. */
  function ParseRows(data: string): seq<seq<string>> {
    var rows := Rows(data);
    seq(|rows|, i requires 0 <= i < |rows| => Fields(rows[i]))
  }

  /** The first row names the columns, the remaining rows are data. There is
      one data row per row separator in the text. */
  function Decode(data: string): (t: Table)
    ensures |t.rows| == CountOccurrences(data, RowSeparator)
  {
    SplitCount(data, RowSeparator);
    var all := ParseRows(data);
    Table(all[0], all[1..])
  }

  /** The text of each row of a table, header first: its fields joined by
      the delimiter. */
  function RowTexts(t: Table): seq<string> {
    [Join(t.columns, [Delimiter])]
      + seq(|t.rows|, i requires 0 <= i < |t.rows| => Join(t.rows[i], [Delimiter]))
  }

  /** The text a table decodes from: its row texts joined by the row
      separator. */
  function Encode(t: Table): string {
    Join(RowTexts(t), RowSeparator)
  }

  /** A field that survives the round trip: it holds neither the delimiter
      nor the row separator (there is no quoting or escaping). */
  ghost predicate PlainField(f: string) {
    !Contains(f, [Delimiter]) && !Contains(f, RowSeparator)
  }

  ghost predicate WellFormed(t: Table) {
    && |t.columns| >= 1
    && (forall k :: 0 <= k < |t.columns| ==> PlainField(t.columns[k]))
    && (forall i :: 0 <= i < |t.rows| ==> |t.rows[i]| >= 1)
    && (forall i, k :: 0 <= i < |t.rows| && 0 <= k < |t.rows[i]| ==> PlainField(t.rows[i][k]))
  }

  /** The decoding loops: split the text into rows, copy each row's fields
      into a fresh list, then take the first list as the column names and
      the rest as the data. */
  method DecodeReport(data: string) returns (columnNames: seq<string>, allData: seq<seq<string>>)
    ensures Table(columnNames, allData) == Decode(data)
  {
    var rows := Split(data, RowSeparator);
    var dataAsList: seq<seq<string>> := [];
    for r := 0 to |rows|
      invariant |dataAsList| == r
      invariant forall k :: 0 <= k < r ==> dataAsList[k] == Fields(rows[k])
    {
      var values := Split(rows[r], [Delimiter]);
      var indList: seq<string> := [];
      for v := 0 to |values|
        invariant indList == values[..v]
      {
        indList := indList + [values[v]];
      }
      dataAsList := dataAsList + [indList];
    }
    assert dataAsList == ParseRows(data);
    columnNames := dataAsList[0];
    allData := dataAsList[1..];
  }

  lemma RowSeparatorUnbordered()
    ensures Unbordered(RowSeparator)
  {
    assert RowSeparator[..1] == "\r";
    assert RowSeparator[1..] == "\n";
  }

  /** Each row of the text: it holds no row separator, its fields re-joined
      with the delimiter give the row back, none of them holds the
      delimiter, and there is one field more than the row has delimiters. */
  ghost predicate SplitRow(row: string, fields: seq<string>) {
    && !Contains(row, RowSeparator)
    && fields == Fields(row)
    && Join(fields, [Delimiter]) == row
    && |fields| == multiset(row)[Delimiter] + 1
    && (forall k :: 0 <= k < |fields| ==> !Contains(fields[k], [Delimiter]))
  }

  lemma SplitRowHolds(row: string)
    requires !Contains(row, RowSeparator)
    ensures SplitRow(row, Fields(row))
  {
    JoinSplit(row, [Delimiter]);
    SplitCount(row, [Delimiter]);
    CountSingle(row, Delimiter);
    SplitPiecesFree(row, [Delimiter]);
  }

  /** What decoding produces: the header is the first row's fields, the
      data rows are the following rows' fields in order, and every row obeys
      SplitRow. */
  lemma DecodeLayout(data: string)
    ensures var t := Decode(data);
      && |Rows(data)| == |t.rows| + 1
      && Join(Rows(data), RowSeparator) == data
      && SplitRow(Rows(data)[0], t.columns)
      && forall i :: 0 <= i < |t.rows| ==> SplitRow(Rows(data)[i + 1], t.rows[i])
  {
    var rows := Rows(data);
    JoinSplit(data, RowSeparator);
    SplitPiecesFree(data, RowSeparator);
    SplitRowHolds(rows[0]);
    forall i | 0 <= i < |rows| - 1 ensures SplitRow(rows[i + 1], Decode(data).rows[i]) {
      SplitRowHolds(rows[i + 1]);
    }
  }

  /** Text without a row separator is a header only: no data rows. */
  lemma DecodeHeaderOnly(data: string)
    requires !Contains(data, RowSeparator)
    ensures Decode(data) == Table(Fields(data), [])
  {
    SplitWhole(data, RowSeparator);
  }

  /** The empty text decodes to the single empty column name and no rows. */
  lemma DecodeEmpty()
    ensures Decode("") == Table([""], [])
  {
  }

  /** Decoding loses nothing: encoding the decoded table gives the text back. */
  lemma EncodeDecode(data: string)
    ensures Encode(Decode(data)) == data
  {
    var rows := Rows(data);
    var lines := RowTexts(Decode(data));
    forall k | 0 <= k < |rows| ensures lines[k] == rows[k] {
      JoinSplit(rows[k], [Delimiter]);
    }
    assert lines == rows;
    JoinSplit(data, RowSeparator);
  }

  /** The row texts of a well-formed table hold no row separator. */
  lemma RowTextsPlain(t: Table)
    requires WellFormed(t)
    ensures forall k :: 0 <= k < |RowTexts(t)| ==> !Contains(RowTexts(t)[k], RowSeparator)
  {
    var lines := RowTexts(t);
    assert Delimiter !in RowSeparator;
    forall k | 0 <= k < |lines| ensures !Contains(lines[k], RowSeparator) {
      if k == 0 {
        JoinFree(t.columns, Delimiter, RowSeparator);
      } else {
        JoinFree(t.rows[k - 1], Delimiter, RowSeparator);
      }
    }
  }

  /** A well-formed table survives encoding and decoding unchanged. */
  lemma DecodeEncode(t: Table)
    requires WellFormed(t)
    ensures Decode(Encode(t)) == t
  {
    var lines := RowTexts(t);
    RowTextsPlain(t);
    RowSeparatorUnbordered();
    SplitJoin(lines, RowSeparator);
    assert Rows(Encode(t)) == lines;
    var all := ParseRows(Encode(t));
    SplitJoin(t.columns, [Delimiter]);
    assert all[0] == t.columns;
    forall i | 0 <= i < |t.rows| ensures all[i + 1] == t.rows[i] {
      assert lines[i + 1] == Join(t.rows[i], [Delimiter]);
      SplitJoin(t.rows[i], [Delimiter]);
    }
    assert all[1..] == t.rows;
  }

  /** A one-character field other than the delimiter is plain. */
  lemma CharPlain(x: char)
    requires x != Delimiter
    ensures PlainField([x])
  {
    forall i ensures !OccursAt([x], [Delimiter], i) {
      if i == 0 {
        assert [x][0..1] == [x];
      }
    }
  }

  /** A small three-row report. */
  lemma DecodeSample()
    ensures Decode("A|B\r\n1|2\r\n3|4") == Table(["A", "B"], [["1", "2"], ["3", "4"]])
  {
    var t := Table(["A", "B"], [["1", "2"], ["3", "4"]]);
    CharPlain('A'); CharPlain('B'); CharPlain('1');
    CharPlain('2'); CharPlain('3'); CharPlain('4');
    assert WellFormed(t);
    assert Join(["B"], [Delimiter]) == "B";
    assert Join(["A", "B"], [Delimiter]) == "A|B";
    assert Join(["2"], [Delimiter]) == "2";
    assert Join(["1", "2"], [Delimiter]) == "1|2";
    assert Join(["4"], [Delimiter]) == "4";
    assert Join(["3", "4"], [Delimiter]) == "3|4";
    assert RowTexts(t) == ["A|B", "1|2", "3|4"];
    assert Join(["3|4"], RowSeparator) == "3|4";
    assert Join(["1|2", "3|4"], RowSeparator) == "1|2\r\n3|4";
    assert Encode(t) == "A|B\r\n1|2\r\n3|4";
    DecodeEncode(t);
  }
}
