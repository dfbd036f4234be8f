/** The text the export builds from a parsed column list: the projection
    query that fetches the rows, and one `Insert Into` statement per row. */
module Statements {
  import opened Types
  import opened Text
  import opened Literal

  // ------------------------------------------------------------ projection

  /** The columns the query fetches as raw bytes: `NVARCHAR*` and `BLOB`. */
  predicate SelectedRaw(attr: string) {
    HasPrefix(attr, "NVARCHAR") || HasPrefix(attr, "BLOB")
  }

  /** One select-list item: raw columns bare, every other column through
      `TO_CHAR` so that it arrives as text. */
  function Projection(c: ColumnAttr): string {
    if SelectedRaw(c.attr) then c.name else "TO_CHAR(" + c.name + ")"
  }

  function Projections(cols: seq<ColumnAttr>): (ps: seq<string>)
    ensures |ps| == |cols|
  {
    seq(|cols|, i requires 0 <= i < |cols| => Projection(cols[i]))
  }

  /** The query is built the source's way: each item followed by a comma,
      then every trailing comma trimmed. */
  function ProjectionQuery(table: string, cols: seq<ColumnAttr>): (q: string)
    ensures q == "SELECT " + TrimRightCommas(Join(Projections(cols), ",")) + " FROM " + table + "\n"
    ensures !EndsWithComma(Join(Projections(cols), ",")) ==>
      q == "SELECT " + Join(Projections(cols), ",") + " FROM " + table + "\n"
  {
    TrimTerminatedCommas(Projections(cols));
    "SELECT " + TrimRightCommas(Terminated(Projections(cols), ",")) + " FROM " + table + "\n"
  }

  /** The query and the encoder agree on which columns arrive raw: exactly
      the ones the encoder quotes (`NVARCHAR`) or hex-encodes (`BLOB`).
      `DATE` and all other columns arrive as `TO_CHAR` text. */
  lemma RawColumnsAgree(attr: string)
    ensures SelectedRaw(attr) <==> KindOf(attr) in {NationalText, Binary}
  {
    if HasPrefix(attr, "BLOB") {
      assert attr[0] == 'B';
      assert !HasPrefix(attr, "NVARCHAR") && !HasPrefix(attr, "DATE") by {
        assert "NVARCHAR"[0] != attr[0] && "DATE"[0] != attr[0];
      }
    }
  }

  /** When the last column goes through `TO_CHAR`, trimming commas takes
      off only the separator, and the select list is the plain join. */
  lemma ProjectionQueryExact(table: string, cols: seq<ColumnAttr>)
    requires cols != [] && !SelectedRaw(cols[|cols| - 1].attr)
    ensures ProjectionQuery(table, cols) == "SELECT " + Join(Projections(cols), ",") + " FROM " + table + "\n"
  {
    var ps := Projections(cols);
    assert ps[|ps| - 1] == "TO_CHAR(" + cols[|cols| - 1].name + ")";
    JoinEnd(ps, ",");
  }

  // ------------------------------------------------------------- INSERT

  function Names(cols: seq<ColumnAttr>): (ns: seq<string>)
    ensures |ns| == |cols|
  {
    seq(|cols|, i requires 0 <= i < |cols| => cols[i].name)
  }

  /** A row the encoding loop gets through: the loop runs over the fetched
      cells and looks up a column descriptor only for a non-NULL cell, so
      cells past the column list are harmless exactly when they are NULL. */
  predicate Fits(cols: seq<ColumnAttr>, row: Row) {
    forall i :: |cols| <= i < |row| ==> row[i].None?
  }

  /** The encoded cells of a row: cell `i` with column `i`'s descriptor. */
  function Cells(cols: seq<ColumnAttr>, row: Row): (vs: seq<string>)
    requires Fits(cols, row)
    ensures |vs| == |row|
    ensures forall i :: 0 <= i < |row| && i < |cols| ==> vs[i] == EncodeCell(row[i], cols[i])
    ensures forall i :: |cols| <= i < |row| ==> vs[i] == "NULL"
  {
    seq(|row|, i requires 0 <= i < |row| => if i < |cols| then EncodeCell(row[i], cols[i]) else "NULL")
  }

  function InsertHead(table: string): string {
    "Insert Into " + table + " ("
  }

  /** One row's statement, built the source's way: names and values each
      followed by a comma, and every trailing comma trimmed from both lists. */
  function InsertStatement(table: string, cols: seq<ColumnAttr>, row: Row): string
    requires Fits(cols, row)
  {
    TrimRightCommas(InsertHead(table) + Terminated(Names(cols), ",")) +
    ") VALUES (" + TrimRightCommas(Terminated(Cells(cols, row), ",")) + ");"
  }

  /** The statement is the head, the comma-joined names and the comma-joined
      values, where each list loses its trailing commas; the head itself,
      ending in "(", is never touched by the trimming. */
  lemma InsertStatementJoins(table: string, cols: seq<ColumnAttr>, row: Row)
    requires Fits(cols, row)
    ensures InsertStatement(table, cols, row) ==
      InsertHead(table) + TrimRightCommas(Join(Names(cols), ",")) +
      ") VALUES (" + TrimRightCommas(Join(Cells(cols, row), ",")) + ");"
  {
    var head := InsertHead(table);
    assert head[|head| - 1] == '(';
    TrimRightCommasAfter(head, Terminated(Names(cols), ","));
    TrimTerminatedCommas(Names(cols));
    TrimTerminatedCommas(Cells(cols, row));
  }

  /** Every statement starts with `Insert Into <table> (`. */
  lemma InsertStartsWithHead(table: string, cols: seq<ColumnAttr>, row: Row)
    requires Fits(cols, row)
    ensures HasPrefix(InsertStatement(table, cols, row), InsertHead(table))
  {
    var head := InsertHead(table);
    var names := Terminated(Names(cols), ",");
    assert head[|head| - 1] == '(';
    TrimRightCommasAfter(head, names);
    var tail := TrimRightCommas(names) + ") VALUES (" + TrimRightCommas(Terminated(Cells(cols, row), ",")) + ");";
    assert InsertStatement(table, cols, row) == head + tail;
    assert (head + tail)[..|head|] == head;
  }

  /** Where neither list ends in a comma, the statement is exactly the
      names and the values, each joined by commas. */
  lemma InsertStatementExact(table: string, cols: seq<ColumnAttr>, row: Row)
    requires Fits(cols, row)
    requires !EndsWithComma(Join(Names(cols), ",")) && !EndsWithComma(Join(Cells(cols, row), ","))
    ensures InsertStatement(table, cols, row) ==
      "Insert Into " + table + " (" + Join(Names(cols), ",") + ") VALUES (" + Join(Cells(cols, row), ",") + ");"
  {
    InsertStatementJoins(table, cols, row);
  }

  /** A number, an NVARCHAR and a DATE column, none NULL: the statement
      lists the three names, the number as fetched, the text quoted and the
      date through `TO_DATE`, whatever the number's text is. */
  lemma ThreeColumnInsert(table: string, cols: seq<ColumnAttr>, a: seq<byte>, b: seq<byte>, c: seq<byte>)
    requires |cols| == 3
    requires KindOf(cols[0].attr) == Plain && KindOf(cols[1].attr) == NationalText && KindOf(cols[2].attr) == DateValue
    requires cols[2].name != [] && !EndsWithComma(cols[2].name)
    ensures InsertStatement(table, cols, [Some(a), Some(b), Some(c)]) ==
      "Insert Into " + table + " (" + (cols[0].name + "," + cols[1].name + "," + cols[2].name) +
      ") VALUES (" + (BytesText(a) + "," + ("'" + BytesText(b) + "'") + "," + (DateOpen + BytesText(c) + DateClose)) + ");"
  {
    var row: Row := [Some(a), Some(b), Some(c)];
    var ns := Names(cols);
    var vs := Cells(cols, row);
    assert ns == [cols[0].name, cols[1].name, cols[2].name];
    ThreeCells(cols, a, b, c);
    JoinThree(ns[0], ns[1], ns[2], ",");
    JoinThree(vs[0], vs[1], vs[2], ",");
    JoinEnd(vs, ",");
    InsertStatementExact(table, cols, row);
  }

  lemma ThreeCells(cols: seq<ColumnAttr>, a: seq<byte>, b: seq<byte>, c: seq<byte>)
    requires |cols| == 3
    requires KindOf(cols[0].attr) == Plain && KindOf(cols[1].attr) == NationalText && KindOf(cols[2].attr) == DateValue
    ensures Cells(cols, [Some(a), Some(b), Some(c)]) ==
      [BytesText(a), "'" + BytesText(b) + "'", DateOpen + BytesText(c) + DateClose]
  {
    var vs := Cells(cols, [Some(a), Some(b), Some(c)]);
    assert vs[0] == BytesText(a);
    assert vs[1] == "'" + BytesText(b) + "'";
    assert vs[2] == DateOpen + BytesText(c) + DateClose;
  }

  /** A last cell that is NULL, or of a quoted, date or binary column, never
      ends in a comma, so the value list survives the trimming intact. */
  lemma LastCellKeepsValues(cols: seq<ColumnAttr>, row: Row)
    requires Fits(cols, row) && row != []
    requires var last := |row| - 1;
      row[last].None? || (last < |cols| && KindOf(cols[last].attr) != Plain)
    ensures !EndsWithComma(Join(Cells(cols, row), ","))
  {
    var vs := Cells(cols, row);
    JoinEnd(vs, ",");
  }

  /** Where the last cell is a `Plain` text ending in commas, those commas
      are trimmed with the separator: the value `7,` is written as `7`. */
  lemma PlainTrailingCommaLost(table: string, c: ColumnAttr)
    requires KindOf(c.attr) == Plain
    ensures var seven: seq<byte> := [55];
      InsertStatement(table, [c], [Some(seven + [44])]) == InsertStatement(table, [c], [Some(seven)])
  {
    var seven: seq<byte> := [55];
    var a := Cells([c], [Some(seven + [44])]);
    var b := Cells([c], [Some(seven)]);
    assert Join(a, ",") == Join(b, ",") + ",";
    TrimRightCommasAppended(Join(b, ","));
    InsertStatementJoins(table, [c], [Some(seven + [44])]);
    InsertStatementJoins(table, [c], [Some(seven)]);
  }

  // ------------------------------------------------------------- the rows

  /** The statements for `rows`, in row order; `first` is the index of
      `rows[0]` among all fetched rows. A row that does not fit the column
      list stops the output before its statement. */
  function InsertsFrom(table: string, cols: seq<ColumnAttr>, rows: seq<Row>, first: nat): (e: Emitted)
    ensures |e.out| <= |rows|
    ensures forall i :: 0 <= i < |e.out| ==> Fits(cols, rows[i]) && e.out[i] == InsertStatement(table, cols, rows[i])
    ensures e.fault.None? <==> forall i :: 0 <= i < |rows| ==> Fits(cols, rows[i])
    ensures e.fault.None? ==> |e.out| == |rows|
    ensures e.fault.Some? ==>
      var bad := |e.out|;
      bad < |rows| && !Fits(cols, rows[bad]) && e.fault.value == ColumnOutOfRange(first + bad, |cols|)
  {
    if rows == [] then Emitted([], None)
    else if !Fits(cols, rows[0]) then Emitted([], Some(ColumnOutOfRange(first, |cols|)))
    else
      var rest := InsertsFrom(table, cols, rows[1..], first + 1);
      Emitted([InsertStatement(table, cols, rows[0])] + rest.out, rest.fault)
  }

  /** The statements for all fetched rows. */
  function Inserts(table: string, cols: seq<ColumnAttr>, rows: seq<Row>): Emitted {
    InsertsFrom(table, cols, rows, 0)
  }
}
