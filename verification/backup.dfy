/** `ddlAnalyze` and the text pieces of `tableAnalyze`: the scan over the DDL
    lines for `CREATE TABLE`, and for each table found the column block, the
    projection query, and the `SET DEFINE OFF;` line followed by one
    `Insert Into` statement per fetched row. The database is a parameter: a
    query either is rejected or yields its rows. */
module Backup {
  import opened Types
  import opened Text
  import opened Lines
  import opened Schema
  import opened Statements

  const CreateTable: string := "CREATE TABLE"
  const SetDefineOff: string := "SET DEFINE OFF;"

  /** A line that opens a table: it starts with `CREATE TABLE` once trimmed. */
  predicate StartsTable(line: string) {
    HasPrefix(TrimSpace(line), CreateTable)
  }

  /** Output that ends in the two empty lines a completed scan prints. */
  predicate Closed(out: seq<string>) {
    |out| >= 2 && out[|out| - 2] == "" && out[|out| - 1] == ""
  }

  /** The output for the table whose `CREATE TABLE` line is `lines[i]`:
      the column block is parsed, the projection query is run and its rows
      become statements. With it comes the line the scan goes on from, or
      `None` when a fault ends the run here. */
  function TableOutput(table: string, lines: seq<string>, i: nat, fetch: string -> Option<seq<Row>>): (t: (Emitted, Option<nat>))
    requires i < |lines|
    ensures t.1.Some? <==> t.0.fault.None?
    ensures t.1.Some? ==> i < t.1.value <= |lines|
  {
    match ParseBlock(lines, i + 1)
    case Err(f) => (Emitted([], Some(f)), None)
    case Ok((cols, next)) =>
      var q := ProjectionQuery(table, cols);
      match fetch(q)
      case None => (Emitted([], Some(QueryRejected(q))), None)
      case Some(rows) =>
        var ins := Inserts(table, cols, rows);
        (Emitted([SetDefineOff] + ins.out, ins.fault), if ins.fault.None? then Some(next) else None)
  }

  /** The outer scan from line `i` on. A run that completes prints two empty
      lines at the end; a fault stops the output where the source panics. */
  function Analyze(table: string, lines: seq<string>, i: nat, fetch: string -> Option<seq<Row>>): (e: Emitted)
    requires i <= |lines|
    ensures e.fault.None? ==> Closed(e.out)
    decreases |lines| - i
  {
    if i == |lines| then Emitted(["", ""], None)
    else if !StartsTable(lines[i]) then Analyze(table, lines, i + 1, fetch)
    else
      var (head, next) := TableOutput(table, lines, i, fetch);
      match next
      case None => head
      case Some(n) =>
        var rest := Analyze(table, lines, n, fetch);
        ClosedAppend(head.out, rest.out);
        Emitted(head.out + rest.out, rest.fault)
  }

  lemma ClosedAppend(a: seq<string>, b: seq<string>)
    ensures Closed(b) ==> Closed(a + b)
  {
    if Closed(b) {
      var s := a + b;
      assert s[|s| - 2] == b[|b| - 2] && s[|s| - 1] == b[|b| - 1];
    }
  }

  /** A line that does not open a table prints nothing. */
  lemma AnalyzePasses(table: string, lines: seq<string>, i: nat, fetch: string -> Option<seq<Row>>)
    requires i < |lines| && !StartsTable(lines[i])
    ensures Analyze(table, lines, i, fetch) == Analyze(table, lines, i + 1, fetch)
  {
  }

  /** What a text made of lines without `CREATE TABLE` produces: just the two
      empty lines, and no fault. */
  lemma {:induction false} AnalyzeNoTable(table: string, lines: seq<string>, i: nat, fetch: string -> Option<seq<Row>>)
    requires i <= |lines|
    requires forall k :: i <= k < |lines| ==> !StartsTable(lines[k])
    ensures Analyze(table, lines, i, fetch) == Emitted(["", ""], None)
    decreases |lines| - i
  {
    if i < |lines| {
      AnalyzePasses(table, lines, i, fetch);
      AnalyzeNoTable(table, lines, i + 1, fetch);
    }
  }

  /** Lines before the first `CREATE TABLE` are passed over without output. */
  lemma {:induction false} AnalyzeSkips(table: string, lines: seq<string>, i: nat, c: nat, fetch: string -> Option<seq<Row>>)
    requires i <= c <= |lines|
    requires forall k :: i <= k < c ==> !StartsTable(lines[k])
    ensures Analyze(table, lines, i, fetch) == Analyze(table, lines, c, fetch)
    decreases c - i
  {
    if i < c {
      AnalyzePasses(table, lines, i, fetch);
      AnalyzeSkips(table, lines, i + 1, c, fetch);
    }
  }

  /** Every printed line is an empty separator, `SET DEFINE OFF;` or an
      `Insert Into` statement for this table. */
  lemma {:induction false} AnalyzeLines(table: string, lines: seq<string>, i: nat, fetch: string -> Option<seq<Row>>)
    requires i <= |lines|
    ensures AllPrinted(table, Analyze(table, lines, i, fetch).out)
    decreases |lines| - i
  {
    if i < |lines| {
      if !StartsTable(lines[i]) {
        AnalyzePasses(table, lines, i, fetch);
        AnalyzeLines(table, lines, i + 1, fetch);
      } else {
        var (head, next) := TableOutput(table, lines, i, fetch);
        TableOutputLines(table, lines, i, fetch);
        match next
        case None =>
          assert Analyze(table, lines, i, fetch) == head;
        case Some(n) =>
          AnalyzeLines(table, lines, n, fetch);
          var rest := Analyze(table, lines, n, fetch).out;
          assert Analyze(table, lines, i, fetch).out == head.out + rest;
          PrintedAppend(table, head.out, rest);
      }
    }
  }

  predicate AllPrinted(table: string, out: seq<string>) {
    forall k :: 0 <= k < |out| ==> PrintedLine(table, out[k])
  }

  lemma PrintedAppend(table: string, a: seq<string>, b: seq<string>)
    requires AllPrinted(table, a) && AllPrinted(table, b)
    ensures AllPrinted(table, a + b)
  {
    forall k | 0 <= k < |a + b| ensures PrintedLine(table, (a + b)[k]) {
      if k < |a| {
        assert (a + b)[k] == a[k];
      } else {
        assert (a + b)[k] == b[k - |a|];
      }
    }
  }

  /** The lines the scan prints. */
  predicate PrintedLine(table: string, line: string) {
    line == "" || line == SetDefineOff || HasPrefix(line, InsertHead(table))
  }

  lemma TableOutputLines(table: string, lines: seq<string>, i: nat, fetch: string -> Option<seq<Row>>)
    requires i < |lines|
    ensures AllPrinted(table, TableOutput(table, lines, i, fetch).0.out)
  {
    var out := TableOutput(table, lines, i, fetch).0.out;
    match ParseBlock(lines, i + 1)
    case Err(_) =>
      assert out == [];
    case Ok((cols, _)) =>
      var q := ProjectionQuery(table, cols);
      match fetch(q)
      case None =>
        assert out == [];
      case Some(rows) =>
        var ins := Inserts(table, cols, rows);
        assert out == [SetDefineOff] + ins.out;
        InsertsPrinted(table, cols, rows);
  }

  /** Every statement starts with `Insert Into <table> (`. */
  lemma InsertsPrinted(table: string, cols: seq<ColumnAttr>, rows: seq<Row>)
    ensures var out := Inserts(table, cols, rows).out;
      forall k :: 0 <= k < |out| ==> HasPrefix(out[k], InsertHead(table))
  {
    var out := Inserts(table, cols, rows).out;
    forall k | 0 <= k < |out| ensures HasPrefix(out[k], InsertHead(table)) {
      InsertStartsWithHead(table, cols, rows[k]);
    }
  }

  /** A text with exactly one `CREATE TABLE` line whose column block parses,
      whose query is accepted and whose rows all fit the columns: the output
      is `SET DEFINE OFF;`, one statement per row in row order, and the two
      empty lines. */
  lemma OneTable(table: string, lines: seq<string>, c: nat, fetch: string -> Option<seq<Row>>)
    requires c < |lines| && StartsTable(lines[c])
    requires forall k :: 0 <= k < |lines| && k != c ==> !StartsTable(lines[k])
    requires ParseBlock(lines, c + 1).Ok?
    requires var cols := ParseBlock(lines, c + 1).value.0;
      var answer := fetch(ProjectionQuery(table, cols));
      answer.Some? && forall r :: 0 <= r < |answer.value| ==> Fits(cols, answer.value[r])
    ensures var cols := ParseBlock(lines, c + 1).value.0;
      var rows := fetch(ProjectionQuery(table, cols)).value;
      var e := Analyze(table, lines, 0, fetch);
      && e.fault.None?
      && |e.out| == |rows| + 3
      && e.out[0] == SetDefineOff
      && (forall r :: 0 <= r < |rows| ==> e.out[r + 1] == InsertStatement(table, cols, rows[r]))
      && Closed(e.out)
  {
    var (cols, next) := ParseBlock(lines, c + 1).value;
    var rows := fetch(ProjectionQuery(table, cols)).value;
    AnalyzeSkips(table, lines, 0, c, fetch);
    AnalyzeNoTable(table, lines, next, fetch);
    var ins := Inserts(table, cols, rows);
    assert ins.fault.None? && |ins.out| == |rows|;
    assert TableOutput(table, lines, c, fetch) == (Emitted([SetDefineOff] + ins.out, None), Some(next));
    assert Analyze(table, lines, c, fetch) == Emitted([SetDefineOff] + ins.out + ["", ""], None);
  }

  // ------------------------------------------------------- tableAnalyze

  /** `ddl += row + ";\n"` over the rows of `dbms_metadata.get_ddl`, in
      order. */
  function AccumulateDdl(rows: seq<string>): string {
    if rows == [] then "" else AccumulateDdl(rows[..|rows| - 1]) + rows[|rows| - 1] + ";\n"
  }

  /** The loop's left-to-right accumulation is each row followed by `;\n`. */
  lemma {:induction false} AccumulateDdlTerminated(rows: seq<string>)
    ensures AccumulateDdl(rows) == Terminated(rows, ";\n")
  {
    if rows != [] {
      var init := rows[..|rows| - 1];
      AccumulateDdlTerminated(init);
      TerminatedSnoc(init, rows[|rows| - 1], ";\n");
      assert init + [rows[|rows| - 1]] == rows;
    }
  }

  lemma {:induction false} TerminatedSnoc(xs: seq<string>, x: string, t: string)
    ensures Terminated(xs + [x], t) == Terminated(xs, t) + x + t
  {
    if xs == [] {
      assert [] + [x] == [x];
      assert Terminated([x], t) == x + t + Terminated([], t);
    } else {
      TerminatedSnoc(xs[1..], x, t);
      assert (xs + [x])[1..] == xs[1..] + [x];
    }
  }

  /** Each DDL row ends its own lines: the scanner reads the accumulated text
      as the lines of the earlier rows, then the lines of the last row with
      its `;` attached. */
  lemma DdlLinesAppend(rows: seq<string>, r: string)
    ensures SplitLines(AccumulateDdl(rows + [r])) == SplitLines(AccumulateDdl(rows)) + SplitLines(r + ";\n")
  {
    assert (rows + [r])[..|rows|] == rows;
    var a := AccumulateDdl(rows);
    assert AccumulateDdl(rows + [r]) == a + (r + ";\n");
    if a != [] {
      assert a[|a| - 1] == '\n';
    }
    SplitLinesAppend(a, r + ";\n");
  }

  /** A DDL row without a newline is read back as one line: the row and its
      `;`. */
  lemma OneLineRow(r: string)
    requires '\n' !in r
    ensures SplitLines(r + ";\n") == [r + ";"]
  {
    SplitLinesStep(r + ";\n", r + ";", "");
    assert r + ";\n" == r + ";" + "\n" + "";
  }

  /** The text of `fmt.Printf("DROP TABLE \"%s\";\n", tablename)`, without
      its newline. */
  function DropStatement(table: string): (d: string)
    ensures HasPrefix(d, "DROP TABLE \"") && d[|d| - 2..] == "\";"
  {
    "DROP TABLE \"" + table + "\";"
  }

  /** The table name read back from a `DROP TABLE` line. */
  function DroppedTable(d: string): Option<string> {
    if |d| >= 14 && HasPrefix(d, "DROP TABLE \"") && d[|d| - 2..] == "\";" then Some(d[12..|d| - 2])
    else None
  }

  /** The DROP line names exactly the table it was made for. */
  lemma DroppedTableOfDrop(table: string)
    ensures DroppedTable(DropStatement(table)) == Some(table)
  {
    var d := DropStatement(table);
    assert d[12..|d| - 2] == table;
  }

  /** One table's part of the script, given the DDL rows: the DROP line when
      asked for, the DDL text as one printed piece, then what the scan of
      that text prints. The DROP line names the table; the DDL piece is each
      row followed by `;` and a newline. */
  function TableScript(table: string, ddlRows: seq<string>, dropFirst: bool, fetch: string -> Option<seq<Row>>): (e: Emitted)
    ensures var k := if dropFirst then 1 else 0;
      && |e.out| >= k + 1
      && (dropFirst ==> DroppedTable(e.out[0]) == Some(table))
      && e.out[k] == Terminated(ddlRows, ";\n")
  {
    var ddl := AccumulateDdl(ddlRows);
    AccumulateDdlTerminated(ddlRows);
    DroppedTableOfDrop(table);
    var pre := if dropFirst then [DropStatement(table), ddl] else [ddl];
    var scan := Analyze(table, SplitLines(ddl), 0, fetch);
    Emitted(pre + scan.out, scan.fault)
  }
}
