/** Worked instances of the export on concrete text: one DDL column line,
    a DATE cell and a BLOB cell. */
module Samples {
  import opened Types
  import opened Text
  import opened Schema
  import opened ColumnText
  import opened Literal
  import opened Statements

  /** The bytes of an ASCII text. */
  function Ascii(s: string): (b: seq<byte>)
    requires forall i :: 0 <= i < |s| ==> s[i] as int < 128
    ensures BytesText(b) == s
  {
    var b := seq(|s|, i requires 0 <= i < |s| => s[i] as int);
    assert BytesText(b) == s;
    b
  }

  /** A pattern whose first character does not appear is not found. */
  lemma AbsentHead(s: string, p: string)
    requires p != [] && p[0] !in s
    ensures !Contains(s, p)
  {
    forall k | 0 <= k <= |s| ensures !OccursAt(s, p, k) {
      if k + |p| <= |s| {
        assert s[k] in s;
        assert s[k..k + |p|][0] == s[k];
      }
    }
  }

  /** `  "NOTES" VARCHAR2(200) DEFAULT 'n/a' NOT NULL ENABLE,` */
  const NotesText: string := "\"NOTES\" VARCHAR2(200)" + " DEFAULT 'n/a'" + " NOT NULL ENABLE,"
  const NotesLine: string := "  " + NotesText

  /** The NOTES line is a rendered column line with a quoted default. */
  lemma NotesRendered()
    ensures NotesText == Render("\"NOTES\"", "VARCHAR2(200)", Quoted("n/a"), true)
  {
    assert "\"NOTES\" VARCHAR2(200)" == "\"NOTES\"" + " " + "VARCHAR2(200)";
    assert " DEFAULT 'n/a'" == " " + DefaultKeyword + " '" + "n/a" + "'";
    assert " NOT NULL ENABLE," == " " + NotNullClause + ",";
  }

  /** The NOTES line, with its indentation, is classified as a column line. */
  lemma NotesClassified()
    ensures Classify(NotesLine) == Definition(NotesText)
  {
    NotesRendered();
    assert NotesLine == "  " + NotesText + "";
    assert NotesText[0] == '"';
    assert NotesText[|NotesText| - 1] == ',';
    TrimSpaceUnique("  ", NotesText, "");
    PrefixChar(NotesText, '"');
    ClassifyRule(NotesLine);
  }

  /** The type and the default of the NOTES line are a well-formed pair. */
  lemma NotesWellFormed()
    ensures WellFormed("\"NOTES\"", "VARCHAR2(200)", Quoted("n/a"))
  {
    NotesNoKeywords();
    assert ' ' !in "\"NOTES\"";
    assert '\'' !in "n/a";
  }

  /** Neither keyword occurs too early: no `DEFAULT` in the type and no
      `NOT NULL ENABLE` before the real one. */
  lemma NotesNoKeywords()
    ensures !Contains("VARCHAR2(200)", DefaultKeyword)
    ensures !Contains("VARCHAR2(200)" + DefaultText(Quoted("n/a")), NotNullClause)
  {
    AbsentHead("VARCHAR2(200)", DefaultKeyword);
    NotesNoClause("VARCHAR2(200)" + DefaultText(Quoted("n/a")));
  }

  lemma NotesNoClause(x: string)
    requires x == "VARCHAR2(200)" + DefaultText(Quoted("n/a"))
    ensures !Contains(x, NotNullClause)
  {
    assert x == "VARCHAR2(200)" + " DEFAULT" + " 'n/a'";
    AbsentHead(x, NotNullClause);
  }

  /** The DDL line of a `NOTES` column with a quoted default and `NOT NULL`
      is a column line; its name keeps the double quotes, the default keeps
      its single quotes, and three spaces remain after the type. */
  lemma NotesColumn(line: string, text: string)
    requires line == NotesLine && text == NotesText
    ensures Classify(line) == Definition(text)
    ensures ParseColumnLine(text) == Some(ColumnAttr("\"NOTES\"", "VARCHAR2(200)   ", "'n/a'", true))
  {
    NotesClassified();
    NotesParsed(text);
  }

  lemma NotesParsed(text: string)
    requires text == NotesText
    ensures ParseColumnLine(text) == Some(ColumnAttr("\"NOTES\"", "VARCHAR2(200)   ", "'n/a'", true))
  {
    NotesRendered();
    NotesWellFormed();
    NotesDefault();
    ParseRender("\"NOTES\"", "VARCHAR2(200)", Quoted("n/a"), true);
  }

  lemma NotesDefault()
    ensures "VARCHAR2(200)" + Padding(Quoted("n/a"), true) == "VARCHAR2(200)   "
    ensures DefaultValue(Quoted("n/a")) == "'n/a'"
  {
    assert "'" + "n/a" == "'n/a";
  }

  /** A DATE cell goes out through `TO_DATE` with the `RR-MM-DD` mask. */
  lemma DateCell()
    ensures EncodeCell(Some(Ascii("21-JAN-24")), ColumnAttr("\"CREATED\"", "DATE", "", false)) ==
      "TO_DATE('21-JAN-24'," + "'RR-MM-DD')"
  {
    assert KindOf("DATE") == DateValue by {
      assert "DATE"[0] != "NVARCHAR"[0];
    }
    assert DateClose == "','" + "RR-MM-DD" + "')";
  }

  /** A BLOB cell goes out as lower-case hex. */
  lemma BlobCell()
    ensures EncodeCell(Some([0xDE, 0xAD]), ColumnAttr("\"PHOTO\"", "BLOB", "", false)) == "HEXTORAW('dead')"
  {
    assert KindOf("BLOB") == Binary by {
      assert "BLOB"[0] != "NVARCHAR"[0] && "BLOB"[0] != "DATE"[0];
    }
    var h := Hex.Encode([0xDE, 0xAD]);
    assert h[0] == 'd' && h[1] == 'e' && h[2] == 'a' && h[3] == 'd';
    assert h == "dead";
  }
}
