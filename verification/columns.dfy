/** The column lines `dbms_metadata` writes, as text built from their parts:
    a quoted name, the type, an optional `DEFAULT` clause and an optional
    `NOT NULL ENABLE`, followed by a comma. Parsing such a line gives the
    parts back; what the parser leaves in `Attr` after the type is the
    padding its splits and joins leave behind. */
module ColumnText {
  import opened Types
  import opened Text
  import opened Schema

  /** The `DEFAULT` clause of a column line. */
  datatype DefaultClause =
    | NoDefault
    | Quoted(text: string)   // DEFAULT 'text'
    | Bare(token: string)    // DEFAULT token, e.g. a number or SYSDATE

  function DefaultText(d: DefaultClause): string {
    match d
    case NoDefault => ""
    case Quoted(t) => " " + DefaultKeyword + " '" + t + "'"
    case Bare(t) => " " + DefaultKeyword + " " + t
  }

  /** Everything after the name, without the final comma. */
  function Body(typ: string, d: DefaultClause, notNull: bool): string {
    typ + DefaultText(d) + (if notNull then " " + NotNullClause else "")
  }

  function Render(name: string, typ: string, d: DefaultClause, notNull: bool): string {
    name + " " + Body(typ, d, notNull) + ","
  }

  /** The lines the parser is meant for: a name without spaces, a type that
      does not end in a comma and mentions no `DEFAULT`, a quoted default
      without quotes in it, a bare default that is one token not starting
      with a quote, and no `NOT NULL ENABLE` before the real one. */
  predicate WellFormed(name: string, typ: string, d: DefaultClause) {
    && ' ' !in name
    && !EndsWithComma(typ)
    && !Contains(typ, DefaultKeyword)
    && !Contains(typ + DefaultText(d), NotNullClause)
    && match d
       case NoDefault => true
       case Quoted(t) => '\'' !in t
       case Bare(t) =>
         t != [] && t[0] != '\'' && !EndsWithComma(t) && forall k :: 0 <= k < |t| ==> !IsSpace(t[k])
  }

  /** The default as the parser reports it: a quoted one with its quotes. */
  function DefaultValue(d: DefaultClause): string {
    match d
    case NoDefault => ""
    case Quoted(t) => "'" + t + "'"
    case Bare(t) => t
  }

  /** The spaces the parser leaves after the type: one where `NOT NULL
      ENABLE` or a bare default was cut out, three where a quoted default
      was (its own space and the two joins of the three-way split). */
  function Padding(d: DefaultClause, notNull: bool): string {
    match d
    case NoDefault => if notNull then " " else ""
    case Quoted(_) => "   "
    case Bare(_) => " "
  }

  /** Parsing a rendered line gives back its name, its type followed by the
      padding, its default and its `NOT NULL` flag. */
  lemma ParseRender(name: string, typ: string, d: DefaultClause, notNull: bool)
    requires WellFormed(name, typ, d)
    ensures ParseColumnLine(Render(name, typ, d, notNull)) ==
      Some(ColumnAttr(name, typ + Padding(d, notNull), DefaultValue(d), notNull))
  {
    var body := Body(typ, d, notNull);
    var x := typ + DefaultText(d);
    RenderTrimmed(name, typ, d, notNull);
    CutUnique(name + " " + body, " ", name, body) by {
      forall k | 0 <= k < |name| ensures !OccursAt(name + " " + body, " ", k) {
        assert (name + " " + body)[k] == name[k];
        assert name[k] in name;
      }
    }
    StripRendered(typ, d, notNull);
    var sp := if notNull then " " else "";
    SplitRendered(typ, d, sp);
  }

  /** Only the final comma is trimmed off a rendered line. */
  lemma RenderTrimmed(name: string, typ: string, d: DefaultClause, notNull: bool)
    requires WellFormed(name, typ, d)
    ensures TrimRightCommas(Render(name, typ, d, notNull)) == name + " " + Body(typ, d, notNull)
  {
    var line := name + " " + Body(typ, d, notNull);
    var body := Body(typ, d, notNull);
    assert line == name + " " + body;
    if notNull {
      assert body[|body| - 1] == 'E';
    } else {
      match d
      case NoDefault =>
        assert body == typ;
        if typ == [] {
          assert line[|line| - 1] == ' ';
        } else {
          assert line[|line| - 1] == typ[|typ| - 1];
        }
      case Quoted(t) =>
        assert body[|body| - 1] == '\'';
      case Bare(t) =>
        assert body[|body| - 1] == t[|t| - 1];
    }
    assert !EndsWithComma(line);
    TrimRightCommasAppended(line);
  }

  /** `NOT NULL ENABLE` is found exactly when it was written, and cutting it
      out leaves the text before it and its leading space. */
  lemma StripRendered(typ: string, d: DefaultClause, notNull: bool)
    requires WellFormed("", typ, d)
    ensures StripNotNull(Body(typ, d, notNull)) ==
      (notNull, typ + DefaultText(d) + (if notNull then " " else ""))
  {
    var x := typ + DefaultText(d);
    if notNull {
      assert Body(typ, d, notNull) == x + " " + NotNullClause;
      StripAppended(x);
    } else {
      assert Body(typ, d, notNull) == x;
      assert x + "" == x;
    }
  }

  lemma StripAppended(x: string)
    requires !Contains(x, NotNullClause)
    ensures StripNotNull(x + " " + NotNullClause) == (true, x + " ")
  {
    var body := x + " " + NotNullClause;
    NotNullAfter(x);
    assert OccursAt(body, NotNullClause, |x| + 1);
    assert Contains(body, NotNullClause);
    StripNotNullRule(body);
    var r := StripNotNull(body);
    var i :| FirstAt(body, NotNullClause, i) && r.1 == body[..i] + body[i + |NotNullClause|..];
    assert i == |x| + 1;
    assert body[..i] == x + " " && body[i + |NotNullClause|..] == [];
    assert body[..i] + body[i + |NotNullClause|..] == x + " ";
    assert r.0 && r.1 == x + " ";
  }

  /** In `x + " NOT NULL ENABLE"` with no clause in `x`, the first clause is
      the appended one: a match cannot straddle the joining space. */
  lemma NotNullAfter(x: string)
    requires !Contains(x, NotNullClause)
    ensures FirstAt(x + " " + NotNullClause, NotNullClause, |x| + 1)
  {
    var s := x + " " + NotNullClause;
    var n := |NotNullClause|;
    assert s[|x| + 1..|x| + 1 + n] == NotNullClause;
    forall k | 0 <= k < |x| + 1 ensures !OccursAt(s, NotNullClause, k) {
      if k + n <= |x| {
        assert s[k..k + n] == x[k..k + n];
        assert !OccursAt(x, NotNullClause, k);
      } else {
        // the match would have to put a letter of the clause on the space
        // before the real one, or mismatch just after it
        var j := |x| - k;
        var w := if j == 3 then 5 else if j == 8 then 9 else j;
        assert s[|x|] == ' ' && s[|x| + 1] == 'N' && s[|x| + 2] == 'O';
        assert s[k + w] != NotNullClause[w];
        assert s[k..k + n][w] == s[k + w];
      }
    }
  }

  /** The default is split off the text left after `NOT NULL ENABLE` is
      removed (`sp` is the space that removal leaves). */
  lemma SplitRendered(typ: string, d: DefaultClause, sp: string)
    requires WellFormed("", typ, d)
    requires sp == "" || sp == " "
    ensures SplitDefault(typ + DefaultText(d) + sp) == (DefaultValue(d), typ + Padding(d, sp == " "))
  {
    match d
    case NoDefault =>
      var r1 := typ + DefaultText(d) + sp;
      if sp == " " {
        NotAcross(typ, ' ', [], DefaultKeyword);
        assert r1 == typ + " ";
        assert typ + [' '] + [] == r1;
        assert !Contains(r1, DefaultKeyword);
        assert Cut(r1, DefaultKeyword).None?;
      } else {
        assert r1 == typ && typ + "" == typ;
        assert Cut(r1, DefaultKeyword).None?;
      }
    case Quoted(t) =>
      SplitQuoted(typ, t, sp);
    case Bare(t) =>
      SplitBare(typ, t, sp);
  }

  lemma SplitQuoted(typ: string, t: string, sp: string)
    requires !Contains(typ, DefaultKeyword) && '\'' !in t
    requires sp == "" || sp == " "
    ensures SplitDefault(typ + DefaultText(Quoted(t)) + sp) == ("'" + t + "'", typ + "   ")
  {
    var m := "'" + t + "'";
    var x := typ + DefaultText(Quoted(t)) + sp;
    assert x == typ + " " + DefaultKeyword + (" " + m + sp);
    ClosedLiteral(typ + " ", t);
    DefaultFound(typ, m, sp, x);
    assert typ + " " + "  " == typ + "   ";
  }

  /** A closed literal with no quote inside is taken whole, and the two
      joining spaces are all that is left of it in the attribute. */
  lemma ClosedLiteral(pre: string, t: string)
    requires '\'' !in t
    ensures HasPrefix("'" + t + "'", "'")
    ensures QuotedDefault(pre, "'" + t + "'") == ("'" + t + "'", pre + "  ")
  {
    var m := "'" + t + "'";
    PrefixChar(m, '\'');
    CutUnique(m[1..], "'", t, "") by {
      assert m[1..] == t + "'" + "";
      forall k | 0 <= k < |t| ensures !OccursAt(m[1..], "'", k) {
        assert m[1..][k] == t[k];
        assert t[k] in t;
      }
    }
    assert pre + "  " + "" == pre + "  ";
  }

  lemma SplitBare(typ: string, t: string, sp: string)
    requires !Contains(typ, DefaultKeyword)
    requires t != [] && t[0] != '\'' && forall k :: 0 <= k < |t| ==> !IsSpace(t[k])
    requires sp == "" || sp == " "
    ensures SplitDefault(typ + DefaultText(Bare(t)) + sp) == (t, typ + " ")
  {
    var x := typ + DefaultText(Bare(t)) + sp;
    assert x == typ + " " + DefaultKeyword + (" " + t + sp);
    DefaultFound(typ, t, sp, x);
    PrefixChar(t, '\'');
    ContainsChar(t, ' ');
    assert ' ' !in t by {
      forall k | 0 <= k < |t| ensures t[k] != ' ' {
        assert !IsSpace(t[k]);
      }
    }
    assert TokenDefault(typ + " ", t) == (t, typ + " ");
  }

  /** The default is read from the text after the written `DEFAULT`, with
      the spaces around it trimmed off. */
  lemma DefaultFound(typ: string, m: string, sp: string, x: string)
    requires !Contains(typ, DefaultKeyword)
    requires m != [] && !IsSpace(m[0]) && !IsSpace(m[|m| - 1])
    requires sp == "" || sp == " "
    requires x == typ + " " + DefaultKeyword + (" " + m + sp)
    ensures SplitDefault(x) ==
      if HasPrefix(m, "'") then QuotedDefault(typ + " ", m) else TokenDefault(typ + " ", m)
  {
    var post := " " + m + sp;
    DefaultAfter(typ, post);
    TrimSpaceUnique(" ", m, sp);
  }

  /** The `DEFAULT` written after the type is the first one. */
  lemma DefaultAfter(typ: string, post: string)
    requires !Contains(typ, DefaultKeyword)
    ensures Cut(typ + " " + DefaultKeyword + post, DefaultKeyword) == Some((typ + " ", post))
  {
    var s := typ + " " + DefaultKeyword + post;
    NotAcross(typ, ' ', DefaultKeyword + post, DefaultKeyword);
    assert typ + [' '] + (DefaultKeyword + post) == s;
    assert s == (typ + " ") + DefaultKeyword + post;
    CutUnique(s, DefaultKeyword, typ + " ", post);
  }
}
