/** The column-definition parser of `ddlAnalyze`: inside the `CREATE TABLE`
    statement of a `dbms_metadata` DDL text, every line that starts with a
    double quote becomes a `ColumnAttr`, up to the line starting with `)`. */
module Schema {
  import opened Types
  import opened Text

  const NotNullClause: string := "NOT NULL ENABLE"
  const DefaultKeyword: string := "DEFAULT"

  // ------------------------------------------------------ line classification

  /** How the column loop treats one line of the `CREATE TABLE` block. */
  datatype LineKind =
    | Unsliceable           // a bare "(": `s[2:]` is out of range
    | Closing               // starts with ")": the column list ends here
    | Noise                 // anything else that is not a column (`USING INDEX`, ...)
    | Definition(text: string)  // a column line, trimmed

  /** The kind of a line once any leading "(" has been dealt with. */
  function LineKindOf(s: string): LineKind {
    if HasPrefix(s, ")") then Closing
    else if HasPrefix(s, "\"") then Definition(s)
    else Noise
  }

  /** Trim the line; a leading "(" takes the character after it along
      (the tab `dbms_metadata` writes there) and the rest is trimmed again. */
  function Classify(line: string): LineKind {
    var s := TrimSpace(line);
    if HasPrefix(s, "(") then
      if |s| < 2 then Unsliceable else LineKindOf(TrimSpace(s[2..]))
    else
      LineKindOf(s)
  }

  /** The text the loop looks at: the trimmed line, or, after a leading
      "(", what follows the two characters it drops, trimmed again. */
  function Examined(line: string): string {
    var s := TrimSpace(line);
    if HasPrefix(s, "(") && |s| >= 2 then TrimSpace(s[2..]) else s
  }

  /** The classification rule: a bare "(" is the panic; otherwise, in the
      examined text, a line starting with ")" closes the list, one starting
      with a double quote is a column passed on as it stands, and every
      other line (`USING INDEX ...`, an empty one) is skipped. A column's
      text is trimmed, starts with the quote and ends in something other
      than whitespace. */
  lemma ClassifyRule(line: string)
    ensures Classify(line).Unsliceable? <==> TrimSpace(line) == "("
    ensures var u := Examined(line);
      && (TrimSpace(line) != "(" && HasPrefix(u, ")") ==> Classify(line).Closing?)
      && (TrimSpace(line) != "(" && HasPrefix(u, "\"") ==> Classify(line) == Definition(u))
      && (TrimSpace(line) != "(" && !HasPrefix(u, ")") && !HasPrefix(u, "\"") ==> Classify(line).Noise?)
    ensures HasPrefix(TrimSpace(line), "\"") ==> Classify(line) == Definition(TrimSpace(line))
    ensures Classify(line).Definition? ==>
      var t := Classify(line).text;
      HasPrefix(t, "\"") && !IsSpace(t[|t| - 1]) && TrimSpace(t) == t
  {
    var s := TrimSpace(line);
    TrimSpaceEnds(line);
    PrefixChar(s, '(');
    PrefixChar(s, ')');
    PrefixChar(s, '"');
    if HasPrefix(s, "(") {
      if |s| == 1 {
        assert s == "(";
      } else {
        var u := TrimSpace(s[2..]);
        TrimSpaceEnds(s[2..]);
        TrimSpaceIdempotent(s[2..]);
        PrefixChar(u, ')');
        PrefixChar(u, '"');
      }
    } else {
      TrimSpaceIdempotent(line);
    }
  }

  // ------------------------------------------------------- one column line

  /** Removes the first `NOT NULL ENABLE` and reports whether there was one. */
  function StripNotNull(rest: string): (bool, string) {
    if Contains(rest, NotNullClause) then (true, ReplaceFirst(rest, NotNullClause, "")) else (false, rest)
  }

  /** The flag is set exactly when the clause occurs; then its first
      occurrence, and nothing else, is cut out; otherwise nothing changes. */
  lemma StripNotNullRule(rest: string)
    ensures var r := StripNotNull(rest);
      && (r.0 <==> Contains(rest, NotNullClause))
      && (!r.0 ==> r.1 == rest)
      && (r.0 ==> exists i :: FirstAt(rest, NotNullClause, i) && r.1 == rest[..i] + rest[i + |NotNullClause|..])
  {
    if Contains(rest, NotNullClause) {
      var r := ReplaceFirst(rest, NotNullClause, "");
      var i :| FirstAt(rest, NotNullClause, i) && r == rest[..i] + "" + rest[i + |NotNullClause|..];
      assert rest[..i] + "" == rest[..i];
    }
  }

  /** What the attribute keeps after the default `dv` taken from `ss`:
      after a closed quoted literal, two joining spaces and the rest of
      `ss`; after an unclosed one, one space; after a token followed by
      more text, one space and the text after the token's own space;
      after a token that is all of `ss`, nothing. */
  function KeptAfter(ss: string, dv: string): string {
    if HasPrefix(ss, "'") then
      if |dv| <= |ss| then "  " + ss[|dv|..] else " "
    else
      if |dv| < |ss| then " " + ss[|dv| + 1..] else ""
  }

  /** What a default taken from the trimmed text `ss` after `DEFAULT` looks
      like: a quoted literal runs to the next quote (a doubled quote is not an
      escape), anything else is the first space-delimited token. */
  predicate DefaultTakenFrom(ss: string, dv: string) {
    if HasPrefix(ss, "'") then
      && |dv| >= 2 && dv[0] == '\'' && dv[|dv| - 1] == '\''
      && '\'' !in dv[1..|dv| - 1]
      && HasPrefix(ss, dv[..|dv| - 1])
      && (|ss| == |dv| - 1 || ss[|dv| - 1] == '\'')
    else
      && ' ' !in dv
      && HasPrefix(ss, dv)
      && (|ss| == |dv| || ss[|dv|] == ' ')
  }

  /** The quoted form: `SplitN(ss, "'", 3)` keeps what lies between the
      opening quote and the next one; the literal's text is blanked out of
      the attribute, leaving two joining spaces (one when the literal is not
      closed). */
  function QuotedDefault(pre: string, ss: string): (string, string)
    requires HasPrefix(ss, "'")
  {
    match Cut(ss[1..], "'")
    case Some((lit, tail)) => ("'" + lit + "'", pre + "  " + tail)
    case None => ("'" + ss[1..] + "'", pre + " ")
  }

  /** The quoted default is the literal up to the next quote, and the
      attribute is the text before `DEFAULT` followed by what is kept
      after the literal. */
  lemma QuotedDefaultRule(pre: string, ss: string)
    requires HasPrefix(ss, "'")
    ensures var d := QuotedDefault(pre, ss);
      DefaultTakenFrom(ss, d.0) && d.1 == pre + KeptAfter(ss, d.0)
  {
    match Cut(ss[1..], "'")
    case Some((lit, tail)) =>
      FirstCharAt(ss[1..], '\'', |lit|);
      assert ss[1..][..|lit|] == lit;
      var dv := "'" + lit + "'";
      assert dv[1..|dv| - 1] == lit && dv[..|dv| - 1] == "'" + lit;
      assert ss == "'" + lit + "'" + tail;
      assert ss[|dv| - 1] == '\'';
      assert ss[|dv|..] == tail;
    case None =>
      ContainsChar(ss[1..], '\'');
      var dv := "'" + ss[1..] + "'";
      assert dv[1..|dv| - 1] == ss[1..] && dv[..|dv| - 1] == ss;
  }

  /** The bare form: `SplitN(ss, " ", 2)` keeps the first token, and the
      attribute keeps what follows it after one joining space. */
  function TokenDefault(pre: string, ss: string): (string, string)
    requires !HasPrefix(ss, "'")
  {
    match Cut(ss, " ")
    case Some((tok, tail)) => (tok, pre + " " + tail)
    case None => (ss, pre)
  }

  /** The bare default is the first space-delimited token, and the attribute
      is the text before `DEFAULT` followed by what is kept after the token. */
  lemma TokenDefaultRule(pre: string, ss: string)
    requires !HasPrefix(ss, "'")
    ensures var d := TokenDefault(pre, ss);
      DefaultTakenFrom(ss, d.0) && d.1 == pre + KeptAfter(ss, d.0)
  {
    match Cut(ss, " ")
    case Some((tok, tail)) =>
      FirstCharAt(ss, ' ', |tok|);
      assert ss[..|tok|] == tok;
      assert ss[|tok|] == ' ';
      assert ss == tok + " " + tail;
      assert ss[|tok| + 1..] == tail;
    case None =>
      ContainsChar(ss, ' ');
  }

  /** Splits the default off the text after the name at the first `DEFAULT`:
      the result is `(default, attr)`. */
  function SplitDefault(r1: string): (string, string) {
    match Cut(r1, DefaultKeyword)
    case None => ("", r1)
    case Some((pre, post)) =>
      var ss := TrimSpace(post);
      if HasPrefix(ss, "'") then QuotedDefault(pre, ss) else TokenDefault(pre, ss)
  }

  /** Without `DEFAULT` there is no default and the text is the attribute;
      with one, the default is taken from the trimmed text after the first
      `DEFAULT`, and the attribute is everything before that `DEFAULT`
      followed by what is kept after the default. */
  lemma SplitDefaultRule(r1: string)
    ensures var d := SplitDefault(r1);
      && (!Contains(r1, DefaultKeyword) ==> d == ("", r1))
      && (Contains(r1, DefaultKeyword) ==>
            exists i :: && FirstAt(r1, DefaultKeyword, i)
                        && DefaultTakenFrom(TrimSpace(r1[i + |DefaultKeyword|..]), d.0)
                        && d.1 == r1[..i] + KeptAfter(TrimSpace(r1[i + |DefaultKeyword|..]), d.0))
  {
    match Cut(r1, DefaultKeyword)
    case None =>
    case Some((pre, post)) =>
      assert r1[..|pre|] == pre && r1[|pre| + |DefaultKeyword|..] == post;
      var ss := TrimSpace(post);
      if HasPrefix(ss, "'") {
        QuotedDefaultRule(pre, ss);
      } else {
        TokenDefaultRule(pre, ss);
      }
      assert FirstAt(r1, DefaultKeyword, |pre|);
  }

  /** One column line, already trimmed and starting with a double quote:
      `None` when the source would panic for want of a space after the name. */
  function ParseColumnLine(s: string): Option<ColumnAttr> {
    match Cut(TrimRightCommas(s), " ")
    case None => None
    case Some((name, rest)) =>
      var (notNull, r1) := StripNotNull(rest);
      var (dv, attr) := SplitDefault(r1);
      Some(ColumnAttr(name, attr, dv, notNull))
  }

  /** The line panics exactly when, trailing commas stripped, it has no
      space; otherwise the name is the text before the first space, and
      `NOT NULL ENABLE` and the default are looked for in what follows it. */
  lemma ColumnLineSplit(s: string)
    ensures var r := ParseColumnLine(s);
      && (r.None? <==> ' ' !in TrimRightCommas(s))
      && (r.Some? ==> ' ' !in r.value.name && HasPrefix(TrimRightCommas(s), r.value.name + " "))
      && (r.Some? ==>
            var rest := TrimRightCommas(s)[|r.value.name| + 1..];
            && (r.value.notNull <==> Contains(rest, NotNullClause))
            && (r.value.defaultValue, r.value.attr) == SplitDefault(StripNotNull(rest).1))
  {
    var t := TrimRightCommas(s);
    ContainsChar(t, ' ');
    match Cut(t, " ")
    case None =>
    case Some((name, rest)) =>
      ContainsChar(name, ' ');
      assert ' ' !in name by {
        forall k | 0 <= k < |name| ensures name[k] != ' ' {
          assert t[k..k + 1] == [name[k]];
          assert !OccursAt(t, " ", k);
        }
      }
      assert t[|name| + 1..] == rest;
      StripNotNullRule(rest);
  }

  // ------------------------------------------------------- the column block

  /** A line the column loop gets past without panicking. */
  predicate Accepted(line: string) {
    match Classify(line)
    case Unsliceable => false
    case Definition(t) => ParseColumnLine(t).Some?
    case _ => true
  }

  /** The panic a line that is not accepted causes. */
  function FaultAt(lines: seq<string>, k: nat): Fault
    requires k < |lines|
  {
    if Classify(lines[k]).Unsliceable? then UnsliceableParen(k) else MissingNameSeparator(k)
  }

  /** The column loop, from line `j` on: the columns and the index of the
      first line after the block, or the fault that stops it. */
  function ParseBlock(lines: seq<string>, j: nat): (r: Result<(seq<ColumnAttr>, nat), Fault>)
    requires j <= |lines|
    ensures r.Ok? ==> j <= r.value.1 <= |lines|
    decreases |lines| - j
  {
    if j == |lines| then Ok(([], j))
    else
      match Classify(lines[j])
      case Unsliceable => Err(UnsliceableParen(j))
      case Closing => Ok(([], j + 1))
      case Noise => ParseBlock(lines, j + 1)
      case Definition(t) =>
        match ParseColumnLine(t)
        case None => Err(MissingNameSeparator(j))
        case Some(c) =>
          match ParseBlock(lines, j + 1)
          case Err(e) => Err(e)
          case Ok((cs, next)) => Ok(([c] + cs, next))
  }

  /** The index of the closing line of the block starting at `j`, or the
      number of lines when the text ends first. */
  function BlockEnd(lines: seq<string>, j: nat): (e: nat)
    requires j <= |lines|
    ensures j <= e <= |lines|
    ensures e < |lines| ==> Classify(lines[e]).Closing?
    ensures forall k :: j <= k < e ==> !Classify(lines[k]).Closing?
    decreases |lines| - j
  {
    if j == |lines| || Classify(lines[j]).Closing? then j else BlockEnd(lines, j + 1)
  }

  /** The column lines among `lines[j..e]`, in order. */
  function DefinitionsBetween(lines: seq<string>, j: nat, e: nat): seq<string>
    requires j <= e <= |lines|
    decreases e - j
  {
    if j == e then []
    else match Classify(lines[j])
      case Definition(t) => [t] + DefinitionsBetween(lines, j + 1, e)
      case _ => DefinitionsBetween(lines, j + 1, e)
  }

  /** The block parses exactly when every line up to the closing one is
      accepted. */
  lemma {:induction false} ParseBlockOk(lines: seq<string>, j: nat)
    requires j <= |lines|
    ensures ParseBlock(lines, j).Ok? <==> forall k :: j <= k < BlockEnd(lines, j) ==> Accepted(lines[k])
    decreases |lines| - j
  {
    if j < |lines| {
      match Classify(lines[j])
      case Closing =>
        assert BlockEnd(lines, j) == j;
      case Unsliceable =>
        assert !Accepted(lines[j]) && j < BlockEnd(lines, j);
      case Noise =>
        ParseBlockOk(lines, j + 1);
        assert Accepted(lines[j]) && BlockEnd(lines, j) == BlockEnd(lines, j + 1);
      case Definition(t) =>
        ParseBlockOk(lines, j + 1);
        assert BlockEnd(lines, j) == BlockEnd(lines, j + 1);
        if ParseColumnLine(t).None? {
          assert !Accepted(lines[j]);
        } else {
          assert Accepted(lines[j]);
        }
    }
  }

  /** A block that parses ends just after its closing line. */
  lemma {:induction false} ParseBlockNext(lines: seq<string>, j: nat)
    requires j <= |lines|
    requires ParseBlock(lines, j).Ok?
    ensures var e := BlockEnd(lines, j);
      ParseBlock(lines, j).value.1 == (if e < |lines| then e + 1 else e)
    decreases |lines| - j
  {
    if j < |lines| {
      match Classify(lines[j])
      case Closing =>
      case Unsliceable =>
      case Noise =>
        ParseBlockNext(lines, j + 1);
      case Definition(t) =>
        ParseBlockNext(lines, j + 1);
    }
  }

  /** The columns are the column lines of the block, one per line and in
      line order: as many columns as lines that start with a double quote. */
  lemma {:induction false} ParseBlockColumns(lines: seq<string>, j: nat)
    requires j <= |lines|
    requires ParseBlock(lines, j).Ok?
    ensures var cols := ParseBlock(lines, j).value.0;
      var defs := DefinitionsBetween(lines, j, BlockEnd(lines, j));
      && |cols| == |defs|
      && forall k :: 0 <= k < |cols| ==> ParseColumnLine(defs[k]) == Some(cols[k])
    decreases |lines| - j
  {
    if j < |lines| {
      match Classify(lines[j])
      case Closing =>
      case Unsliceable =>
      case Noise =>
        ParseBlockColumns(lines, j + 1);
        assert BlockEnd(lines, j) == BlockEnd(lines, j + 1);
      case Definition(t) =>
        ParseBlockColumns(lines, j + 1);
        assert BlockEnd(lines, j) == BlockEnd(lines, j + 1);
    }
  }

  /** A fault names the first line of the block that is not accepted. */
  lemma {:induction false} ParseBlockFault(lines: seq<string>, j: nat)
    requires j <= |lines|
    requires ParseBlock(lines, j).Err?
    ensures exists k :: && j <= k < BlockEnd(lines, j) && !Accepted(lines[k])
                        && (forall m :: j <= m < k ==> Accepted(lines[m]))
                        && ParseBlock(lines, j).error == FaultAt(lines, k)
    decreases |lines| - j
  {
    if Accepted(lines[j]) {
      ParseBlockFault(lines, j + 1);
      var k :| && j + 1 <= k < BlockEnd(lines, j + 1) && !Accepted(lines[k])
               && (forall m :: j + 1 <= m < k ==> Accepted(lines[m]))
               && ParseBlock(lines, j + 1).error == FaultAt(lines, k);
      assert forall m :: j <= m < k ==> Accepted(lines[m]);
    }
  }
}
