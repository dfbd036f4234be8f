/** The per-cell literal encoder of the INSERT loop: a fetched cell and its
    column's descriptor become the SQL text that goes into `VALUES (...)`. */
module Literal {
  import opened Types
  import opened Text
  import Hex

  /** The column classes the encoder tells apart, by `Attr` prefix. */
  datatype Kind = NationalText | DateValue | Binary | Plain

  /** The prefixes are tried in the source's order: `NVARCHAR`, `DATE`,
      `BLOB`; every other type (numbers, `VARCHAR2`, ...) is `Plain`. */
  function KindOf(attr: string): Kind {
    if HasPrefix(attr, "NVARCHAR") then NationalText
    else if HasPrefix(attr, "DATE") then DateValue
    else if HasPrefix(attr, "BLOB") then Binary
    else Plain
  }

  /** Go's `string(col)`: the bytes, one character each. */
  function BytesText(b: seq<byte>): (t: string)
    ensures |t| == |b|
    ensures forall i :: 0 <= i < |b| ==> t[i] as int == b[i]
  {
    seq(|b|, i requires 0 <= i < |b| => b[i] as char)
  }

  /** The bytes of a text whose characters are all bytes. */
  function TextBytes(t: string): Option<seq<byte>>
    decreases |t|
  {
    if t == [] then Some([])
    else if t[0] as int >= 256 then None
    else match TextBytes(t[1..])
      case None => None
      case Some(rest) => Some([t[0] as int] + rest)
  }

  lemma {:induction false} TextBytesOfBytes(b: seq<byte>)
    ensures TextBytes(BytesText(b)) == Some(b)
  {
    if b != [] {
      assert BytesText(b)[1..] == BytesText(b[1..]);
      TextBytesOfBytes(b[1..]);
      assert [b[0]] + b[1..] == b;
    }
  }

  const DateMask: string := "RR-MM-DD"
  const DateOpen: string := "TO_DATE('"
  const DateClose: string := "','" + DateMask + "')"
  const HexOpen: string := "HEXTORAW('"
  const HexClose: string := "')"

  /** The text `NULL` as fetched bytes. */
  const NullBytes: seq<byte> := [78, 85, 76, 76]

  /** The literal for one cell. NULL wins over the type; quoted forms are
      not escaped; `Plain` values go out as they were fetched. */
  function EncodeCell(cell: Cell, c: ColumnAttr): (lit: string)
    ensures cell.None? ==> lit == "NULL"
    ensures cell.Some? && KindOf(c.attr) != Plain ==> lit != [] && !EndsWithComma(lit)
    ensures cell.Some? && KindOf(c.attr) == Binary ==>
      && |lit| == |HexOpen| + 2 * |cell.value| + |HexClose|
      && var h := lit[|HexOpen|..|lit| - |HexClose|];
         forall k :: 0 <= k < |h| ==> Hex.IsLowerHexDigit(h[k])
  {
    match cell
    case None => "NULL"
    case Some(v) =>
      match KindOf(c.attr)
      case NationalText => "'" + BytesText(v) + "'"
      case DateValue => DateOpen + BytesText(v) + DateClose
      case Binary =>
        var lit := HexOpen + Hex.Encode(v) + HexClose;
        assert lit[|HexOpen|..|lit| - |HexClose|] == Hex.Encode(v);
        lit
      case Plain => BytesText(v)
  }

  // ------------------------------------------------------------- decoding

  function SomeCell(b: Option<seq<byte>>): Option<Cell> {
    match b
    case None => None
    case Some(v) => Some(Some(v))
  }

  /** Reads a literal of the given class back into the cell it stands for;
      `None` when the text is not a literal of that form. */
  function DecodeLiteral(lit: string, k: Kind): Option<Cell> {
    if lit == "NULL" then Some(None)
    else match k
      case NationalText =>
        if |lit| >= 2 && lit[0] == '\'' && lit[|lit| - 1] == '\'' then SomeCell(TextBytes(lit[1..|lit| - 1]))
        else None
      case DateValue =>
        if |lit| >= |DateOpen| + |DateClose| && HasPrefix(lit, DateOpen) && lit[|lit| - |DateClose|..] == DateClose
        then SomeCell(TextBytes(lit[|DateOpen|..|lit| - |DateClose|]))
        else None
      case Binary =>
        if |lit| >= |HexOpen| + |HexClose| && HasPrefix(lit, HexOpen) && lit[|lit| - |HexClose|..] == HexClose
        then SomeCell(Hex.Decode(lit[|HexOpen|..|lit| - |HexClose|]))
        else None
      case Plain => SomeCell(TextBytes(lit))
  }

  /** Every literal reads back as the cell it was made from, except that a
      `Plain` cell holding the text `NULL` cannot be told from SQL NULL. */
  lemma DecodeEncodeCell(cell: Cell, c: ColumnAttr)
    requires !(KindOf(c.attr) == Plain && cell == Some(NullBytes))
    ensures DecodeLiteral(EncodeCell(cell, c), KindOf(c.attr)) == Some(cell)
  {
    match cell
    case None =>
    case Some(v) =>
      var t := BytesText(v);
      TextBytesOfBytes(v);
      var lit := EncodeCell(cell, c);
      match KindOf(c.attr)
      case NationalText =>
        assert lit[0] == '\'' && lit[1..|lit| - 1] == t;
      case DateValue =>
        assert |lit| >= |DateOpen| + |DateClose|;
        assert lit[..|DateOpen|] == DateOpen && lit[|lit| - |DateClose|..] == DateClose;
        assert lit[|DateOpen|..|lit| - |DateClose|] == t;
      case Binary =>
        Hex.DecodeEncode(v);
        assert |lit| >= |HexOpen| + |HexClose|;
        assert lit[..|HexOpen|] == HexOpen && lit[|lit| - |HexClose|..] == HexClose;
      case Plain =>
        assert t != "NULL" by {
          if |v| == 4 {
            assert v != NullBytes;
            var i :| 0 <= i < 4 && v[i] != NullBytes[i];
            assert t[i] != "NULL"[i];
          }
        }
  }

  /** The one collision: a `Plain` cell whose text is `NULL` is written
      exactly like SQL NULL. */
  lemma PlainNullCollision(c: ColumnAttr)
    requires KindOf(c.attr) == Plain
    ensures EncodeCell(Some(NullBytes), c) == EncodeCell(None, c)
  {
    assert BytesText(NullBytes) == "NULL";
  }

  /** A quoted literal with no quote inside it: what SQL reads as one
      string literal holding the text between the quotes. */
  predicate PlainQuoted(lit: string) {
    |lit| >= 2 && lit[0] == '\'' && lit[|lit| - 1] == '\'' && '\'' !in lit[1..|lit| - 1]
  }

  /** An NVARCHAR value is written as one well-formed string literal exactly
      when it holds no single quote: the encoder does not double quotes. */
  lemma NationalQuoting(v: seq<byte>, c: ColumnAttr)
    requires KindOf(c.attr) == NationalText
    ensures PlainQuoted(EncodeCell(Some(v), c)) <==> '\'' !in BytesText(v)
  {
    var lit := EncodeCell(Some(v), c);
    assert lit[1..|lit| - 1] == BytesText(v);
  }
}
