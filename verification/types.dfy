/** The data the export works on: column descriptors, fetched cells and rows,
    and the conditions under which the program stops early. */
module Types {

  /** One Go byte. Go strings are byte strings; everywhere in this model a
      `string` stands for such a byte string, one `char` per byte. */
  type byte = x: int | 0 <= x < 256

  datatype Option<+T> = None | Some(value: T)

  datatype Result<+T, +E> = Ok(value: T) | Err(error: E)

  /** One column of a table as recovered from its DDL (`ColumnAttr`):
      its quoted name, the remaining type text, the default literal
      ("" when there is none) and whether `NOT NULL ENABLE` was declared. */
  datatype ColumnAttr = ColumnAttr(name: string, attr: string, defaultValue: string, notNull: bool)

  /** One fetched cell: `None` is SQL NULL (a nil `sql.RawBytes`). */
  type Cell = Option<seq<byte>>

  /** One fetched row, positionally aligned with the column list. */
  type Row = seq<Cell>

  /** The conditions under which the program panics. Line numbers are
      0-based indices into the scanned DDL lines. */
  datatype Fault =
    | UnsliceableParen(line: nat)        // `s[2:]` applied to a bare "("
    | MissingNameSeparator(line: nat)    // `slice[1]` after `SplitN` found no space
    | QueryRejected(query: string)       // the projection query returned an error
    | ColumnOutOfRange(row: nat, columns: nat)  // `tableColumns[i]` for a non-NULL cell past the columns

  /** What was printed, one `Println` argument per element, and the fault
      that ended the run early, if any. Output printed before a panic stays
      printed, so a faulty run still carries its partial output. */
  datatype Emitted = Emitted(out: seq<string>, fault: Option<Fault>)
}
