# SQLbackup export core, in Dafny

SQLbackup writes an Oracle table out as SQL text. It fetches the table's
`CREATE TABLE` statement from `dbms_metadata.get_ddl` and prints it. It then
reads that DDL text line by line and recovers the column list: name, type
text, default and `NOT NULL`. From the columns it builds a `SELECT` that
fetches every row as text or raw bytes. Each row is then printed as an
`Insert Into` statement, after a `SET DEFINE OFF;` line.

This project models that text-transformation core (`ddlAnalyze` and the text
parts of `tableAnalyze` in `cmd/root.go`) as pure functions, and proves
properties about it. The modules follow the program's steps:

- `Types`: the column descriptor `ColumnAttr`, fetched cells and rows, and
  the `Fault`s that stand for the program's panics. `Emitted` is what the
  program printed (one element per `Println` argument) together with the
  fault that stopped it, if any.
- `Text`: the parts of Go's `strings` package the code uses. These are
  `TrimSpace`, `TrimRight(s, ",")`, `Contains`, `SplitN(s, sep, 2)` (as
  `Cut`), one `Replace`, and `Join`. A `string` is a Go byte string, one
  `char` per byte.
- `Lines`: `bufio.Scanner` with `ScanLines`, which splits the DDL text into
  lines.
- `Schema`: the column-definition parser. It covers line classification,
  the name/rest split, `NOT NULL ENABLE`, `DEFAULT` (quoted and bare), and
  the loop over the column block.
- `ColumnText`: column lines written from their parts. Parsing such a line
  gives the parts back.
- `Literal` and `Hex`: the per-cell literal encoder, and `encoding/hex`.
- `Statements`: the projection query, the `Insert Into` statement for one
  row, and the statements for all rows.
- `Backup`: the scan over the DDL lines for `CREATE TABLE`, with the
  database as a parameter. It also covers the DDL accumulation and the
  optional `DROP TABLE` line.
- `Samples`: worked instances on concrete text.

Panics are not fixed. Each becomes a `Fault`, and the output printed before
it stays in `Emitted`:

- `UnsliceableParen`: `s[2:]` on a bare `(`.
- `MissingNameSeparator`: `slice[1]` when a column line has no space.
- `QueryRejected`: the projection query returns an error.
- `ColumnOutOfRange`: `tableColumns[i]` for a non-NULL cell beyond the
  column list. A NULL cell there is printed as `NULL`, because the NULL
  test comes first.

Details of the output that follow from the code:

- BLOB values are written with `hex.EncodeToString`, which writes
  lower-case hex (`HEXTORAW('dead')`).
- A column's name keeps its double quotes (`"NOTES"`), because the code
  splits the trimmed line at the first space.
- `Attr` keeps the spaces left behind where `NOT NULL ENABLE` and the
  default were cut out. For example, `VARCHAR2(200) DEFAULT 'n/a' NOT NULL
  ENABLE` leaves `VARCHAR2(200)` followed by three spaces
  (`ColumnText.Padding`).

Hazards of the code as written are stated as lemmas and are not corrected:

- Trailing commas in the last value are trimmed together with the separator
  (`Statements.PlainTrailingCommaLost`).
- A `Plain` cell holding the text `NULL` is written exactly like SQL NULL
  (`Literal.PlainNullCollision`).
- Quotes inside an `NVARCHAR` value are not doubled
  (`Literal.NationalQuoting`).

## Model

| member | source | states |
|---|---|---|
| Schema.ClassifyRule | cmd/root.go:132-143 | A trimmed line that is a bare `(` is the slicing panic. After a leading `(`, the two characters it starts with are dropped and the rest is trimmed again, so the block's first line `(\t"ID" NUMBER,` is a column line. In that examined text, a line starting with `)` closes the block, one starting with a double quote is a column line, and every other line (`USING INDEX ...`, an empty one) is skipped. A column text is trimmed, starts with the quote and does not end in whitespace. |
| Schema.ColumnLineSplit | cmd/root.go:144-148 | The line panics exactly when it has no space once its trailing commas are gone. Otherwise the name is the space-free text before the first space, and the flag and the default are read from the text after that space. |
| Schema.StripNotNullRule | cmd/root.go:149-153 | `NotNull` is set exactly when `NOT NULL ENABLE` occurs. Then exactly its first occurrence is cut out. Otherwise the text is unchanged. |
| Schema.QuotedDefaultRule | cmd/root.go:158-162 | A default starting with a quote runs to the next quote, with no quote inside, and keeps its quotes. A doubled quote is not read as an escape. The attribute is everything before `DEFAULT`, then two joining spaces and the text after the closing quote, or one space when the quote is never closed. |
| Schema.TokenDefaultRule | cmd/root.go:163-168 | Any other default is the first space-delimited token. The attribute is everything before `DEFAULT`, then one space and the text after the token's space, or nothing more when the token ends the text. |
| Schema.SplitDefaultRule | cmd/root.go:154-171 | Without `DEFAULT` the default is empty and the text is the attribute. With it, the default is taken from the trimmed text after the first `DEFAULT`, and the attribute is the text before it followed by what the quoted or bare rule keeps after the default. |
| Schema.ParseBlock | cmd/root.go:131-176 | A column block that parses ends at or after its first line and within the text. |
| Schema.ParseBlockOk | cmd/root.go:131-176 | The block parses exactly when every line before the closing `)` line is free of both panics. |
| Schema.ParseBlockNext | cmd/root.go:137-139 | The scan resumes just after the `)` line. If there is none, it resumes at the end of the text. |
| Schema.ParseBlockColumns | cmd/root.go:140-175 | There is one column per line that starts with a double quote, in line order, and each is that line parsed. |
| Schema.ParseBlockFault | cmd/root.go:133-148 | A failing block fails with the panic of its first line that panics. |
| ColumnText.ParseRender | cmd/root.go:144-173 | Parsing a well-formed column line gives back its name, its type (with the padding spaces the cuts leave), its default with its quotes, and its `NOT NULL` flag. |
| Statements.ProjectionQuery | cmd/root.go:179-190 | The query is `SELECT`, the comma-joined select list with its trailing commas trimmed, `FROM` and the table. If the list does not end in a comma, it appears unchanged. |
| Statements.RawColumnsAgree | cmd/root.go:181-186 | The query fetches a column without `TO_CHAR` exactly when the encoder quotes it (`NVARCHAR`) or hex-encodes it (`BLOB`). |
| Statements.ProjectionQueryExact | cmd/root.go:189-190 | When the last column goes through `TO_CHAR`, the trim removes only the final separator. |
| Literal.EncodeCell | cmd/root.go:219-231 | A NULL cell is written `NULL` whatever the type. A quoted, date or binary literal is non-empty and does not end in a comma. A BLOB literal holds exactly two lower-case hex digits per byte. |
| Literal.DecodeEncodeCell | cmd/root.go:221-231 | Every literal reads back as the cell it came from. The one exception is a `Plain` cell whose text is `NULL`. |
| Literal.PlainNullCollision | cmd/root.go:221-230 | A `Plain` cell holding the text `NULL` is written exactly like SQL NULL. |
| Literal.NationalQuoting | cmd/root.go:223-224 | An `NVARCHAR` value forms one well-formed string literal exactly when it holds no single quote. |
| Literal.TextBytesOfBytes | cmd/root.go:224-230 | `string(col)` loses nothing: the bytes can be read back from the text. |
| Hex.Encode | cmd/root.go:228 | The hex text is twice as long as the bytes and uses only lower-case digits. |
| Hex.EncodeAt | cmd/root.go:228 | Byte `i` is written at position `2i`: its high nibble first, then its low nibble. |
| Hex.DecodeEncode | cmd/root.go:228 | Decoding the hex text gives the bytes back. |
| Statements.Cells | cmd/root.go:219-232 | Each cell is encoded with its own column's descriptor, in row order. A NULL cell beyond the columns is written `NULL`. |
| Statements.InsertStatementJoins | cmd/root.go:233-240 | The statement is the `Insert Into <table> (` head, the comma-joined names, `) VALUES (`, the comma-joined values and `);`. Each list loses only its trailing commas, and the head is never trimmed. |
| Statements.InsertStartsWithHead | cmd/root.go:233-241 | Every statement starts with `Insert Into <table> (`. |
| Statements.InsertStatementExact | cmd/root.go:233-240 | When neither list ends in a comma, the statement has exactly the joined names and the joined values. |
| Statements.ThreeColumnInsert | cmd/root.go:219-240 | For a number, an `NVARCHAR` and a `DATE` column, the statement lists the three names. The number appears as fetched, the text in quotes and the date through `TO_DATE` with the `RR-MM-DD` mask. |
| Statements.LastCellKeepsValues | cmd/root.go:237 | If the last cell is NULL, or belongs to a quoted, date or binary column, trimming the value list changes nothing. |
| Statements.PlainTrailingCommaLost | cmd/root.go:230-237 | A last `Plain` value `7,` is printed as `7`. |
| Statements.InsertsFrom | cmd/root.go:213-242 | There is one statement per row, in row order. Output stops before the first row that has a non-NULL cell beyond the columns, and that row is the one the fault names. |
| Lines.SplitLines | cmd/root.go:117-119 | No scanned line contains a newline. |
| Lines.SplitLinesRejoin | cmd/root.go:117-119 | For text without carriage returns, the scanned lines, each followed by a newline, give back the text. A newline is added when the text did not end in one. |
| Lines.SplitLinesAppend | cmd/root.go:117-119 | When a text ends in a newline, the lines of the text followed by more text are its own lines followed by the lines of the rest. |
| Backup.TableOutput | cmd/root.go:127-246 | After one table, the scan goes on exactly when no fault occurred, and it goes on from a later line within the text. |
| Backup.Analyze | cmd/root.go:117-252 | A scan that completes ends with the two empty lines. |
| Backup.AnalyzeNoTable | cmd/root.go:119-251 | A text with no `CREATE TABLE` line prints only the two empty lines. |
| Backup.AnalyzeSkips | cmd/root.go:124-127 | Lines before the first `CREATE TABLE` print nothing. |
| Backup.AnalyzeLines | cmd/root.go:207-251 | Every printed line is empty, `SET DEFINE OFF;`, or an `Insert Into` statement for the table. |
| Backup.OneTable | cmd/root.go:115-253 | Take a text with one `CREATE TABLE`, a block that parses, an accepted query and rows that fit. The output is `SET DEFINE OFF;`, one statement per row in row order, and the two empty lines, with no fault. |
| Backup.AccumulateDdlTerminated | cmd/root.go:275-283 | The accumulated DDL is each fetched row followed by `;` and a newline, in order. |
| Backup.DdlLinesAppend | cmd/root.go:282 | The scanner reads the accumulated DDL as the lines of the earlier rows followed by the lines of the last row. |
| Backup.OneLineRow | cmd/root.go:282 | A DDL row without a newline is read back as one line ending in `;`. |
| Backup.DropStatement | cmd/root.go:287 | The DROP line is `DROP TABLE "`, then the name, then `";`. |
| Backup.DroppedTableOfDrop | cmd/root.go:287 | The name can be read back from the DROP line. |
| Backup.TableScript | cmd/root.go:286-290 | When asked for, the DROP line naming the table comes first. The DDL piece after it is each fetched row followed by `;` and a newline. |
| Text.TrimRightCommas | cmd/root.go:144 | `TrimRight(s, ",")` is a prefix of the text that does not end in a comma, and only commas were removed. |
| Text.TrimSpaceUnique | cmd/root.go:125 | Trimming whitespace around a text that neither starts nor ends in whitespace gives that text back. |
| Text.Cut | cmd/root.go:145 | `SplitN(s, sep, 2)` finds nothing exactly when `sep` does not occur. Otherwise it splits around the first occurrence. |
| Text.TrimTerminatedCommas | cmd/root.go:180-189 | Appending a comma to each piece and then trimming trailing commas gives the same result as joining with commas and then trimming. |
| Samples.NotesColumn | cmd/root.go:132-173 | The line `"NOTES" VARCHAR2(200) DEFAULT 'n/a' NOT NULL ENABLE,` is a column line. It parses to name `"NOTES"`, attribute `VARCHAR2(200)` followed by three spaces, default `'n/a'`, and `NotNull`. |
| Samples.DateCell | cmd/root.go:225-226 | A DATE cell `21-JAN-24` is written `TO_DATE('21-JAN-24','RR-MM-DD')`. |
| Samples.BlobCell | cmd/root.go:227-228 | The BLOB bytes `DE AD` are written `HEXTORAW('dead')`. |

## Left out

- The command line (cobra, viper), the credentials, and the per-user loop
  in `analyze`: these are not part of the text core.
- The database: queries go to a `fetch` parameter that either rejects a
  query or returns its rows. The ping, the timeouts and the
  `dbms_metadata.get_ddl` query in `tableAnalyze` are left out. The DDL rows
  are an input.
- Errors from `rows.Columns`, `rows.Scan` and `rows.Close`: the driver's
  behaviour cannot be seen from the code. A query is modelled as one that
  either fails (`QueryRejected`) or yields all its rows.
- The width of a fetched row. The source always scans `len(cols)` cells. The
  model allows any width and reports `ColumnOutOfRange` where the source
  would index past the column list.
- `sc.Err()` and `bufio.Scanner`'s 64 KiB line limit: the model reads
  lines of any length and never fails to read.
- `strings.TrimSpace` on non-ASCII text: only ASCII whitespace is trimmed.
  Go also trims Unicode spaces such as U+0085 and U+00A0.
- The output stream: `fmt.Println` is modelled by the list of printed
  arguments, without the newline each one gets.
- ColumnText.ParseRender: covers only well-formed column lines (see
  `WellFormed`). Lines with a doubled quote in a default, or a `DEFAULT`
  inside the type text, are described only by the `Schema` rule lemmas.
- Lines.SplitLinesRejoin: is stated only for text without carriage returns,
  because the scanner drops a `\r` before each newline.
- Backup.Analyze: its own contract states only the two closing empty lines.
  What the scan prints before them is stated by `Backup.AnalyzeLines`,
  `Backup.AnalyzeNoTable` and `Backup.OneTable`.
- Backup.OneTable: gives the exact output only for a text with one
  `CREATE TABLE`. For more tables, `Backup.AnalyzeLines` and
  `Backup.TableOutput` state what each table adds.
