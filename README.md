# rust-csv in Dafny

A model of `CsvFile`, the in-memory table of the rust-csv library
(`src/lib.rs`). A `CsvFile` holds a list of header names, `heads`, and a
list of rows, `rows`, each row a list of text cells of any length: nothing
ties a row's length to the number of headers. The library reads such a
table from comma-delimited text, lets callers look up and change headers,
cells and rows in place, and writes the table back as comma-delimited text.
The text format has no quoting and no escaping: every `,` separates two
cells and every line break separates two rows.

The model has four modules:

- `Wrappers` (`wrappers.dfy`): `Option` and `Result`.
- `Text` (`text.dfy`): the string operations the library calls, in their
  Rust meaning: `str::split` on one character (`Split`), `[String]::join`
  (`Join`) and `BufRead::lines` (`Lines`: lines end at `\n`, a `\r` just
  before that `\n` is dropped as well, and a final `\n` does not start an
  empty line).
- `Table` (`table.dfy`): the table as a value, `Table(heads, rows)`, with
  the text format: `Parse` (the pipeline of `read`), `Serialize` (the text
  `write` produces) and the round trip between them.
- `Csv` (`csv_file.dfy`): the class `CsvFile` with the fields `heads` and
  `rows`. The read-only accessors are functions. The mutators are methods
  that reassign the fields (`modifies this`). `DeleteCol`, `PopCol` and
  `Write` are loops over the rows, as in the library.

`scenarios.dfy` holds illustrative examples of our own, proved against the
model: header lookup, a column over a short row, `delete_col` skipping a
short row, `pop_row` on no rows, parsing a small file, an input without a
non-empty line, and writing a table without headers.

The library has two bounds policies, and the model keeps both:

- `set_head`, `push_col`, `set_col`, `set_row` and `delete_row` do nothing
  when the index is out of range. So do the per-row steps of `delete_col`
  and `pop_col`.
- `insert_head`, `delete_head`, `insert_col`, `insert_row` and
  `delete_col` panic on an out-of-range index. For `insert_head`,
  `delete_head`, `insert_row` and `delete_col` the panic is the bounds
  check of `Vec::insert` or `Vec::remove`. `insert_col` panics through the
  indexing `rows[row]` as well as through `Vec::insert`. In the model each
  panic is a precondition.

`read` indexes `contents[0]`, which panics on a text without a non-empty
line. The model returns `Err(EmptyInput)` for that case instead.

Writing and then reading a table gives it back when these hold:

- no cell holds `,` or `\n`;
- neither the header line nor any row line is empty;
- no such line ends in `\r`.

This is `Table.ParseSerialize`. The last condition comes from the library's
use of `BufRead::lines`, which drops a `\r` before a `\n` (`Text.LinesCons`)
but keeps it on a last line that has no `\n` (`Text.LinesLast`). When the rows
may be blank (`[]` or `[""]`), `Table.ParseSerializeBlank` states what the
round trip gives instead: blank rows are written as empty lines, and
reading skips empty lines, so they are lost.

Two expectations one might have of the library do not hold of its code,
and the model follows the code:

- One might expect writing and reading to give back any table whose rows
  all have one cell per header, provided no cell holds a comma. The code
  needs more, as listed above. A one-column table with an empty cell loses
  that row. A line ending in `\r` loses the `\r`.
- One might expect `insert_col` to need only an existing row. `Vec::insert`
  also panics when the position is past the end of the row, so `InsertCol`
  requires both.

## Model

| member | source | states |
|---|---|---|
| `Csv.Position` | src/lib.rs:47-49 | `Iterator::position`: `None` exactly when the name is absent, otherwise an in-range index holding the name with no earlier occurrence |
| `Csv.CsvFile.HeadPos` | src/lib.rs:47-49 | `head_pos`: `None` iff no header equals the name; otherwise the smallest index whose header equals it |
| `Csv.Column` | src/lib.rs:68-78 | projection of column `i`: one entry per row, the row's cell at `i` when the row is long enough, `""` otherwise |
| `Csv.CsvFile.Cols` | src/lib.rs:65-81 | `cols`: `None` iff the name is not a header; otherwise one entry per row, the cell under the first matching header or `""` for a short row |
| `Csv.RemoveCell` | src/lib.rs:203-207 | the per-row step of `delete_col`: a row long enough loses exactly its cell at the position, a shorter row is unchanged |
| `Csv.DropLast` | src/lib.rs:220-222 | `Vec::pop` on a row or the headers: a non-empty list loses exactly its last element, an empty one stays empty |
| `Csv.InsertAt` | src/lib.rs:133 | `Vec::insert`: one element longer, the element at the position, the others before and after it in order |
| `Csv.RemoveAt` | src/lib.rs:142 | `Vec::remove`: one element shorter, the elements before and after the position in order |
| `Csv.CsvFile.Row` | src/lib.rs:88-90 | `row`: `Some(rows[p])` iff `p < |rows|` |
| `Csv.CsvFile.Cell` | src/lib.rs:97-101 | `cell`: `Some(rows[r][c])` iff `r < |rows|` and `c < |rows[r]|`, `None` otherwise |
| `Csv.CsvFile.constructor` | src/lib.rs:29-31 | `new`: no headers and no rows |
| `Csv.CsvFile.PushHead` | src/lib.rs:110-112 | appends the header, rows unchanged; the name is then found by `HeadPos` |
| `Csv.CsvFile.SetHead` | src/lib.rs:119-125 | replaces exactly the header at the position when it exists, otherwise changes nothing; rows unchanged |
| `Csv.CsvFile.InsertHead` | src/lib.rs:132-134 | requires position ≤ number of headers; the header is inserted there, the others keep their order; rows unchanged |
| `Csv.CsvFile.DeleteHead` | src/lib.rs:141-143 | requires an existing position; returns that header and removes exactly it; rows unchanged |
| `Csv.CsvFile.PopHead` | src/lib.rs:150-152 | `None` and no change on no headers; otherwise returns the last header and removes it; rows unchanged |
| `Csv.CsvFile.PushCol` | src/lib.rs:159-165 | appends the cell to exactly the targeted row when it exists, otherwise no change; headers unchanged |
| `Csv.CsvFile.SetCol` | src/lib.rs:172-182 | replaces exactly the targeted cell when row and cell exist, otherwise no change; keeps a rectangular table rectangular |
| `Csv.CsvFile.InsertCol` | src/lib.rs:189-191 | requires an existing row and a position ≤ its length; inserts the cell into that row only |
| `Csv.CsvFile.DeleteCol` | src/lib.rs:198-209 | requires an existing header position; removes that header; every row long enough loses exactly its cell there, shorter rows are unchanged, the row count is kept; keeps a rectangular table rectangular |
| `Csv.CsvFile.PopCol` | src/lib.rs:216-223 | removes the last header if any and the last cell of every non-empty row; empty rows stay empty, the row count is kept; keeps a rectangular table rectangular |
| `Csv.CsvFile.PushRow` | src/lib.rs:230-232 | appends the row, headers unchanged |
| `Csv.CsvFile.SetRow` | src/lib.rs:239-245 | replaces exactly the row at the position when it exists, otherwise no change |
| `Csv.CsvFile.InsertRow` | src/lib.rs:252-254 | requires position ≤ number of rows; the row is inserted there, the others keep their order |
| `Csv.CsvFile.DeleteRow` | src/lib.rs:261-267 | out of range: `None` and no change; otherwise returns the old row and removes exactly it |
| `Csv.CsvFile.PopRow` | src/lib.rs:274-276 | `None` on no rows; otherwise returns the last row and removes it |
| `Csv.CsvFile.Read` | src/lib.rs:297-316 | `read` on a text: a fresh table holding what `Parse` gives, or the `EmptyInput` error |
| `Csv.CsvFile.Write` | src/lib.rs:323-338 | `write`: the loop over the rows produces exactly `Serialize` of the table |
| `Table.Parse` | src/lib.rs:301-315 | an error iff every line is empty; otherwise the headers are the first non-empty line split on `,` and each row the next non-empty line split on `,`, each with at least one cell and joining back to its line |
| `Table.NonEmptyLines` | src/lib.rs:304 | keeps only non-empty lines; empty iff every line is empty; keeps everything when no line is empty |
| `Table.NonEmptyLinesOne` | src/lib.rs:304 | a single line is kept exactly when it is not empty |
| `Table.NonEmptyLinesAppend` | src/lib.rs:304 | the filter distributes over concatenation, so it keeps order and keeps every non-empty line |
| `Table.SplitAll` | src/lib.rs:305-309 | one cell list per line, each the line split on `,`, with at least one cell, joining back to the line |
| `Table.RowLinesSnoc` | src/lib.rs:332-335 | writing one more row appends exactly that row's joined line and a `\n` |
| `Table.HeaderLine` | src/lib.rs:327-330 | empty exactly when there are no headers, and otherwise ends with `\n` |
| `Table.RowLines` | src/lib.rs:332-335 | empty exactly when there are no rows, and otherwise ends with `\n` |
| `Table.Serialize` | src/lib.rs:327-335 | empty exactly for no headers and no rows, otherwise ending with `\n`; without headers no header line is written, not even an empty one |
| `Csv.WriteStep` | src/lib.rs:332-335 | one iteration of the row loop extends the text written so far by exactly that row's line |
| `Table.NonBlankRows` | src/lib.rs:304 | only rows that are not `[]` or `[""]`, each one of the given rows; all rows when none is blank |
| `Table.NonBlankRowsOne` | src/lib.rs:304 | a single row is kept exactly when it is not blank |
| `Table.NonBlankRowsAppend` | src/lib.rs:304 | the filter distributes over concatenation, so it keeps order and keeps every non-blank row |
| `Table.LineSafeLine` | src/lib.rs:333 | a line-safe row's line is non-empty, has no line break, does not end in `\r`, and splits back into the row |
| `Table.ParseRowLines` | src/lib.rs:301-310 | reading the row lines that `write` produced yields the non-blank rows |
| `Table.ParseSerializeBlank` | src/lib.rs:297-338 | reading what `write` produced gives the headers and the non-blank rows |
| `Table.ParseSerialize` | src/lib.rs:297-338 | `read(write(t)) == t` for line-safe headers and rows |
| `Text.IndexOf` | src/lib.rs:306 | the first occurrence of a character, or the length when it does not occur |
| `Text.IndexOfAfter` | src/lib.rs:306 | in `prefix + sep + rest` with no separator in the prefix, the first separator is right after the prefix |
| `Text.JoinShape` | src/lib.rs:328 | `join`: starts with the first cell, then a separator if there is another cell, ends with the last cell, and is as long as the cells plus one separator between neighbours |
| `Text.Split` | src/lib.rs:306 | `str::split`: at least one piece, no piece contains the separator |
| `Text.JoinSplit` | src/lib.rs:306 | joining the pieces of a split gives back the text |
| `Text.SplitJoin` | src/lib.rs:328 | splitting a join of at least one separator-free cell gives back the cells |
| `Text.JoinExcludes` | src/lib.rs:333 | a character other than the separator is in the joined line only if it is in a cell |
| `Text.JoinEmpty` | src/lib.rs:304 | a joined line is empty iff there are no cells or one empty cell |
| `Text.StripCr` | src/lib.rs:302 | drops exactly one trailing `\r`, and only when there is one |
| `Text.Lines` | src/lib.rs:302 | `BufRead::lines`: no line contains `\n`; no lines exactly for the empty text |
| `Text.LinesCons` | src/lib.rs:302 | a line without `\n`, followed by `\n`, is read back less one final `\r`, and so unchanged when it does not end in `\r` |
| `Text.LinesLast` | src/lib.rs:302 | a non-empty last line without `\n` is read back whole, a final `\r` included |
| `Text.LinesRejoin` | src/lib.rs:302 | for a text without `\r`, the lines joined by `\n` give back the text, up to a final `\n` |
| `Scenarios.ExampleText` | src/lib.rs:327-335 | the table with headers `a,b` and rows `1,2` and `3,4` is written as `"a,b\n1,2\n3,4\n"` |
| `Scenarios.ParseExample` | src/lib.rs:297-316 | `"a,b\n1,2\n3,4\n"` reads as headers `a,b` and rows `1,2` and `3,4` |
| `Scenarios.EmptyInputExample` | src/lib.rs:313 | a text with no non-empty line is the `EmptyInput` error, not an empty table |
| `Scenarios.WriteExample` | src/lib.rs:327-335 | no headers and the row `["x"]` are written as exactly `"x\n"` |

## Left out

- File access: opening and creating files, `BufReader`, `BufWriter`, `flush`, and the `io::Error` results they give (src/lib.rs:298-299, 324-325, 337). `read` takes the file's text as a `string` and `write` returns the text it would write.
- Undecodable lines: `lines().flatten()` silently skips lines that fail to read or are not valid UTF-8. The model's input is text that is already decoded.
- Text as bytes: Rust strings are UTF-8 bytes and the model's are sequences of characters. Splitting on `,`, `\n` and `\r` is the same for both, because these are single-byte ASCII characters.
- `impl fmt::Display` (src/lib.rs:341-372): a decorative rendering that is never read back. Its border widths come from `head.len()`, a byte count.
- `heads()` and `rows()` (src/lib.rs:38-40, 56-58) only give read access to the fields. The model reads the fields `heads` and `rows` directly.
- `row_mapper` (src/lib.rs:283-288) copies `&str` slices into owned `String`s. Dafny strings are immutable values, so this copy is the identity. `PushRow`, `SetRow` and `InsertRow` store the given sequence itself.
- Csv.CsvFile.Write: `write` ignores the byte count that `buf.write` returns (src/lib.rs:328-334). A short write on a large line could leave the file incomplete without an error. The model's `Write` returns the whole text, as if every write were complete.
- `Debug` and `Default` derives (src/lib.rs:17).
- Panics: where Rust's `Vec` indexing panics, the model has a precondition. The panic of `read` on a text without a non-empty line is the `EmptyInput` error.
- `usize`: positions are unbounded naturals. A `Vec` length never exceeds `usize`, so no wrap-around can occur.
