/**
 * The comma-delimited text format of a table: parsing (`CsvFile::read`
 * without the file) and serialisation (`CsvFile::write` without the file),
 * over a plain value holding the header list and the rows.
 *
 * The format has no quoting and no escaping: every ',' separates cells and
 * every line break separates rows.
 */
module Table {
  import opened Wrappers
  import opened Text

  /** The cell separator, `CSV_SEP`. */
  const Sep: char := ','

  /** The contents of a table: the header list and the rows, of any lengths. */
  datatype Table = Table(heads: seq<string>, rows: seq<seq<string>>)

  /** The panic of `contents[0]` on a text without a non-empty line. */
  datatype ReadError = EmptyInput

  /** The lines that are not exactly empty, in order (see `NonEmptyLinesAppend`). */
  function NonEmptyLines(ls: seq<string>): (r: seq<string>)
    ensures |r| <= |ls|
    ensures forall k :: 0 <= k < |r| ==> r[k] != "" && r[k] in ls
    ensures |r| == 0 <==> forall k :: 0 <= k < |ls| ==> ls[k] == ""
    ensures (forall k :: 0 <= k < |ls| ==> ls[k] != "") ==> r == ls
  {
    if ls == [] then []
    else if ls[0] == "" then NonEmptyLines(ls[1..])
    else [ls[0]] + NonEmptyLines(ls[1..])
  }

  /** A single line is kept exactly when it is not empty. */
  lemma NonEmptyLinesOne(line: string)
    ensures NonEmptyLines([line]) == (if line == "" then [] else [line])
  {
    assert [line][1..] == [];
  }

  /** Filtering a concatenation filters each part: the kept lines stay in order, and a non-empty line is always kept. */
  lemma {:induction false} NonEmptyLinesAppend(a: seq<string>, b: seq<string>)
    ensures NonEmptyLines(a + b) == NonEmptyLines(a) + NonEmptyLines(b)
  {
    if a == [] {
      assert a + b == b;
    } else {
      assert (a + b)[0] == a[0];
      assert (a + b)[1..] == a[1..] + b;
      NonEmptyLinesAppend(a[1..], b);
      var rest := NonEmptyLines(a[1..]);
      assert [a[0]] + rest + NonEmptyLines(b) == [a[0]] + (rest + NonEmptyLines(b));
    }
  }

  /** Every line split into its cells. */
  function SplitAll(ls: seq<string>): (r: seq<seq<string>>)
    ensures |r| == |ls|
    ensures forall k :: 0 <= k < |r| ==> r[k] == Split(ls[k], Sep)
    ensures forall k :: 0 <= k < |r| ==> |r[k]| >= 1 && Join(r[k], Sep) == ls[k]
  {
    if ls == [] then []
    else
      JoinSplit(ls[0], Sep);
      [Split(ls[0], Sep)] + SplitAll(ls[1..])
  }

  /**
   * `CsvFile::read`: the non-empty lines, each split on ',', the first of
   * them the header list and the others the rows.
   */
  function Parse(text: string): (r: Result<Table, ReadError>)
    ensures r.Err? <==> forall k :: 0 <= k < |Lines(text)| ==> Lines(text)[k] == ""
    ensures r.Ok? ==> |r.value.heads| >= 1 && forall k :: 0 <= k < |r.value.rows| ==> |r.value.rows[k]| >= 1
    ensures r.Ok? ==>
      var ls := NonEmptyLines(Lines(text));
      && |ls| == |r.value.rows| + 1
      && r.value.heads == Split(ls[0], Sep)
      && (forall k :: 0 <= k < |r.value.rows| ==> r.value.rows[k] == Split(ls[k + 1], Sep))
      && Join(r.value.heads, Sep) == ls[0]
      && (forall k :: 0 <= k < |r.value.rows| ==> Join(r.value.rows[k], Sep) == ls[k + 1])
  {
    var contents := SplitAll(NonEmptyLines(Lines(text)));
    if |contents| == 0 then Err(EmptyInput)
    else Ok(Table(contents[0], contents[1..]))
  }

  /** The header line: nothing at all when there is no header. */
  function HeaderLine(heads: seq<string>): (r: string)
    ensures r == "" <==> heads == []
    ensures r != "" ==> r[|r| - 1] == '\n'
  {
    if heads == [] then "" else Join(heads, Sep) + "\n"
  }

  /** One line per row, each row's cells joined by ',' and followed by '\n'. */
  function RowLines(rows: seq<seq<string>>): (r: string)
    ensures r == "" <==> rows == []
    ensures r != "" ==> r[|r| - 1] == '\n'
  {
    if rows == [] then "" else Join(rows[0], Sep) + "\n" + RowLines(rows[1..])
  }

  /** `CsvFile::write`: the text written to the file. */
  function Serialize(t: Table): (r: string)
    ensures r == "" <==> t.heads == [] && t.rows == []
    ensures r != "" ==> r[|r| - 1] == '\n'
    ensures t.heads == [] ==> r == RowLines(t.rows)
  {
    HeaderLine(t.heads) + RowLines(t.rows)
  }

  /** Appending a row appends its line, which is how `write` produces the text row by row. */
  lemma {:induction false} RowLinesSnoc(rows: seq<seq<string>>, row: seq<string>)
    ensures RowLines(rows + [row]) == RowLines(rows) + Join(row, Sep) + "\n"
  {
    if rows != [] {
      assert (rows + [row])[1..] == rows[1..] + [row];
      RowLinesSnoc(rows[1..], row);
    }
  }

  /** A cell the format can carry: it holds neither the separator nor a line break. */
  predicate PlainCell(cell: string)
  {
    Sep !in cell && '\n' !in cell
  }

  /**
   * A cell list that comes back unchanged through a line: plain cells whose
   * joined line is not empty (so it is neither [] nor [""]), since empty
   * lines are skipped, and does not end in '\r', since `lines` drops that.
   */
  predicate LineSafe(cells: seq<string>)
  {
    (forall k :: 0 <= k < |cells| ==> PlainCell(cells[k]))
    && Join(cells, Sep) != ""
    && !EndsWithCr(Join(cells, Sep))
  }

  /** The line of a line-safe cell list is non-empty, has no line break and splits back into the cells. */
  lemma LineSafeLine(cells: seq<string>)
    requires LineSafe(cells)
    ensures var line := Join(cells, Sep); line != "" && '\n' !in line && !EndsWithCr(line)
    ensures Split(Join(cells, Sep), Sep) == cells
  {
    JoinExcludes(cells, Sep, '\n');
    JoinEmpty(cells, Sep);
    SplitJoin(cells, Sep);
  }

  /** A row written as an empty line: no cells, or one empty cell. */
  predicate Blank(row: seq<string>)
  {
    row == [] || row == [""]
  }

  /** The rows that are not blank, in order (see `NonBlankRowsAppend`). */
  function NonBlankRows(rows: seq<seq<string>>): (r: seq<seq<string>>)
    ensures |r| <= |rows|
    ensures forall k :: 0 <= k < |r| ==> !Blank(r[k]) && r[k] in rows
    ensures (forall k :: 0 <= k < |rows| ==> !Blank(rows[k])) ==> r == rows
  {
    if rows == [] then []
    else if Blank(rows[0]) then NonBlankRows(rows[1..])
    else [rows[0]] + NonBlankRows(rows[1..])
  }

  /** A single row is kept exactly when it is not blank. */
  lemma NonBlankRowsOne(row: seq<string>)
    ensures NonBlankRows([row]) == (if Blank(row) then [] else [row])
  {
    assert [row][1..] == [];
  }

  /** Filtering a concatenation filters each part: the kept rows stay in order, and a non-blank row is always kept. */
  lemma {:induction false} NonBlankRowsAppend(a: seq<seq<string>>, b: seq<seq<string>>)
    ensures NonBlankRows(a + b) == NonBlankRows(a) + NonBlankRows(b)
  {
    if a == [] {
      assert a + b == b;
    } else {
      assert (a + b)[0] == a[0];
      assert (a + b)[1..] == a[1..] + b;
      NonBlankRowsAppend(a[1..], b);
      var rest := NonBlankRows(a[1..]);
      if !Blank(a[0]) {
        assert NonBlankRows(a + b) == [a[0]] + (rest + NonBlankRows(b));
        assert [a[0]] + rest + NonBlankRows(b) == [a[0]] + (rest + NonBlankRows(b));
      }
    }
  }

  /** Reading the lines written for rows that are blank or line-safe gives back the non-blank rows. */
  lemma {:induction false} ParseRowLines(rows: seq<seq<string>>)
    requires forall k :: 0 <= k < |rows| ==> Blank(rows[k]) || LineSafe(rows[k])
    ensures SplitAll(NonEmptyLines(Lines(RowLines(rows)))) == NonBlankRows(rows)
  {
    if rows != [] {
      var line := Join(rows[0], Sep);
      var ls := Lines(RowLines(rows[1..]));
      ParseRowLines(rows[1..]);
      if Blank(rows[0]) {
        JoinEmpty(rows[0], Sep);
        LinesCons(line, RowLines(rows[1..]));
        assert Lines(RowLines(rows)) == [""] + ls;
        assert ([""] + ls)[1..] == ls;
      } else {
        LineSafeLine(rows[0]);
        LinesCons(line, RowLines(rows[1..]));
        assert Lines(RowLines(rows)) == [line] + ls;
        assert NonEmptyLines([line] + ls) == [line] + NonEmptyLines(ls) by {
          assert ([line] + ls)[1..] == ls;
        }
        assert ([line] + NonEmptyLines(ls))[1..] == NonEmptyLines(ls);
      }
    }
  }

  /**
   * Reading what `write` produced gives back the headers and the rows,
   * except the blank rows, which are written as empty lines and skipped;
   * this needs line-safe headers and rows that are blank or line-safe.
   */
  lemma ParseSerializeBlank(t: Table)
    requires LineSafe(t.heads)
    requires forall k :: 0 <= k < |t.rows| ==> Blank(t.rows[k]) || LineSafe(t.rows[k])
    ensures Parse(Serialize(t)) == Ok(Table(t.heads, NonBlankRows(t.rows)))
  {
    var line := Join(t.heads, Sep);
    LineSafeLine(t.heads);
    assert t.heads != [];
    assert Serialize(t) == line + "\n" + RowLines(t.rows);
    LinesCons(line, RowLines(t.rows));
    var ls := Lines(RowLines(t.rows));
    assert NonEmptyLines([line] + ls) == [line] + NonEmptyLines(ls) by {
      assert ([line] + ls)[1..] == ls;
    }
    assert SplitAll([line] + NonEmptyLines(ls)) == [t.heads] + SplitAll(NonEmptyLines(ls)) by {
      assert ([line] + NonEmptyLines(ls))[1..] == NonEmptyLines(ls);
    }
    ParseRowLines(t.rows);
  }

  /** Round trip: reading what `write` produced gives back the table, when the headers and every row are line-safe. */
  lemma ParseSerialize(t: Table)
    requires LineSafe(t.heads)
    requires forall k :: 0 <= k < |t.rows| ==> LineSafe(t.rows[k])
    ensures Parse(Serialize(t)) == Ok(t)
  {
    forall k | 0 <= k < |t.rows| ensures !Blank(t.rows[k]) {
      LineSafeLine(t.rows[k]);
      JoinEmpty(t.rows[k], Sep);
    }
    ParseSerializeBlank(t);
  }
}
