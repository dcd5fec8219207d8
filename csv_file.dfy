/**
 * `CsvFile`: a header list and a list of rows of text cells, changed in
 * place. Rows may have any length, whatever the number of headers.
 *
 * Two bounds policies coexist, as in the library: `SetHead`, `PushCol`,
 * `SetCol`, `SetRow` and `DeleteRow` do nothing when an index is out of
 * range, while `InsertHead`, `DeleteHead`, `InsertCol`, `InsertRow` and
 * `DeleteCol` fail outright there, which here is a precondition.
 */
module Csv {
  import opened Wrappers
  import opened Text
  import opened Table

  /** The first index at which `x` occurs in `s` (`Iterator::position`). */
  function Position(s: seq<string>, x: string): (r: Option<nat>)
    ensures r.None? <==> x !in s
    ensures r.Some? ==> r.value < |s| && s[r.value] == x
    ensures r.Some? ==> forall j :: 0 <= j < r.value ==> s[j] != x
  {
    if s == [] then None
    else if s[0] == x then Some(0)
    else match Position(s[1..], x)
      case None => None
      case Some(i) => Some(i + 1)
  }

  /** Column `i` of `rows`: each row's cell at `i`, or "" for a row too short to have one. */
  function Column(rows: seq<seq<string>>, i: nat): (col: seq<string>)
    ensures |col| == |rows|
    ensures forall k :: 0 <= k < |rows| && i < |rows[k]| ==> col[k] == rows[k][i]
    ensures forall k :: 0 <= k < |rows| && |rows[k]| <= i ==> col[k] == ""
  {
    if rows == [] then []
    else [if i < |rows[0]| then rows[0][i] else ""] + Column(rows[1..], i)
  }

  /** `row` without its cell at `p`, or `row` itself when it has no cell there. */
  function RemoveCell(row: seq<string>, p: nat): (r: seq<string>)
    ensures p < |row| ==> |r| + 1 == |row| && r[..p] == row[..p] && r[p..] == row[p + 1..]
    ensures |row| <= p ==> r == row
  {
    if p < |row| then row[..p] + row[p + 1..] else row
  }

  /** `row` without its last cell, or `row` itself when it is empty. */
  function DropLast(row: seq<string>): (r: seq<string>)
    ensures row != [] ==> r + [row[|row| - 1]] == row
    ensures row == [] ==> r == []
  {
    if row == [] then [] else row[..|row| - 1]
  }

  /** `s` with `x` inserted before index `p`. */
  function InsertAt<T>(s: seq<T>, p: nat, x: T): (r: seq<T>)
    requires p <= |s|
    ensures |r| == |s| + 1 && r[p] == x
    ensures r[..p] == s[..p] && r[p + 1..] == s[p..]
  {
    s[..p] + [x] + s[p..]
  }

  /** `s` without its element at index `p`. */
  function RemoveAt<T>(s: seq<T>, p: nat): (r: seq<T>)
    requires p < |s|
    ensures |r| + 1 == |s|
    ensures r[..p] == s[..p] && r[p..] == s[p + 1..]
  {
    s[..p] + s[p + 1..]
  }

  /** One iteration of `write`'s loop over the rows: appending a row's line extends the text written so far. */
  lemma WriteStep(header: string, done: seq<seq<string>>, row: seq<string>, text: string)
    requires text == header + RowLines(done)
    ensures text + Join(row, Sep) + "\n" == header + RowLines(done + [row])
  {
    RowLinesSnoc(done, row);
  }

  class CsvFile {
    var heads: seq<string>
    var rows: seq<seq<string>>

    /** The table this object holds, as a value. */
    function Value(): Table
      reads this
    {
      Table(heads, rows)
    }

    /** Every row has exactly one cell per header: the shape callers expect, which the type does not enforce. */
    predicate Rectangular()
      reads this
    {
      forall k :: 0 <= k < |rows| ==> |rows[k]| == |heads|
    }

    /** `CsvFile::new`: no headers and no rows. */
    constructor ()
      ensures heads == [] && rows == []
    {
      heads := [];
      rows := [];
    }

    // Accessors

    /** `head_pos`: the first position of a header equal to `name`. */
    function HeadPos(name: string): (r: Option<nat>)
      reads this
      ensures r.None? <==> name !in heads
      ensures r.Some? ==> r.value < |heads| && heads[r.value] == name
      ensures r.Some? ==> forall j :: 0 <= j < r.value ==> heads[j] != name
    {
      Position(heads, name)
    }

    /** `cols`: the column headed `name`, with "" for rows too short to reach it. */
    function Cols(name: string): (r: Option<seq<string>>)
      reads this
      ensures r.None? <==> name !in heads
      ensures r.Some? ==> |r.value| == |rows|
      ensures r.Some? ==> forall k :: 0 <= k < |rows| ==>
        r.value[k] == (if HeadPos(name).value < |rows[k]| then rows[k][HeadPos(name).value] else "")
    {
      match HeadPos(name)
      case None => None
      case Some(i) => Some(Column(rows, i))
    }

    /** `row`: the row at `position`, if there is one. */
    function Row(position: nat): (r: Option<seq<string>>)
      reads this
      ensures r.Some? <==> position < |rows|
      ensures r.Some? ==> r.value == rows[position]
    {
      if position < |rows| then Some(rows[position]) else None
    }

    /** `cell`: the cell at (`row`, `col`), if that row exists and is long enough. */
    function Cell(row: nat, col: nat): (r: Option<string>)
      reads this
      ensures r.Some? <==> row < |rows| && col < |rows[row]|
      ensures r.Some? ==> r.value == rows[row][col]
    {
      match Row(row)
      case None => None
      case Some(data) => if col < |data| then Some(data[col]) else None
    }

    // Header mutators

    /** `push_head`: appends a header. */
    method PushHead(name: string)
      modifies this
      ensures heads == old(heads) + [name] && rows == old(rows)
      ensures HeadPos(name).Some?
    {
      heads := heads + [name];
    }

    /** `set_head`: replaces the header at `position`; nothing happens when there is none. */
    method SetHead(position: nat, name: string)
      modifies this
      ensures position < |old(heads)| ==> heads == old(heads)[position := name]
      ensures |old(heads)| <= position ==> heads == old(heads)
      ensures rows == old(rows)
    {
      if |heads| <= position {
        return;
      }
      heads := heads[position := name];
    }

    /** `insert_head`: inserts a header before `position`, which must not be past the end. */
    method InsertHead(position: nat, name: string)
      requires position <= |heads|
      modifies this
      ensures heads == InsertAt(old(heads), position, name) && rows == old(rows)
    {
      heads := InsertAt(heads, position, name);
    }

    /** `delete_head`: removes and returns the header at `position`, which must exist. */
    method DeleteHead(position: nat) returns (removed: string)
      requires position < |heads|
      modifies this
      ensures removed == old(heads)[position]
      ensures heads == RemoveAt(old(heads), position) && rows == old(rows)
    {
      removed := heads[position];
      heads := RemoveAt(heads, position);
    }

    /** `pop_head`: removes and returns the last header, if there is one. */
    method PopHead() returns (removed: Option<string>)
      modifies this
      ensures old(heads) == [] ==> removed == None && heads == []
      ensures old(heads) != [] ==> removed == Some(old(heads)[|old(heads)| - 1]) && heads + [removed.value] == old(heads)
      ensures rows == old(rows)
    {
      if heads == [] {
        removed := None;
      } else {
        removed := Some(heads[|heads| - 1]);
        heads := heads[..|heads| - 1];
      }
    }

    // Column mutators

    /** `push_col`: appends a cell to the row at `row`; nothing happens when there is no such row. */
    method PushCol(row: nat, value: string)
      modifies this
      ensures row < |old(rows)| ==> rows == old(rows)[row := old(rows)[row] + [value]]
      ensures |old(rows)| <= row ==> rows == old(rows)
      ensures heads == old(heads)
    {
      if |rows| <= row {
        return;
      }
      rows := rows[row := rows[row] + [value]];
    }

    /** `set_col`: replaces the cell at (`row`, `col`); nothing happens when there is no such cell. */
    method SetCol(row: nat, col: nat, value: string)
      modifies this
      ensures row < |old(rows)| && col < |old(rows)[row]| ==> rows == old(rows)[row := old(rows)[row][col := value]]
      ensures !(row < |old(rows)| && col < |old(rows)[row]|) ==> rows == old(rows)
      ensures heads == old(heads)
      ensures old(Rectangular()) ==> Rectangular()
    {
      if |rows| <= row {
        return;
      }
      if |rows[row]| <= col {
        return;
      }
      rows := rows[row := rows[row][col := value]];
    }

    /** `insert_col`: inserts a cell into the row at `row` before `position`; both must be in range. */
    method InsertCol(row: nat, position: nat, value: string)
      requires row < |rows| && position <= |rows[row]|
      modifies this
      ensures rows == old(rows)[row := InsertAt(old(rows)[row], position, value)]
      ensures heads == old(heads)
    {
      rows := rows[row := InsertAt(rows[row], position, value)];
    }

    /**
     * `delete_col`: removes the header at `position`, which must exist, and
     * the cell at `position` of every row long enough to have one.
     */
    method DeleteCol(position: nat)
      requires position < |heads|
      modifies this
      ensures heads == RemoveAt(old(heads), position)
      ensures |rows| == |old(rows)|
      ensures forall k :: 0 <= k < |rows| ==> rows[k] == RemoveCell(old(rows)[k], position)
      ensures old(Rectangular()) ==> Rectangular()
    {
      var _ := DeleteHead(position);
      var i := 0;
      while i < |rows|
        invariant i <= |rows| == |old(rows)|
        invariant heads == RemoveAt(old(heads), position)
        invariant forall k :: 0 <= k < i ==> rows[k] == RemoveCell(old(rows)[k], position)
        invariant forall k :: i <= k < |rows| ==> rows[k] == old(rows)[k]
      {
        if position < |rows[i]| {
          rows := rows[i := RemoveAt(rows[i], position)];
        }
        i := i + 1;
      }
    }

    /** `pop_col`: removes the last header, if any, and the last cell of every non-empty row. */
    method PopCol()
      modifies this
      ensures heads == DropLast(old(heads))
      ensures |rows| == |old(rows)|
      ensures forall k :: 0 <= k < |rows| ==> rows[k] == DropLast(old(rows)[k])
      ensures old(Rectangular()) ==> Rectangular()
    {
      var _ := PopHead();
      var i := 0;
      while i < |rows|
        invariant i <= |rows| == |old(rows)|
        invariant heads == DropLast(old(heads))
        invariant forall k :: 0 <= k < i ==> rows[k] == DropLast(old(rows)[k])
        invariant forall k :: i <= k < |rows| ==> rows[k] == old(rows)[k]
      {
        rows := rows[i := DropLast(rows[i])];
        i := i + 1;
      }
    }

    // Row mutators

    /** `push_row`: appends a row holding `values`. */
    method PushRow(values: seq<string>)
      modifies this
      ensures rows == old(rows) + [values] && heads == old(heads)
      ensures old(Rectangular()) && |values| == |heads| ==> Rectangular()
    {
      rows := rows + [values];
    }

    /** `set_row`: replaces the row at `position` with `values`; nothing happens when there is none. */
    method SetRow(position: nat, values: seq<string>)
      modifies this
      ensures position < |old(rows)| ==> rows == old(rows)[position := values]
      ensures |old(rows)| <= position ==> rows == old(rows)
      ensures heads == old(heads)
      ensures old(Rectangular()) && |values| == |heads| ==> Rectangular()
    {
      if |rows| <= position {
        return;
      }
      rows := rows[position := values];
    }

    /** `insert_row`: inserts a row holding `values` before `position`, which must not be past the end. */
    method InsertRow(position: nat, values: seq<string>)
      requires position <= |rows|
      modifies this
      ensures rows == InsertAt(old(rows), position, values) && heads == old(heads)
      ensures old(Rectangular()) && |values| == |heads| ==> Rectangular()
    {
      rows := InsertAt(rows, position, values);
    }

    /** `delete_row`: removes and returns the row at `position`; `None`, and no change, when there is none. */
    method DeleteRow(position: nat) returns (removed: Option<seq<string>>)
      modifies this
      ensures position < |old(rows)| ==> removed == Some(old(rows)[position]) && rows == RemoveAt(old(rows), position)
      ensures |old(rows)| <= position ==> removed == None && rows == old(rows)
      ensures heads == old(heads)
      ensures old(Rectangular()) ==> Rectangular()
    {
      if |rows| <= position {
        return None;
      }
      removed := Some(rows[position]);
      rows := RemoveAt(rows, position);
    }

    /** `pop_row`: removes and returns the last row, if there is one. */
    method PopRow() returns (removed: Option<seq<string>>)
      modifies this
      ensures old(rows) == [] ==> removed == None && rows == []
      ensures old(rows) != [] ==> removed == Some(old(rows)[|old(rows)| - 1]) && rows + [removed.value] == old(rows)
      ensures heads == old(heads)
    {
      if rows == [] {
        removed := None;
      } else {
        removed := Some(rows[|rows| - 1]);
        rows := rows[..|rows| - 1];
      }
    }

    // Text

    /** `read`: a table holding what `text` parses to, or the error when it has no non-empty line. */
    static method Read(text: string) returns (r: Result<CsvFile, ReadError>)
      ensures Parse(text).Err? ==> r == Err(Parse(text).error)
      ensures Parse(text).Ok? ==> r.Ok? && fresh(r.value) && r.value.Value() == Parse(text).value
    {
      match Parse(text)
      case Err(e) =>
        r := Err(e);
      case Ok(t) =>
        var file := new CsvFile();
        file.heads, file.rows := t.heads, t.rows;
        r := Ok(file);
    }

    /** `write`: the header line when there are headers, then one line per row. */
    method Write() returns (text: string)
      ensures text == Serialize(Value())
    {
      var hs, rs := heads, rows;
      text := "";
      if hs != [] {
        text := Join(hs, Sep) + "\n";
      }
      assert text == HeaderLine(hs) + RowLines(rs[..0]) by {
        assert rs[..0] == [];
      }
      var i := 0;
      while i < |rs|
        invariant i <= |rs|
        invariant text == HeaderLine(hs) + RowLines(rs[..i])
      {
        WriteStep(HeaderLine(hs), rs[..i], rs[i], text);
        assert rs[..i + 1] == rs[..i] + [rs[i]];
        text := text + Join(rs[i], Sep) + "\n";
        i := i + 1;
      }
      assert rs[..i] == rs;
    }
  }
}
