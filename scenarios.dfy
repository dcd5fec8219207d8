/** Illustrative examples of the table's behaviour, proved against the model. */
module Scenarios {
  import opened Wrappers
  import opened Text
  import opened Table
  import opened Csv

  /** The text written for the table of `ParseExample`. */
  lemma ExampleText()
    ensures Serialize(Table(["a", "b"], [["1", "2"], ["3", "4"]])) == "a,b\n1,2\n3,4\n"
  {
    var rows := [["1", "2"], ["3", "4"]];
    assert rows[1..] == [["3", "4"]] && rows[1..][1..] == [];
  }

  /** A header line and two rows. */
  lemma ParseExample()
    ensures Parse("a,b\n1,2\n3,4\n") == Ok(Table(["a", "b"], [["1", "2"], ["3", "4"]]))
  {
    var t := Table(["a", "b"], [["1", "2"], ["3", "4"]]);
    ExampleText();
    assert LineSafe(t.heads) && LineSafe(t.rows[0]) && LineSafe(t.rows[1]);
    ParseSerialize(t);
  }

  /** A text without a non-empty line is an error, not an empty table. */
  lemma EmptyInputExample()
    ensures Parse("") == Err(EmptyInput)
    ensures Parse("\n\r\n") == Err(EmptyInput)
  {
    assert Lines("\r\n") == [""] by {
      LinesCons("\r", "");
      assert "\r" + "\n" + "" == "\r\n";
    }
    assert Lines("\n\r\n") == ["", ""] by {
      LinesCons("", "\r\n");
      assert "" + "\n" + "\r\n" == "\n\r\n";
    }
  }

  /** No header line at all for a table without headers. */
  lemma WriteExample()
    ensures Serialize(Table([], [["x"]])) == "x\n"
  {
  }

  /** Header lookup, and a column over a short row. */
  method ColumnExample()
  {
    var f := new CsvFile();
    f.PushHead("a");
    f.PushHead("b");
    assert f.heads == ["a", "b"];
    assert f.HeadPos("b") == Some(1);
    assert f.HeadPos("z") == None;
    f.PushRow(["1"]);
    f.PushRow(["2", "x"]);
    var col := f.Cols("b");
    assert col.Some? && |col.value| == 2;
    assert col.value[0] == "" && col.value[1] == "x";
    assert col.value == ["", "x"];
  }

  /** `delete_col` skipping a short row, and `pop_row` on no rows. */
  method DeleteColExample()
  {
    var f := new CsvFile();
    f.PushHead("a");
    f.PushHead("b");
    f.PushHead("c");
    f.PushRow(["1", "2"]);
    f.PushRow(["3", "4", "5"]);
    f.DeleteCol(2);
    assert f.heads == ["a", "b"];
    assert |f.rows| == 2 && f.rows[0] == ["1", "2"] && f.rows[1] == ["3", "4"];

    var r := f.PopRow();
    r := f.PopRow();
    r := f.PopRow();
    assert r == None;
  }
}
