/**
 * The string primitives the table relies on: `str::split` on a single
 * separator character, `[String]::join` with that separator, and the line
 * splitting of `BufRead::lines` (lines end at '\n'; a '\r' just before that
 * '\n' is dropped too; no empty line is produced after a final '\n').
 */
module Text {

  /** Index of the first occurrence of `c` in `s`, or |s| when there is none. */
  function IndexOf(s: string, c: char): (i: nat)
    ensures i <= |s|
    ensures i < |s| ==> s[i] == c
    ensures forall j :: 0 <= j < i ==> s[j] != c
  {
    if s == [] then 0
    else if s[0] == c then 0
    else 1 + IndexOf(s[1..], c)
  }

  /** The first occurrence of a separator that the prefix does not contain is the one right after it. */
  lemma IndexOfAfter(prefix: string, c: char, rest: string)
    requires c !in prefix
    ensures IndexOf(prefix + [c] + rest, c) == |prefix|
  {
    var s := prefix + [c] + rest;
    var i := IndexOf(s, c);
    assert s[|prefix|] == c;
    assert forall j :: 0 <= j < |prefix| ==> s[j] == prefix[j];
  }

  /** `s.split(sep)`: the pieces between separators; never empty, "" splits to [""]. */
  function Split(s: string, sep: char): (parts: seq<string>)
    ensures |parts| >= 1
    ensures forall k :: 0 <= k < |parts| ==> sep !in parts[k]
    decreases |s|
  {
    var i := IndexOf(s, sep);
    if i == |s| then [s] else [s[..i]] + Split(s[i + 1..], sep)
  }

  /** `cells.join(sep)`. */
  function Join(cells: seq<string>, sep: char): string
  {
    if |cells| == 0 then ""
    else if |cells| == 1 then cells[0]
    else cells[0] + [sep] + Join(cells[1..], sep)
  }

  /** Joining a cell in front of at least one other puts a separator between them. */
  lemma JoinCons(cell: string, cells: seq<string>, sep: char)
    requires |cells| >= 1
    ensures Join([cell] + cells, sep) == cell + [sep] + Join(cells, sep)
  {
    assert ([cell] + cells)[1..] == cells;
  }

  /** A text is the part before its first separator, that separator, and the rest. */
  lemma AroundSeparator(s: string, sep: char)
    requires IndexOf(s, sep) < |s|
    ensures var i := IndexOf(s, sep); s == s[..i] + [sep] + s[i + 1..]
  {
    var i := IndexOf(s, sep);
    assert s[..i] + [s[i]] + s[i + 1..] == s[..i] + s[i..];
  }

  /** Splitting a text with a separator gives the piece before it, then the pieces of the rest. */
  lemma SplitCons(s: string, sep: char)
    requires IndexOf(s, sep) < |s|
    ensures var i := IndexOf(s, sep); Split(s, sep) == [s[..i]] + Split(s[i + 1..], sep)
  {
  }

  /**
   * The shape of a join: it starts with the first cell, followed by a
   * separator when there is another cell, and ends with the last cell; its
   * length is the cells' lengths plus one separator between neighbours.
   */
  lemma {:induction false} JoinShape(cells: seq<string>, sep: char)
    requires |cells| >= 1
    ensures var r := Join(cells, sep);
      && cells[0] <= r
      && (|cells| >= 2 ==> |r| > |cells[0]| && r[|cells[0]|] == sep)
      && |cells[|cells| - 1]| <= |r|
      && r[|r| - |cells[|cells| - 1]|..] == cells[|cells| - 1]
      && |r| == TotalLength(cells) + |cells| - 1
  {
    if |cells| >= 2 {
      JoinShape(cells[1..], sep);
      var rest := Join(cells[1..], sep);
      var last := cells[|cells| - 1];
      assert cells[1..][|cells[1..]| - 1] == last;
      assert Join(cells, sep) == cells[0] + [sep] + rest;
      assert |last| <= |rest|;
      assert (cells[0] + [sep] + rest)[|cells[0]| + 1 + |rest| - |last|..] == rest[|rest| - |last|..];
    }
  }

  /** The combined length of the cells. */
  function TotalLength(cells: seq<string>): nat
  {
    if cells == [] then 0 else |cells[0]| + TotalLength(cells[1..])
  }

  /** Joining what was split gives back the original text. */
  lemma {:induction false} JoinSplit(s: string, sep: char)
    ensures Join(Split(s, sep), sep) == s
    decreases |s|
  {
    var i := IndexOf(s, sep);
    if i < |s| {
      var rest := s[i + 1..];
      SplitCons(s, sep);
      AroundSeparator(s, sep);
      JoinSplit(rest, sep);
      JoinCons(s[..i], Split(rest, sep), sep);
    }
  }

  /** Splitting what was joined gives back the cells, provided there is at least one and none contains the separator. */
  lemma {:induction false} SplitJoin(cells: seq<string>, sep: char)
    requires |cells| >= 1
    requires forall k :: 0 <= k < |cells| ==> sep !in cells[k]
    ensures Split(Join(cells, sep), sep) == cells
  {
    if |cells| >= 2 {
      var rest := Join(cells[1..], sep);
      var s := cells[0] + [sep] + rest;
      assert Join(cells, sep) == s;
      IndexOfAfter(cells[0], sep, rest);
      assert s[|cells[0]|] == sep;
      SplitCons(s, sep);
      assert s[..|cells[0]|] == cells[0];
      assert s[|cells[0]| + 1..] == rest;
      SplitJoin(cells[1..], sep);
      assert cells == [cells[0]] + cells[1..];
    }
  }

  /** A character other than the separator occurs in the joined text only if it occurs in a cell. */
  lemma {:induction false} JoinExcludes(cells: seq<string>, sep: char, c: char)
    requires c != sep
    requires forall k :: 0 <= k < |cells| ==> c !in cells[k]
    ensures c !in Join(cells, sep)
  {
    if |cells| >= 2 {
      JoinExcludes(cells[1..], sep, c);
    }
  }

  /** The joined text is empty exactly for no cells or a single empty cell. */
  lemma JoinEmpty(cells: seq<string>, sep: char)
    ensures Join(cells, sep) == "" <==> |cells| == 0 || cells == [""]
  {
    if |cells| >= 2 {
      assert |Join(cells, sep)| >= 1;
    }
  }

  predicate EndsWithCr(line: string)
  {
    |line| > 0 && line[|line| - 1] == '\r'
  }

  /** Drops the '\r' of a "\r\n" line ending. */
  function StripCr(line: string): (r: string)
    ensures !EndsWithCr(line) ==> r == line
    ensures EndsWithCr(line) ==> line == r + ['\r']
  {
    if EndsWithCr(line) then line[..|line| - 1] else line
  }

  /** `BufRead::lines`: the lines of `text`, without their terminators. */
  function Lines(text: string): (ls: seq<string>)
    ensures forall k :: 0 <= k < |ls| ==> '\n' !in ls[k]
    ensures text == [] <==> ls == []
    decreases |text|
  {
    if text == [] then []
    else
      var i := IndexOf(text, '\n');
      if i == |text| then [text]
      else [StripCr(text[..i])] + Lines(text[i + 1..])
  }

  /**
   * A line without '\n' followed by '\n' is read back as that line, less a
   * final '\r' (so a line not ending in '\r' comes back as it was written).
   */
  lemma LinesCons(line: string, rest: string)
    requires '\n' !in line
    ensures Lines(line + "\n" + rest) == [StripCr(line)] + Lines(rest)
    ensures !EndsWithCr(line) ==> Lines(line + "\n" + rest) == [line] + Lines(rest)
  {
    var text := line + "\n" + rest;
    IndexOfAfter(line, '\n', rest);
    assert text[..|line|] == line;
    assert text[|line| + 1..] == rest;
  }

  /** A last line without a terminating '\n' is read back whole, a final '\r' included. */
  lemma LinesLast(line: string)
    requires '\n' !in line && line != ""
    ensures Lines(line) == [line]
  {
  }

  /** Line splitting is lossless up to the dropped carriage returns: a text without '\r' is its lines, each followed by '\n', except possibly the last. */
  lemma {:induction false} LinesRejoin(text: string)
    requires '\r' !in text
    ensures text == Join(Lines(text), '\n') || text == Join(Lines(text), '\n') + "\n"
    decreases |text|
  {
    if text != [] {
      var i := IndexOf(text, '\n');
      if i < |text| {
        var rest := text[i + 1..];
        assert text == text[..i] + "\n" + rest;
        assert '\r' !in rest by {
          forall j | 0 <= j < |rest| ensures rest[j] != '\r' {
            assert rest[j] == text[i + 1 + j];
          }
        }
        assert !EndsWithCr(text[..i]);
        LinesRejoin(rest);
        if rest == [] {
          assert Lines(text) == [text[..i]];
        } else {
          var ls := Lines(rest);
          assert Lines(text) == [text[..i]] + ls;
          assert Lines(text)[1..] == ls;
        }
      }
    }
  }
}
