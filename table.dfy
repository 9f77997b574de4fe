/** `markdownTable` of `src/utils/Utils.ts`: a pipe-delimited markdown table
    whose cells are padded with spaces to the widest cell of their column, with
    a row of dashes after the header row. */
module MarkdownTable {

  /** `c` repeated `n` times, as `String.prototype.repeat` builds it. */
  function Repeat(c: char, n: nat): (r: string)
    ensures |r| == n && forall i :: 0 <= i < n ==> r[i] == c
  {
    if n == 0 then "" else [c] + Repeat(c, n - 1)
  }

  /** The input the renderer accepts: at least one row, a non-empty first row,
      and every row as long as the first. */
  predicate IsRectangular(content: seq<seq<string>>)
  {
    |content| > 0 && |content[0]| > 0 && forall i :: 0 <= i < |content| ==> |content[i]| == |content[0]|
  }

  /** The length of the longest cell of column `j` among the first `n` rows,
      or 0 when there are none. */
  function ColumnWidth(content: seq<seq<string>>, j: nat, n: nat): (w: nat)
    requires n <= |content| && forall i :: 0 <= i < n ==> j < |content[i]|
    ensures forall i :: 0 <= i < n ==> |content[i][j]| <= w
    ensures n > 0 ==> exists i :: 0 <= i < n && |content[i][j]| == w
    ensures n == 0 ==> w == 0
  {
    if n == 0 then 0
    else
      var w := ColumnWidth(content, j, n - 1);
      if |content[n - 1][j]| > w then |content[n - 1][j]| else w
  }

  /** The widths of the first `c` columns. */
  function WidthsUpTo(content: seq<seq<string>>, c: nat): (ws: seq<nat>)
    requires IsRectangular(content) && c <= |content[0]|
    ensures |ws| == c && forall j :: 0 <= j < c ==> ws[j] == ColumnWidth(content, j, |content|)
  {
    if c == 0 then [] else WidthsUpTo(content, c - 1) + [ColumnWidth(content, c - 1, |content|)]
  }

  function Widths(content: seq<seq<string>>): seq<nat>
    requires IsRectangular(content)
  {
    WidthsUpTo(content, |content[0]|)
  }

  /** Every cell of `row` fits in its column's width. */
  predicate Fits(row: seq<string>, widths: seq<nat>)
  {
    |row| == |widths| && forall j :: 0 <= j < |row| ==> |row[j]| <= widths[j]
  }

  lemma WidthsFit(content: seq<seq<string>>)
    requires IsRectangular(content)
    ensures forall i :: 0 <= i < |content| ==> Fits(content[i], Widths(content))
  {
  }

  /** One cell: a space, the text padded with spaces to `width`, a space and a pipe. */
  function Cell(text: string, width: nat): string
    requires |text| <= width
  {
    " " + text + Repeat(' ', width - |text|) + " |"
  }

  /** The first `n` cells of a row. */
  function Cells(row: seq<string>, widths: seq<nat>, n: nat): string
    requires Fits(row, widths) && n <= |widths|
  {
    if n == 0 then "" else Cells(row, widths, n - 1) + Cell(row[n - 1], widths[n - 1])
  }

  function RowLine(row: seq<string>, widths: seq<nat>): string
    requires Fits(row, widths)
  {
    "|" + Cells(row, widths, |widths|) + "\n"
  }

  /** The first `n` dash cells of the separator row. */
  function Dashes(widths: seq<nat>, n: nat): string
    requires n <= |widths|
  {
    if n == 0 then "" else Dashes(widths, n - 1) + " " + Repeat('-', widths[n - 1]) + " |"
  }

  function SeparatorLine(widths: seq<nat>): string
  {
    "|" + Dashes(widths, |widths|) + "\n"
  }

  /** The lines of the first `n` rows, with the separator right after row 0. */
  function Lines(content: seq<seq<string>>, widths: seq<nat>, n: nat): seq<string>
    requires n <= |content| && forall i :: 0 <= i < n ==> Fits(content[i], widths)
  {
    if n == 0 then []
    else Lines(content, widths, n - 1) + [RowLine(content[n - 1], widths)] + (if n == 1 then [SeparatorLine(widths)] else [])
  }

  function Concat(lines: seq<string>): string
  {
    if lines == [] then "" else Concat(lines[..|lines| - 1]) + lines[|lines| - 1]
  }

  /** What `markdownTable` returns: the empty string for input it refuses,
      otherwise its lines one after another. */
  function Table(content: seq<seq<string>>): string
  {
    if IsRectangular(content) then
      WidthsFit(content);
      Concat(Lines(content, Widths(content), |content|))
    else ""
  }

  // ---------------------------------------------------------------------------
  // the imperative renderer
  // ---------------------------------------------------------------------------

  lemma ConcatSnoc(lines: seq<string>, line: string)
    ensures Concat(lines + [line]) == Concat(lines) + line
  {
    assert (lines + [line])[..|lines|] == lines;
  }

  /** `markdownTable`: validates the rows, collects the column widths, then
      appends each row line (and the separator after row 0) to `table`. */
  method RenderTable(content: seq<seq<string>>) returns (table: string)
    ensures table == Table(content)
  {
    var rows := |content|;
    if rows == 0 {
      return "";
    }
    var columns := |content[0]|;
    if columns == 0 {
      return "";
    }
    for r := 0 to rows
      invariant forall i :: 0 <= i < r ==> |content[i]| == columns
    {
      if |content[r]| != columns {
        return "";
      }
    }

    var longestStringInColumns := LongestStringInColumns(content);
    WidthsFit(content);

    table := "";
    for i := 0 to rows
      invariant table == Concat(Lines(content, longestStringInColumns, i))
    {
      ConcatSnoc(Lines(content, longestStringInColumns, i), RowLine(content[i], longestStringInColumns));
      table := AppendRow(table, content[i], longestStringInColumns);
      if i == 0 {
        ConcatSnoc(Lines(content, longestStringInColumns, 0) + [RowLine(content[0], longestStringInColumns)],
                   SeparatorLine(longestStringInColumns));
        table := AppendSeparator(table, longestStringInColumns);
      } else {
        assert Lines(content, longestStringInColumns, i + 1)
            == Lines(content, longestStringInColumns, i) + [RowLine(content[i], longestStringInColumns)];
      }
    }
  }

  /** The width loop of `markdownTable`: for each column, the longest cell. */
  method LongestStringInColumns(content: seq<seq<string>>) returns (longestStringInColumns: seq<nat>)
    requires IsRectangular(content)
    ensures longestStringInColumns == Widths(content)
  {
    longestStringInColumns := [];
    for i := 0 to |content[0]|
      invariant longestStringInColumns == WidthsUpTo(content, i)
    {
      var longestStringInColumn := 0;
      for r := 0 to |content|
        invariant longestStringInColumn == ColumnWidth(content, i, r)
      {
        if |content[r][i]| > longestStringInColumn {
          longestStringInColumn := |content[r][i]|;
        }
      }
      longestStringInColumns := longestStringInColumns + [longestStringInColumn];
    }
  }

  /** The row step of `markdownTable`: appends one padded row line. */
  method AppendRow(table: string, row: seq<string>, widths: seq<nat>) returns (t: string)
    requires Fits(row, widths)
    ensures t == table + RowLine(row, widths)
  {
    t := table + "|";
    for j := 0 to |widths|
      invariant t == table + "|" + Cells(row, widths, j)
    {
      var element := row[j];
      element := element + Repeat(' ', widths[j] - |element|);
      t := t + " " + element + " |";
    }
    t := t + "\n";
  }

  /** The separator step of `markdownTable`: appends the row of dashes. */
  method AppendSeparator(table: string, widths: seq<nat>) returns (t: string)
    ensures t == table + SeparatorLine(widths)
  {
    t := table + "|";
    for j := 0 to |widths|
      invariant t == table + "|" + Dashes(widths, j)
    {
      t := t + " " + Repeat('-', widths[j]) + " |";
    }
    t := t + "\n";
  }

  // ---------------------------------------------------------------------------
  // what the rendered table looks like
  // ---------------------------------------------------------------------------

  /** The length of every line of a table with these column widths. */
  function LineWidth(widths: seq<nat>): nat
  {
    2 + Span(widths, |widths|)
  }

  function Span(widths: seq<nat>, n: nat): nat
    requires n <= |widths|
  {
    if n == 0 then 0 else Span(widths, n - 1) + widths[n - 1] + 3
  }

  /** A padded cell is exactly as wide as its column (plus its frame), holds
      its text right after the leading space, and spaces after the text. */
  lemma CellShape(text: string, width: nat)
    requires |text| <= width
    ensures |Cell(text, width)| == width + 3
    ensures Cell(text, width)[1..1 + |text|] == text
    ensures forall k :: 1 + |text| <= k < 1 + width ==> Cell(text, width)[k] == ' '
  {
    var c := Cell(text, width);
    assert c == [' '] + text + Repeat(' ', width - |text|) + [' ', '|'];
    forall k | 1 + |text| <= k < 1 + width ensures c[k] == ' ' {
      assert c[k] == Repeat(' ', width - |text|)[k - 1 - |text|];
    }
  }

  lemma {:induction false} CellsLength(row: seq<string>, widths: seq<nat>, n: nat)
    requires Fits(row, widths) && n <= |widths|
    ensures |Cells(row, widths, n)| == Span(widths, n)
  {
    if n > 0 {
      CellsLength(row, widths, n - 1);
      CellShape(row[n - 1], widths[n - 1]);
    }
  }

  lemma {:induction false} DashesLength(widths: seq<nat>, n: nat)
    requires n <= |widths|
    ensures |Dashes(widths, n)| == Span(widths, n)
  {
    if n > 0 {
      DashesLength(widths, n - 1);
    }
  }

  /** Every line, row or separator, starts with a pipe, ends with a line
      break and has the same length. */
  lemma LineShapes(row: seq<string>, widths: seq<nat>)
    requires Fits(row, widths)
    ensures |RowLine(row, widths)| == LineWidth(widths) == |SeparatorLine(widths)|
    ensures RowLine(row, widths)[0] == '|' && RowLine(row, widths)[LineWidth(widths) - 1] == '\n'
    ensures SeparatorLine(widths)[0] == '|' && SeparatorLine(widths)[LineWidth(widths) - 1] == '\n'
  {
    CellsLength(row, widths, |widths|);
    DashesLength(widths, |widths|);
  }

  /** The first `n` rows give `n + 1` lines when `n > 0`: row 0, the separator,
      then rows 1 to `n - 1`, each rendered with the same widths. */
  lemma {:induction false} LinesLayout(content: seq<seq<string>>, widths: seq<nat>, n: nat)
    requires 0 < n <= |content| && forall i :: 0 <= i < n ==> Fits(content[i], widths)
    ensures var ls := Lines(content, widths, n);
      |ls| == n + 1 && ls[0] == RowLine(content[0], widths) && ls[1] == SeparatorLine(widths)
      && forall i :: 1 <= i < n ==> ls[i + 1] == RowLine(content[i], widths)
  {
    if n > 1 {
      LinesLayout(content, widths, n - 1);
    }
  }

  /** Input the renderer refuses (no rows, an empty first row, or a row of a
      different length) renders as the empty string, and only such input. */
  lemma TableEmptyIff(content: seq<seq<string>>)
    ensures Table(content) == "" <==> !IsRectangular(content)
  {
    if IsRectangular(content) {
      var widths := Widths(content);
      WidthsFit(content);
      var ls := Lines(content, widths, |content|);
      LinesLayout(content, widths, |content|);
      LineShapes(content[0], widths);
      ConcatLength(ls);
      assert |ls[0]| > 0;
    }
  }

  /** A rendered table is its lines: one per row plus the separator, every
      line of the same length and ending in a line break, the separator right
      after the header row, and every cell padded to its column's widest cell. */
  lemma TableLayout(content: seq<seq<string>>)
    requires IsRectangular(content)
    ensures var widths := Widths(content);
      var ls := Lines(content, widths, |content|);
      Table(content) == Concat(ls)
      && |ls| == |content| + 1
      && ls[0] == RowLine(content[0], widths) && ls[1] == SeparatorLine(widths)
      && (forall i :: 1 <= i < |content| ==> ls[i + 1] == RowLine(content[i], widths))
      && (forall k :: 0 <= k < |ls| ==> |ls[k]| == LineWidth(widths) && ls[k][|ls[k]| - 1] == '\n')
      && (forall j :: 0 <= j < |widths| ==>
            (forall i :: 0 <= i < |content| ==> |content[i][j]| <= widths[j])
            && exists i :: 0 <= i < |content| && |content[i][j]| == widths[j])
  {
    WidthsFit(content);
    LinesLayout(content, Widths(content), |content|);
    LinesUniform(content);
    WidthsAreMaxima(content);
  }

  /** Every line of a valid table has the same length and ends in a line break. */
  lemma LinesUniform(content: seq<seq<string>>)
    requires IsRectangular(content)
    ensures var widths := Widths(content);
      var ls := Lines(content, widths, |content|);
      forall k :: 0 <= k < |ls| ==> |ls[k]| == LineWidth(widths) && ls[k][|ls[k]| - 1] == '\n'
  {
    var widths := Widths(content);
    WidthsFit(content);
    var ls := Lines(content, widths, |content|);
    LinesLayout(content, widths, |content|);
    forall k | 0 <= k < |ls| ensures |ls[k]| == LineWidth(widths) && ls[k][|ls[k]| - 1] == '\n' {
      if k == 1 {
        LineShapes(content[0], widths);
      } else {
        var i := if k == 0 then 0 else k - 1;
        LineShapes(content[i], widths);
      }
    }
  }

  /** Each column's width is the length of its widest cell. */
  lemma WidthsAreMaxima(content: seq<seq<string>>)
    requires IsRectangular(content)
    ensures var widths := Widths(content);
      forall j :: 0 <= j < |widths| ==>
        (forall i :: 0 <= i < |content| ==> |content[i][j]| <= widths[j])
        && exists i :: 0 <= i < |content| && |content[i][j]| == widths[j]
  {
  }

  lemma {:induction false} ConcatLength(lines: seq<string>)
    requires |lines| > 0
    ensures |Concat(lines)| >= |lines[0]|
  {
    if |lines| > 1 {
      ConcatLength(lines[..|lines| - 1]);
    } else {
      assert lines[..0] == [];
    }
  }

  /** Two columns of widths 3 and 2; the separator follows the first row only. */
  lemma TwoByTwoTable(content: seq<seq<string>>)
    requires content == [["a", "bb"], ["ccc", "d"]]
    ensures Table(content) == "| a   | bb |\n| --- | -- |\n| ccc | d  |\n"
  {
    TwoByTwoWidths(content);
    WidthsFit(content);
    TwoRowTable(content);
    TwoByTwoLines(content, Widths(content));
    TwoByTwoText();
  }

  /** A valid two-row table is the header row, the separator and the second row. */
  lemma TwoRowTable(content: seq<seq<string>>)
    requires IsRectangular(content) && |content| == 2
    ensures var widths := Widths(content);
      Table(content) == RowLine(content[0], widths) + SeparatorLine(widths) + RowLine(content[1], widths)
  {
    var widths := Widths(content);
    WidthsFit(content);
    var ls := Lines(content, widths, 2);
    LinesLayout(content, widths, 2);
    ConcatThree(ls);
  }

  lemma ConcatThree(ls: seq<string>)
    requires |ls| == 3
    ensures Concat(ls) == ls[0] + ls[1] + ls[2]
  {
    var two := ls[..2];
    var one := two[..1];
    assert one[..0] == [];
    assert Concat(one) == "" + ls[0];
    assert Concat(two) == Concat(one) + ls[1];
    assert Concat(ls) == Concat(two) + ls[2];
  }

  lemma TwoByTwoText()
    ensures "| a   | bb |\n" + "| --- | -- |\n" + "| ccc | d  |\n" == "| a   | bb |\n| --- | -- |\n| ccc | d  |\n"
  {
  }

  lemma TwoByTwoWidths(content: seq<seq<string>>)
    requires content == [["a", "bb"], ["ccc", "d"]]
    ensures IsRectangular(content) && Widths(content) == [3, 2]
  {
    assert ColumnWidth(content, 0, 2) == 3;
    assert ColumnWidth(content, 1, 2) == 2;
  }

  lemma TwoByTwoLines(content: seq<seq<string>>, widths: seq<nat>)
    requires content == [["a", "bb"], ["ccc", "d"]] && widths == [3, 2]
    ensures Fits(content[0], widths) && Fits(content[1], widths)
    ensures RowLine(content[0], widths) == "| a   | bb |\n"
    ensures SeparatorLine(widths) == "| --- | -- |\n"
    ensures RowLine(content[1], widths) == "| ccc | d  |\n"
  {
    TwoCellRow(content[0], widths);
    TwoCellRow(content[1], widths);
    TwoByTwoCells();
    TwoByTwoSeparator(widths);
  }

  lemma TwoCellRow(row: seq<string>, widths: seq<nat>)
    requires Fits(row, widths) && |widths| == 2
    ensures RowLine(row, widths) == "|" + Cell(row[0], widths[0]) + Cell(row[1], widths[1]) + "\n"
  {
    assert Cells(row, widths, 1) == "" + Cell(row[0], widths[0]);
  }

  lemma TwoByTwoCells()
    ensures Cell("a", 3) == " a   |" && Cell("bb", 2) == " bb |"
    ensures Cell("ccc", 3) == " ccc |" && Cell("d", 2) == " d  |"
  {
    assert Repeat(' ', 2) == "  " && Repeat(' ', 1) == " " && Repeat(' ', 0) == "";
  }

  lemma TwoByTwoSeparator(widths: seq<nat>)
    requires widths == [3, 2]
    ensures SeparatorLine(widths) == "| --- | -- |\n"
  {
    assert Repeat('-', 3) == "---" && Repeat('-', 2) == "--";
    assert Dashes(widths, 1) == "" + " " + "---" + " |";
    assert Dashes(widths, 2) == " --- |" + " " + "--" + " |";
  }

  /** Ragged rows and the empty table render as the empty string. */
  lemma RefusedTables(content: seq<seq<string>>)
    requires content == [] || content == [["a", "b"], ["a"]]
    ensures Table(content) == ""
  {
    if content != [] {
      assert |content[1]| != |content[0]|;
    }
  }
}
