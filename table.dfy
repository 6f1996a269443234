/** `pretty_table`: lays rows of cells out in left-justified columns separated by " | ". */
module Table {
  import opened Common

  /** The exception `pretty_table` raises: a row with more cells than there are columns. */
  datatype TableError = IndexError

  const EMPTY_TABLE := "(vazio)"
  const CELL_SEP := " | "
  const RULE_SEP := "-+-"

  /** `str(c)` of a cell, with Python's `None` shown as the empty string. */
  function CellText(c: Option<string>): string {
    if c.Some? then c.value else ""
  }

  function RenderRow(r: seq<Option<string>>): (t: seq<string>)
    ensures |t| == |r|
    ensures forall i :: 0 <= i < |r| ==> t[i] == CellText(r[i])
  {
    if r == [] then [] else [CellText(r[0])] + RenderRow(r[1..])
  }

  function RenderRows(rows: seq<seq<Option<string>>>): (d: seq<seq<string>>)
    ensures |d| == |rows|
    ensures forall i :: 0 <= i < |rows| ==> d[i] == RenderRow(rows[i])
  {
    if rows == [] then [] else [RenderRow(rows[0])] + RenderRows(rows[1..])
  }

  /** A Python list of headers is truthy when it is present and not empty. */
  predicate HasHeaders(headers: Option<seq<string>>) {
    headers.Some? && headers.value != []
  }

  /** Python's `c * n` for a single character. */
  function Repeat(c: char, n: nat): (s: string)
    ensures |s| == n && forall i :: 0 <= i < n ==> s[i] == c
  {
    if n == 0 then [] else [c] + Repeat(c, n - 1)
  }

  /** Python's `s.ljust(w)`: pads with spaces on the right, never truncates. */
  function LJust(s: string, w: int): (r: string)
    ensures |r| == if |s| < w then w else |s|
    ensures r[..|s|] == s
    ensures forall i :: |s| <= i < |r| ==> r[i] == ' '
  {
    if |s| < w then s + Repeat(' ', w - |s|) else s
  }

  /** The widest cell in column `i` of `data`, or 0 when no row reaches column `i`. */
  function ColumnWidth(data: seq<seq<string>>, i: nat): nat {
    if data == [] then 0
    else
      var last := data[|data| - 1];
      var w := ColumnWidth(data[..|data| - 1], i);
      if i < |last| && |last[i]| > w then |last[i]| else w
  }

  function Widths(data: seq<seq<string>>, cols: nat): (w: seq<nat>)
    ensures |w| == cols
  {
    seq(cols, i requires 0 <= i < cols => ColumnWidth(data, i))
  }

  /** One output line: the row's cells, each left-justified to its column's width. */
  function RowLine(row: seq<string>, widths: seq<nat>): string
    requires |row| <= |widths|
  {
    Join(CELL_SEP, seq(|row|, i requires 0 <= i < |row| => LJust(row[i], widths[i])))
  }

  /** The rule under the header: a run of dashes per column. */
  function RuleLine(widths: seq<nat>): string {
    Join(RULE_SEP, seq(|widths|, i requires 0 <= i < |widths| => Repeat('-', widths[i])))
  }

  predicate RowsFit(data: seq<seq<string>>, cols: nat) {
    forall k :: 0 <= k < |data| ==> |data[k]| <= cols
  }

  /** The number of columns: the headers' count, else the first row's. */
  function TableCols(rows: seq<seq<Option<string>>>, headers: Option<seq<string>>): nat
    requires rows != [] || HasHeaders(headers)
  {
    if HasHeaders(headers) then |headers.value| else |rows[0]|
  }

  /** The rendered rows the widths are taken over: the header row first, when there is one. */
  function TableData(rows: seq<seq<Option<string>>>, headers: Option<seq<string>>): (d: seq<seq<string>>)
    ensures HasHeaders(headers) ==> d == [headers.value] + RenderRows(rows)
    ensures !HasHeaders(headers) ==> d == RenderRows(rows)
  {
    if HasHeaders(headers) then [headers.value] + RenderRows(rows) else RenderRows(rows)
  }

  /** What `pretty_table(rows, headers)` returns, stated over the finished column widths. */
  function TableText(rows: seq<seq<Option<string>>>, headers: Option<seq<string>>): Result<string, TableError> {
    if rows == [] && !HasHeaders(headers) then Ok(EMPTY_TABLE)
    else
      var cols := TableCols(rows, headers);
      var data := TableData(rows, headers);
      if !RowsFit(data, cols) then Err(IndexError)
      else
        Ok(Join("\n", TableLines(data, Widths(data, cols), HasHeaders(headers))))
  }

  /** The output lines: header and rule when there are headers, then one line per body row. */
  function TableLines(data: seq<seq<string>>, w: seq<nat>, hasHeaders: bool): (lines: seq<string>)
    requires RowsFit(data, |w|)
    requires hasHeaders ==> data != []
    ensures hasHeaders ==> |lines| == |data| + 1
    ensures !hasHeaders ==> lines == seq(|data|, j requires 0 <= j < |data| => RowLine(data[j], w))
  {
    var head := if hasHeaders then [RowLine(data[0], w), RuleLine(w)] else [];
    var body := if hasHeaders then data[1..] else data;
    head + seq(|body|, j requires 0 <= j < |body| => RowLine(body[j], w))
  }

  /** No cell of column `i` is wider than the column. */
  lemma {:induction false} ColumnWidthBounds(data: seq<seq<string>>, i: nat)
    ensures forall k :: 0 <= k < |data| && i < |data[k]| ==> |data[k][i]| <= ColumnWidth(data, i)
  {
    if data != [] {
      var init := data[..|data| - 1];
      ColumnWidthBounds(init, i);
      assert forall k :: 0 <= k < |init| ==> data[k] == init[k];
    }
  }

  /** A column that is not empty is exactly as wide as one of its cells. */
  lemma {:induction false} ColumnWidthAttained(data: seq<seq<string>>, i: nat)
    ensures ColumnWidth(data, i) > 0 ==>
      exists k :: 0 <= k < |data| && i < |data[k]| && |data[k][i]| == ColumnWidth(data, i)
  {
    if data != [] {
      var init := data[..|data| - 1];
      ColumnWidthAttained(init, i);
      if ColumnWidth(data, i) == ColumnWidth(init, i) && ColumnWidth(init, i) > 0 {
        var k :| 0 <= k < |init| && i < |init[k]| && |init[k][i]| == ColumnWidth(init, i);
        assert data[k] == init[k];
      }
    }
  }

  lemma {:induction false} JoinSameLengths(sep: string, a: seq<string>, b: seq<string>)
    requires |a| == |b|
    requires forall i :: 0 <= i < |a| ==> |a[i]| == |b[i]|
    ensures |Join(sep, a)| == |Join(sep, b)|
  {
    if |a| > 1 {
      JoinSameLengths(sep, a[1..], b[1..]);
    }
  }

  /** Every row with a cell in each column is laid out exactly as long as the rule under the header. */
  lemma RowsAligned(data: seq<seq<string>>, cols: nat, k: nat)
    requires k < |data| && |data[k]| == cols
    ensures |RowLine(data[k], Widths(data, cols))| == |RuleLine(Widths(data, cols))|
  {
    var w := Widths(data, cols);
    var row := data[k];
    var cells := seq(|row|, i requires 0 <= i < |row| => LJust(row[i], w[i]));
    var rule := seq(|w|, i requires 0 <= i < |w| => Repeat('-', w[i]));
    forall i | 0 <= i < cols
      ensures |cells[i]| == |rule[i]|
    {
      ColumnWidthBounds(data, i);
      assert |row[i]| <= w[i];
    }
    JoinSameLengths(CELL_SEP, cells, rule);
    assert |Join(CELL_SEP, rule)| == |Join(RULE_SEP, rule)| by {
      SepSameLength(CELL_SEP, RULE_SEP, rule);
    }
  }

  lemma {:induction false} SepSameLength(s1: string, s2: string, parts: seq<string>)
    requires |s1| == |s2|
    ensures |Join(s1, parts)| == |Join(s2, parts)|
  {
    if |parts| > 1 {
      SepSameLength(s1, s2, parts[1..]);
    }
  }

  /** The layout fails exactly when some row of the data has more cells than there are columns. */
  lemma TableFails(rows: seq<seq<Option<string>>>, headers: Option<seq<string>>)
    requires rows != [] || HasHeaders(headers)
    ensures TableText(rows, headers).Err? <==> !RowsFit(TableData(rows, headers), TableCols(rows, headers))
  {
  }

  /** Without headers the first row fixes the number of columns. */
  lemma TableFailsWithoutHeaders(rows: seq<seq<Option<string>>>, headers: Option<seq<string>>)
    requires !HasHeaders(headers) && rows != []
    ensures TableText(rows, headers).Err? <==> exists k :: 0 <= k < |rows| && |rows[k]| > |rows[0]|
  {
    TableFails(rows, headers);
    var data := TableData(rows, headers);
    if exists k :: 0 <= k < |rows| && |rows[k]| > |rows[0]| {
      var k :| 0 <= k < |rows| && |rows[k]| > |rows[0]|;
      assert |data[k]| > |data[0]|;
    }
  }

  /** With headers, a body row fails exactly when it has more cells than there are headers. */
  lemma TableFailsWithHeaders(rows: seq<seq<Option<string>>>, headers: Option<seq<string>>)
    requires HasHeaders(headers)
    ensures TableText(rows, headers).Err? <==> exists k :: 0 <= k < |rows| && |rows[k]| > |headers.value|
  {
    TableFails(rows, headers);
    var data := TableData(rows, headers);
    if exists k :: 0 <= k < |rows| && |rows[k]| > |headers.value| {
      var k :| 0 <= k < |rows| && |rows[k]| > |headers.value|;
      assert |data[k + 1]| > |headers.value|;
    }
    if !RowsFit(data, |headers.value|) {
      var k :| 0 <= k < |data| && |data[k]| > |headers.value|;
      assert k > 0 && |rows[k - 1]| > |headers.value|;
    }
  }

  /** Folding one more row into the widths raises each column to that row's cell where it is wider. */
  lemma WidthsStep(data: seq<seq<string>>, n: nat, k: nat)
    requires n < |data|
    ensures ColumnWidth(data[..n + 1], k) ==
      if k < |data[n]| && |data[n][k]| > ColumnWidth(data[..n], k) then |data[n][k]| else ColumnWidth(data[..n], k)
  {
    assert data[..n + 1][..n] == data[..n];
  }

  /** The first loop of `pretty_table`: the width of every column, or the error of a row that is too long. */
  method ColumnWidths(data: seq<seq<string>>, cols: nat) returns (r: Result<seq<nat>, TableError>)
    ensures r.Ok? <==> RowsFit(data, cols)
    ensures r.Ok? ==> r.value == Widths(data, cols)
  {
    var widths := new nat[cols](_ => 0);
    var n := 0;
    while n < |data|
      invariant 0 <= n <= |data|
      invariant RowsFit(data[..n], cols)
      invariant widths[..] == Widths(data[..n], cols)
    {
      var row := data[n];
      var i := 0;
      while i < |row|
        invariant 0 <= i <= |row| && i <= cols
        invariant forall k :: 0 <= k < cols ==>
          widths[k] == if k < i && |row[k]| > ColumnWidth(data[..n], k) then |row[k]| else ColumnWidth(data[..n], k)
      {
        if i >= cols {
          assert |data[n]| > cols;
          return Err(IndexError);
        }
        if |row[i]| > widths[i] {
          widths[i] := |row[i]|;
        }
        i := i + 1;
      }
      forall k | 0 <= k < cols
        ensures widths[k] == ColumnWidth(data[..n + 1], k)
      {
        WidthsStep(data, n, k);
      }
      assert data[..n + 1][n] == row;
      n := n + 1;
    }
    assert data[..n] == data;
    return Ok(widths[..]);
  }

  method PrettyTable(rows: seq<seq<Option<string>>>, headers: Option<seq<string>>)
    returns (r: Result<string, TableError>)
    ensures r == TableText(rows, headers)
  {
    var hasHeaders := HasHeaders(headers);
    if rows == [] && !hasHeaders {
      return Ok(EMPTY_TABLE);
    }
    var cols := TableCols(rows, headers);
    var data := TableData(rows, headers);
    var widths := ColumnWidths(data, cols);
    if widths.Err? {
      return Err(IndexError);
    }
    var lines := LayOut(data, widths.value, hasHeaders);
    return Ok(Join("\n", lines));
  }

  /** The second half of `pretty_table`: the header lines, then a line appended per body row. */
  method LayOut(data: seq<seq<string>>, w: seq<nat>, hasHeaders: bool) returns (lines: seq<string>)
    requires RowsFit(data, |w|)
    requires hasHeaders ==> data != []
    ensures lines == TableLines(data, w, hasHeaders)
  {
    lines := [];
    var body := data;
    if hasHeaders {
      lines := [RowLine(data[0], w), RuleLine(w)];
      body := data[1..];
    }
    var head := lines;
    for j := 0 to |body|
      invariant lines == head + seq(j, k requires 0 <= k < j => RowLine(body[k], w))
    {
      lines := lines + [RowLine(body[j], w)];
    }
  }
}
