/** `PgReports::Report`: the rows a report produced, its title and columns,
    and the plain-text and Markdown tables built from them. */
module Reports {
  import opened Common
  import opened Text
  import opened Values
  import opened Lists

  datatype Report = Report(title: string, data: seq<Dict>, columns: seq<string>)

  /** How cells are rendered: `max_query_length` from the configuration, and
      `format("%.2f", f)` for Float cells, which the model takes as given. */
  datatype Style = Style(maxQueryLength: int, fixed2: real -> string)

  /** `Report.new(title:, data:, columns:)`: without columns, those of the
      first row, or none when there are no rows. */
  function NewReport(title: string, data: seq<Dict>, columns: Option<seq<string>>): (r: Report)
    ensures r.title == title && r.data == data
    ensures columns.Some? ==> r.columns == columns.value
    ensures columns.None? && |data| == 0 ==> r.columns == []
    ensures columns.None? && |data| > 0 ==>
      |r.columns| == |data[0]| && forall i :: 0 <= i < |r.columns| ==> r.columns[i] == data[0][i].0
  {
    Report(title, data, columns.GetOr(DetectColumns(data)))
  }

  /** The keys of the first row, in insertion order; none without rows. */
  function DetectColumns(data: seq<Dict>): (r: seq<string>)
    ensures |data| == 0 ==> r == []
    ensures |data| > 0 ==> |r| == |data[0]| && forall i :: 0 <= i < |r| ==> r[i] == data[0][i].0
    ensures |data| > 0 ==> forall k :: k in r <==> HasKey(data[0], k)
  {
    if |data| == 0 then [] else Keys(data[0])
  }

  /** `size`: the number of rows, so zero exactly for an empty report. */
  function Size(rep: Report): (n: nat)
    ensures n == 0 <==> rep.data == []
  {
    |rep.data|
  }

  /** The text table has one line per counted row under its two header lines. */
  lemma SizeCountsTableRows(rep: Report, st: Style)
    ensures |TableLines(rep, st)| == Size(rep) + 2
  {
  }

  // ---------------------------------------------------------------------------
  // Cells

  /** `truncate_query`: text longer than `max` keeps its first `max - 3`
      characters (none when that is not positive) followed by "...". */
  function TruncateQuery(text: string, max: int): (r: string)
    ensures |text| <= max ==> r == text
    ensures |text| > max ==> |r| == (if max >= 3 then max else 3)
    ensures |text| > max ==> EndsWith(r, "...") && r[..|r| - 3] == text[..|r| - 3]
  {
    if |text| <= max then text
    else
      var keep := if max - 3 <= 0 then "" else text[..max - 3];
      keep + "..."
  }

  /** Truncating again changes nothing, whatever the maximum. */
  lemma TruncateIdempotent(text: string, max: int)
    ensures TruncateQuery(TruncateQuery(text, max), max) == TruncateQuery(text, max)
  {
    var r := TruncateQuery(text, max);
    if |text| > max && max < 3 {
      assert r == "...";
    }
  }

  /** `format_cell`: nil is blank, a Float shows two decimals, a String is
      truncated, anything else is its `to_s`. */
  function FormatCell(v: Value, st: Style): (r: string)
    ensures v.Nil? ==> r == ""
    ensures v.Str? ==> r == TruncateQuery(v.s, st.maxQueryLength)
    ensures v.Int? ==> r == IntText(v.i)
  {
    match v
    case Nil => ""
    case Float(f) => st.fixed2(f)
    case Str(s) => TruncateQuery(s, st.maxQueryLength)
    case _ => ToS(v)
  }

  /** The formatted cells of one column, row by row. */
  function CellTexts(data: seq<Dict>, col: string, st: Style): (cs: seq<string>)
    ensures |cs| == |data|
    ensures forall j :: 0 <= j < |data| ==> cs[j] == FormatCell(Get(data[j], col), st)
  {
    seq(|data|, j requires 0 <= j < |data| => FormatCell(Get(data[j], col), st))
  }

  // ---------------------------------------------------------------------------
  // Column widths

  /** The largest of `h` and the lengths of `xs`. */
  function MaxLength(h: nat, xs: seq<string>): (w: nat)
    ensures w >= h && forall i :: 0 <= i < |xs| ==> w >= |xs[i]|
    ensures w == h || exists i :: 0 <= i < |xs| && w == |xs[i]|
    decreases |xs|
  {
    if |xs| == 0 then h
    else
      var m := MaxLength(h, xs[..|xs| - 1]);
      assert forall i :: 0 <= i < |xs| - 1 ==> xs[..|xs| - 1][i] == xs[i];
      if m >= |xs[|xs| - 1]| then m else |xs[|xs| - 1]|
  }

  /** `calculate_column_widths`: each column is as wide as the widest of its
      header and its formatted cells, and no wider. */
  function Widths(rep: Report, st: Style): (w: seq<nat>)
    ensures |w| == |rep.columns|
    ensures forall i :: 0 <= i < |w| ==> w[i] >= |rep.columns[i]|
    ensures forall i, j :: 0 <= i < |w| && 0 <= j < |rep.data| ==>
      w[i] >= |FormatCell(Get(rep.data[j], rep.columns[i]), st)|
    ensures forall i :: 0 <= i < |w| ==>
      w[i] == |rep.columns[i]| ||
      exists j :: 0 <= j < |rep.data| && w[i] == |FormatCell(Get(rep.data[j], rep.columns[i]), st)|
  {
    var cols := rep.columns;
    var w := seq(|cols|, i requires 0 <= i < |cols| => MaxLength(|cols[i]|, CellTexts(rep.data, cols[i], st)));
    assert forall i :: 0 <= i < |w| ==> w[i] == MaxLength(|cols[i]|, CellTexts(rep.data, cols[i], st));
    w
  }

  // ---------------------------------------------------------------------------
  // Plain-text table

  /** The cells of `row`, each padded to its column's width. */
  function PaddedCells(row: Dict, cols: seq<string>, w: seq<nat>, st: Style): (cs: seq<string>)
    requires |w| == |cols|
    requires forall i :: 0 <= i < |w| ==> w[i] >= |FormatCell(Get(row, cols[i]), st)|
    ensures |cs| == |cols|
    ensures forall i :: 0 <= i < |cs| ==> |cs[i]| == w[i] && cs[i][..|FormatCell(Get(row, cols[i]), st)|] == FormatCell(Get(row, cols[i]), st)
  {
    seq(|cols|, i requires 0 <= i < |cols| => LJust(FormatCell(Get(row, cols[i]), st), w[i]))
  }

  /** `ljust`-padded headers joined with " | ". */
  function HeaderLine(cols: seq<string>, w: seq<nat>): string
    requires |w| == |cols|
  {
    Join(seq(|cols|, i requires 0 <= i < |cols| => LJust(cols[i], w[i])), " | ")
  }

  /** Runs of "-" as wide as the columns, joined with "-+-". */
  function SeparatorLine(w: seq<nat>): string {
    Join(seq(|w|, i requires 0 <= i < |w| => Repeat('-', w[i])), "-+-")
  }

  function RowLine(row: Dict, cols: seq<string>, w: seq<nat>, st: Style): string
    requires |w| == |cols|
    requires forall i :: 0 <= i < |w| ==> w[i] >= |FormatCell(Get(row, cols[i]), st)|
  {
    Join(PaddedCells(row, cols, w, st), " | ")
  }

  /** The header, the separator, and one line per row of `format_table_text`. */
  function TableLines(rep: Report, st: Style): (lines: seq<string>)
    ensures |lines| == |rep.data| + 2
  {
    var w := Widths(rep, st);
    [HeaderLine(rep.columns, w), SeparatorLine(w)]
      + seq(|rep.data|, j requires 0 <= j < |rep.data| => RowLine(rep.data[j], rep.columns, w, st))
  }

  /** The length of a line whose cells have widths `w`, with three-character
      separators between them. */
  function LineWidth(w: seq<nat>): nat
    decreases |w|
  {
    if |w| == 0 then 0 else if |w| == 1 then w[0] else w[0] + 3 + LineWidth(w[1..])
  }

  /** Pieces of widths `w` joined by a three-character separator span
      `LineWidth(w)`. */
  lemma {:induction false} JoinWidth(a: seq<string>, sep: string, w: seq<nat>)
    requires |a| == |w| && |sep| == 3
    requires forall i :: 0 <= i < |a| ==> |a[i]| == w[i]
    ensures |Join(a, sep)| == LineWidth(w)
    decreases |a|
  {
    if |a| > 1 {
      JoinWidth(a[1..], sep, w[1..]);
    }
  }

  lemma HeaderWidth(cols: seq<string>, w: seq<nat>)
    requires |w| == |cols|
    requires forall i :: 0 <= i < |w| ==> w[i] >= |cols[i]|
    ensures |HeaderLine(cols, w)| == LineWidth(w)
  {
    JoinWidth(seq(|cols|, i requires 0 <= i < |cols| => LJust(cols[i], w[i])), " | ", w);
  }

  lemma SeparatorWidth(w: seq<nat>)
    ensures |SeparatorLine(w)| == LineWidth(w)
  {
    JoinWidth(seq(|w|, i requires 0 <= i < |w| => Repeat('-', w[i])), "-+-", w);
  }

  lemma RowWidth(row: Dict, cols: seq<string>, w: seq<nat>, st: Style)
    requires |w| == |cols|
    requires forall i :: 0 <= i < |w| ==> w[i] >= |FormatCell(Get(row, cols[i]), st)|
    ensures |RowLine(row, cols, w, st)| == LineWidth(w)
  {
    JoinWidth(PaddedCells(row, cols, w, st), " | ", w);
  }

  lemma RowsWidth(rep: Report, st: Style, j: int)
    requires 0 <= j < |rep.data|
    ensures |RowLine(rep.data[j], rep.columns, Widths(rep, st), st)| == LineWidth(Widths(rep, st))
  {
    RowWidth(rep.data[j], rep.columns, Widths(rep, st), st);
  }

  /** The plain-text table is aligned: header, separator and every row have
      the same length, since every cell is padded to its column's width. */
  lemma TableAligned(rep: Report, st: Style)
    ensures forall k :: 0 <= k < |TableLines(rep, st)| ==>
      |TableLines(rep, st)[k]| == LineWidth(Widths(rep, st))
  {
    forall k | 0 <= k < |TableLines(rep, st)|
      ensures |TableLines(rep, st)[k]| == LineWidth(Widths(rep, st))
    {
      LineAligned(rep, st, k);
    }
  }

  lemma LineAligned(rep: Report, st: Style, k: int)
    requires 0 <= k < |rep.data| + 2
    ensures |TableLines(rep, st)[k]| == LineWidth(Widths(rep, st))
  {
    var w := Widths(rep, st);
    if k == 0 {
      HeaderWidth(rep.columns, w);
    } else if k == 1 {
      SeparatorWidth(w);
    } else {
      RowsWidth(rep, st, k - 2);
    }
  }

  /** `format_table_text`: nothing for an empty report; otherwise the header
      line, then the separator line, then the rows. */
  function TableText(rep: Report, st: Style): (r: string)
    ensures |rep.data| == 0 ==> r == ""
    ensures |rep.data| > 0 ==>
      StartsWith(r, HeaderLine(rep.columns, Widths(rep, st)) + "\n" + SeparatorLine(Widths(rep, st)) + "\n")
    ensures |rep.data| > 0 ==> EndsWith(r, "\n" + RowLine(rep.data[|rep.data| - 1], rep.columns, Widths(rep, st), st))
  {
    if |rep.data| == 0 then ""
    else
      var lines := TableLines(rep, st);
      JoinFrontAndBack(lines, "\n");
      Join(lines, "\n")
  }

  /** A join of three or more lines starts with the first two, each followed
      by the separator, and ends with the separator and the last. */
  lemma JoinFrontAndBack(lines: seq<string>, sep: string)
    requires |lines| >= 3
    ensures StartsWith(Join(lines, sep), lines[0] + sep + lines[1] + sep)
    ensures EndsWith(Join(lines, sep), sep + lines[|lines| - 1])
  {
    JoinFront(lines, sep);
    JoinBack(lines, sep);
  }

  lemma JoinFront(lines: seq<string>, sep: string)
    requires |lines| >= 3
    ensures Join(lines, sep) == (lines[0] + sep + lines[1] + sep) + Join(lines[2..], sep)
  {
    var a, b, rest := lines[0], lines[1], lines[2..];
    assert lines == [a] + ([b] + rest);
    JoinCons(a, [b] + rest, sep);
    JoinCons(b, rest, sep);
  }

  lemma JoinBack(lines: seq<string>, sep: string)
    requires |lines| >= 3
    ensures Join(lines, sep) == Join(lines[..|lines| - 1], sep) + (sep + lines[|lines| - 1])
  {
    var front, last := lines[..|lines| - 1], lines[|lines| - 1];
    assert lines == front + [last];
    JoinSnoc(front, last, sep);
  }

  /** The closing line of the text rendering. */
  function TotalLine(rep: Report): string {
    "Total: " + NatText(Size(rep)) + " rows"
  }

  /** `to_text`: the title underlined with as many "=" as it has characters,
      then either "No data found." or the generation time, the table and the
      row count. */
  function ToText(rep: Report, st: Style, generated: string): (r: string)
    ensures |rep.data| == 0 ==> r == rep.title + "\n" + Repeat('=', |rep.title|) + "\nNo data found."
    ensures |rep.data| > 0 ==> StartsWith(r, rep.title + "\n" + Repeat('=', |rep.title|) + "\n")
    ensures |rep.data| > 0 ==> EndsWith(r, "\n" + TotalLine(rep))
  {
    var t := rep.title;
    var u := Repeat('=', |t|);
    if |rep.data| == 0 then t + "\n" + u + "\nNo data found."
    else
      var total := TotalLine(rep);
      var middle := ["Generated: " + generated, "", TableText(rep, st), ""];
      JoinShape(t, u, middle, total);
      Join([t, u] + middle + [total], "\n")
  }

  /** Lines joined by newlines begin with the first two and end with the
      last. */
  lemma JoinShape(t: string, u: string, middle: seq<string>, last: string)
    ensures StartsWith(Join([t, u] + middle + [last], "\n"), t + "\n" + u + "\n")
    ensures EndsWith(Join([t, u] + middle + [last], "\n"), "\n" + last)
  {
    var front := [t, u] + middle;
    var r := Join(front + [last], "\n");
    JoinSnoc(front, last, "\n");
    assert r == Join(front, "\n") + "\n" + last;
    assert r[|r| - |"\n" + last|..] == "\n" + last;
    var rest := middle + [last];
    assert front + [last] == [t] + ([u] + rest);
    JoinCons(t, [u] + rest, "\n");
    JoinCons(u, rest, "\n");
    assert r == (t + "\n" + u + "\n") + Join(rest, "\n");
  }

  // ---------------------------------------------------------------------------
  // Markdown table

  /** The number of rows a Markdown table shows before summarising the rest
      (Telegram's message size). */
  const MarkdownRows := 50

  function MarkdownRow(row: Dict, cols: seq<string>, st: Style): string {
    "| " + Join(seq(|cols|, i requires 0 <= i < |cols| => FormatCell(Get(row, cols[i]), st)), " | ") + " |"
  }

  function MoreRowsLine(n: int): string {
    "| ... and " + IntText(n - MarkdownRows) + " more rows |"
  }

  function MarkdownHeader(cols: seq<string>): string {
    "| " + Join(cols, " | ") + " |"
  }

  function MarkdownSeparator(cols: seq<string>): string {
    "| " + Join(seq(|cols|, i requires 0 <= i < |cols| => "---"), " | ") + " |"
  }

  /** The first 50 rows, each rendered as a Markdown table row, in order. */
  function MarkdownBody(rep: Report, st: Style): (rows: seq<string>)
    ensures |rows| == Min(|rep.data|, MarkdownRows)
    ensures forall j :: 0 <= j < |rows| ==> rows[j] == MarkdownRow(rep.data[j], rep.columns, st)
  {
    var shown := First(rep.data, MarkdownRows);
    seq(|shown|, j requires 0 <= j < |shown| => MarkdownRow(shown[j], rep.columns, st))
  }

  /** The lines of `format_table_markdown`: header, separator, the first 50
      rows in order, and a line counting the rest when there are more. */
  function MarkdownLines(rep: Report, st: Style): (lines: seq<string>)
    ensures |lines| == 2 + Min(|rep.data|, MarkdownRows) + (if |rep.data| > MarkdownRows then 1 else 0)
    ensures forall j :: 0 <= j < Min(|rep.data|, MarkdownRows) ==> lines[2 + j] == MarkdownRow(rep.data[j], rep.columns, st)
    ensures |rep.data| > MarkdownRows ==> lines[|lines| - 1] == MoreRowsLine(|rep.data|)
    ensures |rep.data| > MarkdownRows <==> |lines| == MarkdownRows + 3
  {
    var header := MarkdownHeader(rep.columns);
    var separator := MarkdownSeparator(rep.columns);
    var rows := MarkdownBody(rep, st);
    var more := if |rep.data| > MarkdownRows then [MoreRowsLine(|rep.data|)] else [];
    LinesShape(header, separator, rows, more);
    [header, separator] + rows + more
  }

  /** Where the rows and the closing line sit among the lines. */
  lemma LinesShape(header: string, separator: string, rows: seq<string>, more: seq<string>)
    ensures |[header, separator] + rows + more| == 2 + |rows| + |more|
    ensures forall j :: 0 <= j < |rows| ==> ([header, separator] + rows + more)[2 + j] == rows[j]
    ensures |more| == 1 ==> ([header, separator] + rows + more)[2 + |rows|] == more[0]
  {
  }

  /** `format_table_markdown`: nothing for an empty report; otherwise the
      header and separator lines first, and with more than 50 rows the line
      counting the rest last. */
  function TableMarkdown(rep: Report, st: Style): (r: string)
    ensures |rep.data| == 0 ==> r == ""
    ensures |rep.data| > 0 ==> StartsWith(r, MarkdownHeader(rep.columns) + "\n" + MarkdownSeparator(rep.columns) + "\n")
    ensures |rep.data| > MarkdownRows ==> EndsWith(r, "\n" + MoreRowsLine(|rep.data|))
    ensures 0 < |rep.data| <= MarkdownRows ==>
      EndsWith(r, "\n" + MarkdownRow(rep.data[|rep.data| - 1], rep.columns, st))
  {
    if |rep.data| == 0 then ""
    else
      var lines := MarkdownLines(rep, st);
      JoinFrontAndBack(lines, "\n");
      Join(lines, "\n")
  }
}
