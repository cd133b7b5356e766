/** The layout arithmetic of `TableRenderer` in
    packages/cli/src/ui/utils/TableRenderer.tsx: natural column widths, the
    total bordered width, the proportional scaling with its floor of three
    columns, and the header and row heights.

    `terminalWidth / totalWidth` is a floating-point ratio in the source;
    here `Math.floor(w * ratio)` is the exact `floor(w * terminalWidth /
    totalWidth)`. */
module TableLayout {
  import opened JsStrings
  import opened PlainText
  import opened LineWrap

  /** `minColWidth`. */
  const MIN_COL_WIDTH: nat := 3

  /** Two columns of padding, one on each side of a cell's content. */
  const PADDING: nat := 2

  /** `row[index] || ''`: a missing cell counts as the empty string. */
  function CellOrEmpty(row: seq<JsString>, index: nat): JsString {
    if index < |row| then row[index] else []
  }

  /** `Math.max(init, ...xs)`. */
  function MaxFrom(init: nat, xs: seq<nat>): (m: nat)
    ensures m >= init && forall i :: 0 <= i < |xs| ==> m >= xs[i]
    ensures m == init || exists i :: 0 <= i < |xs| && m == xs[i]
  {
    if xs == [] then init
    else
      var before := MaxFrom(init, xs[..|xs| - 1]);
      assert forall i :: 0 <= i < |xs| - 1 ==> xs[..|xs| - 1][i] == xs[i];
      if xs[|xs| - 1] > before then xs[|xs| - 1] else before
  }

  /** The plain-text widths of column `index` of every row, a missing cell
      counted as empty. */
  function ColumnCellWidths(measure: WidthFn, rows: seq<seq<JsString>>, index: nat): (cs: seq<nat>)
    ensures |cs| == |rows|
    ensures forall r :: 0 <= r < |rows| ==> cs[r] == GetPlainTextLength(measure, CellOrEmpty(rows[r], index))
  {
    seq(|rows|, r requires 0 <= r < |rows| => GetPlainTextLength(measure, CellOrEmpty(rows[r], index)))
  }

  /** The widest plain-text cell of column `index`, header included. With no
      rows, `Math.max()` over nothing is `-Infinity`, so the header alone
      decides. */
  function ColumnContentWidth(measure: WidthFn, header: JsString, rows: seq<seq<JsString>>, index: nat): nat {
    MaxFrom(GetPlainTextLength(measure, header), ColumnCellWidths(measure, rows, index))
  }

  /** `columnWidths`: one natural width per header. */
  function NaturalWidths(measure: WidthFn, headers: seq<JsString>, rows: seq<seq<JsString>>): (ws: seq<nat>)
    ensures |ws| == |headers|
    ensures forall i :: 0 <= i < |ws| ==> ws[i] >= PADDING
  {
    seq(|headers|, i requires 0 <= i < |headers| => ColumnContentWidth(measure, headers[i], rows, i) + PADDING)
  }

  /** A natural width is the widest plain-text cell of its column, header
      included and missing cells counted as empty, plus the padding; with
      no rows it is the header's width plus the padding. */
  lemma NaturalWidthIsWidestCell(measure: WidthFn, headers: seq<JsString>, rows: seq<seq<JsString>>, i: nat)
    requires i < |headers|
    ensures var w := NaturalWidths(measure, headers, rows)[i];
            && w >= GetPlainTextLength(measure, headers[i]) + PADDING
            && (forall r :: 0 <= r < |rows| ==> w >= GetPlainTextLength(measure, CellOrEmpty(rows[r], i)) + PADDING)
            && (|| w == GetPlainTextLength(measure, headers[i]) + PADDING
                || exists r :: 0 <= r < |rows| && w == GetPlainTextLength(measure, CellOrEmpty(rows[r], i)) + PADDING)
            && (rows == [] ==> w == GetPlainTextLength(measure, headers[i]) + PADDING)
  {
    var cs := ColumnCellWidths(measure, rows, i);
    var c := ColumnContentWidth(measure, headers[i], rows, i);
    assert NaturalWidths(measure, headers, rows)[i] == c + PADDING;
    forall r | 0 <= r < |rows| ensures c >= GetPlainTextLength(measure, CellOrEmpty(rows[r], i)) {
      assert cs[r] == GetPlainTextLength(measure, CellOrEmpty(rows[r], i));
    }
    if c != GetPlainTextLength(measure, headers[i]) {
      var r :| 0 <= r < |cs| && c == cs[r];
      assert c == GetPlainTextLength(measure, CellOrEmpty(rows[r], i));
    }
  }

  /** The sum of a sequence of widths. */
  function Sum(ws: seq<nat>): nat {
    if ws == [] then 0 else ws[0] + Sum(ws[1..])
  }

  lemma {:induction false} SumAppend(ws: seq<nat>, w: nat)
    ensures Sum(ws + [w]) == Sum(ws) + w
  {
    if ws != [] {
      assert (ws + [w])[1..] == ws[1..] + [w];
      SumAppend(ws[1..], w);
    } else {
      assert ws + [w] == [w];
    }
  }

  /** `columnWidths.reduce((sum, width) => sum + width + 1, 1)`. */
  function TotalWidth(ws: seq<nat>): nat {
    if ws == [] then 1 else TotalWidth(ws[..|ws| - 1]) + ws[|ws| - 1] + 1
  }

  /** The total is the widths plus one separator column before, between and
      after the columns: `sum + n + 1`. */
  lemma {:induction false} TotalWidthIsSumPlusSeparators(ws: seq<nat>)
    ensures TotalWidth(ws) == Sum(ws) + |ws| + 1
  {
    if ws != [] {
      var init := ws[..|ws| - 1];
      TotalWidthIsSumPlusSeparators(init);
      SumAppend(init, ws[|ws| - 1]);
      assert init + [ws[|ws| - 1]] == ws;
    }
  }

  /** One adjusted width: scaled down by `terminalWidth / totalWidth` when
      the table overflows, then raised to the floor. */
  function AdjustWidth(w: nat, total: nat, terminalWidth: int): nat
    requires total > 0
  {
    var scaled := if total > terminalWidth then (w * terminalWidth) / total else w;
    if scaled < MIN_COL_WIDTH then MIN_COL_WIDTH else scaled
  }

  /** `adjustedWidths`: every column at least `minColWidth` wide, whatever
      the terminal width. */
  function AdjustWidths(ws: seq<nat>, terminalWidth: int): (adjusted: seq<nat>)
    ensures |adjusted| == |ws|
    ensures forall i :: 0 <= i < |ws| ==> adjusted[i] >= MIN_COL_WIDTH
  {
    var total := TotalWidth(ws);
    seq(|ws|, i requires 0 <= i < |ws| => AdjustWidth(ws[i], total, terminalWidth))
  }

  /** When the table fits, widths only get raised to the floor. */
  lemma NoOverflowKeepsWidths(ws: seq<nat>, terminalWidth: int, i: nat)
    requires TotalWidth(ws) <= terminalWidth && i < |ws|
    ensures AdjustWidths(ws, terminalWidth)[i] == if ws[i] < MIN_COL_WIDTH then MIN_COL_WIDTH else ws[i]
  {
  }

  lemma FloorDivTimes(x: int, d: nat)
    requires d > 0
    ensures (x / d) * d <= x
  {
  }

  lemma Distribute(a: int, b: int, c: int)
    ensures (a + b) * c == a * c + b * c
  {
  }

  lemma ProductBelow(a: nat, b: nat, c: nat)
    requires a < b && c > 0
    ensures a * c < c * b
  {
    Distribute(a, b - a, c);
  }

  /** `floor(w * t / total) <= w` when `t < total`. */
  lemma ScaledNotWider(w: nat, total: nat, terminalWidth: int)
    requires 0 < total && terminalWidth < total
    ensures (w * terminalWidth) / total <= w
  {
    var q := (w * terminalWidth) / total;
    FloorDivTimes(w * terminalWidth, total);
    assert w * terminalWidth <= w * total by {
      assert w * total - w * terminalWidth == w * (total - terminalWidth);
    }
    assert (w + 1) * total == w * total + total;
    LessTimes(q, w + 1, total);
  }

  /** Columns are never stretched: an adjusted width is at most the natural
      width or the floor. */
  lemma NeverStretched(ws: seq<nat>, terminalWidth: int, i: nat)
    requires i < |ws|
    ensures AdjustWidths(ws, terminalWidth)[i] <= if ws[i] < MIN_COL_WIDTH then MIN_COL_WIDTH else ws[i]
  {
    var total := TotalWidth(ws);
    if total > terminalWidth {
      ScaledNotWider(ws[i], total, terminalWidth);
    }
  }

  /** The columns when none is raised to the floor: each the floor of its
      scaled width. */
  predicate NoneAtFloor(ws: seq<nat>, terminalWidth: int) {
    forall i :: 0 <= i < |ws| ==> (ws[i] * terminalWidth) / TotalWidth(ws) >= MIN_COL_WIDTH
  }

  lemma {:induction false} ScaledSumBound(ws: seq<nat>, total: nat, terminalWidth: nat, adjusted: seq<nat>)
    requires total > 0 && |adjusted| == |ws|
    requires forall i :: 0 <= i < |ws| ==> adjusted[i] == (ws[i] * terminalWidth) / total
    ensures Sum(adjusted) * total <= Sum(ws) * terminalWidth
  {
    if ws != [] {
      ScaledSumBound(ws[1..], total, terminalWidth, adjusted[1..]);
      var q := adjusted[0];
      FloorDivTimes(ws[0] * terminalWidth, total);
      Distribute(q, Sum(adjusted[1..]), total);
      Distribute(ws[0], Sum(ws[1..]), terminalWidth);
    }
  }

  /** Scaling makes the columns alone fit: when the table overflows a
      positive terminal width and no column is raised to the floor, the
      adjusted widths sum to less than the terminal width. The separators
      are not scaled, so the bordered table may still be wider (see
      `ScaledTableCanOverflow`). */
  lemma ScaledColumnsFit(ws: seq<nat>, terminalWidth: int)
    requires 0 < terminalWidth < TotalWidth(ws)
    requires NoneAtFloor(ws, terminalWidth)
    ensures Sum(AdjustWidths(ws, terminalWidth)) < terminalWidth
  {
    var total := TotalWidth(ws);
    var adjusted := AdjustWidths(ws, terminalWidth);
    forall i | 0 <= i < |ws| ensures adjusted[i] == (ws[i] * terminalWidth) / total {
      assert adjusted[i] == AdjustWidth(ws[i], total, terminalWidth);
    }
    ScaledSumBound(ws, total, terminalWidth, adjusted);
    var sa, sw := Sum(adjusted), Sum(ws);
    TotalWidthIsSumPlusSeparators(ws);
    assert sw < total;
    ProductBelow(sw, total, terminalWidth);
    assert sa * total < terminalWidth * total;
    LessTimes(sa, terminalWidth, total);
  }

  lemma {:induction false} SumOfReplicate(x: nat, n: nat)
    ensures Sum(Replicate(x, n)) == x * n
  {
    if n > 0 {
      SumOfReplicate(x, n - 1);
      assert Replicate(x, n)[1..] == Replicate(x, n - 1);
    }
  }

  /** Ten columns twenty wide on a terminal a hundred wide: each is scaled
      to nine, and with its eleven separator columns the table is a hundred
      and one wide. */
  lemma ScaledTableCanOverflow()
    ensures var adjusted := AdjustWidths(Replicate(20, 10), 100);
            && adjusted == Replicate(9, 10)
            && TotalWidth(adjusted) == 101 > 100
  {
    var ws: seq<nat> := Replicate(20, 10);
    SumOfReplicate(20, 10);
    TotalWidthIsSumPlusSeparators(ws);
    assert TotalWidth(ws) == 211;
    var adjusted := AdjustWidths(ws, 100);
    forall i | 0 <= i < 10 ensures adjusted[i] == 9 {
      assert adjusted[i] == AdjustWidth(20, 211, 100);
      assert 2000 / 211 == 9;
    }
    assert adjusted == Replicate(9, 10);
    SumOfReplicate(9, 10);
    TotalWidthIsSumPlusSeparators(adjusted);
  }

  /** `wrappedLineCount(cell, width - 2)`: the lines one cell takes in a
      column of the given adjusted width. */
  function CellLines(measure: WidthFn, cell: JsString, width: nat): nat {
    LineCount(measure, cell, width - PADDING)
  }

  /** The wrapped line count of every cell of a row at its column's
      adjusted width. */
  function CellLineCounts(measure: WidthFn, cells: seq<JsString>, widths: seq<nat>): (ls: seq<nat>)
    requires |cells| <= |widths|
    ensures |ls| == |cells|
    ensures forall ci :: 0 <= ci < |cells| ==> ls[ci] == CellLines(measure, cells[ci], widths[ci])
  {
    seq(|cells|, ci requires 0 <= ci < |cells| => CellLines(measure, cells[ci], widths[ci]))
  }

  /** `Math.max(1, ...cells.map((cell, ci) => wrappedLineCount(cell,
      adjustedWidths[ci] - 2)))`: the height of a header or data row. */
  function BlockHeight(measure: WidthFn, cells: seq<JsString>, widths: seq<nat>): (h: nat)
    requires |cells| <= |widths|
    ensures h >= 1
    ensures forall ci :: 0 <= ci < |cells| ==> h >= CellLines(measure, cells[ci], widths[ci])
    ensures h == 1 || exists ci :: 0 <= ci < |cells| && h == CellLines(measure, cells[ci], widths[ci])
  {
    var ls := CellLineCounts(measure, cells, widths);
    var h := MaxFrom(1, ls);
    assert h != 1 ==> exists ci :: 0 <= ci < |ls| && h == ls[ci];
    h
  }

  /** `headerHeight`. */
  function HeaderHeight(measure: WidthFn, headers: seq<JsString>, widths: seq<nat>): nat
    requires |headers| <= |widths|
  {
    BlockHeight(measure, headers, widths)
  }

  /** A row fits the columns when it has no more cells than there are
      headers. */
  predicate RowsFit(rows: seq<seq<JsString>>, columns: nat) {
    forall r :: 0 <= r < |rows| ==> |rows[r]| <= columns
  }

  /** `rowHeights`: one height per row, in order. */
  function RowHeights(measure: WidthFn, rows: seq<seq<JsString>>, widths: seq<nat>): (hs: seq<nat>)
    requires RowsFit(rows, |widths|)
    ensures |hs| == |rows|
    ensures forall r :: 0 <= r < |rows| ==> hs[r] >= 1
  {
    seq(|rows|, r requires 0 <= r < |rows| => BlockHeight(measure, rows[r], widths))
  }

  /** With every column at least three wide the content width is positive,
      so a cell never takes the `width <= 0` shortcut: its line count is the
      sum over its break-separated segments, and a row is at least as tall
      as any of its cells has segments. */
  lemma HeightCoversSegments(measure: WidthFn, cells: seq<JsString>, widths: seq<nat>, ci: nat)
    requires |cells| <= |widths| && ci < |cells|
    requires forall i :: 0 <= i < |widths| ==> widths[i] >= MIN_COL_WIDTH
    ensures widths[ci] - PADDING >= 1
    ensures CellLines(measure, cells[ci], widths[ci]) == SumRows(measure, Segments(cells[ci]), widths[ci] - PADDING)
    ensures BlockHeight(measure, cells, widths) >= |Segments(cells[ci])|
  {
    LineCountIsSum(measure, cells[ci], widths[ci] - PADDING);
  }

  /** Everything `TableRenderer` computes before it draws. */
  datatype Layout = Layout(
    natural: seq<nat>,
    totalWidth: nat,
    adjusted: seq<nat>,
    headerHeight: nat,
    rowHeights: seq<nat>)

  function ComputeLayout(measure: WidthFn, headers: seq<JsString>, rows: seq<seq<JsString>>, terminalWidth: int): (l: Layout)
    requires RowsFit(rows, |headers|)
    ensures |l.natural| == |l.adjusted| == |headers|
    ensures l.totalWidth == Sum(l.natural) + |headers| + 1
    ensures forall i :: 0 <= i < |headers| ==> l.adjusted[i] >= MIN_COL_WIDTH
    ensures l.headerHeight >= 1
    ensures |l.rowHeights| == |rows| && forall r :: 0 <= r < |rows| ==> l.rowHeights[r] >= 1
  {
    var natural := NaturalWidths(measure, headers, rows);
    var adjusted := AdjustWidths(natural, terminalWidth);
    TotalWidthIsSumPlusSeparators(natural);
    Layout(natural, TotalWidth(natural), adjusted,
      HeaderHeight(measure, headers, adjusted), RowHeights(measure, rows, adjusted))
  }
}
