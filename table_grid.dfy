/** What `TableRenderer` in packages/cli/src/ui/utils/TableRenderer.tsx
    draws once the layout is known: the three border lines, the vertical
    separators of every row block, and the order of the blocks. Ink places
    the cell boxes; only their widths and heights are modelled here. */
module TableGrid {
  import opened JsStrings
  import opened TableLayout

  /** `─` and `│`. */
  const HORIZONTAL: CodeUnit := 0x2500
  const VERTICAL: CodeUnit := 0x2502
  const SPACE: CodeUnit := 0x20

  /** Which border line: `┌┬┐` on top, `├┼┤` under the header, `└┴┘` at
      the bottom. */
  datatype Edge = Top | Middle | Bottom

  function LeftCorner(e: Edge): CodeUnit {
    match e
    case Top => 0x250C
    case Middle => 0x251C
    case Bottom => 0x2514
  }

  function Joiner(e: Edge): CodeUnit {
    match e
    case Top => 0x252C
    case Middle => 0x253C
    case Bottom => 0x2534
  }

  function RightCorner(e: Edge): CodeUnit {
    match e
    case Top => 0x2510
    case Middle => 0x2524
    case Bottom => 0x2518
  }

  /** `'─'.repeat(Math.max(0, (width || 0) - 2))`. */
  function Dashes(width: nat): JsString {
    Replicate(HORIZONTAL, if width < PADDING then 0 else width - PADDING)
  }

  /** The dash run of every column: `width - 2` units of `─`, or none for a
      column narrower than the padding. */
  function DashRuns(widths: seq<nat>): (runs: seq<JsString>)
    ensures |runs| == |widths|
    ensures forall i :: 0 <= i < |widths| ==> |runs[i]| == if widths[i] < PADDING then 0 else widths[i] - PADDING
    ensures forall i, k :: 0 <= i < |widths| && 0 <= k < |runs[i]| ==> runs[i][k] == HORIZONTAL
  {
    seq(|widths|, i requires 0 <= i < |widths| => Dashes(widths[i]))
  }

  /** A border line: corner, `─`, the dash runs joined by `─┬─` (or its
      kind's joiner), `─`, corner. */
  function Border(e: Edge, widths: seq<nat>): JsString {
    [LeftCorner(e), HORIZONTAL] + JoinWith(DashRuns(widths), [HORIZONTAL, Joiner(e), HORIZONTAL]) + [HORIZONTAL, RightCorner(e)]
  }

  /** `renderTopBorder()`. */
  function RenderTopBorder(widths: seq<nat>): JsString {
    Border(Top, widths)
  }

  /** `renderSeparator()`. */
  function RenderSeparator(widths: seq<nat>): JsString {
    Border(Middle, widths)
  }

  /** `renderBottomBorder()`. */
  function RenderBottomBorder(widths: seq<nat>): JsString {
    Border(Bottom, widths)
  }

  lemma {:induction false} DashRunsJoinLength(widths: seq<nat>, sep: JsString)
    requires |widths| >= 1 && |sep| == 3
    requires forall i :: 0 <= i < |widths| ==> widths[i] >= PADDING
    ensures |JoinWith(DashRuns(widths), sep)| + 3 == Sum(widths) + |widths|
  {
    var runs := DashRuns(widths);
    if |widths| > 1 {
      assert runs[1..] == DashRuns(widths[1..]);
      DashRunsJoinLength(widths[1..], sep);
    }
  }

  /** Every border line is as long as the table's bordered width, the
      columns plus their separators (`sum + n + 1`); with no columns it is
      the four fixed units. */
  lemma BorderLength(e: Edge, widths: seq<nat>)
    requires forall i :: 0 <= i < |widths| ==> widths[i] >= PADDING
    ensures |widths| >= 1 ==> |Border(e, widths)| == Sum(widths) + |widths| + 1 == TotalWidth(widths)
    ensures |widths| == 0 ==> |Border(e, widths)| == 4
  {
    TotalWidthIsSumPlusSeparators(widths);
    if |widths| >= 1 {
      DashRunsJoinLength(widths, [HORIZONTAL, Joiner(e), HORIZONTAL]);
    }
  }

  /** The unit `u` of an `a` border as it stands in a `b` border. */
  function RecolorUnit(u: CodeUnit, a: Edge, b: Edge): CodeUnit {
    if u == LeftCorner(a) then LeftCorner(b)
    else if u == Joiner(a) then Joiner(b)
    else if u == RightCorner(a) then RightCorner(b)
    else u
  }

  /** Replace every corner and joiner glyph of kind `a` by the one of kind
      `b`, leaving every other unit alone. */
  function Recolor(t: JsString, a: Edge, b: Edge): (r: JsString)
    ensures |r| == |t|
    ensures forall k :: 0 <= k < |t| ==> r[k] == RecolorUnit(t[k], a, b)
  {
    if t == [] then [] else [RecolorUnit(t[0], a, b)] + Recolor(t[1..], a, b)
  }

  lemma RecolorAppend(x: JsString, y: JsString, a: Edge, b: Edge)
    ensures Recolor(x + y, a, b) == Recolor(x, a, b) + Recolor(y, a, b)
  {
    var l, r := Recolor(x + y, a, b), Recolor(x, a, b) + Recolor(y, a, b);
    forall k | 0 <= k < |x + y| ensures l[k] == r[k] {
      if k < |x| {
        assert (x + y)[k] == x[k];
      } else {
        assert (x + y)[k] == y[k - |x|];
      }
    }
  }

  lemma RecolorDashes(w: nat, a: Edge, b: Edge)
    ensures Recolor(Dashes(w), a, b) == Dashes(w)
  {
  }

  lemma JoinWithCons(parts: seq<JsString>, sep: JsString)
    requires |parts| > 1
    ensures JoinWith(parts, sep) == parts[0] + sep + JoinWith(parts[1..], sep)
  {
  }

  /** The joiner of kind `a`, with its dashes, recoloured as kind `b`. */
  lemma RecolorJoiner(a: Edge, b: Edge)
    ensures Recolor([HORIZONTAL, Joiner(a), HORIZONTAL], a, b) == [HORIZONTAL, Joiner(b), HORIZONTAL]
  {
    var r := Recolor([HORIZONTAL, Joiner(a), HORIZONTAL], a, b);
    assert r[0] == HORIZONTAL && r[1] == Joiner(b) && r[2] == HORIZONTAL;
  }

  lemma {:induction false} RecolorJoin(widths: seq<nat>, a: Edge, b: Edge)
    ensures Recolor(JoinWith(DashRuns(widths), [HORIZONTAL, Joiner(a), HORIZONTAL]), a, b)
         == JoinWith(DashRuns(widths), [HORIZONTAL, Joiner(b), HORIZONTAL])
  {
    var runs := DashRuns(widths);
    var sa, sb := [HORIZONTAL, Joiner(a), HORIZONTAL], [HORIZONTAL, Joiner(b), HORIZONTAL];
    if |widths| == 1 {
      RecolorDashes(widths[0], a, b);
    } else if |widths| > 1 {
      assert runs[1..] == DashRuns(widths[1..]);
      RecolorJoin(widths[1..], a, b);
      var rest := JoinWith(runs[1..], sa);
      JoinWithCons(runs, sa);
      JoinWithCons(runs, sb);
      RecolorAppend(runs[0] + sa, rest, a, b);
      RecolorAppend(runs[0], sa, a, b);
      RecolorDashes(widths[0], a, b);
      RecolorJoiner(a, b);
    }
  }

  /** The three borders differ only in their corner and joiner glyphs:
      recolouring one kind's glyphs as another's turns one border into the
      other, unit for unit. */
  lemma BordersDifferOnlyInGlyphs(widths: seq<nat>, a: Edge, b: Edge)
    ensures Recolor(Border(a, widths), a, b) == Border(b, widths)
  {
    var join := JoinWith(DashRuns(widths), [HORIZONTAL, Joiner(a), HORIZONTAL]);
    RecolorJoin(widths, a, b);
    RecolorAppend([LeftCorner(a), HORIZONTAL] + join, [HORIZONTAL, RightCorner(a)], a, b);
    RecolorAppend([LeftCorner(a), HORIZONTAL], join, a, b);
  }

  /** `Array.from({ length: rowHeight }, () => content).join('\n')`: the
      text of one vertical separator. */
  function SeparatorColumn(content: JsString, lines: nat): JsString {
    JoinWith(Replicate(content, lines), [LF])
  }

  /** A separator of `h` lines is `h` copies of its content, one per
      line. */
  lemma SeparatorColumnLines(content: JsString, lines: nat)
    requires lines >= 1 && LF !in content
    ensures SplitOn(SeparatorColumn(content, lines), LF) == Replicate(content, lines)
  {
    SplitOnJoinWith(Replicate(content, lines), LF);
  }

  /** `│ `, ` │ ` and ` │`. */
  const LEFT_EDGE: JsString := [VERTICAL, SPACE]
  const INNER_EDGE: JsString := [SPACE, VERTICAL, SPACE]
  const RIGHT_EDGE: JsString := [SPACE, VERTICAL]

  /** One child of a row's box: a vertical separator with its content and
      line count, or a cell box with its content width and height. */
  datatype Piece =
    | Separator(content: JsString, lines: nat)
    | CellBox(content: JsString, width: nat, height: nat)

  /** The separator after cell `ci` of `n`. */
  function EdgeAfter(ci: nat, n: nat): JsString {
    if ci + 1 < n then INNER_EDGE else RIGHT_EDGE
  }

  /** The cells from `ci` on, each followed by its separator. */
  function CellPieces(cells: seq<JsString>, widths: seq<nat>, height: nat, ci: nat): (ps: seq<Piece>)
    requires |cells| <= |widths| && ci <= |cells|
    ensures |ps| == 2 * (|cells| - ci)
    decreases |cells| - ci
  {
    if ci == |cells| then []
    else
      var contentWidth := if widths[ci] < PADDING then 0 else widths[ci] - PADDING;
      [CellBox(cells[ci], contentWidth, height), Separator(EdgeAfter(ci, |cells|), height + 1)]
        + CellPieces(cells, widths, height, ci + 1)
  }

  /** `renderRow(cells, height)`: the left separator, then each cell and the
      separator after it. */
  function RenderRow(cells: seq<JsString>, widths: seq<nat>, height: nat): seq<Piece>
    requires |cells| <= |widths|
  {
    [Separator(LEFT_EDGE, height + 1)] + CellPieces(cells, widths, height, 0)
  }

  /** Each cell, from `ci` on, contributes its cell box, `height` tall and
      holding the cell, then the separator after it, `height + 1` lines
      tall: ` │ ` between cells and ` │` after the last. */
  lemma {:induction false} CellPiecesShape(cells: seq<JsString>, widths: seq<nat>, height: nat, ci: nat)
    requires |cells| <= |widths| && ci <= |cells|
    ensures var ps := CellPieces(cells, widths, height, ci);
            && (forall j :: 0 <= j < |cells| - ci ==>
                  ps[2 * j].CellBox? && ps[2 * j].content == cells[ci + j] && ps[2 * j].height == height)
            && (forall j :: 0 <= j < |cells| - ci ==> ps[2 * j + 1] == Separator(EdgeAfter(ci + j, |cells|), height + 1))
    decreases |cells| - ci
  {
    if ci < |cells| {
      CellPiecesShape(cells, widths, height, ci + 1);
      var ps := CellPieces(cells, widths, height, ci);
      var rest := CellPieces(cells, widths, height, ci + 1);
      var contentWidth := if widths[ci] < PADDING then 0 else widths[ci] - PADDING;
      assert ps == [CellBox(cells[ci], contentWidth, height), Separator(EdgeAfter(ci, |cells|), height + 1)] + rest;
      forall j | 0 <= j < |cells| - ci
        ensures ps[2 * j].CellBox? && ps[2 * j].content == cells[ci + j] && ps[2 * j].height == height
        ensures ps[2 * j + 1] == Separator(EdgeAfter(ci + j, |cells|), height + 1)
      {
        if j > 0 {
          assert ps[2 * j] == rest[2 * (j - 1)] && ps[2 * j + 1] == rest[2 * (j - 1) + 1];
          assert ci + 1 + (j - 1) == ci + j;
        }
      }
    }
  }

  /** A row block alternates separators and cells, starting and ending with
      a separator: `│ ` first, ` │ ` between cells, ` │` last; every
      separator spans the block's `height + 1` lines and every cell box is
      `height` tall and holds its cell in order. */
  lemma RowShape(cells: seq<JsString>, widths: seq<nat>, height: nat)
    requires |cells| <= |widths|
    ensures var ps := RenderRow(cells, widths, height);
            && |ps| == 2 * |cells| + 1
            && ps[0] == Separator(LEFT_EDGE, height + 1)
            && (|cells| >= 1 ==> ps[2 * |cells|] == Separator(RIGHT_EDGE, height + 1))
            && (forall k :: 1 <= k < |cells| ==> ps[2 * k] == Separator(INNER_EDGE, height + 1))
            && (forall k :: 0 <= k < |cells| ==> ps[2 * k + 1].CellBox? && ps[2 * k + 1].content == cells[k] && ps[2 * k + 1].height == height)
  {
    var ps := RenderRow(cells, widths, height);
    var tail := CellPieces(cells, widths, height, 0);
    CellPiecesShape(cells, widths, height, 0);
    forall k | 0 <= k < |cells| ensures ps[2 * k + 1] == tail[2 * k] && ps[2 * k + 2] == tail[2 * k + 1] {
    }
    forall k | 1 <= k < |cells| ensures ps[2 * k] == Separator(INNER_EDGE, height + 1) {
      assert ps[2 * (k - 1) + 2] == tail[2 * (k - 1) + 1];
    }
    if |cells| >= 1 {
      assert ps[2 * (|cells| - 1) + 2] == tail[2 * (|cells| - 1) + 1];
    }
  }

  /** The width one line of a row takes: separators at their length, cell
      boxes at their width. */
  function LineWidth(ps: seq<Piece>): nat {
    if ps == [] then 0
    else
      var w := match ps[0] case Separator(content, _) => |content| case CellBox(_, width, _) => width;
      w + LineWidth(ps[1..])
  }

  lemma {:induction false} LineWidthAppend(x: seq<Piece>, y: seq<Piece>)
    ensures LineWidth(x + y) == LineWidth(x) + LineWidth(y)
  {
    if x != [] {
      assert (x + y)[1..] == x[1..] + y;
      LineWidthAppend(x[1..], y);
    } else {
      assert x + y == y;
    }
  }

  lemma {:induction false} CellPiecesWidth(cells: seq<JsString>, widths: seq<nat>, height: nat, ci: nat)
    requires |cells| == |widths| && ci < |cells|
    requires forall i :: 0 <= i < |widths| ==> widths[i] >= PADDING
    ensures LineWidth(CellPieces(cells, widths, height, ci)) + 1 == Sum(widths[ci..]) + |widths| - ci
    decreases |cells| - ci
  {
    var ps := CellPieces(cells, widths, height, ci);
    var head := ps[..2];
    var rest := CellPieces(cells, widths, height, ci + 1);
    assert ps == head + rest;
    LineWidthAppend(head, rest);
    assert widths[ci..][1..] == widths[ci + 1..];
    if ci + 1 < |cells| {
      CellPiecesWidth(cells, widths, height, ci + 1);
    } else {
      assert widths[ci + 1..] == [];
    }
  }

  /** A full row is exactly as wide as the borders above and below it. */
  lemma RowAsWideAsBorder(cells: seq<JsString>, widths: seq<nat>, height: nat, e: Edge)
    requires |cells| == |widths| >= 1
    requires forall i :: 0 <= i < |widths| ==> widths[i] >= PADDING
    ensures LineWidth(RenderRow(cells, widths, height)) == |Border(e, widths)|
  {
    CellPiecesWidth(cells, widths, height, 0);
    assert widths[0..] == widths;
    LineWidthAppend([Separator(LEFT_EDGE, height + 1)], CellPieces(cells, widths, height, 0));
    BorderLength(e, widths);
  }

  /** One child of the table's column box. */
  datatype Block =
    | BorderLine(text: JsString)
    | RowBlock(pieces: seq<Piece>, lines: nat)

  function DataBlocks(rows: seq<seq<JsString>>, widths: seq<nat>, heights: seq<nat>): (bs: seq<Block>)
    requires RowsFit(rows, |widths|) && |heights| == |rows|
    ensures |bs| == |rows|
    ensures forall i :: 0 <= i < |rows| ==> bs[i] == RowBlock(RenderRow(rows[i], widths, heights[i]), heights[i] + 1)
  {
    seq(|rows|, i requires 0 <= i < |rows| => RowBlock(RenderRow(rows[i], widths, heights[i]), heights[i] + 1))
  }

  /** The table's blocks in order: top border, header, separator, the data
      rows in input order, bottom border. */
  function RenderTable(headers: seq<JsString>, rows: seq<seq<JsString>>, l: Layout): seq<Block>
    requires |l.adjusted| == |headers| && RowsFit(rows, |headers|) && |l.rowHeights| == |rows|
  {
    [ BorderLine(RenderTopBorder(l.adjusted)),
      RowBlock(RenderRow(headers, l.adjusted, l.headerHeight), l.headerHeight + 1),
      BorderLine(RenderSeparator(l.adjusted)) ]
    + DataBlocks(rows, l.adjusted, l.rowHeights)
    + [BorderLine(RenderBottomBorder(l.adjusted))]
  }

  /** The blocks come in the order the table is drawn: the top border,
      the header row, the separator, every data row in input order with
      its height plus one lines, and the bottom border. */
  lemma RenderTableOrder(headers: seq<JsString>, rows: seq<seq<JsString>>, l: Layout)
    requires |l.adjusted| == |headers| && RowsFit(rows, |headers|) && |l.rowHeights| == |rows|
    ensures var bs := RenderTable(headers, rows, l);
            && |bs| == |rows| + 4
            && bs[0] == BorderLine(Border(Top, l.adjusted))
            && bs[1] == RowBlock(RenderRow(headers, l.adjusted, l.headerHeight), l.headerHeight + 1)
            && bs[2] == BorderLine(Border(Middle, l.adjusted))
            && (forall i :: 0 <= i < |rows| ==>
                  bs[3 + i] == RowBlock(RenderRow(rows[i], l.adjusted, l.rowHeights[i]), l.rowHeights[i] + 1))
            && bs[|rows| + 3] == BorderLine(Border(Bottom, l.adjusted))
  {
    var bs := RenderTable(headers, rows, l);
    var data := DataBlocks(rows, l.adjusted, l.rowHeights);
    forall i | 0 <= i < |rows| ensures bs[3 + i] == data[i] {
    }
  }

  /** `TableRenderer({ headers, rows, terminalWidth })`. */
  function TableRenderer(measure: WidthFn, headers: seq<JsString>, rows: seq<seq<JsString>>, terminalWidth: int): seq<Block>
    requires RowsFit(rows, |headers|)
  {
    RenderTable(headers, rows, ComputeLayout(measure, headers, rows, terminalWidth))
  }

  /** The terminal lines a block takes. */
  function BlockLines(b: Block): nat {
    match b
    case BorderLine(_) => 1
    case RowBlock(_, lines) => lines
  }

  function TotalLines(bs: seq<Block>): nat {
    if bs == [] then 0 else BlockLines(bs[0]) + TotalLines(bs[1..])
  }

  lemma {:induction false} TotalLinesAppend(x: seq<Block>, y: seq<Block>)
    ensures TotalLines(x + y) == TotalLines(x) + TotalLines(y)
  {
    if x != [] {
      assert (x + y)[1..] == x[1..] + y;
      TotalLinesAppend(x[1..], y);
    } else {
      assert x + y == y;
    }
  }

  lemma {:induction false} DataBlocksLines(rows: seq<seq<JsString>>, widths: seq<nat>, heights: seq<nat>)
    requires RowsFit(rows, |widths|) && |heights| == |rows|
    ensures TotalLines(DataBlocks(rows, widths, heights)) == Sum(heights) + |rows|
  {
    if rows != [] {
      var bs := DataBlocks(rows, widths, heights);
      assert bs[1..] == DataBlocks(rows[1..], widths, heights[1..]);
      DataBlocksLines(rows[1..], widths, heights[1..]);
    }
  }

  /** The table's line count: the three borders take a line each, and
      every row block, header included, one line more than its height. */
  lemma RenderTableLines(headers: seq<JsString>, rows: seq<seq<JsString>>, l: Layout)
    requires |l.adjusted| == |headers| && RowsFit(rows, |headers|) && |l.rowHeights| == |rows|
    requires forall r :: 0 <= r < |rows| ==> l.rowHeights[r] >= 1
    ensures |RenderTable(headers, rows, l)| == |rows| + 4
    ensures TotalLines(RenderTable(headers, rows, l)) == 3 + (l.headerHeight + 1) + Sum(l.rowHeights) + |rows|
    ensures TotalLines(RenderTable(headers, rows, l)) >= 2 * |rows| + 4 + l.headerHeight
  {
    var head := [ BorderLine(RenderTopBorder(l.adjusted)),
      RowBlock(RenderRow(headers, l.adjusted, l.headerHeight), l.headerHeight + 1),
      BorderLine(RenderSeparator(l.adjusted)) ];
    var data := DataBlocks(rows, l.adjusted, l.rowHeights);
    var tail := [BorderLine(RenderBottomBorder(l.adjusted))];
    assert RenderTable(headers, rows, l) == head + data + tail;
    assert TotalLines(head) == l.headerHeight + 3 by {
      assert head[1..][1..][1..] == [];
      assert TotalLines(head[1..][1..]) == 1;
      assert TotalLines(head[1..]) == l.headerHeight + 2;
    }
    assert TotalLines(tail) == 1 by {
      assert tail[1..] == [];
    }
    TotalLinesAppend(head + data, tail);
    TotalLinesAppend(head, data);
    DataBlocksLines(rows, l.adjusted, l.rowHeights);
    SumAtLeastCount(l.rowHeights);
  }

  /** Every border line of the table is as long as the bordered width of
      its adjusted columns. */
  lemma RenderTableBorders(headers: seq<JsString>, rows: seq<seq<JsString>>, l: Layout)
    requires |l.adjusted| == |headers| >= 1 && RowsFit(rows, |headers|) && |l.rowHeights| == |rows|
    requires forall i :: 0 <= i < |headers| ==> l.adjusted[i] >= MIN_COL_WIDTH
    ensures var bs := RenderTable(headers, rows, l);
            forall i :: 0 <= i < |bs| && bs[i].BorderLine? ==> |bs[i].text| == TotalWidth(l.adjusted)
  {
    var bs := RenderTable(headers, rows, l);
    var data := DataBlocks(rows, l.adjusted, l.rowHeights);
    BorderLength(Top, l.adjusted);
    BorderLength(Middle, l.adjusted);
    BorderLength(Bottom, l.adjusted);
    forall i | 0 <= i < |bs| ensures bs[i].BorderLine? ==> |bs[i].text| == TotalWidth(l.adjusted) {
      if 3 <= i < 3 + |rows| {
        assert bs[i] == data[i - 3];
      }
    }
  }

  /** The rendered table has the line count and border widths above, for
      the layout `TableRenderer` computes. */
  lemma TableShape(measure: WidthFn, headers: seq<JsString>, rows: seq<seq<JsString>>, terminalWidth: int)
    requires RowsFit(rows, |headers|) && |headers| >= 1
    ensures var l := ComputeLayout(measure, headers, rows, terminalWidth);
            var bs := TableRenderer(measure, headers, rows, terminalWidth);
            && |bs| == |rows| + 4
            && TotalLines(bs) == 3 + (l.headerHeight + 1) + Sum(l.rowHeights) + |rows|
            && TotalLines(bs) >= 2 * |rows| + 5
            && (forall i :: 0 <= i < |bs| && bs[i].BorderLine? ==> |bs[i].text| == TotalWidth(l.adjusted))
  {
    var l := ComputeLayout(measure, headers, rows, terminalWidth);
    RenderTableLines(headers, rows, l);
    RenderTableBorders(headers, rows, l);
  }

  lemma {:induction false} SumAtLeastCount(hs: seq<nat>)
    requires forall i :: 0 <= i < |hs| ==> hs[i] >= 1
    ensures Sum(hs) >= |hs|
  {
    if hs != [] {
      SumAtLeastCount(hs[1..]);
    }
  }
}
