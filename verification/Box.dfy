/** The status box: its width from the window and the rows, and every line squared off to it. */
module Box {
  import opened Cells

  const BP_FILL := 90
  const BOX_RIGHT_MARGIN := 4
  const FULL_MAX_LINE := 120

  const BAR: char := '\U{2502}'
  const DASH: char := '\U{2500}'
  const TOP_LEFT: char := '\U{250c}'
  const TOP_RIGHT: char := '\U{2510}'
  const MID_LEFT: char := '\U{251c}'
  const MID_RIGHT: char := '\U{2524}'
  const LOW_LEFT: char := '\U{2514}'
  const LOW_RIGHT: char := '\U{2518}'

  /** A plain row is fit whole and drives the width; of a flex row the middle gives way. */
  datatype Row = PlainRow(line: string) | FlexRow(prefix: string, mid: string, suffix: string)

  /** Colours: the frame's and the reset. `wide`: the runes of two cells. */
  datatype Style = Style(wide: Wide, sep: string, reset: string)

  ghost predicate ValidStyle(st: Style) {
    && Narrow(st.wide) && Invisible(st.sep) && Invisible(st.reset)
    && !st.wide(BAR) && !st.wide(DASH) && !st.wide(TOP_LEFT) && !st.wide(TOP_RIGHT)
    && !st.wide(MID_LEFT) && !st.wide(MID_RIGHT) && !st.wide(LOW_LEFT) && !st.wide(LOW_RIGHT)
  }

  predicate ValidRow(r: Row) {
    match r
    case PlainRow(line) => Plain(line)
    case FlexRow(prefix, mid, suffix) => Plain(prefix) && Plain(mid) && Plain(suffix)
  }

  function Max(a: int, b: int): int {
    if a > b then a else b
  }

  function Min(a: int, b: int): int {
    if a < b then a else b
  }

  /** The widest plain row, at least 1. */
  function Widest(wide: Wide, rows: seq<Row>): int {
    if rows == [] then 1
    else
      var last := rows[|rows| - 1];
      var before := Widest(wide, rows[..|rows| - 1]);
      if last.PlainRow? then Max(before, Width(wide, last.line)) else before
  }

  /** The room a window leaves for the inner width. */
  function Limit(width: int): int {
    width - 4 - BOX_RIGHT_MARGIN
  }

  /** The inner width: a narrow window is filled, a wide one hugs its plain rows. */
  function BoxWidth(wide: Wide, width: int, rows: seq<Row>): int {
    var w := if width >= BP_FILL then Widest(wide, rows) else Limit(width);
    Max(Min(Min(w, Limit(width)), FULL_MAX_LINE), 1)
  }

  method BoxWidthOf(wide: Wide, width: int, rows: seq<Row>) returns (boxW: int)
    ensures boxW == BoxWidth(wide, width, rows) >= 1
  {
    var lim := width - 4 - BOX_RIGHT_MARGIN;
    boxW := lim;
    if width >= BP_FILL {
      boxW := 1;
      for i := 0 to |rows|
        invariant boxW == Widest(wide, rows[..i])
      {
        assert rows[..i + 1][..i] == rows[..i];
        if rows[i].PlainRow? && Width(wide, rows[i].line) > boxW { boxW := Width(wide, rows[i].line); }
      }
      assert rows[..|rows|] == rows;
    }
    if boxW > lim { boxW := lim; }
    if boxW > FULL_MAX_LINE { boxW := FULL_MAX_LINE; }
    if boxW < 1 { boxW := 1; }
  }

  /** What a rendered row promises: exactly the box's width; a plain row that fits is kept whole; a flex
      row whose prefix and suffix fit keeps both whole, around its middle or the longest beginning of it
      that fits. */
  ghost predicate Rendered(st: Style, r: Row, boxW: int, text: string) {
    && Plain(text) && Width(st.wide, text) == boxW
    && (match r
        case PlainRow(line) =>
          Width(st.wide, line) <= boxW ==> text == line + Spaces(boxW - Width(st.wide, line))
        case FlexRow(prefix, mid, suffix) =>
          Width(st.wide, prefix) + Width(st.wide, suffix) <= boxW ==>
            exists kept, pad :: Squeezed(st, mid, boxW - Width(st.wide, prefix) - Width(st.wide, suffix), kept)
                                && text == prefix + kept + suffix + Spaces(pad))
  }

  /** The middle as it is, or cut: nothing when there is no room, else a beginning and an ellipsis. */
  ghost predicate Squeezed(st: Style, mid: string, budget: int, kept: string) {
    if budget < 1 then kept == ""
    else if Width(st.wide, mid) <= budget then kept == mid
    else Strip(kept) == Strip(mid)[..Fitting(st.wide, Strip(mid), budget - 1)] + [ELLIPSIS]
  }

  /** `renderRow` */
  method RenderRow(st: Style, r: Row, boxW: int) returns (text: string)
    requires ValidStyle(st) && ValidRow(r) && boxW >= 1
    ensures Rendered(st, r, boxW, text)
  {
    match r {
      case PlainRow(line) =>
        text := FitCell(st.wide, line, boxW, st.reset);
      case FlexRow(prefix, mid, suffix) =>
        var budget := boxW - Width(st.wide, prefix) - Width(st.wide, suffix);
        var kept := ClipCell(st.wide, mid, budget, st.reset);
        var whole := prefix + kept + suffix;
        assert Squeezed(st, mid, budget, kept);
        if budget >= 1 && Width(st.wide, mid) > budget {
          ClipWidth(st.wide, mid, kept, budget);
        }
        WidthConcat(st.wide, prefix, kept);
        WidthConcat(st.wide, prefix + kept, suffix);
        assert Strip("") == "";
        assert budget >= 0 ==> Width(st.wide, whole) <= boxW;
        text := FitCell(st.wide, whole, boxW, st.reset);
    }
  }

  function Repeat(c: char, n: nat): string {
    seq(n, _ => c)
  }

  lemma {:induction false} RepeatWidth(wide: Wide, c: char, n: nat)
    requires c != ESC && !wide(c)
    ensures Plain(Repeat(c, n)) && Width(wide, Repeat(c, n)) == n
  {
    if n > 0 {
      RepeatWidth(wide, c, n - 1);
      OneRune(wide, c);
      assert Repeat(c, n) == [c] + Repeat(c, n - 1);
      WidthConcat(wide, [c], Repeat(c, n - 1));
    }
  }

  /** A line of the frame: the given corners with dashes between them, in the frame's colour. */
  function Edge(st: Style, left: char, right: char, boxW: int): string
    requires boxW >= 1
  {
    st.sep + [left] + Repeat(DASH, boxW + 2) + [right] + st.reset
  }

  method Border(st: Style, left: char, right: char, boxW: int) returns (line: string)
    requires ValidStyle(st) && boxW >= 1 && left != ESC && right != ESC && !st.wide(left) && !st.wide(right)
    ensures Plain(line) && Width(st.wide, line) == boxW + 4
    ensures line == Edge(st, left, right, boxW)
  {
    var dashes := Repeat(DASH, boxW + 2);
    RepeatWidth(st.wide, DASH, boxW + 2);
    OneRune(st.wide, left);
    OneRune(st.wide, right);
    WidthConcat(st.wide, st.sep, [left]);
    WidthConcat(st.wide, st.sep + [left], dashes);
    WidthConcat(st.wide, st.sep + [left] + dashes, [right]);
    WidthConcat(st.wide, st.sep + [left] + dashes + [right], st.reset);
    line := st.sep + [left] + dashes + [right] + st.reset;
  }

  function Framed(st: Style, text: string): string {
    st.sep + [BAR, ' '] + st.reset + text + st.sep + [' ', BAR] + st.reset
  }

  lemma BarWidth(st: Style)
    requires ValidStyle(st)
    ensures Plain([BAR, ' ']) && Width(st.wide, [BAR, ' ']) == 2
    ensures Plain([' ', BAR]) && Width(st.wide, [' ', BAR]) == 2
  {
    OneRune(st.wide, BAR);
    OneRune(st.wide, ' ');
    WidthConcat(st.wide, [BAR], [' ']);
    WidthConcat(st.wide, [' '], [BAR]);
    assert [BAR] + [' '] == [BAR, ' '] && [' '] + [BAR] == [' ', BAR];
  }

  lemma FramedWidth(st: Style, text: string)
    requires ValidStyle(st) && Plain(text)
    ensures Plain(Framed(st, text)) && Width(st.wide, Framed(st, text)) == Width(st.wide, text) + 4
  {
    BarWidth(st);
    var a := st.sep + [BAR, ' '];
    WidthConcat(st.wide, st.sep, [BAR, ' ']);
    WidthConcat(st.wide, a, st.reset);
    WidthConcat(st.wide, a + st.reset, text);
    var b := a + st.reset + text;
    WidthConcat(st.wide, b, st.sep);
    WidthConcat(st.wide, b + st.sep, [' ', BAR]);
    WidthConcat(st.wide, b + st.sep + [' ', BAR], st.reset);
  }

  /** The line index of each row: one more from the divider on. */
  function LineOf(i: nat, divider: int): nat {
    if 0 <= divider < i then i + 2 else i + 1
  }

  /** The row stands framed at its place, in the width of the box. */
  ghost predicate StandsAt(st: Style, row: Row, boxW: int, lines: seq<string>, at: int) {
    0 <= at < |lines| && exists text :: Rendered(st, row, boxW, text) && lines[at] == Framed(st, text)
  }

  /** The lines after the first `n` rows: as many as they take, all of one width, each row at its place. */
  ghost predicate Emitted(st: Style, rows: seq<Row>, n: nat, boxW: int, divider: int, lines: seq<string>)
    requires n <= |rows|
  {
    && |lines| == n + 1 + (if 0 <= divider < n && divider < |rows| - 1 then 1 else 0)
    && (forall k :: 0 <= k < |lines| ==> Width(st.wide, lines[k]) == boxW + 4)
    && forall j :: 0 <= j < n ==> StandsAt(st, rows[j], boxW, lines, LineOf(j, divider))
  }

  /** The top line, and the divider below its row. */
  ghost predicate EdgesAt(st: Style, n: nat, last: int, boxW: int, divider: int, lines: seq<string>) {
    && boxW >= 1 && lines != [] && lines[0] == Edge(st, TOP_LEFT, TOP_RIGHT, boxW)
    && (0 <= divider < n && divider < last ==>
          |lines| > divider + 2 && lines[divider + 2] == Edge(st, MID_LEFT, MID_RIGHT, boxW))
  }

  lemma StaysAt(st: Style, row: Row, boxW: int, lines: seq<string>, more: seq<string>, at: int)
    requires StandsAt(st, row, boxW, lines, at)
    ensures StandsAt(st, row, boxW, lines + more, at)
  {
    assert (lines + more)[at] == lines[at];
  }

  lemma RowsStand(st: Style, rows: seq<Row>, n: nat, boxW: int, divider: int, lines: seq<string>, more: seq<string>)
    requires n <= |rows| && Emitted(st, rows, n, boxW, divider, lines)
    ensures forall j :: 0 <= j < n ==> StandsAt(st, rows[j], boxW, lines + more, LineOf(j, divider))
  {
    forall j | 0 <= j < n
      ensures StandsAt(st, rows[j], boxW, lines + more, LineOf(j, divider))
    {
      StaysAt(st, rows[j], boxW, lines, more, LineOf(j, divider));
    }
  }

  lemma NewRowStands(st: Style, row: Row, boxW: int, lines: seq<string>, text: string, more: seq<string>)
    requires Rendered(st, row, boxW, text)
    ensures StandsAt(st, row, boxW, lines + ([Framed(st, text)] + more), |lines|)
  {
    assert (lines + ([Framed(st, text)] + more))[|lines|] == Framed(st, text);
  }

  lemma AllWide(wide: Wide, w: int, lines: seq<string>, line: string, more: seq<string>)
    requires forall k :: 0 <= k < |lines| ==> Width(wide, lines[k]) == w
    requires Width(wide, line) == w && forall k :: 0 <= k < |more| ==> Width(wide, more[k]) == w
    ensures forall k :: 0 <= k < |lines + ([line] + more)| ==> Width(wide, (lines + ([line] + more))[k]) == w
  {
  }

  /** One row and, where it belongs, the divider below it. */
  lemma OneMoreRow(st: Style, rows: seq<Row>, n: nat, boxW: int, divider: int, lines: seq<string>, text: string,
                   more: seq<string>)
    requires n < |rows| && Emitted(st, rows, n, boxW, divider, lines)
    requires Rendered(st, rows[n], boxW, text) && Width(st.wide, Framed(st, text)) == boxW + 4
    requires |more| == (if n == divider < |rows| - 1 then 1 else 0)
    requires forall k :: 0 <= k < |more| ==> Width(st.wide, more[k]) == boxW + 4
    ensures Emitted(st, rows, n + 1, boxW, divider, lines + ([Framed(st, text)] + more))
  {
    RowsStand(st, rows, n, boxW, divider, lines, [Framed(st, text)] + more);
    NewRowStands(st, rows[n], boxW, lines, text, more);
    AllWide(st.wide, boxW + 4, lines, Framed(st, text), more);
  }

  lemma Closed(st: Style, rows: seq<Row>, boxW: int, divider: int, lines: seq<string>, low: string)
    requires Emitted(st, rows, |rows|, boxW, divider, lines) && Width(st.wide, low) == boxW + 4
    ensures |lines + [low]| == |rows| + 2 + if 0 <= divider < |rows| - 1 then 1 else 0
    ensures forall k :: 0 <= k < |lines + [low]| ==> Width(st.wide, (lines + [low])[k]) == boxW + 4
    ensures forall j :: 0 <= j < |rows| ==> StandsAt(st, rows[j], boxW, lines + [low], LineOf(j, divider))
  {
    RowsStand(st, rows, |rows|, boxW, divider, lines, [low]);
  }

  /** `flush`. `divider`: the row a divider follows, if there is a row below it. The first line is the top of the
      frame, the last its bottom. */
  method Flush(st: Style, width: int, rows: seq<Row>, divider: int) returns (lines: seq<string>)
    requires ValidStyle(st) && forall i :: 0 <= i < |rows| ==> ValidRow(rows[i])
    ensures |lines| == |rows| + 2 + if 0 <= divider < |rows| - 1 then 1 else 0
    ensures forall i :: 0 <= i < |lines| ==> Width(st.wide, lines[i]) == BoxWidth(st.wide, width, rows) + 4
    ensures forall i :: 0 <= i < |rows| ==>
              StandsAt(st, rows[i], BoxWidth(st.wide, width, rows), lines, LineOf(i, divider))
    ensures EdgesAt(st, |rows|, |rows| - 1, BoxWidth(st.wide, width, rows), divider, lines)
    ensures lines[|lines| - 1] == Edge(st, LOW_LEFT, LOW_RIGHT, BoxWidth(st.wide, width, rows))
  {
    var boxW := BoxWidthOf(st.wide, width, rows);
    var top := Border(st, TOP_LEFT, TOP_RIGHT, boxW);
    lines := [top];
    for i := 0 to |rows|
      invariant Emitted(st, rows, i, boxW, divider, lines)
      invariant EdgesAt(st, i, |rows| - 1, boxW, divider, lines)
    {
      var text := RenderRow(st, rows[i], boxW);
      FramedWidth(st, text);
      var more := [];
      if i == divider && i < |rows| - 1 {
        var mid := Border(st, MID_LEFT, MID_RIGHT, boxW);
        more := [mid];
      }
      OneMoreRow(st, rows, i, boxW, divider, lines, text, more);
      lines := lines + ([Framed(st, text)] + more);
    }
    var low := Border(st, LOW_LEFT, LOW_RIGHT, boxW);
    Closed(st, rows, boxW, divider, lines, low);
    lines := lines + [low];
  }

  // ---------------------------------------------------------------------------------------
  // How wide the box gets
  // ---------------------------------------------------------------------------------------

  /** A line is at most the window less the right margin exactly from nine columns on. */
  lemma StaysInTheWindow(wide: Wide, width: int, rows: seq<Row>)
    ensures BoxWidth(wide, width, rows) + 4 <= width - BOX_RIGHT_MARGIN <==> width >= 9
    ensures 5 <= BoxWidth(wide, width, rows) + 4 <= FULL_MAX_LINE + 4
  {
  }

  /** A narrow window is filled up to the margin, whatever the rows are. */
  lemma FillsTheNarrowWindow(wide: Wide, width: int, rows: seq<Row>)
    requires width < BP_FILL
    ensures 1 <= Limit(width) <= FULL_MAX_LINE ==> BoxWidth(wide, width, rows) == Limit(width)
    ensures Limit(width) > FULL_MAX_LINE ==> BoxWidth(wide, width, rows) == FULL_MAX_LINE
    ensures Limit(width) < 1 ==> BoxWidth(wide, width, rows) == 1
  {
  }

  lemma {:induction false} WidestIsWidest(wide: Wide, rows: seq<Row>)
    ensures forall r :: r in rows && r.PlainRow? ==> Width(wide, r.line) <= Widest(wide, rows)
    ensures Widest(wide, rows) >= 1
    ensures Widest(wide, rows) > 1 ==> exists r :: r in rows && r.PlainRow? && Width(wide, r.line) == Widest(wide, rows)
  {
    if rows != [] {
      var front, last := rows[..|rows| - 1], rows[|rows| - 1];
      WidestIsWidest(wide, front);
      assert rows == front + [last];
    }
  }

  /** In a wide window the box hugs its plain rows: each that the margin and the maximum allow is kept
      whole, one that they do not allow takes all the room there is, and the box is no wider than one of
      them needs. */
  lemma HugsThePlainRows(wide: Wide, width: int, rows: seq<Row>)
    requires width >= BP_FILL
    ensures forall r :: r in rows && r.PlainRow? && Width(wide, r.line) <= Min(Limit(width), FULL_MAX_LINE)
              ==> Width(wide, r.line) <= BoxWidth(wide, width, rows)
    ensures forall r :: r in rows && r.PlainRow? && Width(wide, r.line) >= Min(Limit(width), FULL_MAX_LINE)
              ==> BoxWidth(wide, width, rows) >= Min(Limit(width), FULL_MAX_LINE)
    ensures BoxWidth(wide, width, rows) > 1
            ==> exists r :: r in rows && r.PlainRow? && BoxWidth(wide, width, rows) <= Width(wide, r.line)
  {
    WidestIsWidest(wide, rows);
  }
}
