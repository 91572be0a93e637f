/** The scrolling terminal buffer against an endless canvas: text is written on a
    canvas that never scrolls, and the buffer shows the last rows of it. */
module Terminal {
  import opened Chunks
  import opened Words

  const SCROLLBACK_LINES: nat := 1000
  const TAB_WIDTH: nat := 8

  /** Colours by their ANSI number. */
  type AnsiColor = c: int | 0 <= c < 16
  const BLACK: AnsiColor := 0
  const WHITE: AnsiColor := 7

  datatype CharAttributes = CharAttributes(
    fgColor: AnsiColor, bgColor: AnsiColor, bold: bool, underline: bool, blink: bool, inverse: bool)

  datatype CharCell = CharCell(ch: char, attr: CharAttributes)

  const PLAIN: CharAttributes := CharAttributes(WHITE, BLACK, false, false, false, false)
  const BLANK: CharCell := CharCell(' ', PLAIN)

  // ----------------------------------------------------- endless canvas

  /** Written cells by row and column; all others are blank. */
  type Cells = map<(nat, nat), CharCell>

  function CellAt(cells: Cells, row: nat, col: nat): CharCell {
    if (row, col) in cells then cells[(row, col)] else BLANK
  }

  function Row(cells: Cells, row: nat, cols: nat): seq<CharCell> {
    seq(cols, k requires 0 <= k < cols => CellAt(cells, row, k))
  }

  /** A canvas that never scrolls, with a cursor. */
  datatype Canvas = Canvas(cells: Cells, x: nat, y: nat) {
    function LineFeed(): Canvas { this.(x := 0, y := y + 1) }

    function Wrapped(cols: nat): Canvas { if x >= cols then LineFeed() else this }

    /** One printing character at the cursor, wrapping first if the row is full. */
    function Put(ch: char, attr: CharAttributes, cols: nat): Canvas {
      var c := Wrapped(cols);
      c.(cells := c.cells[(c.y, c.x) := CharCell(ch, attr)], x := c.x + 1)
    }

    function PutSpaces(n: nat, attr: CharAttributes, cols: nat): Canvas
      decreases n
    {
      if n == 0 then this else Put(' ', attr, cols).PutSpaces(n - 1, attr, cols)
    }

    function Write(ch: char, attr: CharAttributes, cols: nat): Canvas {
      if ch == '\n' then LineFeed()
      else if ch == '\r' then this.(x := 0)
      else if ch == '\t' then PutSpaces(TAB_WIDTH - x % 8, attr, cols)
      else if ch == '\U{08}' then (if x > 0 then this.(x := x - 1) else this)
      else if ch == '\U{07}' then this
      else Put(ch, attr, cols)
    }

    function WriteAll(s: string, attr: CharAttributes, cols: nat): Canvas
      decreases |s|
    {
      if s == [] then this else Write(s[0], attr, cols).WriteAll(s[1..], attr, cols)
    }

    /** Writing never moves the cursor up. */
    lemma {:induction false} SpacesGoDown(n: nat, attr: CharAttributes, cols: nat)
      ensures PutSpaces(n, attr, cols).y >= y
      decreases n
    {
      if n > 0 {
        Put(' ', attr, cols).SpacesGoDown(n - 1, attr, cols);
      }
    }

    lemma {:induction false} TextGoesDown(s: string, attr: CharAttributes, cols: nat)
      ensures WriteAll(s, attr, cols).y >= y
      decreases |s|
    {
      if s != [] {
        if s[0] == '\t' {
          SpacesGoDown(TAB_WIDTH - x % 8, attr, cols);
        }
        Write(s[0], attr, cols).TextGoesDown(s[1..], attr, cols);
      }
    }
  }

  // ------------------------------------------------ what writing comes to

  /** Characters that are stored in a cell. */
  predicate Printing(ch: char) { ch !in "\n\r\t\U{08}\U{07}" }

  function Spaces(n: nat): string { seq(n, _ => ' ') }

  lemma {:induction false} WriteOneMore(c: Canvas, s: string, ch: char, attr: CharAttributes, cols: nat)
    ensures c.WriteAll(s + [ch], attr, cols) == c.WriteAll(s, attr, cols).Write(ch, attr, cols)
    decreases |s|
  {
    if s == [] {
      assert s + [ch] == [ch] && [ch][1..] == [];
      assert c.Write(ch, attr, cols).WriteAll([], attr, cols) == c.Write(ch, attr, cols);
    } else {
      assert (s + [ch])[1..] == s[1..] + [ch];
      WriteOneMore(c.Write(s[0], attr, cols), s[1..], ch, attr, cols);
    }
  }

  /** After `n` characters from the start of row `y` on, this is where the cursor is. */
  ghost predicate After(c: Canvas, y: nat, n: nat, cols: nat)
    requires cols > 0
  {
    if n == 0 then c.x == 0 && c.y == y else c.y == y + Quot(n - 1, cols) && c.x == Rem(n - 1, cols) + 1
  }

  /** The text is found in rows of `cols` cells, left to right and top to bottom. */
  ghost predicate Filled(cells: Cells, y: nat, s: string, attr: CharAttributes, cols: nat)
    requires cols > 0
  {
    forall i :: 0 <= i < |s| ==> CellAt(cells, y + Quot(i, cols), Rem(i, cols)) == CharCell(s[i], attr)
  }

  lemma FilledStep(cells: Cells, y: nat, s: string, ch: char, attr: CharAttributes, cols: nat)
    requires cols > 0 && Filled(cells, y, s, attr, cols)
    ensures Filled(cells[(y + Quot(|s|, cols), Rem(|s|, cols)) := CharCell(ch, attr)], y, s + [ch], attr, cols)
  {
    var next, n := cells[(y + Quot(|s|, cols), Rem(|s|, cols)) := CharCell(ch, attr)], |s|;
    forall i | 0 <= i < |s + [ch]|
      ensures CellAt(next, y + Quot(i, cols), Rem(i, cols)) == CharCell((s + [ch])[i], attr)
    {
      if i < n {
        PlacesDiffer(i, n, cols);
      }
    }
  }

  /** Printing text from the start of a row on fills rows. */
  lemma {:induction false} TextFillsRows(c: Canvas, s: string, attr: CharAttributes, cols: nat)
    requires cols > 0 && c.x == 0 && forall i :: 0 <= i < |s| ==> Printing(s[i])
    ensures After(c.WriteAll(s, attr, cols), c.y, |s|, cols)
    ensures Filled(c.WriteAll(s, attr, cols).cells, c.y, s, attr, cols)
    decreases |s|
  {
    if s != [] {
      var n := |s| - 1;
      var t, ch := s[..n], s[n];
      assert s == t + [ch];
      TextFillsRows(c, t, attr, cols);
      WriteOneMore(c, t, ch, attr, cols);
      var d := c.WriteAll(t, attr, cols);
      PutGoesNext(d, c.y, n, ch, attr, cols);
      FilledStep(d.cells, c.y, t, ch, attr, cols);
    }
  }

  lemma PlacesDiffer(i: nat, n: nat, cols: nat)
    requires cols > 0 && i < n
    ensures Quot(i, cols) != Quot(n, cols) || Rem(i, cols) != Rem(n, cols)
  {
    QuotRemTimes(i, cols);
    QuotRemTimes(n, cols);
  }

  lemma PutGoesNext(c: Canvas, y: nat, n: nat, ch: char, attr: CharAttributes, cols: nat)
    requires cols > 0 && After(c, y, n, cols) && Printing(ch)
    ensures var d := c.Write(ch, attr, cols);
            && After(d, y, n + 1, cols)
            && d.cells == c.cells[(y + Quot(n, cols), Rem(n, cols)) := CharCell(ch, attr)]
  {
    NextPlace(c, y, n, cols);
    assert c.Write(ch, attr, cols) == c.Put(ch, attr, cols);
  }

  lemma NextPlace(c: Canvas, y: nat, n: nat, cols: nat)
    requires cols > 0 && After(c, y, n, cols)
    ensures c.Wrapped(cols) == c.(x := Rem(n, cols), y := y + Quot(n, cols))
  {
    if n > 0 {
      NextPosition(n - 1, n, cols);
    }
  }

  lemma NextPosition(m: nat, n: nat, cols: nat)
    requires cols > 0 && n == m + 1
    ensures if Rem(m, cols) + 1 < cols then Quot(n, cols) == Quot(m, cols) && Rem(n, cols) == Rem(m, cols) + 1
            else Quot(n, cols) == Quot(m, cols) + 1 && Rem(n, cols) == 0
  {
    Advance(m, 1, cols);
  }

  lemma {:induction false} SpacesAreWritten(c: Canvas, n: nat, attr: CharAttributes, cols: nat)
    ensures c.PutSpaces(n, attr, cols) == c.WriteAll(Spaces(n), attr, cols)
    decreases n
  {
    if n > 0 {
      assert Spaces(n)[1..] == Spaces(n - 1);
      SpacesAreWritten(c.Put(' ', attr, cols), n - 1, attr, cols);
    }
  }

  predicate TabStop(col: nat) { col % 8 == 0 }

  /** A tab is the fewest spaces, at least one, that fill up to a multiple of eight
      columns. */
  lemma TabIsSpaces(c: Canvas, attr: CharAttributes, cols: nat) returns (n: nat)
    ensures 0 < n && TabStop(c.x + n) && forall col :: c.x < col < c.x + n ==> !TabStop(col)
    ensures c.Write('\t', attr, cols) == c.WriteAll(Spaces(n), attr, cols)
  {
    n := 8 - c.x % 8;
    SpacesAreWritten(c, n, attr, cols);
  }

  /** Control characters move the cursor and write nothing: a return goes to the start of
      the row, a line feed to the start of the next, a backspace undoes one step to the
      right, and a bell does nothing. */
  lemma ControlsMove(c: Canvas, ch: char, attr: CharAttributes, cols: nat)
    requires Printing(ch)
    ensures forall k :: k in "\n\r\U{08}\U{07}" ==> c.Write(k, attr, cols).cells == c.cells
    ensures c.Write('\r', attr, cols).x == 0 == c.Write('\n', attr, cols).x
    ensures c.Write('\r', attr, cols).y == c.y && c.Write('\n', attr, cols).y == c.y + 1
    ensures c.x < cols ==> var d := c.Write(ch, attr, cols).Write('\U{08}', attr, cols); (d.x, d.y) == (c.x, c.y)
    ensures c.x == 0 ==> c.Write('\U{08}', attr, cols) == c
    ensures c.Write('\U{07}', attr, cols) == c
  {
  }

  /** First canvas row on a screen of `rows` rows whose cursor is on row `y`. */
  function Top(y: nat, rows: nat): nat { if y + 1 > rows then y + 1 - rows else 0 }

  /** The up to 1000 canvas rows just above row `top`. */
  function History(cells: Cells, cols: nat, top: nat): seq<seq<CharCell>> {
    var n := Min(top, SCROLLBACK_LINES);
    seq(n, i requires 0 <= i < n => Row(cells, top - n + i, cols))
  }

  /** The screen ends with the cursor's row once there are enough rows, and up to 1000
      rows just above it are kept. */
  lemma WindowIs(cells: Cells, cols: nat, y: nat, rows: nat)
    requires rows > 0
    ensures Top(y, rows) <= y < Top(y, rows) + rows && (Top(y, rows) == 0 || y == Top(y, rows) + rows - 1)
    ensures var top, h := Top(y, rows), History(cells, cols, Top(y, rows));
            && |h| <= top && |h| <= 1000 && (|h| == top || |h| == 1000)
            && forall i :: 0 <= i < |h| ==> h[i] == Row(cells, top - |h| + i, cols)
  {
  }

  /** Nothing is written below row `y`. */
  ghost predicate BlankBelow(cells: Cells, y: nat) {
    forall k :: k in cells ==> k.0 <= y
  }

  /** Cell `p` of the flat screen shows the canvas from row `top` on. */
  ghost predicate Window(cells: Cells, screen: seq<CharCell>, cols: nat, top: nat) {
    cols > 0 ==> forall p :: 0 <= p < |screen| ==> screen[p] == CellAt(cells, top + Quot(p, cols), Rem(p, cols))
  }

  /** Each row of the screen is a row of the canvas. */
  lemma WindowShowsRows(cells: Cells, screen: seq<CharCell>, cols: nat, top: nat, r: nat)
    requires Window(cells, screen, cols, top) && r * cols + cols <= |screen|
    ensures screen[r * cols..r * cols + cols] == Row(cells, top + r, cols)
  {
    var shown := screen[r * cols..r * cols + cols];
    forall k | 0 <= k < cols
      ensures shown[k] == Row(cells, top + r, cols)[k]
    {
      Position(r, k, cols, r * cols + k);
    }
  }

  /** The buffer is the last window of the canvas, with the rows above kept. */
  ghost predicate Shows(c: Canvas, screen: seq<CharCell>, scrollback: seq<seq<CharCell>>,
                        cols: nat, rows: nat, cursorX: nat, cursorY: nat)
  {
    && rows > 0 && BlankBelow(c.cells, c.y)
    && cursorX == c.x && cursorY == c.y - Top(c.y, rows)
    && Window(c.cells, screen, cols, Top(c.y, rows))
    && scrollback == History(c.cells, cols, Top(c.y, rows))
  }

  /** A buffer without rows stores nothing and has room for no line feed. */
  predicate Rowless(c: Canvas, scrollback: seq<seq<CharCell>>, cursorX: nat, cursorY: nat) {
    c.y == 0 && cursorX == c.x && cursorY == 0 && scrollback == []
  }

  function Blanks(n: nat): seq<CharCell> { seq(n, _ => BLANK) }

  // --------------------------------------------------------- refinement

  lemma Sub(n: nat, m: nat)
    ensures (n - 1) * m == n * m - m
  {
  }

  /** Cell `y * cols + x` and no other is column `x` of row `y`. */
  lemma Position(y: nat, x: nat, cols: nat, p: nat)
    requires x < cols
    ensures Quot(p, cols) == y && Rem(p, cols) == x <==> p == y * cols + x
  {
    DivModAt(y, cols, x);
    QuotRemAre(y * cols + x, cols);
    QuotRemAre(p, cols);
  }

  lemma RowFits(y: nat, x: nat, cols: nat, rows: nat)
    requires y < rows && x < cols
    ensures y * cols + x < rows * cols
  {
    RowStarts(y, rows, cols);
  }

  /** Writing a cell on the cursor's row changes that one cell of the window. */
  lemma PutShows(c: Canvas, screen: seq<CharCell>, scrollback: seq<seq<CharCell>>, cols: nat, rows: nat,
                 cursorY: nat, cell: CharCell)
    requires Shows(c, screen, scrollback, cols, rows, c.x, cursorY) && c.x < cols && |screen| == rows * cols
    ensures cursorY * cols + c.x < |screen|
    ensures Shows(c.(cells := c.cells[(c.y, c.x) := cell], x := c.x + 1),
                  screen[cursorY * cols + c.x := cell], scrollback, cols, rows, c.x + 1, cursorY)
  {
    RowFits(cursorY, c.x, cols, rows);
    PutWindow(c.cells, screen, cols, Top(c.y, rows), cursorY, c.x, cell);
    HistoryFrame(c.cells, c.cells[(c.y, c.x) := cell], cols, Top(c.y, rows));
  }

  lemma PutWindow(cells: Cells, screen: seq<CharCell>, cols: nat, top: nat, y: nat, x: nat, cell: CharCell)
    requires Window(cells, screen, cols, top) && x < cols && y * cols + x < |screen|
    ensures Window(cells[(top + y, x) := cell], screen[y * cols + x := cell], cols, top)
  {
    var idx := y * cols + x;
    forall p | 0 <= p < |screen|
      ensures screen[idx := cell][p] == CellAt(cells[(top + y, x) := cell], top + Quot(p, cols), Rem(p, cols))
    {
      Position(y, x, cols, p);
    }
  }

  /** On a screen without columns nothing is stored. */
  lemma OffScreen(c: Canvas, screen: seq<CharCell>, scrollback: seq<seq<CharCell>>, cols: nat, rows: nat,
                  cursorY: nat, cell: CharCell)
    requires Shows(c, screen, scrollback, cols, rows, c.x, cursorY)
    requires (cols > 0 ==> c.x < cols) && |screen| == rows * cols
    requires cursorY * cols + c.x >= |screen|
    ensures cols == 0
    ensures Shows(c.(cells := c.cells[(c.y, c.x) := cell], x := c.x + 1),
                  screen, scrollback, cols, rows, c.x + 1, cursorY)
  {
    if cols > 0 {
      RowFits(cursorY, c.x, cols, rows);
    }
    HistoryFrame(c.cells, c.cells[(c.y, c.x) := cell], cols, Top(c.y, rows));
  }

  /** Rows above `top` are all that the history depends on. */
  lemma HistoryFrame(c: Cells, d: Cells, cols: nat, top: nat)
    requires forall row: nat, col: nat :: row < top ==> CellAt(c, row, col) == CellAt(d, row, col)
    ensures History(c, cols, top) == History(d, cols, top)
  {
    forall row: nat | row < top
      ensures Row(c, row, cols) == Row(d, row, cols)
    {
    }
  }

  /** With room left on the screen, a line feed only moves the cursor. */
  lemma FeedShows(c: Canvas, screen: seq<CharCell>, scrollback: seq<seq<CharCell>>, cols: nat, rows: nat,
      x: nat, cursorY: nat)
    requires Shows(c, screen, scrollback, cols, rows, x, cursorY) && cursorY + 1 < rows
    ensures Shows(c.LineFeed(), screen, scrollback, cols, rows, 0, cursorY + 1)
  {
  }

  function ScrolledBack(scrollback: seq<seq<CharCell>>, line: seq<CharCell>): seq<seq<CharCell>> {
    var s := scrollback + [line];
    if |s| > SCROLLBACK_LINES then s[1..] else s
  }

  /** On the last row, a line feed scrolls the window down by one canvas row. */
  lemma ScrollShows(c: Canvas, screen: seq<CharCell>, scrollback: seq<seq<CharCell>>, cols: nat, rows: nat,
      x: nat, cursorY: nat)
    requires Shows(c, screen, scrollback, cols, rows, x, cursorY) && cursorY + 1 == rows && |screen| == rows * cols
    ensures cols <= |screen|
    ensures Shows(c.LineFeed(), screen[cols..] + Blanks(cols), ScrolledBack(scrollback, screen[..cols]),
                  cols, rows, 0, cursorY)
  {
    var top := Top(c.y, rows);
    RowsBefore(1, rows, cols);
    ScrollWindow(c.cells, screen, cols, rows, top);
    TopLine(c.cells, screen, cols, top);
    HistoryGrows(c.cells, cols, top);
  }

  lemma TopLine(cells: Cells, screen: seq<CharCell>, cols: nat, top: nat)
    requires Window(cells, screen, cols, top) && cols <= |screen|
    ensures screen[..cols] == Row(cells, top, cols)
  {
    forall k | 0 <= k < cols
      ensures screen[k] == CellAt(cells, top, k)
    {
      assert screen[k] == CellAt(cells, top + Quot(k, cols), Rem(k, cols));
    }
  }

  lemma HistoryGrows(cells: Cells, cols: nat, top: nat)
    ensures ScrolledBack(History(cells, cols, top), Row(cells, top, cols)) == History(cells, cols, top + 1)
  {
  }

  lemma ScrollWindow(cells: Cells, screen: seq<CharCell>, cols: nat, rows: nat, top: nat)
    requires Window(cells, screen, cols, top) && |screen| == rows * cols && cols <= |screen| && rows > 0
    requires BlankBelow(cells, top + rows - 1)
    ensures Window(cells, screen[cols..] + Blanks(cols), cols, top + 1)
  {
    var next := screen[cols..] + Blanks(cols);
    if cols > 0 {
      forall p | 0 <= p < |next|
        ensures next[p] == CellAt(cells, top + 1 + Quot(p, cols), Rem(p, cols))
      {
        if p + cols < |screen| {
          assert next[p] == screen[p + cols];
          assert Quot(p + cols, cols) == 1 + Quot(p, cols) && Rem(p + cols, cols) == Rem(p, cols);
        } else {
          LastRow(p, cols, rows);
        }
      }
    }
  }

  lemma LastRow(p: nat, cols: nat, rows: nat)
    requires cols > 0 && rows > 0 && rows * cols - cols <= p < rows * cols
    ensures Quot(p, cols) == rows - 1
  {
    Sub(rows, cols);
    Position(rows - 1, p - (rows - 1) * cols, cols, p);
  }

  lemma RowsBefore(y: nat, rows: nat, cols: nat)
    requires y <= rows
    ensures y * cols <= rows * cols
  {
    assert (rows - y) * cols >= 0;
  }

  lemma RowStarts(y: nat, rows: nat, cols: nat)
    requires y < rows
    ensures (y + 1) * cols == y * cols + cols <= rows * cols
    ensures y + 1 < rows ==> y * cols + 2 * cols <= rows * cols
  {
    Sub(y + 1, cols);
    RowsBefore(y + 1, rows, cols);
    if y + 1 < rows {
      Sub(y + 2, cols);
      RowsBefore(y + 2, rows, cols);
    }
  }

  /** The cells before `d` hold what was one row further; the rest is as before. */
  ghost predicate ShiftedUpTo(was: seq<CharCell>, now: seq<CharCell>, d: nat, cols: nat)
    requires d + cols <= |was|
  {
    && |now| == |was|
    && (forall p :: 0 <= p < d ==> now[p] == was[p + cols])
    && (forall p :: d <= p < |was| ==> now[p] == was[p])
  }

  /** `next` is `now` with the `cols` cells from `src` copied to `dst`. */
  ghost predicate RowCopied(now: seq<CharCell>, next: seq<CharCell>, dst: nat, src: nat, cols: nat)
    requires dst + cols <= src && src + cols <= |now|
  {
    && |next| == |now|
    && forall p :: 0 <= p < |now| ==> next[p] == now[if dst <= p < dst + cols then p - dst + src else p]
  }

  lemma ShiftOneRow(was: seq<CharCell>, now: seq<CharCell>, next: seq<CharCell>, d: nat, cols: nat)
    requires d + 2 * cols <= |was| && ShiftedUpTo(was, now, d, cols) && RowCopied(now, next, d, d + cols, cols)
    ensures ShiftedUpTo(was, next, d + cols, cols)
  {
  }

  class TerminalBuffer {
    const cols: nat
    const rows: nat
    const screen: array<CharCell>
    var scrollback: seq<seq<CharCell>>
    var cursorX: nat
    var cursorY: nat
    var currentAttr: CharAttributes
    /** Everything written so far, unscrolled. */
    ghost var canvas: Canvas

    ghost predicate Valid()
      reads this, screen
    {
      && screen.Length == rows * cols
      && (rows == 0 ==> Rowless(canvas, scrollback, cursorX, cursorY))
      && (rows > 0 ==> Shows(canvas, screen[..], scrollback, cols, rows, cursorX, cursorY))
    }

    constructor (cols: nat, rows: nat)
      ensures Valid() && this.cols == cols && this.rows == rows && fresh(screen)
      ensures canvas == Canvas(map[], 0, 0) && currentAttr == PLAIN
    {
      this.cols, this.rows := cols, rows;
      screen := new CharCell[rows * cols](_ => BLANK);
      scrollback := [];
      cursorX, cursorY := 0, 0;
      currentAttr := PLAIN;
      canvas := Canvas(map[], 0, 0);
    }

    method SetAttributes(attr: CharAttributes)
      modifies this`currentAttr
      ensures currentAttr == attr
    {
      currentAttr := attr;
    }

    /** Copies `cols` cells down from `src` to `dst`, one by one. */
    method CopyRow(dst: nat, src: nat)
      requires dst + cols <= src && src + cols <= screen.Length
      modifies screen
      ensures RowCopied(old(screen[..]), screen[..], dst, src, cols)
    {
      ghost var was := screen[..];
      for i := 0 to cols
        invariant forall p :: 0 <= p < |was| ==> screen[p] == was[if dst <= p < dst + i then p - dst + src else p]
      {
        screen[dst + i] := screen[src + i];
      }
    }

    method BlankRow(start: nat)
      requires start + cols <= screen.Length
      modifies screen
      ensures screen[..] == old(screen[..])[..start] + Blanks(cols) + old(screen[..])[start + cols..]
    {
      ghost var was := screen[..];
      for i := 0 to cols
        invariant screen[..start + i] == was[..start] + Blanks(i)
        invariant screen[start + i..] == was[start + i..]
      {
        screen[start + i] := BLANK;
      }
      assert screen[..] == screen[..start + cols] + screen[start + cols..];
    }

    /** Copies each row over the one above it. */
    method ShiftRows()
      requires screen.Length == rows * cols && rows > 0 && cols <= screen.Length
      modifies screen
      ensures screen[..screen.Length - cols] == old(screen[..])[cols..]
    {
      ghost var was := screen[..];
      ghost var d := 0;
      for y := 0 to rows - 1
        invariant d == y * cols && d + cols <= |was|
        invariant ShiftedUpTo(was, screen[..], d, cols)
      {
        RowStarts(y, rows, cols);
        var srcStart, dstStart := (y + 1) * cols, y * cols;
        assert dstStart == d && srcStart == d + cols;
        ghost var now := screen[..];
        CopyRow(dstStart, srcStart);
        ShiftOneRow(was, now, screen[..], d, cols);
        d := d + cols;
      }
      RowStarts(rows - 1, rows, cols);
    }

    /** Moves every row up by one and blanks the last, saving the top row. */
    method ScrollUp()
      requires screen.Length == rows * cols && rows > 0 && cols <= screen.Length
      modifies this`scrollback, screen
      ensures screen[..] == old(screen[..])[cols..] + Blanks(cols)
      ensures scrollback == ScrolledBack(old(scrollback), old(screen[..])[..cols])
    {
      ghost var was := screen[..];
      var topLine := screen[..cols];
      scrollback := scrollback + [topLine];
      if |scrollback| > SCROLLBACK_LINES {
        scrollback := scrollback[1..];
      }
      ShiftRows();
      RowStarts(rows - 1, rows, cols);
      BlankRow((rows - 1) * cols);
      assert screen[..] == was[cols..] + Blanks(cols);
    }

    /** The cursor goes to the start of the next row, scrolling at the bottom.
        Scrolling a buffer without rows fails a check. */
    method LineFeed() returns (panicked: bool)
      requires Valid()
      modifies this`scrollback, this`cursorX, this`cursorY, this`canvas, screen
      ensures panicked <==> rows == 0
      ensures !panicked ==> Valid() && canvas == old(canvas).LineFeed()
    {
      panicked := rows == 0;
      if panicked {
        return;
      }
      if cursorY + 1 < rows {
        FeedShows(canvas, screen[..], scrollback, cols, rows, cursorX, cursorY);
      } else {
        ScrollShows(canvas, screen[..], scrollback, cols, rows, cursorX, cursorY);
      }
      cursorX, cursorY := 0, cursorY + 1;
      if cursorY >= rows {
        ScrollUp();
        cursorY := rows - 1;
      }
      canvas := canvas.LineFeed();
    }

    /** A printing character: wrap if the row is full, then store the cell. */
    method PutChar(ch: char) returns (panicked: bool)
      requires Valid()
      modifies this`scrollback, this`cursorX, this`cursorY, this`canvas, screen
      ensures panicked <==> rows == 0 && old(canvas).Put(ch, currentAttr, cols).y > 0
      ensures !panicked ==> Valid() && canvas == old(canvas).Put(ch, currentAttr, cols)
    {
      panicked := false;
      if cursorX >= cols {
        panicked := LineFeed();
        if panicked {
          return;
        }
      }
      StoreCell(CharCell(ch, currentAttr));
    }

    /** Stores a cell at the cursor, if it is on the screen, and moves on. */
    method StoreCell(cell: CharCell)
      requires Valid() && (cols > 0 ==> cursorX < cols)
      modifies this`cursorX, this`canvas, screen
      ensures Valid()
      ensures canvas == old(canvas).(cells := old(canvas).cells[(old(canvas).y, old(canvas).x) := cell],
                                     x := old(canvas).x + 1)
    {
      var idx := cursorY * cols + cursorX;
      if idx < screen.Length {
        PutShows(canvas, screen[..], scrollback, cols, rows, cursorY, cell);
        screen[idx] := cell;
      } else if rows > 0 {
        OffScreen(canvas, screen[..], scrollback, cols, rows, cursorY, cell);
      }
      cursorX := cursorX + 1;
      canvas := canvas.(cells := canvas.cells[(canvas.y, canvas.x) := cell], x := canvas.x + 1);
    }

    /** For every character the buffer shows the canvas it was written on; the one
        check that can fail is for a row in a buffer without rows. */
    method WriteChar(ch: char) returns (panicked: bool)
      requires Valid()
      modifies this`scrollback, this`cursorX, this`cursorY, this`canvas, screen
      ensures panicked <==> rows == 0 && old(canvas).Write(ch, currentAttr, cols).y > 0
      ensures !panicked ==> Valid() && canvas == old(canvas).Write(ch, currentAttr, cols)
      decreases if ch == '\t' then 2 else 0
    {
      panicked := false;
      if ch == '\n' {
        panicked := LineFeed();
      } else if ch == '\r' {
        cursorX := 0;
        canvas := canvas.(x := 0);
      } else if ch == '\t' {
        panicked := WriteSpaces(TAB_WIDTH - cursorX % TAB_WIDTH);
      } else if ch == '\U{08}' {
        if cursorX > 0 {
          cursorX := cursorX - 1;
          canvas := canvas.(x := canvas.x - 1);
        }
      } else if ch == '\U{07}' {
      } else {
        panicked := PutChar(ch);
      }
    }

    /** The loop that expands a tab. */
    method WriteSpaces(spaces: nat) returns (panicked: bool)
      requires Valid()
      modifies this`scrollback, this`cursorX, this`cursorY, this`canvas, screen
      ensures panicked <==> rows == 0 && old(canvas).PutSpaces(spaces, currentAttr, cols).y > 0
      ensures !panicked ==> Valid() && canvas == old(canvas).PutSpaces(spaces, currentAttr, cols)
      decreases 1
    {
      panicked := false;
      for i := 0 to spaces
        invariant Valid()
        invariant canvas.PutSpaces(spaces - i, currentAttr, cols) == old(canvas).PutSpaces(spaces, currentAttr, cols)
      {
        canvas.Put(' ', currentAttr, cols).SpacesGoDown(spaces - i - 1, currentAttr, cols);
        panicked := WriteChar(' ');
        if panicked {
          return;
        }
      }
    }

    /** For every text, the screen is the last window of the canvas. */
    method WriteStr(s: string) returns (panicked: bool)
      requires Valid()
      modifies this`scrollback, this`cursorX, this`cursorY, this`canvas, screen
      ensures panicked <==> rows == 0 && old(canvas).WriteAll(s, currentAttr, cols).y > 0
      ensures !panicked ==> Valid() && canvas == old(canvas).WriteAll(s, currentAttr, cols)
    {
      panicked := false;
      for i := 0 to |s|
        invariant Valid()
        invariant canvas.WriteAll(s[i..], currentAttr, cols) == old(canvas).WriteAll(s, currentAttr, cols)
      {
        assert s[i..][0] == s[i] && s[i..][1..] == s[i + 1..];
        canvas.Write(s[i], currentAttr, cols).TextGoesDown(s[i + 1..], currentAttr, cols);
        panicked := WriteChar(s[i]);
        if panicked {
          return;
        }
      }
    }
  }
}
