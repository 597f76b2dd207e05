/** The text terminal on the linear frame buffer, src/library/graphic/lfb_terminal.rs.

    Only the cursor logic is modelled. The frame buffer (`LFB`, whose module is not
    part of this model) is represented by the list of calls the terminal makes on
    it, and the success flag that `draw_char` returns for a printed character is
    an input, because it depends on the font and the pixel buffer. */
module LfbTerminal {

  const U32_MAX: nat := 0xFFFF_FFFF

  /** Glyph size in pixels, `lfb::CHAR_WIDTH` and `lfb::CHAR_HEIGHT`. */
  const CHAR_WIDTH: nat := 8
  const CHAR_HEIGHT: nat := 16

  /** The block glyph U+2588 drawn at the cursor position. */
  const CURSOR: char := '█'

  datatype Color = White | Black | Invisible | Rgb(red: nat, green: nat, blue: nat)

  /** A call made on the frame buffer, with pixel coordinates. */
  datatype LfbCall =
    | Clear
    | DrawChar(px: nat, py: nat, fg: Color, bg: Color, c: char)
    | ScrollUp(lines: nat)

  /** The text cursor, in character cells. */
  datatype Cursor = Cursor(x: nat, y: nat)

  /** A cursor inside a grid of `columns` by `rows` cells. */
  predicate OnScreen(columns: nat, rows: nat, cur: Cursor)
  {
    cur.x < columns && cur.y < rows
  }

  /** The cursor after the character itself: a newline moves to the start of the
      next line, any other character advances one cell when it was drawn. */
  function AfterChar(cur: Cursor, c: char, drawn: bool): Cursor
  {
    if c == '\n' then Cursor(0, cur.y + 1)
    else if drawn then Cursor(cur.x + 1, cur.y)
    else cur
  }

  /** The cursor after the line-wrap check. */
  function AfterWrap(columns: nat, cur: Cursor): Cursor
  {
    if cur.x >= columns then Cursor(0, cur.y + 1) else cur
  }

  /** Whether printing `c` at `cur` scrolls the screen. */
  predicate Scrolls(columns: nat, rows: nat, cur: Cursor, c: char, drawn: bool)
  {
    AfterWrap(columns, AfterChar(cur, c, drawn)).y >= rows
  }

  /** The cursor after `print_char(c, ..)`. */
  function NextCursor(columns: nat, rows: nat, cur: Cursor, c: char, drawn: bool): (r: Cursor)
    requires rows >= 1
    ensures OnScreen(columns, rows, cur) ==> OnScreen(columns, rows, r)
    ensures Scrolls(columns, rows, cur, c, drawn) ==> r == Cursor(0, rows - 1)
    ensures OnScreen(columns, rows, cur) && c == '\n' && cur.y + 1 < rows ==> r == Cursor(0, cur.y + 1)
    ensures OnScreen(columns, rows, cur) && c != '\n' && !drawn ==> r == cur
    ensures OnScreen(columns, rows, cur) && c != '\n' && drawn && cur.x + 1 < columns ==> r == Cursor(cur.x + 1, cur.y)
    ensures OnScreen(columns, rows, cur) && c != '\n' && drawn && cur.x + 1 == columns && cur.y + 1 < rows ==> r == Cursor(0, cur.y + 1)
  {
    var wrapped := AfterWrap(columns, AfterChar(cur, c, drawn));
    if wrapped.y >= rows then Cursor(0, rows - 1) else wrapped
  }

  /** The frame-buffer calls of `print_char(c, fg, bg)` at `cur`: the character (or,
      for a newline, a blank that erases the cursor), a scroll by one text line when
      the cursor leaves the last row, and the cursor at its new place. */
  function PrintCharCalls(columns: nat, rows: nat, cur: Cursor, c: char, fg: Color, bg: Color, drawn: bool): (calls: seq<LfbCall>)
    requires rows >= 1
    ensures 2 <= |calls| <= 3
    ensures |calls| == 3 <==> Scrolls(columns, rows, cur, c, drawn)
    ensures calls[|calls| - 1] == (var r := NextCursor(columns, rows, cur, c, drawn);
                                   DrawChar(r.x * CHAR_WIDTH, r.y * CHAR_HEIGHT, fg, bg, CURSOR))
  {
    var first := if c == '\n' then DrawChar(cur.x * CHAR_WIDTH, cur.y * CHAR_HEIGHT, Invisible, bg, ' ')
                 else DrawChar(cur.x * CHAR_WIDTH, cur.y * CHAR_HEIGHT, fg, bg, c);
    var scroll := if Scrolls(columns, rows, cur, c, drawn) then [ScrollUp(CHAR_HEIGHT)] else [];
    var r := NextCursor(columns, rows, cur, c, drawn);
    [first] + scroll + [DrawChar(r.x * CHAR_WIDTH, r.y * CHAR_HEIGHT, fg, bg, CURSOR)]
  }

  /** The cursor after printing all of `s`, where `drawn[i]` is what `draw_char`
      reports for `s[i]`. */
  function CursorAfterAll(columns: nat, rows: nat, cur: Cursor, s: seq<char>, drawn: seq<bool>): (r: Cursor)
    requires rows >= 1 && |drawn| == |s|
    ensures OnScreen(columns, rows, cur) ==> OnScreen(columns, rows, r)
    decreases |s|
  {
    if s == [] then cur
    else
      var n := |s| - 1;
      NextCursor(columns, rows, CursorAfterAll(columns, rows, cur, s[..n], drawn[..n]), s[n], drawn[n])
  }

  /** The frame-buffer calls made while printing all of `s` in white on black. */
  function CallsForAll(columns: nat, rows: nat, cur: Cursor, s: seq<char>, drawn: seq<bool>): seq<LfbCall>
    requires rows >= 1 && |drawn| == |s|
    decreases |s|
  {
    if s == [] then []
    else
      var n := |s| - 1;
      CallsForAll(columns, rows, cur, s[..n], drawn[..n]) +
      PrintCharCalls(columns, rows, CursorAfterAll(columns, rows, cur, s[..n], drawn[..n]), s[n], White, Black, drawn[n])
  }

  /** Every character costs two or three frame-buffer calls, three exactly when it
      scrolls, and the last call always draws the cursor at its final place. */
  lemma {:induction false} CallsForAllCount(columns: nat, rows: nat, cur: Cursor, s: seq<char>, drawn: seq<bool>)
    requires rows >= 1 && |drawn| == |s|
    ensures 2 * |s| <= |CallsForAll(columns, rows, cur, s, drawn)| <= 3 * |s|
    ensures s != [] ==>
      var calls := CallsForAll(columns, rows, cur, s, drawn);
      var r := CursorAfterAll(columns, rows, cur, s, drawn);
      calls[|calls| - 1] == DrawChar(r.x * CHAR_WIDTH, r.y * CHAR_HEIGHT, White, Black, CURSOR)
    decreases |s|
  {
    if s != [] {
      var n := |s| - 1;
      CallsForAllCount(columns, rows, cur, s[..n], drawn[..n]);
    }
  }

  class Terminal {
    var columns: nat
    var rows: nat
    var x: nat
    var y: nat
    /** What has been asked of the frame buffer so far. */
    var lfbCalls: seq<LfbCall>

    function Position(): Cursor
      reads this
    {
      Cursor(x, y)
    }

    /** The grid is non-empty, fits the 32-bit pixel coordinates, and holds the
        cursor. */
    ghost predicate Valid()
      reads this
    {
      1 <= columns && columns * CHAR_WIDTH <= U32_MAX &&
      1 <= rows && rows * CHAR_HEIGHT <= U32_MAX &&
      OnScreen(columns, rows, Position())
    }

    /** `Terminal::empty`. */
    constructor Empty()
      ensures columns == 0 && rows == 0 && x == 0 && y == 0
      ensures lfbCalls == []
    {
      columns, rows, x, y := 0, 0, 0, 0;
      lfbCalls := [];
    }

    /** `Terminal::new` on a `width` by `height` pixel frame buffer: the grid has as
        many whole glyphs as fit, the screen is cleared and the cursor drawn at
        the top left. */
    constructor New(width: nat, height: nat)
      requires width <= U32_MAX && height <= U32_MAX
      ensures columns == width / CHAR_WIDTH && rows == height / CHAR_HEIGHT
      ensures Position() == Cursor(0, 0)
      ensures lfbCalls == [Clear, DrawChar(0, 0, White, Black, CURSOR)]
      ensures width >= CHAR_WIDTH && height >= CHAR_HEIGHT ==> Valid()
    {
      lfbCalls := [Clear, DrawChar(0, 0, White, Black, CURSOR)];
      columns := width / CHAR_WIDTH;
      rows := height / CHAR_HEIGHT;
      x, y := 0, 0;
    }

    /** `print_char(c, fg, bg)`; `drawn` is what `draw_char` reports for `c`. The
        grid needs a row: with none, `rows - 1` would underflow. */
    method PrintChar(c: char, fg: Color, bg: Color, drawn: bool)
      requires Valid()
      modifies this
      ensures Valid()
      ensures columns == old(columns) && rows == old(rows)
      ensures Position() == NextCursor(columns, rows, old(Position()), c, drawn)
      ensures lfbCalls == old(lfbCalls) + PrintCharCalls(columns, rows, old(Position()), c, fg, bg, drawn)
    {
      if c == '\n' {
        lfbCalls := lfbCalls + [DrawChar(x * CHAR_WIDTH, y * CHAR_HEIGHT, Invisible, bg, ' ')];
        y := y + 1;
        x := 0;
      } else {
        lfbCalls := lfbCalls + [DrawChar(x * CHAR_WIDTH, y * CHAR_HEIGHT, fg, bg, c)];
        if drawn {
          x := x + 1;
        }
      }

      if x >= columns {
        y := y + 1;
        x := 0;
      }

      if y >= rows {
        lfbCalls := lfbCalls + [ScrollUp(CHAR_HEIGHT)];
        x := 0;
        y := rows - 1;
      }

      lfbCalls := lfbCalls + [DrawChar(x * CHAR_WIDTH, y * CHAR_HEIGHT, fg, bg, CURSOR)];
    }

    /** `write_str(s)`: the characters in order, white on black; it always reports
        success. `drawn[i]` is what `draw_char` reports for `s[i]`. */
    method WriteStr(s: seq<char>, drawn: seq<bool>) returns (ok: bool)
      requires Valid() && |drawn| == |s|
      modifies this
      ensures Valid() && ok
      ensures columns == old(columns) && rows == old(rows)
      ensures Position() == CursorAfterAll(columns, rows, old(Position()), s, drawn)
      ensures lfbCalls == old(lfbCalls) + CallsForAll(columns, rows, old(Position()), s, drawn)
    {
      ghost var start := Position();
      for i := 0 to |s|
        invariant Valid()
        invariant columns == old(columns) && rows == old(rows)
        invariant Position() == CursorAfterAll(columns, rows, start, s[..i], drawn[..i])
        invariant lfbCalls == old(lfbCalls) + CallsForAll(columns, rows, start, s[..i], drawn[..i])
      {
        assert s[..i + 1][..i] == s[..i] && drawn[..i + 1][..i] == drawn[..i];
        PrintChar(s[i], White, Black, drawn[i]);
      }
      assert s[..|s|] == s && drawn[..|s|] == drawn;
      ok := true;
    }
  }
}
