/** The renderer: a screen-sized buffer of characters, redrawn in full on
    every frame and written to the terminal row by row. What reaches the
    terminal is the `output` sequence. */
module Renderers {
  import opened Grids
  import opened Panes
  import opened Windows
  import Ansi
  import opened Wrappers

  /** Cursor position with no parameters, which moves to the top-left
      corner (CUP, section 8.3.21 of ECMA-48). */
  const CursorHome: seq<char> := [Ansi.Escape, '[', 'H']

  /** Cursor next line, one line down and to the first column (CNL,
      section 8.3.12 of ECMA-48). */
  const NextLine: seq<char> := [Ansi.Escape, '[', '1', 'E']

  /** The two sequences are the encoder's sequences for `H` and `1E`. */
  lemma ControlSequencesAreEncoded()
    ensures CursorHome == Ansi.Encode("H")
    ensures NextLine == Ansi.Encode("1E")
  {
  }

  /** `n` blank cells. */
  function Blank(n: nat): (r: seq<char>)
    ensures |r| == n && forall k :: 0 <= k < n ==> r[k] == ' '
  {
    seq(n, _ => ' ')
  }

  /** The buffer position where row `y` starts: `y` rows of `width` cells
      before it. */
  function RowStart(width: nat, y: nat): nat
  {
    if y == 0 then 0 else RowStart(width, y - 1) + width
  }

  /** The row start is the product of the width and the row. */
  lemma {:induction false} RowStartIsProduct(width: nat, y: nat)
    ensures RowStart(width, y) == width * y
  {
    if y > 0 {
      RowStartIsProduct(width, y - 1);
      assert width * y == width * (y - 1) + width;
    }
  }

  /** `render_buffer_index_from_position`: the buffer position of the cell
      in column `x` of row `y`, `width * y + x`. */
  function CellIndex(width: nat, x: nat, y: nat): (i: nat)
    ensures i == width * y + x
  {
    RowStartIsProduct(width, y);
    RowStart(width, y) + x
  }

  /** The row that starts after row `y` starts no earlier than `width`
      cells after it. */
  lemma {:induction false} RowEnd(width: nat, y: nat, z: nat)
    requires y < z
    ensures RowStart(width, y) + width <= RowStart(width, z)
    decreases z
  {
    if y < z - 1 {
      RowEnd(width, y, z - 1);
    }
  }

  /** Every cell on the screen has a position inside the buffer. */
  lemma CellIndexInBounds(width: nat, height: nat, x: nat, y: nat)
    requires x < width && y < height
    ensures CellIndex(width, x, y) < RowStart(width, height) == width * height
  {
    RowEnd(width, y, height);
    RowStartIsProduct(width, height);
  }

  /** A cell lies among the first `len` cells of row `row` exactly when it
      is in that row and its column is below `len`. */
  lemma InRow(width: nat, x: nat, y: nat, row: nat, len: nat)
    requires x < width && len <= width
    ensures RowStart(width, row) <= CellIndex(width, x, y) < RowStart(width, row) + len <==> y == row && x < len
  {
    if y < row {
      RowEnd(width, y, row);
    } else if row < y {
      RowEnd(width, row, y);
    }
  }

  /** Two cells on the screen never share a buffer position. */
  lemma CellIndexInjective(width: nat, x1: nat, y1: nat, x2: nat, y2: nat)
    requires x1 < width && x2 < width
    requires CellIndex(width, x1, y1) == CellIndex(width, x2, y2)
    ensures x1 == x2 && y1 == y2
  {
    if y1 < y2 {
      RowEnd(width, y1, y2);
    } else if y2 < y1 {
      RowEnd(width, y2, y1);
    }
  }

  /** The cells with `line` written from position `base` on. */
  function Put(cells: seq<char>, base: nat, line: seq<char>): (r: seq<char>)
    requires base + |line| <= |cells|
    ensures |r| == |cells|
  {
    cells[..base] + line + cells[base + |line|..]
  }

  /** Writing a line changes exactly the cells it covers, to its
      characters. */
  lemma PutCells(cells: seq<char>, base: nat, line: seq<char>)
    requires base + |line| <= |cells|
    ensures forall k :: 0 <= k < |cells| ==>
      Put(cells, base, line)[k] == if base <= k < base + |line| then line[k - base] else cells[k]
  {
  }

  /** The number of grid lines that are drawn: those with a row on the
      screen. */
  function Rows(grid: Lines, height: nat): nat
  {
    if |grid| < height then |grid| else height
  }

  /** The first `n` lines, each written from the start of its row, stay
      inside `size` cells. */
  predicate FitsUpTo(grid: Lines, width: nat, size: nat, n: nat)
    requires n <= |grid|
  {
    forall y :: 0 <= y < n ==> RowStart(width, y) + |grid[y]| <= size
  }

  /** Drawing the grid stays inside the buffer, so it does not panic. */
  predicate Fits(grid: Lines, width: nat, height: nat)
  {
    FitsUpTo(grid, width, RowStart(width, height), Rows(grid, height))
  }

  /** The cells after the first `n` lines are drawn, in order, each from the
      start of its row and with no clipping: a line longer than the width
      runs on into the rows below, where later lines write over it. */
  function Drawn(cells: seq<char>, grid: Lines, width: nat, n: nat): (r: seq<char>)
    requires n <= |grid| && FitsUpTo(grid, width, |cells|, n)
    ensures |r| == |cells|
    decreases n
  {
    if n == 0 then cells
    else Put(Drawn(cells, grid, width, n - 1), RowStart(width, n - 1), grid[n - 1])
  }

  /** What the screen shows at a cell when the grid is drawn as intended:
      the grid's character there, or a blank. */
  function Cell(grid: Lines, x: nat, y: nat): char
  {
    if y < |grid| && x < |grid[y]| then grid[y][x] else ' '
  }

  /** A line cut at the screen width. */
  function Clip(line: seq<char>, width: nat): (r: seq<char>)
    ensures |r| <= width && r <= line
    ensures |r| == if |line| < width then |line| else width
  {
    if |line| <= width then line else line[..width]
  }

  /** Every line cut at the screen width. */
  function Clipped(grid: Lines, width: nat): (r: Lines)
    ensures |r| == |grid|
    ensures forall y :: 0 <= y < |grid| ==> r[y] == Clip(grid[y], width)
  {
    seq(|grid|, y requires 0 <= y < |grid| => Clip(grid[y], width))
  }

  /** The cells after the grid is drawn with every line cut at the width. */
  function ClippedDrawn(cells: seq<char>, grid: Lines, width: nat, height: nat): (r: seq<char>)
    requires |cells| == RowStart(width, height)
    ensures |r| == |cells|
  {
    ClippedFits(grid, width, height);
    Drawn(cells, Clipped(grid, width), width, Rows(grid, height))
  }

  /** The text of a frame: each of the first `rows` rows, its `width` cells
      left to right followed by the move to the next line. */
  function Screen(cells: seq<char>, width: nat, rows: nat): (r: seq<char>)
    requires RowStart(width, rows) <= |cells|
    decreases rows
  {
    if rows == 0 then []
    else
      var start := RowStart(width, rows - 1);
      Screen(cells, width, rows - 1) + cells[start..start + width] + NextLine
  }

  /** Where column `x` of row `y` lands in the text of a frame. */
  function ScreenPosition(width: nat, x: nat, y: nat): nat
  {
    RowStart(width + |NextLine|, y) + x
  }

  class Renderer {
    const width: nat
    const height: nat
    const buffer: array<char>
    /** Everything written to the terminal so far. */
    var output: seq<char>

    ghost predicate Valid()
    {
      buffer.Length == RowStart(width, height)
    }

    /** `Renderer::new`: a blank buffer with one cell per screen position. */
    constructor(width: nat, height: nat)
      ensures Valid() && this.width == width && this.height == height
      ensures buffer[..] == Blank(width * height) && output == []
      ensures fresh(buffer)
    {
      RowStartIsProduct(width, height);
      this.width := width;
      this.height := height;
      buffer := new char[width * height](_ => ' ');
      output := [];
    }

    /** `begin_frame`: the cursor goes home and every cell is blanked. */
    method BeginFrame()
      requires Valid()
      modifies this, buffer
      ensures output == old(output) + CursorHome
      ensures buffer[..] == Blank(buffer.Length)
    {
      ResetCursor();
      ResetRenderBuffer();
    }

    /** `end_frame`: the whole buffer goes out; flushing the terminal is
        not modelled. */
    method EndFrame()
      requires Valid()
      modifies this
      ensures output == old(output) + Screen(buffer[..], width, height)
    {
      Flush();
    }

    /** `draw_window`: only the window's first pane is drawn. */
    method DrawWindow(window: Window) returns (ok: bool)
      requires Valid() && window.Valid() && window.panes != []
      modifies buffer
      ensures ok == Fits(window.panes[0].grid, width, height)
      ensures ok ==> buffer[..] == Drawn(old(buffer[..]), window.panes[0].grid, width, Rows(window.panes[0].grid, height))
    {
      ok := DrawPane(window.GetPane(0).grid);
    }

    /** `reset_render_buffer`: every cell, row by row, becomes a blank. */
    method ResetRenderBuffer()
      requires Valid()
      modifies buffer
      ensures buffer[..] == Blank(buffer.Length)
    {
      for y := 0 to height
        invariant RowStart(width, y) <= buffer.Length
        invariant forall k :: 0 <= k < RowStart(width, y) ==> buffer[k] == ' '
      {
        RowEnd(width, y, height);
        for x := 0 to width
          invariant forall k :: 0 <= k < RowStart(width, y) + x ==> buffer[k] == ' '
        {
          buffer[CellIndex(width, x, y)] := ' ';
        }
      }
    }

    /** `reset_cursor`. */
    method ResetCursor()
      modifies this
      ensures output == old(output) + CursorHome
    {
      output := output + CursorHome;
    }

    /** `flush`: every row, its cells left to right, then the move to the
        next line. */
    method Flush()
      requires Valid()
      modifies this
      ensures output == old(output) + Screen(buffer[..], width, height)
    {
      ghost var cells := buffer[..];
      for y := 0 to height
        invariant RowStart(width, y) <= |cells|
        invariant output == old(output) + Screen(cells, width, y)
      {
        RowEnd(width, y, height);
        var start := CellIndex(width, 0, y);
        var row: seq<char> := [];
        for x := 0 to width
          invariant row == cells[start..start + x]
        {
          assert cells[start..start + x + 1] == cells[start..start + x] + [cells[start + x]];
          row := row + [buffer[CellIndex(width, x, y)]];
        }
        output := output + row;
        MoveCursorToNextLine();
        AppendAssociative(old(output), Screen(cells, width, y), row);
        AppendAssociative(old(output), Screen(cells, width, y) + row, NextLine);
      }
    }

    /** `move_cursor_to_next_line`. */
    method MoveCursorToNextLine()
      modifies this
      ensures output == old(output) + NextLine
    {
      output := output + NextLine;
    }

    /** `draw_pane`: each line of the grid that has a row on the screen is
        written from the start of its row, with no clipping. A write past
        the end of the buffer panics; `ok` is false exactly then, and the
        buffer is then left as the panic found it. */
    method DrawPane(grid: Lines) returns (ok: bool)
      requires Valid()
      modifies buffer
      ensures ok == Fits(grid, width, height)
      ensures ok ==> buffer[..] == Drawn(old(buffer[..]), grid, width, Rows(grid, height))
    {
      ghost var start := buffer[..];
      var y := 0;
      while y < |grid|
        invariant y <= |grid| && y <= height
        invariant FitsUpTo(grid, width, RowStart(width, height), y)
        invariant buffer[..] == Drawn(start, grid, width, y)
      {
        if y >= height {
          break;
        }
        var line := grid[y];
        ghost var base := RowStart(width, y);
        ghost var drawn := buffer[..];
        RowEnd(width, y, height);
        var x := 0;
        while x < |line|
          invariant x <= |line| && base + x <= buffer.Length
          invariant buffer[..] == Put(drawn, base, line[..x])
        {
          var index := CellIndex(width, x, y);
          if index >= buffer.Length {
            Overrun(grid, width, height, y);
            return false;
          }
          PutStep(drawn, base, line, x);
          buffer[index] := line[x];
          x := x + 1;
        }
        LineDrawn(start, grid, width, y, drawn, x);
        y := y + 1;
      }
      assert y == Rows(grid, height);
      return true;
    }

    /** The drawing the grid evidently calls for: each line cut at the
        screen width before it is written. */
    method DrawPaneClipped(grid: Lines)
      requires Valid()
      modifies buffer
      ensures buffer[..] == ClippedDrawn(old(buffer[..]), grid, width, height)
    {
      ClippedFits(grid, width, height);
      var ok := DrawPane(Clipped(grid, width));
    }
  }

  /** A line that runs past the end of the buffer means the grid does not
      fit. */
  lemma Overrun(grid: Lines, width: nat, height: nat, y: nat)
    requires y < |grid| && y < height
    requires RowStart(width, y) + |grid[y]| > RowStart(width, height)
    ensures !Fits(grid, width, height)
  {
    assert y < Rows(grid, height);
  }

  /** Writing all of line `y` over the first `y` lines drawn is drawing the
      first `y + 1` lines. */
  lemma LineDrawn(start: seq<char>, grid: Lines, width: nat, y: nat, drawn: seq<char>, x: nat)
    requires y < |grid| && FitsUpTo(grid, width, |start|, y)
    requires drawn == Drawn(start, grid, width, y)
    requires x == |grid[y]| && RowStart(width, y) + x <= |start|
    ensures FitsUpTo(grid, width, |start|, y + 1)
    ensures Put(drawn, RowStart(width, y), grid[y][..x]) == Drawn(start, grid, width, y + 1)
  {
    assert grid[y][..x] == grid[y];
  }

  /** Writing one more character of a line. */
  lemma PutStep(cells: seq<char>, base: nat, line: seq<char>, x: nat)
    requires x < |line| && base + x < |cells|
    ensures Put(cells, base, line[..x + 1]) == Put(cells, base, line[..x])[base + x := line[x]]
  {
    var a := Put(cells, base, line[..x + 1]);
    var b := Put(cells, base, line[..x])[base + x := line[x]];
    PutCells(cells, base, line[..x + 1]);
    PutCells(cells, base, line[..x]);
    assert forall k :: 0 <= k < |a| ==> a[k] == b[k];
  }

  /** A grid whose lines are at most the width fits, and cuts leave every
      grid within the width. */
  lemma ClippedFits(grid: Lines, width: nat, height: nat)
    ensures Fits(Clipped(grid, width), width, height)
  {
    var clipped := Clipped(grid, width);
    forall y | 0 <= y < Rows(clipped, height)
      ensures RowStart(width, y) + |clipped[y]| <= RowStart(width, height)
    {
      RowEnd(width, y, height);
    }
  }

  /** Drawing lines no longer than the width writes each line's characters
      into its own row and leaves every other cell as it was. */
  lemma {:induction false} DrawnCells(cells: seq<char>, grid: Lines, width: nat, height: nat, n: nat)
    requires n <= Rows(grid, height) && |cells| == RowStart(width, height)
    requires forall y :: 0 <= y < n ==> |grid[y]| <= width
    ensures FitsUpTo(grid, width, |cells|, n)
    ensures forall x, y :: 0 <= x < width && 0 <= y < height ==> CellIndex(width, x, y) < |cells|
    ensures forall x, y :: 0 <= x < width && 0 <= y < height ==>
      Drawn(cells, grid, width, n)[CellIndex(width, x, y)]
        == if y < n && x < |grid[y]| then grid[y][x] else cells[CellIndex(width, x, y)]
    decreases n
  {
    forall x, y | 0 <= x < width && 0 <= y < height
      ensures CellIndex(width, x, y) < |cells|
    {
      CellIndexInBounds(width, height, x, y);
    }
    forall y | 0 <= y < n
      ensures RowStart(width, y) + |grid[y]| <= |cells|
    {
      RowEnd(width, y, height);
    }
    if n > 0 {
      DrawnCells(cells, grid, width, height, n - 1);
      var line := grid[n - 1];
      PutCells(Drawn(cells, grid, width, n - 1), RowStart(width, n - 1), line);
      forall x, y | 0 <= x < width && 0 <= y < height
        ensures Drawn(cells, grid, width, n)[CellIndex(width, x, y)]
          == if y < n && x < |grid[y]| then grid[y][x] else cells[CellIndex(width, x, y)]
      {
        InRow(width, x, y, n - 1, |line|);
      }
    }
  }

  /** After `begin_frame` and `draw_pane`, when every line fits the width,
      each cell shows the grid's character there or a blank. */
  lemma FrameShowsGrid(grid: Lines, width: nat, height: nat)
    requires forall y :: 0 <= y < |grid| ==> |grid[y]| <= width
    ensures Fits(grid, width, height)
    ensures forall x, y :: 0 <= x < width && 0 <= y < height ==> CellIndex(width, x, y) < RowStart(width, height)
    ensures forall x, y :: 0 <= x < width && 0 <= y < height ==>
      Drawn(Blank(RowStart(width, height)), grid, width, Rows(grid, height))[CellIndex(width, x, y)] == Cell(grid, x, y)
  {
    DrawnCells(Blank(RowStart(width, height)), grid, width, height, Rows(grid, height));
  }

  /** With every line cut at the width, any grid is drawn as intended: each
      cell shows the grid's character there or a blank. */
  lemma ClippedCells(grid: Lines, width: nat, height: nat)
    ensures forall x, y :: 0 <= x < width && 0 <= y < height ==> CellIndex(width, x, y) < RowStart(width, height)
    ensures forall x, y :: 0 <= x < width && 0 <= y < height ==>
      ClippedDrawn(Blank(RowStart(width, height)), grid, width, height)[CellIndex(width, x, y)] == Cell(grid, x, y)
  {
    var clipped := Clipped(grid, width);
    DrawnCells(Blank(RowStart(width, height)), clipped, width, height, Rows(grid, height));
  }

  /** The text of a frame has one row of the width plus the move to the
      next line for each row. */
  lemma {:induction false} ScreenLength(cells: seq<char>, width: nat, rows: nat)
    requires RowStart(width, rows) <= |cells|
    ensures |Screen(cells, width, rows)| == RowStart(width + |NextLine|, rows)
    decreases rows
  {
    if rows > 0 {
      RowEnd(width, rows - 1, rows);
      ScreenLength(cells, width, rows - 1);
    }
  }

  /** The text of a frame puts column `x` of row `y` at its screen position:
      the cell for a column on the screen, then the move to the next line. */
  lemma {:induction false} ScreenAt(cells: seq<char>, width: nat, rows: nat, x: nat, y: nat)
    requires RowStart(width, rows) <= |cells| && x < width + |NextLine| && y < rows
    ensures x < width ==> CellIndex(width, x, y) < |cells|
    ensures ScreenPosition(width, x, y) < |Screen(cells, width, rows)|
    ensures Screen(cells, width, rows)[ScreenPosition(width, x, y)]
      == if x < width then cells[CellIndex(width, x, y)] else NextLine[x - width]
    decreases rows
  {
    var wide := width + |NextLine|;
    RowEnd(width, y, rows);
    RowEnd(wide, y, rows);
    ScreenLength(cells, width, rows);
    if y < rows - 1 {
      ScreenAt(cells, width, rows - 1, x, y);
    } else {
      RowEnd(width, rows - 1, rows);
      ScreenLength(cells, width, rows - 1);
    }
  }

  /** A whole redraw, `begin_frame`, `draw_pane` and `end_frame`, of a grid
      whose lines fit the width: the text sent to the terminal is the move
      home and then, at each screen position, the grid's character or a
      blank, each row ended by the move to the next line. */
  lemma RedrawText(grid: Lines, width: nat, height: nat, x: nat, y: nat)
    requires forall y :: 0 <= y < |grid| ==> |grid[y]| <= width
    requires x < width + |NextLine| && y < height
    ensures Fits(grid, width, height)
    ensures var cells := Drawn(Blank(RowStart(width, height)), grid, width, Rows(grid, height));
      var text := CursorHome + Screen(cells, width, height);
      && |text| == |CursorHome| + RowStart(width + |NextLine|, height)
      && |CursorHome| + ScreenPosition(width, x, y) < |text|
      && text[|CursorHome| + ScreenPosition(width, x, y)] == if x < width then Cell(grid, x, y) else NextLine[x - width]
  {
    FrameShowsGrid(grid, width, height);
    var cells := Drawn(Blank(RowStart(width, height)), grid, width, Rows(grid, height));
    ScreenLength(cells, width, height);
    ScreenAt(cells, width, height, x, y);
  }

  /** A line longer than the width is not cut: on a 2 by 2 screen the third
      character of the first line shows in the second row, where the grid
      has no line. */
  lemma LongLineSpills()
    ensures Fits([['a', 'b', 'c']], 2, 2)
    ensures Drawn(Blank(4), [['a', 'b', 'c']], 2, 1)[CellIndex(2, 0, 1)] == 'c'
    ensures Cell([['a', 'b', 'c']], 0, 1) == ' '
  {
    assert RowStart(2, 2) == 4;
    assert CellIndex(2, 0, 1) == 2;
    assert Rows([['a', 'b', 'c']], 2) == 1;
    PutCells(Blank(4), 0, ['a', 'b', 'c']);
  }

  /** On the last row the same line runs past the end of the buffer, and
      the write panics. */
  lemma LongLineOnLastRowOverruns()
    ensures !Fits([['a', 'b', 'c']], 2, 1)
  {
    assert RowStart(2, 1) == 2;
    Overrun([['a', 'b', 'c']], 2, 1, 0);
  }
}
