/** The text terminal of src/lib/prdio.h: cursor globals and a screen buffer that are changed in place. */
module Terminal {
  import opened Limits
  import opened ScreenModel

  class Console {
    const buffer: array<Cell>
    var row: nat
    var column: nat
    var color: nat

    ghost predicate Valid()
      reads this
    {
      buffer.Length == CELLS && row < SCREEN_HEIGHT && column < SCREEN_WIDTH
    }

    ghost function State(): (s: Screen)
      reads this, buffer
    {
      Screen(buffer[..], row, column, color)
    }

    constructor (color: nat)
      ensures Valid() && fresh(buffer) && this.color == color
    {
      buffer := new Cell[CELLS](_ => Cell(' ', 0));
      row, column := 0, 0;
      this.color := color;
    }

    method SetColor(fg: nat, bg: nat)
      requires Valid()
      modifies `color
      ensures Valid() && State() == Show(old(State()), Color(ColorByte(fg, bg)))
      ensures color < 256 && color % 16 == fg % 16 && color / 16 == bg % 16
    {
      color := bg % 16 * 16 + fg % 16;
    }

    method Clear()
      requires Valid()
      modifies this, buffer
      ensures Valid() && State() == Cleared(old(color))
      ensures row == column == 0 && color == old(color) && forall i :: 0 <= i < CELLS ==> buffer[i] == Cell(' ', color)
    {
      for y := 0 to SCREEN_HEIGHT
        invariant color == old(color)
        invariant forall i :: 0 <= i < y * SCREEN_WIDTH ==> buffer[i] == Cell(' ', color)
      {
        for x := 0 to SCREEN_WIDTH
          invariant color == old(color)
          invariant forall i :: 0 <= i < y * SCREEN_WIDTH + x ==> buffer[i] == Cell(' ', color)
        {
          buffer[y * SCREEN_WIDTH + x] := Cell(' ', color);
        }
      }
      row, column := 0, 0;
    }

    method ScrollUp()
      requires buffer.Length == CELLS
      modifies `row, `column, buffer
      ensures Valid() && State() == Scroll(old(State()))
      ensures forall i :: 0 <= i < CELLS - SCREEN_WIDTH ==> buffer[i] == old(buffer[i + SCREEN_WIDTH])
      ensures forall i :: CELLS - SCREEN_WIDTH <= i < CELLS ==> buffer[i] == Cell(' ', color)
    {
      for y := 1 to SCREEN_HEIGHT
        invariant forall i :: 0 <= i < (y - 1) * SCREEN_WIDTH ==> buffer[i] == old(buffer[i + SCREEN_WIDTH])
        invariant forall i :: (y - 1) * SCREEN_WIDTH <= i < CELLS ==> buffer[i] == old(buffer[i])
      {
        for x := 0 to SCREEN_WIDTH
          invariant forall i :: 0 <= i < (y - 1) * SCREEN_WIDTH + x ==> buffer[i] == old(buffer[i + SCREEN_WIDTH])
          invariant forall i :: (y - 1) * SCREEN_WIDTH + x <= i < CELLS ==> buffer[i] == old(buffer[i])
        {
          buffer[(y - 1) * SCREEN_WIDTH + x] := buffer[y * SCREEN_WIDTH + x];
        }
      }
      for x := 0 to SCREEN_WIDTH
        invariant forall i :: 0 <= i < CELLS - SCREEN_WIDTH ==> buffer[i] == old(buffer[i + SCREEN_WIDTH])
        invariant forall i :: CELLS - SCREEN_WIDTH <= i < CELLS - SCREEN_WIDTH + x ==> buffer[i] == Cell(' ', color)
      {
        buffer[(SCREEN_HEIGHT - 1) * SCREEN_WIDTH + x] := Cell(' ', color);
      }
      row, column := SCREEN_HEIGHT - 1, 0;
      assert buffer[..] == old(buffer[..])[SCREEN_WIDTH..] + Blanks(SCREEN_WIDTH, color);
    }

    method TerminalPutChar(c: char)
      requires Valid()
      modifies `row, `column, buffer
      ensures Valid() && State() == PutChar(old(State()), c)
    {
      if c == '\n' {
        column := 0;
        row := row + 1;
        if row == SCREEN_HEIGHT {
          ScrollUp();
        }
      } else if c == BACKSPACE {
        if column > 0 {
          column := column - 1;
          buffer[row * SCREEN_WIDTH + column] := Cell(' ', color);
        } else if row > 0 {
          row := row - 1;
          column := SCREEN_WIDTH - 1;
          buffer[row * SCREEN_WIDTH + column] := Cell(' ', color);
        }
      } else {
        buffer[row * SCREEN_WIDTH + column] := Cell(c, color);
        column := column + 1;
        if column == SCREEN_WIDTH {
          column := 0;
          row := row + 1;
          if row == SCREEN_HEIGHT {
            ScrollUp();
          }
        }
      }
    }

    /** `terminal_writestring`. */
    method WriteString(data: string)
      requires Valid()
      modifies `row, `column, buffer
      ensures Valid() && State() == ShowAll(old(State()), Text(data))
    {
      assert Text(data)[..0] == [];
      for i := 0 to |data|
        invariant Valid() && State() == ShowAll(old(State()), Text(data)[..i])
      {
        assert Text(data)[..i + 1][..i] == Text(data)[..i];
        TerminalPutChar(data[i]);
      }
      assert Text(data)[..|data|] == Text(data);
    }

    /** Clear, then print: the buffer shows the bottom 25 rows of everything printed. */
    method Page(data: string)
      requires Valid()
      modifies this, buffer
      ensures Valid() && State() == Window(WriteAll(Start(old(color)), Text(data)))
    {
      Clear();
      WriteString(data);
      ScreenIsWindow(old(color), Text(data));
    }
  }
}
