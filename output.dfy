/**
 * What the renderers write to the terminal, as abstract commands instead of ANSI bytes,
 * together with the terminal's reading of those commands: a screen of glyphs and a cursor.
 */
module Output {
  import opened Primitives

  /**
   * `Cell` of `src/terminal_sink/diff.rs`: one terminal cell showing two stacked pixels, drawn
   * as an upper half block in the `top` colour on a background in the `bottom` colour.
   */
  datatype Cell = Cell(top: Rgb, bottom: Rgb)

  /** The all-zero `Cell`, which `PodMatrix::resize` writes into new cells. */
  const BlankCell: Cell := Cell(Black, Black)

  datatype Command =
    | Clear                        // `termion::clear::All`
    | Goto(x: u16, y: u16)         // `cursor_goto(x, y)`: move to column x, row y, counted from 0
    | Draw(cell: Cell)             // `Cell::draw`: a half block, foreground `top`, background `bottom`
    | DrawForeground(colour: Rgb)  // a half block with a foreground colour only

  /** The `Vec<u8>` the renderers fill before it is written to the terminal in one go. */
  class CommandBuffer {
    var commands: seq<Command>

    constructor ()
      ensures commands == []
    {
      commands := [];
    }

    /** `Vec::clear` */
    method Clear()
      modifies this
      ensures commands == []
    {
      commands := [];
    }

    /** Appending the bytes of one command. */
    method Push(c: Command)
      modifies this
      ensures commands == old(commands) + [c]
    {
      commands := commands + [c];
    }
  }

  lemma AppendAssoc<T>(a: seq<T>, b: seq<T>, c: seq<T>)
    ensures (a + b) + c == a + (b + c)
  {
  }

  /** What a terminal cell shows. */
  datatype Glyph = HalfBlock(cell: Cell) | UpperHalf(colour: Rgb)

  /** A terminal: the glyph at each (column, row) that has one, and the cursor. */
  datatype Term = Term(screen: map<(int, int), Glyph>, cursor: (int, int))

  /**
   * How a terminal obeys one command: a half block is one column wide, so drawing moves the
   * cursor right.  `cursor_goto` saturates when it converts to 1-based positions, so a
   * move to column or row 65535 lands where one to 65534 does; that last column and row are
   * not modelled, and the screen lemmas only move the cursor within `Fits`.
   */
  function Obey(t: Term, c: Command): (t': Term)
    ensures c.Goto? ==> t'.screen == t.screen && t'.cursor == (c.x, c.y)
    ensures c.Draw? ==> t'.screen == t.screen[t.cursor := HalfBlock(c.cell)] && t'.cursor == (t.cursor.0 + 1, t.cursor.1)
  {
    match c
    case Clear => Term(map[], t.cursor)
    case Goto(x, y) => Term(t.screen, (x, y))
    case Draw(cell) => Term(t.screen[t.cursor := HalfBlock(cell)], (t.cursor.0 + 1, t.cursor.1))
    case DrawForeground(colour) => Term(t.screen[t.cursor := UpperHalf(colour)], (t.cursor.0 + 1, t.cursor.1))
  }

  /** A terminal obeying a command sequence from first to last. */
  function Exec(t: Term, cmds: seq<Command>): Term
  {
    if cmds == [] then t else Obey(Exec(t, cmds[..|cmds| - 1]), cmds[|cmds| - 1])
  }

  lemma {:induction false} ExecAppend(t: Term, a: seq<Command>, b: seq<Command>)
    ensures Exec(t, a + b) == Exec(Exec(t, a), b)
  {
    if b != [] {
      assert (a + b)[..|a + b| - 1] == a + b[..|b| - 1];
      ExecAppend(t, a, b[..|b| - 1]);
    } else {
      assert a + b == a;
    }
  }
}
