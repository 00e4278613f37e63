/**
 * Properties of the diffing renderer of `src/terminal_sink/diff.rs`: re-rendering a frame
 * sends nothing, a full redraw leaves the terminal showing exactly the frame, and the diff
 * path takes a terminal showing the previous frame to one showing the new frame.
 */
module DiffLemmas {
  import opened Primitives
  import opened Layout
  import opened Resize
  import opened Output
  import opened Diff

  /** No cell of `cells` would change if `img` were rendered over it on the diff path. */
  ghost predicate Settled(cells: seq<Cell>, img: ImageRef)
    requires Renderable(img)
  {
    |cells| == img.size.0 * Rows(img) &&
    forall r, c | 0 <= r < Rows(img) && 0 <= c < img.size.0 :: !ChangedAt(img, cells, r, c)
  }

  lemma {:induction false} SettledRowIsSilent(img: ImageRef, cells: seq<Cell>, offset: (u16, u16), r: int, n: nat)
    requires Renderable(img) && Settled(cells, img) && 0 <= r < Rows(img) && n <= img.size.0
    ensures DiffRow(img, cells, offset, r, n) == []
  {
    if n > 0 {
      SettledRowIsSilent(img, cells, offset, r, n - 1);
      assert !ChangedAt(img, cells, r, n - 1);
    }
  }

  lemma {:induction false} SettledRowsAreSilent(img: ImageRef, cells: seq<Cell>, offset: (u16, u16), n: nat)
    requires Renderable(img) && Settled(cells, img) && n <= Rows(img)
    ensures DiffRows(img, cells, offset, n) == []
  {
    if n > 0 {
      SettledRowsAreSilent(img, cells, offset, n - 1);
      SettledRowIsSilent(img, cells, offset, n - 1, img.size.0);
    }
  }

  /** Rendering an image over a settled frame on the diff path sends nothing and changes no cell. */
  lemma SettledIsSilent(img: ImageRef, cells: seq<Cell>, next: seq<Cell>, offset: (u16, u16))
    requires Renderable(img) && Settled(cells, img)
    ensures DiffCommands(img, cells, offset) == []
    ensures IsDiffOf(next, cells, img) ==> next == cells
  {
    SettledRowsAreSilent(img, cells, offset, Rows(img));
    if IsDiffOf(next, cells, img) {
      var w, rows := img.size.0, Rows(img);
      forall k | 0 <= k < |cells|
        ensures next[k] == cells[k]
      {
        var r, c := IdxCovers(w, rows, k);
        assert !ChangedAt(img, cells, r, c);
        assert CellAt(next, w, r, c) == DiffCell(img, CellAt(cells, w, r, c), c, r);
      }
    }
  }

  /** The frame a full redraw leaves is settled. */
  lemma OverwriteSettles(img: ImageRef, cells: seq<Cell>)
    requires Renderable(img) && IsOverwriteOf(cells, img)
    ensures Settled(cells, img)
  {
    forall r, c | 0 <= r < Rows(img) && 0 <= c < img.size.0
      ensures !ChangedAt(img, cells, r, c)
    {
      assert CellAt(cells, img.size.0, r, c) == OverwriteCell(img, c, r);
    }
  }

  /** The frame the diff path leaves is settled too. */
  lemma DiffSettles(img: ImageRef, before: seq<Cell>, cells: seq<Cell>)
    requires Renderable(img) && IsDiffOf(cells, before, img)
    ensures Settled(cells, img)
  {
    forall r, c | 0 <= r < Rows(img) && 0 <= c < img.size.0
      ensures !ChangedAt(img, cells, r, c)
    {
      assert CellAt(cells, img.size.0, r, c) == DiffCell(img, CellAt(before, img.size.0, r, c), c, r);
    }
  }

  /**
   * Whatever `render` did last with an image, rendering the same image again without forcing
   * a redraw sends nothing and leaves the frame as it is.
   */
  lemma RerenderIsSilent(img: ImageRef, before: seq<Cell>, cells: seq<Cell>, next: seq<Cell>, offset: (u16, u16))
    requires Renderable(img)
    requires IsOverwriteOf(cells, img) || IsDiffOf(cells, before, img)
    ensures DiffCommands(img, cells, offset) == []
    ensures IsDiffOf(next, cells, img) ==> next == cells
  {
    if IsOverwriteOf(cells, img) {
      OverwriteSettles(img, cells);
    } else {
      DiffSettles(img, before, cells);
    }
    SettledIsSilent(img, cells, next, offset);
  }

  /**
   * The commands that take a terminal from the `w`-wide frame `before` to `after`, cell (c, r):
   * nothing if the cell is unchanged, else a cursor move unless the cell to its left was sent,
   * then the new cell.  This depends on the two frames only, not on how `after` was computed.
   */
  function FrameDiffCell(before: seq<Cell>, after: seq<Cell>, w: nat, offset: (u16, u16), r: int, c: int): seq<Command>
    requires 0 <= r < 0x1_0000 && 0 <= c < w <= 0x1_0000
  {
    if CellAt(after, w, r, c) == CellAt(before, w, r, c) then []
    else
      (if c == 0 || CellAt(after, w, r, c - 1) == CellAt(before, w, r, c - 1) then [Goto(AddU16(offset.0, c), AddU16(offset.1, r))] else []) +
      [Draw(CellAt(after, w, r, c))]
  }

  function FrameDiffRow(before: seq<Cell>, after: seq<Cell>, w: nat, offset: (u16, u16), r: int, n: nat): seq<Command>
    requires 0 <= r < 0x1_0000 && n <= w <= 0x1_0000
  {
    if n == 0 then [] else FrameDiffRow(before, after, w, offset, r, n - 1) + FrameDiffCell(before, after, w, offset, r, n - 1)
  }

  function FrameDiffRows(before: seq<Cell>, after: seq<Cell>, w: nat, offset: (u16, u16), n: nat): seq<Command>
    requires n <= 0x1_0000 && w <= 0x1_0000
  {
    if n == 0 then [] else FrameDiffRows(before, after, w, offset, n - 1) + FrameDiffRow(before, after, w, offset, n - 1, w)
  }

  lemma {:induction false} DiffRowIsFrameDiff(img: ImageRef, before: seq<Cell>, after: seq<Cell>, offset: (u16, u16), r: int, n: nat)
    requires Renderable(img) && IsDiffOf(after, before, img) && 0 <= r < Rows(img) && n <= img.size.0
    ensures DiffRow(img, before, offset, r, n) == FrameDiffRow(before, after, img.size.0, offset, r, n)
  {
    if n > 0 {
      DiffRowIsFrameDiff(img, before, after, offset, r, n - 1);
      var w := img.size.0;
      assert CellAt(after, w, r, n - 1) == DiffCell(img, CellAt(before, w, r, n - 1), n - 1, r);
      if n > 1 {
        assert CellAt(after, w, r, n - 2) == DiffCell(img, CellAt(before, w, r, n - 2), n - 2, r);
      }
      assert CellCommands(img, before, offset, r, n - 1) == FrameDiffCell(before, after, w, offset, r, n - 1);
    }
  }

  /** Row by row agreement of the two command sequences gives agreement of their first n rows. */
  lemma {:induction false} DiffRowsAreFrameDiff(img: ImageRef, before: seq<Cell>, after: seq<Cell>, offset: (u16, u16), n: nat)
    requires Renderable(img) && |before| == img.size.0 * Rows(img) && n <= Rows(img)
    requires forall r | 0 <= r < n :: DiffRow(img, before, offset, r, img.size.0) == FrameDiffRow(before, after, img.size.0, offset, r, img.size.0)
    ensures DiffRows(img, before, offset, n) == FrameDiffRows(before, after, img.size.0, offset, n)
  {
    var w := img.size.0;
    if n == 0 {
      assert DiffRows(img, before, offset, n) == [] == FrameDiffRows(before, after, w, offset, n);
    } else {
      DiffRowsAreFrameDiff(img, before, after, offset, n - 1);
      var row := DiffRow(img, before, offset, n - 1, w);
      assert row == FrameDiffRow(before, after, w, offset, n - 1, w);
      calc {
        DiffRows(img, before, offset, n);
        DiffRows(img, before, offset, n - 1) + row;
        FrameDiffRows(before, after, w, offset, n - 1) + row;
        FrameDiffRows(before, after, w, offset, n);
      }
    }
  }

  /** The diff path sends exactly the commands determined by the previous and the new frame. */
  lemma DiffCommandsAreFrameDiff(img: ImageRef, before: seq<Cell>, after: seq<Cell>, offset: (u16, u16))
    requires Renderable(img) && IsDiffOf(after, before, img)
    ensures DiffCommands(img, before, offset) == FrameDiffRows(before, after, img.size.0, offset, Rows(img))
  {
    forall r | 0 <= r < Rows(img)
      ensures DiffRow(img, before, offset, r, img.size.0) == FrameDiffRow(before, after, img.size.0, offset, r, img.size.0)
    {
      DiffRowIsFrameDiff(img, before, after, offset, r, img.size.0);
    }
    DiffRowsAreFrameDiff(img, before, after, offset, Rows(img));
  }

  /** The draw commands of row r of the frame `cells`. */
  function FrameRow(cells: seq<Cell>, w: nat, r: int): (row: seq<Command>)
    ensures |row| == w && forall c | 0 <= c < w :: row[c] == Draw(CellAt(cells, w, r, c))
  {
    seq(w, c requires 0 <= c < w => Draw(CellAt(cells, w, r, c)))
  }

  /** The commands that draw the first n rows of the frame `cells`, each after a cursor move to its start. */
  function FrameRows(cells: seq<Cell>, w: nat, offset: (u16, u16), n: nat): seq<Command>
    requires n <= 0x1_0000
  {
    if n == 0 then [] else FrameRows(cells, w, offset, n - 1) + [Goto(AddU16(offset.0, 0), AddU16(offset.1, n - 1))] + FrameRow(cells, w, n - 1)
  }

  lemma {:induction false} OverwriteRowsAreFrameRows(img: ImageRef, cells: seq<Cell>, offset: (u16, u16), n: nat)
    requires Renderable(img) && IsOverwriteOf(cells, img) && n <= Rows(img)
    ensures OverwriteRows(img, offset, n) == FrameRows(cells, img.size.0, offset, n)
  {
    if n > 0 {
      OverwriteRowsAreFrameRows(img, cells, offset, n - 1);
      assert OverwriteRow(img, n - 1) == FrameRow(cells, img.size.0, n - 1);
    }
  }

  /** A full redraw sends a clear, then the frame it stores, row by row. */
  lemma OverwriteCommandsAreFrameRows(img: ImageRef, cells: seq<Cell>, offset: (u16, u16))
    requires Renderable(img) && IsOverwriteOf(cells, img)
    ensures OverwriteCommands(img, offset) == [Clear] + FrameRows(cells, img.size.0, offset, Rows(img))
  {
    OverwriteRowsAreFrameRows(img, cells, offset, Rows(img));
  }

  /** Where the terminal shows cell (c, r) of a frame drawn at `offset`. */
  function Pos(offset: (u16, u16), r: int, c: int): (int, int) {
    (offset.0 + c, offset.1 + r)
  }

  /** Whether screen position `p` lies inside a `w` by `rows` frame drawn at `offset`. */
  predicate InFrame(p: (int, int), offset: (u16, u16), w: int, rows: int) {
    offset.0 <= p.0 < offset.0 + w && offset.1 <= p.1 < offset.1 + rows
  }

  /** A `w` by `rows` frame at `offset` fits below the largest cursor position, so no `offset + i` wraps. */
  predicate Fits(w: nat, rows: nat, offset: (u16, u16)) {
    offset.0 + w <= 0x1_0000 && offset.1 + rows <= 0x1_0000
  }

  /** The terminal shows the `w` by `rows` frame `cells` at `offset`. */
  ghost predicate Shows(t: Term, cells: seq<Cell>, w: nat, rows: nat, offset: (u16, u16)) {
    forall r, c | 0 <= r < rows && 0 <= c < w ::
      Pos(offset, r, c) in t.screen && t.screen[Pos(offset, r, c)] == HalfBlock(CellAt(cells, w, r, c))
  }

  /** `t` agrees with `t0` everywhere outside the frame. */
  ghost predicate SameOutside(t0: Term, t: Term, offset: (u16, u16), w: int, rows: int) {
    (forall p | p in t.screen && !InFrame(p, offset, w, rows) :: p in t0.screen && t.screen[p] == t0.screen[p]) &&
    (forall p | p in t0.screen && !InFrame(p, offset, w, rows) :: p in t.screen)
  }

  lemma ExecOne(t: Term, c: Command)
    ensures Exec(t, [c]) == Obey(t, c)
  {
    assert [c][..0] == [];
  }

  /** Cell (c, r) part-way through a pass that has visited rows before j, and row j up to column i. */
  function Mixed(before: seq<Cell>, after: seq<Cell>, w: nat, j: int, i: int, r: int, c: int): Cell {
    if r < j || (r == j && c < i) then CellAt(after, w, r, c) else CellAt(before, w, r, c)
  }

  /**
   * A terminal that showed `before`, part-way through the diff commands: visited cells show
   * their new value, the others their old one, nothing outside the frame has changed, and after
   * a sent cell the cursor stands just right of it.
   */
  ghost predicate DiffProgress(t0: Term, t: Term, before: seq<Cell>, after: seq<Cell>, w: nat, rows: nat, offset: (u16, u16), j: int, i: int) {
    SameOutside(t0, t, offset, w, rows) &&
    (forall r, c | 0 <= r < rows && 0 <= c < w ::
      Pos(offset, r, c) in t.screen && t.screen[Pos(offset, r, c)] == HalfBlock(Mixed(before, after, w, j, i, r, c))) &&
    (0 < i && CellAt(after, w, j, i - 1) != CellAt(before, w, j, i - 1) ==> t.cursor == Pos(offset, j, i))
  }

  /** Drawing one cell after moving the cursor onto it. */
  lemma ExecMoveDraw(t: Term, offset: (u16, u16), j: int, i: int, cell: Cell)
    requires 0 <= offset.0 + i < 0x1_0000 && 0 <= offset.1 + j < 0x1_0000 && 0 <= i && 0 <= j
    ensures Exec(t, [Goto(AddU16(offset.0, i), AddU16(offset.1, j)), Draw(cell)]) ==
      Term(t.screen[Pos(offset, j, i) := HalfBlock(cell)], Pos(offset, j, i + 1))
  {
    var move := Goto(AddU16(offset.0, i), AddU16(offset.1, j));
    assert [move, Draw(cell)] == [move] + [Draw(cell)];
    ExecAppend(t, [move], [Draw(cell)]);
    ExecOne(t, move);
    ExecOne(Obey(t, move), Draw(cell));
  }

  /** The commands of a changed cell: a cursor move unless the cursor is already there, then one draw. */
  lemma ExecChangedCell(t: Term, before: seq<Cell>, after: seq<Cell>, w: nat, rows: nat, offset: (u16, u16), j: int, i: int)
    requires Fits(w, rows, offset) && 0 <= j < rows && 0 <= i < w
    requires CellAt(after, w, j, i) != CellAt(before, w, j, i)
    requires 0 < i && CellAt(after, w, j, i - 1) != CellAt(before, w, j, i - 1) ==> t.cursor == Pos(offset, j, i)
    ensures Exec(t, FrameDiffCell(before, after, w, offset, j, i)) ==
      Term(t.screen[Pos(offset, j, i) := HalfBlock(CellAt(after, w, j, i))], Pos(offset, j, i + 1))
  {
    var draw := Draw(CellAt(after, w, j, i));
    if i == 0 || CellAt(after, w, j, i - 1) == CellAt(before, w, j, i - 1) {
      assert FrameDiffCell(before, after, w, offset, j, i) == [Goto(AddU16(offset.0, i), AddU16(offset.1, j)), draw];
      ExecMoveDraw(t, offset, j, i, CellAt(after, w, j, i));
    } else {
      assert FrameDiffCell(before, after, w, offset, j, i) == [draw];
      ExecOne(t, draw);
    }
  }

  /** Drawing a changed cell with the cursor on it extends the diff progress by one cell. */
  lemma DiffProgressDraw(t0: Term, t: Term, before: seq<Cell>, after: seq<Cell>, w: nat, rows: nat, offset: (u16, u16), j: int, i: int)
    requires 0 <= j < rows && 0 <= i < w
    requires DiffProgress(t0, t, before, after, w, rows, offset, j, i)
    requires CellAt(after, w, j, i) != CellAt(before, w, j, i)
    ensures DiffProgress(t0, Term(t.screen[Pos(offset, j, i) := HalfBlock(CellAt(after, w, j, i))], Pos(offset, j, i + 1)),
      before, after, w, rows, offset, j, i + 1)
  {
    var t2 := Term(t.screen[Pos(offset, j, i) := HalfBlock(CellAt(after, w, j, i))], Pos(offset, j, i + 1));
    forall r, c | 0 <= r < rows && 0 <= c < w
      ensures Pos(offset, r, c) in t2.screen && t2.screen[Pos(offset, r, c)] == HalfBlock(Mixed(before, after, w, j, i + 1, r, c))
    {
      if r != j || c != i {
        assert Pos(offset, r, c) != Pos(offset, j, i);
      }
    }
  }

  /** Passing over an unchanged cell extends the diff progress by one cell. */
  lemma DiffProgressSkip(t0: Term, t: Term, before: seq<Cell>, after: seq<Cell>, w: nat, rows: nat, offset: (u16, u16), j: int, i: int)
    requires DiffProgress(t0, t, before, after, w, rows, offset, j, i)
    requires CellAt(after, w, j, i) == CellAt(before, w, j, i)
    ensures DiffProgress(t0, t, before, after, w, rows, offset, j, i + 1)
  {
    forall r, c | 0 <= r < rows && 0 <= c < w
      ensures Mixed(before, after, w, j, i + 1, r, c) == Mixed(before, after, w, j, i, r, c)
    {
    }
  }

  /** The commands of one cell keep the diff progress going; `t'` is the terminal once they are obeyed. */
  lemma ExecFrameDiffCell(t0: Term, t: Term, t': Term, before: seq<Cell>, after: seq<Cell>, w: nat, rows: nat, offset: (u16, u16), j: int, i: int)
    requires Fits(w, rows, offset) && 0 <= j < rows && 0 <= i < w
    requires DiffProgress(t0, t, before, after, w, rows, offset, j, i)
    requires t' == Exec(t, FrameDiffCell(before, after, w, offset, j, i))
    ensures DiffProgress(t0, t', before, after, w, rows, offset, j, i + 1)
  {
    if CellAt(after, w, j, i) == CellAt(before, w, j, i) {
      assert FrameDiffCell(before, after, w, offset, j, i) == [];
      DiffProgressSkip(t0, t, before, after, w, rows, offset, j, i);
    } else {
      ExecChangedCell(t, before, after, w, rows, offset, j, i);
      DiffProgressDraw(t0, t, before, after, w, rows, offset, j, i);
    }
  }

  lemma ExecFrameDiffRowSplit(t: Term, before: seq<Cell>, after: seq<Cell>, w: nat, offset: (u16, u16), j: int, n: nat)
    requires 0 <= j < 0x1_0000 && 0 < n <= w <= 0x1_0000
    ensures Exec(t, FrameDiffRow(before, after, w, offset, j, n)) ==
      Exec(Exec(t, FrameDiffRow(before, after, w, offset, j, n - 1)), FrameDiffCell(before, after, w, offset, j, n - 1))
  {
    ExecAppend(t, FrameDiffRow(before, after, w, offset, j, n - 1), FrameDiffCell(before, after, w, offset, j, n - 1));
  }

  /** One more cell of row j keeps the diff progress going; `t1` and `t2` are the terminal before and after that cell. */
  lemma ExecFrameDiffRowStep(t0: Term, t: Term, t1: Term, t2: Term, before: seq<Cell>, after: seq<Cell>, w: nat, rows: nat, offset: (u16, u16), j: int, n: nat)
    requires Fits(w, rows, offset) && 0 <= j < rows && 0 < n <= w
    requires t1 == Exec(t, FrameDiffRow(before, after, w, offset, j, n - 1))
    requires t2 == Exec(t, FrameDiffRow(before, after, w, offset, j, n))
    requires DiffProgress(t0, t1, before, after, w, rows, offset, j, n - 1)
    ensures DiffProgress(t0, t2, before, after, w, rows, offset, j, n)
  {
    ExecFrameDiffRowSplit(t, before, after, w, offset, j, n);
    ExecFrameDiffCell(t0, t1, t2, before, after, w, rows, offset, j, n - 1);
  }

  /** Row j's commands, obeyed from the start of the row, carry the diff progress to the end of the row; `t'` is the terminal afterwards. */
  lemma {:induction false} ExecFrameDiffRow(t0: Term, t: Term, t': Term, before: seq<Cell>, after: seq<Cell>, w: nat, rows: nat, offset: (u16, u16), j: int, n: nat)
    requires Fits(w, rows, offset) && 0 <= j < rows && n <= w
    requires DiffProgress(t0, t, before, after, w, rows, offset, j, 0)
    requires t' == Exec(t, FrameDiffRow(before, after, w, offset, j, n))
    ensures DiffProgress(t0, t', before, after, w, rows, offset, j, n)
    decreases n
  {
    if n > 0 {
      var t1 := Exec(t, FrameDiffRow(before, after, w, offset, j, n - 1));
      ExecFrameDiffRow(t0, t, t1, before, after, w, rows, offset, j, n - 1);
      assert SameOutside(t0, t1, offset, w, rows);
      assert forall r, c | 0 <= r < rows && 0 <= c < w ::
        Pos(offset, r, c) in t1.screen && t1.screen[Pos(offset, r, c)] == HalfBlock(Mixed(before, after, w, j, n - 1, r, c));
      ExecFrameDiffRowStep(t0, t, t1, t', before, after, w, rows, offset, j, n);
    } else {
      assert FrameDiffRow(before, after, w, offset, j, n) == [];
    }
  }

  lemma ExecFrameDiffRowsSplit(t: Term, before: seq<Cell>, after: seq<Cell>, w: nat, offset: (u16, u16), n: nat)
    requires 0 < n <= 0x1_0000 && w <= 0x1_0000
    ensures Exec(t, FrameDiffRows(before, after, w, offset, n)) ==
      Exec(Exec(t, FrameDiffRows(before, after, w, offset, n - 1)), FrameDiffRow(before, after, w, offset, n - 1, w))
  {
    ExecAppend(t, FrameDiffRows(before, after, w, offset, n - 1), FrameDiffRow(before, after, w, offset, n - 1, w));
  }

  lemma ExecFrameDiffRowsStep(t0: Term, t: Term, t': Term, before: seq<Cell>, after: seq<Cell>, w: nat, rows: nat, offset: (u16, u16), n: nat)
    requires Fits(w, rows, offset) && 0 < n <= rows
    requires t == Exec(t0, FrameDiffRows(before, after, w, offset, n - 1))
    requires t' == Exec(t0, FrameDiffRows(before, after, w, offset, n))
    requires DiffProgress(t0, t, before, after, w, rows, offset, n - 1, 0)
    ensures DiffProgress(t0, t', before, after, w, rows, offset, n, 0)
  {
    ExecFrameDiffRowsSplit(t0, before, after, w, offset, n);
    ExecFrameDiffWholeRow(t0, t, t', before, after, w, rows, offset, n - 1);
  }

  /** All of row j's commands, obeyed from the start of the row, bring the diff progress to the start of row j + 1. */
  lemma ExecFrameDiffWholeRow(t0: Term, t: Term, t': Term, before: seq<Cell>, after: seq<Cell>, w: nat, rows: nat, offset: (u16, u16), j: int)
    requires Fits(w, rows, offset) && 0 <= j < rows
    requires DiffProgress(t0, t, before, after, w, rows, offset, j, 0)
    requires t' == Exec(t, FrameDiffRow(before, after, w, offset, j, w))
    ensures DiffProgress(t0, t', before, after, w, rows, offset, j + 1, 0)
  {
    ExecFrameDiffRow(t0, t, t', before, after, w, rows, offset, j, w);
    DiffProgressNextRow(t0, t', before, after, w, rows, offset, j);
  }

  lemma {:induction false} ExecFrameDiffRows(t0: Term, before: seq<Cell>, after: seq<Cell>, w: nat, rows: nat, offset: (u16, u16), n: nat)
    requires Fits(w, rows, offset) && n <= rows
    requires Shows(t0, before, w, rows, offset)
    ensures DiffProgress(t0, Exec(t0, FrameDiffRows(before, after, w, offset, n)), before, after, w, rows, offset, n, 0)
  {
    if n > 0 {
      ExecFrameDiffRows(t0, before, after, w, rows, offset, n - 1);
      ExecFrameDiffRowsStep(t0, Exec(t0, FrameDiffRows(before, after, w, offset, n - 1)), Exec(t0, FrameDiffRows(before, after, w, offset, n)),
        before, after, w, rows, offset, n);
    } else {
      assert FrameDiffRows(before, after, w, offset, n) == [];
    }
  }

  lemma DiffProgressNextRow(t0: Term, t: Term, before: seq<Cell>, after: seq<Cell>, w: nat, rows: nat, offset: (u16, u16), j: int)
    requires DiffProgress(t0, t, before, after, w, rows, offset, j, w)
    ensures DiffProgress(t0, t, before, after, w, rows, offset, j + 1, 0)
  {
    forall r, c | 0 <= r < rows && 0 <= c < w
      ensures Mixed(before, after, w, j + 1, 0, r, c) == Mixed(before, after, w, j, w, r, c)
    {
    }
  }

  /**
   * The diff path is correct on the screen: sent to a terminal that shows the previous frame,
   * the diff commands leave it showing the new frame, with nothing outside the frame touched.
   */
  lemma DiffShowsNewFrame(t0: Term, img: ImageRef, before: seq<Cell>, after: seq<Cell>, offset: (u16, u16))
    requires Renderable(img) && Fits(img.size.0, Rows(img), offset)
    requires IsDiffOf(after, before, img)
    requires Shows(t0, before, img.size.0, Rows(img), offset)
    ensures var t := Exec(t0, DiffCommands(img, before, offset));
      Shows(t, after, img.size.0, Rows(img), offset) && SameOutside(t0, t, offset, img.size.0, Rows(img))
  {
    DiffCommandsAreFrameDiff(img, before, after, offset);
    ExecFrameDiffRows(t0, before, after, img.size.0, Rows(img), offset, Rows(img));
  }

  /** A terminal part-way through a full redraw: exactly the visited cells are on the screen, each showing its new value. */
  ghost predicate RedrawProgress(t: Term, cells: seq<Cell>, w: nat, rows: nat, offset: (u16, u16), j: int, i: int) {
    (forall p | p in t.screen ::
      InFrame(p, offset, w, rows) && (p.1 - offset.1 < j || (p.1 - offset.1 == j && p.0 - offset.0 < i))) &&
    (forall r, c | 0 <= r < rows && 0 <= c < w && (r < j || (r == j && c < i)) ::
      Pos(offset, r, c) in t.screen && t.screen[Pos(offset, r, c)] == HalfBlock(CellAt(cells, w, r, c)))
  }

  lemma ExecFrameRowSplit(t: Term, cells: seq<Cell>, w: nat, j: int, n: nat)
    requires 0 < n <= w
    ensures Exec(t, FrameRow(cells, w, j)[..n]) == Obey(Exec(t, FrameRow(cells, w, j)[..n - 1]), Draw(CellAt(cells, w, j, n - 1)))
  {
    var row := FrameRow(cells, w, j);
    assert row[..n] == row[..n - 1] + [row[n - 1]];
    ExecAppend(t, row[..n - 1], [row[n - 1]]);
    ExecOne(Exec(t, row[..n - 1]), row[n - 1]);
  }

  lemma ExecFrameRowStep(t: Term, cells: seq<Cell>, w: nat, rows: nat, offset: (u16, u16), j: int, n: nat)
    requires 0 <= j < rows && 0 < n <= w
    requires RedrawProgress(Exec(t, FrameRow(cells, w, j)[..n - 1]), cells, w, rows, offset, j, n - 1)
    requires Exec(t, FrameRow(cells, w, j)[..n - 1]).cursor == Pos(offset, j, n - 1)
    ensures RedrawProgress(Exec(t, FrameRow(cells, w, j)[..n]), cells, w, rows, offset, j, n)
    ensures Exec(t, FrameRow(cells, w, j)[..n]).cursor == Pos(offset, j, n)
  {
    ExecFrameRowSplit(t, cells, w, j, n);
    RedrawProgressDraw(Exec(t, FrameRow(cells, w, j)[..n - 1]), cells, w, rows, offset, j, n - 1);
  }

  lemma {:induction false} ExecFrameRow(t: Term, cells: seq<Cell>, w: nat, rows: nat, offset: (u16, u16), j: int, n: nat)
    requires Fits(w, rows, offset) && 0 <= j < rows && n <= w
    requires RedrawProgress(t, cells, w, rows, offset, j, 0) && t.cursor == Pos(offset, j, 0)
    ensures RedrawProgress(Exec(t, FrameRow(cells, w, j)[..n]), cells, w, rows, offset, j, n)
    ensures Exec(t, FrameRow(cells, w, j)[..n]).cursor == Pos(offset, j, n)
  {
    if n > 0 {
      ExecFrameRow(t, cells, w, rows, offset, j, n - 1);
      ExecFrameRowStep(t, cells, w, rows, offset, j, n);
    } else {
      assert FrameRow(cells, w, j)[..0] == [];
    }
  }

  /** Drawing cell (i, j) with the cursor on it extends the redraw progress by one cell. */
  lemma RedrawProgressDraw(t: Term, cells: seq<Cell>, w: nat, rows: nat, offset: (u16, u16), j: int, i: int)
    requires 0 <= j < rows && 0 <= i < w
    requires RedrawProgress(t, cells, w, rows, offset, j, i) && t.cursor == Pos(offset, j, i)
    ensures RedrawProgress(Obey(t, Draw(CellAt(cells, w, j, i))), cells, w, rows, offset, j, i + 1)
  {
    var t' := Obey(t, Draw(CellAt(cells, w, j, i)));
    forall r, c | 0 <= r < rows && 0 <= c < w && (r < j || (r == j && c < i + 1))
      ensures Pos(offset, r, c) in t'.screen && t'.screen[Pos(offset, r, c)] == HalfBlock(CellAt(cells, w, r, c))
    {
      if r != j || c != i {
        assert Pos(offset, r, c) != Pos(offset, j, i);
      }
    }
  }

  /** Drawing rows 0 to n: the first n - 1 rows, a cursor move to the start of the last one, then its cells. */
  lemma ExecFrameRowsSplit(t: Term, cells: seq<Cell>, w: nat, offset: (u16, u16), n: nat)
    requires 0 < n <= 0x1_0000
    ensures Exec(t, FrameRows(cells, w, offset, n)) ==
      Exec(Obey(Exec(t, FrameRows(cells, w, offset, n - 1)), Goto(AddU16(offset.0, 0), AddU16(offset.1, n - 1))), FrameRow(cells, w, n - 1)[..w])
  {
    var move := Goto(AddU16(offset.0, 0), AddU16(offset.1, n - 1));
    var row := FrameRow(cells, w, n - 1);
    var done := FrameRows(cells, w, offset, n - 1);
    assert FrameRows(cells, w, offset, n) == done + [move] + row;
    assert row[..w] == row;
    ExecAppend(t, done + [move], row);
    ExecAppend(t, done, [move]);
    ExecOne(Exec(t, done), move);
  }

  lemma {:induction false} ExecFrameRows(t: Term, cells: seq<Cell>, w: nat, rows: nat, offset: (u16, u16), n: nat)
    requires Fits(w, rows, offset) && n <= rows && t.screen == map[]
    ensures RedrawProgress(Exec(t, FrameRows(cells, w, offset, n)), cells, w, rows, offset, n, 0)
  {
    if n > 0 {
      ExecFrameRows(t, cells, w, rows, offset, n - 1);
      ExecFrameRowsSplit(t, cells, w, offset, n);
      var t1 := Obey(Exec(t, FrameRows(cells, w, offset, n - 1)), Goto(AddU16(offset.0, 0), AddU16(offset.1, n - 1)));
      ExecFrameRow(t1, cells, w, rows, offset, n - 1, w);
      RedrawProgressNextRow(Exec(t1, FrameRow(cells, w, n - 1)[..w]), cells, w, rows, offset, n - 1);
    } else {
      assert FrameRows(cells, w, offset, n) == [];
    }
  }

  lemma RedrawProgressNextRow(t: Term, cells: seq<Cell>, w: nat, rows: nat, offset: (u16, u16), j: int)
    requires RedrawProgress(t, cells, w, rows, offset, j, w)
    ensures RedrawProgress(t, cells, w, rows, offset, j + 1, 0)
  {
  }

  /**
   * A full redraw is correct on the screen: whatever the terminal showed before, afterwards
   * it shows the frame and nothing else.
   */
  lemma RedrawShowsFrame(t0: Term, img: ImageRef, cells: seq<Cell>, offset: (u16, u16))
    requires Renderable(img) && Fits(img.size.0, Rows(img), offset) && IsOverwriteOf(cells, img)
    ensures var t := Exec(t0, OverwriteCommands(img, offset));
      Shows(t, cells, img.size.0, Rows(img), offset) &&
      forall p | p in t.screen :: InFrame(p, offset, img.size.0, Rows(img))
  {
    OverwriteCommandsAreFrameRows(img, cells, offset);
    var rowCommands := FrameRows(cells, img.size.0, offset, Rows(img));
    ExecAppend(t0, [Clear], rowCommands);
    ExecOne(t0, Clear);
    ExecFrameRows(Obey(t0, Clear), cells, img.size.0, Rows(img), offset, Rows(img));
  }
}
