/**
 * The diffing renderer of `src/terminal_sink/diff.rs`.  `RenderedFrame` remembers the cells
 * it last put on the terminal; `Render` either redraws every cell (after a clear) or sends
 * only the cells that changed, moving the cursor at the start of each run of changed cells.
 */
module Diff {
  import opened Primitives
  import opened Layout
  import opened Resize
  import opened Output

  /** Bits of colour kept per channel. */
  const N: nat := 5

  /** `u8::MAX << (8 - N)`: keeps the `N` high bits of a channel. */
  const MASK: byte := (0xFF as byte) << (8 - N)

  /** One channel quantized to `N` bits. */
  function QuantizeChannel(x: byte): byte {
    x & MASK
  }

  /** The quantized channel is the largest multiple of 8 not above the channel. */
  lemma QuantizeChannelIsFloor(x: byte)
    ensures QuantizeChannel(x) as int % 8 == 0
    ensures QuantizeChannel(x) as int <= x as int < QuantizeChannel(x) as int + 8
  {
  }

  /** The colour `get_pixel` hands to the renderer: each channel quantized. */
  function Quantize(p: Rgb): Rgb {
    Rgb(QuantizeChannel(p.r), QuantizeChannel(p.g), QuantizeChannel(p.b))
  }

  /** Quantizing twice is quantizing once, and a colour whose channels are multiples of 8 is its own quantization. */
  lemma QuantizeIdempotent(p: Rgb)
    ensures Quantize(Quantize(p)) == Quantize(p)
    ensures p.r as int % 8 == 0 && p.g as int % 8 == 0 && p.b as int % 8 == 0 ==> Quantize(p) == p
  {
  }

  /** Images `render` accepts: both `u16::try_from(..).unwrap()` calls succeed. */
  predicate Renderable(img: ImageRef) {
    img.Valid() && img.size.0 < 0x1_0000 && HalfUp(img.size.1) < 0x1_0000
  }

  /** Cell rows needed for the image: two pixel rows per cell row, the last one possibly half used. */
  function Rows(img: ImageRef): (n: nat)
    ensures 2 * n == img.size.1 || 2 * n == img.size.1 + 1
  {
    HalfUp(img.size.1)
  }

  /** `terminal_size` in `render`: the cell grid the image occupies. */
  function GridSize(img: ImageRef): (g: (u16, u16))
    requires Renderable(img)
    ensures g.0 == img.size.0 && g.1 == Rows(img)
  {
    (img.size.0, HalfUp(img.size.1))
  }

  /** `get_pixel(image_ref, i, j)`: the quantized pixel at column i, pixel row j. */
  function QPixel(img: ImageRef, i: int, j: int): Rgb
    requires img.Valid() && 0 <= i < img.size.0 && 0 <= j < img.size.1
  {
    Quantize(GetPixelUnchecked(img, i, j))
  }

  /** The cell a full redraw stores at column c of cell row r: a missing bottom pixel is black. */
  function OverwriteCell(img: ImageRef, c: int, r: int): Cell
    requires Renderable(img) && 0 <= c < img.size.0 && 0 <= r < Rows(img)
  {
    Cell(QPixel(img, c, 2 * r), if 2 * r + 1 < img.size.1 then QPixel(img, c, 2 * r + 1) else Black)
  }

  /**
   * The cell the diff path stores in place of `before`: a full row takes both pixels; the
   * half-used last row of an odd-height image takes only the top pixel and keeps the bottom.
   */
  function DiffCell(img: ImageRef, before: Cell, c: int, r: int): Cell
    requires Renderable(img) && 0 <= c < img.size.0 && 0 <= r < Rows(img)
  {
    if 2 * r + 1 < img.size.1 then Cell(QPixel(img, c, 2 * r), QPixel(img, c, 2 * r + 1))
    else Cell(QPixel(img, c, 2 * r), before.bottom)
  }

  /** Cell (column c, row r) of a frame `w` cells wide, stored row by row; a blank cell outside it. */
  function CellAt(cells: seq<Cell>, w: nat, r: int, c: int): Cell {
    var k := Idx(w, r, c);
    if 0 <= k < |cells| then cells[k] else BlankCell
  }

  /** Writing the cell at (c0, r0) of a `w` by `h` frame changes that cell and no other. */
  lemma CellAtStore(cells: seq<Cell>, w: nat, h: nat, r0: int, c0: int, v: Cell)
    requires |cells| == w * h && 0 <= r0 < h && 0 <= c0 < w
    ensures 0 <= Idx(w, r0, c0) < |cells|
    ensures CellAt(cells[Idx(w, r0, c0) := v], w, r0, c0) == v
    ensures forall r, c | 0 <= c < w && (r != r0 || c != c0) ::
      CellAt(cells[Idx(w, r0, c0) := v], w, r, c) == CellAt(cells, w, r, c)
  {
    IdxBounds(w, h, r0, c0);
    forall r, c | 0 <= c < w && (r != r0 || c != c0)
      ensures CellAt(cells[Idx(w, r0, c0) := v], w, r, c) == CellAt(cells, w, r, c)
    {
      if Idx(w, r, c) == Idx(w, r0, c0) {
        IdxInjective(w, r, c, r0, c0);
      }
    }
  }

  /** `cells` holds, row by row, the cells a full redraw of `img` stores. */
  ghost predicate IsOverwriteOf(cells: seq<Cell>, img: ImageRef)
    requires Renderable(img)
  {
    |cells| == img.size.0 * Rows(img) &&
    forall r, c | 0 <= r < Rows(img) && 0 <= c < img.size.0 ::
      CellAt(cells, img.size.0, r, c) == OverwriteCell(img, c, r)
  }

  /** `cells` is what the diff path makes of the previous frame `before`. */
  ghost predicate IsDiffOf(cells: seq<Cell>, before: seq<Cell>, img: ImageRef)
    requires Renderable(img)
  {
    |cells| == img.size.0 * Rows(img) && |before| == |cells| &&
    forall r, c | 0 <= r < Rows(img) && 0 <= c < img.size.0 ::
      CellAt(cells, img.size.0, r, c) == DiffCell(img, CellAt(before, img.size.0, r, c), c, r)
  }

  /** The draw commands of cell row r of a full redraw. */
  function OverwriteRow(img: ImageRef, r: int): (row: seq<Command>)
    requires Renderable(img) && 0 <= r < Rows(img)
    ensures |row| == img.size.0
    ensures forall c | 0 <= c < img.size.0 :: row[c] == Draw(OverwriteCell(img, c, r))
  {
    seq(img.size.0, c requires 0 <= c < img.size.0 => Draw(OverwriteCell(img, c, r)))
  }

  /** The commands a full redraw sends for the first n cell rows: a cursor move, then the row. */
  function OverwriteRows(img: ImageRef, offset: (u16, u16), n: nat): seq<Command>
    requires Renderable(img) && n <= Rows(img)
  {
    if n == 0 then []
    else OverwriteRows(img, offset, n - 1) + [Goto(AddU16(offset.0, 0), AddU16(offset.1, n - 1))] + OverwriteRow(img, n - 1)
  }

  /** Everything a full redraw sends: a clear, then every row. */
  function OverwriteCommands(img: ImageRef, offset: (u16, u16)): seq<Command>
    requires Renderable(img)
  {
    [Clear] + OverwriteRows(img, offset, Rows(img))
  }

  /** Whether the diff path changes cell (c, r) of the previous frame. */
  predicate ChangedAt(img: ImageRef, before: seq<Cell>, r: int, c: int)
    requires Renderable(img) && |before| == img.size.0 * Rows(img)
    requires 0 <= r < Rows(img) && 0 <= c < img.size.0
  {
    var old_ := CellAt(before, img.size.0, r, c);
    DiffCell(img, old_, c, r) != old_
  }

  /**
   * The commands the diff path sends for cell (c, r): nothing for an unchanged cell; for a
   * changed one, a cursor move unless the cell to its left was also sent, then the new cell.
   */
  function CellCommands(img: ImageRef, before: seq<Cell>, offset: (u16, u16), r: int, c: int): seq<Command>
    requires Renderable(img) && |before| == img.size.0 * Rows(img)
    requires 0 <= r < Rows(img) && 0 <= c < img.size.0
  {
    if !ChangedAt(img, before, r, c) then []
    else
      (if c == 0 || !ChangedAt(img, before, r, c - 1) then [Goto(AddU16(offset.0, c), AddU16(offset.1, r))] else []) +
      [Draw(DiffCell(img, CellAt(before, img.size.0, r, c), c, r))]
  }

  /** The diff commands for the first n cells of cell row r. */
  function DiffRow(img: ImageRef, before: seq<Cell>, offset: (u16, u16), r: int, n: nat): seq<Command>
    requires Renderable(img) && |before| == img.size.0 * Rows(img)
    requires 0 <= r < Rows(img) && n <= img.size.0
  {
    if n == 0 then [] else DiffRow(img, before, offset, r, n - 1) + CellCommands(img, before, offset, r, n - 1)
  }

  /** The diff commands for the first n cell rows. */
  function DiffRows(img: ImageRef, before: seq<Cell>, offset: (u16, u16), n: nat): seq<Command>
    requires Renderable(img) && |before| == img.size.0 * Rows(img) && n <= Rows(img)
  {
    if n == 0 then [] else DiffRows(img, before, offset, n - 1) + DiffRow(img, before, offset, n - 1, img.size.0)
  }

  /** Everything the diff path sends. */
  function DiffCommands(img: ImageRef, before: seq<Cell>, offset: (u16, u16)): seq<Command>
    requires Renderable(img) && |before| == img.size.0 * Rows(img)
  {
    DiffRows(img, before, offset, Rows(img))
  }

  /** A cell part-way through the painting pass, which has visited pixel rows before j, and row j up to column i. */
  ghost function Painted(img: ImageRef, before: Cell, c: int, r: int, j: int, i: int): Cell
    requires Renderable(img) && 0 <= c < img.size.0 && 0 <= r < Rows(img)
    requires 0 <= j <= img.size.1 && (j == img.size.1 ==> i == 0)
  {
    Cell(if 2 * r < j || (2 * r == j && c < i) then QPixel(img, c, 2 * r) else before.top,
         if 2 * r + 1 < j || (2 * r + 1 == j && c < i) then QPixel(img, c, 2 * r + 1) else before.bottom)
  }

  /** A cell part-way through a diff pass, which has visited cell rows before j, and row j up to column i. */
  ghost function Diffed(img: ImageRef, before: seq<Cell>, c: int, r: int, j: int, i: int): Cell
    requires Renderable(img) && |before| == img.size.0 * Rows(img)
    requires 0 <= c < img.size.0 && 0 <= r < Rows(img)
  {
    var old_ := CellAt(before, img.size.0, r, c);
    if r < j || (r == j && c < i) then DiffCell(img, old_, c, r) else old_
  }

  /** `cells` with the bottom half of every cell from index `start` on set to black. */
  ghost function BlackenedFrom(cells: seq<Cell>, start: int): (r: seq<Cell>)
    ensures |r| == |cells|
  {
    seq(|cells|, n requires 0 <= n < |cells| => if start <= n then cells[n].(bottom := Black) else cells[n])
  }

  /** The last of `rows` cell rows starts at `(rows - 1) * w`, which is also `w * (rows - 1)`, and is `w` cells long. */
  lemma LastRowStart(w: nat, rows: nat)
    requires 0 < rows
    ensures w * (rows - 1) == (rows - 1) * w && (rows - 1) * w + w == w * rows
  {
  }

  /** Cells from index `w * (rows - 1)` on are exactly the cells of the last row. */
  lemma BlackenedLastRow(cells: seq<Cell>, w: nat, rows: nat, start: int, r: int, c: int)
    requires |cells| == w * rows && 0 <= r < rows && 0 <= c < w && start == w * (rows - 1)
    ensures CellAt(BlackenedFrom(cells, start), w, r, c) ==
      if r == rows - 1 then CellAt(cells, w, r, c).(bottom := Black) else CellAt(cells, w, r, c)
  {
    IdxBounds(w, rows, r, c);
    LastRowStart(w, rows);
    if r < rows - 1 {
      RowGap(w, r, rows - 1);
    }
  }

  /** The painting pass followed, for an odd height, by blackening the last row yields the full-redraw frame. */
  lemma OverwriteAssembled(image: ImageRef, before: seq<Cell>, painted: seq<Cell>, final: seq<Cell>)
    requires Renderable(image)
    requires |before| == |painted| == image.size.0 * Rows(image)
    requires forall r, c | 0 <= r < Rows(image) && 0 <= c < image.size.0 ::
      CellAt(painted, image.size.0, r, c) == Painted(image, CellAt(before, image.size.0, r, c), c, r, image.size.1, 0)
    requires final == if image.size.1 % 2 != 0 then BlackenedFrom(painted, image.size.0 as int * (image.size.1 / 2) as int) else painted
    ensures IsOverwriteOf(final, image)
  {
    var w, rows := image.size.0, Rows(image);
    forall r, c | 0 <= r < rows && 0 <= c < w
      ensures CellAt(final, w, r, c) == OverwriteCell(image, c, r)
    {
      if image.size.1 % 2 != 0 {
        BlackenedLastRow(painted, w, rows, w as int * (image.size.1 / 2) as int, r, c);
      }
    }
  }

  /** One step of a diff pass at cell (i, j): the cell takes its diffed value if it changed, and the pass has visited one more cell. */
  lemma DiffedStep(image: ImageRef, before: seq<Cell>, current: seq<Cell>, j: int, i: int, k: int)
    requires Renderable(image) && |before| == |current| == image.size.0 * Rows(image)
    requires 0 <= j < Rows(image) && 0 <= i < image.size.0 && k == Idx(image.size.0, j, i)
    requires forall r, c | 0 <= r < Rows(image) && 0 <= c < image.size.0 ::
      CellAt(current, image.size.0, r, c) == Diffed(image, before, c, r, j, i)
    ensures 0 <= k < |current| && current[k] == CellAt(before, image.size.0, j, i)
    ensures var next := if ChangedAt(image, before, j, i) then current[k := DiffCell(image, current[k], i, j)] else current;
      forall r, c | 0 <= r < Rows(image) && 0 <= c < image.size.0 ::
        CellAt(next, image.size.0, r, c) == Diffed(image, before, c, r, j, i + 1)
  {
    var w, rows := image.size.0, Rows(image);
    IdxBounds(w, rows, j, i);
    assert CellAt(current, w, j, i) == Diffed(image, before, i, j, j, i);
    var changed := ChangedAt(image, before, j, i);
    var next := if changed then current[k := DiffCell(image, current[k], i, j)] else current;
    if changed {
      CellAtStore(current, w, rows, j, i, DiffCell(image, current[k], i, j));
    }
    forall r, c | 0 <= r < rows && 0 <= c < w
      ensures CellAt(next, w, r, c) == Diffed(image, before, c, r, j, i + 1)
    {
      assert CellAt(current, w, r, c) == Diffed(image, before, c, r, j, i);
    }
  }

  /** The diff commands of a row grow cell by cell, by the commands of the next cell. */
  lemma DiffRowStep(image: ImageRef, before: seq<Cell>, offset: (u16, u16), j: int, i: int)
    requires Renderable(image) && |before| == image.size.0 * Rows(image)
    requires 0 <= j < Rows(image) && 0 <= i < image.size.0
    ensures DiffRow(image, before, offset, j, i + 1) == DiffRow(image, before, offset, j, i) + CellCommands(image, before, offset, j, i)
  {
  }

  /** What a changed cell appends: the draw, after a cursor move unless the previous cell was sent. */
  lemma SentAfter(sent: seq<Command>, previousSent: bool, move: Command, draw: Command)
    ensures (if previousSent then sent else sent + [move]) + [draw] == sent + ((if previousSent then [] else [move]) + [draw])
  {
  }

  /** For an odd height the diff commands are those of the full rows, then those of the half-used last row. */
  lemma OddDiffRows(image: ImageRef, before: seq<Cell>, offset: (u16, u16))
    requires Renderable(image) && |before| == image.size.0 * Rows(image) && image.size.1 % 2 != 0
    ensures DiffRows(image, before, offset, Rows(image)) ==
      DiffRows(image, before, offset, image.size.1 / 2) + DiffRow(image, before, offset, Rows(image) - 1, image.size.0)
  {
    assert Rows(image) == image.size.1 / 2 + 1;
  }

  /** A diff pass that has visited every cell row leaves the diff of the previous frame. */
  lemma DiffAssembled(image: ImageRef, before: seq<Cell>, final: seq<Cell>, n: int)
    requires Renderable(image) && |before| == |final| == image.size.0 * Rows(image) && Rows(image) <= n
    requires forall r, c | 0 <= r < Rows(image) && 0 <= c < image.size.0 ::
      CellAt(final, image.size.0, r, c) == Diffed(image, before, c, r, n, 0)
    ensures IsDiffOf(final, before, image)
  {
  }

  /** The loop of the odd-height branch: the bottom half of every cell from index `start` on is set to black. */
  method BlackenFrom(m: PodMatrix<Cell>, start: nat)
    requires m.Valid() && start <= |m.cells|
    modifies m
    ensures m.Valid() && m.size == old(m.size)
    ensures m.cells == BlackenedFrom(old(m.cells), start)
  {
    ghost var before := m.cells;
    ghost var target := BlackenedFrom(before, start);
    var k := start;
    while k < |m.cells|
      invariant m.Valid() && m.size == old(m.size)
      invariant start <= k <= |m.cells| == |before|
      invariant forall n | 0 <= n < |before| :: m.cells[n] == if n < k then target[n] else before[n]
    {
      var pixel := m.cells[k];
      m.Store(k, pixel.(bottom := Black));
      k := k + 1;
    }
    assert forall n | 0 <= n < |before| :: m.cells[n] == target[n];
  }

  /** `RenderedFrame`: the cells currently on the terminal, as `render` last left them. */
  class RenderedFrame {
    const frame: PodMatrix<Cell>

    ghost predicate Valid()
      reads this, frame
    {
      frame.Valid() && frame.zero == BlankCell
    }

    /** `RenderedFrame::new`: an empty frame. */
    constructor ()
      ensures Valid() && fresh(frame) && frame.size == (0, 0)
    {
      frame := new PodMatrix(BlankCell);
    }

    /**
     * `render`: a full redraw when asked for or when the grid size changed, the diff path
     * otherwise.  Either way the frame ends up at the image's grid size.
     */
    method Render(image: ImageRef, overwrite: bool, offset: (u16, u16), commandBuffer: CommandBuffer)
      requires Valid() && Renderable(image)
      modifies frame, commandBuffer
      ensures Valid() && frame.size == GridSize(image)
      ensures overwrite || GridSize(image) != old(frame.size) ==>
        IsOverwriteOf(frame.cells, image) &&
        commandBuffer.commands == old(commandBuffer.commands) + OverwriteCommands(image, offset)
      ensures !(overwrite || GridSize(image) != old(frame.size)) ==>
        IsDiffOf(frame.cells, old(frame.cells), image) &&
        commandBuffer.commands == old(commandBuffer.commands) + DiffCommands(image, old(frame.cells), offset)
    {
      var width, height := image.size.0, image.size.1;
      var terminalSize: (u16, u16) := (width, HalfUp(height));
      var redraw := overwrite || terminalSize != frame.size;
      if terminalSize != frame.size {
        frame.Resize(terminalSize);
      }
      if redraw {
        Redraw(image, offset, commandBuffer);
        return;
      }
      Update(image, offset, commandBuffer);
    }

    /** The full-redraw branch of `render`: clear, paint every cell, then send every row. */
    method Redraw(image: ImageRef, offset: (u16, u16), commandBuffer: CommandBuffer)
      requires Valid() && Renderable(image) && frame.size == GridSize(image)
      modifies frame, commandBuffer
      ensures Valid() && frame.size == old(frame.size)
      ensures IsOverwriteOf(frame.cells, image)
      ensures commandBuffer.commands == old(commandBuffer.commands) + OverwriteCommands(image, offset)
    {
      ghost var before := frame.cells;
      commandBuffer.Push(Clear);
      PaintAll(image);
      ghost var painted := frame.cells;
      if image.size.1 % 2 != 0 {
        BlackenLastRow(image);
      }
      OverwriteAssembled(image, before, painted, frame.cells);
      EmitAll(image, offset, commandBuffer);
      ghost var rowCommands := OverwriteRows(image, offset, Rows(image));
      assert commandBuffer.commands == old(commandBuffer.commands) + ([Clear] + rowCommands) by {
        assert commandBuffer.commands == (old(commandBuffer.commands) + [Clear]) + rowCommands;
      }
    }

    /** The diff branch of `render`: the full cell rows, then the half-used last row of an odd-height image. */
    method Update(image: ImageRef, offset: (u16, u16), commandBuffer: CommandBuffer)
      requires Valid() && Renderable(image) && frame.size == GridSize(image)
      modifies frame, commandBuffer
      ensures Valid() && frame.size == old(frame.size)
      ensures IsDiffOf(frame.cells, old(frame.cells), image)
      ensures commandBuffer.commands == old(commandBuffer.commands) + DiffCommands(image, old(frame.cells), offset)
    {
      ghost var before := frame.cells;
      ghost var start := commandBuffer.commands;
      DiffFullRows(image, offset, commandBuffer);
      ghost var fullRows := DiffRows(image, before, offset, image.size.1 / 2);
      if image.size.1 % 2 != 0 {
        DiffLastRow(image, offset, commandBuffer, before);
        OddDiffRows(image, before, offset);
        AppendAssoc(start, fullRows, DiffRow(image, before, offset, Rows(image) - 1, image.size.0));
      } else {
        assert Rows(image) == image.size.1 / 2;
      }
      assert commandBuffer.commands == start + DiffRows(image, before, offset, Rows(image));
      DiffAssembled(image, before, frame.cells, Rows(image));
    }

    /** The painting pass of a full redraw: each pixel goes into the top or bottom half of its cell. */
    method PaintAll(image: ImageRef)
      requires Valid() && Renderable(image) && frame.size == GridSize(image)
      modifies frame
      ensures Valid() && frame.size == old(frame.size)
      ensures forall r, c | 0 <= r < Rows(image) && 0 <= c < image.size.0 ::
        CellAt(frame.cells, image.size.0, r, c) ==
        Painted(image, CellAt(old(frame.cells), image.size.0, r, c), c, r, image.size.1, 0)
    {
      ghost var before := frame.cells;
      ghost var rows := Rows(image);
      var width, height := image.size.0, image.size.1;
      for j := 0 to height
        invariant Valid() && frame.size == GridSize(image)
        invariant forall r, c | 0 <= r < rows && 0 <= c < width ::
          CellAt(frame.cells, width, r, c) == Painted(image, CellAt(before, width, r, c), c, r, j, 0)
      {
        for i := 0 to width
          invariant Valid() && frame.size == GridSize(image)
          invariant forall r, c | 0 <= r < rows && 0 <= c < width ::
            CellAt(frame.cells, width, r, c) == Painted(image, CellAt(before, width, r, c), c, r, j, i)
        {
          var rgb := QPixel(image, i, j);
          var k := frame.GetMut(i, j / 2).value;
          var pixel := frame.cells[k];
          ghost var current := frame.cells;
          var painted := if j % 2 == 0 then pixel.(top := rgb) else pixel.(bottom := rgb);
          frame.Store(k, painted);
          CellAtStore(current, width, rows, j / 2, i, painted);
        }
      }
    }

    /** A full redraw of an odd-height image blackens the bottom half of every cell of the last cell row. */
    method BlackenLastRow(image: ImageRef)
      requires Valid() && Renderable(image) && frame.size == GridSize(image) && image.size.1 % 2 != 0
      modifies frame
      ensures Valid() && frame.size == old(frame.size)
      ensures frame.cells == BlackenedFrom(old(frame.cells), image.size.0 as int * (image.size.1 / 2) as int)
    {
      var width, height := image.size.0, image.size.1;
      var start := width as int * (height / 2) as int;
      LastRowStart(width, Rows(image));
      BlackenFrom(frame, start);
    }

    /** The output pass of a full redraw: each cell row after a cursor move to its start. */
    method EmitAll(image: ImageRef, offset: (u16, u16), commandBuffer: CommandBuffer)
      requires Valid() && Renderable(image) && frame.size == GridSize(image)
      requires IsOverwriteOf(frame.cells, image)
      modifies commandBuffer
      ensures commandBuffer.commands == old(commandBuffer.commands) + OverwriteRows(image, offset, Rows(image))
    {
      ghost var start := commandBuffer.commands;
      var terminalHeight := frame.size.1;
      for j := 0 to terminalHeight
        invariant commandBuffer.commands == start + OverwriteRows(image, offset, j)
      {
        ghost var done := OverwriteRows(image, offset, j);
        EmitRow(image, offset, commandBuffer, j);
        ghost var next := [Goto(AddU16(offset.0, 0), AddU16(offset.1, j))] + OverwriteRow(image, j);
        assert OverwriteRows(image, offset, j + 1) == done + next by {
          AppendAssoc(done, [Goto(AddU16(offset.0, 0), AddU16(offset.1, j))], OverwriteRow(image, j));
        }
        AppendAssoc(start, done, next);
      }
    }

    /** One cell row of the output pass: a cursor move to the row's start, then every cell of the row. */
    method EmitRow(image: ImageRef, offset: (u16, u16), commandBuffer: CommandBuffer, j: u16)
      requires Valid() && Renderable(image) && frame.size == GridSize(image) && j < frame.size.1
      requires IsOverwriteOf(frame.cells, image)
      modifies commandBuffer
      ensures commandBuffer.commands == old(commandBuffer.commands) + ([Goto(AddU16(offset.0, 0), AddU16(offset.1, j))] + OverwriteRow(image, j))
    {
      var terminalWidth := frame.size.0;
      ghost var start := commandBuffer.commands;
      var move := Goto(AddU16(offset.0, 0), AddU16(offset.1, j));
      commandBuffer.Push(move);
      ghost var row := OverwriteRow(image, j);
      for i := 0 to terminalWidth
        invariant commandBuffer.commands == start + [move] + row[..i]
      {
        var k := frame.GetMut(i, j).value;
        assert frame.cells[k] == CellAt(frame.cells, terminalWidth, j, i) == OverwriteCell(image, i, j);
        commandBuffer.Push(Draw(frame.cells[k]));
        assert row[..i + 1] == row[..i] + [row[i]];
      }
      assert row[..terminalWidth] == row;
      AppendAssoc(start, [move], row);
    }

    /** The diff pass over the cell rows that hold two pixel rows. */
    method DiffFullRows(image: ImageRef, offset: (u16, u16), commandBuffer: CommandBuffer)
      requires Valid() && Renderable(image) && frame.size == GridSize(image)
      modifies frame, commandBuffer
      ensures Valid() && frame.size == old(frame.size)
      ensures forall r, c | 0 <= r < Rows(image) && 0 <= c < image.size.0 ::
        CellAt(frame.cells, image.size.0, r, c) == Diffed(image, old(frame.cells), c, r, image.size.1 / 2, 0)
      ensures commandBuffer.commands == old(commandBuffer.commands) + DiffRows(image, old(frame.cells), offset, image.size.1 / 2)
    {
      ghost var before := frame.cells;
      ghost var start := commandBuffer.commands;
      var width, height := image.size.0, image.size.1;
      for j := 0 to height / 2
        invariant Valid() && frame.size == GridSize(image)
        invariant forall r, c | 0 <= r < Rows(image) && 0 <= c < width ::
          CellAt(frame.cells, width, r, c) == Diffed(image, before, c, r, j, 0)
        invariant commandBuffer.commands == start + DiffRows(image, before, offset, j)
      {
        ghost var done := DiffRows(image, before, offset, j);
        DiffFullRow(image, offset, commandBuffer, before, j);
        ghost var row := DiffRow(image, before, offset, j, width);
        assert DiffRows(image, before, offset, j + 1) == done + row;
        AppendAssoc(start, done, row);
      }
    }

    /** One cell row of the diff pass over full rows: runs of changed cells, each run after a cursor move. */
    method DiffFullRow(image: ImageRef, offset: (u16, u16), commandBuffer: CommandBuffer, ghost before: seq<Cell>, j: u32)
      requires Valid() && Renderable(image) && frame.size == GridSize(image) && j < image.size.1 / 2
      requires |before| == |frame.cells|
      requires forall r, c | 0 <= r < Rows(image) && 0 <= c < image.size.0 ::
        CellAt(frame.cells, image.size.0, r, c) == Diffed(image, before, c, r, j, 0)
      modifies frame, commandBuffer
      ensures Valid() && frame.size == old(frame.size)
      ensures forall r, c | 0 <= r < Rows(image) && 0 <= c < image.size.0 ::
        CellAt(frame.cells, image.size.0, r, c) == Diffed(image, before, c, r, j + 1, 0)
      ensures commandBuffer.commands == old(commandBuffer.commands) + DiffRow(image, before, offset, j, image.size.0)
    {
      var width := image.size.0;
      var lastChanged := false;
      for i := 0 to width
        invariant Valid() && frame.size == GridSize(image)
        invariant forall r, c | 0 <= r < Rows(image) && 0 <= c < width ::
          CellAt(frame.cells, width, r, c) == Diffed(image, before, c, r, j, i)
        invariant commandBuffer.commands == old(commandBuffer.commands) + DiffRow(image, before, offset, j, i)
        invariant lastChanged <==> 0 < i && ChangedAt(image, before, j, i - 1)
      {
        lastChanged := DiffFullCell(image, offset, commandBuffer, before, old(commandBuffer.commands), j, i, lastChanged);
      }
    }

    /**
     * The body of the full-row diff loop at cell (i, j): a cell whose two pixels differ from
     * the image is updated and sent, after a cursor move if the previous cell was not sent.
     * The result is the new `last_changed`.
     */
    method DiffFullCell(image: ImageRef, offset: (u16, u16), commandBuffer: CommandBuffer,
                        ghost before: seq<Cell>, ghost rowStart: seq<Command>, j: u32, i: u32, lastChanged: bool)
      returns (changed: bool)
      requires Valid() && Renderable(image) && frame.size == GridSize(image)
      requires j < image.size.1 / 2 && i < image.size.0 && |before| == |frame.cells|
      requires forall r, c | 0 <= r < Rows(image) && 0 <= c < image.size.0 ::
        CellAt(frame.cells, image.size.0, r, c) == Diffed(image, before, c, r, j, i)
      requires commandBuffer.commands == rowStart + DiffRow(image, before, offset, j, i)
      requires lastChanged <==> 0 < i && ChangedAt(image, before, j, i - 1)
      modifies frame, commandBuffer
      ensures Valid() && frame.size == old(frame.size)
      ensures forall r, c | 0 <= r < Rows(image) && 0 <= c < image.size.0 ::
        CellAt(frame.cells, image.size.0, r, c) == Diffed(image, before, c, r, j, i + 1)
      ensures commandBuffer.commands == rowStart + DiffRow(image, before, offset, j, i + 1)
      ensures changed <==> ChangedAt(image, before, j, i)
    {
      var rgbT := QPixel(image, i, j * 2);
      var rgbB := QPixel(image, i, j * 2 + 1);
      var k := frame.GetMut(i, j).value;
      DiffedStep(image, before, frame.cells, j, i, k);
      DiffRowStep(image, before, offset, j, i);
      AppendAssoc(rowStart, DiffRow(image, before, offset, j, i), CellCommands(image, before, offset, j, i));
      var pixel := frame.cells[k];
      changed := lastChanged;
      if pixel.top != rgbT || pixel.bottom != rgbB {
        if !changed {
          changed := true;
          commandBuffer.Push(Goto(AddU16(offset.0, i), AddU16(offset.1, j)));
        }
        var updated := pixel.(top := rgbT, bottom := rgbB);
        frame.Store(k, updated);
        SentAfter(old(commandBuffer.commands), lastChanged, Goto(AddU16(offset.0, i), AddU16(offset.1, j)), Draw(updated));
        commandBuffer.Push(Draw(updated));
        return;
      }
      changed := false;
    }

    /** The diff pass over the half-used last cell row of an odd-height image: only top halves are compared and set. */
    method DiffLastRow(image: ImageRef, offset: (u16, u16), commandBuffer: CommandBuffer, ghost before: seq<Cell>)
      requires Valid() && Renderable(image) && frame.size == GridSize(image) && image.size.1 % 2 != 0
      requires |before| == |frame.cells|
      requires forall r, c | 0 <= r < Rows(image) && 0 <= c < image.size.0 ::
        CellAt(frame.cells, image.size.0, r, c) == Diffed(image, before, c, r, image.size.1 / 2, 0)
      modifies frame, commandBuffer
      ensures Valid() && frame.size == old(frame.size)
      ensures forall r, c | 0 <= r < Rows(image) && 0 <= c < image.size.0 ::
        CellAt(frame.cells, image.size.0, r, c) == Diffed(image, before, c, r, Rows(image), 0)
      ensures commandBuffer.commands == old(commandBuffer.commands) + DiffRow(image, before, offset, Rows(image) - 1, image.size.0)
    {
      var width, height := image.size.0, image.size.1;
      var j := height / 2;
      var lastChanged := false;
      for i := 0 to width
        invariant Valid() && frame.size == GridSize(image)
        invariant forall r, c | 0 <= r < Rows(image) && 0 <= c < width ::
          CellAt(frame.cells, width, r, c) == Diffed(image, before, c, r, j, i)
        invariant commandBuffer.commands == old(commandBuffer.commands) + DiffRow(image, before, offset, j, i)
        invariant lastChanged <==> 0 < i && ChangedAt(image, before, j, i - 1)
      {
        lastChanged := DiffTopCell(image, offset, commandBuffer, before, old(commandBuffer.commands), j, i, lastChanged);
      }
    }

    /** The body of the last-row diff loop at cell (i, j): only the top pixel is compared and set. */
    method DiffTopCell(image: ImageRef, offset: (u16, u16), commandBuffer: CommandBuffer,
                       ghost before: seq<Cell>, ghost rowStart: seq<Command>, j: u32, i: u32, lastChanged: bool)
      returns (changed: bool)
      requires Valid() && Renderable(image) && frame.size == GridSize(image)
      requires image.size.1 % 2 != 0 && j == image.size.1 / 2 && i < image.size.0 && |before| == |frame.cells|
      requires forall r, c | 0 <= r < Rows(image) && 0 <= c < image.size.0 ::
        CellAt(frame.cells, image.size.0, r, c) == Diffed(image, before, c, r, j, i)
      requires commandBuffer.commands == rowStart + DiffRow(image, before, offset, j, i)
      requires lastChanged <==> 0 < i && ChangedAt(image, before, j, i - 1)
      modifies frame, commandBuffer
      ensures Valid() && frame.size == old(frame.size)
      ensures forall r, c | 0 <= r < Rows(image) && 0 <= c < image.size.0 ::
        CellAt(frame.cells, image.size.0, r, c) == Diffed(image, before, c, r, j, i + 1)
      ensures commandBuffer.commands == rowStart + DiffRow(image, before, offset, j, i + 1)
      ensures changed <==> ChangedAt(image, before, j, i)
    {
      var rgbT := QPixel(image, i, j * 2);
      var k := frame.GetMut(i, j).value;
      DiffedStep(image, before, frame.cells, j, i, k);
      DiffRowStep(image, before, offset, j, i);
      AppendAssoc(rowStart, DiffRow(image, before, offset, j, i), CellCommands(image, before, offset, j, i));
      var pixel := frame.cells[k];
      changed := lastChanged;
      if pixel.top != rgbT {
        if !changed {
          changed := true;
          commandBuffer.Push(Goto(AddU16(offset.0, i), AddU16(offset.1, j)));
        }
        var updated := pixel.(top := rgbT);
        frame.Store(k, updated);
        SentAfter(old(commandBuffer.commands), lastChanged, Goto(AddU16(offset.0, i), AddU16(offset.1, j)), Draw(updated));
        commandBuffer.Push(Draw(updated));
        return;
      }
      changed := false;
    }
  }
}
