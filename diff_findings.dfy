/**
 * The half-used last row on the diff path of `src/terminal_sink/diff.rs`.  For an image of
 * odd height the diff path compares and stores only the top half of each cell of the last
 * row, so a bottom half left over from an earlier, taller frame stays in the frame and on
 * the screen, where a full redraw would have painted it black.  `DiffCellFixed` is the cell
 * the diff path evidently means to store.
 */
module DiffFindings {
  import opened Primitives
  import opened Layout
  import opened Resize
  import opened Output
  import opened Diff
  import opened DiffLemmas

  /** Cell for cell, the diff path stores what a full redraw would exactly when the row is full or the kept bottom half is black. */
  lemma DiffCellIsOverwriteCellIff(img: ImageRef, before: Cell, c: int, r: int)
    requires Renderable(img) && 0 <= c < img.size.0 && 0 <= r < Rows(img)
    ensures DiffCell(img, before, c, r) == OverwriteCell(img, c, r) <==> 2 * r + 1 < img.size.1 || before.bottom == Black
  {
  }

  /** The previous frame has nothing in the bottom halves the new image leaves unused. */
  ghost predicate UnusedBottomsBlack(before: seq<Cell>, img: ImageRef)
    requires Renderable(img)
  {
    img.size.1 % 2 == 0 ||
    forall c | 0 <= c < img.size.0 :: CellAt(before, img.size.0, LastRow(img), c).bottom == Black
  }

  /** The cell row that holds the last pixel row. */
  function LastRow(img: ImageRef): (r: int)
    requires Renderable(img)
    ensures 2 * r + 1 == img.size.1 || 2 * r + 2 == img.size.1
  {
    Rows(img) - 1
  }

  lemma UnusedBottomsBlackGivesOverwrite(img: ImageRef, before: seq<Cell>, cells: seq<Cell>)
    requires Renderable(img) && IsDiffOf(cells, before, img) && UnusedBottomsBlack(before, img)
    ensures IsOverwriteOf(cells, img)
  {
    var w, rows := img.size.0, Rows(img);
    forall r, c | 0 <= r < rows && 0 <= c < w
      ensures CellAt(cells, w, r, c) == OverwriteCell(img, c, r)
    {
      assert CellAt(cells, w, r, c) == DiffCell(img, CellAt(before, w, r, c), c, r);
      if 2 * r + 1 >= img.size.1 {
        assert r == LastRow(img) && img.size.1 % 2 == 1;
        assert CellAt(before, w, LastRow(img), c).bottom == Black;
      }
      DiffCellIsOverwriteCellIff(img, CellAt(before, w, r, c), c, r);
    }
  }

  lemma OverwriteNeedsUnusedBottomsBlack(img: ImageRef, before: seq<Cell>, cells: seq<Cell>)
    requires Renderable(img) && IsDiffOf(cells, before, img) && IsOverwriteOf(cells, img)
    ensures UnusedBottomsBlack(before, img)
  {
    var w, last := img.size.0, LastRow(img);
    if img.size.1 % 2 == 1 {
      forall c | 0 <= c < w
        ensures CellAt(before, w, last, c).bottom == Black
      {
        assert CellAt(cells, w, last, c) == DiffCell(img, CellAt(before, w, last, c), c, last);
        assert CellAt(cells, w, last, c) == OverwriteCell(img, c, last);
        DiffCellIsOverwriteCellIff(img, CellAt(before, w, last, c), c, last);
      }
    }
  }

  /** The diff path leaves the frame a full redraw would leave if and only if no stale bottom half is in the way. */
  lemma DiffIsOverwriteIff(img: ImageRef, before: seq<Cell>, cells: seq<Cell>)
    requires Renderable(img) && IsDiffOf(cells, before, img)
    ensures IsOverwriteOf(cells, img) <==> UnusedBottomsBlack(before, img)
  {
    if UnusedBottomsBlack(before, img) {
      UnusedBottomsBlackGivesOverwrite(img, before, cells);
    }
    if IsOverwriteOf(cells, img) {
      OverwriteNeedsUnusedBottomsBlack(img, before, cells);
    }
  }

  /** Until the next full redraw, the diff path carries the unused bottom halves over unchanged. */
  lemma DiffKeepsUnusedBottoms(img: ImageRef, before: seq<Cell>, cells: seq<Cell>)
    requires Renderable(img) && IsDiffOf(cells, before, img) && img.size.1 % 2 == 1
    ensures forall c | 0 <= c < img.size.0 ::
      CellAt(cells, img.size.0, LastRow(img), c).bottom == CellAt(before, img.size.0, LastRow(img), c).bottom
  {
    var w, last := img.size.0, LastRow(img);
    forall c | 0 <= c < w
      ensures CellAt(cells, w, last, c).bottom == CellAt(before, w, last, c).bottom
    {
      assert CellAt(cells, w, last, c) == DiffCell(img, CellAt(before, w, last, c), c, last);
    }
  }

  /**
   * A 1x2 image with a black top and a white bottom pixel, redrawn, then a 1x1 black image:
   * the grid is 1x1 both times, so `render` takes the diff path, which finds the top half
   * unchanged, sends nothing and keeps the light bottom half that a full redraw would blacken.
   */
  lemma StaleBottomHalf()
    ensures var white := Rgb(0xFF, 0xFF, 0xFF);
      var tall := ImageRef((1, 2), [Black, white]);
      var short := ImageRef((1, 1), [Black]);
      var frame := [Cell(Black, Rgb(0xF8, 0xF8, 0xF8))];
      Renderable(tall) && Renderable(short) && GridSize(tall) == GridSize(short) &&
      IsOverwriteOf(frame, tall) &&
      IsDiffOf(frame, frame, short) && DiffCommands(short, frame, (0, 0)) == [] &&
      !IsOverwriteOf(frame, short)
  {
    var white := Rgb(0xFF, 0xFF, 0xFF);
    var tall := ImageRef((1, 2), [Black, white]);
    var short := ImageRef((1, 1), [Black]);
    var frame := [Cell(Black, Rgb(0xF8, 0xF8, 0xF8))];
    assert CellAt(frame, 1, 0, 0) == frame[0];
    assert GetPixelUnchecked(tall, 0, 0) == Black && GetPixelUnchecked(tall, 0, 1) == white;
    assert GetPixelUnchecked(short, 0, 0) == Black;
    assert Quantize(white) == Rgb(0xF8, 0xF8, 0xF8) && Quantize(Black) == Black;
    assert OverwriteCell(tall, 0, 0) == frame[0];
    assert DiffCell(short, frame[0], 0, 0) == frame[0];
    assert OverwriteCell(short, 0, 0) == BlankCell;
    assert !ChangedAt(short, frame, 0, 0);
    assert DiffRow(short, frame, (0, 0), 0, 1) == [];
    assert DiffRows(short, frame, (0, 0), 1) == [];
  }

  /**
   * The cell the diff path should store: the top pixel and, on the half-used last row, a
   * black bottom half: the cell a full redraw stores.  It is the cell of the as-written diff
   * path except for that bottom half.
   */
  function DiffCellFixed(img: ImageRef, c: int, r: int): (cell: Cell)
    requires Renderable(img) && 0 <= c < img.size.0 && 0 <= r < Rows(img)
    ensures forall before: Cell :: cell.top == DiffCell(img, before, c, r).top
    ensures forall before: Cell :: 2 * r + 1 < img.size.1 ==> cell == DiffCell(img, before, c, r)
  {
    OverwriteCell(img, c, r)
  }

  /** `cells` is what the corrected diff path makes of any previous frame of the same size. */
  ghost predicate IsFixedDiffOf(cells: seq<Cell>, before: seq<Cell>, img: ImageRef)
    requires Renderable(img)
  {
    |cells| == img.size.0 * Rows(img) && |before| == |cells| &&
    forall r, c | 0 <= r < Rows(img) && 0 <= c < img.size.0 :: CellAt(cells, img.size.0, r, c) == DiffCellFixed(img, c, r)
  }

  /**
   * With the correction, the diff path ends where a full redraw ends, whatever the previous
   * frame held, and the commands it sends take a terminal showing the previous frame to one
   * showing that frame.
   */
  lemma FixedDiffShowsRedrawFrame(t0: Term, img: ImageRef, before: seq<Cell>, cells: seq<Cell>, offset: (u16, u16))
    requires Renderable(img) && Fits(img.size.0, Rows(img), offset)
    requires IsFixedDiffOf(cells, before, img)
    requires Shows(t0, before, img.size.0, Rows(img), offset)
    ensures IsOverwriteOf(cells, img)
    ensures var t := Exec(t0, FrameDiffRows(before, cells, img.size.0, offset, Rows(img)));
      Shows(t, cells, img.size.0, Rows(img), offset) && SameOutside(t0, t, offset, img.size.0, Rows(img))
  {
    var w, rows := img.size.0, Rows(img);
    forall r, c | 0 <= r < rows && 0 <= c < w
      ensures CellAt(cells, w, r, c) == OverwriteCell(img, c, r)
    {
      assert CellAt(cells, w, r, c) == DiffCellFixed(img, c, r);
    }
    ExecFrameDiffRows(t0, before, cells, w, rows, offset, rows);
  }
}
