/**
 * The older, single-file terminal sink `src/terminal_sink.rs`: its own copy of the sample
 * pipe (with `OtherPipeQuit` for `Closed` and no `close`), the `TOP_BIT` size cache, the
 * `renderer_enabled` test, and a `render_sample` that draws every pixel-row pair of a
 * thumbnail directly, with no quantisation and no diffing.
 */
module LegacySink {
  import opened Wrappers
  import opened Primitives
  import opened Layout
  import opened Resize
  import opened Output
  import opened DiffLemmas
  import opened TerminalSink
  import VideoPipe

  /** `RenderState` of this revision. */
  datatype LegacyState = NoSample | HasSample(sample: VideoPipe.Sample, pulled: bool) | OtherPipeQuit

  /** The calls of this revision: there is no `close`, only the drop of either pipe end. */
  datatype LegacyOp = Push(sample: VideoPipe.Sample) | Pull | Reload(alive: bool) | DropPipe

  /** `push_sample`, `pull_sample`, `reload_sample` and `Drop for RenderingContextPipe` of this revision. */
  function LegacyStep(s: LegacyState, op: LegacyOp): (r: (LegacyState, VideoPipe.Reply))
    ensures r.0.OtherPipeQuit? <==> s.OtherPipeQuit? || op.DropPipe?
    ensures s.OtherPipeQuit? && !op.DropPipe? ==> r.1 == VideoPipe.Refused
    ensures r.1.Pulled? <==> op.Pull? && s.HasSample? && !s.pulled
    ensures r.1.Pulled? ==> r.1.sample == s.sample && r.0 == HasSample(s.sample, true)
  {
    match op
    case Push(x) =>
      if s.OtherPipeQuit? then (s, VideoPipe.Refused) else (HasSample(x, false), VideoPipe.Done)
    case DropPipe => (OtherPipeQuit, VideoPipe.Done)
    case Pull =>
      (match s
       case HasSample(x, false) => (HasSample(x, true), VideoPipe.Pulled(x))
       case OtherPipeQuit => (s, VideoPipe.Refused)
       case _ => (s, VideoPipe.WouldWait))
    case Reload(alive) =>
      if !alive || s.OtherPipeQuit? then (s, VideoPipe.Refused)
      else if s.HasSample? then (HasSample(s.sample, false), VideoPipe.Done)
      else (s, VideoPipe.Done)
  }

  /** The states of the two revisions, `Closed` read as `OtherPipeQuit`. */
  function FromVideoPipe(s: VideoPipe.RenderState): LegacyState {
    match s
    case NoSample => NoSample
    case HasSample(x, pulled) => HasSample(x, pulled)
    case Closed => OtherPipeQuit
  }

  function AsVideoPipeOp(op: LegacyOp): VideoPipe.Op {
    match op
    case Push(x) => VideoPipe.Push(x)
    case Pull => VideoPipe.Pull
    case Reload(alive) => VideoPipe.Reload(alive)
    case DropPipe => VideoPipe.DropPipe
  }

  /** Every call of this revision does what the same call of `video_pipe.rs` does, state for state and result for result. */
  lemma LegacyStepMatchesVideoPipe(s: VideoPipe.RenderState, op: LegacyOp)
    ensures var r := VideoPipe.Step(s, AsVideoPipeOp(op));
      LegacyStep(FromVideoPipe(s), op) == (FromVideoPipe(r.0), r.1)
  {
  }

  /** The same for every state of this revision: the renaming is onto. */
  lemma LegacyStatesAreVideoPipeStates(s: LegacyState)
    ensures exists t :: FromVideoPipe(t) == s
  {
    match s
    case NoSample => assert FromVideoPipe(VideoPipe.NoSample) == s;
    case HasSample(x, pulled) => assert FromVideoPipe(VideoPipe.HasSample(x, pulled)) == s;
    case OtherPipeQuit => assert FromVideoPipe(VideoPipe.Closed) == s;
  }

  /** `RenderingContext` of this revision: the state under its mutex. */
  class LegacyRenderingContext {
    var state: LegacyState

    /** `video_pipe()`: the pipe starts with no sample. */
    constructor ()
      ensures state == NoSample
    {
      state := NoSample;
    }

    /** `SampleProducer::push_sample` */
    method PushSample(sample: VideoPipe.Sample) returns (ok: bool)
      modifies this
      ensures ok <==> !old(state).OtherPipeQuit?
      ensures ok ==> state == HasSample(sample, false)
      ensures !ok ==> state == OtherPipeQuit
      ensures (state, if ok then VideoPipe.Done else VideoPipe.Refused) == LegacyStep(old(state), Push(sample))
    {
      match state {
        case HasSample(_, false) =>
          state := HasSample(sample, false);
        case OtherPipeQuit =>
          return false;
        case _ =>
          state := HasSample(sample, false);
      }
      return true;
    }

    /** `SampleConsumer::pull_sample`, one pass of its loop; `WouldWait` stands for the condition-variable wait. */
    method PullSample() returns (r: VideoPipe.Reply)
      modifies this
      ensures old(state).OtherPipeQuit? ==> r == VideoPipe.Refused && state == OtherPipeQuit
      ensures old(state).HasSample? && !old(state).pulled ==> r == VideoPipe.Pulled(old(state).sample) && state == HasSample(old(state).sample, true)
      ensures (old(state).NoSample? || (old(state).HasSample? && old(state).pulled)) ==> r == VideoPipe.WouldWait && state == old(state)
      ensures (state, r) == LegacyStep(old(state), Pull)
    {
      match state {
        case NoSample =>
          r := VideoPipe.WouldWait;
        case HasSample(sample, pulled) =>
          if pulled {
            r := VideoPipe.WouldWait;
          } else {
            state := HasSample(sample, true);
            r := VideoPipe.Pulled(sample);
          }
        case OtherPipeQuit =>
          r := VideoPipe.Refused;
      }
    }

    /** `SampleReloader::reload_sample`; `alive` is whether `Weak::upgrade` succeeded. */
    method ReloadSample(alive: bool) returns (ok: bool)
      modifies this
      ensures ok <==> alive && !old(state).OtherPipeQuit?
      ensures alive && old(state).HasSample? ==> state == HasSample(old(state).sample, false)
      ensures !(alive && old(state).HasSample?) ==> state == old(state)
      ensures (state, if ok then VideoPipe.Done else VideoPipe.Refused) == LegacyStep(old(state), Reload(alive))
    {
      if !alive {
        return false;
      }
      match state {
        case NoSample =>
          ok := true;
        case HasSample(sample, _) =>
          state := HasSample(sample, false);
          ok := true;
        case OtherPipeQuit =>
          ok := false;
      }
    }

    /** `Drop for RenderingContextPipe`: either end going away leaves the other end `OtherPipeQuit`. */
    method DropPipe()
      modifies this
      ensures state == OtherPipeQuit
      ensures state == LegacyStep(old(state), LegacyOp.DropPipe).0
    {
      state := OtherPipeQuit;
    }
  }

  /** `store_new_size` and `load_size_from_cache` of `run_renderer_thread`, around the `AtomicU64`. */
  class LegacySizeCache {
    var value: u64

    constructor ()
      ensures value == 0
    {
      value := 0;
    }

    /** `store_new_size`: `(num as u64) | TOP_BIT`, with `TOP_BIT` the same bit as `DynamicSize::TAG_BIT`. */
    method StoreNewSize(size: (u16, u16))
      modifies this
      ensures value == StoredValue(size) && UnpackSize(value) == size && Tagged(value)
    {
      PackSizeRoundTrip(size);
      value := StoredValue(size);
    }

    /** `load_size_from_cache`: `fetch_and(!TOP_BIT)`, then the size and whether the top bit was set. */
    method LoadSizeFromCache() returns (size: (u16, u16), changed: bool)
      modifies this
      ensures size == UnpackSize(old(value)) && changed == Tagged(old(value))
      ensures value == ClearTag(old(value)) && !Tagged(value) && UnpackSize(value) == size
    {
      var v := value;
      value := ClearTag(v);
      ClearTagKeepsSize(v);
      size, changed := UnpackSize(v), Tagged(v);
    }
  }

  /** `renderer_enabled` of this revision: on when `NO_DISPLAY_OUTPUT` is unset or its bytes start with `n`. */
  function LegacyRendererEnabled(noDisplayOutput: Option<seq<byte>>): (r: bool)
    ensures noDisplayOutput.None? ==> r
    ensures noDisplayOutput.Some? ==> (r <==> |noDisplayOutput.value| > 0 && noDisplayOutput.value[0] == 0x6E)
  {
    match noDisplayOutput
    case None => true
    case Some(s) => |s| >= 1 && s[..1] == [0x6E]
  }

  /**
   * The two revisions agree when the variable is unset, spells `y` or `yes`, or starts with a
   * lower-case `n`; an empty value turns the older renderer off and the newer one on.
   */
  lemma RendererEnabledRevisions(v: seq<byte>)
    ensures LegacyRendererEnabled(None) && RendererEnabled(None)
    ensures Ascii.Spells(v, Y) || Ascii.Spells(v, Yes) ==> !LegacyRendererEnabled(Some(v)) && !RendererEnabled(Some(v))
    ensures |v| > 0 && v[0] == 0x6E ==> LegacyRendererEnabled(Some(v)) && RendererEnabled(Some(v))
    ensures !LegacyRendererEnabled(Some([])) && RendererEnabled(Some([]))
  {
    if Ascii.Spells(v, Y) || Ascii.Spells(v, Yes) {
      assert Ascii.SameLetter(v[0], 0x79);
    }
    if |v| > 0 && v[0] == 0x6E {
      assert !Ascii.SameLetter(v[0], 0x79);
      assert !Ascii.Spells(v, Y) && !Ascii.Spells(v, Yes);
    }
  }

  /** `ImageBuffer::from_raw` as the `image` crate defines it: `None` unless the buffer holds at least `w * h` RGB triples. */
  function FromRaw(width: u32, height: u32, buffer: seq<byte>): (r: Option<(u32, u32)>)
    ensures r.Some? <==> 3 * width * height < USIZE_LIMIT && 3 * width * height <= |buffer|
    ensures r.Some? ==> r.value == (width, height)
  {
    match CheckedMulUsize(3, width)
    case None => None
    case Some(n) =>
      match CheckedMulUsize(n, height)
      case None => None
      case Some(len) => if len <= |buffer| then Some((width, height)) else None
  }

  /** The checks at the start of this revision's `render_sample`, in order, and the video size they yield. */
  function LegacyDecode(sample: SampleData): (r: Result<(u32, u32), RenderError>)
    ensures r == Err(NoCaps) <==> sample.caps.None?
    ensures r == Err(BadCaps) <==> sample.caps == Some(None)
    ensures r == Err(NoBuffer) <==> sample.caps.Some? && sample.caps.value.Some? && sample.buffer.None?
    ensures r == Err(NotReadable) <==> sample.caps.Some? && sample.caps.value.Some? && sample.buffer == Some(None)
    ensures r == Err(InvalidDivisions) <==>
      (sample.caps.Some? && sample.caps.value.Some? && sample.buffer.Some? && sample.buffer.value.Some? &&
       FromRaw(sample.caps.value.value.0, sample.caps.value.value.1, sample.buffer.value.value).None?)
    ensures r.Ok? ==> r.value == sample.caps.value.value
  {
    match sample.caps
    case None => Err(NoCaps)
    case Some(None) => Err(BadCaps)
    case Some(Some(info)) =>
      match sample.buffer
      case None => Err(NoBuffer)
      case Some(None) => Err(NotReadable)
      case Some(Some(bytes)) =>
        match FromRaw(info.0, info.1, bytes)
        case None => Err(InvalidDivisions)
        case Some(size) => Ok(size)
  }

  /**
   * The half blocks of the first `n` columns of pixel rows `j` and `j + 1`: the top pixel
   * in the foreground, the bottom pixel in the background.
   */
  function PairCells(img: ImageRef, j: nat, n: nat): (cmds: seq<Command>)
    requires img.Valid() && j + 1 < img.size.1 && n <= img.size.0
    ensures |cmds| == n
    ensures forall c | 0 <= c < n ::
      cmds[c] == Draw(Cell(GetPixelUnchecked(img, c, j), GetPixelUnchecked(img, c, j + 1)))
  {
    if n == 0 then []
    else PairCells(img, j, n - 1) + [Draw(Cell(GetPixelUnchecked(img, n - 1, j), GetPixelUnchecked(img, n - 1, j + 1)))]
  }

  /** The foreground-only half blocks of the first `n` columns of the unpaired last pixel row `j`. */
  function TopCells(img: ImageRef, j: nat, n: nat): (cmds: seq<Command>)
    requires img.Valid() && j < img.size.1 && n <= img.size.0
    ensures |cmds| == n
    ensures forall c | 0 <= c < n :: cmds[c] == DrawForeground(GetPixelUnchecked(img, c, j))
  {
    if n == 0 then []
    else TopCells(img, j, n - 1) + [DrawForeground(GetPixelUnchecked(img, n - 1, j))]
  }

  /** Output row `k`: the cursor move to its start, then one half block per column. */
  function LegacyRow(img: ImageRef, offset: (u16, u16), k: nat): (cmds: seq<Command>)
    requires img.Valid() && 2 * k < img.size.1 && offset.1 + HalfUp(img.size.1) <= U16_LIMIT
    ensures |cmds| == img.size.0 + 1
  {
    [Goto(offset.0, offset.1 + k)] +
    if 2 * k + 1 < img.size.1 then PairCells(img, 2 * k, img.size.0) else TopCells(img, 2 * k, img.size.0)
  }

  /** The first `n` output rows. */
  function LegacyRows(img: ImageRef, offset: (u16, u16), n: nat): (cmds: seq<Command>)
    requires img.Valid() && n <= HalfUp(img.size.1) && offset.1 + HalfUp(img.size.1) <= U16_LIMIT
  {
    if n == 0 then [] else LegacyRows(img, offset, n - 1) + LegacyRow(img, offset, n - 1)
  }

  /** Every output row is a cursor move and one half block per column. */
  lemma {:induction false} LegacyRowsLength(img: ImageRef, offset: (u16, u16), n: nat)
    requires img.Valid() && n <= HalfUp(img.size.1) && offset.1 + HalfUp(img.size.1) <= U16_LIMIT
    ensures |LegacyRows(img, offset, n)| == n * (img.size.0 + 1)
  {
    if n > 0 {
      LegacyRowsLength(img, offset, n - 1);
      assert n * (img.size.0 + 1) == (n - 1) * (img.size.0 + 1) + (img.size.0 + 1);
    }
  }

  /** Fewer rows are a prefix of more rows. */
  lemma {:induction false} LegacyRowsPrefix(img: ImageRef, offset: (u16, u16), a: nat, n: nat)
    requires img.Valid() && a <= n <= HalfUp(img.size.1) && offset.1 + HalfUp(img.size.1) <= U16_LIMIT
    ensures LegacyRows(img, offset, a) <= LegacyRows(img, offset, n)
  {
    if a < n {
      LegacyRowsPrefix(img, offset, a, n - 1);
    }
  }

  /** Command `i` of output row `k` sits at `k * (width + 1) + i` of all rows. */
  lemma LegacyRowsAt(img: ImageRef, offset: (u16, u16), k: nat, i: nat)
    requires img.Valid() && offset.1 + HalfUp(img.size.1) <= U16_LIMIT
    requires k < HalfUp(img.size.1) && i <= img.size.0
    ensures var cmds := LegacyRows(img, offset, HalfUp(img.size.1));
      k * (img.size.0 + 1) + img.size.0 + 1 <= |cmds| &&
      cmds[k * (img.size.0 + 1) + i] == LegacyRow(img, offset, k)[i]
  {
    var rows, m := HalfUp(img.size.1), img.size.0 + 1;
    LegacyRowsPrefix(img, offset, k + 1, rows);
    var upTo := LegacyRows(img, offset, k + 1);
    assert upTo == LegacyRows(img, offset, k) + LegacyRow(img, offset, k);
    LegacyRowsLength(img, offset, k);
    assert |upTo| == k * m + m;
  }

  /** Output row `k` starts with the cursor move to column `offset.0` of terminal row `offset.1 + k`. */
  lemma LegacyRowStartsWithGoto(img: ImageRef, offset: (u16, u16), k: nat)
    requires img.Valid() && offset.1 + HalfUp(img.size.1) <= U16_LIMIT
    requires k < HalfUp(img.size.1)
    ensures var cmds := LegacyRows(img, offset, HalfUp(img.size.1));
      k * (img.size.0 + 1) < |cmds| && cmds[k * (img.size.0 + 1)] == Goto(offset.0, offset.1 + k)
  {
    LegacyRowsAt(img, offset, k, 0);
  }

  /**
   * After the cursor move of output row `k`, column `c` is the half block of pixel `(c, 2k)`
   * over pixel `(c, 2k + 1)`, or, on the unpaired last row, pixel `(c, 2k)` alone.
   */
  lemma LegacyRowCell(img: ImageRef, offset: (u16, u16), k: nat, c: nat)
    requires img.Valid() && offset.1 + HalfUp(img.size.1) <= U16_LIMIT
    requires k < HalfUp(img.size.1) && c < img.size.0
    ensures var cmds := LegacyRows(img, offset, HalfUp(img.size.1));
      k * (img.size.0 + 1) + 1 + c < |cmds| &&
      cmds[k * (img.size.0 + 1) + 1 + c] ==
        if 2 * k + 1 < img.size.1 then Draw(Cell(GetPixelUnchecked(img, c, 2 * k), GetPixelUnchecked(img, c, 2 * k + 1)))
        else DrawForeground(GetPixelUnchecked(img, c, 2 * k))
  {
    LegacyRowsAt(img, offset, k, 1 + c);
  }

  /** `HalfUp(h)` output rows of `width + 1` commands each, so one `Goto` per output row. */
  lemma LegacyRowsCount(img: ImageRef, offset: (u16, u16))
    requires img.Valid() && offset.1 + HalfUp(img.size.1) <= U16_LIMIT
    ensures |LegacyRows(img, offset, HalfUp(img.size.1))| == HalfUp(img.size.1) * (img.size.0 + 1)
  {
    LegacyRowsLength(img, offset, HalfUp(img.size.1));
  }

  /** The pair row: `for (top, bottom) in first_row.zip(second_row)`. */
  method DrawPairRow(img: ImageRef, j: nat, screenBuffer: CommandBuffer)
    requires img.Valid() && j + 1 < img.size.1
    modifies screenBuffer
    ensures screenBuffer.commands == old(screenBuffer.commands) + PairCells(img, j, img.size.0)
  {
    var c := 0;
    while c < img.size.0
      invariant c <= img.size.0
      invariant screenBuffer.commands == old(screenBuffer.commands) + PairCells(img, j, c)
    {
      screenBuffer.Push(Draw(Cell(GetPixelUnchecked(img, c, j), GetPixelUnchecked(img, c, j + 1))));
      c := c + 1;
    }
  }

  /** The unpaired last row: `for &cell in first_row`, foreground only. */
  method DrawTopRow(img: ImageRef, j: nat, screenBuffer: CommandBuffer)
    requires img.Valid() && j < img.size.1
    modifies screenBuffer
    ensures screenBuffer.commands == old(screenBuffer.commands) + TopCells(img, j, img.size.0)
  {
    var c := 0;
    while c < img.size.0
      invariant c <= img.size.0
      invariant screenBuffer.commands == old(screenBuffer.commands) + TopCells(img, j, c)
    {
      screenBuffer.Push(DrawForeground(GetPixelUnchecked(img, c, j)));
      c := c + 1;
    }
  }

  /** One pass of the `'rendering` loop: the cursor move, then the pair of pixel rows or the last row alone. */
  method RenderRow(img: ImageRef, offset: (u16, u16), current: nat, screenBuffer: CommandBuffer)
    requires img.Valid() && offset.1 + HalfUp(img.size.1) <= U16_LIMIT && 2 * current < img.size.1
    modifies screenBuffer
    ensures screenBuffer.commands == old(screenBuffer.commands) + LegacyRow(img, offset, current)
  {
    screenBuffer.Push(Goto(offset.0, offset.1 + current));
    if 2 * current + 1 >= img.size.1 {
      DrawTopRow(img, 2 * current, screenBuffer);
    } else {
      DrawPairRow(img, 2 * current, screenBuffer);
    }
  }

  /**
   * The `'rendering` loop: take pixel rows two at a time, move the cursor to the start of
   * output row `current`, draw the pair, or draw the last row alone and stop.
   */
  method RenderRows(img: ImageRef, offset: (u16, u16), screenBuffer: CommandBuffer)
    requires img.Valid() && offset.1 + HalfUp(img.size.1) <= U16_LIMIT
    modifies screenBuffer
    ensures screenBuffer.commands == old(screenBuffer.commands) + LegacyRows(img, offset, HalfUp(img.size.1))
  {
    var next: nat := 0;
    var current: nat := 0;
    while next < img.size.1
      invariant next == 2 * current && current <= HalfUp(img.size.1)
      invariant screenBuffer.commands == old(screenBuffer.commands) + LegacyRows(img, offset, current)
    {
      var lastRow := next + 1 >= img.size.1;
      RenderRow(img, offset, current, screenBuffer);
      assert LegacyRows(img, offset, current + 1) == LegacyRows(img, offset, current) + LegacyRow(img, offset, current);
      AppendAssoc(old(screenBuffer.commands), LegacyRows(img, offset, current), LegacyRow(img, offset, current));
      if lastRow {
        current := current + 1;
        break;
      }
      next := next + 2;
      current := current + 1;
    }
    assert current == HalfUp(img.size.1);
  }

  /**
   * This revision's `render_sample`.  `fitted` is the opaque `resize_dimensions` result and
   * `thumbnail` the pixels of `image::imageops::thumbnail` at the target size, both foreign.
   */
  method LegacyRenderSample(sample: SampleData, termSize: (u16, u16), freshRedraw: bool, fitted: (u32, u32),
                            thumbnail: seq<Rgb>, screenBuffer: CommandBuffer)
    returns (r: Result<(), RenderError>)
    requires TargetSize(fitted).0 <= termSize.0 && HalfUp(TargetSize(fitted).1) <= termSize.1
    requires |thumbnail| == TargetSize(fitted).0 * TargetSize(fitted).1
    modifies screenBuffer
    ensures r.Err? <==> LegacyDecode(sample).Err?
    ensures r.Err? ==> r.error == LegacyDecode(sample).error && screenBuffer.commands == []
    ensures r.Ok? ==>
      var target := TargetSize(fitted);
      var img := ImageRef((target.0, target.1), thumbnail);
      screenBuffer.commands ==
        (if freshRedraw then [Clear] else []) + LegacyRows(img, CentringOffset(termSize, target), HalfUp(target.1))
  {
    screenBuffer.Clear();
    var decoded := LegacyDecode(sample);
    if decoded.Err? {
      return Err(decoded.error);
    }
    if freshRedraw {
      screenBuffer.Push(Clear);
    }
    var newWidth, newHeight := TruncU16(fitted.0), TruncU16(fitted.1);
    var resized := ImageRef((newWidth, newHeight), thumbnail);
    var offset := CentringOffset(termSize, (newWidth, newHeight));
    RenderRows(resized, offset, screenBuffer);
    return Ok(());
  }
}
