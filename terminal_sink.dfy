/**
 * The glue of `src/terminal_sink/mod.rs` around the renderer: 1-based cursor positions,
 * the `USE_STDOUT` / `NO_DISPLAY_OUTPUT` flag reader, the two terminal-size loaders, and
 * `render_sample`, which sizes a decoded sample to the terminal, centres it and hands it to
 * the frame renderer.
 */
module TerminalSink {
  import opened Wrappers
  import opened Primitives
  import opened Ascii
  import opened Resize
  import opened Output
  import opened Diff
  import opened DiffLemmas

  /** `cursor_goto(x, y)`: termion counts columns and rows from 1, so both grow by one, saturating at `u16::MAX`. */
  function CursorGoto(x: u16, y: u16): (p: (u16, u16))
    ensures 1 <= p.0 && 1 <= p.1
    ensures x < U16_MAX ==> p.0 - 1 == x
    ensures y < U16_MAX ==> p.1 - 1 == y
    ensures x == U16_MAX ==> p.0 == U16_MAX
    ensures y == U16_MAX ==> p.1 == U16_MAX
  {
    (SaturatingAddU16(x, 1), SaturatingAddU16(y, 1))
  }

  /** Positions below the last column and row reach distinct terminal positions; the last two collapse. */
  lemma CursorGotoInjective(x1: u16, y1: u16, x2: u16, y2: u16)
    requires x1 < U16_MAX && y1 < U16_MAX && x2 < U16_MAX && y2 < U16_MAX
    ensures CursorGoto(x1, y1) == CursorGoto(x2, y2) <==> x1 == x2 && y1 == y2
  {
  }

  lemma CursorGotoSaturates(y: u16)
    ensures CursorGoto(U16_MAX - 1, y) == CursorGoto(U16_MAX, y)
  {
  }

  const Y: seq<byte> := [0x79]
  const Yes: seq<byte> := [0x79, 0x65, 0x73]

  /** Both words are written in lower case, as the comparisons after lower-casing need. */
  lemma WordsAreLower()
    ensures forall k | 0 <= k < |Y| :: IsLower(Y[k])
    ensures forall k | 0 <= k < |Yes| :: IsLower(Yes[k])
  {
    forall k | 0 <= k < |Yes|
      ensures IsLower(Yes[k])
    {
      assert k == 0 || k == 1 || k == 2;
    }
  }

  /**
   * `flag(name, default)`, given the variable's value (`None` when unset): the default when
   * unset, otherwise whether the value spells `y` or `yes` in any mix of cases.
   */
  function Flag(value: Option<seq<byte>>, default: bool): (r: bool)
    ensures value.None? ==> r == default
    ensures value.Some? ==> (r <==> Spells(value.value, Y) || Spells(value.value, Yes))
  {
    match value
    case None => default
    case Some(s) =>
      WordsAreLower();
      LowerBytesEqualsIff(s, Y);
      LowerBytesEqualsIff(s, Yes);
      var lower := LowerBytes(s);
      lower == Y || lower == Yes
  }

  /** `renderer_enabled` in `create`: on unless `NO_DISPLAY_OUTPUT` spells `y` or `yes`. */
  function RendererEnabled(noDisplayOutput: Option<seq<byte>>): (r: bool)
    ensures r <==> noDisplayOutput.None? || !(Spells(noDisplayOutput.value, Y) || Spells(noDisplayOutput.value, Yes))
  {
    !Flag(noDisplayOutput, false)
  }

  /** `TerminalSizeLoadResult` */
  datatype SizeLoad = SizeLoad(changed: bool, size: (u16, u16))

  /** The values an `AtomicU64` holds. */
  type u64 = x: int | 0 <= x < 0x1_0000_0000_0000_0000

  /**
   * `DynamicSize::TAG_BIT`, `1 << 63`: set by every store, cleared by every load.  The bit
   * operations on the cache are written as arithmetic: the packed size is below `2^32`, so
   * setting the top bit adds `TAG_BIT`, clearing it takes the value modulo `TAG_BIT`, and
   * the cast to `u32` takes it modulo `2^32`.
   */
  const TAG_BIT: int := 0x8000_0000_0000_0000

  /** `must_cast::<[u16; 2], u32>([lo, hi])` on a little-endian machine: `lo` in the low 16 bits, `hi` above. */
  function PackSize(size: (u16, u16)): (v: u64)
    ensures v < U32_LIMIT
  {
    size.0 + size.1 * U16_LIMIT
  }

  /** `store_new_size`: the packed size with the tag bit set. */
  function StoredValue(size: (u16, u16)): (v: u64)
    ensures Tagged(v)
  {
    PackSize(size) + TAG_BIT
  }

  /** `(value & TAG_BIT) != 0` */
  predicate Tagged(v: u64) {
    v >= TAG_BIT
  }

  /** `value & !TAG_BIT` */
  function ClearTag(v: u64): (r: u64)
    ensures !Tagged(r)
    ensures !Tagged(v) ==> r == v
  {
    v % TAG_BIT
  }

  /** `must_cast::<u32, [u16; 2]>(value as u32)`: the low 16 bits are the width, the next 16 the height. */
  function UnpackSize(v: u64): (size: (u16, u16))
  {
    var low := v % U32_LIMIT;
    (low % U16_LIMIT, low / U16_LIMIT)
  }

  /** Unpacking a stored value gives back the stored size. */
  lemma PackSizeRoundTrip(size: (u16, u16))
    ensures UnpackSize(StoredValue(size)) == size
    ensures UnpackSize(PackSize(size)) == size
  {
    var p := PackSize(size);
    assert StoredValue(size) % U32_LIMIT == p by {
      assert StoredValue(size) == p + 0x8000_0000 * U32_LIMIT;
    }
  }

  /** Clearing the tag bit, as a load does, keeps the size. */
  lemma ClearTagKeepsSize(v: u64)
    ensures UnpackSize(ClearTag(v)) == UnpackSize(v)
  {
    if Tagged(v) {
      assert ClearTag(v) == v - TAG_BIT;
      assert TAG_BIT == 0x8000_0000 * U32_LIMIT;
      assert (v - TAG_BIT) % U32_LIMIT == v % U32_LIMIT;
    }
  }

  /** Different sizes are stored as different values. */
  lemma StoredValueInjective(a: (u16, u16), b: (u16, u16))
    ensures StoredValue(a) == StoredValue(b) <==> a == b
  {
    PackSizeRoundTrip(a);
    PackSizeRoundTrip(b);
  }

  /**
   * A store followed by two loads: the first load reports the stored size as changed, the
   * second reports the same size as unchanged, since the first cleared the tag bit.
   */
  lemma StoreThenLoadTwice(size: (u16, u16))
    ensures var stored := StoredValue(size);
      var afterFirst := ClearTag(stored);
      Tagged(stored) && UnpackSize(stored) == size &&
      !Tagged(afterFirst) && UnpackSize(afterFirst) == size &&
      ClearTag(afterFirst) == afterFirst
  {
    PackSizeRoundTrip(size);
    ClearTagKeepsSize(StoredValue(size));
  }

  /**
   * `DynamicSize`: the shared `AtomicU64` size cache, written by the terminal-size updater and
   * read by the renderer thread.  Each atomic operation is one step.
   */
  class DynamicSize {
    var sizeCache: u64

    /** `AtomicU64::new(0)` */
    constructor ()
      ensures sizeCache == 0
    {
      sizeCache := 0;
    }

    /** `store_new_size`, run by the updater for each new terminal size. */
    method StoreNewSize(size: (u16, u16))
      modifies this
      ensures sizeCache == StoredValue(size)
      ensures UnpackSize(sizeCache) == size && Tagged(sizeCache)
    {
      PackSizeRoundTrip(size);
      sizeCache := StoredValue(size);
    }

    /** `DynamicSize::load`: `fetch_and(!TAG_BIT)`, reporting the size and whether the tag was set. */
    method Load() returns (r: SizeLoad)
      modifies this
      ensures r == SizeLoad(Tagged(old(sizeCache)), UnpackSize(old(sizeCache)))
      ensures sizeCache == ClearTag(old(sizeCache))
      ensures !Tagged(sizeCache) && UnpackSize(sizeCache) == r.size
    {
      var value := sizeCache;
      sizeCache := ClearTag(value);
      ClearTagKeepsSize(value);
      r := SizeLoad(Tagged(value), UnpackSize(value));
    }
  }

  /** `StaticSize`: a size fixed on the command line. */
  class StaticSize {
    const size: (u16, u16)
    var firstFetch: bool
    /** How many loads there have been. */
    ghost var loads: nat

    ghost predicate Valid()
      reads this
    {
      firstFetch <==> loads == 0
    }

    /** `StaticSize::new` */
    constructor (size: (u16, u16))
      ensures Valid() && this.size == size && loads == 0
    {
      this.size := size;
      firstFetch := true;
      loads := 0;
    }

    /** `StaticSize::load`: always the fixed size, reported as changed on the first load only. */
    method Load() returns (r: SizeLoad)
      requires Valid()
      modifies this
      ensures Valid() && loads == old(loads) + 1
      ensures r.size == size
      ensures r.changed <==> old(loads) == 0
    {
      r := SizeLoad(firstFetch, size);
      firstFetch := false;
      loads := loads + 1;
    }
  }

  /**
   * `pixels_available`: the terminal's width in pixels, and its height in pixels, two per
   * row, saturated to `u16`.  An image that tall always fits in the terminal's rows, and
   * without saturation it fills them.
   */
  function PixelsAvailable(termSize: (u16, u16)): (p: (u16, u16))
    ensures p.0 == termSize.0
    ensures HalfUp(p.1) <= termSize.1
    ensures 2 * termSize.1 <= U16_MAX ==> p.1 == 2 * termSize.1
    ensures 2 * termSize.1 > U16_MAX ==> p.1 == U16_MAX
  {
    (termSize.0, SaturatingMulU16(termSize.1, 2))
  }

  /** `x as u16` on a `u32`: the low 16 bits. */
  function TruncU16(x: u32): (r: u16)
    ensures x < U16_LIMIT ==> r == x
    ensures (x - r) % U16_LIMIT == 0
  {
    x % U16_LIMIT
  }

  /**
   * `offset` in `render_sample`: the top-left cell that centres a `fitted` image in the
   * terminal.  The `u16` subtractions need the image to fit.
   */
  function CentringOffset(termSize: (u16, u16), fitted: (u16, u16)): (offset: (u16, u16))
    requires fitted.0 <= termSize.0 && HalfUp(fitted.1) <= termSize.1
    ensures offset.0 + fitted.0 <= termSize.0 && offset.1 + HalfUp(fitted.1) <= termSize.1
    ensures 2 * offset.0 <= termSize.0 - fitted.0 <= 2 * offset.0 + 1
    ensures 2 * offset.1 <= termSize.1 - HalfUp(fitted.1) <= 2 * offset.1 + 1
    ensures Fits(fitted.0, HalfUp(fitted.1), offset)
  {
    ((termSize.0 - fitted.0) / 2, (termSize.1 - HalfUp(fitted.1)) / 2)
  }

  /**
   * The same `offset` for any target, as a release build computes it: a target wider or
   * taller than the terminal makes the `u16` subtractions wrap (a debug build panics there).
   */
  function CentringOffsetAsWritten(termSize: (u16, u16), fitted: (u16, u16)): (offset: (u16, u16))
    ensures fitted.0 <= termSize.0 && HalfUp(fitted.1) <= termSize.1 ==> offset == CentringOffset(termSize, fitted)
    ensures fitted.0 > termSize.0 ==> offset.0 + fitted.0 >= U16_LIMIT / 2
    ensures HalfUp(fitted.1) > termSize.1 ==> offset.1 + HalfUp(fitted.1) >= U16_LIMIT / 2
  {
    (SubU16(termSize.0, fitted.0) / 2, SubU16(termSize.1, HalfUp(fitted.1)) / 2)
  }

  /**
   * The offset with the subtractions saturating: a dimension that does not fit is placed at
   * the terminal's edge instead of tens of thousands of cells away.
   */
  function CentringOffsetSaturating(termSize: (u16, u16), fitted: (u16, u16)): (offset: (u16, u16))
    ensures fitted.0 <= termSize.0 && HalfUp(fitted.1) <= termSize.1 ==> offset == CentringOffset(termSize, fitted)
    ensures fitted.0 > termSize.0 ==> offset.0 == 0
    ensures HalfUp(fitted.1) > termSize.1 ==> offset.1 == 0
    ensures 2 * offset.0 <= termSize.0 && 2 * offset.1 <= termSize.1
  {
    (if fitted.0 <= termSize.0 then (termSize.0 - fitted.0) / 2 else 0,
     if HalfUp(fitted.1) <= termSize.1 then (termSize.1 - HalfUp(fitted.1)) / 2 else 0)
  }

  /** The `element_error!` reasons `render_sample` gives up with. */
  datatype RenderError = NoCaps | BadCaps | NoBuffer | NotReadable | InvalidDivisions

  /**
   * What `render_sample` reads from a `gst::Sample`: its caps (`None` when it has none, `Some(None)`
   * when `VideoInfo::from_caps` fails, else the video's width and height) and its buffer
   * (`None` when it has none, `Some(None)` when it cannot be mapped readable).
   */
  datatype SampleData = SampleData(caps: Option<Option<(u32, u32)>>, buffer: Option<Option<seq<byte>>>)

  /** The checks at the start of `render_sample`, in order, and the image they yield. */
  function DecodeSample(sample: SampleData): (r: Result<ImageRef, RenderError>)
    ensures r == Err(NoCaps) <==> sample.caps.None?
    ensures r == Err(BadCaps) <==> sample.caps == Some(None)
    ensures r == Err(NoBuffer) <==> sample.caps.Some? && sample.caps.value.Some? && sample.buffer.None?
    ensures r == Err(NotReadable) <==> sample.caps.Some? && sample.caps.value.Some? && sample.buffer == Some(None)
    ensures r == Err(InvalidDivisions) <==>
      (sample.caps.Some? && sample.caps.value.Some? && sample.buffer.Some? && sample.buffer.value.Some? &&
       FromBuffer(sample.caps.value.value.0, sample.caps.value.value.1, sample.buffer.value.value).None?)
    ensures r.Ok? ==>
      (r.value.Valid() && r.value.size == sample.caps.value.value &&
       Some(r.value) == FromBuffer(sample.caps.value.value.0, sample.caps.value.value.1, sample.buffer.value.value))
  {
    match sample.caps
    case None => Err(NoCaps)
    case Some(None) => Err(BadCaps)
    case Some(Some(info)) =>
      match sample.buffer
      case None => Err(NoBuffer)
      case Some(None) => Err(NotReadable)
      case Some(Some(bytes)) =>
        match FromBuffer(info.0, info.1, bytes)
        case None => Err(InvalidDivisions)
        case Some(image) => Ok(image)
  }

  /** `fitted` as `render_sample` uses it: both dimensions cast to `u16`. */
  function TargetSize(fitted: (u32, u32)): (u16, u16) {
    (TruncU16(fitted.0), TruncU16(fitted.1))
  }

  /** What the renderer is left with once `image` is shown as `shown`, sized to `target` and centred. */
  ghost predicate ShownAt(image: ImageRef, shown: ImageRef, target: (u16, u16), termSize: (u16, u16),
                          freshRedraw: bool, frameBefore: seq<Cell>, sizeBefore: (u16, u16),
                          frame: seq<Cell>, commands: seq<Command>)
    requires target.0 <= termSize.0 && HalfUp(target.1) <= termSize.1
  {
    var offset := CentringOffset(termSize, target);
    Renderable(shown) &&
    (image.size == (target.0 as u32, target.1 as u32) ==> shown == image) &&
    (shown.size == (target.0 as u32, target.1 as u32) || shown == EmptyImage()) &&
    var redraw := freshRedraw || GridSize(shown) != sizeBefore;
    (redraw ==> IsOverwriteOf(frame, shown) && commands == OverwriteCommands(shown, offset)) &&
    (!redraw ==> IsDiffOf(frame, frameBefore, shown) && commands == DiffCommands(shown, frameBefore, offset))
  }

  /**
   * `render_sample`.  `fitted` is what `resize_image::resize_dimensions` returns for the video
   * size and `PixelsAvailable(termSize)`, and `resampled` the pixels the foreign resampler
   * produces at the target size; both are foreign numeric code.  `shown` is the image handed
   * to the frame renderer.
   */
  method RenderSample(sample: SampleData, termSize: (u16, u16), freshRedraw: bool, fitted: (u32, u32),
                      resampled: seq<Rgb>, commandBuffer: CommandBuffer, resizeBuffer: PodMatrix<Rgb>,
                      resizer: Resizer, lastFrame: RenderedFrame)
    returns (r: Result<(), RenderError>, ghost shown: ImageRef)
    requires resizeBuffer.Valid() && resizer.Valid() && lastFrame.Valid()
    requires resizeBuffer != resizer.imageBuffer
    requires TargetSize(fitted).0 <= termSize.0 && HalfUp(TargetSize(fitted).1) <= termSize.1
    requires |resampled| == TargetSize(fitted).0 * TargetSize(fitted).1
    modifies commandBuffer, resizeBuffer, resizer, resizer.imageBuffer, lastFrame.frame
    ensures resizeBuffer.Valid() && resizer.Valid() && lastFrame.Valid()
    ensures r.Err? <==> DecodeSample(sample).Err?
    ensures r.Err? ==>
      (r.error == DecodeSample(sample).error && commandBuffer.commands == [] &&
       lastFrame.frame.size == old(lastFrame.frame.size) && lastFrame.frame.cells == old(lastFrame.frame.cells) &&
       resizer.imageBuffer.size == old(resizer.imageBuffer.size) &&
       resizer.imageBuffer.cells == old(resizer.imageBuffer.cells) &&
       resizer.resizingBuffer == old(resizer.resizingBuffer) &&
       resizeBuffer.size == old(resizeBuffer.size) && resizeBuffer.cells == old(resizeBuffer.cells))
    ensures r.Ok? ==>
      var image := DecodeSample(sample).value;
      var plan := PlanResize(old(resizer.imageBuffer.size), old(resizer.resizingBuffer), image.size,
                             image.pixels == [], TargetSize(fitted));
      resizer.imageBuffer.size == plan.bufferSize && resizer.resizingBuffer == plan.cache &&
      BufferAfter(plan.outcome, old(resizer.imageBuffer.cells), resizer.imageBuffer.cells, resampled) &&
      shown == ResizeResult(plan.outcome, image, TargetSize(fitted), resampled)
    ensures r.Ok? ==>
      (resizeBuffer.size == TargetSize(fitted) &&
       (old(resizeBuffer.size) == TargetSize(fitted) ==> resizeBuffer.cells == old(resizeBuffer.cells)) &&
       ShownAt(DecodeSample(sample).value, shown, TargetSize(fitted), termSize, freshRedraw,
               old(lastFrame.frame.cells), old(lastFrame.frame.size), lastFrame.frame.cells, commandBuffer.commands))
  {
    shown := EmptyImage();
    commandBuffer.Clear();
    var decoded := DecodeSample(sample);
    if decoded.Err? {
      return Err(decoded.error), shown;
    }
    var newWidth, newHeight := TruncU16(fitted.0), TruncU16(fitted.1);
    if resizeBuffer.Width() != newWidth || resizeBuffer.Height() != newHeight {
      resizeBuffer.Resize((newWidth, newHeight));
    }
    shown := FitAndRender(decoded.value, termSize, freshRedraw, (newWidth, newHeight), resampled, commandBuffer, resizer, lastFrame);
    return Ok(()), shown;
  }

  /** The second half of `render_sample`: resize the image to `target`, centre it, render it. */
  method FitAndRender(image: ImageRef, termSize: (u16, u16), freshRedraw: bool, target: (u16, u16),
                      resampled: seq<Rgb>, commandBuffer: CommandBuffer, resizer: Resizer, lastFrame: RenderedFrame)
    returns (ghost shown: ImageRef)
    requires image.Valid() && resizer.Valid() && lastFrame.Valid() && commandBuffer.commands == []
    requires target.0 <= termSize.0 && HalfUp(target.1) <= termSize.1
    requires |resampled| == target.0 * target.1
    modifies commandBuffer, resizer, resizer.imageBuffer, lastFrame.frame
    ensures resizer.Valid() && lastFrame.Valid()
    ensures var plan := PlanResize(old(resizer.imageBuffer.size), old(resizer.resizingBuffer), image.size,
                                   image.pixels == [], target);
      resizer.imageBuffer.size == plan.bufferSize && resizer.resizingBuffer == plan.cache &&
      BufferAfter(plan.outcome, old(resizer.imageBuffer.cells), resizer.imageBuffer.cells, resampled) &&
      shown == ResizeResult(plan.outcome, image, target, resampled)
    ensures ShownAt(image, shown, target, termSize, freshRedraw, old(lastFrame.frame.cells), old(lastFrame.frame.size),
                    lastFrame.frame.cells, commandBuffer.commands)
  {
    var resized := resizer.Resize(image, target, resampled);
    shown := resized;
    var offset := CentringOffset(termSize, target);
    lastFrame.Render(resized, freshRedraw, offset, commandBuffer);
  }
}
