/**
 * The frame buffers of the renderer (`src/terminal_sink/resize.rs`): the flat matrix
 * `PodMatrix`, the borrowed image view `ImageRef`, and the control logic of `Resizer`
 * around the foreign resampling crate.
 */
module Resize {
  import opened Wrappers
  import opened Primitives
  import opened Layout

  /** After a resize from `before` to `after`: the common prefix is kept and every new cell is `zero`. */
  ghost predicate ResizedFrom<T>(before: seq<T>, after: seq<T>, zero: T) {
    var keep := if |before| < |after| then |before| else |after|;
    after[..keep] == before[..keep] &&
    forall k | |before| <= k < |after| :: after[k] == zero
  }

  /**
   * `PodMatrix<T>`: `size.0 * size.1` cells stored row by row.  `zero` is the value whose
   * bytes are all zero, the value `resize` writes into the cells it adds.
   */
  class PodMatrix<T> {
    var size: (u16, u16)
    var cells: seq<T>
    const zero: T

    ghost predicate Valid()
      reads this
    {
      |cells| == size.0 * size.1
    }

    /** `PodMatrix::new` */
    constructor (zero: T)
      ensures Valid() && size == (0, 0) && cells == [] && this.zero == zero
    {
      size := (0, 0);
      cells := [];
      this.zero := zero;
    }

    function Width(): u16
      reads this
    {
      size.0
    }

    function Height(): u16
      reads this
    {
      size.1
    }

    function Size(): (u16, u16)
      reads this
    {
      size
    }

    /** `PodMatrix::resize`: truncate, or extend with zeroed cells, then record the new size. */
    method Resize(s: (u16, u16))
      requires Valid()
      modifies this
      ensures Valid() && size == s
      ensures |cells| == s.0 * s.1
      ensures ResizedFrom(old(cells), cells, zero)
    {
      var newLength := s.0 * s.1;
      var currentLen := |cells|;
      if newLength < currentLen {
        cells := cells[..newLength];
      } else if newLength > currentLen {
        cells := cells + seq(newLength - currentLen, _ => zero);
      }
      size := s;
    }

    /**
     * The bounds-checked `get_mut(i, j)` that `diff.rs` calls: the place of cell (i, j),
     * given as its index in `cells`, or `None` outside the matrix.
     */
    function GetMut(i: u16, j: u16): (k: Option<nat>)
      reads this
      requires Valid()
      ensures k.Some? <==> i < size.0 && j < size.1
      ensures k.Some? ==> k.value == Idx(size.0, j, i) && k.value < |cells|
    {
      if i < size.0 && j < size.1 then
        IdxBounds(size.0, size.1, j, i);
        Some(Idx(size.0, j, i))
      else
        None
    }

    /** `get_mut_unchecked(i, j)`: its safety precondition, and the index it addresses. */
    function GetMutUnchecked(i: u16, j: u16): (k: nat)
      reads this
      requires Valid() && i < size.0 && j < size.1
      ensures k < |cells| && k == Idx(size.0, j, i)
    {
      IdxBounds(size.0, size.1, j, i);
      Idx(size.0, j, i)
    }

    /** A write through the `&mut T` handed out by `get_mut`, `get_mut_unchecked` or `as_mut_slice`. */
    method Store(k: nat, v: T)
      requires Valid() && k < |cells|
      modifies this
      ensures Valid() && size == old(size)
      ensures cells == old(cells)[k := v]
    {
      cells := cells[k := v];
    }

    /** The foreign resampler writing a whole image into `as_mut_slice()`. */
    method Overwrite(values: seq<T>)
      requires Valid() && |values| == |cells|
      modifies this
      ensures Valid() && size == old(size) && cells == values
    {
      cells := values;
    }

    /** `cells.fill(v)` */
    method Fill(v: T)
      requires Valid()
      modifies this
      ensures Valid() && size == old(size)
      ensures |cells| == |old(cells)| && forall k | 0 <= k < |cells| :: cells[k] == v
    {
      cells := seq(|cells|, _ => v);
    }
  }

  /** `ImageRef`: a `size.0` by `size.1` image, its pixels row by row. */
  datatype ImageRef = ImageRef(size: (u32, u32), pixels: seq<Rgb>) {
    /** Every way of building an `ImageRef` guarantees this pixel count. */
    predicate Valid() {
      |pixels| == size.0 * size.1
    }
  }

  /** `ImageRef::empty` */
  function EmptyImage(): (img: ImageRef)
    ensures img.Valid() && img.size == (0, 0)
  {
    ImageRef((0, 0), [])
  }

  /** The first `usize` value that does not fit: the renderer targets 64-bit platforms. */
  const USIZE_LIMIT: int := 0x1_0000_0000_0000_0000

  /** `bytemuck::try_cast_slice::<u8, Rgb<u8>>`: fails unless the bytes split into whole pixels. */
  function CastPixels(buffer: seq<byte>): (r: Option<seq<Rgb>>)
    ensures r.Some? <==> |buffer| % 3 == 0
    ensures r.Some? ==> |r.value| * 3 == |buffer|
    ensures r.Some? ==> forall k | 0 <= k < |r.value| ::
      r.value[k] == Rgb(buffer[3 * k], buffer[3 * k + 1], buffer[3 * k + 2])
  {
    if |buffer| % 3 != 0 then None
    else Some(seq(|buffer| / 3, k requires 0 <= k < |buffer| / 3 => Rgb(buffer[3 * k], buffer[3 * k + 1], buffer[3 * k + 2])))
  }

  /** `usize::checked_mul` */
  function CheckedMulUsize(a: nat, b: nat): (r: Option<nat>)
    ensures r.Some? <==> a * b < USIZE_LIMIT
    ensures r.Some? ==> r.value == a * b
  {
    if a * b < USIZE_LIMIT then Some(a * b) else None
  }

  /**
   * `ImageRef::from_buffer`: view the decoded bytes as a `width` by `height` image, provided
   * they are exactly that many RGB triples.
   */
  function FromBuffer(width: u32, height: u32, buffer: seq<byte>): (r: Option<ImageRef>)
    ensures r.Some? <==> |buffer| % 3 == 0 && |buffer| / 3 == width * height
    ensures r.Some? ==> r.value.Valid() && r.value.size == (width, height)
    ensures r.Some? ==> forall k | 0 <= k < |r.value.pixels| ::
      r.value.pixels[k] == Rgb(buffer[3 * k], buffer[3 * k + 1], buffer[3 * k + 2])
  {
    match CastPixels(buffer)
    case None => None
    case Some(pixels) =>
      assert width * height < USIZE_LIMIT by {
        MulBound(width, height, U32_LIMIT - 1, U32_LIMIT - 1);
      }
      var expected := CheckedMulUsize(width, height);
      if !(expected.Some? && expected.value == |pixels|) then None
      else Some(ImageRef((width, height), pixels))
  }

  /** The bytes of a pixel sequence, three per pixel: what `bytemuck` casts back from. */
  function PixelBytes(pixels: seq<Rgb>): (bytes: seq<byte>)
    ensures |bytes| == 3 * |pixels|
  {
    if pixels == [] then []
    else [pixels[0].r, pixels[0].g, pixels[0].b] + PixelBytes(pixels[1..])
  }

  lemma {:induction false} PixelBytesAt(pixels: seq<Rgb>, k: nat)
    requires k < |pixels|
    ensures PixelBytes(pixels)[3 * k] == pixels[k].r
    ensures PixelBytes(pixels)[3 * k + 1] == pixels[k].g
    ensures PixelBytes(pixels)[3 * k + 2] == pixels[k].b
  {
    if k > 0 {
      PixelBytesAt(pixels[1..], k - 1);
    }
  }

  /** Decoding the bytes of a well-formed image gives that image back. */
  lemma FromBufferRoundTrip(img: ImageRef)
    requires img.Valid()
    ensures FromBuffer(img.size.0, img.size.1, PixelBytes(img.pixels)) == Some(img)
  {
    var bytes := PixelBytes(img.pixels);
    var r := FromBuffer(img.size.0, img.size.1, bytes);
    assert r.Some?;
    assert |r.value.pixels| == |img.pixels|;
    forall k | 0 <= k < |img.pixels|
      ensures r.value.pixels[k] == img.pixels[k]
    {
      PixelBytesAt(img.pixels, k);
    }
    assert r.value.pixels == img.pixels;
  }

  /** `get_pixel_unchecked(i, j)`: its safety precondition and the pixel it reads. */
  function GetPixelUnchecked(img: ImageRef, i: u32, j: u32): (p: Rgb)
    requires img.Valid() && i < img.size.0 && j < img.size.1
  {
    IdxBounds(img.size.0, img.size.1, j, i);
    img.pixels[Idx(img.size.0, j, i)]
  }

  /** The pixel at (i, j) of an image made by `from_buffer` is the (j * width + i)-th byte triple. */
  lemma PixelOfBuffer(width: u32, height: u32, buffer: seq<byte>, i: u32, j: u32)
    requires FromBuffer(width, height, buffer).Some?
    requires i < width && j < height
    ensures var k := Idx(width, j, i);
      0 <= 3 * k && 3 * k + 2 < |buffer| &&
      GetPixelUnchecked(FromBuffer(width, height, buffer).value, i, j) == Rgb(buffer[3 * k], buffer[3 * k + 1], buffer[3 * k + 2])
  {
    IdxBounds(width, height, j, i);
  }

  /** `as_non_zero_size`: the size, known to be non-zero, unless the image has no pixels. */
  function AsNonZeroSize(img: ImageRef): (r: Option<(u32, u32)>)
    requires img.Valid()
    ensures r.None? <==> img.size.0 == 0 || img.size.1 == 0
    ensures r.Some? ==> r.value == img.size && 0 < r.value.0 && 0 < r.value.1
  {
    if img.pixels == [] then None else Some(img.size)
  }

  /** `PodMatrix<Rgb<u8>>::as_image` */
  function AsImage(m: PodMatrix<Rgb>): (img: ImageRef)
    reads m
    requires m.Valid()
    ensures img.Valid() && img.size == (m.size.0 as u32, m.size.1 as u32) && img.pixels == m.cells
  {
    ImageRef((m.size.0, m.size.1), m.cells)
  }

  /** The parameters a foreign resampler was built with by `make_inner_resizer`. */
  datatype Inner = Inner(src: (nat, nat), dst: (nat, nat))

  /** `ResizingBuffer`: the cached resampler and the source size it was last built for. */
  datatype ResizingBuffer = ResizingBuffer(lastSrc: (nat, nat), resizer: Inner)

  /** Which of the four exits of `Resizer::resize` is taken. */
  datatype Outcome = ReturnedInput | FilledBlack | ReturnedEmpty | Resampled(used: Inner)

  /**
   * The decisions of one `Resizer::resize` call: which exit is taken, the size of the image
   * buffer afterwards, the cache afterwards, and whether a new resampler was built.
   */
  datatype Plan = Plan(outcome: Outcome, bufferSize: (u16, u16), cache: Option<ResizingBuffer>, rebuilt: bool)

  /** The control logic of `Resizer::resize`, as written. */
  function PlanResize(bufferSize: (u16, u16), cache: Option<ResizingBuffer>,
                      imageSize: (u32, u32), imageEmpty: bool, to: (u16, u16)): (p: Plan)
    ensures imageSize == (to.0 as u32, to.1 as u32) ==> p == Plan(ReturnedInput, bufferSize, cache, false)
    ensures imageSize != (to.0 as u32, to.1 as u32) ==> p.bufferSize == to
    ensures p.outcome == FilledBlack <==> imageSize != (to.0 as u32, to.1 as u32) && imageEmpty
    ensures p.outcome == ReturnedEmpty <==>
      imageSize != (to.0 as u32, to.1 as u32) && !imageEmpty && (to.0 == 0 || to.1 == 0)
    ensures !p.outcome.Resampled? ==> p.cache == cache && !p.rebuilt
    ensures p.rebuilt <==> (p.outcome.Resampled? &&
      (cache.None? || cache.value.lastSrc != (imageSize.0, imageSize.1) || to != bufferSize))
    ensures p.rebuilt ==> p.cache == Some(ResizingBuffer(imageSize, Inner(imageSize, to)))
    ensures p.outcome.Resampled? && !p.rebuilt ==> p.cache == cache
    ensures p.outcome.Resampled? ==> p.cache.Some? && p.outcome.used == p.cache.value.resizer
  {
    if imageSize == (to.0 as u32, to.1 as u32) then Plan(ReturnedInput, bufferSize, cache, false)
    else
      var dstSizeChanged := to != bufferSize;
      if imageEmpty then Plan(FilledBlack, to, cache, false)
      else if to.0 == 0 || to.1 == 0 then Plan(ReturnedEmpty, to, cache, false)
      else
        var src: (nat, nat) := (imageSize.0, imageSize.1);
        match cache
        case Some(buffer) =>
          if buffer.lastSrc != src || dstSizeChanged then
            var rebuiltBuffer := ResizingBuffer(src, Inner(src, to));
            Plan(Resampled(rebuiltBuffer.resizer), to, Some(rebuiltBuffer), true)
          else
            Plan(Resampled(buffer.resizer), to, cache, false)
        case None =>
          var created := ResizingBuffer(src, Inner(src, to));
          Plan(Resampled(created.resizer), to, Some(created), true)
  }

  /**
   * The cached resampler was built for the source size it records and, whenever the image
   * buffer has a non-zero size, for that size as its destination.
   */
  predicate CacheMatchesBuffer(bufferSize: (u16, u16), cache: Option<ResizingBuffer>) {
    cache.Some? ==>
      cache.value.resizer.src == cache.value.lastSrc &&
      (bufferSize.0 > 0 && bufferSize.1 > 0 ==> cache.value.resizer.dst == bufferSize)
  }

  /** While the cache matches the buffer, every resampling uses a resampler built for this very call. */
  lemma ResampledWithMatchingResizer(bufferSize: (u16, u16), cache: Option<ResizingBuffer>,
                                     imageSize: (u32, u32), imageEmpty: bool, to: (u16, u16))
    requires CacheMatchesBuffer(bufferSize, cache)
    ensures var p := PlanResize(bufferSize, cache, imageSize, imageEmpty, to);
      p.outcome.Resampled? ==> p.outcome.used == Inner(imageSize, to)
  {
  }

  /** Every exit except the black fill keeps the cache matching the buffer. */
  lemma PlanKeepsCacheMatching(bufferSize: (u16, u16), cache: Option<ResizingBuffer>,
                               imageSize: (u32, u32), imageEmpty: bool, to: (u16, u16))
    requires CacheMatchesBuffer(bufferSize, cache)
    ensures var p := PlanResize(bufferSize, cache, imageSize, imageEmpty, to);
      p.outcome != FilledBlack ==> CacheMatchesBuffer(p.bufferSize, p.cache)
  {
  }

  /**
   * The black fill resizes the image buffer but leaves the cached resampler alone, so a
   * later call with the same target and source size reuses a resampler built for another
   * destination: here a 2x2 source is sized to 1x1, an empty image to 3x3, and the 2x2
   * source to 3x3 again, which resamples with the resampler made for 1x1.
   */
  lemma BlackFillLeavesStaleResizer()
    ensures var p1 := PlanResize((0, 0), None, (2, 2), false, (1, 1));
      var p2 := PlanResize(p1.bufferSize, p1.cache, (0, 0), true, (3, 3));
      var p3 := PlanResize(p2.bufferSize, p2.cache, (2, 2), false, (3, 3));
      p2.outcome == FilledBlack &&
      p3.outcome == Resampled(Inner((2, 2), (1, 1))) && p3.outcome.used != Inner((2, 2), (3, 3))
  {
  }

  /**
   * The control logic of `Resizer::resize` with the cache check it needs: the resampler is
   * rebuilt whenever it was not built for this call's source and destination sizes.
   */
  function PlanResizeFixed(bufferSize: (u16, u16), cache: Option<ResizingBuffer>,
                           imageSize: (u32, u32), imageEmpty: bool, to: (u16, u16)): (p: Plan)
    ensures p.outcome.Resampled? ==> p.cache.Some? && p.outcome.used == p.cache.value.resizer
    ensures var src := (imageSize.0 as nat, imageSize.1 as nat);
      p.rebuilt ==> p.cache == Some(ResizingBuffer(src, Inner(src, to)))
    ensures !p.rebuilt ==> p.cache == cache
  {
    if imageSize == (to.0 as u32, to.1 as u32) then Plan(ReturnedInput, bufferSize, cache, false)
    else if imageEmpty then Plan(FilledBlack, to, cache, false)
    else if to.0 == 0 || to.1 == 0 then Plan(ReturnedEmpty, to, cache, false)
    else
      var src: (nat, nat) := (imageSize.0, imageSize.1);
      match cache
      case Some(buffer) =>
        if buffer.lastSrc != src || buffer.resizer.dst != to then
          var rebuiltBuffer := ResizingBuffer(src, Inner(src, to));
          Plan(Resampled(rebuiltBuffer.resizer), to, Some(rebuiltBuffer), true)
        else
          Plan(Resampled(buffer.resizer), to, cache, false)
      case None =>
        var created := ResizingBuffer(src, Inner(src, to));
        Plan(Resampled(created.resizer), to, Some(created), true)
  }

  /** With the fixed check, every resampling, in any reachable state, uses a resampler built for this call. */
  lemma FixedResamplesWithMatchingResizer(bufferSize: (u16, u16), cache: Option<ResizingBuffer>,
                                          imageSize: (u32, u32), imageEmpty: bool, to: (u16, u16))
    requires cache.Some? ==> cache.value.resizer.src == cache.value.lastSrc
    ensures var p := PlanResizeFixed(bufferSize, cache, imageSize, imageEmpty, to);
      (p.outcome.Resampled? ==> p.outcome.used == Inner(imageSize, to)) &&
      (p.cache.Some? ==> p.cache.value.resizer.src == p.cache.value.lastSrc)
  {
  }

  /** The fixed check changes nothing while the cache matches the buffer: it only adds the missing rebuild. */
  lemma FixedAgreesWhileCacheMatches(bufferSize: (u16, u16), cache: Option<ResizingBuffer>,
                                     imageSize: (u32, u32), imageEmpty: bool, to: (u16, u16))
    requires CacheMatchesBuffer(bufferSize, cache)
    ensures PlanResizeFixed(bufferSize, cache, imageSize, imageEmpty, to).outcome
         == PlanResize(bufferSize, cache, imageSize, imageEmpty, to).outcome
  {
  }

  /** The image `Resizer::resize` hands back on each of its four exits. */
  function ResizeResult(outcome: Outcome, image: ImageRef, to: (u16, u16), resampled: seq<Rgb>): ImageRef {
    match outcome
    case ReturnedInput => image
    case FilledBlack => ImageRef((to.0, to.1), seq(to.0 * to.1, _ => Black))
    case ReturnedEmpty => EmptyImage()
    case Resampled(_) => ImageRef((to.0, to.1), resampled)
  }

  /** What each exit of `Resizer::resize` leaves in the image buffer. */
  ghost predicate BufferAfter(outcome: Outcome, before: seq<Rgb>, after: seq<Rgb>, resampled: seq<Rgb>) {
    match outcome
    case ReturnedInput => after == before
    case FilledBlack => forall k | 0 <= k < |after| :: after[k] == Black
    case ReturnedEmpty => ResizedFrom(before, after, Black)
    case Resampled(_) => after == resampled
  }

  /** `Resizer`: the reusable output image and the cached resampler. */
  class Resizer {
    const imageBuffer: PodMatrix<Rgb>
    var resizingBuffer: Option<ResizingBuffer>

    ghost predicate Valid()
      reads this, imageBuffer
    {
      imageBuffer.Valid() && imageBuffer.zero == Black
    }

    /** `Resizer::new` */
    constructor ()
      ensures Valid() && fresh(imageBuffer)
      ensures imageBuffer.size == (0, 0) && resizingBuffer == None
    {
      imageBuffer := new PodMatrix(Black);
      resizingBuffer := None;
    }

    /**
     * `Resizer::resize`.  The resampling itself is foreign code: `resampled` stands for the
     * `resize_to.0 * resize_to.1` pixels it writes into the image buffer.
     */
    method Resize(image: ImageRef, resizeTo: (u16, u16), resampled: seq<Rgb>) returns (r: ImageRef)
      requires Valid() && image.Valid()
      requires |resampled| == resizeTo.0 * resizeTo.1
      modifies this, imageBuffer
      ensures Valid()
      ensures var plan := PlanResize(old(imageBuffer.size), old(resizingBuffer), image.size, image.pixels == [], resizeTo);
        imageBuffer.size == plan.bufferSize && resizingBuffer == plan.cache &&
        r == ResizeResult(plan.outcome, image, resizeTo, resampled) &&
        BufferAfter(plan.outcome, old(imageBuffer.cells), imageBuffer.cells, resampled)
      ensures PlanResize(old(imageBuffer.size), old(resizingBuffer), image.size, image.pixels == [], resizeTo).outcome.FilledBlack?
        ==> r.pixels == imageBuffer.cells
    {
      if image.size == (resizeTo.0 as u32, resizeTo.1 as u32) {
        return image;
      }

      var dstSizeChanged := resizeTo != imageBuffer.size;
      if dstSizeChanged {
        imageBuffer.Resize(resizeTo);
      }

      var nonZero := AsNonZeroSize(image);
      if nonZero.None? {
        imageBuffer.Fill(Black);
        r := AsImage(imageBuffer);
        assert r.pixels == seq(resizeTo.0 * resizeTo.1, _ => Black);
        return r;
      }

      if resizeTo.0 == 0 || resizeTo.1 == 0 {
        return EmptyImage();
      }

      var src: (nat, nat) := (nonZero.value.0, nonZero.value.1);
      match resizingBuffer {
        case Some(buffer) =>
          var bufferChanged := buffer.lastSrc != src || dstSizeChanged;
          if bufferChanged {
            resizingBuffer := Some(ResizingBuffer(src, Inner(src, resizeTo)));
          }
        case None =>
          resizingBuffer := Some(ResizingBuffer(src, Inner(src, resizeTo)));
      }

      imageBuffer.Overwrite(resampled);
      r := AsImage(imageBuffer);
    }
  }
}
