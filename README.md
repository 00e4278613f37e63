# Terminal video player: a Dafny model of its renderer core

The player decodes a video with gstreamer and shows it in a terminal. Each terminal row
shows two rows of pixels: a "▀" half block has the upper pixel as its foreground colour and
the lower pixel as its background colour. This project models the sequential parts beneath
the gstreamer and termion calls, and proves properties of them:

- **the frame renderer** (`src/terminal_sink/diff.rs`). It packs pixel row pairs into
  `Cell { rgb_top, rgb_bottom }` and quantizes colours to 5 bits per channel. Then it either
  redraws the whole frame or sends only the cells that changed. A cursor move comes only at
  the start of each run of changed cells.
- **its buffers** (`src/terminal_sink/resize.rs`):
  - the row-major `PodMatrix`;
  - `ImageRef` and its checks on the byte buffer;
  - the control and caching logic of `Resizer::resize` around a foreign resampler.
- **the video pipe** (`src/terminal_sink/video_pipe.rs`, and its older copy in
  `src/terminal_sink.rs`). It is a one-slot, latest-value-wins mailbox between the gstreamer
  thread and the renderer thread.
- **the terminal-size loaders** (`src/terminal_sink/mod.rs`, `src/terminal_sink.rs`):
  - a tagged `u64` holding a `(u16, u16)` size and a "changed" bit;
  - a static size reported as changed once.
- **the sizing and centring of `render_sample`**, in both revisions. The older revision has
  its own row-pairing render loop.
- **the playback keys** (`src/input_handler.rs`): play/pause toggling, quit keys, and
  saturating ±5 s seeks.
- **the command-line helpers** (`src/main.rs`):
  - the `WIDTHxHEIGHT` parser;
  - the environment-flag predicate;
  - `QuitHandler`'s in-order teardown;
  - the pad-added dispatch.

## How the model is built

**Terminal output.** Bytes sent to the terminal are an abstract command sequence:

- `Clear`;
- `Goto(x, y)`, the 0-based position before `cursor_goto` adds one;
- `Draw(cell)`, a half block with both colours;
- `DrawForeground(colour)`, the foreground-only half block of the older revision.

`Output.Obey`/`Output.Exec` say what a terminal does with these commands. With them the
model can state that the commands are correct *on the screen*, not only as a sequence.

**State that the source mutates** is held in classes whose methods carry `modifies` clauses:

- `PodMatrix`, `Resizer` and `RenderedFrame`;
- `RenderingContext`, `DynamicSize` and `StaticSize`;
- `QuitHandler` and the append-only `CommandBuffer`.

Each such method is proved against a specification function or predicate.

- `RenderedFrame.Render` keeps its nested loops. It is specified by `IsOverwriteOf` /
  `IsDiffOf` (the stored frame) and by `OverwriteCommands` / `DiffCommands` (what is sent).
- Lemmas then relate those functions to the screen and to each other.

**Pure code** becomes functions with named results and lemmas. This covers:

- quantization;
- `from_buffer` and the tag-bit packing;
- the seek target;
- `Size::from_str` and `flag`;
- the pipe's transition function `VideoPipe.Step`.

**Integer widths** are explicit:

- `u16`, `u32` and `u64` are subset types;
- `offset + i` in `write_move` wraps (`AddU16`, as a release build does);
- saturating operations saturate at their type's maximum and `as u16` truncates;
- `ClockTime` saturates at `ClockTime::MAX`, one below `u64::MAX`, which gstreamer reserves for
  `ClockTime::NONE`;
- the buffer length checks of `from_buffer` assume a 64-bit `usize`.

**Where the files disagree with one another**, each file is modelled as written.

- `diff.rs` calls `PodMatrix::get_mut`, which this revision of `resize.rs` does not define.
  `Resize.PodMatrix.GetMut` supplies it as bounds-checked access to index `j * width + i`, the
  index `get_mut_unchecked` uses.
- `mod.rs` hands the renderer a `ResizeBuffer` and calls `as_image_crate_buffer`, neither of
  which `resize.rs` defines. The model passes the `ImageRef` that `Resizer::resize` returns.
- The two `flag` functions differ:
  - the one in `main.rs` trims ASCII whitespace and accepts the empty value;
  - the one in `terminal_sink/mod.rs` does neither.
  `Cli.FlagAcceptsMore`, `Cli.FlagEmptyValue` and `Cli.FlagSpacedValue` state the difference.
- The older `renderer_enabled` is on when `NO_DISPLAY_OUTPUT` is unset or starts with the byte
  `n`. The newer one is on unless the value spells `y` or `yes`. `LegacySink.RendererEnabledRevisions`
  compares them.
- The error texts of `Size::from_str` speak of "positive" integers, but `u16` parsing accepts
  `0`. The model follows the code (`Cli.ZeroSizeIsAccepted`).

**Modules** follow the source files:

| module | file |
|---|---|
| `InputHandler` | `input_handler.dfy` |
| `VideoPipe` | `video_pipe.dfy` |
| `Resize` | `resize.dfy` |
| `Diff` | `diff.dfy` |
| `DiffLemmas` | `diff_lemmas.dfy` |
| `DiffFindings` | `diff_findings.dfy` |
| `TerminalSink` | `terminal_sink.dfy` |
| `LegacySink` | `legacy_sink.dfy` |
| `Cli` | `cli.dfy` |

The shared modules are:

- `Wrappers`: `Option` and `Result`;
- `Primitives`: integer widths, `Rgb` and the wrapping and saturating operations;
- `Ascii`: byte case and whitespace;
- `Layout`: row-major index arithmetic;
- `Output`: cells, commands, the command buffer and the terminal.

## Model

| member | source | states |
|---|---|---|
| Primitives.AddU16 | src/terminal_sink/diff.rs:84-91 | `offset + i` on `u16` is the sum when it fits and the sum minus 2^16 when it does not |
| Primitives.SubU16 | src/terminal_sink/mod.rs:108-111 | `a - b` on `u16` is the difference when `b <= a` and the difference plus 2^16 when it is not |
| Primitives.SaturatingAddU16 | src/terminal_sink/mod.rs:23-25 | the sum when it fits in a `u16`, else `u16::MAX` |
| Primitives.SaturatingMulU16 | src/terminal_sink/mod.rs:74-77 | the product when it fits in a `u16`, else `u16::MAX` |
| Primitives.HalfUp | src/terminal_sink/diff.rs:69 | `div_ceil(2)`: twice the result is n or n + 1 |
| Ascii.ToLower | src/terminal_sink/mod.rs:148-149 | `to_ascii_lowercase` lowers exactly the upper-case letters, by 0x20, and keeps every other byte |
| Ascii.LowerBytes | src/terminal_sink/mod.rs:148-149 | `make_ascii_lowercase` lowers each byte in place and keeps the length |
| Ascii.LowerBytesEqualsIff | src/terminal_sink/mod.rs:150 | the lowered value equals a lower-case word if and only if the value spells that word in any mix of cases |
| Ascii.TrimStart | src/main.rs:22 | `trim_ascii_start` removes exactly the leading whitespace: what it drops is whitespace and what it keeps starts with a non-space |
| Ascii.TrimEnd | src/main.rs:22 | `trim_ascii_end` removes exactly the trailing whitespace |
| Ascii.Trim | src/main.rs:22 | `trim_ascii` leaves no whitespace at either end, and leaves nothing exactly when the value is all whitespace |
| Ascii.TrimLower | src/main.rs:20-22 | lowering then trimming equals trimming then lowering, so `main.rs`'s order of the two does not matter |
| Output.CommandBuffer.constructor | src/terminal_sink/mod.rs:27-39 | the command buffer starts empty |
| Output.CommandBuffer.Clear | src/terminal_sink/mod.rs:39 | `command_buffer.clear()` empties the buffer |
| Output.CommandBuffer.Push | src/terminal_sink/diff.rs:80-91 | writing a command appends it and keeps everything written before |
| Output.Obey | src/terminal_sink/diff.rs:14-32 | a `Goto` only moves the cursor; a half block is drawn under the cursor, which then moves one column right |
| Resize.PodMatrix.constructor | src/terminal_sink/resize.rs:11-18 | `PodMatrix::new` has size (0, 0) and no cells |
| Resize.PodMatrix.Resize | src/terminal_sink/resize.rs:20-42 | afterwards there are `s.0 * s.1` cells and `size() == s`; the first `min(old, new)` cells are unchanged and every new cell is zero |
| Resize.PodMatrix.GetMut | src/terminal_sink/resize.rs:44-54 | `get_mut(i, j)` is `Some` exactly when `i < width` and `j < height`, and then addresses in-bounds index `j * width + i` |
| Resize.PodMatrix.GetMutUnchecked | src/terminal_sink/resize.rs:44-54 | under its safety precondition `i < width, j < height` the index `j * width + i` is in bounds |
| Resize.PodMatrix.Store | src/terminal_sink/diff.rs:97-101 | a write through the `&mut` cell changes exactly that cell and keeps the size |
| Resize.PodMatrix.Overwrite | src/terminal_sink/resize.rs:56-58 | the resampler's write through `as_mut_slice` replaces all cells and keeps the size |
| Resize.PodMatrix.Fill | src/terminal_sink/resize.rs:195-198 | `fill(v)` makes every cell `v` and keeps the size |
| Resize.EmptyImage | src/terminal_sink/resize.rs:80-85 | `ImageRef::empty` is a well-formed image of size (0, 0) |
| Resize.CastPixels | src/terminal_sink/resize.rs:87-102 | the byte cast succeeds exactly when the length is a multiple of 3, and pixel k is bytes 3k, 3k+1, 3k+2 |
| Resize.CheckedMulUsize | src/terminal_sink/resize.rs:87-102 | `checked_mul` on a 64-bit `usize` gives the product exactly when it fits |
| Resize.FromBuffer | src/terminal_sink/resize.rs:87-102 | `Some` if and only if the length is a multiple of 3 and the length / 3 is `w * h`; the result has size (w, h), and its pixels are the buffer's byte triples |
| Resize.FromBufferRoundTrip | src/terminal_sink/resize.rs:87-102 | decoding the bytes of any well-formed image gives that image back |
| Resize.GetPixelUnchecked | src/terminal_sink/resize.rs:104-117 | under the safety precondition `i < width, j < height`, the pixel at flat index `j * width + i` |
| Resize.PixelOfBuffer | src/terminal_sink/resize.rs:87-117 | pixel (i, j) of an image made by `from_buffer` is the byte triple at `3 * (j * width + i)` |
| Resize.AsNonZeroSize | src/terminal_sink/resize.rs:123-134 | `None` exactly when a dimension is zero, otherwise the size with both parts positive |
| Resize.AsImage | src/terminal_sink/resize.rs:138-143 | `as_image` views the matrix as a well-formed image of the same size and pixels |
| Resize.PlanResize | src/terminal_sink/resize.rs:185-240 | the four exits of `resize`: the input when its size is the target; the black fill for an empty source; the empty image for a zero target; otherwise resampling with the cached resampler, rebuilt exactly when none is cached, the source changed or the destination changed in this call |
| Resize.ResampledWithMatchingResizer | src/terminal_sink/resize.rs:190-232 | while the cache agrees with the image buffer, every resampling uses a resampler built for this call's source and target |
| Resize.PlanKeepsCacheMatching | src/terminal_sink/resize.rs:185-240 | every exit except the black fill keeps the cache agreeing with the image buffer |
| Resize.BlackFillLeavesStaleResizer | src/terminal_sink/resize.rs:190-222 | three calls after which the resampler built for a 1x1 target is used for a 3x3 target (finding 1, as written) |
| Resize.PlanResizeFixed | src/terminal_sink/resize.rs:214-232 | the corrected check rebuilds whenever the cached resampler was not built for this source and target; otherwise it keeps the cache |
| Resize.FixedResamplesWithMatchingResizer | src/terminal_sink/resize.rs:214-232 | with the correction, every resampling in any reachable state uses a resampler for this call (finding 1, corrected) |
| Resize.FixedAgreesWhileCacheMatches | src/terminal_sink/resize.rs:214-232 | the correction chooses the same exit as the code whenever the cache agrees with the buffer |
| Resize.Resizer.constructor | src/terminal_sink/resize.rs:178-183 | `Resizer::new` has an empty image buffer and no cached resampler |
| Resize.Resizer.Resize | src/terminal_sink/resize.rs:185-240 | the new buffer size, cache and returned image follow `PlanResize`: the unchanged input; an all-black image of the target size; the empty image; or the resampled pixels, also stored in the buffer |
| Diff.QuantizeChannelIsFloor | src/terminal_sink/diff.rs:53-64 | masking with `0xF8` gives the largest multiple of 8 not above the channel |
| Diff.QuantizeIdempotent | src/terminal_sink/diff.rs:53-64 | quantizing twice is quantizing once, and a colour whose channels are multiples of 8 is its own quantization |
| Diff.Rows | src/terminal_sink/diff.rs:66-70 | the number of cell rows is `ceil(height / 2)` |
| Diff.GridSize | src/terminal_sink/diff.rs:66-70 | the terminal grid is (width, ceil(height / 2)) |
| Diff.CellAtStore | src/terminal_sink/diff.rs:97-135 | storing cell (c, r) of the frame changes that cell and no other |
| Diff.OverwriteRow | src/terminal_sink/diff.rs:113-118 | a redrawn row is exactly `width` draws, in column order, of the row's new cells |
| Diff.BlackenFrom | src/terminal_sink/diff.rs:105-111 | the loop sets the bottom half of every cell from the last row's start to black and changes nothing else |
| Diff.RenderedFrame.constructor | src/terminal_sink/diff.rs:40-44 | `RenderedFrame::new` holds an empty (0, 0) frame |
| Diff.RenderedFrame.Render | src/terminal_sink/diff.rs:46-162 | the frame is resized to the grid; a redraw happens exactly when it is forced or the grid changed, and then the frame is `IsOverwriteOf` the image and `Clear` plus every row is sent; otherwise the frame is `IsDiffOf` the old frame and `DiffCommands` is sent |
| Diff.RenderedFrame.Redraw | src/terminal_sink/diff.rs:80-119 | the full redraw stores the quantized image (pixel row j in cell row j / 2, top if even, bottom if odd, a missing bottom black) and sends `Clear` then each row after a `Goto` |
| Diff.RenderedFrame.Update | src/terminal_sink/diff.rs:122-161 | the diff path stores `DiffCell` in every cell and sends exactly `DiffCommands` of the old frame |
| Diff.RenderedFrame.PaintAll | src/terminal_sink/diff.rs:93-103 | each pixel goes into the top or bottom half of its cell; cells a short last row does not reach keep their old bottom |
| Diff.RenderedFrame.BlackenLastRow | src/terminal_sink/diff.rs:105-111 | for an odd height the bottom halves of the last cell row become black |
| Diff.RenderedFrame.EmitAll | src/terminal_sink/diff.rs:113-118 | for each cell row j it sends one `Goto(offset_x + 0, offset_y + j)` and then the row's `width` draws |
| Diff.RenderedFrame.EmitRow | src/terminal_sink/diff.rs:113-118 | one row: the cursor move to its start, then its cells in column order |
| Diff.RenderedFrame.DiffFullRows | src/terminal_sink/diff.rs:122-141 | the full rows take both quantized pixels in each changed cell and send `DiffRows` for the `height / 2` full rows |
| Diff.RenderedFrame.DiffFullRow | src/terminal_sink/diff.rs:122-141 | one full row: changed cells are updated and drawn, unchanged ones are left alone, and a `Goto` comes at the first cell of every run of changed cells |
| Diff.RenderedFrame.DiffFullCell | src/terminal_sink/diff.rs:124-139 | one cell of a full row: it is drawn if and only if its quantized (top, bottom) differs from the stored cell, after a `Goto` exactly when the previous cell was not drawn |
| Diff.RenderedFrame.DiffLastRow | src/terminal_sink/diff.rs:143-161 | for an odd height the last row compares and updates only `rgb_top`, and leaves `rgb_bottom` untouched |
| Diff.RenderedFrame.DiffTopCell | src/terminal_sink/diff.rs:146-159 | one cell of the last row: drawn if and only if its top pixel changed; the bottom half is kept |
| DiffLemmas.SettledIsSilent | src/terminal_sink/diff.rs:122-161 | on a frame where no cell would change, the diff path sends nothing and changes no cell |
| DiffLemmas.OverwriteSettles | src/terminal_sink/diff.rs:93-141 | after a full redraw, a diff with the same image finds nothing changed |
| DiffLemmas.DiffSettles | src/terminal_sink/diff.rs:122-161 | after the diff path, a further diff with the same image finds nothing changed |
| DiffLemmas.RerenderIsSilent | src/terminal_sink/diff.rs:46-162 | rendering the same image again without a forced redraw sends nothing and keeps the frame: unchanged cells are never redrawn |
| DiffLemmas.DiffCommandsAreFrameDiff | src/terminal_sink/diff.rs:122-161 | the diff commands depend only on the old and new frames: per row, a `Goto` plus draw at the start of each run of changed cells and a draw for each further changed cell |
| DiffLemmas.OverwriteCommandsAreFrameRows | src/terminal_sink/diff.rs:80-119 | a redraw sends `Clear`, then each row of the stored frame after a move to the row's start |
| DiffLemmas.DiffShowsNewFrame | src/terminal_sink/diff.rs:122-161 | sent to a terminal that shows the old frame, the diff commands make it show the new frame and touch nothing outside it |
| DiffLemmas.RedrawShowsFrame | src/terminal_sink/diff.rs:80-119 | whatever the terminal showed, a redraw leaves it showing the stored frame and nothing else |
| DiffFindings.DiffCellIsOverwriteCellIff | src/terminal_sink/diff.rs:93-161 | the diff path stores what a redraw would store exactly when the row is full or the kept bottom half is already black |
| DiffFindings.LastRow | src/terminal_sink/diff.rs:143-144 | the last cell row holds the last pixel row |
| DiffFindings.DiffIsOverwriteIff | src/terminal_sink/diff.rs:93-161 | the diff path ends with the redraw frame if and only if no stale bottom half is in the unused part of the last row |
| DiffFindings.DiffKeepsUnusedBottoms | src/terminal_sink/diff.rs:143-161 | for an odd height the diff path carries every unused bottom half of the last row over unchanged |
| DiffFindings.StaleBottomHalf | src/terminal_sink/diff.rs:143-161 | a 1x2 frame then a 1x1 frame: nothing is sent and the light bottom half that a redraw paints black stays (finding 2, as written) |
| DiffFindings.DiffCellFixed | src/terminal_sink/diff.rs:105-161 | the corrected cell has the diff path's top and a black bottom on the half-used row, which is the redraw cell |
| DiffFindings.FixedDiffShowsRedrawFrame | src/terminal_sink/diff.rs:143-161 | with the correction, the diff path ends with the redraw frame for any previous frame, and its commands put that frame on the screen (finding 2, corrected) |
| VideoPipe.Step | src/terminal_sink/video_pipe.rs:17-111 | `Closed` is reached by `close`/`Drop` and never left; push, pull and reload fail when closed (reload also when the context is gone); a push installs an unpulled sample; a pull returns the unpulled sample and marks it pulled, or would wait without a change; a live reload un-pulls the sample |
| VideoPipe.Run | src/terminal_sink/video_pipe.rs:17-111 | a run of calls gives one result per call |
| VideoPipe.ClosedIsAbsorbing | src/terminal_sink/video_pipe.rs:17-111 | once closed, every later call leaves the pipe closed and every push, pull and reload fails |
| VideoPipe.PullAtMostOnce | src/terminal_sink/video_pipe.rs:70-108 | without a push or reload in between, a sample is pulled at most once |
| VideoPipe.LatestPushWins | src/terminal_sink/video_pipe.rs:34-79 | two pushes then a pull give the second sample: the latest wins and nothing queues |
| VideoPipe.ReloadRepeatsSample | src/terminal_sink/video_pipe.rs:93-111 | a live reload lets the last sample be pulled again |
| VideoPipe.RenderingContext.constructor | src/terminal_sink/video_pipe.rs:114-128 | a new pipe holds no sample |
| VideoPipe.RenderingContext.PushSample | src/terminal_sink/video_pipe.rs:29-52 | succeeds exactly when not closed, and then holds the new, unpulled sample |
| VideoPipe.RenderingContext.Close | src/terminal_sink/video_pipe.rs:54-58 | the pipe is closed |
| VideoPipe.RenderingContext.DropPipe | src/terminal_sink/video_pipe.rs:17-24 | dropping either end closes the pipe |
| VideoPipe.RenderingContext.PullSample | src/terminal_sink/video_pipe.rs:64-83 | fails when closed, takes an unpulled sample and marks it pulled, or would wait with the state unchanged |
| VideoPipe.RenderingContext.ReloadSample | src/terminal_sink/video_pipe.rs:93-111 | succeeds exactly when the context is alive and the pipe is open; un-pulls the sample if there is one, else changes nothing |
| TerminalSink.CursorGoto | src/terminal_sink/mod.rs:23-25 | the 1-based position `(x + 1, y + 1)`, each part saturating at `u16::MAX` |
| TerminalSink.CursorGotoInjective | src/terminal_sink/mod.rs:23-25 | positions below the last column and row reach distinct terminal positions |
| TerminalSink.CursorGotoSaturates | src/terminal_sink/mod.rs:23-25 | the last two columns reach the same terminal position |
| TerminalSink.Flag | src/terminal_sink/mod.rs:146-152 | the default when unset; otherwise true exactly when the value spells `y` or `yes` in any case |
| TerminalSink.RendererEnabled | src/terminal_sink/mod.rs:318 | rendering is on unless `NO_DISPLAY_OUTPUT` is set to `y` or `yes` |
| TerminalSink.PackSize | src/terminal_sink/mod.rs:175-179 | the packed size fits in 32 bits |
| TerminalSink.StoredValue | src/terminal_sink/mod.rs:175-179 | a stored size carries the tag bit |
| TerminalSink.ClearTag | src/terminal_sink/mod.rs:199-205 | clearing the tag leaves an untagged value, and an untagged value unchanged |
| TerminalSink.PackSizeRoundTrip | src/terminal_sink/mod.rs:175-206 | unpacking a packed or stored size gives the size back |
| TerminalSink.ClearTagKeepsSize | src/terminal_sink/mod.rs:199-206 | a load's clearing of the tag bit keeps the size |
| TerminalSink.StoredValueInjective | src/terminal_sink/mod.rs:175-179 | different sizes are stored as different values |
| TerminalSink.StoreThenLoadTwice | src/terminal_sink/mod.rs:169-212 | after a store, the first load reports the size as changed and the second reports the same size as unchanged |
| TerminalSink.DynamicSize.constructor | src/terminal_sink/mod.rs:171-172 | the cache starts at 0 |
| TerminalSink.DynamicSize.StoreNewSize | src/terminal_sink/mod.rs:175-179 | the cache holds the size and the tag bit |
| TerminalSink.DynamicSize.Load | src/terminal_sink/mod.rs:199-212 | reports the cached size and whether it was tagged, and leaves the same size untagged |
| TerminalSink.StaticSize.constructor | src/terminal_sink/mod.rs:220-227 | the fixed size, not yet loaded |
| TerminalSink.StaticSize.Load | src/terminal_sink/mod.rs:229-236 | always the fixed size, reported as changed on the first load only |
| TerminalSink.PixelsAvailable | src/terminal_sink/mod.rs:74-77 | the terminal width and twice its height, saturating; an image that tall fits in the rows |
| TerminalSink.TruncU16 | src/terminal_sink/mod.rs:90 | `as u16` keeps a value that fits, and otherwise differs from the value by a multiple of 2^16 |
| TerminalSink.CentringOffset | src/terminal_sink/mod.rs:108-111 | the offset centres the image, rounding down, given `new_w <= term_w` and `ceil(new_h / 2) <= term_h`; the image then fits on the screen |
| TerminalSink.DecodeSample | src/terminal_sink/mod.rs:41-72 | the checks fail in order (no caps, bad caps, no buffer, unreadable buffer, wrong length); on success the image is `from_buffer` of the caps' size |
| TerminalSink.CentringOffsetAsWritten | src/terminal_sink/mod.rs:108-111 | the offset for any target with the subtractions wrapping: the centring offset when the target fits; when a dimension does not fit, the image reaches past cell 32768 in it |
| TerminalSink.CentringOffsetSaturating | src/terminal_sink/mod.rs:108-111 | the offset with the subtractions saturating: the centring offset when the target fits, 0 in a dimension that does not, and never more than half the terminal |
| TerminalSink.RenderSample | src/terminal_sink/mod.rs:27-119 | fails exactly when a check fails, leaving an empty buffer and the frame, the resizer's buffer and cache and the resize buffer as they were; otherwise the resize buffer is resized only when its size differs from the target, the resizer's buffer, cache and returned image are those `PlanResize` picks for the decoded image (itself, all black, empty or the resampled pixels), and the frame and commands are those of rendering that image at the centring offset |
| TerminalSink.FitAndRender | src/terminal_sink/mod.rs:92-113 | the resizer's buffer size, contents and cache and the shown image follow `PlanResize` for the image and target; the frame and commands are those of rendering the shown image at the centring offset, by redraw or by diff |
| LegacySink.LegacyStep | src/terminal_sink.rs:174-275 | `OtherPipeQuit` is reached by a drop and never left; every call after it fails; a pull returns an unpulled sample and marks it pulled |
| LegacySink.LegacyStepMatchesVideoPipe | src/terminal_sink.rs:174-275 | every call of this revision does what the same call of `video_pipe.rs` does, with `OtherPipeQuit` read as `Closed` |
| LegacySink.LegacyStatesAreVideoPipeStates | src/terminal_sink.rs:174-178 | every state of this revision is the renaming of a `video_pipe.rs` state |
| LegacySink.LegacyRenderingContext.constructor | src/terminal_sink.rs:278-292 | a new pipe holds no sample |
| LegacySink.LegacyRenderingContext.PushSample | src/terminal_sink.rs:199-223 | succeeds exactly when the other end is alive, and then holds the new, unpulled sample |
| LegacySink.LegacyRenderingContext.PullSample | src/terminal_sink.rs:228-247 | fails once the other end quit, takes an unpulled sample, or would wait with the state unchanged |
| LegacySink.LegacyRenderingContext.ReloadSample | src/terminal_sink.rs:257-275 | succeeds exactly when the context is alive and the other end did not quit; un-pulls the sample if there is one |
| LegacySink.LegacyRenderingContext.DropPipe | src/terminal_sink.rs:187-194 | either end's drop leaves `OtherPipeQuit` |
| LegacySink.LegacySizeCache.constructor | src/terminal_sink.rs:321 | the cache starts at 0 |
| LegacySink.LegacySizeCache.StoreNewSize | src/terminal_sink.rs:319-328 | the cache holds the size with `TOP_BIT` set |
| LegacySink.LegacySizeCache.LoadSizeFromCache | src/terminal_sink.rs:342-350 | reports the cached size and whether `TOP_BIT` was set, clearing it, so a second load reports no change |
| LegacySink.LegacyRendererEnabled | src/terminal_sink.rs:400-401 | rendering is on exactly when `NO_DISPLAY_OUTPUT` is unset or starts with the byte `n` |
| LegacySink.RendererEnabledRevisions | src/terminal_sink.rs:400-401 | the two revisions agree when the variable is unset, is `y`/`yes`, or starts with `n`, but disagree on the empty value |
| LegacySink.FromRaw | src/terminal_sink.rs:60-72 | `from_raw` succeeds exactly when `3 * w * h` fits a `usize` and the buffer holds that many bytes |
| LegacySink.LegacyDecode | src/terminal_sink.rs:37-72 | the checks fail in order, the last when the buffer is too short for the caps' size; on success the caps' size |
| LegacySink.PairCells | src/terminal_sink.rs:147-157 | a pair row draws, per column, the top pixel as foreground over the bottom pixel as background |
| LegacySink.TopCells | src/terminal_sink.rs:136-145 | the unpaired last row draws each pixel foreground-only |
| LegacySink.LegacyRow | src/terminal_sink.rs:124-157 | an output row is a cursor move plus one half block per column |
| LegacySink.LegacyRowsLength | src/terminal_sink.rs:118-160 | n output rows are `n * (width + 1)` commands |
| LegacySink.LegacyRowsPrefix | src/terminal_sink.rs:118-160 | fewer output rows are a prefix of more |
| LegacySink.LegacyRowsAt | src/terminal_sink.rs:118-160 | command i of output row k sits at `k * (width + 1) + i` |
| LegacySink.LegacyRowStartsWithGoto | src/terminal_sink.rs:124-134 | output row k begins with `Goto(offset_x, offset_y + k)` |
| LegacySink.LegacyRowCell | src/terminal_sink.rs:136-157 | column c of output row k is pixel (c, 2k) over pixel (c, 2k + 1), or pixel (c, 2k) alone on the unpaired last row |
| LegacySink.LegacyRowsCount | src/terminal_sink.rs:118-160 | there are `ceil(h / 2)` output rows of `width + 1` commands |
| LegacySink.DrawPairRow | src/terminal_sink.rs:147-157 | the zip loop appends the pair row's half blocks |
| LegacySink.DrawTopRow | src/terminal_sink.rs:136-145 | the last-row loop appends the foreground-only half blocks |
| LegacySink.RenderRow | src/terminal_sink.rs:121-159 | one pass of the `'rendering` loop appends output row `current` |
| LegacySink.RenderRows | src/terminal_sink.rs:118-160 | the `while let` loop appends exactly the `ceil(h / 2)` output rows and stops after an unpaired last row |
| LegacySink.LegacyRenderSample | src/terminal_sink.rs:26-167 | fails exactly when a check fails, leaving an empty buffer; otherwise the buffer is `Clear` when `fresh_redraw`, then every output row of the thumbnail at the centring offset |
| InputHandler.SaturatingAdd | src/input_handler.rs:37 | the sum, or `ClockTime::MAX` when it would pass it |
| InputHandler.SaturatingSub | src/input_handler.rs:38 | the difference, or 0 when it would go below |
| InputHandler.SeekTarget | src/input_handler.rs:32-39 | a forward seek moves by the offset in seconds or stops at the clock's end; a backward seek moves back or stops at 0 |
| InputHandler.SeekEffects | src/input_handler.rs:32-48 | no seek when the position is unknown, otherwise one seek to the target |
| InputHandler.FiveSecondSeeks | src/input_handler.rs:32-70 | Right goes 5 s forward, saturating; Left goes 5 s back, and to 0 from less than 5 s |
| InputHandler.NextState | src/input_handler.rs:63-79 | the state stays `Playing` or `Paused`, so the `unreachable!` arm is never taken; Space changes it, Up gives `Playing`, Down gives `Paused`, any other key keeps it |
| InputHandler.Controls | src/input_handler.rs:50-91 | the loop over the key stream ends in `Playing` or `Paused` |
| InputHandler.SetStateIffChanged | src/input_handler.rs:66-89 | a `set_state` is requested if and only if the key changed the state, and then to the new state |
| InputHandler.SpaceTwice | src/input_handler.rs:71-77 | Space twice asks for the other state, then back |
| InputHandler.UpDownIdempotent | src/input_handler.rs:78-79 | Up and Down pressed again ask for nothing more |
| InputHandler.OtherKeysDoNothing | src/input_handler.rs:84 | any other key changes nothing and asks for nothing |
| InputHandler.QuitStops | src/input_handler.rs:80-83 | Ctrl-C, `q`, `Q` and Esc post end-of-stream, and no later key has any effect |
| InputHandler.DeadStreamStops | src/input_handler.rs:55-61 | keys after the pipeline or bus is gone, or after the pipeline is in `Null`, are never read |
| InputHandler.ControlsOne | src/input_handler.rs:65-90 | one key that is not a quit key: its seek and `set_state`, and the state it leads to |
| InputHandler.ControlsCons | src/input_handler.rs:65-90 | the effects of a key come before those of the keys after it |
| InputHandler.PlayControls | src/input_handler.rs:50-91 | the `for` loop starting from `Playing` asks for exactly the effects of `Controls` and ends in its state |
| InputHandler.HandleKey | src/input_handler.rs:66-89 | one pass of the loop body appends the key's seek and, if the state changed, its `set_state` |
| InputHandler.StepMatchesControls | src/input_handler.rs:65-90 | one pass of the loop moves one key from what is left to what is done |
| Cli.ParseU16 | src/main.rs:189 | `u16::from_str` rejects empty text, a lone `+`, non-digits and values above 65535, and accepts every other text: nonempty digits after at most one leading `+`, giving their decimal value |
| Cli.DigitsAccepted | src/main.rs:189 | nonempty digit text of value at most 65535 parses to that value, with or without a leading `+` |
| Cli.LeadingZerosValue | src/main.rs:189 | leading zeros do not change the value of digit text |
| Cli.LeadingZerosAccepted | src/main.rs:189 | every `u16` written with any number of leading zeros, with or without a leading `+`, parses to itself |
| Cli.ToDecimal | src/main.rs:181-196 | a number printed in decimal is nonempty digits without a leading zero |
| Cli.ToDecimalValue | src/main.rs:181-196 | reading the printed digits back gives the number |
| Cli.ParseU16RoundTrip | src/main.rs:189 | every `u16` printed in decimal parses back to itself, with or without a leading `+` |
| Cli.SizeFromStr | src/main.rs:181-196 | the "must be in the form" error exactly when there is no `x`; otherwise it splits at the first `x`, with the width error when the part before fails and the height error when the part after fails |
| Cli.SizeRoundTrip | src/main.rs:181-196 | for all `u16` w and h, `"{w}x{h}"` parses to `Size { width: w, height: h }` |
| Cli.ParsedHasNoX | src/main.rs:189 | text that parses as a `u16` holds no `x` |
| Cli.ParsedSizeHasOneX | src/main.rs:185-194 | an accepted size holds exactly one `x` |
| Cli.ZeroSizeIsAccepted | src/main.rs:191-192 | `0x0` is accepted although the error texts say "positive" |
| Cli.ZeroSizeOffsetWraps | src/terminal_sink/mod.rs:108-111 | with `--size 0x0` the smallest target (1, 1) does not fit, the wrapping offset is (32767, 32767), and the saturating one is (0, 0) |
| Cli.Flag | src/main.rs:18-24 | the default when unset; otherwise true exactly when the lowered, trimmed value is empty, `y` or `yes` |
| Cli.TrimmedLowerSpells | src/main.rs:18-24 | lower-casing then trimming gives a lower-case word exactly when the trimmed value spells it in any case, and gives empty text exactly when trimming does |
| Cli.FlagAcceptsMore | src/main.rs:18-24 | this `flag` accepts every value that `terminal_sink/mod.rs`'s `flag` accepts |
| Cli.FlagEmptyValue | src/main.rs:22 | the empty value is true here and false in `terminal_sink/mod.rs` |
| Cli.SpacedYTrims | src/main.rs:22 | trimming ` y` leaves `y` |
| Cli.FlagSpacedValue | src/main.rs:22 | ` y` is true here and false in `terminal_sink/mod.rs` |
| Cli.HasAudioSink | src/main.rs:109 | there is an audio sink when `NO_AUDIO_OUTPUT` is unset, and none when it is set to the empty value |
| Cli.QuitHandler.constructor | src/main.rs:213 | the handler starts with no callbacks |
| Cli.QuitHandler.Add | src/main.rs:162-164 | the callback is appended after those already added |
| Cli.QuitHandler.Drop | src/main.rs:167-173 | every callback runs, in the order added, and the list is left empty |
| Cli.AddAllThenDrop | src/main.rs:157-173 | each callback added to a fresh handler runs exactly once at its drop, in insertion order |
| Cli.PadAdded | src/main.rs:131-147 | an `audio/` pad is linked exactly when there is an audio sink whose pad is unlinked; a `video/` pad exactly when the convert pad is unlinked; any other pad is ignored |
| Cli.MediaTypesExclusive | src/main.rs:131-141 | no media type starts with both `audio/` and `video/`, so the order of the tests has no effect |
| Cli.PadsAdded | src/main.rs:124-148 | one decision per pad; a linked sink pad stays linked |
| Cli.AtMostOneLinkEach | src/main.rs:124-148 | over any run of new pads at most one is linked to audio and at most one to video |

## Left out

- `resize_image::resize_dimensions` and `fitted` (src/resize_image.rs) are f64 arithmetic with rounding and float-to-int casts. `render_sample` takes their result as the parameter `fitted`.
- The resampling is foreign numeric code: `make_inner_resizer`, the `resize` crate's `resizer.resize`, and `image::imageops::thumbnail`. It is a parameter, a target-sized pixel sequence. The model records only which resampler would be used (`Resize.Inner`).
- `src/term_size.rs` is not part of this model. This covers `TerminalSizeUpdater`, `trigger_reload` and the reload when paused. They are a background thread and a Condvar handshake around an OS query. The model stores and loads whatever size they would deliver.
- Every gstreamer call is left out, since each is a foreign library call:
  - caps, `VideoInfo` and buffer mapping, which become the optional fields of `SampleData`;
  - `seek_simple`, `set_state` and `query_position`, which become `Effect`s and the event's `position`;
  - bus posting and `seek_error_to_bus`;
  - the AppSink builder and callbacks (`send_new_sample`, `create`) and the `run_renderer_thread` loop;
  - `make_pipeline_and_bus`, `get_source`, `audio_sink::create` and the bus loop of `program_main`;
  - `launch::run`, which is platform setup.
- ANSI and termion encoding (`Cell::draw`, `termion::clear::All`, `Goto` formatting), raw mode, the alternate screen, and stdout writes and flushes. Commands are abstract and written in one piece.
- Threads, mutexes, condition variables, `Arc`/`Weak` and atomic memory ordering:
  - each locked operation is one atomic step;
  - `Weak::upgrade` failing is the boolean `alive`;
  - a blocking `pull_sample` returns `WouldWait` instead of sleeping;
  - atomics are plain fields.
- TerminalSink.RenderSample: `u16::try_from(..).unwrap()` in `render` panics for an image wider than 65535 or more than 131070 pixels tall. That case is a precondition (`Diff.Renderable`), not an error path.
- TerminalSink.CentringOffset: the `u16` subtractions in the offset underflow when the target does not fit, and nothing in the source prevents that. `resize_dimensions` never returns a zero dimension (src/resize_image.rs:28-29), while `--size 0x600` is accepted (`Cli.ZeroSizeIsAccepted`). A terminal that reports zero columns, and `DynamicSize` before its first store (its cache starts at 0, src/terminal_sink/mod.rs:172), give the same: a target of width 1 in a terminal of width 0. A debug build panics on the subtraction; a release build wraps it (`TerminalSink.CentringOffsetAsWritten`, and the finding below).
- TerminalSink.RenderSample: requires the target to fit in the terminal, so the render that follows a wrapped offset, tens of thousands of cells off the screen, is not modelled. `LegacySink.LegacyRenderSample` requires the same, for the same subtraction in src/terminal_sink.rs:111-114.
- Output.Obey: `cursor_goto` saturates, so a move to column or row 65535 lands where a move to 65534 does. The terminal model does not represent that last column and row; the screen lemmas only move the cursor within `Fits`.
- LegacySink.RenderRows: `offset_height + current` is assumed not to wrap, as the comment in the source states. In `diff.rs` the same addition is modelled wrapping (`AddU16`).
- `expected_size` and `reserve` only affect capacity, so they are left out.
- The `ParseIntError` kind and the texts built by `element_error!` are discarded. The model keeps only which check failed.
- Link failures (`expect("Failed to link ...")`) panic, which the model does not represent.
- The packing of `must_cast` is modelled for a little-endian machine: the width is in the low 16 bits.
- `as_image_crate_buffer` and `ResizeBuffer` from `mod.rs` are absent in the modelled `resize.rs`. The `ImageRef` returned by `Resizer::resize` goes to the renderer directly.
- The corrections of the findings are proved as separate definitions (`Resize.PlanResizeFixed`, `DiffFindings.DiffCellFixed`, `TerminalSink.CentringOffsetSaturating`). Within the fit that `render_sample` is modelled under, the saturating offset is `TerminalSink.CentringOffset`. The classes `Resize.Resizer` and `Diff.RenderedFrame` keep the code as written, so that each method matches its source lines.

## Findings

| source | as written | input that shows it | evidently intended | confidence | as-written member | corrected member |
|---|---|---|---|---|---|---|
| src/terminal_sink/resize.rs:190-222 | The black-fill exit of `Resizer::resize` resizes the image buffer but leaves the cached resampler. The rebuild test only compares the cached source size with this call's, plus whether the destination changed "in this call". | Call 1 resizes a 2x2 image to 1x1. Call 2 resizes an empty image to 3x3, taking the black fill. Call 3 resizes the 2x2 image to 3x3 and resamples with the resampler built for 1x1. | rebuild whenever the cached resampler was not built for this source and destination | not executed | Resize.BlackFillLeavesStaleResizer | Resize.FixedResamplesWithMatchingResizer |
| src/terminal_sink/diff.rs:143-161 | For an odd-height image the diff path compares and stores only `rgb_top` on the last cell row. A bottom half left from an earlier, one-row-taller frame of the same grid is kept on the screen, where a redraw paints it black (diff.rs:105-111). | A 1x2 image (black over white) is rendered, then a 1x1 black image. The grid is 1x1 both times, so the diff path is taken and sends nothing. The light bottom half stays. | the last row's bottom halves are black after any render, as after a redraw | not executed | DiffFindings.StaleBottomHalf | DiffFindings.FixedDiffShowsRedrawFrame |
| src/terminal_sink/mod.rs:108-111 | `term_width - new_width` and `term_height - new_height.div_ceil(2)` are `u16` subtractions with nothing to ensure the target fits. `resize_dimensions` returns at least 1 in each dimension, while `Size::from_str` accepts 0. | `--size 0x0`: the target is (1, 1) in a (0, 0) terminal. A debug build panics; a release build centres the image at (32767, 32767). | never place the image beyond the terminal, for example with saturating subtractions | not executed | Cli.ZeroSizeOffsetWraps | TerminalSink.CentringOffsetSaturating |
