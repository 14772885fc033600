# evisualiser core in Dafny

`evisualiser` turns address-event (AER) sensor data — events
`[x, y, t, p]` with a timestamp in microseconds and a binary polarity —
into a frame-based video. This project models the two pieces of real logic
in `Sequence` and proves properties of them:

- the **windowing scan** of `generate_all_frames`: the window width
  `1000000 // fps`, the first window starting at the first event's
  timestamp, and the nested `while` loop that gives each window the maximal
  run of following events below its end, numbering frames 1, 2, ...;
- the **rasterizer** `create_frame`: an all-zero `shape[0] x shape[1] x 3`
  BGR frame on which every event of a window writes channel 1 := `p * 255`
  and channel 2 := `(1 - p) * 255` at `frame[y][x]`.

Files and modules:

- `events.dfy` (`Events`): the event record, the sensor shape, a
  `Result` type, the sortedness and drawability predicates.
- `windowing.dfy` (`Windowing`): the width, the scan as a recursive
  function `Scan` over a cursor into the event sequence, the scan as the
  imperative loop `GenerateAllWindows` proved equal to it, the outer loop
  as a state machine (`AfterIterations`), and the properties of the scan.
- `raster.dfy` (`Raster`): the frame, the painting fold `PaintAll`, an
  independent pixel-by-pixel reference (`Expected`: black, or the colour of
  the last event at that pixel), the checked `CreateFrame`, the imperative
  loop `CreateFrameLoop`, and the properties tying them together.
- `conversion.dfy` (`Conversion`): a whole run without I/O — windows, then
  one numbered frame per window.
- `scenarios.dfy` (`Scenarios`): small concrete runs.

Modelling decisions:

- The sensor shape is kept as the code indexes it: `Shape.rows` is
  `shape[0]`, the first frame dimension, indexed by an event's `y`;
  `Shape.cols` is `shape[1]`, indexed by `x` (evisualiser.py:152-156). The
  field comment at evisualiser.py:51 describes `shape` as "(horizontal
  pixels, vertical pixels)", which would make `shape[0]` the width; the two
  readings agree only for square sensors. The model follows the indexing
  and does not decide which reading the decoder's shape follows.
- Python's `//` is floor division; `FloorDiv` writes it out, since Dafny's
  `/` differs for a negative divisor.
- Where the code fails, the model returns an error:
  `fps == 0` is a division by zero (`ZeroFrameRate`); an empty sequence
  fails on reading the first event at evisualiser.py:104 (`NoEvents`), so
  an empty input gives an error, not zero windows; a width of zero or less
  (`fps > 1000000` or `fps < 0`) makes the loop run forever, which
  `NonPositiveWidthStalls` proves and `Windows` reports as
  `NonTerminating`.
- The rasterizer does not check coordinates. `CreateFrame` fails the
  whole frame at the first event that cannot be drawn: `OutOfBounds(i)` if
  its coordinates are outside `[0, cols) x [0, rows)`, otherwise
  `BadPolarity(i)` for a polarity other than 0 or 1; a run fails at the
  first such frame (`FrameFailure`).
  `CreateFrameLoop`, the loop as written, takes drawable events as its
  precondition instead.
- Timestamp order is not checked, as in the code. The scan's partition,
  maximality and termination properties hold for any order; the interval
  property and the window count need sorted input (`Sorted`), and
  `UnsortedEventMisassigned` shows an event falling outside its window's
  interval otherwise.

## Model

| member | source | states |
|---|---|---|
| Windowing.FloorDiv | evisualiser.py:101 | the quotient is the floor of `a / b` for either sign of `b`: `b*q <= a < b*q + b` for positive `b`, mirrored for negative |
| Windowing.WindowWidth | evisualiser.py:101 | fails exactly for `fps == 0`; otherwise the width is the floor of `1000000 / fps` for either sign: `fps*w <= 1000000 < fps*(w+1)` for positive `fps`, `fps*w + fps < 1000000 <= fps*w` for negative |
| Windowing.PositiveWidthIff | evisualiser.py:101 | the width is positive exactly for `1 <= fps <= 1000000` |
| Windowing.RunEnd | evisualiser.py:118-120 | the inner loop stops at or after the cursor, within the sequence, and at an event not below the window end |
| Windowing.RunBelowEnd | evisualiser.py:118-120 | every event the inner loop passes over lies below the window end |
| Windowing.RunEndUnique | evisualiser.py:118-120 | the stopping position is the only one with every event before it below the end and the event at it not |
| Windowing.LagDecreases | evisualiser.py:110-130 | each outer iteration with a positive width either moves the cursor or brings the next event closer to the window start, so the scan terminates |
| Windowing.Scan | evisualiser.py:104-130 | the scan yields no window exactly when the cursor is already at the end of the input; otherwise its first window carries the given frame number and starts at the given start |
| Windowing.Windows | evisualiser.py:101-130 | windows come out exactly for non-empty input and `1 <= fps <= 1000000`; `fps == 0` and empty input give their own errors |
| Windowing.Unfold | evisualiser.py:112-130 | the first window has the given number and start and takes the events up to where the inner loop stops; the rest are the windows from there, one width later, numbered one higher |
| Windowing.FlattenWindows | evisualiser.py:113-123 | the slices concatenated in window order are exactly the events from the cursor on: none dropped, duplicated or reordered |
| Windowing.WindowStarts | evisualiser.py:104-130 | window `k` starts `k` widths after the first window and carries frame number `number + k` |
| Windowing.SliceMaximal | evisualiser.py:113-120 | window `k` is exactly the input between the loop's cursor before and after iteration `k`, all its events lie below its end, and the event the cursor stops at does not: no slice could be longer |
| Windowing.SortedWindowsContain | evisualiser.py:118 | for sorted input every event of window `k` satisfies `start_k <= t < start_k + w` |
| Windowing.LastWindowNonEmpty | evisualiser.py:110 | the last window holds at least one event: no empty windows after the last event |
| Windowing.WindowCount | evisualiser.py:110-130 | for sorted input there are `(t_last - start) div w + 1` windows |
| Windowing.WindowsContract | evisualiser.py:101-130 | an accepted run has a positive width, at least one window, the first starting at the first timestamp, each later one a width after the previous, frames numbered 1, 2, ..., slices concatenating to the input, a non-empty last window, and every slice maximal: its events lie below its window's end and the event after it does not |
| Windowing.WindowsMaximal | evisualiser.py:112-120 | in an accepted run every event of window `k` lies below `start_k + w`, and the event at the cursor after window `k` (the events of the first `k + 1` windows counted) does not |
| Windowing.WrittenSliceMaximal | evisualiser.py:112-120 | for what the loop writes from any state, window `k`'s events lie below its end and the event the cursor stops at after it does not |
| Windowing.SortedWindowsContract | evisualiser.py:110-130 | for sorted input of an accepted run every event lies in its window's interval and the window count is `(t_last - t_first) div w + 1` |
| Windowing.OuterIteration | evisualiser.py:112-130 | one outer iteration never moves the cursor backwards or past the end |
| Windowing.AfterIterations | evisualiser.py:104-130 | the loop starts with cursor 0, start at the first timestamp and frame number 1, and the cursor never passes the end of the input |
| Windowing.Iterate | evisualiser.py:110-130 | over any number of iterations the cursor never moves backwards and never passes the end |
| Windowing.IterateSnoc | evisualiser.py:110-130 | `n + 1` iterations are `n` iterations followed by one more |
| Windowing.IterateCounts | evisualiser.py:112-130 | after `n` iterations the start has moved `n` widths and the frame number has grown by `n`, whatever the cursor does |
| Windowing.UnfoldState | evisualiser.py:112-130 | the first window of the scan from a loop state is what one iteration from that state writes, and the rest is the scan from the state after it |
| Windowing.ScanWritten | evisualiser.py:110-130 | the scan is window for window what successive outer iterations write |
| Windowing.IterationWritesWindow | evisualiser.py:112-123 | window `k` carries the frame number and start of the loop after `k` iterations and holds the events from that cursor up to where the inner loop stops |
| Windowing.CursorConsumed | evisualiser.py:113-120 | after `k` iterations the cursor has moved past exactly the events of the first `k` windows |
| Windowing.ConsumedSnoc | evisualiser.py:118-120 | the cursor after window `k` is the cursor before it plus that window's length |
| Windowing.ConsumedMonotone | evisualiser.py:118-120 | the number of events consumed never decreases from one window to a later one |
| Windowing.ConsumedReachesEnd | evisualiser.py:110-120 | with a non-empty last window, the first `n` windows consume as many events as all of them exactly when `n` is the window count |
| Windowing.NonPositiveWidthStalls | evisualiser.py:110-130 | with a width of zero or less the cursor is still at the first event after any number of iterations, and the start has moved `n` widths |
| Windowing.IterationsFollowWindows | evisualiser.py:104-130 | with a positive width, after `n` iterations the cursor is past the first `n` windows, the start is `n` widths on, and the frame number is `n + 1` |
| Windowing.LoopExitsAfterLastWindow | evisualiser.py:110 | the loop condition fails exactly after as many iterations as there are windows |
| Windowing.ConsumedAll | evisualiser.py:113-123 | the cursor after all windows equals the number of events in them |
| Windowing.AdvanceCursor | evisualiser.py:118-120 | the inner loop as written stops exactly at `RunEnd`: the first event not below the window end, or the end of the input |
| Windowing.GenerateAllWindows | evisualiser.py:101-130 | the imperative scan yields exactly the windows of `Scan`, their slices concatenate to the input, and window `k` is numbered `k + 1` |
| Raster.Blank | evisualiser.py:152 | the initial frame has the sensor shape and every pixel `(0, 0, 0)` |
| Raster.Stamp | evisualiser.py:155-156 | the two channel writes leave blue as it was and make the pixel green `(g, r) = (255, 0)` for polarity 1, red `(0, 255)` for polarity 0 |
| Raster.Paint | evisualiser.py:155-156 | drawing one event keeps the shape, stamps its own pixel and leaves every other pixel unchanged |
| Raster.PaintAll | evisualiser.py:152-158 | drawing a slice in order keeps the frame in the sensor shape |
| Raster.LastHit | evisualiser.py:154-156 | finds the last event of a slice at a pixel, or reports none: no later event addresses that pixel |
| Raster.FirstUndrawable | evisualiser.py:154-156 | finds the first event that cannot be drawn, all before it drawable |
| Raster.CreateFrame | evisualiser.py:136-158 | succeeds exactly when every event is drawable, with a frame of the sensor shape; otherwise names the first bad event and whether its coordinates or its polarity are at fault |
| Raster.PaintAllMatchesReference | evisualiser.py:154-156 | drawing in order gives each pixel the reference colour: black if untouched, else the colour of the last event there |
| Raster.FrameMatchesReference | evisualiser.py:136-158 | every pixel of a created frame is the reference colour |
| Raster.UntouchedPixelBlack | evisualiser.py:152-158 | a pixel no event of the slice addresses stays `(0, 0, 0)` |
| Raster.OnlyHitPixelsColoured | evisualiser.py:152-158 | every pixel of a created frame that no event of the slice addresses is `(0, 0, 0)` |
| Raster.LastEventDecides | evisualiser.py:154-156 | the last event at a pixel sets it to `(0, 255, 0)` for polarity 1 and `(0, 0, 255)` for polarity 0, whatever came before |
| Raster.FrameColours | evisualiser.py:152-156 | every pixel is black, pure green or pure red; channel 0 is always 0 |
| Raster.EmptySliceIsBlank | evisualiser.py:152-158 | an empty slice yields the all-zero frame |
| Raster.CreateFrameLoop | evisualiser.py:152-158 | the loop with its two channel writes per event yields a frame of the sensor shape equal to the reference pixel by pixel |
| Conversion.RenderAll | evisualiser.py:123-130 | rendering succeeds exactly when every slice is drawable, with one frame per window carrying the window's number and its slice's rasterization |
| Conversion.DrawableSlices | evisualiser.py:113-123 | all slices are drawable exactly when all events are |
| Conversion.Convert | evisualiser.py:101-130 | a run fails in the windowing stage exactly for empty input or a frame rate outside 1 to 1000000: division by zero for `fps == 0`, the missing first event for empty input with any other rate, and otherwise (non-empty input, `fps < 0` or `fps > 1000000`) the endless loop; a successful run has one frame per window |
| Conversion.ConvertContract | evisualiser.py:101-130 | a run succeeds exactly for non-empty input, `1 <= fps <= 1000000` and drawable events, and then yields one frame per window numbered 1, 2, ... in window order |
| Scenarios.TwoWindowRun | evisualiser.py:101-130 | events at 0, 500 and 1100 us at 1000 fps give windows `[0, 1000)` with the first two and `[1000, 2000)` with the third |
| Scenarios.TwoWindowFrames | evisualiser.py:136-158 | that run gives frame 1 with (0,0) green, (1,1) red and its other seven pixels black, and frame 2 with (2,2) green and its other eight pixels black |
| Scenarios.FirstWindowFrame | evisualiser.py:136-158 | the events at (0,0) with polarity 1 and (1,1) with polarity 0 on a 3 x 3 sensor give (0,0) green, (1,1) red and every other pixel black |
| Scenarios.SecondWindowFrame | evisualiser.py:136-158 | one polarity-1 event at (2,2) on a 3 x 3 sensor gives (2,2) green and every other pixel black |
| Scenarios.GapGivesEmptyWindow | evisualiser.py:110-130 | a gap of more than a width produces an empty interior window |
| Scenarios.UnsortedEventMisassigned | evisualiser.py:118 | an out-of-order event is swept into a window whose interval does not contain it |
| Scenarios.SamePixelLastWins | evisualiser.py:154-156 | two events at one pixel: the later polarity-0 event leaves it red |
| Scenarios.OutOfBoundsEvent | evisualiser.py:155 | an event at `x == cols` fails the frame with its index |
| Scenarios.TooHighFrameRate | evisualiser.py:101 | 2000000 fps truncates the width to 0 and is reported as non-terminating |

## Left out

- Decoding the AEDAT file (`load_df_from_file`, evisualiser.py:72-84): a call into `aermanager` and pandas; the event sequence and the shape are inputs.
- PNG writing, the temporary directory and the ffmpeg call (evisualiser.py:102, 127, 133-134, 160-174): file I/O and an external process. The model stops at the numbered frames.
- Progress and summary output and `get_eta` (evisualiser.py:111, 132, 176-191): wall-clock time and formatting. The count printed at evisualiser.py:132 is one more than the number of frames written; it is not modelled.
- Fixed-width timestamp arithmetic: `t`, `start_time` and `end_time` (evisualiser.py:104, 112, 129) are numpy integers, which wrap on overflow; the model uses unbounded integers, which agree as long as every `start_time + frame_width_us` stays within the 64-bit range.
- numpy `uint8` storage: pixel channels are unbounded integers; with polarity restricted to 0 or 1 they only take the values 0 and 255, so no wrap-around arises.
- Raster.CreateFrame: rejects negative coordinates, which Python would wrap around to the other end of the row or column, and polarities other than 0 and 1, which `uint8` storage would wrap; both are reported as errors instead of being modelled.
- Raster.CreateFrameLoop: requires drawable events instead of modelling numpy's `IndexError` on an out-of-range write.
- Conversion.RenderAll: on failure it states only that a frame failed, not which window or event; the frames the source writes before the failing one are not produced.
- The duplicate width computation in `event_file_to_video` (evisualiser.py:67) is unused there and not modelled separately.

## Findings

| source | as written | input that shows it | evidently intended | confidence | as-written member | corrected member |
|---|---|---|---|---|---|---|
| evisualiser.py:101-130 | `1000000 // fps` is 0 for `fps > 1000000` (negative for `fps < 0`) and the loop never advances past the first event | one event, `fps = 2000000` | reject frame rates whose window width is not positive | not executed; high | Windowing.NonPositiveWidthStalls | Windowing.Windows |
