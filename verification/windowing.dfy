/** The windowing pass of `Sequence.generate_all_frames`: the window width
    derived from the frame rate, and the single forward scan that cuts the
    event sequence into consecutive time windows, one per output frame. */
module Windowing {
  import opened Events

  /** Timestamps are in microseconds; one second of them. */
  const MicrosPerSecond: int := 1000000

  /** One time window: the frame number it is written under, the window's
      start timestamp, and the contiguous run of events the scan assigned to
      it. The window covers `[start, start + width)`. */
  datatype Window = Window(number: nat, start: int, slice: seq<Event>)

  /** Why no sequence of windows comes out. */
  datatype WindowError =
    | ZeroFrameRate          // `1000000 // 0` raises before anything is read
    | NoEvents               // the first event is read unconditionally
    | NonTerminating(width: int)  // a width <= 0 never lets the scan pass event 0

  /** Python's `//`: division rounding towards minus infinity, which is not
      Dafny's `/` when the divisor is negative. */
  function FloorDiv(a: int, b: int): (q: int)
    requires b != 0
    ensures b > 0 ==> b * q <= a < b * q + b
    ensures b < 0 ==> b * q + b < a <= b * q
  {
    if b > 0 then a / b else (-a) / (-b)
  }

  /** The window width in microseconds for a requested frame rate,
      `1000000 // fps`, truncated as the source computes it. */
  function WindowWidth(fps: int): (r: Result<int, WindowError>)
    ensures r.Err? <==> fps == 0
    ensures r.Err? ==> r.error == ZeroFrameRate
    ensures r.Ok? && fps > 0 ==> fps * r.value <= MicrosPerSecond < fps * (r.value + 1)
    ensures r.Ok? && fps < 0 ==> fps * r.value + fps < MicrosPerSecond <= fps * r.value
  {
    if fps == 0 then Err(ZeroFrameRate) else Ok(FloorDiv(MicrosPerSecond, fps))
  }

  /** The scan can only make progress with a positive width, and the width is
      positive for exactly the frame rates 1 to 1000000. */
  lemma PositiveWidthIff(fps: int)
    ensures WindowWidth(fps).Ok? && WindowWidth(fps).value > 0 <==> 1 <= fps <= MicrosPerSecond
  {
    if fps > MicrosPerSecond {
      DivUnique(MicrosPerSecond, fps, 0);
    } else if 1 <= fps {
      var q := FloorDiv(MicrosPerSecond, fps);
      assert fps * q == fps * (q + 1) - fps;
      FactorPositive(fps, q);
    } else if fps < 0 {
      var q := FloorDiv(MicrosPerSecond, fps);
      FactorNegative(fps, q);
    }
  }

  /** Where the inner `while` stops when it starts at `cursor` with window
      end `end`: the first position at or after `cursor` whose event is not
      below `end`, or the end of the sequence. */
  function RunEnd(events: seq<Event>, cursor: nat, end: int): (j: nat)
    requires cursor <= |events|
    ensures cursor <= j <= |events|
    ensures j < |events| ==> events[j].t >= end
    decreases |events| - cursor
  {
    if cursor == |events| || events[cursor].t >= end then cursor
    else RunEnd(events, cursor + 1, end)
  }

  /** Every event the inner loop passes over lies below the window end. */
  lemma {:induction false} RunBelowEnd(events: seq<Event>, cursor: nat, end: int)
    requires cursor <= |events|
    ensures forall i :: cursor <= i < RunEnd(events, cursor, end) ==> events[i].t < end
    decreases |events| - cursor
  {
    if cursor < |events| && events[cursor].t < end {
      RunBelowEnd(events, cursor + 1, end);
    }
  }

  /** The stopping position of the inner loop is the only one with every
      event before it below `end` and the event at it (if any) not. */
  lemma RunEndUnique(events: seq<Event>, cursor: nat, end: int, j: nat)
    requires cursor <= j <= |events|
    requires forall i :: cursor <= i < j ==> events[i].t < end
    requires j < |events| ==> events[j].t >= end
    ensures RunEnd(events, cursor, end) == j
  {
    RunBelowEnd(events, cursor, end);
  }

  /** How far the next event lies at or beyond the window start; it shrinks
      with every empty window, which is what ends a run of empty windows. */
  function Lag(events: seq<Event>, cursor: nat, start: int): (d: nat)
  {
    if cursor < |events| && events[cursor].t >= start then events[cursor].t - start else 0
  }

  /** Each window either moves the cursor or, when it is empty, brings the
      next event closer to the window start: the scan's termination measure
      goes down. */
  lemma LagDecreases(events: seq<Event>, cursor: nat, start: int, w: int)
    requires w > 0 && cursor < |events|
    ensures var j := RunEnd(events, cursor, start + w);
      cursor < j || Lag(events, j, start + w) < Lag(events, cursor, start)
  {
  }

  /** The windows the scan produces from the cursor position `cursor`, the
      current window starting at `start` and numbered `number`. Every window
      takes the maximal run of events below its end; the next one starts at
      that end. Generation stops when the cursor reaches the end. */
  function Scan(events: seq<Event>, cursor: nat, start: int, w: int, number: nat): (ws: seq<Window>)
    requires cursor <= |events|
    requires w > 0
    ensures |ws| == 0 <==> cursor == |events|
    ensures |ws| > 0 ==> ws[0].number == number && ws[0].start == start
    decreases |events| - cursor, Lag(events, cursor, start)
  {
    if cursor == |events| then []
    else
      var j := RunEnd(events, cursor, start + w);
      LagDecreases(events, cursor, start, w);
      [Window(number, start, events[cursor..j])] + Scan(events, j, start + w, w, number + 1)
  }

  /** The whole windowing pass for a frame rate, with the failures of the
      source as errors: division by zero, reading the first event of an empty
      sequence, and a loop that would never end. */
  function Windows(events: seq<Event>, fps: int): (r: Result<seq<Window>, WindowError>)
    ensures r.Ok? <==> |events| > 0 && 1 <= fps <= MicrosPerSecond
    ensures r == Err(ZeroFrameRate) <==> fps == 0
    ensures r == Err(NoEvents) <==> fps != 0 && |events| == 0
    ensures r.Err? && r.error.NonTerminating? ==> r.error.width <= 0
  {
    PositiveWidthIff(fps);
    var width := WindowWidth(fps);
    if width.Err? then Err(width.error)
    else if |events| == 0 then Err(NoEvents)
    else if width.value <= 0 then Err(NonTerminating(width.value))
    else Ok(Scan(events, 0, events[0].t, width.value, 1))
  }

  /** The events of the windows, concatenated in window order. */
  function Flatten(ws: seq<Window>): (es: seq<Event>)
  {
    if |ws| == 0 then [] else ws[0].slice + Flatten(ws[1..])
  }

  /** Number of events in the first `k` windows: how far the cursor has
      moved after `k` windows have been written. */
  function Consumed(ws: seq<Window>, k: nat): (n: nat)
    requires k <= |ws|
  {
    if k == 0 then 0 else |ws[0].slice| + Consumed(ws[1..], k - 1)
  }

  // ---------------------------------------------------------------------
  // Properties of the scan

  /** One step of the scan: the head window takes the maximal run below its
      end, and the remaining windows are those from where the run stopped. */
  lemma Unfold(events: seq<Event>, cursor: nat, start: int, w: int, number: nat)
    requires w > 0 && cursor < |events|
    ensures var j := RunEnd(events, cursor, start + w);
      var ws := Scan(events, cursor, start, w, number);
      var tail := Scan(events, j, start + w, w, number + 1);
      && ws[0] == Window(number, start, events[cursor..j])
      && ws[1..] == tail
      && |ws| == |tail| + 1
  {
  }

  /** No event is dropped, duplicated or reordered: the slices, in order,
      are exactly the events from the cursor on. */
  lemma {:induction false} FlattenWindows(events: seq<Event>, cursor: nat, start: int, w: int, number: nat)
    requires w > 0 && cursor <= |events|
    ensures Flatten(Scan(events, cursor, start, w, number)) == events[cursor..]
    decreases |Scan(events, cursor, start, w, number)|
  {
    if cursor < |events| {
      var j := RunEnd(events, cursor, start + w);
      var ws := Scan(events, cursor, start, w, number);
      var tail := Scan(events, j, start + w, w, number + 1);
      Unfold(events, cursor, start, w, number);
      FlattenWindows(events, j, start + w, w, number + 1);
      assert Flatten(ws) == events[cursor..j] + Flatten(tail);
      assert events[cursor..j] + events[j..] == events[cursor..];
    } else {
      assert Scan(events, cursor, start, w, number) == [];
    }
  }

  /** Window `k` starts `k` widths after the first one and is numbered `k`
      after it: the first window starts at the given start, each later one
      where the previous ended, and frames are numbered consecutively. */
  lemma {:induction false} WindowStarts(events: seq<Event>, cursor: nat, start: int, w: int, number: nat, k: nat)
    requires w > 0 && cursor <= |events|
    requires k < |Scan(events, cursor, start, w, number)|
    ensures Scan(events, cursor, start, w, number)[k].start == start + k * w
    ensures Scan(events, cursor, start, w, number)[k].number == number + k
    decreases |Scan(events, cursor, start, w, number)|
  {
    Unfold(events, cursor, start, w, number);
    if k > 0 {
      var j := RunEnd(events, cursor, start + w);
      var ws := Scan(events, cursor, start, w, number);
      var tail := Scan(events, j, start + w, w, number + 1);
      WindowStarts(events, j, start + w, w, number + 1, k - 1);
      assert ws[k] == tail[k - 1];
      assert start + w + (k - 1) * w == start + k * w;
    }
  }

  /** Counting one window further: the cursor after window `k` is the
      cursor before it plus that window's length. */
  lemma {:induction false} ConsumedSnoc(ws: seq<Window>, k: nat)
    requires k < |ws|
    ensures Consumed(ws, k + 1) == Consumed(ws, k) + |ws[k].slice|
  {
    if k > 0 {
      ConsumedSnoc(ws[1..], k - 1);
      assert ws[1..][k - 1] == ws[k];
    }
  }

  /** With timestamps in non-decreasing order (and none before the first
      window), every event lands in the window whose interval contains it:
      `start <= t < start + w`. */
  lemma {:induction false} SortedWindowsContain(events: seq<Event>, cursor: nat, start: int, w: int, number: nat, k: nat)
    requires w > 0 && cursor <= |events|
    requires Sorted(events)
    requires cursor < |events| ==> events[cursor].t >= start
    requires k < |Scan(events, cursor, start, w, number)|
    ensures var win := Scan(events, cursor, start, w, number)[k];
      forall i :: 0 <= i < |win.slice| ==> win.start <= win.slice[i].t < win.start + w
    decreases |Scan(events, cursor, start, w, number)|
  {
    var ws := Scan(events, cursor, start, w, number);
    var j := RunEnd(events, cursor, start + w);
    var tail := Scan(events, j, start + w, w, number + 1);
    Unfold(events, cursor, start, w, number);
    if k == 0 {
      RunBelowEnd(events, cursor, start + w);
      forall i | 0 <= i < |ws[0].slice|
        ensures ws[0].start <= ws[0].slice[i].t < ws[0].start + w
      {
        assert ws[0].slice[i] == events[cursor + i];
      }
    } else {
      SortedWindowsContain(events, j, start + w, w, number + 1, k - 1);
      assert ws[k] == tail[k - 1];
    }
  }

  /** The last window produced is never empty: generation stops right after
      the window holding the last event, so no trailing empty windows. */
  lemma {:induction false} LastWindowNonEmpty(events: seq<Event>, cursor: nat, start: int, w: int, number: nat)
    requires w > 0 && cursor < |events|
    ensures var ws := Scan(events, cursor, start, w, number);
      |ws| > 0 && |ws[|ws| - 1].slice| > 0
    decreases |Scan(events, cursor, start, w, number)|
  {
    var j := RunEnd(events, cursor, start + w);
    var ws := Scan(events, cursor, start, w, number);
    var tail := Scan(events, j, start + w, w, number + 1);
    Unfold(events, cursor, start, w, number);
    if j < |events| {
      LastWindowNonEmpty(events, j, start + w, w, number + 1);
      assert ws[|ws| - 1] == tail[|tail| - 1];
    } else {
      assert |tail| == 0;
    }
  }

  /** For sorted input the number of windows is the span of the remaining
      timestamps in whole widths, plus one: `(t_last - start) div w + 1`. */
  lemma {:induction false} WindowCount(events: seq<Event>, cursor: nat, start: int, w: int, number: nat)
    requires w > 0 && cursor < |events|
    requires Sorted(events)
    requires events[cursor].t >= start
    ensures |Scan(events, cursor, start, w, number)| == (events[|events| - 1].t - start) / w + 1
    decreases |Scan(events, cursor, start, w, number)|
  {
    var j := RunEnd(events, cursor, start + w);
    Unfold(events, cursor, start, w, number);
    var a := events[|events| - 1].t - start;
    if j == |events| {
      assert Scan(events, j, start + w, w, number + 1) == [];
      RunBelowEnd(events, cursor, start + w);
      DivUnique(a, w, 0);
    } else {
      WindowCount(events, j, start + w, w, number + 1);
      DivStep(a, w);
    }
  }

  /** What the windowing pass promises for every frame rate and input it
      accepts: at least one window, the first starting at the first
      timestamp and each later one a width after the previous; frames
      numbered 1, 2, ... in window order; the slices concatenate to the
      input; the last window holds the last event; each slice is the
      longest run below its window's end, since the event that follows it
      (if any) is not below that end. For sorted input every
      event lies in its window's interval and the number of windows is the
      span in widths plus one. */
  lemma WindowsContract(events: seq<Event>, fps: int)
    requires Windows(events, fps).Ok?
    ensures var ws := Windows(events, fps).value;
      var w := MicrosPerSecond / fps;
      && 0 < w
      && |ws| > 0
      && ws[0].start == events[0].t
      && (forall k :: 0 <= k < |ws| - 1 ==> ws[k + 1].start == ws[k].start + w)
      && (forall k :: 0 <= k < |ws| ==> ws[k].number == k + 1)
      && Flatten(ws) == events
      && |ws[|ws| - 1].slice| > 0
      && (forall k, i :: 0 <= k < |ws| && 0 <= i < |ws[k].slice| ==> ws[k].slice[i].t < ws[k].start + w)
      && (forall k :: 0 <= k < |ws| && Consumed(ws, k + 1) < |events| ==>
            events[Consumed(ws, k + 1)].t >= ws[k].start + w)
  {
    var ws := Windows(events, fps).value;
    var w := MicrosPerSecond / fps;
    PositiveWidthIff(fps);
    WindowsMaximal(events, fps);
    assert ws == Scan(events, 0, events[0].t, w, 1);
    LastWindowNonEmpty(events, 0, events[0].t, w, 1);
    FlattenWindows(events, 0, events[0].t, w, 1);
    assert events[0..] == events;
    forall k | 0 <= k < |ws|
      ensures ws[k].number == k + 1
      ensures ws[k].start == events[0].t + k * w
    {
      WindowStarts(events, 0, events[0].t, w, 1, k);
    }
    forall k | 0 <= k < |ws| - 1
      ensures ws[k + 1].start == ws[k].start + w
    {
      assert events[0].t + (k + 1) * w == events[0].t + k * w + w;
    }
  }

  /** Every slice of an accepted run is maximal: its events lie below its
      window's end and the event after it, counted in events consumed so
      far, does not. */
  lemma WindowsMaximal(events: seq<Event>, fps: int)
    requires Windows(events, fps).Ok?
    ensures var ws := Windows(events, fps).value;
      var w := MicrosPerSecond / fps;
      && (forall k, i :: 0 <= k < |ws| && 0 <= i < |ws[k].slice| ==> ws[k].slice[i].t < ws[k].start + w)
      && (forall k :: 0 <= k < |ws| && Consumed(ws, k + 1) < |events| ==>
            events[Consumed(ws, k + 1)].t >= ws[k].start + w)
  {
    var ws := Windows(events, fps).value;
    var w := MicrosPerSecond / fps;
    PositiveWidthIff(fps);
    var s0 := LoopState(0, events[0].t, 1);
    ScanWritten(events, w, s0);
    forall k | 0 <= k < |ws|
      ensures forall i :: 0 <= i < |ws[k].slice| ==> ws[k].slice[i].t < ws[k].start + w
      ensures Consumed(ws, k + 1) < |events| ==> events[Consumed(ws, k + 1)].t >= ws[k].start + w
    {
      WrittenSliceMaximal(events, w, s0, ws, k);
    }
  }

  /** Maximality of window `k` of what the loop writes, with the cursor
      after it counted as the events of the first `k + 1` windows. */
  lemma WrittenSliceMaximal(events: seq<Event>, w: int, s: LoopState, ws: seq<Window>, k: nat)
    requires s.cursor <= |events|
    requires WrittenFrom(events, w, s, ws)
    requires k < |ws|
    ensures forall i :: 0 <= i < |ws[k].slice| ==> ws[k].slice[i].t < ws[k].start + w
    ensures s.cursor + Consumed(ws, k + 1) < |events| ==>
      events[s.cursor + Consumed(ws, k + 1)].t >= ws[k].start + w
  {
    IterationWritesWindow(events, w, s, ws, k);
    CursorConsumed(events, w, s, ws, k + 1);
    IterateSnoc(events, w, s, k);
    var t := Iterate(events, w, s, k);
    RunBelowEnd(events, t.cursor, t.start + w);
    forall i | 0 <= i < |ws[k].slice|
      ensures ws[k].slice[i].t < ws[k].start + w
    {
      assert ws[k].slice[i] == events[t.cursor + i];
    }
  }

  /** For input in non-decreasing timestamp order, every event lies in the
      interval of the window it was put in, and the number of windows is
      `(t_last - t_first) div w + 1`. */
  lemma SortedWindowsContract(events: seq<Event>, fps: int)
    requires Windows(events, fps).Ok?
    requires Sorted(events)
    ensures var ws := Windows(events, fps).value;
      var w := MicrosPerSecond / fps;
      && |ws| == (events[|events| - 1].t - events[0].t) / w + 1
      && (forall k, i :: 0 <= k < |ws| && 0 <= i < |ws[k].slice| ==>
            ws[k].start <= ws[k].slice[i].t < ws[k].start + w)
  {
    var ws := Windows(events, fps).value;
    var w := MicrosPerSecond / fps;
    PositiveWidthIff(fps);
    assert ws == Scan(events, 0, events[0].t, w, 1);
    WindowCount(events, 0, events[0].t, w, 1);
    forall k, i | 0 <= k < |ws| && 0 <= i < |ws[k].slice|
      ensures ws[k].start <= ws[k].slice[i].t < ws[k].start + w
    {
      SortedWindowsContain(events, 0, events[0].t, w, 1, k);
    }
  }

  // ---------------------------------------------------------------------
  // The outer loop as a state machine

  /** The loop variables of `generate_all_frames` between two iterations. */
  datatype LoopState = LoopState(cursor: nat, start: int, number: nat)

  /** One iteration of the outer loop: run the cursor over the events below
      the window end, move the start to that end, count the frame. */
  function OuterIteration(events: seq<Event>, w: int, s: LoopState): (r: LoopState)
    requires s.cursor <= |events|
    ensures s.cursor <= r.cursor <= |events|
  {
    LoopState(RunEnd(events, s.cursor, s.start + w), s.start + w, s.number + 1)
  }

  /** The loop variables after `n` further iterations from state `s`. */
  function Iterate(events: seq<Event>, w: int, s: LoopState, n: nat): (r: LoopState)
    requires s.cursor <= |events|
    ensures s.cursor <= r.cursor <= |events|
    decreases n
  {
    if n == 0 then s else Iterate(events, w, OuterIteration(events, w, s), n - 1)
  }

  /** The loop variables after `n` iterations from the initial state
      (cursor 0, start at the first timestamp, frame number 1). */
  function AfterIterations(events: seq<Event>, w: int, n: nat): (r: LoopState)
    requires |events| > 0
    ensures n == 0 ==> r == LoopState(0, events[0].t, 1)
    ensures r.cursor <= |events|
  {
    Iterate(events, w, LoopState(0, events[0].t, 1), n)
  }

  /** Iteration `n + 1` is one more outer iteration after the first `n`. */
  lemma {:induction false} IterateSnoc(events: seq<Event>, w: int, s: LoopState, n: nat)
    requires s.cursor <= |events|
    ensures Iterate(events, w, s, n + 1) == OuterIteration(events, w, Iterate(events, w, s, n))
    decreases n
  {
    if n > 0 {
      IterateSnoc(events, w, OuterIteration(events, w, s), n - 1);
    }
  }

  /** Each iteration moves the window start one width on and counts one
      frame, whatever the cursor does. */
  lemma {:induction false} IterateCounts(events: seq<Event>, w: int, s: LoopState, n: nat)
    requires s.cursor <= |events|
    ensures Iterate(events, w, s, n).start == s.start + n * w
    ensures Iterate(events, w, s, n).number == s.number + n
    decreases n
  {
    if n > 0 {
      IterateCounts(events, w, OuterIteration(events, w, s), n - 1);
      assert s.start + w + (n - 1) * w == s.start + n * w;
    }
  }

  /** With a width of zero or less the cursor never leaves the first event,
      whatever the order of the timestamps: the window end never rises above
      the first timestamp, so `while current_event < n_events` never exits. */
  lemma {:induction false} NonPositiveWidthStalls(events: seq<Event>, w: int, n: nat)
    requires |events| > 0
    requires w <= 0
    ensures AfterIterations(events, w, n).cursor == 0
    ensures AfterIterations(events, w, n).start == events[0].t + n * w
  {
    var init := LoopState(0, events[0].t, 1);
    IterateCounts(events, w, init, n);
    if n > 0 {
      NonPositiveWidthStalls(events, w, n - 1);
      IterateSnoc(events, w, init, n - 1);
      IterateCounts(events, w, init, n - 1);
      NonNegTimesNonPos(n - 1, w);
    }
  }

  /** `ws` is what successive outer iterations from state `s` write, as far
      as `ws` goes: each window takes the loop's frame number and start and
      the events the inner loop passes over, and the next window is written
      from the state after that iteration. */
  ghost predicate WrittenFrom(events: seq<Event>, w: int, s: LoopState, ws: seq<Window>)
    requires s.cursor <= |events|
    decreases |ws|
  {
    |ws| == 0 ||
    (s.cursor < |events|
     && ws[0] == Window(s.number, s.start, events[s.cursor..OuterIteration(events, w, s).cursor])
     && WrittenFrom(events, w, OuterIteration(events, w, s), ws[1..]))
  }

  /** The scan is what the outer loop writes. */
  lemma {:induction false} ScanWritten(events: seq<Event>, w: int, s: LoopState)
    requires w > 0 && s.cursor <= |events|
    ensures WrittenFrom(events, w, s, Scan(events, s.cursor, s.start, w, s.number))
    decreases |events| - s.cursor, Lag(events, s.cursor, s.start)
  {
    if s.cursor < |events| {
      UnfoldState(events, w, s);
      LagDecreases(events, s.cursor, s.start, w);
      ScanWritten(events, w, OuterIteration(events, w, s));
    }
  }

  /** Iteration `k` of the loop writes window `k`: the window starts where
      the loop's start stands, carries the loop's frame number, and holds the
      events from the loop's cursor up to where the inner loop stops. */
  lemma {:induction false} IterationWritesWindow(events: seq<Event>, w: int, s: LoopState, ws: seq<Window>, k: nat)
    requires s.cursor <= |events|
    requires WrittenFrom(events, w, s, ws)
    requires k < |ws|
    ensures var t := Iterate(events, w, s, k);
      && t.cursor < |events|
      && ws[k] == Window(t.number, t.start, events[t.cursor..RunEnd(events, t.cursor, t.start + w)])
    decreases k
  {
    if k > 0 {
      IterationWritesWindow(events, w, OuterIteration(events, w, s), ws[1..], k - 1);
      assert ws[k] == ws[1..][k - 1];
    }
  }

  /** One step of the scan in terms of the loop state: the head window is
      what the iteration from `s` writes, the rest is the scan from the
      state after it. */
  lemma UnfoldState(events: seq<Event>, w: int, s: LoopState)
    requires w > 0 && s.cursor < |events|
    ensures var ws := Scan(events, s.cursor, s.start, w, s.number);
      var next := OuterIteration(events, w, s);
      && ws[0] == Window(s.number, s.start, events[s.cursor..next.cursor])
      && ws[1..] == Scan(events, next.cursor, next.start, w, next.number)
      && |ws| == |ws[1..]| + 1
  {
    Unfold(events, s.cursor, s.start, w, s.number);
  }

  /** The slices partition the input window by window: window `k` is the
      input between the cursor before and after iteration `k`, every event
      there lies below the window end, and the event the cursor stops at (if
      any) does not, so no slice could have been longer. */
  lemma SliceMaximal(events: seq<Event>, cursor: nat, start: int, w: int, number: nat, k: nat)
    requires w > 0 && cursor <= |events|
    requires k < |Scan(events, cursor, start, w, number)|
    ensures var ws := Scan(events, cursor, start, w, number);
      var lo := Iterate(events, w, LoopState(cursor, start, number), k).cursor;
      var hi := Iterate(events, w, LoopState(cursor, start, number), k + 1).cursor;
      && lo <= hi <= |events|
      && ws[k].slice == events[lo..hi]
      && (forall i :: lo <= i < hi ==> events[i].t < ws[k].start + w)
      && (hi < |events| ==> events[hi].t >= ws[k].start + w)
  {
    var ws := Scan(events, cursor, start, w, number);
    var s0 := LoopState(cursor, start, number);
    ScanWritten(events, w, s0);
    IterationWritesWindow(events, w, s0, ws, k);
    IterateSnoc(events, w, s0, k);
    var s := Iterate(events, w, s0, k);
    RunBelowEnd(events, s.cursor, s.start + w);
  }

  /** After `k` iterations the cursor has moved past exactly the events of
      the first `k` windows. */
  lemma {:induction false} CursorConsumed(events: seq<Event>, w: int, s: LoopState, ws: seq<Window>, k: nat)
    requires s.cursor <= |events|
    requires WrittenFrom(events, w, s, ws)
    requires k <= |ws|
    ensures Iterate(events, w, s, k).cursor == s.cursor + Consumed(ws, k)
    decreases k
  {
    if k > 0 {
      CursorConsumed(events, w, OuterIteration(events, w, s), ws[1..], k - 1);
    }
  }

  /** With a positive width the loop state after `n` iterations is the
      cursor past the first `n` windows, the start of window `n`, and frame
      number `n + 1`. */
  lemma IterationsFollowWindows(events: seq<Event>, w: int, n: nat)
    requires |events| > 0 && w > 0
    requires n <= |Scan(events, 0, events[0].t, w, 1)|
    ensures var ws := Scan(events, 0, events[0].t, w, 1);
      AfterIterations(events, w, n) == LoopState(Consumed(ws, n), events[0].t + n * w, n + 1)
  {
    var ws := Scan(events, 0, events[0].t, w, 1);
    ScanWritten(events, w, LoopState(0, events[0].t, 1));
    CursorConsumed(events, w, LoopState(0, events[0].t, 1), ws, n);
    IterateCounts(events, w, LoopState(0, events[0].t, 1), n);
  }

  /** The loop exits after exactly as many iterations as there are windows:
      before that the cursor has events left, after it none. */
  lemma LoopExitsAfterLastWindow(events: seq<Event>, w: int, n: nat)
    requires |events| > 0 && w > 0
    requires n <= |Scan(events, 0, events[0].t, w, 1)|
    ensures AfterIterations(events, w, n).cursor == |events| <==>
      n == |Scan(events, 0, events[0].t, w, 1)|
  {
    var ws := Scan(events, 0, events[0].t, w, 1);
    IterationsFollowWindows(events, w, n);
    assert Consumed(ws, |ws|) == |events| by {
      FlattenWindows(events, 0, events[0].t, w, 1);
      ConsumedAll(ws);
    }
    LastWindowNonEmpty(events, 0, events[0].t, w, 1);
    ConsumedReachesEnd(ws, n);
  }

  /** When the last window is non-empty, the first `n` windows consume all
      events only when `n` counts every window. */
  lemma ConsumedReachesEnd(ws: seq<Window>, n: nat)
    requires n <= |ws|
    requires |ws| > 0 ==> |ws[|ws| - 1].slice| > 0
    ensures Consumed(ws, n) == Consumed(ws, |ws|) <==> n == |ws|
  {
    if n < |ws| {
      ConsumedMonotone(ws, n, |ws| - 1);
      ConsumedSnoc(ws, |ws| - 1);
    }
  }

  /** All windows together consume the flattened events. */
  lemma {:induction false} ConsumedAll(ws: seq<Window>)
    ensures Consumed(ws, |ws|) == |Flatten(ws)|
  {
    if |ws| > 0 {
      ConsumedAll(ws[1..]);
    }
  }

  /** The cursor never moves back: fewer windows consume no more events. */
  lemma {:induction false} ConsumedMonotone(ws: seq<Window>, i: nat, j: nat)
    requires i <= j <= |ws|
    ensures Consumed(ws, i) <= Consumed(ws, j)
    decreases j - i
  {
    if i < j {
      ConsumedMonotone(ws, i, j - 1);
      ConsumedSnoc(ws, j - 1);
    }
  }

  // ---------------------------------------------------------------------
  // The imperative scan

  /** The loop of `generate_all_frames` as written: a cursor, a window start
      and a frame number, an inner loop that advances the cursor while the
      event lies below the window end, one window per outer iteration. */
  method GenerateAllWindows(events: seq<Event>, w: int) returns (ws: seq<Window>)
    requires |events| > 0 && w > 0
    ensures ws == Scan(events, 0, events[0].t, w, 1)
    ensures Flatten(ws) == events
    ensures forall k :: 0 <= k < |ws| ==> ws[k].number == k + 1
  {
    var start := events[0].t;
    var number := 1;
    var cursor := 0;
    ws := [];
    while cursor < |events|
      invariant cursor <= |events|
      invariant number == |ws| + 1
      invariant forall k :: 0 <= k < |ws| ==> ws[k].number == k + 1
      invariant ws + Scan(events, cursor, start, w, number) == Scan(events, 0, events[0].t, w, 1)
      decreases |events| - cursor, Lag(events, cursor, start)
    {
      var end := start + w;
      var frameStart := cursor;
      var frameEnd := AdvanceCursor(events, cursor, end);
      cursor := frameEnd;
      LagDecreases(events, frameStart, start, w);
      ScanStep(events, ws, frameStart, start, w, number);
      ws := ws + [Window(number, start, events[frameStart..frameEnd])];
      start := end;
      number := number + 1;
    }
    FlattenWindows(events, 0, events[0].t, w, 1);
    assert events[0..] == events;
  }

  /** The inner loop as written: step the cursor over every event below the
      window end, stopping at the first that is not or at the end of the
      input; it stops exactly where `RunEnd` says. */
  method AdvanceCursor(events: seq<Event>, cursor: nat, end: int) returns (j: nat)
    requires cursor <= |events|
    ensures j == RunEnd(events, cursor, end)
  {
    j := cursor;
    while j < |events| && events[j].t < end
      invariant cursor <= j <= |events|
      invariant forall i :: cursor <= i < j ==> events[i].t < end
    {
      j := j + 1;
    }
    RunEndUnique(events, cursor, end, j);
  }

  /** One outer iteration keeps the loop's invariant: the windows written
      so far followed by the windows still to come are the whole scan. */
  lemma ScanStep(events: seq<Event>, done: seq<Window>, cursor: nat, start: int, w: int, number: nat)
    requires w > 0 && cursor < |events|
    ensures var j := RunEnd(events, cursor, start + w);
      done + Scan(events, cursor, start, w, number) ==
      (done + [Window(number, start, events[cursor..j])]) + Scan(events, j, start + w, w, number + 1)
  {
    var j := RunEnd(events, cursor, start + w);
    Unfold(events, cursor, start, w, number);
    var ws := Scan(events, cursor, start, w, number);
    assert ws == [ws[0]] + ws[1..];
  }

  // ---------------------------------------------------------------------
  // Arithmetic helpers

  /** Euclidean division is determined by the quotient-remainder split. */
  lemma DivUnique(a: int, b: int, q: int)
    requires b > 0
    requires b * q <= a < b * q + b
    ensures a / b == q
  {
    var d := a / b - q;
    assert b * d == b * (a / b) - b * q;
    SmallMultiple(b, d);
  }

  /** Removing one width from a span removes one from its quotient. */
  lemma DivStep(a: int, w: int)
    requires w > 0 && a >= w
    ensures a / w == (a - w) / w + 1
  {
    var q := (a - w) / w;
    assert w * q <= a - w < w * q + w;
    assert w * (q + 1) == w * q + w;
    DivUnique(a, w, q + 1);
  }

  lemma SmallMultiple(b: int, d: int)
    requires b > 0 && -b < b * d < b
    ensures d == 0
  {
    if d >= 1 {
      MulMonotone(b, 1, d);
    } else if d <= -1 {
      MulMonotone(b, d, -1);
    }
  }

  lemma MulMonotone(b: int, x: int, y: int)
    requires b > 0 && x <= y
    ensures b * x <= b * y
  {
    assert b * y - b * x == b * (y - x);
  }

  lemma NonNegTimesNonPos(a: int, b: int)
    requires a >= 0 && b <= 0
    ensures a * b <= 0
  {
  }

  lemma FactorPositive(b: int, x: int)
    requires b > 0 && b * x > 0
    ensures x > 0
  {
  }

  lemma FactorNegative(b: int, x: int)
    requires b < 0 && b * x > 0
    ensures x < 0
  {
  }
}
