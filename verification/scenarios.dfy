/** Concrete runs of the model: the behaviours a reader of the converter
    would check by hand, stated on small inputs. */
module Scenarios {
  import opened Events
  import opened Windowing
  import opened Raster
  import opened Conversion

  /** Three events at 1000 fps: a width of 1000 microseconds, two windows
      `[0, 1000)` and `[1000, 2000)`, the first holding the first two events,
      the second the third. */
  lemma TwoWindowRun()
    ensures var events := [Event(0, 0, 0, 1), Event(1, 1, 500, 0), Event(2, 2, 1100, 1)];
      Windows(events, 1000) == Ok([Window(1, 0, events[..2]), Window(2, 1000, events[2..])])
  {
    var events := [Event(0, 0, 0, 1), Event(1, 1, 500, 0), Event(2, 2, 1100, 1)];
    assert WindowWidth(1000) == Ok(1000);
    assert RunEnd(events, 2, 1000) == 2;
    assert RunEnd(events, 0, 1000) == 2;
    assert RunEnd(events, 3, 2000) == 3;
    assert RunEnd(events, 2, 2000) == 3;
    assert Scan(events, 3, 2000, 1000, 3) == [];
    Unfold(events, 2, 1000, 1000, 2);
    var tail := Scan(events, 2, 1000, 1000, 2);
    assert tail[0] == Window(2, 1000, events[2..3]);
    assert events[2..3] == events[2..];
    assert tail == [tail[0]];
    Unfold(events, 0, 0, 1000, 1);
    var ws := Scan(events, 0, 0, 1000, 1);
    assert ws[0] == Window(1, 0, events[0..2]);
    assert events[0..2] == events[..2];
    assert ws == [ws[0]] + ws[1..];
    assert ws == [Window(1, 0, events[..2]), Window(2, 1000, events[2..])];
    assert Windows(events, 1000) == Ok(ws);
  }

  /** The frames of that run: frame 1 has pixel (0, 0) green and pixel
      (1, 1) red, frame 2 has pixel (2, 2) green, all else black. */
  lemma TwoWindowFrames()
    ensures var events := [Event(0, 0, 0, 1), Event(1, 1, 500, 0), Event(2, 2, 1100, 1)];
      var r := Convert(events, Shape(3, 3), 1000);
      && r.Ok? && |r.value| == 2
      && r.value[0].number == 1 && r.value[1].number == 2
      && r.value[0].image[0][0] == Pixel(0, 255, 0)
      && r.value[0].image[1][1] == Pixel(0, 0, 255)
      && r.value[1].image[2][2] == Pixel(0, 255, 0)
      && (forall y, x :: 0 <= y < 3 && 0 <= x < 3 && !(x == 0 && y == 0) && !(x == 1 && y == 1) ==>
            r.value[0].image[y][x] == Black)
      && (forall y, x :: 0 <= y < 3 && 0 <= x < 3 && !(x == 2 && y == 2) ==>
            r.value[1].image[y][x] == Black)
  {
    var events := [Event(0, 0, 0, 1), Event(1, 1, 500, 0), Event(2, 2, 1100, 1)];
    var shape := Shape(3, 3);
    TwoWindowRun();
    ConvertContract(events, shape, 1000);
    var frames := Convert(events, shape, 1000).value;
    assert events[..2] == [Event(0, 0, 0, 1), Event(1, 1, 500, 0)];
    assert events[2..] == [Event(2, 2, 1100, 1)];
    FirstWindowFrame(frames[0].image);
    SecondWindowFrame(frames[1].image);
  }

  /** Frame 1 of that run: (0, 0) green, (1, 1) red, the rest black. */
  lemma FirstWindowFrame(f: Frame)
    requires CreateFrame(Shape(3, 3), [Event(0, 0, 0, 1), Event(1, 1, 500, 0)]) == Ok(f)
    ensures f[0][0] == Pixel(0, 255, 0) && f[1][1] == Pixel(0, 0, 255)
    ensures forall y, x :: 0 <= y < 3 && 0 <= x < 3 && !(x == 0 && y == 0) && !(x == 1 && y == 1) ==>
      f[y][x] == Black
  {
    var events := [Event(0, 0, 0, 1), Event(1, 1, 500, 0)];
    FrameMatchesReference(Shape(3, 3), events, f);
    assert LastHit(events, 0, 0) == 0;
    assert LastHit(events, 1, 1) == 1;
    OnlyHitPixelsColoured(Shape(3, 3), events, f);
  }

  /** Frame 2 of that run: (2, 2) green, the rest black. */
  lemma SecondWindowFrame(f: Frame)
    requires CreateFrame(Shape(3, 3), [Event(2, 2, 1100, 1)]) == Ok(f)
    ensures f[2][2] == Pixel(0, 255, 0)
    ensures forall y, x :: 0 <= y < 3 && 0 <= x < 3 && !(x == 2 && y == 2) ==> f[y][x] == Black
  {
    var events := [Event(2, 2, 1100, 1)];
    FrameMatchesReference(Shape(3, 3), events, f);
    assert LastHit(events, 2, 2) == 0;
    OnlyHitPixelsColoured(Shape(3, 3), events, f);
  }

  /** A gap in the timestamps longer than a window still produces a frame
      for every window in between: here an empty second window. */
  lemma GapGivesEmptyWindow()
    ensures var events := [Event(0, 0, 0, 1), Event(0, 0, 2500, 0)];
      Windows(events, 1000) ==
        Ok([Window(1, 0, events[..1]), Window(2, 1000, []), Window(3, 2000, events[1..])])
  {
    var events := [Event(0, 0, 0, 1), Event(0, 0, 2500, 0)];
    assert WindowWidth(1000) == Ok(1000);
    assert RunEnd(events, 1, 1000) == 1;
    assert RunEnd(events, 0, 1000) == 1;
    assert RunEnd(events, 1, 2000) == 1;
    assert RunEnd(events, 2, 3000) == 2;
    assert RunEnd(events, 1, 3000) == 2;
    assert Scan(events, 2, 3000, 1000, 4) == [];
    Unfold(events, 1, 2000, 1000, 3);
    var third := Scan(events, 1, 2000, 1000, 3);
    assert events[1..2] == events[1..];
    assert third == [Window(3, 2000, events[1..])];
    Unfold(events, 1, 1000, 1000, 2);
    var second := Scan(events, 1, 1000, 1000, 2);
    assert events[1..1] == [];
    assert second == [Window(2, 1000, [])] + third;
    Unfold(events, 0, 0, 1000, 1);
    var ws := Scan(events, 0, 0, 1000, 1);
    assert events[0..1] == events[..1];
    assert ws == [Window(1, 0, events[..1])] + second;
    assert ws == [Window(1, 0, events[..1]), Window(2, 1000, []), Window(3, 2000, events[1..])];
    assert Windows(events, 1000) == Ok(ws);
  }

  /** Out-of-order input is not detected: an event older than the current
      window is swept into it, outside that window's interval. */
  lemma UnsortedEventMisassigned()
    ensures var events := [Event(0, 0, 0, 1), Event(0, 0, 1500, 1), Event(0, 0, 200, 0)];
      var r := Windows(events, 1000);
      && r == Ok([Window(1, 0, events[..1]), Window(2, 1000, events[1..])])
      && !(r.value[1].start <= r.value[1].slice[1].t)
  {
    var events := [Event(0, 0, 0, 1), Event(0, 0, 1500, 1), Event(0, 0, 200, 0)];
    assert WindowWidth(1000) == Ok(1000);
    assert RunEnd(events, 1, 1000) == 1;
    assert RunEnd(events, 0, 1000) == 1;
    assert RunEnd(events, 3, 2000) == 3;
    assert RunEnd(events, 2, 2000) == 3;
    assert RunEnd(events, 1, 2000) == 3;
    assert Scan(events, 3, 2000, 1000, 3) == [];
    Unfold(events, 1, 1000, 1000, 2);
    var second := Scan(events, 1, 1000, 1000, 2);
    assert events[1..3] == events[1..];
    assert second == [Window(2, 1000, events[1..])];
    Unfold(events, 0, 0, 1000, 1);
    var ws := Scan(events, 0, 0, 1000, 1);
    assert events[0..1] == events[..1];
    assert ws == [Window(1, 0, events[..1])] + second;
    assert ws == [Window(1, 0, events[..1]), Window(2, 1000, events[1..])];
    assert Windows(events, 1000) == Ok(ws);
  }

  /** Two events at one pixel in one window: the later one's colour shows. */
  lemma SamePixelLastWins()
    ensures var r := CreateFrame(Shape(10, 10), [Event(3, 5, 0, 1), Event(3, 5, 7, 0)]);
      r.Ok? && r.value[5][3] == Pixel(0, 0, 255)
  {
    var events := [Event(3, 5, 0, 1), Event(3, 5, 7, 0)];
    var f := CreateFrame(Shape(10, 10), events).value;
    LastEventDecides(Shape(10, 10), events, f, 1);
  }

  /** An event beyond the sensor's columns fails the frame at its index. */
  lemma OutOfBoundsEvent()
    ensures CreateFrame(Shape(10, 10), [Event(3, 5, 0, 1), Event(10, 5, 1, 1)]) == Err(OutOfBounds(1))
  {
    var events := [Event(3, 5, 0, 1), Event(10, 5, 1, 1)];
    assert FirstUndrawable(Shape(10, 10), events[1..]) == 0;
  }

  /** Above one million frames per second the width truncates to zero and
      the scan would never end. */
  lemma TooHighFrameRate()
    ensures Windows([Event(0, 0, 0, 1)], 2000000) == Err(NonTerminating(0))
  {
    assert FloorDiv(MicrosPerSecond, 2000000) == 0;
  }
}
