/** The rasterizer, `Sequence.create_frame`: one window's events drawn onto
    an all-black frame of the sensor shape, green for polarity 1 and red for
    polarity 0, the last event at a pixel deciding its colour. */
module Raster {
  import opened Events

  /** One pixel in OpenCV's BGR channel order: channel 0 blue, channel 1
      green, channel 2 red. */
  datatype Pixel = Pixel(b: int, g: int, r: int)

  const Black: Pixel := Pixel(0, 0, 0)

  /** A frame as rows of pixels: `frame[y][x]`, `shape.rows` rows of
      `shape.cols` pixels. */
  type Frame = seq<seq<Pixel>>

  /** Why an event cannot be drawn; `index` is its position in the slice. */
  datatype RasterError =
    | OutOfBounds(index: nat)
    | BadPolarity(index: nat)

  ghost predicate HasShape(f: Frame, shape: Shape)
  {
    |f| == shape.rows && forall y :: 0 <= y < |f| ==> |f[y]| == shape.cols
  }

  /** The all-zero `shape[0] x shape[1] x 3` frame every window starts from. */
  function Blank(shape: Shape): (f: Frame)
    ensures HasShape(f, shape)
    ensures forall y, x :: 0 <= y < shape.rows && 0 <= x < shape.cols ==> f[y][x] == Black
  {
    seq(shape.rows, _ => seq(shape.cols, _ => Black))
  }

  /** The two channel writes for one event: green becomes `p * 255`, red
      becomes `(1 - p) * 255`, blue is left as it was. */
  function Stamp(px: Pixel, p: int): (q: Pixel)
    ensures q.b == px.b
    ensures p == 1 ==> q.g == 255 && q.r == 0
    ensures p == 0 ==> q.g == 0 && q.r == 255
  {
    px.(g := p * 255, r := (1 - p) * 255)
  }

  /** The colour an event of polarity `p` leaves on a black pixel. */
  function Colour(p: int): (c: Pixel)
  {
    Pixel(0, p * 255, (1 - p) * 255)
  }

  /** Drawing one event: its own pixel is stamped, every other pixel keeps
      its value. */
  function Paint(f: Frame, shape: Shape, e: Event): (g: Frame)
    requires HasShape(f, shape)
    requires InBounds(e, shape)
    ensures HasShape(g, shape)
    ensures forall y, x :: 0 <= y < shape.rows && 0 <= x < shape.cols ==>
      g[y][x] == (if x == e.x && y == e.y then Stamp(f[y][x], e.p) else f[y][x])
  {
    f[e.y := f[e.y][e.x := Stamp(f[e.y][e.x], e.p)]]
  }

  /** The events drawn in order onto a blank frame: the frame after the last
      event is the frame after all earlier ones, with the last one painted. */
  function PaintAll(shape: Shape, events: seq<Event>): (f: Frame)
    requires forall i :: 0 <= i < |events| ==> InBounds(events[i], shape)
    ensures HasShape(f, shape)
    decreases |events|
  {
    if |events| == 0 then Blank(shape)
    else Paint(PaintAll(shape, events[..|events| - 1]), shape, events[|events| - 1])
  }

  /** Position of the last event in `events` that addresses pixel `(x, y)`,
      or -1 when none does. */
  function LastHit(events: seq<Event>, x: int, y: int): (i: int)
    ensures -1 <= i < |events|
    ensures i >= 0 ==> events[i].x == x && events[i].y == y
    ensures forall j :: i < j < |events| ==> !(events[j].x == x && events[j].y == y)
    decreases |events|
  {
    if |events| == 0 then -1
    else if events[|events| - 1].x == x && events[|events| - 1].y == y then |events| - 1
    else LastHit(events[..|events| - 1], x, y)
  }

  /** The colour pixel `(x, y)` should show, defined pixel by pixel: black
      when no event addresses it, otherwise the colour of the last event
      that does. */
  function Expected(events: seq<Event>, x: int, y: int): (c: Pixel)
  {
    var i := LastHit(events, x, y);
    if i < 0 then Black else Colour(events[i].p)
  }

  /** Position of the first event that cannot be drawn, or the length of the
      slice when all can. */
  function FirstUndrawable(shape: Shape, events: seq<Event>): (i: nat)
    ensures i <= |events|
    ensures forall j :: 0 <= j < i ==> Drawable(events[j], shape)
    ensures i < |events| ==> !Drawable(events[i], shape)
    decreases |events|
  {
    if |events| == 0 then 0
    else if !Drawable(events[0], shape) then 0
    else 1 + FirstUndrawable(shape, events[1..])
  }

  /** `create_frame` with the coordinate and polarity checks the source
      leaves to numpy made explicit: the first event that cannot be drawn
      fails the whole frame; otherwise all events are drawn in order. */
  function CreateFrame(shape: Shape, events: seq<Event>): (r: Result<Frame, RasterError>)
    ensures r.Ok? <==> AllDrawable(events, shape)
    ensures r.Ok? ==> HasShape(r.value, shape)
    ensures r.Err? && r.error.OutOfBounds? ==>
      r.error.index < |events| && !InBounds(events[r.error.index], shape) &&
      AllDrawable(events[..r.error.index], shape)
    ensures r.Err? && r.error.BadPolarity? ==>
      r.error.index < |events| && InBounds(events[r.error.index], shape) &&
      !BinaryPolarity(events[r.error.index]) &&
      AllDrawable(events[..r.error.index], shape)
  {
    var i := FirstUndrawable(shape, events);
    if i < |events| then
      if !InBounds(events[i], shape) then Err(OutOfBounds(i)) else Err(BadPolarity(i))
    else
      Ok(PaintAll(shape, events))
  }

  // ---------------------------------------------------------------------
  // Properties of the rasterizer

  /** Drawing the events in order leaves every pixel with the colour the
      pixel-by-pixel definition gives it: black if untouched, otherwise the
      colour of the last event there. */
  lemma {:induction false} PaintAllMatchesReference(shape: Shape, events: seq<Event>, x: int, y: int)
    requires forall i :: 0 <= i < |events| ==> InBounds(events[i], shape)
    requires 0 <= x < shape.cols && 0 <= y < shape.rows
    ensures PaintAll(shape, events)[y][x] == Expected(events, x, y)
    decreases |events|
  {
    if |events| > 0 {
      var init := events[..|events| - 1];
      var e := events[|events| - 1];
      PaintAllMatchesReference(shape, init, x, y);
      if !(e.x == x && e.y == y) {
        var i := LastHit(init, x, y);
        assert LastHit(events, x, y) == i;
        if i >= 0 {
          assert events[i] == init[i];
        }
      }
    }
  }

  /** Every pixel of a frame `create_frame` returns is the pixel-by-pixel
      reference colour. */
  lemma FrameMatchesReference(shape: Shape, events: seq<Event>, f: Frame)
    requires CreateFrame(shape, events) == Ok(f)
    ensures HasShape(f, shape)
    ensures forall y, x :: 0 <= y < shape.rows && 0 <= x < shape.cols ==> f[y][x] == Expected(events, x, y)
  {
    forall y, x | 0 <= y < shape.rows && 0 <= x < shape.cols
      ensures f[y][x] == Expected(events, x, y)
    {
      PaintAllMatchesReference(shape, events, x, y);
    }
  }

  /** A pixel no event of the slice addresses stays black. */
  lemma UntouchedPixelBlack(shape: Shape, events: seq<Event>, f: Frame, x: int, y: int)
    requires CreateFrame(shape, events) == Ok(f)
    requires 0 <= x < shape.cols && 0 <= y < shape.rows
    requires forall i :: 0 <= i < |events| ==> !(events[i].x == x && events[i].y == y)
    ensures f[y][x] == Black
  {
    FrameMatchesReference(shape, events, f);
  }

  /** A pixel of a created frame that no event of the slice addresses is
      black, for all pixels at once. */
  lemma OnlyHitPixelsColoured(shape: Shape, events: seq<Event>, f: Frame)
    requires CreateFrame(shape, events) == Ok(f)
    ensures forall y, x :: 0 <= y < shape.rows && 0 <= x < shape.cols && LastHit(events, x, y) == -1 ==>
      f[y][x] == Black
  {
    FrameMatchesReference(shape, events, f);
  }

  /** Last write wins: the last event of the slice at `(x, y)` decides the
      pixel, pure green `(0, 255, 0)` for polarity 1, pure red `(0, 0, 255)`
      for polarity 0, whatever earlier events at that pixel said. */
  lemma LastEventDecides(shape: Shape, events: seq<Event>, f: Frame, i: nat)
    requires CreateFrame(shape, events) == Ok(f)
    requires i < |events|
    requires forall j :: i < j < |events| ==> !(events[j].x == events[i].x && events[j].y == events[i].y)
    ensures events[i].p == 1 ==> f[events[i].y][events[i].x] == Pixel(0, 255, 0)
    ensures events[i].p == 0 ==> f[events[i].y][events[i].x] == Pixel(0, 0, 255)
  {
    FrameMatchesReference(shape, events, f);
    var hit := LastHit(events, events[i].x, events[i].y);
    assert hit == i;
  }

  /** Channel 0 (blue) is never written, and the two written channels only
      ever hold 0 or 255: every pixel is black, pure green or pure red. */
  lemma FrameColours(shape: Shape, events: seq<Event>, f: Frame)
    requires CreateFrame(shape, events) == Ok(f)
    ensures forall y, x :: 0 <= y < shape.rows && 0 <= x < shape.cols ==>
      f[y][x] == Black || f[y][x] == Pixel(0, 255, 0) || f[y][x] == Pixel(0, 0, 255)
  {
    FrameMatchesReference(shape, events, f);
    forall y, x | 0 <= y < shape.rows && 0 <= x < shape.cols
      ensures f[y][x] == Black || f[y][x] == Pixel(0, 255, 0) || f[y][x] == Pixel(0, 0, 255)
    {
      var i := LastHit(events, x, y);
      if i >= 0 {
        assert Drawable(events[i], shape);
      }
    }
  }

  /** An empty slice yields the all-black frame of the sensor shape. */
  lemma EmptySliceIsBlank(shape: Shape)
    ensures CreateFrame(shape, []) == Ok(Blank(shape))
  {
  }

  // ---------------------------------------------------------------------
  // The imperative loop

  /** The loop of `create_frame` as written: a zero frame, then for each
      event in order the two channel writes at `frame[y][x]`. */
  method CreateFrameLoop(shape: Shape, events: seq<Event>) returns (f: Frame)
    requires AllDrawable(events, shape)
    ensures HasShape(f, shape)
    ensures forall y, x :: 0 <= y < shape.rows && 0 <= x < shape.cols ==> f[y][x] == Expected(events, x, y)
  {
    f := Blank(shape);
    var i := 0;
    while i < |events|
      invariant i <= |events|
      invariant f == PaintAll(shape, events[..i])
    {
      var e := events[i];
      assert Drawable(e, shape);
      ghost var before := f;
      var row := f[e.y];
      row := row[e.x := row[e.x].(g := e.p * 255)];        // channel 1, green
      row := row[e.x := row[e.x].(r := (1 - e.p) * 255)];  // channel 2, red
      assert row == before[e.y][e.x := Stamp(before[e.y][e.x], e.p)];
      f := f[e.y := row];
      assert events[..i + 1][..i] == events[..i];
      assert events[..i + 1][i] == e;
      i := i + 1;
    }
    assert events[..i] == events;
    forall y, x | 0 <= y < shape.rows && 0 <= x < shape.cols
      ensures f[y][x] == Expected(events, x, y)
    {
      PaintAllMatchesReference(shape, events, x, y);
    }
  }
}
