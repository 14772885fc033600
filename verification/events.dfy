/** The data the converter works on: address-event records, the sensor
    shape, and a small success/failure wrapper for the error paths of the
    conversion. */
module Events {

  /** Success or failure of one step of the conversion. */
  datatype Result<+T, +E> = Ok(value: T) | Err(error: E)

  /** One address-event record `[x, y, t, p]`: pixel column `x`, pixel row
      `y`, timestamp `t` in microseconds, polarity `p` (1 for a brightness
      increase, 0 for a decrease). The decoder may hand over any integers;
      the rasterizer checks them. */
  datatype Event = Event(x: int, y: int, t: int, p: int)

  /** The sensor shape as the decoder returns it. `rows` is `shape[0]`, the
      first frame dimension, indexed by an event's `y`; `cols` is `shape[1]`,
      the second frame dimension, indexed by an event's `x`. */
  datatype Shape = Shape(rows: nat, cols: nat)

  /** Timestamps never decrease along the sequence: the order the decoder
      is expected to deliver and the windowing loop silently relies on. */
  ghost predicate Sorted(s: seq<Event>)
  {
    forall i, j :: 0 <= i <= j < |s| ==> s[i].t <= s[j].t
  }

  /** The event addresses a pixel of the frame. */
  predicate InBounds(e: Event, shape: Shape)
  {
    0 <= e.x < shape.cols && 0 <= e.y < shape.rows
  }

  /** The polarity is one of the two values the colour rule is written for. */
  predicate BinaryPolarity(e: Event)
  {
    e.p == 0 || e.p == 1
  }

  /** The event can be drawn without an out-of-range index or a channel
      value outside 0..255. */
  predicate Drawable(e: Event, shape: Shape)
  {
    InBounds(e, shape) && BinaryPolarity(e)
  }

  ghost predicate AllDrawable(s: seq<Event>, shape: Shape)
  {
    forall i :: 0 <= i < |s| ==> Drawable(s[i], shape)
  }
}
