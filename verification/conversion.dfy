/** The frame-generation run of `generate_all_frames` without its I/O: the
    windows of the event sequence, each rasterized into a frame numbered as
    the PNG file it would be written to (`frame_1`, `frame_2`, ...). */
module Conversion {
  import opened Events
  import opened Windowing
  import opened Raster

  /** Why a run produces no frames. */
  datatype ConvertError =
    | WindowFailure(reason: WindowError)
    | FrameFailure(number: nat, cause: RasterError)

  /** One output frame with the number it is saved under. */
  datatype Rendered = Rendered(number: nat, image: Frame)

  /** Rasterizing the windows in order; the first window whose slice cannot
      be drawn fails the run. */
  function RenderAll(shape: Shape, ws: seq<Window>): (r: Result<seq<Rendered>, ConvertError>)
    ensures r.Ok? <==> forall k :: 0 <= k < |ws| ==> AllDrawable(ws[k].slice, shape)
    ensures r.Ok? ==> |r.value| == |ws|
    ensures r.Ok? ==> forall k :: 0 <= k < |ws| ==>
      r.value[k].number == ws[k].number && CreateFrame(shape, ws[k].slice) == Ok(r.value[k].image)
    ensures r.Err? ==> r.error.FrameFailure?
    decreases |ws|
  {
    if |ws| == 0 then Ok([])
    else
      var first := CreateFrame(shape, ws[0].slice);
      if first.Err? then Err(FrameFailure(ws[0].number, first.error))
      else
        var rest := RenderAll(shape, ws[1..]);
        if rest.Err? then rest
        else
          assert forall k :: 1 <= k < |ws| ==> ws[k] == ws[1..][k - 1];
          Ok([Rendered(ws[0].number, first.value)] + rest.value)
  }

  /** A whole run for an event sequence, its sensor shape and a frame rate. */
  function Convert(events: seq<Event>, shape: Shape, fps: int): (r: Result<seq<Rendered>, ConvertError>)
    ensures (r.Err? && r.error.WindowFailure?) <==> !(|events| > 0 && 1 <= fps <= MicrosPerSecond)
    ensures r == Err(WindowFailure(ZeroFrameRate)) <==> fps == 0
    ensures r == Err(WindowFailure(NoEvents)) <==> fps != 0 && |events| == 0
    ensures r.Ok? ==> |r.value| == |Windows(events, fps).value|
  {
    var windows := Windows(events, fps);
    if windows.Err? then Err(WindowFailure(windows.error))
    else RenderAll(shape, windows.value)
  }

  /** Every event is drawable exactly when every window's slice is, since the
      slices are the events. */
  lemma {:induction false} DrawableSlices(ws: seq<Window>, shape: Shape)
    ensures (forall k :: 0 <= k < |ws| ==> AllDrawable(ws[k].slice, shape)) <==>
      AllDrawable(Flatten(ws), shape)
  {
    if |ws| > 0 {
      DrawableSlices(ws[1..], shape);
      var head := ws[0].slice;
      var rest := Flatten(ws[1..]);
      assert Flatten(ws) == head + rest;
      assert AllDrawable(head + rest, shape) <==> AllDrawable(head, shape) && AllDrawable(rest, shape) by {
        if AllDrawable(head + rest, shape) {
          forall i | 0 <= i < |head| ensures Drawable(head[i], shape) {
            assert (head + rest)[i] == head[i];
          }
          forall i | 0 <= i < |rest| ensures Drawable(rest[i], shape) {
            assert (head + rest)[|head| + i] == rest[i];
          }
        }
      }
      assert (forall k :: 1 <= k < |ws| ==> AllDrawable(ws[k].slice, shape)) <==>
        (forall k :: 0 <= k < |ws[1..]| ==> AllDrawable(ws[1..][k].slice, shape)) by {
        forall k | 1 <= k < |ws| ensures ws[k] == ws[1..][k - 1] { }
      }
    }
  }

  /** A run succeeds exactly when the sequence is non-empty, the frame rate
      gives a positive width, and every event can be drawn; it then yields
      one frame per window, numbered 1, 2, ... in window order, each the
      rasterization of its window's slice. */
  lemma ConvertContract(events: seq<Event>, shape: Shape, fps: int)
    ensures Convert(events, shape, fps).Ok? <==>
      |events| > 0 && 1 <= fps <= MicrosPerSecond && AllDrawable(events, shape)
    ensures Convert(events, shape, fps).Ok? ==>
      var frames := Convert(events, shape, fps).value;
      var ws := Windows(events, fps).value;
      && |frames| == |ws|
      && forall k :: 0 <= k < |frames| ==>
           frames[k].number == k + 1 && CreateFrame(shape, ws[k].slice) == Ok(frames[k].image)
  {
    var windows := Windows(events, fps);
    if windows.Ok? {
      WindowsContract(events, fps);
      DrawableSlices(windows.value, shape);
    }
  }
}
