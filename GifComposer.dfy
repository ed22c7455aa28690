/** `make_gif` (main.py:66-86): eight frames, each the source image rotated,
    enlarged and cropped back to the source size at the top-left corner, then
    handed to PIL's `save` as one looping GIF. A frame is the record of the parameters of
    those three operations; the pixels and the GIF bytes belong to PIL. */
module GifComposer {
  import opened Imaging

  const FrameCount := 8
  /** `img.rotate(i * 3)`: degrees, counter-clockwise, per frame index. */
  const DegreesPerFrame := 3
  /** `scale = 1 + i * 0.07`, in hundredths. */
  const ScaleStepPercent := 7
  /** `duration=200`: milliseconds each frame is shown. */
  const FrameDurationMs := 200
  /** `loop=0`: repeat forever. */
  const LoopForever := 0

  /** A PIL crop box `(left, upper, right, lower)`. */
  datatype Box = Box(left: int, upper: int, right: int, lower: int)

  /** One frame: rotated by `rotation` degrees, resized by `scalePercent`
      hundredths, cropped to `crop`, leaving an image of `width` × `height`. */
  datatype Frame = Frame(source: Image, rotation: int, scalePercent: int, crop: Box, width: int, height: int)

  /** What is handed to `frames[0].save(..., append_images=frames[1:],
      duration, loop)`. How the GIF writer then encodes it (it may merge a
      frame identical to the one before it) belongs to PIL. */
  datatype Gif = Gif(first: Frame, appended: seq<Frame>, durationMs: int, loop: int)

  /** The frames handed to `save`, in the order they are handed over. */
  function Frames(gif: Gif): seq<Frame> {
    [gif.first] + gif.appended
  }

  /** The frame schedule of main.py:69-74 on `img`. */
  method MakeGif(img: Image) returns (gif: Gif)
    ensures |Frames(gif)| == FrameCount
    ensures forall i :: 0 <= i < |Frames(gif)| ==>
      && Frames(gif)[i].source == img
      && Frames(gif)[i].rotation == DegreesPerFrame * i
      && Frames(gif)[i].scalePercent == 100 + ScaleStepPercent * i
      && Frames(gif)[i].crop == Box(0, 0, img.width, img.height)
      && Frames(gif)[i].width == img.width && Frames(gif)[i].height == img.height
    ensures gif.durationMs == FrameDurationMs && gif.loop == LoopForever
  {
    var frames: seq<Frame> := [];
    var width, height := img.width, img.height;
    for i := 0 to FrameCount
      invariant |frames| == i
      invariant forall k :: 0 <= k < i ==>
        && frames[k].source == img
        && frames[k].rotation == DegreesPerFrame * k
        && frames[k].scalePercent == 100 + ScaleStepPercent * k
        && frames[k].crop == Box(0, 0, width, height)
        && frames[k].width == width && frames[k].height == height
    {
      var scale := 100 + ScaleStepPercent * i;
      var rotation := DegreesPerFrame * i;
      var box := Box(0, 0, width, height);
      var frame := Frame(img, rotation, scale, box, box.right - box.left, box.lower - box.upper);
      frames := frames + [frame];
    }
    gif := Gif(frames[0], frames[1..], FrameDurationMs, LoopForever);
    assert Frames(gif) == frames;
  }
}
