/** The metaball reveal component: its canvas, what one frame draws on it,
    and the component's mutable state with the operations that change it
    (mount-time creation of the orbiting blobs, the pointer handler, and one
    animation frame). */
module MetaballsCursor {
  import opened Blobs
  import opened MetaballThreshold

  // ---------------------------------------------------------------------
  // The drawing surface

  /** A 2-D canvas: its size and its pixel buffer. */
  class Canvas {
    var width: nat
    var height: nat
    var pixels: array<Byte>

    ghost predicate Valid()
      reads this
    {
      pixels.Length == 4 * width * height
    }

    /** A canvas given a size (as resizing to the container does) holds that
        many transparent black pixels. */
    constructor (width: nat, height: nat)
      ensures Valid() && this.width == width && this.height == height
      ensures pixels[..] == Transparent(4 * width * height)
      ensures fresh(pixels)
    {
      this.width := width;
      this.height := height;
      pixels := new Byte[4 * width * height](_ => 0);
    }

    /** `clearRect(0, 0, width, height)`: every pixel becomes transparent black. */
    method ClearRect()
      requires Valid()
      modifies pixels
      ensures pixels[..] == Transparent(pixels.Length)
    {
      forall k | 0 <= k < pixels.Length {
        pixels[k] := 0;
      }
    }

    /** `putImageData(image, 0, 0)` with an image of the canvas's size: the
        image's bytes replace the canvas's, without compositing. */
    method PutImageData(image: seq<Byte>)
      requires Valid() && |image| == pixels.Length
      modifies pixels
      ensures pixels[..] == image
    {
      forall k | 0 <= k < pixels.Length {
        pixels[k] := image[k];
      }
    }

    /** A canvas of zero width or height, from which no image data can be read. */
    predicate Empty()
      reads this
    {
      width == 0 || height == 0
    }
  }

  // ---------------------------------------------------------------------
  // One frame of drawing

  /** What the canvas holds after one frame of drawing: fully transparent
      when the pointer is not over the hero or no scratch context could be
      made, otherwise the thresholded scratch image.  Either way every
      complete pixel is fully transparent or fully opaque. */
  function FrameMask(isHovering: bool, scratchContext: bool, painted: seq<Byte>, n: nat): (r: seq<Byte>)
    requires |painted| == n
    ensures |r| == n
    ensures forall p: nat :: 4 * p + 4 <= n ==> PixelAt(r, p)[3] == 0 || PixelAt(r, p)[3] == Opaque
  {
    if isHovering && scratchContext then
      AlphaAllBinary(painted);
      ThresholdPass(painted)
    else
      Transparent(n)
  }

  /** When the pointer is not over the hero, nothing of the painted blobs
      reaches the canvas: it is fully transparent whatever was painted. */
  lemma NotHoveringClears(scratchContext: bool, painted: seq<Byte>, other: seq<Byte>)
    requires |painted| == |other|
    ensures FrameMask(false, scratchContext, painted, |painted|) == Transparent(|painted|)
    ensures FrameMask(false, scratchContext, painted, |painted|) == FrameMask(false, scratchContext, other, |other|)
  {
  }

  /** `drawMetaballs`: clear the canvas; stop there when not hovering (or when
      no scratch context is available); otherwise read the scratch canvas's
      image data (`painted`, the result of painting the blobs' gradients,
      which is not modelled), threshold it in place and put it on the canvas.
      `completed` is false when the drawing is abandoned by an exception:
      reading image data from a canvas of zero width or height throws, after
      the clear. */
  method DrawMetaballs(canvas: Canvas, isHovering: bool, scratchContext: bool, painted: seq<Byte>)
    returns (completed: bool)
    requires canvas.Valid() && |painted| == canvas.pixels.Length
    modifies canvas.pixels
    ensures completed <==> !(isHovering && scratchContext && canvas.Empty())
    ensures canvas.pixels[..] == FrameMask(isHovering, scratchContext, painted, canvas.pixels.Length)
  {
    canvas.ClearRect();
    if !isHovering {
      return true;
    }
    if !scratchContext {
      return true;
    }
    if canvas.width == 0 || canvas.height == 0 {
      // getImageData refuses an empty rectangle: the exception leaves the
      // frame with the canvas just cleared.
      return false;
    }
    var data := new Byte[|painted|](k requires 0 <= k < |painted| => painted[k]);
    assert data[..] == painted;
    ApplyThreshold(data);
    canvas.PutImageData(data[..]);
    return true;
  }

  // ---------------------------------------------------------------------
  // The component's state

  /** The component's mutable references: the pointer target, the main
      blob, the orbiting blobs, the animation clock, and the canvas whose
      pixels become the reveal mask. */
  class Field {
    var target: Point
    var mainBlob: MainBlob
    var orbitingBlobs: seq<Blob>
    var time: real
    const canvas: Canvas

    /** Before the creation effect has run there are no orbiting blobs;
        afterwards there are five, each with the parameters it was created
        with, and no frame changes their number or those parameters. */
    ghost predicate Valid()
      reads this, canvas
    {
      canvas.Valid() &&
      (|orbitingBlobs| == 0 || |orbitingBlobs| == BlobCount) &&
      (forall i :: 0 <= i < |orbitingBlobs| ==> CreatedParameters(orbitingBlobs[i], i)) &&
      time >= 0.0
    }

    /** The refs as first rendered: target and main blob off screen, main
        radius 100, no orbiting blobs, clock at 0. */
    constructor (canvas: Canvas)
      requires canvas.Valid()
      ensures Valid() && this.canvas == canvas
      ensures target == Point(Offscreen, Offscreen)
      ensures mainBlob == MainBlob(Offscreen, Offscreen, MainBaseRadius)
      ensures orbitingBlobs == [] && time == 0.0
    {
      target := Point(Offscreen, Offscreen);
      mainBlob := MainBlob(Offscreen, Offscreen, MainBaseRadius);
      orbitingBlobs := [];
      time := 0.0;
      this.canvas := canvas;
    }

    /** The mount effect: build the five orbiting blobs from the random
        draws and store them; nothing else changes. */
    method InitializeOrbitingBlobs(random: seq<real>)
      requires Valid() && Draws(random)
      modifies this
      ensures Valid()
      ensures |orbitingBlobs| == BlobCount
      ensures forall i :: 0 <= i < BlobCount ==>
        orbitingBlobs[i] == CreatedBlob(i, random[3 * i], random[3 * i + 1], random[3 * i + 2])
      ensures target == old(target) && mainBlob == old(mainBlob) && time == old(time)
    {
      var blobs := CreateOrbitingBlobs(random);
      orbitingBlobs := blobs;
    }

    /** The pointer handler: when the container exists, the target becomes
        the pointer position relative to the container's top-left corner;
        otherwise nothing changes. */
    method HandleMouseMove(hasContainer: bool, clientX: real, clientY: real, left: real, top: real)
      requires Valid()
      modifies this`target
      ensures Valid()
      ensures target == if hasContainer then Point(clientX - left, clientY - top) else old(target)
    {
      if !hasContainer {
        return;
      }
      target := Point(clientX - left, clientY - top);
    }

    /** One animation frame: advance the clock, move the main blob, move
        every orbiting blob around the main blob's new position, then redraw
        the canvas (`painted` is the scratch canvas after the blobs'
        gradients were drawn on it).  `rescheduled` says whether the frame
        reaches its end and requests the next one; when drawing throws, the
        blobs have already moved but no further frame is requested, so the
        animation stops. */
    method Animate(isHovering: bool, scratchContext: bool, sin: Wave, cos: Wave, painted: seq<Byte>)
      returns (rescheduled: bool)
      requires Valid() && UnitBounded(sin) && UnitBounded(cos)
      requires |painted| == canvas.pixels.Length
      modifies this, canvas.pixels
      ensures Valid()
      ensures time == old(time) + FrameStep && time > old(time)
      ensures target == old(target)
      ensures mainBlob == StepMain(old(mainBlob), target, time, sin)
      ensures 75.0 <= mainBlob.radius <= 125.0
      ensures |orbitingBlobs| == |old(orbitingBlobs)|
      ensures forall i :: 0 <= i < |orbitingBlobs| ==>
        orbitingBlobs[i] == StepOrbiting(old(orbitingBlobs)[i], i, time, mainBlob, sin, cos)
      ensures forall i :: 0 <= i < |orbitingBlobs| ==>
        orbitingBlobs[i].phase == old(orbitingBlobs)[i].phase &&
        orbitingBlobs[i].speed == old(orbitingBlobs)[i].speed &&
        orbitingBlobs[i].orbitRadius == old(orbitingBlobs)[i].orbitRadius
      ensures forall i :: 0 <= i < |orbitingBlobs| ==>
        18.0 + (i as real) * 5.0 <= orbitingBlobs[i].radius <= 42.0 + (i as real) * 5.0
      ensures canvas.pixels[..] == FrameMask(isHovering, scratchContext, painted, canvas.pixels.Length)
      ensures rescheduled <==> !(isHovering && scratchContext && canvas.Empty())
    {
      time := time + FrameStep;
      mainBlob := StepMain(mainBlob, target, time, sin);

      ghost var before := orbitingBlobs;
      var i := 0;
      while i < |orbitingBlobs|
        invariant 0 <= i <= |orbitingBlobs| == |before|
        invariant forall j :: 0 <= j < i ==>
          orbitingBlobs[j] == StepOrbiting(before[j], j, time, mainBlob, sin, cos)
        invariant forall j :: i <= j < |orbitingBlobs| ==> orbitingBlobs[j] == before[j]
        invariant mainBlob == StepMain(old(mainBlob), target, time, sin)
        invariant time == old(time) + FrameStep && target == old(target)
        invariant canvas.pixels == old(canvas.pixels)
      {
        orbitingBlobs := orbitingBlobs[i := StepOrbiting(orbitingBlobs[i], i, time, mainBlob, sin, cos)];
        i := i + 1;
      }

      rescheduled := DrawMetaballs(canvas, isHovering, scratchContext, painted);
    }
  }
}
