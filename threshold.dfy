/** The metaball threshold pass of the hero reveal effect.  A pixel buffer is the flat RGBA byte buffer of an image
    (four bytes per pixel: red, green, blue, alpha). */
module MetaballThreshold {

  /** One byte of a clamped 8-bit pixel buffer. */
  type Byte = x: int | 0 <= x < 256

  /** Alpha values strictly above this become fully opaque. */
  const Threshold: Byte := 180
  const Opaque: Byte := 255

  /** The fully opaque white pixel. */
  const White: seq<Byte> := [Opaque, Opaque, Opaque, Opaque]

  /** The threshold applied to one complete pixel `p = [r, g, b, a]`. */
  function ThresholdPixel(p: seq<Byte>): (q: seq<Byte>)
    requires |p| == 4
    ensures |q| == 4
    ensures q[3] == 0 || q[3] == Opaque
  {
    if p[3] > Threshold then White else [p[0], p[1], p[2], 0]
  }

  /** The whole pass over a buffer: every complete pixel is thresholded; the
      bytes of a trailing incomplete pixel (fewer than four bytes left) are
      left as they are, because their alpha byte lies outside the buffer. */
  function ThresholdPass(s: seq<Byte>): (r: seq<Byte>)
    ensures |r| == |s|
    decreases |s|
  {
    if |s| < 4 then s
    else ThresholdPixel(s[..4]) + ThresholdPass(s[4..])
  }

  /** A buffer of `n` zero bytes: fully transparent black. */
  function Transparent(n: nat): (r: seq<Byte>)
    ensures |r| == n
    ensures forall k :: 0 <= k < n ==> r[k] == 0
  {
    seq(n, _ => 0)
  }

  /** The `p`-th complete pixel of `s`. */
  function PixelAt(s: seq<Byte>, p: nat): seq<Byte>
    requires 4 * p + 4 <= |s|
  {
    s[4 * p .. 4 * p + 4]
  }

  // ---------------------------------------------------------------------
  // Properties of one pixel

  lemma ThresholdPixelIdempotent(p: seq<Byte>)
    requires |p| == 4
    ensures ThresholdPixel(ThresholdPixel(p)) == ThresholdPixel(p)
  {
  }

  lemma ThresholdPixelBelow(p: seq<Byte>)
    requires |p| == 4 && p[3] <= Threshold
    ensures ThresholdPixel(p) == p[..3] + [0]
  {
  }

  // ---------------------------------------------------------------------
  // Properties of the pass

  /** The pass distributes over a split at a pixel boundary. */
  lemma {:induction false} ThresholdPassAppend(a: seq<Byte>, b: seq<Byte>, pixels: nat)
    requires |a| == 4 * pixels
    ensures ThresholdPass(a + b) == ThresholdPass(a) + ThresholdPass(b)
    decreases pixels
  {
    if pixels == 0 {
      assert a + b == b;
    } else {
      var a' := a[4..];
      assert (a + b)[..4] == a[..4];
      assert (a + b)[4..] == a' + b;
      ThresholdPassAppend(a', b, pixels - 1);
    }
  }

  /** Locality: pixel `p` of the result depends on pixel `p` of the input
      and on nothing else. */
  lemma {:induction false} ThresholdPassPixel(s: seq<Byte>, p: nat)
    requires 4 * p + 4 <= |s|
    ensures PixelAt(ThresholdPass(s), p) == ThresholdPixel(PixelAt(s, p))
    decreases p
  {
    var r := ThresholdPass(s);
    var head := ThresholdPixel(s[..4]);
    assert r == head + ThresholdPass(s[4..]);
    if p == 0 {
      assert PixelAt(r, 0) == head;
    } else {
      var t := s[4..];
      ThresholdPassPixel(t, p - 1);
      var j := 4 * (p - 1);
      assert PixelAt(r, p) == ThresholdPass(t)[j..j + 4];
      assert PixelAt(t, p - 1) == PixelAt(s, p);
    }
  }

  /** The bytes of a trailing incomplete pixel are not changed. */
  lemma {:induction false} ThresholdPassTail(s: seq<Byte>, pixels: nat)
    requires 4 * pixels <= |s| < 4 * pixels + 4
    ensures ThresholdPass(s)[4 * pixels..] == s[4 * pixels..]
    decreases pixels
  {
    if pixels > 0 {
      var t := s[4..];
      ThresholdPassTail(t, pixels - 1);
      assert ThresholdPass(s) == ThresholdPixel(s[..4]) + ThresholdPass(t);
      assert ThresholdPass(s)[4 * pixels..] == ThresholdPass(t)[4 * (pixels - 1)..];
      assert s[4 * pixels..] == t[4 * (pixels - 1)..];
    }
  }

  /** After the pass every complete pixel's alpha byte is 0 or 255. */
  lemma AlphaIsBinary(s: seq<Byte>, p: nat)
    requires 4 * p + 4 <= |s|
    ensures var a := ThresholdPass(s)[4 * p + 3]; a == 0 || a == Opaque
  {
    ThresholdPassPixel(s, p);
    assert ThresholdPass(s)[4 * p + 3] == PixelAt(ThresholdPass(s), p)[3];
  }

  /** The same for all complete pixels at once. */
  lemma AlphaAllBinary(s: seq<Byte>)
    ensures forall p: nat :: 4 * p + 4 <= |s| ==>
      PixelAt(ThresholdPass(s), p)[3] == 0 || PixelAt(ThresholdPass(s), p)[3] == Opaque
  {
    forall p: nat | 4 * p + 4 <= |s|
      ensures PixelAt(ThresholdPass(s), p)[3] == 0 || PixelAt(ThresholdPass(s), p)[3] == Opaque
    {
      ThresholdPassPixel(s, p);
    }
  }

  /** A pixel whose alpha is above the threshold becomes opaque white. */
  lemma AboveThresholdBecomesWhite(s: seq<Byte>, p: nat)
    requires 4 * p + 4 <= |s|
    requires s[4 * p + 3] > Threshold
    ensures PixelAt(ThresholdPass(s), p) == White
  {
    ThresholdPassPixel(s, p);
    assert PixelAt(s, p)[3] == s[4 * p + 3];
  }

  /** A pixel whose alpha is at most the threshold (180 included) keeps its
      colour bytes and becomes fully transparent. */
  lemma AtOrBelowThresholdBecomesTransparent(s: seq<Byte>, p: nat)
    requires 4 * p + 4 <= |s|
    requires s[4 * p + 3] <= Threshold
    ensures PixelAt(ThresholdPass(s), p) == PixelAt(s, p)[..3] + [0]
  {
    ThresholdPassPixel(s, p);
    ThresholdPixelBelow(PixelAt(s, p));
  }

  /** The pass is idempotent. */
  lemma {:induction false} ThresholdPassIdempotent(s: seq<Byte>)
    ensures ThresholdPass(ThresholdPass(s)) == ThresholdPass(s)
    decreases |s|
  {
    if |s| >= 4 {
      var head := ThresholdPixel(s[..4]);
      var rest := ThresholdPass(s[4..]);
      ThresholdPassIdempotent(s[4..]);
      ThresholdPassAppend(head, rest, 1);
      ThresholdPixelIdempotent(s[..4]);
      assert ThresholdPass(head) == ThresholdPixel(head) + ThresholdPass([]) by {
        assert head[..4] == head;
        assert head[4..] == [];
      }
    }
  }

  /** A fully transparent buffer stays fully transparent. */
  lemma {:induction false} ThresholdPassTransparent(n: nat)
    ensures ThresholdPass(Transparent(n)) == Transparent(n)
    decreases n
  {
    if n >= 4 {
      ThresholdPassTransparent(n - 4);
      assert Transparent(n)[..4] == [0, 0, 0, 0];
      assert Transparent(n)[4..] == Transparent(n - 4);
      assert Transparent(n) == [0, 0, 0, 0] + Transparent(n - 4);
    }
  }

  // ---------------------------------------------------------------------
  // The in-place loop

  /** The threshold loop over the image data, run in place: the index steps
      by four from 0 while it is below the length. */
  method ApplyThreshold(data: array<Byte>)
    modifies data
    ensures data[..] == ThresholdPass(old(data[..]))
  {
    ghost var s := data[..];
    var n := data.Length;
    var i := 0;
    ghost var pixels: nat := 0;
    while i < n
      invariant i == 4 * pixels && i <= n + 3
      invariant i <= n ==> data[..] == ThresholdPass(s[..i]) + s[i..]
      invariant i > n ==> data[..] == ThresholdPass(s)
    {
      if i + 3 < n {
        ghost var before := data[..];
        ThresholdPixelInPlace(data, i);
        PassOneMorePixel(s, pixels, before, data[..]);
      } else {
        // The alpha byte lies past the end: reading it gives no number, so
        // the else branch runs, and its write past the end of a typed array
        // is ignored.  Nothing changes.
        PassLastPartialPixel(s, pixels);
      }
      i, pixels := i + 4, pixels + 1;
    }
    assert s[..n] == s;
  }

  /** The body of the loop for a complete pixel starting at byte `i`. */
  method ThresholdPixelInPlace(data: array<Byte>, i: nat)
    requires i + 4 <= data.Length
    modifies data
    ensures data[..] == old(data[..i]) + ThresholdPixel(old(data[i..i + 4])) + old(data[i + 4..])
  {
    ghost var done, pixel, rest := data[..i], data[i..i + 4], data[i + 4..];
    if data[i + 3] > Threshold {
      data[i] := Opaque;
      data[i + 1] := Opaque;
      data[i + 2] := Opaque;
      data[i + 3] := Opaque;
    } else {
      data[i + 3] := 0;
    }
    assert data[..i] == done && data[i + 4..] == rest;
    assert data[i..i + 4] == ThresholdPixel(pixel);
    assert data[..] == data[..i] + data[i..i + 4] + data[i + 4..];
  }

  /** One step of the loop's invariant: once the first `i` bytes are done,
      thresholding the pixel at `i` makes the first `i + 4` bytes done. */
  lemma PassOneMorePixel(s: seq<Byte>, pixels: nat, before: seq<Byte>, after: seq<Byte>)
    requires 4 * pixels + 4 <= |s|
    requires var i := 4 * pixels; before == ThresholdPass(s[..i]) + s[i..]
    requires var i := 4 * pixels; after == before[..i] + ThresholdPixel(before[i..i + 4]) + before[i + 4..]
    ensures var i := 4 * pixels; after == ThresholdPass(s[..i + 4]) + s[i + 4..]
  {
    var i := 4 * pixels;
    var done, pixel := s[..i], s[i..i + 4];
    assert before[..i] == ThresholdPass(done);
    assert before[i..i + 4] == pixel && before[i + 4..] == s[i + 4..];
    ThresholdPassAppend(done, pixel, pixels);
    assert done + pixel == s[..i + 4];
    assert pixel[..4] == pixel && pixel[4..] == [];
    assert ThresholdPass(pixel) == ThresholdPixel(pixel);
  }

  /** The loop's last step when fewer than four bytes remain. */
  lemma PassLastPartialPixel(s: seq<Byte>, pixels: nat)
    requires 4 * pixels <= |s| < 4 * pixels + 4
    ensures var i := 4 * pixels; ThresholdPass(s[..i]) + s[i..] == ThresholdPass(s)
  {
    var i := 4 * pixels;
    var done, rest := s[..i], s[i..];
    assert done + rest == s;
    assert ThresholdPass(rest) == rest;
    ThresholdPassAppend(done, rest, pixels);
  }
}
