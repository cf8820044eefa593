/**
 * The canvas: a BGRA8 pixel buffer with premultiplied alpha, its dimensions,
 * and the record of the rendering passes it has handed to AGG's rasterizer.
 */
module CanvasImpl {

  import opened Mappings
  import opened Pixels
  import opened Pipeline

  const Uint32Modulus: int := 0x1_0000_0000

  predicate IsUint32(x: int) {
    0 <= x < Uint32Modulus
  }

  class Canvas {
    /** The pixel bytes: borrowed from the caller or owned by the canvas. */
    const data: array<byte>
    const width: nat
    const height: nat
    /** Bytes per row. */
    const stride: nat
    /**
     * The passes issued to AGG's rasterizer and scanline renderer, oldest first.
     * The pixels AGG then writes are not modelled; this record stands for them.
     */
    var renderLog: seq<Pass>

    ghost predicate Valid()
      reads this
    {
      && IsUint32(width) && IsUint32(height)
      && stride < 0x8000_0000
      && data.Length == height * stride
    }

    /**
     * The number of bytes the whole-buffer transforms walk: height() * stride(),
     * a product of two unsigned 32-bit values and so taken modulo 2^32.
     */
    function ByteCount(): (n: nat)
      reads this
      ensures n < Uint32Modulus && n <= height * stride
      ensures height * stride < Uint32Modulus ==> n == height * stride
    {
      (height * stride) % Uint32Modulus
    }

    /** Attaches a caller's buffer; its pixels are left as they are. */
    constructor Borrowed(buffer: array<byte>, w: nat, h: nat, s: nat)
      requires IsUint32(w) && IsUint32(h) && s < 0x8000_0000
      requires buffer.Length == h * s
      ensures Valid()
      ensures data == buffer && width == w && height == h && stride == s
      ensures renderLog == []
    {
      data := buffer;
      width, height, stride := w, h, s;
      renderLog := [];
    }

    /** Allocates a zero-filled buffer of w * h pixels with rows of 4 * w bytes. */
    constructor Owned(w: nat, h: nat)
      requires IsUint32(w) && IsUint32(h) && IsUint32(w * h * 4) && w * 4 < 0x8000_0000
      ensures Valid() && fresh(data)
      ensures width == w && height == h && stride == w * 4
      ensures data[..] == seq(w * h * 4, _ => 0)
      ensures ByteCount() % 4 == 0
      ensures renderLog == []
    {
      data := new byte[w * h * 4](_ => 0);
      width, height, stride := w, h, w * 4;
      renderLog := [];
      new;
      assert h * (w * 4) == w * h * 4;
      assert ByteCount() == w * h * 4;
    }

    /** The walked bytes are whole pixels and lie inside the buffer. */
    lemma WalkFits()
      requires Valid() && ByteCount() % 4 == 0
      ensures 4 * (ByteCount() / 4) == ByteCount() <= data.Length
    {
      var total := height * stride;
      assert ByteCount() == total % Uint32Modulus <= total;
    }

    /**
     * draw: nothing happens when both paints are none; otherwise the path is
     * translated once into path storage commands and the fill pass, then the
     * stroke pass, are issued as DrawPlan describes.
     */
    method Draw(path: seq<Segment>, matrix: Transform, fillRule: WindRule,
                fill: Paint, stroke: Paint, sd: StrokeData)
      requires Valid()
      modifies this`renderLog
      ensures Valid()
      ensures renderLog == old(renderLog) + DrawPlan(path, matrix, fillRule, fill, stroke, sd)
      ensures fill.NoPaint? && stroke.NoPaint? ==> renderLog == old(renderLog)
    {
      if fill.NoPaint? && stroke.NoPaint? {
        return;
      }
      var cmds := TranslatePath(path);
      var curve := CurveStage(cmds, matrix, 0.0);
      if !fill.NoPaint? {
        renderLog := renderLog + [FillPass(ToAggFillRule(fillRule), curve, fill)];
      }
      if !stroke.NoPaint? {
        // The dash pairs come from the add_dash loop, BuildDashPairs; DashStageOf
        // is the same stage as a function, for DrawPlan.
        var dash: Option<DashStage> := None;
        if Sum(sd.dash) != 0.0 {
          var pairs := BuildDashPairs(sd.dash);
          dash := Some(DashStage(pairs, sd.dashOffset));
        }
        var st := StrokeStageOf(sd);
        renderLog := renderLog + [StrokePass(FillNonZero, curve, dash, st, stroke)];
      }
    }

    /**
     * updateLuminance: every pixel of the walked bytes gets its luminosity in
     * its alpha byte; the bytes past ByteCount() are untouched.
     */
    method UpdateLuminance()
      requires Valid() && ByteCount() % 4 == 0
      modifies data
      ensures Valid()
      ensures data[..] == MapPixels(Luminance, old(data[..])[..ByteCount()]) + old(data[..])[ByteCount()..]
    {
      var n := ByteCount();
      WalkFits();
      var count := n / 4;
      var p := 0;
      while p < count
        invariant 0 <= p <= count
        invariant MappedUpTo(Luminance, old(data[..]), data[..], 4 * p)
      {
        ghost var prev := data[..];
        LuminancePixelAt(4 * p);
        StepPixelLoop(Luminance, old(data[..]), prev, data[..], 4 * p);
        p := p + 1;
      }
      FinishPixelLoop(Luminance, old(data[..]), data[..], n);
    }

    /**
     * convertToRGBA: every pixel of the walked bytes is un-premultiplied and
     * reordered from BGRA to RGBA, or zeroed when its alpha is 0; the bytes past
     * ByteCount() are untouched.
     */
    method ConvertToRGBA()
      requires Valid() && ByteCount() % 4 == 0
      modifies data
      ensures Valid()
      ensures data[..] == MapPixels(ConvertPixel, old(data[..])[..ByteCount()]) + old(data[..])[ByteCount()..]
    {
      var n := ByteCount();
      WalkFits();
      var count := n / 4;
      var p := 0;
      while p < count
        invariant 0 <= p <= count
        invariant MappedUpTo(ConvertPixel, old(data[..]), data[..], 4 * p)
      {
        ghost var prev := data[..];
        ConvertPixelAt(4 * p);
        StepPixelLoop(ConvertPixel, old(data[..]), prev, data[..], 4 * p);
        p := p + 1;
      }
      FinishPixelLoop(ConvertPixel, old(data[..]), data[..], n);
    }

    /** The body of the updateLuminance loop: stores the luminosity of the pixel at byte offset i in its alpha byte. */
    method LuminancePixelAt(i: nat)
      requires i % 4 == 0 && i + 4 <= data.Length
      modifies data
      ensures PixelAt(data[..], i / 4) == Luminance(PixelAt(old(data[..]), i / 4))
      ensures forall j :: 0 <= j < data.Length && (j < i || i + 4 <= j) ==> data[j] == old(data[j])
    {
      var b := data[i];
      var g := data[i + 1];
      var r := data[i + 2];
      data[i + 3] := Luminosity(b, g, r);
    }

    /** The body of the convertToRGBA loop: rewrites the pixel at byte offset i. */
    method ConvertPixelAt(i: nat)
      requires i % 4 == 0 && i + 4 <= data.Length
      modifies data
      ensures PixelAt(data[..], i / 4) == ConvertPixel(PixelAt(old(data[..]), i / 4))
      ensures forall j :: 0 <= j < data.Length && (j < i || i + 4 <= j) ==> data[j] == old(data[j])
    {
      var a := data[i + 3];
      if a != 0 {
        var r := data[i + 2];
        var g := data[i + 1];
        var b := data[i];
        data[i] := Unpremultiply(r, a);
        data[i + 1] := Unpremultiply(g, a);
        data[i + 2] := Unpremultiply(b, a);
        data[i + 3] := a;
      } else {
        data[i] := 0;
        data[i + 1] := 0;
        data[i + 2] := 0;
        data[i + 3] := 0;
      }
    }
  }

  /** The first i bytes of after are before's pixels mapped by f; the other bytes are as in before. */
  ghost predicate MappedUpTo(f: Pixel -> Pixel, before: seq<byte>, after: seq<byte>, i: nat) {
    && |before| == |after| && i <= |after|
    && (forall k: nat :: 4 * k + 4 <= i ==> PixelAt(after, k) == f(PixelAt(before, k)))
    && (forall j :: i <= j < |after| ==> after[j] == before[j])
  }

  /**
   * One step of a pixel loop: when cur differs from prev only in pixel i / 4,
   * which is f of its old value, the mapped prefix grows by one pixel.
   */
  lemma StepPixelLoop(f: Pixel -> Pixel, before: seq<byte>, prev: seq<byte>, cur: seq<byte>, i: nat)
    requires i % 4 == 0 && i + 4 <= |prev| == |cur|
    requires MappedUpTo(f, before, prev, i)
    requires PixelAt(cur, i / 4) == f(PixelAt(prev, i / 4))
    requires forall j :: 0 <= j < |cur| && (j < i || i + 4 <= j) ==> cur[j] == prev[j]
    ensures MappedUpTo(f, before, cur, i + 4)
  {
    var m := i / 4;
    assert PixelAt(prev, m) == PixelAt(before, m);
    forall k: nat | 4 * k + 4 <= i + 4
      ensures PixelAt(cur, k) == f(PixelAt(before, k))
    {
      if k < m {
        assert PixelAt(cur, k) == PixelAt(prev, k);
      } else {
        assert k == m;
      }
    }
  }

  /** Closes a pixel loop: the first n bytes are mapped pixel by pixel, the rest are as before. */
  lemma FinishPixelLoop(f: Pixel -> Pixel, before: seq<byte>, after: seq<byte>, n: nat)
    requires n % 4 == 0 && MappedUpTo(f, before, after, n)
    ensures after == MapPixels(f, before[..n]) + before[n..]
  {
    forall k: nat | 4 * k + 4 <= n
      ensures PixelAt(after[..n], k) == f(PixelAt(before[..n], k))
    {
      assert PixelAt(after[..n], k) == PixelAt(after, k);
      assert PixelAt(before[..n], k) == PixelAt(before, k);
    }
    MapPixelsExt(f, before[..n], after[..n]);
    assert after == after[..n] + after[n..];
  }
}
