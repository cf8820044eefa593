/**
 * The two whole-buffer pixel transforms of the canvas, as functions on byte
 * sequences: updateLuminance and convertToRGBA. A buffer is walked four bytes
 * at a time; each group of four is one pixel, stored B, G, R, A and with
 * premultiplied alpha until convertToRGBA rewrites it as straight R, G, B, A.
 */
module Pixels {

  import Spread

  type byte = x: int | 0 <= x < 256

  /** C++ narrowing of a non-negative int to std::uint8_t: the low eight bits. */
  function ToUint8(x: nat): (r: byte)
    ensures (x - r) % 256 == 0
    ensures x < 256 ==> r == x
  {
    x % 256
  }

  /** One pixel: its four bytes in memory order. */
  datatype Pixel = Pixel(b0: byte, b1: byte, b2: byte, b3: byte)

  /** Pixel k of a buffer: bytes 4k to 4k + 3. */
  function PixelAt(s: seq<byte>, k: nat): Pixel
    requires 4 * k + 4 <= |s|
  {
    Pixel(s[4 * k], s[4 * k + 1], s[4 * k + 2], s[4 * k + 3])
  }

  function Bytes(p: Pixel): seq<byte> {
    [p.b0, p.b1, p.b2, p.b3]
  }

  /** The buffer obtained by replacing every pixel p of s, in order, with f(p). */
  function MapPixels(f: Pixel -> Pixel, s: seq<byte>): (r: seq<byte>)
    requires |s| % 4 == 0
    ensures |r| == |s|
    decreases |s|
  {
    if |s| == 0 then [] else Bytes(f(PixelAt(s, 0))) + MapPixels(f, s[4..])
  }

  /** Pixel k of the mapped buffer is f applied to pixel k of the input, and to nothing else. */
  lemma {:induction false} MapPixelsAt(f: Pixel -> Pixel, s: seq<byte>, k: nat)
    requires |s| % 4 == 0 && 4 * k + 4 <= |s|
    ensures PixelAt(MapPixels(f, s), k) == f(PixelAt(s, k))
    decreases k
  {
    var r := MapPixels(f, s);
    if k > 0 {
      MapPixelsAt(f, s[4..], k - 1);
      assert r == Bytes(f(PixelAt(s, 0))) + MapPixels(f, s[4..]);
      assert PixelAt(s[4..], k - 1) == PixelAt(s, k);
      assert PixelAt(r, k) == PixelAt(MapPixels(f, s[4..]), k - 1);
    }
  }

  /** A buffer whose every pixel is f of the matching pixel of s is MapPixels(f, s). */
  lemma {:induction false} MapPixelsExt(f: Pixel -> Pixel, s: seq<byte>, t: seq<byte>)
    requires |s| % 4 == 0 && |t| == |s|
    requires forall k: nat :: 4 * k + 4 <= |s| ==> PixelAt(t, k) == f(PixelAt(s, k))
    ensures t == MapPixels(f, s)
    decreases |s|
  {
    if |s| > 0 {
      forall k: nat | 4 * k + 4 <= |s[4..]|
        ensures PixelAt(t[4..], k) == f(PixelAt(s[4..], k))
      {
        assert PixelAt(t[4..], k) == PixelAt(t, k + 1);
        assert PixelAt(s[4..], k) == PixelAt(s, k + 1);
      }
      MapPixelsExt(f, s[4..], t[4..]);
      assert PixelAt(t, 0) == f(PixelAt(s, 0));
      assert t == Bytes(PixelAt(t, 0)) + t[4..];
    }
  }

  /** Two buffers that agree on pixel k are mapped to buffers that agree on pixel k. */
  lemma MapPixelsLocal(f: Pixel -> Pixel, s: seq<byte>, t: seq<byte>, k: nat)
    requires |s| % 4 == 0 && |t| % 4 == 0
    requires 4 * k + 4 <= |s| && 4 * k + 4 <= |t|
    requires PixelAt(s, k) == PixelAt(t, k)
    ensures PixelAt(MapPixels(f, s), k) == PixelAt(MapPixels(f, t), k)
  {
    MapPixelsAt(f, s, k);
    MapPixelsAt(f, t, k);
  }

  // ---------------------------------------------------------------------------
  // updateLuminance

  function Min3(x: int, y: int, z: int): int {
    if x <= y && x <= z then x else if y <= z then y else z
  }

  function Max3(x: int, y: int, z: int): int {
    if x >= y && x >= z then x else if y >= z then y else z
  }

  /**
   * The luminosity (2R + 3G + B) / 6 in integer division: a weighted mean of
   * the three channels, so it lies between the smallest and the largest of them
   * and the narrowing to a byte never truncates.
   */
  function Luminosity(b: byte, g: byte, r: byte): (l: byte)
    ensures Min3(b, g, r) <= l <= Max3(b, g, r)
  {
    var sum := 2 * r + 3 * g + b;
    assert 6 * Min3(b, g, r) <= sum <= 6 * Max3(b, g, r);
    sum / 6
  }

  /** A luminance pixel keeps B, G, R and stores the luminosity in the alpha byte. */
  function Luminance(p: Pixel): (q: Pixel)
    ensures q.b0 == p.b0 && q.b1 == p.b1 && q.b2 == p.b2
    ensures Min3(p.b0, p.b1, p.b2) <= q.b3 <= Max3(p.b0, p.b1, p.b2)
  {
    Pixel(p.b0, p.b1, p.b2, Luminosity(p.b0, p.b1, p.b2))
  }

  /** What updateLuminance does to each pixel, read off the buffer. */
  lemma LuminanceBufferAt(s: seq<byte>, k: nat)
    requires |s| % 4 == 0 && 4 * k + 4 <= |s|
    ensures var t := MapPixels(Luminance, s);
      && t[4 * k] == s[4 * k]
      && t[4 * k + 1] == s[4 * k + 1]
      && t[4 * k + 2] == s[4 * k + 2]
      && t[4 * k + 3] == (2 * (s[4 * k + 2] as int) + 3 * (s[4 * k + 1] as int) + s[4 * k]) / 6
      && t[4 * k + 3] <= 255
  {
    MapPixelsAt(Luminance, s, k);
  }

  /** A grey pixel (B = G = R) gets its grey level as luminosity. */
  lemma LuminosityOfGrey(v: byte)
    ensures Luminosity(v, v, v) == v
  {
  }

  // ---------------------------------------------------------------------------
  // convertToRGBA

  /** A pixel is premultiplied when no colour channel exceeds its alpha. */
  predicate IsPremultiplied(p: Pixel) {
    p.b0 <= p.b3 && p.b1 <= p.b3 && p.b2 <= p.b3
  }

  /** The straight value (c * 255) / a of a channel, narrowed to a byte as the C++ store does. */
  function Unpremultiply(c: byte, a: byte): (r: byte)
    requires a != 0
    ensures c <= a ==> r * a <= c * 255 < r * a + a
  {
    QuotientFits(c, a);
    ToUint8((c * 255) / a)
  }

  /** For a channel no larger than alpha, (c * 255) / a is a byte and the floor of the exact quotient. */
  lemma QuotientFits(c: byte, a: byte)
    requires a != 0
    ensures c <= a ==> var q := (c * 255) / a; q <= 255 && q * a <= c * 255 < q * a + a
  {
    var x: int := c * 255;
    var q, m := x / a, x % a;
    assert x == a * q + m && 0 <= m < a;
    if c <= a {
      assert x <= 255 * a;
      assert (q - 255) * a <= 0;
      Spread.MulBound(q - 255, a);
    }
  }

  /**
   * convertToRGBA on one pixel B, G, R, A: a transparent pixel becomes four zero
   * bytes; any other pixel becomes R', G', B', A with each channel un-premultiplied.
   */
  function ConvertPixel(p: Pixel): (q: Pixel)
    ensures q.b3 == p.b3
    ensures p.b3 == 0 ==> q == Pixel(0, 0, 0, 0)
  {
    var a := p.b3;
    if a != 0 then
      Pixel(Unpremultiply(p.b2, a), Unpremultiply(p.b1, a), Unpremultiply(p.b0, a), a)
    else
      Pixel(0, 0, 0, 0)
  }

  /** For a channel no larger than alpha the narrowing is exact and the result is at most 255. */
  lemma UnpremultiplyExact(c: byte, a: byte)
    requires a != 0 && c <= a
    ensures (c * 255) / a <= 255
    ensures Unpremultiply(c, a) == (c * 255) / a
  {
    QuotientFits(c, a);
  }

  /**
   * Multiplying the straight channel back by a / 255 with rounding up recovers
   * the premultiplied channel exactly; rounding down loses at most 1.
   */
  lemma UnpremultiplyRoundTrip(c: byte, a: byte)
    requires a != 0 && c <= a
    ensures PremultiplyUp(Unpremultiply(c, a), a) == c
    ensures c - 1 <= (Unpremultiply(c, a) * a) / 255 <= c
  {
    UnpremultiplyExact(c, a);
    var q := (c * 255) / a;
    var m := (c * 255) % a;
    assert c * 255 == q * a + m && 0 <= m < a;
    assert 255 * c - 254 <= q * a <= 255 * c;
  }

  /** c * a / 255 rounded up. */
  function PremultiplyUp(c: byte, a: byte): byte {
    ByteProduct(c, a);
    (c * a + 254) / 255
  }

  /** The product of two bytes is at most 255 * 255. */
  lemma ByteProduct(x: byte, y: byte)
    ensures x * y <= 255 * 255
  {
    var u, v: nat := 255 - x, 255 - y;
    assert x * y == 255 * 255 - 255 * u - 255 * v + u * v;
    assert u * v <= 255 * v;
  }

  /** Straight R, G, B, A back to premultiplied B, G, R, A, rounding up. */
  function Repremultiply(q: Pixel): Pixel {
    Pixel(PremultiplyUp(q.b2, q.b3), PremultiplyUp(q.b1, q.b3), PremultiplyUp(q.b0, q.b3), q.b3)
  }

  /** On a premultiplied pixel, convertToRGBA is undone by Repremultiply. */
  lemma ConvertPixelRoundTrip(p: Pixel)
    requires IsPremultiplied(p)
    ensures Repremultiply(ConvertPixel(p)) == p
  {
    if p.b3 != 0 {
      UnpremultiplyRoundTrip(p.b0, p.b3);
      UnpremultiplyRoundTrip(p.b1, p.b3);
      UnpremultiplyRoundTrip(p.b2, p.b3);
    }
  }

  /**
   * What convertToRGBA does to each pixel, read off the buffer: alpha 0 gives
   * four zero bytes; otherwise byte 0 gets the straight red, byte 1 the straight
   * green, byte 2 the straight blue, and byte 3 keeps alpha.
   */
  lemma ConvertBufferAt(s: seq<byte>, k: nat)
    requires |s| % 4 == 0 && 4 * k + 4 <= |s|
    ensures var t, a := MapPixels(ConvertPixel, s), s[4 * k + 3];
      && (a == 0 ==> t[4 * k] == 0 && t[4 * k + 1] == 0 && t[4 * k + 2] == 0 && t[4 * k + 3] == 0)
      && (a != 0 ==>
            && t[4 * k] == Unpremultiply(s[4 * k + 2], a)
            && t[4 * k + 1] == Unpremultiply(s[4 * k + 1], a)
            && t[4 * k + 2] == Unpremultiply(s[4 * k], a)
            && t[4 * k + 3] == a)
  {
    var t := MapPixels(ConvertPixel, s);
    MapPixelsAt(ConvertPixel, s, k);
    assert PixelAt(t, k) == ConvertPixel(PixelAt(s, k));
  }

  /** On a premultiplied pixel no channel is truncated: the stored bytes are the exact quotients. */
  lemma ConvertBufferPremultipliedAt(s: seq<byte>, k: nat)
    requires |s| % 4 == 0 && 4 * k + 4 <= |s|
    requires IsPremultiplied(PixelAt(s, k)) && s[4 * k + 3] != 0
    ensures var t, a := MapPixels(ConvertPixel, s), s[4 * k + 3];
      && t[4 * k] == ((s[4 * k + 2] as int) * 255) / a <= 255
      && t[4 * k + 1] == ((s[4 * k + 1] as int) * 255) / a <= 255
      && t[4 * k + 2] == ((s[4 * k] as int) * 255) / a <= 255
  {
    var a := s[4 * k + 3];
    ConvertBufferAt(s, k);
    UnpremultiplyExact(s[4 * k], a);
    UnpremultiplyExact(s[4 * k + 1], a);
    UnpremultiplyExact(s[4 * k + 2], a);
  }
}
