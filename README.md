# lunasvg AGG canvas: a Dafny model

This project models the integer logic of lunasvg's AGG-backed canvas
(`source/graphics/agg/canvasimpl.cpp`). The canvas wraps a BGRA8 pixel buffer
with premultiplied alpha and hands paths to the AGG library for rasterization.
What the canvas itself decides, and what is modelled and proved here, is:

- **Gradient spread** (`GradientWrapper::calculate`): how a raw gradient
  parameter is mapped into `[0, d]` under Pad, Repeat and Reflect. The
  C++ `%` truncates toward zero; it is modelled as `TruncRem`, and the
  `+ d` fix-up is proved to give Dafny's Euclidean remainder.
- **Whole-buffer transforms** (`updateLuminance`, `convertToRGBA`): in-place
  loops over the byte array of a `Canvas`, proved equal to a pixel-by-pixel
  map (`MapPixels`) of the old contents. The per-pixel functions carry the
  properties: the luminosity lies between the smallest and the largest
  channel, a transparent pixel is zeroed, a premultiplied pixel is
  un-premultiplied without truncation, and re-premultiplying with rounding up
  recovers it exactly.
- **The draw pipeline** (`draw`): the path is translated segment by segment
  into `agg::path_storage` commands. Then a fill pass with the requested
  filling rule and a stroke pass that is always non-zero are issued, in that
  order. The stroke pass gets a dash stage only when the dash lengths do not
  sum to zero, and an odd-length dash array is used twice.
  The canvas records each pass it issues in `renderLog`.
- **Enum conversions** (`to_agg_fill_rule`, `to_agg_line_cap`,
  `to_agg_line_join`, `to_agg_comp_op`).

Files: `spread.dfy` (module `Spread`), `mappings.dfy` (`Mappings`),
`pixels.dfy` (`Pixels`), `pipeline.dfy` (`Pipeline`), `canvas.dfy`
(`CanvasImpl`, class `Canvas`).

Integer widths are explicit where they matter. `Calculate` requires its
inputs and `2 * d` to fit a 32-bit `int`. The narrowing store to
`std::uint8_t` in `convertToRGBA` is `ToUint8` (mod 256). The loop bound
`height() * stride()` is an unsigned 32-bit product; `ByteCount` takes it
mod 2^32.

## Model

| member | source | states |
|---|---|---|
| `Spread.TruncRem` | source/graphics/agg/canvasimpl.cpp:271 | C++ `%` for a positive divisor: `(a / b) * b + a % b == a` with the truncating quotient; `abs(r) < b`; the sign of `r` is the sign of `a` |
| `Spread.PadSpread` | source/graphics/agg/canvasimpl.cpp:261-268 | for `d >= 0` the result is in `[0, d]` and is the point of `[0, d]` nearest to `val` |
| `Spread.PadCases` | source/graphics/agg/canvasimpl.cpp:261-268 | Pad is the identity on `[0, d]`, gives 0 below it and `d` above it |
| `Spread.PadIdempotent` | source/graphics/agg/canvasimpl.cpp:261-268 | padding twice is padding once |
| `Spread.RepeatSpread` | source/graphics/agg/canvasimpl.cpp:269-274 | for `d > 0` the result is in `[0, d)` and equals the Euclidean `val mod d`, negative `val` included |
| `Spread.RepeatPeriodic` | source/graphics/agg/canvasimpl.cpp:269-274 | Repeat is unchanged by adding any multiple of `d` to `val` |
| `Spread.RepeatInDomain` | source/graphics/agg/canvasimpl.cpp:269-274 | Repeat is the identity on `[0, d)` and sends `d` to 0 |
| `Spread.ReflectSpread` | source/graphics/agg/canvasimpl.cpp:275-282 | for `d > 0` the result is in `[0, d]` and equals `m < d ? m : 2d - m` with `m` the Euclidean `val mod 2d` |
| `Spread.ReflectPeriodic` | source/graphics/agg/canvasimpl.cpp:275-282 | Reflect is unchanged by `val -> val + 2d` |
| `Spread.ReflectEven` | source/graphics/agg/canvasimpl.cpp:275-282 | Reflect is unchanged by `val -> -val` |
| `Spread.ReflectMirror` | source/graphics/agg/canvasimpl.cpp:275-282 | Reflect is unchanged by `val -> 2d - val` |
| `Spread.ReflectInDomain` | source/graphics/agg/canvasimpl.cpp:275-282 | Reflect is the identity on `[0, d]` |
| `Spread.Calculate` | source/graphics/agg/canvasimpl.cpp:256-286 | with 32-bit inputs, `d > 0` for Repeat and Reflect, and a 32-bit `2d` for Reflect: the result fits 32 bits, lies in `[0, d]` (in `[0, d)` for Repeat), equals `val` on `[0, d)`, and maps `d` to 0 under Repeat and to `d` otherwise |
| `Mappings.ToAggFillRule` | source/graphics/agg/canvasimpl.cpp:24-27 | the result is `fill_non_zero` iff the rule is NonZero, `fill_even_odd` otherwise |
| `Mappings.ToAggLineCap` | source/graphics/agg/canvasimpl.cpp:29-32 | butt iff Butt, round iff Round, square for every other cap |
| `Mappings.ToAggLineJoin` | source/graphics/agg/canvasimpl.cpp:34-37 | bevel iff Bevel, miter iff Miter, round for every other join |
| `Mappings.ToAggCompOp` | source/graphics/agg/canvasimpl.cpp:45-48 | `comp_op_dst_in` iff DstIn, `comp_op_src_over` for every other mode |
| `Mappings.MappingsInjective` | source/graphics/agg/canvasimpl.cpp:24-48 | no conversion sends two different values to the same AGG value |
| `Pixels.MapPixels` | source/graphics/agg/canvasimpl.cpp:192-204 | walking a buffer four bytes at a time gives a buffer of the same length |
| `Pixels.MapPixelsAt` | source/graphics/agg/canvasimpl.cpp:206-234 | pixel k of the result is the per-pixel function applied to pixel k of the input |
| `Pixels.MapPixelsLocal` | source/graphics/agg/canvasimpl.cpp:206-234 | each output pixel depends only on its own four input bytes |
| `Pixels.Luminosity` | source/graphics/agg/canvasimpl.cpp:198-202 | `(2R + 3G + B) / 6` lies between the smallest and the largest channel, so the byte store never truncates |
| `Pixels.Luminance` | source/graphics/agg/canvasimpl.cpp:198-202 | one updateLuminance step: B, G, R are kept and the alpha byte gets a value between the smallest and the largest channel |
| `Pixels.LuminanceBufferAt` | source/graphics/agg/canvasimpl.cpp:192-204 | bytes `4k`, `4k+1`, `4k+2` are unchanged and byte `4k+3` becomes `(2*b[4k+2] + 3*b[4k+1] + b[4k]) / 6 <= 255` |
| `Pixels.LuminosityOfGrey` | source/graphics/agg/canvasimpl.cpp:201 | a grey pixel's luminosity is its grey level |
| `Pixels.ToUint8` | source/graphics/agg/canvasimpl.cpp:219-221 | the narrowing store to `std::uint8_t` keeps the low eight bits: the difference from the input is a multiple of 256, and a value below 256 is kept |
| `Pixels.Unpremultiply` | source/graphics/agg/canvasimpl.cpp:219-221 | for a channel no larger than alpha, the stored byte `r` is the floor of `c * 255 / a`: `r * a <= c * 255 < r * a + a` |
| `Pixels.ConvertPixel` | source/graphics/agg/canvasimpl.cpp:212-230 | alpha is kept, and a pixel with alpha 0 becomes four zero bytes |
| `Pixels.UnpremultiplyExact` | source/graphics/agg/canvasimpl.cpp:219-221 | for a channel no larger than alpha, `(c * 255) / a <= 255` and the uint8 store keeps it exactly |
| `Pixels.UnpremultiplyRoundTrip` | source/graphics/agg/canvasimpl.cpp:219-221 | multiplying the straight channel back by `a / 255` recovers `c` exactly when rounding up, and within 1 when rounding down |
| `Pixels.ConvertPixelRoundTrip` | source/graphics/agg/canvasimpl.cpp:212-230 | on a premultiplied pixel, convertToRGBA is undone by re-premultiplying and swapping back to BGRA |
| `Pixels.ConvertBufferAt` | source/graphics/agg/canvasimpl.cpp:206-234 | alpha 0 gives four zero bytes; otherwise byte 0 gets the straight red (old byte 2), byte 1 the straight green, byte 2 the straight blue (old byte 0), byte 3 keeps alpha |
| `Pixels.ConvertBufferPremultipliedAt` | source/graphics/agg/canvasimpl.cpp:206-234 | on a premultiplied pixel with alpha `a != 0` the bytes are exactly `(R*255)/a`, `(G*255)/a`, `(B*255)/a`, each at most 255 |
| `Pipeline.CommandOf` | source/graphics/agg/canvasimpl.cpp:121-138 | each of the five segment kinds gives exactly the matching path_storage command kind |
| `Pipeline.Translated` | source/graphics/agg/canvasimpl.cpp:119-140 | one command per segment |
| `Pipeline.Untranslated` | source/graphics/agg/canvasimpl.cpp:119-140 | one segment per command (the inverse reading) |
| `Pipeline.TranslatedAt` | source/graphics/agg/canvasimpl.cpp:119-140 | command i is the command of segment i, so order is preserved |
| `Pipeline.TranslationRoundTrip` | source/graphics/agg/canvasimpl.cpp:119-140 | the path can be read back from its commands: no coordinate is lost |
| `Pipeline.TranslatePath` | source/graphics/agg/canvasimpl.cpp:116-140 | the iterator loop appends exactly `Translated(path)`: command i is the command of segment i |
| `Pipeline.Sum` | source/graphics/agg/canvasimpl.cpp:161 | `std::accumulate` from 0.0: non-negative lengths give a non-negative sum, and all-zero lengths give 0 |
| `Pipeline.SumNonNegative` | source/graphics/agg/canvasimpl.cpp:161 | a sum of non-negative dash lengths is non-negative, and non-zero iff some length is positive |
| `Pipeline.DashPairs` | source/graphics/agg/canvasimpl.cpp:164-167 | there are `n / 2` pairs for an even n and `n` for an odd n |
| `Pipeline.DashPairsLengthsAt` | source/graphics/agg/canvasimpl.cpp:164-167 | length i of the pattern handed to AGG is `dashes[i mod n]` |
| `Pipeline.DashPatternDoubled` | source/graphics/agg/canvasimpl.cpp:164-167 | the pattern handed to AGG is the dash array for an even n and the array twice for an odd n |
| `Pipeline.BuildDashPairs` | source/graphics/agg/canvasimpl.cpp:164-167 | the add_dash loop makes `n / 2` or `n` pairs, pair j being `(dashes[2j mod n], dashes[(2j+1) mod n])` |
| `Pipeline.DashStageOf` | source/graphics/agg/canvasimpl.cpp:161-176 | a dash stage is present iff the dash lengths sum to non-zero, and then it holds `DashPairs(sd.dash)` and starts at `sd.dashOffset` |
| `Pipeline.StrokeStageOf` | source/graphics/agg/canvasimpl.cpp:170-173 | the stroke gets `sd.width` and `sd.miterLimit`, `ToAggLineCap(sd.cap)` and `ToAggLineJoin(sd.join)`, the same calls as lines 180-183 of the undashed branch |
| `Pipeline.DrawPlan` | source/graphics/agg/canvasimpl.cpp:110-189 | no pass iff both paints are none; one pass per paint that is not none; the fill pass comes first; every pass uses the translated path, `matrix` and angle tolerance 0; the fill pass uses `ToAggFillRule(fillRule)` and the fill paint; the stroke pass uses non-zero and the stroke paint, is dashed iff the dash sum is non-zero, and then with `DashPairs(sd.dash)` from `sd.dashOffset`; its stroke stage carries `sd.width`, the converted cap and join, and `sd.miterLimit` |
| `Pipeline.StrokeIndependentOfFillRule` | source/graphics/agg/canvasimpl.cpp:154-157 | changing the fill rule does not change the stroke passes |
| `Pipeline.DashedIffSomePositive` | source/graphics/agg/canvasimpl.cpp:161-167 | with non-negative dash lengths, the stroke is dashed iff some length is positive |
| `CanvasImpl.Canvas.ByteCount` | source/graphics/agg/canvasimpl.cpp:195 | `height() * stride()` as an unsigned 32-bit product: below 2^32, at most the exact product, and equal to it when the product fits |
| `CanvasImpl.Canvas.Borrowed` | source/graphics/agg/canvasimpl.cpp:54-61 | attaches the caller's buffer and dimensions unchanged |
| `CanvasImpl.Canvas.Owned` | source/graphics/agg/canvasimpl.cpp:63-72 | allocates `w*h*4` zero bytes with stride `4w` |
| `CanvasImpl.Canvas.Draw` | source/graphics/agg/canvasimpl.cpp:110-190 | appends exactly `DrawPlan(...)` to the render log; with both paints none nothing changes; the pixel array is not touched by the canvas itself; `Valid()` is kept |
| `CanvasImpl.Canvas.UpdateLuminance` | source/graphics/agg/canvasimpl.cpp:192-204 | the walked bytes become `MapPixels(Luminance, old bytes)`; the bytes past them are unchanged; `Valid()` is kept |
| `CanvasImpl.Canvas.ConvertToRGBA` | source/graphics/agg/canvasimpl.cpp:206-234 | the walked bytes become `MapPixels(ConvertPixel, old bytes)`; the bytes past them are unchanged; `Valid()` is kept |
| `CanvasImpl.Canvas.WalkFits` | source/graphics/agg/canvasimpl.cpp:194-196 | the bytes from `data()` to `end` are whole pixels and lie inside the buffer |
| `CanvasImpl.Canvas.LuminancePixelAt` | source/graphics/agg/canvasimpl.cpp:198-202 | one loop step: the pixel at offset i becomes `Luminance` of its old value, and every other byte is unchanged |
| `CanvasImpl.Canvas.ConvertPixelAt` | source/graphics/agg/canvasimpl.cpp:212-232 | one loop step: the pixel at offset i becomes `ConvertPixel` of its old value, and every other byte is unchanged |

## Left out

- Rasterization and scanline rendering (`add_path`, `render_scanlines`, `render_scanlines_aa`): these are AGG library calls and AGG is not part of this model. For the same reason the constructors' `attach` calls on the pixel format and the renderers, and `m_rasterizer.clip_box(0, 0, width, height)` (lines 56-60 and 66-71), are not modelled. The pixels a draw writes are therefore not modelled; `renderLog` records the passes instead.
- Curve flattening, dashing geometry, stroke expansion and transformation (`conv_curve`, `conv_dash`, `conv_stroke`, `conv_transform`): AGG internals over doubles. Only their parameters are modelled. The approximation scale is `matrix.scale()`, computed by AGG; a pass records `matrix`. AGG's own limits, such as the maximum number of dashes `conv_dash` keeps and `close_polygon` doing nothing after a non-vertex, are not modelled.
- `renderScanlines` (lines 293-365): gradient matrix construction, the colour LUT and the solid-colour alpha scaling `uint8(c.a * opacity)` all use floating point and AGG.
- The gradient functions `gradient_x` and `gradient_radial_focus` are AGG's. The raw parameter `val` they produce is an input of `Spread.Calculate`.
- `clear` (lines 74-77) and `blend` (lines 99-108): AGG renderer and blender calls. The pixel-format header is not part of this model.
- The destructor and the accessors `data`, `width`, `height`, `stride` (lines 50-97): the accessors are the fields of `Canvas`. `to_agg_transform` (lines 39-43) copies six doubles unchanged, so `Transform` is passed through as it is.
- Doubles are `real`: dash lengths, offsets, widths and coordinates. `Sum` is the exact sum, so the rounding of `std::accumulate` is not modelled. For example, a dash array whose floating-point sum cancels to 0.0 is not covered.
- The enum declarations (`WindRule`, `LineCap`, `LineJoin`, `BlendMode`, `SpreadMethod`) are in headers that are not part of this model. The model's datatypes have the members the conversions name. A C++ enum can hold a value outside its members: the conversions send such a value to their default arm, and `calculate` returns `val` unchanged (line 285). Neither case can be written in the model.
- `CanvasImpl.Canvas.Owned`: requires `w * h * 4 < 2^32`. The C++ unsigned product would wrap and allocate too small a buffer.
- `CanvasImpl.Canvas.Valid`: requires `stride < 2^31` because AGG stores the stride as `int`; a negative (bottom-up) stride is not modelled.
- `CanvasImpl.Canvas.LuminancePixelAt`, `CanvasImpl.Canvas.ConvertPixelAt`: each loop body of `updateLuminance` and `convertToRGBA` is a method of its own. It keeps the same reads and writes in the same order. This keeps the proof of each loop small.
- `CanvasImpl.Canvas.UpdateLuminance`, `CanvasImpl.Canvas.ConvertToRGBA`: the pointer `ptr` becomes the byte offset `4 * p` for a pixel counter `p`. Both require the walked byte count to be a multiple of 4. The C++ loops test `ptr < end`, so with a count that is not a multiple of 4 they would access up to three bytes past `end`; the model does not give those accesses a meaning.
