/**
 * The rendering plan of Canvas::draw. The geometry (curve flattening, dashing,
 * stroke expansion, transformation, rasterization) is done by AGG; what the
 * canvas decides is which passes run, in which order, with which filling rule,
 * and how each stage of the AGG converter chain is parameterised. A pass records
 * exactly those decisions.
 */
module Pipeline {

  import opened Mappings
  import opened Pixels
  import opened Spread

  datatype Option<T> = None | Some(value: T)

  // ---------------------------------------------------------------------------
  // Inputs of draw

  /** A path segment as the path iterator yields it; coordinates are doubles. */
  datatype Segment =
    | MoveTo(x: real, y: real)
    | LineTo(x: real, y: real)
    | QuadTo(cx: real, cy: real, x: real, y: real)
    | CubicTo(c1x: real, c1y: real, c2x: real, c2y: real, x: real, y: real)
    | Close

  /** The six coefficients of an affine transform, copied unchanged into AGG's trans_affine. */
  datatype Transform = Transform(a: real, b: real, c: real, d: real, e: real, f: real)

  datatype Rgb = Rgb(r: byte, g: byte, b: byte, a: byte)

  datatype GradientKind = Linear | Radial

  /** A paint: none, a solid colour, or a gradient, each with an opacity. */
  datatype Paint =
    | NoPaint
    | ColorPaint(color: Rgb, opacity: real)
    | GradientPaint(kind: GradientKind, spread: SpreadMethod, opacity: real)

  datatype StrokeData = StrokeData(
    width: real, cap: LineCap, join: LineJoin, miterLimit: real,
    dashOffset: real, dash: seq<real>)

  // ---------------------------------------------------------------------------
  // Path storage commands

  /** The agg::path_storage call made for a segment. */
  datatype PathCommand =
    | MoveToCmd(x: real, y: real)
    | LineToCmd(x: real, y: real)
    | Curve3(cx: real, cy: real, x: real, y: real)
    | Curve4(c1x: real, c1y: real, c2x: real, c2y: real, x: real, y: real)
    | ClosePolygon

  /** Each segment kind has exactly one command kind, which carries the same coordinates. */
  function CommandOf(seg: Segment): (c: PathCommand)
    ensures c.MoveToCmd? <==> seg.MoveTo?
    ensures c.LineToCmd? <==> seg.LineTo?
    ensures c.Curve3? <==> seg.QuadTo?
    ensures c.Curve4? <==> seg.CubicTo?
    ensures c.ClosePolygon? <==> seg.Close?
  {
    match seg
    case MoveTo(x, y) => MoveToCmd(x, y)
    case LineTo(x, y) => LineToCmd(x, y)
    case QuadTo(cx, cy, x, y) => Curve3(cx, cy, x, y)
    case CubicTo(c1x, c1y, c2x, c2y, x, y) => Curve4(c1x, c1y, c2x, c2y, x, y)
    case Close => ClosePolygon
  }

  /** The segment a command was made from. */
  function SegmentOf(c: PathCommand): Segment {
    match c
    case MoveToCmd(x, y) => MoveTo(x, y)
    case LineToCmd(x, y) => LineTo(x, y)
    case Curve3(cx, cy, x, y) => QuadTo(cx, cy, x, y)
    case Curve4(c1x, c1y, c2x, c2y, x, y) => CubicTo(c1x, c1y, c2x, c2y, x, y)
    case ClosePolygon => Close
  }

  /** The commands appended for a path, one per segment, in iteration order. */
  function Translated(path: seq<Segment>): (cmds: seq<PathCommand>)
    ensures |cmds| == |path|
  {
    if path == [] then [] else Translated(path[..|path| - 1]) + [CommandOf(path[|path| - 1])]
  }

  function Untranslated(cmds: seq<PathCommand>): (path: seq<Segment>)
    ensures |path| == |cmds|
  {
    if cmds == [] then [] else Untranslated(cmds[..|cmds| - 1]) + [SegmentOf(cmds[|cmds| - 1])]
  }

  /** Command i is the command of segment i. */
  lemma {:induction false} TranslatedAt(path: seq<Segment>, i: nat)
    requires i < |path|
    ensures Translated(path)[i] == CommandOf(path[i])
    decreases |path|
  {
    if i < |path| - 1 {
      TranslatedAt(path[..|path| - 1], i);
    }
  }

  /** The translation loses nothing: the path can be read back from the commands. */
  lemma {:induction false} TranslationRoundTrip(path: seq<Segment>)
    ensures Untranslated(Translated(path)) == path
    decreases |path|
  {
    if path != [] {
      var init := path[..|path| - 1];
      TranslationRoundTrip(init);
      var cmds := Translated(path);
      assert cmds[..|cmds| - 1] == Translated(init);
      assert path == init + [path[|path| - 1]];
    }
  }

  /** The loop over the path iterator in draw: one path_storage call per segment. */
  method TranslatePath(path: seq<Segment>) returns (cmds: seq<PathCommand>)
    ensures cmds == Translated(path)
    ensures forall i :: 0 <= i < |path| ==> cmds[i] == CommandOf(path[i])
  {
    cmds := [];
    var i := 0;
    while i < |path|
      invariant 0 <= i <= |path|
      invariant cmds == Translated(path[..i])
    {
      var c := CommandOf(path[i]);
      assert path[..i + 1][..i] == path[..i];
      cmds := cmds + [c];
      i := i + 1;
    }
    assert path[..i] == path;
    forall j | 0 <= j < |path|
      ensures cmds[j] == CommandOf(path[j])
    {
      TranslatedAt(path, j);
    }
  }

  // ---------------------------------------------------------------------------
  // Dash array

  /** std::accumulate over the dash array, starting from 0. */
  function Sum(s: seq<real>): (r: real)
    ensures (forall i :: 0 <= i < |s| ==> s[i] >= 0.0) ==> r >= 0.0
    ensures (forall i :: 0 <= i < |s| ==> s[i] == 0.0) ==> r == 0.0
  {
    if s == [] then 0.0 else Sum(s[..|s| - 1]) + s[|s| - 1]
  }

  /** A dash array of non-negative lengths sums to non-zero exactly when some length is positive. */
  lemma {:induction false} SumNonNegative(s: seq<real>)
    requires forall i :: 0 <= i < |s| ==> s[i] >= 0.0
    ensures Sum(s) >= 0.0
    ensures Sum(s) != 0.0 <==> exists i :: 0 <= i < |s| && s[i] > 0.0
    decreases |s|
  {
    if s != [] {
      var init := s[..|s| - 1];
      SumNonNegative(init);
      if Sum(s) != 0.0 {
        if Sum(init) != 0.0 {
          var i :| 0 <= i < |init| && init[i] > 0.0;
          assert s[i] > 0.0;
        } else {
          assert s[|s| - 1] > 0.0;
        }
      } else {
        forall i | 0 <= i < |s|
          ensures s[i] <= 0.0
        {
          if i < |init| {
            assert init[i] == s[i];
          }
        }
      }
    }
  }

  datatype DashPair = DashPair(dash: real, gap: real)

  /** The number of add_dash calls: n / 2 for an even n, n for an odd n (the array is used twice). */
  function PairCount(n: nat): nat {
    if n % 2 == 0 then n / 2 else n
  }

  /** Pair j takes the lengths at 2j and 2j + 1, wrapping around the dash array. */
  function DashPairs(dashes: seq<real>): (pairs: seq<DashPair>)
    ensures |pairs| == PairCount(|dashes|)
  {
    var n := |dashes|;
    seq(PairCount(n), j requires 0 <= j < PairCount(n) => DashPair(dashes[(2 * j) % n], dashes[(2 * j + 1) % n]))
  }

  /** The on/off lengths of a list of pairs, in order. */
  function Lengths(pairs: seq<DashPair>): (r: seq<real>)
    ensures |r| == 2 * |pairs|
  {
    if pairs == [] then [] else Lengths(pairs[..|pairs| - 1]) + [pairs[|pairs| - 1].dash, pairs[|pairs| - 1].gap]
  }

  lemma {:induction false} LengthsAt(pairs: seq<DashPair>, j: nat)
    requires j < |pairs|
    ensures Lengths(pairs)[2 * j] == pairs[j].dash
    ensures Lengths(pairs)[2 * j + 1] == pairs[j].gap
    decreases |pairs|
  {
    if j < |pairs| - 1 {
      LengthsAt(pairs[..|pairs| - 1], j);
    }
  }

  /** Length i of the pattern handed to AGG is dash i of the array, taken modulo its length. */
  lemma DashPairsLengthsAt(dashes: seq<real>, i: nat)
    requires i < 2 * PairCount(|dashes|)
    ensures Lengths(DashPairs(dashes))[i] == dashes[i % |dashes|]
  {
    var pairs := DashPairs(dashes);
    var j := i / 2;
    LengthsAt(pairs, j);
    assert i == 2 * j || i == 2 * j + 1;
  }

  /**
   * The dash pattern handed to AGG: an even-length array as it is, an odd-length
   * array repeated twice, so that dashes and gaps keep alternating.
   */
  lemma DashPatternDoubled(dashes: seq<real>)
    ensures Lengths(DashPairs(dashes)) == if |dashes| % 2 == 0 then dashes else dashes + dashes
  {
    var n := |dashes|;
    var l := Lengths(DashPairs(dashes));
    var want := if n % 2 == 0 then dashes else dashes + dashes;
    assert |l| == |want|;
    forall i | 0 <= i < |l|
      ensures l[i] == want[i]
    {
      DashPairsLengthsAt(dashes, i);
      if i < n {
        DivModUnique(i, n, 0, i);
      } else {
        DivModUnique(i, n, 1, i - n);
      }
    }
  }

  /** The for loop of add_dash calls in draw. */
  method BuildDashPairs(dashes: seq<real>) returns (pairs: seq<DashPair>)
    ensures pairs == DashPairs(dashes)
    ensures |pairs| == if |dashes| % 2 == 0 then |dashes| / 2 else |dashes|
  {
    var n := |dashes|;
    var numDash := if n % 2 == 0 then n else n * 2;
    assert numDash == 2 * PairCount(n);
    pairs := [];
    var i := 0;
    while i < numDash
      invariant i == 2 * |pairs| && |pairs| <= PairCount(n)
      invariant forall j :: 0 <= j < |pairs| ==> pairs[j] == DashPair(dashes[(2 * j) % n], dashes[(2 * j + 1) % n])
    {
      pairs := pairs + [DashPair(dashes[i % n], dashes[(i + 1) % n])];
      i := i + 2;
    }
  }

  // ---------------------------------------------------------------------------
  // Passes

  /**
   * conv_curve over the path storage. Its approximation scale is AGG's
   * trans_affine::scale() of `matrix`, which is also the transform applied last.
   */
  datatype CurveStage = CurveStage(commands: seq<PathCommand>, matrix: Transform, angleTolerance: real)

  /** conv_dash: the add_dash calls and dash_start. */
  datatype DashStage = DashStage(pairs: seq<DashPair>, start: real)

  /** conv_stroke parameters. */
  datatype StrokeStage = StrokeStage(width: real, cap: AggLineCap, join: AggLineJoin, miterLimit: real)

  /** One reset / filling_rule / add_path / render_scanlines cycle of the rasterizer. */
  datatype Pass =
    | FillPass(rule: FillingRule, curve: CurveStage, paint: Paint)
    | StrokePass(rule: FillingRule, curve: CurveStage, dash: Option<DashStage>, stroke: StrokeStage, paint: Paint)

  /** The dash stage: present exactly when the dash lengths do not sum to zero. */
  function DashStageOf(sd: StrokeData): (ds: Option<DashStage>)
    ensures ds.Some? <==> Sum(sd.dash) != 0.0
    ensures ds.Some? ==> ds.value == DashStage(DashPairs(sd.dash), sd.dashOffset)
  {
    if Sum(sd.dash) != 0.0 then Some(DashStage(DashPairs(sd.dash), sd.dashOffset)) else None
  }

  /** The width, line_cap, line_join and miter_limit calls on conv_stroke, dashed or not. */
  function StrokeStageOf(sd: StrokeData): (st: StrokeStage)
    ensures st.width == sd.width && st.miterLimit == sd.miterLimit
    ensures st.cap == ToAggLineCap(sd.cap) && st.join == ToAggLineJoin(sd.join)
  {
    StrokeStage(sd.width, ToAggLineCap(sd.cap), ToAggLineJoin(sd.join), sd.miterLimit)
  }

  /**
   * The passes draw runs: none when both paints are none; otherwise a fill pass
   * with the requested rule when there is a fill paint, then a stroke pass, always
   * non-zero, when there is a stroke paint. Both passes work on the same
   * translated path, flattened with angle tolerance 0 and transformed by `matrix`.
   */
  function DrawPlan(path: seq<Segment>, matrix: Transform, fillRule: WindRule,
                    fill: Paint, stroke: Paint, sd: StrokeData): (plan: seq<Pass>)
    ensures |plan| == 0 <==> fill.NoPaint? && stroke.NoPaint?
    ensures |plan| == (if fill.NoPaint? then 0 else 1) + (if stroke.NoPaint? then 0 else 1)
    ensures forall i :: 0 <= i < |plan| ==> (plan[i].FillPass? <==> i == 0 && !fill.NoPaint?)
    ensures forall i :: 0 <= i < |plan| ==> plan[i].curve == CurveStage(Translated(path), matrix, 0.0)
    ensures forall i :: 0 <= i < |plan| && plan[i].FillPass? ==>
              plan[i].rule == ToAggFillRule(fillRule) && plan[i].paint == fill
    ensures forall i :: 0 <= i < |plan| && plan[i].StrokePass? ==>
              plan[i].rule == FillNonZero && plan[i].paint == stroke &&
              (plan[i].dash.Some? <==> Sum(sd.dash) != 0.0) &&
              (plan[i].dash.Some? ==> plan[i].dash.value == DashStage(DashPairs(sd.dash), sd.dashOffset)) &&
              plan[i].stroke == StrokeStage(sd.width, ToAggLineCap(sd.cap), ToAggLineJoin(sd.join), sd.miterLimit)
  {
    if fill.NoPaint? && stroke.NoPaint? then
      []
    else
      var curve := CurveStage(Translated(path), matrix, 0.0);
      (if fill.NoPaint? then [] else [FillPass(ToAggFillRule(fillRule), curve, fill)]) +
      (if stroke.NoPaint? then [] else [StrokePass(FillNonZero, curve, DashStageOf(sd), StrokeStageOf(sd), stroke)])
  }

  /** The passes without fill passes. */
  function StrokePasses(plan: seq<Pass>): (r: seq<Pass>)
    ensures forall p :: p in r ==> p in plan && p.StrokePass?
  {
    if plan == [] then []
    else StrokePasses(plan[..|plan| - 1]) + (if plan[|plan| - 1].StrokePass? then [plan[|plan| - 1]] else [])
  }

  /** The fill rule has no influence on the stroke: it changes only the fill pass. */
  lemma StrokeIndependentOfFillRule(path: seq<Segment>, matrix: Transform, r1: WindRule, r2: WindRule,
                                    fill: Paint, stroke: Paint, sd: StrokeData)
    ensures StrokePasses(DrawPlan(path, matrix, r1, fill, stroke, sd))
         == StrokePasses(DrawPlan(path, matrix, r2, fill, stroke, sd))
  {
    var p1 := DrawPlan(path, matrix, r1, fill, stroke, sd);
    var p2 := DrawPlan(path, matrix, r2, fill, stroke, sd);
    if |p1| == 2 {
      assert p1[..1][..0] == [] && p2[..1][..0] == [];
      assert p1[..1] == [p1[0]] && p2[..1] == [p2[0]];
    } else if |p1| == 1 {
      assert p1[..0] == [] && p2[..0] == [];
    }
  }

  /** With non-negative dash lengths (as SVG requires), the stroke is dashed iff some length is positive. */
  lemma DashedIffSomePositive(sd: StrokeData)
    requires forall i :: 0 <= i < |sd.dash| ==> sd.dash[i] >= 0.0
    ensures DashStageOf(sd).Some? <==> exists i :: 0 <= i < |sd.dash| && sd.dash[i] > 0.0
  {
    SumNonNegative(sd.dash);
  }
}
