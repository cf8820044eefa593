/**
 * The enumerations of the canvas interface, their AGG counterparts, and the
 * conversions between them (to_agg_fill_rule, to_agg_line_cap, to_agg_line_join,
 * to_agg_comp_op). Each conversion tests for one or two values and sends every
 * other value to a default.
 */
module Mappings {

  datatype WindRule = WindRuleNonZero | WindRuleEvenOdd
  datatype LineCap = LineCapButt | LineCapRound | LineCapSquare
  datatype LineJoin = LineJoinMiter | LineJoinRound | LineJoinBevel
  datatype BlendMode = BlendModeSrcOver | BlendModeDstIn

  /** agg::filling_rule_e */
  datatype FillingRule = FillNonZero | FillEvenOdd
  /** agg::line_cap_e */
  datatype AggLineCap = ButtCap | RoundCap | SquareCap
  /** agg::line_join_e, the values the canvas uses */
  datatype AggLineJoin = MiterJoin | RoundJoin | BevelJoin
  /** agg::comp_op_e, the values the canvas uses */
  datatype CompOp = CompSrcOver | CompDstIn

  /** Non-zero winding stays non-zero; every other rule becomes even-odd. */
  function ToAggFillRule(rule: WindRule): (f: FillingRule)
    ensures f == FillNonZero <==> rule == WindRuleNonZero
    ensures f == FillEvenOdd <==> rule != WindRuleNonZero
  {
    if rule == WindRuleNonZero then FillNonZero else FillEvenOdd
  }

  /** Butt and round caps are kept; every other cap becomes square. */
  function ToAggLineCap(cap: LineCap): (c: AggLineCap)
    ensures c == ButtCap <==> cap == LineCapButt
    ensures c == RoundCap <==> cap == LineCapRound
    ensures c == SquareCap <==> cap != LineCapButt && cap != LineCapRound
  {
    if cap == LineCapButt then ButtCap
    else if cap == LineCapRound then RoundCap
    else SquareCap
  }

  /** Bevel and miter joins are kept; every other join becomes round. */
  function ToAggLineJoin(join: LineJoin): (j: AggLineJoin)
    ensures j == BevelJoin <==> join == LineJoinBevel
    ensures j == MiterJoin <==> join == LineJoinMiter
    ensures j == RoundJoin <==> join != LineJoinBevel && join != LineJoinMiter
  {
    if join == LineJoinBevel then BevelJoin
    else if join == LineJoinMiter then MiterJoin
    else RoundJoin
  }

  /** Destination-in is kept; every other mode composes source-over. */
  function ToAggCompOp(mode: BlendMode): (op: CompOp)
    ensures op == CompDstIn <==> mode == BlendModeDstIn
    ensures op == CompSrcOver <==> mode != BlendModeDstIn
  {
    if mode == BlendModeDstIn then CompDstIn else CompSrcOver
  }

  /** Each conversion loses nothing: distinct interface values stay distinct. */
  lemma MappingsInjective(r1: WindRule, r2: WindRule, c1: LineCap, c2: LineCap,
                          j1: LineJoin, j2: LineJoin, m1: BlendMode, m2: BlendMode)
    ensures ToAggFillRule(r1) == ToAggFillRule(r2) ==> r1 == r2
    ensures ToAggLineCap(c1) == ToAggLineCap(c2) ==> c1 == c2
    ensures ToAggLineJoin(j1) == ToAggLineJoin(j2) ==> j1 == j2
    ensures ToAggCompOp(m1) == ToAggCompOp(m2) ==> m1 == m2
  {
  }
}
