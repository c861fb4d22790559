/**
 * The per-element numerics of the CESE method: the flux and CFL formulas of a
 * solution element (Selm) and the two solution-update formulas of a
 * conservation element (Celm), for each equation kernel.
 *
 * The formulas are stated on values: a Sample carries what a solution
 * element reads from the grid and the field (its coordinate, its two
 * neighbouring coordinates and the solution and its gradient of one
 * variable).
 */
module Kernels {
  import opened SpaceTimeMath

  /**
   * Which element classes a solver is instantiated with:
   * Plain is the base Celm/Selm pair (all fluxes and updates zero),
   * LinearScalar solves u_t + u_x = 0 and InviscidBurgers u_t + (u^2/2)_x = 0.
   */
  datatype Kernel = Plain | LinearScalar | InviscidBurgers

  /** What a solution element reads for one variable. */
  datatype Sample = Sample(x: real, xneg: real, xpos: real, so0: real, so1: real)
  {
    /** Distance to the left neighbour coordinate. */
    function DxNeg(): real { x - xneg }

    /** Distance to the right neighbour coordinate. */
    function DxPos(): real { xpos - x }

    /** Width between the two neighbours. */
    function Dx(): real { xpos - xneg }

    /** Centre of a solution element: midway between its neighbours. */
    function Xctr(): real { (xneg + xpos) / 2.0 }

    /** The neighbours lie on either side: what a valid grid guarantees. */
    predicate Ordered() { xneg < x < xpos }
  }

  function Min(a: real, b: real): real
  {
    if a <= b then a else b
  }

  function Abs(a: real): real
  {
    if a < 0.0 then -a else a
  }

  /** The point flux f(u) of each equation. */
  function PointFlux(k: Kernel, u: real): real
  {
    match k
    case Plain => 0.0
    case LinearScalar => u
    case InviscidBurgers => 0.5 * u * u
  }

  /** Flux through the negative half of the element's x-plane (xn). */
  function Xn(k: Kernel, s: Sample): (r: real)
    ensures k == Plain ==> r == 0.0
    ensures k != Plain && s.so1 == 0.0 ==> r == s.DxNeg() * s.so0
  {
    if k == Plain then 0.0
    else s.DxNeg() * (s.so0 + (0.5 * (s.x + s.xneg) - s.Xctr()) * s.so1)
  }

  /** Flux through the positive half of the element's x-plane (xp). */
  function Xp(k: Kernel, s: Sample): (r: real)
    ensures k == Plain ==> r == 0.0
    ensures k != Plain && s.so1 == 0.0 ==> r == s.DxPos() * s.so0
  {
    if k == Plain then 0.0
    else s.DxPos() * (s.so0 + (0.5 * (s.x + s.xpos) - s.Xctr()) * s.so1)
  }

  /** Sum of the terms in the time-direction flux that do not move with time. */
  function TFluxBase(k: Kernel, s: Sample): real
  {
    match k
    case Plain => 0.0
    case LinearScalar => s.so0 + (s.x - s.Xctr()) * s.so1
    case InviscidBurgers => 0.5 * (s.so0 * s.so0) + (s.x - s.Xctr()) * s.so0 * s.so1
  }

  /** The time-displacement term: f_u * u_x, that is so1 for the linear equation and u^2 so1 as the Burgers kernel writes it. */
  function TFluxShift(k: Kernel, s: Sample): real
  {
    match k
    case Plain => 0.0
    case LinearScalar => s.so1
    case InviscidBurgers => (s.so0 * s.so0) * s.so1
  }

  /** Flux through the backward half of the element's t-plane (tn). */
  function Tn(k: Kernel, s: Sample, hdt: real, qdt: real): (r: real)
    ensures k == Plain ==> r == 0.0
    ensures s.so1 == 0.0 ==> r == hdt * PointFlux(k, s.so0)
  {
    hdt * (TFluxBase(k, s) + qdt * TFluxShift(k, s))
  }

  /** Flux through the forward half of the element's t-plane (tp). */
  function Tp(k: Kernel, s: Sample, hdt: real, qdt: real): (r: real)
    ensures k == Plain ==> r == 0.0
    ensures s.so1 == 0.0 ==> r == hdt * PointFlux(k, s.so0)
  {
    hdt * (TFluxBase(k, s) - qdt * TFluxShift(k, s))
  }

  /** The two time fluxes differ by the time-displacement term only, taken over a whole dt = 4 qdt: tn - tp = 2 hdt qdt times the shift. */
  lemma TnMinusTp(k: Kernel, s: Sample, hdt: real, qdt: real)
    ensures Tn(k, s, hdt, qdt) - Tp(k, s, hdt, qdt) == 2.0 * hdt * (qdt * TFluxShift(k, s))
    ensures k == LinearScalar ==> TFluxShift(k, s) == s.so1
  {
    ScaledDifference(hdt, TFluxBase(k, s), qdt * TFluxShift(k, s));
  }

  /** Serves TnMinusTp: h (b + d) - h (b - d) = 2 h d. */
  lemma ScaledDifference(h: real, b: real, d: real)
    ensures h * (b + d) - h * (b - d) == 2.0 * h * d
  {
  }

  /** Value at the future tip of the element (so0p): the Taylor expansion to the element's centre and half a step ahead. */
  function So0p(k: Kernel, s: Sample, hdt: real): (r: real)
    ensures k == Plain || s.so1 == 0.0 ==> r == s.so0
  {
    if k == Plain then s.so0
    else s.so0 + (s.x - s.Xctr()) * s.so1 - hdt * s.so1
  }

  /** The CFL number each kernel stores in update_cfl; Burgers uses the first variable's value as the wave speed. */
  function Cfl(k: Kernel, s: Sample, hdt: real): (r: real)
    requires s.Ordered()
    ensures k == Plain ==> r == 0.0
    ensures k == LinearScalar ==> r * Min(s.DxNeg(), s.DxPos()) == hdt
    ensures k == InviscidBurgers ==> r * Min(s.DxNeg(), s.DxPos()) == Abs(s.so0) * hdt
    ensures hdt >= 0.0 ==> r >= 0.0
  {
    var hdx := Min(s.DxNeg(), s.DxPos());
    match k
    case Plain => 0.0
    case LinearScalar => hdt / hdx
    case InviscidBurgers => Abs(s.so0) * hdt / hdx
  }

  /** The Burgers CFL number is the linear one scaled by the wave speed |u|: it vanishes where u does. */
  lemma BurgersCflScales(s: Sample, hdt: real)
    requires s.Ordered()
    ensures Cfl(InviscidBurgers, s, hdt) == Abs(s.so0) * Cfl(LinearScalar, s, hdt)
    ensures s.so0 == 0.0 ==> Cfl(InviscidBurgers, s, hdt) == 0.0
  {
    var hdx := Min(s.DxNeg(), s.DxPos());
    assert Abs(s.so0) * hdt / hdx == Abs(s.so0) * (hdt / hdx);
  }

  /**
   * calc_so0 of a conservation element: the new solution at the top solution
   * element (tp) balances the fluxes into the element from its lower-left
   * (xn) and lower-right (xp) solution elements, divided by the top element's
   * width tpDx.
   */
  function CalcSo0(k: Kernel, xn: Sample, xp: Sample, tpDx: real, hdt: real, qdt: real): (r: real)
    requires tpDx > 0.0
    ensures k == Plain ==> r == 0.0
  {
    if k == Plain then 0.0
    else
      var fluxLl := Xp(k, xn) + Tp(k, xn, hdt, qdt);
      var fluxUr := Xn(k, xp) - Tp(k, xp, hdt, qdt);
      (fluxLl + fluxUr) / tpDx
  }

  /**
   * A uniform state is steady: when both lower solution elements hold the same
   * value u with zero gradient, meet at one point, and the top element spans
   * from one to the other, calc_so0 returns u again (the two time fluxes cancel).
   */
  lemma CalcSo0Steady(k: Kernel, xn: Sample, xp: Sample, tpDx: real, hdt: real, qdt: real, u: real)
    requires k != Plain
    requires tpDx > 0.0
    requires xn.so0 == u && xp.so0 == u && xn.so1 == 0.0 && xp.so1 == 0.0
    requires xn.xpos == xp.xneg && tpDx == xp.x - xn.x
    ensures CalcSo0(k, xn, xp, tpDx, hdt, qdt) == u
  {
    var a := xn.DxPos();
    var b := xp.DxNeg();
    assert a + b == tpDx;
    var f := hdt * PointFlux(k, u);
    assert Xp(k, xn) + Tp(k, xn, hdt, qdt) + (Xn(k, xp) - Tp(k, xp, hdt, qdt)) == a * u + b * u;
    assert a * u + b * u == tpDx * u;
  }

  /** The weight pow<ALPHA>(fabs(slope)) that calc_so1_alpha gives the opposite side. */
  function Weight(slope: real, alpha: nat): (w: real)
    ensures w >= 0.0
  {
    Pow(Abs(slope), alpha)
  }

  /** Cross-weighted mean of two slopes: each slope is weighted by the other side's weight; tiny > 0 keeps the denominator positive. */
  function WeightedMean(wn: real, wp: real, duxn: real, duxp: real, tiny: real): real
    requires wn >= 0.0 && wp >= 0.0 && tiny > 0.0
  {
    (wp * duxn + wn * duxp) / (wp + wn + tiny)
  }

  /** The alpha-weighted blend of the two one-sided slopes. */
  function AlphaBlend(alpha: nat, duxn: real, duxp: real, tiny: real): real
    requires tiny > 0.0
  {
    WeightedMean(Weight(duxn, alpha), Weight(duxp, alpha), duxn, duxp, tiny)
  }

  /** The blend does not depend on which side is called negative. */
  lemma AlphaBlendSymmetric(alpha: nat, duxn: real, duxp: real, tiny: real)
    requires tiny > 0.0
    ensures AlphaBlend(alpha, duxn, duxp, tiny) == AlphaBlend(alpha, duxp, duxn, tiny)
  {
    var wn := Weight(duxn, alpha);
    var wp := Weight(duxp, alpha);
    assert wp * duxn + wn * duxp == wn * duxp + wp * duxn;
  }

  /** Serves WeightedMeanBounded (and so AlphaBlendBounded): a numerator bounded by its positive denominator times m gives a quotient bounded by m. */
  lemma QuotientBound(num: real, den: real, m: real)
    requires den > 0.0 && -(den * m) <= num <= den * m
    ensures -m <= num / den <= m
  {
  }

  /** Serves WeightedMeanBounded and WeightedMeanSign: each weighted term stays within its weight times m. */
  lemma ProductBound(w: real, a: real, m: real)
    requires w >= 0.0 && -m <= a <= m
    ensures -(w * m) <= w * a <= w * m
  {
  }

  /** Serves WeightedMeanBounded: distributing m over the denominator. */
  lemma Distribute(wn: real, wp: real, d: real, m: real)
    ensures (wp + wn + d) * m == wp * m + wn * m + d * m
  {
  }

  /** Serves WeightedMeanBounded: two bounded terms sum within the sum of their bounds and any non-negative slack. */
  lemma SumBound(pa: real, pb: real, ma: real, mb: real, slack: real, total: real)
    requires -ma <= pa <= ma && -mb <= pb <= mb && slack >= 0.0
    requires total == ma + mb + slack
    ensures -total <= pa + pb <= total
  {
  }

  /** With weights wn, wp >= 0 and tiny > 0, the weighted mean lies between -m and m. */
  lemma WeightedMeanBounded(wn: real, wp: real, a: real, b: real, tiny: real, m: real)
    requires wn >= 0.0 && wp >= 0.0 && tiny > 0.0
    requires -m <= a <= m && -m <= b <= m
    ensures -m <= WeightedMean(wn, wp, a, b, tiny) <= m
  {
    ProductBound(wp, a, m);
    ProductBound(wn, b, m);
    ProductBound(tiny, m, m);
    Distribute(wn, wp, tiny, m);
    SumBound(wp * a, wn * b, wp * m, wn * m, tiny * m, (wp + wn + tiny) * m);
    QuotientBound(wp * a + wn * b, wp + wn + tiny, m);
  }

  /** The blended slope never exceeds the steeper of the two one-sided slopes in magnitude. */
  lemma AlphaBlendBounded(alpha: nat, duxn: real, duxp: real, tiny: real)
    requires tiny > 0.0
    ensures Abs(AlphaBlend(alpha, duxn, duxp, tiny)) <= (if Abs(duxn) >= Abs(duxp) then Abs(duxn) else Abs(duxp))
  {
    var m := if Abs(duxn) >= Abs(duxp) then Abs(duxn) else Abs(duxp);
    WeightedMeanBounded(Weight(duxn, alpha), Weight(duxp, alpha), duxn, duxp, tiny, m);
  }

  /** Serves AlphaBlendSameSign: with non-negative weights, slopes of one sign blend to that sign. */
  lemma WeightedMeanSign(wn: real, wp: real, a: real, b: real, tiny: real)
    requires wn >= 0.0 && wp >= 0.0 && tiny > 0.0
    ensures a >= 0.0 && b >= 0.0 ==> WeightedMean(wn, wp, a, b, tiny) >= 0.0
    ensures a <= 0.0 && b <= 0.0 ==> WeightedMean(wn, wp, a, b, tiny) <= 0.0
  {
    if a >= 0.0 && b >= 0.0 {
      ProductBound(wp, a, a);
      ProductBound(wn, b, b);
    }
    if a <= 0.0 && b <= 0.0 {
      ProductBound(wp, a, -a);
      ProductBound(wn, b, -b);
    }
  }

  /** Monotone data give a monotone slope: slopes of one sign blend to that sign. */
  lemma AlphaBlendSameSign(alpha: nat, duxn: real, duxp: real, tiny: real)
    requires tiny > 0.0
    ensures duxn >= 0.0 && duxp >= 0.0 ==> AlphaBlend(alpha, duxn, duxp, tiny) >= 0.0
    ensures duxn <= 0.0 && duxp <= 0.0 ==> AlphaBlend(alpha, duxn, duxp, tiny) <= 0.0
  {
    WeightedMeanSign(Weight(duxn, alpha), Weight(duxp, alpha), duxn, duxp, tiny);
  }

  /** Serves AlphaBlendFlatSide and CalcSo1AlphaFlat: when each slope or the weight it is multiplied by is zero, the numerator and the mean vanish. */
  lemma WeightedMeanZero(wn: real, wp: real, a: real, b: real, tiny: real)
    requires wn >= 0.0 && wp >= 0.0 && tiny > 0.0
    requires (a == 0.0 || wp == 0.0) && (b == 0.0 || wn == 0.0)
    ensures WeightedMean(wn, wp, a, b, tiny) == 0.0
  {
  }

  /** The limiter at an extremum: for alpha >= 1, a flat side (zero slope) forces a flat blended slope. */
  lemma AlphaBlendFlatSide(alpha: nat, duxn: real, duxp: real, tiny: real)
    requires tiny > 0.0 && alpha >= 1
    requires duxn == 0.0 || duxp == 0.0
    ensures AlphaBlend(alpha, duxn, duxp, tiny) == 0.0
  {
    PowZeroBase(alpha);
    assert Abs(0.0) == 0.0;
    WeightedMeanZero(Weight(duxn, alpha), Weight(duxp, alpha), duxn, duxp, tiny);
  }

  /** alpha = 0 weighs both sides equally: the blend is the plain average, damped by tiny. */
  lemma AlphaBlendZeroAlpha(duxn: real, duxp: real, tiny: real)
    requires tiny > 0.0
    ensures AlphaBlend(0, duxn, duxp, tiny) == (duxn + duxp) / (2.0 + tiny)
  {
  }

  /**
   * calc_so1_alpha of a conservation element: two one-sided slopes between the
   * new top value utp and the lower elements' projected tips (so0p), blended
   * by AlphaBlend.
   */
  function CalcSo1Alpha(k: Kernel, alpha: nat, xn: Sample, xp: Sample, utp: real, hdt: real, tiny: real): (r: real)
    requires xn.Ordered() && xp.Ordered() && tiny > 0.0
    ensures k == Plain ==> r == 0.0
  {
    if k == Plain then 0.0
    else
      var duxn := (utp - So0p(k, xn, hdt)) / xn.DxPos();
      var duxp := (So0p(k, xp, hdt) - utp) / xp.DxNeg();
      AlphaBlend(alpha, duxn, duxp, tiny)
  }

  /** A flat neighbourhood has a flat gradient: equal projected values on both sides of utp give zero. */
  lemma CalcSo1AlphaFlat(k: Kernel, alpha: nat, xn: Sample, xp: Sample, utp: real, hdt: real, tiny: real)
    requires xn.Ordered() && xp.Ordered() && tiny > 0.0
    requires So0p(k, xn, hdt) == utp && So0p(k, xp, hdt) == utp
    ensures CalcSo1Alpha(k, alpha, xn, xp, utp, hdt, tiny) == 0.0
  {
    if k != Plain {
      assert (utp - So0p(k, xn, hdt)) / xn.DxPos() == 0.0;
      assert (So0p(k, xp, hdt) - utp) / xp.DxNeg() == 0.0;
      WeightedMeanZero(Weight(0.0, alpha), Weight(0.0, alpha), 0.0, 0.0, tiny);
    }
  }

  /** The smallest positive normal double, the tiny of calc_so1_alpha. */
  const TINY: real := 2.2250738585072014e-308

  /** Serves the calls of CalcSo1Alpha and the lemmas about it (Marching.CalcSo1At, Fields.Element.CalcSo1Alpha): their tiny must be positive. */
  lemma TinyPositive()
    ensures TINY > 0.0
  {
  }
}
