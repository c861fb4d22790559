/**
 * What one call of each marching routine of SolverBase.hpp does to variable 0
 * of so0 and so1 and to the CFL array, stated as a simultaneous update of
 * whole planes.
 *
 * The routines are loops over elements that write in place; each writes cells
 * of one parity of offset and reads, apart from the cell it writes, only cells
 * of the other parity, so the loop and the simultaneous update agree.  The
 * solver's methods are proved against the functions here.
 */
module Marching {
  import opened Grids
  import opened Kernels

  /** What the march reads and never writes: the kernel, the coordinates, the grid size and the cached time values. */
  datatype Env = Env(kernel: Kernel, coords: seq<real>, ncelm: nat, hdt: real, qdt: real)
  {
    ghost predicate Valid()
    {
      ncelm >= 1 && |coords| == 2 * ncelm + 1 + 2 * BOUND_COUNT && Increasing(coords)
    }
  }

  /** Variable 0 of so0 and so1, and cfl, one entry per coordinate offset. */
  datatype Planes = Planes(so0: seq<real>, so1: seq<real>, cfl: seq<real>)

  ghost predicate Fits(env: Env, p: Planes)
  {
    env.Valid() && |p.so0| == |env.coords| && |p.so1| == |env.coords| && |p.cfl| == |env.coords|
  }

  /**
   * Offsets of the Selms a Celm loop on plane odd writes (each Celm's selm_tp
   * sits at the Celm's own offset): even offsets 2 .. 2 ncelm + 2 on the odd
   * plane, odd offsets 3 .. 2 ncelm + 1 on the even plane.
   */
  predicate CelmTarget(ncelm: int, odd: bool, o: int)
  {
    if odd then 2 <= o <= 2 * ncelm + 2 && o % 2 == 0
    else 3 <= o <= 2 * ncelm + 1 && o % 2 == 1
  }

  /** Offsets of the Selms update_cfl writes: odd 1 .. 2 ncelm + 3 on the odd plane, even 2 .. 2 ncelm + 2 on the even plane. */
  predicate SelmTarget(ncelm: int, odd: bool, o: int)
  {
    if odd then 1 <= o <= 2 * ncelm + 3 && o % 2 == 1
    else 2 <= o <= 2 * ncelm + 2 && o % 2 == 0
  }

  /** The first loop index of every marching loop: -1 on the odd plane, 0 on the even one. */
  function LoopStart(odd: bool): int
  {
    if odd then -1 else 0
  }

  /** The Celm loop for ic in [start, ncelm) visits exactly the CelmTarget offsets, in increasing order. */
  lemma CelmTargetIsLoopRange(ncelm: int, odd: bool, o: int)
    ensures CelmTarget(ncelm, odd, o) <==> exists ic :: LoopStart(odd) <= ic < ncelm && XindexCelm(ic, odd) == o
  {
    if CelmTarget(ncelm, odd, o) {
      var ic := if odd then (o - 4) / 2 else (o - 3) / 2;
      assert XindexCelm(ic, odd) == o;
    }
  }

  /** The Selm loop for ic in [start, ncelm] visits exactly the SelmTarget offsets, in increasing order. */
  lemma SelmTargetIsLoopRange(ncelm: int, odd: bool, o: int)
    ensures SelmTarget(ncelm, odd, o) <==> exists ic :: LoopStart(odd) <= ic <= ncelm && XindexSelm(ic, odd) == o
  {
    if SelmTarget(ncelm, odd, o) {
      var ic := if odd then (o - 3) / 2 else (o - 2) / 2;
      assert XindexSelm(ic, odd) == o;
    }
  }

  /** What the Selm at offset o reads for variable 0. */
  function SampleAt(env: Env, p: Planes, o: int): Sample
    requires Fits(env, p) && 1 <= o < |env.coords| - 1
  {
    Sample(env.coords[o], env.coords[o - 1], env.coords[o + 1], p.so0[o], p.so1[o])
  }

  lemma SampleOrdered(env: Env, p: Planes, o: int)
    requires Fits(env, p) && 1 <= o < |env.coords| - 1
    ensures SampleAt(env, p, o).Ordered()
  {
  }

  /** calc_so0(0) of the Celm at offset o. */
  function CalcSo0At(env: Env, p: Planes, o: int): real
    requires Fits(env, p) && 2 <= o < |env.coords| - 2
  {
    IncreasingPairwise(env.coords, o - 1, o + 1);
    CalcSo0(env.kernel, SampleAt(env, p, o - 1), SampleAt(env, p, o + 1),
      env.coords[o + 1] - env.coords[o - 1], env.hdt, env.qdt)
  }

  /** calc_so1_alpha(0) of the Celm at offset o. */
  function CalcSo1At(env: Env, p: Planes, alpha: nat, o: int): real
    requires Fits(env, p) && 2 <= o < |env.coords| - 2
  {
    SampleOrdered(env, p, o - 1);
    SampleOrdered(env, p, o + 1);
    TinyPositive();
    CalcSo1Alpha(env.kernel, alpha, SampleAt(env, p, o - 1), SampleAt(env, p, o + 1), p.so0[o], env.hdt, TINY)
  }

  /** update_cfl of the Selm at offset o (the Burgers kernel reads so0 of variable 0). */
  function CflAt(env: Env, p: Planes, o: int): real
    requires Fits(env, p) && 1 <= o < |env.coords| - 1
  {
    Cfl(env.kernel, Sample(env.coords[o], env.coords[o - 1], env.coords[o + 1], p.so0[o], 0.0), env.hdt)
  }

  /** The Celm targets lie where calc_so0 and calc_so1_alpha are defined. */
  lemma CelmTargetInterior(env: Env, odd: bool, o: int)
    requires env.Valid() && CelmTarget(env.ncelm, odd, o)
    ensures 2 <= o < |env.coords| - 2
  {
  }

  /**
   * so0 after the so0 loop has visited every offset below k: the Celm targets
   * there hold calc_so0 of the plane p the loop started from; every other
   * offset still holds its value in p.
   */
  function SweepSo0(env: Env, p: Planes, odd: bool, k: nat): (r: seq<real>)
    requires Fits(env, p) && k <= |p.so0|
    ensures |r| == |p.so0|
    ensures forall o {:trigger r[o]} :: 0 <= o < |r| && !CelmTarget(env.ncelm, odd, o) ==> r[o] == p.so0[o]
    decreases k
  {
    if k == 0 then p.so0
    else
      var s := SweepSo0(env, p, odd, k - 1);
      if CelmTarget(env.ncelm, odd, k - 1) then s[k - 1 := CalcSo0At(env, p, k - 1)] else s
  }

  /** The same sweep for so1 and calc_so1_alpha. */
  function SweepSo1(env: Env, p: Planes, odd: bool, alpha: nat, k: nat): (r: seq<real>)
    requires Fits(env, p) && k <= |p.so1|
    ensures |r| == |p.so1|
    ensures forall o {:trigger r[o]} :: 0 <= o < |r| && !CelmTarget(env.ncelm, odd, o) ==> r[o] == p.so1[o]
    decreases k
  {
    if k == 0 then p.so1
    else
      var s := SweepSo1(env, p, odd, alpha, k - 1);
      if CelmTarget(env.ncelm, odd, k - 1) then s[k - 1 := CalcSo1At(env, p, alpha, k - 1)] else s
  }

  /** The same sweep for cfl over the Selm targets. */
  function SweepCfl(env: Env, p: Planes, odd: bool, k: nat): (r: seq<real>)
    requires Fits(env, p) && k <= |p.cfl|
    ensures |r| == |p.cfl|
    ensures forall o {:trigger r[o]} :: 0 <= o < |r| && !SelmTarget(env.ncelm, odd, o) ==> r[o] == p.cfl[o]
    decreases k
  {
    if k == 0 then p.cfl
    else
      var s := SweepCfl(env, p, odd, k - 1);
      if SelmTarget(env.ncelm, odd, k - 1) then s[k - 1 := CflAt(env, p, k - 1)] else s
  }

  /** A Celm target the so0 sweep has passed holds calc_so0; one it has not reached is untouched. */
  lemma {:induction false} SweepSo0At(env: Env, p: Planes, odd: bool, k: nat, o: int)
    requires Fits(env, p) && k <= |p.so0| && CelmTarget(env.ncelm, odd, o)
    ensures SweepSo0(env, p, odd, k)[o] == if o < k then CalcSo0At(env, p, o) else p.so0[o]
    decreases k
  {
    if k > 0 {
      SweepSo0At(env, p, odd, k - 1, o);
    }
  }

  /** A Celm target the so1 sweep has passed holds calc_so1_alpha; one it has not reached is untouched. */
  lemma {:induction false} SweepSo1At(env: Env, p: Planes, odd: bool, alpha: nat, k: nat, o: int)
    requires Fits(env, p) && k <= |p.so1| && CelmTarget(env.ncelm, odd, o)
    ensures SweepSo1(env, p, odd, alpha, k)[o] == if o < k then CalcSo1At(env, p, alpha, o) else p.so1[o]
    decreases k
  {
    if k > 0 {
      SweepSo1At(env, p, odd, alpha, k - 1, o);
    }
  }

  /** A Selm target the cfl sweep has passed holds its CFL number; one it has not reached is untouched. */
  lemma {:induction false} SweepCflAt(env: Env, p: Planes, odd: bool, k: nat, o: int)
    requires Fits(env, p) && k <= |p.cfl| && SelmTarget(env.ncelm, odd, o)
    ensures SweepCfl(env, p, odd, k)[o] == if o < k then CflAt(env, p, o) else p.cfl[o]
    decreases k
  {
    if k > 0 {
      SweepCflAt(env, p, odd, k - 1, o);
    }
  }

  /** march_half_so0(odd): so0 swept over every offset; so1 and cfl untouched, and so0 changes only at Celm targets. */
  function HalfSo0(env: Env, p: Planes, odd: bool): (r: Planes)
    requires Fits(env, p)
    ensures Fits(env, r) && r.so1 == p.so1 && r.cfl == p.cfl
    ensures forall o {:trigger r.so0[o]} :: 0 <= o < |r.so0| && !CelmTarget(env.ncelm, odd, o) ==> r.so0[o] == p.so0[o]
  {
    p.(so0 := SweepSo0(env, p, odd, |p.so0|))
  }

  /** Every Celm target of march_half_so0 holds calc_so0 of the plane before the call. */
  lemma HalfSo0At(env: Env, p: Planes, odd: bool, o: int)
    requires Fits(env, p) && CelmTarget(env.ncelm, odd, o)
    ensures HalfSo0(env, p, odd).so0[o] == CalcSo0At(env, p, o)
  {
    SweepSo0At(env, p, odd, |p.so0|, o);
  }

  /** update_cfl(odd): cfl swept over every offset; so0 and so1 untouched, and cfl changes only at Selm targets. */
  function UpdateCfl(env: Env, p: Planes, odd: bool): (r: Planes)
    requires Fits(env, p)
    ensures Fits(env, r) && r.so0 == p.so0 && r.so1 == p.so1
    ensures forall o {:trigger r.cfl[o]} :: 0 <= o < |r.cfl| && !SelmTarget(env.ncelm, odd, o) ==> r.cfl[o] == p.cfl[o]
  {
    p.(cfl := SweepCfl(env, p, odd, |p.cfl|))
  }

  /** Every Selm target of update_cfl holds the CFL number of the plane before the call. */
  lemma UpdateCflAt(env: Env, p: Planes, odd: bool, o: int)
    requires Fits(env, p) && SelmTarget(env.ncelm, odd, o)
    ensures 1 <= o < |env.coords| - 1 && UpdateCfl(env, p, odd).cfl[o] == CflAt(env, p, o)
  {
    SweepCflAt(env, p, odd, |p.cfl|, o);
  }

  /** march_half_so1_alpha(odd): so1 swept over every offset; so0 and cfl untouched, and so1 changes only at Celm targets. */
  function HalfSo1(env: Env, p: Planes, odd: bool, alpha: nat): (r: Planes)
    requires Fits(env, p)
    ensures Fits(env, r) && r.so0 == p.so0 && r.cfl == p.cfl
    ensures forall o {:trigger r.so1[o]} :: 0 <= o < |r.so1| && !CelmTarget(env.ncelm, odd, o) ==> r.so1[o] == p.so1[o]
  {
    p.(so1 := SweepSo1(env, p, odd, alpha, |p.so1|))
  }

  /** Every Celm target of march_half_so1_alpha holds calc_so1_alpha of the plane before the call. */
  lemma HalfSo1At(env: Env, p: Planes, odd: bool, alpha: nat, o: int)
    requires Fits(env, p) && CelmTarget(env.ncelm, odd, o)
    ensures HalfSo1(env, p, odd, alpha).so1[o] == CalcSo1At(env, p, alpha, o)
  {
    SweepSo1At(env, p, odd, alpha, |p.so1|, o);
  }

  /** Offsets of the odd-plane Selms treat_boundary reads and writes: Selm(-1), Selm(0), Selm(ncelm-1), Selm(ncelm). */
  function LeftOut(env: Env): int { XindexSelm(-1, true) }
  function LeftIn(env: Env): int { XindexSelm(0, true) }
  function RightIn(env: Env): int { XindexSelm(env.ncelm - 1, true) }
  function RightOut(env: Env): int { XindexSelm(env.ncelm, true) }

  /** treat_boundary_so0: the outer odd-plane ghost on each side takes so0 from the innermost Selm of the opposite side. */
  function BoundarySo0(env: Env, p: Planes): (r: Planes)
    requires Fits(env, p)
    ensures Fits(env, r) && r.so1 == p.so1 && r.cfl == p.cfl
  {
    var s := p.so0[LeftOut(env) := p.so0[RightIn(env)]];
    p.(so0 := s[RightOut(env) := s[LeftIn(env)]])
  }

  /** treat_boundary_so1: the same periodic copy for so1. */
  function BoundarySo1(env: Env, p: Planes): (r: Planes)
    requires Fits(env, p)
    ensures Fits(env, r) && r.so0 == p.so0 && r.cfl == p.cfl
  {
    var s := p.so1[LeftOut(env) := p.so1[RightIn(env)]];
    p.(so1 := s[RightOut(env) := s[LeftIn(env)]])
  }

  /** The boundary copies write exactly the two outer ghosts, and make each equal to its periodic image. */
  lemma BoundaryPeriodic(env: Env, p: Planes)
    requires Fits(env, p)
    ensures LeftOut(env) == 1 && RightOut(env) == 2 * env.ncelm + 3
    ensures BoundarySo0(env, p).so0[1] == p.so0[2 * env.ncelm + 1]
    ensures BoundarySo0(env, p).so0[2 * env.ncelm + 3] == p.so0[3]
    ensures BoundarySo1(env, p).so1[1] == p.so1[2 * env.ncelm + 1]
    ensures BoundarySo1(env, p).so1[2 * env.ncelm + 3] == p.so1[3]
    ensures forall o :: 0 <= o < |p.so0| && o != 1 && o != 2 * env.ncelm + 3 ==>
      BoundarySo0(env, p).so0[o] == p.so0[o] && BoundarySo1(env, p).so1[o] == p.so1[o]
  {
  }

  /** setup_march: update_cfl on the even plane. */
  function SetupMarch(env: Env, p: Planes): (r: Planes)
    requires Fits(env, p)
    ensures Fits(env, r)
  {
    UpdateCfl(env, p, false)
  }

  /** march_half1_alpha: so0 even, boundary so0, cfl odd, so1 even, boundary so1. */
  function Half1(env: Env, p: Planes, alpha: nat): (r: Planes)
    requires Fits(env, p)
    ensures Fits(env, r)
  {
    var p1 := HalfSo0(env, p, false);
    var p2 := BoundarySo0(env, p1);
    var p3 := UpdateCfl(env, p2, true);
    var p4 := HalfSo1(env, p3, false, alpha);
    BoundarySo1(env, p4)
  }

  /** march_half2_alpha: so0 odd, cfl even, so1 odd, and no boundary treatment. */
  function Half2(env: Env, p: Planes, alpha: nat): (r: Planes)
    requires Fits(env, p)
    ensures Fits(env, r)
  {
    var p1 := HalfSo0(env, p, true);
    var p2 := UpdateCfl(env, p1, false);
    HalfSo1(env, p2, true, alpha)
  }

  /** One iteration of march_alpha: both half steps. */
  function Step(env: Env, p: Planes, alpha: nat): (r: Planes)
    requires Fits(env, p)
    ensures Fits(env, r)
  {
    Half2(env, Half1(env, p, alpha), alpha)
  }

  /** march_alpha(steps): Step applied steps times; zero steps change nothing. */
  function March(env: Env, p: Planes, alpha: nat, steps: nat): (r: Planes)
    requires Fits(env, p)
    ensures Fits(env, r)
    ensures steps == 0 ==> r == p
    decreases steps
  {
    if steps == 0 then p else Step(env, March(env, p, alpha, steps - 1), alpha)
  }

  /** After the first half step the odd-plane ghosts are periodic images of the interior, for so0 and so1 alike. */
  lemma Half1Periodic(env: Env, p: Planes, alpha: nat)
    requires Fits(env, p)
    ensures var r := Half1(env, p, alpha);
      r.so0[1] == r.so0[2 * env.ncelm + 1] && r.so0[2 * env.ncelm + 3] == r.so0[3] &&
      r.so1[1] == r.so1[2 * env.ncelm + 1] && r.so1[2 * env.ncelm + 3] == r.so1[3]
  {
    var n := env.ncelm;
    var p1 := HalfSo0(env, p, false);
    var p2 := BoundarySo0(env, p1);
    var p3 := UpdateCfl(env, p2, true);
    var p4 := HalfSo1(env, p3, false, alpha);
    BoundaryPeriodic(env, p1);
    BoundaryPeriodic(env, p4);
    // the odd-plane so1 march leaves the boundary ghosts 1 and 2n+3 alone, and so0 untouched
    assert !CelmTarget(n, false, 1) && !CelmTarget(n, false, 2 * n + 3);
  }

  /** Every Selm of plane odd (ghosts included) holds u with zero gradient. */
  ghost predicate Uniform(env: Env, p: Planes, odd: bool, u: real)
  {
    forall o {:trigger SelmTarget(env.ncelm, odd, o)} :: SelmTarget(env.ncelm, odd, o) && o < |p.so0| && o < |p.so1| ==> p.so0[o] == u && p.so1[o] == 0.0
  }

  /**
   * How the target sets interlock: a Celm target's two neighbours are Selms of
   * the same plane, which the Celm loop never writes; the even-plane Selms are
   * exactly the odd-plane Celm targets; the odd-plane Selms are the even-plane
   * Celm targets plus the two outer ghosts.
   */
  lemma TargetParity(n: int, odd: bool, o: int)
    requires n >= 0
    ensures CelmTarget(n, odd, o) ==> SelmTarget(n, odd, o - 1) && SelmTarget(n, odd, o + 1)
    ensures SelmTarget(n, odd, o) ==> !CelmTarget(n, odd, o)
    ensures CelmTarget(n, true, o) <==> SelmTarget(n, false, o)
    ensures SelmTarget(n, true, o) <==> CelmTarget(n, false, o) || o == 1 || o == 2 * n + 3
  {
  }

  /** calc_so0 at a Celm whose two lower Selms hold u with zero gradient returns u. */
  lemma CalcSo0AtSteady(env: Env, p: Planes, o: int, u: real)
    requires Fits(env, p) && env.kernel != Plain && 2 <= o < |env.coords| - 2
    requires p.so0[o - 1] == u && p.so0[o + 1] == u && p.so1[o - 1] == 0.0 && p.so1[o + 1] == 0.0
    ensures CalcSo0At(env, p, o) == u
  {
    IncreasingPairwise(env.coords, o - 1, o + 1);
    CalcSo0Steady(env.kernel, SampleAt(env, p, o - 1), SampleAt(env, p, o + 1),
      env.coords[o + 1] - env.coords[o - 1], env.hdt, env.qdt, u);
  }

  /** calc_so1_alpha at a Celm whose lower Selms and top Selm all hold u with zero gradient below returns 0. */
  lemma CalcSo1AtSteady(env: Env, p: Planes, alpha: nat, o: int, u: real)
    requires Fits(env, p) && 2 <= o < |env.coords| - 2
    requires p.so0[o - 1] == u && p.so0[o + 1] == u && p.so1[o - 1] == 0.0 && p.so1[o + 1] == 0.0 && p.so0[o] == u
    ensures CalcSo1At(env, p, alpha, o) == 0.0
  {
    TinyPositive();
    CalcSo1AlphaFlat(env.kernel, alpha, SampleAt(env, p, o - 1), SampleAt(env, p, o + 1), u, env.hdt, TINY);
  }

  /** The so0 march over a uniform plane writes u into every Celm target and keeps the plane uniform. */
  lemma HalfSo0Steady(env: Env, p: Planes, odd: bool, u: real)
    requires Fits(env, p) && env.kernel != Plain && Uniform(env, p, odd, u)
    ensures Uniform(env, HalfSo0(env, p, odd), odd, u)
    ensures forall o :: CelmTarget(env.ncelm, odd, o) ==> HalfSo0(env, p, odd).so0[o] == u
  {
    var r := HalfSo0(env, p, odd);
    forall o | CelmTarget(env.ncelm, odd, o)
      ensures r.so0[o] == u
    {
      TargetParity(env.ncelm, odd, o);
      HalfSo0At(env, p, odd, o);
      CalcSo0AtSteady(env, p, o, u);
    }
    forall o | SelmTarget(env.ncelm, odd, o)
      ensures r.so0[o] == u && r.so1[o] == 0.0
    {
      TargetParity(env.ncelm, odd, o);
    }
  }

  /** The so1 march over a uniform plane whose Celm targets already hold u writes a zero gradient into every Celm target. */
  lemma HalfSo1Steady(env: Env, p: Planes, odd: bool, alpha: nat, u: real)
    requires Fits(env, p) && Uniform(env, p, odd, u)
    requires forall o :: CelmTarget(env.ncelm, odd, o) ==> p.so0[o] == u
    ensures Uniform(env, HalfSo1(env, p, odd, alpha), odd, u)
    ensures forall o :: CelmTarget(env.ncelm, odd, o) ==> HalfSo1(env, p, odd, alpha).so1[o] == 0.0
  {
    var r := HalfSo1(env, p, odd, alpha);
    forall o | CelmTarget(env.ncelm, odd, o)
      ensures r.so1[o] == 0.0
    {
      TargetParity(env.ncelm, odd, o);
      HalfSo1At(env, p, odd, alpha, o);
      CalcSo1AtSteady(env, p, alpha, o, u);
    }
    forall o | SelmTarget(env.ncelm, odd, o)
      ensures r.so0[o] == u && r.so1[o] == 0.0
    {
      TargetParity(env.ncelm, odd, o);
    }
  }

  /** The first half of march_half1_alpha (so0 and its boundary copy) leaves the even plane uniform and u on every odd-plane Selm. */
  lemma Half1So0Steady(env: Env, p: Planes, u: real)
    requires Fits(env, p) && env.kernel != Plain && Uniform(env, p, false, u)
    ensures var r := BoundarySo0(env, HalfSo0(env, p, false));
      Uniform(env, r, false, u) && forall o :: SelmTarget(env.ncelm, true, o) ==> r.so0[o] == u
  {
    var n := env.ncelm;
    var p1 := HalfSo0(env, p, false);
    HalfSo0Steady(env, p, false, u);
    var r := BoundarySo0(env, p1);
    BoundaryPeriodic(env, p1);
    forall o | SelmTarget(n, false, o)
      ensures r.so0[o] == u && r.so1[o] == 0.0
    {
    }
    forall o | SelmTarget(n, true, o)
      ensures r.so0[o] == u
    {
      TargetParity(n, false, o);
      TargetParity(n, false, 3);
      TargetParity(n, false, 2 * n + 1);
    }
  }

  /** A uniform even plane makes the first half step produce a uniform odd plane, ghosts included. */
  lemma Half1Steady(env: Env, p: Planes, alpha: nat, u: real)
    requires Fits(env, p) && env.kernel != Plain && Uniform(env, p, false, u)
    ensures Uniform(env, Half1(env, p, alpha), true, u)
  {
    var n := env.ncelm;
    var p2 := BoundarySo0(env, HalfSo0(env, p, false));
    Half1So0Steady(env, p, u);
    var p3 := UpdateCfl(env, p2, true);
    assert p3.so0 == p2.so0 && p3.so1 == p2.so1;
    assert forall o :: CelmTarget(n, false, o) ==> p3.so0[o] == u by {
      forall o | CelmTarget(n, false, o)
        ensures p3.so0[o] == u
      {
        TargetParity(n, false, o);
      }
    }
    HalfSo1Steady(env, p3, false, alpha, u);
    var p4 := HalfSo1(env, p3, false, alpha);
    var r := BoundarySo1(env, p4);
    assert r == Half1(env, p, alpha);
    BoundaryPeriodic(env, p4);
    forall o | SelmTarget(n, true, o)
      ensures r.so0[o] == u && r.so1[o] == 0.0
    {
      TargetParity(n, false, o);
      TargetParity(n, false, 3);
      TargetParity(n, false, 2 * n + 1);
    }
  }

  /** A uniform odd plane makes the second half step produce a uniform even plane. */
  lemma Half2Steady(env: Env, p: Planes, alpha: nat, u: real)
    requires Fits(env, p) && env.kernel != Plain && Uniform(env, p, true, u)
    ensures Uniform(env, Half2(env, p, alpha), false, u)
  {
    var n := env.ncelm;
    var p1 := HalfSo0(env, p, true);
    HalfSo0Steady(env, p, true, u);
    var p2 := UpdateCfl(env, p1, false);
    assert p2.so0 == p1.so0 && p2.so1 == p1.so1;
    HalfSo1Steady(env, p2, true, alpha, u);
    var r := HalfSo1(env, p2, true, alpha);
    assert r == Half2(env, p, alpha);
    forall o | SelmTarget(n, false, o)
      ensures r.so0[o] == u && r.so1[o] == 0.0
    {
      TargetParity(n, true, o);
    }
  }

  /** A uniform state is a steady solution: for either equation and every alpha, a full step keeps the even plane at u with zero gradient. */
  lemma StepSteady(env: Env, p: Planes, alpha: nat, u: real)
    requires Fits(env, p) && env.kernel != Plain && Uniform(env, p, false, u)
    ensures Uniform(env, Step(env, p, alpha), false, u)
  {
    Half1Steady(env, p, alpha, u);
    Half2Steady(env, Half1(env, p, alpha), alpha, u);
  }

  /** The uniform state stays for any number of steps. */
  lemma {:induction false} MarchSteady(env: Env, p: Planes, alpha: nat, steps: nat, u: real)
    requires Fits(env, p) && env.kernel != Plain && Uniform(env, p, false, u)
    ensures Uniform(env, March(env, p, alpha, steps), false, u)
    decreases steps
  {
    if steps > 0 {
      MarchSteady(env, p, alpha, steps - 1, u);
      StepSteady(env, March(env, p, alpha, steps - 1), alpha, u);
    }
  }

  /** With the plain element classes every step zeroes both planes of the even-plane Selms. */
  lemma PlainStepZero(env: Env, p: Planes, alpha: nat)
    requires Fits(env, p) && env.kernel == Plain
    ensures Uniform(env, Step(env, p, alpha), false, 0.0)
  {
    var q := Half1(env, p, alpha);
    var p1 := HalfSo0(env, q, true);
    var p2 := UpdateCfl(env, p1, false);
    var r := HalfSo1(env, p2, true, alpha);
    assert r == Step(env, p, alpha);
    forall o | SelmTarget(env.ncelm, false, o)
      ensures r.so0[o] == 0.0 && r.so1[o] == 0.0
    {
      TargetParity(env.ncelm, true, o);
      HalfSo0At(env, q, true, o);
      HalfSo1At(env, p2, true, alpha, o);
    }
  }

  /** calc_so0 reads only the Selms beside the Celm: planes that agree there give the same value. */
  lemma CalcSo0AtLocal(env: Env, p: Planes, q: Planes, o: int)
    requires Fits(env, p) && Fits(env, q) && 2 <= o < |env.coords| - 2
    requires p.so0[o - 1] == q.so0[o - 1] && p.so0[o + 1] == q.so0[o + 1]
    requires p.so1[o - 1] == q.so1[o - 1] && p.so1[o + 1] == q.so1[o + 1]
    ensures CalcSo0At(env, p, o) == CalcSo0At(env, q, o)
  {
    assert SampleAt(env, p, o - 1) == SampleAt(env, q, o - 1);
    assert SampleAt(env, p, o + 1) == SampleAt(env, q, o + 1);
  }

  /** calc_so1_alpha reads the Selms beside the Celm and the so0 just written above it. */
  lemma CalcSo1AtLocal(env: Env, p: Planes, q: Planes, alpha: nat, o: int)
    requires Fits(env, p) && Fits(env, q) && 2 <= o < |env.coords| - 2
    requires p.so0[o - 1] == q.so0[o - 1] && p.so0[o + 1] == q.so0[o + 1] && p.so0[o] == q.so0[o]
    requires p.so1[o - 1] == q.so1[o - 1] && p.so1[o + 1] == q.so1[o + 1]
    ensures CalcSo1At(env, p, alpha, o) == CalcSo1At(env, q, alpha, o)
  {
    assert SampleAt(env, p, o - 1) == SampleAt(env, q, o - 1);
    assert SampleAt(env, p, o + 1) == SampleAt(env, q, o + 1);
  }

  /**
   * Loop equals simultaneous update: a Celm target's neighbours are never
   * targets of the same loop, so writing the targets one after another, in
   * any order, reads the same values as the simultaneous update.
   */
  lemma TargetsIsolated(ncelm: int, odd: bool, o: int)
    requires CelmTarget(ncelm, odd, o)
    ensures !CelmTarget(ncelm, odd, o - 1) && !CelmTarget(ncelm, odd, o + 1)
  {
  }

  /** Serves CflAtEvenSpacing: a ratio that multiplies a positive number to itself is one. */
  lemma UnitRatio(r: real, m: real, h: real)
    requires h > 0.0 && m == h && r * m == h
    ensures r == 1.0
  {
    var q := r * m;
    assert q == r * h;
  }

  /**
   * On a grid whose neighbouring coordinates are all hdt apart, the linear
   * kernel's CFL number is exactly one at every offset it is computed for.
   */
  lemma CflAtEvenSpacing(env: Env, p: Planes, o: int)
    requires Fits(env, p) && env.kernel == LinearScalar
    requires forall j :: 0 <= j < |env.coords| - 1 ==> env.coords[j + 1] - env.coords[j] == env.hdt
    requires 1 <= o < |env.coords| - 1
    ensures CflAt(env, p, o) == 1.0
  {
    var s := Sample(env.coords[o], env.coords[o - 1], env.coords[o + 1], p.so0[o], 0.0);
    SampleOrdered(env, p, o);
    assert s.DxNeg() == env.hdt && s.DxPos() == env.hdt;
    assert env.hdt > 0.0;
    var m := Min(s.DxNeg(), s.DxPos());
    assert m == env.hdt;
    var r := Cfl(env.kernel, s, env.hdt);
    assert r * m == env.hdt;
    UnitRatio(r, m, env.hdt);
    assert CflAt(env, p, o) == r;
  }

  /**
   * update_cfl on a uniform grid with the linear kernel and a time increment
   * of one cell width (hdt half a cell width) stores 1 at every Selm it
   * writes, on either plane.
   */
  lemma UniformCflIsOne(env: Env, p: Planes, odd: bool, xmin: real, xmax: real)
    requires Fits(env, p) && env.kernel == LinearScalar
    requires IsCoordinateArray(UniformPoints(xmin, xmax, env.ncelm), env.coords)
    requires env.hdt == CellWidth(xmin, xmax, env.ncelm) / 2.0
    ensures forall o :: SelmTarget(env.ncelm, odd, o) ==> UpdateCfl(env, p, odd).cfl[o] == 1.0
  {
    UniformSpacing(xmin, xmax, env.ncelm, env.coords);
    forall o | SelmTarget(env.ncelm, odd, o)
      ensures UpdateCfl(env, p, odd).cfl[o] == 1.0
    {
      UpdateCflAt(env, p, odd, o);
      CflAtEvenSpacing(env, p, o);
    }
  }

  /**
   * After at least one step of march_alpha on such a grid, the CFL number is 1
   * at every Selm either plane's update_cfl writes: the odd-plane values of the
   * first half step survive the even-plane update of the second.
   */
  lemma UniformMarchCflIsOne(env: Env, p: Planes, alpha: nat, steps: nat, xmin: real, xmax: real)
    requires Fits(env, p) && env.kernel == LinearScalar && steps >= 1
    requires IsCoordinateArray(UniformPoints(xmin, xmax, env.ncelm), env.coords)
    requires env.hdt == CellWidth(xmin, xmax, env.ncelm) / 2.0
    ensures forall o :: SelmTarget(env.ncelm, false, o) ==> March(env, p, alpha, steps).cfl[o] == 1.0
    ensures forall o :: SelmTarget(env.ncelm, true, o) ==> March(env, p, alpha, steps).cfl[o] == 1.0
  {
    var q := March(env, p, alpha, steps - 1);
    var h1 := Half1(env, q, alpha);
    var p1 := HalfSo0(env, q, false);
    var p2 := BoundarySo0(env, p1);
    var p3 := UpdateCfl(env, p2, true);
    assert h1.cfl == p3.cfl;
    UniformCflIsOne(env, p2, true, xmin, xmax);
    var r1 := HalfSo0(env, h1, true);
    var r2 := UpdateCfl(env, r1, false);
    assert March(env, p, alpha, steps).cfl == r2.cfl;
    UniformCflIsOne(env, r1, false, xmin, xmax);
    forall o | SelmTarget(env.ncelm, true, o)
      ensures r2.cfl[o] == 1.0
    {
      assert !SelmTarget(env.ncelm, false, o);
      assert r1.cfl[o] == h1.cfl[o];
    }
  }
}
