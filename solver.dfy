/**
 * The marching engine of SolverBase_decl.hpp and SolverBase.hpp.
 *
 * A Solver owns one Field and is instantiated with one equation kernel.  Its
 * plane accessors copy the values of one plane's Selms out of, or into, the
 * Field's arrays; its marching loops update variable 0 of so0 and so1 and
 * the cfl array in place, and each is proved to compute the simultaneous
 * update that the Marching module defines.
 */
module Solvers {
  import opened Outcomes
  import opened Grids
  import opened Fields
  import K = Kernels
  import M = Marching

  /** Number of Selms a plane accessor visits: nselm on the even plane, one fewer on the odd plane. */
  function PlaneSize(ncelm: nat, odd: bool): nat
  {
    if odd then ncelm else ncelm + 1
  }

  /** The offset o holds Selm (o - first offset) / 2 of the plane, one that the plane accessors visit. */
  predicate OnPlane(ncelm: nat, odd: bool, o: int)
  {
    var d := o - XindexSelm(0, odd);
    0 <= d && d % 2 == 0 && d / 2 < PlaneSize(ncelm, odd)
  }

  /** The plane read out of a column indexed by offset: entry k is Selm k of the plane. */
  function PlaneOf(col: seq<real>, ncelm: nat, odd: bool): (r: seq<real>)
    requires |col| == 2 * ncelm + 1 + 2 * BOUND_COUNT
    ensures |r| == PlaneSize(ncelm, odd)
    ensures forall k :: 0 <= k < |r| ==> r[k] == col[XindexSelm(k, odd)]
  {
    seq(PlaneSize(ncelm, odd), k requires 0 <= k < PlaneSize(ncelm, odd) => col[XindexSelm(k, odd)])
  }

  /** A column after a plane write: entry k of arr lands at the offset of Selm k; every other offset keeps its value. */
  function WithPlane(col: seq<real>, ncelm: nat, odd: bool, arr: seq<real>): (r: seq<real>)
    requires |col| == 2 * ncelm + 1 + 2 * BOUND_COUNT && |arr| == PlaneSize(ncelm, odd)
    ensures |r| == |col|
    ensures forall o {:trigger r[o]} :: 0 <= o < |col| && !OnPlane(ncelm, odd, o) ==> r[o] == col[o]
  {
    seq(|col|, o requires 0 <= o < |col| =>
      if OnPlane(ncelm, odd, o) then arr[(o - XindexSelm(0, odd)) / 2] else col[o])
  }

  /** The offsets of a plane's Selms lie inside the column, are on the plane, and give back their index. */
  lemma PlaneOffsets(ncelm: nat, odd: bool, k: int)
    requires 0 <= k < PlaneSize(ncelm, odd)
    ensures 2 <= XindexSelm(k, odd) < 2 * ncelm + 1 + 2 * BOUND_COUNT - 2
    ensures OnPlane(ncelm, odd, XindexSelm(k, odd))
    ensures (XindexSelm(k, odd) - XindexSelm(0, odd)) / 2 == k
  {
  }

  /** Writing a plane and reading it back gives what was written, and writing back what was read changes nothing. */
  lemma PlaneRoundTrip(col: seq<real>, ncelm: nat, odd: bool, arr: seq<real>)
    requires |col| == 2 * ncelm + 1 + 2 * BOUND_COUNT && |arr| == PlaneSize(ncelm, odd)
    ensures PlaneOf(WithPlane(col, ncelm, odd, arr), ncelm, odd) == arr
    ensures WithPlane(col, ncelm, odd, PlaneOf(col, ncelm, odd)) == col
  {
    var w := WithPlane(col, ncelm, odd, arr);
    forall k | 0 <= k < |arr|
      ensures PlaneOf(w, ncelm, odd)[k] == arr[k]
    {
      PlaneOffsets(ncelm, odd, k);
    }
    var c := WithPlane(col, ncelm, odd, PlaneOf(col, ncelm, odd));
    forall o | 0 <= o < |col|
      ensures c[o] == col[o]
    {
      if OnPlane(ncelm, odd, o) {
        var k := (o - XindexSelm(0, odd)) / 2;
        assert XindexSelm(k, odd) == o;
      }
    }
  }

  /** The coordinates of one plane's Selms, read out of an increasing coordinate array, are increasing too. */
  lemma PlaneIncreasing(xcoord: seq<real>, ncelm: nat, odd: bool)
    requires |xcoord| == 2 * ncelm + 1 + 2 * BOUND_COUNT && Increasing(xcoord)
    ensures Increasing(PlaneOf(xcoord, ncelm, odd))
  {
    var r := PlaneOf(xcoord, ncelm, odd);
    forall k | 0 <= k < |r| - 1
      ensures r[k] < r[k + 1]
    {
      IncreasingPairwise(xcoord, XindexSelm(k, odd), XindexSelm(k, odd) + 2);
    }
  }

  /** The first it entries of a, then the rest of b: a plane part way through a plane write. */
  function Spliced(a: seq<real>, b: seq<real>, it: int): (r: seq<real>)
    requires |a| == |b| && 0 <= it <= |a|
    ensures |r| == |a|
    ensures forall k {:trigger r[k]} :: 0 <= k < |a| ==> r[k] == if k < it then a[k] else b[k]
  {
    seq(|a|, k requires 0 <= k < |a| => if k < it then a[k] else b[k])
  }

  /** Writing one more entry of the new plane into the column sets exactly the offset of that Selm. */
  lemma WithPlaneStep(col: seq<real>, ncelm: nat, odd: bool, arr: seq<real>, it: nat)
    requires |col| == 2 * ncelm + 1 + 2 * BOUND_COUNT && |arr| == PlaneSize(ncelm, odd) && it < |arr|
    ensures 2 <= XindexSelm(it, odd) < |col| - 2
    ensures WithPlane(col, ncelm, odd, Spliced(arr, PlaneOf(col, ncelm, odd), it + 1))
      == WithPlane(col, ncelm, odd, Spliced(arr, PlaneOf(col, ncelm, odd), it))[XindexSelm(it, odd) := arr[it]]
  {
    PlaneOffsets(ncelm, odd, it);
    var old' := PlaneOf(col, ncelm, odd);
    var a := WithPlane(col, ncelm, odd, Spliced(arr, old', it + 1));
    var b := WithPlane(col, ncelm, odd, Spliced(arr, old', it))[XindexSelm(it, odd) := arr[it]];
    forall o | 0 <= o < |col|
      ensures a[o] == b[o]
    {
      if OnPlane(ncelm, odd, o) {
        var k := (o - XindexSelm(0, odd)) / 2;
        assert XindexSelm(k, odd) == o;
        if k != it {
          assert o != XindexSelm(it, odd);
        }
      } else {
        assert o != XindexSelm(it, odd);
      }
    }
  }

  /** Before the first write the column is unchanged; after the last it holds the whole new plane. */
  lemma WithPlaneEnds(col: seq<real>, ncelm: nat, odd: bool, arr: seq<real>)
    requires |col| == 2 * ncelm + 1 + 2 * BOUND_COUNT && |arr| == PlaneSize(ncelm, odd)
    ensures WithPlane(col, ncelm, odd, Spliced(arr, PlaneOf(col, ncelm, odd), 0)) == col
    ensures Spliced(arr, PlaneOf(col, ncelm, odd), |arr|) == arr
  {
    PlaneRoundTrip(col, ncelm, odd, arr);
    assert Spliced(arr, PlaneOf(col, ncelm, odd), 0) == PlaneOf(col, ncelm, odd);
    assert Spliced(arr, PlaneOf(col, ncelm, odd), |arr|) == arr;
  }

  /** The targets of a marching loop on plane odd: Celm targets for the solution loops, Selm targets for the CFL loop. */
  predicate Target(ncelm: nat, odd: bool, celm: bool, o: int)
  {
    if celm then M.CelmTarget(ncelm, odd, o) else M.SelmTarget(ncelm, odd, o)
  }

  /** The offset the loop writes at index ic. */
  function Written(odd: bool, celm: bool, ic: int): int
  {
    if celm then XindexCelm(ic, odd) else XindexSelm(ic, odd)
  }

  /** One past the last loop index: ncelm for the Celm loops, nselm for the Selm loop. */
  function LoopEnd(ncelm: nat, celm: bool): int
  {
    if celm then ncelm else ncelm + 1
  }

  /** A column part way through a marching loop: the targets the loop has visited (those below offset Written(ic)) hold their new value. */
  function Partial(before: seq<real>, after: seq<real>, ncelm: nat, odd: bool, celm: bool, ic: int): (r: seq<real>)
    requires |after| == |before|
    ensures |r| == |before|
    ensures forall o {:trigger r[o]} :: 0 <= o < |before| && !Target(ncelm, odd, celm, o) ==> r[o] == before[o]
  {
    seq(|before|, o requires 0 <= o < |before| =>
      if Target(ncelm, odd, celm, o) && o < Written(odd, celm, ic) then after[o] else before[o])
  }

  /** The loop visits the targets in increasing order, one per index, and visits them all. */
  lemma PartialSteps(before: seq<real>, after: seq<real>, ncelm: nat, odd: bool, celm: bool, ic: int)
    requires |after| == |before| == 2 * ncelm + 1 + 2 * BOUND_COUNT
    requires M.LoopStart(odd) <= ic <= LoopEnd(ncelm, celm)
    requires forall o :: 0 <= o < |before| && !Target(ncelm, odd, celm, o) ==> after[o] == before[o]
    ensures Partial(before, after, ncelm, odd, celm, M.LoopStart(odd)) == before
    ensures ic == LoopEnd(ncelm, celm) ==> Partial(before, after, ncelm, odd, celm, ic) == after
    ensures ic < LoopEnd(ncelm, celm) ==>
      var o := Written(odd, celm, ic);
      && 0 <= o < |before| && Target(ncelm, odd, celm, o)
      && Partial(before, after, ncelm, odd, celm, ic + 1) == Partial(before, after, ncelm, odd, celm, ic)[o := after[o]]
  {
    var first := Partial(before, after, ncelm, odd, celm, M.LoopStart(odd));
    forall o | 0 <= o < |before|
      ensures first[o] == before[o]
    {
    }
    if ic == LoopEnd(ncelm, celm) {
      var last := Partial(before, after, ncelm, odd, celm, ic);
      forall o | 0 <= o < |before|
        ensures last[o] == after[o]
      {
      }
    }
    if ic < LoopEnd(ncelm, celm) {
      var o := Written(odd, celm, ic);
      var next := Partial(before, after, ncelm, odd, celm, ic + 1);
      var cur := Partial(before, after, ncelm, odd, celm, ic);
      forall o' | 0 <= o' < |before|
        ensures next[o'] == cur[o := after[o]][o']
      {
      }
    }
  }

  /**
   * One iteration of the so0 loop: with the targets before Celm ic written,
   * writing calc_so0 of the current plane at Celm ic's top Selm gives the
   * next partial column, because the value read there is the one HalfSo0
   * computes from the plane the loop started from.
   */
  lemma So0Next(env: M.Env, p0: M.Planes, cur: M.Planes, odd: bool, ic: int)
    requires M.Fits(env, p0) && M.Fits(env, cur) && cur.so1 == p0.so1
    requires M.LoopStart(odd) <= ic < env.ncelm
    requires cur.so0 == Partial(p0.so0, M.HalfSo0(env, p0, odd).so0, env.ncelm, odd, true, ic)
    ensures var o := XindexCelm(ic, odd);
      && 2 <= o < |env.coords| - 2
      && Partial(p0.so0, M.HalfSo0(env, p0, odd).so0, env.ncelm, odd, true, ic + 1) == cur.so0[o := M.CalcSo0At(env, cur, o)]
  {
    var target := M.HalfSo0(env, p0, odd);
    PartialSteps(p0.so0, target.so0, env.ncelm, odd, true, ic);
    var o := XindexCelm(ic, odd);
    M.TargetsIsolated(env.ncelm, odd, o);
    M.CalcSo0AtLocal(env, cur, p0, o);
    M.HalfSo0At(env, p0, odd, o);
  }

  /** One iteration of the so1 loop, in the same way: calc_so1_alpha of the current plane is the value HalfSo1 computes. */
  lemma So1Next(env: M.Env, p0: M.Planes, cur: M.Planes, odd: bool, alpha: nat, ic: int)
    requires M.Fits(env, p0) && M.Fits(env, cur) && cur.so0 == p0.so0
    requires M.LoopStart(odd) <= ic < env.ncelm
    requires cur.so1 == Partial(p0.so1, M.HalfSo1(env, p0, odd, alpha).so1, env.ncelm, odd, true, ic)
    ensures var o := XindexCelm(ic, odd);
      && 2 <= o < |env.coords| - 2
      && Partial(p0.so1, M.HalfSo1(env, p0, odd, alpha).so1, env.ncelm, odd, true, ic + 1) == cur.so1[o := M.CalcSo1At(env, cur, alpha, o)]
  {
    var target := M.HalfSo1(env, p0, odd, alpha);
    PartialSteps(p0.so1, target.so1, env.ncelm, odd, true, ic);
    var o := XindexCelm(ic, odd);
    M.TargetsIsolated(env.ncelm, odd, o);
    M.CalcSo1AtLocal(env, cur, p0, alpha, o);
    M.HalfSo1At(env, p0, odd, alpha, o);
  }

  /** Only variable 0 changed: every other column of a holds what it held on entry. */
  twostate predicate OtherVariablesKept(a: array2<real>)
    reads a
  {
    forall v :: 1 <= v < a.Length1 ==> Column(a, v) == old(Column(a, v))
  }

  /** c is the midpoint of the two coordinates beside offset o, and lies strictly between them. */
  ghost predicate MidpointAround(x: seq<real>, o: int, c: real)
  {
    2 <= o < |x| - 2 && c == (x[o - 1] + x[o + 1]) / 2.0 && x[o - 1] < c < x[o + 1]
  }

  class Solver {
    /** The element classes the solver was instantiated with. */
    const kernel: K.Kernel
    var field: Field

    ghost predicate Valid()
      reads this, field
    {
      field.Valid()
    }

    /** The marching loops write variable 0, so they need at least one variable. */
    ghost predicate Marchable()
      reads this, field
    {
      Valid() && field.Nvar() >= 1
    }

    /** What the marching loops read and never write. */
    ghost function EnvOf(): M.Env
      reads this, field
    {
      M.Env(kernel, field.grid.xcoord, field.grid.ncelm, field.Hdt(), field.Qdt())
    }

    /** Variable 0 of so0 and so1, and the cfl array, by offset. */
    ghost function PlanesOf(): (p: M.Planes)
      reads this, field, field.so0, field.so1, field.cfl
      requires Marchable()
      ensures M.Fits(EnvOf(), p)
    {
      M.Planes(Column(field.so0, 0), Column(field.so1, 0), field.cfl[..])
    }

    /** update_cfl needs variable 0 only for the Burgers kernel, which reads so0(0) as the wave speed. */
    ghost predicate CflReady()
      reads this, field
    {
      Valid() && (kernel == K.InviscidBurgers ==> field.Nvar() >= 1)
    }

    /** The planes update_cfl reads and writes: those of PlanesOf where there is a variable 0, zero so0 and so1 columns where there is none. */
    ghost function CflPlanes(): (p: M.Planes)
      reads this, field, field.so0, field.so1, field.cfl
      requires Valid()
      ensures M.Fits(EnvOf(), p) && p.cfl == field.cfl[..]
      ensures Marchable() ==> p == PlanesOf()
    {
      if field.Nvar() >= 1 then PlanesOf()
      else
        var zeros := seq(field.cfl.Length, o => 0.0);
        M.Planes(zeros, zeros, field.cfl[..])
    }

    /** What a Selm at offset o reads for variable iv: its coordinates and its so0 and so1. */
    ghost function SampleAt(iv: int, o: int): K.Sample
      reads this, field, field.so0, field.so1
      requires Valid() && 0 <= iv < field.Nvar() && 1 <= o < field.grid.XSize() - 1
    {
      K.Sample(field.grid.xcoord[o], field.grid.xcoord[o - 1], field.grid.xcoord[o + 1], field.so0[o, iv], field.so1[o, iv])
    }

    /** SolverBase(grid, time_increment, nvar): a Field built from the three arguments. */
    constructor (grid: Grid, timeIncrement: real, nvar: nat, kernel: K.Kernel)
      requires grid.Valid()
      ensures Valid() && this.kernel == kernel && fresh(field)
      ensures field.grid == grid && field.Nvar() == nvar && field.TimeIncrement() == timeIncrement
      ensures fresh(field.so0) && fresh(field.so1) && fresh(field.cfl)
    {
      this.kernel := kernel;
      field := new Field(grid, timeIncrement, nvar);
    }

    /** The copy constructor: the solver takes the given Field and kernel. */
    constructor FromField(f: Field, kernel: K.Kernel)
      requires f.Valid()
      ensures Valid() && field == f && this.kernel == kernel
    {
      this.kernel := kernel;
      field := f;
    }

    /**
     * clone(grid): a new solver of the same kind over a copy of the Field;
     * the copy shares the grid, or holds a fresh copy of it when cloneGrid is
     * set.  Nothing of this solver changes.
     */
    method Clone(cloneGrid: bool) returns (s: Solver)
      requires Valid()
      ensures fresh(s) && fresh(s.field) && fresh(s.field.so0) && fresh(s.field.so1) && fresh(s.field.cfl)
      ensures s.Valid() && s.kernel == kernel && s.field.SameContents(field)
      ensures !cloneGrid ==> s.field.grid == field.grid
      ensures cloneGrid ==> fresh(s.field.grid) && s.field.grid.xcoord == field.grid.xcoord
    {
      var f := field.Clone(cloneGrid);
      s := new Solver.FromField(f, kernel);
    }

    /** set_time_increment: the Field stores t with its half and quarter; the arrays and the grid stay. */
    method SetTimeIncrement(t: real)
      requires Valid()
      modifies field
      ensures Valid() && field.TimeIncrement() == t && field.Hdt() == t / 2.0 && field.Qdt() == t / 4.0
      ensures field.grid == old(field.grid) && field.so0 == old(field.so0) && field.so1 == old(field.so1)
      ensures field.cfl == old(field.cfl)
    {
      field.SetTimeIncrement(t);
    }

    /** The body of the so0 loop for Celm ic: the top Selm takes calc_so0(0); nothing else changes. */
    method MarchCelmSo0(ic: int, odd: bool)
      requires Marchable() && M.LoopStart(odd) <= ic < field.grid.ncelm
      modifies field.so0
      ensures Marchable()
      ensures Column(field.so0, 0) == old(Column(field.so0, 0))[XindexCelm(ic, odd) :=
        M.CalcSo0At(EnvOf(), old(PlanesOf()), XindexCelm(ic, odd))]
      ensures OtherVariablesKept(field.so0)
    {
      ghost var env := EnvOf();
      ghost var p := PlanesOf();
      var ce := field.CelmView(ic, odd);
      ghost var o := ce.xindex;
      assert Selm(field, o - 1).Sample(0) == M.SampleAt(env, p, o - 1);
      assert Selm(field, o + 1).Sample(0) == M.SampleAt(env, p, o + 1);
      var v := ce.CalcSo0(kernel, 0);
      ce.SelmTp().SetSo0(0, v);
    }

    /** The body of the so1 loop for Celm ic: the top Selm takes calc_so1_alpha(0); nothing else changes. */
    method MarchCelmSo1(ic: int, odd: bool, alpha: nat)
      requires Marchable() && M.LoopStart(odd) <= ic < field.grid.ncelm
      modifies field.so1
      ensures Marchable()
      ensures Column(field.so1, 0) == old(Column(field.so1, 0))[XindexCelm(ic, odd) :=
        M.CalcSo1At(EnvOf(), old(PlanesOf()), alpha, XindexCelm(ic, odd))]
      ensures OtherVariablesKept(field.so1)
    {
      ghost var env := EnvOf();
      ghost var p := PlanesOf();
      var ce := field.CelmView(ic, odd);
      ghost var o := ce.xindex;
      assert Selm(field, o - 1).Sample(0) == M.SampleAt(env, p, o - 1);
      assert Selm(field, o + 1).Sample(0) == M.SampleAt(env, p, o + 1);
      var v := ce.CalcSo1Alpha(kernel, alpha, 0);
      ce.SelmTp().SetSo1(0, v);
    }

    /**
     * march_half_so0(odd_plane): for ic from -1 (odd plane) or 0 to ncelm - 1,
     * the top Selm of Celm ic takes calc_so0(0).  Each Celm reads only Selms
     * of the other parity, so the loop computes the simultaneous update
     * HalfSo0; no other variable changes.
     */
    method MarchHalfSo0(odd: bool)
      requires Marchable()
      modifies field.so0
      ensures Marchable()
      ensures PlanesOf() == M.HalfSo0(EnvOf(), old(PlanesOf()), odd)
      ensures OtherVariablesKept(field.so0)
    {
      ghost var env := EnvOf();
      ghost var p0 := PlanesOf();
      ghost var target := M.HalfSo0(env, p0, odd);
      var n := field.grid.ncelm;
      var ic := M.LoopStart(odd);
      PartialSteps(p0.so0, target.so0, n, odd, true, ic);
      while ic < n
        invariant M.LoopStart(odd) <= ic <= n
        invariant Column(field.so0, 0) == Partial(p0.so0, target.so0, n, odd, true, ic)
        invariant OtherVariablesKept(field.so0)
      {
        So0Next(env, p0, PlanesOf(), odd, ic);
        MarchCelmSo0(ic, odd);
        ic := ic + 1;
      }
      PartialSteps(p0.so0, target.so0, n, odd, true, ic);
    }

    /**
     * march_half_so1_alpha<ALPHA>(odd_plane): the same loop, writing
     * calc_so1_alpha(0) into so1 of the top Selm.
     */
    method MarchHalfSo1Alpha(odd: bool, alpha: nat)
      requires Marchable()
      modifies field.so1
      ensures Marchable()
      ensures PlanesOf() == M.HalfSo1(EnvOf(), old(PlanesOf()), odd, alpha)
      ensures OtherVariablesKept(field.so1)
    {
      ghost var env := EnvOf();
      ghost var p0 := PlanesOf();
      ghost var target := M.HalfSo1(env, p0, odd, alpha);
      var n := field.grid.ncelm;
      var ic := M.LoopStart(odd);
      PartialSteps(p0.so1, target.so1, n, odd, true, ic);
      while ic < n
        invariant M.LoopStart(odd) <= ic <= n
        invariant Column(field.so1, 0) == Partial(p0.so1, target.so1, n, odd, true, ic)
        invariant OtherVariablesKept(field.so1)
      {
        So1Next(env, p0, PlanesOf(), odd, alpha, ic);
        MarchCelmSo1(ic, odd, alpha);
        ic := ic + 1;
      }
      PartialSteps(p0.so1, target.so1, n, odd, true, ic);
    }

    /**
     * update_cfl(odd_plane): for ic from -1 (odd plane) or 0 to ncelm, Selm
     * ic stores its CFL number.  The result is the simultaneous update
     * UpdateCfl.
     */
    method UpdateCfl(odd: bool)
      requires CflReady()
      modifies field.cfl
      ensures CflReady()
      ensures CflPlanes() == M.UpdateCfl(EnvOf(), old(CflPlanes()), odd)
      ensures old(Marchable()) ==> Marchable() && PlanesOf() == M.UpdateCfl(EnvOf(), old(PlanesOf()), odd)
    {
      ghost var env := EnvOf();
      ghost var p0 := CflPlanes();
      ghost var target := M.UpdateCfl(env, p0, odd);
      var n := field.grid.ncelm;
      var ic := M.LoopStart(odd);
      PartialSteps(p0.cfl, target.cfl, n, odd, false, ic);
      while ic < n + 1
        invariant M.LoopStart(odd) <= ic <= n + 1
        invariant field.cfl[..] == Partial(p0.cfl, target.cfl, n, odd, false, ic)
      {
        PartialSteps(p0.cfl, target.cfl, n, odd, false, ic);
        var se := field.SelmView(ic, odd);
        ghost var o := se.xindex;
        ghost var cur := field.cfl[..];
        assert se.CflSample() == K.Sample(env.coords[o], env.coords[o - 1], env.coords[o + 1], p0.so0[o], 0.0);
        ghost var want := K.Cfl(kernel, se.CflSample(), field.Hdt());
        M.UpdateCflAt(env, p0, odd, o);
        assert want == target.cfl[o];
        var c := se.UpdateCfl(kernel);
        assert c == want;
        ic := ic + 1;
      }
      assert field.cfl[..] == target.cfl by {
        PartialSteps(p0.cfl, target.cfl, n, odd, false, ic);
      }
      assert CflPlanes() == target;
    }

    /** treat_boundary_so0: Selm -1 of the odd plane takes so0(0) of Selm ncelm - 1, then Selm ncelm takes that of Selm 0. */
    method TreatBoundarySo0()
      requires Marchable()
      modifies field.so0
      ensures Marchable()
      ensures PlanesOf() == M.BoundarySo0(EnvOf(), old(PlanesOf()))
      ensures OtherVariablesKept(field.so0)
    {
      var n := field.grid.ncelm;
      var leftIn := field.SelmView(0, true);
      var leftOut := field.SelmView(-1, true);
      var rightIn := field.SelmView(n - 1, true);
      var rightOut := field.SelmView(n, true);
      leftOut.SetSo0(0, rightIn.So0(0));
      rightOut.SetSo0(0, leftIn.So0(0));
      assert PlanesOf().so0 == M.BoundarySo0(EnvOf(), old(PlanesOf())).so0;
    }

    /** treat_boundary_so1: the same periodic copy for so1(0). */
    method TreatBoundarySo1()
      requires Marchable()
      modifies field.so1
      ensures Marchable()
      ensures PlanesOf() == M.BoundarySo1(EnvOf(), old(PlanesOf()))
      ensures OtherVariablesKept(field.so1)
    {
      var n := field.grid.ncelm;
      var leftIn := field.SelmView(0, true);
      var leftOut := field.SelmView(-1, true);
      var rightIn := field.SelmView(n - 1, true);
      var rightOut := field.SelmView(n, true);
      leftOut.SetSo1(0, rightIn.So1(0));
      rightOut.SetSo1(0, leftIn.So1(0));
      assert PlanesOf().so1 == M.BoundarySo1(EnvOf(), old(PlanesOf())).so1;
    }
      /** setup_march: update_cfl on the even plane. */
    method SetupMarch()
      requires CflReady()
      modifies field.cfl
      ensures CflReady()
      ensures CflPlanes() == M.SetupMarch(EnvOf(), old(CflPlanes()))
      ensures old(Marchable()) ==> Marchable() && PlanesOf() == M.SetupMarch(EnvOf(), old(PlanesOf()))
    {
      UpdateCfl(false);
    }

    /** march_half1_alpha<alpha>: so0 on the even plane, boundary so0, cfl on the odd plane, so1 on the even plane, boundary so1. */
    method MarchHalf1Alpha(alpha: nat)
      requires Marchable()
      modifies field.so0, field.so1, field.cfl
      ensures Marchable()
      ensures PlanesOf() == M.Half1(EnvOf(), old(PlanesOf()), alpha)
      ensures OtherVariablesKept(field.so0) && OtherVariablesKept(field.so1)
    {
      MarchHalfSo0(false);
      TreatBoundarySo0();
      UpdateCfl(true);
      MarchHalfSo1Alpha(false, alpha);
      TreatBoundarySo1();
    }

    /** march_half2_alpha<alpha>: so0 on the odd plane, cfl on the even plane, so1 on the odd plane; no boundary treatment. */
    method MarchHalf2Alpha(alpha: nat)
      requires Marchable()
      modifies field.so0, field.so1, field.cfl
      ensures Marchable()
      ensures PlanesOf() == M.Half2(EnvOf(), old(PlanesOf()), alpha)
      ensures OtherVariablesKept(field.so0) && OtherVariablesKept(field.so1)
    {
      MarchHalfSo0(true);
      UpdateCfl(false);
      MarchHalfSo1Alpha(true, alpha);
    }

    /** One iteration of march_alpha: both half steps take March of n steps from p0 to March of n + 1 steps. */
    method MarchStep(alpha: nat, ghost p0: M.Planes, ghost n: nat)
      requires Marchable() && M.Fits(EnvOf(), p0) && PlanesOf() == M.March(EnvOf(), p0, alpha, n)
      modifies field.so0, field.so1, field.cfl
      ensures Marchable() && EnvOf() == old(EnvOf())
      ensures PlanesOf() == M.March(EnvOf(), p0, alpha, n + 1)
      ensures OtherVariablesKept(field.so0) && OtherVariablesKept(field.so1)
    {
      ghost var env := EnvOf();
      ghost var p := PlanesOf();
      MarchHalf1Alpha(alpha);
      MarchHalf2Alpha(alpha);
      assert PlanesOf() == M.Step(env, p, alpha);
    }

    /** march_alpha<alpha>(steps): steps iterations of both half steps; the result is March, and only variable 0 moves. */
    method MarchAlpha(alpha: nat, steps: nat)
      requires Marchable()
      modifies field.so0, field.so1, field.cfl
      ensures Marchable()
      ensures PlanesOf() == M.March(EnvOf(), old(PlanesOf()), alpha, steps)
      ensures OtherVariablesKept(field.so0) && OtherVariablesKept(field.so1)
    {
      ghost var env := EnvOf();
      ghost var p0 := PlanesOf();
      var it := 0;
      while it < steps
        invariant 0 <= it <= steps
        invariant Marchable() && EnvOf() == env
        invariant PlanesOf() == M.March(env, p0, alpha, it)
        invariant OtherVariablesKept(field.so0) && OtherVariablesKept(field.so1)
      {
        MarchStep(alpha, p0, it);
        it := it + 1;
      }
    }
      /** get_so0(iv, odd_plane): out_of_range unless iv < nvar; otherwise so0 of variable iv at the plane's Selms, in index order. */
    method GetSo0(iv: nat, odd: bool) returns (r: Result<seq<real>>)
      requires Valid()
      ensures iv >= field.Nvar() ==> r == Failure(OutOfRange)
      ensures iv < field.Nvar() ==> r == Success(PlaneOf(Column(field.so0, iv), field.grid.ncelm, odd))
    {
      if iv >= field.Nvar() {
        return Failure(OutOfRange);
      }
      var count := field.grid.NSelm() - (if odd then 1 else 0);
      var ret := new real[count];
      for it := 0 to count
        invariant forall k :: 0 <= k < it ==> ret[k] == field.so0[XindexSelm(k, odd), iv]
      {
        PlaneOffsets(field.grid.ncelm, odd, it);
        ret[it] := field.SelmView(it, odd).So0(iv);
      }
      assert ret[..] == PlaneOf(Column(field.so0, iv), field.grid.ncelm, odd);
      return Success(ret[..]);
    }

    /** get_so1(iv, odd_plane): the same for so1. */
    method GetSo1(iv: nat, odd: bool) returns (r: Result<seq<real>>)
      requires Valid()
      ensures iv >= field.Nvar() ==> r == Failure(OutOfRange)
      ensures iv < field.Nvar() ==> r == Success(PlaneOf(Column(field.so1, iv), field.grid.ncelm, odd))
    {
      if iv >= field.Nvar() {
        return Failure(OutOfRange);
      }
      var count := field.grid.NSelm() - (if odd then 1 else 0);
      var ret := new real[count];
      for it := 0 to count
        invariant forall k :: 0 <= k < it ==> ret[k] == field.so1[XindexSelm(k, odd), iv]
      {
        PlaneOffsets(field.grid.ncelm, odd, it);
        ret[it] := field.SelmView(it, odd).So1(iv);
      }
      assert ret[..] == PlaneOf(Column(field.so1, iv), field.grid.ncelm, odd);
      return Success(ret[..]);
    }

    /** get_cfl(odd_plane): the CFL numbers at the plane's Selms, in index order. */
    method GetCfl(odd: bool) returns (r: seq<real>)
      requires Valid()
      ensures r == PlaneOf(field.cfl[..], field.grid.ncelm, odd)
    {
      var count := field.grid.NSelm() - (if odd then 1 else 0);
      var ret := new real[count];
      for it := 0 to count
        invariant forall k :: 0 <= k < it ==> ret[k] == field.cfl[XindexSelm(k, odd)]
      {
        PlaneOffsets(field.grid.ncelm, odd, it);
        ret[it] := field.SelmView(it, odd).Cfl();
      }
      assert ret[..] == PlaneOf(field.cfl[..], field.grid.ncelm, odd);
      return ret[..];
    }

    /**
     * get_so0p(iv, odd_plane): out_of_range unless iv < nvar; otherwise the
     * kernel's so0p of variable iv at the plane's Selms.  Where so1 vanishes,
     * and always for the plain Selm, that is so0 itself.
     */
    method GetSo0p(iv: nat, odd: bool) returns (r: Result<seq<real>>)
      requires Valid()
      ensures iv >= field.Nvar() ==> r == Failure(OutOfRange)
      ensures iv < field.Nvar() ==> r.Success? && |r.value| == PlaneSize(field.grid.ncelm, odd)
      ensures iv < field.Nvar() ==> forall k :: 0 <= k < |r.value| ==>
        r.value[k] == K.So0p(kernel, SampleAt(iv, XindexSelm(k, odd)), field.Hdt())
      ensures iv < field.Nvar() && (kernel == K.Plain || forall o :: 0 <= o < field.so1.Length0 ==> field.so1[o, iv] == 0.0) ==>
        r == Success(PlaneOf(Column(field.so0, iv), field.grid.ncelm, odd))
    {
      if iv >= field.Nvar() {
        return Failure(OutOfRange);
      }
      var count := field.grid.NSelm() - (if odd then 1 else 0);
      var ret := new real[count];
      for it := 0 to count
        invariant forall k :: 0 <= k < it ==> ret[k] == K.So0p(kernel, SampleAt(iv, XindexSelm(k, odd)), field.Hdt())
      {
        PlaneOffsets(field.grid.ncelm, odd, it);
        ret[it] := field.SelmView(it, odd).So0p(kernel, iv);
      }
      r := Success(ret[..]);
      if kernel == K.Plain || forall o :: 0 <= o < field.so1.Length0 ==> field.so1[o, iv] == 0.0 {
        forall k | 0 <= k < count
          ensures ret[k] == Column(field.so0, iv)[XindexSelm(k, odd)]
        {
          PlaneOffsets(field.grid.ncelm, odd, k);
        }
        assert ret[..] == PlaneOf(Column(field.so0, iv), field.grid.ncelm, odd);
      }
    }

    /** x(odd_plane): the coordinates of the plane's Selms, strictly increasing. */
    method X(odd: bool) returns (r: seq<real>)
      requires Valid()
      ensures r == PlaneOf(field.grid.xcoord, field.grid.ncelm, odd)
      ensures Increasing(r)
    {
      var count := field.grid.NSelm() - (if odd then 1 else 0);
      var ret := new real[count];
      for it := 0 to count
        invariant forall k :: 0 <= k < it ==> ret[k] == field.grid.xcoord[XindexSelm(k, odd)]
      {
        PlaneOffsets(field.grid.ncelm, odd, it);
        ret[it] := field.SelmView(it, odd).X();
      }
      r := ret[..];
      PlaneIncreasing(field.grid.xcoord, field.grid.ncelm, odd);
    }

    /** xctr(odd_plane): the centre of each of the plane's Selms, strictly between its neighbouring coordinates. */
    method Xctr(odd: bool) returns (r: seq<real>)
      requires Valid()
      ensures |r| == PlaneSize(field.grid.ncelm, odd)
      ensures forall k :: 0 <= k < |r| ==> MidpointAround(field.grid.xcoord, XindexSelm(k, odd), r[k])
    {
      var count := field.grid.NSelm() - (if odd then 1 else 0);
      var ret := new real[count];
      for it := 0 to count
        invariant forall k :: 0 <= k < it ==> MidpointAround(field.grid.xcoord, XindexSelm(k, odd), ret[k])
      {
        PlaneOffsets(field.grid.ncelm, odd, it);
        var se := field.SelmView(it, odd);
        se.GeometryOrdered();
        ret[it] := se.Xctr();
      }
      return ret[..];
    }

    /**
     * set_so0(iv, arr, odd_plane): out_of_range, with nothing written, when
     * iv is not below nvar or arr does not hold one value per Selm of the
     * plane; otherwise the plane's Selms of variable iv take arr and every
     * other cell keeps its value.
     */
    method SetSo0(iv: nat, arr: seq<real>, odd: bool) returns (r: Result<()>)
      requires Valid()
      modifies field.so0
      ensures Valid()
      ensures r.Failure? <==> iv >= field.Nvar() || |arr| != PlaneSize(field.grid.ncelm, odd)
      ensures r.Failure? ==> r.error == OutOfRange && unchanged(field.so0)
      ensures r.Success? ==> Column(field.so0, iv) == WithPlane(old(Column(field.so0, iv)), field.grid.ncelm, odd, arr)
      ensures forall v :: 0 <= v < field.Nvar() && v != iv ==> Column(field.so0, v) == old(Column(field.so0, v))
    {
      if iv >= field.Nvar() {
        return Failure(OutOfRange);
      }
      var count := field.grid.NSelm() - (if odd then 1 else 0);
      if count != |arr| {
        return Failure(OutOfRange);
      }
      ghost var n := field.grid.ncelm;
      ghost var c0 := Column(field.so0, iv);
      WithPlaneEnds(c0, n, odd, arr);
      for it := 0 to count
        invariant Column(field.so0, iv) == WithPlane(c0, n, odd, Spliced(arr, PlaneOf(c0, n, odd), it))
        invariant forall v :: 0 <= v < field.Nvar() && v != iv ==> Column(field.so0, v) == old(Column(field.so0, v))
      {
        WithPlaneStep(c0, n, odd, arr, it);
        field.SelmView(it, odd).SetSo0(iv, arr[it]);
      }
      return Success(());
    }

    /** set_so1(iv, arr, odd_plane): the same for so1. */
    method SetSo1(iv: nat, arr: seq<real>, odd: bool) returns (r: Result<()>)
      requires Valid()
      modifies field.so1
      ensures Valid()
      ensures r.Failure? <==> iv >= field.Nvar() || |arr| != PlaneSize(field.grid.ncelm, odd)
      ensures r.Failure? ==> r.error == OutOfRange && unchanged(field.so1)
      ensures r.Success? ==> Column(field.so1, iv) == WithPlane(old(Column(field.so1, iv)), field.grid.ncelm, odd, arr)
      ensures forall v :: 0 <= v < field.Nvar() && v != iv ==> Column(field.so1, v) == old(Column(field.so1, v))
    {
      if iv >= field.Nvar() {
        return Failure(OutOfRange);
      }
      var count := field.grid.NSelm() - (if odd then 1 else 0);
      if count != |arr| {
        return Failure(OutOfRange);
      }
      ghost var n := field.grid.ncelm;
      ghost var c0 := Column(field.so1, iv);
      WithPlaneEnds(c0, n, odd, arr);
      for it := 0 to count
        invariant Column(field.so1, iv) == WithPlane(c0, n, odd, Spliced(arr, PlaneOf(c0, n, odd), it))
        invariant forall v :: 0 <= v < field.Nvar() && v != iv ==> Column(field.so1, v) == old(Column(field.so1, v))
      {
        WithPlaneStep(c0, n, odd, arr, it);
        field.SelmView(it, odd).SetSo1(iv, arr[it]);
      }
      return Success(());
    }

    /** set_cfl(arr, odd_plane): out_of_range, with nothing written, on a size mismatch; otherwise the plane's Selms take arr. */
    method SetCfl(arr: seq<real>, odd: bool) returns (r: Result<()>)
      requires Valid()
      modifies field.cfl
      ensures Valid()
      ensures r.Failure? <==> |arr| != PlaneSize(field.grid.ncelm, odd)
      ensures r.Failure? ==> r.error == OutOfRange && unchanged(field.cfl)
      ensures r.Success? ==> field.cfl[..] == WithPlane(old(field.cfl[..]), field.grid.ncelm, odd, arr)
    {
      var count := field.grid.NSelm() - (if odd then 1 else 0);
      if count != |arr| {
        return Failure(OutOfRange);
      }
      ghost var n := field.grid.ncelm;
      ghost var c0 := field.cfl[..];
      WithPlaneEnds(c0, n, odd, arr);
      for it := 0 to count
        invariant field.cfl[..] == WithPlane(c0, n, odd, Spliced(arr, PlaneOf(c0, n, odd), it))
      {
        WithPlaneStep(c0, n, odd, arr, it);
        field.SetCfl(XindexSelm(it, odd), arr[it]);
      }
      return Success(());
    }
  }

  /** LinearScalarSolver::construct(grid, time_increment): one variable, linear-advection elements. */
  method NewLinearScalarSolver(grid: Grid, timeIncrement: real) returns (s: Solver)
    requires grid.Valid()
    ensures fresh(s) && fresh(s.field) && s.Marchable()
    ensures s.kernel == K.LinearScalar && s.field.grid == grid && s.field.Nvar() == 1
    ensures s.field.TimeIncrement() == timeIncrement
    ensures fresh(s.field.so0) && fresh(s.field.so1) && fresh(s.field.cfl)
  {
    s := new Solver(grid, timeIncrement, 1, K.LinearScalar);
  }

  /** InviscidBurgersSolver::construct(grid, time_increment): one variable, Burgers elements. */
  method NewInviscidBurgersSolver(grid: Grid, timeIncrement: real) returns (s: Solver)
    requires grid.Valid()
    ensures fresh(s) && fresh(s.field) && s.Marchable()
    ensures s.kernel == K.InviscidBurgers && s.field.grid == grid && s.field.Nvar() == 1
    ensures s.field.TimeIncrement() == timeIncrement
    ensures fresh(s.field.so0) && fresh(s.field.so1) && fresh(s.field.cfl)
  {
    s := new Solver(grid, timeIncrement, 1, K.InviscidBurgers);
  }

  /** A column holding 1 at every Selm target of the even plane reads out as an even plane of ones. */
  lemma EvenPlaneOnes(col: seq<real>, ncelm: nat)
    requires |col| == 2 * ncelm + 1 + 2 * BOUND_COUNT
    requires forall o :: M.SelmTarget(ncelm, false, o) ==> col[o] == 1.0
    ensures var plane := PlaneOf(col, ncelm, false);
      |plane| == ncelm + 1 && forall k :: 0 <= k < |plane| ==> plane[k] == 1.0
  {
    var plane := PlaneOf(col, ncelm, false);
    forall k | 0 <= k < |plane|
      ensures plane[k] == 1.0
    {
      assert M.SelmTarget(ncelm, false, XindexSelm(k, false));
    }
  }

  /**
   * The march of the linear-scalar solver's own test: a uniform grid, a time
   * increment of one cell width, setup_march and at least one step of
   * march_alpha.  get_cfl of the even plane then holds 1 for every Selm, and
   * so does the odd plane; the initial so0 and so1 play no part.
   */
  method MarchUniformLinear(xmin: real, xmax: real, ncelm: nat, alpha: nat, steps: nat) returns (r: Result<seq<real>>)
    requires steps >= 1
    ensures r.Success? <==> ncelm >= 1 && xmin < xmax
    ensures r.Failure? ==> r.error == InvalidArgument
    ensures r.Success? ==> |r.value| == ncelm + 1 && forall k :: 0 <= k < |r.value| ==> r.value[k] == 1.0
  {
    var g := NewUniformGrid(xmin, xmax, ncelm);
    if g.Failure? {
      return Failure(g.error);
    }
    var grid := g.value;
    var s := NewLinearScalarSolver(grid, CellWidth(xmin, xmax, ncelm));
    s.SetupMarch();
    ghost var env := s.EnvOf();
    ghost var p0 := s.PlanesOf();
    assert env.hdt == CellWidth(xmin, xmax, ncelm) / 2.0;
    s.MarchAlpha(alpha, steps);
    assert s.field.cfl[..] == M.March(env, p0, alpha, steps).cfl;
    M.UniformMarchCflIsOne(env, p0, alpha, steps, xmin, xmax);
    EvenPlaneOnes(s.field.cfl[..], ncelm);
    var even := s.GetCfl(false);
    return Success(even);
  }
}
