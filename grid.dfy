/**
 * The staggered one-dimensional space-time grid of Grid_decl.hpp and Grid.hpp.
 *
 * The coordinate array holds the ncelm + 1 conservation-element boundaries at
 * even offsets, the ncelm cell centres at the odd offsets between them, and
 * BOUND_COUNT mirrored ghost points on each side.
 */
module Grids {
  import opened Outcomes

  /** Number of ghost coordinates on each side of the domain. */
  const BOUND_COUNT: nat := 2

  /** The static assertion of the class: at least two ghost layers. */
  lemma BoundCountAtLeastTwo()
    ensures BOUND_COUNT >= 2 && BOUND_COUNT % 2 == 0
  {
  }

  function PlaneShift(oddPlane: bool): int
  {
    if oddPlane then 1 else 0
  }

  /** Coordinate offset of the conservation element ielm on the given plane (xindex_celm). */
  function XindexCelm(ielm: int, oddPlane: bool): int
  {
    1 + BOUND_COUNT + 2 * ielm + PlaneShift(oddPlane)
  }

  /** Coordinate offset of the solution element ielm on the given plane (xindex_selm). */
  function XindexSelm(ielm: int, oddPlane: bool): int
  {
    BOUND_COUNT + 2 * ielm + PlaneShift(oddPlane)
  }

  /** Conservation and solution elements interleave: the Celm with the same index and plane sits one offset right of the Selm. */
  lemma CelmFollowsSelm(ielm: int, oddPlane: bool)
    ensures XindexCelm(ielm, oddPlane) == XindexSelm(ielm, oddPlane) + 1
    ensures XindexSelm(ielm, oddPlane) == 2 + 2 * ielm + PlaneShift(oddPlane)
  {
  }

  /** Adjacent entries strictly increase. */
  ghost predicate Increasing(s: seq<real>)
  {
    forall k :: 0 <= k < |s| - 1 ==> s[k] < s[k + 1]
  }

  /** Strict increase of neighbours gives strict increase of every ordered pair. */
  lemma {:induction false} IncreasingPairwise(s: seq<real>, i: int, j: int)
    requires Increasing(s)
    requires 0 <= i < j < |s|
    ensures s[i] < s[j]
  {
    if j > i + 1 {
      IncreasingPairwise(s, i, j - 1);
    }
  }

  /** What init_from_array accepts: at least two points, strictly increasing. */
  ghost predicate ValidXloc(xloc: seq<real>)
  {
    |xloc| >= 2 && Increasing(xloc)
  }

  /** The cell boundaries xloc sit at the even offsets from BOUND_COUNT on. */
  ghost predicate BoundariesPlaced(xloc: seq<real>, xc: seq<real>)
  {
    && |xc| == 2 * |xloc| - 1 + 2 * BOUND_COUNT
    && forall k :: 0 <= k < |xloc| ==> xc[2 * k + BOUND_COUNT] == xloc[k]
  }

  /** Every cell centre, at an odd offset between boundaries, is the mean of its two neighbours. */
  ghost predicate CentresAreMidpoints(xc: seq<real>)
  {
    forall k :: 0 <= k && 2 * k + BOUND_COUNT + 2 < |xc| - BOUND_COUNT ==>
      xc[2 * k + BOUND_COUNT + 1] == (xc[2 * k + BOUND_COUNT] + xc[2 * k + BOUND_COUNT + 2]) / 2.0
  }

  /** The ghost points mirror the interior about the first and the last boundary. */
  ghost predicate GhostsMirrored(xc: seq<real>)
    requires |xc| >= 2 * BOUND_COUNT + 1
  {
    var front := BOUND_COUNT;
    var back := |xc| - BOUND_COUNT - 1;
    && (forall m :: 0 <= m < front ==> xc[m] == xc[front] + xc[front] - xc[2 * front - m])
    && (forall m :: back < m < |xc| ==> xc[m] == xc[back] + xc[back] - xc[2 * back - m])
  }

  /** The coordinate array init_from_array builds from the boundary points xloc. */
  ghost predicate IsCoordinateArray(xloc: seq<real>, xc: seq<real>)
  {
    && |xloc| >= 2
    && BoundariesPlaced(xloc, xc)
    && CentresAreMidpoints(xc)
    && GhostsMirrored(xc)
  }

  /** The mean of two reals lies strictly between them. */
  lemma MidpointBetween(lo: real, hi: real)
    requires lo < hi
    ensures lo < (lo + hi) / 2.0 < hi
  {
  }

  /** Between the first and the last boundary the coordinates strictly increase. */
  lemma InteriorIncreasing(xloc: seq<real>, xc: seq<real>, k: int)
    requires Increasing(xloc) && BoundariesPlaced(xloc, xc) && CentresAreMidpoints(xc)
    requires BOUND_COUNT <= k < |xc| - BOUND_COUNT - 1
    ensures xc[k] < xc[k + 1]
  {
    var i := (k - BOUND_COUNT) / 2;
    var lo, hi := xloc[i], xloc[i + 1];
    assert xc[2 * i + BOUND_COUNT] == lo;
    assert xc[2 * (i + 1) + BOUND_COUNT] == hi;
    assert lo < hi;
    assert xc[2 * i + BOUND_COUNT + 1] == (xc[2 * i + BOUND_COUNT] + xc[2 * i + BOUND_COUNT + 2]) / 2.0;
    MidpointBetween(lo, hi);
    if k == 2 * i + BOUND_COUNT {
    } else {
      assert k == 2 * i + BOUND_COUNT + 1;
    }
  }

  /** A strictly increasing xloc gives a strictly increasing coordinate array, ghost points included. */
  lemma CoordinatesIncreasing(xloc: seq<real>, xc: seq<real>)
    requires ValidXloc(xloc) && IsCoordinateArray(xloc, xc)
    ensures Increasing(xc)
  {
    var front := BOUND_COUNT;
    var back := |xc| - BOUND_COUNT - 1;
    forall k | 0 <= k < |xc| - 1
      ensures xc[k] < xc[k + 1]
    {
      if k < front {
        // mirrored image of the interior step at 2 * front - k - 1
        InteriorIncreasing(xloc, xc, 2 * front - k - 1);
        if k + 1 < front {
          assert xc[k + 1] == xc[front] + xc[front] - xc[2 * front - (k + 1)];
        }
      } else if k >= back {
        InteriorIncreasing(xloc, xc, 2 * back - k - 1);
        assert xc[k + 1] == xc[back] + xc[back] - xc[2 * back - (k + 1)];
      } else {
        InteriorIncreasing(xloc, xc, k);
      }
    }
  }

  /** The validation loop of init_from_array: fails unless there are two points and each is below its successor. */
  method ValidateXloc(xloc: seq<real>) returns (ok: bool)
    ensures ok <==> ValidXloc(xloc)
  {
    if |xloc| < 2 {
      return false;
    }
    var it := 0;
    while it < |xloc| - 1
      invariant 0 <= it <= |xloc| - 1
      invariant forall k :: 0 <= k < it ==> xloc[k] < xloc[k + 1]
    {
      if xloc[it] >= xloc[it + 1] {
        return false;
      }
      it := it + 1;
    }
    return true;
  }

  /** First pass of init_from_array: the boundaries go to the even offsets. */
  method FillBoundaries(xc: array<real>, xloc: seq<real>)
    requires xc.Length == 2 * |xloc| - 1 + 2 * BOUND_COUNT
    modifies xc
    ensures BoundariesPlaced(xloc, xc[..])
  {
    var it := 0;
    while it < |xloc|
      invariant 0 <= it <= |xloc|
      invariant forall k :: 0 <= k < it ==> xc[2 * k + BOUND_COUNT] == xloc[k]
    {
      xc[it * 2 + BOUND_COUNT] := xloc[it];
      it := it + 1;
    }
  }

  /** Second pass: each centre becomes the mean of the boundaries beside it; the boundaries stay. */
  method FillCentres(xc: array<real>, ncelm: nat)
    requires xc.Length == 2 * ncelm + 1 + 2 * BOUND_COUNT
    modifies xc
    ensures CentresAreMidpoints(xc[..])
    ensures forall k :: 0 <= k <= ncelm ==> xc[2 * k + BOUND_COUNT] == old(xc[2 * k + BOUND_COUNT])
  {
    var it := 0;
    while it < ncelm
      invariant 0 <= it <= ncelm
      invariant forall k :: 0 <= k <= ncelm ==> xc[2 * k + BOUND_COUNT] == old(xc[2 * k + BOUND_COUNT])
      invariant forall k :: 0 <= k < it ==>
        xc[2 * k + BOUND_COUNT + 1] == (xc[2 * k + BOUND_COUNT] + xc[2 * k + BOUND_COUNT + 2]) / 2.0
    {
      var ref := it * 2 + BOUND_COUNT + 1;
      xc[ref] := (xc[ref - 1] + xc[ref + 1]) / 2.0;
      it := it + 1;
    }
  }

  /** s after the first n steps of the third pass: step n mirrors the point n before the first boundary and the point n after the last. */
  ghost function MirroredUpTo(s: seq<real>, n: nat): (r: seq<real>)
    requires |s| >= 3 * BOUND_COUNT + 1 && n <= BOUND_COUNT
    ensures |r| == |s|
    decreases n
  {
    if n == 0 then s
    else
      var front, back := BOUND_COUNT, |s| - BOUND_COUNT - 1;
      var cur := MirroredUpTo(s, n - 1);
      cur[front - n := cur[front] + cur[front] - cur[front + n]][back + n := cur[back] + cur[back] - cur[back - n]]
  }

  /** Point m after n steps: the image of the interior about the nearer boundary when m is one of the n points outside it, s[m] otherwise. */
  ghost function MirrorImage(s: seq<real>, n: nat, m: nat): real
    requires |s| >= 3 * BOUND_COUNT + 1 && n <= BOUND_COUNT && m < |s|
  {
    var front, back := BOUND_COUNT, |s| - BOUND_COUNT - 1;
    if front - n <= m < front then s[front] + s[front] - s[2 * front - m]
    else if back < m <= back + n then s[back] + s[back] - s[2 * back - m]
    else s[m]
  }

  /** After n steps the n points nearest each end are the mirror images of the interior of s, and every other point is s's. */
  lemma {:induction false} MirroredPoints(s: seq<real>, n: nat)
    requires |s| >= 3 * BOUND_COUNT + 1 && n <= BOUND_COUNT
    ensures forall m :: 0 <= m < |s| ==>
      MirroredUpTo(s, n)[m] == MirrorImage(s, n, m)
    decreases n
  {
    if n > 0 {
      MirroredPoints(s, n - 1);
    }
  }

  /** A sequence holding every point's image after all BOUND_COUNT steps has its ghost points mirrored and s's interior. */
  lemma MirroredAll(s: seq<real>, r: seq<real>)
    requires |s| >= 3 * BOUND_COUNT + 1 && |r| == |s|
    requires forall m :: 0 <= m < |s| ==> r[m] == MirrorImage(s, BOUND_COUNT, m)
    ensures GhostsMirrored(r)
    ensures forall m :: BOUND_COUNT <= m < |s| - BOUND_COUNT ==> r[m] == s[m]
  {
    var front, back := BOUND_COUNT, |s| - BOUND_COUNT - 1;
    assert r[front] == MirrorImage(s, BOUND_COUNT, front);
    assert r[back] == MirrorImage(s, BOUND_COUNT, back);
    forall m | 0 <= m < front
      ensures r[m] == r[front] + r[front] - r[2 * front - m]
    {
      assert r[m] == MirrorImage(s, BOUND_COUNT, m);
      assert r[2 * front - m] == MirrorImage(s, BOUND_COUNT, 2 * front - m);
    }
    forall m | back < m < |s|
      ensures r[m] == r[back] + r[back] - r[2 * back - m]
    {
      assert r[m] == MirrorImage(s, BOUND_COUNT, m);
      assert r[2 * back - m] == MirrorImage(s, BOUND_COUNT, 2 * back - m);
    }
    forall m | BOUND_COUNT <= m < |s| - BOUND_COUNT
      ensures r[m] == s[m]
    {
      assert r[m] == MirrorImage(s, BOUND_COUNT, m);
    }
  }

  /** Third pass: mirror BOUND_COUNT points about each end; the interior stays. */
  method FillGhosts(xc: array<real>)
    requires xc.Length >= 3 * BOUND_COUNT + 1
    modifies xc
    ensures GhostsMirrored(xc[..])
    ensures forall m :: BOUND_COUNT <= m < xc.Length - BOUND_COUNT ==> xc[m] == old(xc[m])
  {
    ghost var s := xc[..];
    var front := BOUND_COUNT;
    var back := xc.Length - BOUND_COUNT - 1;
    var it := 1;
    while it <= BOUND_COUNT
      invariant 1 <= it <= BOUND_COUNT + 1
      invariant xc[..] == MirroredUpTo(s, it - 1)
    {
      ghost var cur := xc[..];
      xc[front - it] := xc[front] + xc[front] - xc[front + it];
      xc[back + it] := xc[back] + xc[back] - xc[back - it];
      assert xc[..] == cur[front - it := cur[front] + cur[front] - cur[front + it]]
                          [back + it := cur[back] + cur[back] - cur[back - it]];
      it := it + 1;
    }
    MirroredPoints(s, it - 1);
    MirroredAll(s, xc[..]);
  }

  /** The three fill passes of init_from_array: boundaries, centres, then ghost points. */
  method FillCoordinates(xloc: seq<real>) returns (xcoord: seq<real>)
    requires |xloc| >= 2
    ensures IsCoordinateArray(xloc, xcoord)
  {
    var ncelm := |xloc| - 1;
    var nx := ncelm * 2 + (1 + BOUND_COUNT * 2);
    var xc := new real[nx];
    FillBoundaries(xc, xloc);
    ghost var placed := xc[..];
    FillCentres(xc, ncelm);
    ghost var centred := xc[..];
    FillGhosts(xc);
    xcoord := xc[..];
    assert BoundariesPlaced(xloc, xcoord) by {
      forall k | 0 <= k < |xloc|
        ensures xcoord[2 * k + BOUND_COUNT] == xloc[k]
      {
        assert placed[2 * k + BOUND_COUNT] == xloc[k];
        assert centred[2 * k + BOUND_COUNT] == xloc[k];
      }
    }
    assert CentresAreMidpoints(xcoord) by {
      forall k | 0 <= k && 2 * k + BOUND_COUNT + 2 < |xcoord| - BOUND_COUNT
        ensures xcoord[2 * k + BOUND_COUNT + 1] == (xcoord[2 * k + BOUND_COUNT] + xcoord[2 * k + BOUND_COUNT + 2]) / 2.0
      {
        assert centred[2 * k + BOUND_COUNT + 1] == (centred[2 * k + BOUND_COUNT] + centred[2 * k + BOUND_COUNT + 2]) / 2.0;
      }
    }
  }

  /** Repeated addition of a step d: k steps and one more make k + 1 steps. */
  lemma StepAdd(k: int, d: real)
    ensures (k as real) * d + d == ((k + 1) as real) * d
  {
  }

  /** Fewer positive steps reach less far. */
  lemma StepMonotone(j: int, k: int, d: real)
    requires j < k && d > 0.0
    ensures (j as real) * d < (k as real) * d
  {
  }

  /** The cell width (xmax - xmin) / ncelm of the uniform constructor. */
  function CellWidth(xmin: real, xmax: real, ncelm: nat): real
    requires ncelm >= 1
  {
    (xmax - xmin) / (ncelm as real)
  }

  /** The boundary points the uniform constructor fills: k cell widths after xmin, the last one replaced by xmax. */
  function UniformPoints(xmin: real, xmax: real, ncelm: nat): (r: seq<real>)
    requires ncelm >= 1
    ensures |r| == ncelm + 1 && r[0] == xmin && r[ncelm] == xmax
  {
    seq(ncelm + 1, k requires 0 <= k <= ncelm =>
      if k == ncelm then xmax else xmin + (k as real) * CellWidth(xmin, xmax, ncelm))
  }

  /** The uniform points are equally spaced: replacing the last point by xmax keeps the last step a cell width. */
  lemma UniformSteps(xmin: real, xmax: real, ncelm: nat)
    requires ncelm >= 1
    ensures forall k :: 0 <= k < ncelm ==>
      UniformPoints(xmin, xmax, ncelm)[k + 1] - UniformPoints(xmin, xmax, ncelm)[k] == CellWidth(xmin, xmax, ncelm)
  {
    var xloc, xspace := UniformPoints(xmin, xmax, ncelm), CellWidth(xmin, xmax, ncelm);
    assert (ncelm as real) * xspace == xmax - xmin;
    forall k | 0 <= k < ncelm
      ensures xloc[k + 1] - xloc[k] == xspace
    {
      StepAdd(k, xspace);
    }
  }

  /** Between the first and the last boundary, boundary points w apart and midpoint centres are w / 2 apart. */
  lemma InteriorSpacing(xloc: seq<real>, w: real, xc: seq<real>, o: int)
    requires BoundariesPlaced(xloc, xc) && CentresAreMidpoints(xc)
    requires forall k :: 0 <= k < |xloc| - 1 ==> xloc[k + 1] - xloc[k] == w
    requires BOUND_COUNT <= o < |xc| - BOUND_COUNT - 1
    ensures xc[o + 1] - xc[o] == w / 2.0
  {
    var k := (o - BOUND_COUNT) / 2;
    assert 0 <= k < |xloc| - 1;
    assert xc[2 * k + BOUND_COUNT] == xloc[k];
    assert xc[2 * k + BOUND_COUNT + 2] == xloc[k + 1];
    assert xc[2 * k + BOUND_COUNT + 1] == (xc[2 * k + BOUND_COUNT] + xc[2 * k + BOUND_COUNT + 2]) / 2.0;
  }

  /** Boundary points w apart give a coordinate array whose neighbouring points, ghosts included, are w / 2 apart. */
  lemma EqualSpacing(xloc: seq<real>, w: real, xc: seq<real>)
    requires IsCoordinateArray(xloc, xc)
    requires forall k :: 0 <= k < |xloc| - 1 ==> xloc[k + 1] - xloc[k] == w
    ensures forall o :: 0 <= o < |xc| - 1 ==> xc[o + 1] - xc[o] == w / 2.0
  {
    var back := |xc| - BOUND_COUNT - 1;
    forall o | BOUND_COUNT <= o < back
      ensures xc[o + 1] - xc[o] == w / 2.0
    {
      InteriorSpacing(xloc, w, xc, o);
    }
    InteriorSpacing(xloc, w, xc, 2);
    InteriorSpacing(xloc, w, xc, 3);
    InteriorSpacing(xloc, w, xc, back - 1);
    InteriorSpacing(xloc, w, xc, back - 2);
    assert xc[0] == xc[2] + xc[2] - xc[4] && xc[1] == xc[2] + xc[2] - xc[3];
    assert xc[back + 1] == xc[back] + xc[back] - xc[back - 1];
    assert xc[back + 2] == xc[back] + xc[back] - xc[back - 2];
  }

  /**
   * On the coordinate array of the uniform points every two neighbouring
   * coordinates, the mirrored ghosts included, are half a cell width apart.
   */
  lemma UniformSpacing(xmin: real, xmax: real, ncelm: nat, xc: seq<real>)
    requires ncelm >= 1 && IsCoordinateArray(UniformPoints(xmin, xmax, ncelm), xc)
    ensures |xc| == 2 * ncelm + 1 + 2 * BOUND_COUNT
    ensures forall o :: 0 <= o < |xc| - 1 ==> xc[o + 1] - xc[o] == CellWidth(xmin, xmax, ncelm) / 2.0
  {
    UniformSteps(xmin, xmax, ncelm);
    EqualSpacing(UniformPoints(xmin, xmax, ncelm), CellWidth(xmin, xmax, ncelm), xc);
  }

  /** A list of ncelm + 1 points, k cell widths after xmin and ending at xmax, is the uniform points. */
  lemma UniformPointsAre(xmin: real, xmax: real, ncelm: nat, xloc: seq<real>)
    requires ncelm >= 1 && |xloc| == ncelm + 1 && xloc[ncelm] == xmax
    requires forall k :: 0 <= k < ncelm ==> xloc[k] == xmin + (k as real) * CellWidth(xmin, xmax, ncelm)
    ensures xloc == UniformPoints(xmin, xmax, ncelm)
  {
    var u := UniformPoints(xmin, xmax, ncelm);
    forall k | 0 <= k <= ncelm
      ensures xloc[k] == u[k]
    {
    }
  }

  /** The boundary points of the uniform constructor: xmin, then repeated additions of the cell width, then xmax. */
  method UniformBoundaries(xmin: real, xmax: real, ncelm: nat) returns (xloc: seq<real>)
    requires ncelm >= 1 && xmin < xmax
    ensures xloc == UniformPoints(xmin, xmax, ncelm)
    ensures |xloc| == ncelm + 1
    ensures xloc[0] == xmin && xloc[ncelm] == xmax
    ensures forall k :: 0 <= k < ncelm ==> xloc[k] == xmin + (k as real) * CellWidth(xmin, xmax, ncelm)
    ensures ValidXloc(xloc)
  {
    var xspace := CellWidth(xmin, xmax, ncelm);
    var a := new real[ncelm + 1];
    a[0] := xmin;
    var it := 1;
    while it < ncelm
      invariant 1 <= it <= ncelm
      invariant forall k :: 0 <= k < it ==> a[k] == xmin + (k as real) * xspace
    {
      StepAdd(it - 1, xspace);
      a[it] := a[it - 1] + xspace;
      it := it + 1;
    }
    a[ncelm] := xmax;
    xloc := a[..];
    assert forall k :: 0 <= k < ncelm ==> xloc[k] == xmin + (k as real) * xspace;
    UniformIncreasing(xmin, xmax, ncelm, xloc);
    UniformPointsAre(xmin, xmax, ncelm, xloc);
  }

  /** The uniform boundary points increase: equal positive steps, and the last one lands on xmax. */
  lemma UniformIncreasing(xmin: real, xmax: real, ncelm: nat, xloc: seq<real>)
    requires ncelm >= 1 && xmin < xmax
    requires |xloc| == ncelm + 1 && xloc[ncelm] == xmax
    requires forall k :: 0 <= k < ncelm ==> xloc[k] == xmin + (k as real) * CellWidth(xmin, xmax, ncelm)
    ensures ValidXloc(xloc)
  {
    var xspace := CellWidth(xmin, xmax, ncelm);
    assert xspace > 0.0;
    assert (ncelm as real) * xspace == xmax - xmin;
    forall k | 0 <= k < |xloc| - 1
      ensures xloc[k] < xloc[k + 1]
    {
      if k + 1 < ncelm {
        StepAdd(k, xspace);
      } else {
        StepMonotone(k, ncelm, xspace);
      }
    }
  }

  class Grid {
    const xmin: real
    const xmax: real
    const ncelm: nat
    const xcoord: seq<real>

    /** The class invariant established by construction: ncelm cells, the coordinate array increasing, and the bounds at the first and last boundary. */
    ghost predicate Valid()
    {
      && ncelm >= 1
      && |xcoord| == 2 * ncelm + 1 + 2 * BOUND_COUNT
      && Increasing(xcoord)
      && xcoord[BOUND_COUNT] == xmin
      && xcoord[2 * ncelm + BOUND_COUNT] == xmax
    }

    /** One more solution element than conservation elements. */
    function NSelm(): (r: nat)
      ensures r == ncelm + 1
    {
      ncelm + 1
    }

    function XSize(): nat
    {
      |xcoord|
    }

    /** Grid(xloc) after validation: init_from_array without its checks. */
    constructor FromArray(xloc: seq<real>)
      requires ValidXloc(xloc)
      ensures Valid()
      ensures ncelm == |xloc| - 1 && xmin == xloc[0] && xmax == xloc[|xloc| - 1]
      ensures IsCoordinateArray(xloc, xcoord)
    {
      var xc := FillCoordinates(xloc);
      CoordinatesIncreasing(xloc, xc);
      ncelm := |xloc| - 1;
      xmin := xloc[0];
      xmax := xloc[|xloc| - 1];
      xcoord := xc;
    }

    /** The defaulted copy constructor. */
    constructor CopyOf(other: Grid)
      ensures xmin == other.xmin && xmax == other.xmax && ncelm == other.ncelm && xcoord == other.xcoord
    {
      xmin := other.xmin;
      xmax := other.xmax;
      ncelm := other.ncelm;
      xcoord := other.xcoord;
    }

    /** clone(): a distinct Grid object with the same bounds, size and coordinates. */
    method Clone() returns (g: Grid)
      ensures fresh(g) && g != this
      ensures g.xmin == xmin && g.xmax == xmax && g.ncelm == ncelm && g.xcoord == xcoord
      ensures Valid() ==> g.Valid()
    {
      g := new Grid.CopyOf(this);
    }
  }

  /** Grid::construct(xloc): fails with invalid_argument exactly when init_from_array rejects xloc. */
  method NewGridFromArray(xloc: seq<real>) returns (r: Result<Grid>)
    ensures r.Success? <==> ValidXloc(xloc)
    ensures r.Failure? ==> r.error == InvalidArgument
    ensures r.Success? ==> fresh(r.value) && r.value.Valid() && IsCoordinateArray(xloc, r.value.xcoord)
    ensures r.Success? ==> r.value.ncelm == |xloc| - 1 && r.value.xmin == xloc[0] && r.value.xmax == xloc[|xloc| - 1]
  {
    var ok := ValidateXloc(xloc);
    if !ok {
      return Failure(InvalidArgument);
    }
    var g := new Grid.FromArray(xloc);
    return Success(g);
  }

  /** Grid::construct(xmin, xmax, ncelm): rejects ncelm < 1 and xmin >= xmax; otherwise a uniform grid whose bounds are the arguments. */
  method NewUniformGrid(xmin: real, xmax: real, ncelm: nat) returns (r: Result<Grid>)
    ensures r.Success? <==> ncelm >= 1 && xmin < xmax
    ensures r.Failure? ==> r.error == InvalidArgument
    ensures r.Success? ==> fresh(r.value) && r.value.Valid()
    ensures r.Success? ==> r.value.xmin == xmin && r.value.xmax == xmax && r.value.ncelm == ncelm
    ensures r.Success? ==> IsCoordinateArray(UniformPoints(xmin, xmax, ncelm), r.value.xcoord)
  {
    if ncelm < 1 {
      return Failure(InvalidArgument);
    }
    if xmin >= xmax {
      return Failure(InvalidArgument);
    }
    var xloc := UniformBoundaries(xmin, xmax, ncelm);
    r := NewGridFromArray(xloc);
  }
}
