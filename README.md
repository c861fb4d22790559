# Space-time CESE solver core, modelled in Dafny

This project models the one-dimensional space-time conservation
element / solution element (CESE) solver `spacetime`, together with the
small dense-matrix classes that sit beside it in the same repository.

- **Grid** (`grid.dfy`, module `Grids`). A staggered coordinate array
  holds:
  - the `ncelm + 1` conservation-element boundaries at even offsets;
  - the cell centres at the odd offsets between them;
  - `BOUND_COUNT = 2` mirrored ghost points at each end.

  Construction validates the boundary points and fills the array in
  three passes. Each pass is an imperative loop over an `array`,
  proved against a predicate, and the result is proved strictly
  increasing.
- **Field** (`field.dfy`, module `Fields`):
  - a class owning `so0`, `so1` (`array2`, `[xsize, nvar]`) and `cfl`
    (`array`), plus the time increment and its cached half and
    quarter;
  - the conservation-element (`Celm`) and solution-element (`Selm`)
    views, a datatype holding the Field and a coordinate offset. It
    covers index and plane recovery, the unchecked and checked moves,
    the comparison operators, the neighbour Selms of a Celm, the
    per-cell reads and writes, and `calc_so0` / `calc_so1_alpha` /
    `update_cfl` read through the Field.
- **Kernels** (`kernels.dfy`, `math.dfy`). These are the per-element
  formulas of the base element classes (all zero), of the
  linear-advection kernel and of the inviscid-Burgers kernel:
  - the fluxes `xn`, `xp`, `tn`, `tp`, the tip value `so0p` and the
    CFL number;
  - the two Celm update formulas;
  - the limiter weight `pow<ALPHA>`.

  They are stated on values (a `Sample` of coordinates, `so0` and
  `so1`). The kernel is an explicit `Kernel` value instead of a
  template parameter.
- **Marching** (`marching.dfy`, `solver.dfy`):
  - `marching.dfy` defines each marching routine of `SolverBase` as a
    whole-plane update of variable 0 of `so0` and `so1` and of `cfl`:
    the half steps, the periodic boundary copies, `setup_march`, one
    step, and `march_alpha` over `steps` steps.
  - The `Solver` class in `solver.dfy` runs the source's loops in
    place on the Field's arrays. Each loop is proved to produce exactly
    that update and to leave every other variable alone.
  - The plane accessors `x`, `xctr`, `get_*` and `set_*` are proved
    against a read-out / write-back pair of functions.
- **Python-binding helpers** (`binding.dfy`): the element iterator
  `SolverElementIterator` and the `ModuleInitializer` registry.
- **Matrices**:
  - `matrix_transposable.dfy`: the transposable row-major `Matrix` of
    `notebook/matrix/gesv.cpp` and `archive/19au_nctu/matrix/06_matrix_vector.cpp`,
    with the naive matrix-matrix and matrix-vector products.
  - `matrix_fixed.dfy`: the fixed-storage-order `Matrix` of
    `notebook/matrix/08_gesv.cpp`.
  - `matrix_layout.dfy`: the shared index map and the logical-matrix
    functions (transpose, product, row-major fill) these classes are
    proved against.

`double` is modelled as `real`; `size_t` and `ssize_t` indices as
unbounded `int`/`nat`. The error paths are `Result` values carrying
`InvalidArgument` or `OutOfRange`: the exceptions the code throws
(`std::invalid_argument`, `std::out_of_range`). They are modelled
instead of being excluded by preconditions.

Two details of the code shape the model:

- The `Field` constructor
  (notebook/11_cpppy/spacetime/include/spacetime/Field.hpp:16-21) builds
  `so0`, `so1` and `cfl` with the shape constructor of the array type,
  which leaves them uninitialised. The model therefore states nothing
  about their initial contents.
- `set_cfl` reports its errors with messages naming `set_so1`. Only
  the error kind (`out_of_range`) is modelled.

## Model

| member | source | states |
|---|---|---|
| Grids.BoundCountAtLeastTwo | notebook/19au_nctu/pybind/spacetime/include/spacetime/Grid_decl.hpp:35-36 | There are at least two ghost layers, and the count is even; the index formulas of the element views rely on the even count. |
| Grids.CelmFollowsSelm | notebook/19au_nctu/pybind/spacetime/include/spacetime/Grid_decl.hpp:102-109 | The Celm with a given index and plane sits exactly one offset right of the Selm with the same index and plane, and Selm `i` of a plane is at offset `2 + 2i` (+1 on the odd plane). |
| Grids.IncreasingPairwise | notebook/19au_nctu/pybind/spacetime/include/spacetime/Grid.hpp:55-65 | The neighbour-by-neighbour check of `init_from_array` implies strict order of every pair of points. |
| Grids.ValidateXloc | notebook/19au_nctu/pybind/spacetime/include/spacetime/Grid.hpp:48-65 | The validation accepts exactly when there are at least two points and each point is below its successor (both directions). |
| Grids.FillBoundaries | notebook/19au_nctu/pybind/spacetime/include/spacetime/Grid.hpp:72-76 | After the first pass, boundary `k` sits at offset `2k + BOUND_COUNT`. |
| Grids.FillCentres | notebook/19au_nctu/pybind/spacetime/include/spacetime/Grid.hpp:77-82 | After the second pass, each centre is the mean of the two boundaries beside it, and the boundaries are unchanged. |
| Grids.MirroredUpTo | notebook/19au_nctu/pybind/spacetime/include/spacetime/Grid.hpp:83-96 | Reference definition of the ghost pass after `n` iterations; it keeps the length. |
| Grids.MirroredPoints | notebook/19au_nctu/pybind/spacetime/include/spacetime/Grid.hpp:83-96 | After `n` iterations, the `n` points beyond each end are reflections of the interior about that end, and every other point is untouched. |
| Grids.MirroredAll | notebook/19au_nctu/pybind/spacetime/include/spacetime/Grid.hpp:83-96 | After all iterations, every ghost point mirrors its interior image about the nearer end boundary, and the interior is the input's. |
| Grids.FillGhosts | notebook/19au_nctu/pybind/spacetime/include/spacetime/Grid.hpp:83-96 | The in-place ghost loop makes every ghost point a mirror image and leaves the interior as it was. |
| Grids.InteriorIncreasing | notebook/19au_nctu/pybind/spacetime/include/spacetime/Grid.hpp:72-82 | Increasing boundaries with midpoint centres give a strictly increasing array between the first and last boundary. |
| Grids.CoordinatesIncreasing | notebook/19au_nctu/pybind/spacetime/include/spacetime/Grid.hpp:70-96 | A valid boundary list yields a coordinate array that is strictly increasing everywhere, the mirrored ghost points included. |
| Grids.FillCoordinates | notebook/19au_nctu/pybind/spacetime/include/spacetime/Grid.hpp:70-96 | The three passes produce an array of `2 ncelm + 5` points with the boundaries placed, the centres at midpoints and the ghosts mirrored. |
| Grids.UniformBoundaries | notebook/19au_nctu/pybind/spacetime/include/spacetime/Grid.hpp:33-40 | The uniform constructor's loop fills exactly `UniformPoints`: the points start at `xmin`, advance by `(xmax - xmin) / ncelm`, end exactly at `xmax`, and pass validation. |
| Grids.UniformPoints | notebook/19au_nctu/pybind/spacetime/include/spacetime/Grid.hpp:33-40 | The uniform boundary list has `ncelm + 1` points, the first `xmin` and the last `xmax`. |
| Grids.UniformSteps | notebook/19au_nctu/pybind/spacetime/include/spacetime/Grid.hpp:33-40 | Neighbouring uniform points are exactly one cell width `(xmax - xmin) / ncelm` apart, the last step included. |
| Grids.EqualSpacing | notebook/19au_nctu/pybind/spacetime/include/spacetime/Grid.hpp:44-96 | Boundaries a fixed width `w` apart give a coordinate array whose neighbours are all `w / 2` apart, ghost points included. |
| Grids.UniformSpacing | notebook/19au_nctu/pybind/spacetime/include/spacetime/Grid.hpp:33-96 | A grid built from the uniform points has `2 ncelm + 5` coordinates, each half a cell width from the next. |
| Grids.UniformIncreasing | notebook/19au_nctu/pybind/spacetime/include/spacetime/Grid.hpp:33-40 | Equal positive steps, with the last point replaced by `xmax`, give a strictly increasing boundary list, so the uniform constructor never fails its own validation. |
| Grids.Grid.NSelm | notebook/19au_nctu/pybind/spacetime/include/spacetime/Grid_decl.hpp:70 | There is one more solution element than conservation elements. |
| Grids.Grid.FromArray | notebook/19au_nctu/pybind/spacetime/include/spacetime/Grid.hpp:66-96 | For a validated list, `ncelm`, `xmin` and `xmax` are taken from it. The coordinate array is the filled one, increasing, with `xmin` and `xmax` at the first and last boundary. |
| Grids.Grid.CopyOf | notebook/19au_nctu/pybind/spacetime/include/spacetime/Grid_decl.hpp:61 | The defaulted copy has the same bounds, cell count and coordinates. |
| Grids.Grid.Clone | notebook/19au_nctu/pybind/spacetime/include/spacetime/Grid_decl.hpp:50-53 | `clone()` returns a distinct, newly allocated Grid equal in every field, and valid if the original is. |
| Grids.NewGridFromArray | notebook/19au_nctu/pybind/spacetime/include/spacetime/Grid.hpp:46-97 | Construction from an array fails with `invalid_argument` exactly when the list is too short or not strictly increasing. Otherwise it yields a valid grid built from the list. |
| Grids.NewUniformGrid | notebook/19au_nctu/pybind/spacetime/include/spacetime/Grid.hpp:15-43 | The uniform constructor fails with `invalid_argument` exactly when `ncelm < 1` or `xmin >= xmax`. Otherwise it yields a valid grid with those bounds and that many cells, whose coordinates are those of the uniform points. |
| SpaceTimeMath.Pow | notebook/pybind/spacetime/include/spacetime/math.hpp:16-34 | `pow<N>` of a non-negative base is non-negative. |
| SpaceTimeMath.PowStep | notebook/pybind/spacetime/include/spacetime/math.hpp:16-34 | For every `N >= 1`, including `N = 1` which has its own specialisation, `pow<N>(b) = pow<N-1>(b) * b`. |
| SpaceTimeMath.PowPositive | notebook/pybind/spacetime/include/spacetime/math.hpp:16-34 | A positive base has a positive power. |
| SpaceTimeMath.PowZeroBase | notebook/pybind/spacetime/include/spacetime/math.hpp:16-34 | Zero to a positive power is zero. |
| SpaceTimeMath.PowAbs | notebook/pybind/spacetime/include/spacetime/math.hpp:16-34 | The power of `|b|` is the absolute value of the power of `b`. |
| Kernels.Xn | notebook/21sp_nctu/11_cpppy/spacetime/include/spacetime/kernel/linear_scalar.hpp:47-52 | The base Selm has zero flux. With zero gradient, the linear and Burgers `xn` flux is the left half width times the value. |
| Kernels.Xp | notebook/20au_nctu/11_cpppy/spacetime/include/spacetime/kernel/inviscid_burgers.hpp:63-68 | The base Selm has zero flux. With zero gradient, `xp` is the right half width times the value. |
| Kernels.Tn | notebook/20au_nctu/11_cpppy/spacetime/include/spacetime/kernel/inviscid_burgers.hpp:73-83 | The base Selm has zero flux. With zero gradient, `tn` is `hdt` times the point flux `f(u)` (`u` for the linear equation, `u^2/2` for Burgers). |
| Kernels.Tp | notebook/21sp_nctu/11_cpppy/spacetime/include/spacetime/kernel/linear_scalar.hpp:71-79 | The base Selm has zero flux. With zero gradient, `tp` is `hdt` times the point flux `f(u)`. |
| Kernels.TnMinusTp | notebook/21sp_nctu/11_cpppy/spacetime/include/spacetime/kernel/linear_scalar.hpp:61-79 | `tn` and `tp` differ only by the time-displacement term, `2 hdt qdt` times it. For the linear kernel that term is `so1`. |
| Kernels.So0p | notebook/21sp_nctu/11_cpppy/spacetime/include/spacetime/kernel/linear_scalar.hpp:81-88 | The projected tip value equals `so0` for the base Selm and wherever the gradient is zero. |
| Kernels.Cfl | notebook/21sp_nctu/11_cpppy/spacetime/include/spacetime/kernel/linear_scalar.hpp:90-96 | The base Selm stores 0. The linear CFL number times the smaller half width is `hdt`; for Burgers it is `abs(u) hdt`. The number is non-negative for a non-negative `hdt`. |
| Kernels.BurgersCflScales | notebook/20au_nctu/11_cpppy/spacetime/include/spacetime/kernel/inviscid_burgers.hpp:112-118 | The Burgers CFL number is the linear one scaled by the wave speed `abs(u)`, and it vanishes where `u` does. |
| Kernels.CalcSo0 | notebook/21sp_nctu/11_cpppy/spacetime/include/spacetime/Celm.hpp:29-39 | The base Celm returns 0 (its partner is CalcSo0Steady). |
| Kernels.CalcSo0Steady | notebook/21sp_nctu/11_cpppy/spacetime/include/spacetime/Celm.hpp:29-39 | Both kernels preserve a uniform state: two lower Selms holding `u` with zero gradient, meeting at one point, give back `u`. |
| Kernels.Weight | notebook/21sp_nctu/11_cpppy/spacetime/include/spacetime/Celm.hpp:55-56 | The limiter weight `pow<ALPHA>(fabs(d))` is non-negative, so the denominator `fap + fan + tiny` is positive. |
| Kernels.AlphaBlendSymmetric | notebook/21sp_nctu/11_cpppy/spacetime/include/spacetime/Celm.hpp:53-58 | The blended slope does not depend on which side is called left. |
| Kernels.WeightedMeanBounded | notebook/21sp_nctu/11_cpppy/spacetime/include/spacetime/Celm.hpp:58 | The cross-weighted quotient stays within any bound that both slopes respect. |
| Kernels.AlphaBlendBounded | notebook/21sp_nctu/11_cpppy/spacetime/include/spacetime/Celm.hpp:53-58 | The blended slope is never steeper than the steeper one-sided slope, for every `ALPHA` and every `tiny > 0`. |
| Kernels.AlphaBlendSameSign | notebook/21sp_nctu/11_cpppy/spacetime/include/spacetime/Celm.hpp:53-58 | Monotone data give a monotone slope: one-sided slopes of one sign blend to that sign. |
| Kernels.AlphaBlendFlatSide | notebook/21sp_nctu/11_cpppy/spacetime/include/spacetime/Celm.hpp:53-58 | For `ALPHA >= 1`, a flat side (zero one-sided slope, e.g. at an extremum) forces a zero blended slope. |
| Kernels.AlphaBlendZeroAlpha | notebook/21sp_nctu/11_cpppy/spacetime/include/spacetime/Celm.hpp:53-58 | `ALPHA = 0` weighs both sides equally: the result is the plain average damped by `tiny`. |
| Kernels.CalcSo1Alpha | notebook/21sp_nctu/11_cpppy/spacetime/include/spacetime/Celm.hpp:41-59 | The base Celm returns 0 (its partners are the AlphaBlend lemmas and CalcSo1AlphaFlat). |
| Kernels.CalcSo1AlphaFlat | notebook/21sp_nctu/11_cpppy/spacetime/include/spacetime/Celm.hpp:41-59 | When both neighbours' projected tips equal the new top value, the new gradient is zero. |
| Fields.Field.constructor | notebook/11_cpppy/spacetime/include/spacetime/Field.hpp:15-23 | The arrays are newly allocated with `xsize` rows and `nvar` columns, the grid is the given one, and the time increment and its fractions are set. |
| Fields.Field.CopyOf | notebook/20au_nctu/11_cpppy/spacetime/include/spacetime/Field_decl.hpp:41 | The copy has newly allocated arrays with equal contents and the same times; only the grid pointer is the given one. |
| Fields.Field.Dt | notebook/20au_nctu/11_cpppy/spacetime/include/spacetime/Field_decl.hpp:82-83 | `dt()` and `time_increment()` read the same stored value. |
| Fields.Field.SetTimeIncrement | notebook/11_cpppy/spacetime/include/spacetime/Field.hpp:25-31 | Stores `t`, `t/2` and `t/4` together and changes nothing else. |
| Fields.Field.SetGrid | notebook/20au_nctu/11_cpppy/spacetime/include/spacetime/Field_decl.hpp:59 | Only the grid pointer is rebound. The Field stays consistent exactly when the new grid has the same number of coordinates. |
| Fields.Field.Clone | notebook/20au_nctu/11_cpppy/spacetime/include/spacetime/Field_decl.hpp:47-52 | A new Field with copied arrays and times. It shares the grid, or holds a new copy equal in every field when the flag is set. |
| Fields.Field.SetSo0 | notebook/20au_nctu/11_cpppy/spacetime/include/spacetime/Field_decl.hpp:71-72 | Writing `so0(it, iv)` changes exactly that cell and no other column. |
| Fields.Field.SetSo1 | notebook/20au_nctu/11_cpppy/spacetime/include/spacetime/Field_decl.hpp:73-74 | Writing `so1(it, iv)` changes exactly that cell and no other column. |
| Fields.Field.SetCfl | notebook/20au_nctu/11_cpppy/spacetime/include/spacetime/Field_decl.hpp:75-76 | Writing `cfl(it)` changes exactly that cell. |
| Fields.Field.CelmView | notebook/20au_nctu/11_cpppy/spacetime/include/spacetime/Field_decl.hpp:88-89 | The view built by `celm(ielm, odd)` reports back the same index and plane. |
| Fields.Field.SelmView | notebook/20au_nctu/11_cpppy/spacetime/include/spacetime/Field_decl.hpp:95-96 | The view built by `selm(ielm, odd)` reports back the same index and plane. |
| Fields.Field.CelmAt | notebook/11_cpppy/spacetime/include/spacetime/Field.hpp:49-62 | Raises `out_of_range` exactly when the offset leaves `[2, xsize - 2)`. Otherwise it returns the unchecked view. |
| Fields.Field.SelmAt | notebook/11_cpppy/spacetime/include/spacetime/Field.hpp:80-93 | Raises `out_of_range` exactly when the offset leaves `[1, xsize - 1)`. Otherwise it returns the unchecked view. |
| Fields.Element.OnEvenPlane | notebook/19au_nctu/pybind/spacetime/include/spacetime/Celm_decl.hpp:54-55 | Every element is on exactly one of the two planes. |
| Fields.Element.IndexRoundTrip | notebook/19au_nctu/pybind/spacetime/include/spacetime/Celm_decl.hpp:45-55 | The shift-based `index()` and the parity-based `on_odd_plane()` invert the offset formula, for Celms and Selms alike. |
| Fields.Element.GeometryOrdered | notebook/19au_nctu/pybind/spacetime/include/spacetime/ElementBase_decl.hpp:45-49 | On a valid grid, `xneg < x < xpos`, both half widths are positive and add up to `dx`, and `xctr` lies inside (it is `x` for a Celm). |
| Fields.Element.Duplicate | notebook/19au_nctu/pybind/spacetime/include/spacetime/ElementBase_decl.hpp:34 | The duplicate compares equal to the original. |
| Fields.Element.Move | notebook/19au_nctu/pybind/spacetime/include/spacetime/ElementBase_decl.hpp:51 | `move(offset)` shifts the offset by exactly `offset` and keeps the kind and the Field. |
| Fields.Element.MoveLaws | notebook/19au_nctu/pybind/spacetime/include/spacetime/ElementBase_decl.hpp:51-57 | Moves compose additively, a zero move is the identity, and left/right and neg/pos undo each other. |
| Fields.Element.MoveIndex | notebook/19au_nctu/pybind/spacetime/include/spacetime/ElementBase_decl.hpp:54-57 | `move_right`/`move_left` step the index by one on the same plane, and `move_pos` switches the plane. |
| Fields.Element.MoveAt | notebook/21sp_nctu/11_cpppy/spacetime/include/spacetime/Celm.hpp:15-27 | `move_at` raises `out_of_range`, leaving the view as it was, exactly when the new offset leaves `[2, xsize - 2)` for a Celm or `[1, xsize - 1)` for a Selm. Otherwise it is `move`. |
| Fields.Element.ComparisonLaws | notebook/19au_nctu/pybind/spacetime/include/spacetime/ElementBase_decl.hpp:64-69 | The six operators form a strict total order, with `==` and `!=` complementary, on views of one kind and one Field. No ordering holds between views of different Fields. |
| Fields.Element.SelmXn | notebook/19au_nctu/pybind/spacetime/include/spacetime/Celm_decl.hpp:67-68 | `selm_xn` is the Selm immediately left of the Celm. |
| Fields.Element.SelmXp | notebook/19au_nctu/pybind/spacetime/include/spacetime/Celm_decl.hpp:70-71 | `selm_xp` is the Selm immediately right of the Celm. |
| Fields.Element.SelmTn | notebook/19au_nctu/pybind/spacetime/include/spacetime/Celm_decl.hpp:73-74 | `selm_tn` is the Selm at the Celm's own offset, on the other plane. |
| Fields.Element.SelmTp | notebook/19au_nctu/pybind/spacetime/include/spacetime/Celm_decl.hpp:76-77 | `selm_tp` is the same view as `selm_tn`. |
| Fields.Element.CalcSo0 | notebook/21sp_nctu/11_cpppy/spacetime/include/spacetime/Celm.hpp:29-39 | `calc_so0` through a view is the kernel formula applied to the neighbour Selms' samples, with the top Selm's `dx`. It is zero for the base class. |
| Fields.Element.CalcSo1Alpha | notebook/21sp_nctu/11_cpppy/spacetime/include/spacetime/Celm.hpp:41-59 | `calc_so1_alpha` through a view is the kernel formula on the neighbour samples and the top Selm's `so0`. It is zero for the base class. |
| Fields.Element.SetSo0 | notebook/current/11_cpppy/spacetime/include/spacetime/Selm_decl.hpp:57-58 | Writing through a Selm view changes only that Selm's cell of that variable. |
| Fields.Element.SetSo1 | notebook/current/11_cpppy/spacetime/include/spacetime/Selm_decl.hpp:60-61 | Writing through a Selm view changes only that Selm's cell of that variable. |
| Fields.Element.UpdateCfl | notebook/current/11_cpppy/spacetime/include/spacetime/Selm_decl.hpp:73 | `update_cfl` stores the kernel's CFL number (zero for the base class) in this Selm's cell, returns the stored value, and touches no other cell. |
| Marching.CelmTargetIsLoopRange | notebook/pybind/spacetime/include/spacetime/SolverBase.hpp:111-116 | The offsets a Celm loop writes are exactly `selm_tp` of `ic` for `ic` in `[start, ncelm)` (both directions). |
| Marching.SelmTargetIsLoopRange | notebook/pybind/spacetime/include/spacetime/SolverBase.hpp:123-128 | The offsets `update_cfl` writes are exactly those of Selm `ic` for `ic` in `[start, nselm)` (both directions). |
| Marching.SampleOrdered | notebook/19au_nctu/pybind/spacetime/include/spacetime/ElementBase_decl.hpp:45-48 | Every Selm a loop reads has its neighbours on either side, so the kernel formulas are well defined. |
| Marching.CelmTargetInterior | notebook/pybind/spacetime/include/spacetime/SolverBase.hpp:111-116 | Every Celm the loops visit, the odd-plane Celm `-1` included, lies in the range `celm_at` accepts. |
| Marching.SweepSo0 | notebook/pybind/spacetime/include/spacetime/SolverBase.hpp:113-117 | The so0 sweep, visiting offsets in increasing order, writes only the Celm targets. |
| Marching.SweepSo1 | notebook/pybind/spacetime/include/spacetime/SolverBase.hpp:137-141 | The so1 sweep writes only the Celm targets. |
| Marching.SweepCfl | notebook/pybind/spacetime/include/spacetime/SolverBase.hpp:125-128 | The cfl sweep writes only the Selm targets. |
| Marching.SweepSo0At | notebook/pybind/spacetime/include/spacetime/SolverBase.hpp:113-117 | Targets already passed hold `calc_so0` of the starting plane, and targets not yet reached are untouched. |
| Marching.SweepSo1At | notebook/pybind/spacetime/include/spacetime/SolverBase.hpp:137-141 | Targets already passed hold `calc_so1_alpha` of the starting plane, and targets not yet reached are untouched. |
| Marching.SweepCflAt | notebook/pybind/spacetime/include/spacetime/SolverBase.hpp:125-128 | Targets already passed hold their CFL number, and targets not yet reached are untouched. |
| Marching.HalfSo0 | notebook/pybind/spacetime/include/spacetime/SolverBase.hpp:109-118 | `march_half_so0` leaves so1 and cfl alone and changes so0 only at the Celm targets. |
| Marching.HalfSo0At | notebook/pybind/spacetime/include/spacetime/SolverBase.hpp:109-118 | Every Celm target of `march_half_so0` receives `calc_so0` of the plane before the call. |
| Marching.UpdateCfl | notebook/pybind/spacetime/include/spacetime/SolverBase.hpp:121-129 | `update_cfl` leaves so0 and so1 alone and changes cfl only at the Selm targets. |
| Marching.UpdateCflAt | notebook/pybind/spacetime/include/spacetime/SolverBase.hpp:121-129 | Every Selm target receives its CFL number, computed from the plane before the call. |
| Marching.CflAtEvenSpacing | notebook/21sp_nctu/11_cpppy/spacetime/include/spacetime/kernel/linear_scalar.hpp:90-96 | On coordinates all `hdt` apart, the linear CFL number is exactly 1. |
| Marching.UniformCflIsOne | notebook/21sp_nctu/11_cpppy/spacetime/include/spacetime/kernel/linear_scalar.hpp:90-96 | On a uniform grid with the linear kernel and a time increment of one cell width, `update_cfl` of either plane stores 1 at every Selm it writes. |
| Marching.UniformMarchCflIsOne | notebook/20au_nctu/11_cpppy/spacetime/tests/test_linear_scalar.py:104-111 | After at least one step of `march_alpha` on such a grid, cfl is 1 at every Selm of both planes. |
| Marching.HalfSo1 | notebook/pybind/spacetime/include/spacetime/SolverBase.hpp:133-142 | `march_half_so1_alpha` leaves so0 and cfl alone and changes so1 only at the Celm targets. |
| Marching.HalfSo1At | notebook/pybind/spacetime/include/spacetime/SolverBase.hpp:133-142 | Every Celm target receives `calc_so1_alpha` of the plane before the call. |
| Marching.BoundarySo0 | notebook/pybind/spacetime/include/spacetime/SolverBase.hpp:145-154 | `treat_boundary_so0` touches only so0. |
| Marching.BoundarySo1 | notebook/pybind/spacetime/include/spacetime/SolverBase.hpp:157-166 | `treat_boundary_so1` touches only so1. |
| Marching.BoundaryPeriodic | notebook/pybind/spacetime/include/spacetime/SolverBase.hpp:145-166 | The boundary copies write exactly offsets 1 and `2 ncelm + 3`. Each becomes the value of the innermost odd-plane Selm on the opposite side (periodic boundary). |
| Marching.SetupMarch | notebook/20sp_nctu/11_cpppy/spacetime/include/spacetime/SolverBase_decl.hpp:138 | `setup_march` keeps the state well formed; it is the even-plane `update_cfl`. |
| Marching.Half1 | notebook/pybind/spacetime/include/spacetime/SolverBase.hpp:170-177 | The first half step keeps the state well formed (its partner is Half1Periodic). |
| Marching.Half2 | notebook/pybind/spacetime/include/spacetime/SolverBase.hpp:181-187 | The second half step keeps the state well formed (its partner is Half2Steady). |
| Marching.Step | notebook/pybind/spacetime/include/spacetime/SolverBase.hpp:193-197 | One `march_alpha` iteration keeps the state well formed. |
| Marching.March | notebook/pybind/spacetime/include/spacetime/SolverBase.hpp:191-198 | Zero steps change nothing, and any number of steps keeps the state well formed. |
| Marching.Half1Periodic | notebook/pybind/spacetime/include/spacetime/SolverBase.hpp:170-177 | After the first half step, the odd-plane ghost Selms of so0 and so1 are periodic images of the interior Selms. |
| Marching.TargetParity | notebook/pybind/spacetime/include/spacetime/SolverBase.hpp:108-142 | The write sets interlock. A Celm loop's neighbours are Selms of the same plane. The even-plane Selms are the odd-plane Celm targets. The odd-plane Selms are the even-plane Celm targets plus the two ghosts. |
| Marching.CalcSo0AtSteady | notebook/21sp_nctu/11_cpppy/spacetime/include/spacetime/Celm.hpp:29-39 | On the grid, `calc_so0` between two Selms holding `u` with zero gradient returns `u`. |
| Marching.CalcSo1AtSteady | notebook/21sp_nctu/11_cpppy/spacetime/include/spacetime/Celm.hpp:41-59 | `calc_so1_alpha` in a neighbourhood holding `u` everywhere returns 0. |
| Marching.HalfSo0Steady | notebook/pybind/spacetime/include/spacetime/SolverBase.hpp:109-118 | Marching so0 over a uniform plane writes `u` at every target and keeps the plane uniform. |
| Marching.HalfSo1Steady | notebook/pybind/spacetime/include/spacetime/SolverBase.hpp:133-142 | Marching so1 over a uniform plane writes a zero gradient at every target. |
| Marching.Half1So0Steady | notebook/pybind/spacetime/include/spacetime/SolverBase.hpp:172-173 | The so0 march and its boundary copy put `u` on every odd-plane Selm, ghosts included. |
| Marching.Half1Steady | notebook/pybind/spacetime/include/spacetime/SolverBase.hpp:170-177 | A uniform even plane yields a uniform odd plane after the first half step. |
| Marching.Half2Steady | notebook/pybind/spacetime/include/spacetime/SolverBase.hpp:181-187 | A uniform odd plane yields a uniform even plane after the second half step. |
| Marching.StepSteady | notebook/pybind/spacetime/include/spacetime/SolverBase.hpp:193-197 | For both equations and every `ALPHA`, a uniform state with zero gradient is a steady solution of one step. |
| Marching.MarchSteady | notebook/pybind/spacetime/include/spacetime/SolverBase.hpp:191-198 | A uniform state stays uniform for any number of steps. |
| Marching.PlainStepZero | notebook/19au_nctu/pybind/spacetime/include/spacetime/Celm_decl.hpp:79-80 | With the base element classes, one step zeroes so0 and so1 on every even-plane Selm. |
| Marching.CalcSo0AtLocal | notebook/21sp_nctu/11_cpppy/spacetime/include/spacetime/Celm.hpp:29-39 | `calc_so0` reads only the two Selms beside the Celm. |
| Marching.CalcSo1AtLocal | notebook/21sp_nctu/11_cpppy/spacetime/include/spacetime/Celm.hpp:41-59 | `calc_so1_alpha` reads only the two Selms beside the Celm and the top Selm's so0. |
| Marching.TargetsIsolated | notebook/pybind/spacetime/include/spacetime/SolverBase.hpp:113-117 | A Celm target's neighbours are never targets of the same loop. This is why the in-place loop equals the simultaneous update. |
| Solvers.PlaneOf | notebook/pybind/spacetime/include/spacetime/SolverBase.hpp:46-53 | Entry `k` of a plane read-out is Selm `k`'s cell; there are `nselm` entries, one fewer on the odd plane. |
| Solvers.WithPlane | notebook/pybind/spacetime/include/spacetime/SolverBase.hpp:68-75 | A plane write-back leaves every offset outside the plane unchanged. |
| Solvers.PlaneOffsets | notebook/pybind/spacetime/include/spacetime/SolverBase.hpp:17-19 | Every Selm a plane loop visits lies inside `[2, xsize - 2)` and gives back its own index. |
| Solvers.PlaneRoundTrip | notebook/pybind/spacetime/include/spacetime/SolverBase.hpp:46-75 | `get` after `set` returns what was set, and `set` of what `get` returned changes nothing. |
| Solvers.PlaneIncreasing | notebook/pybind/spacetime/include/spacetime/SolverBase.hpp:13-21 | The coordinates of one plane's Selms are strictly increasing. |
| Solvers.Spliced | notebook/pybind/spacetime/include/spacetime/SolverBase.hpp:74 | A plane part way through a write: the first `it` entries are new and the rest old. |
| Solvers.WithPlaneStep | notebook/pybind/spacetime/include/spacetime/SolverBase.hpp:74 | One more loop iteration of `set_*` writes exactly Selm `it`'s offset. |
| Solvers.WithPlaneEnds | notebook/pybind/spacetime/include/spacetime/SolverBase.hpp:72-74 | Before the loop nothing is written, and after it the whole new plane is. |
| Solvers.Partial | notebook/pybind/spacetime/include/spacetime/SolverBase.hpp:113-117 | A column part way through a marching loop differs from the original only at loop targets. |
| Solvers.PartialSteps | notebook/pybind/spacetime/include/spacetime/SolverBase.hpp:113-117 | A marching loop starts from the old column and writes one target per iteration, in increasing order. It ends at the fully updated column. |
| Solvers.So0Next | notebook/pybind/spacetime/include/spacetime/SolverBase.hpp:113-117 | Writing `calc_so0` of the current, partly updated plane at Celm `ic`'s `selm_tp` advances the partial column by one target. |
| Solvers.So1Next | notebook/pybind/spacetime/include/spacetime/SolverBase.hpp:137-141 | Writing `calc_so1_alpha` of the current plane at Celm `ic` advances the partial column by one target. |
| Solvers.Solver.constructor | notebook/20sp_nctu/11_cpppy/spacetime/include/spacetime/SolverBase_decl.hpp:67-74 | A new Field on the given grid, with the given time increment and number of variables. |
| Solvers.Solver.FromField | notebook/20sp_nctu/11_cpppy/spacetime/include/spacetime/SolverBase_decl.hpp:77 | A solver over the given Field. |
| Solvers.Solver.Clone | notebook/20sp_nctu/11_cpppy/spacetime/include/spacetime/SolverBase_decl.hpp:53-65 | A new solver of the same kind with newly allocated copies of the arrays. It shares the grid, or holds a new copy of it when `grid` is set. |
| Solvers.Solver.SetTimeIncrement | notebook/20sp_nctu/11_cpppy/spacetime/include/spacetime/SolverBase_decl.hpp:111 | The Field's `dt`, `hdt` and `qdt` become `t`, `t/2` and `t/4`; the arrays and the grid stay. |
| Solvers.Solver.MarchCelmSo0 | notebook/pybind/spacetime/include/spacetime/SolverBase.hpp:115-116 | One iteration writes `calc_so0(0)` at `selm_tp` and changes nothing else. |
| Solvers.Solver.MarchCelmSo1 | notebook/pybind/spacetime/include/spacetime/SolverBase.hpp:139-140 | One iteration writes `calc_so1_alpha(0)` at `selm_tp` and changes nothing else. |
| Solvers.Solver.MarchHalfSo0 | notebook/pybind/spacetime/include/spacetime/SolverBase.hpp:109-118 | The in-place loop produces exactly `HalfSo0` of the state before the call, and other variables are kept. |
| Solvers.Solver.MarchHalfSo1Alpha | notebook/pybind/spacetime/include/spacetime/SolverBase.hpp:133-142 | The in-place loop produces exactly `HalfSo1`, and other variables are kept. |
| Solvers.Solver.UpdateCfl | notebook/pybind/spacetime/include/spacetime/SolverBase.hpp:121-129 | The in-place loop produces exactly `UpdateCfl` of the state before the call. It also runs with no variables for the base and linear kernels, which never read so0; only the Burgers kernel needs variable 0. |
| Solvers.Solver.TreatBoundarySo0 | notebook/pybind/spacetime/include/spacetime/SolverBase.hpp:145-154 | The two writes produce `BoundarySo0`, and other variables are kept. |
| Solvers.Solver.TreatBoundarySo1 | notebook/pybind/spacetime/include/spacetime/SolverBase.hpp:157-166 | The two writes produce `BoundarySo1`, and other variables are kept. |
| Solvers.Solver.SetupMarch | notebook/20sp_nctu/11_cpppy/spacetime/include/spacetime/SolverBase_decl.hpp:138 | Produces `SetupMarch` of the state before the call, with the same demand on variables as `update_cfl`. |
| Solvers.Solver.MarchHalf1Alpha | notebook/pybind/spacetime/include/spacetime/SolverBase.hpp:170-177 | The five calls produce `Half1`, and only variable 0 changes. |
| Solvers.Solver.MarchHalf2Alpha | notebook/pybind/spacetime/include/spacetime/SolverBase.hpp:181-187 | The three calls produce `Half2`, and only variable 0 changes. |
| Solvers.Solver.MarchStep | notebook/pybind/spacetime/include/spacetime/SolverBase.hpp:193-197 | One loop iteration advances the state from `March` of `n` steps to `March` of `n + 1` steps. |
| Solvers.Solver.MarchAlpha | notebook/pybind/spacetime/include/spacetime/SolverBase.hpp:191-198 | `march_alpha(steps)` produces exactly `March` of `steps` steps from the state before the call, and only variable 0 changes. The steady-state lemmas therefore apply to it. |
| Solvers.Solver.GetSo0 | notebook/pybind/spacetime/include/spacetime/SolverBase.hpp:44-53 | Raises `out_of_range` exactly when `iv >= nvar`. Otherwise it returns the plane read-out of variable `iv`. |
| Solvers.Solver.GetSo1 | notebook/pybind/spacetime/include/spacetime/SolverBase.hpp:55-64 | Raises `out_of_range` exactly when `iv >= nvar`. Otherwise it returns the plane read-out of variable `iv`. |
| Solvers.Solver.GetCfl | notebook/pybind/spacetime/include/spacetime/SolverBase.hpp:88-96 | Returns the plane read-out of cfl. |
| Solvers.Solver.GetSo0p | notebook/pybind/spacetime/include/spacetime/SolverBase.hpp:33-42 | Raises `out_of_range` exactly when `iv >= nvar`. Otherwise it returns one kernel tip value per Selm, which equals `get_so0` for the base class or where so1 vanishes. |
| Solvers.Solver.X | notebook/pybind/spacetime/include/spacetime/SolverBase.hpp:13-21 | The coordinates of the plane's Selms, strictly increasing. |
| Solvers.Solver.Xctr | notebook/pybind/spacetime/include/spacetime/SolverBase.hpp:23-31 | Each Selm's centre is the midpoint of its neighbours and lies strictly between them. |
| Solvers.Solver.SetSo0 | notebook/pybind/spacetime/include/spacetime/SolverBase.hpp:66-75 | Raises `out_of_range`, writing nothing, exactly when `iv >= nvar` or the size is wrong. Otherwise variable `iv` becomes the plane write-back and every other variable is kept. |
| Solvers.Solver.SetSo1 | notebook/pybind/spacetime/include/spacetime/SolverBase.hpp:77-86 | Raises `out_of_range`, writing nothing, exactly when `iv >= nvar` or the size is wrong. Otherwise variable `iv` becomes the plane write-back and every other variable is kept. |
| Solvers.Solver.SetCfl | notebook/pybind/spacetime/include/spacetime/SolverBase.hpp:98-106 | Raises `out_of_range`, writing nothing, exactly on a size mismatch. Otherwise cfl becomes the plane write-back. |
| Solvers.NewLinearScalarSolver | notebook/21sp_nctu/11_cpppy/spacetime/include/spacetime/kernel/linear_scalar.hpp:39-43 | A linear-advection solver with one variable, which the marching loops can run on. |
| Solvers.MarchUniformLinear | notebook/20au_nctu/11_cpppy/spacetime/tests/test_linear_scalar.py:13-35 | The test's set-up and march: a uniform grid, a linear-scalar solver with a time increment of one cell width, `setup_march` and `march_alpha`. It fails exactly when the grid arguments are invalid; otherwise `get_cfl` returns `ncelm + 1` ones. |
| Solvers.EvenPlaneOnes | notebook/20au_nctu/11_cpppy/spacetime/tests/test_linear_scalar.py:109-111 | A cfl column holding 1 at every even-plane Selm reads out through `get_cfl` as `nselm` ones. |
| Solvers.NewInviscidBurgersSolver | notebook/20au_nctu/11_cpppy/spacetime/include/spacetime/kernel/inviscid_burgers.hpp:42-46 | A Burgers solver with one variable, which the marching loops can run on. |
| Binding.SolverElementIterator.constructor | notebook/11_pybind/spacetime/include/spacetime/python/common.hpp:195-197 | Stores the solver, plane, starting position and kind. |
| Binding.SolverElementIterator.CelmBound | notebook/11_pybind/spacetime/include/spacetime/python/common.hpp:201-203 | The `next_celm` bound is `ncelm`, one fewer on the odd plane, and never negative. |
| Binding.SolverElementIterator.SelmBound | notebook/11_pybind/spacetime/include/spacetime/python/common.hpp:211-213 | The `next_selm` bound is `nselm`, one fewer on the odd plane, and at least one. |
| Binding.SolverElementIterator.Nelem | notebook/11_pybind/spacetime/include/spacetime/python/common.hpp:222-227 | `nelem()` equals the bound the iteration of its kind stops at; the Selm count is one more than the Celm count. |
| Binding.SolverElementIterator.RemainingCelms | notebook/11_pybind/spacetime/include/spacetime/python/common.hpp:199-207 | The Celm views still to be yielded, in order, from the current position to the bound. |
| Binding.SolverElementIterator.RemainingSelms | notebook/11_pybind/spacetime/include/spacetime/python/common.hpp:209-217 | The Selm views still to be yielded, in order. |
| Binding.SolverElementIterator.NextCelm | notebook/11_pybind/spacetime/include/spacetime/python/common.hpp:199-207 | Signals stop exactly when nothing remains, without advancing. Otherwise it yields the next view and consumes it. |
| Binding.SolverElementIterator.NextSelm | notebook/11_pybind/spacetime/include/spacetime/python/common.hpp:209-217 | Signals stop exactly when nothing remains. Otherwise it yields the next view and consumes it. |
| Binding.SolverElementIterator.FullPass | notebook/11_pybind/spacetime/include/spacetime/python/common.hpp:199-217 | From position 0, the iteration yields elements `0, 1, ...` up to the bound, all on the iterator's plane and Field. |
| Binding.ModuleInitializer.constructor | notebook/11_pybind/spacetime/include/spacetime/python/common.hpp:403-407 | The registry starts empty and not initialised. |
| Binding.ModuleInitializer.Initialize | notebook/11_pybind/spacetime/include/spacetime/python/common.hpp:409-419 | The first call runs every registered initializer once, in order; later calls run none. The flag is set either way. |
| Binding.ModuleInitializer.Add | notebook/11_pybind/spacetime/include/spacetime/python/common.hpp:423-427 | Appends to the end of the list and returns the same registry. |
| MatrixLayout.Offset | notebook/matrix/gesv.cpp:125-129 | Every in-range pair maps inside the buffer. |
| MatrixLayout.OffsetInRange | notebook/matrix/gesv.cpp:125-129 | Each of the two index formulas sends an in-range pair below `nrow * ncol`. |
| MatrixLayout.OffsetInjective | notebook/matrix/gesv.cpp:125-129 | Distinct in-range pairs never share a buffer position. |
| MatrixLayout.OffsetOnto | notebook/matrix/gesv.cpp:125-129 | Every buffer position is used by some pair; with injectivity, the index map is a bijection. |
| MatrixLayout.TransposedOffset | notebook/matrix/gesv.cpp:116-129 | After `transpose()` swaps the dimensions and the flag, `(j, i)` reads the position `(i, j)` read before. |
| MatrixLayout.RowMajorNextRow | notebook/matrix/gesv.cpp:36-44 | The running counter `k` of the fill continues from one row to the next. |
| MatrixLayout.FromRowMajor | notebook/matrix/gesv.cpp:29-47 | The matrix whose `(i, j)` element is `vec[i * ncol + j]`. |
| MatrixLayout.RowOfVector | notebook/matrix/gesv.cpp:39-43 | Row `i` of the fill is the slice of `vec` from `i * ncol` on. |
| MatrixLayout.Transposed | notebook/matrix/gesv.cpp:116-121 | The transpose has swapped dimensions, with `(j, i)` holding `(i, j)`. |
| MatrixLayout.TransposedTwice | notebook/matrix/gesv.cpp:116-121 | Transposing twice is the identity. |
| MatrixLayout.DotStep | notebook/matrix/gesv.cpp:166-170 | One more accumulation `v += a * b` extends the running sum by one term. |
| MatrixLayout.DotSymmetric | notebook/matrix/gesv.cpp:166-170 | The sum of products does not depend on the order of the factors. |
| MatrixLayout.DotUnit | archive/19au_nctu/matrix/06_matrix_vector.cpp:111-116 | A unit row picks out one entry of the vector. |
| MatrixLayout.DotZero | archive/19au_nctu/matrix/06_matrix_vector.cpp:111-116 | A zero row sums to zero. |
| MatrixLayout.MatVec | archive/19au_nctu/matrix/06_matrix_vector.cpp:100-120 | Entry `i` of the product is the sum of `m(i, j) * vec[j]`. |
| MatrixLayout.MatMul | notebook/matrix/gesv.cpp:151-176 | Element `(i, k)` of the product is the sum over `j` of `a(i, j) * b(j, k)`. |
| MatrixLayout.MatVecIdentity | archive/19au_nctu/matrix/06_matrix_vector.cpp:100-120 | The identity matrix leaves every vector unchanged. |
| MatrixLayout.MatMulTransposed | notebook/matrix/gesv.cpp:151-176 | `(AB)^T = B^T A^T`. |
| MatrixLayout.Filled | notebook/matrix/gesv.cpp:37-44 | Reference definition of a row-by-row fill stopped at `(i, j)`; it keeps the shape. |
| MatrixLayout.FilledSteps | notebook/matrix/gesv.cpp:37-44 | The fill starts at the old matrix, writes one element per step, moves to the next row at a row end, and ends at the target. |
| TransposableMatrix.Matrix.constructor | notebook/matrix/gesv.cpp:16-20 | A new buffer of `nrow * ncol` elements, not transposed. |
| TransposableMatrix.Matrix.Index | notebook/matrix/gesv.cpp:125-129 | An in-range pair indexes inside the buffer, in either layout. |
| TransposableMatrix.Matrix.Row | notebook/matrix/gesv.cpp:102 | Row `i` read through `operator()`. |
| TransposableMatrix.Matrix.Elements | notebook/matrix/gesv.cpp:102 | The logical matrix read through `operator()`, independent of layout. |
| TransposableMatrix.Matrix.Set | notebook/matrix/gesv.cpp:103 | Writing `(r, c)` changes exactly that logical element. |
| TransposableMatrix.Matrix.Size | notebook/matrix/gesv.cpp:108 | `size()` is the buffer length. |
| TransposableMatrix.Matrix.FillNext | notebook/matrix/gesv.cpp:41 | One element write advances a row-by-row fill by one step. |
| TransposableMatrix.Matrix.AssignRow | notebook/matrix/gesv.cpp:39-43 | The inner loop fills row `i` from `vec` and hands the counter on to the next row. |
| TransposableMatrix.Matrix.AssignVector | notebook/matrix/gesv.cpp:29-47 | Raises `out_of_range`, writing nothing, exactly on a size mismatch. Otherwise the logical matrix becomes `vec` in row-major order, whatever the layout. |
| TransposableMatrix.Matrix.FromVector | notebook/matrix/gesv.cpp:22-27 | Fails exactly on a size mismatch. Otherwise it is a new, not transposed matrix holding `vec` row-major. |
| TransposableMatrix.Matrix.Copy | notebook/matrix/gesv.cpp:49-60 | Same dimensions and logical elements in a new buffer, and not transposed even when the source is. |
| TransposableMatrix.Matrix.CopyRow | notebook/matrix/gesv.cpp:55-58 | Row `i` takes the other matrix's row `i`. |
| TransposableMatrix.Matrix.CopyElements | notebook/matrix/gesv.cpp:53-59 | Every logical element becomes the other matrix's. |
| TransposableMatrix.Matrix.Assign | notebook/matrix/gesv.cpp:62-77 | Self-assignment changes nothing. The buffer is reallocated only when the dimensions differ. The transpose flag is kept, and the logical elements become the other matrix's. |
| TransposableMatrix.Matrix.Transpose | notebook/matrix/gesv.cpp:116-121 | Flips the flag and swaps the dimensions without touching the buffer. The logical matrix becomes the transpose. |
| TransposableMatrix.Matrix.BufferVector | notebook/matrix/gesv.cpp:110 | The raw buffer, with logical `(i, j)` at the layout's index. |
| TransposableMatrix.RowTimesColumn | notebook/matrix/gesv.cpp:166-170 | The innermost loop computes the dot product of row `i` and column `k`. |
| TransposableMatrix.FillProductRow | notebook/matrix/gesv.cpp:164-172 | The middle loop fills row `i` of the product. |
| TransposableMatrix.FillProduct | notebook/matrix/gesv.cpp:162-173 | The outer loop fills the whole product. |
| TransposableMatrix.Multiply | notebook/matrix/gesv.cpp:151-176 | Raises `out_of_range` exactly when the inner dimensions differ. Otherwise it is a new matrix equal to the mathematical product, for any layouts of the operands. |
| TransposableMatrix.RowTimesVector | archive/19au_nctu/matrix/06_matrix_vector.cpp:111-115 | The inner loop computes row `i` times the vector. |
| TransposableMatrix.MultiplyVector | archive/19au_nctu/matrix/06_matrix_vector.cpp:100-120 | Raises `out_of_range` exactly on a dimension mismatch. Otherwise it returns the matrix-vector product. |
| FixedLayoutMatrix.Matrix.constructor | notebook/matrix/08_gesv.cpp:16-20 | A new buffer of `nrow * ncol` elements in the chosen storage order. |
| FixedLayoutMatrix.Matrix.Index | notebook/matrix/08_gesv.cpp:116-120 | An in-range pair indexes inside the buffer. |
| FixedLayoutMatrix.Matrix.Row | notebook/matrix/08_gesv.cpp:102 | Row `i` read through `operator()`. |
| FixedLayoutMatrix.Matrix.Elements | notebook/matrix/08_gesv.cpp:102 | The logical matrix, independent of storage order. |
| FixedLayoutMatrix.Matrix.Set | notebook/matrix/08_gesv.cpp:103 | Writing `(r, c)` changes exactly that logical element. |
| FixedLayoutMatrix.Matrix.Size | notebook/matrix/08_gesv.cpp:108 | `size()` is the buffer length. |
| FixedLayoutMatrix.Matrix.FillNext | notebook/matrix/08_gesv.cpp:41 | One element write advances a row-by-row fill by one step. |
| FixedLayoutMatrix.Matrix.AssignRow | notebook/matrix/08_gesv.cpp:39-43 | The inner loop fills row `i` from `vec` and hands the counter on. |
| FixedLayoutMatrix.Matrix.AssignVector | notebook/matrix/08_gesv.cpp:29-47 | Raises `out_of_range`, writing nothing, exactly on a size mismatch. Otherwise the logical matrix is `vec` read row-major, even in a column-major matrix. |
| FixedLayoutMatrix.Matrix.FromVector | notebook/matrix/08_gesv.cpp:22-27 | Fails exactly on a size mismatch. Otherwise it is a new matrix of the chosen order holding `vec` row-major. |
| FixedLayoutMatrix.Matrix.Copy | notebook/matrix/08_gesv.cpp:49-60 | Same dimensions, storage order and logical elements, in a new buffer. |
| FixedLayoutMatrix.Matrix.CopyRow | notebook/matrix/08_gesv.cpp:55-58 | Row `i` takes the other matrix's row `i`. |
| FixedLayoutMatrix.Matrix.CopyElements | notebook/matrix/08_gesv.cpp:53-59 | Every logical element becomes the other matrix's. |
| FixedLayoutMatrix.Matrix.Assign | notebook/matrix/08_gesv.cpp:62-77 | Self-assignment changes nothing. The buffer is reallocated only when the dimensions differ. The storage order is kept, and the logical elements become the other matrix's. |
| FixedLayoutMatrix.Matrix.BufferVector | notebook/matrix/08_gesv.cpp:110-112 | The raw buffer, with `(i, j)` at `i + j * nrow` when column-major (the order LAPACK reads) and at `i * ncol + j` otherwise. |

## Left out

- Floating point: `double` is modelled as `real`. Rounding, overflow,
  NaN and the subnormal range are not modelled. The `tiny` of
  `calc_so1_alpha` is the exact value of the smallest normal double.
  In exact arithmetic the uniform points are equally spaced and the
  linear CFL number on them is exactly 1. The source accumulates
  `xspace` in doubles and its test accepts ones to within 1e-14.
- Integer width: `size_t` and `sindex_type` are unbounded integers.
  - A negative element index converted to `size_t` wraps to a huge
    offset that the range checks of `celm_at`, `selm_at` and `move_at`
    reject; the model rejects the negative offset directly, with the
    same outcome.
  - Overflow of `nrow * ncol` is not modelled.
- Multi-variable marching: the marching loops of `SolverBase` write
  variable 0 only, as the source does. Other variables are proved
  unchanged and are not given a per-variable step.
- Marching with no variables: the so0 and so1 loops (`march_half_so0`,
  `march_half_so1_alpha`, the boundary treatments and the steps built
  on them) index variable 0 without a check, so they are modelled only
  for `nvar >= 1`. `update_cfl` and `setup_march` read variable 0 only
  under the Burgers kernel, and are modelled for any `nvar` otherwise.
- Solvers.Solver.GetSo0p: gives the per-Selm value by the kernel
  formula. The exact equality with `get_so0` is proved only for the
  base class and for zero gradients.
- Kernels.CalcSo0: its own contract covers only the base class. The
  meaning for the two kernels is stated by CalcSo0Steady and the
  marching lemmas, not by a closed form for every input.
- Kernels.CalcSo1Alpha: likewise covers only the base class in its own
  contract. The two kernels' slopes are characterised by the AlphaBlend
  lemmas, CalcSo1AlphaFlat and the marching lemmas.
- Marching.Half1: its own contract promises only a well-formed state.
  What it computes is stated by Half1Periodic, Half1Steady and the
  per-target lemmas of the routines it chains.
- Marching.Half2: its own contract promises only a well-formed state.
  What it computes is stated by Half2Steady and the per-target lemmas.
- Marching.Step: its own contract promises only a well-formed state,
  beyond StepSteady and PlainStepZero.
- Marching.March: its own contract promises a well-formed state and the
  identity for zero steps, beyond MarchSteady.
- The one-dimensional shape check of `set_so0`, `set_so1` and
  `set_cfl` (`input not 1D`): model arrays are always one-dimensional.
- Error message texts (`Formatter` output) are not modelled; only the
  exception kind is.
- Move constructors and move assignments of Grid, Field and
  SolverBase: they have no observable effect beyond the copy operations
  in a model without ownership.
- Matrix move construction (notebook/matrix/gesv.cpp:79-84,
  notebook/matrix/08_gesv.cpp:79-84) is not modelled. In the source it
  copies the dimensions, then `reset_buffer(0, 0)` sets them to zero
  before the buffers are swapped: the new matrix reports 0 x 0 while it
  holds the other matrix's elements, and the moved-from matrix keeps
  its dimensions with no buffer.
- The `data()` raw pointer of the matrices: modelled only through
  `BufferVector`.
- Matrix move assignment: it takes `m_transpose` (or `m_column_major`)
  from its source, while copy assignment keeps the destination's flag.
  Only copy assignment is modelled.
- Matrix `operator<<`, the `main` drivers, the LAPACK `gesv`/`gels`
  calls and `12_gels.cpp`: I/O and foreign library code.
- Python bindings (`WrapSolverBase`, `WrapGrid`, the `__repr__` and
  `operator<<` of the iterator) and `ModuleInitializer::add_solver`:
  glue into the Python runtime.
- ModuleInitializer: initializer callables are foreign code. The model
  records which initializers ran, in order, instead of running them.
  The singleton accessor `get_instance` is left out: a single instance
  has no behaviour to model.
- Binding.ModuleInitializer.IsInitialized: a plain read of the flag,
  without a contract of its own.
- The writable `xcoord()` accessor of Grid: it is used only by the
  bindings. The model's Grid is immutable after construction.
- The time-value getters the element views forward to their Field
  (`time_increment`, `dt`, `hdt`, `qdt`): the model reads the Field
  directly.
- The initial contents of the Field arrays: the source leaves them
  uninitialised, so the model states nothing about them.
