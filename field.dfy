/**
 * Solution storage (Field_decl.hpp, Field.hpp) and the element views that
 * address it (ElementBase, Celm, Selm).
 *
 * A Field owns the two solution arrays so0 (the solution) and so1 (its
 * spatial gradient), each [xsize x nvar], the per-point CFL array, and the
 * time increment with its cached half and quarter.  A view is a value: the
 * Field it belongs to and an offset into the grid's coordinate array.
 */
module Fields {
  import opened Outcomes
  import opened Grids
  import Kernels

  /** Column v of a [xsize x nvar] array, indexed by offset. */
  ghost function Column(a: array2<real>, v: int): (c: seq<real>)
    reads a
    requires 0 <= v < a.Length1
    ensures |c| == a.Length0
    ensures forall o :: 0 <= o < a.Length0 ==> c[o] == a[o, v]
  {
    seq(a.Length0, o requires 0 <= o < a.Length0 reads a => a[o, v])
  }

  class Field {
    var grid: Grid
    var so0: array2<real>
    var so1: array2<real>
    var cfl: array<real>
    var timeIncrement: real
    var halfTimeIncrement: real
    var quarterTimeIncrement: real

    /** The cached half and quarter time increments follow the stored one. */
    ghost predicate TimesConsistent()
      reads this
    {
      halfTimeIncrement == 0.5 * timeIncrement && quarterTimeIncrement == 0.25 * timeIncrement
    }

    /** The arrays match the grid: xsize rows, the same nvar columns in so0 and so1. */
    ghost predicate Valid()
      reads this
    {
      && grid.Valid()
      && so0 != so1
      && so0.Length0 == grid.XSize() && so1.Length0 == grid.XSize()
      && so1.Length1 == so0.Length1
      && cfl.Length == grid.XSize()
      && TimesConsistent()
    }

    /** Field(grid, time_increment, nvar): arrays sized from the grid, contents left unspecified, times set through SetTimeIncrement. */
    constructor (grid: Grid, timeIncrement: real, nvar: nat)
      requires grid.Valid()
      ensures Valid()
      ensures this.grid == grid && Nvar() == nvar
      ensures this.timeIncrement == timeIncrement
      ensures fresh(so0) && fresh(so1) && fresh(cfl)
    {
      this.grid := grid;
      so0 := new real[grid.XSize(), nvar];
      so1 := new real[grid.XSize(), nvar];
      cfl := new real[grid.XSize()];
      new;
      SetTimeIncrement(timeIncrement);
    }

    /** The copy constructor with the grid pointer replaced by g: every array copied by value. */
    constructor CopyOf(other: Field, g: Grid)
      requires other.Valid() && g.Valid() && g.XSize() == other.grid.XSize()
      ensures Valid() && grid == g
      ensures fresh(so0) && fresh(so1) && fresh(cfl)
      ensures SameContents(other)
    {
      grid := g;
      var a0, a1, c := other.so0, other.so1, other.cfl;
      so0 := new real[a0.Length0, a0.Length1]((i, j) requires 0 <= i < a0.Length0 && 0 <= j < a0.Length1 reads a0 => a0[i, j]);
      so1 := new real[a1.Length0, a1.Length1]((i, j) requires 0 <= i < a1.Length0 && 0 <= j < a1.Length1 reads a1 => a1[i, j]);
      cfl := new real[c.Length](i requires 0 <= i < c.Length reads c => c[i]);
      timeIncrement := other.timeIncrement;
      halfTimeIncrement := other.halfTimeIncrement;
      quarterTimeIncrement := other.quarterTimeIncrement;
    }

    /** Equal array contents and time values; the grids may differ. */
    ghost predicate SameContents(other: Field)
      reads this, other, so0, so1, cfl, other.so0, other.so1, other.cfl
    {
      && so0.Length0 == other.so0.Length0 && so0.Length1 == other.so0.Length1
      && so1.Length0 == other.so1.Length0 && so1.Length1 == other.so1.Length1
      && cfl.Length == other.cfl.Length
      && (forall i, j :: 0 <= i < so0.Length0 && 0 <= j < so0.Length1 ==> so0[i, j] == other.so0[i, j])
      && (forall i, j :: 0 <= i < so1.Length0 && 0 <= j < so1.Length1 ==> so1[i, j] == other.so1[i, j])
      && (forall i :: 0 <= i < cfl.Length ==> cfl[i] == other.cfl[i])
      && timeIncrement == other.timeIncrement
      && halfTimeIncrement == other.halfTimeIncrement
      && quarterTimeIncrement == other.quarterTimeIncrement
    }

    /** Number of variables: the second extent of so0. */
    function Nvar(): nat
      reads this
    {
      so0.Length1
    }

    function TimeIncrement(): real
      reads this
    {
      timeIncrement
    }

    /** dt() and time_increment() read the same stored value. */
    function Dt(): (r: real)
      reads this
      ensures r == TimeIncrement()
    {
      timeIncrement
    }

    function Hdt(): real
      reads this
    {
      halfTimeIncrement
    }

    function Qdt(): real
      reads this
    {
      quarterTimeIncrement
    }

    /** set_time_increment: stores t, t/2 and t/4 together and touches nothing else. */
    method SetTimeIncrement(t: real)
      modifies this
      ensures timeIncrement == t && halfTimeIncrement == 0.5 * t && quarterTimeIncrement == 0.25 * t
      ensures grid == old(grid) && so0 == old(so0) && so1 == old(so1) && cfl == old(cfl)
      ensures TimesConsistent()
    {
      timeIncrement := t;
      halfTimeIncrement := 0.5 * t;
      quarterTimeIncrement := 0.25 * t;
    }

    /** set_grid: rebinds the grid and nothing else; the Field stays valid exactly when the new grid has the same size. */
    method SetGrid(g: Grid)
      requires Valid() && g.Valid()
      modifies this
      ensures grid == g
      ensures so0 == old(so0) && so1 == old(so1) && cfl == old(cfl)
      ensures timeIncrement == old(timeIncrement) && halfTimeIncrement == old(halfTimeIncrement)
      ensures quarterTimeIncrement == old(quarterTimeIncrement)
      ensures Valid() <==> g.XSize() == old(grid.XSize())
    {
      grid := g;
    }

    /** clone(grid): a new Field with copied arrays; it shares this grid, or holds a fresh copy of it when cloneGrid is set. */
    method Clone(cloneGrid: bool) returns (f: Field)
      requires Valid()
      ensures fresh(f) && fresh(f.so0) && fresh(f.so1) && fresh(f.cfl)
      ensures f.Valid() && f.SameContents(this)
      ensures !cloneGrid ==> f.grid == grid
      ensures cloneGrid ==> fresh(f.grid) && f.grid.xcoord == grid.xcoord
      ensures cloneGrid ==> f.grid.xmin == grid.xmin && f.grid.xmax == grid.xmax && f.grid.ncelm == grid.ncelm
    {
      var g := grid;
      if cloneGrid {
        g := grid.Clone();
      }
      f := new Field.CopyOf(this, g);
    }

    /** The so0 cell (it, iv) reads one array entry. */
    function So0At(it: int, iv: int): real
      reads this, so0
      requires 0 <= it < so0.Length0 && 0 <= iv < so0.Length1
    {
      so0[it, iv]
    }

    function So1At(it: int, iv: int): real
      reads this, so1
      requires 0 <= it < so1.Length0 && 0 <= iv < so1.Length1
    {
      so1[it, iv]
    }

    function CflAt(it: int): real
      reads this, cfl
      requires 0 <= it < cfl.Length
    {
      cfl[it]
    }

    /** A write through so0(it, iv) changes that one cell of column iv and no other column or array. */
    method SetSo0(it: int, iv: int, v: real)
      requires Valid() && 0 <= it < so0.Length0 && 0 <= iv < so0.Length1
      modifies so0
      ensures So0At(it, iv) == v
      ensures Column(so0, iv) == old(Column(so0, iv))[it := v]
      ensures forall j :: 0 <= j < so0.Length1 && j != iv ==> Column(so0, j) == old(Column(so0, j))
    {
      so0[it, iv] := v;
    }

    /** A write through so1(it, iv) changes that one cell of column iv and no other column or array. */
    method SetSo1(it: int, iv: int, v: real)
      requires Valid() && 0 <= it < so1.Length0 && 0 <= iv < so1.Length1
      modifies so1
      ensures So1At(it, iv) == v
      ensures Column(so1, iv) == old(Column(so1, iv))[it := v]
      ensures forall j :: 0 <= j < so1.Length1 && j != iv ==> Column(so1, j) == old(Column(so1, j))
    {
      so1[it, iv] := v;
    }

    /** A write through cfl(it) changes that one cell and no other. */
    method SetCfl(it: int, v: real)
      requires Valid() && 0 <= it < cfl.Length
      modifies cfl
      ensures CflAt(it) == v
      ensures forall i :: 0 <= i < cfl.Length && i != it ==> cfl[i] == old(cfl[i])
    {
      cfl[it] := v;
    }

    /** The unchecked celm(ielm, odd_plane): the view it builds recovers ielm and the plane. */
    function CelmView(ielm: int, oddPlane: bool): (e: Element)
      ensures e.Celm? && e.field == this && e.xindex == XindexCelm(ielm, oddPlane)
      ensures e.Index() == ielm && e.OnOddPlane() == oddPlane
    {
      Celm(this, XindexCelm(ielm, oddPlane))
    }

    /** The unchecked selm(ielm, odd_plane): the view it builds recovers ielm and the plane. */
    function SelmView(ielm: int, oddPlane: bool): (e: Element)
      ensures e.Selm? && e.field == this && e.xindex == XindexSelm(ielm, oddPlane)
      ensures e.Index() == ielm && e.OnOddPlane() == oddPlane
    {
      Selm(this, XindexSelm(ielm, oddPlane))
    }

    /** celm_at: out_of_range exactly when the offset is below 2 or at least xsize - 2; otherwise the unchecked view. */
    function CelmAt(ielm: int, oddPlane: bool): (r: Result<Element>)
      reads this
      ensures r.Success? <==> 2 <= XindexCelm(ielm, oddPlane) < grid.XSize() - 2
      ensures r.Success? ==> r.value == CelmView(ielm, oddPlane)
      ensures r.Failure? ==> r.error == OutOfRange
    {
      var e := CelmView(ielm, oddPlane);
      if e.xindex < 2 || e.xindex >= grid.XSize() - 2 then Failure(OutOfRange) else Success(e)
    }

    /** selm_at: out_of_range exactly when the offset is below 1 or at least xsize - 1; otherwise the unchecked view. */
    function SelmAt(ielm: int, oddPlane: bool): (r: Result<Element>)
      reads this
      ensures r.Success? <==> 1 <= XindexSelm(ielm, oddPlane) < grid.XSize() - 1
      ensures r.Success? ==> r.value == SelmView(ielm, oddPlane)
      ensures r.Failure? ==> r.error == OutOfRange
    {
      var e := SelmView(ielm, oddPlane);
      if e.xindex < 1 || e.xindex >= grid.XSize() - 1 then Failure(OutOfRange) else Success(e)
    }
  }

  /**
   * A view on a Field: a conservation element (Celm) or a solution element
   * (Selm) at coordinate offset xindex.  Two views on the same Field compare by
   * offset; views on different Fields never compare as ordered.
   */
  datatype Element = Celm(field: Field, xindex: int) | Selm(field: Field, xindex: int)
  {
    /** The grid of the owning Field, as it is now. */
    function GridOf(): Grid
      reads field
    {
      field.grid
    }

    /** index(): the logical element index, recovered with an arithmetic shift. */
    function Index(): int
    {
      if Celm? then (xindex - 1) / 2 - 1 else xindex / 2 - 1
    }

    /** on_odd_plane(): parity of the offset past the first element of the kind. */
    function OnOddPlane(): bool
    {
      if Celm? then (xindex - (1 + BOUND_COUNT)) % 2 == 1 else (xindex - BOUND_COUNT) % 2 == 1
    }

    function OnEvenPlane(): (r: bool)
      ensures r <==> !OnOddPlane()
    {
      !OnOddPlane()
    }

    /** The view rebuilt from its index and plane is the same offset: (index, plane) and offset are in one-to-one correspondence. */
    lemma IndexRoundTrip()
      ensures Celm? ==> XindexCelm(Index(), OnOddPlane()) == xindex
      ensures Selm? ==> XindexSelm(Index(), OnOddPlane()) == xindex
    {
    }

    /** The view has both neighbouring coordinates on the grid. */
    ghost predicate HasCoordinates()
      reads field
    {
      1 <= xindex < field.grid.XSize() - 1
    }

    function X(): real
      reads field
      requires HasCoordinates()
    {
      field.grid.xcoord[xindex]
    }

    function XNeg(): real
      reads field
      requires HasCoordinates()
    {
      field.grid.xcoord[xindex - 1]
    }

    function XPos(): real
      reads field
      requires HasCoordinates()
    {
      field.grid.xcoord[xindex + 1]
    }

    /** dx = xpos - xneg. */
    function Dx(): real
      reads field
      requires HasCoordinates()
    {
      XPos() - XNeg()
    }

    /** xctr: a Celm's own coordinate; the midpoint of the neighbours for a Selm. */
    function Xctr(): real
      reads field
      requires HasCoordinates()
    {
      if Celm? then X() else (XNeg() + XPos()) / 2.0
    }

    /** dxneg = x - xneg (a Selm quantity). */
    function DxNeg(): real
      reads field
      requires HasCoordinates()
    {
      X() - XNeg()
    }

    /** dxpos = xpos - x (a Selm quantity). */
    function DxPos(): real
      reads field
      requires HasCoordinates()
    {
      XPos() - X()
    }

    /** On a valid grid the coordinate reads are ordered, the two half widths are positive and add up to dx, and the centre lies inside. */
    lemma GeometryOrdered()
      requires field.grid.Valid() && HasCoordinates()
      ensures XNeg() < X() < XPos()
      ensures DxNeg() > 0.0 && DxPos() > 0.0 && DxNeg() + DxPos() == Dx() && Dx() > 0.0
      ensures XNeg() < Xctr() < XPos()
      ensures Celm? ==> Xctr() == X()
    {
      var xc := field.grid.xcoord;
      assert xc[xindex - 1] < xc[xindex];
      assert xc[xindex] < xc[xindex + 1];
    }

    /** duplicate(): views are values, so the duplicate is an equal, independent view. */
    function Duplicate(): (d: Element)
      ensures d == this && d.Eq(this)
    {
      this
    }

    /** move(offset): the offset grows by exactly offset; the kind and the Field stay. */
    function Move(offset: int): (r: Element)
      ensures r.xindex == xindex + offset && r.field == field && r.Celm? == Celm?
    {
      if Celm? then Celm(field, xindex + offset) else Selm(field, xindex + offset)
    }

    function MoveLeft(): Element { Move(-2) }
    function MoveRight(): Element { Move(2) }
    function MoveNeg(): Element { Move(-1) }
    function MovePos(): Element { Move(1) }

    /** Moves compose by adding offsets, and each move has its inverse. */
    lemma MoveLaws(a: int, b: int)
      ensures Move(a).Move(b) == Move(a + b)
      ensures Move(0) == this
      ensures MoveRight().MoveLeft() == this && MoveLeft().MoveRight() == this
      ensures MovePos().MoveNeg() == this && MoveNeg().MovePos() == this
    {
    }

    /** Moving by two steps to the neighbouring element of the same plane; moving by one switches the plane. */
    lemma MoveIndex()
      ensures MoveRight().Index() == Index() + 1 && MoveRight().OnOddPlane() == OnOddPlane()
      ensures MoveLeft().Index() == Index() - 1 && MoveLeft().OnOddPlane() == OnOddPlane()
      ensures MovePos().OnOddPlane() == !OnOddPlane()
      ensures MovePos().Index() == (if OnOddPlane() then Index() + 1 else Index())
    {
    }

    /** The offset range that move_at accepts: [2, xsize - 2) for a Celm, [1, xsize - 1) for a Selm. */
    ghost predicate InMoveRange(x: int)
      reads field
    {
      if Celm? then 2 <= x < field.grid.XSize() - 2 else 1 <= x < field.grid.XSize() - 1
    }

    /** move_at(offset): out_of_range, with the view left as it was, when the new offset leaves the range; otherwise move(offset). */
    function MoveAt(offset: int): (r: Result<Element>)
      reads field
      ensures r.Success? <==> InMoveRange(xindex + offset)
      ensures r.Success? ==> r.value == Move(offset)
      ensures r.Failure? ==> r.error == OutOfRange
    {
      var x := xindex + offset;
      if Celm? then
        if x < 2 || x >= field.grid.XSize() - 2 then Failure(OutOfRange) else Success(Move(offset))
      else
        if x < 1 || x >= field.grid.XSize() - 1 then Failure(OutOfRange) else Success(Move(offset))
    }

    function MoveLeftAt(): Result<Element> reads field { MoveAt(-2) }
    function MoveRightAt(): Result<Element> reads field { MoveAt(2) }
    function MoveNegAt(): Result<Element> reads field { MoveAt(-1) }
    function MovePosAt(): Result<Element> reads field { MoveAt(1) }

    /** operator==: same Field and same offset. */
    predicate Eq(b: Element) { field == b.field && xindex == b.xindex }
    /** operator!=: different Field or different offset. */
    predicate Ne(b: Element) { field != b.field || xindex != b.xindex }
    /** operator<, <=, >, >=: false across Fields, offset order within one. */
    predicate Lt(b: Element) { field == b.field && xindex < b.xindex }
    predicate Le(b: Element) { field == b.field && xindex <= b.xindex }
    predicate Gt(b: Element) { field == b.field && xindex > b.xindex }
    predicate Ge(b: Element) { field == b.field && xindex >= b.xindex }

    /** The comparison operators form a total order on the views of one Field and relate no views of two Fields. */
    lemma ComparisonLaws(b: Element)
      requires Celm? == b.Celm?
      ensures Eq(b) <==> this == b
      ensures Ne(b) <==> !Eq(b)
      ensures field != b.field ==> !Lt(b) && !Le(b) && !Gt(b) && !Ge(b)
      ensures field == b.field ==> (Lt(b) || Eq(b) || Gt(b))
      ensures !(Lt(b) && Eq(b)) && !(Lt(b) && Gt(b)) && !(Eq(b) && Gt(b))
      ensures Le(b) <==> Lt(b) || Eq(b)
      ensures Ge(b) <==> Gt(b) || Eq(b)
      ensures Lt(b) <==> b.Gt(this)
    {
    }

    /** selm_xn: the Selm with this Celm's index on the same plane; it sits one offset to the left. */
    function SelmXn(): (s: Element)
      requires Celm?
      ensures s.Selm? && s.field == field && s.xindex == xindex - 1
    {
      Selm(field, XindexSelm(Index(), OnOddPlane()))
    }

    /** selm_xp: the Selm with the next index on the same plane; it sits one offset to the right. */
    function SelmXp(): (s: Element)
      requires Celm?
      ensures s.Selm? && s.field == field && s.xindex == xindex + 1
    {
      Selm(field, XindexSelm(Index() + 1, OnOddPlane()))
    }

    /** selm_tn: the Selm on the opposite plane at this Celm's own offset. */
    function SelmTn(): (s: Element)
      requires Celm?
      ensures s.Selm? && s.field == field && s.xindex == xindex
      ensures s.OnOddPlane() == !OnOddPlane()
    {
      Selm(field, XindexSelm(Index() + (if OnOddPlane() then 1 else 0), !OnOddPlane()))
    }

    /** selm_tp: the same view as selm_tn. */
    function SelmTp(): (s: Element)
      requires Celm?
      ensures s == SelmTn()
    {
      Selm(field, XindexSelm(Index() + (if OnOddPlane() then 1 else 0), !OnOddPlane()))
    }

    /** The view addresses a row of the Field's arrays. */
    ghost predicate OnArrays()
      reads field
    {
      field.Valid() && 0 <= xindex < field.grid.XSize()
    }

    /** so0(iv) of a Selm: the Field cell at this offset. */
    function So0(iv: int): real
      reads field, field.so0
      requires Selm? && OnArrays() && 0 <= iv < field.Nvar()
    {
      field.So0At(xindex, iv)
    }

    function So1(iv: int): real
      reads field, field.so1
      requires Selm? && OnArrays() && 0 <= iv < field.Nvar()
    {
      field.So1At(xindex, iv)
    }

    function Cfl(): real
      reads field, field.cfl
      requires Selm? && OnArrays()
    {
      field.CflAt(xindex)
    }

    /** What the kernel formulas read from this Selm for variable iv. */
    function Sample(iv: int): Kernels.Sample
      reads field, field.so0, field.so1
      requires Selm? && OnArrays() && HasCoordinates() && 0 <= iv < field.Nvar()
    {
      Kernels.Sample(X(), XNeg(), XPos(), So0(iv), So1(iv))
    }

    /** What update_cfl reads: the geometry and so0 of variable 0 (read only by the Burgers kernel). */
    function CflSample(): Kernels.Sample
      reads field, field.so0
      requires Selm? && OnArrays() && HasCoordinates()
    {
      Kernels.Sample(X(), XNeg(), XPos(), if field.Nvar() >= 1 then So0(0) else 0.0, 0.0)
    }

    /** so0p(iv) of a Selm under kernel k. */
    function So0p(k: Kernels.Kernel, iv: int): real
      reads field, field.so0, field.so1
      requires Selm? && OnArrays() && HasCoordinates() && 0 <= iv < field.Nvar()
    {
      Kernels.So0p(k, Sample(iv), field.Hdt())
    }

    /** A Celm whose three neighbouring Selms all have both neighbouring coordinates: the range celm_at accepts. */
    ghost predicate Interior()
      reads field
    {
      Celm? && field.Valid() && 2 <= xindex < field.grid.XSize() - 2
    }

    /**
     * calc_so0(iv): the flux balance over the Selms at offsets xindex - 1
     * (selm_xn), xindex + 1 (selm_xp) and the width of the one at xindex
     * (selm_tp); zero for the plain Celm.
     */
    function CalcSo0(k: Kernels.Kernel, iv: int): (r: real)
      reads field, field.so0, field.so1
      requires Interior() && 0 <= iv < field.Nvar()
      ensures k == Kernels.Plain ==> r == 0.0
      ensures r == Kernels.CalcSo0(k, Selm(field, xindex - 1).Sample(iv), Selm(field, xindex + 1).Sample(iv),
        field.grid.xcoord[xindex + 1] - field.grid.xcoord[xindex - 1], field.Hdt(), field.Qdt())
    {
      var xn := SelmXn();
      var xp := SelmXp();
      var tp := SelmTp();
      tp.GeometryOrdered();
      Kernels.CalcSo0(k, xn.Sample(iv), xp.Sample(iv), tp.Dx(), field.Hdt(), field.Qdt())
    }

    /**
     * calc_so1_alpha<alpha>(iv): the alpha-blended slope from the projected
     * values of the Selms at xindex - 1 and xindex + 1 and the solution of the
     * Selm at xindex; zero for the plain Celm.
     */
    function CalcSo1Alpha(k: Kernels.Kernel, alpha: nat, iv: int): (r: real)
      reads field, field.so0, field.so1
      requires Interior() && 0 <= iv < field.Nvar()
      ensures k == Kernels.Plain ==> r == 0.0
      ensures r == Kernels.CalcSo1Alpha(k, alpha, Selm(field, xindex - 1).Sample(iv), Selm(field, xindex + 1).Sample(iv),
        field.So0At(xindex, iv), field.Hdt(), Kernels.TINY)
    {
      var xn := SelmXn();
      var xp := SelmXp();
      xn.GeometryOrdered();
      xp.GeometryOrdered();
      Kernels.TinyPositive();
      Kernels.CalcSo1Alpha(k, alpha, xn.Sample(iv), xp.Sample(iv), SelmTp().So0(iv), field.Hdt(), Kernels.TINY)
    }

    /** so0(iv) = v through a Selm view: only that cell changes. */
    method SetSo0(iv: int, v: real)
      requires Selm? && OnArrays() && 0 <= iv < field.Nvar()
      modifies field.so0
      ensures So0(iv) == v
      ensures Column(field.so0, iv) == old(Column(field.so0, iv))[xindex := v]
      ensures forall j :: 0 <= j < field.so0.Length1 && j != iv ==> Column(field.so0, j) == old(Column(field.so0, j))
    {
      field.SetSo0(xindex, iv, v);
    }

    /** so1(iv) = v through a Selm view: only that cell changes. */
    method SetSo1(iv: int, v: real)
      requires Selm? && OnArrays() && 0 <= iv < field.Nvar()
      modifies field.so1
      ensures So1(iv) == v
      ensures Column(field.so1, iv) == old(Column(field.so1, iv))[xindex := v]
      ensures forall j :: 0 <= j < field.so1.Length1 && j != iv ==> Column(field.so1, j) == old(Column(field.so1, j))
    {
      field.SetSo1(xindex, iv, v);
    }

    /** update_cfl(): stores the kernel's CFL number into this Selm's cfl cell and returns it; no other cell changes. */
    method UpdateCfl(k: Kernels.Kernel) returns (r: real)
      requires Selm? && OnArrays() && HasCoordinates()
      requires k == Kernels.InviscidBurgers ==> field.Nvar() >= 1
      modifies field.cfl
      ensures r == Cfl()
      ensures r == Kernels.Cfl(k, CflSample(), field.Hdt())
      ensures field.cfl[..] == old(field.cfl[..])[xindex := r]
    {
      GeometryOrdered();
      r := Kernels.Cfl(k, CflSample(), field.Hdt());
      field.SetCfl(xindex, r);
    }
  }
}
