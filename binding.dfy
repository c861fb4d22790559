/**
 * The two small state machines of the Python binding header common.hpp:
 * the element iterator behind a solver's celms()/selms() sequences, and the
 * one-shot module initializer.
 */
module Binding {
  import opened Outcomes
  import opened Grids
  import opened Fields
  import opened Solvers

  /**
   * SolverElementIterator: walks the Celms or the Selms of one plane of a
   * solver, from a starting index, one per call.  nelem is the number of
   * elements of the kind on the plane; at exhaustion a call signals stop and
   * leaves current where it is.
   */
  class SolverElementIterator {
    const solver: Solver
    const oddPlane: bool
    var current: nat
    const selm: bool

    constructor (solver: Solver, oddPlane: bool, starting: nat, selm: bool)
      ensures this.solver == solver && this.oddPlane == oddPlane && current == starting && this.selm == selm
    {
      this.solver := solver;
      this.oddPlane := oddPlane;
      current := starting;
      this.selm := selm;
    }

    /** The bound next_celm checks: ncelm, one fewer on the odd plane. */
    function CelmBound(): (r: int)
      reads solver, solver.field
      requires solver.Valid()
      ensures r >= 0
      ensures r == PlaneSize(solver.field.grid.ncelm, oddPlane) - 1
    {
      var ncelm := solver.field.grid.ncelm;
      if oddPlane then ncelm - 1 else ncelm
    }

    /** The bound next_selm checks: nselm, one fewer on the odd plane. */
    function SelmBound(): (r: int)
      reads solver, solver.field
      requires solver.Valid()
      ensures r >= 1
      ensures r == PlaneSize(solver.field.grid.ncelm, oddPlane)
    {
      var nselm := solver.field.grid.NSelm();
      if oddPlane then nselm - 1 else nselm
    }

    /**
     * nelem(): nselm or ncelm by kind, one fewer on the odd plane; it is
     * the bound of the kind's next call, and the Selms of a plane outnumber
     * its Celms by one.
     */
    function Nelem(): (r: int)
      reads this, solver, solver.field
      requires solver.Valid()
      ensures r == if selm then SelmBound() else CelmBound()
      ensures r >= 0
      ensures selm ==> r == CelmBound() + 1
    {
      var ret := if selm then solver.field.grid.NSelm() else solver.field.grid.ncelm;
      if oddPlane then ret - 1 else ret
    }

    /** The views that next_celm still yields, in order. */
    ghost function RemainingCelms(): (r: seq<Element>)
      reads this, solver, solver.field
      requires solver.Valid()
      ensures |r| == if current < CelmBound() then CelmBound() - current else 0
      ensures forall k :: 0 <= k < |r| ==> r[k] == solver.field.CelmView(current + k, oddPlane)
    {
      var n := if current < CelmBound() then CelmBound() - current else 0;
      var f, c := solver.field, current;
      seq(n, k => f.CelmView(c + k, oddPlane))
    }

    /** The views that next_selm still yields, in order. */
    ghost function RemainingSelms(): (r: seq<Element>)
      reads this, solver, solver.field
      requires solver.Valid()
      ensures |r| == if current < SelmBound() then SelmBound() - current else 0
      ensures forall k :: 0 <= k < |r| ==> r[k] == solver.field.SelmView(current + k, oddPlane)
    {
      var n := if current < SelmBound() then SelmBound() - current else 0;
      var f, c := solver.field, current;
      seq(n, k => f.SelmView(c + k, oddPlane))
    }

    /**
     * next_celm(): stop (None) with current unchanged once current reaches
     * the bound; otherwise celm(current, odd_plane), and current advances by
     * one.  Either way the result is the head of the remaining views.
     */
    method NextCelm() returns (r: Option<Element>)
      requires solver.Valid()
      modifies this
      ensures old(current) >= CelmBound() ==> r == None && current == old(current)
      ensures old(current) < CelmBound() ==> r == Some(solver.field.CelmView(old(current), oddPlane)) && current == old(current) + 1
      ensures r.Some? <==> old(RemainingCelms()) != []
      ensures r.Some? ==> r.value == old(RemainingCelms())[0] && RemainingCelms() == old(RemainingCelms())[1..]
      ensures r.None? ==> RemainingCelms() == []
    {
      var ncelm := solver.field.grid.ncelm;
      if oddPlane {
        ncelm := ncelm - 1;
      }
      if current >= ncelm {
        return None;
      }
      ghost var before := RemainingCelms();
      r := Some(solver.field.CelmView(current, oddPlane));
      current := current + 1;
      assert RemainingCelms() == before[1..];
    }

    /** next_selm(): the same with the bound nselm, one fewer on the odd plane. */
    method NextSelm() returns (r: Option<Element>)
      requires solver.Valid()
      modifies this
      ensures old(current) >= SelmBound() ==> r == None && current == old(current)
      ensures old(current) < SelmBound() ==> r == Some(solver.field.SelmView(old(current), oddPlane)) && current == old(current) + 1
      ensures r.Some? <==> old(RemainingSelms()) != []
      ensures r.Some? ==> r.value == old(RemainingSelms())[0] && RemainingSelms() == old(RemainingSelms())[1..]
      ensures r.None? ==> RemainingSelms() == []
    {
      var nselm := solver.field.grid.NSelm();
      if oddPlane {
        nselm := nselm - 1;
      }
      if current >= nselm {
        return None;
      }
      ghost var before := RemainingSelms();
      r := Some(solver.field.SelmView(current, oddPlane));
      current := current + 1;
      assert RemainingSelms() == before[1..];
    }

    /**
     * A pass from index 0 yields every Celm (or Selm) of the plane once, in
     * index order: celm(0 .. ncelm - 1 - odd), and selm(0 .. nselm - 1 - odd).
     */
    lemma FullPass()
      requires solver.Valid() && current == 0
      ensures |RemainingCelms()| == CelmBound() && |RemainingSelms()| == SelmBound()
      ensures forall k :: 0 <= k < CelmBound() ==> RemainingCelms()[k].Index() == k && RemainingCelms()[k].Celm?
      ensures forall k :: 0 <= k < SelmBound() ==> RemainingSelms()[k].Index() == k && RemainingSelms()[k].Selm?
      ensures forall e :: e in RemainingCelms() + RemainingSelms() ==> e.OnOddPlane() == oddPlane && e.field == solver.field
    {
      var cs := RemainingCelms();
      var ss := RemainingSelms();
      forall e: Element | e in cs + ss
        ensures e.OnOddPlane() == oddPlane && e.field == solver.field
      {
        if e in cs {
          var k :| 0 <= k < |cs| && cs[k] == e;
          assert e == solver.field.CelmView(k, oddPlane);
        } else {
          var k :| 0 <= k < |ss| && ss[k] == e;
          assert e == solver.field.SelmView(k, oddPlane);
        }
      }
    }
  }

  /** An initializer registered with the module; calling it is foreign code, so it is known by its identity. */
  type Initializer = nat

  /**
   * ModuleInitializer: a list of initializers and a flag.  initialize runs
   * the whole list, in insertion order, the first time only; the initializers
   * it has run are recorded in ran.
   */
  class ModuleInitializer {
    var initializers: seq<Initializer>
    var initialized: bool
    var ran: seq<Initializer>

    constructor ()
      ensures initializers == [] && !initialized && ran == []
    {
      initializers := [];
      initialized := false;
      ran := [];
    }

    /** initialize(topmod): runs every initializer once, in order, unless already initialized; the flag is set either way. */
    method Initialize()
      modifies this
      ensures initialized
      ensures initializers == old(initializers)
      ensures !old(initialized) ==> ran == old(ran) + old(initializers)
      ensures old(initialized) ==> ran == old(ran)
    {
      if !initialized {
        for i := 0 to |initializers|
          invariant initializers == old(initializers) && initialized == old(initialized)
          invariant ran == old(ran) + initializers[..i]
        {
          ran := ran + [initializers[i]];
        }
      }
      initialized := true;
    }

    function IsInitialized(): bool
      reads this
    {
      initialized
    }

    /** add(init): appends init to the end of the list and returns this same initializer. */
    method Add(init: Initializer) returns (r: ModuleInitializer)
      modifies this
      ensures r == this
      ensures initializers == old(initializers) + [init]
      ensures initialized == old(initialized) && ran == old(ran)
    {
      initializers := initializers + [init];
      r := this;
    }
  }
}
