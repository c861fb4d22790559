/**
 * The Matrix class of 08_gesv.cpp, the one handed to LAPACK: the storage
 * order is chosen once, at construction, and never changes.  A row-major
 * matrix keeps element (row, col) at row * ncol + col, a column-major one at
 * row + col * nrow; every operation works on logical elements, so the order
 * shows only through the raw buffer.
 */
module FixedLayoutMatrix {
  import opened Outcomes
  import opened MatrixLayout

  class Matrix {
    var nrow: nat
    var ncol: nat
    const columnMajor: bool
    var buffer: array<real>

    /** The buffer holds exactly nrow * ncol elements. */
    ghost predicate Valid()
      reads this
    {
      buffer.Length == nrow * ncol
    }

    /** Matrix(nrow, ncol, column_major): a fresh buffer of nrow * ncol elements, contents unspecified. */
    constructor (nrow: nat, ncol: nat, columnMajor: bool)
      ensures Valid() && this.nrow == nrow && this.ncol == ncol && this.columnMajor == columnMajor && fresh(buffer)
    {
      this.nrow := nrow;
      this.ncol := ncol;
      this.columnMajor := columnMajor;
      buffer := new real[nrow * ncol];
    }

    /** index(row, col) for an in-range pair: a position inside the buffer. */
    function Index(r: nat, c: nat): (k: nat)
      reads this
      requires r < nrow && c < ncol
      ensures k < nrow * ncol
    {
      Offset(nrow, ncol, columnMajor, r, c)
    }

    /** operator()(row, col) read. */
    function Get(r: nat, c: nat): real
      reads this, buffer
      requires Valid() && r < nrow && c < ncol
    {
      buffer[Index(r, c)]
    }

    /** Row i of the logical matrix. */
    ghost function Row(i: nat): (row: seq<real>)
      reads this, buffer
      requires Valid() && i < nrow
      ensures |row| == ncol && forall j :: 0 <= j < ncol ==> row[j] == Get(i, j)
    {
      seq(ncol, j requires 0 <= j < ncol && Valid() && i < nrow reads this, buffer => Get(i, j))
    }

    /** The logical matrix, row by row, whatever the storage order. */
    ghost function Elements(): (m: seq<seq<real>>)
      reads this, buffer
      requires Valid()
      ensures IsShape(m, nrow, ncol)
      ensures forall i, j :: 0 <= i < nrow && 0 <= j < ncol ==> m[i][j] == Get(i, j)
    {
      seq(nrow, i requires 0 <= i < nrow && Valid() reads this, buffer => Row(i))
    }

    /** operator()(row, col) write: element (r, c) takes v; every other element keeps its value. */
    method Set(r: nat, c: nat, v: real)
      requires Valid() && r < nrow && c < ncol
      modifies buffer
      ensures Valid()
      ensures Elements() == old(Elements())[r := old(Elements())[r][c := v]]
    {
      buffer[Index(r, c)] := v;
      forall i, j | 0 <= i < nrow && 0 <= j < ncol && (i != r || j != c)
        ensures Get(i, j) == old(Get(i, j))
      {
        if Index(i, j) == Index(r, c) {
          OffsetInjective(nrow, ncol, columnMajor, i, j, r, c);
        }
      }
      forall i | 0 <= i < nrow
        ensures Elements()[i] == old(Elements())[r := old(Elements())[r][c := v]][i]
      {
      }
    }

    /** size(): nrow * ncol, the length of the buffer. */
    function Size(): (n: nat)
      reads this
      requires Valid()
      ensures n == buffer.Length
    {
      nrow * ncol
    }

    /** One step of a row-by-row fill: element (i, j) takes its target value and the fill moves one entry on. */
    method FillNext(i: nat, j: nat, v: real, ghost e0: seq<seq<real>>, ghost target: seq<seq<real>>)
      requires Valid() && i < nrow && j < ncol && IsShape(e0, nrow, ncol) && IsShape(target, nrow, ncol)
      requires Elements() == Filled(e0, target, nrow, ncol, i, j) && v == target[i][j]
      modifies buffer
      ensures Valid() && Elements() == Filled(e0, target, nrow, ncol, i, j + 1)
    {
      ghost var m := Elements();
      FilledSteps(e0, target, nrow, ncol, i, j);
      Set(i, j, v);
      assert Elements() == m[i := m[i][j := target[i][j]]];
    }

    /** The inner loop of operator=(vector): row i takes vec[k], vec[k + 1], ..., with k running on from row to row. */
    method AssignRow(vec: seq<real>, i: nat, k0: nat, ghost e0: seq<seq<real>>) returns (k: nat)
      requires Valid() && |vec| == nrow * ncol && i < nrow && IsShape(e0, nrow, ncol)
      requires k0 == Offset(nrow, ncol, false, i, 0)
      requires Elements() == Filled(e0, FromRowMajor(vec, nrow, ncol), nrow, ncol, i, 0)
      modifies buffer
      ensures k == Offset(nrow, ncol, false, i + 1, 0)
      ensures Valid() && Elements() == Filled(e0, FromRowMajor(vec, nrow, ncol), nrow, ncol, i + 1, 0)
    {
      ghost var target := FromRowMajor(vec, nrow, ncol);
      k := k0;
      var j := 0;
      while j < ncol
        invariant 0 <= j <= ncol && k == Offset(nrow, ncol, false, i, j)
        invariant Valid() && Elements() == Filled(e0, target, nrow, ncol, i, j)
      {
        FillNext(i, j, vec[k], e0, target);
        k := k + 1;
        j := j + 1;
      }
      FilledSteps(e0, target, nrow, ncol, i, j);
      RowMajorNextRow(nrow, ncol, i);
    }

    /**
     * operator=(vector): out_of_range, with nothing written, when vec does
     * not hold nrow * ncol values; otherwise element (i, j) takes
     * vec[i * ncol + j], whatever the storage order.
     */
    method AssignVector(vec: seq<real>) returns (r: Result<()>)
      requires Valid()
      modifies buffer
      ensures Valid()
      ensures r.Failure? <==> |vec| != nrow * ncol
      ensures r.Failure? ==> r.error == OutOfRange && unchanged(buffer)
      ensures r.Success? ==> Elements() == FromRowMajor(vec, nrow, ncol)
    {
      if Size() != |vec| {
        return Failure(OutOfRange);
      }
      ghost var e0 := Elements();
      ghost var target := FromRowMajor(vec, nrow, ncol);
      var k := 0;
      var i := 0;
      FilledSteps(e0, target, nrow, ncol, 0, 0);
      while i < nrow
        invariant 0 <= i <= nrow && k == Offset(nrow, ncol, false, i, 0)
        invariant Valid() && Elements() == Filled(e0, target, nrow, ncol, i, 0)
      {
        k := AssignRow(vec, i, k, e0);
        i := i + 1;
      }
      FilledSteps(e0, target, nrow, ncol, i, 0);
      return Success(());
    }

    /** Matrix(nrow, ncol, column_major, vec): out_of_range when vec does not hold nrow * ncol values; otherwise a row-major fill. */
    static method FromVector(nrow: nat, ncol: nat, columnMajor: bool, vec: seq<real>) returns (r: Result<Matrix>)
      ensures r.Failure? <==> |vec| != nrow * ncol
      ensures r.Failure? ==> r.error == OutOfRange
      ensures r.Success? ==> fresh(r.value) && fresh(r.value.buffer) && r.value.Valid() && r.value.columnMajor == columnMajor
      ensures r.Success? ==> r.value.nrow == nrow && r.value.ncol == ncol && r.value.Elements() == FromRowMajor(vec, nrow, ncol)
    {
      var m := new Matrix(nrow, ncol, columnMajor);
      var res := m.AssignVector(vec);
      if res.Failure? {
        return Failure(res.error);
      }
      return Success(m);
    }

    /** The copy constructor: the same dimensions, storage order and elements, in a fresh buffer. */
    constructor Copy(other: Matrix)
      requires other.Valid()
      ensures Valid() && fresh(buffer) && columnMajor == other.columnMajor
      ensures nrow == other.nrow && ncol == other.ncol && Elements() == other.Elements()
    {
      nrow := other.nrow;
      ncol := other.ncol;
      columnMajor := other.columnMajor;
      buffer := new real[other.nrow * other.ncol];
      new;
      CopyElements(other);
    }

    /** The inner loop of the element copy: row i takes other's row i, column by column. */
    method CopyRow(other: Matrix, i: nat, ghost e0: seq<seq<real>>)
      requires Valid() && other.Valid() && other.buffer != buffer
      requires nrow == other.nrow && ncol == other.ncol && i < nrow && IsShape(e0, nrow, ncol)
      requires Elements() == Filled(e0, other.Elements(), nrow, ncol, i, 0)
      modifies buffer
      ensures Valid() && Elements() == Filled(e0, other.Elements(), nrow, ncol, i + 1, 0)
    {
      ghost var target := other.Elements();
      for j := 0 to ncol
        invariant Valid() && Elements() == Filled(e0, target, nrow, ncol, i, j)
      {
        var v := other.Get(i, j);
        FillNext(i, j, v, e0, target);
      }
      FilledSteps(e0, target, nrow, ncol, i, ncol);
    }

    /** The loops shared by the copy constructor and copy assignment: element (i, j) takes other(i, j), row by row. */
    method CopyElements(other: Matrix)
      requires Valid() && other.Valid() && other.buffer != buffer
      requires nrow == other.nrow && ncol == other.ncol
      modifies buffer
      ensures Valid() && Elements() == other.Elements()
    {
      ghost var e0 := Elements();
      ghost var target := other.Elements();
      FilledSteps(e0, target, nrow, ncol, 0, 0);
      for i := 0 to nrow
        invariant Valid() && Elements() == Filled(e0, target, nrow, ncol, i, 0)
        invariant other.Elements() == target
      {
        CopyRow(other, i, e0);
      }
      FilledSteps(e0, target, nrow, ncol, nrow, 0);
    }

    /**
     * operator=(Matrix const &): self-assignment changes nothing.  Otherwise
     * the buffer is replaced only when the dimensions differ, the storage
     * order of this matrix is kept, and the elements become those of other
     * (so a row-major source lands transposed in memory in a column-major
     * destination).
     */
    method Assign(other: Matrix) returns (r: Matrix)
      requires Valid() && other.Valid() && (other == this || other.buffer != buffer)
      modifies this, buffer
      ensures r == this && Valid()
      ensures other == this ==> nrow == old(nrow) && ncol == old(ncol) && buffer == old(buffer) && unchanged(buffer)
      ensures nrow == other.nrow && ncol == other.ncol
      ensures Elements() == old(other.Elements())
      ensures old(nrow) == other.nrow && old(ncol) == other.ncol ==> buffer == old(buffer)
      ensures old(nrow) != other.nrow || old(ncol) != other.ncol ==> fresh(buffer)
    {
      if this == other {
        return this;
      }
      if nrow != other.nrow || ncol != other.ncol {
        buffer := new real[other.nrow * other.ncol];
        nrow := other.nrow;
        ncol := other.ncol;
      }
      CopyElements(other);
      return this;
    }

    /**
     * buffer_vector() and data(): the raw storage.  Element (i, j) sits at
     * i + j * nrow in a column-major matrix, the order LAPACK reads, and at
     * i * ncol + j in a row-major one.
     */
    method BufferVector() returns (r: seq<real>)
      requires Valid()
      ensures r == buffer[..] && |r| == nrow * ncol
      ensures forall i, j :: 0 <= i < nrow && 0 <= j < ncol ==> r[Index(i, j)] == Elements()[i][j]
      ensures columnMajor ==> forall i, j :: 0 <= i < nrow && 0 <= j < ncol ==> Index(i, j) == i + j * nrow
      ensures !columnMajor ==> forall i, j :: 0 <= i < nrow && 0 <= j < ncol ==> Index(i, j) == i * ncol + j
    {
      r := buffer[..];
    }
  }
}
