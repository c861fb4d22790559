/**
 * The transposable Matrix class of gesv.cpp and 06_matrix_vector.cpp: a
 * row-major buffer of nrow * ncol doubles and a transpose flag.  transpose
 * flips the flag and swaps the dimensions without touching the buffer, so
 * the element map switches between row * ncol + col and row + col * nrow.
 */
module TransposableMatrix {
  import opened Outcomes
  import opened MatrixLayout

  class Matrix {
    var nrow: nat
    var ncol: nat
    var transposed: bool
    var buffer: array<real>

    /** The buffer holds exactly nrow * ncol elements. */
    ghost predicate Valid()
      reads this
    {
      buffer.Length == nrow * ncol
    }

    /** Matrix(nrow, ncol): a fresh buffer of nrow * ncol elements, contents unspecified, not transposed. */
    constructor (nrow: nat, ncol: nat)
      ensures Valid() && this.nrow == nrow && this.ncol == ncol && !transposed && fresh(buffer)
    {
      this.nrow := nrow;
      this.ncol := ncol;
      transposed := false;
      buffer := new real[nrow * ncol];
    }

    /** index(row, col) for an in-range pair: a position inside the buffer. */
    function Index(r: nat, c: nat): (k: nat)
      reads this
      requires r < nrow && c < ncol
      ensures k < nrow * ncol
    {
      Offset(nrow, ncol, transposed, r, c)
    }

    /** operator()(row, col) read. */
    function Get(r: nat, c: nat): real
      reads this, buffer
      requires Valid() && r < nrow && c < ncol
    {
      buffer[Index(r, c)]
    }

    /** Row i of the logical matrix. */
    ghost function Row(i: nat): (row: seq<real>)
      reads this, buffer
      requires Valid() && i < nrow
      ensures |row| == ncol && forall j :: 0 <= j < ncol ==> row[j] == Get(i, j)
    {
      seq(ncol, j requires 0 <= j < ncol && Valid() && i < nrow reads this, buffer => Get(i, j))
    }

    /** The logical matrix, row by row, whatever the layout. */
    ghost function Elements(): (m: seq<seq<real>>)
      reads this, buffer
      requires Valid()
      ensures IsShape(m, nrow, ncol)
      ensures forall i, j :: 0 <= i < nrow && 0 <= j < ncol ==> m[i][j] == Get(i, j)
    {
      seq(nrow, i requires 0 <= i < nrow && Valid() reads this, buffer => Row(i))
    }

    /** operator()(row, col) write: element (r, c) takes v; every other element keeps its value. */
    method Set(r: nat, c: nat, v: real)
      requires Valid() && r < nrow && c < ncol
      modifies buffer
      ensures Valid()
      ensures Elements() == old(Elements())[r := old(Elements())[r][c := v]]
    {
      buffer[Index(r, c)] := v;
      forall i, j | 0 <= i < nrow && 0 <= j < ncol && (i != r || j != c)
        ensures Get(i, j) == old(Get(i, j))
      {
        if Index(i, j) == Index(r, c) {
          OffsetInjective(nrow, ncol, transposed, i, j, r, c);
        }
      }
      forall i | 0 <= i < nrow
        ensures Elements()[i] == old(Elements())[r := old(Elements())[r][c := v]][i]
      {
      }
    }

    function Size(): (n: nat)
      reads this
      requires Valid()
      ensures n == buffer.Length
    {
      nrow * ncol
    }

    function IsTransposed(): bool
      reads this
    {
      transposed
    }

    /** One step of a row-by-row fill: element (i, j) takes its target value and the fill moves one entry on. */
    method FillNext(i: nat, j: nat, v: real, ghost e0: seq<seq<real>>, ghost target: seq<seq<real>>)
      requires Valid() && i < nrow && j < ncol && IsShape(e0, nrow, ncol) && IsShape(target, nrow, ncol)
      requires Elements() == Filled(e0, target, nrow, ncol, i, j) && v == target[i][j]
      modifies buffer
      ensures Valid() && Elements() == Filled(e0, target, nrow, ncol, i, j + 1)
    {
      ghost var m := Elements();
      FilledSteps(e0, target, nrow, ncol, i, j);
      Set(i, j, v);
      assert Elements() == m[i := m[i][j := target[i][j]]];
    }

    /** The inner loop of operator=(vector): row i takes vec[k], vec[k + 1], ..., with k running on from row to row. */
    method AssignRow(vec: seq<real>, i: nat, k0: nat, ghost e0: seq<seq<real>>) returns (k: nat)
      requires Valid() && |vec| == nrow * ncol && i < nrow && IsShape(e0, nrow, ncol)
      requires k0 == Offset(nrow, ncol, false, i, 0)
      requires Elements() == Filled(e0, FromRowMajor(vec, nrow, ncol), nrow, ncol, i, 0)
      modifies buffer
      ensures k == Offset(nrow, ncol, false, i + 1, 0)
      ensures Valid() && Elements() == Filled(e0, FromRowMajor(vec, nrow, ncol), nrow, ncol, i + 1, 0)
    {
      ghost var target := FromRowMajor(vec, nrow, ncol);
      k := k0;
      var j := 0;
      while j < ncol
        invariant 0 <= j <= ncol && k == Offset(nrow, ncol, false, i, j)
        invariant Valid() && Elements() == Filled(e0, target, nrow, ncol, i, j)
      {
        FillNext(i, j, vec[k], e0, target);
        k := k + 1;
        j := j + 1;
      }
      FilledSteps(e0, target, nrow, ncol, i, j);
      RowMajorNextRow(nrow, ncol, i);
    }

    /**
     * operator=(vector): out_of_range, with nothing written, when vec does
     * not hold nrow * ncol values; otherwise element (i, j) takes
     * vec[i * ncol + j], whatever the layout.
     */
    method AssignVector(vec: seq<real>) returns (r: Result<()>)
      requires Valid()
      modifies buffer
      ensures Valid()
      ensures r.Failure? <==> |vec| != nrow * ncol
      ensures r.Failure? ==> r.error == OutOfRange && unchanged(buffer)
      ensures r.Success? ==> Elements() == FromRowMajor(vec, nrow, ncol)
    {
      if Size() != |vec| {
        return Failure(OutOfRange);
      }
      ghost var e0 := Elements();
      ghost var target := FromRowMajor(vec, nrow, ncol);
      var k := 0;
      var i := 0;
      FilledSteps(e0, target, nrow, ncol, 0, 0);
      while i < nrow
        invariant 0 <= i <= nrow && k == Offset(nrow, ncol, false, i, 0)
        invariant Valid() && Elements() == Filled(e0, target, nrow, ncol, i, 0)
      {
        k := AssignRow(vec, i, k, e0);
        i := i + 1;
      }
      FilledSteps(e0, target, nrow, ncol, i, 0);
      return Success(());
    }

    /** Matrix(nrow, ncol, vec): out_of_range when vec does not hold nrow * ncol values; otherwise a row-major fill. */
    static method FromVector(nrow: nat, ncol: nat, vec: seq<real>) returns (r: Result<Matrix>)
      ensures r.Failure? <==> |vec| != nrow * ncol
      ensures r.Failure? ==> r.error == OutOfRange
      ensures r.Success? ==> fresh(r.value) && fresh(r.value.buffer) && r.value.Valid() && !r.value.transposed
      ensures r.Success? ==> r.value.nrow == nrow && r.value.ncol == ncol && r.value.Elements() == FromRowMajor(vec, nrow, ncol)
    {
      var m := new Matrix(nrow, ncol);
      var res := m.AssignVector(vec);
      if res.Failure? {
        return Failure(res.error);
      }
      return Success(m);
    }

    /** The copy constructor: the same dimensions and elements, in a fresh buffer, not transposed. */
    constructor Copy(other: Matrix)
      requires other.Valid()
      ensures Valid() && fresh(buffer) && !transposed
      ensures nrow == other.nrow && ncol == other.ncol && Elements() == other.Elements()
    {
      nrow := other.nrow;
      ncol := other.ncol;
      transposed := false;
      buffer := new real[other.nrow * other.ncol];
      new;
      CopyElements(other);
    }

    /** The inner loop of the element copy: row i takes other's row i, column by column. */
    method CopyRow(other: Matrix, i: nat, ghost e0: seq<seq<real>>)
      requires Valid() && other.Valid() && other.buffer != buffer
      requires nrow == other.nrow && ncol == other.ncol && i < nrow && IsShape(e0, nrow, ncol)
      requires Elements() == Filled(e0, other.Elements(), nrow, ncol, i, 0)
      modifies buffer
      ensures Valid() && Elements() == Filled(e0, other.Elements(), nrow, ncol, i + 1, 0)
    {
      ghost var target := other.Elements();
      for j := 0 to ncol
        invariant Valid() && Elements() == Filled(e0, target, nrow, ncol, i, j)
      {
        var v := other.Get(i, j);
        FillNext(i, j, v, e0, target);
      }
      FilledSteps(e0, target, nrow, ncol, i, ncol);
    }

    /** The loops shared by the copy constructor and copy assignment: element (i, j) takes other(i, j), row by row. */
    method CopyElements(other: Matrix)
      requires Valid() && other.Valid() && other.buffer != buffer
      requires nrow == other.nrow && ncol == other.ncol
      modifies buffer
      ensures Valid() && Elements() == other.Elements()
    {
      ghost var e0 := Elements();
      ghost var target := other.Elements();
      FilledSteps(e0, target, nrow, ncol, 0, 0);
      for i := 0 to nrow
        invariant Valid() && Elements() == Filled(e0, target, nrow, ncol, i, 0)
        invariant other.Elements() == target
      {
        CopyRow(other, i, e0);
      }
      FilledSteps(e0, target, nrow, ncol, nrow, 0);
    }

    /**
     * operator=(Matrix const &): self-assignment changes nothing.  Otherwise
     * the buffer is replaced only when the dimensions differ, the transpose
     * flag is kept, and the elements become those of other.
     */
    method Assign(other: Matrix) returns (r: Matrix)
      requires Valid() && other.Valid() && (other == this || other.buffer != buffer)
      modifies this, buffer
      ensures r == this && Valid()
      ensures other == this ==> nrow == old(nrow) && ncol == old(ncol) && buffer == old(buffer) && unchanged(buffer)
      ensures nrow == other.nrow && ncol == other.ncol && transposed == old(transposed)
      ensures Elements() == old(other.Elements())
      ensures old(nrow) == other.nrow && old(ncol) == other.ncol ==> buffer == old(buffer)
      ensures old(nrow) != other.nrow || old(ncol) != other.ncol ==> fresh(buffer)
    {
      if this == other {
        return this;
      }
      if nrow != other.nrow || ncol != other.ncol {
        buffer := new real[other.nrow * other.ncol];
        nrow := other.nrow;
        ncol := other.ncol;
      }
      CopyElements(other);
      return this;
    }

    /** transpose(): flips the flag and swaps the dimensions; the buffer is not touched, and (i, j) now reads what (j, i) read. */
    method Transpose() returns (r: Matrix)
      requires Valid()
      modifies this
      ensures r == this && Valid()
      ensures transposed == !old(transposed) && nrow == old(ncol) && ncol == old(nrow)
      ensures buffer == old(buffer)
      ensures Elements() == Transposed(old(Elements()), old(nrow), old(ncol))
    {
      ghost var e0 := Elements();
      transposed := !transposed;
      nrow, ncol := ncol, nrow;
      forall i, j | 0 <= i < nrow && 0 <= j < ncol
        ensures Get(i, j) == e0[j][i]
      {
        TransposedOffset(ncol, nrow, !transposed, j, i);
      }
      forall i | 0 <= i < nrow
        ensures Elements()[i] == Transposed(e0, ncol, nrow)[i]
      {
      }
      return this;
    }

    /** buffer_vector(): the raw storage, element (i, j) at index(i, j); row-major unless transposed. */
    method BufferVector() returns (r: seq<real>)
      requires Valid()
      ensures r == buffer[..] && |r| == nrow * ncol
      ensures forall i, j :: 0 <= i < nrow && 0 <= j < ncol ==> r[Offset(nrow, ncol, transposed, i, j)] == Elements()[i][j]
    {
      r := buffer[..];
    }
  }

  /** The innermost loop of operator*(mat1, mat2): v accumulates mat1(i, j) * mat2(j, k) for j from 0 up. */
  method RowTimesColumn(a: Matrix, b: Matrix, i: nat, k: nat) returns (v: real)
    requires a.Valid() && b.Valid() && a.ncol == b.nrow && i < a.nrow && k < b.ncol
    ensures v == Dot(a.Elements()[i], ColumnOf(b.Elements(), b.nrow, b.ncol, k))
  {
    ghost var row := a.Elements()[i];
    ghost var col := ColumnOf(b.Elements(), b.nrow, b.ncol, k);
    v := 0.0;
    for j := 0 to a.ncol
      invariant v == Dot(row[..j], col[..j])
    {
      DotStep(row, col, j);
      v := v + a.Get(i, j) * b.Get(j, k);
    }
    assert row[..a.ncol] == row && col[..a.ncol] == col;
  }

  /** The middle loop of operator*(mat1, mat2): row i of the result takes its row-column sums, column by column. */
  method FillProductRow(ret: Matrix, a: Matrix, b: Matrix, i: nat, ghost e0: seq<seq<real>>, ghost target: seq<seq<real>>)
    requires ret.Valid() && a.Valid() && b.Valid() && a.ncol == b.nrow
    requires ret.nrow == a.nrow && ret.ncol == b.ncol && i < ret.nrow
    requires ret.buffer != a.buffer && ret.buffer != b.buffer
    requires IsShape(e0, ret.nrow, ret.ncol) && target == MatMul(a.Elements(), b.Elements(), a.nrow, a.ncol, b.ncol)
    requires ret.Elements() == Filled(e0, target, ret.nrow, ret.ncol, i, 0)
    modifies ret.buffer
    ensures ret.Valid() && ret.Elements() == Filled(e0, target, ret.nrow, ret.ncol, i + 1, 0)
  {
    for k := 0 to ret.ncol
      invariant ret.Valid() && ret.Elements() == Filled(e0, target, ret.nrow, ret.ncol, i, k)
    {
      ghost var m := ret.Elements();
      FilledSteps(e0, target, ret.nrow, ret.ncol, i, k);
      var v := RowTimesColumn(a, b, i, k);
      assert v == target[i][k];
      ret.Set(i, k, v);
      assert ret.Elements() == m[i := m[i][k := target[i][k]]];
    }
    FilledSteps(e0, target, ret.nrow, ret.ncol, i, ret.ncol);
  }

  /** The outer loop of operator*(mat1, mat2): the rows of the result are filled in order. */
  method FillProduct(ret: Matrix, a: Matrix, b: Matrix)
    requires ret.Valid() && a.Valid() && b.Valid() && a.ncol == b.nrow
    requires ret.nrow == a.nrow && ret.ncol == b.ncol
    requires ret.buffer != a.buffer && ret.buffer != b.buffer
    modifies ret.buffer
    ensures ret.Valid() && ret.Elements() == MatMul(a.Elements(), b.Elements(), a.nrow, a.ncol, b.ncol)
  {
    ghost var e0 := ret.Elements();
    ghost var target := MatMul(a.Elements(), b.Elements(), a.nrow, a.ncol, b.ncol);
    FilledSteps(e0, target, ret.nrow, ret.ncol, 0, 0);
    for i := 0 to ret.nrow
      invariant ret.Valid() && ret.Elements() == Filled(e0, target, ret.nrow, ret.ncol, i, 0)
      invariant target == MatMul(a.Elements(), b.Elements(), a.nrow, a.ncol, b.ncol)
    {
      FillProductRow(ret, a, b, i, e0, target);
    }
    FilledSteps(e0, target, ret.nrow, ret.ncol, ret.nrow, 0);
  }

  /**
   * operator*(mat1, mat2): out_of_range when mat1.ncol differs from
   * mat2.nrow; otherwise a fresh nrow1 x ncol2 matrix whose (i, k) element is
   * the sum over j of mat1(i, j) * mat2(j, k), accumulated from j = 0 up.
   */
  method Multiply(a: Matrix, b: Matrix) returns (r: Result<Matrix>)
    requires a.Valid() && b.Valid()
    ensures r.Failure? <==> a.ncol != b.nrow
    ensures r.Failure? ==> r.error == OutOfRange
    ensures r.Success? ==> fresh(r.value) && fresh(r.value.buffer) && r.value.Valid() && !r.value.transposed
    ensures r.Success? ==> r.value.nrow == a.nrow && r.value.ncol == b.ncol
    ensures r.Success? ==> r.value.Elements() == MatMul(a.Elements(), b.Elements(), a.nrow, a.ncol, b.ncol)
  {
    if a.ncol != b.nrow {
      return Failure(OutOfRange);
    }
    var ret := new Matrix(a.nrow, b.ncol);
    FillProduct(ret, a, b);
    return Success(ret);
  }

  /** The inner loop of operator*(mat, vec): v accumulates mat(i, j) * vec[j] for j from 0 up. */
  method RowTimesVector(mat: Matrix, i: nat, vec: seq<real>) returns (v: real)
    requires mat.Valid() && mat.ncol == |vec| && i < mat.nrow
    ensures v == Dot(mat.Elements()[i], vec)
  {
    ghost var row := mat.Elements()[i];
    v := 0.0;
    for j := 0 to mat.ncol
      invariant v == Dot(row[..j], vec[..j])
    {
      DotStep(row, vec, j);
      v := v + mat.Get(i, j) * vec[j];
    }
    assert row[..mat.ncol] == row && vec[..mat.ncol] == vec;
  }

  /**
   * operator*(mat, vec): out_of_range when mat.ncol differs from the vector
   * length; otherwise a vector of length nrow whose entry i is the sum over j
   * of mat(i, j) * vec[j], accumulated from j = 0 up.
   */
  method MultiplyVector(mat: Matrix, vec: seq<real>) returns (r: Result<seq<real>>)
    requires mat.Valid()
    ensures r.Failure? <==> mat.ncol != |vec|
    ensures r.Failure? ==> r.error == OutOfRange
    ensures r.Success? ==> r.value == MatVec(mat.Elements(), mat.nrow, mat.ncol, vec)
  {
    if mat.ncol != |vec| {
      return Failure(OutOfRange);
    }
    var ret := new real[mat.nrow];
    for i := 0 to mat.nrow
      invariant forall i' :: 0 <= i' < i ==> ret[i'] == Dot(mat.Elements()[i'], vec)
    {
      ret[i] := RowTimesVector(mat, i, vec);
    }
    assert ret[..] == MatVec(mat.Elements(), mat.nrow, mat.ncol, vec);
    return Success(ret[..]);
  }
}
