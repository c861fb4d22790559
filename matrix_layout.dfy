/**
 * What the hand-written Matrix classes of the linear-algebra notebooks share:
 * the map from a (row, column) pair to a buffer position, row-major or
 * column-major, and matrices as values (a sequence of rows) with the
 * products the classes compute.
 */
module MatrixLayout {

  /** index(row, col): row * ncol + col in row-major order, row + col * nrow in column-major (or transposed) order. */
  function Offset(nrow: nat, ncol: nat, columnMajor: bool, r: nat, c: nat): (k: nat)
    ensures r < nrow && c < ncol ==> k < nrow * ncol
  {
    if r < nrow && c < ncol then OffsetInRange(nrow, ncol, columnMajor, r, c); OffsetOf(nrow, ncol, columnMajor, r, c)
    else OffsetOf(nrow, ncol, columnMajor, r, c)
  }

  /** The position formula itself, before its range is established. */
  function OffsetOf(nrow: nat, ncol: nat, columnMajor: bool, r: nat, c: nat): nat
  {
    if columnMajor then r + c * nrow else r * ncol + c
  }

  /** Rows (or columns) below b end before row b starts. */
  lemma RowsBefore(a: nat, b: nat, n: nat)
    requires a < b
    ensures a * n + n <= b * n
  {
    assert (b - a) * n >= n by {
      assert b - a >= 1;
    }
    assert b * n == a * n + (b - a) * n;
  }

  /** A position below major * minor has a quotient by minor below major. */
  lemma QuotientBelow(k: nat, minor: nat, major: nat)
    requires minor > 0 && k < major * minor
    ensures k / minor < major
  {
    var q := k / minor;
    assert k == q * minor + k % minor;
    if q > major {
      RowsBefore(major, q, minor);
    }
  }

  /** Every in-range pair lands inside the buffer of nrow * ncol entries. */
  lemma OffsetInRange(nrow: nat, ncol: nat, columnMajor: bool, r: nat, c: nat)
    requires r < nrow && c < ncol
    ensures OffsetOf(nrow, ncol, columnMajor, r, c) < nrow * ncol
  {
    if columnMajor {
      RowsBefore(c, ncol, nrow);
      assert nrow * ncol == ncol * nrow;
    } else {
      RowsBefore(r, nrow, ncol);
    }
  }

  /** Two in-range pairs at the same position are the same pair. */
  lemma OffsetInjective(nrow: nat, ncol: nat, columnMajor: bool, r1: nat, c1: nat, r2: nat, c2: nat)
    requires r1 < nrow && c1 < ncol && r2 < nrow && c2 < ncol
    requires Offset(nrow, ncol, columnMajor, r1, c1) == Offset(nrow, ncol, columnMajor, r2, c2)
    ensures r1 == r2 && c1 == c2
  {
    if columnMajor {
      if c1 < c2 {
        RowsBefore(c1, c2, nrow);
      } else if c2 < c1 {
        RowsBefore(c2, c1, nrow);
      }
    } else {
      if r1 < r2 {
        RowsBefore(r1, r2, ncol);
      } else if r2 < r1 {
        RowsBefore(r2, r1, ncol);
      }
    }
  }

  /** Every buffer position holds some in-range pair: with OffsetInjective, the map is a bijection onto [0, nrow * ncol). */
  lemma OffsetOnto(nrow: nat, ncol: nat, columnMajor: bool, k: nat)
    requires k < nrow * ncol
    ensures exists r: nat, c: nat :: r < nrow && c < ncol && Offset(nrow, ncol, columnMajor, r, c) == k
  {
    var major, minor := if columnMajor then ncol else nrow, if columnMajor then nrow else ncol;
    assert minor > 0;
    var q, s := k / minor, k % minor;
    assert k == q * minor + s;
    assert major * minor == nrow * ncol;
    QuotientBelow(k, minor, major);
    if columnMajor {
      assert OffsetOf(nrow, ncol, columnMajor, s, q) == k;
      assert Offset(nrow, ncol, columnMajor, s, q) == k;
    } else {
      assert OffsetOf(nrow, ncol, columnMajor, q, s) == k;
      assert Offset(nrow, ncol, columnMajor, q, s) == k;
    }
  }

  /** Swapping the dimensions and the layout flag reads pair (c, r) where pair (r, c) was. */
  lemma TransposedOffset(nrow: nat, ncol: nat, columnMajor: bool, r: nat, c: nat)
    ensures Offset(ncol, nrow, !columnMajor, c, r) == Offset(nrow, ncol, columnMajor, r, c)
  {
  }

  /** m has nrow rows of ncol entries each. */
  ghost predicate IsShape(m: seq<seq<real>>, nrow: nat, ncol: nat)
  {
    |m| == nrow && forall i :: 0 <= i < nrow ==> |m[i]| == ncol
  }

  /** The row-major position after the last entry of row i is the first of row i + 1. */
  lemma RowMajorNextRow(nrow: nat, ncol: nat, i: nat)
    ensures Offset(nrow, ncol, false, i, ncol) == Offset(nrow, ncol, false, i + 1, 0)
  {
    assert (i + 1) * ncol == i * ncol + ncol;
  }

  /** The matrix whose (i, j) element is vec[i * ncol + j]: vec read in row-major logical order. */
  function FromRowMajor(vec: seq<real>, nrow: nat, ncol: nat): (m: seq<seq<real>>)
    requires |vec| == nrow * ncol
    ensures IsShape(m, nrow, ncol)
    ensures forall i, j :: 0 <= i < nrow && 0 <= j < ncol ==> m[i][j] == vec[Offset(nrow, ncol, false, i, j)]
  {
    seq(nrow, i requires 0 <= i < nrow => RowOfVector(vec, nrow, ncol, i))
  }

  /** Row i of FromRowMajor: the ncol entries of vec from i * ncol on. */
  function RowOfVector(vec: seq<real>, nrow: nat, ncol: nat, i: nat): (r: seq<real>)
    requires |vec| == nrow * ncol && i < nrow
    ensures |r| == ncol
    ensures forall j :: 0 <= j < ncol ==> r[j] == vec[Offset(nrow, ncol, false, i, j)]
  {
    seq(ncol, j requires 0 <= j < ncol => vec[Offset(nrow, ncol, false, i, j)])
  }

  /** The transposed matrix: ncol rows of nrow entries, (j, i) holding (i, j). */
  function Transposed(m: seq<seq<real>>, nrow: nat, ncol: nat): (t: seq<seq<real>>)
    requires IsShape(m, nrow, ncol)
    ensures IsShape(t, ncol, nrow)
    ensures forall i, j :: 0 <= i < nrow && 0 <= j < ncol ==> t[j][i] == m[i][j]
  {
    seq(ncol, j requires 0 <= j < ncol => seq(nrow, i requires 0 <= i < nrow => m[i][j]))
  }

  /** Transposing twice gives the matrix back. */
  lemma TransposedTwice(m: seq<seq<real>>, nrow: nat, ncol: nat)
    requires IsShape(m, nrow, ncol)
    ensures Transposed(Transposed(m, nrow, ncol), ncol, nrow) == m
  {
    var t := Transposed(Transposed(m, nrow, ncol), ncol, nrow);
    forall i | 0 <= i < nrow
      ensures t[i] == m[i]
    {
    }
  }

  /** Column k of m. */
  function ColumnOf(m: seq<seq<real>>, nrow: nat, ncol: nat, k: nat): (c: seq<real>)
    requires IsShape(m, nrow, ncol) && k < ncol
    ensures |c| == nrow && forall i :: 0 <= i < nrow ==> c[i] == m[i][k]
  {
    seq(nrow, i requires 0 <= i < nrow => m[i][k])
  }

  /** The sum of u[j] * v[j] over j, accumulated from the first index up as the product loops do. */
  function Dot(u: seq<real>, v: seq<real>): real
    requires |u| == |v|
    decreases |u|
  {
    if |u| == 0 then 0.0 else Dot(u[..|u| - 1], v[..|v| - 1]) + u[|u| - 1] * v[|v| - 1]
  }

  /** One more term of the running sum: what the accumulation v += a(i, j) * b(j, k) adds. */
  lemma DotStep(u: seq<real>, v: seq<real>, j: nat)
    requires |u| == |v| && j < |u|
    ensures Dot(u[..j + 1], v[..j + 1]) == Dot(u[..j], v[..j]) + u[j] * v[j]
  {
    assert u[..j + 1][..j] == u[..j];
    assert v[..j + 1][..j] == v[..j];
  }

  /** The sum does not depend on the order of the factors. */
  lemma {:induction false} DotSymmetric(u: seq<real>, v: seq<real>)
    requires |u| == |v|
    ensures Dot(u, v) == Dot(v, u)
    decreases |u|
  {
    if |u| > 0 {
      DotSymmetric(u[..|u| - 1], v[..|v| - 1]);
    }
  }

  /** A vector whose only nonzero entry is a one at index k: the sum picks v[k]. */
  lemma {:induction false} DotUnit(u: seq<real>, v: seq<real>, k: nat)
    requires |u| == |v| && k < |u|
    requires u[k] == 1.0 && forall j :: 0 <= j < |u| && j != k ==> u[j] == 0.0
    ensures Dot(u, v) == v[k]
    decreases |u|
  {
    var n := |u| - 1;
    if k < n {
      DotUnit(u[..n], v[..n], k);
    } else {
      DotZero(u[..n], v[..n]);
    }
  }

  /** A zero vector sums to zero. */
  lemma {:induction false} DotZero(u: seq<real>, v: seq<real>)
    requires |u| == |v| && forall j :: 0 <= j < |u| ==> u[j] == 0.0
    ensures Dot(u, v) == 0.0
    decreases |u|
  {
    if |u| > 0 {
      DotZero(u[..|u| - 1], v[..|v| - 1]);
    }
  }

  /** The matrix-vector product: entry i is the sum over j of m(i, j) * vec[j]. */
  function MatVec(m: seq<seq<real>>, nrow: nat, ncol: nat, vec: seq<real>): (r: seq<real>)
    requires IsShape(m, nrow, ncol) && |vec| == ncol
    ensures |r| == nrow && forall i :: 0 <= i < nrow ==> r[i] == Dot(m[i], vec)
  {
    seq(nrow, i requires 0 <= i < nrow => Dot(m[i], vec))
  }

  /** The matrix-matrix product of an n x p and a p x q matrix: (i, k) is the sum over j of a(i, j) * b(j, k). */
  function MatMul(a: seq<seq<real>>, b: seq<seq<real>>, n: nat, p: nat, q: nat): (r: seq<seq<real>>)
    requires IsShape(a, n, p) && IsShape(b, p, q)
    ensures IsShape(r, n, q)
    ensures forall i, k :: 0 <= i < n && 0 <= k < q ==> r[i][k] == Dot(a[i], ColumnOf(b, p, q, k))
  {
    seq(n, i requires 0 <= i < n => seq(q, k requires 0 <= k < q => Dot(a[i], ColumnOf(b, p, q, k))))
  }

  /** The n x n identity. */
  function Identity(n: nat): (m: seq<seq<real>>)
    ensures IsShape(m, n, n)
    ensures forall i, j :: 0 <= i < n && 0 <= j < n ==> m[i][j] == if i == j then 1.0 else 0.0
  {
    seq(n, i requires 0 <= i < n => seq(n, j requires 0 <= j < n => if i == j then 1.0 else 0.0))
  }

  /** The identity leaves every vector as it is. */
  lemma MatVecIdentity(n: nat, vec: seq<real>)
    requires |vec| == n
    ensures MatVec(Identity(n), n, n, vec) == vec
  {
    var r := MatVec(Identity(n), n, n, vec);
    forall i | 0 <= i < n
      ensures r[i] == vec[i]
    {
      DotUnit(Identity(n)[i], vec, i);
    }
  }

  /** The transpose of a product is the product of the transposes in the other order. */
  lemma MatMulTransposed(a: seq<seq<real>>, b: seq<seq<real>>, n: nat, p: nat, q: nat)
    requires IsShape(a, n, p) && IsShape(b, p, q)
    ensures Transposed(MatMul(a, b, n, p, q), n, q) == MatMul(Transposed(b, p, q), Transposed(a, n, p), q, p, n)
  {
    var l := Transposed(MatMul(a, b, n, p, q), n, q);
    var r := MatMul(Transposed(b, p, q), Transposed(a, n, p), q, p, n);
    forall k, i | 0 <= k < q && 0 <= i < n
      ensures l[k][i] == r[k][i]
    {
      var bt := Transposed(b, p, q);
      var at := Transposed(a, n, p);
      assert bt[k] == ColumnOf(b, p, q, k);
      assert ColumnOf(at, p, n, i) == a[i];
      DotSymmetric(a[i], ColumnOf(b, p, q, k));
    }
    forall k | 0 <= k < q
      ensures l[k] == r[k]
    {
    }
  }

  /**
   * A matrix part way through a row-by-row fill: the entries before (i, j)
   * in row-major order come from target, the rest from before.
   */
  function Filled(before: seq<seq<real>>, target: seq<seq<real>>, nrow: nat, ncol: nat, i: nat, j: nat): (m: seq<seq<real>>)
    requires IsShape(before, nrow, ncol) && IsShape(target, nrow, ncol)
    ensures IsShape(m, nrow, ncol)
  {
    seq(nrow, i' requires 0 <= i' < nrow =>
      seq(ncol, j' requires 0 <= j' < ncol =>
        if i' < i || (i' == i && j' < j) then target[i'][j'] else before[i'][j']))
  }

  /** The fill starts at before, writes one entry per step, moves to the next row at a row end, and ends at target. */
  lemma FilledSteps(before: seq<seq<real>>, target: seq<seq<real>>, nrow: nat, ncol: nat, i: nat, j: nat)
    requires IsShape(before, nrow, ncol) && IsShape(target, nrow, ncol)
    ensures Filled(before, target, nrow, ncol, 0, 0) == before
    ensures Filled(before, target, nrow, ncol, nrow, 0) == target
    ensures Filled(before, target, nrow, ncol, i, ncol) == Filled(before, target, nrow, ncol, i + 1, 0)
    ensures i < nrow && j < ncol ==>
      var m := Filled(before, target, nrow, ncol, i, j);
      Filled(before, target, nrow, ncol, i, j + 1) == m[i := m[i][j := target[i][j]]]
  {
    var s := Filled(before, target, nrow, ncol, 0, 0);
    forall i' | 0 <= i' < nrow
      ensures s[i'] == before[i']
    {
    }
    var e := Filled(before, target, nrow, ncol, nrow, 0);
    forall i' | 0 <= i' < nrow
      ensures e[i'] == target[i']
    {
    }
    var a := Filled(before, target, nrow, ncol, i, ncol);
    var b := Filled(before, target, nrow, ncol, i + 1, 0);
    forall i' | 0 <= i' < nrow
      ensures a[i'] == b[i']
    {
    }
    if i < nrow && j < ncol {
      var m := Filled(before, target, nrow, ncol, i, j);
      var n := Filled(before, target, nrow, ncol, i, j + 1);
      forall i' | 0 <= i' < nrow
        ensures n[i'] == m[i := m[i][j := target[i][j]]][i']
      {
      }
    }
  }
}
