/** In-place Gauss-Jordan inversion of the Poseidon2 matrices, without pivoting. */
module MatInverse {
  import opened Common
  import opened FieldAlgebra

  // ----- what the loops keep, row by row

  /** The row v times the matrix is the row w. */
  ghost predicate RowProduct<T>(f: Field<T>, v: seq<T>, a: Matrix<T>, w: seq<T>) {
    && |v| == |w| == |a| && Square(a, |a|)
    && forall c :: 0 <= c < |a| ==> Dot(f, v, a, c, |a|) == w[c]
  }

  ghost predicate ZerosBefore<T>(f: Field<T>, w: seq<T>, n: nat) {
    n <= |w| && forall c :: 0 <= c < n ==> w[c] == f.zero
  }

  ghost predicate ZerosAfter<T>(f: Field<T>, w: seq<T>, r: nat) {
    forall c :: r < c < |w| ==> w[c] == f.zero
  }

  ghost predicate UnitRow<T>(f: Field<T>, w: seq<T>, r: nat) {
    forall c :: 0 <= c < |w| ==> w[c] == if c == r then f.one else f.zero
  }

  /** A finished row of the first phase: v is lower triangular with a nonzero diagonal,
      w = v * a is upper triangular with ones on the diagonal. */
  ghost predicate Echelon<T>(f: Field<T>, v: seq<T>, a: Matrix<T>, w: seq<T>, r: nat) {
    && r < |a| && RowProduct(f, v, a, w)
    && ZerosBefore(f, w, r) && w[r] == f.one
    && ZerosAfter(f, v, r) && v[r] != f.zero
  }

  /** An unfinished row r: columns before j have been eliminated. */
  ghost predicate Partial<T>(f: Field<T>, v: seq<T>, a: Matrix<T>, w: seq<T>, r: nat, j: nat) {
    && r < |a| && RowProduct(f, v, a, w)
    && ZerosBefore(f, w, j)
    && ZerosAfter(f, v, r) && v[r] == f.one
  }

  /** inv * a == I. */
  ghost predicate LeftInverse<T>(f: Field<T>, inv: Matrix<T>, a: Matrix<T>) {
    && Square(a, |a|) && Square(inv, |a|)
    && forall r, c :: 0 <= r < |a| && 0 <= c < |a| ==>
         Dot(f, inv[r], a, c, |a|) == if r == c then f.one else f.zero
  }

  /** a * inv == I. */
  ghost predicate RightInverse<T>(f: Field<T>, inv: Matrix<T>, a: Matrix<T>) {
    LeftInverse(f, a, inv)
  }

  // ----- when elimination without pivoting succeeds

  /** The leading k by k block kills no nonzero row: no row supported on the first k
      entries has a product that vanishes in the first k columns. */
  ghost predicate BlockNonsingular<T(!new)>(f: Field<T>, a: Matrix<T>, k: nat)
    requires Square(a, |a|)
  {
    forall v: seq<T> :: KilledBy(f, v, a, k) ==> ZerosBefore(f, v, |a|)
  }

  ghost predicate KilledBy<T>(f: Field<T>, v: seq<T>, a: Matrix<T>, k: nat)
    requires Square(a, |a|)
  {
    && |v| == |a| && k <= |a|
    && (forall i :: k <= i < |v| ==> v[i] == f.zero)
    && (forall c :: 0 <= c < k ==> Dot(f, v, a, c, |a|) == f.zero)
  }

  ghost predicate LeadingBlocksNonsingular<T(!new)>(f: Field<T>, a: Matrix<T>)
    requires Square(a, |a|)
  {
    forall k :: 0 < k <= |a| ==> BlockNonsingular(f, a, k)
  }

  // ----- one step of each kind

  lemma StartRow<T(!new)>(f: Field<T>, v: seq<T>, a: Matrix<T>, r: nat)
    requires IsField(f) && Square(a, |a|) && r < |a| == |v| && UnitRow(f, v, r)
    ensures Partial(f, v, a, a[r], r, 0)
  {
    forall c | 0 <= c < |a| ensures Dot(f, v, a, c, |a|) == a[r][c] {
      DotUnit(f, v, a, c, r, |a|);
    }
  }

  lemma ReducedProduct<T(!new)>(f: Field<T>, a: Matrix<T>, v': seq<T>, w': seq<T>, v: seq<T>, w: seq<T>,
                                vj: seq<T>, wj: seq<T>, x: T)
    requires IsField(f) && RowProduct(f, v, a, w) && RowProduct(f, vj, a, wj)
    requires IsReduced(f, v', v, vj, x) && IsReduced(f, w', w, wj, x)
    ensures RowProduct(f, v', a, w')
  {
    forall c | 0 <= c < |a| ensures Dot(f, v', a, c, |a|) == w'[c] {
      DotReduced(f, v', v, vj, x, a, c, |a|);
    }
  }

  /** What the inner loop of the first phase writes. */
  ghost predicate Eliminated<T>(f: Field<T>, w': seq<T>, v': seq<T>, w: seq<T>, v: seq<T>,
                                wj: seq<T>, vj: seq<T>, row: nat, j: nat)
  {
    && |w'| == |v'| == |w| == |v| == |wj| == |vj| && j < |w|
    && (forall c :: 0 <= c < |w| ==>
          w'[c] == if c < j then f.zero else f.Sub(w[c], f.mul(wj[c], w[j])))
    && (forall c :: 0 <= c < |v| ==>
          v'[c] == if c > row then f.zero else f.Sub(v[c], f.mul(vj[c], w[j])))
  }

  /** The entries that are written as zero, or left alone, are what the full row
      operation would give. */
  lemma EliminateStep<T(!new)>(f: Field<T>, a: Matrix<T>, w': seq<T>, v': seq<T>, w: seq<T>, v: seq<T>,
                               wj: seq<T>, vj: seq<T>, row: nat, j: nat)
    requires IsField(f) && j < row && Partial(f, v, a, w, row, j) && Echelon(f, vj, a, wj, j)
    requires Eliminated(f, w', v', w, v, wj, vj, row, j)
    ensures Partial(f, v', a, w', row, j + 1)
  {
    var x := w[j];
    SubNothing(f, f.zero, x);
    SubNothing(f, f.one, x);
    OneMul(f, x);
    SubSelf(f, x);
    assert IsReduced(f, w', w, wj, x);
    assert IsReduced(f, v', v, vj, x);
    ReducedProduct(f, a, v', w', v, w, vj, wj, x);
  }

  /** What the scaling loop writes. */
  ghost predicate ScaledRow<T>(f: Field<T>, w': seq<T>, v': seq<T>, w: seq<T>, v: seq<T>, row: nat, x: T) {
    && |w'| == |v'| == |w| == |v|
    && (forall c :: 0 <= c < |w| ==>
          w'[c] == if c < row then w[c] else if c == row then f.one else f.mul(w[c], x))
    && (forall c :: 0 <= c < |v| ==> v'[c] == if c > row then v[c] else f.mul(v[c], x))
  }

  lemma ScaleStep<T(!new)>(f: Field<T>, a: Matrix<T>, w': seq<T>, v': seq<T>, w: seq<T>, v: seq<T>, row: nat)
    requires IsField(f) && Partial(f, v, a, w, row, row) && w[row] != f.zero
    requires ScaledRow(f, w', v', w, v, row, f.inverse(w[row]))
    ensures Echelon(f, v', a, w', row)
  {
    var x := f.inverse(w[row]);
    InverseNotZero(f, w[row]);
    ZeroMul(f, x);
    OneMul(f, x);
    forall c | 0 <= c < |a| ensures Dot(f, v', a, c, |a|) == w'[c] {
      DotScaled(f, v', v, x, a, c, |a|);
    }
  }

  /** A zero pivot means that the leading block is singular. */
  lemma ZeroPivot<T(!new)>(f: Field<T>, a: Matrix<T>, v: seq<T>, w: seq<T>, row: nat)
    requires IsField(f) && Partial(f, v, a, w, row, row) && w[row] == f.zero
    ensures !LeadingBlocksNonsingular(f, a)
  {
    assert KilledBy(f, v, a, row + 1);
    assert !ZerosBefore(f, v, |a|);
    assert !BlockNonsingular(f, a, row + 1);
  }

  // ----- success means nonsingular leading blocks

  /** All rows finished: lower * a is unit upper triangular. */
  ghost predicate Triangular<T>(f: Field<T>, lower: Matrix<T>, a: Matrix<T>, upper: Matrix<T>) {
    && |lower| == |upper| == |a|
    && forall r :: 0 <= r < |a| ==> Echelon(f, lower[r], a, upper[r], r)
  }

  lemma {:induction false} KernelTrivial<T(!new)>(f: Field<T>, lower: Matrix<T>, a: Matrix<T>, upper: Matrix<T>,
                                                  v: seq<T>, k: nat)
    requires IsField(f) && Square(a, |a|) && Triangular(f, lower, a, upper) && KilledBy(f, v, a, k)
    ensures ZerosBefore(f, v, |a|)
    decreases k
  {
    if k > 0 {
      var t := k - 1;
      var l, u := lower[t], upper[t];
      assert Echelon(f, l, a, u, t);
      var x := f.mul(v[t], f.inverse(l[t]));
      var v' := Reduce(f, v, l, x);
      Reduces(f, a, l, u, v, v', t);
      KernelTrivial(f, lower, a, upper, v', t);
      DotZero(f, v', a, t, |a|);
      assert f.Sub(f.zero, f.mul(f.one, x)) == f.zero by { DotReduced(f, v', v, l, x, a, t, |a|); }
      OneMul(f, x);
      SubIsZero(f, x, f.zero);
      forall i | 0 <= i < |a| ensures v[i] == f.zero {
        SubNothing(f, v[i], l[i]);
        assert v'[i] == f.zero;
      }
    }
  }

  /** Subtracting the right multiple of row t clears entry t and keeps the columns before. */
  lemma Reduces<T(!new)>(f: Field<T>, a: Matrix<T>, l: seq<T>, u: seq<T>, v: seq<T>, v': seq<T>, t: nat)
    requires IsField(f) && Square(a, |a|) && Echelon(f, l, a, u, t) && KilledBy(f, v, a, t + 1)
    requires IsReduced(f, v', v, l, f.mul(v[t], f.inverse(l[t])))
    ensures KilledBy(f, v', a, t)
  {
    var x := f.mul(v[t], f.inverse(l[t]));
    assert v'[t] == f.zero by {
      InverseNotZero(f, l[t]);
      assert Of2(l[t], x) && Of3(v[t], f.inverse(l[t]), l[t]);
      OneMul(f, v[t]);
      SubSelf(f, v[t]);
    }
    SubNothing(f, f.zero, x);
    forall c | 0 <= c < t ensures Dot(f, v', a, c, |a|) == f.zero {
      DotReduced(f, v', v, l, x, a, c, |a|);
    }
  }

  lemma TriangularNonsingular<T(!new)>(f: Field<T>, lower: Matrix<T>, a: Matrix<T>, upper: Matrix<T>)
    requires IsField(f) && Square(a, |a|) && Triangular(f, lower, a, upper)
    ensures LeadingBlocksNonsingular(f, a)
  {
    forall k, v: seq<T> | 0 < k <= |a| && KilledBy(f, v, a, k) ensures ZerosBefore(f, v, |a|) {
      KernelTrivial(f, lower, a, upper, v, k);
    }
  }

  /** A left inverse of a matrix that kills no nonzero row is a right inverse too: every
      row of a * inv - I is killed by a. */
  lemma LeftIsRight<T(!new)>(f: Field<T>, inv: Matrix<T>, a: Matrix<T>)
    requires IsField(f) && LeftInverse(f, inv, a) && BlockNonsingular(f, a, |a|)
    ensures RightInverse(f, inv, a)
  {
    var n := |a|;
    forall r, c | 0 <= r < n && 0 <= c < n
      ensures Dot(f, a[r], inv, c, n) == if r == c then f.one else f.zero
    {
      var row := RowTimes(f, a[r], inv, n, n);
      var e := seq(n, i requires 0 <= i < n => if i == r then f.one else f.zero);
      SameProduct(f, a, row, e, r, inv);
      assert row[c] == e[c];
    }
  }

  /** Both a row of a * inv and the same row of the identity give that row of a. */
  lemma SameProduct<T(!new)>(f: Field<T>, a: Matrix<T>, row: seq<T>, e: seq<T>, r: nat, inv: Matrix<T>)
    requires IsField(f) && LeftInverse(f, inv, a) && BlockNonsingular(f, a, |a|)
    requires r < |a| && |e| == |a| && UnitRow(f, e, r) && row == RowTimes(f, a[r], inv, |a|, |a|)
    ensures row == e
  {
    var n := |a|;
    var diff := Reduce(f, row, e, f.one);
    forall j | 0 <= j < n ensures Dot(f, diff, a, j, n) == f.zero {
      ProductRow(f, inv, a, r, j);
      DotUnit(f, e, a, j, r, n);
      DotReduced(f, diff, row, e, f.one, a, j, n);
      OneMul(f, a[r][j]);
      SubSelf(f, a[r][j]);
    }
    assert KilledBy(f, diff, a, n);
    forall c | 0 <= c < n ensures row[c] == e[c] {
      OneMul(f, e[c]);
      SubIsZero(f, e[c], row[c]);
    }
  }

  /** Row r of a, times inv, times a, is row r of a. */
  lemma ProductRow<T(!new)>(f: Field<T>, inv: Matrix<T>, a: Matrix<T>, r: nat, j: nat)
    requires IsField(f) && LeftInverse(f, inv, a) && r < |a| && j < |a|
    ensures Dot(f, RowTimes(f, a[r], inv, |a|, |a|), a, j, |a|) == a[r][j]
  {
    var n := |a|;
    var id := seq(n, r requires 0 <= r < n => seq(n, c requires 0 <= c < n => if r == c then f.one else f.zero));
    ProductAssociates(f, a[r], inv, a, id, n, j, n);
    DotIdentity(f, a[r], id, j, n);
  }

  /** The exchange of two coordinates is its own inverse, but elimination without pivoting
      meets a zero pivot on it: not every invertible matrix is inverted. */
  lemma ExchangeIsRejected<T(!new)>(f: Field<T>)
    requires IsField(f)
    ensures var a := [[f.zero, f.one], [f.one, f.zero]];
      Square(a, |a|) && LeftInverse(f, a, a) && !LeadingBlocksNonsingular(f, a)
  {
    var a := [[f.zero, f.one], [f.one, f.zero]];
    assert a[0] == [f.zero, f.one] && a[1] == [f.one, f.zero];
    forall r, c | 0 <= r < 2 && 0 <= c < 2
      ensures Dot(f, a[r], a, c, 2) == if r == c then f.one else f.zero
    {
      DotUnit(f, a[r], a, c, 1 - r, 2);
    }
    DotUnit(f, a[1], a, 0, 0, 2);
    assert KilledBy(f, a[1], a, 1);
    assert !BlockNonsingular(f, a, 1);
  }

  // ----- the second phase

  /** Row r of the inverse while columns from j on are being cleared. */
  ghost predicate Cleared<T>(f: Field<T>, v: seq<T>, a: Matrix<T>, u: seq<T>, r: nat, j: nat) {
    && |v| == |u| == |a| && Square(a, |a|) && r < |a|
    && forall c :: 0 <= c < |a| ==> Dot(f, v, a, c, |a|) == if c >= j && c > r then f.zero else u[c]
  }

  lemma ClearStep<T(!new)>(f: Field<T>, a: Matrix<T>, u: seq<T>, v: seq<T>, v': seq<T>, vj: seq<T>, r: nat, j: nat)
    requires IsField(f) && r < j < |a| && Cleared(f, v, a, u, r, j + 1)
    requires |vj| == |a| && Square(a, |a|)
    requires forall c :: 0 <= c < |a| ==> Dot(f, vj, a, c, |a|) == if c == j then f.one else f.zero
    requires IsReduced(f, v', v, vj, u[j])
    ensures Cleared(f, v', a, u, r, j)
  {
    forall c | 0 <= c < |a|
      ensures Dot(f, v', a, c, |a|) == if c >= j && c > r then f.zero else u[c]
    {
      DotReduced(f, v', v, vj, u[j], a, c, |a|);
      SubNothing(f, Dot(f, v, a, c, |a|), u[j]);
      OneMul(f, u[j]);
      SubSelf(f, u[j]);
    }
  }

  // ----- the algorithm, on two-dimensional arrays

  ghost predicate Mirrors<T>(a: array2<T>, s: Matrix<T>)
    reads a
  {
    && a.Length0 == a.Length1 && Square(s, a.Length0)
    && forall r, c :: 0 <= r < a.Length0 && 0 <= c < a.Length1 ==> a[r, c] == s[r][c]
  }

  /** Inner loop of the first phase: subtracts a multiple of row j from row `row`. */
  method EliminateColumns<T(!new)>(f: Field<T>, m: array2<T>, inv: array2<T>, row: nat, j: nat,
                             ghost upper: Matrix<T>, ghost lower: Matrix<T>)
    returns (ghost w: seq<T>, ghost v: seq<T>)
    requires m != inv && Mirrors(m, upper) && Mirrors(inv, lower) && |upper| == |lower|
    requires j < row < |upper|
    modifies m, inv
    ensures Eliminated(f, w, v, upper[row], lower[row], upper[j], lower[j], row, j)
    ensures Mirrors(m, upper[row := w]) && Mirrors(inv, lower[row := v])
  {
    var n := m.Length0;
    var el := m[row, j];
    w, v := upper[row], lower[row];
    for col := 0 to n
      invariant |w| == |v| == n
      invariant Mirrors(m, upper[row := w]) && Mirrors(inv, lower[row := v])
      invariant forall c :: 0 <= c < n ==>
        w[c] == if c >= col then upper[row][c]
                else if c < j then f.zero else f.Sub(upper[row][c], f.mul(upper[j][c], el))
      invariant forall c :: 0 <= c < n ==>
        v[c] == if c >= col then lower[row][c]
                else if c > row then f.zero else f.Sub(lower[row][c], f.mul(lower[j][c], el))
    {
      if col < j {
        m[row, col] := f.zero;
      } else {
        var tmp := f.mul(m[j, col], el);
        m[row, col] := f.Sub(m[row, col], tmp);
      }
      if col > row {
        inv[row, col] := f.zero;
      } else {
        var tmp := f.mul(inv[j, col], el);
        inv[row, col] := f.Sub(inv[row, col], tmp);
      }
      w, v := w[col := m[row, col]], v[col := inv[row, col]];
    }
  }

  /** Divides row `row` by its pivot. */
  method ScaleColumns<T(!new)>(f: Field<T>, m: array2<T>, inv: array2<T>, row: nat,
                         ghost upper: Matrix<T>, ghost lower: Matrix<T>)
    returns (ghost w: seq<T>, ghost v: seq<T>)
    requires m != inv && Mirrors(m, upper) && Mirrors(inv, lower) && |upper| == |lower|
    requires row < |upper|
    modifies m, inv
    ensures ScaledRow(f, w, v, upper[row], lower[row], row, f.inverse(upper[row][row]))
    ensures Mirrors(m, upper[row := w]) && Mirrors(inv, lower[row := v])
  {
    var n := m.Length0;
    var elInv := f.inverse(m[row, row]);
    w, v := upper[row], lower[row];
    for col := 0 to n
      invariant |w| == |v| == n
      invariant Mirrors(m, upper[row := w]) && Mirrors(inv, lower[row := v])
      invariant forall c :: 0 <= c < n ==>
        w[c] == if c >= col || c < row then upper[row][c]
                else if c == row then f.one else f.mul(upper[row][c], elInv)
      invariant forall c :: 0 <= c < n ==>
        v[c] == if c >= col || c > row then lower[row][c] else f.mul(lower[row][c], elInv)
    {
      if col < row {
        inv[row, col] := f.mul(inv[row, col], elInv);
      } else if col == row {
        m[row, col] := f.one;
        inv[row, col] := f.mul(inv[row, col], elInv);
      } else {
        m[row, col] := f.mul(m[row, col], elInv);
      }
      w, v := w[col := m[row, col]], v[col := inv[row, col]];
    }
  }

  /** First phase: lower triangular inverse rows, unit upper triangular matrix rows; fails
      at a zero pivot. */
  method LowerPhase<T(!new, ==)>(f: Field<T>, m: array2<T>, inv: array2<T>, ghost a: Matrix<T>)
    returns (ok: bool, ghost upper: Matrix<T>, ghost lower: Matrix<T>)
    requires IsField(f) && m != inv && Mirrors(m, a) && inv.Length0 == inv.Length1 == |a|
    requires forall r, c :: 0 <= r < |a| && 0 <= c < |a| ==> inv[r, c] == if r == c then f.one else f.zero
    modifies m, inv
    ensures ok <==> LeadingBlocksNonsingular(f, a)
    ensures ok ==> Mirrors(m, upper) && Mirrors(inv, lower) && Triangular(f, lower, a, upper)
  {
    var n := m.Length0;
    upper := a;
    lower := seq(n, r requires 0 <= r < n => seq(n, c requires 0 <= c < n => if r == c then f.one else f.zero));
    for row := 0 to n
      invariant Mirrors(m, upper) && Mirrors(inv, lower)
      invariant forall r :: 0 <= r < row ==> Echelon(f, lower[r], a, upper[r], r)
      invariant forall r :: row <= r < n ==> upper[r] == a[r] && UnitRow(f, lower[r], r)
    {
      StartRow(f, lower[row], a, row);
      for j := 0 to row
        invariant Mirrors(m, upper) && Mirrors(inv, lower)
        invariant forall r :: 0 <= r < row ==> Echelon(f, lower[r], a, upper[r], r)
        invariant forall r :: row < r < n ==> upper[r] == a[r] && UnitRow(f, lower[r], r)
        invariant Partial(f, lower[row], a, upper[row], row, j)
      {
        ghost var w, v := EliminateColumns(f, m, inv, row, j, upper, lower);
        EliminateStep(f, a, w, v, upper[row], lower[row], upper[j], lower[j], row, j);
        upper, lower := upper[row := w], lower[row := v];
      }
      if m[row, row] == f.zero {
        ZeroPivot(f, a, lower[row], upper[row], row);
        return false, upper, lower;
      }
      ghost var w, v := ScaleColumns(f, m, inv, row, upper, lower);
      ScaleStep(f, a, w, v, upper[row], lower[row], row);
      upper, lower := upper[row := w], lower[row := v];
    }
    TriangularNonsingular(f, lower, a, upper);
    ok := true;
  }

  /** Row r of the inverse is finished. */
  ghost predicate FinishedRow<T>(f: Field<T>, v: seq<T>, a: Matrix<T>, r: nat) {
    && |v| == |a| && Square(a, |a|)
    && forall c :: 0 <= c < |a| ==> Dot(f, v, a, c, |a|) == if c == r then f.one else f.zero
  }

  /** Row r of the working matrix, whose columns from j on a debug build has zeroed. */
  ghost predicate WorkingRow<T>(f: Field<T>, m: array2<T>, u: seq<T>, r: nat, j: nat, debug: bool)
    requires r < m.Length0 && |u| == m.Length1
    reads m
  {
    forall c :: 0 <= c < m.Length1 ==> m[r, c] == if debug && c >= j then f.zero else u[c]
  }

  /** Inner loop of the second phase: subtracts a multiple of row j of the inverse. */
  method SubtractInverseRow<T(!new)>(f: Field<T>, debug: bool, m: array2<T>, inv: array2<T>, row: nat, j: nat,
                               ghost u: seq<T>, ghost x: Matrix<T>)
    returns (ghost v: seq<T>)
    requires m != inv && m.Length0 == m.Length1 == |x| && Mirrors(inv, x)
    requires row < j < |x| && |u| == |x| && WorkingRow(f, m, u, row, j + 1, debug)
    modifies m, inv
    ensures Mirrors(inv, x[row := v]) && IsReduced(f, v, x[row], x[j], u[j])
    ensures WorkingRow(f, m, u, row, j, debug)
    ensures forall r, c :: 0 <= r < |x| && 0 <= c < |x| && r != row ==> m[r, c] == old(m[r, c])
  {
    var n := m.Length0;
    var el := m[row, j];
    v := x[row];
    for col := 0 to n
      invariant |v| == n && Mirrors(inv, x[row := v])
      invariant forall c :: 0 <= c < n ==>
        v[c] == if c >= col then x[row][c] else f.Sub(x[row][c], f.mul(x[j][c], el))
      invariant forall c :: 0 <= c < n ==>
        m[row, c] == if debug && (c > j || (c == j && c < col)) then f.zero else u[c]
      invariant forall r, c :: 0 <= r < n && 0 <= c < n && r != row ==> m[r, c] == old(m[r, c])
    {
      if debug {
        if col >= j {
          m[row, col] := f.zero;
        }
      }
      var tmp := f.mul(inv[j, col], el);
      inv[row, col] := f.Sub(inv[row, col], tmp);
      v := v[col := inv[row, col]];
    }
  }

  /** The middle loop of the second phase: finishes one row of the inverse. */
  method ClearRow<T(!new)>(f: Field<T>, debug: bool, m: array2<T>, inv: array2<T>, row: nat,
                     ghost a: Matrix<T>, ghost u: seq<T>, ghost x: Matrix<T>)
    returns (ghost v: seq<T>)
    requires IsField(f) && m != inv && m.Length0 == m.Length1 == |x| == |a| && Mirrors(inv, x)
    requires row < |x| && Echelon(f, x[row], a, u, row) && WorkingRow(f, m, u, row, |x|, debug)
    requires forall r :: row < r < |x| ==> FinishedRow(f, x[r], a, r)
    modifies m, inv
    ensures Mirrors(inv, x[row := v]) && FinishedRow(f, v, a, row)
    ensures WorkingRow(f, m, u, row, row + 1, debug)
    ensures forall r, c :: 0 <= r < |x| && 0 <= c < |x| && r != row ==> m[r, c] == old(m[r, c])
  {
    var n := m.Length0;
    v := x[row];
    for j := n downto row + 1
      invariant Mirrors(inv, x[row := v]) && Cleared(f, v, a, u, row, j)
      invariant WorkingRow(f, m, u, row, j, debug)
      invariant forall r, c :: 0 <= r < |x| && 0 <= c < |x| && r != row ==> m[r, c] == old(m[r, c])
    {
      ghost var v' := SubtractInverseRow(f, debug, m, inv, row, j, u, x[row := v]);
      ClearStep(f, a, u, v, v', x[j], row, j);
      v := v';
    }
  }

  /** Second phase: clears the columns above the diagonal, from the last row up. */
  method UpperPhase<T(!new)>(f: Field<T>, debug: bool, m: array2<T>, inv: array2<T>,
                       ghost a: Matrix<T>, ghost upper: Matrix<T>, ghost lower: Matrix<T>)
    returns (ghost x: Matrix<T>)
    requires IsField(f) && m != inv && Mirrors(m, upper) && Mirrors(inv, lower) && Square(a, |a|)
    requires Triangular(f, lower, a, upper)
    modifies m, inv
    ensures Mirrors(inv, x) && LeftInverse(f, x, a)
    ensures debug ==> m.Length0 == m.Length1 == |a| && forall r, c :: 0 <= r < |a| && 0 <= c < |a| ==>
      m[r, c] == if r == c then f.one else f.zero
  {
    var n := m.Length0;
    x := lower;
    for row := n downto 0
      invariant Mirrors(inv, x) && |x| == n
      invariant forall r :: row <= r < n ==> FinishedRow(f, x[r], a, r)
      invariant forall r :: 0 <= r < row ==> x[r] == lower[r]
      invariant forall r :: row <= r < n ==> WorkingRow(f, m, upper[r], r, r + 1, debug)
      invariant forall r :: 0 <= r < row ==> WorkingRow(f, m, upper[r], r, n, debug)
    {
      assert Echelon(f, lower[row], a, upper[row], row);
      ghost var v := ClearRow(f, debug, m, inv, row, a, upper[row], x);
      x := x[row := v];
    }
    forall r, c | 0 <= r < n && 0 <= c < n
      ensures Dot(f, x[r], a, c, n) == if r == c then f.one else f.zero
      ensures debug ==> m[r, c] == if r == c then f.one else f.zero
    {
      assert FinishedRow(f, x[r], a, r) && WorkingRow(f, m, upper[r], r, r + 1, debug);
      assert Echelon(f, lower[r], a, upper[r], r);
    }
  }

  function MatrixOf<T>(a: array2<T>): (s: Matrix<T>)
    reads a
    ensures |s| == a.Length0 && forall r :: 0 <= r < |s| ==> |s[r]| == a.Length1
    ensures forall r, c :: 0 <= r < a.Length0 && 0 <= c < a.Length1 ==> s[r][c] == a[r, c]
  {
    seq(a.Length0, r requires 0 <= r < a.Length0 reads a =>
      seq(a.Length1, c requires 0 <= c < a.Length1 reads a => a[r, c]))
  }

  /** The inverse of a square matrix, in debug and release builds alike, exactly when all
      leading blocks are nonsingular; otherwise a pivot has no inverse (a panic). */
  method MatInverse<T(!new, ==)>(f: Field<T>, debug: bool, mat: Matrix<T>) returns (res: Option<Matrix<T>>)
    requires IsField(f) && 0 < |mat| && Square(mat, |mat|)
    ensures res.Some? <==> LeadingBlocksNonsingular(f, mat)
    ensures res.Some? ==> LeftInverse(f, res.value, mat) && RightInverse(f, res.value, mat)
  {
    var n := |mat|;
    var m := new T[n, n]((i, j) requires 0 <= i < n && 0 <= j < n => mat[i][j]);
    var inv := new T[n, n]((i, j) => if i == j then f.one else f.zero);
    var ok;
    ghost var upper, lower;
    ok, upper, lower := LowerPhase(f, m, inv, mat);
    if !ok {
      return None;
    }
    ghost var x := UpperPhase(f, debug, m, inv, mat, upper, lower);
    if debug {
      assert forall r, c :: 0 <= r < n && 0 <= c < n ==> m[r, c] == if r == c then f.one else f.zero;
    }
    var result := MatrixOf(inv);
    assert forall r :: 0 <= r < n ==> result[r] == x[r];
    LeftIsRight(f, result, mat);
    res := Some(result);
  }
}
