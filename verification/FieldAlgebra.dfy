/** Fields, given by their operations, and rows times matrices over them. */
module FieldAlgebra {

  datatype Field<!T> = Field(
    zero: T,
    one: T,
    add: (T, T) -> T,
    neg: T -> T,
    mul: (T, T) -> T,
    inverse: T -> T)
  {
    function Sub(a: T, b: T): T { add(a, neg(b)) }
  }

  // Each law is instantiated by naming its arguments through one of these.
  predicate Of1<T>(a: T) { true }
  predicate Of2<T>(a: T, b: T) { true }
  predicate Of3<T>(a: T, b: T, c: T) { true }

  ghost predicate IsField<T(!new)>(f: Field<T>) {
    && f.zero != f.one
    && (forall a {:trigger Of1(a)} :: f.add(a, f.zero) == a && f.add(a, f.neg(a)) == f.zero)
    && (forall a {:trigger Of1(a)} :: f.mul(a, f.one) == a)
    && (forall a {:trigger Of1(a)} :: a != f.zero ==> f.mul(a, f.inverse(a)) == f.one)
    && (forall a, b {:trigger Of2(a, b)} :: f.add(a, b) == f.add(b, a) && f.mul(a, b) == f.mul(b, a))
    && (forall a, b, c {:trigger Of3(a, b, c)} :: f.add(f.add(a, b), c) == f.add(a, f.add(b, c)))
    && (forall a, b, c {:trigger Of3(a, b, c)} :: f.mul(f.mul(a, b), c) == f.mul(a, f.mul(b, c)))
    && (forall a, b, c {:trigger Of3(a, b, c)} :: f.mul(f.add(a, b), c) == f.add(f.mul(a, c), f.mul(b, c)))
  }

  /** The real numbers are a field. */
  lemma RealsAreAField()
    ensures IsField(Field(0.0, 1.0, (a: real, b: real) => a + b, (a: real) => -a,
      (a: real, b: real) => a * b, (a: real) => if a == 0.0 then 0.0 else 1.0 / a))
  {
  }

  /** So are the two truth values, with exclusive or and conjunction. */
  lemma BooleansAreAField()
    ensures IsField(Field(false, true, (a: bool, b: bool) => a != b, (a: bool) => a,
      (a: bool, b: bool) => a && b, (a: bool) => a))
  {
  }

  // ----- consequences of the laws

  lemma AddZeroLeft<T(!new)>(f: Field<T>, a: T)
    requires IsField(f)
    ensures f.add(f.zero, a) == a
  {
    assert Of1(a) && Of2(a, f.zero);
  }

  /** a + (b - a) == b. */
  lemma AddBack<T(!new)>(f: Field<T>, a: T, b: T)
    requires IsField(f)
    ensures f.add(a, f.Sub(b, a)) == b
  {
    assert Of2(a, f.Sub(b, a)) && Of3(b, f.neg(a), a) && Of2(f.neg(a), a) && Of1(a) && Of1(b);
  }

  lemma SubSelf<T(!new)>(f: Field<T>, a: T)
    requires IsField(f)
    ensures f.Sub(a, a) == f.zero
  {
    assert Of1(a);
  }

  lemma SubIsZero<T(!new)>(f: Field<T>, a: T, b: T)
    requires IsField(f) && f.Sub(b, a) == f.zero
    ensures a == b
  {
    AddBack(f, a, b);
    assert Of1(a);
  }

  lemma Cancel<T(!new)>(f: Field<T>, a: T, b: T, c: T)
    requires IsField(f) && f.add(a, c) == f.add(b, c)
    ensures a == b
  {
    assert Of3(a, c, f.neg(c)) && Of3(b, c, f.neg(c)) && Of1(c) && Of1(a) && Of1(b);
  }

  lemma ZeroMul<T(!new)>(f: Field<T>, a: T)
    requires IsField(f)
    ensures f.mul(f.zero, a) == f.zero && f.mul(a, f.zero) == f.zero
  {
    var z := f.mul(f.zero, a);
    assert Of3(f.zero, f.zero, a) && Of1(f.zero);
    assert f.add(z, z) == z;
    AddZeroLeft(f, z);
    Cancel(f, z, f.zero, z);
    assert Of2(f.zero, a);
  }

  lemma SubZero<T(!new)>(f: Field<T>, a: T)
    requires IsField(f)
    ensures f.Sub(a, f.zero) == a
  {
    AddZeroLeft(f, f.neg(f.zero));
    assert Of1(f.zero) && Of1(a);
  }

  /** Subtracting a multiple of zero, or a zero multiple, changes nothing. */
  lemma SubNothing<T(!new)>(f: Field<T>, a: T, b: T)
    requires IsField(f)
    ensures f.Sub(a, f.mul(f.zero, b)) == a && f.Sub(a, f.mul(b, f.zero)) == a
  {
    ZeroMul(f, b);
    SubZero(f, a);
  }

  lemma OneMul<T(!new)>(f: Field<T>, a: T)
    requires IsField(f)
    ensures f.mul(f.one, a) == a && f.mul(a, f.one) == a
  {
    assert Of1(a) && Of2(a, f.one);
  }

  lemma NegMul<T(!new)>(f: Field<T>, a: T, b: T)
    requires IsField(f)
    ensures f.mul(f.neg(a), b) == f.neg(f.mul(a, b))
  {
    var ab := f.mul(a, b);
    assert Of3(a, f.neg(a), b) && Of1(a) && Of1(ab);
    ZeroMul(f, b);
    assert Of2(f.mul(f.neg(a), b), ab) && Of2(f.neg(ab), ab);
    Cancel(f, f.mul(f.neg(a), b), f.neg(ab), ab);
  }

  /** (a - b) * c == a * c - b * c. */
  lemma MulSub<T(!new)>(f: Field<T>, a: T, b: T, c: T)
    requires IsField(f)
    ensures f.mul(f.Sub(a, b), c) == f.Sub(f.mul(a, c), f.mul(b, c))
  {
    assert Of3(a, f.neg(b), c);
    NegMul(f, b, c);
  }

  /** -(a + b) == -a - b. */
  lemma NegAdd<T(!new)>(f: Field<T>, a: T, b: T)
    requires IsField(f)
    ensures f.neg(f.add(a, b)) == f.add(f.neg(a), f.neg(b))
  {
    var s, t := f.add(a, b), f.add(f.neg(a), f.neg(b));
    Swap(f, f.neg(a), f.neg(b), a, b);
    assert Of1(a) && Of1(b) && Of2(f.neg(a), a) && Of2(f.neg(b), b) && Of1(s) && Of2(f.neg(s), s) && Of1(f.zero);
    Cancel(f, t, f.neg(s), s);
  }

  /** (a + b) + (c + d) == (a + c) + (b + d). */
  lemma Swap<T(!new)>(f: Field<T>, a: T, b: T, c: T, d: T)
    requires IsField(f)
    ensures f.add(f.add(a, b), f.add(c, d)) == f.add(f.add(a, c), f.add(b, d))
  {
    assert Of3(a, b, f.add(c, d)) && Of3(b, c, d) && Of2(b, c) && Of3(c, b, d) && Of3(a, c, f.add(b, d));
  }

  /** (a + b) - (c + d) == (a - c) + (b - d). */
  lemma SubAdd<T(!new)>(f: Field<T>, a: T, b: T, c: T, d: T)
    requires IsField(f)
    ensures f.Sub(f.add(a, b), f.add(c, d)) == f.add(f.Sub(a, c), f.Sub(b, d))
  {
    NegAdd(f, c, d);
    Swap(f, a, b, f.neg(c), f.neg(d));
  }

  lemma InverseNotZero<T(!new)>(f: Field<T>, a: T)
    requires IsField(f) && a != f.zero
    ensures f.inverse(a) != f.zero && f.mul(a, f.inverse(a)) == f.one && f.mul(f.inverse(a), a) == f.one
  {
    assert Of1(a) && Of2(a, f.inverse(a));
    ZeroMul(f, a);
  }

  // ----- rows and matrices

  type Matrix<T> = seq<seq<T>>

  ghost predicate Square<T>(a: Matrix<T>, n: nat) {
    |a| == n && forall i :: 0 <= i < n ==> |a[i]| == n
  }

  /** Entry c of the row v times the first k rows of the matrix. */
  function Dot<T>(f: Field<T>, v: seq<T>, a: Matrix<T>, c: nat, k: nat): T
    requires k <= |v| && k <= |a| && forall i :: 0 <= i < |a| ==> c < |a[i]|
  {
    if k == 0 then f.zero else f.add(Dot(f, v, a, c, k - 1), f.mul(v[k - 1], a[k - 1][c]))
  }

  /** u - v * x, entry by entry. */
  ghost predicate IsReduced<T>(f: Field<T>, w: seq<T>, u: seq<T>, v: seq<T>, x: T) {
    |w| == |u| == |v| && forall i :: 0 <= i < |w| ==> w[i] == f.Sub(u[i], f.mul(v[i], x))
  }

  function Reduce<T>(f: Field<T>, u: seq<T>, v: seq<T>, x: T): (w: seq<T>)
    requires |u| == |v|
    ensures IsReduced(f, w, u, v, x)
  {
    seq(|u|, i requires 0 <= i < |u| => f.Sub(u[i], f.mul(v[i], x)))
  }

  lemma {:induction false} DotReduced<T(!new)>(f: Field<T>, w: seq<T>, u: seq<T>, v: seq<T>, x: T,
      a: Matrix<T>, c: nat, k: nat)
    requires IsField(f) && IsReduced(f, w, u, v, x)
    requires k <= |w| && k <= |a| && forall i :: 0 <= i < |a| ==> c < |a[i]|
    ensures Dot(f, w, a, c, k) == f.Sub(Dot(f, u, a, c, k), f.mul(Dot(f, v, a, c, k), x))
  {
    if k == 0 {
      SubNothing(f, f.zero, x);
    } else {
      DotReduced(f, w, u, v, x, a, c, k - 1);
      var uk, vk, e := u[k - 1], v[k - 1], a[k - 1][c];
      var du, dv := Dot(f, u, a, c, k - 1), Dot(f, v, a, c, k - 1);
      MulSub(f, uk, f.mul(vk, x), e);
      MulRotate(f, vk, x, e);
      assert Of3(dv, f.mul(vk, e), x);
      SubAdd(f, du, f.mul(uk, e), f.mul(dv, x), f.mul(f.mul(vk, e), x));
    }
  }

  /** (a * b) * c == (a * c) * b. */
  lemma MulRotate<T(!new)>(f: Field<T>, a: T, b: T, c: T)
    requires IsField(f)
    ensures f.mul(f.mul(a, b), c) == f.mul(f.mul(a, c), b)
  {
    assert Of3(a, b, c) && Of2(b, c) && Of3(a, c, b);
  }

  lemma {:induction false} DotScaled<T(!new)>(f: Field<T>, w: seq<T>, u: seq<T>, x: T, a: Matrix<T>, c: nat, k: nat)
    requires IsField(f) && |w| == |u| && forall i :: 0 <= i < |w| ==> w[i] == f.mul(u[i], x)
    requires k <= |w| && k <= |a| && forall i :: 0 <= i < |a| ==> c < |a[i]|
    ensures Dot(f, w, a, c, k) == f.mul(Dot(f, u, a, c, k), x)
  {
    if k == 0 {
      ZeroMul(f, x);
    } else {
      DotScaled(f, w, u, x, a, c, k - 1);
      MulRotate(f, u[k - 1], x, a[k - 1][c]);
      assert Of3(Dot(f, u, a, c, k - 1), f.mul(u[k - 1], a[k - 1][c]), x);
    }
  }

  lemma {:induction false} DotZero<T(!new)>(f: Field<T>, v: seq<T>, a: Matrix<T>, c: nat, k: nat)
    requires IsField(f) && k <= |v| && k <= |a| && forall i :: 0 <= i < |a| ==> c < |a[i]|
    requires forall i :: 0 <= i < k ==> v[i] == f.zero
    ensures Dot(f, v, a, c, k) == f.zero
  {
    if k > 0 {
      DotZero(f, v, a, c, k - 1);
      ZeroMul(f, a[k - 1][c]);
      AddZeroLeft(f, f.zero);
    }
  }

  /** Row r of the identity picks row r of the matrix. */
  lemma {:induction false} DotUnit<T(!new)>(f: Field<T>, v: seq<T>, a: Matrix<T>, c: nat, r: nat, k: nat)
    requires IsField(f) && r < k <= |v| && k <= |a| && forall i :: 0 <= i < |a| ==> c < |a[i]|
    requires forall i :: 0 <= i < k ==> v[i] == if i == r then f.one else f.zero
    ensures Dot(f, v, a, c, k) == a[r][c]
  {
    if r == k - 1 {
      DotZero(f, v, a, c, k - 1);
      OneMul(f, a[r][c]);
      AddZeroLeft(f, a[r][c]);
    } else {
      DotUnit(f, v, a, c, r, k - 1);
      ZeroMul(f, a[k - 1][c]);
      assert Of1(a[r][c]);
    }
  }

  /** w == u + v * x gives w * a == u * a + (v * a) * x. */
  lemma {:induction false} DotAdded<T(!new)>(f: Field<T>, w: seq<T>, u: seq<T>, v: seq<T>, x: T,
      a: Matrix<T>, c: nat, k: nat)
    requires IsField(f) && |w| == |u| == |v|
    requires forall i :: 0 <= i < |w| ==> w[i] == f.add(u[i], f.mul(v[i], x))
    requires k <= |w| && k <= |a| && forall i :: 0 <= i < |a| ==> c < |a[i]|
    ensures Dot(f, w, a, c, k) == f.add(Dot(f, u, a, c, k), f.mul(Dot(f, v, a, c, k), x))
  {
    if k == 0 {
      ZeroMul(f, x);
      AddZeroLeft(f, f.zero);
    } else {
      DotAdded(f, w, u, v, x, a, c, k - 1);
      var uk, vk, e := u[k - 1], v[k - 1], a[k - 1][c];
      var du, dv := Dot(f, u, a, c, k - 1), Dot(f, v, a, c, k - 1);
      assert Of3(uk, f.mul(vk, x), e) && Of3(dv, f.mul(vk, e), x);
      MulRotate(f, vk, x, e);
      Swap(f, du, f.mul(dv, x), f.mul(uk, e), f.mul(f.mul(vk, e), x));
    }
  }

  /** The row u times the first k rows of x. */
  function RowTimes<T>(f: Field<T>, u: seq<T>, x: Matrix<T>, n: nat, k: nat): (y: seq<T>)
    requires k <= |u| && k <= |x| && forall i :: 0 <= i < |x| ==> |x[i]| == n
    ensures |y| == n && forall c :: 0 <= c < n ==> y[c] == Dot(f, u, x, c, k)
  {
    seq(n, c requires 0 <= c < n => Dot(f, u, x, c, k))
  }

  /** (u * x) * a == u * (x * a), p being the product x * a. */
  lemma {:induction false} ProductAssociates<T(!new)>(f: Field<T>, u: seq<T>, x: Matrix<T>,
      a: Matrix<T>, p: Matrix<T>, n: nat, c: nat, k: nat)
    requires IsField(f) && |u| == n && Square(x, n) && Square(a, n) && Square(p, n) && c < n && k <= n
    requires forall r :: 0 <= r < n ==> p[r][c] == Dot(f, x[r], a, c, n)
    ensures Dot(f, RowTimes(f, u, x, n, k), a, c, n) == Dot(f, u, p, c, k)
    decreases k
  {
    if k == 0 {
      DotZero(f, RowTimes(f, u, x, n, k), a, c, n);
    } else {
      ProductAssociates(f, u, x, a, p, n, c, k - 1);
      RowTimesStep(f, u, x, n, k);
      DotAdded(f, RowTimes(f, u, x, n, k), RowTimes(f, u, x, n, k - 1), x[k - 1], u[k - 1], a, c, n);
      assert Of2(u[k - 1], p[k - 1][c]);
    }
  }

  lemma RowTimesStep<T(!new)>(f: Field<T>, u: seq<T>, x: Matrix<T>, n: nat, k: nat)
    requires IsField(f) && 0 < k <= |u| && k <= |x| && forall i :: 0 <= i < |x| ==> |x[i]| == n
    ensures var y, before := RowTimes(f, u, x, n, k), RowTimes(f, u, x, n, k - 1);
      forall i :: 0 <= i < n ==> y[i] == f.add(before[i], f.mul(x[k - 1][i], u[k - 1]))
  {
    var y, before := RowTimes(f, u, x, n, k), RowTimes(f, u, x, n, k - 1);
    forall i | 0 <= i < n ensures y[i] == f.add(before[i], f.mul(x[k - 1][i], u[k - 1])) {
      assert y[i] == f.add(Dot(f, u, x, i, k - 1), f.mul(u[k - 1], x[k - 1][i]));
      assert Of2(u[k - 1], x[k - 1][i]);
    }
  }

  /** A row times the identity is the row. */
  lemma {:induction false} DotIdentity<T(!new)>(f: Field<T>, u: seq<T>, p: Matrix<T>, c: nat, k: nat)
    requires IsField(f) && k <= |u| && k <= |p| && forall i :: 0 <= i < |p| ==> c < |p[i]|
    requires forall r :: 0 <= r < k ==> p[r][c] == if r == c then f.one else f.zero
    ensures Dot(f, u, p, c, k) == if c < k then u[c] else f.zero
  {
    if k > 0 {
      DotIdentity(f, u, p, c, k - 1);
      ZeroMul(f, u[k - 1]);
      OneMul(f, u[k - 1]);
      AddZeroLeft(f, u[k - 1]);
      assert Of1(f.zero) && Of1(Dot(f, u, p, c, k - 1));
    }
  }
}
