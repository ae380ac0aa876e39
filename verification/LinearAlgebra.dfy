/**
 Finite sums, vectors and matrices over GF(2^8), and the row operations of Gaussian elimination.
 Vectors and matrices are sequences; the accessors Coef and At read zero outside their bounds,
 so that sums can range over plain indices.
 */
module LinearAlgebra {
  import opened GaloisField

  type Vector = seq<Byte>
  type Matrix = seq<Vector>

  // ----- finite sums -----

  function Sum(n: nat, f: nat -> Byte): Byte {
    if n == 0 then 0 else Add(Sum(n - 1, f), f(n - 1))
  }

  lemma {:induction false} SumEqual(n: nat, f: nat -> Byte, g: nat -> Byte)
    requires forall k: nat :: k < n ==> f(k) == g(k)
    ensures Sum(n, f) == Sum(n, g)
  {
    if n > 0 { SumEqual(n - 1, f, g); }
  }

  lemma {:induction false} SumOfZeros(n: nat, f: nat -> Byte)
    requires forall k: nat :: k < n ==> f(k) == 0
    ensures Sum(n, f) == 0
  {
    if n > 0 { SumOfZeros(n - 1, f); }
  }

  lemma {:induction false} SumSingle(n: nat, f: nat -> Byte, i: nat)
    requires i < n
    requires forall k: nat :: k < n && k != i ==> f(k) == 0
    ensures Sum(n, f) == f(i)
  {
    AddZeroSelf(f(i));
    if i == n - 1 { SumOfZeros(n - 1, f); } else { SumSingle(n - 1, f, i); }
  }

  lemma {:induction false} SumAdd(n: nat, f: nat -> Byte, g: nat -> Byte, h: nat -> Byte)
    requires forall k: nat :: k < n ==> h(k) == Add(f(k), g(k))
    ensures Sum(n, h) == Add(Sum(n, f), Sum(n, g))
  {
    hide Add;
    if n == 0 {
      AddZeroSelf(0);
    } else {
      SumAdd(n - 1, f, g, h);
      AddSwap(Sum(n - 1, f), Sum(n - 1, g), f(n - 1), g(n - 1));
    }
  }

  lemma {:induction false} SumScale(n: nat, c: Byte, f: nat -> Byte, h: nat -> Byte)
    requires forall k: nat :: k < n ==> h(k) == Mul(c, f(k))
    ensures Sum(n, h) == Mul(c, Sum(n, f))
  {
    hide Add, Mul;
    if n == 0 {
      NoZeroDivisors(c, 0);
    } else {
      SumScale(n - 1, c, f, h);
      MulAddRight(c, Sum(n - 1, f), f(n - 1));
    }
  }

  function RowOf(f: (nat, nat) -> Byte, i: nat): nat -> Byte { (j: nat) => f(i, j) }

  function ColumnOf(f: (nat, nat) -> Byte, j: nat): nat -> Byte { (i: nat) => f(i, j) }

  function RowSums(f: (nat, nat) -> Byte, m: nat): nat -> Byte { (i: nat) => Sum(m, RowOf(f, i)) }

  function ColumnSums(f: (nat, nat) -> Byte, n: nat): nat -> Byte { (j: nat) => Sum(n, ColumnOf(f, j)) }

  /** Exchanging the order of two sums. */
  lemma {:induction false} SumExchange(n: nat, m: nat, f: (nat, nat) -> Byte)
    ensures Sum(n, RowSums(f, m)) == Sum(m, ColumnSums(f, n))
  {
    hide Add;
    if n == 0 {
      SumOfZeros(m, ColumnSums(f, 0));
    } else {
      SumExchange(n - 1, m, f);
      SumAdd(m, ColumnSums(f, n - 1), RowOf(f, n - 1), ColumnSums(f, n));
    }
  }

  // ----- vectors and matrices -----

  function Coef(v: Vector, k: nat): Byte { if k < |v| then v[k] else 0 }

  function At(m: Matrix, r: nat, c: nat): Byte { if r < |m| then Coef(m[r], c) else 0 }

  function Column(m: Matrix, c: nat): nat -> Byte { (r: nat) => At(m, r, c) }

  predicate HasShape(m: Matrix, rows: nat, cols: nat) {
    |m| == rows && forall r :: 0 <= r < rows ==> |m[r]| == cols
  }

  /** The sum of the products of the coefficients of v with x(0), x(1), ... */
  function Dot(v: Vector, x: nat -> Byte): Byte {
    Sum(|v|, Terms(v, x))
  }

  function Terms(v: Vector, x: nat -> Byte): nat -> Byte { (k: nat) => Mul(Coef(v, k), x(k)) }

  /** The entries of the product of the matrix a with x. */
  function Products(a: Matrix, x: nat -> Byte): nat -> Byte { (r: nat) => if r < |a| then Dot(a[r], x) else 0 }

  function Delta(i: nat, j: nat): Byte { if i == j then 1 else 0 }

  function Identity(n: nat): (m: Matrix)
    ensures HasShape(m, n, n)
  {
    seq(n, (r: nat) => seq(n, (c: nat) => Delta(r, c)))
  }

  /** c times v. */
  function Scaled(v: Vector, c: Byte): (r: Vector)
    ensures |r| == |v|
  {
    seq(|v|, k requires 0 <= k < |v| => Mul(c, v[k]))
  }

  /** z plus c times x. */
  function AddScaled(z: Vector, x: Vector, c: Byte): (r: Vector)
    requires |z| == |x|
    ensures |r| == |z|
  {
    seq(|z|, k requires 0 <= k < |z| => Add(z[k], Mul(c, x[k])))
  }

  /** Adding zero times a vector changes nothing. */
  lemma AddScaledZero(z: Vector, x: Vector)
    requires |z| == |x|
    ensures AddScaled(z, x, 0) == z
  {
    hide Add, Mul;
    forall k | 0 <= k < |z| ensures AddScaled(z, x, 0)[k] == z[k] {
      NoZeroDivisors(0, x[k]);
      AddZeroSelf(z[k]);
    }
  }

  lemma ColumnTerm(v: Vector, m: Matrix, i: nat, j: nat)
    requires i < |v| && i < |m| && j < |m[i]|
    ensures Terms(v, Column(m, j))(i) == Mul(v[i], m[i][j])
  {
    assert Column(m, j)(i) == m[i][j];
  }

  lemma DotEqual(v: Vector, x: nat -> Byte, y: nat -> Byte)
    requires forall k: nat :: k < |v| ==> x(k) == y(k)
    ensures Dot(v, x) == Dot(v, y)
  {
    hide Add, Mul;
    SumEqual(|v|, Terms(v, x), Terms(v, y));
  }

  lemma DotScaled(v: Vector, c: Byte, x: nat -> Byte)
    ensures Dot(Scaled(v, c), x) == Mul(c, Dot(v, x))
  {
    hide Add, Mul;
    var f := Terms(v, x);
    var h := Terms(Scaled(v, c), x);
    forall k: nat | k < |v|
      ensures h(k) == Mul(c, f(k))
    {
      MulAssociates(c, v[k], x(k));
    }
    SumScale(|v|, c, f, h);
  }

  lemma DotAddScaled(z: Vector, v: Vector, c: Byte, x: nat -> Byte)
    requires |z| == |v|
    ensures Dot(AddScaled(z, v, c), x) == Add(Dot(z, x), Mul(c, Dot(v, x)))
  {
    hide Add, Mul;
    var f := Terms(z, x);
    var g := Terms(Scaled(v, c), x);
    var h := Terms(AddScaled(z, v, c), x);
    forall k: nat | k < |v|
      ensures h(k) == Add(f(k), g(k))
    {
      MulAddLeft(z[k], Mul(c, v[k]), x(k));
    }
    SumAdd(|v|, f, g, h);
    DotScaled(v, c, x);
  }

  /** A row of the identity picks out one coefficient. */
  lemma DotUnit(v: Vector, i: nat, x: nat -> Byte)
    requires i < |v| && forall k :: 0 <= k < |v| ==> v[k] == Delta(i, k)
    ensures Dot(v, x) == x(i)
  {
    hide Add, Mul;
    var f := Terms(v, x);
    forall k: nat | k < |v| && k != i ensures f(k) == 0 { NoZeroDivisors(0, x(k)); }
    SumSingle(|v|, f, i);
    MulOneLeft(x(i));
  }

  /** c(Ax) equals (cA)x. */
  lemma DotAssociates(c: Vector, a: Matrix, w: Vector, x: nat -> Byte)
    requires HasShape(a, |c|, |w|)
    requires forall j :: 0 <= j < |w| ==> w[j] == Dot(c, Column(a, j))
    ensures Dot(w, x) == Dot(c, Products(a, x))
  {
    hide Add, Mul;
    var f := (r: nat, j: nat) => Mul(Coef(c, r), Mul(At(a, r, j), x(j)));
    var ax := Products(a, x);
    forall r: nat | r < |c|
      ensures Terms(c, ax)(r) == RowSums(f, |w|)(r)
    {
      forall j: nat | j < |w|
        ensures RowOf(f, r)(j) == Mul(Coef(c, r), Terms(a[r], x)(j))
      {
        assert f(r, j) == Mul(Coef(c, r), Mul(Coef(a[r], j), x(j)));
      }
      SumScale(|w|, Coef(c, r), Terms(a[r], x), RowOf(f, r));
    }
    SumEqual(|c|, Terms(c, ax), RowSums(f, |w|));
    SumExchange(|c|, |w|, f);
    forall j: nat | j < |w|
      ensures Terms(w, x)(j) == ColumnSums(f, |c|)(j)
    {
      var g, h := Terms(c, Column(a, j)), ColumnOf(f, j);
      forall r: nat | r < |c|
        ensures h(r) == Mul(x(j), g(r))
      {
        MulAssociates(Coef(c, r), At(a, r, j), x(j));
        MulCommutes(g(r), x(j));
      }
      SumScale(|c|, x(j), g, h);
      MulCommutes(x(j), Dot(c, Column(a, j)));
    }
    SumEqual(|w|, Terms(w, x), ColumnSums(f, |c|));
  }

  /** The linear combination of the rows of m with coefficients y. */
  function Combination(y: Vector, m: Matrix, width: nat): (v: Vector)
    ensures |v| == width
  {
    seq(width, (j: nat) => Dot(y, Column(m, j)))
  }

  /** The part of the combination that the first i rows contribute. */
  function Partial(y: Vector, m: Matrix, width: nat, i: nat): Vector {
    seq(width, (j: nat) => Sum(i, Terms(y, Column(m, j))))
  }

  lemma PartialFirst(y: Vector, m: Matrix, width: nat)
    requires 1 <= |y| && HasShape(m, |y|, width)
    ensures Scaled(m[0], y[0]) == Partial(y, m, width, 1)
  {
    hide Add, Mul;
    forall j: nat | j < width
      ensures Partial(y, m, width, 1)[j] == Mul(y[0], m[0][j])
    {
      var f := Terms(y, Column(m, j));
      ColumnTerm(y, m, 0, j);
      assert Sum(1, f) == Add(Sum(0, f), f(0));
      AddZeroSelf(f(0));
    }
  }

  lemma PartialNext(y: Vector, m: Matrix, width: nat, i: nat)
    requires i < |y| && HasShape(m, |y|, width)
    ensures AddScaled(Partial(y, m, width, i), m[i], y[i]) == Partial(y, m, width, i + 1)
  {
    hide Add, Mul;
    forall j: nat | j < width
      ensures Partial(y, m, width, i + 1)[j] == Add(Partial(y, m, width, i)[j], Mul(y[i], m[i][j]))
    {
      ColumnTerm(y, m, i, j);
    }
  }

  lemma PartialAll(y: Vector, m: Matrix, width: nat)
    ensures Partial(y, m, width, |y|) == Combination(y, m, width)
  {
  }
}
