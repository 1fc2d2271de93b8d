/** Vectors, matrices and row operations over GF(2^8). */
module LinearAlgebra {
  import opened GaloisField

  type Vector = seq<bv8>
  type Matrix = seq<Vector>

  predicate IsMatrix(m: Matrix, rows: nat, cols: nat) {
    |m| == rows && forall i :: 0 <= i < rows ==> |m[i]| == cols
  }

  /** The sum of the first n products. */
  function Dot(u: Vector, v: Vector, n: nat): (r: bv8)
    requires n <= |u| && n <= |v|
  {
    if n == 0 then 0 else Add(Dot(u, v, n - 1), Mul(u[n - 1], v[n - 1]))
  }

  function Apply(m: Matrix, x: Vector): (y: Vector)
    requires IsMatrix(m, |m|, |x|)
    ensures |y| == |m|
  {
    seq(|m|, i requires 0 <= i < |m| => Dot(m[i], x, |x|))
  }

  function Unit(n: nat, i: nat): (u: Vector)
    ensures |u| == n
  {
    seq(n, j => if j == i then 1 else 0)
  }

  function Zeros(n: nat): (u: Vector)
    ensures |u| == n
  {
    seq(n, _ => 0)
  }

  function Identity(n: nat): (m: Matrix)
    ensures IsMatrix(m, n, n)
  {
    seq(n, i => if i >= 0 then Unit(n, i) else Zeros(n))
  }

  function Column(m: Matrix, j: nat): (c: Vector)
    requires forall i :: 0 <= i < |m| ==> j < |m[i]|
    ensures |c| == |m|
  {
    seq(|m|, i requires 0 <= i < |m| => m[i][j])
  }

  // ---------------------------------------------------------------- Dot products

  lemma {:induction false} DotZeroRight(u: Vector, x: Vector, n: nat)
    requires n <= |u| && n <= |x|
    requires forall j :: 0 <= j < n ==> x[j] == 0
    ensures Dot(u, x, n) == 0
  {
    hide Add, Mul;
    if n > 0 {
      DotZeroRight(u, x, n - 1);
      MulZero(u[n - 1]);
      AddLaws(0, 0, 0);
    }
  }

  /** Entries beyond m that are zero on the right do not contribute. */
  lemma {:induction false} DotZeroTail(u: Vector, x: Vector, m: nat, n: nat)
    requires m <= n <= |u| && n <= |x|
    requires forall j :: m <= j < n ==> x[j] == 0
    ensures Dot(u, x, n) == Dot(u, x, m)
  {
    hide Add, Mul;
    if m < n {
      DotZeroTail(u, x, m, n - 1);
      MulZero(u[n - 1]);
      AddLaws(Dot(u, x, m), 0, 0);
    }
  }

  lemma {:induction false} DotCommutes(u: Vector, v: Vector, n: nat)
    requires n <= |u| && n <= |v|
    ensures Dot(u, v, n) == Dot(v, u, n)
  {
    hide Add, Mul;
    if n > 0 {
      DotCommutes(u, v, n - 1);
      MulCommutes(u[n - 1], v[n - 1]);
    }
  }

  /** A row whose first n entries are a unit vector selects one entry. */
  lemma {:induction false} DotUnit(u: Vector, x: Vector, i: nat, n: nat)
    requires n <= |u| && n <= |x|
    requires forall j :: 0 <= j < n ==> u[j] == if j == i then 1 else 0
    ensures Dot(u, x, n) == if i < n then x[i] else 0
  {
    hide Add, Mul;
    if n > 0 {
      DotUnit(u, x, i, n - 1);
      MulOne(x[n - 1]);
      MulZero(x[n - 1]);
      AddLaws(x[n - 1], 0, 0);
      AddLaws(if i < n - 1 then x[i] else 0, 0, 0);
    }
  }

  // ---------------------------------------------------------------- Row operations

  function Scaled(u: Vector, f: bv8): (r: Vector)
    ensures |r| == |u|
  {
    seq(|u|, c requires 0 <= c < |u| => Mul(u[c], f))
  }

  function AddScaled(u: Vector, coef: bv8, w: Vector): (r: Vector)
    requires |w| == |u|
    ensures |r| == |u|
  {
    seq(|u|, c requires 0 <= c < |u| => Add(u[c], Mul(coef, w[c])))
  }

  lemma {:induction false} DotScaled(u: Vector, f: bv8, x: Vector, n: nat)
    requires n <= |u| && n <= |x|
    ensures Dot(Scaled(u, f), x, n) == Mul(f, Dot(u, x, n))
  {
    hide Add, Mul;
    if n == 0 {
      MulZero(f);
    } else {
      DotScaled(u, f, x, n - 1);
      var a, b := u[n - 1], x[n - 1];
      MulCommutes(a, f);
      MulAssociates(f, a, b);
      MulAddRight(f, Dot(u, x, n - 1), Mul(a, b));
    }
  }

  lemma {:induction false} DotAddScaled(u: Vector, coef: bv8, w: Vector, x: Vector, n: nat)
    requires |w| == |u| && n <= |u| && n <= |x|
    ensures Dot(AddScaled(u, coef, w), x, n) == Add(Dot(u, x, n), Mul(coef, Dot(w, x, n)))
  {
    hide Add, Mul;
    if n == 0 {
      MulZero(coef);
      AddLaws(0, 0, 0);
    } else {
      DotAddScaled(u, coef, w, x, n - 1);
      var a, b, c := u[n - 1], w[n - 1], x[n - 1];
      MulAddLeft(a, Mul(coef, b), c);
      MulAssociates(coef, b, c);
      MulAddRight(coef, Dot(w, x, n - 1), Mul(b, c));
      AddSwap(Dot(u, x, n - 1), Mul(coef, Dot(w, x, n - 1)), Mul(a, c), Mul(coef, Mul(b, c)));
    }
  }

  function SwapRows(m: Matrix, i: nat, j: nat): (r: Matrix)
    requires i < |m| && j < |m|
  {
    m[i := m[j]][j := m[i]]
  }

  function ScaleRow(m: Matrix, i: nat, f: bv8): (r: Matrix)
    requires i < |m|
  {
    m[i := Scaled(m[i], f)]
  }

  function AddRow(m: Matrix, i: nat, coef: bv8, p: nat): (r: Matrix)
    requires i < |m| && p < |m| && |m[i]| == |m[p]|
  {
    m[i := AddScaled(m[i], coef, m[p])]
  }

  // ---------------------------------------------------------------- Solution sets

  /** The augmented system a.x = b.y, row by row. */
  ghost predicate Solves(a: Matrix, b: Matrix, x: Vector, y: Vector)
    requires IsMatrix(a, |a|, |x|) && IsMatrix(b, |a|, |y|)
  {
    forall i :: 0 <= i < |a| ==> Dot(a[i], x, |x|) == Dot(b[i], y, |y|)
  }

  lemma SolvesSwap(a: Matrix, b: Matrix, x: Vector, y: Vector, i: nat, j: nat)
    requires IsMatrix(a, |a|, |x|) && IsMatrix(b, |a|, |y|) && i < |a| && j < |a|
    ensures Solves(a, b, x, y) <==> Solves(SwapRows(a, i, j), SwapRows(b, i, j), x, y)
  {
    hide Add, Mul, Dot;
    var a', b' := SwapRows(a, i, j), SwapRows(b, i, j);
    if Solves(a', b', x, y) {
      forall r | 0 <= r < |a| ensures Dot(a[r], x, |x|) == Dot(b[r], y, |y|) {
        var r' := if r == i then j else if r == j then i else r;
        assert a'[r'] == a[r] && b'[r'] == b[r];
      }
    }
  }

  lemma MulCancel(f: bv8, u: bv8, v: bv8)
    requires f != 0
    ensures Mul(f, u) == Mul(f, v) <==> u == v
  {
    hide Add, Mul;
    MulAddRight(f, u, v);
    AddIsZero(u, v);
    AddIsZero(Mul(f, u), Mul(f, v));
    MulNonZero(f, Add(u, v));
  }

  lemma SolvesScale(a: Matrix, b: Matrix, x: Vector, y: Vector, i: nat, f: bv8)
    requires IsMatrix(a, |a|, |x|) && IsMatrix(b, |a|, |y|) && i < |a| && f != 0
    ensures Solves(a, b, x, y) <==> Solves(ScaleRow(a, i, f), ScaleRow(b, i, f), x, y)
  {
    hide Add, Mul, Dot, Scaled;
    DotScaled(a[i], f, x, |x|);
    DotScaled(b[i], f, y, |y|);
    MulCancel(f, Dot(a[i], x, |x|), Dot(b[i], y, |y|));
    var a', b' := ScaleRow(a, i, f), ScaleRow(b, i, f);
    assert forall r :: 0 <= r < |a| && r != i ==> a'[r] == a[r] && b'[r] == b[r];
    assert a'[i] == Scaled(a[i], f) && b'[i] == Scaled(b[i], f);
    if Solves(a', b', x, y) {
      forall r | 0 <= r < |a| ensures Dot(a[r], x, |x|) == Dot(b[r], y, |y|) {
        assert Dot(a'[r], x, |x|) == Dot(b'[r], y, |y|);
      }
    }
  }

  lemma SolvesAdd(a: Matrix, b: Matrix, x: Vector, y: Vector, i: nat, coef: bv8, p: nat)
    requires IsMatrix(a, |a|, |x|) && IsMatrix(b, |a|, |y|) && i < |a| && p < |a| && i != p
    ensures Solves(a, b, x, y) <==> Solves(AddRow(a, i, coef, p), AddRow(b, i, coef, p), x, y)
  {
    hide Add, Mul, Dot, AddScaled;
    DotAddScaled(a[i], coef, a[p], x, |x|);
    DotAddScaled(b[i], coef, b[p], y, |y|);
    var a', b' := AddRow(a, i, coef, p), AddRow(b, i, coef, p);
    assert forall r :: 0 <= r < |a| && r != i ==> a'[r] == a[r] && b'[r] == b[r];
    assert a'[i] == AddScaled(a[i], coef, a[p]) && b'[i] == AddScaled(b[i], coef, b[p]);
    if Solves(a', b', x, y) {
      assert Dot(a'[p], x, |x|) == Dot(b'[p], y, |y|);
      assert Dot(a'[i], x, |x|) == Dot(b'[i], y, |y|);
      AddCancel(Dot(a[i], x, |x|), Dot(b[i], y, |y|), Mul(coef, Dot(a[p], x, |x|)));
      forall r | 0 <= r < |a| ensures Dot(a[r], x, |x|) == Dot(b[r], y, |y|) {
        assert Dot(a'[r], x, |x|) == Dot(b'[r], y, |y|);
      }
    }
  }

  lemma AddCancel(u: bv8, v: bv8, w: bv8)
    ensures Add(u, w) == Add(v, w) <==> u == v
  {}
}
