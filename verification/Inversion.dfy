/** Gauss-Jordan inversion over GF(2^8), in place on an array of rows. */
module Inversion {
  import opened GaloisField
  import opened GaloisTables
  import opened LinearAlgebra
  import opened Common

  // ---------------------------------------------------------------- What an inverse is

  /** b solves every system of a, and only it does. */
  ghost predicate IsInverse(a: Matrix, b: Matrix, n: nat)
    requires IsMatrix(a, n, n) && IsMatrix(b, n, n)
  {
    forall x: Vector, y: Vector :: |x| == n && |y| == n ==> (Apply(a, x) == y <==> x == Apply(b, y))
  }

  function MatMul(a: Matrix, b: Matrix, n: nat): (r: Matrix)
    requires IsMatrix(a, |a|, n) && IsMatrix(b, n, n)
    ensures IsMatrix(r, |a|, n)
  {
    seq(|a|, i requires 0 <= i < |a| =>
      seq(n, j requires 0 <= j < n => Dot(a[i], Column(b, j), n)))
  }

  lemma ApplyUnit(m: Matrix, n: nat, j: nat)
    requires IsMatrix(m, |m|, n) && j < n
    ensures Apply(m, Unit(n, j)) == Column(m, j)
  {
    hide Add, Mul, Dot;
    var e := Unit(n, j);
    forall i | 0 <= i < |m| ensures Dot(m[i], e, n) == m[i][j] {
      DotCommutes(m[i], e, n);
      DotUnit(e, m[i], j, n);
    }
  }

  lemma InverseProductLeft(a: Matrix, b: Matrix, n: nat)
    requires IsMatrix(a, n, n) && IsMatrix(b, n, n) && IsInverse(a, b, n)
    ensures MatMul(a, b, n) == Identity(n)
  {
    hide Add, Mul, Dot;
    forall i, j | 0 <= i < n && 0 <= j < n ensures MatMul(a, b, n)[i][j] == Identity(n)[i][j] {
      var e := Unit(n, j);
      ApplyUnit(b, n, j);
      assert Apply(a, Apply(b, e)) == e;
      assert Apply(a, Column(b, j))[i] == Dot(a[i], Column(b, j), n);
    }
    forall i | 0 <= i < n ensures MatMul(a, b, n)[i] == Identity(n)[i] {}
  }

  lemma InverseSymmetric(a: Matrix, b: Matrix, n: nat)
    requires IsMatrix(a, n, n) && IsMatrix(b, n, n) && IsInverse(a, b, n)
    ensures IsInverse(b, a, n)
  {
    hide Apply;
  }

  /** The inverse in the usual sense, on both sides. */
  lemma InverseProduct(a: Matrix, b: Matrix, n: nat)
    requires IsMatrix(a, n, n) && IsMatrix(b, n, n) && IsInverse(a, b, n)
    ensures MatMul(a, b, n) == Identity(n) && MatMul(b, a, n) == Identity(n)
  {
    InverseProductLeft(a, b, n);
    InverseSymmetric(a, b, n);
    InverseProductLeft(b, a, n);
  }

  /** A non-zero vector that a maps to zero. */
  ghost predicate InKernel(a: Matrix, x: Vector)
    requires IsMatrix(a, |a|, |x|)
  {
    x != Zeros(|x|) && Apply(a, x) == Zeros(|a|)
  }

  // ---------------------------------------------------------------- The elimination invariant

  /** The row operations so far have kept the solutions of a0.x = y. */
  ghost predicate SameSolutions(a0: Matrix, a: Matrix, b: Matrix, n: nat)
    requires IsMatrix(a0, n, n) && IsMatrix(a, n, n) && IsMatrix(b, n, n)
  {
    forall x: Vector, y: Vector :: |x| == n && |y| == n ==> (Apply(a0, x) == y <==> Solves(a, b, x, y))
  }

  /** Columns below col already look like the identity. */
  ghost predicate Reduced(a: Matrix, col: nat)
    requires forall i :: 0 <= i < |a| ==> col <= |a[i]|
  {
    forall i, j :: 0 <= i < |a| && 0 <= j < col ==> a[i][j] == if i == j then 1 else 0
  }

  lemma InitialSolutions(a0: Matrix, n: nat)
    requires IsMatrix(a0, n, n)
    ensures SameSolutions(a0, a0, Identity(n), n)
  {
    hide Add, Mul, Dot;
    forall x: Vector, y: Vector | |x| == n && |y| == n
      ensures Apply(a0, x) == y <==> Solves(a0, Identity(n), x, y)
    {
      forall i | 0 <= i < n ensures Dot(Identity(n)[i], y, n) == y[i] {
        DotUnit(Identity(n)[i], y, i, n);
      }
      if Solves(a0, Identity(n), x, y) {
        forall i | 0 <= i < n ensures Apply(a0, x)[i] == y[i] {
          assert Dot(a0[i], x, n) == Dot(Identity(n)[i], y, n);
        }
      }
    }
  }

  lemma FinalSolutions(a0: Matrix, a: Matrix, b: Matrix, n: nat)
    requires IsMatrix(a0, n, n) && IsMatrix(a, n, n) && IsMatrix(b, n, n)
    requires SameSolutions(a0, a, b, n) && Reduced(a, n)
    ensures IsInverse(a0, b, n)
  {
    hide Add, Mul, Dot;
    forall x: Vector, y: Vector | |x| == n && |y| == n
      ensures Apply(a0, x) == y <==> x == Apply(b, y)
    {
      forall i | 0 <= i < n ensures Dot(a[i], x, n) == x[i] {
        DotUnit(a[i], x, i, n);
      }
      assert Apply(a0, x) == y <==> Solves(a, b, x, y);
      if Solves(a, b, x, y) {
        forall i | 0 <= i < n ensures x[i] == Apply(b, y)[i] {
          assert Dot(a[i], x, n) == Dot(b[i], y, n);
        }
      }
    }
  }

  /** No pivot in column col: the column is a combination of the earlier ones. */
  lemma NoPivot(a0: Matrix, a: Matrix, b: Matrix, n: nat, col: nat) returns (x: Vector)
    requires IsMatrix(a0, n, n) && IsMatrix(a, n, n) && IsMatrix(b, n, n) && col < n
    requires SameSolutions(a0, a, b, n) && Reduced(a, col)
    requires forall r :: col <= r < n ==> a[r][col] == 0
    ensures |x| == n && InKernel(a0, x)
  {
    hide Add, Mul, Dot;
    x := seq(n, j requires 0 <= j < n => if j < col then a[j][col] else if j == col then 1 else 0);
    var y := Zeros(n);
    forall i | 0 <= i < n ensures Dot(a[i], x, n) == 0 {
      KernelRow(a[i], x, i, col, n);
    }
    forall i | 0 <= i < n ensures Dot(b[i], y, n) == 0 {
      DotZeroRight(b[i], y, n);
    }
    assert Solves(a, b, x, y);
    assert x[col] == 1;
  }

  lemma KernelRow(u: Vector, x: Vector, i: nat, col: nat, n: nat)
    requires |u| == n && |x| == n && col < n && i < n
    requires forall j :: 0 <= j < col ==> u[j] == if j == i then 1 else 0
    requires forall j :: col < j < n ==> x[j] == 0
    requires x[col] == 1 && (i < col ==> x[i] == u[col]) && (col <= i ==> u[col] == 0)
    ensures Dot(u, x, n) == 0
  {
    hide Add, Mul;
    DotZeroTail(u, x, col + 1, n);
    DotUnit(u, x, i, col);
    MulCommutes(u[col], 1);
    MulOne(u[col]);
    AddLaws(u[col], 0, 0);
  }

  lemma KeepSwap(a0: Matrix, a: Matrix, b: Matrix, n: nat, col: nat, p: nat)
    requires IsMatrix(a0, n, n) && IsMatrix(a, n, n) && IsMatrix(b, n, n) && col <= p < n
    requires SameSolutions(a0, a, b, n) && Reduced(a, col)
    ensures var a', b' := SwapRows(a, col, p), SwapRows(b, col, p);
            IsMatrix(a', n, n) && IsMatrix(b', n, n) && SameSolutions(a0, a', b', n) && Reduced(a', col)
  {
    hide Add, Mul, Dot, Apply, Solves;
    var a', b' := SwapRows(a, col, p), SwapRows(b, col, p);
    forall x: Vector, y: Vector | |x| == n && |y| == n
      ensures Apply(a0, x) == y <==> Solves(a', b', x, y)
    {
      SolvesSwap(a, b, x, y, col, p);
    }
  }

  lemma KeepScale(a0: Matrix, a: Matrix, b: Matrix, n: nat, col: nat, f: bv8)
    requires IsMatrix(a0, n, n) && IsMatrix(a, n, n) && IsMatrix(b, n, n) && col < n && f != 0
    requires SameSolutions(a0, a, b, n) && Reduced(a, col)
    ensures var a', b' := ScaleRow(a, col, f), ScaleRow(b, col, f);
            IsMatrix(a', n, n) && IsMatrix(b', n, n) && SameSolutions(a0, a', b', n) && Reduced(a', col)
  {
    hide Add, Mul, Dot, Apply, Solves;
    var a', b' := ScaleRow(a, col, f), ScaleRow(b, col, f);
    forall x: Vector, y: Vector | |x| == n && |y| == n
      ensures Apply(a0, x) == y <==> Solves(a', b', x, y)
    {
      SolvesScale(a, b, x, y, col, f);
    }
    MulZero(f);
  }

  lemma KeepAdd(a0: Matrix, a: Matrix, b: Matrix, n: nat, col: nat, r: nat)
    requires IsMatrix(a0, n, n) && IsMatrix(a, n, n) && IsMatrix(b, n, n) && col < n && r < n && r != col
    requires SameSolutions(a0, a, b, n) && Reduced(a, col) && a[col][col] == 1
    ensures var a', b' := AddRow(a, r, a[r][col], col), AddRow(b, r, a[r][col], col);
            && IsMatrix(a', n, n) && IsMatrix(b', n, n) && SameSolutions(a0, a', b', n) && Reduced(a', col)
            && a'[r][col] == 0
  {
    hide Add, Mul, Dot, Apply, Solves;
    var coef := a[r][col];
    var a', b' := AddRow(a, r, coef, col), AddRow(b, r, coef, col);
    forall x: Vector, y: Vector | |x| == n && |y| == n
      ensures Apply(a0, x) == y <==> Solves(a', b', x, y)
    {
      SolvesAdd(a, b, x, y, r, coef, col);
    }
    MulZero(coef);
    MulCommutes(coef, 1);
    MulOne(coef);
    AddLaws(coef, 0, 0);
    AddLaws(0, 0, 0);
    AddLaws(1, 0, 0);
  }

  // ---------------------------------------------------------------- Regular matrices

  /** Only the zero vector is mapped to zero. */
  ghost predicate Regular(a: Matrix, n: nat)
    requires IsMatrix(a, n, n)
  {
    forall x: Vector :: |x| == n ==> !InKernel(a, x)
  }

  lemma InvertibleIsRegular(a: Matrix, b: Matrix, n: nat)
    requires IsMatrix(a, n, n) && IsMatrix(b, n, n) && IsInverse(a, b, n)
    ensures Regular(a, n)
  {
    hide Add, Mul, Dot;
    var zero := Zeros(n);
    forall i | 0 <= i < n ensures Dot(a[i], zero, n) == 0 { DotZeroRight(a[i], zero, n); }
    assert Apply(a, zero) == zero;
  }

  /** Gauss-Jordan elimination never gets stuck on a regular matrix. */
  lemma InverseExists(a0: Matrix, n: nat) returns (b: Matrix)
    requires IsMatrix(a0, n, n) && Regular(a0, n)
    ensures IsMatrix(b, n, n) && IsInverse(a0, b, n)
  {
    hide Add, Mul, SameSolutions, InKernel, IsInverse, Scaled, SwapRows;
    var a := a0;
    b := Identity(n);
    InitialSolutions(a0, n);
    var col := 0;
    while col < n
      invariant 0 <= col <= n && IsMatrix(a, n, n) && IsMatrix(b, n, n)
      invariant SameSolutions(a0, a, b, n) && Reduced(a, col)
    {
      if forall r :: col <= r < n ==> a[r][col] == 0 {
        var x := NoPivot(a0, a, b, n, col);
        assert false;
      }
      var pivot :| col <= pivot < n && a[pivot][col] != 0;
      KeepSwap(a0, a, b, n, col, pivot);
      SwapPivot(a, col, pivot);
      a, b := SwapRows(a, col, pivot), SwapRows(b, col, pivot);
      InvExp(a[col][col]);
      var f := Exp(255 - Log(a[col][col]));
      KeepScale(a0, a, b, n, col, f);
      ScaledPivot(a[col], col, f);
      a, b := ScaleRow(a, col, f), ScaleRow(b, col, f);
      a, b := ClearColumn(a0, a, b, n, col);
      col := col + 1;
    }
    FinalSolutions(a0, a, b, n);
  }

  lemma SwapPivot(a: Matrix, col: nat, pivot: nat)
    requires col < |a| && pivot < |a|
    ensures SwapRows(a, col, pivot)[col] == a[pivot]
  {}

  lemma ClearColumn(a0: Matrix, a: Matrix, b: Matrix, n: nat, col: nat) returns (a': Matrix, b': Matrix)
    requires IsMatrix(a0, n, n) && IsMatrix(a, n, n) && IsMatrix(b, n, n) && col < n
    requires SameSolutions(a0, a, b, n) && Reduced(a, col) && a[col][col] == 1
    ensures IsMatrix(a', n, n) && IsMatrix(b', n, n) && SameSolutions(a0, a', b', n) && Reduced(a', col + 1)
  {
    hide Add, Mul, SameSolutions, Reduced, AddScaled;
    a', b' := a, b;
    var r := 0;
    while r < n
      invariant 0 <= r <= n && IsMatrix(a', n, n) && IsMatrix(b', n, n)
      invariant SameSolutions(a0, a', b', n) && Reduced(a', col) && a'[col][col] == 1
      invariant forall k :: 0 <= k < r && k != col ==> a'[k][col] == 0
    {
      if r != col {
        KeepAdd(a0, a', b', n, col, r);
        a', b' := AddRow(a', r, a'[r][col], col), AddRow(b', r, a'[r][col], col);
      }
      r := r + 1;
    }
    ReducedNext(a', col, n);
  }

  lemma InverseUnique(a: Matrix, b: Matrix, c: Matrix, n: nat)
    requires IsMatrix(a, n, n) && IsMatrix(b, n, n) && IsMatrix(c, n, n)
    requires IsInverse(a, b, n) && IsInverse(a, c, n)
    ensures b == c
  {
    hide Add, Mul, Dot, Apply;
    forall i, j | 0 <= i < n && 0 <= j < n ensures b[i][j] == c[i][j] {
      var e := Unit(n, j);
      ApplyUnit(b, n, j);
      ApplyUnit(c, n, j);
      assert Apply(b, e) == Apply(c, e);
      assert Column(b, j)[i] == b[i][j] && Column(c, j)[i] == c[i][j];
    }
    forall i | 0 <= i < n ensures b[i] == c[i] {}
  }

  /** The inverse of a regular matrix. */
  ghost function InverseOf(a: Matrix, n: nat): (b: Matrix)
    requires IsMatrix(a, n, n) && Regular(a, n)
    ensures IsMatrix(b, n, n) && IsInverse(a, b, n)
  {
    assert exists b: Matrix :: IsMatrix(b, n, n) && IsInverse(a, b, n) by {
      hide IsInverse, Regular;
      var b := InverseExists(a, n);
    }
    var b: Matrix :| IsMatrix(b, n, n) && IsInverse(a, b, n);
    b
  }

  // ---------------------------------------------------------------- invert

  /** The two row loops of one scaling step. */
  method ScaleRows(t: Tables, a: array<Vector>, inv: array<Vector>, col: nat, f: bv8, n: nat)
    requires Valid(t) && a != inv && col < n && IsMatrix(a[..], n, n) && IsMatrix(inv[..], n, n)
    modifies a, inv
    ensures a[..] == ScaleRow(old(a[..]), col, f) && inv[..] == ScaleRow(old(inv[..]), col, f)
  {
    hide Mul, Valid;
    ghost var u, v := a[col], inv[col];
    var c := 0;
    while c < n
      invariant 0 <= c <= n && |a[col]| == n && |inv[col]| == n
      invariant forall k :: 0 <= k < n && k != col ==> a[k] == old(a[k]) && inv[k] == old(inv[k])
      invariant forall k :: 0 <= k < n ==> a[col][k] == if k < c then Mul(u[k], f) else u[k]
      invariant forall k :: 0 <= k < n ==> inv[col][k] == if k < c then Mul(v[k], f) else v[k]
    {
      a[col] := a[col][c := GfMul(t, a[col][c], f)];
      inv[col] := inv[col][c := GfMul(t, inv[col][c], f)];
      c := c + 1;
    }
    assert a[col] == Scaled(u, f) && inv[col] == Scaled(v, f);
  }

  /** Clears one entry of the pivot column. */
  method EliminateRow(t: Tables, a: array<Vector>, inv: array<Vector>, r: nat, coef: bv8, col: nat, n: nat)
    requires Valid(t) && a != inv && col < n && r < n && r != col
    requires IsMatrix(a[..], n, n) && IsMatrix(inv[..], n, n)
    modifies a, inv
    ensures a[..] == AddRow(old(a[..]), r, coef, col) && inv[..] == AddRow(old(inv[..]), r, coef, col)
  {
    hide Mul, Add, Valid;
    ghost var u, v := a[r], inv[r];
    var c := 0;
    while c < n
      invariant 0 <= c <= n && |a[r]| == n && |inv[r]| == n
      invariant forall k :: 0 <= k < n && k != r ==> a[k] == old(a[k]) && inv[k] == old(inv[k])
      invariant forall k :: 0 <= k < n ==> a[r][k] == if k < c then Add(u[k], Mul(coef, a[col][k])) else u[k]
      invariant forall k :: 0 <= k < n ==> inv[r][k] == if k < c then Add(v[k], Mul(coef, inv[col][k])) else v[k]
    {
      a[r] := a[r][c := Add(a[r][c], GfMul(t, coef, a[col][c]))];
      inv[r] := inv[r][c := Add(inv[r][c], GfMul(t, coef, inv[col][c]))];
      c := c + 1;
    }
    assert a[r] == AddScaled(u, coef, a[col]) && inv[r] == AddScaled(v, coef, inv[col]);
  }

  /** One round: bring the pivot row up, scale it to a leading 1, clear its column. */
  method ReduceColumn(t: Tables, ghost a0: Matrix, a: array<Vector>, inv: array<Vector>, col: nat, pivot: nat, n: nat)
    requires Valid(t) && a != inv && col <= pivot < n
    requires IsMatrix(a0, n, n) && IsMatrix(a[..], n, n) && IsMatrix(inv[..], n, n)
    requires SameSolutions(a0, a[..], inv[..], n) && Reduced(a[..], col) && a[pivot][col] != 0
    modifies a, inv
    ensures IsMatrix(a[..], n, n) && IsMatrix(inv[..], n, n)
    ensures SameSolutions(a0, a[..], inv[..], n) && Reduced(a[..], col + 1)
  {
    hide Mul, Add, Valid, SameSolutions, Reduced, AddScaled, Scaled;
    KeepSwap(a0, a[..], inv[..], n, col, pivot);
    ghost var sa, si := SwapRows(a[..], col, pivot), SwapRows(inv[..], col, pivot);
    a[col], a[pivot] := a[pivot], a[col];
    inv[col], inv[pivot] := inv[pivot], inv[col];
    assert a[..] == sa && inv[..] == si;

    var f := GfInv(t, a[col][col]);
    KeepScale(a0, a[..], inv[..], n, col, f);
    ScaledPivot(a[col], col, f);
    if f != 1 {
      ScaleRows(t, a, inv, col, f, n);
    }
    var r := 0;
    while r < n
      invariant 0 <= r <= n && IsMatrix(a[..], n, n) && IsMatrix(inv[..], n, n)
      invariant SameSolutions(a0, a[..], inv[..], n) && Reduced(a[..], col) && a[col][col] == 1
      invariant forall k :: 0 <= k < r && k != col ==> a[k][col] == 0
    {
      var coef := a[r][col];
      if r != col && coef != 0 {
        KeepAdd(a0, a[..], inv[..], n, col, r);
        EliminateRow(t, a, inv, r, coef, col, n);
      }
      r := r + 1;
    }
    ReducedNext(a[..], col, n);
  }

  lemma ScaledPivot(u: Vector, col: nat, f: bv8)
    requires col < |u| && Mul(u[col], f) == 1
    ensures Scaled(u, f)[col] == 1 && (f == 1 ==> u[col] == 1)
  {
    hide Mul;
    MulCommutes(u[col], 1);
    MulOne(u[col]);
  }

  lemma ReducedNext(a: Matrix, col: nat, n: nat)
    requires IsMatrix(a, n, n) && col < n && Reduced(a, col) && a[col][col] == 1
    requires forall k :: 0 <= k < n && k != col ==> a[k][col] == 0
    ensures Reduced(a, col + 1)
  {}

  /** invert: consumes a, and succeeds exactly on the regular matrices. */
  method Invert(t: Tables, a: array<Vector>) returns (res: Result<Matrix, FecError>)
    requires Valid(t)
    modifies a
    ensures res == Err(InvalidLayout) <==> !IsMatrix(old(a[..]), a.Length, a.Length)
    ensures res != Err(InvalidLayout) ==> (res.Ok? <==> Regular(old(a[..]), a.Length))
    ensures res.Ok? ==> IsMatrix(res.value, a.Length, a.Length) && IsInverse(old(a[..]), res.value, a.Length)
    ensures res.Err? && res.error != InvalidLayout ==>
              res.error == Singular && exists x: Vector :: |x| == a.Length && InKernel(old(a[..]), x)
  {
    hide Mul, Add, Valid, SameSolutions, InKernel, IsInverse;
    var n := a.Length;
    ghost var a0 := a[..];
    var inv := new Vector[n](_ => []);
    var i := 0;
    while i < n
      invariant 0 <= i <= n && a[..] == a0
      invariant forall k :: 0 <= k < i ==> |a[k]| == n && inv[k] == Unit(n, k)
    {
      if |a[i]| != n {
        return Err(InvalidLayout);
      }
      inv[i] := Unit(n, i);
      i := i + 1;
    }
    assert inv[..] == Identity(n);
    InitialSolutions(a0, n);
    var col := 0;
    while col < n
      invariant 0 <= col <= n && IsMatrix(a[..], n, n) && IsMatrix(inv[..], n, n)
      invariant SameSolutions(a0, a[..], inv[..], n) && Reduced(a[..], col)
    {
      var pivot := col;
      while pivot < n && a[pivot][col] == 0
        invariant col <= pivot <= n
        invariant forall r :: col <= r < pivot ==> a[r][col] == 0
      {
        pivot := pivot + 1;
      }
      if pivot == n {
        ghost var x := NoPivot(a0, a[..], inv[..], n, col);
        return Err(Singular);
      }
      ReduceColumn(t, a0, a, inv, col, pivot, n);
      col := col + 1;
    }
    FinalSolutions(a0, a[..], inv[..], n);
    InvertibleIsRegular(a0, inv[..], n);
    return Ok(inv[..]);
  }
}
