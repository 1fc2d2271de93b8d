/**
  The systematic Reed-Solomon generator G = F . F_top^-1: its first k rows are the
  identity, and any k of its rows are linearly independent.
 */
module Generator {
  import opened GaloisField
  import opened LinearAlgebra
  import opened Inversion
  import opened Polynomials
  import opened Common

  /** The largest total shard count GF(2^8) supports. */
  const MAX_SHARDS := 255

  /** The base of Vandermonde row j; all 255 of them are distinct and non-zero. */
  function Base(j: nat): (b: bv8)
    requires j < MAX_SHARDS
  {
    (j + 1) as bv8
  }

  lemma BasesDistinct(i: nat, j: nat)
    requires i < j < MAX_SHARDS
    ensures Base(i) != Base(j)
  {
    hide Code;
    CodeOfByte(i + 1);
    CodeOfByte(j + 1);
  }

  /** Shard numbers that may be used together: in range and no two equal. */
  ghost predicate DistinctRows(idx: seq<nat>) {
    && (forall i :: 0 <= i < |idx| ==> idx[i] < MAX_SHARDS)
    && (forall i, j :: 0 <= i < j < |idx| ==> idx[i] != idx[j])
  }

  /** The Vandermonde rows named by idx. */
  ghost function Vandermonde(idx: seq<nat>, k: nat): (m: Matrix)
    requires forall i :: 0 <= i < |idx| ==> idx[i] < MAX_SHARDS
    ensures IsMatrix(m, |idx|, k)
  {
    seq(|idx|, i requires 0 <= i < |idx| => PowerRow(Base(idx[i]), k))
  }

  /** Any k distinct Vandermonde rows of width k are independent. */
  lemma VandermondeRegular(idx: seq<nat>)
    requires DistinctRows(idx)
    ensures Regular(Vandermonde(idx, |idx|), |idx|)
  {
    hide Add, Mul, Dot, Eval, PowerRow, Base;
    var k := |idx|;
    var m := Vandermonde(idx, k);
    forall x: Vector | |x| == k && Apply(m, x) == Zeros(k) ensures x == Zeros(k) {
      var roots := seq(k, i requires 0 <= i < k => Base(idx[i]));
      forall i | 0 <= i < k ensures Eval(x, roots[i]) == 0 {
        PowerRowEvaluates(roots[i], x);
        assert Apply(m, x)[i] == 0;
      }
      forall i, j | 0 <= i < j < k ensures roots[i] != roots[j] {
        if idx[i] < idx[j] { BasesDistinct(idx[i], idx[j]); } else { BasesDistinct(idx[j], idx[i]); }
      }
      RootsForceZero(x, roots);
    }
  }

  function Upto(k: nat): (s: seq<nat>)
    ensures |s| == k && forall i :: 0 <= i < k ==> s[i] == i
  {
    seq(k, i requires 0 <= i => i)
  }

  /** The inverse of the top k-by-k Vandermonde block. */
  ghost function TopInverse(k: nat): (m: Matrix)
    requires k <= MAX_SHARDS
    ensures IsMatrix(m, k, k) && IsInverse(Vandermonde(Upto(k), k), m, k)
  {
    VandermondeRegular(Upto(k));
    InverseOf(Vandermonde(Upto(k), k), k)
  }

  /** A row vector times a matrix. */
  function RowTimes(u: Vector, m: Matrix, k: nat): (r: Vector)
    requires |u| == k && IsMatrix(m, k, k)
    ensures |r| == k
  {
    seq(k, i requires 0 <= i < k => Dot(u, Column(m, i), k))
  }

  /** Row j of the generator for k data shards. */
  ghost function GenRow(k: nat, j: nat): (r: Vector)
    requires k <= MAX_SHARDS && j < MAX_SHARDS
    ensures |r| == k
  {
    RowTimes(PowerRow(Base(j), k), TopInverse(k), k)
  }

  /** The generator rows named by idx. */
  ghost function GenRows(k: nat, idx: seq<nat>): (m: Matrix)
    requires k <= MAX_SHARDS && forall i :: 0 <= i < |idx| ==> idx[i] < MAX_SHARDS
    ensures IsMatrix(m, |idx|, k)
  {
    seq(|idx|, i requires 0 <= i < |idx| => GenRow(k, idx[i]))
  }

  // ---------------------------------------------------------------- Associativity of u.m.x

  /** The first j columns of the row times the first j entries of x, summed over rows. */
  lemma {:induction false} PartialAssociativity(u: Vector, m: Matrix, x: Vector, k: nat, j: nat)
    requires |u| == k && IsMatrix(m, k, k) && |x| == k && j <= k
    ensures Dot(RowTimes(u, m, k), x, j) == Dot(u, PartialApply(m, x, k, j), k)
  {
    hide Add, Mul;
    if j == 0 {
      DotZeroRight(u, PartialApply(m, x, k, 0), k);
    } else {
      PartialAssociativity(u, m, x, k, j - 1);
      assert RowTimes(u, m, k)[j - 1] == Dot(u, Column(m, j - 1), k);
      hide RowTimes;
      DotStep(u, m, x, k, j, k);
    }
  }

  function PartialApply(m: Matrix, x: Vector, k: nat, j: nat): (y: Vector)
    requires IsMatrix(m, k, k) && |x| == k && j <= k
    ensures |y| == k
  {
    seq(k, i requires 0 <= i < k => Dot(m[i], x, j))
  }

  lemma {:induction false} DotStep(u: Vector, m: Matrix, x: Vector, k: nat, j: nat, n: nat)
    requires |u| == k && IsMatrix(m, k, k) && |x| == k && 1 <= j <= k && n <= k
    ensures Dot(u, PartialApply(m, x, k, j), n)
         == Add(Dot(u, PartialApply(m, x, k, j - 1), n), Mul(Dot(u, Column(m, j - 1), n), x[j - 1]))
  {
    hide Add, Mul;
    if n == 0 {
      MulZero(x[j - 1]);
      AddLaws(0, 0, 0);
    } else {
      DotStep(u, m, x, k, j, n - 1);
      var a, c, d, z := u[n - 1], m[n - 1][j - 1], Dot(m[n - 1], x, j - 1), x[j - 1];
      var s, t := Dot(u, PartialApply(m, x, k, j - 1), n - 1), Dot(u, Column(m, j - 1), n - 1);
      assert PartialApply(m, x, k, j)[n - 1] == Add(d, Mul(c, z));
      MulAddRight(a, d, Mul(c, z));
      MulAssociates(a, c, z);
      MulAddLeft(t, Mul(a, c), z);
      AddSwap(s, Mul(t, z), Mul(a, d), Mul(Mul(a, c), z));
    }
  }

  /** (u.m).x == u.(m.x) */
  lemma RowTimesApply(u: Vector, m: Matrix, x: Vector, k: nat)
    requires |u| == k && IsMatrix(m, k, k) && |x| == k
    ensures Dot(RowTimes(u, m, k), x, k) == Dot(u, Apply(m, x), k)
  {
    hide Dot, RowTimes;
    PartialAssociativity(u, m, x, k, k);
    assert PartialApply(m, x, k, k) == Apply(m, x);
  }

  // ---------------------------------------------------------------- The two laws

  /** Systematic: data shard j is carried unchanged. */
  lemma Systematic(k: nat, j: nat)
    requires j < k <= MAX_SHARDS
    ensures GenRow(k, j) == Unit(k, j)
  {
    hide Dot, IsInverse, TopInverse, PowerRow, Base;
    var top, inv := Vandermonde(Upto(k), k), TopInverse(k);
    InverseProduct(top, inv, k);
    assert top[j] == PowerRow(Base(j), k);
    assert MatMul(top, inv, k)[j] == GenRow(k, j);
    assert Identity(k)[j] == Unit(k, j);
  }

  /** Maximum distance separable: any k distinct rows are independent. */
  lemma AnyRowsIndependent(k: nat, idx: seq<nat>)
    requires k <= MAX_SHARDS && |idx| == k && DistinctRows(idx)
    ensures Regular(GenRows(k, idx), k)
  {
    hide Dot, IsInverse, TopInverse, PowerRow, Base, RowTimes;
    var inv := TopInverse(k);
    var m, v := GenRows(k, idx), Vandermonde(idx, k);
    forall x: Vector | |x| == k && Apply(m, x) == Zeros(k) ensures x == Zeros(k) {
      var y := Apply(inv, x);
      forall i | 0 <= i < k ensures Apply(v, y)[i] == 0 {
        RowTimesApply(PowerRow(Base(idx[i]), k), inv, x, k);
        assert m[i] == GenRow(k, idx[i]) && Apply(m, x)[i] == 0;
      }
      VandermondeRegular(idx);
      assert Apply(v, y) == Zeros(k);
      assert !InKernel(v, y);
      InverseOfZero(k, x);
    }
  }

  lemma InverseOfZero(k: nat, x: Vector)
    requires k <= MAX_SHARDS && |x| == k && Apply(TopInverse(k), x) == Zeros(k)
    ensures x == Zeros(k)
  {
    hide Dot, Apply, TopInverse;
    var top, inv := Vandermonde(Upto(k), k), TopInverse(k);
    InverseSymmetric(top, inv, k);
    InvertibleIsRegular(inv, top, k);
    assert !InKernel(inv, x);
  }
}
