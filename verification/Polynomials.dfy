/** Polynomials over GF(2^8): a non-zero one has fewer roots than coefficients. */
module Polynomials {
  import opened GaloisField
  import opened GaloisTables
  import opened LinearAlgebra

  /** p[0] + p[1]*x + p[2]*x^2 + ..., by Horner's rule. */
  function Eval(p: Vector, x: bv8): (r: bv8) {
    if p == [] then 0 else Add(p[0], Mul(x, Eval(p[1..], x)))
  }

  /** Synthetic division by (x + b). */
  function Quotient(p: Vector, b: bv8): (q: Vector)
    requires p != []
    ensures |q| == |p| - 1
  {
    if |p| == 1 then [] else [Eval(p[1..], b)] + Quotient(p[1..], b)
  }

  /** p(x) + p(b) == (x + b) * q(x). */
  lemma {:induction false} DivisionIdentity(p: Vector, b: bv8, x: bv8)
    requires p != []
    ensures Add(Eval(p, x), Eval(p, b)) == Mul(Add(x, b), Eval(Quotient(p, b), x))
  {
    hide Add, Mul;
    var t := p[1..];
    if t == [] {
      MulZero(x);
      MulZero(b);
      MulZero(Add(x, b));
      AddLaws(p[0], 0, 0);
    } else {
      DivisionIdentity(t, b, x);
      assert Quotient(p, b)[1..] == Quotient(t, b);
      DivisionStep(p[0], x, b, Eval(t, x), Eval(t, b), Eval(Quotient(t, b), x));
    }
  }

  lemma DivisionStep(c: bv8, x: bv8, b: bv8, tx: bv8, tb: bv8, q: bv8)
    requires Add(tx, tb) == Mul(Add(x, b), q)
    ensures Add(Add(c, Mul(x, tx)), Add(c, Mul(b, tb))) == Mul(Add(x, b), Add(tb, Mul(x, q)))
  {
    hide Add, Mul;
    var s := Add(x, b);
    // The left side is x*tx + b*tb.
    AddSwap(c, Mul(x, tx), c, Mul(b, tb));
    AddLaws(c, 0, 0);
    AddLaws(Add(Mul(x, tx), Mul(b, tb)), 0, 0);
    // x*tx == x*tb + x*s*q
    AddLaws(tb, tx, tb);
    AddLaws(tx, tb, tb);
    AddLaws(tb, tb, 0);
    AddLaws(tx, 0, 0);
    assert tx == Add(tb, Mul(s, q)) by {
      assert Add(Add(tx, tb), tb) == tx;
      AddLaws(Mul(s, q), tb, 0);
    }
    MulAddRight(x, tb, Mul(s, q));
    // s*(tb + x*q) == s*tb + x*s*q
    MulAddRight(s, tb, Mul(x, q));
    MulAssociates(s, x, q);
    MulAssociates(x, s, q);
    MulCommutes(s, x);
    MulAddLeft(x, b, tb);
    AddLaws(Mul(x, tb), Mul(x, Mul(s, q)), Mul(b, tb));
    AddLaws(Mul(x, Mul(s, q)), Mul(b, tb), 0);
    AddLaws(Mul(x, tb), Mul(b, tb), Mul(x, Mul(s, q)));
  }

  ghost predicate IsZero(p: Vector) {
    forall i :: 0 <= i < |p| ==> p[i] == 0
  }

  lemma {:induction false} EvalZero(p: Vector, x: bv8)
    requires IsZero(p)
    ensures Eval(p, x) == 0
  {
    hide Add, Mul;
    if p != [] {
      EvalZero(p[1..], x);
      MulZero(x);
      AddLaws(0, 0, 0);
    }
  }

  /** Only a constant has the quotient zero. */
  lemma {:induction false} ZeroQuotient(p: Vector, b: bv8)
    requires p != [] && IsZero(Quotient(p, b))
    ensures IsZero(p[1..])
  {
    hide Add, Mul;
    var t := p[1..];
    if t != [] {
      var q := Quotient(p, b);
      assert q[1..] == Quotient(t, b);
      ZeroQuotient(t, b);
      assert q[0] == 0 && Eval(t, b) == 0;
      EvalZero(t[1..], b);
      MulZero(b);
      AddLaws(t[0], 0, 0);
    }
  }

  ghost predicate Distinct(xs: Vector) {
    forall i, j :: 0 <= i < j < |xs| ==> xs[i] != xs[j]
  }

  /** As many distinct roots as coefficients force every coefficient to zero. */
  lemma {:induction false} RootsForceZero(p: Vector, roots: Vector)
    requires |roots| == |p| && Distinct(roots)
    requires forall i :: 0 <= i < |roots| ==> Eval(p, roots[i]) == 0
    ensures IsZero(p)
    decreases |p|
  {
    hide Add, Mul, Eval, Quotient;
    if p != [] {
      var b, rest := roots[0], roots[1..];
      var q := Quotient(p, b);
      forall i | 0 <= i < |rest| ensures Eval(q, rest[i]) == 0 {
        var c := rest[i];
        assert c == roots[i + 1] && c != b;
        DivisionIdentity(p, b, c);
        AddLaws(0, 0, 0);
        AddIsZero(c, b);
        MulNonZero(Add(c, b), Eval(q, c));
      }
      RootsForceZero(q, rest);
      ZeroQuotient(p, b);
      assert Eval(p, b) == 0;
      ConstantAt(p, b);
      assert p == [p[0]] + p[1..];
    }
  }

  lemma ConstantAt(p: Vector, b: bv8)
    requires p != [] && IsZero(p[1..])
    ensures Eval(p, b) == p[0]
  {
    hide Add, Mul;
    EvalZero(p[1..], b);
    MulZero(b);
    AddLaws(p[0], 0, 0);
  }

  // ---------------------------------------------------------------- Vandermonde rows

  /** [1, b, b^2, ...] */
  function PowerRow(b: bv8, k: nat): (r: Vector)
    ensures |r| == k
  {
    seq(k, i requires 0 <= i => Pow(b, i))
  }

  /** b times the partial sum of p[1..], plus p[0]. */
  lemma {:induction false} PowerSumShift(b: bv8, p: Vector, n: nat)
    requires n < |p|
    ensures Dot(PowerRow(b, |p|), p, n + 1) == Add(p[0], Mul(b, Dot(PowerRow(b, |p| - 1), p[1..], n)))
  {
    hide Add, Mul;
    var u, v, t := PowerRow(b, |p|), PowerRow(b, |p| - 1), p[1..];
    if n == 0 {
      assert Dot(u, p, 0) == 0 && u[0] == 1;
      MulOne(p[0]);
      MulZero(b);
      AddLaws(p[0], 0, 0);
    } else {
      PowerSumShift(b, p, n - 1);
      MulAssociates(b, v[n - 1], t[n - 1]);
      assert u[n] == Mul(b, v[n - 1]) && p[n] == t[n - 1];
      MulAddRight(b, Dot(v, t, n - 1), Mul(v[n - 1], t[n - 1]));
      AddLaws(p[0], Mul(b, Dot(v, t, n - 1)), Mul(b, Mul(v[n - 1], t[n - 1])));
    }
  }

  /** A Vandermonde row applied to p evaluates p. */
  lemma {:induction false} PowerRowEvaluates(b: bv8, p: Vector)
    ensures Dot(PowerRow(b, |p|), p, |p|) == Eval(p, b)
    decreases |p|
  {
    hide Add, Mul;
    if p != [] {
      PowerSumShift(b, p, |p| - 1);
      PowerRowEvaluates(b, p[1..]);
    }
  }
}
