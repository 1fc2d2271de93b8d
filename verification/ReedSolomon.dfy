/**
  The code from the field alone: byte p of the shards of a code word are the values of
  one polynomial with k coefficients at the points 1, 2, 3, ...; so the rows of the
  generator have a closed form.
 */
module ReedSolomon {
  import opened GaloisField
  import opened LinearAlgebra
  import opened Polynomials
  import opened Inversion
  import opened Generator
  import opened ErasureCode
  import opened Common

  // ---------------------------------------------------------------- Code words are evaluations

  /** Byte p of shard j is the value of c at the point j + 1. */
  ghost predicate Interpolates(c: Vector, shards: seq<Bytes>, p: nat) {
    && |shards| <= 255
    && forall j :: 0 <= j < |shards| ==> p < |shards[j]| && Eval(c, (j + 1) as bv8) == shards[j][p]
  }

  ghost predicate OnPolynomial(shards: seq<Bytes>, k: nat, p: nat) {
    exists c: Vector :: |c| == k && Interpolates(c, shards, p)
  }

  /** At every byte position the shards lie on a polynomial with k coefficients. */
  ghost predicate IsCodeWord(shards: seq<Bytes>, k: nat, size: nat) {
    EqualLengths(shards, size) && forall p :: 0 <= p < size ==> OnPolynomial(shards, k, p)
  }

  /** The polynomial through the k data bytes. */
  ghost function Through(x: Vector): (c: Vector)
    requires |x| <= MAX_SHARDS
    ensures |c| == |x|
  {
    Apply(TopInverse(|x|), x)
  }

  /** Generator row j evaluates that polynomial at j + 1. */
  lemma RowEvaluates(x: Vector, j: nat)
    requires |x| <= MAX_SHARDS && j < MAX_SHARDS
    ensures Dot(GenRow(|x|, j), x, |x|) == Eval(Through(x), (j + 1) as bv8)
  {
    hide Dot, Apply, TopInverse, RowTimes, PowerRow, Eval;
    var k := |x|;
    RowTimesApply(PowerRow(Base(j), k), TopInverse(k), x, k);
    PowerRowEvaluates(Base(j), Through(x));
  }

  lemma ShardEvaluates(data: seq<Bytes>, j: nat, size: nat, p: nat)
    requires |data| <= MAX_SHARDS && j < MAX_SHARDS && p < size
    ensures CodeShard(data, j, size)[p] == Eval(Through(PadColumn(data, p)), (j + 1) as bv8)
  {
    hide Dot, Through, GenRow, Eval;
    RowEvaluates(PadColumn(data, p), j);
  }

  /** What the encoder specifies is a code word that starts with the data. */
  lemma EncodedIsCodeWord(data: seq<Bytes>, shards: seq<Bytes>, size: nat)
    requires |data| <= |shards| <= MAX_SHARDS && EqualLengths(data, size) && shards[..|data|] == data
    requires forall j :: |data| <= j < |shards| ==> shards[j] == CodeShard(data, j, size)
    ensures IsCodeWord(shards, |data|, size)
  {
    hide CodeShard, Through, Eval;
    forall j | 0 <= j < |shards| ensures shards[j] == CodeShard(data, j, size) {
      if j < |data| {
        DataShard(data, j, size);
        assert shards[j] == shards[..|data|][j];
      }
    }
    forall p | 0 <= p < size ensures OnPolynomial(shards, |data|, p) {
      var c := Through(PadColumn(data, p));
      forall j | 0 <= j < |shards| ensures Eval(c, (j + 1) as bv8) == shards[j][p] {
        ShardEvaluates(data, j, size, p);
      }
      assert Interpolates(c, shards, p);
    }
  }

  // ---------------------------------------------------------------- Uniqueness

  function Sum(a: Vector, b: Vector): (s: Vector)
    requires |a| == |b|
    ensures |s| == |a|
  {
    seq(|a|, i requires 0 <= i < |a| => Add(a[i], b[i]))
  }

  lemma {:induction false} EvalSum(a: Vector, b: Vector, x: bv8)
    requires |a| == |b|
    ensures Eval(Sum(a, b), x) == Add(Eval(a, x), Eval(b, x))
  {
    hide Add, Mul;
    if a == [] {
      AddLaws(0, 0, 0);
    } else {
      EvalSum(a[1..], b[1..], x);
      assert Sum(a, b)[1..] == Sum(a[1..], b[1..]);
      MulAddRight(x, Eval(a[1..], x), Eval(b[1..], x));
      AddSwap(a[0], b[0], Mul(x, Eval(a[1..], x)), Mul(x, Eval(b[1..], x)));
    }
  }

  /** The first n points, 1 to n. */
  ghost function Points(n: nat): (xs: Vector)
    requires n <= 255
    ensures |xs| == n && forall i :: 0 <= i < n ==> xs[i] == (i + 1) as bv8
  {
    seq(n, i requires 0 <= i < n => (i + 1) as bv8)
  }

  lemma PointsDistinct(n: nat)
    requires n <= 255
    ensures Distinct(Points(n))
  {
    hide Code;
    forall i, j | 0 <= i < j < n ensures Points(n)[i] != Points(n)[j] {
      CodeOfByte(i + 1);
      CodeOfByte(j + 1);
    }
  }

  /** Two polynomials with k coefficients that agree at k points are equal. */
  lemma SamePolynomial(a: Vector, b: Vector, xs: Vector)
    requires |a| == |b| == |xs| && Distinct(xs)
    requires forall i :: 0 <= i < |xs| ==> Eval(a, xs[i]) == Eval(b, xs[i])
    ensures a == b
  {
    hide Add, Eval;
    var s := Sum(a, b);
    forall i | 0 <= i < |xs| ensures Eval(s, xs[i]) == 0 {
      EvalSum(a, b, xs[i]);
      AddIsZero(Eval(a, xs[i]), Eval(b, xs[i]));
    }
    RootsForceZero(s, xs);
    forall i | 0 <= i < |a| ensures a[i] == b[i] {
      assert s[i] == 0;
      AddIsZero(a[i], b[i]);
    }
  }

  lemma SameByte(a: seq<Bytes>, b: seq<Bytes>, k: nat, p: nat, j: nat)
    requires |a| == |b| && k <= |a| && a[..k] == b[..k] && OnPolynomial(a, k, p) && OnPolynomial(b, k, p) && j < |a|
    ensures p < |a[j]| && p < |b[j]| && a[j][p] == b[j][p]
  {
    hide Eval;
    var c: Vector :| |c| == k && Interpolates(c, a, p);
    var d: Vector :| |d| == k && Interpolates(d, b, p);
    var xs := Points(k);
    PointsDistinct(k);
    forall i | 0 <= i < k ensures Eval(c, xs[i]) == Eval(d, xs[i]) {
      assert a[i] == a[..k][i] && b[i] == b[..k][i];
    }
    SamePolynomial(c, d, xs);
  }

  /** A code word is determined by its first k shards. */
  lemma CodeWordUnique(a: seq<Bytes>, b: seq<Bytes>, k: nat, size: nat)
    requires |a| == |b| && k <= |a| && a[..k] == b[..k]
    requires IsCodeWord(a, k, size) && IsCodeWord(b, k, size)
    ensures a == b
  {
    hide OnPolynomial;
    forall j | 0 <= j < |a| ensures a[j] == b[j] {
      forall p | 0 <= p < size ensures a[j][p] == b[j][p] {
        SameByte(a, b, k, p, j);
      }
    }
  }

  /** So every code word is what the encoder specifies for its first k shards. */
  lemma CodeWordIsEncoded(shards: seq<Bytes>, k: nat, size: nat)
    requires k <= |shards| <= MAX_SHARDS && IsCodeWord(shards, k, size)
    ensures forall j :: 0 <= j < |shards| ==> shards[j] == CodeShard(shards[..k], j, size)
  {
    hide CodeShard, OnPolynomial;
    var data := shards[..k];
    var coded := seq(|shards|, j requires 0 <= j < |shards| => if j < k then data[j] else CodeShard(data, j, size));
    assert coded[..k] == data;
    EncodedIsCodeWord(data, coded, size);
    CodeWordUnique(shards, coded, k, size);
    forall j | 0 <= j < |shards| ensures shards[j] == CodeShard(data, j, size) {
      assert shards[j] == coded[j];
      if j < k { DataShard(data, j, size); }
    }
  }

  /** Every shard that is present is the one of the code word. */
  ghost predicate PartOf(parts: Shards, shards: seq<Bytes>) {
    |parts| == |shards| && forall t :: 0 <= t < |parts| && parts[t].Some? ==> parts[t].value == shards[t]
  }

  lemma PartOfCodeWord(parts: Shards, shards: seq<Bytes>, k: nat, size: nat)
    requires k <= |shards| <= MAX_SHARDS && IsCodeWord(shards, k, size) && PartOf(parts, shards)
    ensures FromData(parts, shards[..k], size)
  {
    hide CodeShard, OnPolynomial;
    CodeWordIsEncoded(shards, k, size);
  }

  // ---------------------------------------------------------------- The closed form of a row

  /** The product of x + (l + 1) over all l < n other than i. */
  function Gaps(x: bv8, i: nat, n: nat): (r: bv8)
    requires n <= 255
  {
    if n == 0 then 1
    else if n - 1 == i then Gaps(x, i, n - 1)
    else Mul(Add(x, n as bv8), Gaps(x, i, n - 1))
  }

  /** p times (x + b), one coefficient longer. */
  function TimesLinear(p: Vector, b: bv8): (r: Vector)
    ensures |r| == |p| + 1
  {
    Sum([0] + p, Scaled(p, b) + [0])
  }

  lemma {:induction false} EvalScaled(p: Vector, b: bv8, x: bv8)
    ensures Eval(Scaled(p, b), x) == Mul(b, Eval(p, x))
  {
    hide Add, Mul;
    if p == [] {
      MulZero(b);
    } else {
      EvalScaled(p[1..], b, x);
      assert Scaled(p, b)[1..] == Scaled(p[1..], b);
      var r := Eval(p[1..], x);
      MulCommutes(p[0], b);
      MulAddRight(b, p[0], Mul(x, r));
      MulAssociates(x, b, r);
      MulAssociates(b, x, r);
      MulCommutes(x, b);
    }
  }

  lemma {:induction false} EvalPad(p: Vector, x: bv8)
    ensures Eval(p + [0], x) == Eval(p, x)
  {
    hide Add, Mul;
    if p == [] {
      MulZero(x);
      AddLaws(0, 0, 0);
      assert (p + [0])[1..] == [];
    } else {
      EvalPad(p[1..], x);
      assert (p + [0])[1..] == p[1..] + [0];
    }
  }

  lemma EvalTimesLinear(p: Vector, b: bv8, x: bv8)
    ensures Eval(TimesLinear(p, b), x) == Mul(Add(x, b), Eval(p, x))
  {
    hide Add, Mul;
    EvalSum([0] + p, Scaled(p, b) + [0], x);
    EvalPad(Scaled(p, b), x);
    EvalScaled(p, b, x);
    assert ([0] + p)[1..] == p;
    AddLaws(Mul(x, Eval(p, x)), 0, 0);
    MulAddLeft(x, b, Eval(p, x));
  }

  /** The polynomial whose values are Gaps. */
  function GapPolynomial(i: nat, n: nat): (p: Vector)
    requires n <= 255
    ensures |p| == if i < n then n else n + 1
  {
    if n == 0 then [1]
    else if n - 1 == i then GapPolynomial(i, n - 1)
    else TimesLinear(GapPolynomial(i, n - 1), n as bv8)
  }

  lemma {:induction false} GapValues(i: nat, n: nat, x: bv8)
    requires n <= 255
    ensures Eval(GapPolynomial(i, n), x) == Gaps(x, i, n)
  {
    hide Add, Mul, TimesLinear;
    if n == 0 {
      MulZero(x);
      AddLaws(1, 0, 0);
    } else {
      GapValues(i, n - 1, x);
      if n - 1 != i {
        EvalTimesLinear(GapPolynomial(i, n - 1), n as bv8, x);
      }
    }
  }

  /** Gaps vanishes at every point but i + 1. */
  lemma {:induction false} GapsVanish(i: nat, l: nat, n: nat)
    requires l < n <= 255 && l != i
    ensures Gaps((l + 1) as bv8, i, n) == 0
  {
    hide Add, Mul;
    var x := (l + 1) as bv8;
    if n - 1 == l {
      AddIsZero(x, n as bv8);
      MulZero(Gaps(x, i, n - 1));
    } else {
      GapsVanish(i, l, n - 1);
      MulZero(Add(x, n as bv8));
    }
  }

  /** Row j, entry i: its product with the gaps at i + 1 is the gaps at j + 1. */
  lemma GenRowClosedForm(k: nat, j: nat, i: nat)
    requires i < k <= MAX_SHARDS && j < MAX_SHARDS
    ensures Mul(GenRow(k, j)[i], Gaps((i + 1) as bv8, i, k)) == Gaps((j + 1) as bv8, i, k)
  {
    hide Mul, Eval, Gaps, GapPolynomial, GenRow, Through, Dot;
    var e, d := Unit(k, i), Gaps((i + 1) as bv8, i, k);
    var c, xs := Through(e), Points(k);
    PointsDistinct(k);
    forall l | 0 <= l < k ensures Eval(Scaled(c, d), xs[l]) == Eval(GapPolynomial(i, k), xs[l]) {
      ScaledUnitValue(k, i, l);
    }
    SamePolynomial(Scaled(c, d), GapPolynomial(i, k), xs);
    EvalScaled(c, d, (j + 1) as bv8);
    GapValues(i, k, (j + 1) as bv8);
    RowEvaluates(e, j);
    EntryOf(GenRow(k, j), i);
    MulCommutes(d, GenRow(k, j)[i]);
  }

  lemma ScaledUnitValue(k: nat, i: nat, l: nat)
    requires i < k <= MAX_SHARDS && l < k
    ensures var d := Gaps((i + 1) as bv8, i, k);
            Eval(Scaled(Through(Unit(k, i)), d), (l + 1) as bv8) == Eval(GapPolynomial(i, k), (l + 1) as bv8)
  {
    hide Mul, Eval, Gaps, GapPolynomial, Through;
    var d := Gaps((i + 1) as bv8, i, k);
    EvalScaled(Through(Unit(k, i)), d, (l + 1) as bv8);
    GapValues(i, k, (l + 1) as bv8);
    UnitValue(k, i, l);
    MulByOne(d);
    MulZero(d);
    if l != i { GapsVanish(i, l, k); }
  }

  lemma MulByOne(d: bv8)
    ensures Mul(d, 1) == d
  {
    hide Mul;
    MulOne(d);
    MulCommutes(d, 1);
  }

  /** The polynomial through a unit vector is 1 at its own point and 0 at the others. */
  lemma UnitValue(k: nat, i: nat, l: nat)
    requires i < k <= MAX_SHARDS && l < k
    ensures Eval(Through(Unit(k, i)), (l + 1) as bv8) == if l == i then 1 else 0
  {
    hide Eval, GenRow, Through, Dot;
    RowEvaluates(Unit(k, i), l);
    Systematic(k, l);
    DotUnit(Unit(k, l), Unit(k, i), l, k);
  }

  lemma EntryOf(row: Vector, i: nat)
    requires i < |row|
    ensures Dot(row, Unit(|row|, i), |row|) == row[i]
  {
    hide Dot;
    DotCommutes(row, Unit(|row|, i), |row|);
    DotUnit(Unit(|row|, i), row, i, |row|);
  }

  /** The parity row of two data shards. */
  lemma FirstParityRow()
    ensures GenRow(2, 2) == [244, 245]
  {
    hide GenRow;
    GenRowClosedForm(2, 2, 0);
    GenRowClosedForm(2, 2, 1);
    GapsOfTwo();
    MulCancel(3, GenRow(2, 2)[0], 244);
    MulCancel(3, GenRow(2, 2)[1], 245);
    MulCommutes(3, GenRow(2, 2)[0]);
    MulCommutes(3, GenRow(2, 2)[1]);
  }

  lemma GapsOfTwo()
    ensures Gaps(1, 0, 2) == 3 && Gaps(2, 1, 2) == 3 && Gaps(3, 0, 2) == 1 && Gaps(3, 1, 2) == 2
    ensures Mul(3, 244) == 1 && Mul(3, 245) == 2
  {
    MulCommutes(3, 244);
    MulCommutes(3, 245);
  }
}
