/**
  Arithmetic in GF(2^8) modulo the polynomial 0x11d, as pkg/fec uses it.

  Bytes are bit-vectors, addition is exclusive or, and `Mul` is the textbook
  shift-and-add product of polynomials.  It does not mention any table: the tables
  the codec computes at start-up are proved against it in module GaloisTables.
 */
module GaloisField {
  import opened Common

  /** Addition, which is its own inverse. */
  function Add(a: bv8, b: bv8): (r: bv8) {
    a ^ b
  }

  /** Multiplication by the generator 2: shift, then reduce by 0x11d on overflow. */
  function Xtime(a: bv8): (r: bv8) {
    (a << (1 as bv8)) ^ (if a & 0x80 != 0 then 0x1d else 0)
  }

  /** The product of two polynomials over GF(2), reduced modulo 0x11d. */
  function Mul(a: bv8, b: bv8): (r: bv8)
    decreases b
  {
    if b == 0 then 0
    else Add(if b & 1 == 1 then a else 0, Mul(Xtime(a), b >> (1 as bv8)))
  }

  /** The powers of the generator. */
  function Exp(i: nat): (r: bv8) {
    if i == 0 then 1 else Xtime(Exp(i - 1))
  }

  /** The powers of 2 below the overflow, and the reduction that fixes the polynomial x^8 + x^4 + x^3 + x^2 + 1. */
  lemma GeneratorPowers()
    ensures Exp(0) == 1 && Exp(1) == 2 && Exp(2) == 4 && Exp(3) == 8 && Exp(4) == 16 && Exp(5) == 32
    ensures Exp(6) == 64 && Exp(7) == 128 && Exp(8) == 0x1d && Mul(2, 128) == 0x1d
  {
    assert Exp(4) == 16;
    assert Exp(6) == 64;
    assert Exp(8) == 0x1d;
    MulCommutes(2, 128);
  }

  // ---------------------------------------------------------------- Add

  lemma AddLaws(a: bv8, b: bv8, c: bv8)
    ensures Add(a, b) == Add(b, a)
    ensures Add(Add(a, b), c) == Add(a, Add(b, c))
    ensures Add(a, 0) == a && Add(0, a) == a && Add(a, a) == 0
  {}

  lemma AddSwap(a: bv8, b: bv8, c: bv8, d: bv8)
    ensures Add(Add(a, b), Add(c, d)) == Add(Add(a, c), Add(b, d))
  {
    hide Add;
    AddLaws(a, b, Add(c, d));
    AddLaws(b, c, d);
    AddLaws(c, b, d);
    AddLaws(a, c, Add(b, d));
  }

  lemma AddIsZero(a: bv8, b: bv8)
    ensures Add(a, b) == 0 <==> a == b
  {}

  // ---------------------------------------------------------------- Xtime

  function XtimeLinear(a: bv8): bv8 {
    (a << (1 as bv8)) ^ (a >> (7 as bv8)) ^ ((a >> (7 as bv8)) << (2 as bv8))
    ^ ((a >> (7 as bv8)) << (3 as bv8)) ^ ((a >> (7 as bv8)) << (4 as bv8))
  }

  lemma XtimeIsLinear(a: bv8)
    ensures Xtime(a) == XtimeLinear(a)
  {}

  lemma XtimeLinearAdd(a: bv8, b: bv8)
    ensures XtimeLinear(Add(a, b)) == Add(XtimeLinear(a), XtimeLinear(b))
  {}

  lemma XtimeAdd(a: bv8, b: bv8)
    ensures Xtime(Add(a, b)) == Add(Xtime(a), Xtime(b))
  {
    hide Add, Xtime, XtimeLinear;
    XtimeIsLinear(a);
    XtimeIsLinear(b);
    XtimeIsLinear(Add(a, b));
    XtimeLinearAdd(a, b);
  }

  lemma XtimeZero(a: bv8)
    ensures Xtime(a) == 0 <==> a == 0
  {}

  lemma XtimeInjective(a: bv8, b: bv8)
    requires Xtime(a) == Xtime(b)
    ensures a == b
  {}

  // ---------------------------------------------------------------- Mul: the first laws

  lemma {:induction false} MulZero(a: bv8)
    ensures Mul(0, a) == 0 && Mul(a, 0) == 0
    decreases a
  {
    if a != 0 {
      MulZero(a >> (1 as bv8));
    }
  }

  lemma {:induction false} MulAddLeft(a: bv8, a': bv8, b: bv8)
    ensures Mul(Add(a, a'), b) == Add(Mul(a, b), Mul(a', b))
    decreases b
  {
    hide Add, Xtime;
    if b == 0 {
      AddLaws(0, 0, 0);
    } else {
      var h := b >> (1 as bv8);
      XtimeAdd(a, a');
      MulAddLeft(Xtime(a), Xtime(a'), h);
      if b & 1 == 1 {
        AddSwap(a, a', Mul(Xtime(a), h), Mul(Xtime(a'), h));
      } else {
        AddLaws(0, 0, 0);
        AddSwap(0, 0, Mul(Xtime(a), h), Mul(Xtime(a'), h));
      }
    }
  }

  lemma {:induction false} MulXtime(a: bv8, b: bv8)
    ensures Mul(Xtime(a), b) == Xtime(Mul(a, b))
    decreases b
  {
    hide Add, Xtime;
    XtimeZero(0);
    if b != 0 {
      var h := b >> (1 as bv8);
      MulXtime(Xtime(a), h);
      XtimeAdd(if b & 1 == 1 then a else 0, Mul(Xtime(a), h));
    }
  }

  /** The powers of the generator multiply by adding exponents. */
  lemma {:induction false} MulExp(i: nat, j: nat)
    ensures Mul(Exp(i), Exp(j)) == Exp(i + j)
  {
    hide Xtime, Mul;
    if i == 0 {
      MulOne(Exp(j));
    } else {
      MulExp(i - 1, j);
      MulXtime(Exp(i - 1), Exp(j));
    }
  }

  lemma MulOneStep(a: bv8, b: bv8, c: bv8)
    requires Mul(Xtime(a), b >> (1 as bv8)) == c
    ensures Mul(a, b) == Add(if b & 1 == 1 then a else 0, c)
  {
    hide Xtime;
    if b == 0 {
      assert b >> (1 as bv8) == 0;
      AddLaws(0, 0, 0);
    }
  }

  /** The generator's first eight powers are the single bits, so nothing is reduced. */
  lemma MulOneHigh(b: bv8)
    ensures Mul(0x10, b >> (4 as bv8)) == (b >> (4 as bv8)) << (4 as bv8)
  {
    hide Mul;
    MulZero(Xtime(0x80));
    MulOneStep(0x80, b >> (7 as bv8), 0);
    MulOneStep(0x40, b >> (6 as bv8), (b >> (7 as bv8)) << (7 as bv8));
    MulOneStep(0x20, b >> (5 as bv8), (b >> (6 as bv8)) << (6 as bv8));
    MulOneStep(0x10, b >> (4 as bv8), (b >> (5 as bv8)) << (5 as bv8));
  }

  lemma MulOne(b: bv8)
    ensures Mul(1, b) == b
  {
    hide Mul;
    MulOneHigh(b);
    MulOneStep(0x08, b >> (3 as bv8), (b >> (4 as bv8)) << (4 as bv8));
    MulOneStep(0x04, b >> (2 as bv8), (b >> (3 as bv8)) << (3 as bv8));
    MulOneStep(0x02, b >> (1 as bv8), (b >> (2 as bv8)) << (2 as bv8));
    MulOneStep(0x01, b, (b >> (1 as bv8)) << (1 as bv8));
  }

  // ---------------------------------------------------------------- The order of the generator

  /** The generator's cycle, walked eight steps at a time. */
  lemma Cycle()
    ensures Exp(15) != 1 && Exp(51) != 1 && Exp(85) != 1 && Exp(256) == 2
  {
    assert Exp(8) == 0x1d; assert Exp(16) == 0x4c; assert Exp(24) == 0x8f; assert Exp(32) == 0x9d;
    assert Exp(40) == 0x6a; assert Exp(48) == 0x46; assert Exp(56) == 0x5d; assert Exp(64) == 0x5f;
    assert Exp(72) == 0x65; assert Exp(80) == 0xfd; assert Exp(88) == 0xfe; assert Exp(96) == 0xd9;
    assert Exp(104) == 0x0d; assert Exp(112) == 0x81; assert Exp(120) == 0x3b; assert Exp(128) == 0x85;
    assert Exp(136) == 0x4f; assert Exp(144) == 0xa8; assert Exp(152) == 0x49; assert Exp(160) == 0xe6;
    assert Exp(168) == 0xfc; assert Exp(176) == 0xe3; assert Exp(184) == 0x95; assert Exp(192) == 0x82;
    assert Exp(200) == 0x1c; assert Exp(208) == 0x51; assert Exp(216) == 0xc3; assert Exp(224) == 0x12;
    assert Exp(232) == 0xf7; assert Exp(240) == 0x2c; assert Exp(248) == 0x1b; assert Exp(256) == 0x02;
  }

  lemma ExpPeriod(i: nat)
    ensures Exp(255) == 1 && Exp(i + 255) == Exp(i)
  {
    hide Mul, Xtime;
    Cycle();
    assert Xtime(1) == 2 by { XtimeOne(); }
    XtimeInjective(Exp(255), 1);
    MulExp(255, i);
    MulOne(Exp(i));
  }

  lemma XtimeOne()
    ensures Xtime(1) == 2
  {}

  lemma {:induction false} ExpMod(i: nat)
    ensures Exp(i) == Exp(i % 255)
  {
    if i >= 255 {
      hide Exp;
      ExpMod(i - 255);
      ExpPeriod(i - 255);
    }
  }

  lemma {:induction false} ExpNonZero(i: nat)
    ensures Exp(i) != 0
  {
    hide Xtime;
    if i > 0 {
      ExpNonZero(i - 1);
      XtimeZero(Exp(i - 1));
    }
  }

  lemma {:induction false} ExpCancel(i: nat, j: nat)
    requires i <= j && Exp(i) == Exp(j)
    ensures Exp(j - i) == 1
  {
    hide Xtime;
    if i > 0 {
      XtimeInjective(Exp(i - 1), Exp(j - 1));
      ExpCancel(i - 1, j - 1);
    }
  }

  lemma {:induction false} ExpOneMultiple(d: nat, n: nat)
    requires Exp(d) == 1
    ensures Exp(d * n) == 1
  {
    hide Exp, Mul;
    if n == 0 {
      assert Exp(0) == 1 by { ExpZero(); }
    } else {
      ExpOneMultiple(d, n - 1);
      assert d * n == d * (n - 1) + d;
      MulExp(d * (n - 1), d);
      MulOne(1);
    }
  }

  lemma ExpZero()
    ensures Exp(0) == 1
  {}

  lemma ExpStep(i: nat)
    ensures Exp(i + 1) == Xtime(Exp(i))
  {}

  lemma ExpRemainder(i: nat, j: nat)
    requires i <= j && Exp(i) == 1 && Exp(j) == 1
    ensures Exp(j - i) == 1
  {
    ExpCancel(i, j);
  }

  /** Subtractive Euclid: the exponents of 1 are closed under common divisors. */
  lemma {:induction false} ExpCommonDivisor(a: nat, b: nat) returns (g: nat, m: nat, n: nat)
    requires 0 < a && 0 < b && Exp(a) == 1 && Exp(b) == 1
    ensures 0 < g && a == g * m && b == g * n && Exp(g) == 1
    decreases a + b
  {
    hide Exp;
    if a == b {
      g, m, n := a, 1, 1;
    } else if a > b {
      ExpRemainder(b, a);
      g, m, n := ExpCommonDivisor(a - b, b);
      m := m + n;
    } else {
      ExpRemainder(a, b);
      g, m, n := ExpCommonDivisor(a, b - a);
      n := m + n;
    }
  }

  lemma SmallDivisorOf255(g: nat, m: nat)
    requires 0 < g < 16 && g * m == 255
    ensures g in {1, 3, 5, 15} && (g == 3 ==> m == 85) && (g == 5 ==> m == 51) && (g == 15 ==> m == 17)
  {
    assert g != 2 && g != 4 && g != 6 && g != 7 && g != 8 && g != 9;
    assert g != 10 && g != 11 && g != 12 && g != 13 && g != 14;
  }

  lemma DivisorBelow16(g: nat, m: nat)
    requires 16 <= g && 16 <= m
    ensures g * m > 255
  {
    assert g * m >= 16 * m;
  }

  /** No shorter cycle: a divisor of 255 below 255 divides 15, 51 or 85. */
  lemma OrderIs255(d: nat)
    requires 0 < d < 255
    ensures Exp(d) != 1
  {
    hide Exp;
    if Exp(d) == 1 {
      ExpPeriod(0);
      Cycle();
      var g, m, n := ExpCommonDivisor(255, d);
      assert m != 1;
      if g < 16 {
        SmallDivisorOf255(g, m);
        ExpOneMultiple(g, if g == 1 then 15 else if g == 3 then 5 else if g == 5 then 3 else 1);
      } else {
        if m >= 16 { DivisorBelow16(g, m); }
        SmallDivisorOf255(m, g);
        ExpOneMultiple(g, if m == 15 then 3 else 1);
      }
    }
  }

  lemma ExpDistinct(i: nat, j: nat)
    requires i < j < 255
    ensures Exp(i) != Exp(j)
  {
    hide Exp;
    OrderIs255(j - i);
    if Exp(i) == Exp(j) {
      ExpCancel(i, j);
    }
  }

  // ---------------------------------------------------------------- Discrete logarithms

  ghost predicate IsPower(x: int, n: nat) {
    exists i: nat :: i < n && Code(Exp(i)) == x
  }

  ghost function Powers(n: nat): (s: set<int>)
    ensures forall x :: x in s <==> IsPower(x, n)
  {
    if n == 0 then {} else
      hide Code, Exp;
      assert forall x :: IsPower(x, n) <==> IsPower(x, n - 1) || x == Code(Exp(n - 1));
      Powers(n - 1) + {Code(Exp(n - 1))}
  }

  lemma {:induction false} PowersCount(n: nat)
    requires n <= 255
    ensures |Powers(n)| == n
  {
    hide Exp, Code;
    if n > 0 {
      PowersCount(n - 1);
      var x := Code(Exp(n - 1));
      if IsPower(x, n - 1) {
        var i: nat :| i < n - 1 && Code(Exp(i)) == x;
        ExpDistinct(i, n - 1);
        CodeInjective(Exp(i), Exp(n - 1));
      }
    }
  }

  ghost function Interval(n: nat): (s: set<int>)
    ensures |s| == n && forall x :: x in s <==> 1 <= x <= n
  {
    if n == 0 then {} else Interval(n - 1) + {n}
  }

  lemma SubsetSameSize(a: set<int>, b: set<int>)
    requires a <= b && |a| == |b|
    ensures a == b
  {
    assert |b - a| + |a| == |b|;
    assert b == a + (b - a);
  }

  /** Every non-zero element is a power of the generator. */
  lemma ExpOnto(a: bv8)
    requires a != 0
    ensures exists i: nat :: i < 255 && Exp(i) == a
  {
    hide Exp, Code, Powers, Interval;
    forall x | x in Powers(255) ensures x in Interval(255) {
      var i: nat :| i < 255 && Code(Exp(i)) == x;
      ExpNonZero(i);
      CodeZero(Exp(i));
    }
    PowersCount(255);
    SubsetSameSize(Powers(255), Interval(255));
    CodeZero(a);
    assert Code(a) in Interval(255);
    assert IsPower(Code(a), 255);
    var i: nat :| i < 255 && Code(Exp(i)) == Code(a);
    CodeInjective(Exp(i), a);
  }

  /** The discrete logarithm. */
  ghost function Log(a: bv8): (i: nat)
    requires a != 0
    ensures i < 255 && Exp(i) == a
  {
    ExpOnto(a);
    var i: nat :| i < 255 && Exp(i) == a;
    i
  }

  // ---------------------------------------------------------------- The field laws

  lemma MulCommutes(a: bv8, b: bv8)
    ensures Mul(a, b) == Mul(b, a)
  {
    hide Mul, Exp, Log;
    MulZero(a);
    MulZero(b);
    if a != 0 && b != 0 {
      MulExp(Log(a), Log(b));
      MulExp(Log(b), Log(a));
    }
  }

  lemma MulAssociates(a: bv8, b: bv8, c: bv8)
    ensures Mul(Mul(a, b), c) == Mul(a, Mul(b, c))
  {
    hide Mul, Exp, Log;
    if a != 0 && b != 0 && c != 0 {
      MulAssociatesExp(Log(a), Log(b), Log(c));
    } else {
      MulZero(a);
      MulZero(b);
      MulZero(c);
      MulZero(Mul(b, c));
      MulZero(Mul(a, b));
    }
  }

  lemma MulAssociatesExp(i: nat, j: nat, k: nat)
    ensures Mul(Mul(Exp(i), Exp(j)), Exp(k)) == Mul(Exp(i), Mul(Exp(j), Exp(k)))
  {
    hide Mul, Exp;
    MulExp(i, j);
    MulExp(j, k);
    MulExp(i + j, k);
    MulExp(i, j + k);
  }

  lemma MulAddRight(a: bv8, b: bv8, c: bv8)
    ensures Mul(a, Add(b, c)) == Add(Mul(a, b), Mul(a, c))
  {
    hide Mul, Add;
    MulCommutes(a, Add(b, c));
    MulAddLeft(b, c, a);
    MulCommutes(a, b);
    MulCommutes(a, c);
  }

  lemma MulNonZero(a: bv8, b: bv8)
    ensures Mul(a, b) == 0 <==> a == 0 || b == 0
  {
    hide Mul, Exp, Log;
    MulZero(a);
    MulZero(b);
    if a != 0 && b != 0 {
      MulExp(Log(a), Log(b));
      ExpNonZero(Log(a) + Log(b));
    }
  }

  /** The inverse of g^i is g^(255-i). */
  lemma InvExp(a: bv8)
    requires a != 0
    ensures var r := Exp(255 - Log(a)); r != 0 && Mul(a, r) == 1 && Mul(r, a) == 1
  {
    hide Mul, Exp, Log;
    MulExp(Log(a), 255 - Log(a));
    MulExp(255 - Log(a), Log(a));
    ExpPeriod(0);
    ExpNonZero(255 - Log(a));
  }
}
