/** The log and anti-log tables of pkg/fec, and the table-driven field operations. */
module GaloisTables {
  import opened GaloisField
  import opened Common

  /** gfExp and gfLog, read-only once BuildTables has filled them. */
  datatype Tables = Tables(exp: seq<bv8>, log: seq<nat>)

  /** What the start-up loop establishes: exp[i] is the i-th power, log inverts it. */
  ghost predicate Valid(t: Tables) {
    && |t.exp| == 512 && |t.log| == 256
    && (forall i :: 0 <= i < 512 ==> t.exp[i] == Exp(i))
    && (forall a: bv8 :: a != 0 ==> t.log[Code(a)] == Log(a))
  }

  /** The loop's shift and conditional reduction, done in a wider word. */
  lemma ShiftReduce(x: bv16)
    requires x < 256
    ensures var y := x << (1 as bv8);
            var z := if y & 0x100 != 0 then y ^ 0x11d else y;
            z < 256 && z as bv8 == Xtime(x as bv8)
  {}

  method BuildTables() returns (t: Tables)
    ensures Valid(t)
  {
    hide Exp, Log, Code, Xtime;
    var exp := new bv8[512];
    var log := new nat[256](_ => 0);
    var x: bv16 := 1;
    ExpZero();
    var i := 0;
    while i < 255
      invariant 0 <= i <= 255 && x < 256 && x as bv8 == Exp(i)
      invariant forall j :: 0 <= j < i ==> exp[j] == Exp(j)
      invariant forall j :: 0 <= j < i ==> log[Code(Exp(j))] == j
    {
      forall j | 0 <= j < i ensures Code(Exp(j)) != Code(Exp(i)) {
        ExpDistinct(j, i);
        if Code(Exp(j)) == Code(Exp(i)) { CodeInjective(Exp(j), Exp(i)); }
      }
      exp[i] := x as bv8;
      log[Code(x as bv8)] := i;
      ShiftReduce(x);
      x := x << (1 as bv8);
      if x & 0x100 != 0 {
        x := x ^ 0x11d;
      }
      ExpStep(i);
      i := i + 1;
    }
    while i < 512
      invariant 255 <= i <= 512
      invariant forall j :: 0 <= j < i ==> exp[j] == Exp(j)
      invariant forall j :: 0 <= j < 255 ==> log[Code(Exp(j))] == j
    {
      exp[i] := exp[i - 255];
      ExpPeriod(i - 255);
      i := i + 1;
    }
    t := Tables(exp[..], log[..]);
    forall a: bv8 | a != 0 ensures t.log[Code(a)] == Log(a) {
      assert Exp(Log(a)) == a;
    }
  }

  /** gfMul is the field product. */
  function GfMul(t: Tables, a: bv8, b: bv8): (r: bv8)
    requires Valid(t)
    ensures r == Mul(a, b)
  {
    hide Mul, Exp, Log, Code;
    MulZero(a);
    MulZero(b);
    if a == 0 || b == 0 then 0
    else
      MulExp(Log(a), Log(b));
      t.exp[t.log[Code(a)] + t.log[Code(b)]]
  }

  /** gfInv is the multiplicative inverse. */
  function GfInv(t: Tables, a: bv8): (r: bv8)
    requires Valid(t) && a != 0
    ensures r != 0 && Mul(a, r) == 1 && Mul(r, a) == 1
  {
    hide Mul, Exp, Log, Code;
    InvExp(a);
    t.exp[255 - t.log[Code(a)]]
  }

  /** Repeated multiplication. */
  function Pow(b: bv8, e: nat): (r: bv8) {
    if e == 0 then 1 else Mul(b, Pow(b, e - 1))
  }

  lemma {:induction false} PowExp(b: bv8, e: nat)
    requires b != 0
    ensures Pow(b, e) == Exp(Log(b) * e)
  {
    hide Mul, Log;
    if e == 0 {
    } else {
      PowExp(b, e - 1);
      MulExp(Log(b), Log(b) * (e - 1));
      assert Log(b) + Log(b) * (e - 1) == Log(b) * e;
    }
  }

  /** gfPow is repeated multiplication, also for a zero base. */
  function GfPow(t: Tables, b: bv8, e: nat): (r: bv8)
    requires Valid(t)
    ensures r == Pow(b, e)
  {
    hide Mul, Exp, Log, Code;
    if e == 0 then 1
    else if b == 0 then MulZero(Pow(b, e - 1)); 0
    else
      PowExp(b, e);
      ExpMod(Log(b) * e);
      t.exp[(t.log[Code(b)] * e) % 255]
  }

  ghost predicate IsMulTable(table: seq<bv8>, c: bv8) {
    |table| == 256 && forall b: bv8 :: table[Code(b)] == Mul(c, b)
  }

  /** newMulTable: the 256 products of one constant. */
  method NewMulTable(t: Tables, c: bv8) returns (table: seq<bv8>)
    requires Valid(t)
    ensures IsMulTable(table, c)
  {
    hide Mul, Exp, Log, Code;
    var products := new bv8[256](_ => 0);
    if c == 0 {
      forall x: bv8 ensures Mul(c, x) == 0 { MulZero(x); }
      return products[..];
    }
    var la := t.log[Code(c)];
    forall x: bv8 | Code(x) == 0 ensures Mul(c, x) == 0 { CodeZero(x); MulZero(c); }
    var b := 1;
    while b < 256
      invariant 1 <= b <= 256
      invariant forall x: bv8 :: Code(x) < b ==> products[Code(x)] == Mul(c, x)
    {
      var y := b as bv8;
      CodeOfByte(b);
      MulExp(Log(c), Log(y));
      products[b] := t.exp[la + t.log[b]];
      forall x: bv8 | Code(x) == b ensures x == y { CodeInjective(x, y); }
      b := b + 1;
    }
    table := products[..];
  }
}
