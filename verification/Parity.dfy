/** How many parity shards a striped frame gets (fecParityFor), and why that is enough. */
module Parity {
  import opened Generator

  const FEC_PARITY_PERCENT := 25

  /** How many of the shards 0..n-1 a round-robin stripe puts on path p. */
  ghost function ShardsOn(n: nat, paths: nat, p: nat): (c: nat)
    requires paths > 0
    ensures c <= n
  {
    if n == 0 then 0 else ShardsOn(n - 1, paths, p) + if (n - 1) % paths == p then 1 else 0
  }

  /** Whichever single path dies, dataParts of the n shards still arrive. */
  ghost predicate SurvivesLoss(dataParts: nat, n: nat, paths: nat)
    requires paths > 0
  {
    forall p :: 0 <= p < paths ==> n - ShardsOn(n, paths, p) >= dataParts
  }

  ghost predicate SurvivesAnyPath(dataParts: nat, parity: nat, paths: nat)
    requires paths > 0
  {
    SurvivesLoss(dataParts, dataParts + parity, paths)
  }

  /** The baseline redundancy: a quarter of the data shards, rounded up, at least one. */
  function Baseline(dataParts: nat): (r: nat) {
    var r := (dataParts * FEC_PARITY_PERCENT + 99) / 100;
    if r < 1 then 1 else r
  }

  /** The least number of which four times covers the data shards. */
  lemma BaselineQuarter(dataParts: nat)
    ensures dataParts <= 4 * Baseline(dataParts)
    ensures dataParts >= 1 ==> 4 * (Baseline(dataParts) - 1) < dataParts
  {}

  lemma OneMore(a: int, c: int)
    ensures (a + 1) * c == a * c + c
  {}

  lemma MulMonotone(a: int, b: int, c: nat)
    requires a <= b
    ensures a * c <= b * c
  {
    assert b * c == a * c + (b - a) * c;
    assert (b - a) * c >= 0;
  }

  lemma ModOf(q: nat, m: nat, paths: nat)
    requires m < paths
    ensures (q * paths + m) % paths == m
  {
    var x := q * paths + m;
    var d := x / paths;
    assert x == d * paths + x % paths;
    if d < q {
      MulMonotone(d + 1, q, paths);
    } else if d > q {
      MulMonotone(q + 1, d, paths);
    }
  }

  /** Full laps over the paths, and the position in the current lap. */
  ghost function Laps(n: nat, paths: nat): (r: (nat, nat))
    requires paths > 0
    ensures r.1 < paths
  {
    if n == 0 then (0, 0)
    else
      var (q, m) := Laps(n - 1, paths);
      if m + 1 < paths then (q, m + 1) else (q + 1, 0)
  }

  lemma {:induction false} LapsSum(n: nat, paths: nat)
    requires paths > 0
    ensures n == Laps(n, paths).0 * paths + Laps(n, paths).1
  {
    if n > 0 {
      LapsSum(n - 1, paths);
      OneMore(Laps(n - 1, paths).0, paths);
    }
  }

  lemma LapsMod(n: nat, paths: nat)
    requires paths > 0
    ensures n % paths == Laps(n, paths).1
  {
    LapsSum(n, paths);
    ModOf(Laps(n, paths).0, Laps(n, paths).1, paths);
  }

  lemma {:induction false} ShardsOnClosed(n: nat, paths: nat, p: nat)
    requires p < paths
    ensures ShardsOn(n, paths, p) == Laps(n, paths).0 + if p < Laps(n, paths).1 then 1 else 0
  {
    if n > 0 {
      ShardsOnClosed(n - 1, paths, p);
      LapsMod(n - 1, paths);
    }
  }

  /** Survival of one path comes down to one inequality. */
  lemma SurvivesIff(dataParts: nat, parity: nat, paths: nat)
    requires paths > 0
    ensures SurvivesAnyPath(dataParts, parity, paths) <==> dataParts <= (paths - 1) * parity
  {
    hide ShardsOn, Laps;
    var n := dataParts + parity;
    var (q, m) := Laps(n, paths);
    forall p | 0 <= p < paths ensures ShardsOn(n, paths, p) == q + if p < m then 1 else 0 {
      ShardsOnClosed(n, paths, p);
    }
    assert SurvivesAnyPath(dataParts, parity, paths) <==> ShardsOn(n, paths, 0) <= parity;
    LapsSum(n, paths);
    CeilingBound(q, m, paths, parity);
    OneFewer(paths, parity);
  }

  lemma OneFewer(paths: nat, parity: nat)
    requires paths > 0
    ensures (paths - 1) * parity == parity * paths - parity
  {}

  lemma CeilingBound(q: nat, m: nat, paths: nat, parity: nat)
    requires m < paths
    ensures q * paths + m <= parity * paths <==> q + (if 0 < m then 1 else 0) <= parity
  {
    if q < parity {
      MulMonotone(q + 1, parity, paths);
      assert (q + 1) * paths == q * paths + paths;
    } else {
      MulMonotone(parity, q, paths);
      if q > parity {
        MulMonotone(parity + 1, q, paths);
        assert (parity + 1) * paths == parity * paths + paths;
      }
    }
  }

  lemma CeilDiv(a: nat, b: nat, r: nat)
    requires b > 0
    ensures a <= b * r <==> (a + b - 1) / b <= r
  {
    var c := (a + b - 1) / b;
    assert b * c <= a + b - 1 < b * c + b;
    if c <= r {
      assert b * c <= b * r;
    } else {
      assert b * (r + 1) <= b * c;
    }
  }

  /**
    fecParityFor: the least parity at or above the baseline that survives any one
    path, or -1 exactly when even that needs more than 255 shards.
   */
  function FecParityFor(dataParts: nat, paths: int): (r: int)
    ensures dataParts < 2 ==> r == 0
    ensures dataParts >= 2 && r >= 0 ==> Baseline(dataParts) <= r && dataParts + r <= MAX_SHARDS
    ensures dataParts >= 2 && paths >= 2 && r >= 0 ==>
              && SurvivesAnyPath(dataParts, r, paths)
              && forall s :: Baseline(dataParts) <= s < r ==> !SurvivesAnyPath(dataParts, s, paths)
    ensures dataParts >= 2 && paths >= 2 && r < 0 ==>
              r == -1 && forall s ::
                Baseline(dataParts) <= s && SurvivesAnyPath(dataParts, s, paths) ==> dataParts + s > MAX_SHARDS
    ensures dataParts >= 2 && r >= 0 ==> 1 <= r && dataParts <= 4 * r && dataParts + r <= 255
    ensures dataParts >= 2 && paths < 2 && r >= 0 ==> 4 * (r - 1) < dataParts
    ensures dataParts >= 2 && paths < 2 ==>
              r == if dataParts + Baseline(dataParts) <= MAX_SHARDS then Baseline(dataParts) else -1
  {
    if dataParts < 2 then 0
    else
      var base := Baseline(dataParts);
      var need := if paths >= 2 then (dataParts + paths - 2) / (paths - 1) else 0;
      var r := if need > base then need else base;
      assert paths >= 2 ==> forall s: nat :: SurvivesAnyPath(dataParts, s, paths) <==> need <= s by {
        if paths >= 2 {
          forall s: nat ensures SurvivesAnyPath(dataParts, s, paths) <==> need <= s {
            SurvivesIff(dataParts, s, paths);
            CeilDiv(dataParts, paths - 1, s);
          }
        }
      }
      BaselineQuarter(dataParts);
      if dataParts + r > MAX_SHARDS then -1 else r
  }
}
