/**
  What the erasure code means: the shards of a data set, and the shards that any k
  survivors determine.  Nothing here is computed by tables or elimination.
 */
module ErasureCode {
  import opened LinearAlgebra
  import opened Inversion
  import opened Generator
  import opened Common

  /** The p-th byte of every shard; a shard that ends before p contributes zero. */
  function PadColumn(shards: seq<Bytes>, p: nat): (c: Vector)
    ensures |c| == |shards|
  {
    seq(|shards|, i requires 0 <= i < |shards| => if p < |shards[i]| then shards[i][p] else 0)
  }

  /** row . shards, byte position by byte position. */
  function Combination(row: Vector, shards: seq<Bytes>, size: nat): (s: Bytes)
    requires |row| == |shards|
    ensures |s| == size
  {
    seq(size, p requires 0 <= p => Dot(row, PadColumn(shards, p), |row|))
  }

  /** Shard j of the code word of data: the plain product with generator row j. */
  ghost function CodeShard(data: seq<Bytes>, j: nat, size: nat): (s: Bytes)
    requires |data| <= MAX_SHARDS && j < MAX_SHARDS
    ensures |s| == size
  {
    Combination(GenRow(|data|, j), data, size)
  }

  ghost predicate EqualLengths(data: seq<Bytes>, size: nat) {
    forall i :: 0 <= i < |data| ==> |data[i]| == size
  }

  /** The code is systematic: the first k shards are the data. */
  lemma DataShard(data: seq<Bytes>, j: nat, size: nat)
    requires j < |data| <= MAX_SHARDS && EqualLengths(data, size)
    ensures CodeShard(data, j, size) == data[j]
  {
    hide Dot, GenRow;
    Systematic(|data|, j);
    forall p | 0 <= p < size ensures CodeShard(data, j, size)[p] == data[j][p] {
      DotUnit(Unit(|data|, j), PadColumn(data, p), j, |data|);
    }
  }

  // ---------------------------------------------------------------- Survivors

  type Shards = seq<Option<Bytes>>

  /** The numbers of the shards that are present among the first n, in order. */
  function Available(parts: Shards, n: nat): (idx: seq<nat>)
    requires n <= |parts|
    ensures |idx| <= n
    ensures forall i :: 0 <= i < |idx| ==> idx[i] < n && parts[idx[i]].Some?
    ensures forall i, j :: 0 <= i < j < |idx| ==> idx[i] < idx[j]
  {
    if n == 0 then []
    else Available(parts, n - 1) + if parts[n - 1].Some? then [n - 1] else []
  }

  /** Exactly the shards that are present are available. */
  lemma {:induction false} AvailableExactly(parts: Shards, n: nat, t: nat)
    requires n <= |parts|
    ensures t in Available(parts, n) <==> t < n && parts[t].Some?
  {
    if n > 0 {
      AvailableExactly(parts, n - 1, t);
    }
  }

  lemma {:induction false} AllAvailable(parts: Shards, n: nat)
    requires n <= |parts| && |Available(parts, n)| == n
    ensures forall i :: 0 <= i < n ==> parts[i].Some?
  {
    if n > 0 {
      AllAvailable(parts, n - 1);
    }
  }

  /** The length check of the decoder: a non-empty shard fixes every later length. */
  ghost predicate LengthsAgree(parts: Shards) {
    forall i, j :: 0 <= i < j < |parts| && parts[i].Some? && parts[j].Some? && parts[i].value != [] ==>
      |parts[j].value| == |parts[i].value|
  }

  /** The common length: that of the last shard present. */
  function ShardSize(parts: Shards): (size: nat) {
    if parts == [] then 0
    else if parts[|parts| - 1].Some? then |parts[|parts| - 1].value|
    else ShardSize(parts[..|parts| - 1])
  }

  ghost predicate Recoverable(parts: Shards, k: nat) {
    1 <= k <= |parts| <= MAX_SHARDS && |Available(parts, |parts|)| >= k && LengthsAgree(parts)
  }

  /** The first k survivors, which the decoder works from. */
  ghost function Chosen(parts: Shards, k: nat): (idx: seq<nat>)
    requires Recoverable(parts, k)
    ensures |idx| == k && DistinctRows(idx)
    ensures forall i :: 0 <= i < k ==> idx[i] < |parts| && parts[idx[i]].Some?
  {
    Available(parts, |parts|)[..k]
  }

  ghost function Survivors(parts: Shards, k: nat): (s: seq<Bytes>)
    requires Recoverable(parts, k)
    ensures |s| == k
  {
    var idx := Chosen(parts, k);
    seq(k, i requires 0 <= i < k => parts[idx[i]].value)
  }

  ghost function Decoder(parts: Shards, k: nat): (inv: Matrix)
    requires Recoverable(parts, k)
    ensures IsMatrix(inv, k, k) && IsInverse(GenRows(k, Chosen(parts, k)), inv, k)
  {
    AnyRowsIndependent(k, Chosen(parts, k));
    InverseOf(GenRows(k, Chosen(parts, k)), k)
  }

  /** The data shards: those present as they are, the others decoded from the survivors. */
  ghost function RebuiltData(parts: Shards, k: nat): (data: seq<Bytes>)
    requires Recoverable(parts, k)
    ensures |data| == k
  {
    seq(k, t requires 0 <= t < k =>
      if parts[t].Some? then parts[t].value
      else Combination(Decoder(parts, k)[t], Survivors(parts, k), ShardSize(parts)))
  }

  /** All shards: those present as they are, lost parity encoded again. */
  ghost function Rebuilt(parts: Shards, k: nat): (all: seq<Bytes>)
    requires Recoverable(parts, k)
    ensures |all| == |parts|
  {
    seq(|parts|, t requires 0 <= t < |parts| =>
      if parts[t].Some? then parts[t].value
      else if t < k then RebuiltData(parts, k)[t]
      else CodeShard(RebuiltData(parts, k), t, ShardSize(parts)))
  }

  /** Every shard that is present is the one the encoder produced for data. */
  ghost predicate FromData(parts: Shards, data: seq<Bytes>, size: nat) {
    && |data| <= |parts| <= MAX_SHARDS && EqualLengths(data, size)
    && forall i :: 0 <= i < |parts| && parts[i].Some? ==> parts[i].value == CodeShard(data, i, size)
  }

  lemma {:induction false} SizeOfAgreeing(parts: Shards, size: nat)
    requires forall i :: 0 <= i < |parts| && parts[i].Some? ==> |parts[i].value| == size
    ensures ShardSize(parts) == if Available(parts, |parts|) == [] then 0 else size
  {
    if parts != [] {
      var n := |parts| - 1;
      if !parts[n].Some? {
        SizeOfAgreeing(parts[..n], size);
        AvailablePrefix(parts, n);
      }
    }
  }

  lemma {:induction false} AvailablePrefix(parts: Shards, n: nat)
    requires n <= |parts|
    ensures Available(parts, n) == Available(parts[..n], n)
    decreases n
  {
    if n > 0 {
      AvailablePrefix(parts, n - 1);
      AvailablePrefix(parts[..n], n - 1);
      assert parts[..n][..n - 1] == parts[..n - 1];
    }
  }

  lemma FromDataRecoverable(parts: Shards, data: seq<Bytes>, size: nat)
    requires FromData(parts, data, size) && 1 <= |data| <= |Available(parts, |parts|)|
    ensures Recoverable(parts, |data|) && ShardSize(parts) == size
  {
    hide CodeShard;
    SizeOfAgreeing(parts, size);
  }

  /** Inverting the survivors' rows returns the data bytes at every position. */
  lemma DecodeColumn(parts: Shards, data: seq<Bytes>, size: nat, p: nat)
    requires FromData(parts, data, size) && Recoverable(parts, |data|) && p < size
    ensures Apply(Decoder(parts, |data|), PadColumn(Survivors(parts, |data|), p)) == PadColumn(data, p)
  {
    hide Dot, GenRow, Decoder, Chosen;
    var k := |data|;
    var idx := Chosen(parts, k);
    var rows, x := GenRows(k, idx), PadColumn(data, p);
    var y := PadColumn(Survivors(parts, k), p);
    forall i | 0 <= i < k ensures y[i] == Apply(rows, x)[i] {
      assert Survivors(parts, k)[i] == CodeShard(data, idx[i], size);
    }
    assert y == Apply(rows, x);
  }

  /** The repaired data is the data that was encoded. */
  lemma RebuiltDataCorrect(parts: Shards, data: seq<Bytes>, size: nat)
    requires FromData(parts, data, size) && 1 <= |data| <= |Available(parts, |parts|)|
    ensures Recoverable(parts, |data|) && RebuiltData(parts, |data|) == data
  {
    hide Dot, GenRow, Decoder, Survivors, CodeShard;
    var k := |data|;
    FromDataRecoverable(parts, data, size);
    forall t | 0 <= t < k ensures RebuiltData(parts, k)[t] == data[t] {
      if parts[t].Some? {
        DataShard(data, t, size);
      } else {
        var shard := Combination(Decoder(parts, k)[t], Survivors(parts, k), size);
        forall p | 0 <= p < size ensures shard[p] == data[t][p] {
          DecodeColumn(parts, data, size, p);
          assert Apply(Decoder(parts, k), PadColumn(Survivors(parts, k), p))[t] == PadColumn(data, p)[t];
        }
      }
    }
  }

  /** Any erasure that leaves k shards is repaired exactly, data and parity. */
  lemma RebuiltCorrect(parts: Shards, data: seq<Bytes>, size: nat)
    requires FromData(parts, data, size) && 1 <= |data| <= |Available(parts, |parts|)|
    ensures Recoverable(parts, |data|)
    ensures forall t :: 0 <= t < |parts| ==> Rebuilt(parts, |data|)[t] == CodeShard(data, t, size)
  {
    hide CodeShard, RebuiltData;
    FromDataRecoverable(parts, data, size);
    RebuiltDataCorrect(parts, data, size);
    forall t | 0 <= t < |parts| ensures Rebuilt(parts, |data|)[t] == CodeShard(data, t, size) {
      if t < |data| {
        DataShard(data, t, size);
      }
    }
  }
}
