/** The codec of pkg/fec: generator construction, table-driven encoding, reconstruction. */
module Codec {
  import opened GaloisField
  import opened GaloisTables
  import opened LinearAlgebra
  import opened Inversion
  import opened Polynomials
  import opened Generator
  import opened ErasureCode
  import opened ReedSolomon
  import opened Common

  /** A cached encoder: the generator and the product tables of its parity rows. */
  datatype Encoder = Encoder(g: Matrix, parityTables: seq<seq<Bytes>>)

  ghost predicate IsEncoder(c: Encoder, k: nat, r: nat)
    requires k + r <= MAX_SHARDS
  {
    && IsMatrix(c.g, k + r, k)
    && (forall j :: 0 <= j < k + r ==> c.g[j] == GenRow(k, j))
    && |c.parityTables| == r
    && (forall j :: 0 <= j < r ==> TablesOf(c.parityTables[j], c.g[k + j]))
  }

  ghost predicate TablesOf(tables: seq<Bytes>, row: Vector) {
    |tables| == |row| && forall i :: 0 <= i < |row| ==> IsMulTable(tables[i], row[i])
  }

  // ---------------------------------------------------------------- Building an encoder

  method BuildVandermonde(t: Tables, k: nat, n: nat) returns (f: Matrix)
    requires Valid(t) && n <= MAX_SHARDS
    ensures IsMatrix(f, n, k) && forall j :: 0 <= j < n ==> f[j] == PowerRow(Base(j), k)
    ensures forall j, i :: 0 <= j < n && 0 <= i < k ==> f[j][i] == Pow((j + 1) as bv8, i)
  {
    hide Valid, Pow;
    f := [];
    for j := 0 to n
      invariant IsMatrix(f, j, k) && forall l :: 0 <= l < j ==> f[l] == PowerRow(Base(l), k)
    {
      var row := new bv8[k];
      for i := 0 to k
        invariant forall l :: 0 <= l < i ==> row[l] == Pow(Base(j), l)
      {
        row[i] := GfPow(t, Base(j), i);
      }
      assert row[..] == PowerRow(Base(j), k);
      f := f + [row[..]];
    }
  }

  method MultiplyRow(t: Tables, u: Vector, m: Matrix, k: nat) returns (row: Vector)
    requires Valid(t) && |u| == k && IsMatrix(m, k, k)
    ensures row == RowTimes(u, m, k)
  {
    hide Valid, Mul, Add;
    var out := new bv8[k];
    for i := 0 to k
      invariant forall l :: 0 <= l < i ==> out[l] == Dot(u, Column(m, l), k)
    {
      var s: bv8 := 0;
      for l := 0 to k
        invariant s == Dot(u, Column(m, i), l)
      {
        s := Add(s, GfMul(t, u[l], m[l][i]));
      }
      out[i] := s;
    }
    row := out[..];
    assert row == RowTimes(u, m, k);
  }

  method BuildTablesOf(t: Tables, row: Vector) returns (tables: seq<Bytes>)
    requires Valid(t)
    ensures TablesOf(tables, row)
  {
    hide Valid, IsMulTable;
    tables := [];
    for i := 0 to |row|
      invariant |tables| == i && forall l :: 0 <= l < i ==> IsMulTable(tables[l], row[l])
    {
      var table := NewMulTable(t, row[i]);
      tables := tables + [table];
    }
  }

  /** The miss path of codecFor; the top Vandermonde block is never singular. */
  method BuildEncoder(t: Tables, k: nat, r: nat) returns (c: Encoder)
    requires Valid(t) && 1 <= k && k + r <= MAX_SHARDS
    ensures IsEncoder(c, k, r)
  {
    hide Valid, IsInverse, Regular, InKernel, RowTimes, PowerRow, Base, TablesOf;
    var n := k + r;
    var f := BuildVandermonde(t, k, n);
    var top := new Vector[k](i requires 0 <= i < k => f[i]);
    assert top[..] == Vandermonde(Upto(k), k);
    VandermondeRegular(Upto(k));
    var res := Invert(t, top);
    var inv := res.value;
    InverseUnique(Vandermonde(Upto(k), k), inv, TopInverse(k), k);
    var g: Matrix := [];
    for j := 0 to n
      invariant IsMatrix(g, j, k) && forall l :: 0 <= l < j ==> g[l] == GenRow(k, l)
    {
      var row := MultiplyRow(t, f[j], inv, k);
      g := g + [row];
    }
    var tables: seq<seq<Bytes>> := [];
    for j := 0 to r
      invariant |tables| == j && forall l :: 0 <= l < j ==> TablesOf(tables[l], g[k + l])
    {
      var rowTables := BuildTablesOf(t, g[k + j]);
      tables := tables + [rowTables];
    }
    c := Encoder(g, tables);
  }

  // ---------------------------------------------------------------- The inner loops

  /** out ^= table[src], the loop that every shard computation runs. */
  method XorTable(out: array<bv8>, table: Bytes, ghost c: bv8, src: Bytes)
    requires IsMulTable(table, c) && |src| <= out.Length
    modifies out
    ensures forall p :: 0 <= p < out.Length ==>
              out[p] == if p < |src| then Add(old(out[p]), Mul(c, src[p])) else old(out[p])
  {
    hide Mul, Add, Code;
    for p := 0 to |src|
      invariant forall q :: 0 <= q < out.Length ==>
                  out[q] == if q < p then Add(old(out[q]), Mul(c, src[q])) else old(out[q])
    {
      out[p] := Add(out[p], table[Code(src[p])]);
    }
  }

  /** What out holds after i terms. */
  ghost predicate Accumulated(out: array<bv8>, row: Vector, shards: seq<Bytes>, i: nat)
    requires i <= |row| == |shards|
    reads out
  {
    forall p :: 0 <= p < out.Length ==> out[p] == Dot(row, PadColumn(shards, p), i)
  }

  lemma SkipZero(out: array<bv8>, row: Vector, shards: seq<Bytes>, i: nat)
    requires i < |row| == |shards| && Accumulated(out, row, shards, i) && row[i] == 0
    ensures Accumulated(out, row, shards, i + 1)
  {
    hide Mul, Add;
    forall p | 0 <= p < out.Length ensures out[p] == Dot(row, PadColumn(shards, p), i + 1) {
      MulZero(PadColumn(shards, p)[i]);
      AddLaws(out[p], 0, 0);
    }
  }

  lemma AddTerm(before: Bytes, after: Bytes, row: Vector, shards: seq<Bytes>, i: nat)
    requires i < |row| == |shards| && |before| == |after|
    requires forall p :: 0 <= p < |before| ==> before[p] == Dot(row, PadColumn(shards, p), i)
    requires forall p :: 0 <= p < |after| ==>
               after[p] == if p < |shards[i]| then Add(before[p], Mul(row[i], shards[i][p])) else before[p]
    ensures forall p :: 0 <= p < |after| ==> after[p] == Dot(row, PadColumn(shards, p), i + 1)
  {
    hide Mul, Add;
    forall p | 0 <= p < |after| ensures after[p] == Dot(row, PadColumn(shards, p), i + 1) {
      MulZero(row[i]);
      AddLaws(before[p], 0, 0);
    }
  }

  /** One parity shard from its row's tables; zero coefficients are skipped. */
  method CombineWithTables(row: Vector, tables: seq<Bytes>, shards: seq<Bytes>, size: nat) returns (s: Bytes)
    requires |row| == |shards| && TablesOf(tables, row)
    requires forall i :: 0 <= i < |shards| ==> |shards[i]| <= size
    ensures s == Combination(row, shards, size)
  {
    hide Mul, Add, IsMulTable, PadColumn, Dot;
    var out := new bv8[size](_ => 0);
    assert Accumulated(out, row, shards, 0) by { AccumulatedNone(out, row, shards); }
    for i := 0 to |row|
      invariant Accumulated(out, row, shards, i)
    {
      if row[i] == 0 {
        SkipZero(out, row, shards, i);
      } else {
        ghost var before := out[..];
        XorTable(out, tables[i], row[i], shards[i]);
        AddTerm(before, out[..], row, shards, i);
      }
    }
    s := out[..];
  }

  lemma AccumulatedNone(out: array<bv8>, row: Vector, shards: seq<Bytes>)
    requires |row| == |shards| && forall p :: 0 <= p < out.Length ==> out[p] == 0
    ensures Accumulated(out, row, shards, 0)
  {}

  /** One lost data shard, with the tables built on the way. */
  method CombineTransient(t: Tables, row: Vector, shards: seq<Bytes>, size: nat) returns (s: Bytes)
    requires Valid(t) && |row| == |shards|
    requires forall i :: 0 <= i < |shards| ==> |shards[i]| <= size
    ensures s == Combination(row, shards, size)
  {
    hide Valid, Mul, Add, IsMulTable, PadColumn, Dot;
    var out := new bv8[size](_ => 0);
    assert Accumulated(out, row, shards, 0) by { AccumulatedNone(out, row, shards); }
    for i := 0 to |row|
      invariant Accumulated(out, row, shards, i)
    {
      if row[i] == 0 {
        SkipZero(out, row, shards, i);
      } else {
        var table := NewMulTable(t, row[i]);
        ghost var before := out[..];
        XorTable(out, table, row[i], shards[i]);
        AddTerm(before, out[..], row, shards, i);
      }
    }
    s := out[..];
  }

  // ---------------------------------------------------------------- Reading the survivors

  /** Every shard present is empty or size bytes long. */
  ghost predicate EmptyOr(parts: Shards, size: nat) {
    forall i :: 0 <= i < |parts| && parts[i].Some? ==> |parts[i].value| in {0, size}
  }

  /** The decoder's first loop: the shards present, their common length, or a mismatch. */
  method ScanShards(parts: Shards) returns (ok: bool, available: seq<nat>, size: nat)
    ensures ok <==> LengthsAgree(parts)
    ensures ok ==> available == Available(parts, |parts|) && size == ShardSize(parts) && EmptyOr(parts, size)
  {
    available, size := [], 0;
    for i := 0 to |parts|
      invariant LengthsAgree(parts[..i]) && EmptyOr(parts[..i], size)
      invariant available == Available(parts, i) && size == ShardSize(parts[..i])
      invariant size != 0 ==> exists j :: 0 <= j < i && parts[j].Some? && |parts[j].value| == size
    {
      assert parts[..i + 1][..i] == parts[..i];
      if parts[i].Some? {
        if size == 0 {
          size := |parts[i].value|;
        } else if |parts[i].value| != size {
          assert !LengthsAgree(parts);
          return false, available, size;
        }
        available := available + [i];
      }
    }
    assert parts[..|parts|] == parts;
    ok := true;
  }

  // ---------------------------------------------------------------- Encode and Reconstruct

  predicate CountsOk(k: int, r: int) {
    1 <= k && 0 <= r && k + r <= MAX_SHARDS
  }

  /** Some of the shards of the code word of data, for r parity shards. */
  ghost predicate ErasureOf(parts: Shards, data: seq<Bytes>, r: int, size: nat) {
    CountsOk(|data|, r) && |parts| == |data| + r && FromData(parts, data, size)
  }

  /** What the rebuilt shards of an erasure are. */
  lemma RepairsErasures(parts: Shards, k: int, r: int)
    ensures forall data: seq<Bytes>, size: nat ::
              ErasureOf(parts, data, r, size) && k == |data| && |Available(parts, |parts|)| >= k ==>
                && CountsOk(k, r) && |parts| == k + r && LengthsAgree(parts) && Recoverable(parts, k)
                && forall t :: 0 <= t < |parts| ==> Rebuilt(parts, k)[t] == CodeShard(data, t, size)
  {
    hide CodeShard, Rebuilt, Available, ShardSize, FromData;
    forall data: seq<Bytes>, size: nat |
      ErasureOf(parts, data, r, size) && k == |data| && |Available(parts, |parts|)| >= k
      ensures && CountsOk(k, r) && |parts| == k + r && LengthsAgree(parts) && Recoverable(parts, k)
              && forall t :: 0 <= t < |parts| ==> Rebuilt(parts, k)[t] == CodeShard(data, t, size)
    {
      RebuiltCorrect(parts, data, size);
    }
  }

  /** Some of the shards of a code word of k data and r parity shards. */
  ghost predicate ErasureOfWord(parts: Shards, shards: seq<Bytes>, k: int, r: int, size: nat) {
    1 <= k && 0 <= r && |shards| == k + r <= 255 && IsCodeWord(shards, k, size) && PartOf(parts, shards)
  }

  lemma RestoresCodeWords(parts: Shards, k: int, r: int)
    ensures forall shards: seq<Bytes>, size: nat ::
              ErasureOfWord(parts, shards, k, r, size) && |Available(parts, |parts|)| >= k ==>
                && CountsOk(k, r) && |parts| == k + r && LengthsAgree(parts) && Recoverable(parts, k)
                && forall t :: 0 <= t < |parts| ==> Rebuilt(parts, k)[t] == shards[t]
  {
    hide CodeShard, Rebuilt, Available, ShardSize, FromData, IsCodeWord;
    forall shards: seq<Bytes>, size: nat |
      ErasureOfWord(parts, shards, k, r, size) && |Available(parts, |parts|)| >= k
      ensures && CountsOk(k, r) && |parts| == k + r && LengthsAgree(parts) && Recoverable(parts, k)
              && forall t :: 0 <= t < |parts| ==> Rebuilt(parts, k)[t] == shards[t]
    {
      PartOfCodeWord(parts, shards, k, size);
      CodeWordIsEncoded(shards, k, size);
      RebuiltCorrect(parts, shards[..k], size);
    }
  }

  /** The package state: the field tables and the cache of encoders. */
  class Fec {
    const tables: Tables
    var cache: map<(nat, nat), Encoder>

    ghost predicate Valid()
      reads this
    {
      && GaloisTables.Valid(tables)
      && forall key :: key in cache ==> CountsOk(key.0, key.1) && IsEncoder(cache[key], key.0, key.1)
    }

    constructor ()
      ensures Valid() && cache == map[]
    {
      var t := BuildTables();
      tables := t;
      cache := map[];
    }

    /** codecFor: whatever the cache holds, the answer is the encoder of (k, r). */
    method CodecFor(k: int, r: int) returns (res: Result<Encoder, FecError>)
      requires Valid()
      modifies this`cache
      ensures Valid()
      ensures res.Ok? <==> CountsOk(k, r)
      ensures res.Ok? ==> IsEncoder(res.value, k, r) && cache == old(cache)[(k, r) := res.value]
      ensures res.Err? ==> res.error == TooManyShards && cache == old(cache)
    {
      hide IsEncoder, GaloisTables.Valid;
      if k <= 0 || r < 0 || k + r > MAX_SHARDS {
        return Err(TooManyShards);
      }
      if (k, r) in cache {
        return Ok(cache[(k, r)]);
      }
      var c := BuildEncoder(tables, k, r);
      cache := cache[(k, r) := c];
      return Ok(c);
    }

    /**
      Encode: data and parity together are a code word, byte by byte the values of one
      polynomial; the parity shards are the plain products with the parity rows.
     */
    method Encode(data: seq<Bytes>, r: int) returns (res: Result<seq<Bytes>, FecError>)
      requires Valid()
      modifies this`cache
      ensures Valid()
      ensures res.Ok? <==> 1 <= |data| && 0 <= r && |data| + r <= 255 && EqualLengths(data, |data[0]|)
      ensures !CountsOk(|data|, r) ==> res == Err(TooManyShards)
      ensures CountsOk(|data|, r) && !EqualLengths(data, |data[0]|) ==> res == Err(InvalidLayout)
      ensures CountsOk(|data|, r) && EqualLengths(data, |data[0]|) ==>
                && res.Ok? && |res.value| == r && IsCodeWord(data + res.value, |data|, |data[0]|)
                && forall j :: 0 <= j < r ==> res.value[j] == CodeShard(data, |data| + j, |data[0]|)
    {
      hide GaloisTables.Valid, GenRow, Combination, TablesOf, OnPolynomial;
      var k := |data|;
      var found := CodecFor(k, r);
      if found.Err? {
        return Err(found.error);
      }
      var c := found.value;
      var size := |data[0]|;
      for i := 0 to k
        invariant forall l :: 0 <= l < i ==> |data[l]| == size
      {
        if |data[i]| != size {
          return Err(InvalidLayout);
        }
      }
      var out: seq<Bytes> := [];
      for j := 0 to r
        invariant Valid() && |out| == j
        invariant forall l :: 0 <= l < j ==> out[l] == CodeShard(data, k + l, size)
      {
        var shard := CombineWithTables(c.g[k + j], c.parityTables[j], data, size);
        out := out + [shard];
      }
      assert (data + out)[..k] == data;
      EncodedIsCodeWord(data, data + out, size);
      return Ok(out);
    }

    /**
      Reconstruct: an error exactly on a bad layout or too few shards (never on a
      singular matrix), otherwise every shard as Rebuilt defines it.  From any k shards
      of a code word it restores the code word.
     */
    method Reconstruct(parts: array<Option<Bytes>>, k: int, r: int) returns (error: Option<FecError>)
      requires Valid()
      modifies this`cache, parts
      ensures Valid()
      ensures error == Some(InvalidLayout) <==>
                !CountsOk(k, r) || parts.Length != k + r || !LengthsAgree(old(parts[..]))
      ensures error == Some(NotEnoughShards) <==>
                && CountsOk(k, r) && parts.Length == k + r && LengthsAgree(old(parts[..]))
                && |Available(old(parts[..]), parts.Length)| < k
      ensures error in {None, Some(InvalidLayout), Some(NotEnoughShards)}
      ensures error.Some? ==> parts[..] == old(parts[..])
      ensures error.None? ==>
                && Recoverable(old(parts[..]), k)
                && forall t :: 0 <= t < parts.Length ==> parts[t] == Some(Rebuilt(old(parts[..]), k)[t])
      ensures forall data: seq<Bytes>, size: nat ::
                ErasureOf(old(parts[..]), data, r, size) && k == |data|
                && |Available(old(parts[..]), parts.Length)| >= k ==>
                  error == None && forall t :: 0 <= t < parts.Length ==> parts[t] == Some(CodeShard(data, t, size))
      ensures k < 1 || r < 0 || k + r > 255 || parts.Length != k + r ==> error == Some(InvalidLayout)
      ensures forall shards: seq<Bytes>, size: nat ::
                ErasureOfWord(old(parts[..]), shards, k, r, size)
                && |Available(old(parts[..]), parts.Length)| >= k ==>
                  error == None && forall t :: 0 <= t < parts.Length ==> parts[t] == Some(shards[t])
    {
      hide GaloisTables.Valid, IsEncoder, LengthsAgree, Available, ShardSize, RebuiltData, CodeShard;
      hide ErasureOf, ErasureOfWord;
      RepairsErasures(parts[..], k, r);
      RestoresCodeWords(parts[..], k, r);
      if k <= 0 || r < 0 || k + r > MAX_SHARDS || parts.Length != k + r {
        return Some(InvalidLayout);
      }
      var found := CodecFor(k, r);
      var c := found.value;
      ghost var before := parts[..];
      var ok, available, size := ScanShards(parts[..]);
      if !ok {
        return Some(InvalidLayout);
      }
      if |available| < k {
        return Some(NotEnoughShards);
      }
      if |available| == k + r {
        AllAvailable(before, k + r);
        return None;
      }
      var needDecode := false;
      for t := 0 to k
        invariant !needDecode ==> forall i :: 0 <= i < t ==> parts[i].Some?
      {
        needDecode := needDecode || parts[t].None?;
      }
      if needDecode {
        DecodeData(tables, c, parts, k, r, available[..k], size);
      } else {
        PresentData(before, k);
      }
      EncodeParity(c, before, parts, k, r, size);
      return None;
    }
  }

  lemma PresentData(parts: Shards, k: nat)
    requires Recoverable(parts, k) && forall i :: 0 <= i < k ==> parts[i].Some?
    ensures forall i :: 0 <= i < k ==> parts[i] == Some(RebuiltData(parts, k)[i])
  {}

  /** Recovers the missing data shards from the chosen survivors. */
  method DecodeData(t: Tables, c: Encoder, parts: array<Option<Bytes>>, k: nat, r: nat, rows: seq<nat>, size: nat)
    requires Valid(t) && CountsOk(k, r) && IsEncoder(c, k, r) && parts.Length == k + r
    requires Recoverable(parts[..], k) && rows == Chosen(parts[..], k)
    requires size == ShardSize(parts[..]) && EmptyOr(parts[..], size)
    modifies parts
    ensures forall i :: 0 <= i < k ==> parts[i] == Some(RebuiltData(old(parts[..]), k)[i])
    ensures forall i :: k <= i < k + r ==> parts[i] == old(parts[i])
  {
    hide Valid, IsEncoder, IsInverse, Regular, Combination, Available, Chosen, GenRow, ShardSize, LengthsAgree;
    var before := parts[..];
    var m := new Vector[k](i requires 0 <= i < k => []);
    for i := 0 to k
      invariant parts[..] == before && forall l :: 0 <= l < i ==> m[l] == GenRow(k, rows[l])
    {
      EncoderRow(c, k, r, rows[i]);
      m[i] := c.g[rows[i]];
    }
    assert m[..] == GenRows(k, rows);
    AnyRowsIndependent(k, rows);
    var res := Invert(t, m);
    var inv := res.value;
    InverseUnique(GenRows(k, rows), inv, Decoder(before, k), k);
    var survivors: seq<Bytes> := seq(k, i requires 0 <= i < k => before[rows[i]].value);
    assert survivors == Survivors(before, k);
    for l := 0 to k
      invariant forall i :: 0 <= i < l ==> parts[i] == Some(RebuiltData(before, k)[i])
      invariant forall i :: l <= i < k + r ==> parts[i] == before[i]
    {
      if parts[l].None? {
        var shard := CombineTransient(t, inv[l], survivors, size);
        parts[l] := Some(shard);
      }
    }
  }

  lemma EncoderRow(c: Encoder, k: nat, r: nat, j: nat)
    requires CountsOk(k, r) && IsEncoder(c, k, r) && j < k + r
    ensures |c.g| == k + r && |c.parityTables| == r && c.g[j] == GenRow(k, j)
    ensures k <= j ==> TablesOf(c.parityTables[j - k], c.g[j])
  {}

  /** Encodes the missing parity shards again, the data being complete. */
  method EncodeParity(c: Encoder, ghost before: Shards, parts: array<Option<Bytes>>, k: nat, r: nat, size: nat)
    requires CountsOk(k, r) && IsEncoder(c, k, r) && parts.Length == k + r == |before|
    requires Recoverable(before, k) && size == ShardSize(before) && EmptyOr(before, size)
    requires forall i :: 0 <= i < k ==> parts[i] == Some(RebuiltData(before, k)[i])
    requires forall i :: k <= i < k + r ==> parts[i] == before[i]
    modifies parts
    ensures forall i :: 0 <= i < k + r ==> parts[i] == Some(Rebuilt(before, k)[i])
  {
    hide IsEncoder, Combination, TablesOf, Recoverable, GenRow, ShardSize;
    var present := parts[..k];
    var data: seq<Bytes> := seq(k, i requires 0 <= i < k => present[i].value);
    assert data == RebuiltData(before, k);
    for t := k to k + r
      invariant forall i :: 0 <= i < t ==> parts[i] == Some(Rebuilt(before, k)[i])
      invariant forall i :: t <= i < k + r ==> parts[i] == before[i]
    {
      if parts[t].None? {
        EncoderRow(c, k, r, t);
        var shard := CombineWithTables(c.g[t], c.parityTables[t - k], data, size);
        parts[t] := Some(shard);
      }
    }
  }
}
