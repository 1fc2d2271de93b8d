/** What the receive side of pkg/node/frag.go does with one fragment, as a function. */
module Reassembly {
  import opened ErasureCode
  import opened FragmentWire
  import opened Fragmenter
  import opened Parity
  import opened Common

  datatype Key = Key(peer: PeerId, origSeq: nat, epoch: nat, channel: nat)

  datatype Group = Group(shape: Shape, parts: Shards, got: nat, size: nat, deadline: int, cap: nat)

  type Table = map<Key, Group>

  const MAX_REASM_GROUPS := 1024
  const MAX_REASM_GROUPS_PER_PEER := 64
  const REASM_TIMEOUT := 5_000_000_000  // nanoseconds

  // ---------------------------------------------------------------- One group

  /** The bytes a group may store: its data shards plus its parity shards. */
  function GroupCap(s: Shape): (n: nat)
    requires ShapeOk(s)
  {
    if s.fec then s.origLen + (s.total - s.dataParts) * s.chunkSize else MAX_REASM_BYTES
  }

  function NewGroup(s: Shape, now: int): (g: Group)
    requires ShapeOk(s)
  {
    Group(s, seq(s.total, _ => None), 0, 0, now + REASM_TIMEOUT, GroupCap(s))
  }

  /** Stores a chunk in its slot; None when that would exceed the cap. */
  function Store(g: Group, h: FragHeader): (r: Option<Group>) {
    if h.index < |g.parts| && g.parts[h.index].None? then
      if g.size + |h.chunk| > g.cap then None
      else Some(g.(parts := g.parts[h.index := Some(h.chunk)], got := g.got + 1, size := g.size + |h.chunk|))
    else Some(g)
  }

  predicate Ready(g: Group) {
    g.got >= g.shape.total || (g.shape.fec && g.got >= g.shape.dataParts)
  }

  function Value(part: Option<Bytes>): (b: Bytes) {
    if part.Some? then part.value else []
  }

  function Values(parts: Shards): (bs: seq<Bytes>)
    ensures |bs| == |parts|
  {
    seq(|parts|, i requires 0 <= i < |parts| => Value(parts[i]))
  }

  /** The shards as the codec wants them: all of the common length. */
  function PaddedParts(parts: Shards, size: nat): (r: Shards)
    ensures |r| == |parts|
  {
    seq(|parts|, i requires 0 <= i < |parts| => if parts[i].Some? then Some(Pad(parts[i].value, size)) else None)
  }

  function Trim(b: Bytes, n: nat): (r: Bytes) {
    if |b| > n then b[..n] else b
  }

  function TrimmedData(shards: seq<Bytes>, s: Shape): (r: seq<Bytes>)
    requires s.dataParts <= |shards|
    ensures |r| == s.dataParts
  {
    seq(s.dataParts, i requires 0 <= i < s.dataParts => Trim(shards[i], WantLen(s, i)))
  }

  /**
    assembleLocked: the frame, rebuilt from the survivors when shards are missing.
    A group always has its total slots, so the first test never succeeds.
   */
  ghost function Assemble(g: Group): (r: Option<Bytes>) {
    var k := g.shape.dataParts;
    if k > |g.parts| then None
    else if g.shape.fec && g.got < g.shape.total then
      var padded := PaddedParts(g.parts, g.shape.chunkSize);
      if Recoverable(padded, k) then Some(Join(TrimmedData(Rebuilt(padded, k), g.shape), k)) else None
    else Some(Join(Values(g.parts), k))
  }

  // ---------------------------------------------------------------- The table

  /** What processing a fragment leaves behind, and the frame it completed, if any. */
  datatype Outcome = Outcome(table: Table, frame: Option<Bytes>)

  predicate Stale(t: Table, key: Key, now: int) {
    key in t && t[key].deadline < now
  }

  /** A stale group is released before its key is used again. */
  function WithoutStale(t: Table, key: Key, now: int): (r: Table) {
    if Stale(t, key, now) then t - {key} else t
  }

  /** At the global limit, one group makes room. */
  function MakeRoom(t: Table, victim: Key): (r: Table) {
    if |t| >= MAX_REASM_GROUPS then t - {victim} else t
  }

  ghost predicate Oldest(t: Table, victim: Key) {
    victim in t && forall k :: k in t ==> t[victim].deadline <= t[k].deadline
  }

  ghost function PeerKeys(t: Table, p: PeerId): (s: set<Key>) {
    set k | k in t && k.peer == p
  }

  ghost function PeerCount(t: Table, p: PeerId): (n: nat) {
    |PeerKeys(t, p)|
  }

  /** The table in which the fragment's group exists, unless the peer is over its quota. */
  ghost function Admit(t: Table, key: Key, s: Shape, now: int, victim: Key): (r: Table)
    requires ShapeOk(s)
  {
    var t1 := WithoutStale(t, key, now);
    if key in t1 then t1
    else
      var t2 := MakeRoom(t1, victim);
      if PeerCount(t2, key.peer) >= MAX_REASM_GROUPS_PER_PEER then t2
      else t2[key := NewGroup(s, now)]
  }

  /** One fragment of a group, once the group exists. */
  ghost function Deliver(t: Table, key: Key, h: FragHeader): (r: Outcome)
    requires key in t
  {
    var g := t[key];
    if g.shape != h.shape then Outcome(t, None)
    else
      match Store(g, h)
      case None => Outcome(t - {key}, None)
      case Some(g') =>
        if Ready(g') then Outcome(t - {key}, Assemble(g')) else Outcome(t[key := g'], None)
  }

  /** The keyed part of reassemble, for a fragment of a group of two or more. */
  ghost function Accept(t: Table, key: Key, h: FragHeader, now: int, victim: Key): (r: Outcome)
    requires HeaderOk(h)
  {
    var t' := Admit(t, key, h.shape, now, victim);
    if key !in t' then Outcome(t', None) else Deliver(t', key, h)
  }

  // ---------------------------------------------------------------- Invariants

  /** The bytes held in the first n slots. */
  function StoredBytes(parts: Shards, n: nat): (b: nat)
    requires n <= |parts|
  {
    if n == 0 then 0 else StoredBytes(parts, n - 1) + |Value(parts[n - 1])|
  }

  /** The counters are exact and every stored shard has the length its slot calls for. */
  ghost predicate GroupCounts(g: Group) {
    && ShapeOk(g.shape) && 2 <= g.shape.total == |g.parts| && g.cap == GroupCap(g.shape)
    && g.got == |Available(g.parts, |g.parts|)|
    && g.size == StoredBytes(g.parts, |g.parts|) <= g.cap
    && (forall i :: 0 <= i < |g.parts| && g.parts[i].Some? ==>
          && 0 < |g.parts[i].value|
          && (g.shape.fec ==> |g.parts[i].value| == WantLen(g.shape, i)))
  }

  /** A live group: it holds fewer shards than would complete it, and at most one frame's bytes. */
  ghost predicate GroupOk(g: Group) {
    GroupCounts(g) && g.got < g.shape.dataParts && g.size <= MAX_REASM_BYTES
  }

  /** The whole table: every group is sound, and both limits hold. */
  ghost predicate TableOk(t: Table) {
    && (forall k :: k in t ==> GroupOk(t[k]))
    && |t| <= MAX_REASM_GROUPS
    && (forall p :: PeerCount(t, p) <= MAX_REASM_GROUPS_PER_PEER)
  }

  // ---------------------------------------------------------------- Keeping a group sound

  lemma {:induction false} StoreCounts(parts: Shards, i: nat, chunk: Bytes, n: nat)
    requires i < |parts| && parts[i].None? && n <= |parts|
    ensures var parts' := parts[i := Some(chunk)];
            && |Available(parts', n)| == |Available(parts, n)| + (if i < n then 1 else 0)
            && StoredBytes(parts', n) == StoredBytes(parts, n) + (if i < n then |chunk| else 0)
  {
    if n > 0 {
      StoreCounts(parts, i, chunk, n - 1);
    }
  }

  lemma AvailableStep(parts: Shards, n: nat)
    requires 0 < n <= |parts|
    ensures |Available(parts, n)| == |Available(parts, n - 1)| + if parts[n - 1].Some? then 1 else 0
  {}

  lemma {:induction false} EmptyCounts(parts: Shards, n: nat)
    requires n <= |parts| && forall i :: 0 <= i < n ==> parts[i].None?
    ensures |Available(parts, n)| == 0 && StoredBytes(parts, n) == 0
  {
    hide Available;
    if n > 0 {
      EmptyCounts(parts, n - 1);
      AvailableStep(parts, n);
    }
  }

  lemma NewGroupOk(s: Shape, now: int)
    requires ShapeOk(s) && s.total >= 2
    ensures GroupOk(NewGroup(s, now))
  {
    EmptyCounts(NewGroup(s, now).parts, s.total);
  }

  /** n shards of at most m bytes hold at most n*m bytes. */
  lemma {:induction false} BytesBound(parts: Shards, n: nat, m: nat)
    requires n <= |parts| && forall i :: 0 <= i < n && parts[i].Some? ==> |parts[i].value| <= m
    ensures StoredBytes(parts, n) <= |Available(parts, n)| * m
  {
    if n > 0 {
      BytesBound(parts, n - 1, m);
      var a := |Available(parts, n - 1)|;
      assert (a + 1) * m == a * m + m;
    }
  }

  lemma StoreKeepsCounts(g: Group, h: FragHeader)
    requires GroupOk(g) && HeaderOk(h) && h.shape == g.shape && Store(g, h).Some?
    ensures GroupCounts(Store(g, h).value)
    ensures Store(g, h).value.got <= g.shape.dataParts
  {
    hide Available, StoredBytes, GroupCap, WantLen, FrameLen;
    if g.parts[h.index].None? {
      StoreCounts(g.parts, h.index, h.chunk, |g.parts|);
    }
  }

  /** A group that is not complete after storing is sound again. */
  lemma StoreKeeps(g: Group, h: FragHeader)
    requires GroupOk(g) && HeaderOk(h) && h.shape == g.shape && Store(g, h).Some?
    ensures !Ready(Store(g, h).value) ==> GroupOk(Store(g, h).value)
    ensures Ready(Store(g, h).value) <==> Store(g, h).value.got == g.shape.dataParts
  {
    hide Store, FrameLen, WantLen, Available, StoredBytes;
    StoreKeepsCounts(g, h);
    var g' := Store(g, h).value;
    assert g'.shape == g.shape by { StoreShape(g, h); }
    if g'.shape.fec && g'.got < g'.shape.dataParts {
      FecBytes(g');
    }
  }

  lemma StoreShape(g: Group, h: FragHeader)
    requires Store(g, h).Some?
    ensures Store(g, h).value.shape == g.shape && Store(g, h).value.deadline == g.deadline
  {}

  lemma FewerShards(got: nat, k: nat, m: nat)
    requires got < k
    ensures got * m <= (k - 1) * m
  {
    MulMonotone(got, k - 1, m);
  }

  /** An incomplete parity group stores less than one frame, whatever its cap says. */
  lemma FecBytes(g: Group)
    requires GroupCounts(g) && g.shape.fec && g.got < g.shape.dataParts
    ensures g.size < g.shape.origLen <= MAX_REASM_BYTES
  {
    hide StoredBytes, Available, GroupCap;
    BytesBound(g.parts, |g.parts|, g.shape.chunkSize);
    FewerShards(g.got, g.shape.dataParts, g.shape.chunkSize);
  }

  // ---------------------------------------------------------------- Keeping the table sound

  lemma PeerCountRemove(t: Table, key: Key, p: PeerId)
    requires key in t
    ensures PeerCount(t - {key}, p) == PeerCount(t, p) - (if key.peer == p then 1 else 0)
  {
    assert PeerKeys(t - {key}, p) == PeerKeys(t, p) - {key};
  }

  lemma PeerCountAdd(t: Table, key: Key, g: Group, p: PeerId)
    ensures PeerCount(t[key := g], p) == PeerCount(t, p) + (if key.peer == p && key !in t then 1 else 0)
  {
    assert PeerKeys(t[key := g], p) == PeerKeys(t, p) + if key.peer == p then {key} else {};
  }

  ghost predicate SubTable(t': Table, t: Table) {
    forall k :: k in t' ==> k in t && t'[k] == t[k]
  }

  /** Dropping groups, for whatever reason, keeps the table sound. */
  lemma SubTableOk(t: Table, t': Table)
    requires TableOk(t) && SubTable(t', t)
    ensures TableOk(t')
  {
    hide GroupOk;
    assert t'.Keys <= t.Keys;
    SubsetSize(t'.Keys, t.Keys);
    forall p ensures PeerCount(t', p) <= MAX_REASM_GROUPS_PER_PEER {
      assert PeerKeys(t', p) <= PeerKeys(t, p);
      SubsetSize(PeerKeys(t', p), PeerKeys(t, p));
      assert PeerCount(t, p) <= MAX_REASM_GROUPS_PER_PEER;
    }
  }

  /** The evicted group exists whenever one has to go. */
  ghost predicate EvictionOk(t: Table, key: Key, now: int, victim: Key) {
    var t1 := WithoutStale(t, key, now);
    key !in t1 && |t1| >= MAX_REASM_GROUPS ==> Oldest(t1, victim)
  }

  lemma AdmitKeeps(t: Table, key: Key, s: Shape, now: int, victim: Key)
    requires TableOk(t) && ShapeOk(s) && s.total >= 2 && EvictionOk(t, key, now, victim)
    ensures TableOk(Admit(t, key, s, now, victim))
  {
    hide GroupOk, NewGroup, PeerCount;
    var t1 := WithoutStale(t, key, now);
    SubTableOk(t, t1);
    if key !in t1 {
      var t2 := MakeRoom(t1, victim);
      SubTableOk(t1, t2);
      assert |t2| < MAX_REASM_GROUPS;
      if PeerCount(t2, key.peer) < MAX_REASM_GROUPS_PER_PEER {
        NewGroupOk(s, now);
        var t3 := t2[key := NewGroup(s, now)];
        forall p ensures PeerCount(t3, p) <= MAX_REASM_GROUPS_PER_PEER {
          PeerCountAdd(t2, key, NewGroup(s, now), p);
        }
      }
    }
  }

  lemma ReplaceKeeps(t: Table, key: Key, g: Group)
    requires TableOk(t) && key in t && GroupOk(g)
    ensures TableOk(t[key := g])
  {
    hide GroupOk, PeerCount;
    var t' := t[key := g];
    assert t'.Keys == t.Keys;
    forall p ensures PeerCount(t', p) <= MAX_REASM_GROUPS_PER_PEER {
      PeerCountAdd(t, key, g, p);
    }
  }

  lemma DeliverKeeps(t: Table, key: Key, h: FragHeader)
    requires TableOk(t) && HeaderOk(h) && key in t
    ensures TableOk(Deliver(t, key, h).table)
  {
    assert GroupOk(t[key]);
    hide TableOk, GroupOk, Store, Assemble, Ready, HeaderOk;
    SubTableOk(t, t - {key});
    if t[key].shape == h.shape && Store(t[key], h).Some? {
      StoreKeeps(t[key], h);
      if !Ready(Store(t[key], h).value) {
        ReplaceKeeps(t, key, Store(t[key], h).value);
      }
    }
  }

  /** Every fragment, hostile or not, leaves the table sound. */
  lemma AcceptKeeps(t: Table, key: Key, h: FragHeader, now: int, victim: Key)
    requires TableOk(t) && HeaderOk(h) && h.shape.total >= 2 && EvictionOk(t, key, now, victim)
    ensures TableOk(Accept(t, key, h, now, victim).table)
  {
    hide TableOk, Admit, Deliver;
    AdmitKeeps(t, key, h.shape, now, victim);
    var t' := Admit(t, key, h.shape, now, victim);
    if key in t' {
      DeliverKeeps(t', key, h);
    }
  }

  // ---------------------------------------------------------------- Memory

  ghost function AnyKey(t: Table): (k: Key)
    requires t != map[]
    ensures k in t
  {
    var k :| k in t;
    k
  }

  /** All bytes buffered in the table. */
  ghost function TotalBytes(t: Table): (n: nat)
    decreases |t|
  {
    if t == map[] then 0 else t[AnyKey(t)].size + TotalBytes(t - {AnyKey(t)})
  }

  lemma RestSize(t: Table)
    requires t != map[]
    ensures |t| == |t - {AnyKey(t)}| + 1
  {
    var k := AnyKey(t);
    assert t.Keys == (t - {k}).Keys + {k};
  }

  lemma {:induction false} TotalBytesBound(t: Table, m: nat)
    requires forall k :: k in t ==> t[k].size <= m
    ensures TotalBytes(t) <= |t| * m
    decreases |t|
  {
    if t != map[] {
      hide AnyKey;
      var rest := t - {AnyKey(t)};
      TotalBytesBound(rest, m);
      RestSize(t);
      OneMore(|rest|, m);
    }
  }

  /** The receiver never buffers more than 1024 frames' worth of bytes. */
  lemma MemoryBound(t: Table)
    requires TableOk(t)
    ensures TotalBytes(t) <= MAX_REASM_GROUPS * MAX_REASM_BYTES
  {
    hide TotalBytes, GroupCounts;
    TotalBytesBound(t, MAX_REASM_BYTES);
  }

  // ---------------------------------------------------------------- Faithful groups

  /** Everything the group holds was cut from one sent frame. */
  ghost predicate GroupFrom(g: Group, s: Sent) {
    && g.shape == s.shape && |g.parts| == s.shape.total == |s.shards|
    && forall i :: 0 <= i < |g.parts| && g.parts[i].Some? ==> g.parts[i].value == s.shards[i]
  }

  lemma {:induction false} PaddedAvailable(parts: Shards, size: nat, n: nat)
    requires n <= |parts|
    ensures Available(PaddedParts(parts, size), n) == Available(parts, n)
  {
    hide Pad;
    if n > 0 {
      PaddedAvailable(parts, size, n - 1);
    }
  }

  lemma PaddedLengths(s: Sent)
    requires IsSent(s) && s.shape.fec
    ensures EqualLengths(PaddedData(s), s.shape.chunkSize)
  {
    hide Join, CodeShard, FrameLen;
  }

  /** The padded shards are shards of one code word. */
  lemma PaddedFromData(g: Group, s: Sent)
    requires IsSent(s) && s.shape.fec && GroupFrom(g, s)
    ensures FromData(PaddedParts(g.parts, s.shape.chunkSize), PaddedData(s), s.shape.chunkSize)
  {
    hide Join, CodeShard, FrameLen;
    var size, data := s.shape.chunkSize, PaddedData(s);
    var padded := PaddedParts(g.parts, size);
    PaddedLengths(s);
    forall i | 0 <= i < |padded| && padded[i].Some? ensures padded[i].value == CodeShard(data, i, size) {
      if i < s.shape.dataParts {
        DataShard(data, i, size);
      } else {
        assert |s.shards[i]| == size;
      }
    }
  }

  lemma {:induction false} JoinSame(a: seq<Bytes>, b: seq<Bytes>, n: nat)
    requires n <= |a| && n <= |b| && forall i :: 0 <= i < n ==> a[i] == b[i]
    ensures Join(a, n) == Join(b, n)
  {
    if n > 0 {
      JoinSame(a, b, n - 1);
    }
  }

  lemma TrimPad(b: Bytes, size: nat)
    ensures Trim(Pad(b, size), |b|) == b
  {}

  /** Rebuilding from enough shards returns the frame byte for byte. */
  lemma RebuildCorrect(g: Group, s: Sent)
    requires IsSent(s) && s.shape.fec && GroupFrom(g, s)
    requires |Available(g.parts, |g.parts|)| >= s.shape.dataParts
    ensures var padded := PaddedParts(g.parts, s.shape.chunkSize);
            && Recoverable(padded, s.shape.dataParts)
            && Join(TrimmedData(Rebuilt(padded, s.shape.dataParts), s.shape), s.shape.dataParts) == s.frame
  {
    hide Join, CodeShard, FrameLen, Rebuilt, Pad, Trim, WantLen, FromData, Available, Recoverable;
    var k, size, data := s.shape.dataParts, s.shape.chunkSize, PaddedData(s);
    var padded := PaddedParts(g.parts, size);
    PaddedFromData(g, s);
    PaddedAvailable(g.parts, size, |g.parts|);
    RebuiltCorrect(padded, data, size);
    PaddedLengths(s);
    var trimmed := TrimmedData(Rebuilt(padded, k), s.shape);
    forall i | 0 <= i < k ensures trimmed[i] == s.shards[i] {
      DataShard(data, i, size);
      TrimPad(s.shards[i], size);
    }
    JoinSame(trimmed, s.shards, k);
  }

  /** Whichever branch assembles a complete faithful group, the sent frame comes out. */
  lemma AssembleCorrect(g: Group, s: Sent)
    requires IsSent(s) && GroupFrom(g, s) && GroupCounts(g) && g.got >= s.shape.dataParts
    ensures Assemble(g) == Some(s.frame)
  {
    hide Join, CodeShard, FrameLen, Rebuilt, WantLen, Recoverable, Available, StoredBytes, GroupCap;
    if s.shape.fec && g.got < s.shape.total {
      RebuildCorrect(g, s);
    } else {
      AllAvailable(g.parts, |g.parts|);
      JoinSame(Values(g.parts), s.shards, s.shape.dataParts);
    }
  }
}
