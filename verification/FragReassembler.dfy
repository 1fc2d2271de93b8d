/** The receive side of pkg/node/frag.go as it runs: maps updated in place, counters kept beside them. */
module FragReassembler {
  import opened ErasureCode
  import opened FragmentWire
  import opened Fragmenter
  import opened Reassembly
  import opened ReassemblyRuns
  import opened Common
  import Codec

  /** The per-peer counters are exactly the numbers of live groups, with no zero entries. */
  ghost predicate CountersOk(counters: map<PeerId, int>, t: Table) {
    && (forall p :: p in counters <==> PeerCount(t, p) > 0)
    && (forall p :: p in counters ==> counters[p] == PeerCount(t, p))
  }

  /** Reading a Go map: a missing entry reads as zero. */
  function CountOf(counters: map<PeerId, int>, p: PeerId): (n: int) {
    if p in counters then counters[p] else 0
  }

  lemma CountersRemove(counters: map<PeerId, int>, t: Table, key: Key)
    requires CountersOk(counters, t) && key in t
    ensures var n := CountOf(counters, key.peer) - 1;
            n >= 0 && CountersOk(if n == 0 then counters - {key.peer} else counters[key.peer := n], t - {key})
  {
    hide PeerCount;
    forall p ensures PeerCount(t - {key}, p) == PeerCount(t, p) - (if key.peer == p then 1 else 0) {
      PeerCountRemove(t, key, p);
    }
  }

  lemma CountersAdd(counters: map<PeerId, int>, t: Table, key: Key, g: Group)
    requires CountersOk(counters, t) && key !in t
    ensures CountersOk(counters[key.peer := CountOf(counters, key.peer) + 1], t[key := g])
  {
    hide PeerCount;
    forall p ensures PeerCount(t[key := g], p) == PeerCount(t, p) + (if key.peer == p then 1 else 0) {
      PeerCountAdd(t, key, g, p);
    }
  }

  lemma CountersUpdate(counters: map<PeerId, int>, t: Table, key: Key, g: Group)
    requires CountersOk(counters, t) && key in t
    ensures CountersOk(counters, t[key := g])
  {
    hide PeerCount;
    forall p ensures PeerCount(t[key := g], p) == PeerCount(t, p) {
      PeerCountAdd(t, key, g, p);
    }
  }

  class FragReassembler {
    var bufs: Table
    var perPeerGroups: map<PeerId, int>
    const fec: Codec.Fec

    ghost predicate Valid()
      reads this, fec
    {
      fec.Valid() && TableOk(bufs) && CountersOk(perPeerGroups, bufs)
    }

    constructor (fec: Codec.Fec)
      requires fec.Valid()
      ensures Valid() && bufs == map[] && this.fec == fec
    {
      this.fec := fec;
      bufs, perPeerGroups := map[], map[];
    }

    /** dropGroupLocked: retires a group with its quota slot; missing keys are ignored. */
    method DropGroupLocked(key: Key)
      requires CountersOk(perPeerGroups, bufs)
      modifies this`bufs, this`perPeerGroups
      ensures CountersOk(perPeerGroups, bufs) && bufs == old(bufs) - {key}
    {
      hide CountersOk;
      if key !in bufs {
        return;
      }
      CountersRemove(perPeerGroups, bufs, key);
      bufs := bufs - {key};
      var n := CountOf(perPeerGroups, key.peer) - 1;
      perPeerGroups := if n <= 0 then perPeerGroups - {key.peer} else perPeerGroups[key.peer := n];
    }

    /** evictOldestGroup: some group with the earliest deadline goes. */
    method EvictOldestGroup() returns (victim: Key)
      requires CountersOk(perPeerGroups, bufs) && bufs != map[]
      modifies this`bufs, this`perPeerGroups
      ensures CountersOk(perPeerGroups, bufs)
      ensures Oldest(old(bufs), victim) && bufs == old(bufs) - {victim}
    {
      hide CountersOk;
      victim :| victim in bufs;
      var oldest := bufs[victim].deadline;
      var rest := bufs.Keys - {victim};
      while rest != {}
        invariant rest <= bufs.Keys && victim in bufs && oldest == bufs[victim].deadline
        invariant forall k :: k in bufs && k !in rest ==> oldest <= bufs[k].deadline
        decreases |rest|
      {
        var k :| k in rest;
        if bufs[k].deadline < oldest {
          oldest, victim := bufs[k].deadline, k;
        }
        rest := rest - {k};
      }
      CountersRemove(perPeerGroups, bufs, victim);
      bufs := bufs - {victim};
      var n := CountOf(perPeerGroups, victim.peer) - 1;
      perPeerGroups := if n == 0 then perPeerGroups - {victim.peer} else perPeerGroups[victim.peer := n];
    }

    /** reap: every expired group goes, and nothing else. */
    method ReapExpired(now: int)
      requires Valid()
      modifies this`bufs, this`perPeerGroups
      ensures Valid() && bufs == Reaped(old(bufs), now)
      ensures forall k :: k in bufs <==> k in old(bufs) && old(bufs)[k].deadline >= now
      ensures forall k :: k in bufs ==> bufs[k] == old(bufs)[k]
    {
      hide CountersOk, TableOk, Codec.Fec.Valid;
      var keys := bufs.Keys;
      while keys != {}
        invariant keys <= bufs.Keys && CountersOk(perPeerGroups, bufs)
        invariant SubTable(bufs, old(bufs))
        invariant forall k :: k in old(bufs) && !(old(bufs)[k].deadline < now) ==> k in bufs
        invariant forall k :: k in bufs && k !in keys ==> !(bufs[k].deadline < now)
        decreases |keys|
      {
        var k :| k in keys;
        if bufs[k].deadline < now {
          CountersRemove(perPeerGroups, bufs, k);
          bufs := bufs - {k};
          var n := CountOf(perPeerGroups, k.peer) - 1;
          perPeerGroups := if n == 0 then perPeerGroups - {k.peer} else perPeerGroups[k.peer := n];
        }
        keys := keys - {k};
      }
      SubTableOk(old(bufs), bufs);
      assert bufs == Reaped(old(bufs), now);
    }

    /** The parity branch of assembleLocked. */
    method RebuildLocked(g: Group) returns (r: Option<Bytes>)
      requires fec.Valid() && GroupCounts(g) && g.shape.fec && g.got < g.shape.total
      modifies fec`cache
      ensures fec.Valid() && r == Assemble(g)
    {
      hide Codec.Fec.Valid, GroupCap, StoredBytes, FrameLen, WantLen, Available, LengthsAgree;
      hide Rebuilt, PaddedParts, TrimmedData;
      var k := g.shape.dataParts;
      var shards := new Option<Bytes>[g.shape.total](_ => None);
      PadInto(shards, g);
      var error := fec.Reconstruct(shards, k, g.shape.total - k);
      if error.Some? {
        return None;
      }
      var parts := shards[..];
      var all := seq(|parts|, i requires 0 <= i < |parts| => parts[i].value);
      assert all == Rebuilt(PaddedParts(g.parts, g.shape.chunkSize), k);
      var out := TrimJoin(all, g.shape);
      return Some(out);
    }

    /** assembleLocked on a group that holds enough shards. */
    method AssembleLocked(g: Group) returns (r: Option<Bytes>)
      requires fec.Valid() && GroupCounts(g) && Ready(g)
      modifies fec`cache
      ensures fec.Valid() && r == Assemble(g)
    {
      hide Codec.Fec.Valid, GroupCap, StoredBytes, FrameLen, Rebuilt, Available;
      var k := g.shape.dataParts;
      if g.shape.fec && g.got < g.shape.total {
        r := RebuildLocked(g);
        return;
      }
      var out: Bytes := [];
      for i := 0 to k
        invariant fec.Valid() && out == Join(Values(g.parts), i)
      {
        out := out + Value(g.parts[i]);
      }
      r := Some(out);
    }

    /** The opening of a group: room first, then the peer's quota. */
    method OpenGroup(key: Key, s: Shape, now: int) returns (created: bool, ghost victim: Key)
      requires Valid() && ShapeOk(s) && s.total >= 2 && key !in bufs
      modifies this`bufs, this`perPeerGroups
      ensures CountersOk(perPeerGroups, bufs)
      ensures |old(bufs)| >= MAX_REASM_GROUPS ==> Oldest(old(bufs), victim)
      ensures created <==> key in bufs
      ensures var t := MakeRoom(old(bufs), victim);
              bufs == if PeerCount(t, key.peer) >= MAX_REASM_GROUPS_PER_PEER then t else t[key := NewGroup(s, now)]
    {
      hide CountersOk, TableOk, Codec.Fec.Valid, NewGroup, PeerCount, Oldest;
      victim := key;
      if |bufs| >= MAX_REASM_GROUPS {
        victim := EvictOldestGroup();
      }
      CountIs(perPeerGroups, bufs, key.peer);
      if CountOf(perPeerGroups, key.peer) >= MAX_REASM_GROUPS_PER_PEER {
        return false, victim;
      }
      CountersAdd(perPeerGroups, bufs, key, NewGroup(s, now));
      bufs := bufs[key := NewGroup(s, now)];
      perPeerGroups := perPeerGroups[key.peer := CountOf(perPeerGroups, key.peer) + 1];
      created := true;
    }

    /** Storing and, when complete, assembling: the tail of reassemble. */
    method DeliverLocked(key: Key, h: FragHeader) returns (frame: Option<Bytes>)
      requires fec.Valid() && CountersOk(perPeerGroups, bufs)
      requires HeaderOk(h) && key in bufs && GroupOk(bufs[key])
      modifies this`bufs, this`perPeerGroups, fec`cache
      ensures fec.Valid() && CountersOk(perPeerGroups, bufs)
      ensures Outcome(bufs, frame) == Deliver(old(bufs), key, h)
    {
      hide CountersOk, TableOk, Codec.Fec.Valid, GroupCounts, Assemble, HeaderOk;
      var rb := bufs[key];
      if rb.shape != h.shape {
        return None;
      }
      ghost var stored := Store(rb, h);
      if h.index < |rb.parts| && rb.parts[h.index].None? {
        if rb.size + |h.chunk| > rb.cap {
          DropGroupLocked(key);
          return None;
        }
        rb := rb.(size := rb.size + |h.chunk|, parts := rb.parts[h.index := Some(h.chunk)], got := rb.got + 1);
        CountersUpdate(perPeerGroups, bufs, key, rb);
        bufs := bufs[key := rb];
      }
      assert stored == Some(rb) && bufs == old(bufs)[key := rb];
      if rb.got < rb.shape.total && (!rb.shape.fec || rb.got < rb.shape.dataParts) {
        return None;
      }
      StoreKeepsCounts(old(bufs)[key], h);
      frame := AssembleLocked(rb);
      DropGroupLocked(key);
      assert bufs == old(bufs) - {key};
    }

    /** The locked part of reassemble, for a fragment of a group of two or more. */
    method AcceptLocked(key: Key, h: FragHeader, now: int) returns (frame: Option<Bytes>, ghost victim: Key)
      requires Valid() && HeaderOk(h) && h.shape.total >= 2
      modifies this`bufs, this`perPeerGroups, fec`cache
      ensures Valid()
      ensures EvictionOk(old(bufs), key, now, victim)
      ensures Outcome(bufs, frame) == Accept(old(bufs), key, h, now, victim)
    {
      hide CountersOk, TableOk, Codec.Fec.Valid, GroupOk, Oldest, HeaderOk;
      victim := key;
      ghost var t := bufs;
      if key in bufs && bufs[key].deadline < now {
        DropGroupLocked(key);
        SubTableOk(t, bufs);
      }
      assert bufs == WithoutStale(t, key, now);
      LayoutOk(h);
      if key !in bufs {
        var created;
        created, victim := OpenGroup(key, h.shape, now);
        AdmitKeeps(t, key, h.shape, now, victim);
        if !created {
          return None, victim;
        }
      }
      assert bufs == Admit(t, key, h.shape, now, victim);
      AdmitKeeps(t, key, h.shape, now, victim);
      LiveGroup(bufs, key);
      frame := DeliverLocked(key, h);
      AcceptKeeps(t, key, h, now, victim);
    }

    /**
      reassemble: (None, true) for a payload that is no fragment, otherwise exactly
      what Step defines; victim is the group that was evicted, if one was.  Only groups
      of the fragment's own peer, epoch and channel change, but for an eviction.
     */
    method Reassemble(remotePeer: PeerId, payload: Bytes, channel: nat, epoch: nat, now: int)
      returns (frame: Option<Bytes>, complete: bool, ghost victim: Key)
      requires Valid()
      modifies this`bufs, this`perPeerGroups, fec`cache
      ensures Valid()
      ensures var e := Arrive(remotePeer, payload, channel, epoch, now, victim);
              StepOk(old(bufs), e) && Outcome(bufs, frame) == Step(old(bufs), e)
      ensures |payload| < 12 || !(payload[..2] == [0xF5, 0xA1] || (payload[..2] == [0xF5, 0xA2] && |payload| >= 18)) ==>
                complete && frame == None && bufs == old(bufs) && perPeerGroups == old(perPeerGroups)
      ensures |payload| >= 12 && (payload[..2] == [0xF5, 0xA1] || (payload[..2] == [0xF5, 0xA2] && |payload| >= 18)) ==>
                (complete <==> frame.Some?)
      ensures forall k :: k in bufs && (k !in old(bufs) || bufs[k] != old(bufs)[k]) ==>
                k.peer == remotePeer && k.epoch == epoch && k.channel == channel
      ensures forall k :: k in old(bufs) && k !in bufs ==>
                || (k.peer == remotePeer && k.epoch == epoch && k.channel == channel)
                || (|old(bufs)| >= 1024
                    && forall j :: j in old(bufs) ==> old(bufs)[k].deadline <= old(bufs)[j].deadline)
      ensures forall k :: k in bufs && k !in old(bufs) ==> bufs[k].deadline == now + 5_000_000_000
    {
      hide CountersOk, TableOk, Codec.Fec.Valid, IsFragPayload, ParseFragHeader, OrigSeq, HeaderOk, EvictionOk, Accept;
      victim := Key(remotePeer, 0, epoch, channel);
      RecognisedIff(payload);
      if !IsFragPayload(payload) {
        return None, true, victim;
      }
      var parsed := ParseFragHeader(payload);
      if parsed.None? {
        return None, false, victim;
      }
      var h := parsed.value;
      LayoutOk(h);
      if h.shape.total == 1 {
        return Some(h.chunk), true, victim;
      }
      var key := Key(remotePeer, OrigSeq(payload), epoch, channel);
      frame, victim := AcceptLocked(key, h, now);
      complete := frame.Some?;
      ghost var t := old(bufs);
      forall k | k in bufs && (k !in t || bufs[k] != t[k])
        ensures k == key && (k !in t ==> bufs[k].deadline == now + 5_000_000_000)
      {
        AcceptChanges(t, key, h, now, victim, k);
      }
      forall k | k in t && k !in bufs
        ensures k == key || (|t| >= 1024 && forall j :: j in t ==> t[k].deadline <= t[j].deadline)
      {
        AcceptChanges(t, key, h, now, victim, k);
      }
    }
  }

  lemma LayoutOk(h: FragHeader)
    requires HeaderOk(h)
    ensures ShapeOk(h.shape) && h.shape.total >= 1
  {}

  /** What a fragment of key may do to group k: own groups aside, only the eviction of an oldest one. */
  ghost predicate OnlyOwnChanges(t: Table, t': Table, key: Key, now: int, k: Key) {
    && (k in t' && (k !in t || t'[k] != t[k]) ==> k == key)
    && (k in t && k !in t' ==> k == key || (|t| >= 1024 && forall j :: j in t ==> t[k].deadline <= t[j].deadline))
    && (k in t' && k !in t ==> t'[k].deadline == now + 5_000_000_000)
  }

  lemma AcceptChanges(t: Table, key: Key, h: FragHeader, now: int, victim: Key, k: Key)
    requires TableOk(t) && HeaderOk(h) && EvictionOk(t, key, now, victim)
    ensures OnlyOwnChanges(t, Accept(t, key, h, now, victim).table, key, now, k)
  {
    hide GroupOk, Assemble, Ready, PeerCount, GroupCap, FrameLen, WantLen;
    if Stale(t, key, now) {
      assert t.Keys == (t - {key}).Keys + {key};
    }
    var t' := Admit(t, key, h.shape, now, victim);
    if key in t' && Store(t'[key], h).Some? {
      StoreShape(t'[key], h);
    }
  }

  lemma LiveGroup(t: Table, key: Key)
    requires TableOk(t) && key in t
    ensures GroupOk(t[key])
  {}

  lemma CountIs(counters: map<PeerId, int>, t: Table, p: PeerId)
    requires CountersOk(counters, t)
    ensures CountOf(counters, p) == PeerCount(t, p)
  {}

  /** Joins the data shards, cutting the padding off the last one. */
  method TrimJoin(shards: seq<Bytes>, s: Shape) returns (out: Bytes)
    requires s.dataParts <= |shards|
    ensures out == Join(TrimmedData(shards, s), s.dataParts)
  {
    out := [];
    for i := 0 to s.dataParts
      invariant out == Join(TrimmedData(shards, s), i)
    {
      var sh := shards[i];
      var want := if i == s.dataParts - 1 then s.tailLen else s.chunkSize;
      if |sh| > want {
        sh := sh[..want];
      }
      out := out + sh;
    }
  }

  /** Copies the shards, padding the short last data shard. */
  method PadInto(shards: array<Option<Bytes>>, g: Group)
    requires GroupCounts(g) && g.shape.fec && shards.Length == g.shape.total
    requires forall i :: 0 <= i < shards.Length ==> shards[i].None?
    modifies shards
    ensures shards[..] == PaddedParts(g.parts, g.shape.chunkSize)
  {
    hide Available, StoredBytes, GroupCap, FrameLen;
    for i := 0 to |g.parts|
      invariant forall t :: 0 <= t < i ==> shards[t] == PaddedParts(g.parts, g.shape.chunkSize)[t]
      invariant forall t :: i <= t < shards.Length ==> shards[t].None?
    {
      if g.parts[i].Some? {
        var p := g.parts[i].value;
        if |p| == g.shape.chunkSize {
          shards[i] := Some(p);
        } else {
          shards[i] := Some(p + seq(g.shape.chunkSize - |p|, _ => 0));
        }
      }
    }
  }
}
