/** Sender and receiver of pkg/node/frag.go together: what FragmentForPaths cuts, Reassemble puts together. */
module FragmentExchange {
  import opened FragmentWire
  import opened Fragmenter
  import opened Parity
  import opened Reassembly
  import opened ReassemblyRuns
  import opened FragReassembler
  import opened Common
  import Codec

  /** Where nothing is evicted, the choice of a victim does not matter. */
  lemma VictimIrrelevant(t: Table, e: Event, victim: Key, key: Key, t0: int)
    requires OnlyKey(t, key, t0) && Carries(e, key)
    ensures Step(t, e) == Step(t, e.(victim := victim))
  {
    hide ParseFragHeader, IsFragPayload, OrigSeq, Deliver, PeerCount;
    OnlyKeySmall(t, key, t0, e.victim);
    OnlyKeySmall(t, key, t0, victim);
    SubsetSize((t - {key}).Keys, t.Keys);
  }

  /** The fragments that arrive, each at its time. */
  ghost predicate Window(times: seq<int>, t0: int) {
    forall i :: 0 <= i < |times| ==> t0 <= times[i] <= t0 + REASM_TIMEOUT
  }

  lemma DistinctGrows(idx: seq<nat>, n: nat)
    requires n < |idx|
    ensures |Distinct(idx[..n])| <= |Distinct(idx[..n + 1])| <= |Distinct(idx[..n])| + 1
    ensures |Distinct(idx[..n + 1])| <= |Distinct(idx)|
  {
    assert idx[..n + 1] == idx[..n] + [idx[n]];
    assert Distinct(idx[..n + 1]) == Distinct(idx[..n]) + {idx[n]};
    SubsetSize(Distinct(idx[..n]), Distinct(idx[..n + 1]));
    SubsetSize(Distinct(idx[..n + 1]), Distinct(idx));
  }

  /** One arrival of a feed at the receiver, in the state the feed has led to. */
  method ReceiveOne(rx: FragReassembler, ghost s: Sent, key: Key, payload: Bytes,
                    ghost idx: seq<nat>, ghost times: seq<int>, ghost t0: int, n: nat, now: int)
    returns (out: Option<Bytes>)
    requires rx.Valid() && IsSent(s) && key.origSeq < 0x1_0000_0000 && n < |idx| == |times|
    requires (forall i :: 0 <= i < |idx| ==> idx[i] < |s.shards|) && Window(times, t0)
    requires rx.bufs == TableAfter(Feed(s, key, idx, times), n) && now == times[n]
    requires payload == Envelope(s, key.origSeq, idx[n]) && |Distinct(idx[..n])| < s.shape.dataParts
    modifies rx`bufs, rx`perPeerGroups, rx.fec`cache
    ensures rx.Valid() && rx.bufs == TableAfter(Feed(s, key, idx, times), n + 1)
    ensures out == if |Distinct(idx[..n + 1])| == s.shape.dataParts then Some(s.frame) else None
  {
    hide FragReassembler.Valid, Codec.Fec.Valid, IsSent, TableAfter, Step, StepOk, Distinct, Envelope;
    var complete;
    ghost var victim;
    ghost var before := rx.bufs;
    ghost var es := Feed(s, key, idx, times);
    FedWithin(s, key, idx, times, t0, n);
    out, complete, victim := rx.Reassemble(key.peer, payload, key.channel, key.epoch, now);
    VictimIrrelevant(before, es[n], victim, key, t0);
    FeedDelivers(s, key, idx, times, t0, n);
    TableAfterStep(es, n);
  }

  lemma FedWithin(s: Sent, key: Key, idx: seq<nat>, times: seq<int>, t0: int, n: nat)
    requires IsSent(s) && key.origSeq < 0x1_0000_0000 && n < |idx| == |times|
    requires (forall i :: 0 <= i < |idx| ==> idx[i] < |s.shards|) && Window(times, t0)
    ensures var es := Feed(s, key, idx, times);
            OnlyKey(TableAfter(es, n), key, t0) && Carries(es[n], key)
            && es[n] == Arrive(key.peer, Envelope(s, key.origSeq, idx[n]), key.channel, key.epoch, times[n], key)
  {
    hide IsSent, TableAfter, OnlyKey, Carries, CutFrom, IndexOf, Envelope, Step, StepOk, Undisturbed;
    var es := Feed(s, key, idx, times);
    forall i | 0 <= i < |es| ensures Carries(es[i], key) && CutFrom(es[i].payload, key, s) {
      FeedHonest(s, key, idx, times, i);
    }
    FeedRuns(es, key, s, t0, n);
  }

  /** Fragments idx[0], idx[1], ... reach an empty receiver, until the frame comes out. */
  method ReceiveAll(rx: FragReassembler, ghost s: Sent, frags: seq<Bytes>, key: Key,
                    idx: seq<nat>, times: seq<int>, ghost t0: int)
    returns (out: Option<Bytes>)
    requires rx.Valid() && rx.bufs == map[]
    requires IsSent(s) && key.origSeq < 0x1_0000_0000 && frags == Envelopes(s, key.origSeq)
    requires |idx| == |times| && (forall i :: 0 <= i < |idx| ==> idx[i] < |frags|) && Window(times, t0)
    modifies rx`bufs, rx`perPeerGroups, rx.fec`cache
    ensures rx.Valid()
    ensures out == if |Distinct(idx)| >= s.shape.dataParts then Some(s.frame) else None
  {
    hide FragReassembler.Valid, Codec.Fec.Valid, IsSent, TableAfter, Distinct, Envelope, Feed;
    ghost var es := Feed(s, key, idx, times);
    NothingFed(s, es);
    assert idx[..0] == [];
    for n := 0 to |idx|
      invariant rx.Valid() && rx.bufs == TableAfter(es, n)
      invariant |Distinct(idx[..n])| < s.shape.dataParts
    {
      DistinctGrows(idx, n);
      out := ReceiveOne(rx, s, key, frags[idx[n]], idx, times, t0, n, times[n]);
      if out.Some? {
        return;
      }
    }
    assert idx[..|idx|] == idx;
    out := None;
  }

  lemma NothingFed(s: Sent, es: seq<Event>)
    requires IsSent(s)
    ensures TableAfter(es, 0) == map[] && |Distinct([])| < s.shape.dataParts
  {
    assert Distinct([]) == {};
  }

  /** The network's choice: which of total fragments arrive, in what order and how often. */
  ghost predicate IsNetwork(arrivals: nat -> seq<nat>) {
    forall total: nat, i: nat :: i < |arrivals(total)| ==> arrivals(total)[i] < total
  }

  /**
    Send and receive: whatever order, loss and duplication the network chooses within
    five seconds, a receivable fragmented frame comes out byte for byte exactly when as
    many distinct fragments arrive as it has data parts; with parity, the fragments of
    all paths but one suffice.  A frame that is not fragmented and does not look like a
    fragment passes through the receiver as it is.
   */
  method Exchange(tx: FragmentSender, rx: FragReassembler, packed: Bytes, maxPayload: int, pathCount: int,
                  from: PeerId, channel: nat, epoch: nat, arrivals: nat -> seq<nat>, clock: nat -> int, ghost t0: int)
    returns (out: Option<Bytes>, ghost sent: Sent)
    requires tx.Valid() && rx.Valid() && rx.bufs == map[] && IsNetwork(arrivals)
    requires forall i :: t0 <= clock(i) <= t0 + REASM_TIMEOUT
    modifies tx`seqGen, tx.fec`cache, rx`bufs, rx`perPeerGroups, rx.fec`cache
    ensures rx.Valid()
    ensures var size := PolicySize(|packed|, tx.defaultPayload, maxPayload, pathCount);
            size < |packed| <= MAX_SEALED_FRAME_SIZE && 256 <= size < 0x1_0000 ==>
              var got := Distinct(arrivals(sent.shape.total));
              && sent.shape.dataParts == PartCount(|packed|, size)
              && (sent.shape.fec <==>
                    pathCount >= 2 && |packed| > 16384 && FecParityFor(PartCount(|packed|, size), pathCount) > 0)
              && out == (if |got| >= sent.shape.dataParts then Some(packed) else None)
              && (forall p: nat :: sent.shape.fec && p < pathCount && OffPath(sent.shape.total, pathCount, p) <= got ==>
                    out == Some(packed))
    ensures |packed| <= PolicySize(|packed|, tx.defaultPayload, maxPayload, pathCount)
            && (|packed| < 2 || packed[..2] !in {[0xF5, 0xA1], [0xF5, 0xA2]}) ==>
              out == if arrivals(1) != [] then Some(packed) else None
  {
    hide Codec.Fec.Valid, TableOk, CountersOk, IsSent, Distinct, Envelope;
    hide SurvivesAnyPath, OffPath, PartCount;
    var frags, fragmented;
    frags, fragmented, sent := tx.FragmentForPaths(packed, true, maxPayload, pathCount);
    out := None;
    var size := PolicySize(|packed|, tx.defaultPayload, maxPayload, pathCount);
    if !fragmented {
      if arrivals(1) != [] {
        out := PassThrough(rx, frags[0], from, channel, epoch, clock(0));
      }
      return;
    }
    if |packed| > MAX_SEALED_FRAME_SIZE || size < 256 || size >= 0x1_0000 {
      return;
    }
    ReceivableShape(sent);
    var idx := arrivals(|frags|);
    var times := seq(|idx|, i requires 0 <= i < |idx| => clock(i));
    out := ReceiveAll(rx, sent, frags, Key(from, tx.seqGen, epoch, channel), idx, times, t0);
    forall p: nat | sent.shape.fec && p < pathCount && OffPath(sent.shape.total, pathCount, p) <= Distinct(idx)
      ensures |Distinct(idx)| >= sent.shape.dataParts
    {
      OffPathEnough(sent.shape.dataParts, sent.shape.total, pathCount, p);
      SubsetSize(OffPath(sent.shape.total, pathCount, p), Distinct(idx));
    }
  }

  /** What the caller makes of one payload: the frame it completes, or the payload itself. */
  method PassThrough(rx: FragReassembler, payload: Bytes, from: PeerId, channel: nat, epoch: nat, now: int)
    returns (out: Option<Bytes>)
    requires rx.Valid()
    modifies rx`bufs, rx`perPeerGroups, rx.fec`cache
    ensures rx.Valid()
    ensures |payload| < 2 || payload[..2] !in {[0xF5, 0xA1], [0xF5, 0xA2]} ==> out == Some(payload)
  {
    hide FragReassembler.Valid, Step, StepOk;
    var frame, complete;
    ghost var victim;
    frame, complete, victim := rx.Reassemble(from, payload, channel, epoch, now);
    if !complete {
      return None;
    }
    out := if frame.Some? then frame else Some(payload);
  }

  lemma OffPathEnough(dataParts: nat, total: nat, paths: nat, p: nat)
    requires dataParts <= total && p < paths && SurvivesAnyPath(dataParts, total - dataParts, paths)
    ensures |OffPath(total, paths, p)| >= dataParts
  {
    hide OffPath, ShardsOn;
    OffPathCount(total, paths, p);
    assert SurvivesLoss(dataParts, total, paths);
  }
}
