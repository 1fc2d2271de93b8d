/**
  Whole runs of the reassembler: any interleaving of fragments of any peers,
  channels, epochs and sequence numbers, hostile ones included, with expiry,
  eviction and reaping.
 */
module ReassemblyRuns {
  import opened ErasureCode
  import opened FragmentWire
  import opened Fragmenter
  import opened Reassembly
  import opened Parity
  import opened Common

  /** One call into the reassembler; victim is the group an eviction would take. */
  datatype Event =
    | Arrive(peer: PeerId, payload: Bytes, channel: nat, epoch: nat, now: int, victim: Key)
    | Reap(now: int)

  function KeyOf(e: Event): (k: Key)
    requires e.Arrive? && IsFragPayload(e.payload)
  {
    Key(e.peer, OrigSeq(e.payload), e.epoch, e.channel)
  }

  /** The groups a reap leaves. */
  ghost function Reaped(t: Table, now: int): (r: Table) {
    map k | k in t && !(t[k].deadline < now) :: t[k]
  }

  /** reassemble or reap, as a function of the table. */
  ghost function Step(t: Table, e: Event): (r: Outcome) {
    match e
    case Reap(now) => Outcome(Reaped(t, now), None)
    case Arrive(_, payload, _, _, now, victim) =>
      if !IsFragPayload(payload) then Outcome(t, None)
      else
        match ParseFragHeader(payload)
        case None => Outcome(t, None)
        case Some(h) =>
          if h.shape.total == 1 then Outcome(t, Some(h.chunk)) else Accept(t, KeyOf(e), h, now, victim)
  }

  /** When opening a group evicts one, it is one with the earliest deadline. */
  ghost predicate StepOk(t: Table, e: Event) {
    e.Arrive? && IsFragPayload(e.payload) ==>
      var h := ParseFragHeader(e.payload);
      h.Some? && h.value.shape.total > 1 ==> EvictionOk(t, KeyOf(e), e.now, e.victim)
  }

  /** A run from the empty table: the tables before and after each event. */
  ghost predicate IsRun(states: seq<Table>, es: seq<Event>) {
    && |states| == |es| + 1 && states[0] == map[]
    && forall i :: 0 <= i < |es| ==> StepOk(states[i], es[i]) && states[i + 1] == Step(states[i], es[i]).table
  }

  lemma StepKeeps(t: Table, e: Event)
    requires TableOk(t) && StepOk(t, e)
    ensures TableOk(Step(t, e).table)
  {
    hide TableOk, Accept, EvictionOk, ParseFragHeader, IsFragPayload;
    if e.Reap? {
      SubTableOk(t, Reaped(t, e.now));
    } else if IsFragPayload(e.payload) && ParseFragHeader(e.payload).Some? {
      var h := ParseFragHeader(e.payload).value;
      if h.shape.total > 1 {
        AcceptKeeps(t, KeyOf(e), h, e.now, e.victim);
      }
    }
  }

  /** Every reachable table is sound: exact counters, incomplete groups, both quotas. */
  lemma {:induction false} ReachableOk(states: seq<Table>, es: seq<Event>, n: nat)
    requires IsRun(states, es) && n <= |es|
    ensures TableOk(states[n])
  {
    hide Step, StepOk, GroupOk;
    if n > 0 {
      ReachableOk(states, es, n - 1);
      StepKeeps(states[n - 1], es[n - 1]);
    }
  }

  /** Every reachable table stays within the memory bound. */
  lemma ReachableMemory(states: seq<Table>, es: seq<Event>, n: nat, p: PeerId)
    requires IsRun(states, es) && n <= |es|
    ensures TotalBytes(states[n]) <= 1024 * 65551 && |states[n]| <= 1024
    ensures |set k | k in states[n] && k.peer == p| <= 64
  {
    ReachableOk(states, es, n);
    assert PeerCount(states[n], p) <= 64;
    assert PeerKeys(states[n], p) == set k | k in states[n] && k.peer == p;
    MemoryBound(states[n]);
  }

  /** After a reap no expired group is left, and every other group is as it was. */
  lemma ReapExact(t: Table, now: int, key: Key)
    ensures var t' := Step(t, Reap(now)).table;
            && (key in t' <==> key in t && t[key].deadline >= now)
            && (key in t' ==> t'[key] == t[key])
  {}

  // ---------------------------------------------------------------- One key

  ghost predicate Carries(e: Event, key: Key) {
    e.Arrive? && IsFragPayload(e.payload) && KeyOf(e) == key
  }

  /** Every fragment carrying the key was cut from s. */
  ghost predicate Honest(es: seq<Event>, key: Key, s: Sent) {
    forall i :: 0 <= i < |es| && Carries(es[i], key) ==> CutFrom(es[i].payload, key, s)
  }

  ghost predicate CutFrom(payload: Bytes, key: Key, s: Sent) {
    exists j :: 0 <= j < |s.shards| && payload == Envelope(s, key.origSeq, j)
  }

  lemma AcceptOther(t: Table, other: Key, h: FragHeader, now: int, victim: Key, key: Key)
    requires HeaderOk(h) && other != key
    ensures var t' := Accept(t, other, h, now, victim).table; key in t' ==> key in t && t'[key] == t[key]
  {
    hide Store, Assemble, NewGroup, Ready, PeerCount, HeaderOk;
  }

  /** An event of another key, or a reap, leaves the key's group alone or removes it whole. */
  lemma OtherStep(t: Table, e: Event, key: Key)
    requires !Carries(e, key)
    ensures var t' := Step(t, e).table; key in t' ==> key in t && t'[key] == t[key]
  {
    hide ParseFragHeader, IsFragPayload, OrigSeq, Accept, HeaderOk;
    if e.Arrive? && IsFragPayload(e.payload) && ParseFragHeader(e.payload).Some? {
      AcceptOther(t, KeyOf(e), ParseFragHeader(e.payload).value, e.now, e.victim, key);
    }
  }

  ghost function Slots(g: Group): (s: set<int>) {
    set i | 0 <= i < |g.parts| && g.parts[i].Some?
  }

  ghost function SlotsBelow(parts: Shards, n: nat): (s: set<int>)
    requires n <= |parts|
  {
    set i | 0 <= i < n && parts[i].Some?
  }

  lemma {:induction false} SlotsCount(parts: Shards, n: nat)
    requires n <= |parts|
    ensures |SlotsBelow(parts, n)| == |Available(parts, n)|
  {
    hide Available;
    if n > 0 {
      SlotsCount(parts, n - 1);
      AvailableStep(parts, n);
      assert SlotsBelow(parts, n) == SlotsBelow(parts, n - 1) + if parts[n - 1].Some? then {n - 1} else {};
    } else {
      assert SlotsBelow(parts, 0) == {};
    }
  }

  lemma {:induction false} BytesOfShards(parts: Shards, shards: seq<Bytes>, n: nat)
    requires n <= |parts| && n <= |shards|
    requires forall i :: 0 <= i < n && parts[i].Some? ==> parts[i].value == shards[i]
    ensures StoredBytes(parts, n) <= |Join(shards, n)|
  {
    if n > 0 {
      BytesOfShards(parts, shards, n - 1);
    }
  }

  /** Honest shards never exceed the group's cap. */
  lemma HonestFits(g: Group, s: Sent, j: nat)
    requires IsSent(s) && j < s.shape.total && GroupOk(g) && GroupFrom(g, s) && g.parts[j].None?
    ensures g.size + |s.shards[j]| <= g.cap
  {
    hide Join, CodeShard, FrameLen, Available, StoredBytes;
    if s.shape.fec {
      FecBytes(g);
      MulMonotone(1, s.shape.total - s.shape.dataParts, s.shape.chunkSize);
    } else {
      var n := |g.parts|;
      StoreCounts(g.parts, j, s.shards[j], n);
      BytesOfShards(g.parts[j := Some(s.shards[j])], s.shards, n);
    }
  }

  /** Storing an honest shard adds exactly its slot. */
  lemma HonestStore(g: Group, s: Sent, j: nat)
    requires IsSent(s) && j < s.shape.total && GroupOk(g) && GroupFrom(g, s)
    ensures var r := Store(g, FragHeader(s.shape, j, s.shards[j]));
            && r.Some? && GroupFrom(r.value, s) && Slots(r.value) == Slots(g) + {j}
  {
    hide Join, CodeShard, FrameLen, Available, StoredBytes, GroupCap, WantLen;
    if g.parts[j].None? {
      HonestFits(g, s, j);
    }
  }

  lemma GotIsSlots(g: Group)
    requires GroupCounts(g)
    ensures g.got == |Slots(g)|
  {
    hide Available, StoredBytes, GroupCap, WantLen, FrameLen;
    SlotsCount(g.parts, |g.parts|);
    assert Slots(g) == SlotsBelow(g.parts, |g.parts|);
  }

  // ---------------------------------------------------------------- An honest key, step by step

  /** The group of the key, if there is one, holds only shards of s. */
  ghost predicate Faithful(t: Table, key: Key, s: Sent) {
    key in t ==> GroupFrom(t[key], s)
  }

  /** The shards of the key's group that a fragment arriving now can build on. */
  ghost function Held(t: Table, key: Key, now: int): (d: set<int>) {
    if key in t && !Stale(t, key, now) then Slots(t[key]) else {}
  }

  lemma DeliverHonest(t: Table, key: Key, s: Sent, j: nat)
    requires IsSent(s) && j < s.shape.total && key in t && GroupOk(t[key]) && GroupFrom(t[key], s)
    ensures var r := Deliver(t, key, FragHeader(s.shape, j, s.shards[j]));
            var d := Slots(t[key]) + {j};
            && |d| <= s.shape.dataParts
            && (|d| == s.shape.dataParts ==> r.frame == Some(s.frame) && key !in r.table)
            && (|d| < s.shape.dataParts ==> r.frame == None && key in r.table && GroupFrom(r.table[key], s)
                                            && Slots(r.table[key]) == d && r.table[key].deadline == t[key].deadline)
  {
    hide Join, CodeShard, FrameLen, Available, StoredBytes, GroupCap, WantLen, Store, Assemble, Slots;
    var g, h := t[key], FragHeader(s.shape, j, s.shards[j]);
    HonestStore(g, s, j);
    StoreKeeps(g, h);
    StoreKeepsCounts(g, h);
    StoreShape(g, h);
    var g' := Store(g, h).value;
    GotIsSlots(g');
    if Ready(g') {
      AssembleCorrect(g', s);
    }
  }

  function IndexOf(e: Event): (j: nat)
    requires e.Arrive?
  {
    var h := ParseFragHeader(e.payload);
    if h.Some? then h.value.index else 0
  }

  /** An honest fragment parses to its shard. */
  lemma HonestParse(e: Event, key: Key, s: Sent)
    requires IsSent(s) && Carries(e, key) && CutFrom(e.payload, key, s)
    ensures IndexOf(e) < s.shape.total
    ensures ParseFragHeader(e.payload) == Some(FragHeader(s.shape, IndexOf(e), s.shards[IndexOf(e)]))
  {
    hide ParseFragHeader, IsFragPayload, OrigSeq, Envelope, Join, CodeShard, FrameLen, WantLen;
    var j :| 0 <= j < |s.shards| && e.payload == Envelope(s, key.origSeq, j);
    EnvelopeParses(s, key.origSeq, j);
  }

  /** Whether the fragment's group exists once room and quota are settled. */
  ghost predicate Admitted(t: Table, e: Event, key: Key, s: Sent)
    requires e.Arrive? && ShapeOk(s.shape)
  {
    key in Admit(t, key, s.shape, e.now, e.victim)
  }

  lemma AdmitHonest(t: Table, key: Key, s: Sent, now: int, victim: Key)
    requires IsSent(s) && TableOk(t) && Faithful(t, key, s)
    requires key in Admit(t, key, s.shape, now, victim)
    ensures var g := Admit(t, key, s.shape, now, victim)[key];
            && GroupOk(g) && GroupFrom(g, s) && Slots(g) == Held(t, key, now)
  {
    hide Join, CodeShard, FrameLen, PeerCount, GroupOk;
    if key !in WithoutStale(t, key, now) {
      NewGroupOk(s.shape, now);
    }
  }

  /** What one honest fragment does: nothing, one more slot, or the frame. */
  lemma HonestStep(t: Table, e: Event, key: Key, s: Sent)
    requires IsSent(s) && TableOk(t) && Faithful(t, key, s) && Carries(e, key) && CutFrom(e.payload, key, s)
    ensures var r := Step(t, e);
            var d := Held(t, key, e.now) + {IndexOf(e)};
            && |d| <= s.shape.dataParts
            && (!Admitted(t, e, key, s) ==> r.frame == None && key !in r.table)
            && (Admitted(t, e, key, s) && |d| == s.shape.dataParts ==> r.frame == Some(s.frame) && key !in r.table)
            && (Admitted(t, e, key, s) && |d| < s.shape.dataParts ==>
                  r.frame == None && key in r.table && GroupFrom(r.table[key], s) && Slots(r.table[key]) == d)
  {
    hide ParseFragHeader, IsFragPayload, OrigSeq, Join, CodeShard, FrameLen, WantLen;
    hide Deliver, Slots, Admit, GroupOk, GroupFrom, IndexOf;
    HonestParse(e, key, s);
    HeldBound(t, key, s, e.now, IndexOf(e));
    var t' := Admit(t, key, s.shape, e.now, e.victim);
    if key in t' {
      AdmitHonest(t, key, s, e.now, e.victim);
      DeliverHonest(t', key, s, IndexOf(e));
    }
  }

  lemma HeldBound(t: Table, key: Key, s: Sent, now: int, j: int)
    requires TableOk(t) && IsSent(s) && Faithful(t, key, s)
    ensures |Held(t, key, now) + {j}| <= s.shape.dataParts
  {
    hide Join, CodeShard, FrameLen, WantLen, Slots, Available, StoredBytes, GroupCap;
    if key in t {
      GotIsSlots(t[key]);
    }
  }

  // ---------------------------------------------------------------- Losses never corrupt

  lemma {:induction false} RunFaithful(states: seq<Table>, es: seq<Event>, key: Key, s: Sent, n: nat)
    requires IsRun(states, es) && IsSent(s) && Honest(es, key, s) && n <= |es|
    ensures Faithful(states[n], key, s)
  {
    hide Step, StepOk, IsSent, TableOk, GroupFrom;
    if n > 0 {
      RunFaithful(states, es, key, s, n - 1);
      ReachableOk(states, es, n - 1);
      if Carries(es[n - 1], key) {
        HonestStep(states[n - 1], es[n - 1], key, s);
      } else {
        OtherStep(states[n - 1], es[n - 1], key);
      }
    }
  }

  /**
    In any run, if every fragment carrying a key came from one frame, then every
    frame emitted under that key is that frame.
   */
  lemma NoCorruption(states: seq<Table>, es: seq<Event>, key: Key, s: Sent, n: nat)
    requires IsRun(states, es) && IsSent(s) && Honest(es, key, s)
    requires n < |es| && Carries(es[n], key)
    ensures Step(states[n], es[n]).frame in {None, Some(s.frame)}
  {
    hide Step, StepOk, IsSent, TableOk, GroupFrom;
    RunFaithful(states, es, key, s, n);
    ReachableOk(states, es, n);
    HonestStep(states[n], es[n], key, s);
  }

  // ---------------------------------------------------------------- Emissions cost arrivals

  ghost function Arrivals(es: seq<Event>, key: Key, n: nat): (c: nat)
    requires n <= |es|
  {
    if n == 0 then 0 else Arrivals(es, key, n - 1) + if Carries(es[n - 1], key) then 1 else 0
  }

  ghost function Emissions(states: seq<Table>, es: seq<Event>, key: Key, n: nat): (c: nat)
    requires |states| == |es| + 1 && n <= |es|
  {
    if n == 0 then 0
    else Emissions(states, es, key, n - 1)
         + if Carries(es[n - 1], key) && Step(states[n - 1], es[n - 1]).frame.Some? then 1 else 0
  }

  ghost function SlotsOf(t: Table, key: Key): (d: set<int>) {
    if key in t then Slots(t[key]) else {}
  }

  /** An emission uses up its shards, and a fragment adds at most one. */
  lemma StepCost(t: Table, e: Event, key: Key, s: Sent)
    requires IsSent(s) && TableOk(t) && Faithful(t, key, s)
    requires Carries(e, key) ==> CutFrom(e.payload, key, s)
    ensures var r := Step(t, e);
            (if Carries(e, key) && r.frame.Some? then s.shape.dataParts else 0) + |SlotsOf(r.table, key)|
            <= |SlotsOf(t, key)| + if Carries(e, key) then 1 else 0
  {
    hide Step, IsSent, TableOk, GroupFrom, Slots, IndexOf;
    if Carries(e, key) {
      HonestStep(t, e, key, s);
      assert |Held(t, key, e.now) + {IndexOf(e)}| <= |SlotsOf(t, key)| + 1;
    } else {
      OtherStep(t, e, key);
    }
  }

  /** m emissions under one key need at least m * dataParts fragments. */
  lemma {:induction false} EmissionsCost(states: seq<Table>, es: seq<Event>, key: Key, s: Sent, n: nat)
    requires IsRun(states, es) && IsSent(s) && Honest(es, key, s) && n <= |es|
    ensures Emissions(states, es, key, n) * s.shape.dataParts + |SlotsOf(states[n], key)| <= Arrivals(es, key, n)
  {
    hide Step, StepOk, IsSent, TableOk, SlotsOf, Carries, CutFrom, Faithful;
    if n > 0 {
      EmissionsCost(states, es, key, s, n - 1);
      RunFaithful(states, es, key, s, n - 1);
      ReachableOk(states, es, n - 1);
      StepCost(states[n - 1], es[n - 1], key, s);
      OneMore(Emissions(states, es, key, n - 1), s.shape.dataParts);
    } else {
      assert SlotsOf(states[0], key) == {} by { NoSlots(key); }
    }
  }

  lemma NoSlots(key: Key)
    ensures SlotsOf(map[], key) == {}
  {}

  // ---------------------------------------------------------------- Delivery, exactly when

  /** The fragment is neither late nor over quota, and no other event takes the key's group. */
  ghost predicate Undisturbed(t: Table, e: Event, key: Key) {
    if Carries(e, key) then
      && !Stale(t, key, e.now)
      && (key !in t ==> PeerCount(MakeRoom(t, e.victim), key.peer) < MAX_REASM_GROUPS_PER_PEER)
    else key in t ==> key in Step(t, e).table
  }

  lemma QuietAccept(t: Table, other: Key, h: FragHeader, now: int, victim: Key, key: Key)
    requires HeaderOk(h) && other != key && key in t && |t| < 1024
    ensures key in Accept(t, other, h, now, victim).table
  {
    hide Store, Assemble, NewGroup, Ready, PeerCount, HeaderOk;
    SubsetSize(WithoutStale(t, other, now).Keys, t.Keys);
  }

  /**
    With fewer than 1024 groups in the table, fewer than 64 of the peer when its group
    is opened, and the group's deadline not past, nothing disturbs the key.
   */
  lemma QuietUndisturbed(t: Table, e: Event, key: Key)
    requires |t| < 1024 && (key in t ==> t[key].deadline >= e.now)
    requires Carries(e, key) && key !in t ==> |set k | k in t && k.peer == key.peer| < 64
    ensures Undisturbed(t, e, key)
  {
    hide ParseFragHeader, IsFragPayload, OrigSeq, Accept, HeaderOk, NewGroup;
    if Carries(e, key) {
      assert PeerKeys(t, key.peer) == set k | k in t && k.peer == key.peer;
    } else if e.Arrive? && IsFragPayload(e.payload) && ParseFragHeader(e.payload).Some? && key in t {
      QuietAccept(t, KeyOf(e), ParseFragHeader(e.payload).value, e.now, e.victim, key);
    }
  }

  /** The distinct shards of the key that arrived in [a, n). */
  ghost function Seen(es: seq<Event>, key: Key, a: nat, n: nat): (d: set<int>)
    requires a <= n <= |es|
  {
    if n == a then {} else Seen(es, key, a, n - 1) + if Carries(es[n - 1], key) then {IndexOf(es[n - 1])} else {}
  }

  /** Undisturbed, the group's slots follow the arrivals one by one. */
  lemma UndisturbedStep(t: Table, e: Event, key: Key, s: Sent)
    requires IsSent(s) && TableOk(t) && Faithful(t, key, s) && Undisturbed(t, e, key)
    requires Carries(e, key) ==> CutFrom(e.payload, key, s)
    ensures !Carries(e, key) ==> SlotsOf(Step(t, e).table, key) == SlotsOf(t, key)
    ensures Carries(e, key) ==>
              var d := SlotsOf(t, key) + {IndexOf(e)};
              && |d| <= s.shape.dataParts
              && (|d| == s.shape.dataParts ==> Step(t, e).frame == Some(s.frame))
              && (|d| < s.shape.dataParts ==> Step(t, e).frame == None && SlotsOf(Step(t, e).table, key) == d)
  {
    hide Step, IsSent, TableOk, GroupFrom, Slots, IndexOf, PeerCount, IsFragPayload, OrigSeq, NewGroup, CutFrom;
    if Carries(e, key) {
      HonestStep(t, e, key, s);
      assert Held(t, key, e.now) == SlotsOf(t, key);
    } else {
      OtherStep(t, e, key);
    }
  }

  /** While too few distinct shards have arrived, the group holds exactly those. */
  lemma {:induction false} HoldsSeen(states: seq<Table>, es: seq<Event>, key: Key, s: Sent, a: nat, n: nat)
    requires IsRun(states, es) && IsSent(s) && Honest(es, key, s) && a <= n <= |es|
    requires key !in states[a] && |Seen(es, key, a, n)| < s.shape.dataParts
    requires forall i :: a <= i < n ==> Undisturbed(states[i], es[i], key)
    ensures SlotsOf(states[n], key) == Seen(es, key, a, n)
  {
    hide Step, StepOk, IsSent, TableOk, Faithful, SlotsOf, IndexOf, Undisturbed, Carries, CutFrom, Seen;
    if a == n {
      NothingYet(states[a], es, key, a);
    } else {
      SeenGrows(es, key, a, n - 1);
      HoldsSeen(states, es, key, s, a, n - 1);
      RunFaithful(states, es, key, s, n - 1);
      ReachableOk(states, es, n - 1);
      UndisturbedStep(states[n - 1], es[n - 1], key, s);
    }
  }

  lemma NothingYet(t: Table, es: seq<Event>, key: Key, a: nat)
    requires a <= |es| && key !in t
    ensures SlotsOf(t, key) == {} && Seen(es, key, a, a) == {}
  {}

  lemma SeenGrows(es: seq<Event>, key: Key, a: nat, n: nat)
    requires a <= n < |es|
    ensures |Seen(es, key, a, n)| <= |Seen(es, key, a, n + 1)| <= |Seen(es, key, a, n)| + 1
    ensures Seen(es, key, a, n + 1)
         == if Carries(es[n], key) then Seen(es, key, a, n) + {IndexOf(es[n])} else Seen(es, key, a, n)
  {
    hide Carries, IndexOf;
    SubsetSize(Seen(es, key, a, n), Seen(es, key, a, n + 1));
  }

  /**
    Shards in any order, with duplicates, interleaved with anything else: the frame
    is emitted at the arrival that brings the number of distinct shards to dataParts,
    and at no earlier one.
   */
  lemma DeliveredExactly(states: seq<Table>, es: seq<Event>, key: Key, s: Sent, a: nat, n: nat)
    requires IsRun(states, es) && IsSent(s) && Honest(es, key, s) && a <= n < |es|
    requires key !in states[a] && |Seen(es, key, a, n)| < s.shape.dataParts
    requires forall i :: a <= i <= n ==> Undisturbed(states[i], es[i], key)
    requires Carries(es[n], key)
    ensures Step(states[n], es[n]).frame
         == if |Seen(es, key, a, n + 1)| == s.shape.dataParts then Some(s.frame) else None
  {
    hide Step, StepOk, IsSent, TableOk, Faithful, SlotsOf, IndexOf, Undisturbed, Carries, CutFrom, Seen;
    SeenGrows(es, key, a, n);
    HoldsSeen(states, es, key, s, a, n);
    RunFaithful(states, es, key, s, n);
    ReachableOk(states, es, n);
    UndisturbedStep(states[n], es[n], key, s);
  }

  // ---------------------------------------------------------------- No frame from old fragments

  /** A fragment joins the live group of its key, or opens one that lives five seconds. */
  lemma DeadlineStep(t: Table, e: Event, key: Key)
    requires Carries(e, key) && ParseFragHeader(e.payload).Some? && ParseFragHeader(e.payload).value.shape.total > 1
    ensures var t' := Step(t, e).table;
            key in t' ==> t'[key].deadline
                          == if key in t && t[key].deadline >= e.now then t[key].deadline else e.now + 5_000_000_000
  {
    hide ParseFragHeader, IsFragPayload, OrigSeq, Assemble, Ready, PeerCount, GroupCap;
    var h := ParseFragHeader(e.payload).value;
    var t' := Admit(t, key, h.shape, e.now, e.victim);
    if key in t' && Store(t'[key], h).Some? {
      StoreShape(t'[key], h);
    }
  }

  /** The key's group was opened at event a and holds only shards that arrived since. */
  ghost predicate OpenedAt(t: Table, es: seq<Event>, key: Key, a: nat, n: nat)
    requires n <= |es|
  {
    && a < n && key in t && Carries(es[a], key)
    && t[key].deadline == es[a].now + 5_000_000_000 && Slots(t[key]) <= Seen(es, key, a, n)
  }

  lemma {:induction false} SeenFrom(es: seq<Event>, key: Key, a: nat, n: nat)
    requires a < n <= |es| && Carries(es[a], key)
    ensures IndexOf(es[a]) in Seen(es, key, a, n)
  {
    hide Carries, IndexOf;
    if a + 1 < n {
      SeenFrom(es, key, a, n - 1);
    } else {
      assert Seen(es, key, a, a) == {};
    }
  }

  lemma {:induction false} GroupOpened(states: seq<Table>, es: seq<Event>, key: Key, s: Sent, n: nat) returns (a: nat)
    requires IsRun(states, es) && IsSent(s) && Honest(es, key, s) && n <= |es| && key in states[n]
    ensures OpenedAt(states[n], es, key, a, n)
  {
    hide Step, StepOk, IsSent, TableOk, GroupFrom, Slots, IndexOf, CutFrom, Carries, ParseFragHeader, Admitted;
    if n == 0 {
      assert false;
    }
    var t, e := states[n - 1], es[n - 1];
    if Carries(e, key) {
      RunFaithful(states, es, key, s, n - 1);
      ReachableOk(states, es, n - 1);
      HonestStep(t, e, key, s);
      HonestParse(e, key, s);
      SentTotal(s);
      DeadlineStep(t, e, key);
      if key in t && t[key].deadline >= e.now {
        a := GroupOpened(states, es, key, s, n - 1);
      } else {
        a := n - 1;
        SeenFrom(es, key, a, n);
      }
    } else {
      OtherStep(t, e, key);
      a := GroupOpened(states, es, key, s, n - 1);
    }
  }

  lemma SentTotal(s: Sent)
    requires IsSent(s)
    ensures s.shape.total > 1
  {}

  /**
    Every emitted frame was assembled from dataParts distinct fragments of which the
    last came at most five seconds after the first.
   */
  lemma EmittedInTime(states: seq<Table>, es: seq<Event>, key: Key, s: Sent, n: nat) returns (a: nat)
    requires IsRun(states, es) && IsSent(s) && Honest(es, key, s) && n < |es| && Carries(es[n], key)
    requires Step(states[n], es[n]).frame.Some?
    ensures a <= n && Carries(es[a], key) && es[n].now <= es[a].now + 5_000_000_000
    ensures |Seen(es, key, a, n + 1)| >= s.shape.dataParts
  {
    hide Step, StepOk, IsSent, TableOk, GroupFrom, Slots, IndexOf, CutFrom, Admitted, Seen, IsFragPayload, KeyOf;
    var t, e := states[n], es[n];
    RunFaithful(states, es, key, s, n);
    ReachableOk(states, es, n);
    HonestStep(t, e, key, s);
    a := n;
    if key in t && !Stale(t, key, e.now) {
      a := GroupOpened(states, es, key, s, n);
    } else {
      NothingYet(map[], es, key, n);
    }
    SeenGrows(es, key, a, n);
    SubsetSize(Held(t, key, e.now) + {IndexOf(e)}, Seen(es, key, a, n + 1));
  }

  /** A live group ignores a fragment of another shape, and a shard it already holds. */
  lemma LiveGroupKept(t: Table, e: Event, key: Key)
    requires TableOk(t) && Carries(e, key) && key in t && t[key].deadline >= e.now
    requires ParseFragHeader(e.payload).Some? && ParseFragHeader(e.payload).value.shape.total > 1
    requires var h := ParseFragHeader(e.payload).value;
             h.shape != t[key].shape || (h.index < |t[key].parts| && t[key].parts[h.index].Some?)
    ensures Step(t, e) == Outcome(t, None)
  {
    hide ParseFragHeader, IsFragPayload, OrigSeq, Assemble, PeerCount, HeaderOk, GroupCap, Available, StoredBytes;
    assert GroupOk(t[key]);
    assert t[key := t[key]] == t;
  }

  // ---------------------------------------------------------------- One frame, fed to an empty receiver

  /** The table after the first n events, from the empty one. */
  ghost function TableAfter(es: seq<Event>, n: nat): (t: Table)
    requires n <= |es|
  {
    if n == 0 then map[] else Step(TableAfter(es, n - 1), es[n - 1]).table
  }

  /** Shards idx[0], idx[1], ... of s arriving at the given times. */
  ghost function Feed(s: Sent, key: Key, idx: seq<nat>, times: seq<int>): (es: seq<Event>)
    requires |times| == |idx| && forall i :: 0 <= i < |idx| ==> idx[i] < |s.shards|
    ensures |es| == |idx|
  {
    seq(|idx|, i requires 0 <= i < |idx| =>
      Arrive(key.peer, Envelope(s, key.origSeq, idx[i]), key.channel, key.epoch, times[i], key))
  }

  /** Nothing but the key's group, which does not expire before the window ends. */
  ghost predicate OnlyKey(t: Table, key: Key, t0: int) {
    t.Keys <= {key} && (key in t ==> t[key].deadline >= t0 + REASM_TIMEOUT)
  }

  lemma OnlyKeySmall(t: Table, key: Key, t0: int, victim: Key)
    requires OnlyKey(t, key, t0)
    ensures |t| < MAX_REASM_GROUPS && MakeRoom(t, victim) == t
    ensures key !in t ==> PeerCount(t, key.peer) < MAX_REASM_GROUPS_PER_PEER
  {
    SubsetSize(t.Keys, {key});
    if key !in t {
      assert PeerKeys(t, key.peer) == {};
    }
  }

  lemma DeliverOnlyKey(t: Table, key: Key, h: FragHeader, t0: int)
    requires OnlyKey(t, key, t0) && key in t
    ensures OnlyKey(Deliver(t, key, h).table, key, t0)
  {
    hide Store, Ready, Assemble;
    if Store(t[key], h).Some? {
      StoreShape(t[key], h);
    }
  }

  lemma FeedStep(t: Table, e: Event, key: Key, s: Sent, t0: int)
    requires IsSent(s) && OnlyKey(t, key, t0) && Carries(e, key) && CutFrom(e.payload, key, s)
    requires t0 <= e.now <= t0 + REASM_TIMEOUT
    ensures StepOk(t, e) && Undisturbed(t, e, key) && OnlyKey(Step(t, e).table, key, t0)
  {
    hide ParseFragHeader, IsFragPayload, OrigSeq, IsSent, Deliver, CutFrom, PeerCount, IndexOf;
    HonestParse(e, key, s);
    OnlyKeySmall(t, key, t0, e.victim);
    assert !Stale(t, key, e.now);
    var h := ParseFragHeader(e.payload).value;
    var t' := Admit(t, key, h.shape, e.now, e.victim);
    assert OnlyKey(t', key, t0);
    if key in t' {
      DeliverOnlyKey(t', key, h, t0);
    }
  }

  lemma FeedHonest(s: Sent, key: Key, idx: seq<nat>, times: seq<int>, i: nat)
    requires IsSent(s) && |times| == |idx| && key.origSeq < 0x1_0000_0000
    requires (forall j :: 0 <= j < |idx| ==> idx[j] < |s.shards|) && i < |idx|
    ensures var e := Feed(s, key, idx, times)[i];
            Carries(e, key) && CutFrom(e.payload, key, s) && IndexOf(e) == idx[i]
  {
    hide ParseFragHeader, IsFragPayload, OrigSeq, Envelope, Join, CodeShard, FrameLen, WantLen;
    EnvelopeParses(s, key.origSeq, idx[i]);
  }

  lemma {:induction false} FeedRuns(es: seq<Event>, key: Key, s: Sent, t0: int, n: nat)
    requires IsSent(s) && n <= |es|
    requires forall i :: 0 <= i < |es| ==>
               Carries(es[i], key) && CutFrom(es[i].payload, key, s) && t0 <= es[i].now <= t0 + REASM_TIMEOUT
    ensures OnlyKey(TableAfter(es, n), key, t0)
    ensures forall i :: 0 <= i < n ==> StepOk(TableAfter(es, i), es[i]) && Undisturbed(TableAfter(es, i), es[i], key)
  {
    hide Step, StepOk, Undisturbed, Carries, CutFrom, IsSent;
    if n > 0 {
      FeedRuns(es, key, s, t0, n - 1);
      FeedStep(TableAfter(es, n - 1), es[n - 1], key, s, t0);
    }
  }

  lemma {:induction false} SeenFeed(s: Sent, key: Key, idx: seq<nat>, times: seq<int>, n: nat)
    requires IsSent(s) && |times| == |idx| && key.origSeq < 0x1_0000_0000
    requires (forall j :: 0 <= j < |idx| ==> idx[j] < |s.shards|) && n <= |idx|
    ensures Seen(Feed(s, key, idx, times), key, 0, n) == Distinct(idx[..n])
  {
    hide Carries, CutFrom, IsSent, IndexOf, Feed;
    if n > 0 {
      SeenFeed(s, key, idx, times, n - 1);
      FeedHonest(s, key, idx, times, n - 1);
      assert idx[..n] == idx[..n - 1] + [idx[n - 1]];
    }
  }

  ghost function Distinct(idx: seq<nat>): (d: set<int>) {
    set j: int | j in idx
  }

  lemma TableAfterStep(es: seq<Event>, i: nat)
    requires i < |es|
    ensures TableAfter(es, i + 1) == Step(TableAfter(es, i), es[i]).table
  {
    hide Step;
  }

  /** The tables a feed goes through, as a run. */
  lemma TablesRun(es: seq<Event>) returns (states: seq<Table>)
    requires forall i :: 0 <= i < |es| ==> StepOk(TableAfter(es, i), es[i])
    ensures IsRun(states, es) && states[0] == map[]
    ensures forall i :: 0 <= i <= |es| ==> states[i] == TableAfter(es, i)
  {
    hide Step, StepOk;
    states := seq(|es| + 1, i requires 0 <= i <= |es| => TableAfter(es, i));
    hide TableAfter;
    forall i | 0 <= i < |es| ensures states[i + 1] == Step(states[i], es[i]).table {
      TableAfterStep(es, i);
    }
  }

  /**
    For every sent frame and every order of its shards, with any duplicates, arriving
    within five seconds at an empty receiver: the frame comes out, byte for byte,
    exactly when the dataParts-th distinct shard arrives.
   */
  lemma FeedDelivers(s: Sent, key: Key, idx: seq<nat>, times: seq<int>, t0: int, n: nat)
    requires IsSent(s) && |times| == |idx| && key.origSeq < 0x1_0000_0000 && n < |idx|
    requires forall i :: 0 <= i < |idx| ==> idx[i] < |s.shards| && t0 <= times[i] <= t0 + REASM_TIMEOUT
    requires |Distinct(idx[..n])| < s.shape.dataParts
    ensures var es := Feed(s, key, idx, times);
            Step(TableAfter(es, n), es[n]).frame
            == if |Distinct(idx[..n + 1])| == s.shape.dataParts then Some(s.frame) else None
  {
    hide Step, StepOk, Undisturbed, Carries, CutFrom, IsSent, IndexOf, Seen, Distinct, TableAfter;
    var es := Feed(s, key, idx, times);
    forall i | 0 <= i < |es| ensures Carries(es[i], key) && CutFrom(es[i].payload, key, s) {
      FeedHonest(s, key, idx, times, i);
    }
    FeedRuns(es, key, s, t0, |es|);
    var states := TablesRun(es);
    SeenFeed(s, key, idx, times, n);
    SeenFeed(s, key, idx, times, n + 1);
    DeliveredExactly(states, es, key, s, 0, n);
  }

  // ---------------------------------------------------------------- Losing a path

  /** The shards that a round-robin stripe puts on the other paths. */
  ghost function OffPath(n: nat, paths: nat, p: nat): (d: set<int>)
    requires paths > 0
  {
    set j | 0 <= j < n && j % paths != p
  }

  lemma {:induction false} OffPathCount(n: nat, paths: nat, p: nat)
    requires paths > 0
    ensures |OffPath(n, paths, p)| == n - ShardsOn(n, paths, p)
  {
    if n == 0 {
      assert OffPath(0, paths, p) == {};
    } else {
      OffPathCount(n - 1, paths, p);
      assert OffPath(n, paths, p) == OffPath(n - 1, paths, p) + if (n - 1) % paths != p then {n - 1} else {};
    }
  }

  ghost function SeenCount(es: seq<Event>, key: Key, a: nat, n: nat): (c: nat)
    requires a <= n <= |es|
  {
    |Seen(es, key, a, n)|
  }

  lemma SeenNone(es: seq<Event>, key: Key, a: nat)
    requires a <= |es|
    ensures SeenCount(es, key, a, a) == 0
  {}

  lemma SeenCountSteps(es: seq<Event>, key: Key, a: nat, n: nat)
    requires a <= n < |es|
    ensures SeenCount(es, key, a, n) <= SeenCount(es, key, a, n + 1) <= SeenCount(es, key, a, n) + 1
    ensures SeenCount(es, key, a, n) < SeenCount(es, key, a, n + 1) ==> Carries(es[n], key)
  {
    hide Carries, IndexOf;
    SeenGrows(es, key, a, n);
  }

  /** Somewhere in [a, n) the dataParts-th distinct shard arrived. */
  lemma Crossing(es: seq<Event>, key: Key, a: nat, n: nat, k: nat) returns (i: nat)
    requires a <= n <= |es| && 1 <= k <= SeenCount(es, key, a, n)
    ensures a <= i < n && SeenCount(es, key, a, i) < k == SeenCount(es, key, a, i + 1) && Carries(es[i], key)
  {
    hide Carries, SeenCount;
    i := a;
    SeenNone(es, key, a);
    while SeenCount(es, key, a, i + 1) < k
      invariant a <= i < n && SeenCount(es, key, a, i) < k
      decreases n - i
    {
      i := i + 1;
    }
    SeenCountSteps(es, key, a, i);
  }

  /**
    A striped frame with the parity fecParityFor grants: if one path p delivers
    nothing and the shards of all others arrive undisturbed, the frame is emitted.
   */
  lemma PathLossDelivered(states: seq<Table>, es: seq<Event>, key: Key, s: Sent, a: nat, n: nat, paths: nat, p: nat)
    returns (i: nat)
    requires IsRun(states, es) && IsSent(s) && Honest(es, key, s) && a <= n <= |es| && key !in states[a]
    requires forall i :: a <= i < n ==> Undisturbed(states[i], es[i], key)
    requires s.shape.fec && p < paths && SurvivesAnyPath(s.shape.dataParts, s.shape.total - s.shape.dataParts, paths)
    requires OffPath(s.shape.total, paths, p) <= Seen(es, key, a, n)
    ensures a <= i < n && Carries(es[i], key) && Step(states[i], es[i]).frame == Some(s.frame)
  {
    hide Step, Undisturbed, Carries, IndexOf, Seen, Join, CodeShard, FrameLen, OffPath, ShardsOn, WantLen;
    var total := s.shape.total;
    OffPathCount(total, paths, p);
    assert SurvivesLoss(s.shape.dataParts, total, paths);
    SubsetSize(OffPath(total, paths, p), Seen(es, key, a, n));
    i := Crossing(es, key, a, n, s.shape.dataParts);
    DeliveredExactly(states, es, key, s, a, i);
  }
}
