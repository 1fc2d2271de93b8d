/**
  Which stream serves a peer (relayRouter in cmd/p2ptap-boot/main.go): registration,
  supersession, retirement after a failed write and teardown, interleaved freely.
  The map update of each runs under the router's lock; the stop that follows does not.
 */
module RelayRegistry {

  import opened Common

  /** An entry of clientStreams (local) or of meshStreams. */
  datatype Slot = Slot(local: bool, peer: PeerId)

  /** A registered stream: the slot it was registered in, and its connection, which is no other stream's. */
  datatype Stream = Stream(slot: Slot, conn: nat)

  /**
    Both maps in one, told apart by the slot.  Streams are numbered in order of
    registration; toStop holds the stops still owed by some goroutine.
   */
  datatype Router = Router(slots: map<Slot, nat>, streams: seq<Stream>, stopped: set<nat>, toStop: multiset<nat>)

  datatype Action =
    | Register(slot: Slot, conn: nat)
    | Retire(id: nat)                  // unregisterPeerStream, after a failed write
    | Teardown(slot: Slot, conn: nat)  // unregisterClientStream, unregisterMesh
    | UnregisterClient(p: PeerId)
    | Stop(id: nat)

  /** Removes an entry and owes its stream a stop. */
  function Evict(r: Router, slot: Slot): (r': Router)
    requires slot in r.slots
  {
    r.(slots := r.slots - {slot}, toStop := r.toStop + multiset{r.slots[slot]})
  }

  /** A stream value is an identity: no two registrations share one. */
  ghost predicate Enabled(r: Router, a: Action) {
    a.Register? ==> forall i :: 0 <= i < |r.streams| ==> r.streams[i].conn != a.conn
  }

  function Next(r: Router, a: Action): (r': Router) {
    match a
    case Register(slot, conn) =>
      r.(slots := r.slots[slot := |r.streams|], streams := r.streams + [Stream(slot, conn)],
         toStop := if slot in r.slots then r.toStop + multiset{r.slots[slot]} else r.toStop)
    case Retire(id) =>
      if id >= |r.streams| then r
      else
        var slot := r.streams[id].slot;
        if slot in r.slots && r.slots[slot] == id then Evict(r, slot) else r.(toStop := r.toStop + multiset{id})
    case Teardown(slot, conn) =>
      if slot in r.slots && r.slots[slot] < |r.streams| && r.streams[r.slots[slot]].conn == conn
      then Evict(r, slot) else r
    case UnregisterClient(p) => if Slot(true, p) in r.slots then Evict(r, Slot(true, p)) else r
    case Stop(id) =>
      if id in r.toStop then r.(stopped := r.stopped + {id}, toStop := r.toStop - multiset{id}) else r
  }

  const EMPTY := Router(map[], [], {}, multiset{})

  /** The stream is the one its peer's traffic goes to. */
  ghost predicate Mapped(r: Router, id: nat) {
    id < |r.streams| && r.streams[id].slot in r.slots && r.slots[r.streams[id].slot] == id
  }

  ghost predicate ConnsDistinct(r: Router) {
    forall i, j :: 0 <= i < j < |r.streams| ==> r.streams[i].conn != r.streams[j].conn
  }

  /** Every stream is mapped, or stopped or about to be, and never both. */
  ghost predicate RouterOk(r: Router) {
    && ConnsDistinct(r)
    && (forall slot :: slot in r.slots ==> r.slots[slot] < |r.streams| && r.streams[r.slots[slot]].slot == slot)
    && (forall id :: id in r.stopped || id in r.toStop ==> id < |r.streams|)
    && (forall id {:trigger Mapped(r, id)} :: 0 <= id < |r.streams| ==>
          (Mapped(r, id) <==> id !in r.stopped && id !in r.toStop))
  }

  lemma EvictKeeps(r: Router, slot: Slot)
    requires RouterOk(r) && slot in r.slots
    ensures RouterOk(Evict(r, slot))
  {
    var r' := Evict(r, slot);
    forall id | 0 <= id < |r'.streams|
      ensures Mapped(r', id) <==> id !in r'.stopped && id !in r'.toStop
    {
      assert Mapped(r', id) <==> Mapped(r, id) && id != r.slots[slot];
    }
  }

  lemma RegisterKeeps(r: Router, slot: Slot, conn: nat)
    requires RouterOk(r) && Enabled(r, Register(slot, conn))
    ensures RouterOk(Next(r, Register(slot, conn)))
  {
    var r' := Next(r, Register(slot, conn));
    forall id | 0 <= id < |r'.streams|
      ensures Mapped(r', id) <==> id !in r'.stopped && id !in r'.toStop
    {
      if id < |r.streams| {
        assert Mapped(r', id) <==> Mapped(r, id) && !(slot in r.slots && r.slots[slot] == id);
      }
    }
  }

  lemma SameSlots(r: Router, r': Router)
    requires r'.slots == r.slots && r'.streams == r.streams
    ensures forall id :: Mapped(r', id) <==> Mapped(r, id)
  {}

  /** A retirement that finds its slot taken only owes another stop. */
  lemma OweStopKeeps(r: Router, id: nat)
    requires RouterOk(r) && id < |r.streams| && !Mapped(r, id)
    ensures RouterOk(r.(toStop := r.toStop + multiset{id}))
  {
    SameSlots(r, r.(toStop := r.toStop + multiset{id}));
  }

  lemma StopKeeps(r: Router, id: nat)
    requires RouterOk(r) && id in r.toStop
    ensures RouterOk(Next(r, Stop(id)))
  {
    SameSlots(r, Next(r, Stop(id)));
  }

  lemma NextKeeps(r: Router, a: Action)
    requires RouterOk(r) && Enabled(r, a)
    ensures RouterOk(Next(r, a))
  {
    hide RouterOk, Evict;
    match a
    case Register(slot, conn) => RegisterKeeps(r, slot, conn);
    case Retire(id) =>
      if Mapped(r, id) {
        EvictKeeps(r, r.streams[id].slot);
      } else if id < |r.streams| {
        OweStopKeeps(r, id);
      }
    case Teardown(slot, conn) => if slot in r.slots { EvictKeeps(r, slot); }
    case UnregisterClient(p) => if Slot(true, p) in r.slots { EvictKeeps(r, Slot(true, p)); }
    case Stop(id) => if id in r.toStop { StopKeeps(r, id); }
  }

  // ---------------------------------------------------------------- Runs

  ghost predicate IsRun(states: seq<Router>, actions: seq<Action>) {
    && |states| == |actions| + 1 && states[0] == EMPTY
    && forall i :: 0 <= i < |actions| ==> Enabled(states[i], actions[i]) && states[i + 1] == Next(states[i], actions[i])
  }

  lemma {:induction false} RunOk(states: seq<Router>, actions: seq<Action>, n: nat)
    requires IsRun(states, actions) && n <= |actions|
    ensures RouterOk(states[n])
  {
    if n > 0 {
      hide Next, RouterOk, Enabled;
      RunOk(states, actions, n - 1);
      NextKeeps(states[n - 1], actions[n - 1]);
    }
  }

  /** No stopped stream, and none about to be stopped, is in either map. */
  lemma NoStoppedStreamMapped(states: seq<Router>, actions: seq<Action>, n: nat, slot: Slot)
    requires IsRun(states, actions) && n <= |actions| && slot in states[n].slots
    ensures var id := states[n].slots[slot]; id !in states[n].stopped && id !in states[n].toStop
  {
    hide Next;
    RunOk(states, actions, n);
    assert Mapped(states[n], states[n].slots[slot]);
  }

  /** Once no stop is owed, the running streams are exactly the mapped ones. */
  lemma QuiescentExact(states: seq<Router>, actions: seq<Action>, n: nat, id: nat)
    requires IsRun(states, actions) && n <= |actions| && states[n].toStop == multiset{} && id < |states[n].streams|
    ensures id !in states[n].stopped <==> Mapped(states[n], id)
  {
    hide Next;
    RunOk(states, actions, n);
  }

  // ---------------------------------------------------------------- Stale streams

  /** What the goroutines of one stream do when it dies: the handler's teardown, the writer's retirement. */
  predicate EndOf(r: Router, id: nat, a: Action) {
    id < |r.streams| && a in {Teardown(r.streams[id].slot, r.streams[id].conn), Retire(id)}
  }

  /** The slot is given to a newer stream, or its client is removed by name. */
  predicate TakesSlot(slot: Slot, a: Action) {
    (a.Register? && a.slot == slot) || (a.UnregisterClient? && slot == Slot(true, a.p))
  }

  /** A mapped stream leaves its slot exactly by its own end, by supersession or by its client's removal. */
  lemma OnlyItsOwnTeardown(states: seq<Router>, actions: seq<Action>, n: nat, id: nat)
    requires IsRun(states, actions) && n < |actions| && Mapped(states[n], id)
    ensures !Mapped(states[n + 1], id)
            <==> EndOf(states[n], id, actions[n]) || TakesSlot(states[n].streams[id].slot, actions[n])
  {
    RunOk(states, actions, n);
  }

  /** The end of another stream, an earlier one in the same slot included, leaves a mapped stream mapped. */
  lemma StaleEndHarmless(states: seq<Router>, actions: seq<Action>, n: nat, stale: nat, live: nat)
    requires IsRun(states, actions) && n < |actions| && stale != live
    requires Mapped(states[n], live) && EndOf(states[n], stale, actions[n])
    ensures Mapped(states[n + 1], live)
  {
    RunOk(states, actions, n);
    OnlyItsOwnTeardown(states, actions, n, live);
    var a, b := if stale < live then stale else live, if stale < live then live else stale;
    assert states[n].streams[a].conn != states[n].streams[b].conn;
  }

  lemma SlotKept(r: Router, a: Action, id: nat)
    requires id < |r.streams|
    ensures id < |Next(r, a).streams| && Next(r, a).streams[id] == r.streams[id]
  {}

  ghost predicate MappedIn(r: Router, id: nat, slot: Slot) {
    Mapped(r, id) && r.streams[id].slot == slot
  }

  /** Neither its own end nor a taking of its slot happens to the stream in [n, m). */
  ghost predicate LeftAlone(states: seq<Router>, actions: seq<Action>, id: nat, slot: Slot, n: nat, m: nat)
    requires |states| == |actions| + 1 && n <= m <= |actions|
  {
    forall i :: n <= i < m ==> !EndOf(states[i], id, actions[i]) && !TakesSlot(slot, actions[i])
  }

  lemma StaysOneStep(states: seq<Router>, actions: seq<Action>, n: nat, id: nat, slot: Slot)
    requires IsRun(states, actions) && n < |actions| && MappedIn(states[n], id, slot)
    requires !EndOf(states[n], id, actions[n]) && !TakesSlot(slot, actions[n])
    ensures MappedIn(states[n + 1], id, slot)
  {
    hide Next, Enabled, EndOf, TakesSlot;
    SlotKept(states[n], actions[n], id);
    OnlyItsOwnTeardown(states, actions, n, id);
  }

  lemma {:induction false} StaysWhileAlone(
    states: seq<Router>, actions: seq<Action>, id: nat, slot: Slot, n: nat, m: nat)
    requires IsRun(states, actions) && n <= m <= |actions| && MappedIn(states[n], id, slot)
    requires LeftAlone(states, actions, id, slot, n, m)
    ensures MappedIn(states[m], id, slot)
    decreases m
  {
    hide Next, Enabled, EndOf, TakesSlot, MappedIn;
    if n < m {
      StaysWhileAlone(states, actions, id, slot, n, m - 1);
      StaysOneStep(states, actions, m - 1, id, slot);
    }
  }

  lemma RegisterMaps(r: Router, a: Action)
    requires a.Register?
    ensures MappedIn(Next(r, a), |r.streams|, a.slot)
  {}

  /**
    From its registration on, a stream stays mapped through any interleaving in which
    it does not end itself, nothing is registered over it and its client is not
    removed: the ends of all other streams, however late they come, do not touch it.
   */
  lemma StaysMapped(states: seq<Router>, actions: seq<Action>, n: nat, m: nat)
    requires IsRun(states, actions) && n < m <= |actions| && actions[n].Register?
    requires LeftAlone(states, actions, |states[n].streams|, actions[n].slot, n + 1, m)
    ensures Mapped(states[m], |states[n].streams|)
  {
    hide Next, Enabled, EndOf, TakesSlot, LeftAlone;
    RegisterMaps(states[n], actions[n]);
    StaysWhileAlone(states, actions, |states[n].streams|, actions[n].slot, n + 1, m);
  }
}
