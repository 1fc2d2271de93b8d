/**
  Boot-relay frames crossing a full mesh of boots (relayRouter.route and its callers
  in cmd/p2ptap-boot/main.go): what one boot decides, and what that means for a frame
  over any run of all boots together.
 */
module RelayMesh {

  import opened Common

  /** The routing fields of a frame; id tells injections apart. */
  datatype Frame = Frame(id: nat, netID: string, finalDst: PeerId, srcPeer: PeerId, ttl: nat)

  /** What a boot knows: registered clients, clients mid-registration, backbone streams, networks. */
  datatype Boot = Boot(clients: set<PeerId>, connecting: set<PeerId>, mesh: set<PeerId>,
                       networks: map<PeerId, string>, pskEnabled: bool)

  datatype Decision = Drop | Deliver | Buffer | Flood(peers: set<PeerId>)

  /** Whether a frame from a local client may come from the source it names. */
  predicate SourceOk(b: Boot, f: Frame, fromPeer: PeerId) {
    if b.pskEnabled then NetworkOf(b.networks, f.srcPeer) != "" && f.netID == NetworkOf(b.networks, f.srcPeer)
    else f.srcPeer == fromPeer
  }

  /** route, on a frame that unpacks. */
  function Route(b: Boot, f: Frame, fromMesh: bool, fromPeer: PeerId): (d: Decision) {
    if !fromMesh && !SourceOk(b, f, fromPeer) then Drop
    else if f.finalDst in b.clients then
      if b.pskEnabled && NetworkOf(b.networks, f.finalDst) != f.netID then Drop else Deliver
    else if fromMesh then
      if f.finalDst in b.connecting then Buffer else Drop
    else if f.finalDst == f.srcPeer then Drop
    else if f.finalDst in b.connecting then Buffer
    else if f.ttl <= 1 || b.mesh == {} then Drop
    else Flood(b.mesh)
  }

  /** Frames from the backbone never go back to it, and neither do self-addressed ones. */
  lemma NeverFlooded(b: Boot, f: Frame, fromMesh: bool, fromPeer: PeerId)
    requires fromMesh || f.finalDst == f.srcPeer
    ensures !Route(b, f, fromMesh, fromPeer).Flood?
  {}

  /** In open mode a client speaks for itself; with keys on, for any member of the network the frame names. */
  lemma SourceAccepted(b: Boot, f: Frame, fromPeer: PeerId)
    ensures !b.pskEnabled ==> (SourceOk(b, f, fromPeer) <==> f.srcPeer == fromPeer)
    ensures b.pskEnabled ==>
              (SourceOk(b, f, fromPeer)
               <==> f.srcPeer in b.networks && b.networks[f.srcPeer] == f.netID && f.netID != "")
  {}

  /**
    Which decision is taken, for every boot and frame from an accepted source: delivery
    to a registered client of the frame's network, buffering for one that is registering,
    flooding for a client's frame to somewhere else that may still travel; else nothing.
   */
  lemma RouteExactly(b: Boot, f: Frame, fromMesh: bool, fromPeer: PeerId)
    ensures !fromMesh && !SourceOk(b, f, fromPeer) ==> Route(b, f, fromMesh, fromPeer) == Drop
    ensures fromMesh || SourceOk(b, f, fromPeer) ==>
              var d := Route(b, f, fromMesh, fromPeer);
              && (d == Deliver <==> f.finalDst in b.clients
                                    && (b.pskEnabled ==> NetworkOf(b.networks, f.finalDst) == f.netID))
              && (d == Buffer <==> f.finalDst !in b.clients && f.finalDst in b.connecting
                                   && (fromMesh || f.finalDst != f.srcPeer))
              && (d.Flood? <==> !fromMesh && f.finalDst !in b.clients + b.connecting + {f.srcPeer}
                                && f.ttl >= 2 && b.mesh != {})
              && (d.Flood? ==> d.peers == b.mesh)
  {}

  // ---------------------------------------------------------------- All boots together

  /** One call of route: where, for what frame, from where, with what result. */
  datatype Entry = Entry(boot: PeerId, frame: Frame, fromMesh: bool, decision: Decision)

  /** A copy of a frame on its way to a boot. */
  datatype Copy = Copy(frame: Frame, dest: PeerId)

  datatype Mesh = Mesh(boots: map<PeerId, Boot>, flying: set<Copy>, log: seq<Entry>)

  /** A boot routes a frame of a client or of the backbone; reached are the peers whose queue then takes it. */
  datatype Event =
    | Inject(boot: PeerId, client: PeerId, frame: Frame, reached: set<PeerId>)
    | Receive(copy: Copy, reached: set<PeerId>)
    | Lose(copy: Copy)
    | Change(boot: PeerId, state: Boot)

  /** Only boots are in the mesh, and no boot is its own mesh peer. */
  ghost predicate MeshConfig(boots: map<PeerId, Boot>) {
    forall b :: b in boots ==> boots[b].mesh <= boots.Keys - {b}
  }

  ghost predicate Unseen(log: seq<Entry>, id: nat) {
    forall i :: 0 <= i < |log| ==> log[i].frame.id != id
  }

  ghost predicate Fresh(m: Mesh, id: nat) {
    Unseen(m.log, id) && forall c :: c in m.flying ==> c.frame.id != id
  }

  /** What the routing boot decides. */
  function DecisionOf(m: Mesh, e: Event): (d: Decision)
    requires (e.Inject? && e.boot in m.boots) || (e.Receive? && e.copy.dest in m.boots)
  {
    if e.Inject? then Route(m.boots[e.boot], e.frame, false, e.client)
    else Route(m.boots[e.copy.dest], e.copy.frame, true, "")
  }

  /** Only a flood puts copies on the backbone, and only towards the peers it names. */
  predicate ReachOk(d: Decision, reached: set<PeerId>) {
    reached <= if d.Flood? then d.peers else {}
  }

  ghost predicate Enabled(m: Mesh, e: Event) {
    match e
    case Inject(b, c, f, reached) => b in m.boots && Fresh(m, f.id) && ReachOk(DecisionOf(m, e), reached)
    case Receive(c, reached) => c in m.flying && c.dest in m.boots && ReachOk(DecisionOf(m, e), reached)
    case Lose(c) => c in m.flying
    case Change(b, s) => b in m.boots && s.mesh <= m.boots.Keys - {b}
  }

  function Copies(f: Frame, peers: set<PeerId>): (cs: set<Copy>) {
    set p | p in peers :: Copy(f, p)
  }

  ghost function Next(m: Mesh, e: Event): (m': Mesh)
    requires Enabled(m, e)
  {
    match e
    case Inject(b, c, f, reached) =>
      m.(log := m.log + [Entry(b, f, false, DecisionOf(m, e))], flying := m.flying + Copies(f, reached))
    case Receive(c, reached) =>
      m.(log := m.log + [Entry(c.dest, c.frame, true, DecisionOf(m, e))],
         flying := (m.flying - {c}) + Copies(c.frame, reached))
    case Lose(c) => m.(flying := m.flying - {c})
    case Change(b, s) => m.(boots := m.boots[b := s])
  }

  ghost predicate IsRun(states: seq<Mesh>, es: seq<Event>) {
    && |states| == |es| + 1 && states[0].flying == {} && states[0].log == [] && MeshConfig(states[0].boots)
    && forall i :: 0 <= i < |es| ==> Enabled(states[i], es[i]) && states[i + 1] == Next(states[i], es[i])
  }

  // ---------------------------------------------------------------- Where a frame has been

  /** No boot routes a frame twice. */
  ghost predicate RoutedOnce(log: seq<Entry>) {
    forall i, j :: 0 <= i < j < |log| && log[i].frame.id == log[j].frame.id ==> log[i].boot != log[j].boot
  }

  /** A boot that routed a frame has no copy of it still to receive. */
  ghost predicate NotAgain(log: seq<Entry>, flying: set<Copy>) {
    forall i, c :: 0 <= i < |log| && c in flying && c.frame.id == log[i].frame.id ==> c.dest != log[i].boot
  }

  ghost predicate MeshOk(m: Mesh) {
    && MeshConfig(m.boots) && RoutedOnce(m.log) && NotAgain(m.log, m.flying)
    && (forall i :: 0 <= i < |m.log| ==> m.log[i].boot in m.boots)
    && (forall c :: c in m.flying ==> c.dest in m.boots)
    && (forall c, c' :: c in m.flying && c' in m.flying && c.frame.id == c'.frame.id ==> c.frame == c'.frame)
    && (forall i :: 0 <= i < |m.log| && m.log[i].fromMesh ==> !m.log[i].decision.Flood?)
  }

  lemma InjectKeeps(m: Mesh, e: Event)
    requires MeshOk(m) && e.Inject? && Enabled(m, e)
    ensures MeshOk(Next(m, e))
  {
    hide Route;
    var m' := Next(m, e);
    assert forall c :: c in m'.flying && c.frame.id == e.frame.id ==> c.frame == e.frame && c.dest in e.reached;
    ReachedPeers(m, e);
    assert RoutedOnce(m'.log);
    assert NotAgain(m'.log, m'.flying);
  }

  lemma FloodsMesh(b: Boot, f: Frame, client: PeerId)
    ensures var d := Route(b, f, false, client); d.Flood? ==> d.peers == b.mesh && SourceOk(b, f, client)
  {}

  /** A frame from the backbone puts nothing on the backbone. */
  lemma ReceiveReachesNone(m: Mesh, e: Event)
    requires e.Receive? && Enabled(m, e)
    ensures e.reached == {} && !DecisionOf(m, e).Flood?
  {
    hide Route;
    NeverFlooded(m.boots[e.copy.dest], e.copy.frame, true, "");
  }

  lemma ReceiveKeeps(m: Mesh, e: Event)
    requires MeshOk(m) && e.Receive? && Enabled(m, e)
    ensures MeshOk(Next(m, e))
  {
    hide DecisionOf;
    ReceiveReachesNone(m, e);
    var m', c := Next(m, e), e.copy;
    assert m'.flying == m.flying - {c};
    assert forall d :: d in m'.flying && d.frame.id == c.frame.id ==> d.dest != c.dest;
    assert RoutedOnce(m'.log);
    assert NotAgain(m'.log, m'.flying);
  }

  lemma NextKeeps(m: Mesh, e: Event)
    requires MeshOk(m) && Enabled(m, e)
    ensures MeshOk(Next(m, e)) && Next(m, e).boots.Keys == m.boots.Keys
  {
    hide Route;
    match e
    case Inject(_, _, _, _) => InjectKeeps(m, e);
    case Receive(_, _) => ReceiveKeeps(m, e);
    case Lose(_) =>
    case Change(_, _) =>
  }

  lemma {:induction false} RunOk(states: seq<Mesh>, es: seq<Event>, n: nat)
    requires IsRun(states, es) && n <= |es|
    ensures MeshOk(states[n]) && states[n].boots.Keys == states[0].boots.Keys
  {
    if n > 0 {
      hide Next, MeshOk, Enabled;
      RunOk(states, es, n - 1);
      NextKeeps(states[n - 1], es[n - 1]);
    }
  }

  // ---------------------------------------------------------------- Bounds per frame

  /** How often the frame was routed, over all boots. */
  ghost function RouteSteps(log: seq<Entry>, id: nat): (c: nat) {
    if log == [] then 0
    else RouteSteps(log[..|log| - 1], id) + if log[|log| - 1].frame.id == id then 1 else 0
  }

  /** The boots that routed the frame. */
  ghost function Routed(log: seq<Entry>, id: nat): (s: set<PeerId>)
    ensures forall b :: b in s ==> exists i :: 0 <= i < |log| && log[i].frame.id == id && log[i].boot == b
  {
    if log == [] then {}
    else
      var front, last := log[..|log| - 1], log[|log| - 1];
      Routed(front, id) + if last.frame.id == id then {last.boot} else {}
  }

  lemma {:induction false} StepsAreBoots(log: seq<Entry>, id: nat)
    requires RoutedOnce(log)
    ensures RouteSteps(log, id) == |Routed(log, id)|
    decreases |log|
  {
    if log != [] {
      var n := |log| - 1;
      StepsAreBoots(log[..n], id);
      assert log[n].frame.id == id ==> log[n].boot !in Routed(log[..n], id);
    }
  }

  /** How often the boot handed the frame to a client's queue or kept it for one that is registering. */
  ghost function Handed(log: seq<Entry>, boot: PeerId, id: nat): (c: nat) {
    if log == [] then 0
    else
      var front, last := log[..|log| - 1], log[|log| - 1];
      Handed(front, boot, id)
        + if last.boot == boot && last.frame.id == id && (last.decision.Deliver? || last.decision.Buffer?) then 1 else 0
  }

  lemma {:induction false} HandedOnce(log: seq<Entry>, boot: PeerId, id: nat)
    requires RoutedOnce(log)
    ensures Handed(log, boot, id) <= 1
    ensures Handed(log, boot, id) > 0 ==> boot in Routed(log, id)
    decreases |log|
  {
    if log != [] {
      var n := |log| - 1;
      HandedOnce(log[..n], boot, id);
      assert log[n].frame.id == id ==> log[n].boot !in Routed(log[..n], id);
    }
  }

  /**
    In a mesh of N boots every frame is routed at most N times and at most once by each
    boot, which hands at most one copy to a client or to its registration buffer.
   */
  lemma AtMostOnePerBoot(states: seq<Mesh>, es: seq<Event>, n: nat, id: nat, boot: PeerId)
    requires IsRun(states, es) && n <= |es|
    ensures RoutedOnce(states[n].log)
    ensures RouteSteps(states[n].log, id) <= |states[0].boots|
    ensures Handed(states[n].log, boot, id) <= 1
    ensures forall i :: 0 <= i < |states[n].log| && states[n].log[i].fromMesh ==> !states[n].log[i].decision.Flood?
  {
    hide Next, Enabled;
    RunOk(states, es, n);
    var log := states[n].log;
    StepsAreBoots(log, id);
    HandedOnce(log, boot, id);
    SubsetSize(Routed(log, id), states[n].boots.Keys);
  }

  /** How many copies of the frame one event puts on the backbone. */
  function Puts(e: Event, id: nat): (c: nat) {
    match e
    case Inject(_, _, f, reached) => if f.id == id then |reached| else 0
    case Receive(c, reached) => if c.frame.id == id then |reached| else 0
    case Lose(_) => 0
    case Change(_, _) => 0
  }

  /** How many copies of the frame the first n events put on the backbone. */
  ghost function Enqueued(es: seq<Event>, id: nat, n: nat): (c: nat)
    requires n <= |es|
  {
    if n == 0 then 0 else Enqueued(es, id, n - 1) + Puts(es[n - 1], id)
  }

  lemma PutsByInjection(m: Mesh, e: Event, id: nat)
    requires Enabled(m, e) && Puts(e, id) > 0
    ensures e.Inject? && e.frame.id == id
  {
    hide DecisionOf;
    if e.Receive? { ReceiveReachesNone(m, e); }
  }

  lemma {:induction false} NoneBeforeInjection(states: seq<Mesh>, es: seq<Event>, n: nat, id: nat)
    requires IsRun(states, es) && n <= |es| && Unseen(states[n].log, id)
    ensures Enqueued(es, id, n) == 0
  {
    hide Route, DecisionOf, Puts;
    if n > 0 {
      var m, m', e := states[n - 1], states[n], es[n - 1];
      assert Enabled(m, e) && m' == Next(m, e) && m.log <= m'.log;
      assert e.Inject? ==> m'.log[|m.log|].frame == e.frame;
      NoneBeforeInjection(states, es, n - 1, id);
      if Puts(e, id) > 0 { PutsByInjection(m, e, id); }
    }
  }

  /** In a mesh of N boots every frame causes at most N-1 enqueues on the backbone. */
  lemma {:induction false} BackboneBound(states: seq<Mesh>, es: seq<Event>, n: nat, id: nat)
    requires IsRun(states, es) && n <= |es|
    ensures Enqueued(es, id, n) == 0 || Enqueued(es, id, n) < |states[0].boots|
  {
    hide Route, DecisionOf, Next, MeshOk, Puts;
    if n > 0 {
      BackboneBound(states, es, n - 1, id);
      var m, e := states[n - 1], es[n - 1];
      assert Enabled(m, e);
      if Puts(e, id) > 0 {
        PutsByInjection(m, e, id);
        NoneBeforeInjection(states, es, n - 1, id);
        RunOk(states, es, n - 1);
        ReachBound(m, e);
        InjectPuts(e);
      }
    }
  }

  lemma InjectPuts(e: Event)
    requires e.Inject?
    ensures Puts(e, e.frame.id) == |e.reached|
  {}

  lemma ReachedPeers(m: Mesh, e: Event)
    requires MeshOk(m) && e.Inject? && Enabled(m, e)
    ensures e.reached <= m.boots.Keys - {e.boot}
    ensures e.reached != {} ==> SourceOk(m.boots[e.boot], e.frame, e.client)
  {
    hide Route;
    FloodsMesh(m.boots[e.boot], e.frame, e.client);
  }

  lemma ReachBound(m: Mesh, e: Event)
    requires MeshOk(m) && e.Inject? && Enabled(m, e)
    ensures |e.reached| < |m.boots.Keys| && |m.boots.Keys| == |m.boots|
  {
    hide Route;
    ReachedPeers(m, e);
    SubsetSize(e.reached, m.boots.Keys - {e.boot});
    assert m.boots.Keys == (m.boots.Keys - {e.boot}) + {e.boot};
  }

  // ---------------------------------------------------------------- Networks stay apart

  /** Every copy in the air was injected by a client that its boot accepted as the frame's source. */
  lemma {:induction false} OriginOf(states: seq<Mesh>, es: seq<Event>, n: nat, c: Copy) returns (o: nat)
    requires IsRun(states, es) && n <= |es| && c in states[n].flying
    ensures o < n && es[o].Inject? && es[o].frame == c.frame && es[o].boot in states[o].boots
    ensures SourceOk(states[o].boots[es[o].boot], c.frame, es[o].client)
  {
    hide Route, MeshOk, SourceOk;
    if n == 0 {
      assert false;
    }
    var m, e := states[n - 1], es[n - 1];
    assert states[n] == Next(m, e) && Enabled(m, e);
    if c in m.flying {
      o := OriginOf(states, es, n - 1, c);
    } else {
      if e.Receive? { ReceiveReachesNone(m, e); }
      o := n - 1;
      RunOk(states, es, n - 1);
      ReachedPeers(m, e);
    }
  }

  /**
    With pre-shared keys on both boots, a frame that crossed the backbone is handed to
    a registered client only if that client's network is the one its source was
    authenticated in when it was injected.
   */
  lemma DeliveredWithinNetwork(states: seq<Mesh>, es: seq<Event>, n: nat) returns (o: nat)
    requires IsRun(states, es) && n < |es| && es[n].Receive?
    requires var c := es[n].copy; Route(states[n].boots[c.dest], c.frame, true, "") == Deliver
    requires states[n].boots[es[n].copy.dest].pskEnabled
    ensures o < n && es[o].Inject? && es[o].frame == es[n].copy.frame && es[o].boot in states[o].boots
    ensures var origin, dest, f := states[o].boots[es[o].boot], states[n].boots[es[n].copy.dest], es[n].copy.frame;
            origin.pskEnabled ==>
              NetworkOf(origin.networks, f.srcPeer) == NetworkOf(dest.networks, f.finalDst) != ""
  {
    hide Next;
    assert Enabled(states[n], es[n]);
    o := OriginOf(states, es, n, es[n].copy);
  }

  // ---------------------------------------------------------------- Frames do arrive

  /** A client's frame for somewhere else that may still travel, taken by every backbone queue. */
  ghost predicate Flooded(m: Mesh, e: Event) {
    && e.Inject? && e.boot in m.boots
    && var b, f := m.boots[e.boot], e.frame;
       && SourceOk(b, f, e.client) && f.finalDst !in b.clients + b.connecting + {f.srcPeer} && f.ttl >= 2
       && e.reached == b.mesh
  }

  /** A flooded frame waits for every mesh peer until it is received or lost on the way. */
  lemma {:induction false} CopyWaits(states: seq<Mesh>, es: seq<Event>, n: nat, m: nat, d: PeerId)
    requires IsRun(states, es) && n < m <= |es| && Flooded(states[n], es[n]) && d in states[n].boots[es[n].boot].mesh
    requires forall i :: n < i < m ==> !((es[i].Receive? || es[i].Lose?) && es[i].copy == Copy(es[n].frame, d))
    ensures Copy(es[n].frame, d) in states[m].flying
    decreases m
  {
    hide Route, DecisionOf, SourceOk;
    assert Enabled(states[m - 1], es[m - 1]) && states[m] == Next(states[m - 1], es[m - 1]);
    if m == n + 1 {
      assert d in es[n].reached;
    } else {
      CopyWaits(states, es, n, m - 1, d);
    }
  }

  /**
    A frame flooded by one boot and received at the boot where its destination is
    registered, in the frame's network, is delivered there.
   */
  lemma DeliveredAcross(states: seq<Mesh>, es: seq<Event>, n: nat, m: nat, d: PeerId)
    requires IsRun(states, es) && n < m < |es| && Flooded(states[n], es[n])
    requires es[m].Receive? && es[m].copy == Copy(es[n].frame, d)
    requires var b, f := states[m].boots[d], es[n].frame;
             f.finalDst in b.clients && (b.pskEnabled ==> NetworkOf(b.networks, f.finalDst) == f.netID)
    ensures states[m + 1].log == states[m].log + [Entry(d, es[n].frame, true, Deliver)]
  {
    hide Route, SourceOk;
    assert Enabled(states[m], es[m]) && states[m + 1] == Next(states[m], es[m]);
    RouteExactly(states[m].boots[d], es[n].frame, true, "");
  }

  /** Such a flood is what the boot does: its decision names every mesh peer. */
  lemma FloodEnabled(m: Mesh, e: Event)
    requires Flooded(m, e) && m.boots[e.boot].mesh != {} && Fresh(m, e.frame.id)
    ensures Enabled(m, e) && DecisionOf(m, e) == Flood(m.boots[e.boot].mesh)
  {
    hide Route, SourceOk;
    RouteExactly(m.boots[e.boot], e.frame, false, e.client);
  }
}
