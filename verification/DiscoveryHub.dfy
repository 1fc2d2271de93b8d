/**
  Discovery frames among listeners and boots when pre-shared keys separate networks
  (peekMapHub, makePeekMapHandler and runMeshUplink in cmd/p2ptap-boot/main.go).
 */
module DiscoveryHub {

  import opened Common

  /** One boot's hub: its listeners, which peers are backbone boots, and the network resolver; none in open mode. */
  datatype Hub = Hub(listeners: set<PeerId>, mesh: set<PeerId>, resolver: Option<map<PeerId, string>>)

  /** The network the resolver gives; empty without one. */
  function Resolve(h: Hub, p: PeerId): (net: string) {
    if h.resolver.Some? then NetworkOf(h.resolver.value, p) else ""
  }

  /** A listener of the frame's network, or a backbone boot unless those are skipped. */
  predicate IsTarget(h: Hub, p: PeerId, exclude: PeerId, skipMesh: bool, netID: string) {
    && p in h.listeners && p != exclude
    && (if p in h.mesh then !skipMesh else netID == "" || Resolve(h, p) == netID)
  }

  function Targets(h: Hub, exclude: PeerId, skipMesh: bool, netID: string): (ts: set<PeerId>) {
    set p | p in h.listeners && IsTarget(h, p, exclude, skipMesh, netID)
  }

  /** The snapshot loop of fanout: who a frame is written to. */
  method FanoutTargets(h: Hub, exclude: PeerId, skipMesh: bool, netID: string) returns (targets: set<PeerId>)
    ensures targets == Targets(h, exclude, skipMesh, netID)
    ensures forall p :: p in targets <==>
              && p in h.listeners && p != exclude
              && (p in h.mesh ==> !skipMesh)
              && (p !in h.mesh && netID != "" ==> h.resolver.Some? && NetworkOf(h.resolver.value, p) == netID)
  {
    targets := {};
    var rest := h.listeners;
    while rest != {}
      invariant rest <= h.listeners
      invariant forall p :: p in targets <==> p in h.listeners && p !in rest && IsTarget(h, p, exclude, skipMesh, netID)
      decreases |rest|
    {
      var p :| p in rest;
      rest := rest - {p};
      if p == exclude {
        continue;
      }
      if skipMesh && p in h.mesh {
        continue;
      }
      if netID != "" && p !in h.mesh && (h.resolver.None? || Resolve(h, p) != netID) {
        continue;
      }
      targets := targets + {p};
    }
  }

  /** What the handler makes of the NetID a frame claims: the NetID it sends on, and the one it filters by. */
  datatype Stamp = Stamp(netID: string, deliver: string)

  /**
    The network part of makePeekMapHandler: a backbone boot's NetID is kept, a client's
    is overwritten by its own network, and None drops an unauthenticated client's frame.
    In open mode the claim is passed on and nothing is filtered.
   */
  function StampFor(h: Hub, remote: PeerId, claimed: string): (s: Option<Stamp>) {
    if remote in h.mesh then Some(Stamp(claimed, claimed))
    else if h.resolver.None? then Some(Stamp(claimed, ""))
    else if Resolve(h, remote) == "" then None
    else Some(Stamp(Resolve(h, remote), Resolve(h, remote)))
  }

  // ---------------------------------------------------------------- All boots together

  /**
    A frame as it travels: the NetID it claims, and, as history, the network its
    publishing client was authenticated in when its boot read it.
   */
  datatype Message = Message(id: nat, netID: string, publisherNet: string)

  datatype Crossing = Crossing(msg: Message, src: PeerId, dest: PeerId)

  /** One write of a frame to a listener, with the writing hub as it was. */
  datatype Write = Write(boot: PeerId, hub: Hub, target: PeerId, msg: Message)

  datatype System = System(hubs: map<PeerId, Hub>, flying: set<Crossing>, writes: set<Write>)

  datatype Event =
    | Publish(boot: PeerId, client: PeerId, id: nat, claimed: string)  // a local client's frame, with any NetID
    | Cross(c: Crossing)                                               // a frame arriving from a backbone boot
    | Change(boot: PeerId, hub: Hub)                                   // listeners, networks or backbone change

  ghost predicate Enabled(s: System, e: Event) {
    match e
    case Publish(b, c, _, _) => b in s.hubs && c !in s.hubs[b].mesh
    case Cross(c) => c in s.flying && c.dest in s.hubs && c.src in s.hubs[c.dest].mesh
    case Change(b, _) => b in s.hubs
  }

  /** Writes msg to the targets; those that are backbone boots will see it arrive. */
  ghost function Fanout(s: System, b: PeerId, msg: Message, exclude: PeerId, skipMesh: bool, netID: string)
    : (s': System)
    requires b in s.hubs
  {
    var h := s.hubs[b];
    var ts := Targets(h, exclude, skipMesh, netID);
    s.(writes := s.writes + (set p | p in ts :: Write(b, h, p, msg)),
       flying := s.flying + (set p | p in ts && p in h.mesh :: Crossing(msg, b, p)))
  }

  /**
    One frame read by a boot: stamped, then broadcast, or kept off the backbone if it
    came from there.  The uplink's pump treats a frame as the handler treats a boot's.
   */
  ghost function Handle(s: System, b: PeerId, remote: PeerId, msg: Message): (s': System)
    requires b in s.hubs
  {
    var h := s.hubs[b];
    match StampFor(h, remote, msg.netID)
    case None => s
    case Some(st) =>
      var fromMesh := remote in h.mesh;
      Fanout(s, b, msg.(netID := st.netID), if fromMesh then "" else remote, fromMesh, st.deliver)
  }

  ghost function Next(s: System, e: Event): (s': System)
    requires Enabled(s, e)
  {
    match e
    case Publish(b, c, id, claimed) => Handle(s, b, c, Message(id, claimed, Resolve(s.hubs[b], c)))
    case Cross(c) => Handle(s.(flying := s.flying - {c}), c.dest, c.src, c.msg)
    case Change(b, h) => s.(hubs := s.hubs[b := h])
  }

  ghost predicate IsRun(states: seq<System>, es: seq<Event>) {
    && |states| == |es| + 1 && states[0].flying == {} && states[0].writes == {}
    && forall i :: 0 <= i < |es| ==> Enabled(states[i], es[i]) && states[i + 1] == Next(states[i], es[i])
  }

  /** Every boot separates networks by pre-shared keys. */
  ghost predicate KeysOn(s: System) {
    forall b :: b in s.hubs ==> s.hubs[b].resolver.Some?
  }

  /** The stamp is the publisher's network, and each write went to that network or to a boot. */
  ghost predicate Isolated(s: System) {
    && (forall c :: c in s.flying ==> c.msg.netID == c.msg.publisherNet != "")
    && (forall w :: w in s.writes ==>
          && w.msg.netID == w.msg.publisherNet != ""
          && (w.target in w.hub.mesh || Resolve(w.hub, w.target) == w.msg.publisherNet))
  }

  /** Whatever a client claims, its frame carries and is filtered by the client's own network, or is dropped. */
  lemma StampIsOwnNetwork(h: Hub, client: PeerId, claimed: string)
    requires h.resolver.Some? && client !in h.mesh
    ensures var net := Resolve(h, client);
            StampFor(h, client, claimed) == if net == "" then None else Some(Stamp(net, net))
  {}

  lemma FanoutKeeps(s: System, b: PeerId, msg: Message, exclude: PeerId, skipMesh: bool)
    requires Isolated(s) && b in s.hubs && msg.netID == msg.publisherNet != ""
    ensures Isolated(Fanout(s, b, msg, exclude, skipMesh, msg.netID))
  {}

  lemma PublishKeeps(s: System, b: PeerId, c: PeerId, id: nat, claimed: string)
    requires Isolated(s) && KeysOn(s) && Enabled(s, Publish(b, c, id, claimed))
    ensures Isolated(Next(s, Publish(b, c, id, claimed)))
  {
    hide Fanout, Resolve, StampFor, Isolated;
    StampIsOwnNetwork(s.hubs[b], c, claimed);
    var net := Resolve(s.hubs[b], c);
    if net != "" {
      FanoutKeeps(s, b, Message(id, net, net), c, false);
    }
  }

  lemma CrossKeeps(s: System, c: Crossing)
    requires Isolated(s) && Enabled(s, Cross(c))
    ensures Isolated(Next(s, Cross(c)))
  {
    hide Fanout;
    FanoutKeeps(s.(flying := s.flying - {c}), c.dest, c.msg, "", true);
  }

  /** A boot never sends a frame back to the backbone it came from. */
  lemma CrossingEnds(s: System, c: Crossing)
    requires Enabled(s, Cross(c))
    ensures Next(s, Cross(c)).flying == s.flying - {c}
  {}

  /**
    Over any run of any number of boots with keys on, and whatever NetID clients claim,
    a client's frame is only ever written to backbone boots or to listeners in the
    network that client published from.
   */
  lemma {:induction false} NetworksIsolated(states: seq<System>, es: seq<Event>, n: nat)
    requires IsRun(states, es) && n <= |es|
    requires forall i :: 0 <= i < n ==> KeysOn(states[i])
    ensures Isolated(states[n])
  {
    if n > 0 {
      hide KeysOn;
      NetworksIsolated(states, es, n - 1);
      hide Next, Isolated;
      var s, e := states[n - 1], es[n - 1];
      assert Enabled(s, e) && states[n] == Next(s, e);
      match e
      case Publish(b, c, id, claimed) => PublishKeeps(s, b, c, id, claimed);
      case Cross(c) => CrossKeeps(s, c);
      case Change(b, h) => ChangeKeeps(s, b, h);
    }
  }

  lemma ChangeKeeps(s: System, b: PeerId, h: Hub)
    requires Isolated(s) && b in s.hubs
    ensures Isolated(Next(s, Change(b, h)))
  {}

  // ---------------------------------------------------------------- Everyone in the network hears

  /** p listens at the hub, is no backbone boot, and is in the network. */
  ghost predicate MemberAt(h: Hub, p: PeerId, net: string) {
    p in h.listeners && p !in h.mesh && h.resolver.Some? && NetworkOf(h.resolver.value, p) == net
  }

  /** What an authenticated client publishes reaches every other member at its boot, and every backbone listener. */
  lemma PublishReaches(s: System, b: PeerId, c: PeerId, id: nat, claimed: string, p: PeerId)
    requires Enabled(s, Publish(b, c, id, claimed)) && s.hubs[b].resolver.Some?
    requires NetworkOf(s.hubs[b].resolver.value, c) != "" && p != c
    ensures var h := s.hubs[b];
            var net := NetworkOf(h.resolver.value, c);
            var msg, s' := Message(id, net, net), Next(s, Publish(b, c, id, claimed));
            && (MemberAt(h, p, net) ==> Write(b, h, p, msg) in s'.writes)
            && (p in h.listeners && p in h.mesh ==>
                  Write(b, h, p, msg) in s'.writes && Crossing(msg, b, p) in s'.flying)
  {
    hide StampFor;
    StampIsOwnNetwork(s.hubs[b], c, claimed);
  }

  /** A frame from the backbone reaches every member of its network at the receiving boot. */
  lemma CrossReaches(s: System, c: Crossing, p: PeerId)
    requires Enabled(s, Cross(c)) && p != "" && MemberAt(s.hubs[c.dest], p, c.msg.netID)
    ensures Write(c.dest, s.hubs[c.dest], p, c.msg) in Next(s, Cross(c)).writes
  {
    var t := s.(flying := s.flying - {c});
    assert p in Targets(t.hubs[c.dest], "", true, c.msg.netID);
  }

  lemma {:induction false} CrossingWaits(states: seq<System>, es: seq<Event>, n: nat, m: nat, c: Crossing)
    requires IsRun(states, es) && n <= m <= |es| && c in states[n].flying && Cross(c) !in es[n..m]
    ensures c in states[m].flying
    decreases m
  {
    if n < m {
      hide StampFor, Targets;
      assert es[n..m] == es[n..m - 1] + [es[m - 1]];
      CrossingWaits(states, es, n, m - 1, c);
      assert Enabled(states[m - 1], es[m - 1]) && states[m] == Next(states[m - 1], es[m - 1]);
    }
  }

  /**
    Over any run: a client's frame published at one boot, and crossing to another that
    listens there, is written to every member of the client's network at both.
   */
  lemma HeardAcross(states: seq<System>, es: seq<Event>, n: nat, m: nat, dest: PeerId, p: PeerId)
    requires IsRun(states, es) && n < m < |es| && es[n].Publish? && p != ""
    requires var h := states[n].hubs[es[n].boot];
             && h.resolver.Some? && NetworkOf(h.resolver.value, es[n].client) != ""
             && dest in h.listeners && dest in h.mesh && dest != es[n].client
    requires var net := NetworkOf(states[n].hubs[es[n].boot].resolver.value, es[n].client);
             && es[m] == Cross(Crossing(Message(es[n].id, net, net), es[n].boot, dest)) && es[m] !in es[n + 1..m]
             && dest in states[m].hubs && MemberAt(states[m].hubs[dest], p, net)
    ensures var net := NetworkOf(states[n].hubs[es[n].boot].resolver.value, es[n].client);
            && es[m].c in states[m].flying
            && Write(dest, states[m].hubs[dest], p, Message(es[n].id, net, net)) in states[m + 1].writes
  {
    hide Next;
    var e := es[n];
    assert Enabled(states[n], e) && states[n + 1] == Next(states[n], e);
    PublishReaches(states[n], e.boot, e.client, e.id, e.claimed, dest);
    CrossingWaits(states, es, n + 1, m, es[m].c);
    assert Enabled(states[m], es[m]) && states[m + 1] == Next(states[m], es[m]);
    CrossReaches(states[m], es[m].c, p);
  }

  /** In open mode every other listener gets what a client publishes, NetID as claimed. */
  lemma OpenPublishReaches(s: System, b: PeerId, c: PeerId, id: nat, claimed: string, p: PeerId)
    requires Enabled(s, Publish(b, c, id, claimed)) && s.hubs[b].resolver.None? && p in s.hubs[b].listeners && p != c
    ensures Write(b, s.hubs[b], p, Message(id, claimed, "")) in Next(s, Publish(b, c, id, claimed)).writes
  {
    assert p in Targets(s.hubs[b], c, false, "");
  }
}
