/**
  The ACL engine (pkg/node/acl.go) and the partial matcher at relay hops
  (pkg/node/acl_stats.go), for any behaviour of the library's case folding and CIDR
  parsing.
 */
module AccessControl {
  import opened PacketFacts
  import opened Common

  type Cidr = nat

  /** Library calls the engine relies on. */
  datatype Lib = Lib(lower: string -> string, parseCidr: string -> Option<Cidr>, contains: (Cidr, Bytes) -> bool)

  datatype Rule = Rule(ruleID: string, action: string, direction: string, peerID: string,
                       ipCIDR: string, protocol: string, port: string)

  datatype Config = Config(enable: bool, defaultAction: string, rules: seq<Rule>)

  // ---------------------------------------------------------------- Ports

  predicate IsDigit(c: char) {
    '0' <= c <= '9'
  }

  function Digits(s: string): (n: Option<nat>) {
    if s == "" then Some(0)
    else
      var front := Digits(s[..|s| - 1]);
      var c := s[|s| - 1];
      if front.None? || !IsDigit(c) then None else Some(front.value * 10 + (c as int - '0' as int))
  }

  /** strconv.Atoi: an optional sign, one or more digits, in the range of a 64-bit integer. */
  function Atoi(s: string): (n: Option<int>) {
    var signed := s != "" && (s[0] == '-' || s[0] == '+');
    var body := if signed then s[1..] else s;
    var digits := if body == "" then None else Digits(body);
    if digits.None? then None
    else
      var d: int := digits.value;
      var v := if signed && s[0] == '-' then -d else d;
      if -0x8000_0000_0000_0000 <= v < 0x8000_0000_0000_0000 then Some(v) else None
  }

  function IndexOfDash(s: string, from: nat): (i: nat)
    requires from <= |s|
    ensures from <= i <= |s| && (i < |s| ==> s[i] == '-') && forall j :: from <= j < i ==> s[j] != '-'
    decreases |s| - from
  {
    if from == |s| || s[from] == '-' then from else IndexOfDash(s, from + 1)
  }

  /** parseACLPort: inclusive bounds, or None for anything malformed. */
  function ParseACLPort(port: string): (r: Option<(int, int)>)
    ensures r.Some? ==> 0 <= r.value.0 <= r.value.1
    ensures r.Some? && '-' !in port ==> r.value.0 == r.value.1 <= 65535
  {
    var i := IndexOfDash(port, 0);
    if i < |port| then
      var lo, hi := Atoi(port[..i]), Atoi(port[i + 1..]);
      if lo.None? || hi.None? || lo.value < 0 || hi.value < 0 || lo.value > hi.value then None
      else Some((lo.value, hi.value))
    else
      var p := Atoi(port);
      if p.None? || p.value < 0 || p.value > 65535 then None else Some((p.value, p.value))
  }

  /** A number in decimal, without leading zeros. */
  function ToDecimal(n: nat): (s: string)
    ensures |s| >= 1 && forall i :: 0 <= i < |s| ==> IsDigit(s[i])
  {
    if n < 10 then ["0123456789"[n]] else ToDecimal(n / 10) + ["0123456789"[n % 10]]
  }

  lemma DigitValue(d: nat)
    requires d < 10
    ensures "0123456789"[d] as int - '0' as int == d
  {}

  lemma {:induction false} DigitsOfDecimal(n: nat)
    ensures Digits(ToDecimal(n)) == Some(n)
  {
    var s := ToDecimal(n);
    DigitValue(n % 10);
    if n < 10 {
      assert s[..|s| - 1] == "";
      assert Digits("") == Some(0);
    } else {
      DigitsOfDecimal(n / 10);
      assert s[..|s| - 1] == ToDecimal(n / 10);
    }
  }

  lemma AtoiDecimal(n: nat)
    requires n < 0x8000_0000_0000_0000
    ensures Atoi(ToDecimal(n)) == Some(n)
  {
    hide Digits;
    DigitsOfDecimal(n);
    assert IsDigit(ToDecimal(n)[0]);
  }

  lemma {:induction false} DigitsOnly(s: string, i: nat)
    requires i < |s| && !IsDigit(s[i])
    ensures Digits(s) == None
  {
    if i < |s| - 1 {
      DigitsOnly(s[..|s| - 1], i);
    }
  }

  lemma AtoiRejects(s: string, i: nat)
    requires i < |s| && !IsDigit(s[i]) && s[i] != '-' && s[i] != '+'
    ensures Atoi(s) == None
  {
    hide Digits;
    if s[0] == '-' || s[0] == '+' {
      assert s[1..][i - 1] == s[i];
      DigitsOnly(s[1..], i - 1);
    } else {
      DigitsOnly(s, i);
    }
  }

  /** A port as it is written reads as that port; above 65535 it is malformed. */
  lemma PortReads(n: nat)
    requires n < 0x8000_0000_0000_0000
    ensures ParseACLPort(ToDecimal(n)) == if n <= 65535 then Some((n, n)) else None
  {
    hide Atoi, ToDecimal;
    AtoiDecimal(n);
  }

  /** A range as it is written reads as its bounds; a reversed one is malformed. */
  lemma RangeReads(a: nat, b: nat)
    requires a < 0x8000_0000_0000_0000 && b < 0x8000_0000_0000_0000
    ensures ParseACLPort(ToDecimal(a) + "-" + ToDecimal(b)) == if a <= b then Some((a, b)) else None
  {
    hide Atoi, ToDecimal;
    var lo, hi := ToDecimal(a), ToDecimal(b);
    var s := lo + "-" + hi;
    var i := IndexOfDash(s, 0);
    assert forall j :: 0 <= j < |lo| ==> s[j] == lo[j] && IsDigit(lo[j]);
    assert s[|lo|] == '-';
    assert i == |lo|;
    assert s[..i] == lo && s[i + 1..] == hi;
    AtoiDecimal(a);
    AtoiDecimal(b);
  }

  /** A plus sign changes nothing; text that starts with a dash is malformed. */
  lemma SignedPort(n: nat, rest: string)
    requires n <= 65535
    ensures ParseACLPort("+" + ToDecimal(n)) == Some((n, n)) && ParseACLPort("-" + rest) == None
  {
    hide Digits, ToDecimal;
    var s := "+" + ToDecimal(n);
    DigitsOfDecimal(n);
    assert s[1..] == ToDecimal(n) && s[0] == '+';
    assert forall j :: 1 <= j < |s| ==> s[j] == ToDecimal(n)[j - 1] && IsDigit(s[j]);
    assert Atoi(s) == Some(n);
    assert ("-" + rest)[..0] == "" && Atoi("") == None;
  }

  /** Text with any other character than digits and signs is malformed. */
  lemma MalformedPort(port: string, i: nat)
    requires i < |port| && !IsDigit(port[i]) && port[i] != '-' && port[i] != '+'
    ensures ParseACLPort(port) == None
  {
    hide Atoi;
    var d := IndexOfDash(port, 0);
    if d == |port| {
      AtoiRejects(port, i);
    } else if i < d {
      AtoiRejects(port[..d], i);
    } else {
      assert port[d + 1..][i - d - 1] == port[i];
      AtoiRejects(port[d + 1..], i - d - 1);
    }
  }

  // ---------------------------------------------------------------- What a raw rule means

  predicate HasPort(r: Rule) {
    r.port != "" && r.port != "0"
  }

  predicate BindsIP(r: Rule) {
    r.ipCIDR != "" && r.ipCIDR != "*"
  }

  predicate AnyProtocol(lib: Lib, r: Rule) {
    lib.lower(r.protocol) in {"", "any"}
  }

  predicate PortCovers(r: Rule, t: Transport) {
    var bounds := ParseACLPort(r.port);
    t.portsAvailable && bounds.Some? && bounds.value.0 <= t.port <= bounds.value.1
  }

  predicate IPCovers(lib: Lib, r: Rule, ip: Bytes) {
    lib.parseCidr(r.ipCIDR).Some? && lib.contains(lib.parseCidr(r.ipCIDR).value, ip)
  }

  /** The rule names the other direction only. */
  predicate OtherDirection(lib: Lib, r: Rule, isTx: bool) {
    lib.lower(r.direction) == if isTx then "inbound" else "outbound"
  }

  predicate PeerMatches(r: Rule, peer: string) {
    r.peerID == "" || r.peerID == "*" || r.peerID == peer
  }

  /** The rule applies to the packet. */
  predicate Applies(lib: Lib, r: Rule, f: Facts, peer: string, isTx: bool) {
    && !OtherDirection(lib, r, isTx) && PeerMatches(r, peer)
    && (AnyProtocol(lib, r) || lib.lower(r.protocol) == f.transport.proto)
    && (HasPort(r) ==> PortCovers(r, f.transport))
    && (BindsIP(r) ==> IPCovers(lib, r, f.dstIP))
  }

  predicate ActionAllows(action: string) {
    action in {"accept", "allow", ""}
  }

  /** The position of the first rule that applies, in configuration order; past the end when none does. */
  function FirstMatch(lib: Lib, rules: seq<Rule>, f: Facts, peer: string, isTx: bool): (i: nat)
    ensures i <= |rules|
    ensures i < |rules| ==> Applies(lib, rules[i], f, peer, isTx)
    ensures forall j :: 0 <= j < i ==> !Applies(lib, rules[j], f, peer, isTx)
  {
    if rules == [] || Applies(lib, rules[0], f, peer, isTx) then 0
    else 1 + FirstMatch(lib, rules[1..], f, peer, isTx)
  }

  function At(rules: seq<Rule>, i: nat): (r: Option<Rule>) {
    if i < |rules| then Some(rules[i]) else None
  }

  /** The verdict and the ID of the rule behind it, empty for the default action. */
  function Decide(lib: Lib, defaultAction: string, match_: Option<Rule>): (r: (bool, string)) {
    match match_
    case Some(r) => (ActionAllows(lib.lower(r.action)), r.ruleID)
    case None => (ActionAllows(lib.lower(defaultAction)), "")
  }

  /** First-match-wins on the rules as written. */
  function Interpret(lib: Lib, cfg: Config, frame: Bytes, peer: string, isTx: bool): (r: (bool, string)) {
    match FactsOf(frame)
    case None => Decide(lib, cfg.defaultAction, None)
    case Some(f) => Decide(lib, cfg.defaultAction, At(cfg.rules, FirstMatch(lib, cfg.rules, f, peer, isTx)))
  }

  // ---------------------------------------------------------------- Compiled rules

  datatype CompiledRule = CompiledRule(
    ruleID: string, directionBound: bool, directionIsTx: bool, peerAny: bool, peerID: string, proto: string,
    hasPort: bool, portValid: bool, portMin: int, portMax: int,
    ipBinds: bool, ipValid: bool, ipNet: Cidr, allow: bool)

  datatype CompiledACL = CompiledACL(defaultAllow: bool, rules: seq<CompiledRule>)

  predicate DirectionPasses(c: CompiledRule, isTx: bool) {
    !c.directionBound || c.directionIsTx == isTx
  }

  predicate PortPasses(c: CompiledRule, t: Transport) {
    !c.hasPort || (t.portsAvailable && c.portValid && c.portMin <= t.port <= c.portMax)
  }

  predicate IPPasses(lib: Lib, c: CompiledRule, ip: Bytes) {
    !c.ipBinds || (c.ipValid && lib.contains(c.ipNet, ip))
  }

  /** The tests the matcher makes on a compiled rule; no string is parsed any more. */
  predicate CompiledApplies(lib: Lib, c: CompiledRule, f: Facts, peer: string, isTx: bool) {
    && DirectionPasses(c, isTx) && (c.peerAny || c.peerID == peer)
    && (c.proto in {"", "any"} || c.proto == f.transport.proto)
    && PortPasses(c, f.transport) && IPPasses(lib, c, f.dstIP)
  }

  /** A compiled rule stands for a raw one: it applies to the same packets and says the same about them. */
  ghost predicate StandsFor(lib: Lib, c: CompiledRule, r: Rule) {
    && c.ruleID == r.ruleID && c.allow == ActionAllows(lib.lower(r.action))
    && forall f: Facts, peer: string, isTx: bool ::
         CompiledApplies(lib, c, f, peer, isTx) <==> Applies(lib, r, f, peer, isTx)
  }

  ghost predicate AllCompiled(lib: Lib, c: CompiledACL, cfg: Config) {
    && c.defaultAllow == ActionAllows(lib.lower(cfg.defaultAction)) && |c.rules| == |cfg.rules|
    && forall i :: 0 <= i < |c.rules| ==> StandsFor(lib, c.rules[i], cfg.rules[i])
  }

  /** compileACL: malformed ports and CIDRs stay in the list, marked as never matching. */
  method CompileACL(lib: Lib, cfg: Config) returns (c: CompiledACL)
    ensures AllCompiled(lib, c, cfg)
  {
    hide StandsFor;
    c := CompiledACL(ActionAllows(lib.lower(cfg.defaultAction)), []);
    for i := 0 to |cfg.rules|
      invariant c.defaultAllow == ActionAllows(lib.lower(cfg.defaultAction)) && |c.rules| == i
      invariant forall j :: 0 <= j < i ==> StandsFor(lib, c.rules[j], cfg.rules[j])
    {
      var rule := CompileRule(lib, cfg.rules[i]);
      c := c.(rules := c.rules + [rule]);
    }
  }

  /** One round of compileACL: on every packet, peer and direction the compiled rule applies as the raw one does. */
  method CompileRule(lib: Lib, rule: Rule) returns (r: CompiledRule)
    ensures StandsFor(lib, r, rule)
  {
    hide ParseACLPort, ActionAllows;
    var dir := lib.lower(rule.direction);
    var bound := dir == "inbound" || dir == "outbound";
    var hasPort := rule.port != "" && rule.port != "0";
    var portValid, portMin, portMax := false, 0, 0;
    if hasPort {
      var bounds := ParseACLPort(rule.port);
      if bounds.Some? {
        portValid, portMin, portMax := true, bounds.value.0, bounds.value.1;
      }
    }
    var ipBinds := rule.ipCIDR != "" && rule.ipCIDR != "*";
    var ipValid, ipNet := false, 0;
    if ipBinds {
      var parsed := lib.parseCidr(rule.ipCIDR);
      if parsed.Some? {
        ipValid, ipNet := true, parsed.value;
      }
    }
    r := CompiledRule(rule.ruleID, bound, bound && dir == "outbound",
                      rule.peerID == "" || rule.peerID == "*", rule.peerID, lib.lower(rule.protocol),
                      hasPort, portValid, portMin, portMax, ipBinds, ipValid, ipNet,
                      ActionAllows(lib.lower(rule.action)));
    forall f: Facts, peer: string, isTx: bool
      ensures CompiledApplies(lib, r, f, peer, isTx) <==> Applies(lib, rule, f, peer, isTx)
    {
      assert PortPasses(r, f.transport) <==> (HasPort(rule) ==> PortCovers(rule, f.transport));
      assert IPPasses(lib, r, f.dstIP) <==> (BindsIP(rule) ==> IPCovers(lib, rule, f.dstIP));
    }
  }

  /** matchCompiledRules on a compiled configuration is first-match-wins on the raw rules. */
  method MatchCompiledRules(lib: Lib, c: CompiledACL, ghost cfg: Config, frame: Bytes, peer: string, isTx: bool)
    returns (allowed: bool, ruleID: string)
    requires AllCompiled(lib, c, cfg)
    ensures (allowed, ruleID) == Interpret(lib, cfg, frame, peer, isTx)
  {
    hide FactsOf, Applies, ActionAllows, FirstMatch;
    var facts := FactsOf(frame);
    if facts.None? {
      return c.defaultAllow, "";
    }
    var f := facts.value;
    var t := f.transport;
    for i := 0 to |c.rules|
      invariant forall j :: 0 <= j < i ==> !Applies(lib, cfg.rules[j], f, peer, isTx)
    {
      var r := c.rules[i];
      assert StandsFor(lib, r, cfg.rules[i]);
      assert CompiledApplies(lib, r, f, peer, isTx) <==> Applies(lib, cfg.rules[i], f, peer, isTx);
      if r.directionBound && r.directionIsTx != isTx {
        continue;
      }
      if !r.peerAny && r.peerID != peer {
        continue;
      }
      if r.proto != "" && r.proto != "any" && r.proto != t.proto {
        continue;
      }
      if r.hasPort {
        if !t.portsAvailable || !r.portValid {
          continue;
        }
        if t.port < r.portMin || t.port > r.portMax {
          continue;
        }
      }
      if r.ipBinds && (!r.ipValid || !lib.contains(r.ipNet, f.dstIP)) {
        continue;
      }
      assert FirstMatch(lib, cfg.rules, f, peer, isTx) == i;
      return r.allow, r.ruleID;
    }
    assert FirstMatch(lib, cfg.rules, f, peer, isTx) == |cfg.rules|;
    return c.defaultAllow, "";
  }

  // ---------------------------------------------------------------- One rule, literally

  /** Case folding and CIDR parsing leave the words of a rule as they are. */
  ghost predicate PlainWords(lib: Lib, words: set<string>) {
    forall w :: w in words ==> lib.lower(w) == w
  }

  /**
    A configuration that accepts by default and drops TCP from or to one peer, one port
    and one CIDR in one direction drops exactly that traffic and nothing else.
   */
  lemma OneRuleDrops(lib: Lib, id: string, peerID: string, n: nat, cidr: string, direction: string,
                     frame: Bytes, peer: string, isTx: bool)
    requires PlainWords(lib, {"drop", "accept", "inbound", "outbound", "tcp"})
    requires direction == "inbound" || direction == "outbound"
    requires peerID != "" && peerID != "*" && cidr != "" && cidr != "*" && lib.parseCidr(cidr).Some? && 1 <= n <= 65535
    ensures var cfg := Config(true, "accept", [Rule(id, "drop", direction, peerID, cidr, "tcp", ToDecimal(n))]);
            var f := FactsOf(frame);
            var hit := f.Some? && isTx == (direction == "outbound") && peer == peerID
                       && f.value.transport.proto == "tcp" && f.value.transport.portsAvailable
                       && f.value.transport.port == n && lib.contains(lib.parseCidr(cidr).value, f.value.dstIP);
            Interpret(lib, cfg, frame, peer, isTx) == if hit then (false, id) else (true, "")
  {
    hide FactsOf, ParseACLPort, ToDecimal;
    PortReads(n);
    assert lib.lower("drop") == "drop" && lib.lower("accept") == "accept" && lib.lower("tcp") == "tcp";
    assert lib.lower(direction) == direction;
    NonZeroPort(n);
  }

  lemma NonZeroPort(n: nat)
    requires n >= 1
    ensures ToDecimal(n) != "" && ToDecimal(n) != "0"
  {
    if ToDecimal(n) == "0" {
      DigitsOfDecimal(n);
      DigitsOfDecimal(0);
    }
  }

  /**
    A rule that leaves everything open, by saying nothing or by a wildcard, matches every
    IP packet of either direction; "drop" and "deny" stop it, "accept" and "allow" pass it.
   */
  lemma OpenRuleDecides(lib: Lib, rules: seq<Rule>, def: string, frame: Bytes, peer: string, isTx: bool)
    requires PlainWords(lib, {"", "any", "drop", "deny", "accept", "allow"}) && FactsOf(frame).Some? && |rules| >= 1
    requires rules[0].action in {"drop", "deny", "accept", "allow"} && rules[0].direction == ""
    requires rules[0].peerID in {"", "*"} && rules[0].ipCIDR in {"", "*"}
    requires rules[0].protocol in {"", "any"} && rules[0].port in {"", "0"}
    ensures Interpret(lib, Config(true, def, rules), frame, peer, isTx)
         == (rules[0].action == "accept" || rules[0].action == "allow", rules[0].ruleID)
  {
    hide FactsOf, ParseACLPort;
    assert lib.lower(rules[0].action) == rules[0].action && lib.lower("") == "";
    assert lib.lower(rules[0].protocol) == rules[0].protocol;
  }

  /** What is no IP packet gets the default action. */
  lemma NonIpDefault(lib: Lib, cfg: Config, frame: Bytes, peer: string, isTx: bool)
    requires FactsOf(frame).None? && PlainWords(lib, {"drop", "deny", "accept", "allow"})
    requires cfg.defaultAction in {"drop", "deny", "accept", "allow"}
    ensures Interpret(lib, cfg, frame, peer, isTx)
         == (cfg.defaultAction == "accept" || cfg.defaultAction == "allow", "")
  {
    hide FactsOf;
    assert lib.lower(cfg.defaultAction) == cfg.defaultAction;
  }

  // ---------------------------------------------------------------- Rules that can never match

  /** A port or CIDR that does not parse, or a port on a packet that shows none. */
  predicate Inert(lib: Lib, r: Rule, f: Facts) {
    || (HasPort(r) && ParseACLPort(r.port).None?)
    || (BindsIP(r) && lib.parseCidr(r.ipCIDR).None?)
    || (HasPort(r) && !f.transport.portsAvailable)
  }

  function WithoutInert(lib: Lib, rules: seq<Rule>, f: Facts): (r: seq<Rule>) {
    if rules == [] then []
    else (if Inert(lib, rules[0], f) then [] else [rules[0]]) + WithoutInert(lib, rules[1..], f)
  }

  /** Deleting every inert rule changes neither the verdict nor the rule behind it. */
  lemma {:induction false} InertRulesIrrelevant(lib: Lib, rules: seq<Rule>, f: Facts, peer: string, isTx: bool)
    ensures var kept := WithoutInert(lib, rules, f);
            At(kept, FirstMatch(lib, kept, f, peer, isTx)) == At(rules, FirstMatch(lib, rules, f, peer, isTx))
  {
    if rules != [] {
      InertRulesIrrelevant(lib, rules[1..], f, peer, isTx);
      InertNeverApplies(lib, rules[0], f, peer, isTx);
      hide Inert, Applies, FirstMatch, At;
      var rest := WithoutInert(lib, rules[1..], f);
      assert rules == [rules[0]] + rules[1..];
      FirstMatchCons(lib, rules[0], rules[1..], f, peer, isTx);
      if Inert(lib, rules[0], f) {
        assert WithoutInert(lib, rules, f) == rest;
      } else {
        assert WithoutInert(lib, rules, f) == [rules[0]] + rest;
        FirstMatchCons(lib, rules[0], rest, f, peer, isTx);
      }
    }
  }

  lemma FirstMatchCons(lib: Lib, r: Rule, rest: seq<Rule>, f: Facts, peer: string, isTx: bool)
    ensures At([r] + rest, FirstMatch(lib, [r] + rest, f, peer, isTx))
         == if Applies(lib, r, f, peer, isTx) then Some(r) else At(rest, FirstMatch(lib, rest, f, peer, isTx))
  {
    hide Applies;
    assert ([r] + rest)[1..] == rest;
  }

  lemma InertNeverApplies(lib: Lib, r: Rule, f: Facts, peer: string, isTx: bool)
    ensures Inert(lib, r, f) ==> !Applies(lib, r, f, peer, isTx)
  {
    hide ParseACLPort;
  }

  // ---------------------------------------------------------------- The relay hop

  /** A rule a relay hop cannot evaluate, the payload being sealed. */
  predicate Constrained(lib: Lib, r: Rule) {
    !(r.protocol == "" || lib.lower(r.protocol) == "any") || HasPort(r) || BindsIP(r)
  }

  predicate TransitApplies(lib: Lib, r: Rule, src: string) {
    lib.lower(r.direction) != "outbound" && PeerMatches(r, src) && !Constrained(lib, r)
  }

  /** The position of the rule that decides at a relay hop; past the end for the default action. */
  function TransitMatch(lib: Lib, rules: seq<Rule>, src: string): (i: nat)
    ensures i <= |rules|
    ensures i < |rules| ==> TransitApplies(lib, rules[i], src)
    ensures forall j :: 0 <= j < i ==> !TransitApplies(lib, rules[j], src)
  {
    if rules == [] || TransitApplies(lib, rules[0], src) then 0 else 1 + TransitMatch(lib, rules[1..], src)
  }

  /** The relay hop's verdict: a rule's action must say so to allow, an empty default action allows. */
  function TransitDecide(lib: Lib, cfg: Config, src: string): (r: (bool, string)) {
    match At(cfg.rules, TransitMatch(lib, cfg.rules, src))
    case Some(r) => (lib.lower(r.action) in {"accept", "allow"}, r.ruleID)
    case None => (lib.lower(cfg.defaultAction) in {"accept", "allow", ""}, "")
  }

  /** checkRelayTransitACL, past its fast path for a disabled ACL. */
  method CheckRelayTransitACL(lib: Lib, cfg: Config, src: string) returns (allowed: bool, ruleID: string)
    ensures !cfg.enable ==> allowed
    ensures cfg.enable ==> (allowed, ruleID) == TransitDecide(lib, cfg, src)
  {
    if !cfg.enable {
      return true, "";
    }
    for i := 0 to |cfg.rules|
      invariant forall j :: 0 <= j < i ==> !TransitApplies(lib, cfg.rules[j], src)
    {
      var rule := cfg.rules[i];
      if lib.lower(rule.direction) == "outbound" {
        continue;
      }
      if rule.peerID != "" && rule.peerID != "*" && rule.peerID != src {
        continue;
      }
      if (rule.protocol != "" && lib.lower(rule.protocol) != "any") || (rule.port != "" && rule.port != "0")
         || (rule.ipCIDR != "" && rule.ipCIDR != "*") {
        continue;
      }
      assert TransitMatch(lib, cfg.rules, src) == i;
      return lib.lower(rule.action) == "accept" || lib.lower(rule.action) == "allow", rule.ruleID;
    }
    assert TransitMatch(lib, cfg.rules, src) == |cfg.rules|;
    var def := lib.lower(cfg.defaultAction);
    return def == "accept" || def == "allow" || def == "", "";
  }

  /** A rule the relay hop passes over: outbound, for another peer, or bound to protocol, port or address. */
  predicate PassedOver(lib: Lib, r: Rule, src: string) {
    || lib.lower(r.direction) == "outbound" || (r.peerID != "" && r.peerID != "*" && r.peerID != src)
    || (r.protocol != "" && lib.lower(r.protocol) != "any")
    || (r.port != "" && r.port != "0") || (r.ipCIDR != "" && r.ipCIDR != "*")
  }

  /** At the relay hop the first rule that is not passed over decides; an unbound inbound one for the source is not. */
  lemma TransitFirstDecides(lib: Lib, cfg: Config, src: string, i: nat)
    requires i < |cfg.rules| && forall j :: 0 <= j < i ==> PassedOver(lib, cfg.rules[j], src)
    requires !PassedOver(lib, cfg.rules[i], src)
    ensures TransitDecide(lib, cfg, src)
         == (lib.lower(cfg.rules[i].action) == "accept" || lib.lower(cfg.rules[i].action) == "allow",
             cfg.rules[i].ruleID)
  {
    hide TransitMatch;
    assert TransitMatch(lib, cfg.rules, src) == i;
  }

  /** Case folding leaves the empty string empty. */
  ghost predicate LibOk(lib: Lib) {
    lib.lower("") == ""
  }

  /** A rule the relay hop can evaluate applies there exactly when it applies to the packet inbound. */
  lemma UnconstrainedAgrees(lib: Lib, r: Rule, f: Facts, src: string)
    requires LibOk(lib)
    ensures TransitApplies(lib, r, src) <==> Applies(lib, r, f, src, false) && !Constrained(lib, r)
  {}

  /**
    The relay hop and the direct inbound path pick the same rule exactly when the rule
    the direct path picks, if any, is one the relay hop can evaluate.
   */
  lemma TransitAgreesIff(lib: Lib, rules: seq<Rule>, f: Facts, src: string)
    requires LibOk(lib)
    ensures var direct := FirstMatch(lib, rules, f, src, false);
            TransitMatch(lib, rules, src) == direct <==> direct == |rules| || !Constrained(lib, rules[direct])
  {
    hide Applies, TransitApplies, Constrained, FirstMatch, TransitMatch;
    forall i | 0 <= i < |rules|
      ensures TransitApplies(lib, rules[i], src)
              <==> Applies(lib, rules[i], f, src, false) && !Constrained(lib, rules[i])
    {
      UnconstrainedAgrees(lib, rules[i], f, src);
    }
  }

  /** What configuration validation demands of the actions. */
  predicate Validated(lib: Lib, cfg: Config) {
    && cfg.defaultAction in {"accept", "allow", "drop", "deny"}
    && forall i :: 0 <= i < |cfg.rules| ==> lib.lower(cfg.rules[i].action) in {"accept", "allow", "drop", "deny"}
  }

  /**
    On an IP packet whose first applicable rule is unconstrained, the relay hop decides
    as the direct path does, verdict and rule ID, exactly when that rule's action is not
    empty; validation rules that out.
   */
  lemma TransitDecidesAlike(lib: Lib, cfg: Config, frame: Bytes, src: string)
    requires LibOk(lib) && FactsOf(frame).Some?
    requires var i := FirstMatch(lib, cfg.rules, FactsOf(frame).value, src, false);
             i < |cfg.rules| ==> !Constrained(lib, cfg.rules[i])
    ensures var i := FirstMatch(lib, cfg.rules, FactsOf(frame).value, src, false);
            TransitDecide(lib, cfg, src) == Interpret(lib, cfg, frame, src, false)
            <==> i == |cfg.rules| || lib.lower(cfg.rules[i].action) != ""
    ensures Validated(lib, cfg) ==> TransitDecide(lib, cfg, src) == Interpret(lib, cfg, frame, src, false)
  {
    hide FactsOf, FirstMatch, TransitMatch, Applies, TransitApplies, Constrained;
    TransitAgreesIff(lib, cfg.rules, FactsOf(frame).value, src);
  }

  /** An unvalidated rule with an empty action lets a peer through directly and stops it at a relay hop. */
  lemma EmptyActionDiverges(lib: Lib, frame: Bytes, src: string)
    requires LibOk(lib) && FactsOf(frame).Some?
    ensures var cfg := Config(true, "drop", [Rule("r", "", "", "", "", "", "")]);
            TransitDecide(lib, cfg, src) == (false, "r") && Interpret(lib, cfg, frame, src, false) == (true, "r")
  {
    hide FactsOf;
  }
}
