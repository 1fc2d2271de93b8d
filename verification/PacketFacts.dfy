/** What the ACL engine reads from an Ethernet frame (pkg/node/acl.go). */
module PacketFacts {
  import opened BigEndian
  import opened Common

  const ETHERTYPE_IPV4 := 0x0800
  const ETHERTYPE_IPV6 := 0x86dd

  /** The transport protocol and, when the transport header is really there, its destination port. */
  datatype Transport = Transport(proto: string, port: nat, portsAvailable: bool)

  datatype Facts = Facts(dstIP: Bytes, transport: Transport)

  const UNREADABLE := Transport("any", 0, false)

  /** TCP and UDP put the destination port in bytes 2 and 3. */
  function PortOf(name: string, payload: Bytes): (t: Transport) {
    if |payload| >= 4 then Transport(name, Be16(payload, 2), true) else Transport(name, 0, false)
  }

  /** The length of a hop-by-hop, routing or destination-options header. */
  function ExtHeaderLen(hdr: Bytes): (n: Option<nat>) {
    if |hdr| < 2 then None else Some((Code(hdr[1]) + 1) * 8)
  }

  function FragmentInner(inner: nat): (t: Transport) {
    var name := if inner == 6 then "tcp" else if inner == 17 then "udp" else if inner == 58 then "icmp" else "any";
    Transport(name, 0, false)
  }

  /** One IPv6 header: either the walk ends with an answer, or it goes on behind an extension header. */
  datatype Walk = Done(t: Transport) | More(next: nat, payload: Bytes)

  function WalkOne(next: nat, payload: Bytes): (w: Walk)
    ensures w.More? ==> |w.payload| < |payload|
  {
    if next == 6 then Done(PortOf("tcp", payload))
    else if next == 17 then Done(PortOf("udp", payload))
    else if next == 58 then Done(Transport("icmp", 0, false))
    else if next == 44 then Done(if |payload| < 8 then UNREADABLE else FragmentInner(Code(payload[0])))
    else if next in {0, 43, 60} then
      var n := ExtHeaderLen(payload);
      if n.None? || |payload| < n.value then Done(UNREADABLE) else More(Code(payload[0]), payload[n.value..])
    else Done(UNREADABLE)
  }

  /** The walk of at most hops headers. */
  function WalkChain(next: nat, payload: Bytes, hops: nat): (t: Transport)
    decreases hops
  {
    if hops == 0 then UNREADABLE
    else
      match WalkOne(next, payload)
      case Done(t) => t
      case More(next', payload') => WalkChain(next', payload', hops - 1)
  }

  /** parseIPv6Transport: the chain is followed for at most eight headers. */
  method ParseIPv6Transport(firstHeader: nat, data: Bytes) returns (t: Transport)
    ensures t == WalkChain(firstHeader, data, 8)
  {
    hide WalkOne;
    var next, payload := firstHeader, data;
    for i := 0 to 8
      invariant WalkChain(firstHeader, data, 8) == WalkChain(next, payload, 8 - i)
    {
      match WalkOne(next, payload)
      case Done(r) => return r;
      case More(n, p) => next, payload := n, p;
    }
    t := UNREADABLE;
  }

  /** The IPv4 header: ports are read only at fragment offset zero with the top flag bit clear. */
  function IPv4Facts(ip: Bytes): (f: Option<Facts>) {
    if |ip| < 20 then None
    else
      var ihl := (Code(ip[0]) % 16) * 4;
      if ihl < 20 || |ip| < ihl then None
      else
        var proto, flags, payload := Code(ip[9]), Be16(ip, 6), ip[ihl..];
        var whole := flags % 0x2000 == 0 && flags / 0x8000 == 0;
        var name := if proto == 1 then "icmp" else if proto == 6 then "tcp" else if proto == 17 then "udp" else "any";
        Some(Facts(ip[16..20], if proto in {6, 17} && whole then PortOf(name, payload) else Transport(name, 0, false)))
  }

  /** The facts of an IP frame; None for everything the default action decides. */
  function FactsOf(frame: Bytes): (f: Option<Facts>) {
    if |frame| < 14 then None
    else if Be16(frame, 12) == ETHERTYPE_IPV4 then IPv4Facts(frame[14..])
    else if Be16(frame, 12) == ETHERTYPE_IPV6 then
      if |frame| < 54 then None
      else
        var ip := frame[14..];
        Some(Facts(ip[24..40], WalkChain(Code(ip[6]), ip[40..], 8)))
    else None
  }

  // ---------------------------------------------------------------- Fragments

  /** A continuation fragment never shows a port. */
  lemma ContinuationShowsNoPort(ip: Bytes)
    requires IPv4Facts(ip).Some? && Be16(ip, 6) % 0x2000 != 0
    ensures !IPv4Facts(ip).value.transport.portsAvailable
  {
    hide Be16;
  }

  /**
    The flag test looks at the reserved bit only: however the other two flag bits of
    section 3.1 of RFC 791 are set, more-fragments among them, the facts are the same,
    so a first fragment shows its port.
   */
  lemma OtherFlagsIgnored(ip: Bytes, b: bv8)
    requires |ip| >= 20 && Code(b) % 32 == Code(ip[6]) % 32 && Code(b) / 128 == Code(ip[6]) / 128
    ensures IPv4Facts(ip[6 := b]) == IPv4Facts(ip)
  {
    hide Code;
    var ip' := ip[6 := b];
    FlagBits(Code(b), Code(ip[6]), Code(ip[7]));
    assert Be16(ip', 6) == Code(b) * 256 + Code(ip[7]);
    assert ip'[16..20] == ip[16..20];
    var ihl := (Code(ip[0]) % 16) * 4;
    if 20 <= ihl <= |ip| {
      assert ip'[ihl..] == ip[ihl..];
    }
  }

  /** Section 3.1 of RFC 791: a packet is unfragmented when offset and more-fragments are both zero. */
  predicate Unfragmented(word: nat) {
    word % 0x2000 == 0 && (word / 0x2000) % 2 == 0
  }

  /** Room for a TCP or UDP port behind the header. */
  predicate HasPortBytes(ip: Bytes)
    requires |ip| >= 20
  {
    Code(ip[9]) in {6, 17} && |ip| >= (Code(ip[0]) % 16) * 4 + 4
  }

  /**
    The port is shown for exactly the unfragmented packets if and only if the offset is
    set, or the more-fragments flag happens to equal the reserved bit that is tested in
    its place, or there is no port to show.
   */
  lemma FragmentTestExactIff(ip: Bytes)
    requires IPv4Facts(ip).Some?
    ensures var word := Be16(ip, 6);
            (IPv4Facts(ip).value.transport.portsAvailable <==> HasPortBytes(ip) && Unfragmented(word))
            <==> !HasPortBytes(ip) || word % 0x2000 != 0 || (word / 0x2000) % 2 == word / 0x8000
  {
    hide Code, Be16;
  }

  /** A first TCP fragment to port 22: offset zero, more-fragments set, reserved bit clear. */
  const FIRST_FRAGMENT: Bytes :=
    [0x45, 0, 0, 24, 0, 0, 0x20, 0, 64, 6, 0, 0, 10, 0, 0, 1, 10, 0, 0, 2, 0, 80, 0, 22]

  /** A fragmented packet that shows its port. */
  lemma FirstFragmentShowsPort()
    ensures !Unfragmented(Be16(FIRST_FRAGMENT, 6))
    ensures IPv4Facts(FIRST_FRAGMENT) == Some(Facts([10, 0, 0, 2], Transport("tcp", 22, true)))
  {
    var ip := FIRST_FRAGMENT;
    assert Code(ip[0]) == 0x45 && Code(ip[9]) == 6 && Be16(ip, 6) == 0x2000;
    assert ip[16..20] == [10, 0, 0, 2];
    var payload := ip[20..];
    assert payload == [0, 80, 0, 22];
    assert Be16(payload, 2) == 22;
  }

  lemma FlagBits(x: nat, y: nat, lo: nat)
    requires x < 256 && y < 256 && lo < 256 && x % 32 == y % 32 && x / 128 == y / 128
    ensures (x * 256 + lo) % 0x2000 == (y * 256 + lo) % 0x2000
    ensures (x * 256 + lo) / 0x8000 == (y * 256 + lo) / 0x8000
  {
    FlagWord(x, lo);
    FlagWord(y, lo);
  }

  /** The offset and the reserved bit of the word with bytes x and lo. */
  lemma FlagWord(x: nat, lo: nat)
    requires x < 256 && lo < 256
    ensures (x * 256 + lo) % 0x2000 == (x % 32) * 256 + lo
    ensures (x * 256 + lo) / 0x8000 == x / 128
  {
    assert x * 256 + lo == (x / 32) * 0x2000 + ((x % 32) * 256 + lo);
    assert x * 256 + lo == (x / 128) * 0x8000 + ((x % 128) * 256 + lo);
  }

  /** How many extension headers the walk passes before it ends. */
  function HeadersPassed(next: nat, payload: Bytes, hops: nat): (n: nat)
    decreases hops
  {
    if hops == 0 then 0
    else
      match WalkOne(next, payload)
      case Done(_) => 0
      case More(next', payload') => 1 + HeadersPassed(next', payload', hops - 1)
  }

  /** The header the walk ends on, and what follows it. */
  function LastHeader(next: nat, payload: Bytes, hops: nat): (r: (nat, Bytes))
    decreases hops
  {
    if hops == 0 then (next, payload)
    else
      match WalkOne(next, payload)
      case Done(_) => (next, payload)
      case More(next', payload') => LastHeader(next', payload', hops - 1)
  }

  /**
    An IPv6 port is the TCP or UDP destination port behind fewer than hops extension
    headers, with no fragment header on the way.
   */
  lemma {:induction false} IPv6PortIsReal(next: nat, payload: Bytes, hops: nat)
    ensures var t, last := WalkChain(next, payload, hops), LastHeader(next, payload, hops);
            t.portsAvailable <==>
              HeadersPassed(next, payload, hops) < hops && last.0 in {6, 17} && |last.1| >= 4
    ensures var t, last := WalkChain(next, payload, hops), LastHeader(next, payload, hops);
            t.portsAvailable ==> t.port == Be16(last.1, 2) && t.proto == if last.0 == 6 then "tcp" else "udp"
    decreases hops
  {
    hide Be16, Code;
    if hops > 0 {
      match WalkOne(next, payload)
      case Done(_) =>
      case More(next', payload') => IPv6PortIsReal(next', payload', hops - 1);
    }
  }

  // ---------------------------------------------------------------- Packets built from their fields

  /** An Ethernet frame: 12 address bytes, the type, the packet. */
  function Ethernet(addresses: Bytes, etherType: Bytes, packet: Bytes): (frame: Bytes) {
    addresses + etherType + packet
  }

  /** Version 4 and the header length in words. */
  function VersionByte(words: nat): (b: bv8)
    requires 5 <= words <= 15
    ensures Code(b) == 0x40 + words
  {
    CodeOfByte(0x40 + words);
    (0x40 + words) as bv8
  }

  /** An IPv4 packet with a header of the given words; the bytes nothing here reads are passed as they are. */
  function IPv4(words: nat, tosToId: Bytes, ttl: bv8, proto: bv8, checksum: Bytes,
                src: Bytes, dst: Bytes, options: Bytes, payload: Bytes): (ip: Bytes)
    requires 5 <= words <= 15
  {
    [VersionByte(words)] + tosToId + [0, 0] + [ttl, proto] + checksum + src + dst + options + payload
  }

  ghost predicate IPv4Sizes(words: nat, tosToId: Bytes, checksum: Bytes, src: Bytes, dst: Bytes, options: Bytes) {
    && 5 <= words <= 15 && |options| == words * 4 - 20
    && |tosToId| == 5 && |checksum| == 2 && |src| == 4 && |dst| == 4
  }

  lemma IPv4Layout(words: nat, tosToId: Bytes, ttl: bv8, proto: bv8, checksum: Bytes,
                   src: Bytes, dst: Bytes, options: Bytes, payload: Bytes)
    requires IPv4Sizes(words, tosToId, checksum, src, dst, options)
    ensures var ip := IPv4(words, tosToId, ttl, proto, checksum, src, dst, options, payload);
            && |ip| == words * 4 + |payload| && ip[0] == VersionByte(words)
            && ip[6] == 0 && ip[7] == 0 && ip[9] == proto && ip[16..20] == dst && ip[words * 4..] == payload
  {
    hide VersionByte;
    var head := [VersionByte(words)] + tosToId + [0, 0] + [ttl, proto] + checksum + src;
    var ip := IPv4(words, tosToId, ttl, proto, checksum, src, dst, options, payload);
    assert |head| == 16 && ip == head + dst + options + payload;
  }

  /** The facts of a header with the given bytes at the given places. */
  lemma IPv4FactsOf(ip: Bytes, words: nat, proto: bv8)
    requires 5 <= words <= 15 && |ip| >= words * 4 + 4 && ip[0] == VersionByte(words)
    requires ip[6] == 0 && ip[7] == 0 && ip[9] == proto && (proto == 6 || proto == 17)
    ensures IPv4Facts(ip)
         == Some(Facts(ip[16..20], Transport(if proto == 6 then "tcp" else "udp", Be16(ip[words * 4..], 2), true)))
  {
    hide Code, VersionByte;
    SmallCodes();
    assert Be16(ip, 6) == 0;
  }

  /** Other protocols show no port: ICMP its name, the rest nothing. */
  lemma IPv4Others(ip: Bytes)
    requires IPv4Facts(ip).Some? && ip[9] != 6 && ip[9] != 17
    ensures IPv4Facts(ip).value.transport == Transport(if ip[9] == 1 then "icmp" else "any", 0, false)
  {
    hide Code, Be16;
    SmallCodes();
    forall n: bv8 | n in {1, 6, 17} && Code(n) == Code(ip[9]) ensures n == ip[9] {
      CodeInjective(n, ip[9]);
    }
  }

  /** An unfragmented TCP or UDP packet over IPv4 shows its destination address and port. */
  lemma IPv4ReadBack(addresses: Bytes, words: nat, tosToId: Bytes, ttl: bv8, proto: bv8, checksum: Bytes,
                     src: Bytes, dst: Bytes, options: Bytes, payload: Bytes)
    requires |addresses| == 12 && IPv4Sizes(words, tosToId, checksum, src, dst, options)
    requires |payload| >= 4 && (proto == 6 || proto == 17)
    ensures var ip := IPv4(words, tosToId, ttl, proto, checksum, src, dst, options, payload);
            FactsOf(Ethernet(addresses, [0x08, 0x00], ip))
            == Some(Facts(dst, Transport(if proto == 6 then "tcp" else "udp",
                                         Code(payload[2]) * 256 + Code(payload[3]), true)))
  {
    hide Code, IPv4, IPv4Facts, Ethernet, VersionByte;
    var ip := IPv4(words, tosToId, ttl, proto, checksum, src, dst, options, payload);
    IPv4Layout(words, tosToId, ttl, proto, checksum, src, dst, options, payload);
    IPv4FactsOf(ip, words, proto);
    EtherTypes(addresses, ip);
  }

  lemma SmallCodes()
    ensures Code(0) == 0 && Code(1) == 1 && Code(6) == 6
    ensures Code(8) == 8 && Code(17) == 17 && Code(0x86) == 0x86 && Code(0xdd) == 0xdd
    ensures Code(43) == 43 && Code(44) == 44 && Code(58) == 58 && Code(60) == 60
  {}

  lemma EtherTypes(addresses: Bytes, packet: Bytes)
    requires |addresses| == 12
    ensures Ethernet(addresses, [0x08, 0x00], packet)[14..] == packet
    ensures Ethernet(addresses, [0x86, 0xdd], packet)[14..] == packet
    ensures |Ethernet(addresses, [0x08, 0x00], packet)| == |Ethernet(addresses, [0x86, 0xdd], packet)| == 14 + |packet|
    ensures Be16(Ethernet(addresses, [0x08, 0x00], packet), 12) == 0x0800
    ensures Be16(Ethernet(addresses, [0x86, 0xdd], packet), 12) == 0x86dd
  {
    hide Code;
    SmallCodes();
  }

  /** An extension header: its kind, its length byte, and the bytes after those two. */
  datatype Extension = Extension(kind: bv8, length: bv8, rest: Bytes)

  predicate ExtensionOk(x: Extension) {
    x.kind in {0, 43, 60} && 2 + |x.rest| == (Code(x.length) + 1) * 8
  }

  /** The next-header value that announces the chain. */
  function FirstKind(xs: seq<Extension>, last: bv8): (kind: bv8) {
    if xs == [] then last else xs[0].kind
  }

  /** Extension headers one after the other, then the segment of kind last. */
  function Chain(xs: seq<Extension>, last: bv8, segment: Bytes): (p: Bytes) {
    if xs == [] then segment
    else [FirstKind(xs[1..], last), xs[0].length] + xs[0].rest + Chain(xs[1..], last, segment)
  }

  lemma ExtensionStep(x: Extension, next: bv8, tail: Bytes)
    requires ExtensionOk(x)
    ensures WalkOne(Code(x.kind), [next, x.length] + x.rest + tail) == More(Code(next), tail)
  {
    hide Code;
    SmallCodes();
    var p := [next, x.length] + x.rest + tail;
    assert p[2 + |x.rest|..] == tail;
  }

  /** The walk passes any extension headers within its limit, and gives up beyond it. */
  lemma {:induction false} ChainWalk(xs: seq<Extension>, last: bv8, segment: Bytes, hops: nat)
    requires forall i :: 0 <= i < |xs| ==> ExtensionOk(xs[i])
    ensures WalkChain(Code(FirstKind(xs, last)), Chain(xs, last, segment), hops)
         == if |xs| < hops then WalkChain(Code(last), segment, hops - |xs|) else UNREADABLE
    decreases |xs|
  {
    hide WalkOne, Code, ExtensionOk;
    if xs != [] && hops > 0 {
      ExtensionStep(xs[0], FirstKind(xs[1..], last), Chain(xs[1..], last, segment));
      ChainWalk(xs[1..], last, segment, hops - 1);
    }
  }

  function IPv6(versionToLength: Bytes, next: bv8, hopLimit: bv8, src: Bytes, dst: Bytes, rest: Bytes): (ip: Bytes) {
    versionToLength + [next, hopLimit] + src + dst + rest
  }

  lemma IPv6Layout(versionToLength: Bytes, next: bv8, hopLimit: bv8, src: Bytes, dst: Bytes, rest: Bytes)
    requires |versionToLength| == 6 && |src| == 16 && |dst| == 16
    ensures var ip := IPv6(versionToLength, next, hopLimit, src, dst, rest);
            |ip| == 40 + |rest| && ip[6] == next && ip[24..40] == dst && ip[40..] == rest
  {}

  /** The protocol a fragment header announces. */
  function InnerName(next: bv8): (name: string) {
    if next == 6 then "tcp" else if next == 17 then "udp" else if next == 58 then "icmp" else "any"
  }

  lemma LastStep(last: bv8, segment: Bytes, hops: nat)
    requires hops > 0
    ensures last == 6 || last == 17 ==>
              WalkChain(Code(last), segment, hops)
              == Transport(if last == 6 then "tcp" else "udp",
                           if |segment| >= 4 then Code(segment[2]) * 256 + Code(segment[3]) else 0, |segment| >= 4)
    ensures last == 58 ==> WalkChain(Code(last), segment, hops) == Transport("icmp", 0, false)
    ensures last == 44 ==>
              WalkChain(Code(last), segment, hops)
              == Transport(if |segment| < 8 then "any" else InnerName(segment[0]), 0, false)
    ensures last !in {0, 6, 17, 43, 44, 58, 60} ==> WalkChain(Code(last), segment, hops) == Transport("any", 0, false)
  {
    hide Code;
    SmallCodes();
    forall n: bv8 | n in {0, 6, 17, 43, 44, 58, 60} && Code(n) == Code(last) ensures n == last {
      CodeInjective(n, last);
    }
    if |segment| > 0 {
      forall n: bv8 | n in {6, 17, 58} && Code(n) == Code(segment[0]) ensures n == segment[0] {
        CodeInjective(n, segment[0]);
      }
    }
  }

  /**
    An IPv6 packet with at most seven extension headers shows its destination address
    and what its last header says: TCP and UDP their port, a fragment header no port.
    With more headers nothing is shown.
   */
  lemma IPv6ReadBack(addresses: Bytes, versionToLength: Bytes, hopLimit: bv8, src: Bytes, dst: Bytes,
                     xs: seq<Extension>, last: bv8, segment: Bytes)
    requires |addresses| == 12 && |versionToLength| == 6 && |src| == 16 && |dst| == 16
    requires forall i :: 0 <= i < |xs| ==> ExtensionOk(xs[i])
    ensures var ip := IPv6(versionToLength, FirstKind(xs, last), hopLimit, src, dst, Chain(xs, last, segment));
            var f := FactsOf(Ethernet(addresses, [0x86, 0xdd], ip));
            && f.Some? && f.value.dstIP == dst
            && (|xs| >= 8 ==> f.value.transport == Transport("any", 0, false))
            && (|xs| <= 7 && (last == 6 || last == 17) && |segment| >= 4 ==>
                  f.value.transport == Transport(if last == 6 then "tcp" else "udp",
                                                 Code(segment[2]) * 256 + Code(segment[3]), true))
            && (|xs| <= 7 && last == 44 && |segment| >= 8 ==>
                  f.value.transport == Transport(InnerName(segment[0]), 0, false))
  {
    var rest := Chain(xs, last, segment);
    var ip := IPv6(versionToLength, FirstKind(xs, last), hopLimit, src, dst, rest);
    IPv6Layout(versionToLength, FirstKind(xs, last), hopLimit, src, dst, rest);
    hide Code, WalkChain, Chain, ExtensionOk, IPv6, Ethernet, FirstKind;
    EtherTypes(addresses, ip);
    ChainWalk(xs, last, segment, 8);
    if |xs| < 8 { LastStep(last, segment, 8 - |xs|); }
  }

  /** Frames that are too short or of another type have no facts. */
  lemma NoFacts(addresses: Bytes, hi: bv8, lo: bv8, packet: Bytes)
    requires |addresses| == 12
    ensures [hi, lo] != [0x08, 0x00] && [hi, lo] != [0x86, 0xdd] ==>
              FactsOf(Ethernet(addresses, [hi, lo], packet)) == None
    ensures |packet| < 20 ==> FactsOf(Ethernet(addresses, [0x08, 0x00], packet)) == None
    ensures |packet| < 40 ==> FactsOf(Ethernet(addresses, [0x86, 0xdd], packet)) == None
  {
    hide Code, WalkChain, Be16;
    EtherTypes(addresses, packet);
    TypeBytes(addresses, hi, lo, packet);
  }

  lemma TypeBytes(addresses: Bytes, hi: bv8, lo: bv8, packet: Bytes)
    requires |addresses| == 12
    ensures var frame := Ethernet(addresses, [hi, lo], packet);
            && (Be16(frame, 12) == 0x0800 ==> [hi, lo] == [0x08, 0x00])
            && (Be16(frame, 12) == 0x86dd ==> [hi, lo] == [0x86, 0xdd])
  {
    hide Code;
    SmallCodes();
    var frame := Ethernet(addresses, [hi, lo], packet);
    assert Be16(frame, 12) == Code(hi) * 256 + Code(lo);
    forall n: bv8 | n in {0, 8, 0x86, 0xdd}
      ensures (Code(n) == Code(hi) ==> n == hi) && (Code(n) == Code(lo) ==> n == lo)
    {
      if Code(n) == Code(hi) { CodeInjective(n, hi); }
      if Code(n) == Code(lo) { CodeInjective(n, lo); }
    }
  }
}
