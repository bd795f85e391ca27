/** Options that network-test requests share, and the builder of traceroute requests. */
module NetworkTestRequests {
  import opened Bytes

  type U8 = x: nat | x < 0x100 witness 0
  type U16 = x: nat | x < 0x1_0000 witness 0

  const MIN_PACKET_SIZE: U16 := 28
  const TCP_TRACEROUTE_PACKET_SIZE: U16 := 52

  datatype Family = Ipv4 | Ipv6

  datatype Address = Address(family: Family, bits: nat)

  datatype Host = Literal(address: Address) | Name(text: seq<byte>)

  datatype Source = FromAddress(address: Address) | FromInterface(id: seq<byte>)

  datatype InvalidOption =
    | AddressFamily(expected: Family, actual: Family)
    | OutOfRange(min: U64, max: U64, value: U64)
    | TcpPacketSize(size: U16)

  function EnsureRange(value: U64, min: U64, max: U64): Option<InvalidOption> {
    if min <= value <= max then None else Some(OutOfRange(min, max, value))
  }

  function EnsureTargetFamily(host: Host, expected: Family): Option<InvalidOption> {
    if host.Literal? && host.address.family != expected then Some(AddressFamily(expected, host.address.family))
    else None
  }

  function EnsureSourceFamily(source: Source, family: Family): Option<InvalidOption> {
    if source.FromAddress? && source.address.family != family then Some(AddressFamily(family, source.address.family))
    else None
  }

  // ---------- traceroute ----------

  datatype TracerouteProtocol = Tcp | Udp | Icmp

  datatype Traceroute = Traceroute(
    host: Host,
    count: Option<U8>,
    interval: Option<U8>,
    waitTime: Option<U8>,
    packetSize: Option<U16>,
    maxTtl: Option<U8>,
    port: Option<U16>,
    source: Option<Source>,
    protocol: TracerouteProtocol,
    tos: Option<U8>
  )

  /** One call of a setter. */
  datatype Setting =
    | Count(count: U8)
    | Interval(seconds: U8)
    | WaitTime(seconds: U8)
    | PacketSize(size: U16)
    | MaxTtl(ttl: U8)
    | Port(port: U16)
    | SourceFrom(source: Source)
    | UseProtocol(protocol: TracerouteProtocol)
    | Tos(tos: U8)

  function KindOf(s: Setting): nat {
    match s
    case Count(_) => 0
    case Interval(_) => 1
    case WaitTime(_) => 2
    case PacketSize(_) => 3
    case MaxTtl(_) => 4
    case Port(_) => 5
    case SourceFrom(_) => 6
    case UseProtocol(_) => 7
    case Tos(_) => 8
  }

  function FreshTraceroute(host: Host): Traceroute {
    Traceroute(host, None, None, None, None, None, None, None, Udp, None)
  }

  function ValidatePacketSize(protocol: TracerouteProtocol, size: U16): Option<InvalidOption> {
    if protocol.Tcp? then (if size == TCP_TRACEROUTE_PACKET_SIZE then None else Some(TcpPacketSize(size)))
    else EnsureRange(size, MIN_PACKET_SIZE, 0xFFFF)
  }

  /** Why a setter refuses its argument on this request, if it does. */
  function Refusal(r: Traceroute, s: Setting): Option<InvalidOption> {
    match s
    case Count(c) => EnsureRange(c, 1, 10)
    case Interval(n) => EnsureRange(n, 0, 15)
    case WaitTime(n) => EnsureRange(n, 1, 15)
    case PacketSize(n) => ValidatePacketSize(r.protocol, n)
    case MaxTtl(n) => EnsureRange(n, 1, 0xFF)
    case Port(n) => EnsureRange(n, 1, 0xFFFF)
    case SourceFrom(source) => if r.host.Literal? then EnsureSourceFamily(source, r.host.address.family) else None
    case UseProtocol(p) => if r.packetSize.Some? then ValidatePacketSize(p, r.packetSize.value) else None
    case Tos(_) => None
  }

  function Assign(r: Traceroute, s: Setting): Traceroute {
    match s
    case Count(c) => r.(count := Some(c))
    case Interval(n) => r.(interval := Some(n))
    case WaitTime(n) => r.(waitTime := Some(n))
    case PacketSize(n) => r.(packetSize := Some(n))
    case MaxTtl(n) => r.(maxTtl := Some(n))
    case Port(n) => r.(port := Some(n))
    case SourceFrom(source) => r.(source := Some(source))
    case UseProtocol(p) => r.(protocol := p)
    case Tos(n) => r.(tos := Some(n))
  }

  function Set(r: Traceroute, s: Setting): Result<Traceroute, InvalidOption> {
    match Refusal(r, s)
    case Some(e) => Err(e)
    case None => Ok(Assign(r, s))
  }

  function SetAll(r: Traceroute, settings: seq<Setting>): Result<Traceroute, InvalidOption>
    decreases |settings|
  {
    if settings == [] then Ok(r)
    else
      match Set(r, settings[0])
      case Err(e) => Err(e)
      case Ok(next) => SetAll(next, settings[1..])
  }

  /** What one setter call does: a new value, or the refusal and the old value. */
  predicate Did(before: Traceroute, after: Traceroute, s: Setting, error: Option<InvalidOption>) {
    match Set(before, s)
    case Ok(next) => error == None && after == next
    case Err(e) => error == Some(e) && after == before
  }

  /** A request under construction; a refused setter leaves it as it was. */
  class TracerouteBuilder {
    const host: Host
    var count: Option<U8>
    var interval: Option<U8>
    var waitTime: Option<U8>
    var packetSize: Option<U16>
    var maxTtl: Option<U8>
    var port: Option<U16>
    var source: Option<Source>
    var protocol: TracerouteProtocol
    var tos: Option<U8>

    constructor (host: Host)
      ensures Value() == FreshTraceroute(host)
    {
      this.host := host;
      count, interval, waitTime, packetSize := None, None, None, None;
      maxTtl, port, source, protocol, tos := None, None, None, Udp, None;
    }

    function Value(): Traceroute
      reads this
    {
      Traceroute(host, count, interval, waitTime, packetSize, maxTtl, port, source, protocol, tos)
    }

    method SetCount(value: U8) returns (error: Option<InvalidOption>)
      modifies this`count
      ensures Did(old(Value()), Value(), Count(value), error)
    {
      error := EnsureRange(value, 1, 10);
      if error.None? { count := Some(value); }
    }

    method SetInterval(seconds: U8) returns (error: Option<InvalidOption>)
      modifies this`interval
      ensures Did(old(Value()), Value(), Interval(seconds), error)
    {
      error := EnsureRange(seconds, 0, 15);
      if error.None? { interval := Some(seconds); }
    }

    method SetWaitTime(seconds: U8) returns (error: Option<InvalidOption>)
      modifies this`waitTime
      ensures Did(old(Value()), Value(), WaitTime(seconds), error)
    {
      error := EnsureRange(seconds, 1, 15);
      if error.None? { waitTime := Some(seconds); }
    }

    method SetPacketSize(size: U16) returns (error: Option<InvalidOption>)
      modifies this`packetSize
      ensures Did(old(Value()), Value(), PacketSize(size), error)
    {
      error := ValidatePacketSize(protocol, size);
      if error.None? { packetSize := Some(size); }
    }

    method SetMaxTtl(ttl: U8) returns (error: Option<InvalidOption>)
      modifies this`maxTtl
      ensures Did(old(Value()), Value(), MaxTtl(ttl), error)
    {
      error := EnsureRange(ttl, 1, 0xFF);
      if error.None? { maxTtl := Some(ttl); }
    }

    method SetPort(value: U16) returns (error: Option<InvalidOption>)
      modifies this`port
      ensures Did(old(Value()), Value(), Port(value), error)
    {
      error := EnsureRange(value, 1, 0xFFFF);
      if error.None? { port := Some(value); }
    }

    method SetSource(value: Source) returns (error: Option<InvalidOption>)
      modifies this`source
      ensures Did(old(Value()), Value(), SourceFrom(value), error)
    {
      error := None;
      if host.Literal? { error := EnsureSourceFamily(value, host.address.family); }
      if error.None? { source := Some(value); }
    }

    method SetProtocol(value: TracerouteProtocol) returns (error: Option<InvalidOption>)
      modifies this`protocol
      ensures Did(old(Value()), Value(), UseProtocol(value), error)
    {
      error := None;
      if packetSize.Some? { error := ValidatePacketSize(value, packetSize.value); }
      if error.None? { protocol := value; }
    }

    method SetTos(value: U8) returns (error: Option<InvalidOption>)
      modifies this`tos
      ensures Did(old(Value()), Value(), Tos(value), error)
    {
      error := None;
      tos := Some(value);
    }
  }

  // Every reachable request is consistent.

  predicate PacketRules(r: Traceroute) {
    (r.protocol.Tcp? && r.packetSize.Some? ==> r.packetSize.value == TCP_TRACEROUTE_PACKET_SIZE)
    && (r.packetSize.Some? ==> r.packetSize.value >= MIN_PACKET_SIZE)
  }

  predicate SourceRule(r: Traceroute) {
    r.source.Some? && r.source.value.FromAddress? && r.host.Literal? ==>
      r.source.value.address.family == r.host.address.family
  }

  predicate Within(option: Option<nat>, min: nat, max: nat) {
    option.Some? ==> min <= option.value <= max
  }

  predicate Ranges(r: Traceroute) {
    Within(r.count, 1, 10) && Within(r.interval, 0, 15) && Within(r.waitTime, 1, 15)
    && Within(r.maxTtl, 1, 0xFF) && Within(r.port, 1, 0xFFFF)
  }

  predicate Consistent(r: Traceroute) {
    PacketRules(r) && SourceRule(r) && Ranges(r)
  }

  lemma PacketRulesKept(r: Traceroute, s: Setting)
    requires PacketRules(r) && Refusal(r, s).None?
    ensures PacketRules(Assign(r, s))
  {}

  lemma SourceRuleKept(r: Traceroute, s: Setting)
    requires SourceRule(r) && Refusal(r, s).None?
    ensures SourceRule(Assign(r, s)) && Assign(r, s).host == r.host
  {}

  lemma RangesKept(r: Traceroute, s: Setting)
    requires Ranges(r) && Refusal(r, s).None?
    ensures Ranges(Assign(r, s))
  {}

  lemma SetKeepsConsistent(r: Traceroute, s: Setting)
    requires Consistent(r) && Refusal(r, s).None?
    ensures Consistent(Assign(r, s)) && Assign(r, s).host == r.host
  {
    PacketRulesKept(r, s);
    SourceRuleKept(r, s);
    RangesKept(r, s);
  }

  lemma {:induction false} ReachableTracerouteIsConsistent(r: Traceroute, settings: seq<Setting>)
    requires Consistent(r)
    ensures var done := SetAll(r, settings);
            done.Ok? ==> Consistent(done.value) && done.value.host == r.host
    decreases |settings|
  {
    if settings != [] && Set(r, settings[0]).Ok? {
      SetKeepsConsistent(r, settings[0]);
      ReachableTracerouteIsConsistent(Set(r, settings[0]).value, settings[1..]);
    }
  }

  /** What a refusal says: the permitted range, the size that TCP does not allow, or the two families. */
  lemma RefusalReasons(r: Traceroute, s: Setting)
    ensures s.Count? && !(1 <= s.count <= 10) ==> Refusal(r, s) == Some(OutOfRange(1, 10, s.count))
    ensures s.Interval? && s.seconds > 15 ==> Refusal(r, s) == Some(OutOfRange(0, 15, s.seconds))
    ensures s.WaitTime? && !(1 <= s.seconds <= 15) ==> Refusal(r, s) == Some(OutOfRange(1, 15, s.seconds))
    ensures s == MaxTtl(0) ==> Refusal(r, s) == Some(OutOfRange(1, 255, 0))
    ensures s == Port(0) ==> Refusal(r, s) == Some(OutOfRange(1, 65535, 0))
    ensures s.PacketSize? && r.protocol.Tcp? && s.size != 52 ==> Refusal(r, s) == Some(TcpPacketSize(s.size))
    ensures s.PacketSize? && !r.protocol.Tcp? && s.size < 28 ==> Refusal(r, s) == Some(OutOfRange(28, 65535, s.size))
    ensures s == UseProtocol(Tcp) && r.packetSize.Some? && r.packetSize.value != 52 ==>
            Refusal(r, s) == Some(TcpPacketSize(r.packetSize.value))
    ensures s.SourceFrom? && s.source.FromAddress? && r.host.Literal?
            && s.source.address.family != r.host.address.family ==>
            Refusal(r, s) == Some(AddressFamily(r.host.address.family, s.source.address.family))
  {}

  // The outcome of distinct setters depends on the set of them alone.

  ghost predicate DistinctKinds(settings: seq<Setting>) {
    forall i, j :: 0 <= i < j < |settings| ==> KindOf(settings[i]) != KindOf(settings[j])
  }

  /** The documented range of one setting by itself. */
  predicate InRange(host: Host, s: Setting) {
    match s
    case Count(c) => 1 <= c <= 10
    case Interval(n) => n <= 15
    case WaitTime(n) => 1 <= n <= 15
    case PacketSize(n) => n >= MIN_PACKET_SIZE
    case MaxTtl(n) => n > 0
    case Port(n) => n > 0
    case SourceFrom(source) =>
      source.FromAddress? && host.Literal? ==> source.address.family == host.address.family
    case _ => true
  }

  /** Every setting is in range, and TCP comes with a packet of 52 bytes or none. */
  ghost predicate Acceptable(host: Host, settings: seq<Setting>) {
    (forall s :: s in settings ==> InRange(host, s))
    && (forall s :: s in settings && s.PacketSize? && UseProtocol(Tcp) in settings ==>
          s.size == TCP_TRACEROUTE_PACKET_SIZE)
  }

  predicate Shows(r: Traceroute, s: Setting) {
    match s
    case Count(c) => r.count == Some(c)
    case Interval(n) => r.interval == Some(n)
    case WaitTime(n) => r.waitTime == Some(n)
    case PacketSize(n) => r.packetSize == Some(n)
    case MaxTtl(n) => r.maxTtl == Some(n)
    case Port(n) => r.port == Some(n)
    case SourceFrom(source) => r.source == Some(source)
    case UseProtocol(p) => r.protocol == p
    case Tos(n) => r.tos == Some(n)
  }

  predicate ShowsDefault(r: Traceroute, kind: nat) {
    match kind
    case 0 => r.count.None?
    case 1 => r.interval.None?
    case 2 => r.waitTime.None?
    case 3 => r.packetSize.None?
    case 4 => r.maxTtl.None?
    case 5 => r.port.None?
    case 6 => r.source.None?
    case 7 => r.protocol.Udp?
    case 8 => r.tos.None?
    case _ => true
  }

  /** The request shows exactly these settings, and defaults elsewhere. */
  ghost predicate Configured(r: Traceroute, host: Host, settings: seq<Setting>) {
    r.host == host && (forall s :: s in settings ==> Shows(r, s))
    && (forall kind: nat :: Unset(settings, kind) ==> ShowsDefault(r, kind))
  }

  ghost predicate Unset(settings: seq<Setting>, kind: nat) {
    forall s :: s in settings ==> KindOf(s) != kind
  }

  lemma {:induction false} SetAllSnoc(r: Traceroute, settings: seq<Setting>, s: Setting)
    ensures SetAll(r, settings + [s])
         == match SetAll(r, settings)
            case Err(e) => Err(e)
            case Ok(next) => Set(next, s)
    decreases |settings|
  {
    if settings == [] {
      assert (settings + [s])[1..] == [];
    } else {
      assert (settings + [s])[1..] == settings[1..] + [s];
      if Set(r, settings[0]).Ok? { SetAllSnoc(Set(r, settings[0]).value, settings[1..], s); }
    }
  }

  lemma AssignKeepsOthers(r: Traceroute, s: Setting, other: Setting)
    requires KindOf(s) != KindOf(other)
    ensures Shows(Assign(r, s), other) <==> Shows(r, other)
    ensures Shows(Assign(r, s), s)
  {}

  lemma AssignKeepsDefaults(r: Traceroute, s: Setting, kind: nat)
    requires KindOf(s) != kind
    ensures ShowsDefault(Assign(r, s), kind) <==> ShowsDefault(r, kind)
  {}

  lemma AssignConfigures(r: Traceroute, host: Host, front: seq<Setting>, s: Setting)
    requires Configured(r, host, front)
    requires Unset(front, KindOf(s))
    ensures Configured(Assign(r, s), host, front + [s])
  {
    forall other | other in front + [s] ensures Shows(Assign(r, s), other) {
      if other != s { AssignKeepsOthers(r, s, other); }
    }
    forall kind: nat | Unset(front + [s], kind) ensures ShowsDefault(Assign(r, s), kind) {
      assert s in front + [s];
      forall other | other in front ensures KindOf(other) != kind { assert other in front + [s]; }
      assert Unset(front, kind);
      AssignKeepsDefaults(r, s, kind);
    }
  }

  /** What is shown of packet size and protocol. */
  lemma ShownPacketAndProtocol(r: Traceroute, host: Host, settings: seq<Setting>)
    requires Configured(r, host, settings)
    ensures r.packetSize.Some? <==> exists n: U16 :: PacketSize(n) in settings
    ensures r.packetSize.Some? ==> PacketSize(r.packetSize.value) in settings
    ensures r.protocol.Tcp? <==> UseProtocol(Tcp) in settings
  {
    if Unset(settings, 3) { assert ShowsDefault(r, 3); }
    if Unset(settings, 7) { assert ShowsDefault(r, 7); }
    if s :| s in settings && KindOf(s) == 3 { assert Shows(r, s); }
    if s :| s in settings && KindOf(s) == 7 { assert Shows(r, s); }
  }

  /** A setter is accepted behind others exactly when all of them are acceptable together. */
  lemma AcceptNext(r: Traceroute, host: Host, front: seq<Setting>, s: Setting)
    requires Configured(r, host, front) && Acceptable(host, front) && Unset(front, KindOf(s))
    ensures Refusal(r, s).None? <==> Acceptable(host, front + [s])
  {
    ShownPacketAndProtocol(r, host, front);
    var all := front + [s];
    assert s in all && forall other :: other in all <==> other == s || other in front;
    if r.packetSize.Some? { assert InRange(host, PacketSize(r.packetSize.value)); }
  }

  lemma {:induction false} TracerouteMeaning(host: Host, settings: seq<Setting>)
    requires DistinctKinds(settings)
    ensures SetAll(FreshTraceroute(host), settings).Ok? <==> Acceptable(host, settings)
    ensures SetAll(FreshTraceroute(host), settings).Ok? ==>
            Configured(SetAll(FreshTraceroute(host), settings).value, host, settings)
  {
    if settings != [] {
      var n := |settings| - 1;
      var front, s := settings[..n], settings[n];
      assert settings == front + [s];
      TracerouteMeaning(host, front);
      SetAllSnoc(FreshTraceroute(host), front, s);
      forall other | other in front ensures KindOf(other) != KindOf(s) && other in settings {
        var i :| 0 <= i < n && settings[i] == other;
      }
      if SetAll(FreshTraceroute(host), front).Ok? {
        var r := SetAll(FreshTraceroute(host), front).value;
        AcceptNext(r, host, front, s);
        AssignConfigures(r, host, front, s);
      }
    }
  }

  lemma ConfiguredIsUnique(a: Traceroute, b: Traceroute, host: Host, settings: seq<Setting>)
    requires Configured(a, host, settings) && Configured(b, host, settings)
    ensures a == b
  {
    forall kind: nat | kind <= 8 ensures SameField(a, b, kind) {
      if s :| s in settings && KindOf(s) == kind {
        assert Shows(a, s) && Shows(b, s);
      } else {
        assert ShowsDefault(a, kind) && ShowsDefault(b, kind);
      }
    }
    assert SameField(a, b, 0) && SameField(a, b, 1) && SameField(a, b, 2) && SameField(a, b, 3) && SameField(a, b, 4);
    assert SameField(a, b, 5) && SameField(a, b, 6) && SameField(a, b, 7) && SameField(a, b, 8);
  }

  predicate SameField(a: Traceroute, b: Traceroute, kind: nat) {
    match kind
    case 0 => a.count == b.count
    case 1 => a.interval == b.interval
    case 2 => a.waitTime == b.waitTime
    case 3 => a.packetSize == b.packetSize
    case 4 => a.maxTtl == b.maxTtl
    case 5 => a.port == b.port
    case 6 => a.source == b.source
    case 7 => a.protocol == b.protocol
    case _ => a.tos == b.tos
  }

  /** Two orders of the same distinct setters both fail or both give the same request. */
  lemma TracerouteOrderIsIrrelevant(host: Host, a: seq<Setting>, b: seq<Setting>)
    requires DistinctKinds(a) && DistinctKinds(b) && forall s :: s in a <==> s in b
    ensures SetAll(FreshTraceroute(host), a).Ok? <==> SetAll(FreshTraceroute(host), b).Ok?
    ensures SetAll(FreshTraceroute(host), a).Ok? ==>
            SetAll(FreshTraceroute(host), a) == SetAll(FreshTraceroute(host), b)
  {
    TracerouteMeaning(host, a);
    TracerouteMeaning(host, b);
    if SetAll(FreshTraceroute(host), a).Ok? {
      var ra, rb := SetAll(FreshTraceroute(host), a).value, SetAll(FreshTraceroute(host), b).value;
      assert forall kind: nat :: Unset(a, kind) <==> Unset(b, kind);
      ConfiguredIsUnique(ra, rb, host, a);
    }
  }
}
