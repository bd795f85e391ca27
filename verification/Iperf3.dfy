/**
 The iPerf3 request builder. Its source is checked against the IP version in force at the
 time, so the order of setters matters; the proofs say exactly when.
 */
module Iperf3Requests {
  import opened Bytes
  import Common = NetworkTestRequests

  type Family = Common.Family
  type Host = Common.Host
  type Source = Common.Source
  type InvalidOption = Common.InvalidOption

  datatype Transport = Tcp | Udp

  datatype Direction = Upload | Download

  datatype Limit = Time(seconds: U64) | Bytes(bytes: U64)

  datatype Iperf3 = Iperf3(
    host: Host,
    ipVersion: Family,
    transport: Transport,
    direction: Direction,
    port: Option<Common.U16>,
    bitrate: Option<U64>,
    streams: Option<Common.U16>,
    limit: Limit,
    source: Option<Source>
  )

  datatype Setting =
    | IpVersion(version: Family)
    | UseTransport(transport: Transport)
    | UseDirection(direction: Direction)
    | Port(port: Common.U16)
    | Bitrate(bitrate: U64)
    | Streams(streams: Common.U16)
    | SourceFrom(source: Source)

  function KindOf(s: Setting): nat {
    match s
    case IpVersion(_) => 0
    case UseTransport(_) => 1
    case UseDirection(_) => 2
    case Port(_) => 3
    case Bitrate(_) => 4
    case Streams(_) => 5
    case SourceFrom(_) => 6
  }

  /** Literal targets select their own version; host names start with IPv4. */
  function DefaultVersion(host: Host): Family {
    if host.Literal? then host.address.family else Common.Ipv4
  }

  function Fresh(host: Host, limit: Limit): Iperf3 {
    Iperf3(host, DefaultVersion(host), Tcp, Upload, None, None, None, limit, None)
  }

  function Refusal(r: Iperf3, s: Setting): Option<InvalidOption> {
    match s
    case IpVersion(v) =>
      var target := Common.EnsureTargetFamily(r.host, v);
      if target.Some? then target
      else if r.source.Some? then Common.EnsureSourceFamily(r.source.value, v)
      else None
    case UseTransport(_) => None
    case UseDirection(_) => None
    case Port(n) => Common.EnsureRange(n, 1, 0xFFFF)
    case Bitrate(n) => Common.EnsureRange(n, 1, 0xFFFF_FFFF_FFFF_FFFF)
    case Streams(n) => Common.EnsureRange(n, 1, 0xFFFF)
    case SourceFrom(source) => Common.EnsureSourceFamily(source, r.ipVersion)
  }

  function Assign(r: Iperf3, s: Setting): Iperf3 {
    match s
    case IpVersion(v) => r.(ipVersion := v)
    case UseTransport(t) => r.(transport := t)
    case UseDirection(d) => r.(direction := d)
    case Port(n) => r.(port := Some(n))
    case Bitrate(n) => r.(bitrate := Some(n))
    case Streams(n) => r.(streams := Some(n))
    case SourceFrom(source) => r.(source := Some(source))
  }

  function Set(r: Iperf3, s: Setting): Result<Iperf3, InvalidOption> {
    match Refusal(r, s)
    case Some(e) => Err(e)
    case None => Ok(Assign(r, s))
  }

  function SetAll(r: Iperf3, settings: seq<Setting>): Result<Iperf3, InvalidOption>
    decreases |settings|
  {
    if settings == [] then Ok(r)
    else
      match Set(r, settings[0])
      case Err(e) => Err(e)
      case Ok(next) => SetAll(next, settings[1..])
  }

  predicate Did(before: Iperf3, after: Iperf3, s: Setting, error: Option<InvalidOption>) {
    match Set(before, s)
    case Ok(next) => error == None && after == next
    case Err(e) => error == Some(e) && after == before
  }

  /** A request under construction; a refused setter leaves it as it was. */
  class Iperf3Builder {
    const host: Host
    const limit: Limit
    var ipVersion: Family
    var transport: Transport
    var direction: Direction
    var port: Option<Common.U16>
    var bitrate: Option<U64>
    var streams: Option<Common.U16>
    var source: Option<Source>

    constructor (host: Host, limit: Limit)
      ensures Value() == Fresh(host, limit)
    {
      this.host, this.limit := host, limit;
      ipVersion, transport, direction := DefaultVersion(host), Tcp, Upload;
      port, bitrate, streams, source := None, None, None, None;
    }

    function Value(): Iperf3
      reads this
    {
      Iperf3(host, ipVersion, transport, direction, port, bitrate, streams, limit, source)
    }

    method SetIpVersion(version: Family) returns (error: Option<InvalidOption>)
      modifies this`ipVersion
      ensures Did(old(Value()), Value(), IpVersion(version), error)
    {
      error := Common.EnsureTargetFamily(host, version);
      if error.None? && source.Some? { error := Common.EnsureSourceFamily(source.value, version); }
      if error.None? { ipVersion := version; }
    }

    method SetTransport(value: Transport)
      modifies this`transport
      ensures Did(old(Value()), Value(), UseTransport(value), None)
    {
      transport := value;
    }

    method SetDirection(value: Direction)
      modifies this`direction
      ensures Did(old(Value()), Value(), UseDirection(value), None)
    {
      direction := value;
    }

    method SetPort(value: Common.U16) returns (error: Option<InvalidOption>)
      modifies this`port
      ensures Did(old(Value()), Value(), Port(value), error)
    {
      error := Common.EnsureRange(value, 1, 0xFFFF);
      if error.None? { port := Some(value); }
    }

    method SetBitrate(value: U64) returns (error: Option<InvalidOption>)
      modifies this`bitrate
      ensures Did(old(Value()), Value(), Bitrate(value), error)
    {
      error := Common.EnsureRange(value, 1, 0xFFFF_FFFF_FFFF_FFFF);
      if error.None? { bitrate := Some(value); }
    }

    method SetStreams(value: Common.U16) returns (error: Option<InvalidOption>)
      modifies this`streams
      ensures Did(old(Value()), Value(), Streams(value), error)
    {
      error := Common.EnsureRange(value, 1, 0xFFFF);
      if error.None? { streams := Some(value); }
    }

    method SetSource(value: Source) returns (error: Option<InvalidOption>)
      modifies this`source
      ensures Did(old(Value()), Value(), SourceFrom(value), error)
    {
      error := Common.EnsureSourceFamily(value, ipVersion);
      if error.None? { source := Some(value); }
    }
  }

  // Every reachable request speaks one IP version.

  predicate Consistent(r: Iperf3) {
    (r.host.Literal? ==> r.host.address.family == r.ipVersion)
    && (r.source.Some? && r.source.value.FromAddress? ==> r.source.value.address.family == r.ipVersion)
  }

  lemma ReachableIperf3IsConsistent(host: Host, limit: Limit, settings: seq<Setting>)
    ensures SetAll(Fresh(host, limit), settings).Ok? ==> Consistent(SetAll(Fresh(host, limit), settings).value)
  {
    SetAllKeepsConsistent(Fresh(host, limit), settings);
  }

  lemma {:induction false} SetAllKeepsConsistent(r: Iperf3, settings: seq<Setting>)
    requires Consistent(r)
    ensures SetAll(r, settings).Ok? ==> Consistent(SetAll(r, settings).value)
    decreases |settings|
  {
    if settings != [] && Set(r, settings[0]).Ok? {
      SetAllKeepsConsistent(Set(r, settings[0]).value, settings[1..]);
    }
  }

  /** What a refusal says: the permitted range, or the wanted family and the one found. */
  lemma RefusalReasons(r: Iperf3, s: Setting)
    ensures s == Port(0) || s == Streams(0) ==> Refusal(r, s) == Some(Common.OutOfRange(1, 65535, 0))
    ensures s == Bitrate(0) ==> Refusal(r, s) == Some(Common.OutOfRange(1, 0xFFFF_FFFF_FFFF_FFFF, 0))
    ensures s.SourceFrom? && s.source.FromAddress? && s.source.address.family != r.ipVersion ==>
            Refusal(r, s) == Some(Common.AddressFamily(r.ipVersion, s.source.address.family))
    ensures s.IpVersion? && r.host.Literal? && r.host.address.family != s.version ==>
            Refusal(r, s) == Some(Common.AddressFamily(s.version, r.host.address.family))
    ensures s.IpVersion? && !(r.host.Literal? && r.host.address.family != s.version) && r.source.Some?
            && r.source.value.FromAddress? && r.source.value.address.family != s.version ==>
            Refusal(r, s) == Some(Common.AddressFamily(s.version, r.source.value.address.family))
  {}

  // When distinct setters succeed.

  ghost predicate DistinctKinds(settings: seq<Setting>) {
    forall i, j :: 0 <= i < j < |settings| ==> KindOf(settings[i]) != KindOf(settings[j])
  }

  predicate Alone(host: Host, s: Setting) {
    match s
    case IpVersion(v) => host.Literal? ==> host.address.family == v
    case Port(n) => n > 0
    case Bitrate(n) => n > 0
    case Streams(n) => n > 0
    case _ => true
  }

  /** The version after all settings, whatever their order. */
  function FinalVersion(host: Host, settings: seq<Setting>): Family {
    if IpVersion(Common.Ipv4) in settings then Common.Ipv4
    else if IpVersion(Common.Ipv6) in settings then Common.Ipv6
    else DefaultVersion(host)
  }

  predicate FamilyIs(s: Setting, version: Family) {
    s.SourceFrom? && s.source.FromAddress? ==> s.source.address.family == version
  }

  /** The part of success that the order cannot affect. */
  ghost predicate Acceptable(host: Host, settings: seq<Setting>) {
    forall s :: s in settings ==> Alone(host, s) && FamilyIs(s, FinalVersion(host, settings))
  }

  predicate IsIpv6Source(s: Setting) {
    s.SourceFrom? && s.source.FromAddress? && s.source.address.family.Ipv6?
  }

  /** An IPv6 source given to a host name before IPv6 is selected. */
  ghost predicate SourceTooEarly(host: Host, settings: seq<Setting>) {
    host.Name?
    && (exists i, j :: 0 <= i < j < |settings| && IsIpv6Source(settings[i]) && settings[j] == IpVersion(Common.Ipv6))
  }

  predicate Shows(r: Iperf3, s: Setting) {
    match s
    case IpVersion(v) => r.ipVersion == v
    case UseTransport(t) => r.transport == t
    case UseDirection(d) => r.direction == d
    case Port(n) => r.port == Some(n)
    case Bitrate(n) => r.bitrate == Some(n)
    case Streams(n) => r.streams == Some(n)
    case SourceFrom(source) => r.source == Some(source)
  }

  predicate ShowsDefault(r: Iperf3, kind: nat) {
    match kind
    case 0 => r.ipVersion == DefaultVersion(r.host)
    case 1 => r.transport.Tcp?
    case 2 => r.direction.Upload?
    case 3 => r.port.None?
    case 4 => r.bitrate.None?
    case 5 => r.streams.None?
    case 6 => r.source.None?
    case _ => true
  }

  ghost predicate Unset(settings: seq<Setting>, kind: nat) {
    forall s :: s in settings ==> KindOf(s) != kind
  }

  ghost predicate Configured(r: Iperf3, host: Host, limit: Limit, settings: seq<Setting>) {
    r.host == host && r.limit == limit && (forall s :: s in settings ==> Shows(r, s))
    && (forall kind: nat :: Unset(settings, kind) ==> ShowsDefault(r, kind))
  }

  lemma {:induction false} SetAllSnoc(r: Iperf3, settings: seq<Setting>, s: Setting)
    ensures SetAll(r, settings + [s])
         == match SetAll(r, settings)
            case Err(e) => Err(e)
            case Ok(next) => Set(next, s)
    decreases |settings|
  {
    if settings == [] {
      assert (settings + [s])[1..] == [];
    } else {
      assert (settings + [s])[1..] == settings[1..] + [s];
      if Set(r, settings[0]).Ok? { SetAllSnoc(Set(r, settings[0]).value, settings[1..], s); }
    }
  }

  lemma AssignConfigures(r: Iperf3, host: Host, limit: Limit, front: seq<Setting>, s: Setting)
    requires Configured(r, host, limit, front) && Unset(front, KindOf(s))
    ensures Configured(Assign(r, s), host, limit, front + [s])
  {
    forall other | other in front + [s] ensures Shows(Assign(r, s), other) {
      if other != s { assert Shows(r, other) && KindOf(other) != KindOf(s); }
    }
    forall kind: nat | Unset(front + [s], kind) ensures ShowsDefault(Assign(r, s), kind) {
      assert s in front + [s];
      forall other | other in front ensures KindOf(other) != kind { assert other in front + [s]; }
      assert Unset(front, kind);
    }
  }

  lemma ShownVersionAndSource(r: Iperf3, host: Host, limit: Limit, settings: seq<Setting>)
    requires Configured(r, host, limit, settings)
    ensures r.ipVersion == FinalVersion(host, settings)
    ensures r.source.Some? ==> SourceFrom(r.source.value) in settings
    ensures forall s :: s in settings && s.SourceFrom? ==> r.source == Some(s.source)
  {
    if Unset(settings, 0) { assert ShowsDefault(r, 0); }
    if Unset(settings, 6) { assert ShowsDefault(r, 6); }
    if s :| s in settings && KindOf(s) == 0 { assert Shows(r, s) && s == IpVersion(r.ipVersion); }
    forall s | s in settings && s.SourceFrom? ensures r.source == Some(s.source) { assert Shows(r, s); }
  }

  ghost predicate Succeeds(host: Host, settings: seq<Setting>) {
    Acceptable(host, settings) && !SourceTooEarly(host, settings)
  }

  lemma PositionOf(settings: seq<Setting>, s: Setting) returns (i: nat)
    requires s in settings
    ensures i < |settings| && settings[i] == s
  {
    i :| 0 <= i < |settings| && settings[i] == s;
  }

  lemma TooEarlyNext(host: Host, front: seq<Setting>, s: Setting)
    ensures SourceTooEarly(host, front + [s]) <==>
            SourceTooEarly(host, front)
            || (host.Name? && s == IpVersion(Common.Ipv6) && exists other :: other in front && IsIpv6Source(other))
  {
    var all := front + [s];
    if SourceTooEarly(host, all) {
      var i, j :| 0 <= i < j < |all| && IsIpv6Source(all[i]) && all[j] == IpVersion(Common.Ipv6);
      assert all[i] == front[i] && all[i] in front;
      if j < |front| { assert all[j] == front[j]; }
    }
    if SourceTooEarly(host, front) {
      var i, j :| 0 <= i < j < |front| && IsIpv6Source(front[i]) && front[j] == IpVersion(Common.Ipv6);
      assert all[i] == front[i] && all[j] == front[j];
    }
    if host.Name? && s == IpVersion(Common.Ipv6) {
      if other :| other in front && IsIpv6Source(other) {
        var i := PositionOf(front, other);
        assert all[i] == other && all[|front|] == s;
      }
    }
  }

  /** Success so far and of one more setter is success of them all. */
  lemma SucceedNext(r: Iperf3, host: Host, limit: Limit, front: seq<Setting>, s: Setting)
    requires Configured(r, host, limit, front) && Succeeds(host, front) && Unset(front, KindOf(s))
    ensures Refusal(r, s).None? <==> Succeeds(host, front + [s])
  {
    var all := front + [s];
    ShownVersionAndSource(r, host, limit, front);
    TooEarlyNext(host, front, s);
    assert s in all && forall other :: other in all <==> other == s || other in front;
    if s.IpVersion? {
      assert IpVersion(Common.Ipv4) !in front && IpVersion(Common.Ipv6) !in front;
      assert FinalVersion(host, all) == s.version && r.ipVersion == DefaultVersion(host);
      if r.source.Some? {
        assert FamilyIs(SourceFrom(r.source.value), DefaultVersion(host));
      }
    } else {
      assert FinalVersion(host, all) == FinalVersion(host, front);
      if s.SourceFrom? { assert forall other :: other in front ==> !IsIpv6Source(other); }
    }
  }

  /** Failure so far stays failure. */
  lemma FailureStays(host: Host, front: seq<Setting>, s: Setting)
    requires DistinctKinds(front + [s]) && !Succeeds(host, front)
    ensures !Succeeds(host, front + [s])
  {
    var all := front + [s];
    TooEarlyNext(host, front, s);
    assert s in all && all[|front|] == s && forall other :: other in all <==> other == s || other in front;
    if !Acceptable(host, front) && Acceptable(host, all) {
      var bad :| bad in front && !(Alone(host, bad) && FamilyIs(bad, FinalVersion(host, front)));
      assert bad in all && Alone(host, bad) && FamilyIs(bad, FinalVersion(host, all));
      var i := PositionOf(front, bad);
      assert all[i] == bad;
      forall other | other in front ensures !other.IpVersion? || !s.IpVersion? {
        var k := PositionOf(front, other);
        assert all[k] == other && KindOf(all[k]) != KindOf(all[|front|]);
      }
      assert s.IpVersion? && Alone(host, s);
      assert IsIpv6Source(bad) && host.Name? && s == IpVersion(Common.Ipv6);
    }
  }

  /**
   Distinct setters succeed exactly when each is fine by itself, a literal source has the
   final IP version, and no IPv6 source for a host name precedes the choice of IPv6.
   */
  lemma {:induction false} Iperf3Meaning(host: Host, limit: Limit, settings: seq<Setting>)
    requires DistinctKinds(settings)
    ensures SetAll(Fresh(host, limit), settings).Ok? <==> Succeeds(host, settings)
    ensures SetAll(Fresh(host, limit), settings).Ok? ==>
            Configured(SetAll(Fresh(host, limit), settings).value, host, limit, settings)
  {
    if settings != [] {
      var n := |settings| - 1;
      var front, s := settings[..n], settings[n];
      assert settings == front + [s];
      Iperf3Meaning(host, limit, front);
      SetAllSnoc(Fresh(host, limit), front, s);
      forall other | other in front ensures KindOf(other) != KindOf(s) {
        var i := PositionOf(front, other);
        assert settings[i] == other;
      }
      if SetAll(Fresh(host, limit), front).Ok? {
        var r := SetAll(Fresh(host, limit), front).value;
        SucceedNext(r, host, limit, front, s);
        AssignConfigures(r, host, limit, front, s);
      } else {
        FailureStays(host, front, s);
      }
    }
  }

  predicate SameField(a: Iperf3, b: Iperf3, kind: nat) {
    match kind
    case 0 => a.ipVersion == b.ipVersion
    case 1 => a.transport == b.transport
    case 2 => a.direction == b.direction
    case 3 => a.port == b.port
    case 4 => a.bitrate == b.bitrate
    case 5 => a.streams == b.streams
    case _ => a.source == b.source
  }

  lemma ConfiguredIsUnique(a: Iperf3, b: Iperf3, host: Host, limit: Limit, settings: seq<Setting>)
    requires Configured(a, host, limit, settings) && Configured(b, host, limit, settings)
    ensures a == b
  {
    forall kind: nat | kind <= 6 ensures SameField(a, b, kind) {
      if s :| s in settings && KindOf(s) == kind {
        assert Shows(a, s) && Shows(b, s);
      } else {
        assert ShowsDefault(a, kind) && ShowsDefault(b, kind);
      }
    }
    assert SameField(a, b, 0) && SameField(a, b, 1) && SameField(a, b, 2) && SameField(a, b, 3);
    assert SameField(a, b, 4) && SameField(a, b, 5) && SameField(a, b, 6);
  }

  /**
   Two orders of the same distinct setters differ exactly when the settings are acceptable
   and one order alone gives an IPv6 source to a host name too early; otherwise they agree.
   */
  lemma Iperf3OrderMatters(host: Host, limit: Limit, a: seq<Setting>, b: seq<Setting>)
    requires DistinctKinds(a) && DistinctKinds(b) && forall s :: s in a <==> s in b
    ensures var ra, rb := SetAll(Fresh(host, limit), a), SetAll(Fresh(host, limit), b);
            && (ra.Ok? && rb.Ok? ==> ra == rb)
            && ((ra.Ok? <==> rb.Ok?)
                <==> (Acceptable(host, a) ==> (SourceTooEarly(host, a) <==> SourceTooEarly(host, b))))
  {
    Iperf3Meaning(host, limit, a);
    Iperf3Meaning(host, limit, b);
    assert FinalVersion(host, a) == FinalVersion(host, b);
    assert Acceptable(host, a) <==> Acceptable(host, b);
    var ra, rb := SetAll(Fresh(host, limit), a), SetAll(Fresh(host, limit), b);
    if ra.Ok? && rb.Ok? {
      assert forall kind: nat :: Unset(a, kind) <==> Unset(b, kind);
      ConfiguredIsUnique(ra.value, rb.value, host, limit, a);
    }
  }

  /** A concrete pair of orders with different outcomes. */
  lemma Ipv6SourceForHostName(name: seq<byte>, limit: Limit, bits: nat)
    ensures var source := SourceFrom(Common.FromAddress(Common.Address(Common.Ipv6, bits)));
            var version := IpVersion(Common.Ipv6);
            var start := Fresh(Common.Name(name), limit);
            SetAll(start, [version, source]).Ok?
            && SetAll(start, [source, version]) == Err(Common.AddressFamily(Common.Ipv4, Common.Ipv6))
  {
    var source, version := SourceFrom(Common.FromAddress(Common.Address(Common.Ipv6, bits))), IpVersion(Common.Ipv6);
    var start := Fresh(Common.Name(name), limit);
    var selected := Assign(start, version);
    assert [version, source][1..] == [source];
    assert SetAll(start, [version, source]) == SetAll(selected, [source]);
    assert SetAll(selected, [source]) == SetAll(Assign(selected, source), [source][1..]);
  }
}
