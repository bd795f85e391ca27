/** The index that joins four response snapshots by MAC address. */
module ClientIndexes {
  import opened Bytes
  import opened SortedMap

  type Mac = m: seq<byte> | |m| == 6 witness [0, 0, 0, 0, 0, 0]

  /** A record of some response; what it says beyond its MAC address is kept as a whole. */
  datatype Record<T> = Record(mac: Mac, data: T)

  datatype HostData = HostData(active: bool, rest: seq<byte>)

  type Association = Record<seq<byte>>
  type HotspotHost = Record<HostData>
  type ArpEntry = Record<seq<byte>>
  type DhcpBinding = Record<seq<byte>>

  datatype Client = Client(
    mac: Mac,
    association: Option<Association>,
    hotspot: Option<HotspotHost>,
    arp: seq<ArpEntry>,
    dhcp: seq<DhcpBinding>
  )

  datatype ClientActivity = Active | Inactive | Unknown

  function Activity(c: Client): ClientActivity {
    if c.association.Some? || (c.hotspot.Some? && c.hotspot.value.data.active) then Active
    else if c.hotspot.Some? then Inactive
    else Unknown
  }

  // ---------- the naive join ----------

  function Matching<T>(records: seq<Record<T>>, mac: Mac): seq<Record<T>> {
    if records == [] then []
    else
      var last := records[|records| - 1];
      var front := Matching(records[..|records| - 1], mac);
      if last.mac == mac then front + [last] else front
  }

  function LastOf<T>(records: seq<T>): Option<T> {
    if records == [] then None else Some(records[|records| - 1])
  }

  function Join(mac: Mac, associations: seq<Association>, hosts: seq<HotspotHost>,
                arp: seq<ArpEntry>, dhcp: seq<DhcpBinding>): Option<Client>
  {
    var a, h, r, d := Matching(associations, mac), Matching(hosts, mac), Matching(arp, mac), Matching(dhcp, mac);
    if a == [] && h == [] && r == [] && d == [] then None
    else Some(Client(mac, LastOf(a), LastOf(h), r, d))
  }

  ghost predicate IsJoin(clients: seq<Entry<Client>>, associations: seq<Association>, hosts: seq<HotspotHost>,
                         arp: seq<ArpEntry>, dhcp: seq<DhcpBinding>)
  {
    Sorted(clients)
    && (forall mac: Mac :: Get(clients, mac) == Join(mac, associations, hosts, arp, dhcp))
    && (forall e :: e in clients ==> |e.key| == 6)
  }

  function ArpTotal(clients: seq<Entry<Client>>): nat {
    if clients == [] then 0 else |clients[0].value.arp| + ArpTotal(clients[1..])
  }

  function DhcpTotal(clients: seq<Entry<Client>>): nat {
    if clients == [] then 0 else |clients[0].value.dhcp| + DhcpTotal(clients[1..])
  }

  // ---------- building the index ----------

  function EntryFor(clients: seq<Entry<Client>>, mac: Mac): Client {
    var found := Get(clients, mac);
    if found.Some? then found.value else Client(mac, None, None, [], [])
  }

  class ClientIndex {
    var clients: seq<Entry<Client>>

    constructor (associations: seq<Association>, hosts: seq<HotspotHost>,
                 arp: seq<ArpEntry>, dhcp: seq<DhcpBinding>)
      ensures IsJoin(clients, associations, hosts, arp, dhcp)
      ensures ArpTotal(clients) == |arp| && DhcpTotal(clients) == |dhcp|
    {
      clients := [];
      new;
      for i := 0 to |associations|
        invariant IsJoin(clients, associations[..i], [], [], [])
        invariant ArpTotal(clients) == 0 && DhcpTotal(clients) == 0
      {
        var record := associations[i];
        NextPrefix(associations, i);
        JoinOneAssociation(clients, associations[..i], record);
        var client := EntryFor(clients, record.mac);
        clients := Put(clients, record.mac, client.(association := Some(record)));
      }
      assert associations[..|associations|] == associations;
      for i := 0 to |hosts|
        invariant IsJoin(clients, associations, hosts[..i], [], [])
        invariant ArpTotal(clients) == 0 && DhcpTotal(clients) == 0
      {
        var record := hosts[i];
        NextPrefix(hosts, i);
        JoinOneHost(clients, associations, hosts[..i], record);
        var client := EntryFor(clients, record.mac);
        clients := Put(clients, record.mac, client.(hotspot := Some(record)));
      }
      assert hosts[..|hosts|] == hosts;
      for i := 0 to |arp|
        invariant IsJoin(clients, associations, hosts, arp[..i], [])
        invariant ArpTotal(clients) == i && DhcpTotal(clients) == 0
      {
        var record := arp[i];
        NextPrefix(arp, i);
        JoinOneArp(clients, associations, hosts, arp[..i], record);
        var client := EntryFor(clients, record.mac);
        clients := Put(clients, record.mac, client.(arp := client.arp + [record]));
      }
      assert arp[..|arp|] == arp;
      for i := 0 to |dhcp|
        invariant IsJoin(clients, associations, hosts, arp, dhcp[..i])
        invariant ArpTotal(clients) == |arp| && DhcpTotal(clients) == i
      {
        var record := dhcp[i];
        NextPrefix(dhcp, i);
        JoinOneDhcp(clients, associations, hosts, arp, dhcp[..i], record);
        var client := EntryFor(clients, record.mac);
        clients := Put(clients, record.mac, client.(dhcp := client.dhcp + [record]));
      }
      assert dhcp[..|dhcp|] == dhcp;
    }
  }

  /** Replacing the client of one address leaves the others and shifts the totals accordingly. */
  lemma PutClient(clients: seq<Entry<Client>>, mac: Mac, client: Client)
    requires Sorted(clients) && forall e :: e in clients ==> |e.key| == 6
    ensures var r := Put(clients, mac, client);
            && Sorted(r) && (forall e :: e in r ==> |e.key| == 6)
            && (forall other: Mac :: Get(r, other) == if other == mac then Some(client) else Get(clients, other))
            && ArpTotal(r) == ArpTotal(clients) - |EntryFor(clients, mac).arp| + |client.arp|
            && DhcpTotal(r) == DhcpTotal(clients) - |EntryFor(clients, mac).dhcp| + |client.dhcp|
  {
    PutSorted(clients, mac, client);
    forall other: Mac ensures Get(Put(clients, mac, client), other)
      == if other == mac then Some(client) else Get(clients, other)
    {
      GetPut(clients, mac, client, other);
    }
    PutTotals(clients, mac, client);
  }

  lemma {:induction false} PutTotals(clients: seq<Entry<Client>>, mac: Mac, client: Client)
    requires Sorted(clients)
    ensures ArpTotal(Put(clients, mac, client)) == ArpTotal(clients) - |EntryFor(clients, mac).arp| + |client.arp|
    ensures DhcpTotal(Put(clients, mac, client)) == DhcpTotal(clients) - |EntryFor(clients, mac).dhcp| + |client.dhcp|
  {
    if clients != [] {
      var r := Put(clients, mac, client);
      if clients[0].key == mac {
        assert r[1..] == clients[1..];
      } else if Less(mac, clients[0].key) {
        assert r[1..] == clients;
        AbsentBefore(clients, mac);
      } else {
        assert r[1..] == Put(clients[1..], mac, client);
        PutTotals(clients[1..], mac, client);
      }
    }
  }

  lemma AbsentBefore(clients: seq<Entry<Client>>, mac: Mac)
    requires Sorted(clients) && clients != [] && Less(mac, clients[0].key)
    ensures Get(clients, mac) == None
  {
    forall e | e in clients ensures e.key != mac {
      LessIrreflexive(mac);
      if e != clients[0] { LessTransitive(mac, clients[0].key, e.key); }
    }
  }

  lemma MatchingSnoc<T>(records: seq<Record<T>>, record: Record<T>, mac: Mac)
    ensures Matching(records + [record], mac)
         == if record.mac == mac then Matching(records, mac) + [record] else Matching(records, mac)
  {
    assert (records + [record])[..|records|] == records;
  }

  lemma JoinOneAssociation(clients: seq<Entry<Client>>, associations: seq<Association>, record: Association)
    requires IsJoin(clients, associations, [], [], [])
    ensures var client := EntryFor(clients, record.mac);
            var r := Put(clients, record.mac, client.(association := Some(record)));
            IsJoin(r, associations + [record], [], [], [])
            && ArpTotal(r) == ArpTotal(clients) && DhcpTotal(r) == DhcpTotal(clients)
  {
    PutClient(clients, record.mac, EntryFor(clients, record.mac).(association := Some(record)));
    forall mac: Mac { MatchingSnoc(associations, record, mac); }
  }

  lemma JoinOneHost(clients: seq<Entry<Client>>, associations: seq<Association>, hosts: seq<HotspotHost>,
                    record: HotspotHost)
    requires IsJoin(clients, associations, hosts, [], [])
    ensures var client := EntryFor(clients, record.mac);
            var r := Put(clients, record.mac, client.(hotspot := Some(record)));
            IsJoin(r, associations, hosts + [record], [], [])
            && ArpTotal(r) == ArpTotal(clients) && DhcpTotal(r) == DhcpTotal(clients)
  {
    PutClient(clients, record.mac, EntryFor(clients, record.mac).(hotspot := Some(record)));
    forall mac: Mac { MatchingSnoc(hosts, record, mac); }
  }

  lemma JoinOneArp(clients: seq<Entry<Client>>, associations: seq<Association>, hosts: seq<HotspotHost>,
                   arp: seq<ArpEntry>, record: ArpEntry)
    requires IsJoin(clients, associations, hosts, arp, [])
    ensures var client := EntryFor(clients, record.mac);
            var r := Put(clients, record.mac, client.(arp := client.arp + [record]));
            IsJoin(r, associations, hosts, arp + [record], [])
            && ArpTotal(r) == ArpTotal(clients) + 1 && DhcpTotal(r) == DhcpTotal(clients)
  {
    var client := EntryFor(clients, record.mac);
    var updated := client.(arp := client.arp + [record]);
    PutClient(clients, record.mac, updated);
    forall mac: Mac ensures Get(Put(clients, record.mac, updated), mac)
      == Join(mac, associations, hosts, arp + [record], [])
    {
      MatchingSnoc(arp, record, mac);
      assert Get(clients, mac) == Join(mac, associations, hosts, arp, []);
    }
  }

  lemma JoinOneDhcp(clients: seq<Entry<Client>>, associations: seq<Association>, hosts: seq<HotspotHost>,
                    arp: seq<ArpEntry>, dhcp: seq<DhcpBinding>, record: DhcpBinding)
    requires IsJoin(clients, associations, hosts, arp, dhcp)
    ensures var client := EntryFor(clients, record.mac);
            var r := Put(clients, record.mac, client.(dhcp := client.dhcp + [record]));
            IsJoin(r, associations, hosts, arp, dhcp + [record])
            && ArpTotal(r) == ArpTotal(clients) && DhcpTotal(r) == DhcpTotal(clients) + 1
  {
    var client := EntryFor(clients, record.mac);
    var updated := client.(dhcp := client.dhcp + [record]);
    PutClient(clients, record.mac, updated);
    forall mac: Mac ensures Get(Put(clients, record.mac, updated), mac)
      == Join(mac, associations, hosts, arp, dhcp + [record])
    {
      MatchingSnoc(dhcp, record, mac);
      assert Get(clients, mac) == Join(mac, associations, hosts, arp, dhcp);
    }
  }

  // ---------- what the join means ----------

  ghost predicate Mentions<T>(records: seq<Record<T>>, mac: Mac) {
    exists i :: 0 <= i < |records| && records[i].mac == mac
  }

  /** `Matching` splits with its input, so it keeps the order of the records. */
  lemma {:induction false} MatchingConcat<T>(a: seq<Record<T>>, b: seq<Record<T>>, mac: Mac)
    ensures Matching(a + b, mac) == Matching(a, mac) + Matching(b, mac)
  {
    if b == [] {
      assert a + b == a;
    } else {
      var front, last := b[..|b| - 1], b[|b| - 1];
      MatchingConcat(a, front, mac);
      assert b == front + [last] && a + b == (a + front) + [last];
      MatchingSnoc(a + front, last, mac);
    }
  }

  /** `Matching` keeps every record of this address as often as it occurs, and no other. */
  lemma {:induction false} MatchingCounts<T>(records: seq<Record<T>>, mac: Mac, r: Record<T>)
    ensures multiset(Matching(records, mac))[r] == if r.mac == mac then multiset(records)[r] else 0
  {
    if records != [] {
      var front, last := records[..|records| - 1], records[|records| - 1];
      MatchingCounts(front, mac, r);
      assert records == front + [last];
    }
  }

  lemma {:induction false} MatchingNonEmpty<T>(records: seq<Record<T>>, mac: Mac)
    ensures Matching(records, mac) != [] <==> Mentions(records, mac)
  {
    if records != [] {
      var n := |records| - 1;
      MatchingNonEmpty(records[..n], mac);
      if Mentions(records, mac) && records[n].mac != mac {
        var i :| 0 <= i < |records| && records[i].mac == mac;
        assert records[..n][i].mac == mac;
      }
      if Mentions(records[..n], mac) {
        var i :| 0 <= i < n && records[..n][i].mac == mac;
        assert records[i].mac == mac;
      }
    }
  }

  /** The last record of this address, by its place in the input. */
  ghost predicate IsLatest<T>(records: seq<Record<T>>, mac: Mac, r: Record<T>) {
    exists i :: 0 <= i < |records| && records[i] == r && r.mac == mac
                && forall j :: i < j < |records| ==> records[j].mac != mac
  }

  lemma LatestNext<T>(front: seq<Record<T>>, last: Record<T>, mac: Mac, r: Record<T>)
    ensures IsLatest(front + [last], mac, r) <==> if last.mac == mac then r == last else IsLatest(front, mac, r)
  {
    var all, n := front + [last], |front|;
    assert all[n] == last && forall j :: 0 <= j < n ==> all[j] == front[j];
    if last.mac != mac && IsLatest(front, mac, r) {
      var i :| 0 <= i < n && front[i] == r && r.mac == mac && forall j :: i < j < n ==> front[j].mac != mac;
      assert all[i] == r && forall j :: i < j < |all| ==> all[j].mac != mac;
    }
    if IsLatest(all, mac, r) {
      var i :| 0 <= i < |all| && all[i] == r && r.mac == mac && forall j :: i < j < |all| ==> all[j].mac != mac;
      if i < n { assert front[i] == r && forall j :: i < j < n ==> front[j].mac == all[j].mac; }
    }
  }

  lemma {:induction false} LastMatchIsLatest<T>(records: seq<Record<T>>, mac: Mac, r: Record<T>)
    ensures LastOf(Matching(records, mac)) == Some(r) <==> IsLatest(records, mac, r)
  {
    if records != [] {
      var front, last := records[..|records| - 1], records[|records| - 1];
      LastMatchIsLatest(front, mac, r);
      LatestNext(front, last, mac, r);
      assert records == front + [last];
    }
  }

  /** An indexed client has the latest association and hotspot record of its address, if there is one. */
  lemma IndexHoldsLatest(clients: seq<Entry<Client>>, associations: seq<Association>, hosts: seq<HotspotHost>,
                         arp: seq<ArpEntry>, dhcp: seq<DhcpBinding>, i: nat, a: Association, h: HotspotHost)
    requires IsJoin(clients, associations, hosts, arp, dhcp) && i < |clients|
    ensures clients[i].value.association == Some(a) <==> IsLatest(associations, clients[i].key, a)
    ensures clients[i].value.hotspot == Some(h) <==> IsLatest(hosts, clients[i].key, h)
    ensures clients[i].value.arp == Matching(arp, clients[i].key)
    ensures clients[i].value.dhcp == Matching(dhcp, clients[i].key)
  {
    var mac: Mac := clients[i].key;
    GetSorted(clients, i);
    assert Get(clients, mac) == Join(mac, associations, hosts, arp, dhcp);
    LastMatchIsLatest(associations, mac, a);
    LastMatchIsLatest(hosts, mac, h);
  }

  /** The index lists exactly the addresses of the four inputs, once each and in address order. */
  lemma IndexKeys(clients: seq<Entry<Client>>, associations: seq<Association>, hosts: seq<HotspotHost>,
                  arp: seq<ArpEntry>, dhcp: seq<DhcpBinding>, mac: Mac)
    requires IsJoin(clients, associations, hosts, arp, dhcp)
    ensures (exists i :: 0 <= i < |clients| && clients[i].key == mac) <==>
            Mentions(associations, mac) || Mentions(hosts, mac) || Mentions(arp, mac) || Mentions(dhcp, mac)
    ensures forall i, j :: 0 <= i < j < |clients| ==> Less(clients[i].key, clients[j].key)
    ensures forall i :: 0 <= i < |clients| && clients[i].key == mac ==> clients[i].value.mac == mac
  {
    MatchingNonEmpty(associations, mac);
    MatchingNonEmpty(hosts, mac);
    MatchingNonEmpty(arp, mac);
    MatchingNonEmpty(dhcp, mac);
    assert Get(clients, mac) == Join(mac, associations, hosts, arp, dhcp);
    if i :| 0 <= i < |clients| && clients[i].key == mac {
      GetSorted(clients, i);
    }
    forall i | 0 <= i < |clients| && clients[i].key == mac ensures clients[i].value.mac == mac {
      GetSorted(clients, i);
    }
  }

  /** Activity, read off the inputs: ARP and DHCP records never make a client active. */
  lemma ActivityOfJoin(mac: Mac, associations: seq<Association>, hosts: seq<HotspotHost>,
                       arp: seq<ArpEntry>, dhcp: seq<DhcpBinding>)
    requires Join(mac, associations, hosts, arp, dhcp).Some?
    ensures var activity := Activity(Join(mac, associations, hosts, arp, dhcp).value);
            var own := Matching(hosts, mac);
            && (activity == Active <==> Mentions(associations, mac) || (own != [] && own[|own| - 1].data.active))
            && (activity == Unknown <==> !Mentions(associations, mac) && !Mentions(hosts, mac))
  {
    MatchingNonEmpty(associations, mac);
    MatchingNonEmpty(hosts, mac);
  }
}
