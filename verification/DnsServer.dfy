// From the server's configuration to the catalog of zones (src/dns_server.rs, src/util.rs).
//
// The library parts are modelled by what the program uses of them: the catalog is a map from zone names searched from
// the queried name upwards (section 4.3.2 of RFC 1034), and the in-memory store is a map from name and type to the set
// of addresses put there.

module DnsServer {
  import opened Wrappers
  import opened Addresses
  import opened Names

  datatype RecordType = A | AAAA

  datatype RecordConfig = RecordConfig(key: string, value: string)

  datatype ZoneConfig = ZoneConfig(name: string, records: seq<RecordConfig>)

  datatype ServerConfig = ServerConfig(nameservers: seq<string>, zones: seq<ZoneConfig>)

  datatype Protocol = Udp | Tcp

  datatype NameServer = NameServer(socket: SocketAddr, protocol: Protocol)

  datatype LoadError = BadZoneName | BadKey | BadValue | BadNameserver

  datatype RrKey = RrKey(name: LowerName, rtype: RecordType)

  type StaticStore = map<RrKey, set<IpAddr>>

  /** A zone's three sources; the database is shared by all zones. */
  datatype SplitAuthority = SplitAuthority(origin: LowerName, inMemory: StaticStore, upstreams: seq<NameServer>)

  const DNS_PORT: nat := 53

  /** `get_ip_addr_record_type` */
  function RecordTypeOf(ip: IpAddr): RecordType {
    if ip.V4? then A else AAAA
  }

  function GetOr<K, V>(m: map<K, V>, k: K, default: V): V {
    if k in m then m[k] else default
  }

  // ---- What the configuration means ----

  /** The error that a record of the configuration stops the start with; its key is looked at before its value. */
  function RecordError(zone: DomainName, r: RecordConfig): Option<LoadError> {
    if RenderRecordName(r.key, zone).Err? then Some(BadKey)
    else if ParseIp(r.value).None? then Some(BadValue)
    else None
  }

  function RecordCheck(zone: DomainName): RecordConfig -> Option<LoadError> {
    r => RecordError(zone, r)
  }

  /** Does the record give addresses for this name and type: its key renders to the name, up to case, and its value is an
      address of the type's family, IPv4 for A and IPv6 for AAAA? */
  predicate Gives(zone: DomainName, r: RecordConfig, k: RrKey) {
    && RecordError(zone, r).None?
    && SameName(RenderRecordName(r.key, zone).value.labels, k.name)
    && (ParseIp(r.value).value.V4? <==> k.rtype == A)
  }

  /** The addresses that a zone's records give for a name and type. */
  ghost function StaticSet(zone: DomainName, records: seq<RecordConfig>, k: RrKey): set<IpAddr> {
    set i | 0 <= i < |records| && Gives(zone, records[i], k) :: ParseIp(records[i].value).value
  }

  function NameserverError(nameserver: string): Option<LoadError> {
    if ParseIpOptionalSocket(nameserver, DNS_PORT).None? then Some(BadNameserver) else None
  }

  function FirstError<X>(xs: seq<X>, error: X -> Option<LoadError>): (e: Option<LoadError>)
    ensures e.None? <==> forall i | 0 <= i < |xs| :: error(xs[i]).None?
    ensures e.Some? ==> exists i :: 0 <= i < |xs| && error(xs[i]) == e && forall j | 0 <= j < i :: error(xs[j]).None?
  {
    if xs == [] then None
    else
      var front := FirstError(xs[..|xs| - 1], error);
      if front.Some? then front else error(xs[|xs| - 1])
  }

  /** Name servers are read again for every zone, after its records; a configuration without zones never reads them. */
  function ZoneError(nameservers: seq<string>, z: ZoneConfig): Option<LoadError> {
    var zone := FromStr(z.name);
    if zone.Err? then Some(BadZoneName)
    else
      var record := FirstError(z.records, RecordCheck(zone.value));
      if record.Some? then record else FirstError(nameservers, NameserverError)
  }

  function ZoneCheck(nameservers: seq<string>): ZoneConfig -> Option<LoadError> {
    z => ZoneError(nameservers, z)
  }

  /** The error that the configuration stops the start with, if any. */
  function ConfigError(cfg: ServerConfig): Option<LoadError> {
    FirstError(cfg.zones, ZoneCheck(cfg.nameservers))
  }

  /** A configuration loads when every zone name parses, every key renders and every value parses in every zone, and,
      if there is any zone, every name server parses. */
  lemma LoadsExactly(cfg: ServerConfig)
    ensures ConfigError(cfg).None? <==>
            && (forall i | 0 <= i < |cfg.zones| :: FromStr(cfg.zones[i].name).Ok?)
            && (forall i, j | 0 <= i < |cfg.zones| && 0 <= j < |cfg.zones[i].records| ::
                  && var r := cfg.zones[i].records[j];
                  && RenderRecordName(r.key, FromStr(cfg.zones[i].name).value).Ok? && ParseIp(r.value).Some?)
            && (cfg.zones != [] ==>
                  forall i | 0 <= i < |cfg.nameservers| :: ParseIpOptionalSocket(cfg.nameservers[i], 53).Some?)
  {
    forall i | 0 <= i < |cfg.zones|
      ensures ZoneError(cfg.nameservers, cfg.zones[i]).None? <==>
              && FromStr(cfg.zones[i].name).Ok?
              && (forall j | 0 <= j < |cfg.zones[i].records| ::
                    RecordError(FromStr(cfg.zones[i].name).value, cfg.zones[i].records[j]).None?)
              && (forall j | 0 <= j < |cfg.nameservers| :: NameserverError(cfg.nameservers[j]).None?)
    {
    }
  }

  ghost predicate RecordLoads(zone: DomainName, r: RecordConfig) {
    RenderRecordName(r.key, zone).Ok? && ParseIp(r.value).Some?
  }

  ghost predicate ZoneLoads(nameservers: seq<string>, z: ZoneConfig) {
    && FromStr(z.name).Ok?
    && (forall j | 0 <= j < |z.records| :: RecordLoads(FromStr(z.name).value, z.records[j]))
    && forall n | 0 <= n < |nameservers| :: ParseIpOptionalSocket(nameservers[n], 53).Some?
  }

  /** Record j is the first bad one of its zone, for its key (even if its value is bad as well) or for its value. */
  ghost predicate RecordFails(zone: DomainName, records: seq<RecordConfig>, j: nat, e: LoadError) {
    && j < |records|
    && (forall i | 0 <= i < j :: RecordLoads(zone, records[i]))
    && if RenderRecordName(records[j].key, zone).Err? then e == BadKey else ParseIp(records[j].value).None? && e == BadValue
  }

  /** What is wrong with a zone: first its name, then its records in order, then any name server. */
  ghost predicate ZoneFails(nameservers: seq<string>, z: ZoneConfig, e: LoadError) {
    if FromStr(z.name).Err? then e == BadZoneName
    else if exists j | 0 <= j < |z.records| :: !RecordLoads(FromStr(z.name).value, z.records[j]) then
      exists j :: RecordFails(FromStr(z.name).value, z.records, j, e)
    else
      e == BadNameserver && exists n | 0 <= n < |nameservers| :: ParseIpOptionalSocket(nameservers[n], 53).None?
  }

  /** The error of a configuration with several faults is that of its first bad zone. */
  lemma ErrorExactly(cfg: ServerConfig, e: LoadError)
    ensures ConfigError(cfg) == Some(e) <==>
            exists i | 0 <= i < |cfg.zones| ::
              && (forall j | 0 <= j < i :: ZoneLoads(cfg.nameservers, cfg.zones[j]))
              && ZoneFails(cfg.nameservers, cfg.zones[i], e)
  {
    hide ZoneLoads, ZoneFails, ZoneError, FirstError;
    forall i | 0 <= i < |cfg.zones|
      ensures ZoneLoads(cfg.nameservers, cfg.zones[i]) <==> ZoneCheck(cfg.nameservers)(cfg.zones[i]).None?
      ensures ZoneFails(cfg.nameservers, cfg.zones[i], e) <==> ZoneCheck(cfg.nameservers)(cfg.zones[i]) == Some(e)
    {
      ZoneErrorExactly(cfg.nameservers, cfg.zones[i], e);
    }
    if i :| && 0 <= i < |cfg.zones|
            && (forall j | 0 <= j < i :: ZoneLoads(cfg.nameservers, cfg.zones[j]))
            && ZoneFails(cfg.nameservers, cfg.zones[i], e) {
      FirstErrorIs(cfg.zones, ZoneCheck(cfg.nameservers), i);
    }
  }

  lemma ZoneErrorExactly(nameservers: seq<string>, z: ZoneConfig, e: LoadError)
    ensures ZoneLoads(nameservers, z) <==> ZoneError(nameservers, z).None?
    ensures ZoneFails(nameservers, z, e) <==> ZoneError(nameservers, z) == Some(e)
  {
    hide FirstError, FromStr, RecordLoads, RecordError, RecordFails, ParseIpOptionalSocket;
    var zone := FromStr(z.name);
    if zone.Ok? {
      RecordErrorExactly(zone.value, z.records, e);
      assert forall n | 0 <= n < |nameservers| ::
          NameserverError(nameservers[n]).None? <==> ParseIpOptionalSocket(nameservers[n], 53).Some?;
    }
  }

  lemma RecordErrorExactly(zone: DomainName, records: seq<RecordConfig>, e: LoadError)
    ensures FirstError(records, RecordCheck(zone)).None? <==> forall j | 0 <= j < |records| :: RecordLoads(zone, records[j])
    ensures FirstError(records, RecordCheck(zone)) == Some(e) <==> exists j :: RecordFails(zone, records, j, e)
  {
    hide FirstError, RenderRecordName, ParseIp;
    var error := RecordCheck(zone);
    assert forall j | 0 <= j < |records| :: error(records[j]).None? <==> RecordLoads(zone, records[j]);
    if FirstError(records, error) == Some(e) {
      var j: nat :| j < |records| && error(records[j]) == Some(e) && forall i | 0 <= i < j :: error(records[i]).None?;
      assert RecordFails(zone, records, j, e);
    }
    if j :| RecordFails(zone, records, j, e) {
      FirstErrorIs(records, error, j);
    }
  }

  lemma FirstErrorIs<X>(xs: seq<X>, error: X -> Option<LoadError>, i: nat)
    requires i < |xs| && error(xs[i]).Some? && forall j | 0 <= j < i :: error(xs[j]).None?
    ensures FirstError(xs, error) == error(xs[i])
  {
    assert FirstError(xs, error).Some? by {
      assert !error(xs[i]).None?;
    }
  }

  /** The upstreams are the name servers in the order of the configuration, each over UDP and then over TCP; one
      written without a port is asked on port 53. */
  ghost predicate AreUpstreams(upstreams: seq<NameServer>, nameservers: seq<string>) {
    && |upstreams| == 2 * |nameservers|
    && forall i | 0 <= i < |nameservers| ::
         && ParseIpOptionalSocket(nameservers[i], 53) == Some(upstreams[2 * i].socket)
         && upstreams[2 * i].protocol == Udp
         && upstreams[2 * i + 1] == NameServer(upstreams[2 * i].socket, Tcp)
  }

  function ZoneOrigin(z: ZoneConfig): LowerName {
    var zone := FromStr(z.name);
    if zone.Ok? then Lower(zone.value.labels) else []
  }

  /** The store holds, under the lower-case form of every name, exactly the set that the records give for the name, and
      nothing else. */
  ghost predicate Holds(store: StaticStore, zone: DomainName, records: seq<RecordConfig>) {
    && (forall k: RrKey :: GetOr(store, RrKey(Lower(k.name), k.rtype), {}) == StaticSet(zone, records, k))
    && forall k | k in store :: store[k] != {} && Lower(k.name) == k.name
  }

  ghost predicate IsAuthorityFor(a: SplitAuthority, cfg: ServerConfig, z: ZoneConfig) {
    && ZoneError(cfg.nameservers, z).None?
    && a.origin == ZoneOrigin(z)
    && Holds(a.inMemory, FromStr(z.name).value, z.records)
    && AreUpstreams(a.upstreams, cfg.nameservers)
  }

  /** Is zone i the last one of its name? */
  ghost predicate IsLastZone(zones: seq<ZoneConfig>, i: nat) {
    i < |zones| && forall j | i < j < |zones| :: ZoneOrigin(zones[j]) != ZoneOrigin(zones[i])
  }

  /** The catalog's names are those of the zones. */
  ghost predicate HasNamesOf(authorities: map<LowerName, SplitAuthority>, zones: seq<ZoneConfig>) {
    && (forall name | name in authorities :: exists i :: 0 <= i < |zones| && ZoneOrigin(zones[i]) == name)
    && forall i | 0 <= i < |zones| :: FromStr(zones[i].name).Ok? && ZoneOrigin(zones[i]) in authorities
  }

  /** The catalog of a configuration: the names of its zones, each with the authority of the last zone of that name. */
  ghost predicate BuiltFrom(authorities: map<LowerName, SplitAuthority>, cfg: ServerConfig, zones: seq<ZoneConfig>) {
    && HasNamesOf(authorities, zones)
    && (forall i | 0 <= i < |zones| && IsLastZone(zones, i) ::
          IsAuthorityFor(authorities[ZoneOrigin(zones[i])], cfg, zones[i]))
  }

  // ---- Building it ----

  class InMemoryAuthority {
    var records: StaticStore

    constructor ()
      ensures records == map[]
    {
      records := map[];
    }

    method Upsert(name: DomainName, rtype: RecordType, data: IpAddr)
      modifies this
      ensures var k := RrKey(Lower(name.labels), rtype);
              records == old(records)[k := GetOr(old(records), k, {}) + {data}]
    {
      var k := RrKey(Lower(name.labels), rtype);
      records := records[k := GetOr(records, k, {}) + {data}];
    }
  }

  class Catalog {
    var authorities: map<LowerName, SplitAuthority>

    constructor ()
      ensures authorities == map[]
    {
      authorities := map[];
    }

    method Upsert(name: LowerName, authority: SplitAuthority)
      modifies this
      ensures authorities == old(authorities)[name := authority]
    {
      authorities := authorities[name := authority];
    }
  }

  lemma StaticSetStep(zone: DomainName, records: seq<RecordConfig>, r: RecordConfig, k: RrKey)
    requires RecordError(zone, r).None?
    ensures StaticSet(zone, records + [r], k)
            == StaticSet(zone, records, k) + if Gives(zone, r, k) then {ParseIp(r.value).value} else {}
  {
    var all := records + [r];
    var before, after := StaticSet(zone, records, k), StaticSet(zone, all, k);
    forall ip | ip in before
      ensures ip in after
    {
      var i :| 0 <= i < |records| && Gives(zone, records[i], k) && ip == ParseIp(records[i].value).value;
      assert all[i] == records[i];
    }
    assert all[|records|] == r;
  }

  lemma NothingStored(zone: DomainName)
    ensures Holds(map[], zone, [])
  {
  }

  /** What a store holds for a name and type in any spelling. */
  lemma StoredFor(store: StaticStore, zone: DomainName, records: seq<RecordConfig>, labels: seq<string>, rtype: RecordType)
    requires Holds(store, zone, records)
    ensures var k, given := RrKey(Lower(labels), rtype), StaticSet(zone, records, RrKey(labels, rtype));
            && (k in store <==> given != {})
            && (k in store ==> store[k] == given)
  {
    var k := RrKey(labels, rtype);
    assert GetOr(store, RrKey(Lower(k.name), k.rtype), {}) == StaticSet(zone, records, k);
  }

  /** A record gives for a name what it puts under that name's lower-case form. */
  lemma GivenName(zone: DomainName, r: RecordConfig, k: RrKey)
    requires RecordError(zone, r).None?
    ensures var name, ip := RenderRecordName(r.key, zone).value, ParseIp(r.value).value;
            Gives(zone, r, k) <==> RrKey(Lower(name.labels), RecordTypeOf(ip)) == RrKey(Lower(k.name), k.rtype)
  {
    hide RenderRecordName, ParseIp, SameName, Lower;
    LowerFolds(RenderRecordName(r.key, zone).value.labels, k.name);
  }

  /** Every address is stored under the type of its family, and every record's address is stored. */
  lemma StoredByFamily(store: StaticStore, zone: DomainName, records: seq<RecordConfig>)
    requires Holds(store, zone, records) && FirstError(records, RecordCheck(zone)).None?
    ensures forall k, ip :: ip in GetOr(store, k, {}) ==> (ip.V4? <==> k.rtype == A)
    ensures forall i | 0 <= i < |records| ::
              && var name, ip := RenderRecordName(records[i].key, zone), ParseIp(records[i].value);
              && name.Ok? && ip.Some?
              && ip.value in GetOr(store, RrKey(Lower(name.value.labels), if ip.value.V4? then A else AAAA), {})
  {
    hide RenderRecordName, ParseIp, SameName, Lower, FirstError;
    forall k, ip | ip in GetOr(store, k, {})
      ensures ip.V4? <==> k.rtype == A
    {
      assert ip in StaticSet(zone, records, k);
    }
    forall i | 0 <= i < |records|
      ensures var name, ip := RenderRecordName(records[i].key, zone), ParseIp(records[i].value);
              && name.Ok? && ip.Some?
              && ip.value in GetOr(store, RrKey(Lower(name.value.labels), if ip.value.V4? then A else AAAA), {})
    {
      assert RecordCheck(zone)(records[i]).None?;
      var labels, ip := RenderRecordName(records[i].key, zone).value.labels, ParseIp(records[i].value).value;
      var k := RrKey(labels, if ip.V4? then A else AAAA);
      assert Gives(zone, records[i], k) by {
        LowerFolds(labels, labels);
      }
      assert ip in StaticSet(zone, records, k);
    }
  }

  /** The inner loop: the records of one zone put into a fresh in-memory store. */
  method LoadRecords(zone: DomainName, records: seq<RecordConfig>) returns (store: StaticStore, error: Option<LoadError>)
    ensures error == FirstError(records, RecordCheck(zone))
    ensures error.None? ==> Holds(store, zone, records)
    ensures error.None? ==> forall k, ip :: ip in GetOr(store, k, {}) ==> (ip.V4? <==> k.rtype == A)
    ensures error.None? ==>
              forall i | 0 <= i < |records| ::
                && var name, ip := RenderRecordName(records[i].key, zone), ParseIp(records[i].value);
                && name.Ok? && ip.Some?
                && ip.value in GetOr(store, RrKey(Lower(name.value.labels), if ip.value.V4? then A else AAAA), {})
  {
    hide FirstError, RenderRecordName, ParseIp, Lower, SameName, StaticSet, Gives;
    var authority := new InMemoryAuthority();
    store, error := map[], None;
    NothingStored(zone);
    for i := 0 to |records|
      invariant fresh(authority)
      invariant FirstError(records[..i], RecordCheck(zone)).None?
      invariant Holds(authority.records, zone, records[..i])
    {
      var r := records[i];
      assert records[..i + 1] == records[..i] + [r];
      FirstErrorNext(records, i, RecordCheck(zone));
      var name := RenderRecordName(r.key, zone);
      if name.Err? {
        return map[], Some(BadKey);
      }
      var ip := ParseIp(r.value);
      if ip.None? {
        return map[], Some(BadValue);
      }
      LowerIdempotent(name.value.labels);
      authority.Upsert(name.value, RecordTypeOf(ip.value), ip.value);
      forall k: RrKey
        ensures GetOr(authority.records, RrKey(Lower(k.name), k.rtype), {}) == StaticSet(zone, records[..i + 1], k)
      {
        StaticSetStep(zone, records[..i], r, k);
        GivenName(zone, r, k);
      }
    }
    assert records[..|records|] == records;
    store := authority.records;
    StoredByFamily(store, zone, records);
  }

  /** The first error of a prefix is the first error of the whole. */
  lemma {:induction false} FirstErrorPrefix<X>(xs: seq<X>, n: nat, error: X -> Option<LoadError>)
    requires n <= |xs|
    ensures FirstError(xs[..n], error).Some? ==> FirstError(xs, error) == FirstError(xs[..n], error)
    decreases |xs|
  {
    if n < |xs| {
      FirstErrorPrefix(xs[..|xs| - 1], n, error);
      assert xs[..|xs| - 1][..n] == xs[..n];
    } else {
      assert xs[..n] == xs;
    }
  }

  /** One item more, after none of those before it was bad. */
  lemma FirstErrorNext<X>(xs: seq<X>, i: nat, error: X -> Option<LoadError>)
    requires i < |xs| && FirstError(xs[..i], error).None?
    ensures FirstError(xs[..i + 1], error) == error(xs[i])
    ensures error(xs[i]).Some? ==> FirstError(xs, error) == error(xs[i])
  {
    assert xs[..i + 1][..i] == xs[..i];
    FirstErrorPrefix(xs, i + 1, error);
  }

  /** The loop over the name servers. */
  method LoadNameservers(nameservers: seq<string>) returns (upstreams: seq<NameServer>, error: Option<LoadError>)
    ensures error == FirstError(nameservers, NameserverError)
    ensures error.None? ==> AreUpstreams(upstreams, nameservers)
  {
    hide FirstError, ParseIpOptionalSocket;
    upstreams, error := [], None;
    for i := 0 to |nameservers|
      invariant FirstError(nameservers[..i], NameserverError).None?
      invariant AreUpstreams(upstreams, nameservers[..i])
    {
      assert nameservers[..i + 1][..i] == nameservers[..i];
      FirstErrorNext(nameservers, i, NameserverError);
      var socket := ParseIpOptionalSocket(nameservers[i], DNS_PORT);
      if socket.None? {
        return [], Some(BadNameserver);
      }
      upstreams := upstreams + [NameServer(socket.value, Udp)];
      upstreams := upstreams + [NameServer(socket.value, Tcp)];
    }
    assert nameservers[..|nameservers|] == nameservers;
  }

  /** The body of the outer loop: one zone's authority, from its records and the name servers. */
  method LoadZone(cfg: ServerConfig, z: ZoneConfig) returns (authority: SplitAuthority, error: Option<LoadError>)
    ensures error == ZoneError(cfg.nameservers, z)
    ensures error.None? ==> IsAuthorityFor(authority, cfg, z) && authority.origin == ZoneOrigin(z)
  {
    hide Holds, AreUpstreams, RecordError, NameserverError, FirstError;
    authority := SplitAuthority([], map[], []);
    var zone := FromStr(z.name);
    if zone.Err? {
      return authority, Some(BadZoneName);
    }
    var inMemory, recordError := LoadRecords(zone.value, z.records);
    if recordError.Some? {
      return authority, recordError;
    }
    var upstreams, nameserverError := LoadNameservers(cfg.nameservers);
    if nameserverError.Some? {
      return authority, nameserverError;
    }
    return SplitAuthority(Lower(zone.value.labels), inMemory, upstreams), None;
  }

  /** `run`, up to the listeners: it stops with the configuration's error or builds the configuration's catalog. */
  method Run(cfg: ServerConfig) returns (catalog: Catalog, error: Option<LoadError>)
    ensures fresh(catalog)
    ensures error == ConfigError(cfg)
    ensures error.None? ==> BuiltFrom(catalog.authorities, cfg, cfg.zones)
  {
    hide FirstError, IsAuthorityFor, ZoneError, BuiltFrom;
    catalog := new Catalog();
    error := None;
    var zones := cfg.zones;
    NoZones(cfg);
    for i := 0 to |zones|
      invariant fresh(catalog)
      invariant FirstError(zones[..i], ZoneCheck(cfg.nameservers)).None?
      invariant BuiltFrom(catalog.authorities, cfg, zones[..i])
    {
      assert zones[..i + 1] == zones[..i] + [zones[i]];
      FirstErrorNext(zones, i, ZoneCheck(cfg.nameservers));
      var authority, zoneError := LoadZone(cfg, zones[i]);
      if zoneError.Some? {
        return catalog, zoneError;
      }
      InstallZone(catalog.authorities, cfg, zones[..i], zones[i], authority);
      catalog.Upsert(authority.origin, authority);
    }
    assert zones[..|zones|] == zones;
  }

  lemma NoZones(cfg: ServerConfig)
    ensures BuiltFrom(map[], cfg, [])
  {
  }

  lemma AuthorityOfName(a: SplitAuthority, cfg: ServerConfig, z: ZoneConfig)
    requires IsAuthorityFor(a, cfg, z)
    ensures FromStr(z.name).Ok?
  {
  }

  lemma LastBefore(zones: seq<ZoneConfig>, z: ZoneConfig, i: nat)
    requires i < |zones| && IsLastZone(zones + [z], i)
    ensures IsLastZone(zones, i) && ZoneOrigin(z) != ZoneOrigin(zones[i])
  {
    var all := zones + [z];
    assert all[|zones|] == z && forall j | 0 <= j < |zones| :: all[j] == zones[j];
    assert ZoneOrigin(all[|zones|]) != ZoneOrigin(all[i]);
  }

  lemma NameOfZone(zones: seq<ZoneConfig>, z: ZoneConfig, name: LowerName)
    requires name == ZoneOrigin(z) || exists i :: 0 <= i < |zones| && ZoneOrigin(zones[i]) == name
    ensures exists i :: 0 <= i < |zones + [z]| && ZoneOrigin((zones + [z])[i]) == name
  {
    hide ZoneOrigin;
    var all := zones + [z];
    if name == ZoneOrigin(z) {
      assert ZoneOrigin(all[|zones|]) == name;
    } else {
      var i :| 0 <= i < |zones| && ZoneOrigin(zones[i]) == name;
      assert ZoneOrigin(all[i]) == name;
    }
  }

  lemma InstallName(authorities: map<LowerName, SplitAuthority>, zones: seq<ZoneConfig>, z: ZoneConfig, a: SplitAuthority)
    requires HasNamesOf(authorities, zones) && FromStr(z.name).Ok?
    ensures HasNamesOf(authorities[ZoneOrigin(z) := a], zones + [z])
  {
    hide ZoneOrigin, FromStr;
    var installed := authorities[ZoneOrigin(z) := a];
    forall name | name in installed
      ensures exists i :: 0 <= i < |zones + [z]| && ZoneOrigin((zones + [z])[i]) == name
    {
      NameOfZone(zones, z, name);
    }
  }

  lemma InstallZone(authorities: map<LowerName, SplitAuthority>, cfg: ServerConfig, zones: seq<ZoneConfig>,
                    z: ZoneConfig, a: SplitAuthority)
    requires BuiltFrom(authorities, cfg, zones) && IsAuthorityFor(a, cfg, z)
    ensures BuiltFrom(authorities[ZoneOrigin(z) := a], cfg, zones + [z])
  {
    AuthorityOfName(a, cfg, z);
    InstallName(authorities, zones, z, a);
    hide IsAuthorityFor, ZoneOrigin, FromStr, IsLastZone;
    var all, installed := zones + [z], authorities[ZoneOrigin(z) := a];
    forall i | 0 <= i < |all| && IsLastZone(all, i)
      ensures IsAuthorityFor(installed[ZoneOrigin(all[i])], cfg, all[i])
    {
      if i < |zones| {
        assert all[i] == zones[i];
        LastBefore(zones, z, i);
      }
    }
  }
}
