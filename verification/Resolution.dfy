// Answering a query: the zone is chosen by name, and then its static records, the database and the forwarder are tried
// in that order (src/split_authority.rs, src/sqlite_authority.rs, and the catalog that src/dns_server.rs serves).
//
// The forwarder is an arbitrary function of the upstreams, the zone and what it is asked: the lower-case name and the
// type. A query asks for A or AAAA.

module Resolution {
  import opened Wrappers
  import opened Addresses
  import opened Names
  import opened Registry
  import opened DnsServer

  datatype Question = Question(labels: seq<string>, rtype: RecordType)

  datatype ForwardResult = Resolved(data: set<IpAddr>) | ForwardError(code: nat)

  type Forwarder = (seq<NameServer>, LowerName, RrKey) -> ForwardResult

  /** `DbPanic` stands for the unwraps of the database lookup: they end the query's task. */
  datatype DbLookup = DbRecord(owner: DomainName, rtype: RecordType, ttl: nat, data: IpAddr) | NXDomain | DbPanic

  datatype Answer =
    | Refused
    | Static(ttl: nat, addresses: set<IpAddr>)
    | Database(owner: DomainName, rtype: RecordType, rowTtl: nat, data: IpAddr)
    | Panicked
    | Forwarded(result: ForwardResult)

  const STATIC_TTL: nat := 30

  function TypeText(rtype: RecordType): string {
    match rtype
    case A => "A"
    case AAAA => "AAAA"
  }

  /** The key that a question searches in the database. */
  function QueryKey(q: Question): Key {
    Key(QueryText(q.labels), TypeText(q.rtype))
  }

  function QueryRrKey(q: Question): RrKey {
    RrKey(Lower(q.labels), q.rtype)
  }

  // ---- As the program does it ----

  /** `Catalog::find`: the name itself, then its parents up to the root. */
  function FindZone(authorities: map<LowerName, SplitAuthority>, name: LowerName): Option<SplitAuthority> {
    if name in authorities then Some(authorities[name])
    else if name == [] then None
    else FindZone(authorities, name[1..])
  }

  /** `SqliteAuthority::lookup`: the row's own name and data are parsed again for the answer. */
  function SqliteLookup(table: Table, q: Question): DbLookup {
    var key := QueryKey(q);
    if key !in table then NXDomain
    else
      var owner, data := FromStr(key.name), ParseIp(table[key].data);
      if owner.Ok? && data.Some? then DbRecord(owner.value, q.rtype, table[key].ttl, data.value) else DbPanic
  }

  /** `SplitAuthority::lookup`: static records first, then the database, then the forwarder, whose failure is final. */
  function SplitLookup(a: SplitAuthority, table: Table, forward: Forwarder, q: Question): Answer {
    if QueryRrKey(q) in a.inMemory then Static(STATIC_TTL, a.inMemory[QueryRrKey(q)])
    else
      match SqliteLookup(table, q)
      case DbRecord(owner, rtype, ttl, data) => Database(owner, rtype, ttl, data)
      case DbPanic => Panicked
      case NXDomain => Forwarded(forward(a.upstreams, a.origin, QueryRrKey(q)))
  }

  function Resolve(authorities: map<LowerName, SplitAuthority>, table: Table, forward: Forwarder, q: Question): Answer {
    match FindZone(authorities, Lower(q.labels))
    case None => Refused
    case Some(a) => SplitLookup(a, table, forward, q)
  }

  // ---- As the configuration means it ----

  /** Is the zone the name itself or one of its parents, up to case? */
  predicate IsAncestor(z: ZoneConfig, labels: seq<string>) {
    var name := FromStr(z.name);
    && name.Ok?
    && |name.value.labels| <= |labels|
    && SameName(name.value.labels, labels[|labels| - |name.value.labels|..])
  }

  /** Zone i is an ancestor of the queried name, none is nearer, and none of its name comes after it. */
  ghost predicate Nearest(zones: seq<ZoneConfig>, labels: seq<string>, i: nat) {
    && i < |zones| && IsAncestor(zones[i], labels)
    && forall j | 0 <= j < |zones| && IsAncestor(zones[j], labels) ::
         && var size, nearest := |FromStr(zones[j].name).value.labels|, |FromStr(zones[i].name).value.labels|;
         && (size < nearest || (size == nearest && j <= i))
  }

  /** The addresses that the zone's records give for the question. */
  ghost function ZoneStatic(z: ZoneConfig, q: Question): set<IpAddr>
    requires FromStr(z.name).Ok?
  {
    StaticSet(FromStr(z.name).value, z.records, RrKey(q.labels, q.rtype))
  }

  /** The answer from the question's database row: its data if that is an address, under the queried name in lower
      case. */
  function RowAnswer(e: Entry, q: Question): Answer {
    match ParseIp(e.data)
    case Some(ip) => Database(DomainName(Lower(q.labels), false), q.rtype, e.ttl, ip)
    case None => Panicked
  }

  /** Does this zone, with this row for the question in the database, answer so? */
  ghost predicate ZoneAnswers(cfg: ServerConfig, z: ZoneConfig, row: Option<Entry>, forward: Forwarder, q: Question, a: Answer)
    requires FromStr(z.name).Ok?
  {
    if ZoneStatic(z, q) != {} then a == Static(30, ZoneStatic(z, q))
    else if row.Some? then a == RowAnswer(row.value, q)
    else exists upstreams :: AreUpstreams(upstreams, cfg.nameservers)
           && a == Forwarded(forward(upstreams, ZoneOrigin(z), RrKey(Lower(q.labels), q.rtype)))
  }

  /** The answer that a configuration means: refuse when no zone is an ancestor of the queried name, else ask the nearest. */
  ghost predicate Answers(cfg: ServerConfig, row: Option<Entry>, forward: Forwarder, q: Question, a: Answer) {
    if forall i | 0 <= i < |cfg.zones| :: !IsAncestor(cfg.zones[i], q.labels) then a == Refused
    else exists i: nat :: Nearest(cfg.zones, q.labels, i) && ZoneAnswers(cfg, cfg.zones[i], row, forward, q, a)
  }

  // ---- They agree ----

  lemma SuffixOfTail(short: LowerName, long: LowerName)
    requires long != [] && |short| < |long|
    ensures IsSuffix(short, long) <==> IsSuffix(short, long[1..])
  {
  }

  /** The upward search finds the authority of the longest installed suffix, and nothing when there is none. */
  lemma {:induction false} FindZoneIsNearest(authorities: map<LowerName, SplitAuthority>, name: LowerName)
    ensures match FindZone(authorities, name)
            case None => forall z | z in authorities :: !IsSuffix(z, name)
            case Some(a) =>
              exists z :: z in authorities && a == authorities[z] && IsSuffix(z, name)
                && forall y | y in authorities && IsSuffix(y, name) :: |y| <= |z|
  {
    if name in authorities {
      assert IsSuffix(name, name);
    } else if name != [] {
      FindZoneIsNearest(authorities, name[1..]);
      forall z | z in authorities
        ensures IsSuffix(z, name) <==> IsSuffix(z, name[1..])
      {
        if |z| < |name| {
          SuffixOfTail(z, name);
        } else if |z| == |name| {
          assert IsSuffix(z, name) ==> z == name;
        }
      }
    }
  }

  /** The last zone of a name. */
  lemma {:induction false} LastZoneOf(zones: seq<ZoneConfig>, i: nat) returns (k: nat)
    requires i < |zones|
    ensures IsLastZone(zones, k) && ZoneOrigin(zones[k]) == ZoneOrigin(zones[i])
    decreases |zones| - i
  {
    if j :| i < j < |zones| && ZoneOrigin(zones[j]) == ZoneOrigin(zones[i]) {
      k := LastZoneOf(zones, j);
    } else {
      k := i;
    }
  }

  /** A zone is an ancestor of a name exactly when its origin is a suffix of the name's lower-case form. */
  lemma AncestorIsSuffix(z: ZoneConfig, labels: seq<string>)
    requires FromStr(z.name).Ok?
    ensures |ZoneOrigin(z)| == |FromStr(z.name).value.labels|
    ensures IsAncestor(z, labels) <==> IsSuffix(ZoneOrigin(z), Lower(labels))
  {
    hide FromStr, SameName, LowerText;
    var name := FromStr(z.name).value.labels;
    if |name| <= |labels| {
      LowerFolds(name, labels[|labels| - |name|..]);
      assert Lower(labels[|labels| - |name|..]) == Lower(labels)[|labels| - |name|..];
    }
  }

  lemma AncestorsAreSuffixes(zones: seq<ZoneConfig>, labels: seq<string>)
    requires forall j | 0 <= j < |zones| :: FromStr(zones[j].name).Ok?
    ensures forall j | 0 <= j < |zones| ::
              && (IsAncestor(zones[j], labels) <==> IsSuffix(ZoneOrigin(zones[j]), Lower(labels)))
              && |ZoneOrigin(zones[j])| == |FromStr(zones[j].name).value.labels|
  {
    hide ZoneOrigin, Lower, IsAncestor, FromStr, IsSuffix;
    forall j | 0 <= j < |zones|
      ensures IsAncestor(zones[j], labels) <==> IsSuffix(ZoneOrigin(zones[j]), Lower(labels))
      ensures |ZoneOrigin(zones[j])| == |FromStr(zones[j].name).value.labels|
    {
      AncestorIsSuffix(zones[j], labels);
    }
  }

  lemma LongestIsNearest(zones: seq<ZoneConfig>, labels: seq<string>, i: nat)
    requires forall j | 0 <= j < |zones| :: FromStr(zones[j].name).Ok?
    requires IsLastZone(zones, i) && IsSuffix(ZoneOrigin(zones[i]), Lower(labels))
    requires forall j | 0 <= j < |zones| && IsSuffix(ZoneOrigin(zones[j]), Lower(labels)) ::
               |ZoneOrigin(zones[j])| <= |ZoneOrigin(zones[i])|
    ensures Nearest(zones, labels, i)
  {
    hide ZoneOrigin, Lower, IsAncestor, FromStr;
    AncestorsAreSuffixes(zones, labels);
    forall j | i < j < |zones| && IsAncestor(zones[j], labels)
      ensures |ZoneOrigin(zones[j])| < |ZoneOrigin(zones[i])|
    {
      assert ZoneOrigin(zones[j]) != ZoneOrigin(zones[i]);
    }
  }

  /** The catalog finds the nearest zone of the configuration, and finds none exactly when no zone is an ancestor. */
  lemma CatalogFindsNearest(authorities: map<LowerName, SplitAuthority>, cfg: ServerConfig, labels: seq<string>)
      returns (i: nat)
    requires BuiltFrom(authorities, cfg, cfg.zones)
    ensures match FindZone(authorities, Lower(labels))
            case None => forall j | 0 <= j < |cfg.zones| :: !IsAncestor(cfg.zones[j], labels)
            case Some(a) => Nearest(cfg.zones, labels, i) && IsAuthorityFor(a, cfg, cfg.zones[i])
  {
    hide IsAuthorityFor, ZoneOrigin, Lower, IsAncestor, FromStr, IsSuffix, Nearest;
    i := 0;
    var name := Lower(labels);
    FindZoneIsNearest(authorities, name);
    AncestorsAreSuffixes(cfg.zones, labels);
    var found := FindZone(authorities, name);
    if found.Some? {
      var z :| z in authorities && found.value == authorities[z] && IsSuffix(z, name)
            && forall y | y in authorities && IsSuffix(y, name) :: |y| <= |z|;
      var j :| 0 <= j < |cfg.zones| && ZoneOrigin(cfg.zones[j]) == z;
      i := LastZoneOf(cfg.zones, j);
      LongestIsNearest(cfg.zones, labels, i);
    }
  }

  lemma NearestUnique(zones: seq<ZoneConfig>, labels: seq<string>, i: nat, j: nat)
    requires Nearest(zones, labels, i) && Nearest(zones, labels, j)
    ensures i == j
  {
  }

  lemma UpstreamsUnique(a: seq<NameServer>, b: seq<NameServer>, nameservers: seq<string>)
    requires AreUpstreams(a, nameservers) && AreUpstreams(b, nameservers)
    ensures a == b
  {
    hide ParseIpOptionalSocket;
    forall i | 0 <= i < |a|
      ensures a[i] == b[i]
    {
      var j := i / 2;
      assert a[2 * j] == b[2 * j] && a[2 * j + 1] == b[2 * j + 1];
    }
  }

  /** A zone's authority answers as its configuration means. */
  lemma SplitLookupIsZoneAnswer(authority: SplitAuthority, cfg: ServerConfig, z: ZoneConfig, table: Table,
                                forward: Forwarder, q: Question, a: Answer)
    requires IsAuthorityFor(authority, cfg, z) && ValidName(q.labels)
    ensures FromStr(z.name).Ok?
    ensures a == SplitLookup(authority, table, forward, q) <==>
            ZoneAnswers(cfg, z, Lookup(table, QueryKey(q)), forward, q, a)
  {
    hide ParseIp, ParseIpOptionalSocket, FromStr, StaticSet, QueryText, Holds, Lower, SameName;
    StoredFor(authority.inMemory, FromStr(z.name).value, z.records, q.labels, q.rtype);
    QueryTextParses(q.labels);
    if a.Forwarded? && ZoneAnswers(cfg, z, Lookup(table, QueryKey(q)), forward, q, a) {
      var upstreams :| && AreUpstreams(upstreams, cfg.nameservers)
                       && a == Forwarded(forward(upstreams, ZoneOrigin(z), RrKey(Lower(q.labels), q.rtype)));
      UpstreamsUnique(upstreams, authority.upstreams, cfg.nameservers);
    }
  }

  /** For every configuration that loads, every table and every question, the served catalog gives the one answer that
      the configuration means. */
  lemma ResolveIsAnswer(authorities: map<LowerName, SplitAuthority>, cfg: ServerConfig, table: Table,
                        forward: Forwarder, q: Question, a: Answer)
    requires BuiltFrom(authorities, cfg, cfg.zones) && ValidName(q.labels)
    ensures a == Resolve(authorities, table, forward, q) <==> Answers(cfg, Lookup(table, QueryKey(q)), forward, q, a)
  {
    hide ZoneOrigin, FromStr, ZoneAnswers, SplitLookup, QueryText, BuiltFrom, IsAuthorityFor, SameName, Lower;
    var i := CatalogFindsNearest(authorities, cfg, q.labels);
    var found := FindZone(authorities, Lower(q.labels));
    if found.Some? {
      SplitLookupIsZoneAnswer(found.value, cfg, cfg.zones[i], table, forward, q, a);
      if Answers(cfg, Lookup(table, QueryKey(q)), forward, q, a) {
        var j: nat :| Nearest(cfg.zones, q.labels, j)
                    && ZoneAnswers(cfg, cfg.zones[j], Lookup(table, QueryKey(q)), forward, q, a);
        NearestUnique(cfg.zones, q.labels, i, j);
      }
    }
  }

  // ---- Consequences ----

  /** A static answer does not depend on the registry. */
  lemma StaticAnswersAreImmune(authorities: map<LowerName, SplitAuthority>, cfg: ServerConfig, table: Table,
                               forward: Forwarder, q: Question, i: nat)
    requires BuiltFrom(authorities, cfg, cfg.zones) && ValidName(q.labels)
    requires Nearest(cfg.zones, q.labels, i)
    requires ZoneStatic(cfg.zones[i], q) != {}
    ensures Resolve(authorities, table, forward, q) == Static(30, ZoneStatic(cfg.zones[i], q))
  {
    hide FromStr, StaticSet, QueryText, ZoneOrigin, Lookup, BuiltFrom;
    var a := Static(STATIC_TTL, ZoneStatic(cfg.zones[i], q));
    assert ZoneAnswers(cfg, cfg.zones[i], Lookup(table, QueryKey(q)), forward, q, a);
    ResolveIsAnswer(authorities, cfg, table, forward, q, a);
  }

  /** The static answer, from the configuration alone: a question gets one exactly when some record of the nearest zone
      renders to its name, up to case, and has an address of its type, and then it gets just those addresses. */
  lemma StaticAnswerExactly(authorities: map<LowerName, SplitAuthority>, cfg: ServerConfig, table: Table,
                            forward: Forwarder, q: Question, i: nat)
    requires BuiltFrom(authorities, cfg, cfg.zones) && ValidName(q.labels) && Nearest(cfg.zones, q.labels, i)
    ensures var a, zone, records := Resolve(authorities, table, forward, q), FromStr(cfg.zones[i].name), cfg.zones[i].records;
            && zone.Ok?
            && (a.Static? <==> exists j | 0 <= j < |records| ::
                  && RenderRecordName(records[j].key, zone.value).Ok? && ParseIp(records[j].value).Some?
                  && SameName(RenderRecordName(records[j].key, zone.value).value.labels, q.labels)
                  && (ParseIp(records[j].value).value.V4? <==> q.rtype == A))
            && (a.Static? ==> a.ttl == 30 && forall ip ::
                  ip in a.addresses <==> (ip.V4? <==> q.rtype == A) && exists j | 0 <= j < |records| ::
                    && RenderRecordName(records[j].key, zone.value).Ok? && ParseIp(records[j].value) == Some(ip)
                    && SameName(RenderRecordName(records[j].key, zone.value).value.labels, q.labels))
  {
    hide FromStr, RenderRecordName, ParseIp, SameName, BuiltFrom, Resolve, Nearest, QueryText, QueryKey, ZoneOrigin;
    NearestLoads(cfg.zones, q.labels, i);
    var z := cfg.zones[i];
    if ZoneStatic(z, q) == {} {
      RegistryAnswersWithoutStatic(authorities, cfg, table, forward, q, i);
      forall j | 0 <= j < |z.records|
        ensures !Gives(FromStr(z.name).value, z.records[j], RrKey(q.labels, q.rtype))
      {
        if Gives(FromStr(z.name).value, z.records[j], RrKey(q.labels, q.rtype)) {
          GivenIsStatic(z, q, j);
        }
      }
    } else {
      StaticAnswersAreImmune(authorities, cfg, table, forward, q, i);
    }
  }

  lemma NearestLoads(zones: seq<ZoneConfig>, labels: seq<string>, i: nat)
    requires Nearest(zones, labels, i)
    ensures i < |zones| && FromStr(zones[i].name).Ok?
  {
  }

  lemma GivenIsStatic(z: ZoneConfig, q: Question, j: nat)
    requires FromStr(z.name).Ok? && j < |z.records|
    requires Gives(FromStr(z.name).value, z.records[j], RrKey(q.labels, q.rtype))
    ensures ParseIp(z.records[j].value).Some? && ParseIp(z.records[j].value).value in ZoneStatic(z, q)
  {
    hide FromStr, SameName, ParseIp, RenderRecordName;
  }

  /** Precedence is per name and type: where the zone has no static record of the asked type, the registry's row
      answers, whatever the zone's records say for the other type. */
  lemma RegistryAnswersWithoutStatic(authorities: map<LowerName, SplitAuthority>, cfg: ServerConfig, table: Table,
                                     forward: Forwarder, q: Question, i: nat)
    requires BuiltFrom(authorities, cfg, cfg.zones) && ValidName(q.labels)
    requires Nearest(cfg.zones, q.labels, i)
    requires ZoneStatic(cfg.zones[i], q) == {}
    ensures match Lookup(table, QueryKey(q))
            case Some(e) => Resolve(authorities, table, forward, q) == RowAnswer(e, q)
            case None => exists upstreams :: AreUpstreams(upstreams, cfg.nameservers)
                           && Resolve(authorities, table, forward, q)
                              == Forwarded(forward(upstreams, ZoneOrigin(cfg.zones[i]), RrKey(Lower(q.labels), q.rtype)))
  {
    hide FromStr, StaticSet, QueryText, ZoneOrigin, BuiltFrom, RowAnswer;
    var a := Resolve(authorities, table, forward, q);
    ResolveIsAnswer(authorities, cfg, table, forward, q, a);
    var j: nat :| Nearest(cfg.zones, q.labels, j)
                && ZoneAnswers(cfg, cfg.zones[j], Lookup(table, QueryKey(q)), forward, q, a);
    NearestUnique(cfg.zones, q.labels, i, j);
  }

  /** All spellings of a name in upper and lower case get one answer. */
  lemma CaseBlind(authorities: map<LowerName, SplitAuthority>, table: Table, forward: Forwarder, q: Question, p: Question)
    requires SameName(q.labels, p.labels) && q.rtype == p.rtype
    ensures Resolve(authorities, table, forward, q) == Resolve(authorities, table, forward, p)
  {
    LowerFolds(q.labels, p.labels);
  }

  /** The keys whose rows DNS can reach: the type is one of the two asked for, and the name is in lower case and is
      the presentation form of a name without its final dot. Rows under any other spelling are seen by RPC only. */
  lemma ReachableByDns(key: Key)
    ensures (exists q: Question :: ValidName(q.labels) && QueryKey(q) == key) <==>
            && key.rtype in {"A", "AAAA"}
            && NoUpper(key.name)
            && FromStr(key.name).Ok? && !FromStr(key.name).value.fqdn
  {
    if q: Question :| ValidName(q.labels) && QueryKey(q) == key {
      QueryTextParses(q.labels);
      QueryTextIsJoin(q.labels);
      LowerKeepsValid(q.labels);
      LowerIdempotent(q.labels);
      LowerJoin(Lower(q.labels));
    }
    LowerTextIs(key.name, key.name);
    if key.rtype in {"A", "AAAA"} && NoUpper(key.name) && FromStr(key.name).Ok? && !FromStr(key.name).value.fqdn {
      var labels := FromStr(key.name).value.labels;
      FromStrIsJoin(key.name);
      LowerJoin(labels);
      QueryTextIsJoin(labels);
      var q := Question(labels, if key.rtype == "A" then A else AAAA);
      assert ValidName(q.labels) && QueryKey(q) == key;
    }
  }

  /** A text that parses as a name without a final dot is the presentation form of that name. */
  lemma FromStrIsJoin(s: string)
    requires FromStr(s).Ok? && !FromStr(s).value.fqdn
    ensures Join(FromStr(s).value.labels) == s && ValidName(FromStr(s).value.labels)
  {
    if s == "" {
      assert Split(s) == [""];
    }
  }
}
