// From RPC histories to DNS answers: the store, the clients and the resolution put together.

module EndToEnd {
  import opened Wrappers
  import opened Addresses
  import opened Names
  import opened Registry
  import opened Repository
  import opened RpcMachine
  import opened DnsServer
  import opened Resolution
  import Client

  /** For every configuration that loads, every interleaving of RPCs and every question, the server's answer is the one
      that the configuration means with the row that the history of the question's key describes. */
  lemma AnswerFollowsHistory(start: Time, es: seq<Event>, authorities: map<LowerName, SplitAuthority>, cfg: ServerConfig,
                             forward: Forwarder, q: Question, a: Answer)
    requires Exec(start, es).Some? && BuiltFrom(authorities, cfg, cfg.zones) && ValidName(q.labels)
    ensures var s := Exec(start, es).value;
            a == Resolve(authorities, s.table, forward, q) <==>
            exists row :: Describes(s.log, QueryKey(q), row) && Answers(cfg, row, forward, q, a)
  {
    hide Answers, Resolve, BuiltFrom, QueryKey, Describes;
    Reachable(start, es);
    var s := Exec(start, es).value;
    ResolveIsAnswer(authorities, cfg, s.table, forward, q, a);
    HistoryDescribes(s.log, QueryKey(q));
    forall row | Describes(s.log, QueryKey(q), row)
      ensures row == Lookup(s.table, QueryKey(q))
    {
      DescriptionUnique(s.log, QueryKey(q), row);
    }
  }

  /** Is this what the update client sends for some address? */
  ghost predicate IsClientPut(op: Op) {
    op.Put? && exists ip, now :: op == PutOf(Client.Message(op.key.name, ip), now)
  }

  /** What the client's updates leave on the server is made of such messages. */
  lemma ClientSendsClientPuts(cfg: Client.ClientConfig, rc: Client.ClientRecordConfig, r: nat, env: Client.Env, u: Client.Update)
    requires Client.IsUpdate(cfg, rc, r, env, u)
    ensures forall i | 0 <= i < |u.log| :: IsClientPut(u.log[i])
  {
    hide PrintIp, Client.Starts;
    forall i | 0 <= i < |u.log|
      ensures IsClientPut(u.log[i])
    {
      var ip := Client.AddressFor(cfg, rc, env).value;
      assert u.log[i] == PutOf(Client.Message(rc.name, ip), u.log[i].now);
    }
  }

  /** The registry's rows when only update clients write: the data is the text of an address, and the type is AAAA
      exactly when that address is an IPv6 one, and A otherwise. */
  ghost predicate WellTyped(key: Key, e: Entry) {
    exists ip :: ParseIp(e.data) == Some(ip) && e.data == PrintIp(ip) && key.rtype == TypeText(RecordTypeOf(ip))
  }

  ghost predicate OnlyClientPuts(log: seq<Op>) {
    forall i | 0 <= i < |log| && log[i].Put? :: IsClientPut(log[i])
  }

  lemma RegistryIsWellTyped(start: Time, es: seq<Event>, key: Key)
    requires Exec(start, es).Some? && OnlyClientPuts(Exec(start, es).value.log)
    requires key in Exec(start, es).value.table
    ensures WellTyped(key, Exec(start, es).value.table[key])
  {
    hide PrintIp, ParseIp;
    Reachable(start, es);
    var s := Exec(start, es).value;
    HistoryDescribes(s.log, key);
    var f: nat, l: nat :| IsFirst(s.log, key, f) && IsLast(s.log, key, l) && f <= l && s.log[l].Put?
                && s.table[key] == EntryFrom(s.log, f, l);
    var ip, now :| s.log[l] == PutOf(Client.Message(key.name, ip), now);
    PrintParseIp(ip);
  }

  /** The database lookup fails to decode exactly the rows whose data is no address; any client of the RPC can store
      such a row. */
  lemma DecodingFailsExactly(table: Table, q: Question)
    requires ValidName(q.labels)
    ensures SqliteLookup(table, q) == DbPanic <==> QueryKey(q) in table && ParseIp(table[QueryKey(q)].data).None?
  {
    hide ParseIp;
    QueryTextParses(q.labels);
  }

  /** Every question can be made to panic: after an upsert of the empty text under its key, its lookup does not decode. */
  lemma DecodingCanFail(q: Question)
    requires ValidName(q.labels)
    ensures exists es, s :: Exec(0, es) == Some(s) && SqliteLookup(s.table, q) == DbPanic
  {
    hide QueryText;
    var key := QueryKey(q);
    var s0 := State(0, map[], map[], [], []);
    assert Exec(0, []) == Some(s0);
    hide Exec;
    var es1, s1 := Extend(0, [], s0, Capture(1, UpsertRequest(key.name, key.rtype, "", 30)));
    var es2, s2 := Extend(0, es1, s1, Write(1));
    assert s2.table[key].data == "" && ParseIp("").None?;
    hide ParseIp;
    DecodingFailsExactly(s2.table, q);
    assert Exec(0, es2) == Some(s2) && SqliteLookup(s2.table, q) == DbPanic;
  }

  /** When only update clients write, no database lookup fails to decode, and its answer is an address of the asked
      type. */
  lemma ClientRowsDecode(start: Time, es: seq<Event>, q: Question)
    requires Exec(start, es).Some? && OnlyClientPuts(Exec(start, es).value.log) && ValidName(q.labels)
    ensures var r := SqliteLookup(Exec(start, es).value.table, q);
            && r != DbPanic
            && (r.DbRecord? ==> RecordTypeOf(r.data) == q.rtype && PrintIp(r.data) == Exec(start, es).value.table[QueryKey(q)].data)
  {
    hide ParseIp, PrintIp, QueryText;
    var table := Exec(start, es).value.table;
    if QueryKey(q) in table {
      RegistryIsWellTyped(start, es, QueryKey(q));
      DecodingFailsExactly(table, q);
    }
  }

  /** Does DNS serve this question from the registry: a zone is an ancestor of the name, and the nearest one, i, has no
      static record of this name and type? */
  ghost predicate ServedFromRegistry(cfg: ServerConfig, q: Question, i: nat) {
    && Nearest(cfg.zones, q.labels, i) && ZoneStatic(cfg.zones[i], q) == {}
  }

  /** Reading what was written: while the last operation on the question's key is an upsert, DNS answers with that
      upsert's data and ttl; while it is a delete, or there has been none, with the forwarder's result. */
  lemma ReadYourWrites(start: Time, es: seq<Event>, authorities: map<LowerName, SplitAuthority>, cfg: ServerConfig,
                       forward: Forwarder, q: Question, i: nat)
    requires Exec(start, es).Some? && BuiltFrom(authorities, cfg, cfg.zones) && ValidName(q.labels)
    requires ServedFromRegistry(cfg, q, i)
    ensures var s := Exec(start, es).value;
            var a := Resolve(authorities, s.table, forward, q);
            && (forall l: nat | IsLast(s.log, QueryKey(q), l) && s.log[l].Put? ::
                  match ParseIp(s.log[l].data)
                  case Some(ip) => a == Database(DomainName(Lower(q.labels), false), q.rtype, s.log[l].ttl, ip)
                  case None => a == Panicked)
            && ((forall l: nat | IsLast(s.log, QueryKey(q), l) :: s.log[l].Remove?) ==>
                  exists upstreams :: AreUpstreams(upstreams, cfg.nameservers)
                    && a == Forwarded(forward(upstreams, ZoneOrigin(cfg.zones[i]), RrKey(Lower(q.labels), q.rtype))))
  {
    hide ParseIp, Resolve, BuiltFrom, QueryKey, ZoneOrigin, AreUpstreams, Nearest, ZoneStatic, FromStr;
    Reachable(start, es);
    var s := Exec(start, es).value;
    var key := QueryKey(q);
    RegistryAnswersWithoutStatic(authorities, cfg, s.table, forward, q, i);
    forall l: nat | IsLast(s.log, key, l)
      ensures key in s.table <==> s.log[l].Put?
      ensures s.log[l].Put? ==> s.table[key].data == s.log[l].data && s.table[key].ttl == s.log[l].ttl
    {
      LastDecides(s.log, key, l);
    }
    if key in s.table {
      HistoryDescribes(s.log, key);
      var f: nat, l: nat :| IsFirst(s.log, key, f) && IsLast(s.log, key, l) && f <= l && s.log[l].Put?;
    }
  }

  /** From the client's interface to a DNS answer: once an update of the queried name is the last operation on its key,
      DNS answers the question for the address's type with that very address and the client's ttl. */
  lemma ClientAddressIsServed(start: Time, es: seq<Event>, authorities: map<LowerName, SplitAuthority>, cfg: ServerConfig,
                              forward: Forwarder, q: Question, i: nat, ip: IpAddr, now: Time, l: nat)
    requires Exec(start, es).Some? && BuiltFrom(authorities, cfg, cfg.zones) && ValidName(q.labels)
    requires ServedFromRegistry(cfg, q, i) && q.rtype == RecordTypeOf(ip)
    requires IsLast(Exec(start, es).value.log, QueryKey(q), l)
    requires Exec(start, es).value.log[l] == PutOf(Client.Message(QueryText(q.labels), ip), now)
    ensures Resolve(authorities, Exec(start, es).value.table, forward, q)
            == Database(DomainName(Lower(q.labels), false), q.rtype, 30, ip)
  {
    hide ParseIp, PrintIp, Resolve, BuiltFrom, QueryText, ServedFromRegistry;
    PrintParseIp(ip);
    ReadYourWrites(start, es, authorities, cfg, forward, q, i);
  }
}
