// A witness for the answer theorems: the configuration of the repository's DNS test (tests/dns_server_test.rs) loads, so
// there are catalogs of which Resolution.dfy speaks, and every kind of answer is given by them.

module DnsScenario {
  import opened Wrappers
  import opened Addresses
  import opened Names
  import Numerals
  import opened Registry
  import opened DnsServer
  import opened Resolution

  const COM: seq<string> := ["example", "com"]
  const ORG: seq<string> := ["example", "org"]
  const WWW: RecordConfig := RecordConfig("www", "127.0.0.1")
  const ROOT: RecordConfig := RecordConfig("@", "127.0.0.2")

  const CONFIG: ServerConfig :=
    ServerConfig(["1.1.1.1"], [ZoneConfig("example.com", [WWW, ROOT]), ZoneConfig("example.org", [])])

  lemma PlainNames()
    ensures ValidLabel("example") && ValidLabel("com") && ValidLabel("org") && ValidLabel("www")
    ensures ValidLabel("foo") && ValidLabel("google")
    ensures LowerText("example") == "example" && LowerText("com") == "com" && LowerText("org") == "org"
    ensures LowerText("www") == "www" && LowerText("foo") == "foo" && LowerText("google") == "google"
  {
  }

  lemma TwoLabels(a: string, b: string)
    requires ValidLabel(a) && ValidLabel(b) && LowerText(a) == a && LowerText(b) == b
    ensures FromStr(a + "." + b) == Ok(DomainName([a, b], false)) && ValidName([a, b]) && Lower([a, b]) == [a, b]
  {
    hide ValidLabel;
    ValidLabelHasNoDot(a);
    ValidLabelHasNoDot(b);
    TwoLabelsValid(a, b);
    FromStrJoin([a, b], false);
    JoinConcat([a], [b]);
    JoinOne(a);
    JoinOne(b);
    assert [a] + [b] == [a, b];
    assert Display(DomainName([a, b], false)) == a + "." + b;
  }

  lemma TwoLabelsValid(a: string, b: string)
    requires ValidLabel(a) && ValidLabel(b)
    ensures ValidName([a, b]) && WireLength([a, b]) == 3 + |a| + |b|
  {
    assert WireLength([b]) == 1 + |b| + WireLength([]);
    assert [a, b][1..] == [b];
    assert WireLength([a, b]) == 1 + |a| + WireLength([b]);
  }

  lemma ThreeLabels(a: string, b: string, c: string)
    requires ValidLabel(a) && ValidLabel(b) && ValidLabel(c)
    requires LowerText(a) == a && LowerText(b) == b && LowerText(c) == c
    ensures ValidName([a, b, c]) && Lower([a, b, c]) == [a, b, c] && Join([a, b, c]) == a + "." + b + "." + c
  {
    TwoLabelsValid(b, c);
    assert [a, b, c][1..] == [b, c] && [b, c][1..] == [c];
    assert WireLength([a, b, c]) == 1 + |a| + WireLength([b, c]);
    assert Join([b, c]) == b + "." + c;
    assert a + "." + (b + "." + c) == a + "." + b + "." + c;
  }

  lemma OctetTexts()
    ensures Numerals.Digits(127, 10) == "127" && Numerals.Digits(0, 10) == "0" && Numerals.Digits(1, 10) == "1"
    ensures Numerals.Digits(2, 10) == "2" && Numerals.Digits(3, 10) == "3"
  {
    assert Numerals.Digits(12, 10) == "12";
  }

  function Loopback(d: Octet): IpAddr {
    V4([127, 0, 0, d])
  }

  lemma LoopbackText(d: Octet, text: string)
    requires Numerals.Digits(d, 10) == text
    ensures PrintIp(Loopback(d)) == "127.0.0." + text && ParseIp("127.0.0." + text) == Some(Loopback(d))
  {
    hide Numerals.Digits, ParseIp, PrintV6;
    OctetTexts();
    var o: Octets := [127, 0, 0, d];
    PrintOne(o, 0);
    PrintOne(o[1..], 1);
    PrintOne(o[1..][1..], 2);
    PrintOne(o[1..][1..][1..], 3);
    DottedText(text);
    PrintParseIp(V4(o));
  }

  lemma PrintOne(octets: seq<Octet>, index: nat)
    requires octets != []
    ensures PrintOctets(octets, index)
            == (if index > 0 then "." else "") + Numerals.Digits(octets[0], 10) + PrintOctets(octets[1..], index + 1)
  {
  }

  lemma DottedText(x: string)
    ensures "" + "127" + ("." + "0" + ("." + "0" + ("." + x + ""))) == "127.0.0." + x
  {
    assert "" + "127" + ("." + "0" + ("." + "0" + ("." + x + ""))) == "127.0.0." + x;
  }

  lemma ZoneNames()
    ensures FromStr("example.com") == Ok(DomainName(COM, false)) && FromStr("example.org") == Ok(DomainName(ORG, false))
    ensures ValidName(COM) && ValidName(ORG) && ValidName(["google", "com"])
    ensures Lower(COM) == COM && Lower(ORG) == ORG && Lower(["google", "com"]) == ["google", "com"]
  {
    hide ValidLabel, FromStr, LowerText;
    PlainNames();
    TwoLabels("example", "com");
    TwoLabels("example", "org");
    TwoLabels("google", "com");
    assert "example" + "." + "com" == "example.com";
    assert "example" + "." + "org" == "example.org";
  }

  lemma WwwName()
    ensures RenderRecordName("www", DomainName(COM, false)) == Ok(DomainName(["www"] + COM, false))
    ensures Lower(["www"] + COM) == ["www"] + COM && ValidName(["www"] + COM)
  {
    hide FromStr, ValidLabel, LowerText, RenderRecordName;
    PlainNames();
    ZoneNames();
    ThreeLabels("www", "example", "com");
    ValidLabelHasNoDot("www");
    SplitLabel("www");
    RenderedName("www", DomainName(COM, false));
    assert ["www"] + COM == ["www", "example", "com"];
  }

  /** The static records under their names. */
  lemma Records()
    ensures var zone := DomainName(COM, false);
            && RecordError(zone, WWW).None? && RenderRecordName(WWW.key, zone).value.labels == ["www"] + COM
            && RecordError(zone, ROOT).None? && RenderRecordName(ROOT.key, zone).value.labels == COM
            && ParseIp(WWW.value) == Some(Loopback(1)) && ParseIp(ROOT.value) == Some(Loopback(2))
  {
    hide ParseIp, PrintIp, FromStr, LowerText, Numerals.Digits;
    OctetTexts();
    LoopbackText(1, "1");
    LoopbackText(2, "2");
    assert "127.0.0." + "1" == WWW.value && "127.0.0." + "2" == ROOT.value;
    ZoneNames();
    WwwName();
  }

  lemma Nameserver()
    ensures ParseIpOptionalSocket("1.1.1.1", 53) == Some(SocketV4(V4([1, 1, 1, 1]), 53))
  {
    hide Numerals.Digits, ParseIp, ParseSocket, PrintV6;
    OctetTexts();
    var o: Octets := [1, 1, 1, 1];
    PrintOne(o, 0);
    PrintOne(o[1..], 1);
    PrintOne(o[1..][1..], 2);
    PrintOne(o[1..][1..][1..], 3);
    assert "" + "1" + ("." + "1" + ("." + "1" + ("." + "1" + ""))) == "1.1.1.1";
    PrintParseIp(V4(o));
    UpstreamMeaning("1.1.1.1", 53);
  }

  lemma Origins()
    ensures ZoneOrigin(CONFIG.zones[0]) == COM && ZoneOrigin(CONFIG.zones[1]) == ORG
  {
    hide FromStr;
    ZoneNames();
  }

  lemma Loads()
    ensures ConfigError(CONFIG).None?
  {
    hide FromStr, ParseIp, ParseIpOptionalSocket, RenderRecordName, ConfigError;
    ZoneNames();
    Records();
    Nameserver();
    LoadsExactly(CONFIG);
  }

  /** The configuration loads, so that there is a catalog for the queries below. */
  method Serve() returns (catalog: Catalog)
    ensures BuiltFrom(catalog.authorities, CONFIG, CONFIG.zones)
  {
    Loads();
    var error;
    catalog, error := Run(CONFIG);
  }

  /** Names under example.com go to the first zone, names under example.org to the second. */
  lemma Zones(host: seq<string>)
    ensures Nearest(CONFIG.zones, host + COM, 0) && Nearest(CONFIG.zones, host + ORG, 1)
  {
    hide FromStr;
    ZoneNames();
    var com, org := host + COM, host + ORG;
    assert com[|host|..] == COM && org[|host|..] == ORG;
    assert com[|host| + 1] == "com" && org[|host| + 1] == "org" && !SameText("com", "org") && !SameText("org", "com") by {
      assert !SameLetter("com"[0], "org"[0]) && !SameLetter("org"[0], "com"[0]);
    }
  }

  lemma SameLengths(labels: seq<string>, other: seq<string>)
    ensures SameName(labels, other) ==> |labels| == |other|
  {
  }

  lemma Statics(name: LowerName)
    ensures StaticSet(DomainName(COM, false), [WWW, ROOT], RrKey(name, A))
            == if SameName(["www"] + COM, name) then {Loopback(1)} else if SameName(COM, name) then {Loopback(2)} else {}
  {
    hide ParseIp, RecordError, RenderRecordName, SameName;
    Records();
    var k, zone := RrKey(name, A), DomainName(COM, false);
    SameLengths(["www"] + COM, name);
    SameLengths(COM, name);
    StaticSetStep(zone, [], WWW, k);
    StaticSetStep(zone, [WWW], ROOT, k);
    assert [] + [WWW] == [WWW] && [WWW] + [ROOT] == [WWW, ROOT];
    assert StaticSet(zone, [], k) == {};
  }

  /** Records from the configuration, www.example.com and the root of the zone. */
  lemma StaticQueries(authorities: map<LowerName, SplitAuthority>, table: Table, forward: Forwarder)
    requires BuiltFrom(authorities, CONFIG, CONFIG.zones)
    ensures Resolve(authorities, table, forward, Question(["www"] + COM, A)) == Static(30, {Loopback(1)})
    ensures Resolve(authorities, table, forward, Question(COM, A)) == Static(30, {Loopback(2)})
  {
    hide FromStr, ValidLabel, LowerText, StaticSet, BuiltFrom, Resolve, Nearest;
    ZoneNames();
    WwwName();
    assert [] + COM == COM;
    Zones(["www"]);
    Zones([]);
    Statics(["www"] + COM);
    Statics(COM);
    StaticAnswersAreImmune(authorities, CONFIG, table, forward, Question(["www"] + COM, A), 0);
    StaticAnswersAreImmune(authorities, CONFIG, table, forward, Question(COM, A), 0);
  }

  lemma FooKey()
    ensures QueryKey(Question(["foo"] + COM, A)) == Key("foo.example.com", "A")
    ensures Lower(["foo"] + COM) == ["foo"] + COM && ValidName(["foo"] + COM)
  {
    hide ValidLabel, LowerText, Join, QueryText;
    PlainNames();
    ThreeLabels("foo", "example", "com");
    assert ["foo"] + COM == ["foo", "example", "com"];
    assert "foo" + "." + "example" + "." + "com" == "foo.example.com";
    QueryTextIsJoin(["foo"] + COM);
  }

  lemma FooHasNoStaticRecord()
    ensures FromStr(CONFIG.zones[0].name).Ok? && ZoneStatic(CONFIG.zones[0], Question(["foo"] + COM, A)) == {}
  {
    hide FromStr, StaticSet, Lower, ValidName;
    ZoneNames();
    FooKey();
    var foo := ["foo"] + COM;
    assert foo[0] != (["www"] + COM)[0] && |foo| != |COM|;
    assert QueryRrKey(Question(foo, A)) == RrKey(foo, A);
    Statics(foo);
  }

  /** A record from the database, foo.example.com, after its upsert. */
  lemma RegisteredQuery(authorities: map<LowerName, SplitAuthority>, table: Table, forward: Forwarder, now: Time)
    requires BuiltFrom(authorities, CONFIG, CONFIG.zones)
    ensures var after := Apply(table, Put(Key("foo.example.com", "A"), "127.0.0.3", 30, now));
            Resolve(authorities, after, forward, Question(["foo"] + COM, A))
            == Database(DomainName(["foo"] + COM, false), A, 30, Loopback(3))
  {
    hide FromStr, StaticSet, BuiltFrom, Resolve, Nearest, ParseIp, PrintIp, QueryKey, ValidName, Lower, ZoneOrigin, ZoneStatic;
    FooKey();
    FooHasNoStaticRecord();
    OctetTexts();
    LoopbackText(3, "3");
    assert "127.0.0." + "3" == "127.0.0.3";
    Zones(["foo"]);
    var after := Apply(table, Put(Key("foo.example.com", "A"), "127.0.0.3", 30, now));
    RegistryAnswersWithoutStatic(authorities, CONFIG, after, forward, Question(["foo"] + COM, A), 0);
  }

  /** A name in a served zone that nobody registered is asked of the configured name server. */
  lemma UnregisteredQuery(authorities: map<LowerName, SplitAuthority>, table: Table, forward: Forwarder)
    requires BuiltFrom(authorities, CONFIG, CONFIG.zones) && QueryKey(Question(ORG, A)) !in table
    ensures var upstream := SocketV4(V4([1, 1, 1, 1]), 53);
            var q := Question(ORG, A);
            Resolve(authorities, table, forward, q)
            == Forwarded(forward([NameServer(upstream, Udp), NameServer(upstream, Tcp)], ORG, RrKey(ORG, A)))
  {
    hide FromStr, ValidLabel, LowerText, BuiltFrom, Resolve, Nearest, ParseIpOptionalSocket, QueryText, ZoneOrigin;
    ZoneNames();
    Origins();
    Nameserver();
    Zones([]);
    assert [] + ORG == ORG;
    RegistryAnswersWithoutStatic(authorities, CONFIG, table, forward, Question(ORG, A), 1);
    forall upstreams: seq<NameServer> | AreUpstreams(upstreams, CONFIG.nameservers)
      ensures upstreams == [upstreams[0], upstreams[1]] && upstreams[0] == NameServer(SocketV4(V4([1, 1, 1, 1]), 53), Udp)
      ensures upstreams[1] == NameServer(SocketV4(V4([1, 1, 1, 1]), 53), Tcp)
    {
      assert upstreams[2 * 0].protocol == Udp;
    }
  }

  /** A name in no zone is refused. */
  lemma OutsideQuery(authorities: map<LowerName, SplitAuthority>, table: Table, forward: Forwarder)
    requires BuiltFrom(authorities, CONFIG, CONFIG.zones)
    ensures Resolve(authorities, table, forward, Question(["google", "com"], A)) == Refused
  {
    hide FromStr, ValidLabel, LowerText, BuiltFrom, Resolve, ParseIpOptionalSocket, QueryText, ZoneOrigin;
    ZoneNames();
    Origins();
    ResolveIsAnswer(authorities, CONFIG, table, forward, Question(["google", "com"], A), Refused);
  }
}
