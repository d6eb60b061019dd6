# Verification of swandns

Swan DNS is a small registry: machines publish their addresses over RPC, a SQLite table keeps them, and a DNS server
answers from static records, from that table, or from an upstream. This project models that core and proves what it
promises. `dafny verify dfyconfig.toml` checks everything.

| file | what it models |
|---|---|
| `Wrappers.dfy` | option and result types |
| `Numerals.dfy` | numbers in address texts: printing, and reading under digit-count, leading-zero and range limits |
| `Addresses.dfy` | IPv4, IPv6 and socket addresses as texts, zero compression and mixed notation included; the "ip or ip:port" form |
| `Names.dfy` | domain names, their presentation form, the names of static records, the text of a database lookup |
| `Registry.dfy` | the records table as a map, its history as executed statements, replies and health |
| `RecordRepository.dfy` | the table as rows changed in place, the repository calls, the RPC handlers |
| `RpcMachine.dfy` | RPCs in flight (captured, written, replied) in arbitrary interleaving |
| `ListStream.dfy` | the streamed `list` reply through a channel of capacity four |
| `DnsServer.dfy` | from the configuration to the catalog of zones: the nested loops and their errors |
| `Resolution.dfy` | zone choice and the static, database, forwarder cascade, against what the configuration means |
| `Client.dfy` | one update with retries, a batch of updates, the refresh loop, with their times |
| `Freshness.dfy` | how old a refreshed record can get, against the seven-minute health window |
| `EndToEnd.dfy` | RPC histories, update clients and DNS answers together |
| `DnsScenario.dfy` | a witness that the hypotheses of the answer theorems can be met, with every kind of answer |

Assumptions that stand for the surroundings: the closures given to `conn.call` run one at a time; timestamps are
stored without loss; a table's history begins with its creation; client and server read one clock, which never goes
back in `RpcMachine.dfy` and `Freshness.dfy`; the forwarder is an arbitrary function of upstreams, zone and question;
the network's behaviour, interface addresses, random jitter, clock readings, wake-up delays and the moment of shutdown
are inputs. In `Client.dfy` an attempt's statement is executed, if at all, before the attempt ends; one that the
server executes later, after the attempt has failed at the client, counts as another client's and is covered, with its
lateness, by `LoopKeepsFreshAmongOthers`. The catalog is a map searched from the queried name upwards (section 4.3.2
of RFC 1034), the in-memory store a map from name and type to a set of addresses, and names are compared by lower-case
labels (section 2.3.3 of RFC 1035) without regard to a final dot, as tests/dns_server_test.rs:88-103 relies on.

Where the plain promise fails, the exact one is proved and an input shows the failure:

- An upsert may answer with another client's row (`ForeignReply`), and finds no row, so that its handler's unwrap panics,
  exactly when the last operation on its key before the read-back is a delete (`ReplyProvenance`, with a run in
  `EmptyReply`).
- A row says that it was updated before it was created exactly when the upsert that wrote it last captured its time before
  the one that created it, with time passing in between (`UpdatedBeforeCreatedExactly`), and by at most the time between
  capture and write (`SkewBound`, reached in `SkewBoundIsTight`). With upserts of one key kept apart it cannot happen
  (`SerialTimestamps`).
- The task behind `list` panics exactly when the client goes away with records left to send and the task gets another turn
  (`PanicsExactly`, with a schedule in `DroppedStreamPanics`).
- In the zone of the empty text the keys "@" and "" give one name, the only such pair beyond case (`RenderedNameInjective`).
- In the root zone, written ".", only the key "@" can be rendered; any other stops the start (`RootZoneRendersNoKey`).
- A row whose data is no address makes the DNS lookup panic (`DecodingFailsExactly`, with a run in
  `DecodingCanFail`); update clients never store one (`ClientRowsDecode`).
- A row whose name has an upper-case letter or a final dot is never found by DNS (`ReachableByDns`).
- The whole-second timestamps of a reply decide the health verdict except at an age of 420 seconds (`HealthFromReply`).

## Model

| member | source | states |
|---|---|---|
| `Addresses.PrintParseIp` | src/client.rs:39-44 | every IPv4 and IPv6 address the client prints is parsed back as itself |
| `Addresses.V4HasOneText` | src/util.rs:121-129 | the only text that parses as a given IPv4 address is its printed one, so no leading zeros and no missing octets (`dec-octet` of RFC 3986, section 3.2.2) |
| `Addresses.FiveDigitsAreNoGroup` | src/util.rs:121-129 | no text that starts with five hexadecimal digits is an address |
| `Addresses.PrintIpInjective` | src/client.rs:42 | different addresses have different texts |
| `Addresses.LongestZeroRun` | src/client.rs:42 | the run of zeros that the printed IPv6 text leaves out is the first of the longest (section 4.2 of RFC 5952) |
| `Addresses.ZerosAreLeftOut` | src/client.rs:42 | every IPv6 address that is not IPv4-mapped is printed with the first of its longest runs of zeros left out, or in full when no two zeros stand together |
| `Addresses.FormV4` | src/client.rs:42 | the printed form of an IPv4 address, on an example |
| `Addresses.FormV6` | src/client.rs:42 | the printed form of an IPv6 address, lower-case digits and compression, on an example |
| `Addresses.FormMapped` | src/client.rs:42 | the printed form of an IPv4-mapped address, on an example |
| `Addresses.PrintParseSocket` | src/util.rs:140-142 | every socket address, with its bracket, scope and port, is parsed back as itself |
| `Addresses.SocketForms` | src/util.rs:140-142 | the forms of socket addresses that the parser takes: port, bracket and scope, on examples |
| `Addresses.SocketAndIpDisjoint` | src/util.rs:140-147 | no text is both a socket address and a bare address |
| `Addresses.UpstreamRoundTrip` | src/util.rs:140-147 | a printed socket address gives itself; a printed address gives that address with the default port, and no scope for IPv6 |
| `Addresses.UpstreamMeaning` | src/util.rs:140-147 | trying the socket form first never changes what a bare address means, and all else is read as a socket address |
| `Names.Split` | src/util.rs:135 | the pieces hold no dot and join back to the text |
| `Names.SplitJoin` | src/util.rs:135 | dot-free labels survive joining and splitting |
| `Names.DisplayFromStr` | src/dns_server.rs:41 | every valid name, root and final dot included, survives printing and parsing |
| `Names.FromStrExactly` | src/dns_server.rs:41 | a text parses as a name if and only if the name is valid and the text is its printed form |
| `Names.Limits` | src/dns_server.rs:41 | a name is valid if and only if its labels are and its text has at most 253 characters; 63 letters make a label and 64 do not (section 2.3.4 of RFC 1035) |
| `Names.LowerTextFolds` | src/dns_server.rs:106 | two texts have one lower-case form if and only if they have equal characters or the two cases of one letter everywhere (section 2.3.3 of RFC 1035) |
| `Names.LowerIs` | src/dns_server.rs:106 | the lower-case form of a name is the only name without upper-case letters that is the same up to case |
| `Names.RenderedName` | src/util.rs:131-138 | in a zone with labels, a key gives its labels put before the zone's, or the error of exactly those labels |
| `Names.RootZoneRendersNoKey` | src/util.rs:131-138 | in the root zone a key renders if and only if it is "@" |
| `Names.RenderedInZone` | src/util.rs:131-138 | the last labels of every rendered name are those of its zone |
| `Names.RenderedNameInjective` | src/util.rs:131-138 | two keys of any zone give one name, up to case, if and only if they are the same up to case, or are "@" and the empty key in the zone of the empty text; case is compared letter by letter |
| `Names.QueryTextParses` | src/sqlite_authority.rs:51-69 | the text searched in the database has no upper-case letter and parses back to the queried name up to case |
| `Names.QueryTextIsCaseBlind` | src/sqlite_authority.rs:51-58 | two queried names search one text if and only if they are the same letter by letter up to case |
| `Registry.HistoryDescribes` | src/record_repository.rs:56-80 | after any history a key is absent if nothing or a delete came last, and else has data, ttl and update time of its last upsert and the creation time of its first upsert since the last delete |
| `Registry.DescriptionUnique` | src/record_repository.rs:56-80 | that description fits exactly one row |
| `Registry.PerKey` | src/record_repository.rs:56-129 | what a key holds is what that key's operations leave by themselves, given as the part of the history at their positions |
| `Registry.Projection` | src/record_repository.rs:56-129 | every history has such a part |
| `Registry.Commute` | src/record_repository.rs:56-129 | operations on different keys commute |
| `Registry.RetriesAmountToOne` | src/client.rs:45-49 | repeated executions of one message, among any operations on other keys, leave what the first one leaves with the update time of the last |
| `Registry.RetriesLeaveOneRow` | src/client.rs:45-49 | with nothing else in between, the whole table is that of one execution, but for the update time of the last |
| `Registry.UnixTimestamp` | src/record_repository.rs:37-38 | the seconds of a reply are those completed at the time in nanoseconds |
| `Registry.HealthFromReply` | src/record_repository.rs:96-107 | the verdict in terms of whole seconds: healthy up to 419, unhealthy from 421, and at 420 by the fractions of a second |
| `Repository.IndexOf` | src/util.rs:89-97 | the row of a key is found if and only if there is one |
| `Repository.RepresentsSize` | src/util.rs:89-97 | rows with distinct keys are as many as the table's keys |
| `Repository.RecordRepository.ExecuteUpsert` | src/record_repository.rs:56-80 | the table changes as the statement says; the rows are the old ones with the key's row replaced in place, its creation time kept, or with a new row at the end when the key was absent |
| `Repository.RecordRepository.ExecuteDelete` | src/record_repository.rs:116-129 | the key's row is taken out, all others keep their order, and an absent key changes nothing |
| `Repository.RecordRepository.QueryAll` | src/record_repository.rs:89-114 | every key exactly once, with its own data, ttl and whole-second times, healthy if and only if updated at most seven minutes before its own reading of the clock |
| `Repository.RecordRepository.FindUnique` | src/record_repository.rs:16-45 | the table's entry with its times in whole seconds, always marked healthy, or an error if and only if the key is absent |
| `Repository.RecordRepository.Upsert` | src/record_repository.rs:47-87 | undisturbed, it answers with the request's data, the captured time and the creation time already there, in whole seconds |
| `Repository.ListVerdictsAgree` | src/record_repository.rs:96-107 | with a clock that never goes back, a healthy later row that is no fresher makes the earlier row healthy |
| `Repository.MyRecords.FindUnique` | src/rpc_server/records.rs:19-27 | "record not found" if and only if the key has no row |
| `Repository.MyRecords.Upsert` | src/rpc_server/records.rs:29-35 | undisturbed, the handler's unwrap is safe and the reply is the row just written |
| `Repository.MyRecords.Delete` | src/rpc_server/records.rs:54-60 | the key is gone afterwards and nothing else is |
| `RpcMachine.Reachable` | src/record_repository.rs:47-129 | in every reachable state the table is the one its history leaves, times are in order, and every RPC in flight is accounted for in the history |
| `RpcMachine.CaptureTime` | src/record_repository.rs:54 | the time an upsert writes is the clock at its capture |
| `RpcMachine.Executed` | src/record_repository.rs:56-129 | what each write and delete event adds to the history, and at which time |
| `RpcMachine.Logged` | src/record_repository.rs:56-129 | every entry of the history comes from such an event |
| `RpcMachine.ReadPlace` | src/record_repository.rs:80-87 | a reply is what the table held for the key at the read-back event, which came after the write event |
| `RpcMachine.ReplyProvenance` | src/record_repository.rs:47-87 | in every interleaving an upsert answers with the last write of its key before its read-back, its own or a later one; no row exactly if that is a delete; its own request if nothing came between |
| `RpcMachine.ForeignReply` | src/record_repository.rs:80-87 | a run in which an upsert answers with another client's data |
| `RpcMachine.EmptyReply` | src/rpc_server/records.rs:29-35 | a run in which an upsert finds no row, so that the handler's unwrap panics |
| `RpcMachine.SkewBound` | src/record_repository.rs:54-80 | with at most d between capture and write of a key's upserts, its update times are less than any earlier one by at most d and its row is not updated more than d before its creation |
| `RpcMachine.SkewBoundIsTight` | src/record_repository.rs:54-80 | for every d a run reaches that bound |
| `RpcMachine.StillCaptured` | src/record_repository.rs:54-56 | an RPC has one capture, whose request and time it keeps until its write |
| `RpcMachine.Writer` | src/record_repository.rs:54-80 | every upsert in the history was written by some RPC after its capture |
| `RpcMachine.OvertakenExactly` | src/record_repository.rs:54-80 | of any two upserts in the history, the later one has the smaller time if and only if it was captured first and time passed until the other's capture |
| `RpcMachine.MakersDecide` | src/record_repository.rs:56-76 | the upserts that created and last wrote a row decide, by their captures, which of its times is the earlier one |
| `RpcMachine.UpdatedBeforeCreatedExactly` | src/record_repository.rs:54-80 | in every run a row's update time is before its creation time if and only if its last writer was captured before its creator, with time passing in between |
| `RpcMachine.SerialTimestamps` | src/record_repository.rs:54-80 | hence, when upserts of a key do not overlap, its update times never go back and creation is never after update |
| `ListStream.StreamSafety` | src/rpc_server/records.rs:43-51 | in every schedule received, buffered and unsent records are the snapshot in order, at most four are buffered, a panic needs a departed client, and what was received is a prefix |
| `ListStream.FourFit` | src/rpc_server/records.rs:43 | while the client does not read, four records are buffered and no more |
| `ListStream.PanicsExactly` | src/rpc_server/records.rs:48 | the task's unwrap fails if and only if the client goes away with records left to send and the task gets a turn after that |
| `ListStream.DroppedStreamPanics` | src/rpc_server/records.rs:48 | a schedule in which it fails |
| `ListStream.RoundProgress` | src/rpc_server/records.rs:47-49 | whenever both sides get a turn, remaining work decreases: sender and receiver never block each other |
| `ListStream.StreamCompletes` | src/rpc_server/records.rs:43-51 | with neither side starved, a schedule that can be cut into twice as many rounds as records delivers the whole snapshot in order |
| `ListStream.Channel.Send` | src/rpc_server/records.rs:48 | a record is added at the end, unless the channel is full or closed |
| `ListStream.TakeTurn` | src/rpc_server/records.rs:43-51 | the task and the client at the channel do what the abstract turn says |
| `ListStream.OpsOfTurns` | src/rpc_server/records.rs:43-51 | the operations of a schedule are those of all its turns of other RPCs, in order |
| `ListStream.List` | src/rpc_server/records.rs:39-52 | the stream carries the snapshot taken first, whatever other RPCs do to the table during the schedule, and all of it on a fair and long enough schedule |
| `DnsServer.LoadsExactly` | src/dns_server.rs:40-78 | a configuration loads if and only if all zone names, keys and values parse and, when there is a zone, all name servers |
| `DnsServer.ErrorExactly` | src/dns_server.rs:40-78 | with several faults the start stops with the first bad zone's: its name, else its first bad record, key before value, else a name server |
| `DnsServer.FirstError` | src/dns_server.rs:40-78 | the reported error is that of the first bad item |
| `DnsServer.LoadRecords` | src/dns_server.rs:44-66 | the in-memory store holds, for a name in any spelling and a type, exactly the addresses of that type's family that the zone's records give for it; every record's address is stored, under the type of its family |
| `DnsServer.LoadNameservers` | src/dns_server.rs:69-78 | each name server over UDP and then TCP, in order, on port 53 unless it says otherwise |
| `DnsServer.LoadZone` | src/dns_server.rs:41-103 | a zone's authority is the one its configuration means, or its first error |
| `DnsServer.Run` | src/dns_server.rs:36-109 | the catalog holds exactly the zones' names, each with the authority of the last zone of that name; or the first error |
| `Resolution.FindZoneIsNearest` | src/dns_server.rs:105-111 | the upward search finds the longest installed suffix of the name, and none if there is none |
| `Resolution.AncestorIsSuffix` | src/dns_server.rs:105-111 | a zone is an ancestor of a name, compared letter by letter up to case, if and only if its stored name is a suffix of the looked-up one |
| `Resolution.CatalogFindsNearest` | src/dns_server.rs:105-111 | the zone found is the nearest ancestor of the queried name up to case, the last of its name |
| `Resolution.SplitLookupIsZoneAnswer` | src/split_authority.rs:74-108 | one zone answers as its configuration means: static set, else row, else forwarder |
| `Resolution.ResolveIsAnswer` | src/split_authority.rs:74-108 | for every loading configuration, table and question the served answer is the one answer the configuration means, refusal and panic included |
| `Resolution.StaticAnswersAreImmune` | src/split_authority.rs:80-89 | a static answer is the same whatever the table holds |
| `Resolution.StaticAnswerExactly` | src/split_authority.rs:80-89 | a question is answered statically if and only if a record of the nearest zone renders to its name up to case with an address of its type, and then with just those addresses, for 30 seconds |
| `Resolution.RegistryAnswersWithoutStatic` | src/split_authority.rs:90-107 | precedence is per name and type: without a static record of the asked type the row answers, else the forwarder |
| `Resolution.CaseBlind` | src/sqlite_authority.rs:51-58 | every case spelling of a question gets the same answer, with spellings compared letter by letter |
| `Resolution.ReachableByDns` | src/sqlite_authority.rs:51-58 | some question finds a key if and only if its type is A or AAAA and its name is lower-case and parses without a final dot |
| `Freshness.NoOlderThanCycle` | src/bin/client.rs:32-65 | after the write of a cycle the row is no older than that cycle's start |
| `Freshness.FreshnessBound` | src/bin/client.rs:32-65 | from its first write on a refreshed record is at most a period and two cycles old, plus d when others write it too |
| `Freshness.SteadyFreshnessBound` | src/bin/client.rs:53-64 | with even ticks and cycles shorter than the period, one cycle less from the second cycle on |
| `Freshness.FreshnessBoundIsTight` | src/bin/client.rs:32-65 | the bound is reached on the schedule "every n minutes", for every period and cycle length |
| `Freshness.AlwaysListedHealthy` | src/record_repository.rs:8 | every five minutes with cycles of at most a minute, the age never exceeds the seven-minute window |
| `Freshness.ListShowsHealthy` | src/record_repository.rs:89-114 | so `list` shows the record, marked healthy |
| `Freshness.FreshnessInEveryRun` | src/record_repository.rs:47-129 | the same bound of the server's table in every interleaving with other RPCs |
| `Freshness.Every` | flake.nix:71 | the next tick of "every n minutes" is the first multiple of the period after now |
| `Freshness.EveryIsEven` | flake.nix:71 | the ticks of "every n minutes" are one period apart |
| `Client.AddressFor` | src/client.rs:26-29 | a record's own interface and protocol win, each by itself, and the default stands in for the one that is not set |
| `Client.MessageSays` | src/client.rs:38-44 | the message carries the record's name, the address as text, the type of its family and a ttl of 30 |
| `Client.RetriesWaitTwelveSeconds` | src/client.rs:45 | the five Fibonacci delays add up to twelve seconds |
| `Client.TwelveSecondsAreWaited` | src/client.rs:45-49 | six unanswered attempts without shortened delays end twelve seconds after the sum of their times |
| `Client.ClientUpsert` | src/client.rs:13-20 | one call executes the message at most once, at the times of its delivery, and answers with the row it wrote |
| `Client.Retry` | src/client.rs:45-49 | attempts up to the first reply, six at most; each starts when the one before has failed and a delay of 1, 1, 2, 3 and 5 seconds in turn, as the jitter leaves it, is over; every executed statement has the times of its own attempt |
| `Client.UpdateRecord` | src/client.rs:22-55 | no address, no attempt; else the attempts of `Retry`; it succeeds if and only if one of six is answered; the table is that of the first execution with the update time of the last |
| `Client.UpdateRecords` | src/client.rs:57-76 | every record in order, each begun when the one before has ended, whatever failed before; the exact number of failed records, an empty list on success, the time bound |
| `Client.UpdateInLoop` | src/bin/client.rs:25-66 | every cycle is one batch of all records begun after waking up at its tick; the log is that of the batches, every executed statement falls within its cycle and every successful update is written within it |
| `Client.LoopKeepsFresh` | src/bin/client.rs:25-66 | at every moment from the end of the first cycle the loop's own history keeps the record within the bound |
| `Client.LoopKeepsFreshAmongOthers` | src/bin/client.rs:25-66 | in every run of the server that contains the loop's statements in order among others, with no delete of the key and others' writes of it within d, the bound with d added holds of the server's table |
| `Client.LoopKeepsHealthy` | flake.nix:71 | on the shipped five-minute schedule the record stays healthy when all records' attempts and waits fit in a minute |
| `EndToEnd.AnswerFollowsHistory` | src/split_authority.rs:74-108 | in every run of the server a DNS answer is the one the configuration means with the row the key's history describes |
| `EndToEnd.ClientSendsClientPuts` | src/client.rs:38-44 | everything an update leaves on the server is a typed, printed address |
| `EndToEnd.RegistryIsWellTyped` | src/client.rs:38-44 | with update clients only, a row's type is AAAA exactly if its data is IPv6 text, and A otherwise |
| `EndToEnd.DecodingFailsExactly` | src/sqlite_authority.rs:66-74 | the lookup panics if and only if the matched row's data is no address |
| `EndToEnd.DecodingCanFail` | src/sqlite_authority.rs:66-74 | for every question, a run that makes its lookup panic |
| `EndToEnd.ClientRowsDecode` | src/sqlite_authority.rs:66-74 | with update clients only it never does, and the answer is of the asked type |
| `EndToEnd.ReadYourWrites` | src/sqlite_authority.rs:53-74 | while an upsert is the last operation on a key DNS answers with its data and ttl; after a delete, or before any write, with the forwarder's result |
| `EndToEnd.ClientAddressIsServed` | src/client.rs:38-44 | the address the client found is the address DNS serves |
| `DnsScenario.Serve` | tests/dns_server_test.rs:52-74 | witness: the test's configuration loads, so there is a catalog for the answer theorems |
| `DnsScenario.StaticQueries` | tests/dns_server_test.rs:88-92 | witness of static answers: www.example.com and the zone's root get the configured addresses |
| `DnsScenario.RegisteredQuery` | tests/dns_server_test.rs:94-103 | witness of a registry answer: after its upsert foo.example.com gets the registered address |
| `DnsScenario.UnregisteredQuery` | tests/dns_server_test.rs:105-114 | witness of a forwarded answer: an unregistered name in a served zone is asked of the configured name server |
| `DnsScenario.OutsideQuery` | tests/dns_server_test.rs:116-125 | witness of a refusal: a name in no zone |

## Left out

- FromStr: does not model escapes, IDNA, wildcards and labels outside letters, digits, "-" and "_", because the library code behind them is not part of this repository; it reports them as a bad label.
- ReadV6: no characterisation of all accepted IPv6 texts is stated beyond the round trip; one address has many texts.
- QueryAll: the order of rows is not promised, because the statement has no ORDER BY.
- ClientUpsert: does not execute a statement after its attempt has failed; such a late statement belongs to what others do, and what it can do to replies and freshness is stated by `ReplyProvenance` and `LoopKeepsFreshAmongOthers` for every interleaving.
- UpdateRecord: like `ClientUpsert`.
- UpdateRecords: like `ClientUpsert`.
- Retry: like `ClientUpsert`. The six attempts are the program's; that no attempt outlives its time bound is an input, because the call has no timeout of its own.
- UpdateInLoop: like `ClientUpsert`. It runs for a given number of rounds and does not model a shutdown in the middle of one; all records go to one server, so the choice of a server address is not modelled.
- Resolve: questions for types other than A and AAAA, and the building of the DNS response around an answer.
- SQL itself, the WAL mode, migrations, opening the database.
- The generated RPC code, Ping, tracing, arguments, configuration files, graceful shutdown.
- Sockets and listeners, the forwarder's own resolution and cache, the 30-second deadline of a database lookup object.
- The search for an interface's address: it is an input.
- The `SplitLookup` result object's accessors: case analyses on which source answered.
