// The update client: one record with retries, all records of the configuration, and the refresh loop
// (src/client.rs, src/bin/client.rs).
//
// The network, the interface addresses, the random delays and the length of the program's life are inputs. An attempt
// may fail before the server executes it or after; a failed one may thus have changed the table. A statement that the
// server executes only after its attempt has failed is not counted to the attempt but to what others do meanwhile. All
// records go to one server, whose clock the client shares. The methods run alone; LoopKeepsFreshAmongOthers takes what
// they leave behind to runs of the server with such late statements, other clients and other RPCs.

module Client {
  import opened Wrappers
  import opened Addresses
  import opened Registry
  import opened Repository
  import opened RpcMachine
  import opened Freshness

  datatype ClientRecordConfig = ClientRecordConfig(name: string, bind: Option<string>, protocol: Option<string>)

  datatype ClientConfig = ClientConfig(
    defaultBind: Option<string>, defaultProtocol: Option<string>, records: seq<ClientRecordConfig>)

  datatype ClientError = NoAddress | AttemptsFailed | RecordsNotUpdated(count: nat)

  /** When the server captured the time and when it executed the write, from the start of the attempt. */
  datatype Delivery = Delivery(captured: nat, written: nat)

  /** One call of the server: whether its upsert was executed, whether the reply came back, and how long it took. */
  datatype Attempt = Attempt(delivery: Option<Delivery>, acked: bool, took: nat) {
    predicate Valid() {
      && (acked ==> delivery.Some?)
      && (delivery.Some? ==> delivery.value.captured <= delivery.value.written <= took)
    }
  }

  /** The surroundings of one cycle: the address for an interface and protocol, and per record and attempt the call's
      fate and what the random jitter makes of the delay before the next one. */
  datatype Env = Env(
    address: (Option<string>, Option<string>) -> Option<IpAddr>,
    net: (nat, nat) -> Attempt,
    jitter: (nat, nat, nat) -> nat)
  {
    /** No attempt takes longer than t, and the jitter only shortens a delay. */
    ghost predicate Valid(t: nat) {
      && (forall r, i :: net(r, i).Valid() && net(r, i).took <= t)
      && (forall r, i, delay :: jitter(r, i, delay) <= delay)
    }
  }

  const MAX_RETRIES: nat := 5
  const TTL: nat := 30

  function OrElse<T>(a: Option<T>, b: Option<T>): Option<T> {
    if a.Some? then a else b
  }

  /** The address that the record's interface and protocol, or else the defaults, select. */
  function AddressFor(cfg: ClientConfig, rc: ClientRecordConfig, env: Env): (ip: Option<IpAddr>)
    ensures rc.bind.Some? && rc.protocol.Some? ==> ip == env.address(rc.bind, rc.protocol)
    ensures rc.bind.Some? && rc.protocol.None? ==> ip == env.address(rc.bind, cfg.defaultProtocol)
    ensures rc.bind.None? && rc.protocol.Some? ==> ip == env.address(cfg.defaultBind, rc.protocol)
    ensures rc.bind.None? && rc.protocol.None? ==> ip == env.address(cfg.defaultBind, cfg.defaultProtocol)
  {
    env.address(OrElse(rc.bind, cfg.defaultBind), OrElse(rc.protocol, cfg.defaultProtocol))
  }

  /** The message for an address: the type follows from its family. */
  function Message(name: string, ip: IpAddr): UpsertRequest {
    UpsertRequest(name, if ip.V6? then "AAAA" else "A", PrintIp(ip), TTL)
  }

  /** The message names the record, carries the address in its text form, the type of its family, and thirty seconds. */
  lemma MessageSays(name: string, ip: IpAddr)
    ensures var m := Message(name, ip);
            m.name == name && ParseIp(m.value) == Some(ip) && m.rtype == (if ip.V4? then "A" else "AAAA") && m.ttl == 30
  {
    hide PrintIp, ParseIp;
    PrintParseIp(ip);
  }

  /** The Fibonacci backoff: one second, one second, and then the sum of the two before. */
  function Backoff(i: nat): nat {
    if i < 2 then SECOND else Backoff(i - 1) + Backoff(i - 2)
  }

  function TotalBackoff(n: nat): nat {
    if n == 0 then 0 else TotalBackoff(n - 1) + Backoff(n - 1)
  }

  /** Five retries wait at most twelve seconds together. */
  lemma RetriesWaitTwelveSeconds()
    ensures TotalBackoff(MAX_RETRIES) == 12 * SECOND
  {
  }

  lemma {:induction false} TotalBackoffMonotone(m: nat, n: nat)
    requires m <= n
    ensures TotalBackoff(m) <= TotalBackoff(n)
    decreases n
  {
    if m < n {
      TotalBackoffMonotone(m, n - 1);
    }
  }

  /** How long updating one record may take: six attempts and the delays between them. */
  function RecordTime(t: nat): nat {
    6 * t + 12 * SECOND
  }

  lemma BackoffSeconds(i: nat)
    requires i < MAX_RETRIES
    ensures Backoff(i) == [1, 1, 2, 3, 5][i] * 1_000_000_000
  {
  }

  /** Does one of the six attempts get its reply? */
  ghost predicate Succeeds(cfg: ClientConfig, rc: ClientRecordConfig, r: nat, env: Env) {
    AddressFor(cfg, rc, env).Some? && exists i | 0 <= i <= 5 :: env.net(r, i).acked
  }

  /** The statements executed between two moments, in order, each after the capture of its time. */
  ghost predicate TimedBetween(log: seq<Op>, at: seq<Time>, lo: Time, hi: Time) {
    && Timed(log, at, hi)
    && forall i | 0 <= i < |log| :: log[i].Put? && lo <= log[i].now
  }

  lemma TimedConcat(log: seq<Op>, at: seq<Time>, lo: Time, mid: Time, more: seq<Op>, moreAt: seq<Time>, hi: Time)
    requires TimedBetween(log, at, lo, mid) && TimedBetween(more, moreAt, mid, hi) && lo <= mid <= hi
    ensures TimedBetween(log + more, at + moreAt, lo, hi)
  {
  }

  /** `client_upsert`: one call of the server. */
  method ClientUpsert(m: UpsertRequest, attempt: Attempt, start: Time, repo: RecordRepository)
      returns (reply: Option<RecordReply>, ghost log: seq<Op>, ghost at: seq<Time>)
    requires repo.Valid() && attempt.Valid()
    modifies repo
    ensures repo.Valid() && repo.table == ApplyAll(old(repo.table), log)
    ensures match attempt.delivery
            case None => log == [] && at == []
            case Some(d) => log == [PutOf(m, start + d.captured)] && at == [start + d.written]
    ensures SameMessage(log, RequestKey(m), m.value, m.ttl)
    ensures TimedBetween(log, at, start, start + attempt.took)
    ensures reply.Some? <==> attempt.acked
    ensures reply.Some? ==> log != [] && IsReplyTo(m, log[|log| - 1], reply.value, repo.table)
  {
    reply, log, at := None, [], [];
    if attempt.delivery.Some? {
      var now := start + attempt.delivery.value.captured;
      ghost var table := repo.table;
      var served := repo.Upsert(m, now);
      log, at := [PutOf(m, now)], [start + attempt.delivery.value.written];
      assert log[..0] == [];
      assert ApplyAll(table, log) == Apply(table, log[0]);
      if attempt.acked {
        reply := Some(served.value);
      }
    }
  }

  /** The reply tells the table's row, which has the message's own data and the time that the write captured. */
  ghost predicate IsReplyTo(m: UpsertRequest, op: Op, reply: RecordReply, table: Table) {
    && op.Put? && RequestKey(m) in table
    && var e := table[RequestKey(m)];
    && e.data == m.value && e.ttl == m.ttl && e.updatedAt == op.now
    && Tells(reply, RequestKey(m), e) && reply.healthy
  }

  lemma SameMessageConcat(log: seq<Op>, more: seq<Op>, key: Key, data: string, ttl: nat)
    requires SameMessage(log, key, data, ttl) && SameMessage(more, key, data, ttl)
    ensures SameMessage(log + more, key, data, ttl)
  {
  }

  lemma NothingLogged(table: Table, start: Time, key: Key, data: string, ttl: nat)
    ensures ApplyAll(table, []) == table && TimedBetween([], [], start, start) && SameMessage([], key, data, ttl)
  {
  }

  /** When the attempts start: the first at once, and each other one when the one before it has failed and a delay is
      over, which is one, one, two, three and five seconds in turn, as the jitter leaves it. */
  ghost predicate Starts(env: Env, r: nat, begin: Time, starts: seq<Time>) {
    && 1 <= |starts| <= 6 && starts[0] == begin
    && forall i | 0 < i < |starts| ::
         starts[i] == starts[i - 1] + env.net(r, i - 1).took + env.jitter(r, i - 1, [1, 1, 2, 3, 5][i - 1] * 1_000_000_000)
  }

  /** The log is made of the message, once for every attempt that the server executed and in their order; `from` tells
      the attempt of every entry, whose times count from that attempt's start. */
  ghost predicate Sent(m: UpsertRequest, env: Env, r: nat, starts: seq<Time>, log: seq<Op>, at: seq<Time>, from: seq<nat>) {
    && |log| == |at| == |from|
    && (forall k, l | 0 <= k < l < |from| :: from[k] < from[l])
    && (forall k | 0 <= k < |from| ::
          && from[k] < |starts| && env.net(r, from[k]).delivery.Some?
          && var d := env.net(r, from[k]).delivery.value;
          && log[k] == PutOf(m, starts[from[k]] + d.captured) && at[k] == starts[from[k]] + d.written)
    && forall i | 0 <= i < |starts| && env.net(r, i).delivery.Some? :: i in from
  }

  /** Attempts are made up to the first reply, and six at most. */
  ghost predicate Ends(env: Env, r: nat, starts: seq<Time>, end: Time)
    requires starts != []
  {
    var last := |starts| - 1;
    && (forall i | 0 <= i < last :: !env.net(r, i).acked)
    && (env.net(r, last).acked || last == 5)
    && end == starts[last] + env.net(r, last).took
  }

  ghost predicate SentBetween(m: UpsertRequest, env: Env, r: nat, starts: seq<Time>, log: seq<Op>, at: seq<Time>,
                              from: seq<nat>, lo: Time, hi: Time)
  {
    && Sent(m, env, r, starts, log, at, from)
    && TimedBetween(log, at, lo, hi) && SameMessage(log, RequestKey(m), m.value, m.ttl)
  }

  /** What one attempt adds. */
  ghost predicate OneSent(m: UpsertRequest, attempt: Attempt, more: seq<Op>, moreAt: seq<Time>, start: Time) {
    match attempt.delivery
    case None => more == [] && moreAt == []
    case Some(d) => more == [PutOf(m, start + d.captured)] && moreAt == [start + d.written]
  }

  lemma SentOneMore(m: UpsertRequest, env: Env, r: nat, starts: seq<Time>, log: seq<Op>, at: seq<Time>, from: seq<nat>,
                    more: seq<Op>, moreAt: seq<Time>, lo: Time, start: Time, hi: Time)
    requires SentBetween(m, env, r, starts, log, at, from, lo, start)
    requires OneSent(m, env.net(r, |starts|), more, moreAt, start)
    requires SameMessage(more, RequestKey(m), m.value, m.ttl) && TimedBetween(more, moreAt, start, hi) && lo <= start <= hi
    ensures SentBetween(m, env, r, starts + [start], log + more, at + moreAt,
                        if more == [] then from else from + [|starts|], lo, hi)
  {
    hide PutOf, RequestKey, SameMessage, TimedBetween;
    TimedConcat(log, at, lo, start, more, moreAt, hi);
    SameMessageConcat(log, more, RequestKey(m), m.value, m.ttl);
    if more == [] {
      SentNone(m, env, r, starts, log, at, from, start);
      assert log + more == log && at + moreAt == at;
    } else {
      SentLast(m, env, r, starts, log, at, from, start);
    }
  }

  lemma SentNone(m: UpsertRequest, env: Env, r: nat, starts: seq<Time>, log: seq<Op>, at: seq<Time>, from: seq<nat>,
                 start: Time)
    requires Sent(m, env, r, starts, log, at, from) && env.net(r, |starts|).delivery.None?
    ensures Sent(m, env, r, starts + [start], log, at, from)
  {
    hide PutOf;
    assert forall i | 0 <= i < |starts| :: (starts + [start])[i] == starts[i];
  }

  lemma SentLast(m: UpsertRequest, env: Env, r: nat, starts: seq<Time>, log: seq<Op>, at: seq<Time>, from: seq<nat>,
                 start: Time)
    requires Sent(m, env, r, starts, log, at, from) && env.net(r, |starts|).delivery.Some?
    ensures var d := env.net(r, |starts|).delivery.value;
            Sent(m, env, r, starts + [start], log + [PutOf(m, start + d.captured)], at + [start + d.written], from + [|starts|])
  {
    hide PutOf;
    var d := env.net(r, |starts|).delivery.value;
    var all, sent, ops := starts + [start], from + [|starts|], log + [PutOf(m, start + d.captured)];
    forall k | 0 <= k < |from|
      ensures sent[k] == from[k] && all[from[k]] == starts[from[k]] && ops[k] == log[k]
    {
    }
    assert sent[|from|] == |starts| && all[|starts|] == start;
  }

  /** When no attempt is answered and no delay shortened, six attempts take twelve seconds more than they last. */
  lemma TwelveSecondsAreWaited(env: Env, r: nat, begin: Time, starts: seq<Time>, end: Time)
    requires Starts(env, r, begin, starts) && Ends(env, r, starts, end)
    requires forall i | 0 <= i < 6 :: !env.net(r, i).acked
    requires forall i, delay | 0 <= i < 5 :: env.jitter(r, i, delay) == delay
    ensures end == begin + 12_000_000_000 + env.net(r, 0).took + env.net(r, 1).took + env.net(r, 2).took
                   + env.net(r, 3).took + env.net(r, 4).took + env.net(r, 5).took
  {
    assert starts[5] == starts[4] + env.net(r, 4).took + 5_000_000_000;
    assert starts[4] == starts[3] + env.net(r, 3).took + 3_000_000_000;
    assert starts[3] == starts[2] + env.net(r, 2).took + 2_000_000_000;
    assert starts[2] == starts[1] + env.net(r, 1).took + 1_000_000_000;
  }

  /** The statements that updating a record leaves on the server are its message, and none when there is no address. */
  ghost predicate IsPart(cfg: ClientConfig, rc: ClientRecordConfig, env: Env, part: seq<Op>) {
    var address := AddressFor(cfg, rc, env);
    if address.None? then part == []
    else
      var m := Message(rc.name, address.value);
      SameMessage(part, RequestKey(m), m.value, m.ttl)
  }

  /** n times t. */
  ghost function Times(n: nat, t: nat): nat {
    if n == 0 then 0 else Times(n - 1, t) + t
  }

  lemma {:induction false} TimesAtMost(m: nat, n: nat, t: nat)
    requires m <= n
    ensures Times(m, t) <= Times(n, t)
    decreases n
  {
    if m < n {
      TimesAtMost(m, n - 1, t);
    }
  }

  /** Is this how long n attempts and the delays after them, if more may follow, can last? */
  ghost predicate WithinTime(elapsed: int, n: nat, t: nat) {
    0 <= elapsed <= Times(n, t) + TotalBackoff(if n <= MAX_RETRIES then n else MAX_RETRIES)
  }

  lemma OneMoreAttempt(elapsed: int, n: nat, t: nat, took: nat, delay: nat)
    requires WithinTime(elapsed, n, t) && took <= t && n <= MAX_RETRIES
    requires delay <= if n < MAX_RETRIES then Backoff(n) else 0
    ensures WithinTime(elapsed + took + delay, n + 1, t)
  {
  }

  lemma SixAttempts(elapsed: int, n: nat, t: nat)
    requires WithinTime(elapsed, n, t) && n <= 1 + MAX_RETRIES
    ensures elapsed <= RecordTime(t)
  {
    RetriesWaitTwelveSeconds();
    TotalBackoffMonotone(if n <= MAX_RETRIES then n else MAX_RETRIES, MAX_RETRIES);
    TimesAtMost(n, 6, t);
    assert Times(1, t) == t && Times(2, t) == 2 * t && Times(3, t) == 3 * t;
    assert Times(4, t) == 4 * t && Times(5, t) == 5 * t && Times(6, t) == 6 * t;
  }

  /** The retry loop: the message is sent until a reply comes back, at most six times. */
  method Retry(m: UpsertRequest, r: nat, env: Env, start: Time, ghost t: nat, repo: RecordRepository)
      returns (reply: Option<RecordReply>, end: Time,
               ghost starts: seq<Time>, ghost log: seq<Op>, ghost at: seq<Time>, ghost from: seq<nat>)
    requires repo.Valid() && env.Valid(t)
    modifies repo
    ensures repo.Valid() && repo.table == ApplyAll(old(repo.table), log)
    ensures Starts(env, r, start, starts) && Ends(env, r, starts, end)
    ensures Sent(m, env, r, starts, log, at, from)
    ensures reply.Some? <==> env.net(r, |starts| - 1).acked
    ensures reply.Some? ==> log != [] && IsReplyTo(m, log[|log| - 1], reply.value, repo.table)
    ensures SameMessage(log, RequestKey(m), m.value, m.ttl)
    ensures start <= end <= start + 6 * t + 12_000_000_000
    ensures TimedBetween(log, at, start, end)
  {
    hide ApplyAll, Apply, TimedBetween, IsReplyTo, WithinTime, Sent, Starts, Backoff, SameMessage;
    NothingLogged(repo.table, start, RequestKey(m), m.value, m.ttl);
    NothingSent(m, env, r, start);
    FirstBackoffs();
    NoTime(t);
    reply, end, starts, log, at, from := None, start, [], [], [], [];
    var attempts: nat, delay, next := 0, SECOND, SECOND;
    ghost var table := repo.table;
    while attempts < 1 + MAX_RETRIES && reply.None?
      invariant attempts <= 1 + MAX_RETRIES && |starts| == attempts
      invariant delay == Backoff(attempts) && next == Backoff(attempts + 1)
      invariant repo.Valid() && repo.table == ApplyAll(table, log)
      invariant SentBetween(m, env, r, starts, log, at, from, start, end)
      invariant attempts < 1 + MAX_RETRIES && reply.None? ==> Starts(env, r, start, starts + [end])
      invariant attempts == 1 + MAX_RETRIES || reply.Some? ==>
                  && attempts > 0 && Starts(env, r, start, starts)
                  && end == starts[attempts - 1] + env.net(r, attempts - 1).took
      invariant forall i | 0 <= i < attempts - 1 :: !env.net(r, i).acked
      invariant reply.Some? <==> attempts > 0 && env.net(r, attempts - 1).acked
      invariant reply.Some? ==> log != [] && IsReplyTo(m, log[|log| - 1], reply.value, repo.table)
      invariant start <= end && WithinTime(end - start, attempts, t)
    {
      var attempt := env.net(r, attempts);
      ghost var more, moreAt;
      reply, more, moreAt := ClientUpsert(m, attempt, end, repo);
      ApplyAllConcat(table, log, more);
      assert OneSent(m, attempt, more, moreAt, end);
      var wait := if reply.None? && attempts < MAX_RETRIES then env.jitter(r, attempts, delay) else 0;
      OneMoreAttempt(end - start, attempts, t, attempt.took, wait);
      TimedLater(more, moreAt, end, end + attempt.took, end + attempt.took + wait);
      SentOneMore(m, env, r, starts, log, at, from, more, moreAt, start, end, end + attempt.took + wait);
      NextStart(env, r, start, starts, end, delay);
      starts, from := starts + [end], if more == [] then from else from + [attempts];
      log, at := log + more, at + moreAt;
      end := end + attempt.took + wait;
      attempts := attempts + 1;
      BackoffStep(attempts);
      delay, next := next, delay + next;
    }
    SixAttempts(end - start, attempts, t);
  }

  lemma NothingSent(m: UpsertRequest, env: Env, r: nat, start: Time)
    ensures SentBetween(m, env, r, [], [], [], [], start, start) && Starts(env, r, start, [] + [start])
  {
  }

  lemma FirstBackoffs()
    ensures Backoff(0) == SECOND && Backoff(1) == SECOND
  {
  }

  lemma BackoffStep(i: nat)
    requires i > 0
    ensures Backoff(i + 1) == Backoff(i) + Backoff(i - 1)
  {
  }

  lemma NextStart(env: Env, r: nat, begin: Time, starts: seq<Time>, start: Time, delay: nat)
    requires |starts| <= 5 && Starts(env, r, begin, starts + [start]) && delay == Backoff(|starts|)
    ensures |starts| < 5 ==>
              Starts(env, r, begin,
                     starts + [start] + [start + env.net(r, |starts|).took + env.jitter(r, |starts|, delay)])
  {
    hide Backoff;
    if |starts| < 5 {
      BackoffSeconds(|starts|);
    }
  }

  lemma NoTime(t: nat)
    ensures WithinTime(0, 0, t)
  {
  }

  lemma TimedLater(log: seq<Op>, at: seq<Time>, lo: Time, hi: Time, later: Time)
    requires TimedBetween(log, at, lo, hi) && hi <= later
    ensures TimedBetween(log, at, lo, later)
  {
  }

  /** What updating a record is: without an address nothing happens, and with one its message is sent in attempts that
      start and end as they should. This leaves no choice: starts, end, log and times follow from the surroundings. */
  ghost predicate IsUpdate(cfg: ClientConfig, rc: ClientRecordConfig, r: nat, env: Env, u: Update) {
    match AddressFor(cfg, rc, env)
    case None => u == Update(u.begin, u.begin, [], [], [], [])
    case Some(ip) =>
      && Starts(env, r, u.begin, u.starts) && Ends(env, r, u.starts, u.end)
      && Sent(Message(rc.name, ip), env, r, u.starts, u.log, u.at, u.from)
  }

  datatype Update = Update(begin: Time, end: Time, starts: seq<Time>, log: seq<Op>, at: seq<Time>, from: seq<nat>)

  /** One record: the address is looked up once, and without one nothing is sent. However many attempts were executed,
      the table is that of the first execution with the update time of the last. */
  method UpdateRecord(cfg: ClientConfig, rc: ClientRecordConfig, r: nat, env: Env, start: Time, ghost t: nat,
                      repo: RecordRepository)
      returns (result: Result<RecordReply, ClientError>, end: Time, ghost u: Update)
    requires repo.Valid() && env.Valid(t)
    modifies repo
    ensures repo.Valid() && repo.table == ApplyAll(old(repo.table), u.log)
    ensures u.begin == start && u.end == end && IsUpdate(cfg, rc, r, env, u)
    ensures result.Ok? <==> Succeeds(cfg, rc, r, env)
    ensures IsPart(cfg, rc, env, u.log)
    ensures u.log == [] ==> repo.table == old(repo.table)
    ensures u.log != [] ==>
              var key, once := u.log[0].key, Apply(old(repo.table), u.log[0]);
              key in once && repo.table == once[key := once[key].(updatedAt := u.log[|u.log| - 1].now)]
    ensures AddressFor(cfg, rc, env).None? ==> result == Err(NoAddress)
    ensures AddressFor(cfg, rc, env).Some? ==>
              && (result.Err? ==> result == Err(AttemptsFailed))
              && (result.Ok? ==>
                    && u.log != []
                    && IsReplyTo(Message(rc.name, AddressFor(cfg, rc, env).value), u.log[|u.log| - 1], result.value, repo.table))
    ensures start <= end <= start + 6 * t + 12_000_000_000
    ensures TimedBetween(u.log, u.at, start, end)
  {
    hide ApplyAll, IsReplyTo, PrintIp, Sent, Starts;
    end, u := start, Update(start, start, [], [], [], []);
    NothingLogged(repo.table, start, Key("", ""), "", TTL);
    var address := AddressFor(cfg, rc, env);
    if address.None? {
      return Err(NoAddress), end, u;
    }
    ghost var starts, log, at, from;
    var reply;
    reply, end, starts, log, at, from := Retry(Message(rc.name, address.value), r, env, start, t, repo);
    u := Update(start, end, starts, log, at, from);
    AtMostSix(env, r, start, starts);
    if log != [] {
      var m := Message(rc.name, address.value);
      RetriesLeaveOneRow(old(repo.table), log, RequestKey(m), m.value, m.ttl);
    }
    result := if reply.Some? then Ok(reply.value) else Err(AttemptsFailed);
  }

  lemma AtMostSix(env: Env, r: nat, begin: Time, starts: seq<Time>)
    requires Starts(env, r, begin, starts)
    ensures 1 <= |starts| <= 6
  {
  }

  // ---- All records ----

  function RecordKey(cfg: ClientConfig, r: nat, env: Env): Key
    requires r < |cfg.records| && AddressFor(cfg, cfg.records[r], env).Some?
  {
    RequestKey(Message(cfg.records[r].name, AddressFor(cfg, cfg.records[r], env).value))
  }

  /** The first n records that fail. */
  ghost function Failed(cfg: ClientConfig, env: Env, n: nat): set<nat>
    requires n <= |cfg.records|
  {
    set r: nat | r < n && !Succeeds(cfg, cfg.records[r], r, env)
  }

  lemma FailedStep(cfg: ClientConfig, env: Env, n: nat)
    requires n < |cfg.records|
    ensures Failed(cfg, env, n + 1)
            == Failed(cfg, env, n) + if Succeeds(cfg, cfg.records[n], n, env) then {} else {n}
    ensures n !in Failed(cfg, env, n)
  {
  }

  /** What all updates together leave on the server, in order. */
  ghost function LogOf(updates: seq<Update>): seq<Op> {
    if updates == [] then [] else LogOf(updates[..|updates| - 1]) + updates[|updates| - 1].log
  }

  ghost function AtOf(updates: seq<Update>): seq<Time> {
    if updates == [] then [] else AtOf(updates[..|updates| - 1]) + updates[|updates| - 1].at
  }

  /** When update n is due: at the start, or when the one before it has ended. */
  ghost function Due(start: Time, updates: seq<Update>, n: nat): Time
    requires n <= |updates|
  {
    if n == 0 then start else updates[n - 1].end
  }

  /** A batch: the first updates of the records, each begun when the one before it has ended. */
  ghost predicate IsBatch(cfg: ClientConfig, env: Env, start: Time, end: Time, updates: seq<Update>) {
    && |updates| <= |cfg.records|
    && (forall r | 0 <= r < |updates| ::
          && IsUpdate(cfg, cfg.records[r], r, env, updates[r])
          && updates[r].begin == Due(start, updates, r))
    && end == Due(start, updates, |updates|)
  }

  /** Every record that succeeded was written between the cycle's start and its end. */
  ghost predicate AllWritten(cfg: ClientConfig, env: Env, n: nat, log: seq<Op>, at: seq<Time>, cycle: Cycle)
    requires n <= |cfg.records| && |log| == |at|
  {
    forall r | 0 <= r < n && Succeeds(cfg, cfg.records[r], r, env) :: WroteIn(log, at, RecordKey(cfg, r, env), cycle)
  }

  lemma WroteInMore(log: seq<Op>, at: seq<Time>, more: seq<Op>, moreAt: seq<Time>, key: Key, cycle: Cycle, wider: Cycle)
    requires |log| == |at| && |more| == |moreAt|
    requires wider.start <= cycle.start && cycle.end <= wider.end
    ensures WroteIn(log, at, key, cycle) ==> WroteIn(log + more, at + moreAt, key, wider)
    ensures WroteIn(more, moreAt, key, cycle) ==> WroteIn(log + more, at + moreAt, key, wider)
  {
    if WroteIn(log, at, key, cycle) {
      var i: nat :| i < |log| && log[i].key == key && Within(log, at, i, cycle);
      assert (log + more)[i] == log[i] && Within(log + more, at + moreAt, i, wider);
    }
    if WroteIn(more, moreAt, key, cycle) {
      var i: nat :| i < |more| && more[i].key == key && Within(more, moreAt, i, cycle);
      assert (log + more)[|log| + i] == more[i] && Within(log + more, at + moreAt, |log| + i, wider);
    }
  }

  lemma AllWrittenStep(cfg: ClientConfig, env: Env, r: nat, log: seq<Op>, at: seq<Time>, more: seq<Op>, moreAt: seq<Time>,
                       start: Time, mid: Time, end: Time)
    requires r < |cfg.records| && |log| == |at| && start <= mid <= end
    requires AllWritten(cfg, env, r, log, at, Cycle(start, mid))
    requires TimedBetween(more, moreAt, mid, end) && IsPart(cfg, cfg.records[r], env, more)
    requires Succeeds(cfg, cfg.records[r], r, env) ==> more != []
    ensures AllWritten(cfg, env, r + 1, log + more, at + moreAt, Cycle(start, end))
  {
    hide Succeeds, Message;
    forall q | 0 <= q < r + 1 && Succeeds(cfg, cfg.records[q], q, env)
      ensures AddressFor(cfg, cfg.records[q], env).Some?
      ensures WroteIn(log + more, at + moreAt, RecordKey(cfg, q, env), Cycle(start, end))
    {
      SucceedsHasAddress(cfg, cfg.records[q], q, env);
      if q < r {
        WroteInMore(log, at, more, moreAt, RecordKey(cfg, q, env), Cycle(start, mid), Cycle(start, end));
      } else {
        assert more[0].key == RecordKey(cfg, q, env) && Within(more, moreAt, 0, Cycle(mid, end));
        WroteInMore(log, at, more, moreAt, RecordKey(cfg, q, env), Cycle(mid, end), Cycle(start, end));
      }
    }
  }

  lemma SucceedsHasAddress(cfg: ClientConfig, rc: ClientRecordConfig, r: nat, env: Env)
    requires Succeeds(cfg, rc, r, env)
    ensures AddressFor(cfg, rc, env).Some?
  {
  }

  /** `update_records`: every record in order, whatever became of those before it; on failure it reports how many
      records failed, and on success an empty list, because the replies are not collected. */
  method UpdateRecords(cfg: ClientConfig, env: Env, start: Time, ghost t: nat, repo: RecordRepository)
      returns (result: Result<seq<RecordReply>, ClientError>, end: Time,
               ghost updates: seq<Update>, ghost log: seq<Op>, ghost at: seq<Time>)
    requires repo.Valid() && env.Valid(t)
    modifies repo
    ensures repo.Valid() && repo.table == ApplyAll(old(repo.table), log)
    ensures var failed := set r: nat | r < |cfg.records| && !Succeeds(cfg, cfg.records[r], r, env);
            result == if failed == {} then Ok([]) else Err(RecordsNotUpdated(|failed|))
    ensures IsBatch(cfg, env, start, end, updates) && |updates| == |cfg.records|
    ensures log == LogOf(updates) && at == AtOf(updates)
    ensures start <= end <= start + |cfg.records| * (6 * t + 12_000_000_000)
    ensures TimedBetween(log, at, start, end)
    ensures AllWritten(cfg, env, |cfg.records|, log, at, Cycle(start, end))
  {
    hide ApplyAll, IsReplyTo, IsPart, IsUpdate, Succeeds, TimedBetween, AllWritten, Message, RecordTime, Failed, IsBatch, LogOf, AtOf;
    NothingLogged(repo.table, start, Key("", ""), "", TTL);
    NothingWritten(cfg, env, start);
    NoneFailed(cfg, env);
    EmptyBatch(cfg, env, start);
    end, updates, log, at := start, [], [], [];
    if cfg.records == [] {
      return Ok([]), end, updates, log, at;
    }
    var errors := 0;
    ghost var table := repo.table;
    for r := 0 to |cfg.records|
      invariant repo.Valid() && repo.table == ApplyAll(table, log)
      invariant errors == |Failed(cfg, env, r)|
      invariant IsBatch(cfg, env, start, end, updates) && |updates| == r
      invariant log == LogOf(updates) && at == AtOf(updates) && |log| == |at|
      invariant start <= end <= start + r * RecordTime(t)
      invariant TimedBetween(log, at, start, end)
      invariant AllWritten(cfg, env, r, log, at, Cycle(start, end))
    {
      var updated, ended;
      ghost var u;
      updated, ended, u := UpdateRecord(cfg, cfg.records[r], r, env, end, t, repo);
      FailedStep(cfg, env, r);
      if updated.Err? {
        errors := errors + 1;
      }
      ApplyAllConcat(table, log, u.log);
      SameLength(u.log, u.at, end, ended);
      SuccessLeavesPart(cfg, cfg.records[r], r, env, updated, u.log);
      AllWrittenStep(cfg, env, r, log, at, u.log, u.at, start, end, ended);
      TimedConcat(log, at, start, end, u.log, u.at, ended);
      OneMoreRecord(start, end, ended, r, t);
      BatchStep(cfg, env, start, end, updates, u);
      updates, log, at, end := updates + [u], log + u.log, at + u.at, ended;
    }
    FailedAll(cfg, env);
    RecordTimes(|cfg.records|, t);
    result := if errors > 0 then Err(RecordsNotUpdated(errors)) else Ok([]);
  }

  lemma EmptyBatch(cfg: ClientConfig, env: Env, start: Time)
    ensures IsBatch(cfg, env, start, start, []) && LogOf([]) == [] && AtOf([]) == []
  {
  }

  lemma BatchStep(cfg: ClientConfig, env: Env, start: Time, end: Time, updates: seq<Update>, u: Update)
    requires IsBatch(cfg, env, start, end, updates) && |updates| < |cfg.records|
    requires IsUpdate(cfg, cfg.records[|updates|], |updates|, env, u) && u.begin == end
    ensures IsBatch(cfg, env, start, u.end, updates + [u])
    ensures LogOf(updates + [u]) == LogOf(updates) + u.log && AtOf(updates + [u]) == AtOf(updates) + u.at
  {
    hide IsUpdate;
    var all := updates + [u];
    assert all[..|updates|] == updates && all[|updates|] == u;
    forall r | 0 <= r < |all|
      ensures IsUpdate(cfg, cfg.records[r], r, env, all[r]) && all[r].begin == Due(start, all, r)
    {
      assert Due(start, all, r) == Due(start, updates, r);
      assert r < |updates| ==> all[r] == updates[r];
    }
  }

  lemma NoneFailed(cfg: ClientConfig, env: Env)
    ensures Failed(cfg, env, 0) == {}
    ensures cfg.records == [] ==> (set r: nat | r < |cfg.records| && !Succeeds(cfg, cfg.records[r], r, env)) == {}
  {
  }

  lemma FailedAll(cfg: ClientConfig, env: Env)
    ensures Failed(cfg, env, |cfg.records|) == set r: nat | r < |cfg.records| && !Succeeds(cfg, cfg.records[r], r, env)
  {
  }

  lemma OneMoreRecord(start: Time, end: Time, ended: Time, r: nat, t: nat)
    requires end <= start + r * RecordTime(t) && ended <= end + 6 * t + 12_000_000_000
    ensures ended <= start + (r + 1) * RecordTime(t)
  {
    assert RecordTime(t) == 6 * t + 12_000_000_000;
    hide RecordTime;
    assert (r + 1) * RecordTime(t) == r * RecordTime(t) + RecordTime(t);
  }

  lemma RecordTimes(n: nat, t: nat)
    ensures n * RecordTime(t) == n * (6 * t + 12_000_000_000)
  {
  }

  lemma SameLength(log: seq<Op>, at: seq<Time>, lo: Time, hi: Time)
    requires TimedBetween(log, at, lo, hi)
    ensures |log| == |at|
  {
  }

  lemma SuccessLeavesPart(cfg: ClientConfig, rc: ClientRecordConfig, r: nat, env: Env,
                          updated: Result<RecordReply, ClientError>, part: seq<Op>)
    requires updated.Ok? <==> Succeeds(cfg, rc, r, env)
    requires AddressFor(cfg, rc, env).Some? && updated.Ok? ==> part != []
    ensures Succeeds(cfg, rc, r, env) ==> part != []
  {
  }

  lemma NothingWritten(cfg: ClientConfig, env: Env, start: Time)
    ensures AllWritten(cfg, env, 0, [], [], Cycle(start, start))
  {
  }

  // ---- The refresh loop ----

  /** How long a cycle may take: waking up, and all records. */
  function CycleTime(cfg: ClientConfig, lag: nat, t: nat): (c: nat)
    ensures c == lag + |cfg.records| * (6 * t + 12_000_000_000)
  {
    RecordTimes(|cfg.records|, t);
    lag + |cfg.records| * RecordTime(t)
  }

  /** What the loop leaves behind: cycles on schedule, every executed statement within a cycle, and every successful
      update of a cycle written within it. */
  ghost predicate LoopTrace(cfg: ClientConfig, envs: nat -> Env, nextTick: Time -> Time, c: nat,
                            cycles: seq<Cycle>, log: seq<Op>, at: seq<Time>)
  {
    && |log| == |at|
    && Schedule(cycles, nextTick, c)
    && (forall i | 0 <= i < |log| :: InSomeCycle(log, at, i, cycles))
    && forall k | 0 <= k < |cycles| :: AllWritten(cfg, envs(k), |cfg.records|, log, at, cycles[k])
  }

  lemma LoopTraceStep(cfg: ClientConfig, envs: nat -> Env, nextTick: Time -> Time, c: nat,
                      cycles: seq<Cycle>, log: seq<Op>, at: seq<Time>,
                      tick: Time, begin: Time, end: Time, more: seq<Op>, moreAt: seq<Time>)
    requires LoopTrace(cfg, envs, nextTick, c, cycles, log, at)
    requires cycles != [] ==> tick == nextTick(cycles[|cycles| - 1].end)
    requires tick <= begin <= end <= tick + c
    requires TimedBetween(more, moreAt, begin, end)
    requires AllWritten(cfg, envs(|cycles|), |cfg.records|, more, moreAt, Cycle(begin, end))
    ensures LoopTrace(cfg, envs, nextTick, c, cycles + [Cycle(tick, end)], log + more, at + moreAt)
  {
    hide Message;
    var all, n := cycles + [Cycle(tick, end)], |cycles|;
    forall i | 0 <= i < |log + more|
      ensures InSomeCycle(log + more, at + moreAt, i, all)
    {
      if i < |log| {
        assert InSomeCycle(log, at, i, cycles);
        var k :| 0 <= k < |cycles| && Within(log, at, i, cycles[k]);
        assert Within(log + more, at + moreAt, i, all[k]);
      } else {
        assert more[i - |log|].Put? && begin <= more[i - |log|].now && moreAt[i - |log|] <= end;
        assert Within(log + more, at + moreAt, i, all[n]);
      }
    }
    forall k | 0 <= k < |all|
      ensures AllWritten(cfg, envs(k), |cfg.records|, log + more, at + moreAt, all[k])
    {
      if k < n {
        WrittenMore(cfg, envs(k), log, at, more, moreAt, cycles[k], all[k], true);
      } else {
        WrittenMore(cfg, envs(k), log, at, more, moreAt, Cycle(begin, end), all[k], false);
      }
    }
  }

  /** What was written stays written when the log grows behind it (early) or before it. */
  lemma WrittenMore(cfg: ClientConfig, env: Env, log: seq<Op>, at: seq<Time>, more: seq<Op>, moreAt: seq<Time>,
                    cycle: Cycle, wider: Cycle, early: bool)
    requires |log| == |at| && |more| == |moreAt|
    requires wider.start <= cycle.start && cycle.end <= wider.end
    requires if early then AllWritten(cfg, env, |cfg.records|, log, at, cycle)
             else AllWritten(cfg, env, |cfg.records|, more, moreAt, cycle)
    ensures AllWritten(cfg, env, |cfg.records|, log + more, at + moreAt, wider)
  {
    hide Message;
    forall r | 0 <= r < |cfg.records| && Succeeds(cfg, cfg.records[r], r, env)
      ensures WroteIn(log + more, at + moreAt, RecordKey(cfg, r, env), wider)
    {
      WroteInMore(log, at, more, moreAt, RecordKey(cfg, r, env), cycle, wider);
    }
  }

  /** What all batches together leave on the server, in order. */
  ghost function LogOfAll(batches: seq<seq<Update>>): seq<Op> {
    if batches == [] then [] else LogOfAll(batches[..|batches| - 1]) + LogOf(batches[|batches| - 1])
  }

  ghost function AtOfAll(batches: seq<seq<Update>>): seq<Time> {
    if batches == [] then [] else AtOfAll(batches[..|batches| - 1]) + AtOf(batches[|batches| - 1])
  }

  /** Every cycle is one batch of all records, begun when the program has woken up after its tick, which is the next one
      after the end of the cycle before. */
  ghost predicate AreBatches(cfg: ClientConfig, envs: nat -> Env, lags: nat -> nat, nextTick: Time -> Time,
                             cycles: seq<Cycle>, batches: seq<seq<Update>>)
  {
    && |batches| == |cycles|
    && forall k | 0 <= k < |cycles| ::
         && IsBatch(cfg, envs(k), cycles[k].start + lags(k), cycles[k].end, batches[k])
         && |batches[k]| == |cfg.records|
         && (k > 0 ==> cycles[k].start == nextTick(cycles[k - 1].end))
  }

  lemma NoBatches(cfg: ClientConfig, envs: nat -> Env, lags: nat -> nat, nextTick: Time -> Time)
    ensures AreBatches(cfg, envs, lags, nextTick, [], []) && LogOfAll([]) == [] && AtOfAll([]) == []
  {
  }

  lemma AnotherBatch(cfg: ClientConfig, envs: nat -> Env, lags: nat -> nat, nextTick: Time -> Time,
                     cycles: seq<Cycle>, batches: seq<seq<Update>>, cycle: Cycle, updates: seq<Update>)
    requires AreBatches(cfg, envs, lags, nextTick, cycles, batches)
    requires IsBatch(cfg, envs(|cycles|), cycle.start + lags(|cycles|), cycle.end, updates) && |updates| == |cfg.records|
    requires cycles != [] ==> cycle.start == nextTick(cycles[|cycles| - 1].end)
    ensures AreBatches(cfg, envs, lags, nextTick, cycles + [cycle], batches + [updates])
    ensures LogOfAll(batches + [updates]) == LogOfAll(batches) + LogOf(updates)
    ensures AtOfAll(batches + [updates]) == AtOfAll(batches) + AtOf(updates)
  {
    hide IsBatch, LogOf, AtOf;
    assert (batches + [updates])[..|batches|] == batches;
  }

  /** `update_in_loop` until shutdown: update all records, whatever comes of it, then sleep until the next tick of the
      schedule. */
  method UpdateInLoop(cfg: ClientConfig, envs: nat -> Env, lags: nat -> nat, nextTick: Time -> Time, rounds: nat,
                      start: Time, ghost t: nat, ghost lag: nat, ghost period: nat, repo: RecordRepository)
      returns (end: Time, ghost cycles: seq<Cycle>, ghost batches: seq<seq<Update>>,
               ghost log: seq<Op>, ghost at: seq<Time>)
    requires repo.Valid() && TicksWithin(nextTick, period)
    requires forall k :: envs(k).Valid(t) && lags(k) <= lag
    modifies repo
    ensures repo.Valid() && repo.table == ApplyAll(old(repo.table), log)
    ensures |cycles| == rounds && (rounds > 0 ==> cycles[0].start == start && cycles[rounds - 1].end == end)
    ensures AreBatches(cfg, envs, lags, nextTick, cycles, batches)
    ensures log == LogOfAll(batches) && at == AtOfAll(batches)
    ensures LoopTrace(cfg, envs, nextTick, CycleTime(cfg, lag, t), cycles, log, at)
    ensures TimedBetween(log, at, start, end)
  {
    hide ApplyAll, TimedBetween, AllWritten, LoopTrace, RecordTime, TicksWithin, Succeeds;
    hide IsBatch, LogOf, AtOf, LogOfAll, AtOfAll, AreBatches;
    NoBatches(cfg, envs, lags, nextTick);
    NothingLogged(repo.table, start, Key("", ""), "", TTL);
    NothingTraced(cfg, envs, nextTick, CycleTime(cfg, lag, t));
    end, cycles, batches, log, at := start, [], [], [], [];
    var tick := start;
    ghost var table := repo.table;
    for k := 0 to rounds
      invariant repo.Valid() && repo.table == ApplyAll(table, log)
      invariant |cycles| == k && start <= end <= tick
      invariant AreBatches(cfg, envs, lags, nextTick, cycles, batches)
      invariant log == LogOfAll(batches) && at == AtOfAll(batches)
      invariant k > 0 ==> cycles[0].start == start && cycles[k - 1].end == end
      invariant tick == if k == 0 then start else nextTick(end)
      invariant LoopTrace(cfg, envs, nextTick, CycleTime(cfg, lag, t), cycles, log, at)
      invariant TimedBetween(log, at, start, end)
    {
      var begin := tick + lags(k);
      var result, ended;
      ghost var updates, more, moreAt;
      result, ended, updates, more, moreAt := UpdateRecords(cfg, envs(k), begin, t, repo);
      ApplyAllConcat(table, log, more);
      LoopTraceStep(cfg, envs, nextTick, CycleTime(cfg, lag, t), cycles, log, at, tick, begin, ended, more, moreAt);
      TimedLater(log, at, start, end, begin);
      TimedConcat(log, at, start, begin, more, moreAt, ended);
      AnotherBatch(cfg, envs, lags, nextTick, cycles, batches, Cycle(tick, ended), updates);
      cycles, batches := cycles + [Cycle(tick, ended)], batches + [updates];
      log, at, end := log + more, at + moreAt, ended;
      TickIsLater(nextTick, period, end);
      tick := nextTick(end);
    }
  }

  lemma TickIsLater(nextTick: Time -> Time, period: nat, now: Time)
    requires TicksWithin(nextTick, period)
    ensures now < nextTick(now)
  {
  }

  lemma NothingTraced(cfg: ClientConfig, envs: nat -> Env, nextTick: Time -> Time, c: nat)
    ensures LoopTrace(cfg, envs, nextTick, c, [], [], [])
  {
  }

  /** In every cycle, some configured record succeeds in writing key. */
  ghost predicate AlwaysSucceeds(cfg: ClientConfig, envs: nat -> Env, rounds: nat, key: Key) {
    forall k | 0 <= k < rounds :: exists r: nat ::
      r < |cfg.records| && Succeeds(cfg, cfg.records[r], r, envs(k)) && RecordKey(cfg, r, envs(k)) == key
  }

  lemma KeyWritten(cfg: ClientConfig, envs: nat -> Env, nextTick: Time -> Time, c: nat,
                   cycles: seq<Cycle>, log: seq<Op>, at: seq<Time>, key: Key, k: nat)
    requires LoopTrace(cfg, envs, nextTick, c, cycles, log, at) && AlwaysSucceeds(cfg, envs, |cycles|, key)
    requires k < |cycles|
    ensures WroteIn(log, at, key, cycles[k])
  {
  }

  /** The first n entries of the log are those executed until now. */
  ghost predicate Until(at: seq<Time>, n: nat, now: Time) {
    n <= |at| && (forall i | 0 <= i < n :: at[i] <= now) && (forall i | n <= i < |at| :: now < at[i])
  }

  lemma WrittenUntil(log: seq<Op>, at: seq<Time>, n: nat, now: Time, key: Key, cycle: Cycle)
    requires |log| == |at| && Until(at, n, now) && cycle.end <= now && WroteIn(log, at, key, cycle)
    ensures WroteIn(log[..n], at[..n], key, cycle)
  {
  }

  lemma ExecutedUntil(log: seq<Op>, at: seq<Time>, n: nat, now: Time, cycles: seq<Cycle>)
    requires |log| == |at| && Until(at, n, now) && forall i | 0 <= i < |log| :: InSomeCycle(log, at, i, cycles)
    ensures forall i | 0 <= i < n :: InSomeCycle(log[..n], at[..n], i, cycles)
  {
    forall i | 0 <= i < n
      ensures InSomeCycle(log[..n], at[..n], i, cycles)
    {
      assert InSomeCycle(log, at, i, cycles);
      var k :| 0 <= k < |cycles| && Within(log, at, i, cycles[k]);
      assert Within(log[..n], at[..n], i, cycles[k]);
    }
  }

  lemma UndisturbedUntil(log: seq<Op>, at: seq<Time>, n: nat, now: Time, key: Key, cycles: seq<Cycle>)
    requires |log| == |at| && Until(at, n, now) && forall i | 0 <= i < |log| :: InSomeCycle(log, at, i, cycles)
    ensures Undisturbed(log[..n], at[..n], key, cycles, 0)
  {
    ExecutedUntil(log, at, n, now, cycles);
    forall i | 0 <= i < n
      ensures log[..n][i].Put?
    {
      assert InSomeCycle(log[..n], at[..n], i, cycles);
    }
  }

  /** Freshness of the loop itself: while every cycle's update of key succeeds, then at every moment from the end of the
      first cycle on, up to the time the cycle after the last is due, the table that the statements executed so far
      leave has the row, at most a period and two cycles old. */
  lemma LoopKeepsFresh(cfg: ClientConfig, envs: nat -> Env, nextTick: Time -> Time, period: nat, c: nat,
                       cycles: seq<Cycle>, log: seq<Op>, at: seq<Time>, lo: Time, hi: Time, key: Key, now: Time, n: nat)
    requires LoopTrace(cfg, envs, nextTick, c, cycles, log, at) && TimedBetween(log, at, lo, hi)
    requires TicksWithin(nextTick, period) && cycles != [] && AlwaysSucceeds(cfg, envs, |cycles|, key)
    requires cycles[0].end <= now <= nextTick(cycles[|cycles| - 1].end) + c && Until(at, n, now)
    ensures key in After(log[..n]) && now - After(log[..n])[key].updatedAt <= period + 2 * c
  {
    hide AlwaysSucceeds, WroteIn, After, InSomeCycle, Schedule, AllWritten, Undisturbed;
    forall k | 0 <= k < |cycles| && cycles[k].end <= now
      ensures WroteIn(log[..n], at[..n], key, cycles[k])
    {
      KeyWritten(cfg, envs, nextTick, c, cycles, log, at, key, k);
      WrittenUntil(log, at, n, now, key, cycles[k]);
    }
    UndisturbedUntil(log, at, n, now, key, cycles);
    FreshnessBound(log[..n], at[..n], now, key, cycles, nextTick, period, c, 0);
  }

  /** The statements of part are in the log of the server, in order and at their times, at the positions pos. */
  ghost predicate Among(part: seq<Op>, partAt: seq<Time>, log: seq<Op>, at: seq<Time>, pos: seq<nat>) {
    && |pos| == |part| == |partAt| && |log| == |at|
    && (forall i, j | 0 <= i < j < |pos| :: pos[i] < pos[j])
    && forall i | 0 <= i < |pos| :: pos[i] < |log| && log[pos[i]] == part[i] && at[pos[i]] == partAt[i]
  }

  /** The log's other statements on key are upserts, each executed within d of capturing its time. */
  ghost predicate OthersPrompt(log: seq<Op>, at: seq<Time>, key: Key, pos: seq<nat>, d: nat)
    requires |log| == |at|
  {
    forall i | 0 <= i < |log| && log[i].key == key && i !in pos :: log[i].Put? && at[i] - log[i].now <= d
  }

  lemma WrittenAmong(part: seq<Op>, partAt: seq<Time>, log: seq<Op>, at: seq<Time>, pos: seq<nat>, key: Key, cycle: Cycle)
    requires Among(part, partAt, log, at, pos) && WroteIn(part, partAt, key, cycle)
    ensures WroteIn(log, at, key, cycle)
  {
    var i: nat :| i < |part| && part[i].key == key && Within(part, partAt, i, cycle);
    assert log[pos[i]] == part[i] && Within(log, at, pos[i], cycle);
  }

  lemma UndisturbedAmong(part: seq<Op>, partAt: seq<Time>, log: seq<Op>, at: seq<Time>, pos: seq<nat>, key: Key,
                         cycles: seq<Cycle>, d: nat)
    requires Among(part, partAt, log, at, pos) && OthersPrompt(log, at, key, pos, d)
    requires forall i | 0 <= i < |part| :: InSomeCycle(part, partAt, i, cycles)
    ensures Undisturbed(log, at, key, cycles, d)
  {
    forall i | 0 <= i < |log| && log[i].key == key
      ensures log[i].Put? && (at[i] - log[i].now <= d || InSomeCycle(log, at, i, cycles))
    {
      if i in pos {
        var j :| 0 <= j < |pos| && pos[j] == i;
        assert InSomeCycle(part, partAt, j, cycles);
        var k :| 0 <= k < |cycles| && Within(part, partAt, j, cycles[k]);
        assert Within(log, at, i, cycles[k]);
      }
    }
  }

  /** Freshness of the loop in the midst of other RPCs: in every run of the server that contains what the loop has sent
      so far, in which nobody deletes key and all else that writes it does so within d, the run keeps both sides of the
      freshness bargain, and so the bound with d added holds of the server's table. What else writes key may be other
      clients, or a failed attempt of the loop that the server executes after all, out of its time. */
  lemma LoopKeepsFreshAmongOthers(start: Time, es: seq<Event>, cfg: ClientConfig, envs: nat -> Env,
                                  nextTick: Time -> Time, period: nat, c: nat, d: nat, cycles: seq<Cycle>,
                                  log: seq<Op>, at: seq<Time>, key: Key, n: nat, pos: seq<nat>)
    requires Exec(start, es).Some?
    requires LoopTrace(cfg, envs, nextTick, c, cycles, log, at) && TicksWithin(nextTick, period)
    requires cycles != [] && AlwaysSucceeds(cfg, envs, |cycles|, key)
    requires var s := Exec(start, es).value;
             && cycles[0].end <= s.clock <= nextTick(cycles[|cycles| - 1].end) + c
             && Until(at, n, s.clock) && |s.log| == |s.at|
             && Among(log[..n], at[..n], s.log, s.at, pos) && OthersPrompt(s.log, s.at, key, pos, d)
    ensures var s := Exec(start, es).value;
            && Undisturbed(s.log, s.at, key, cycles, d)
            && Refreshed(s.log, s.at, s.clock, key, cycles, nextTick, c)
            && key in s.table && s.clock - s.table[key].updatedAt <= period + 2 * c + d
  {
    hide Exec, AlwaysSucceeds, WroteIn, InSomeCycle, Schedule, AllWritten, Undisturbed, Among, OthersPrompt, Within;
    var s := Exec(start, es).value;
    forall k | 0 <= k < |cycles| && cycles[k].end <= s.clock
      ensures WroteIn(s.log, s.at, key, cycles[k])
    {
      KeyWritten(cfg, envs, nextTick, c, cycles, log, at, key, k);
      WrittenUntil(log, at, n, s.clock, key, cycles[k]);
      WrittenAmong(log[..n], at[..n], s.log, s.at, pos, key, cycles[k]);
    }
    ExecutedUntil(log, at, n, s.clock, cycles);
    UndisturbedAmong(log[..n], at[..n], s.log, s.at, pos, key, cycles, d);
    FreshnessInEveryRun(start, es, key, cycles, nextTick, period, c, d);
  }

  /** On the five-minute schedule a registry that starts empty lists the record as healthy at all those moments, when
      waking up and updating all records, six attempts and twelve seconds of waiting for each, fit in a minute. */
  lemma LoopKeepsHealthy(cfg: ClientConfig, envs: nat -> Env, lag: nat, t: nat,
                         cycles: seq<Cycle>, log: seq<Op>, at: seq<Time>, lo: Time, hi: Time, key: Key, now: Time, n: nat)
    requires CycleTime(cfg, lag, t) <= 60_000_000_000
    requires var nextTick, c := Every(300_000_000_000), CycleTime(cfg, lag, t);
             && LoopTrace(cfg, envs, nextTick, c, cycles, log, at) && TimedBetween(log, at, lo, hi)
             && cycles != [] && AlwaysSucceeds(cfg, envs, |cycles|, key)
             && cycles[0].end <= now <= nextTick(cycles[|cycles| - 1].end) + c
             && Until(at, n, now)
    ensures key in After(log[..n]) && IsHealthy(now, After(log[..n])[key].updatedAt)
  {
    hide Succeeds, Message, After;
    LoopKeepsFresh(cfg, envs, Every(300_000_000_000), 300_000_000_000, CycleTime(cfg, lag, t),
                   cycles, log, at, lo, hi, key, now, n);
  }
}
