// Interleaved RPCs over one table (src/record_repository.rs, src/rpc_server/records.rs).
//
// `upsert` reads the clock, then executes its write, then reads the row back in a second statement. Between any two
// of those moments other calls may run, so an upsert in flight is Captured, then Written, then Replied; the
// statements themselves are whole steps. The clock never goes back.

module RpcMachine {
  import opened Wrappers
  import opened Registry
  import opened Repository

  datatype Rpc =
    | Captured(request: UpsertRequest, now: Time)
    | Written(request: UpsertRequest, now: Time, pos: nat)
    | Replied(request: UpsertRequest, now: Time, pos: nat, until: nat, reply: Option<Entry>)

  datatype Event =
    | Capture(id: nat, request: UpsertRequest)
    | Write(id: nat)
    | ReadBack(id: nat)
    | Delete(key: Key)
    | Find(key: Key)
    | ListAll
    | Tick(d: nat)

  /** The table is the server's state; `log` is the history of the statements that changed it and `at` their times.
      A written RPC remembers the place of its own write in the log, and a replied one also how long the log was at
      its read-back. */
  datatype State = State(clock: Time, table: Table, rpcs: map<nat, Rpc>, log: seq<Op>, at: seq<Time>)

  predicate Enabled(s: State, e: Event) {
    match e
    case Capture(id, _) => id !in s.rpcs
    case Write(id) => id in s.rpcs && s.rpcs[id].Captured?
    case ReadBack(id) => id in s.rpcs && s.rpcs[id].Written?
    case _ => true
  }

  function Execute(s: State, op: Op): State {
    s.(table := Apply(s.table, op), log := s.log + [op], at := s.at + [s.clock])
  }

  function Step(s: State, e: Event): State
    requires Enabled(s, e)
  {
    match e
    case Capture(id, request) => s.(rpcs := s.rpcs[id := Captured(request, s.clock)])
    case Write(id) =>
      var rpc := s.rpcs[id];
      Execute(s, PutOf(rpc.request, rpc.now)).(rpcs := s.rpcs[id := Written(rpc.request, rpc.now, |s.log|)])
    case ReadBack(id) =>
      var rpc := s.rpcs[id];
      var reply := Lookup(s.table, RequestKey(rpc.request));
      s.(rpcs := s.rpcs[id := Replied(rpc.request, rpc.now, rpc.pos, |s.log|, reply)])
    case Delete(key) => Execute(s, Remove(key))
    case Find(_) => s
    case ListAll => s
    case Tick(d) => s.(clock := s.clock + d)
  }

  /** The state after a run from the empty table, or none when the events are not a run. */
  function Exec(start: Time, es: seq<Event>): Option<State> {
    if es == [] then Some(State(start, map[], map[], [], []))
    else
      var s :- Exec(start, es[..|es| - 1]);
      if Enabled(s, es[|es| - 1]) then Some(Step(s, es[|es| - 1])) else None
  }

  // ---- What every reachable state satisfies ----

  ghost predicate RpcOk(rpc: Rpc, clock: Time, log: seq<Op>) {
    match rpc
    case Captured(_, now) => now <= clock
    case Written(request, now, pos) => pos < |log| && log[pos] == PutOf(request, now)
    case Replied(request, now, pos, until, reply) =>
      && pos < until <= |log| && log[pos] == PutOf(request, now)
      && reply == Lookup(After(log[..until]), RequestKey(request))
  }

  ghost predicate Inv(s: State) {
    && s.table == After(s.log)
    && Timed(s.log, s.at, s.clock)
    && forall id | id in s.rpcs :: RpcOk(s.rpcs[id], s.clock, s.log)
  }

  lemma ExecuteKeepsInv(s: State, op: Op)
    requires Inv(s) && (op.Put? ==> op.now <= s.clock)
    ensures Inv(Execute(s, op))
  {
    AfterStep(s.log, op);
    var s' := Execute(s, op);
    forall id | id in s.rpcs
      ensures RpcOk(s.rpcs[id], s.clock, s'.log)
    {
      if s.rpcs[id].Replied? {
        assert s'.log[..s.rpcs[id].until] == s.log[..s.rpcs[id].until];
      }
    }
  }

  lemma StepKeepsInv(s: State, e: Event)
    requires Inv(s) && Enabled(s, e)
    ensures Inv(Step(s, e))
  {
    match e
    case Write(id) =>
      ExecuteKeepsInv(s, PutOf(s.rpcs[id].request, s.rpcs[id].now));
    case ReadBack(id) =>
      assert RpcOk(s.rpcs[id], s.clock, s.log);
      assert s.log[..|s.log|] == s.log;
    case Delete(key) =>
      ExecuteKeepsInv(s, Remove(key));
    case _ =>
  }

  lemma {:induction false} Reachable(start: Time, es: seq<Event>)
    requires Exec(start, es).Some?
    ensures Inv(Exec(start, es).value)
    decreases |es|
  {
    if es != [] {
      Reachable(start, es[..|es| - 1]);
      StepKeepsInv(Exec(start, es[..|es| - 1]).value, es[|es| - 1]);
    }
  }

  /** The time an RPC writes is the time its capture happened at. */
  lemma {:induction false} CaptureTime(start: Time, es: seq<Event>, id: nat) returns (k: nat)
    requires Exec(start, es).Some? && id in Exec(start, es).value.rpcs
    ensures k < |es| && es[k] == Capture(id, Exec(start, es).value.rpcs[id].request)
    ensures Exec(start, es[..k]).Some? && Exec(start, es).value.rpcs[id].now == Exec(start, es[..k]).value.clock
    decreases |es|
  {
    var n := |es| - 1;
    var s := Exec(start, es[..n]).value;
    if es[n].Capture? && es[n].id == id {
      k := n;
    } else {
      k := CaptureTime(start, es[..n], id);
      assert es[..n][..k] == es[..k];
    }
  }

  // ---- Which events did what ----

  /** The run up to event k is a run, and what it has logged stays at its place. */
  lemma {:induction false} RunSoFar(start: Time, es: seq<Event>, k: nat)
    requires Exec(start, es).Some? && k <= |es|
    ensures Exec(start, es[..k]).Some? && Exec(start, es[..k]).value.log <= Exec(start, es).value.log
    ensures Exec(start, es[..k]).value.at <= Exec(start, es).value.at
    ensures forall id | id in Exec(start, es[..k]).value.rpcs :: id in Exec(start, es).value.rpcs
    decreases |es|
  {
    hide ApplyAll, Apply;
    if k == |es| {
      assert es[..k] == es;
    } else {
      RunSoFar(start, es[..|es| - 1], k);
      assert es[..|es| - 1][..k] == es[..k];
    }
  }

  /** What an event writes to the log: an upsert's write what its RPC captured, a delete its removal, at the present. */
  lemma Executed(start: Time, es: seq<Event>, k: nat)
    requires Exec(start, es).Some? && k < |es| && (es[k].Write? || es[k].Delete?)
    ensures Exec(start, es[..k]).Some?
    ensures var before, s := Exec(start, es[..k]).value, Exec(start, es).value;
            var p := |before.log|;
            && p < |s.log| == |s.at| && s.at[p] == before.clock
            && if es[k].Delete? then s.log[p] == Remove(es[k].key)
               else es[k].id in before.rpcs && s.log[p] == PutOf(before.rpcs[es[k].id].request, before.rpcs[es[k].id].now)
  {
    hide ApplyAll, Apply;
    RunSoFar(start, es, k + 1);
    assert es[..k + 1][..k] == es[..k];
    Reachable(start, es);
    Reachable(start, es[..k]);
  }

  /** Every entry of the log was written by some event. */
  lemma {:induction false} Logged(start: Time, es: seq<Event>, p: nat) returns (k: nat)
    requires Exec(start, es).Some? && p < |Exec(start, es).value.log|
    ensures k < |es| && (es[k].Write? || es[k].Delete?)
    ensures Exec(start, es[..k]).Some? && |Exec(start, es[..k]).value.log| == p
    decreases |es|
  {
    hide ApplyAll, Apply;
    var n := |es| - 1;
    k := n;
    if p < |Exec(start, es[..n]).value.log| {
      k := Logged(start, es[..n], p);
      assert es[..n][..k] == es[..k];
    }
  }

  ghost predicate IsWrite(start: Time, es: seq<Event>, w: nat, id: nat, p: nat)
    requires w < |es|
  {
    es[w] == Write(id) && Exec(start, es[..w]).Some? && |Exec(start, es[..w]).value.log| == p
  }

  /** A written RPC's place in the log is that of its write event. */
  lemma {:induction false} WritePlace(start: Time, es: seq<Event>, id: nat) returns (w: nat)
    requires Exec(start, es).Some? && id in Exec(start, es).value.rpcs && !Exec(start, es).value.rpcs[id].Captured?
    ensures w < |es| && IsWrite(start, es, w, id, Exec(start, es).value.rpcs[id].pos)
    decreases |es|
  {
    hide ApplyAll, Apply;
    w := |es| - 1;
    if es[w] != Write(id) {
      w := WritePlace(start, es[..w], id);
      assert es[..|es| - 1][..w] == es[..w];
    }
  }

  /** A replied RPC read back after its write, and answers with what the table held for its key at that event. */
  lemma {:induction false} ReadPlace(start: Time, es: seq<Event>, id: nat) returns (w: nat, k: nat)
    requires Exec(start, es).Some? && id in Exec(start, es).value.rpcs && Exec(start, es).value.rpcs[id].Replied?
    ensures w < k < |es| && es[k] == ReadBack(id)
    ensures var rpc := Exec(start, es).value.rpcs[id];
            && IsWrite(start, es, w, id, rpc.pos)
            && Exec(start, es[..k]).Some? && |Exec(start, es[..k]).value.log| == rpc.until
            && rpc.reply == Lookup(Exec(start, es[..k]).value.table, RequestKey(rpc.request))
    decreases |es|
  {
    hide ApplyAll, Apply;
    k := |es| - 1;
    var front := es[..k];
    if es[k] == ReadBack(id) {
      w := WritePlace(start, front, id);
      assert front[..w] == es[..w];
    } else {
      w, k := ReadPlace(start, front, id);
      assert front[..w] == es[..w] && front[..k] == es[..k];
    }
  }

  // ---- Whose row an upsert answers with ----

  /** No operation on key at positions lo <= j < hi of the log. */
  ghost predicate Quiet(log: seq<Op>, key: Key, lo: nat, hi: nat) {
    forall j | lo <= j < hi && j < |log| :: log[j].key != key
  }

  /** In every interleaving, an upsert answers with the row of the last write on its key before its read-back, which is
      its own write or one that came after it; it finds no row exactly when that last operation is a delete, which then
      came after its write; and with no other operation on its key in between, it answers with its own request. */
  lemma ReplyProvenance(start: Time, es: seq<Event>, id: nat)
    requires Exec(start, es).Some?
    requires id in Exec(start, es).value.rpcs && Exec(start, es).value.rpcs[id].Replied?
    ensures var s := Exec(start, es).value;
            var Replied(request, now, pos, until, reply) := s.rpcs[id];
            var key := RequestKey(request);
            && pos < until <= |s.log| && s.log[pos] == PutOf(request, now)
            && (exists j :: pos <= j < until && s.log[j].key == key && Quiet(s.log, key, j + 1, until)
                  && if s.log[j].Remove? then reply.None? && pos < j
                     else reply.Some? && reply.value.data == s.log[j].data && reply.value.ttl == s.log[j].ttl
                          && reply.value.updatedAt == s.log[j].now)
            && (Quiet(s.log, key, pos + 1, until) ==>
                  reply.Some? && reply.value.data == request.value && reply.value.ttl == request.ttl
                  && reply.value.updatedAt == now)
  {
    Reachable(start, es);
    var s := Exec(start, es).value;
    var Replied(request, now, pos, until, reply) := s.rpcs[id];
    assert RpcOk(s.rpcs[id], s.clock, s.log);
    var key, ops := RequestKey(request), s.log[..until];
    var j := LastOn(ops, key, pos);
    LastDecides(ops, key, j);
    assert ops[j] == s.log[j];
    assert Quiet(s.log, key, j + 1, until);
    assert Quiet(s.log, key, pos + 1, until) ==> j == pos;
  }

  /** The last operation on key, given that there is one at i. */
  lemma {:induction false} LastOn(ops: seq<Op>, key: Key, i: nat) returns (j: nat)
    requires i < |ops| && ops[i].key == key
    ensures i <= j && IsLast(ops, key, j)
    decreases |ops| - i
  {
    if k :| i < k < |ops| && ops[k].key == key {
      j := LastOn(ops, key, k);
    } else {
      j := i;
    }
  }

  lemma LastDecides(ops: seq<Op>, key: Key, j: nat)
    requires IsLast(ops, key, j)
    ensures var e := Lookup(After(ops), key);
            if ops[j].Remove? then e.None?
            else e.Some? && e.value.data == ops[j].data && e.value.ttl == ops[j].ttl && e.value.updatedAt == ops[j].now
  {
    HistoryDescribes(ops, key);
    var e := Lookup(After(ops), key);
    if ops[j].Remove? {
      assert ops[j] == Remove(key);
    }
  }

  /** An upsert can answer with another client's data: here RPC 1 answers with what RPC 2 wrote. */
  lemma ForeignReply(key: Key, mine: string, theirs: string)
    requires mine != theirs
    ensures exists es, s ::
              && Exec(0, es) == Some(s) && 1 in s.rpcs && s.rpcs[1].Replied?
              && s.rpcs[1].request == UpsertRequest(key.name, key.rtype, mine, 30)
              && s.rpcs[1].reply.Some? && s.rpcs[1].reply.value.data == theirs
  {
    var a, b := UpsertRequest(key.name, key.rtype, mine, 30), UpsertRequest(key.name, key.rtype, theirs, 30);
    var s0 := State(0, map[], map[], [], []);
    assert Exec(0, []) == Some(s0);
    hide Exec;
    var es1, s1 := Extend(0, [], s0, Capture(1, a));
    var es2, s2 := Extend(0, es1, s1, Capture(2, b));
    var es3, s3 := Extend(0, es2, s2, Write(1));
    var es4, s4 := Extend(0, es3, s3, Write(2));
    var es5, s5 := Extend(0, es4, s4, ReadBack(1));
    assert Exec(0, es5) == Some(s5);
  }

  /** An upsert can find no row at its read-back, which its handler's unwrap turns into a panic: here its key is deleted
      before it. */
  lemma EmptyReply(request: UpsertRequest)
    ensures exists es, s ::
              && Exec(0, es) == Some(s) && 1 in s.rpcs && s.rpcs[1].Replied?
              && s.rpcs[1].request == request && s.rpcs[1].reply.None?
  {
    var s0 := State(0, map[], map[], [], []);
    assert Exec(0, []) == Some(s0);
    hide Exec;
    var es1, s1 := Extend(0, [], s0, Capture(1, request));
    var es2, s2 := Extend(0, es1, s1, Write(1));
    var es3, s3 := Extend(0, es2, s2, Delete(RequestKey(request)));
    var es4, s4 := Extend(0, es3, s3, ReadBack(1));
    assert Exec(0, es4) == Some(s4);
  }

  lemma Extend(start: Time, es: seq<Event>, s: State, e: Event) returns (es': seq<Event>, s': State)
    requires Exec(start, es) == Some(s) && Enabled(s, e)
    ensures es' == es + [e] && s' == Step(s, e) && Exec(start, es') == Some(s')
  {
    es', s' := es + [e], Step(s, e);
    assert es'[..|es|] == es;
  }

  // ---- Timestamps ----

  /** Every write of key ran at most d after its time was captured. */
  ghost predicate Prompt(log: seq<Op>, at: seq<Time>, key: Key, d: nat)
    requires |at| == |log|
  {
    forall i | 0 <= i < |log| && log[i].Put? && log[i].key == key :: at[i] - log[i].now <= d
  }

  /** When every write of a key runs at most d after its capture, however late others are, its captured times are less
      than those of any write before them by at most d, and so its row is not older at its update than at its creation
      by more than d. */
  lemma SkewBound(start: Time, es: seq<Event>, key: Key, d: nat)
    requires Exec(start, es).Some? && |Exec(start, es).value.at| == |Exec(start, es).value.log|
    requires Prompt(Exec(start, es).value.log, Exec(start, es).value.at, key, d)
    ensures var s := Exec(start, es).value;
            && (forall i, j | 0 <= i <= j < |s.log| && s.log[i].Put? && s.log[j].Put? && s.log[j].key == key ::
                  s.log[j].now >= s.log[i].now - d)
            && (key in s.table ==> s.table[key].updatedAt >= s.table[key].createdAt - d)
  {
    Reachable(start, es);
    var s := Exec(start, es).value;
    forall i, j | 0 <= i <= j < |s.log| && s.log[i].Put? && s.log[j].Put? && s.log[j].key == key
      ensures s.log[j].now >= s.log[i].now - d
    {
      assert s.at[i] <= s.at[j];
    }
    HistoryDescribes(s.log, key);
  }

  /** The bound is reached: for every d there is a prompt run whose row was updated d before it was created. */
  lemma SkewBoundIsTight(key: Key, d: nat)
    ensures exists es, s ::
              && Exec(0, es) == Some(s) && |s.at| == |s.log| && Prompt(s.log, s.at, key, d)
              && key in s.table && s.table[key].updatedAt == s.table[key].createdAt - d
  {
    var r := UpsertRequest(key.name, key.rtype, "", 30);
    var s0 := State(0, map[], map[], [], []);
    assert Exec(0, []) == Some(s0);
    hide Exec;
    var es1, s1 := Extend(0, [], s0, Capture(1, r));
    var es2, s2 := Extend(0, es1, s1, Tick(d));
    var es3, s3 := Extend(0, es2, s2, Capture(2, r));
    var es4, s4 := Extend(0, es3, s3, Write(2));
    var es5, s5 := Extend(0, es4, s4, Write(1));
    assert s4.table == map[key := Entry("", 30, d, d)];
    assert s5.table[key] == Entry("", 30, d, 0);
    assert s5.log == [PutOf(r, d), PutOf(r, 0)] && s5.at == [d, d];
    assert Exec(0, es5) == Some(s5);
  }

  function ClockAt(start: Time, es: seq<Event>, k: nat): Time
    requires k <= |es| && Exec(start, es[..k]).Some?
  {
    Exec(start, es[..k]).value.clock
  }

  /** From its capture at event c to its write, an RPC is captured, with the time of event c. So there is one capture
      for a write. */
  lemma {:induction false} StillCaptured(start: Time, es: seq<Event>, id: nat, c: nat, k: nat)
    requires Exec(start, es).Some? && c < k <= |es| && es[c].Capture? && es[c].id == id
    requires id in Exec(start, es).value.rpcs && Exec(start, es).value.rpcs[id].Captured?
    ensures Exec(start, es[..c]).Some? && Exec(start, es[..k]).Some?
    ensures var rpcs := Exec(start, es[..k]).value.rpcs;
            id in rpcs && rpcs[id] == Captured(es[c].request, ClockAt(start, es, c))
    decreases |es|
  {
    hide ApplyAll, Apply;
    var n := |es| - 1;
    var front := es[..n];
    assert front[..c] == es[..c];
    if c < n {
      RunSoFar(start, front, c + 1);
      assert front[..c + 1] == es[..c + 1] && es[..c + 1][..c] == es[..c];
      StillCaptured(start, front, id, c, if k <= n then k else n);
      assert front[..n] == front;
      assert k <= n ==> front[..k] == es[..k];
    }
    assert k > n ==> es[..k] == es;
  }

  /** Entry p of the log was written by the RPC whose time was captured at event c. */
  ghost predicate WrittenBy(start: Time, es: seq<Event>, p: nat, c: nat) {
    && c < |es| && es[c].Capture?
    && exists w | c < w < |es| :: IsWrite(start, es, w, es[c].id, p)
  }

  /** Every upsert in the log was written by some RPC. */
  lemma {:induction false} Writer(start: Time, es: seq<Event>, p: nat) returns (c: nat)
    requires Exec(start, es).Some? && p < |Exec(start, es).value.log| && Exec(start, es).value.log[p].Put?
    ensures WrittenBy(start, es, p, c)
    decreases |es|
  {
    hide ApplyAll, Apply;
    var n := |es| - 1;
    var front, s := es[..n], Exec(start, es[..n]).value;
    if p < |s.log| {
      c := Writer(start, front, p);
      var w :| c < w < n && IsWrite(start, front, w, front[c].id, p);
      assert front[..w] == es[..w];
      assert IsWrite(start, es, w, es[c].id, p);
    } else {
      var id := es[n].id;
      c := CaptureTime(start, front, id);
      assert IsWrite(start, es, n, id, p);
    }
  }

  /** What the writer of an entry wrote: its request, with the clock at its capture. */
  lemma WriterWrote(start: Time, es: seq<Event>, p: nat, c: nat)
    requires Exec(start, es).Some? && WrittenBy(start, es, p, c)
    ensures Exec(start, es[..c]).Some? && p < |Exec(start, es).value.log|
    ensures Exec(start, es).value.log[p] == PutOf(es[c].request, ClockAt(start, es, c))
  {
    hide ApplyAll, Apply;
    var w :| c < w < |es| && IsWrite(start, es, w, es[c].id, p);
    RunSoFar(start, es, w + 1);
    var before := es[..w];
    assert es[..w + 1][..w] == before && before[..c] == es[..c] && before[..w] == before;
    StillCaptured(start, before, es[c].id, c, w);
  }

  /** The clock moves between events a and b. */
  ghost predicate TimePasses(es: seq<Event>, a: nat, b: nat) {
    exists t | a <= t < b && t < |es| :: es[t].Tick? && es[t].d > 0
  }

  lemma ClockStep(start: Time, es: seq<Event>, k: nat)
    requires Exec(start, es).Some? && k < |es|
    ensures Exec(start, es[..k]).Some? && Exec(start, es[..k + 1]).Some?
    ensures ClockAt(start, es, k + 1) == ClockAt(start, es, k) + if es[k].Tick? then es[k].d else 0
  {
    hide ApplyAll, Apply;
    RunSoFar(start, es, k + 1);
    assert es[..k + 1][..k] == es[..k];
  }

  lemma {:induction false} ClockMoves(start: Time, es: seq<Event>, a: nat, b: nat)
    requires Exec(start, es).Some? && a <= |es| && b <= |es|
    ensures Exec(start, es[..a]).Some? && Exec(start, es[..b]).Some?
    ensures ClockAt(start, es, a) < ClockAt(start, es, b) <==> TimePasses(es, a, b)
    ensures a <= b ==> ClockAt(start, es, a) <= ClockAt(start, es, b)
    decreases a + b, b < a
  {
    hide Exec;
    if a < b {
      ClockMoves(start, es, a, b - 1);
      ClockStep(start, es, b - 1);
    } else if b < a {
      ClockMoves(start, es, b, a);
    } else {
      RunSoFar(start, es, a);
    }
  }

  /** Captured times go back between two entries of the log exactly when the later entry's upsert had captured its time
      first and time passed until the earlier entry's upsert captured its own: it was overtaken. */
  lemma OvertakenExactly(start: Time, es: seq<Event>, i: nat, j: nat, ci: nat, cj: nat)
    requires Exec(start, es).Some? && WrittenBy(start, es, i, ci) && WrittenBy(start, es, j, cj)
    ensures var log := Exec(start, es).value.log;
            && i < |log| && log[i].Put? && log[i].key == RequestKey(es[ci].request)
            && j < |log| && log[j].Put? && log[j].key == RequestKey(es[cj].request)
            && (log[j].now < log[i].now <==> TimePasses(es, cj, ci))
  {
    WriterWrote(start, es, i, ci);
    WriterWrote(start, es, j, cj);
    ClockMoves(start, es, cj, ci);
  }

  /** Entries f and l of the log are the upserts that made the row of key: the first since its last delete, captured at
      event cf, and the last of all, captured at event cl. */
  ghost predicate Made(start: Time, es: seq<Event>, log: seq<Op>, key: Key, f: nat, l: nat, cf: nat, cl: nat) {
    IsFirst(log, key, f) && IsLast(log, key, l) && WrittenBy(start, es, f, cf) && WrittenBy(start, es, l, cl)
  }

  /** The writers of a row decide which of its times is the earlier one. */
  lemma MakersDecide(start: Time, es: seq<Event>, key: Key, f: nat, l: nat, cf: nat, cl: nat)
    requires Exec(start, es).Some? && key in Exec(start, es).value.table
    requires Made(start, es, Exec(start, es).value.log, key, f, l, cf, cl)
    ensures var e := Exec(start, es).value.table[key];
            e.updatedAt < e.createdAt <==> TimePasses(es, cl, cf)
  {
    hide Exec, WrittenBy, TimePasses;
    Reachable(start, es);
    var s := Exec(start, es).value;
    HistoryDescribes(s.log, key);
    var g: nat, m: nat :| IsFirst(s.log, key, g) && IsLast(s.log, key, m) && g <= m && s.log[m].Put?
                && s.table[key] == EntryFrom(s.log, g, m);
    FirstUnique(s.log, key, f, g);
    OvertakenExactly(start, es, f, l, cf, cl);
  }

  lemma Makers(start: Time, es: seq<Event>, key: Key) returns (f: nat, l: nat, cf: nat, cl: nat)
    requires Exec(start, es).Some? && key in Exec(start, es).value.table
    ensures Made(start, es, Exec(start, es).value.log, key, f, l, cf, cl)
  {
    hide Exec, WrittenBy;
    Reachable(start, es);
    var s := Exec(start, es).value;
    HistoryDescribes(s.log, key);
    f, l :| IsFirst(s.log, key, f) && IsLast(s.log, key, l) && f <= l && s.log[l].Put?;
    cf := Writer(start, es, f);
    cl := Writer(start, es, l);
  }

  /** Was the row's last writer overtaken by its creator: captured first, with time passing before the creator was? */
  ghost predicate CreatorOvertook(start: Time, es: seq<Event>, log: seq<Op>, key: Key) {
    exists f, l, cf, cl :: Made(start, es, log, key, f, l, cf, cl) && TimePasses(es, cl, cf)
  }

  /** In every run, a row says that it was updated before it was created exactly when the upsert that wrote it last had
      captured its time before the upsert that created it did, with time passing in between. */
  lemma UpdatedBeforeCreatedExactly(start: Time, es: seq<Event>, key: Key)
    requires Exec(start, es).Some? && key in Exec(start, es).value.table
    ensures var s := Exec(start, es).value;
            s.table[key].updatedAt < s.table[key].createdAt <==> CreatorOvertook(start, es, s.log, key)
  {
    hide Exec, Made, TimePasses;
    var s := Exec(start, es).value;
    var f, l, cf, cl := Makers(start, es, key);
    MakersDecide(start, es, key, f, l, cf, cl);
    if CreatorOvertook(start, es, s.log, key) {
      var f', l', cf', cl' :| Made(start, es, s.log, key, f', l', cf', cl') && TimePasses(es, cl', cf');
      MakersDecide(start, es, key, f', l', cf', cl');
    }
  }

  /** No upsert starts while another of the same key has captured its time and not yet written. */
  ghost predicate Serial(start: Time, es: seq<Event>) {
    forall k | 0 <= k < |es| && es[k].Capture? && Exec(start, es[..k]).Some? ::
      NonePending(Exec(start, es[..k]).value, RequestKey(es[k].request))
  }

  ghost predicate NonePending(s: State, key: Key) {
    forall id | id in s.rpcs && s.rpcs[id].Captured? :: RequestKey(s.rpcs[id].request) != key
  }

  /** An upsert that is overtaken by one of the same key was in flight when that one started. */
  lemma OvertakenOverlap(start: Time, es: seq<Event>, i: nat, j: nat, ci: nat, cj: nat)
    requires Exec(start, es).Some? && i < j && cj < ci
    requires WrittenBy(start, es, i, ci) && WrittenBy(start, es, j, cj)
    requires RequestKey(es[ci].request) == RequestKey(es[cj].request)
    ensures !Serial(start, es)
  {
    hide Exec;
    var wi :| ci < wi < |es| && IsWrite(start, es, wi, es[ci].id, i);
    var wj :| cj < wj < |es| && IsWrite(start, es, wj, es[cj].id, j);
    WritesInOrder(start, es, wi, wj);
    assert es[..wj][..ci] == es[..ci];
    InFlight(start, es, cj, ci, wj);
    assert !NonePending(Exec(start, es[..ci]).value, RequestKey(es[ci].request));
  }

  lemma WritesInOrder(start: Time, es: seq<Event>, wi: nat, wj: nat)
    requires Exec(start, es).Some? && wi < |es| && wj < |es|
    requires Exec(start, es[..wi]).Some? && Exec(start, es[..wj]).Some?
    requires |Exec(start, es[..wi]).value.log| < |Exec(start, es[..wj]).value.log|
    ensures wi < wj
  {
    hide Exec;
    if wj <= wi {
      assert es[..wi][..wj] == es[..wj];
      RunSoFar(start, es[..wi], wj);
    }
  }

  /** An RPC captured at event c and written at event w is captured in between. */
  lemma InFlight(start: Time, es: seq<Event>, c: nat, k: nat, w: nat)
    requires Exec(start, es).Some? && c < k <= w < |es| && es[c].Capture? && es[w] == Write(es[c].id)
    ensures Exec(start, es[..k]).Some?
    ensures var rpcs := Exec(start, es[..k]).value.rpcs;
            es[c].id in rpcs && rpcs[es[c].id].Captured? && rpcs[es[c].id].request == es[c].request
  {
    hide ApplyAll, Apply;
    RunSoFar(start, es, w + 1);
    var before := es[..w];
    assert es[..w + 1][..w] == before && before[..c] == es[..c] && before[..k] == es[..k];
    assert Enabled(Exec(start, before).value, es[w]);
    StillCaptured(start, before, es[c].id, c, k);
  }

  /** When upserts of one key never overlap, a key's captured times never go back, and no row says that it was updated
      before it was created. */
  lemma SerialTimestamps(start: Time, es: seq<Event>)
    requires Exec(start, es).Some? && Serial(start, es)
    ensures var s := Exec(start, es).value;
            && (forall i, j | 0 <= i <= j < |s.log| && s.log[i].Put? && s.log[j].Put? && s.log[i].key == s.log[j].key ::
                  s.log[i].now <= s.log[j].now)
            && forall key | key in s.table :: s.table[key].createdAt <= s.table[key].updatedAt
  {
    hide Exec, WrittenBy, Serial;
    Reachable(start, es);
    var s := Exec(start, es).value;
    forall i, j | 0 <= i < j < |s.log| && s.log[i].Put? && s.log[j].Put? && s.log[i].key == s.log[j].key
      ensures s.log[i].now <= s.log[j].now
    {
      var ci := Writer(start, es, i);
      var cj := Writer(start, es, j);
      OvertakenExactly(start, es, i, j, ci, cj);
      if TimePasses(es, cj, ci) {
        OvertakenOverlap(start, es, i, j, ci, cj);
      }
    }
    forall key | key in s.table
      ensures s.table[key].createdAt <= s.table[key].updatedAt
    {
      HistoryDescribes(s.log, key);
    }
  }
}
