// The `list` RPC: a task takes a snapshot of the table and pushes it, record by record, through a channel that holds
// at most four, while the client reads and other RPCs change the table (src/rpc_server/records.rs).

module ListStream {
  import opened Wrappers
  import opened Registry
  import opened Repository

  const CAPACITY: nat := 4

  /** One turn of the schedule: the task tries to send, the client tries to receive, the client goes away, or another
      RPC changes the table. */
  datatype Turn = Produce | Consume | Drop | Other(op: Op)

  /** `panicked` tells that the task found the receiver gone and ended at its unwrap. */
  datatype Stream<T> = Stream(unsent: seq<T>, buffer: seq<T>, received: seq<T>, open: bool, panicked: bool)

  function Start<T>(records: seq<T>): Stream<T> {
    Stream(records, [], [], true, false)
  }

  /** What one turn does; a send waits while the channel is full and a receive waits while it is empty. */
  function Step<T>(s: Stream<T>, turn: Turn): Stream<T> {
    match turn
    case Produce =>
      if s.unsent == [] || s.panicked then s
      else if !s.open then s.(panicked := true)
      else if |s.buffer| < CAPACITY then s.(unsent := s.unsent[1..], buffer := s.buffer + [s.unsent[0]])
      else s
    case Consume =>
      if s.open && s.buffer != [] then s.(buffer := s.buffer[1..], received := s.received + [s.buffer[0]]) else s
    case Drop => s.(open := false, buffer := [])
    case Other(_) => s
  }

  function Run<T>(s: Stream<T>, turns: seq<Turn>): Stream<T> {
    if turns == [] then s else Step(Run(s, turns[..|turns| - 1]), turns[|turns| - 1])
  }

  function OpsOf(turns: seq<Turn>): seq<Op> {
    if turns == [] then []
    else
      var front, turn := OpsOf(turns[..|turns| - 1]), turns[|turns| - 1];
      if turn.Other? then front + [turn.op] else front
  }

  /** The operations are those of the turns at the positions pos, in order, which are all the other RPCs' turns. */
  ghost predicate AreOpsOf(turns: seq<Turn>, ops: seq<Op>, pos: seq<nat>) {
    && |pos| == |ops|
    && (forall i, j | 0 <= i < j < |pos| :: pos[i] < pos[j])
    && (forall i | 0 <= i < |pos| :: pos[i] < |turns| && turns[pos[i]] == Other(ops[i]))
    && forall j | 0 <= j < |turns| && turns[j].Other? :: j in pos
  }

  lemma {:induction false} OpsOfTurns(turns: seq<Turn>) returns (pos: seq<nat>)
    ensures AreOpsOf(turns, OpsOf(turns), pos)
    decreases |turns|
  {
    pos := [];
    if turns != [] {
      var n := |turns| - 1;
      pos := OpsOfTurns(turns[..n]);
      OneMoreTurn(turns[..n], OpsOf(turns[..n]), pos, turns[n]);
      assert turns == turns[..n] + [turns[n]];
      if turns[n].Other? {
        pos := pos + [n];
      }
    }
  }

  lemma OneMoreTurn(turns: seq<Turn>, ops: seq<Op>, pos: seq<nat>, turn: Turn)
    requires AreOpsOf(turns, ops, pos)
    ensures turn.Other? ==> AreOpsOf(turns + [turn], ops + [turn.op], pos + [|turns|])
    ensures !turn.Other? ==> AreOpsOf(turns + [turn], ops, pos)
  {
    var all := turns + [turn];
    assert all[|turns|] == turn;
    forall j | 0 <= j < |turns| && all[j].Other?
      ensures j in pos
    {
      assert all[j] == turns[j];
    }
  }

  // ---- Safety ----

  ghost predicate Inv<T>(records: seq<T>, s: Stream<T>) {
    && |s.buffer| <= CAPACITY
    && s.received <= records
    && (s.open ==> s.received + s.buffer + s.unsent == records && !s.panicked)
    && (!s.open ==> s.buffer == [])
  }

  lemma StepKeepsInv<T>(records: seq<T>, s: Stream<T>, turn: Turn)
    requires Inv(records, s)
    ensures Inv(records, Step(s, turn))
  {
  }

  /** In every schedule: until the client goes away, what it received, what is buffered and what is unsent make up the
      snapshot in order; the buffer never holds more than four; the task only panics after the client has gone; and
      what the client has received is always a prefix of the snapshot, all of it once nothing is left to pass on. */
  lemma {:induction false} StreamSafety<T>(records: seq<T>, turns: seq<Turn>)
    ensures var s := Run(Start(records), turns);
            && Inv(records, s) && |s.buffer| <= 4
            && (s.open && s.buffer == [] && s.unsent == [] ==> s.received == records)
    decreases |turns|
  {
    if turns != [] {
      StreamSafety(records, turns[..|turns| - 1]);
      StepKeepsInv(records, Run(Start(records), turns[..|turns| - 1]), turns[|turns| - 1]);
    }
  }

  lemma {:induction false} RunConcat<T>(s: Stream<T>, a: seq<Turn>, b: seq<Turn>)
    ensures Run(s, a + b) == Run(Run(s, a), b)
    decreases |b|
  {
    if b == [] {
      assert a + b == a;
    } else {
      RunConcat(s, a, b[..|b| - 1]);
      assert (a + b)[..|a + b| - 1] == a + b[..|b| - 1];
    }
  }

  /** Is this a moment when the client goes away with records left to send? */
  ghost predicate DropsEarly<T>(records: seq<T>, turns: seq<Turn>, i: nat) {
    i < |turns| && turns[i] == Drop && Run(Start(records), turns[..i]).unsent != []
  }

  /** After the client has gone nothing is sent, and the task panics exactly when it gets a turn with records left. */
  lemma {:induction false} AfterDrop<T>(s: Stream<T>, turns: seq<Turn>)
    requires !s.open && !s.panicked
    ensures var s' := Run(s, turns);
            s'.unsent == s.unsent && !s'.open && (s'.panicked <==> s.unsent != [] && Produce in turns)
    decreases |turns|
  {
    if turns != [] {
      AfterDrop(s, turns[..|turns| - 1]);
      assert turns == turns[..|turns| - 1] + [turns[|turns| - 1]];
    }
  }

  lemma {:induction false} FirstDrop(turns: seq<Turn>) returns (d: nat)
    requires Drop in turns
    ensures d < |turns| && turns[d] == Drop && NoDrop(turns[..d]) && forall i | 0 <= i < d :: turns[i] != Drop
    decreases |turns|
  {
    var front := turns[..|turns| - 1];
    assert turns == front + [turns[|turns| - 1]];
    if Drop in front {
      d := FirstDrop(front);
      assert turns[..d] == front[..d];
    } else {
      d := |front|;
    }
  }

  /** The task panics exactly when the client goes away with records left to send and the task gets a turn after that. */
  lemma {:induction false} PanicsExactly<T>(records: seq<T>, turns: seq<Turn>)
    ensures var s := Run(Start(records), turns);
            && (s.open <==> Drop !in turns)
            && (s.panicked <==> exists i, j | 0 <= i < j < |turns| :: DropsEarly(records, turns, i) && turns[j] == Produce)
  {
    if Drop in turns {
      var d := FirstDrop(turns);
      var rest := turns[d + 1..|turns|];
      RunProgress(Start(records), turns[..d]);
      assert turns[..|turns|] == turns;
      SinceDrop(records, turns, d, |turns|);
      if Run(Start(records), turns).panicked {
        var j :| 0 <= j < |rest| && rest[j] == Produce;
        assert DropsEarly(records, turns, d) && turns[d + 1 + j] == Produce;
      }
      forall i, j | 0 <= i < j < |turns| && DropsEarly(records, turns, i) && turns[j] == Produce
        ensures DropsEarly(records, turns, d) && Produce in rest
      {
        assert rest[j - d - 1] == Produce;
        if d < i {
          SinceDrop(records, turns, d, i);
        }
      }
    } else {
      RunProgress(Start(records), turns);
    }
  }

  lemma SinceDrop<T>(records: seq<T>, turns: seq<Turn>, d: nat, n: nat)
    requires d < n <= |turns| && turns[d] == Drop && NoDrop(turns[..d])
    ensures var s, s' := Run(Start(records), turns[..d]), Run(Start(records), turns[..n]);
            s'.unsent == s.unsent && !s'.open && (s'.panicked <==> s.unsent != [] && Produce in turns[d + 1..n])
  {
    var front, rest := turns[..d], turns[d + 1..n];
    RunProgress(Start(records), front);
    assert turns[..d + 1][..d] == front;
    AfterDrop(Run(Start(records), turns[..d + 1]), rest);
    assert turns[..n] == turns[..d + 1] + rest;
    RunConcat(Start(records), turns[..d + 1], rest);
  }

  /** The task panics when it sends to a client that went away first. */
  lemma DroppedStreamPanics<T>(records: seq<T>)
    requires records != []
    ensures Run(Start(records), [Drop, Produce]).panicked
  {
    assert [Drop, Produce][..1] == [Drop] && [Drop][..0] == [];
    assert Run(Start(records), [Drop]) == Step(Run(Start(records), []), Drop);
  }

  // ---- Progress ----

  /** How much is left to do: two moves for every unsent record and one for every buffered one. */
  function Remaining<T>(s: Stream<T>): nat {
    2 * |s.unsent| + |s.buffer|
  }

  ghost predicate NoDrop(turns: seq<Turn>) {
    forall i | 0 <= i < |turns| :: !turns[i].Drop?
  }

  /** Without a drop, turns never undo work, and turns that do no work change nothing. */
  lemma {:induction false} RunProgress<T>(s: Stream<T>, turns: seq<Turn>)
    requires s.open && !s.panicked && NoDrop(turns)
    ensures var s' := Run(s, turns);
            && s'.open && !s'.panicked && Remaining(s') <= Remaining(s)
            && (Remaining(s') == Remaining(s) ==> s' == s && forall i | 0 <= i < |turns| :: Step(s, turns[i]) == s)
    decreases |turns|
  {
    if turns != [] {
      RunProgress(s, turns[..|turns| - 1]);
    }
  }

  /** A round in which both sides get at least one turn, in any order, does some of the remaining work. */
  lemma RoundProgress<T>(s: Stream<T>, round: seq<Turn>)
    requires s.open && !s.panicked && NoDrop(round) && Produce in round && Consume in round
    ensures Remaining(s) > 0 ==> Remaining(Run(s, round)) < Remaining(s)
  {
    RunProgress(s, round);
    if Remaining(Run(s, round)) == Remaining(s) {
      assert Step(s, Produce) == s && Step(s, Consume) == s;
      assert s.buffer == [];
    }
  }

  /** The client stays, and in every round, from one cut of the schedule to the next, both sides get a turn. */
  ghost predicate Fair(turns: seq<Turn>, cuts: seq<nat>) {
    && NoDrop(turns)
    && cuts != [] && cuts[0] == 0 && cuts[|cuts| - 1] == |turns|
    && (forall i | 0 <= i < |cuts| :: cuts[i] <= |turns|)
    && forall i | 0 < i < |cuts| ::
         && cuts[i - 1] <= cuts[i]
         && Produce in turns[cuts[i - 1]..cuts[i]] && Consume in turns[cuts[i - 1]..cuts[i]]
  }

  lemma {:induction false} RoundsProgress<T>(s: Stream<T>, turns: seq<Turn>, cuts: seq<nat>, n: nat)
    requires s.open && !s.panicked && Fair(turns, cuts) && n < |cuts|
    ensures var s' := Run(s, turns[..cuts[n]]);
            s'.open && !s'.panicked && (Remaining(s') == 0 || Remaining(s') + n <= Remaining(s))
    decreases n
  {
    if n > 0 {
      RoundsProgress(s, turns, cuts, n - 1);
      var front, round := turns[..cuts[n - 1]], turns[cuts[n - 1]..cuts[n]];
      RunProgress(Run(s, front), round);
      RoundProgress(Run(s, front), round);
      RunConcat(s, front, round);
      assert turns[..cuts[n]] == front + round;
    }
  }

  /** When neither side is starved and the client stays, a schedule of at least twice as many rounds as there are
      records delivers the whole snapshot, in order and without loss or repetition. */
  lemma StreamCompletes<T>(records: seq<T>, turns: seq<Turn>, cuts: seq<nat>)
    requires Fair(turns, cuts) && |cuts| - 1 >= 2 * |records|
    ensures var s := Run(Start(records), turns); s.received == records && !s.panicked
  {
    RoundsProgress(Start(records), turns, cuts, |cuts| - 1);
    assert turns[..|turns|] == turns;
    StreamSafety(records, turns);
    var s := Run(Start(records), turns);
    assert s.unsent == [] && s.buffer == [];
  }

  /** The channel takes four records, and the fifth has to wait: so many are buffered while the client does not read. */
  lemma {:induction false} FourFit<T>(records: seq<T>, n: nat)
    requires n <= |records|
    ensures var s, fit := Run(Start(records), seq(n, _ => Produce)), if n < 4 then n else 4;
            s == Stream(records[fit..], records[..fit], [], true, false)
  {
    var turns := seq(n, _ => Produce);
    if n > 0 {
      FourFit(records, n - 1);
      assert turns[..n - 1] == seq(n - 1, _ => Produce);
    }
  }

  // ---- The channel and the handler ----

  datatype SendResult = Sent | Full | Closed

  class Channel<T> {
    const capacity: nat
    var buffer: seq<T>
    var open: bool

    constructor (capacity: nat)
      ensures this.capacity == capacity && buffer == [] && open
    {
      this.capacity := capacity;
      buffer, open := [], true;
    }

    method Send(x: T) returns (r: SendResult)
      modifies this`buffer
      ensures r == if !open then Closed else if |old(buffer)| < capacity then Sent else Full
      ensures buffer == if r == Sent then old(buffer) + [x] else old(buffer)
    {
      if !open {
        return Closed;
      }
      if |buffer| >= capacity {
        return Full;
      }
      buffer := buffer + [x];
      return Sent;
    }

    method Receive() returns (x: Option<T>)
      modifies this`buffer
      ensures x == if open && old(buffer) != [] then Some(old(buffer)[0]) else None
      ensures buffer == if x.Some? then old(buffer)[1..] else old(buffer)
    {
      x := None;
      if open && buffer != [] {
        x := Some(buffer[0]);
        buffer := buffer[1..];
      }
    }

    method Close()
      modifies this
      ensures !open && buffer == []
    {
      open, buffer := false, [];
    }
  }

  /** The handler under a schedule: the snapshot is taken first, and whatever other RPCs do to the table afterwards, the
      stream goes on as the schedule's turns alone say; on a fair and long enough schedule the client gets all of it. */
  method List(repo: RecordRepository, clock: nat -> Time, turns: seq<Turn>)
      returns (records: seq<RecordReply>, s: Stream<RecordReply>)
    requires repo.Valid()
    modifies repo
    ensures repo.Valid() && repo.table == ApplyAll(old(repo.table), OpsOf(turns))
    ensures IsListing(old(repo.table), clock, records)
    ensures s == Run(Start(records), turns)
    ensures forall cuts | Fair(turns, cuts) && |cuts| - 1 >= 2 * |records| :: s.received == records && !s.panicked
  {
    hide IsListing, Represents, Apply, ApplyAll, Step;
    records := repo.QueryAll(clock);
    var channel := new Channel<RecordReply>(CAPACITY);
    var next: nat, received, panicked := 0, [], false;
    ghost var table := repo.table;
    NoOps(table);
    for i := 0 to |turns|
      invariant repo.Valid() && repo.table == ApplyAll(table, OpsOf(turns[..i]))
      invariant fresh(channel) && channel.capacity == CAPACITY && next <= |records|
      invariant Stream(records[next..], channel.buffer, received, channel.open, panicked) == Run(Start(records), turns[..i])
    {
      assert turns[..i + 1][..i] == turns[..i];
      if turns[i].Other? {
        ExecuteOp(repo, turns[i].op);
        AnotherOp(table, OpsOf(turns[..i]), turns[i].op);
      }
      next, received, panicked := TakeTurn(channel, records, next, received, panicked, turns[i]);
    }
    assert turns[..|turns|] == turns;
    s := Stream(records[next..], channel.buffer, received, channel.open, panicked);
    forall cuts | Fair(turns, cuts) && |cuts| - 1 >= 2 * |records|
      ensures s.received == records && !s.panicked
    {
      StreamCompletes(records, turns, cuts);
    }
  }

  /** One turn at the channel: of the sending task, of the receiving client, or of neither. */
  method TakeTurn<T>(channel: Channel<T>, records: seq<T>, next: nat, received: seq<T>, panicked: bool, turn: Turn)
      returns (next': nat, received': seq<T>, panicked': bool)
    requires channel.capacity == CAPACITY && next <= |records|
    modifies channel
    ensures next' <= |records|
    ensures Stream(records[next'..], channel.buffer, received', channel.open, panicked')
            == Step(Stream(records[next..], old(channel.buffer), received, old(channel.open), panicked), turn)
  {
    next', received', panicked' := next, received, panicked;
    match turn
    case Produce =>
      if next < |records| && !panicked {
        var r := channel.Send(records[next]);
        match r
        case Sent => next' := next + 1;
        case Closed => panicked' := true;
        case Full =>
      }
    case Consume =>
      var x := channel.Receive();
      if x.Some? {
        received' := received + [x.value];
      }
    case Drop =>
      channel.Close();
    case Other(_) =>
  }

  lemma NoOps(table: Table)
    ensures ApplyAll(table, []) == table
  {
  }

  lemma AnotherOp(table: Table, ops: seq<Op>, op: Op)
    ensures ApplyAll(table, ops + [op]) == Apply(ApplyAll(table, ops), op)
  {
  }

  method ExecuteOp(repo: RecordRepository, op: Op)
    requires repo.Valid()
    modifies repo
    ensures repo.Valid() && repo.table == Apply(old(repo.table), op)
  {
    match op
    case Put(key, data, ttl, now) => repo.ExecuteUpsert(key, data, ttl, now);
    case Remove(key) => repo.ExecuteDelete(key);
  }
}
