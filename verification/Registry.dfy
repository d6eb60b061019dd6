// The records table as a map and its history as a sequence of operations (src/record_repository.rs).
//
// Every `conn.call` closure runs alone on the one connection, so what happens to the table is a sequence of whole
// upserts and deletes. Times are integer nanoseconds since the Unix epoch.

module Registry {
  import opened Wrappers

  type Time = int

  const SECOND: int := 1_000_000_000

  /** `HEALTHY_AGE`, seven minutes. */
  const HEALTHY_AGE: int := 7 * 60 * SECOND

  /** The primary key of the table. */
  datatype Key = Key(name: string, rtype: string)

  datatype Entry = Entry(data: string, ttl: nat, createdAt: Time, updatedAt: Time)

  type Table = map<Key, Entry>

  /** One executed statement: an insert-or-update with the time it captured, or a delete. */
  datatype Op =
    | Put(key: Key, data: string, ttl: nat, now: Time)
    | Remove(key: Key)

  function Apply(t: Table, op: Op): Table {
    match op
    case Put(key, data, ttl, now) =>
      t[key := if key in t then t[key].(data := data, ttl := ttl, updatedAt := now) else Entry(data, ttl, now, now)]
    case Remove(key) => t - {key}
  }

  function ApplyAll(t: Table, ops: seq<Op>): Table {
    if ops == [] then t else Apply(ApplyAll(t, ops[..|ops| - 1]), ops[|ops| - 1])
  }

  /** The table that a history of operations leaves, starting from the empty table. */
  function After(ops: seq<Op>): Table {
    ApplyAll(map[], ops)
  }

  function Lookup(t: Table, key: Key): Option<Entry> {
    if key in t then Some(t[key]) else None
  }

  lemma AfterStep(ops: seq<Op>, op: Op)
    ensures After(ops + [op]) == Apply(After(ops), op)
  {
  }

  lemma {:induction false} ApplyAllConcat(t: Table, a: seq<Op>, b: seq<Op>)
    ensures ApplyAll(t, a + b) == ApplyAll(ApplyAll(t, a), b)
    decreases |b|
  {
    if b == [] {
      assert a + b == a;
    } else {
      ApplyAllConcat(t, a, b[..|b| - 1]);
      assert (a + b)[..|a + b| - 1] == a + b[..|b| - 1];
    }
  }

  // ---- What a history means for one key ----

  /** Is l the last operation on key? */
  ghost predicate IsLast(ops: seq<Op>, key: Key, l: nat) {
    l < |ops| && ops[l].key == key && forall j | l < j < |ops| :: ops[j].key != key
  }

  /** Is f the first upsert of key after its last delete? */
  ghost predicate IsFirst(ops: seq<Op>, key: Key, f: nat) {
    && f < |ops| && ops[f].Put? && ops[f].key == key
    && (forall j | f < j < |ops| :: ops[j] != Remove(key))
    && forall i | 0 <= i < f && ops[i].key == key && ops[i].Put? :: exists j | i < j < f :: ops[j] == Remove(key)
  }

  /** The row that the upserts at f and l make together. */
  ghost function EntryFrom(ops: seq<Op>, f: nat, l: nat): Entry
    requires f < |ops| && ops[f].Put? && l < |ops| && ops[l].Put?
  {
    Entry(ops[l].data, ops[l].ttl, ops[f].now, ops[l].now)
  }

  /** Does e describe key after ops: absent when nothing or a delete came last, and otherwise with the data, ttl and
      update time of the last upsert and the creation time of the first upsert since the last delete? */
  ghost predicate Describes(ops: seq<Op>, key: Key, e: Option<Entry>) {
    match e
    case None =>
      forall i | 0 <= i < |ops| && ops[i].key == key && ops[i].Put? :: exists j | i < j < |ops| :: ops[j] == Remove(key)
    case Some(entry) =>
      exists f: nat, l: nat ::
        IsFirst(ops, key, f) && IsLast(ops, key, l) && f <= l && ops[l].Put? && entry == EntryFrom(ops, f, l)
  }

  /** The table row of every key is the one its history describes. */
  lemma {:induction false} HistoryDescribes(ops: seq<Op>, key: Key)
    ensures Describes(ops, key, Lookup(After(ops), key))
    decreases |ops|
  {
    if ops != [] {
      var n := |ops| - 1;
      var front := ops[..n];
      HistoryDescribes(front, key);
      assert forall i | 0 <= i < n :: ops[i] == front[i];
      if ops[n].key != key {
        KeepsDescription(front, key, ops[n], Lookup(After(front), key));
        assert ops == front + [ops[n]];
      } else if ops[n].Put? {
        assert ops == front + [ops[n]];
        if key in After(front) {
          UpsertOfPresent(front, key, ops[n], After(front)[key]);
        } else {
          FirstAfterAbsence(front, key, ops[n]);
        }
      } else {
        assert ops[n] == Remove(key);
      }
    }
  }

  lemma FirstAfterAbsence(front: seq<Op>, key: Key, op: Op)
    requires Describes(front, key, None) && op.Put? && op.key == key
    ensures Describes(front + [op], key, Some(Entry(op.data, op.ttl, op.now, op.now)))
  {
    var ops := front + [op];
    forall i | 0 <= i < |front| && ops[i].key == key && ops[i].Put?
      ensures exists j | i < j < |front| :: ops[j] == Remove(key)
    {
      assert front[i].Put?;
      var j :| i < j < |front| && front[j] == Remove(key);
      assert ops[j] == Remove(key);
    }
    assert IsFirst(ops, key, |front|) && IsLast(ops, key, |front|);
  }

  lemma UpsertOfPresent(front: seq<Op>, key: Key, op: Op, e: Entry)
    requires Describes(front, key, Some(e)) && op.Put? && op.key == key
    ensures Describes(front + [op], key, Some(Entry(op.data, op.ttl, e.createdAt, op.now)))
  {
    var ops := front + [op];
    var f: nat, l: nat :| IsFirst(front, key, f) && IsLast(front, key, l) && f <= l && front[l].Put?
                && e == EntryFrom(front, f, l);
    FirstStays(front, key, op, f);
    assert IsLast(ops, key, |front|);
  }

  /** The first upsert since the last delete stays that when the log grows without a delete of its key. */
  lemma FirstStays(front: seq<Op>, key: Key, op: Op, f: nat)
    requires IsFirst(front, key, f) && op != Remove(key)
    ensures IsFirst(front + [op], key, f)
  {
    var ops := front + [op];
    assert forall i | 0 <= i < |front| :: ops[i] == front[i];
    forall i | 0 <= i < f && ops[i].key == key && ops[i].Put?
      ensures exists j | i < j < f :: ops[j] == Remove(key)
    {
      assert front[i].Put?;
      var j :| i < j < f && front[j] == Remove(key);
      assert ops[j] == Remove(key);
    }
  }

  lemma SameEntry(front: seq<Op>, op: Op, f: nat, l: nat)
    requires f <= l < |front| && front[f].Put? && front[l].Put?
    ensures EntryFrom(front + [op], f, l) == EntryFrom(front, f, l)
  {
  }

  /** An operation on another key leaves the description as it is. */
  lemma KeepsDescription(front: seq<Op>, key: Key, op: Op, e: Option<Entry>)
    requires Describes(front, key, e) && op.key != key
    ensures Describes(front + [op], key, e)
  {
    hide EntryFrom;
    var ops := front + [op];
    assert forall i | 0 <= i < |front| :: ops[i] == front[i];
    if e.None? {
      forall i | 0 <= i < |ops| && ops[i].key == key && ops[i].Put?
        ensures exists j | i < j < |ops| :: ops[j] == Remove(key)
      {
        assert front[i].Put?;
        var j :| i < j < |front| && front[j] == Remove(key);
        assert ops[j] == Remove(key);
      }
    } else {
      var f: nat, l: nat :| IsFirst(front, key, f) && IsLast(front, key, l) && f <= l && front[l].Put?
                  && e.value == EntryFrom(front, f, l);
      FirstStays(front, key, op, f);
      SameEntry(front, op, f, l);
      assert IsLast(ops, key, l);
    }
  }

  /** A history describes one row at most, so the description fixes the table. */
  lemma DescriptionUnique(ops: seq<Op>, key: Key, e: Option<Entry>)
    ensures Describes(ops, key, e) <==> e == Lookup(After(ops), key)
  {
    HistoryDescribes(ops, key);
    var t := Lookup(After(ops), key);
    if Describes(ops, key, e) && e.Some? && t.Some? {
      var f: nat, l: nat :| IsFirst(ops, key, f) && IsLast(ops, key, l) && f <= l && ops[l].Put? && e.value == EntryFrom(ops, f, l);
      var g: nat, m: nat :| IsFirst(ops, key, g) && IsLast(ops, key, m) && g <= m && ops[m].Put? && t.value == EntryFrom(ops, g, m);
      FirstUnique(ops, key, f, g);
      assert l == m;
    }
  }

  lemma FirstUnique(ops: seq<Op>, key: Key, f: nat, g: nat)
    requires IsFirst(ops, key, f) && IsFirst(ops, key, g)
    ensures f == g
  {
  }

  // ---- One key at a time ----

  /** part consists of the operations on key, in order: those of ops at the positions pos, which are all of them. */
  ghost predicate IsProjection(ops: seq<Op>, key: Key, part: seq<Op>, pos: seq<nat>) {
    && |pos| == |part|
    && (forall i, j | 0 <= i < j < |pos| :: pos[i] < pos[j])
    && (forall i | 0 <= i < |pos| :: pos[i] < |ops| && part[i] == ops[pos[i]] && part[i].key == key)
    && forall j | 0 <= j < |ops| && ops[j].key == key :: j in pos
  }

  /** Every history has such a part. */
  lemma {:induction false} Projection(ops: seq<Op>, key: Key) returns (part: seq<Op>, pos: seq<nat>)
    ensures IsProjection(ops, key, part, pos)
    decreases |ops|
  {
    part, pos := [], [];
    if ops != [] {
      var n := |ops| - 1;
      part, pos := Projection(ops[..n], key);
      forall j | 0 <= j < n && ops[j].key == key
        ensures j in pos
      {
        assert ops[..n][j] == ops[j];
      }
      if ops[n].key == key {
        part, pos := part + [ops[n]], pos + [n];
      }
    }
  }

  lemma LastOfProjection(ops: seq<Op>, key: Key, part: seq<Op>, pos: seq<nat>)
    requires IsProjection(ops, key, part, pos) && ops != [] && ops[|ops| - 1].key == key
    ensures part != [] && |pos| == |part| && part[|part| - 1] == ops[|ops| - 1]
    ensures IsProjection(ops[..|ops| - 1], key, part[..|part| - 1], pos[..|pos| - 1])
  {
    var n, m := |ops| - 1, |pos| - 1;
    assert n in pos;
    var i :| 0 <= i < |pos| && pos[i] == n;
    assert pos[m] >= n;
    forall j | 0 <= j < n && ops[j].key == key
      ensures j in pos[..m]
    {
      var k :| 0 <= k < |pos| && pos[k] == j;
      assert pos[..m][k] == j;
    }
  }

  lemma NotInProjection(ops: seq<Op>, key: Key, part: seq<Op>, pos: seq<nat>)
    requires IsProjection(ops, key, part, pos) && ops != [] && ops[|ops| - 1].key != key
    ensures IsProjection(ops[..|ops| - 1], key, part, pos)
  {
  }

  /** What the table holds for a key depends on that key's operations alone: it is what they leave by themselves. */
  lemma {:induction false} PerKey(ops: seq<Op>, key: Key, part: seq<Op>, pos: seq<nat>)
    requires IsProjection(ops, key, part, pos)
    ensures Lookup(After(ops), key) == Lookup(After(part), key)
    decreases |ops|
  {
    EmptyProjection(ops, key, part, pos);
    hide IsProjection;
    if part == [] {
      OtherKeysLeave(map[], ops, key);
    } else if ops[|ops| - 1].key == key {
      LastOfProjection(ops, key, part, pos);
      PerKey(ops[..|ops| - 1], key, part[..|part| - 1], pos[..|pos| - 1]);
    } else {
      NotInProjection(ops, key, part, pos);
      PerKey(ops[..|ops| - 1], key, part, pos);
    }
  }

  lemma EmptyProjection(ops: seq<Op>, key: Key, part: seq<Op>, pos: seq<nat>)
    requires IsProjection(ops, key, part, pos)
    ensures if part == [] then forall j | 0 <= j < |ops| :: ops[j].key != key else ops != []
  {
    if part != [] {
      assert pos[0] < |ops|;
    }
  }

  /** Operations on different keys commute. */
  lemma Commute(t: Table, a: Op, b: Op)
    requires a.key != b.key
    ensures Apply(Apply(t, a), b) == Apply(Apply(t, b), a)
  {
  }

  // ---- Repeated upserts ----

  ghost predicate SameMessage(ops: seq<Op>, key: Key, data: string, ttl: nat) {
    forall i | 0 <= i < |ops| :: ops[i].Put? && ops[i].key == key && ops[i].data == data && ops[i].ttl == ttl
  }

  /** Retries are safe: when every operation on key, from the first at f to the last at l, is one and the same message,
      they amount to its first execution with the update time of the last, whatever happens to other keys meanwhile. */
  lemma {:induction false} RetriesAmountToOne(t: Table, ops: seq<Op>, key: Key, f: nat, l: nat)
    requires f <= l < |ops| && ops[f].Put? && ops[l].Put?
    requires forall i | 0 <= i < |ops| ::
               if ops[i].key != key then i != f && i != l
               else f <= i <= l && ops[i].Put? && ops[i].data == ops[f].data && ops[i].ttl == ops[f].ttl
    ensures key in ApplyAll(t, ops) && ApplyAll(t, ops)[key] == Apply(t, ops[f])[key].(updatedAt := ops[l].now)
    decreases |ops|
  {
    var n := |ops| - 1;
    var front := ops[..n];
    if n > l {
      RetriesAmountToOne(t, front, key, f, l);
    } else if f == l {
      OtherKeysLeave(t, front, key);
    } else {
      var m := LastBefore(ops, key, f, l);
      RetriesAmountToOne(t, front, key, f, m);
    }
  }

  /** And with nothing but that message, they leave the table as one execution does, but for that update time. */
  lemma {:induction false} RetriesLeaveOneRow(t: Table, ops: seq<Op>, key: Key, data: string, ttl: nat)
    requires SameMessage(ops, key, data, ttl) && ops != []
    ensures var once := Apply(t, ops[0]);
            key in once && ApplyAll(t, ops) == once[key := once[key].(updatedAt := ops[|ops| - 1].now)]
  {
    var all, once := ApplyAll(t, ops), Apply(t, ops[0]);
    RetriesAmountToOne(t, ops, key, 0, |ops| - 1);
    forall other | other != key
      ensures Lookup(all, other) == Lookup(once, other)
    {
      OtherKeysLeave(t, ops, other);
    }
    SameLookups(all, once[key := once[key].(updatedAt := ops[|ops| - 1].now)]);
  }

  lemma SameLookups(a: Table, b: Table)
    requires forall key :: Lookup(a, key) == Lookup(b, key)
    ensures a == b
  {
    forall key
      ensures (key in a <==> key in b) && (key in a ==> a[key] == b[key])
    {
      assert Lookup(a, key) == Lookup(b, key);
    }
  }

  lemma {:induction false} OtherKeysLeave(t: Table, ops: seq<Op>, key: Key)
    requires forall i | 0 <= i < |ops| :: ops[i].key != key
    ensures Lookup(ApplyAll(t, ops), key) == Lookup(t, key)
    decreases |ops|
  {
    if ops != [] {
      OtherKeysLeave(t, ops[..|ops| - 1], key);
    }
  }

  lemma {:induction false} LastBefore(ops: seq<Op>, key: Key, f: nat, l: nat) returns (m: nat)
    requires f < l <= |ops| && ops[f].key == key
    ensures f <= m < l && ops[m].key == key && forall i | m < i < l :: ops[i].key != key
    decreases l
  {
    m := l - 1;
    if ops[m].key != key {
      m := LastBefore(ops, key, f, m);
    }
  }

  // ---- Times ----

  /** The times of a log: statements ran in order, each after the moment its time was captured, and none later than
      the present. */
  ghost predicate Timed(log: seq<Op>, at: seq<Time>, clock: Time) {
    && |at| == |log|
    && (forall i, j | 0 <= i <= j < |at| :: at[i] <= at[j])
    && (forall i | 0 <= i < |at| :: at[i] <= clock)
    && forall i | 0 <= i < |log| && log[i].Put? :: log[i].now <= at[i]
  }

  // ---- Replies and health ----

  datatype RecordReply = RecordReply(
    name: string, rtype: string, data: string, ttl: nat, createdAt: int, updatedAt: int, healthy: bool)

  /** Is s the number of whole seconds passed at time t, counted in nanoseconds? */
  predicate InSecond(s: int, t: Time) {
    s * 1_000_000_000 <= t < (s + 1) * 1_000_000_000
  }

  /** `unix_timestamp`: whole seconds, rounded down. */
  function UnixTimestamp(t: Time): (s: int)
    ensures InSecond(s, t)
  {
    t / SECOND
  }

  /** The verdict of `list`; `find_unique` always says healthy. */
  predicate IsHealthy(now: Time, updatedAt: Time) {
    now - updatedAt <= HEALTHY_AGE
  }

  function ReplyOf(key: Key, e: Entry, healthy: bool): RecordReply {
    RecordReply(key.name, key.rtype, e.data, e.ttl, UnixTimestamp(e.createdAt), UnixTimestamp(e.updatedAt), healthy)
  }

  /** What the whole-second reply tells about the verdict: at most 419 seconds is healthy, 421 or more is not, and at
      420 the parts of a second that the reply drops decide. */
  lemma HealthFromReply(key: Key, e: Entry, now: Time)
    ensures var reply := ReplyOf(key, e, IsHealthy(now, e.updatedAt));
            var age := UnixTimestamp(now) - reply.updatedAt;
            reply.healthy <==> age <= 419 || (age == 420 && now % SECOND <= e.updatedAt % SECOND)
  {
  }
}
