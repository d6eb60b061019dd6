// The records table as rows, changed in place by whole statements, and the repository calls over it
// (src/record_repository.rs, the schema in src/util.rs, the handlers in src/rpc_server/records.rs).
//
// `ExecuteUpsert`, `QueryUnique`, `QueryAll` and `ExecuteDelete` are the closures given to `conn.call`; each runs
// alone. `Upsert` is two of them in a row; RpcMachine.dfy studies what may happen in between.

module Repository {
  import opened Wrappers
  import opened Registry

  datatype Row = Row(name: string, rtype: string, data: string, ttl: nat, createdAt: Time, updatedAt: Time)

  datatype UpsertRequest = UpsertRequest(name: string, rtype: string, value: string, ttl: nat)

  datatype RepositoryError = QueryReturnedNoRows

  function RequestKey(request: UpsertRequest): Key {
    Key(request.name, request.rtype)
  }

  /** The statement that a request with this captured time executes. */
  function PutOf(request: UpsertRequest, now: Time): Op {
    Put(RequestKey(request), request.value, request.ttl, now)
  }

  function KeyOf(row: Row): Key {
    Key(row.name, row.rtype)
  }

  function EntryOf(row: Row): Entry {
    Entry(row.data, row.ttl, row.createdAt, row.updatedAt)
  }

  /** The reply names the key, carries the entry's data and ttl, and its times in whole seconds. */
  predicate Tells(reply: RecordReply, key: Key, e: Entry) {
    && reply.name == key.name && reply.rtype == key.rtype && reply.data == e.data && reply.ttl == e.ttl
    && InSecond(reply.createdAt, e.createdAt) && InSecond(reply.updatedAt, e.updatedAt)
  }

  /** The rows have distinct keys and hold exactly the entries of the table. */
  ghost predicate Represents(rows: seq<Row>, table: Table) {
    && (forall i, j | 0 <= i < j < |rows| :: KeyOf(rows[i]) != KeyOf(rows[j]))
    && (forall i | 0 <= i < |rows| :: KeyOf(rows[i]) in table && table[KeyOf(rows[i])] == EntryOf(rows[i]))
    && forall key | key in table :: exists i | 0 <= i < |rows| :: KeyOf(rows[i]) == key
  }

  lemma {:induction false} RepresentsSize(rows: seq<Row>, table: Table)
    requires Represents(rows, table)
    ensures |rows| == |table|
  {
    if rows == [] {
      assert table == map[];
    } else {
      var n := |rows| - 1;
      var smaller := table - {KeyOf(rows[n])};
      RepresentsWithout(rows, table, n);
      assert rows[..n] + rows[n + 1..] == rows[..n];
      RepresentsSize(rows[..n], smaller);
      assert smaller.Keys == table.Keys - {KeyOf(rows[n])};
    }
  }

  function ReplyKey(reply: RecordReply): Key {
    Key(reply.name, reply.rtype)
  }

  /** The replies are the rows of the table, every key exactly once, each judged at its own reading of the clock. */
  ghost predicate IsListing(table: Table, clock: nat -> Time, replies: seq<RecordReply>) {
    && |replies| == |table|
    && (forall i, j | 0 <= i < j < |replies| :: ReplyKey(replies[i]) != ReplyKey(replies[j]))
    && (forall key | key in table :: exists i | 0 <= i < |replies| :: ReplyKey(replies[i]) == key)
    && forall i | 0 <= i < |replies| ::
         && var key := ReplyKey(replies[i]);
         && key in table
         && replies[i] == ReplyOf(key, table[key], IsHealthy(clock(i), table[key].updatedAt))
  }

  lemma RepresentsWithout(rows: seq<Row>, table: Table, i: nat)
    requires Represents(rows, table) && i < |rows|
    ensures Represents(rows[..i] + rows[i + 1..], table - {KeyOf(rows[i])}) && KeyOf(rows[i]) in table
  {
    hide KeyOf, EntryOf;
    var rest, smaller := rows[..i] + rows[i + 1..], table - {KeyOf(rows[i])};
    forall a, b | 0 <= a < b < |rest|
      ensures KeyOf(rest[a]) != KeyOf(rest[b])
    {
      assert rest[a] == rows[Shift(a, i)] && rest[b] == rows[Shift(b, i)];
    }
    forall j | 0 <= j < |rest|
      ensures KeyOf(rest[j]) in smaller && smaller[KeyOf(rest[j])] == EntryOf(rest[j])
    {
      assert rest[j] == rows[Shift(j, i)] && KeyOf(rows[Shift(j, i)]) != KeyOf(rows[i]);
    }
    forall key | key in smaller
      ensures exists j | 0 <= j < |rest| :: KeyOf(rest[j]) == key
    {
      var j :| 0 <= j < |rows| && KeyOf(rows[j]) == key;
      assert KeyOf(rest[if j < i then j else j - 1]) == key;
    }
  }

  /** Where the row at j stood before the row at i was taken out. */
  ghost function Shift(j: nat, i: nat): nat {
    if j < i then j else j + 1
  }

  lemma RepresentsAbsent(rows: seq<Row>, table: Table, key: Key)
    requires Represents(rows, table) && forall i | 0 <= i < |rows| :: KeyOf(rows[i]) != key
    ensures key !in table && table - {key} == table
  {
  }

  lemma RepresentsReplaced(rows: seq<Row>, table: Table, i: nat, row: Row)
    requires Represents(rows, table) && i < |rows| && KeyOf(row) == KeyOf(rows[i])
    ensures Represents(rows[i := row], table[KeyOf(row) := EntryOf(row)]) && KeyOf(row) in table
  {
    var changed := rows[i := row];
    var after := table[KeyOf(row) := EntryOf(row)];
    forall key | key in after
      ensures exists j | 0 <= j < |changed| :: KeyOf(changed[j]) == key
    {
      var j :| 0 <= j < |rows| && KeyOf(rows[j]) == key;
      assert KeyOf(changed[j]) == key;
    }
  }

  lemma RepresentsAppended(rows: seq<Row>, table: Table, row: Row)
    requires Represents(rows, table) && forall j | 0 <= j < |rows| :: KeyOf(rows[j]) != KeyOf(row)
    ensures Represents(rows + [row], table[KeyOf(row) := EntryOf(row)]) && KeyOf(row) !in table
  {
    var more := rows + [row];
    var after := table[KeyOf(row) := EntryOf(row)];
    forall key | key in after
      ensures exists j | 0 <= j < |more| :: KeyOf(more[j]) == key
    {
      if key == KeyOf(row) {
        assert KeyOf(more[|rows|]) == key;
      } else {
        var j :| 0 <= j < |rows| && KeyOf(rows[j]) == key;
        assert KeyOf(more[j]) == key;
      }
    }
  }

  lemma RowsAreListing(rows: seq<Row>, table: Table, clock: nat -> Time, replies: seq<RecordReply>)
    requires Represents(rows, table) && |replies| == |rows|
    requires forall i | 0 <= i < |rows| ::
               replies[i] == ReplyOf(KeyOf(rows[i]), EntryOf(rows[i]), IsHealthy(clock(i), rows[i].updatedAt))
    ensures IsListing(table, clock, replies)
  {
    hide UnixTimestamp, IsHealthy;
    RepresentsSize(rows, table);
    assert forall i | 0 <= i < |rows| :: ReplyKey(replies[i]) == KeyOf(rows[i]);
    forall i, j | 0 <= i < j < |replies|
      ensures ReplyKey(replies[i]) != ReplyKey(replies[j])
    {
      assert KeyOf(rows[i]) != KeyOf(rows[j]);
    }
    forall key | key in table
      ensures exists i | 0 <= i < |replies| :: ReplyKey(replies[i]) == key
    {
      var i :| 0 <= i < |rows| && KeyOf(rows[i]) == key;
      assert ReplyKey(replies[i]) == key;
    }
  }

  /** The search behind a WHERE clause or a conflict check: the position of the row with this key, or the number of
      rows when there is none. */
  method IndexOf(rows: seq<Row>, key: Key) returns (i: nat)
    ensures i <= |rows| && (i < |rows| ==> KeyOf(rows[i]) == key)
    ensures forall j | 0 <= j < i :: KeyOf(rows[j]) != key
  {
    i := 0;
    while i < |rows| && KeyOf(rows[i]) != key
      invariant i <= |rows|
      invariant forall j | 0 <= j < i :: KeyOf(rows[j]) != key
    {
      i := i + 1;
    }
  }

  class RecordRepository {
    var rows: seq<Row>
    ghost var table: Table

    ghost predicate Valid()
      reads this
    {
      Represents(rows, table)
    }

    constructor ()
      ensures Valid() && rows == [] && table == map[]
    {
      rows, table := [], map[];
    }

    /** INSERT with ON CONFLICT(name, type): the row count grows by one exactly when the key was absent, and every
        row of another key stays where and as it was. */
    method ExecuteUpsert(key: Key, data: string, ttl: nat, now: Time)
      requires Valid()
      modifies this
      ensures Valid() && table == Apply(old(table), Put(key, data, ttl, now))
      ensures |rows| == |old(rows)| + (if key in old(table) then 0 else 1)
      ensures forall j | 0 <= j < |old(rows)| && KeyOf(old(rows[j])) != key :: rows[j] == old(rows[j])
      ensures key !in old(table) ==> rows == old(rows) + [Row(key.name, key.rtype, data, ttl, now, now)]
      ensures key in old(table) ==>
                exists i | 0 <= i < |old(rows)| ::
                  && KeyOf(old(rows)[i]) == key
                  && rows == old(rows)[i := Row(key.name, key.rtype, data, ttl, old(rows)[i].createdAt, now)]
    {
      var i := IndexOf(rows, key);
      if i < |rows| {
        var row := rows[i].(data := data, ttl := ttl, updatedAt := now);
        RepresentsReplaced(rows, table, i, row);
        rows := rows[i := row];
        assert KeyOf(old(rows)[i]) == key;
      } else {
        var row := Row(key.name, key.rtype, data, ttl, now, now);
        RepresentsAppended(rows, table, row);
        rows := rows + [row];
      }
      table := Apply(table, Put(key, data, ttl, now));
    }

    /** DELETE by key: every other row keeps its place among the others; an absent key is no error. */
    method ExecuteDelete(key: Key)
      requires Valid()
      modifies this
      ensures Valid() && table == Apply(old(table), Remove(key))
      ensures key !in old(table) ==> rows == old(rows)
      ensures key in old(table) ==>
                exists i | 0 <= i < |old(rows)| ::
                  KeyOf(old(rows)[i]) == key && rows == old(rows)[..i] + old(rows)[i + 1..]
    {
      hide Represents;
      var i := IndexOf(rows, key);
      if i == |rows| {
        RepresentsAbsent(rows, table, key);
      } else {
        RepresentsWithout(rows, table, i);
        rows := rows[..i] + rows[i + 1..];
        assert KeyOf(old(rows)[i]) == key;
      }
      table := Apply(table, Remove(key));
    }

    /** SELECT by key: the entry of the table, and no row exactly when the key is absent. */
    method QueryUnique(key: Key) returns (e: Option<Entry>)
      requires Valid()
      ensures e == Lookup(table, key)
    {
      var i := IndexOf(rows, key);
      e := if i < |rows| then Some(EntryOf(rows[i])) else None;
    }

    /** SELECT of all rows: every key of the table exactly once. The clock is read anew for every row. */
    method QueryAll(clock: nat -> Time) returns (replies: seq<RecordReply>)
      requires Valid()
      ensures IsListing(table, clock, replies)
      ensures forall i | 0 <= i < |replies| ::
                && var key := ReplyKey(replies[i]);
                && Tells(replies[i], key, table[key])
                && (replies[i].healthy <==> clock(i) - table[key].updatedAt <= 420_000_000_000)
    {
      replies := [];
      for i := 0 to |rows|
        invariant |replies| == i
        invariant forall j | 0 <= j < i ::
                    replies[j] == ReplyOf(KeyOf(rows[j]), EntryOf(rows[j]), IsHealthy(clock(j), rows[j].updatedAt))
      {
        replies := replies + [ReplyOf(KeyOf(rows[i]), EntryOf(rows[i]), IsHealthy(clock(i), rows[i].updatedAt))];
      }
      RowsAreListing(rows, table, clock, replies);
    }

    /** `find_unique`: unlike `list`, it never says that a record is unhealthy. */
    method FindUnique(key: Key) returns (r: Result<RecordReply, RepositoryError>)
      requires Valid()
      ensures r == if key in table then Ok(ReplyOf(key, table[key], true)) else Err(QueryReturnedNoRows)
      ensures r.Ok? ==> Tells(r.value, key, table[key]) && r.value.healthy
    {
      var e := QueryUnique(key);
      r := if e.Some? then Ok(ReplyOf(key, e.value, true)) else Err(QueryReturnedNoRows);
    }

    /** `upsert` when nothing else runs between its write and its read-back: it answers with the request's own data,
        the time captured at its start, and the creation time that the record already had. */
    method Upsert(request: UpsertRequest, now: Time) returns (r: Result<RecordReply, RepositoryError>)
      requires Valid()
      modifies this
      ensures Valid()
      ensures var key := RequestKey(request);
              && table == Apply(old(table), PutOf(request, now))
              && var createdAt := if key in old(table) then old(table)[key].createdAt else now;
              && r.Ok? && r.value.healthy
              && Tells(r.value, RequestKey(request), Entry(request.value, request.ttl, createdAt, now))
    {
      ExecuteUpsert(RequestKey(request), request.value, request.ttl, now);
      r := FindUnique(RequestKey(request));
    }
  }

  /** With a clock that never goes back, if a record listed later is healthy and was updated no later than one listed
      before it, that one is healthy too. */
  lemma ListVerdictsAgree(clock: nat -> Time, i: nat, j: nat, earlier: Time, later: Time)
    requires i <= j && clock(i) <= clock(j) && later <= earlier
    ensures IsHealthy(clock(j), later) ==> IsHealthy(clock(i), earlier)
  {
  }

  // ---- Handlers ----

  datatype Status = NotFound(message: string)

  class MyRecords {
    const repo: RecordRepository

    constructor (repo: RecordRepository)
      ensures this.repo == repo
    {
      this.repo := repo;
    }

    /** The lookup handler reports "not found" exactly when the key has no row. */
    method FindUnique(key: Key) returns (r: Result<RecordReply, Status>)
      requires repo.Valid()
      ensures r.Err? <==> key !in repo.table
      ensures r == if key in repo.table then Ok(ReplyOf(key, repo.table[key], true)) else Err(NotFound("record not found"))
      ensures r.Ok? ==> Tells(r.value, key, repo.table[key])
    {
      var found := repo.FindUnique(key);
      match found
      case Ok(record) => r := Ok(record);
      case Err(_) => r := Err(NotFound("record not found"));
    }

    /** The upsert handler unwraps the repository's result, which is safe while nothing runs between the write and the
        read-back; RpcMachine.dfy says when it is not. */
    method Upsert(request: UpsertRequest, now: Time) returns (r: RecordReply)
      requires repo.Valid()
      modifies repo
      ensures var key := RequestKey(request);
              && repo.Valid() && repo.table == Apply(old(repo.table), PutOf(request, now))
              && r == ReplyOf(key, repo.table[key], true) && Tells(r, key, repo.table[key])
    {
      var served := repo.Upsert(request, now);
      r := served.value;
    }

    /** The delete handler answers the same whether or not there was a row. */
    method Delete(key: Key)
      requires repo.Valid()
      modifies repo
      ensures repo.Valid() && repo.table == old(repo.table) - {key}
    {
      repo.ExecuteDelete(key);
    }
  }
}
