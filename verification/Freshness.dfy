// How old a refreshed record can get: a client that writes a record in every cycle of its schedule, against the
// server's seven-minute window (src/bin/client.rs, src/record_repository.rs, the schedule of flake.nix).
//
// A cycle starts at a tick (the first one when the program starts) and ends when its updates are done; the time that
// waking up takes belongs to the cycle. Client and server read the same clock.

module Freshness {
  import opened Registry
  import opened Repository
  import opened RpcMachine

  datatype Cycle = Cycle(start: Time, end: Time)

  /** The next tick comes after now, and within one period. */
  ghost predicate TicksWithin(nextTick: Time -> Time, period: nat) {
    forall t :: t < nextTick(t) <= t + period
  }

  /** The ticks of "every n minutes": the multiples of the period. */
  function Every(period: nat): (nextTick: Time -> Time)
    requires period > 0
    ensures TicksWithin(nextTick, period) && forall t :: nextTick(t) % period == 0
  {
    assert forall q: int :: (q * period) % period == 0 by {
      forall q: int
        ensures (q * period) % period == 0
      {
        Multiple(q, period);
      }
    }
    (t: Time) => (t / period + 1) * period
  }

  lemma Multiple(q: int, period: nat)
    requires period > 0
    ensures (q * period) % period == 0
  {
    var t := q * period;
    DivisionUnique(t, period, q);
    assert t == (t / period) * period + t % period;
  }

  /** Every cycle lasts at most c, and after its end the next tick starts the next one. */
  ghost predicate Schedule(cycles: seq<Cycle>, nextTick: Time -> Time, c: nat) {
    && (forall k | 0 <= k < |cycles| :: cycles[k].start <= cycles[k].end <= cycles[k].start + c)
    && forall k | 0 < k < |cycles| :: cycles[k].start == nextTick(cycles[k - 1].end)
  }

  /** Entry i of the log was captured and written within the cycle. */
  ghost predicate Within(log: seq<Op>, at: seq<Time>, i: nat, cycle: Cycle)
    requires i < |log| == |at|
  {
    log[i].Put? && cycle.start <= log[i].now && at[i] <= cycle.end
  }

  ghost predicate InSomeCycle(log: seq<Op>, at: seq<Time>, i: nat, cycles: seq<Cycle>)
    requires i < |log| == |at|
  {
    exists k | 0 <= k < |cycles| :: Within(log, at, i, cycles[k])
  }

  ghost predicate WroteIn(log: seq<Op>, at: seq<Time>, key: Key, cycle: Cycle)
    requires |log| == |at|
  {
    exists i: nat :: i < |log| && log[i].key == key && Within(log, at, i, cycle)
  }

  /** The client's side of the bargain at time t: a schedule that reaches to the present, with a write of key in every
      cycle that has ended. */
  ghost predicate Refreshed(log: seq<Op>, at: seq<Time>, t: Time, key: Key, cycles: seq<Cycle>, nextTick: Time -> Time, c: nat)
    requires |log| == |at|
  {
    && Schedule(cycles, nextTick, c)
    && cycles != [] && t <= nextTick(cycles[|cycles| - 1].end) + c
    && (forall k | 0 <= k < |cycles| && cycles[k].end <= t :: WroteIn(log, at, key, cycles[k]))
    && exists k | 0 <= k < |cycles| :: WroteIn(log, at, key, cycles[k])
  }

  /** The others' side: nobody deletes key, and whoever else writes it does so within d of capturing the time. */
  ghost predicate Undisturbed(log: seq<Op>, at: seq<Time>, key: Key, cycles: seq<Cycle>, d: nat)
    requires |log| == |at|
  {
    && (forall i | 0 <= i < |log| :: log[i] != Remove(key))
    && forall i | 0 <= i < |log| && log[i].key == key ::
         at[i] - log[i].now <= d || InSomeCycle(log, at, i, cycles)
  }

  lemma {:induction false} CyclesInOrder(cycles: seq<Cycle>, nextTick: Time -> Time, period: nat, c: nat, m: nat, k: nat)
    requires Schedule(cycles, nextTick, c) && TicksWithin(nextTick, period) && m < k < |cycles|
    ensures cycles[m].end < cycles[k].start
    decreases k
  {
    assert cycles[k - 1].end < nextTick(cycles[k - 1].end);
    if m < k - 1 {
      CyclesInOrder(cycles, nextTick, period, c, m, k - 1);
    }
  }

  /** Once the client has written key in cycle k, the row is no older than that cycle's start, give or take d. */
  lemma NoOlderThanCycle(log: seq<Op>, at: seq<Time>, t: Time, key: Key, cycles: seq<Cycle>, nextTick: Time -> Time,
                         period: nat, c: nat, d: nat, k: nat)
    requires Timed(log, at, t) && Undisturbed(log, at, key, cycles, d)
    requires Schedule(cycles, nextTick, c) && TicksWithin(nextTick, period)
    requires k < |cycles| && WroteIn(log, at, key, cycles[k])
    ensures key in After(log) && After(log)[key].updatedAt >= cycles[k].start - d
  {
    var p: nat :| p < |log| && log[p].key == key && Within(log, at, p, cycles[k]);
    var l := LastOn(log, key, p);
    LastDecides(log, key, l);
    assert log[l].Put? by {
      assert log[l] != Remove(key);
    }
    assert at[p] <= at[l];
    if at[l] - log[l].now > d {
      var m :| 0 <= m < |cycles| && Within(log, at, l, cycles[m]);
      if m < k {
        CyclesInOrder(cycles, nextTick, period, c, m, k);
      } else if k < m {
        CyclesInOrder(cycles, nextTick, period, c, k, m);
      }
    }
  }

  /** The cycle whose write is the latest that can be counted on at time t, and until when the next one is done. */
  lemma CountedCycle(log: seq<Op>, at: seq<Time>, t: Time, key: Key, cycles: seq<Cycle>, nextTick: Time -> Time,
                     period: nat, c: nat) returns (k: nat)
    requires Timed(log, at, t) && Refreshed(log, at, t, key, cycles, nextTick, c) && TicksWithin(nextTick, period)
    ensures k < |cycles| && WroteIn(log, at, key, cycles[k])
    ensures t <= nextTick(cycles[k].end) + c
    ensures forall j | 0 <= j < |cycles| && cycles[j].end <= t :: j <= k
  {
    if cycles[0].end <= t {
      k := 0;
      while k + 1 < |cycles| && cycles[k + 1].end <= t
        invariant k < |cycles| && cycles[k].end <= t
      {
        k := k + 1;
      }
      forall j | k + 1 < j < |cycles|
        ensures cycles[j].end > t
      {
        CyclesInOrder(cycles, nextTick, period, c, k + 1, j);
      }
    } else {
      k := 0;
      OnlyFirstCycle(log, at, t, key, cycles, nextTick, period, c);
    }
  }

  /** Before the end of the first cycle, any write there is was made in the first cycle. */
  lemma OnlyFirstCycle(log: seq<Op>, at: seq<Time>, t: Time, key: Key, cycles: seq<Cycle>, nextTick: Time -> Time,
                       period: nat, c: nat)
    requires Timed(log, at, t) && Refreshed(log, at, t, key, cycles, nextTick, c) && TicksWithin(nextTick, period)
    requires t < cycles[0].end
    ensures WroteIn(log, at, key, cycles[0]) && t <= nextTick(cycles[0].end) + c
    ensures forall j | 0 <= j < |cycles| :: t < cycles[j].end
  {
    assert cycles[0].end < nextTick(cycles[0].end);
    forall j | 0 < j < |cycles|
      ensures t < cycles[j].end && !WroteIn(log, at, key, cycles[j])
    {
      CyclesInOrder(cycles, nextTick, period, c, 0, j);
    }
    var k :| 0 <= k < |cycles| && WroteIn(log, at, key, cycles[k]);
    assert k == 0;
  }

  /** The freshness bound: from the client's first write on, the row exists and is at no time older than a period and
      two cycles, plus d when others write the key as well. */
  lemma FreshnessBound(log: seq<Op>, at: seq<Time>, t: Time, key: Key, cycles: seq<Cycle>, nextTick: Time -> Time,
                       period: nat, c: nat, d: nat)
    requires Timed(log, at, t) && Undisturbed(log, at, key, cycles, d)
    requires Refreshed(log, at, t, key, cycles, nextTick, c) && TicksWithin(nextTick, period)
    ensures key in After(log) && t - After(log)[key].updatedAt <= period + 2 * c + d
  {
    var k := CountedCycle(log, at, t, key, cycles, nextTick, period, c);
    NoOlderThanCycle(log, at, t, key, cycles, nextTick, period, c, d, k);
  }

  /** From a tick to any moment before the next one, the next tick is one period after that tick. */
  ghost predicate EvenTicks(nextTick: Time -> Time, period: nat) {
    forall s, t :: nextTick(s) <= t < nextTick(s) + period ==> nextTick(t) == nextTick(s) + period
  }

  /** With evenly spaced ticks and cycles shorter than the period, one cycle length less once the second cycle is done. */
  lemma SteadyFreshnessBound(log: seq<Op>, at: seq<Time>, t: Time, key: Key, cycles: seq<Cycle>, nextTick: Time -> Time,
                             period: nat, c: nat, d: nat)
    requires Timed(log, at, t) && Undisturbed(log, at, key, cycles, d)
    requires Refreshed(log, at, t, key, cycles, nextTick, c) && TicksWithin(nextTick, period)
    requires EvenTicks(nextTick, period) && c < period && |cycles| > 1 && cycles[1].end <= t
    ensures key in After(log) && t - After(log)[key].updatedAt <= period + c + d
  {
    var k := CountedCycle(log, at, t, key, cycles, nextTick, period, c);
    NoOlderThanCycle(log, at, t, key, cycles, nextTick, period, c, d, k);
    assert cycles[k].start == nextTick(cycles[k - 1].end);
    assert nextTick(cycles[k].end) == cycles[k].start + period;
  }

  /** The ticks of "every n minutes" are evenly spaced. */
  lemma EveryIsEven(period: nat)
    requires period > 0
    ensures EvenTicks(Every(period), period)
  {
    forall s, t | Every(period)(s) <= t < Every(period)(s) + period
      ensures Every(period)(t) == Every(period)(s) + period
    {
      var q := s / period + 1;
      assert q * period <= t < (q + 1) * period;
      DivisionUnique(t, period, q);
    }
  }

  lemma DivisionUnique(t: int, p: nat, q: int)
    requires p > 0 && q * p <= t < (q + 1) * p
    ensures t / p == q
  {
    var r := t / p;
    assert t == r * p + t % p;
    assert r < q ==> (r + 1) * p <= q * p;
    assert r > q ==> (q + 1) * p <= r * p;
  }

  /** The bound is reached on the schedule "every n minutes": with any period and cycle length some cycle and write let
      the row become exactly this old. */
  lemma FreshnessBoundIsTight(key: Key, period: nat, c: nat)
    requires period > 0
    ensures exists log, at, t, cycles ::
              && Timed(log, at, t) && Undisturbed(log, at, key, cycles, 0)
              && Refreshed(log, at, t, key, cycles, Every(period), c)
              && key in After(log) && t - After(log)[key].updatedAt == period + 2 * c
  {
    var nextTick := Every(period);
    var begin: Time := 0 - c;
    var log, at, cycles := [Put(key, "", 30, begin)], [begin], [Cycle(begin, 0)];
    var t := period + c;
    assert Within(log, at, 0, cycles[0]);
    assert WroteIn(log, at, key, cycles[0]);
    assert log[..0] == [];
    assert Refreshed(log, at, t, key, cycles, nextTick, c);
    assert key in After(log) && t - After(log)[key].updatedAt == period + 2 * c;
  }

  /** On the five-minute schedule, with cycles of at most a minute, a record that only this client writes and that
      nobody deletes is listed as healthy at every moment from its first write on. */
  lemma AlwaysListedHealthy(log: seq<Op>, at: seq<Time>, t: Time, key: Key, cycles: seq<Cycle>)
    requires Timed(log, at, t) && Undisturbed(log, at, key, cycles, 0)
    requires Refreshed(log, at, t, key, cycles, Every(300_000_000_000), 60_000_000_000)
    ensures key in After(log) && IsHealthy(t, After(log)[key].updatedAt)
    ensures t - After(log)[key].updatedAt <= 420_000_000_000
  {
    FreshnessBound(log, at, t, key, cycles, Every(300_000_000_000), 300_000_000_000, 60_000_000_000, 0);
  }

  /** So `list` shows the record, and shows it as healthy, whatever its reading of the clock for that row. */
  lemma ListShowsHealthy(log: seq<Op>, at: seq<Time>, t: Time, key: Key, cycles: seq<Cycle>,
                         clock: nat -> Time, replies: seq<RecordReply>)
    requires Timed(log, at, t) && Refreshed(log, at, t, key, cycles, Every(300_000_000_000), 60_000_000_000)
    requires Undisturbed(log, at, key, cycles, 0) && IsListing(After(log), clock, replies)
    requires forall i | 0 <= i < |replies| ::
               && Timed(log, at, clock(i))
               && Refreshed(log, at, clock(i), key, cycles, Every(300_000_000_000), 60_000_000_000)
    ensures exists i | 0 <= i < |replies| :: ReplyKey(replies[i]) == key && replies[i].healthy
  {
    AlwaysListedHealthy(log, at, t, key, cycles);
    var i :| 0 <= i < |replies| && ReplyKey(replies[i]) == key;
    AlwaysListedHealthy(log, at, clock(i), key, cycles);
  }

  /** The same in the midst of other RPCs: in every run of the server in which the client keeps its side and the others
      keep theirs, the bound holds of the row in the server's table. */
  lemma FreshnessInEveryRun(start: Time, es: seq<Event>, key: Key, cycles: seq<Cycle>, nextTick: Time -> Time,
                            period: nat, c: nat, d: nat)
    requires Exec(start, es).Some?
    requires var s := Exec(start, es).value;
             && |s.log| == |s.at|
             && Undisturbed(s.log, s.at, key, cycles, d)
             && Refreshed(s.log, s.at, s.clock, key, cycles, nextTick, c)
    requires TicksWithin(nextTick, period)
    ensures var s := Exec(start, es).value;
            key in s.table && s.clock - s.table[key].updatedAt <= period + 2 * c + d
  {
    Reachable(start, es);
    var s := Exec(start, es).value;
    FreshnessBound(s.log, s.at, s.clock, key, cycles, nextTick, period, c, d);
  }
}
