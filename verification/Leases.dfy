/**
  Tables whose entries expire. The coordinator and the firewall keep such tables as hash maps
  that are pruned before every operation. A table is specified here by the whole history of
  the operations on it, in which nothing is ever pruned.
*/
module Leases {
  import opened Base

  /** Monotonic clock readings and intervals, in nanoseconds. */
  type Instant = nat
  type Duration = nat

  const SECOND: Duration := 1_000_000_000

  datatype Entry<V> = Entry(value: V, expiresAt: Instant)

  /** What one operation at time `at` does to a table, after the pruning it starts with. */
  datatype LeaseEvent<K, V> =
    | Put(key: K, value: V, expiresAt: Instant, at: Instant)
    | Take(key: K, at: Instant)
    | Tick(at: Instant)

  /** `HashMap::retain` with the expiry test: an entry is dead exactly at its deadline. */
  function Prune<K, V>(table: map<K, Entry<V>>, now: Instant): map<K, Entry<V>> {
    map key | key in table && table[key].expiresAt > now :: table[key]
  }

  ghost predicate Touches<K, V>(e: LeaseEvent<K, V>, key: K) {
    !e.Tick? && e.key == key
  }

  /** The `i`-th event stored an entry that no later event replaced, took out or outlived. */
  ghost predicate Current<K, V>(history: seq<LeaseEvent<K, V>>, i: int) {
    && 0 <= i < |history|
    && history[i].Put?
    && forall j | i < j < |history| ::
         history[j].at < history[i].expiresAt && !Touches(history[j], history[i].key)
  }

  /** A table holds exactly the current entries of its history. */
  ghost predicate Represents<K(!new), V(!new)>(table: map<K, Entry<V>>, history: seq<LeaseEvent<K, V>>) {
    && (forall key | key in table :: exists i :: Current(history, i) && history[i].key == key)
    && (forall i | Current(history, i) ::
          && history[i].key in table
          && table[history[i].key] == Entry(history[i].value, history[i].expiresAt))
  }

  /** The clock never ran back over a history. */
  ghost predicate InOrder<E>(history: seq<E>, time: E -> Instant) {
    forall i, j | 0 <= i <= j < |history| :: time(history[i]) <= time(history[j])
  }

  lemma InOrderPrefix<E>(history: seq<E>, e: E, time: E -> Instant)
    requires InOrder(history + [e], time)
    ensures InOrder(history, time)
    ensures forall i | 0 <= i < |history| :: time(history[i]) <= time(e)
  {
    var h' := history + [e];
    assert forall i | 0 <= i < |history| :: h'[i] == history[i] && h'[|history|] == e;
  }

  ghost function EventTime<K, V>(): LeaseEvent<K, V> -> Instant {
    (e: LeaseEvent<K, V>) => e.at
  }

  ghost predicate ClockOrdered<K, V>(history: seq<LeaseEvent<K, V>>) {
    InOrder(history, EventTime())
  }

  /** The step of the code: prune, then apply the event. */
  function Stepped<K, V>(table: map<K, Entry<V>>, e: LeaseEvent<K, V>): map<K, Entry<V>> {
    var pruned := Prune(table, e.at);
    match e
    case Put(key, value, expiresAt, _) => pruned[key := Entry(value, expiresAt)]
    case Take(key, _) => pruned - {key}
    case Tick(_) => pruned
  }

  lemma CurrentAfter<K, V>(history: seq<LeaseEvent<K, V>>, e: LeaseEvent<K, V>, i: int)
    requires 0 <= i < |history|
    ensures Current(history + [e], i) <==>
            && Current(history, i)
            && e.at < history[i].expiresAt && !Touches(e, history[i].key)
  {
    var h' := history + [e];
    assert h'[i] == history[i] && h'[|history|] == e;
    assert forall j | i < j < |history| :: h'[j] == history[j];
  }

  /** Pruning is invisible: one step keeps the table equal to its history. */
  lemma StepRepresents<K(!new), V(!new)>(
    table: map<K, Entry<V>>, history: seq<LeaseEvent<K, V>>, e: LeaseEvent<K, V>)
    requires Represents(table, history)
    ensures Represents(Stepped(table, e), history + [e])
  {
    var h', t' := history + [e], Stepped(table, e);
    assert h'[|history|] == e;
    assert forall i | 0 <= i < |history| :: h'[i] == history[i];
    forall key | key in t'
      ensures exists i :: Current(h', i) && h'[i].key == key
    {
      if e.Put? && e.key == key {
        assert Current(h', |history|);
      } else {
        var i :| Current(history, i) && history[i].key == key;
        CurrentAfter(history, e, i);
      }
    }
    forall i | Current(h', i)
      ensures h'[i].key in t' && t'[h'[i].key] == Entry(h'[i].value, h'[i].expiresAt)
    {
      if i < |history| {
        CurrentAfter(history, e, i);
      }
    }
  }

  /** Every stored entry was put by an event that still holds its key. */
  lemma StoredIsCurrent<K(!new), V(!new)>(table: map<K, Entry<V>>, history: seq<LeaseEvent<K, V>>, key: K) returns (i: nat)
    requires Represents(table, history) && key in table
    ensures i < |history| && Current(history, i)
    ensures history[i] == Put(key, table[key].value, table[key].expiresAt, history[i].at)
  {
    i :| Current(history, i) && history[i].key == key;
  }

  // ---------- Answers from the history alone ----------

  /** The last event to touch a key, if it stored an entry. */
  function LatestPut<K(==), V>(history: seq<LeaseEvent<K, V>>, key: K): (r: Option<LeaseEvent<K, V>>)
    ensures r.Some? ==> r.value.Put? && r.value.key == key
  {
    if history == [] then None
    else
      var last := history[|history| - 1];
      if last.Put? && last.key == key then Some(last)
      else if last.Take? && last.key == key then None
      else LatestPut(history[..|history| - 1], key)
  }

  /** What a table holds for a key at time `now`: the latest entry, unless its deadline has come. */
  function Answer<K(==), V>(history: seq<LeaseEvent<K, V>>, key: K, now: Instant): Option<V> {
    match LatestPut(history, key)
    case Some(put) => if now < put.expiresAt then Some(put.value) else None
    case None => None
  }

  /** Only the events that touch the table. */
  function DropTicks<K, V>(history: seq<LeaseEvent<K, V>>): seq<LeaseEvent<K, V>> {
    if history == [] then []
    else
      var init, last := DropTicks(history[..|history| - 1]), history[|history| - 1];
      if last.Tick? then init else init + [last]
  }

  /** Operations that do not touch a table never change its answers, although they prune it. */
  lemma {:induction false} TicksDoNotMatter<K, V>(history: seq<LeaseEvent<K, V>>, key: K)
    ensures LatestPut(DropTicks(history), key) == LatestPut(history, key)
  {
    if history != [] {
      var init, last := history[..|history| - 1], history[|history| - 1];
      TicksDoNotMatter(init, key);
      var kept := DropTicks(init);
      if !last.Tick? {
        assert (kept + [last])[..|kept|] == kept;
      }
    }
  }

  /** Index of the latest store. */
  lemma {:induction false} LatestPutIndex<K, V>(history: seq<LeaseEvent<K, V>>, key: K) returns (i: int)
    ensures LatestPut(history, key).Some? ==>
              && 0 <= i < |history| && history[i] == LatestPut(history, key).value
              && forall j | i < j < |history| :: !Touches(history[j], key)
    ensures LatestPut(history, key).None? ==>
              forall k | 0 <= k < |history| && history[k].Put? && history[k].key == key ::
                exists j :: k < j < |history| && Touches(history[j], key)
  {
    i := -1;
    if history != [] {
      var n := |history| - 1;
      var last := history[n];
      if last.Put? && last.key == key {
        i := n;
      } else if last.Take? && last.key == key {
        assert Touches(history[n], key);
      } else {
        i := LatestPutIndex(history[..n], key);
        if LatestPut(history, key).None? {
          forall k | 0 <= k < |history| && history[k].Put? && history[k].key == key
            ensures exists j :: k < j < |history| && Touches(history[j], key)
          {
            var j :| k < j < n && Touches(history[..n][j], key);
            assert Touches(history[j], key);
          }
        }
      }
    }
  }

  /** On a chronological history, the pruned table answers exactly as the unpruned history. */
  lemma TableAnswers<K(!new), V(!new)>(
    table: map<K, Entry<V>>, history: seq<LeaseEvent<K, V>>, key: K, now: Instant)
    requires Represents(table, history) && ClockOrdered(history)
    requires forall j | 0 <= j < |history| :: history[j].at <= now
    ensures var pruned := Prune(table, now);
            Answer(history, key, now) == if key in pruned then Some(pruned[key].value) else None
  {
    var pruned := Prune(table, now);
    var i := LatestPutIndex(history, key);
    if key in pruned {
      var k :| Current(history, k) && history[k].key == key;
      if LatestPut(history, key).Some? {
        assert k == i by {
          if k < i {
            assert Touches(history[i], key);
          } else if i < k {
            assert Touches(history[k], key);
          }
        }
      }
    } else if LatestPut(history, key).Some? && now < history[i].expiresAt {
      assert Current(history, i);
    }
  }
}
