/** The coordinator's expiring route table and its history (src/routing.rs). */
module Routes {
  import opened Base
  import opened Leases
  import opened Prefix

  datatype SelectedRoute = SelectedRoute(prefix: Ipv4Prefix, nodeId: string)

  datatype Advertisement = Advertisement(route: SelectedRoute, expiresAt: Instant)

  // ---------- List operations the code uses ----------

  /** `Vec::retain` and `Iterator::filter`. */
  function Filter<T>(s: seq<T>, keep: T -> bool): seq<T> {
    if s == [] then []
    else
      var init, last := Filter(s[..|s| - 1], keep), s[|s| - 1];
      if keep(last) then init + [last] else init
  }

  function Unexpired(now: Instant): Advertisement -> bool {
    (ad: Advertisement) => ad.expiresAt > now
  }

  function OtherThan(nodeId: string, prefix: Ipv4Prefix): Advertisement -> bool {
    (ad: Advertisement) => !(ad.route.nodeId == nodeId && ad.route.prefix == prefix)
  }

  ghost function Always(): Advertisement -> bool {
    (_: Advertisement) => true
  }

  function Matching(destination: Address): Advertisement -> bool {
    (ad: Advertisement) => Contains(ad.route.prefix, destination)
  }

  /** `Iterator::max_by_key` on the prefix length: the last of the longest. */
  function MaxByLength(ads: seq<Advertisement>): Option<Advertisement> {
    if ads == [] then None
    else
      var last := ads[|ads| - 1];
      match MaxByLength(ads[..|ads| - 1])
      case Some(best) => if best.route.prefix.length > last.route.prefix.length then Some(best) else Some(last)
      case None => Some(last)
  }

  // ---------- History ----------

  datatype RouteEvent =
    | Advertise(nodeId: string, prefix: Ipv4Prefix, lease: Duration, at: Instant)
    | Lookup(destination: Address, at: Instant)

  ghost function Time(): RouteEvent -> Instant {
    (e: RouteEvent) => e.at
  }

  ghost predicate Chronological(history: seq<RouteEvent>) {
    InOrder(history, Time())
  }

  ghost predicate SameKey(e: RouteEvent, f: RouteEvent) {
    e.Advertise? && f.Advertise? && e.nodeId == f.nodeId && e.prefix == f.prefix
  }

  /** Advertisement `i` is the last for its node and prefix. */
  ghost predicate Latest(history: seq<RouteEvent>, i: int) {
    && 0 <= i < |history| && history[i].Advertise?
    && forall j | i < j < |history| :: !SameKey(history[j], history[i])
  }

  /** Advertisement `i` may answer a lookup: the last for its key, live, and matching. */
  ghost predicate Candidate(history: seq<RouteEvent>, i: int, destination: Address, now: Instant) {
    && Latest(history, i)
    && now < history[i].at + history[i].lease
    && Contains(history[i].prefix, destination)
  }

  /** Longest prefix first; of equally long ones, the most recently advertised. */
  ghost predicate Preferred(history: seq<RouteEvent>, i: int, j: int)
    requires 0 <= i < |history| && history[i].Advertise?
    requires 0 <= j < |history| && history[j].Advertise?
  {
    || history[i].prefix.length > history[j].prefix.length
    || (history[i].prefix.length == history[j].prefix.length && i >= j)
  }

  ghost predicate BestCandidate(history: seq<RouteEvent>, i: int, destination: Address, now: Instant) {
    && Candidate(history, i, destination, now)
    && forall j | Candidate(history, j, destination, now) :: Preferred(history, i, j)
  }

  /** The answer the history prescribes. */
  ghost predicate IsAnswer(history: seq<RouteEvent>, destination: Address, now: Instant, answer: Option<SelectedRoute>) {
    match answer
    case None => forall i :: !Candidate(history, i, destination, now)
    case Some(route) =>
      exists i :: BestCandidate(history, i, destination, now)
                  && route == SelectedRoute(history[i].prefix, history[i].nodeId)
  }

  /** Advertisement `i` was not replaced, and no later operation came at or after its deadline. */
  ghost predicate Survives(history: seq<RouteEvent>, i: int) {
    && Latest(history, i)
    && forall j | i < j < |history| :: history[j].at < history[i].at + history[i].lease
  }

  ghost function AdvertisementOf(history: seq<RouteEvent>, i: int): Advertisement {
    if 0 <= i < |history| && history[i].Advertise? then
      var e := history[i];
      Advertisement(SelectedRoute(e.prefix, e.nodeId), e.at + e.lease)
    else Advertisement(SelectedRoute(RawPrefix(0, 0), ""), 0)
  }

  ghost function Indices(n: nat): seq<int> {
    seq(n, i => i)
  }

  ghost function Surviving(history: seq<RouteEvent>): int -> bool {
    (i: int) => Survives(history, i)
  }

  /** Indices of the surviving advertisements, oldest first. */
  ghost function SurvivorIndices(history: seq<RouteEvent>): seq<int> {
    Filter(Indices(|history|), Surviving(history))
  }

  ghost function Ads(history: seq<RouteEvent>, indices: seq<int>): seq<Advertisement> {
    seq(|indices|, p requires 0 <= p < |indices| => AdvertisementOf(history, indices[p]))
  }

  /** What the vector must hold after a history. */
  ghost function Survivors(history: seq<RouteEvent>): seq<Advertisement> {
    Ads(history, SurvivorIndices(history))
  }

  // ---------- Filtering lemmas ----------

  lemma {:induction false} FilterMember<T>(s: seq<T>, keep: T -> bool, x: T)
    ensures x in Filter(s, keep) <==> x in s && keep(x)
  {
    if s != [] {
      FilterMember(s[..|s| - 1], keep, x);
      assert s == s[..|s| - 1] + [s[|s| - 1]];
    }
  }

  lemma {:induction false} FilterAll<T>(s: seq<T>, keep: T -> bool)
    requires forall x | x in s :: keep(x)
    ensures Filter(s, keep) == s
  {
    if s != [] {
      assert s == s[..|s| - 1] + [s[|s| - 1]];
      FilterAll(s[..|s| - 1], keep);
    }
  }

  lemma FilterAppend<T>(s: seq<T>, x: T, keep: T -> bool)
    ensures Filter(s + [x], keep) == Filter(s, keep) + (if keep(x) then [x] else [])
  {
    assert (s + [x])[..|s|] == s;
  }

  lemma {:induction false} FilterTwice<T>(s: seq<T>, f: T -> bool, g: T -> bool, both: T -> bool)
    requires forall x | x in s :: both(x) <==> f(x) && g(x)
    ensures Filter(Filter(s, f), g) == Filter(s, both)
  {
    if s != [] {
      var init, last := s[..|s| - 1], s[|s| - 1];
      assert s == init + [last];
      FilterTwice(init, f, g, both);
      if f(last) {
        FilterAppend(Filter(init, f), last, g);
      }
    }
  }

  ghost predicate Increasing(s: seq<int>) {
    forall p, q | 0 <= p < q < |s| :: s[p] < s[q]
  }

  /** `after` is the unexpired elements of `before`, which are at these positions, in their old order. */
  ghost predicate RetainedAt(before: seq<Advertisement>, after: seq<Advertisement>, now: Instant, positions: seq<int>) {
    && Increasing(positions)
    && |after| == |positions|
    && (forall p | 0 <= p < |positions| :: 0 <= positions[p] < |before| && after[p] == before[positions[p]])
    && (forall i | 0 <= i < |before| :: i in positions <==> now < before[i].expiresAt)
  }

  ghost predicate Retained(before: seq<Advertisement>, after: seq<Advertisement>, now: Instant) {
    exists positions :: RetainedAt(before, after, now, positions)
  }

  lemma DroppedStep(before: seq<Advertisement>, after: seq<Advertisement>, now: Instant, positions: seq<int>,
                    last: Advertisement)
    requires RetainedAt(before, after, now, positions) && last.expiresAt <= now
    ensures RetainedAt(before + [last], after, now, positions)
  {
    assert forall i | 0 <= i < |before| :: (before + [last])[i] == before[i];
  }

  lemma KeptStep(before: seq<Advertisement>, after: seq<Advertisement>, now: Instant, positions: seq<int>,
                 last: Advertisement)
    requires RetainedAt(before, after, now, positions) && now < last.expiresAt
    ensures RetainedAt(before + [last], after + [last], now, positions + [|before|])
  {
    var n, before', positions' := |before|, before + [last], positions + [|before|];
    assert forall i | 0 <= i < n :: before'[i] == before[i];
    forall i | 0 <= i <= n
      ensures i in positions' <==> now < before'[i].expiresAt
    {
      assert i in positions' <==> i in positions || i == n;
    }
  }

  lemma {:induction false} FilterRetains(s: seq<Advertisement>, now: Instant) returns (positions: seq<int>)
    ensures RetainedAt(s, Filter(s, Unexpired(now)), now, positions)
  {
    if s == [] {
      positions := [];
    } else {
      hide RetainedAt;
      var init, last := s[..|s| - 1], s[|s| - 1];
      var kept := Filter(init, Unexpired(now));
      positions := FilterRetains(init, now);
      assert s == init + [last];
      if now < last.expiresAt {
        KeptStep(init, kept, now, positions, last);
        positions := positions + [|init|];
      } else {
        DroppedStep(init, kept, now, positions, last);
      }
    }
  }

  lemma {:induction false} FilterIncreasing(s: seq<int>, keep: int -> bool)
    requires Increasing(s)
    ensures Increasing(Filter(s, keep))
  {
    if s != [] {
      var init, last := s[..|s| - 1], s[|s| - 1];
      FilterIncreasing(init, keep);
      var kept := Filter(init, keep);
      forall p | 0 <= p < |kept|
        ensures kept[p] < last
      {
        FilterMember(init, keep, kept[p]);
      }
    }
  }

  lemma {:induction false} FilterAds(history: seq<RouteEvent>, indices: seq<int>, keep: Advertisement -> bool, f: int -> bool)
    requires forall i | i in indices :: f(i) <==> keep(AdvertisementOf(history, i))
    ensures Filter(Ads(history, indices), keep) == Ads(history, Filter(indices, f))
  {
    if indices != [] {
      var init, last := indices[..|indices| - 1], indices[|indices| - 1];
      assert indices == init + [last];
      FilterAds(history, init, keep, f);
      var ads := Ads(history, indices);
      assert ads[..|ads| - 1] == Ads(history, init);
      assert last in indices;
    }
  }

  /** Survival after one more operation. */
  lemma SurvivesAfter(history: seq<RouteEvent>, e: RouteEvent, i: int)
    requires 0 <= i < |history|
    ensures Survives(history + [e], i) <==>
            && Survives(history, i)
            && e.at < history[i].at + history[i].lease && !SameKey(e, history[i])
  {
    var h' := history + [e];
    assert h'[i] == history[i] && h'[|history|] == e;
    assert forall j | i < j < |history| :: h'[j] == history[j];
  }

  /** `drop` keeps exactly the advertisements that the event does not replace. */
  ghost predicate DropsReplaced(history: seq<RouteEvent>, e: RouteEvent, drop: Advertisement -> bool) {
    forall i | 0 <= i < |history| && history[i].Advertise? ::
      drop(AdvertisementOf(history, i)) <==> !SameKey(e, history[i])
  }

  /** Pruning and dropping the replaced advertisement keep exactly the earlier survivors. */
  lemma KeptAreSurvivors(history: seq<RouteEvent>, e: RouteEvent, drop: Advertisement -> bool)
    requires DropsReplaced(history, e, drop)
    ensures Filter(Filter(Survivors(history), Unexpired(e.at)), drop) ==
            Ads(history, Filter(Indices(|history|), Surviving(history + [e])))
  {
    var live := (i: int) => Unexpired(e.at)(AdvertisementOf(history, i));
    var other := (i: int) => drop(AdvertisementOf(history, i));
    var both := (i: int) => Survives(history, i) && live(i);
    var all := Indices(|history|);
    FilterAds(history, SurvivorIndices(history), Unexpired(e.at), live);
    FilterTwice(all, Surviving(history), live, both);
    FilterAds(history, Filter(all, both), drop, other);
    forall i | i in all
      ensures Surviving(history + [e])(i) <==> both(i) && other(i)
    {
      SurvivesAfter(history, e, i);
    }
    FilterTwice(all, both, other, Surviving(history + [e]));
  }

  /** Pruning, dropping the replaced advertisement and appending keep exactly the survivors. */
  lemma SurvivorsAfter(history: seq<RouteEvent>, e: RouteEvent, drop: Advertisement -> bool)
    requires DropsReplaced(history, e, drop)
    ensures var kept := Filter(Filter(Survivors(history), Unexpired(e.at)), drop);
            Survivors(history + [e]) ==
            kept + (if e.Advertise? then [AdvertisementOf(history + [e], |history|)] else [])
  {
    var h', n := history + [e], |history|;
    var kept := Filter(Indices(n), Surviving(h'));
    KeptAreSurvivors(history, e, drop);
    assert Indices(n + 1) == Indices(n) + [n];
    FilterAppend(Indices(n), n, Surviving(h'));
    assert h'[n] == e && (Survives(h', n) <==> e.Advertise?);
    forall p | 0 <= p < |kept|
      ensures AdvertisementOf(h', kept[p]) == AdvertisementOf(history, kept[p])
    {
      FilterMember(Indices(n), Surviving(h'), kept[p]);
    }
    assert Ads(h', kept) == Ads(history, kept);
  }

  /** What an advertisement does to the survivors. */
  lemma AdvertisedSurvivors(history: seq<RouteEvent>, nodeId: string, prefix: Ipv4Prefix, lease: Duration, now: Instant)
    ensures Survivors(history + [RouteEvent.Advertise(nodeId, prefix, lease, now)]) ==
            Filter(Filter(Survivors(history), Unexpired(now)), OtherThan(nodeId, prefix)) +
            [Advertisement(SelectedRoute(prefix, nodeId), now + lease)]
  {
    var event := RouteEvent.Advertise(nodeId, prefix, lease, now);
    OtherDropsReplaced(history, event);
    hide Survivors, Filter, Unexpired, OtherThan, DropsReplaced;
    SurvivorsAfter(history, event, OtherThan(nodeId, prefix));
    assert (history + [event])[|history|] == event;
  }

  lemma OtherDropsReplaced(history: seq<RouteEvent>, e: RouteEvent)
    requires e.Advertise?
    ensures DropsReplaced(history, e, OtherThan(e.nodeId, e.prefix))
  {
  }

  /** What a lookup does to the survivors: it only prunes them. */
  lemma QueriedSurvivors(history: seq<RouteEvent>, destination: Address, now: Instant)
    ensures Survivors(history + [RouteEvent.Lookup(destination, now)]) == Filter(Survivors(history), Unexpired(now))
  {
    var event := RouteEvent.Lookup(destination, now);
    assert DropsReplaced(history, event, Always());
    hide Survivors, Unexpired, DropsReplaced;
    SurvivorsAfter(history, event, Always());
    FilterAll(Filter(Survivors(history), Unexpired(now)), Always());
  }

  // ---------- Selection ----------

  lemma {:induction false} MaxByLengthIsLastMaximum(ads: seq<Advertisement>) returns (p: int)
    requires ads != []
    ensures 0 <= p < |ads| && MaxByLength(ads) == Some(ads[p])
    ensures forall q | 0 <= q < |ads| ::
              || ads[p].route.prefix.length > ads[q].route.prefix.length
              || (ads[p].route.prefix.length == ads[q].route.prefix.length && p >= q)
  {
    var init := ads[..|ads| - 1];
    if init == [] {
      p := 0;
    } else {
      p := MaxByLengthIsLastMaximum(init);
      if ads[p].route.prefix.length <= ads[|ads| - 1].route.prefix.length {
        p := |ads| - 1;
      }
    }
  }

  /** The matching live entries of the surviving vector are the candidates, oldest first. */
  lemma MatchesAreCandidates(history: seq<RouteEvent>, destination: Address, now: Instant) returns (chosen: seq<int>)
    requires Chronological(history)
    requires forall i | 0 <= i < |history| :: history[i].at <= now
    ensures Increasing(chosen)
    ensures forall i :: i in chosen <==> Candidate(history, i, destination, now)
    ensures Filter(Filter(Survivors(history), Unexpired(now)), Matching(destination)) == Ads(history, chosen)
  {
    var survives := Surviving(history);
    var live := (i: int) => Unexpired(now)(AdvertisementOf(history, i));
    var contains := (i: int) => Matching(destination)(AdvertisementOf(history, i));
    var all := Indices(|history|);
    var surviving := Filter(all, survives);
    var alive := Filter(surviving, live);
    chosen := Filter(alive, contains);
    FilterAds(history, surviving, Unexpired(now), live);
    FilterAds(history, alive, Matching(destination), contains);
    FilterIncreasing(all, survives);
    FilterIncreasing(surviving, live);
    FilterIncreasing(alive, contains);
    forall i
      ensures i in chosen <==> Candidate(history, i, destination, now)
    {
      FilterMember(alive, contains, i);
      FilterMember(surviving, live, i);
      FilterMember(all, survives, i);
      assert 0 <= i < |history| ==> all[i] == i;
    }
  }

  /** The code's selection over the surviving vector is the answer its history prescribes. */
  lemma SelectionIsAnswer(history: seq<RouteEvent>, destination: Address, now: Instant)
    requires Chronological(history)
    requires forall i | 0 <= i < |history| :: history[i].at <= now
    ensures var matches := Filter(Filter(Survivors(history), Unexpired(now)), Matching(destination));
            var best := MaxByLength(matches);
            IsAnswer(history, destination, now, match best case Some(ad) => Some(ad.route) case None => None)
  {
    var chosen := MatchesAreCandidates(history, destination, now);
    var matches := Ads(history, chosen);
    if matches == [] {
      assert chosen == [];
    } else {
      var p := MaxByLengthIsLastMaximum(matches);
      assert chosen[p] in chosen && matches[p] == AdvertisementOf(history, chosen[p]);
      forall j | Candidate(history, j, destination, now)
        ensures Preferred(history, chosen[p], j)
      {
        var q :| 0 <= q < |chosen| && chosen[q] == j;
        assert matches[q] == AdvertisementOf(history, j);
      }
      assert BestCandidate(history, chosen[p], destination, now);
    }
  }

  /** The prescribed answer is unique. */
  lemma AnswerUnique(history: seq<RouteEvent>, destination: Address, now: Instant, a: Option<SelectedRoute>, b: Option<SelectedRoute>)
    requires IsAnswer(history, destination, now, a) && IsAnswer(history, destination, now, b)
    ensures a == b
  {
    if a.Some? && b.Some? {
      var i :| BestCandidate(history, i, destination, now)
               && a.value == SelectedRoute(history[i].prefix, history[i].nodeId);
      var j :| BestCandidate(history, j, destination, now)
               && b.value == SelectedRoute(history[j].prefix, history[j].nodeId);
      assert Preferred(history, i, j) && Preferred(history, j, i);
    }
  }

  /** The selected prefix lies within the prefix of every other live match, and no other prefix is as long. */
  lemma AnswerIsMostSpecific(history: seq<RouteEvent>, destination: Address, now: Instant, route: SelectedRoute, j: int)
    requires IsAnswer(history, destination, now, Some(route))
    requires Candidate(history, j, destination, now)
    ensures Within(route.prefix, history[j].prefix)
    ensures history[j].prefix.length == route.prefix.length ==> history[j].prefix == route.prefix
  {
    var i :| BestCandidate(history, i, destination, now)
             && route == SelectedRoute(history[i].prefix, history[i].nodeId);
    assert Preferred(history, i, j);
    assert Overlap(route.prefix, history[j].prefix) by {
      assert Contains(route.prefix, destination) && Contains(history[j].prefix, destination);
    }
    NestedOrDisjoint(route.prefix, history[j].prefix);
  }

  // ---------- The registry ----------

  class RouteRegistry {
    var advertisements: seq<Advertisement>
    ghost var history: seq<RouteEvent>

    ghost predicate Valid()
      reads this
    {
      advertisements == Survivors(history)
    }

    constructor ()
      ensures Valid() && history == []
    {
      advertisements := [];
      history := [];
    }

    /** Inserts or refreshes one node's advertisement; the refreshed one moves to the end. */
    method Advertise(nodeId: string, prefix: Ipv4Prefix, lease: Duration, now: Instant)
      requires Valid()
      modifies this
      ensures Valid()
      ensures history == old(history) + [RouteEvent.Advertise(nodeId, prefix, lease, now)]
    {
      hide Survivors, Filter, Retained, Unexpired, OtherThan;
      ghost var event := RouteEvent.Advertise(nodeId, prefix, lease, now);
      AdvertisedSurvivors(history, nodeId, prefix, lease, now);
      RemoveExpired(now);
      var expiresAt := now + lease;
      advertisements := Filter(advertisements, OtherThan(nodeId, prefix));
      advertisements := advertisements + [Advertisement(SelectedRoute(prefix, nodeId), expiresAt)];
      history := history + [event];
    }

    /** The longest live matching prefix; on a chronological history, what the history prescribes. */
    method Lookup(destination: Address, now: Instant) returns (route: Option<SelectedRoute>)
      requires Valid()
      modifies this
      ensures Valid()
      ensures history == old(history) + [RouteEvent.Lookup(destination, now)]
      ensures Chronological(history) ==> IsAnswer(old(history), destination, now, route)
    {
      hide Survivors, Filter, Retained, Unexpired, Matching, MaxByLength, IsAnswer;
      QueriedSurvivors(history, destination, now);
      RemoveExpired(now);
      var matches := Filter(advertisements, Matching(destination));
      var best := MaxByLength(matches);
      route := match best case Some(ad) => Some(ad.route) case None => None;
      ghost var before := history;
      history := history + [RouteEvent.Lookup(destination, now)];
      if Chronological(history) {
        InOrderPrefix(before, RouteEvent.Lookup(destination, now), Time());
        SelectionIsAnswer(before, destination, now);
      }
    }

    /** An advertisement stays, unchanged and in its place among the others, exactly while its deadline
        is ahead. */
    method RemoveExpired(now: Instant)
      modifies this`advertisements
      ensures Retained(old(advertisements), advertisements, now)
      ensures advertisements == Filter(old(advertisements), Unexpired(now))
    {
      ghost var positions := FilterRetains(advertisements, now);
      hide RetainedAt, Filter;
      advertisements := Filter(advertisements, Unexpired(now));
    }
  }
}
