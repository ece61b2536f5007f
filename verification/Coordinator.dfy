/** The learning coordinator and the authenticated coordinator (src/coordinator.rs). */
module Coordinator {
  import opened Base
  import opened Leases
  import opened Prefix
  import R = Routes
  import opened Signing

  // ---------- MESHLET/1: unauthenticated registry ----------

  datatype Request =
    | Register(nodeId: string, lease: Duration)
    | Lookup(nodeId: string)
    | AdvertiseRoute(nodeId: string, prefix: Ipv4Prefix, lease: Duration)
    | RouteLookup(destination: Address)

  datatype Response =
    | Registered(nodeId: string, observedEndpoint: SocketAddr, lease: Duration)
    | Found(nodeId: string, observedEndpoint: SocketAddr)
    | NotFound(nodeId: string)
    | RouteAdvertised(nodeId: string, prefix: Ipv4Prefix, lease: Duration)
    | RouteFound(destination: Address, prefix: Ipv4Prefix, nodeId: string)
    | RouteNotFound(destination: Address)

  datatype Handled = Handled(request: Request, source: SocketAddr, at: Instant)

  ghost function Time(): Handled -> Instant {
    (h: Handled) => h.at
  }

  ghost predicate Chronological(history: seq<Handled>) {
    InOrder(history, Time())
  }

  /** What each request does to the endpoint table: route requests only prune it. */
  ghost function EndpointEvent(h: Handled): LeaseEvent<string, SocketAddr> {
    if h.request.Register? then Put(h.request.nodeId, h.source, h.at + h.request.lease, h.at) else Tick(h.at)
  }

  ghost function EndpointEvents(history: seq<Handled>): seq<LeaseEvent<string, SocketAddr>> {
    seq(|history|, i requires 0 <= i < |history| => EndpointEvent(history[i]))
  }

  /** The registrations alone, without a trace of any other request. */
  ghost function Registrations(history: seq<Handled>): seq<LeaseEvent<string, SocketAddr>> {
    if history == [] then []
    else
      var init, last := Registrations(history[..|history| - 1]), history[|history| - 1];
      if last.request.Register? then init + [EndpointEvent(last)] else init
  }

  /** The route requests alone, as the route table sees them. */
  ghost function RouteEvents(history: seq<Handled>): seq<R.RouteEvent> {
    if history == [] then []
    else
      var init, last := RouteEvents(history[..|history| - 1]), history[|history| - 1];
      match last.request
      case AdvertiseRoute(nodeId, prefix, lease) => init + [R.Advertise(nodeId, prefix, lease, last.at)]
      case RouteLookup(destination) => init + [R.Lookup(destination, last.at)]
      case _ => init
  }

  /** The response the history prescribes: endpoint answers depend on the registrations alone,
      route answers on the route requests alone. */
  ghost predicate Prescribed(history: seq<Handled>, h: Handled, response: Response) {
    match h.request
    case Register(nodeId, lease) => response == Registered(nodeId, h.source, lease)
    case Lookup(nodeId) =>
      (match Answer(Registrations(history), nodeId, h.at)
       case Some(endpoint) => response == Found(nodeId, endpoint)
       case None => response == NotFound(nodeId))
    case AdvertiseRoute(nodeId, prefix, lease) => response == RouteAdvertised(nodeId, prefix, lease)
    case RouteLookup(destination) =>
      && (response == RouteNotFound(destination) ||
          (response.RouteFound? && response.destination == destination))
      && R.IsAnswer(RouteEvents(history), destination, h.at,
           if response.RouteFound? then Some(R.SelectedRoute(response.prefix, response.nodeId)) else None)
  }

  class Registry {
    var registrations: map<string, Entry<SocketAddr>>
    const routes: R.RouteRegistry
    ghost var history: seq<Handled>

    ghost predicate Valid()
      reads this, routes
    {
      && Represents(registrations, EndpointEvents(history))
      && routes.Valid()
      && routes.history == RouteEvents(history)
    }

    constructor ()
      ensures Valid() && fresh(routes) && history == [] && registrations == map[]
    {
      registrations := map[];
      routes := new R.RouteRegistry();
      history := [];
    }

    /** Applies one request. */
    method Handle(request: Request, source: SocketAddr, now: Instant) returns (response: Response)
      requires Valid()
      modifies this, routes
      ensures Valid()
      ensures history == old(history) + [Handled(request, source, now)]
      ensures Chronological(history) ==> Prescribed(old(history), Handled(request, source, now), response)
    {
      hide Represents, EndpointEvents, RouteEvents, Prune, Answer, Registrations, R.IsAnswer, InOrder;
      ghost var h := Handled(request, source, now);
      ghost var before := history;
      ghost var table := registrations;
      RemoveExpired(now);
      match request {
        case Register(nodeId, lease) =>
          var expiresAt := now + lease;
          registrations := registrations[nodeId := Entry(source, expiresAt)];
          response := Registered(nodeId, source, lease);
        case Lookup(nodeId) =>
          if nodeId in registrations {
            response := Found(nodeId, registrations[nodeId].value);
          } else {
            response := NotFound(nodeId);
          }
        case AdvertiseRoute(nodeId, prefix, lease) =>
          routes.Advertise(nodeId, prefix, lease, now);
          response := RouteAdvertised(nodeId, prefix, lease);
        case RouteLookup(destination) =>
          var route := routes.Lookup(destination, now);
          response := match route
            case Some(r) => RouteFound(destination, r.prefix, r.nodeId)
            case None => RouteNotFound(destination);
      }
      history := history + [h];
      EndpointStep(table, before, h);
      RouteStep(before, h);
      if Chronological(history) {
        InOrderPrefix(before, h, Time());
        if request.Lookup? {
          LookupAnswers(table, before, request.nodeId, now);
        } else if request.RouteLookup? {
          RouteEventsChronological(history);
        }
      }
    }

    /** A registration stays, unchanged, exactly while its deadline is ahead. */
    method RemoveExpired(now: Instant)
      modifies this`registrations
      ensures forall id :: id in registrations <==> id in old(registrations) && now < old(registrations)[id].expiresAt
      ensures forall id | id in registrations :: registrations[id] == old(registrations)[id]
      ensures registrations == Prune(old(registrations), now)
    {
      registrations := map id | id in registrations && registrations[id].expiresAt > now :: registrations[id];
    }
  }

  /** What one request does to the endpoint table. */
  function EndpointsAfter(table: map<string, Entry<SocketAddr>>, h: Handled): map<string, Entry<SocketAddr>> {
    var pruned := Prune(table, h.at);
    if h.request.Register? then pruned[h.request.nodeId := Entry(h.source, h.at + h.request.lease)] else pruned
  }

  lemma EndpointStep(table: map<string, Entry<SocketAddr>>, history: seq<Handled>, h: Handled)
    requires Represents(table, EndpointEvents(history))
    ensures Represents(EndpointsAfter(table, h), EndpointEvents(history + [h]))
  {
    hide Represents, Prune;
    StepRepresents(table, EndpointEvents(history), EndpointEvent(h));
    assert EndpointEvents(history + [h]) == EndpointEvents(history) + [EndpointEvent(h)];
  }

  lemma RouteStep(history: seq<Handled>, h: Handled)
    ensures RouteEvents(history + [h]) == RouteEvents(history) +
              (match h.request
               case AdvertiseRoute(nodeId, prefix, lease) => [R.Advertise(nodeId, prefix, lease, h.at)]
               case RouteLookup(destination) => [R.Lookup(destination, h.at)]
               case _ => [])
  {
    assert (history + [h])[..|history|] == history;
  }

  lemma {:induction false} RegistrationsAreTouches(history: seq<Handled>)
    ensures Registrations(history) == DropTicks(EndpointEvents(history))
  {
    if history != [] {
      var init := history[..|history| - 1];
      RegistrationsAreTouches(init);
      var events := EndpointEvents(history);
      assert events[..|events| - 1] == EndpointEvents(init);
    }
  }

  lemma EventsOrdered(history: seq<Handled>, now: Instant)
    requires Chronological(history) && forall i | 0 <= i < |history| :: history[i].at <= now
    ensures ClockOrdered(EndpointEvents(history))
    ensures forall i | 0 <= i < |EndpointEvents(history)| :: EndpointEvents(history)[i].at <= now
  {
    var events := EndpointEvents(history);
    assert forall i | 0 <= i < |history| :: events[i].at == history[i].at;
  }

  /** The pruned endpoint table answers as the registrations alone do. */
  lemma {:induction false} LookupAnswers(table: map<string, Entry<SocketAddr>>, history: seq<Handled>, nodeId: string, now: Instant)
    requires Represents(table, EndpointEvents(history)) && Chronological(history)
    requires forall i | 0 <= i < |history| :: history[i].at <= now
    ensures var pruned := Prune(table, now);
            Answer(Registrations(history), nodeId, now) ==
            if nodeId in pruned then Some(pruned[nodeId].value) else None
  {
    EventsOrdered(history, now);
    hide Represents, EndpointEvents, Registrations, LatestPut, ClockOrdered, Chronological;
    TableAnswers(table, EndpointEvents(history), nodeId, now);
    RegistrationsAreTouches(history);
    TicksDoNotMatter(EndpointEvents(history), nodeId);
  }

  lemma {:induction false} RouteEventsChronological(history: seq<Handled>)
    requires Chronological(history)
    ensures R.Chronological(RouteEvents(history))
    ensures forall i | 0 <= i < |RouteEvents(history)| ::
              RouteEvents(history)[i].at <= history[|history| - 1].at
  {
    if history != [] {
      var init, last := history[..|history| - 1], history[|history| - 1];
      RouteEventsChronological(init);
      assert init != [] ==> init[|init| - 1].at <= last.at;
      assert RouteEvents(init) != [] ==> init != [];
    }
  }

  ghost predicate Registers(h: Handled, nodeId: string) {
    h.request.Register? && h.request.nodeId == nodeId
  }

  /** The `i`-th request is the last to register the node. */
  ghost predicate LastRegistration(history: seq<Handled>, nodeId: string, i: int) {
    && 0 <= i < |history| && Registers(history[i], nodeId)
    && forall j | i < j < |history| :: !Registers(history[j], nodeId)
  }

  lemma RegistersIsTouch(history: seq<Handled>, nodeId: string, i: nat)
    requires i < |history|
    ensures Touches(EndpointEvents(history)[i], nodeId) <==> Registers(history[i], nodeId)
    ensures Registers(history[i], nodeId) ==>
              EndpointEvents(history)[i] ==
              Put(nodeId, history[i].source, history[i].at + history[i].request.lease, history[i].at)
  {
  }

  lemma LatestIsLastRegistration(history: seq<Handled>, nodeId: string) returns (i: int)
    ensures var latest := LatestPut(EndpointEvents(history), nodeId);
            if latest.Some? then
              && LastRegistration(history, nodeId, i)
              && latest.value == Put(nodeId, history[i].source, history[i].at + history[i].request.lease, history[i].at)
            else forall k :: !LastRegistration(history, nodeId, k)
  {
    var events := EndpointEvents(history);
    i := LatestPutIndex(events, nodeId);
    hide LatestPut, EndpointEvents, Touches;
    assert |events| == |history| by { EventsLength(history); }
    forall k | 0 <= k < |history|
      ensures Touches(events[k], nodeId) <==> Registers(history[k], nodeId)
      ensures Registers(history[k], nodeId) ==>
                events[k] == Put(nodeId, history[k].source, history[k].at + history[k].request.lease, history[k].at)
    {
      RegistersIsTouch(history, nodeId, k);
    }
    if LatestPut(events, nodeId).Some? {
      PutTouches(events[i]);
    } else {
      forall k | 0 <= k < |history| && Registers(history[k], nodeId)
        ensures exists j :: k < j < |history| && Registers(history[j], nodeId)
      {
        assert events[k].Put? && events[k].key == nodeId;
        var j :| k < j < |events| && Touches(events[j], nodeId);
      }
    }
  }

  lemma EventsLength(history: seq<Handled>)
    ensures |EndpointEvents(history)| == |history|
  {
  }

  lemma PutTouches(e: LeaseEvent<string, SocketAddr>)
    ensures e.Put? ==> Touches(e, e.key)
  {
  }

  /** A registration answers lookups of its node exactly until its deadline or a later registration. */
  lemma {:induction false} EndpointAnswerExact(history: seq<Handled>, nodeId: string, now: Instant, endpoint: SocketAddr)
    ensures Answer(Registrations(history), nodeId, now) == Some(endpoint) <==>
            exists i ::
              && LastRegistration(history, nodeId, i)
              && history[i].source == endpoint && now < history[i].at + history[i].request.lease
  {
    hide LatestPut, EndpointEvents, Registrations;
    RegistrationsAreTouches(history);
    TicksDoNotMatter(EndpointEvents(history), nodeId);
    var i := LatestIsLastRegistration(history, nodeId);
    forall k | LastRegistration(history, nodeId, k) && LastRegistration(history, nodeId, i)
      ensures k == i
    {
    }
  }

  // ---------- Route answers in terms of all requests ----------

  /** Advertisement `i` may answer: the last for its node and prefix, live, and containing the destination. */
  ghost predicate RouteCandidate(history: seq<Handled>, i: int, destination: Address, now: Instant) {
    && 0 <= i < |history| && history[i].request.AdvertiseRoute?
    && var a := history[i].request;
    && (forall j | i < j < |history| && history[j].request.AdvertiseRoute? ::
          !(history[j].request.nodeId == a.nodeId && history[j].request.prefix == a.prefix))
    && now < history[i].at + a.lease && Contains(a.prefix, destination)
  }

  /** Candidate `i` is preferred to all: longer, or as long and as recent. */
  ghost predicate BestRoute(history: seq<Handled>, i: int, destination: Address, now: Instant) {
    && RouteCandidate(history, i, destination, now)
    && forall j | RouteCandidate(history, j, destination, now) ::
         || history[j].request.prefix.length < history[i].request.prefix.length
         || (history[j].request.prefix.length == history[i].request.prefix.length && j <= i)
  }

  ghost predicate IsRouteRequest(h: Handled) {
    h.request.AdvertiseRoute? || h.request.RouteLookup?
  }

  ghost function RouteEventOf(h: Handled): R.RouteEvent
    requires IsRouteRequest(h)
  {
    match h.request
    case AdvertiseRoute(nodeId, prefix, lease) => R.Advertise(nodeId, prefix, lease, h.at)
    case RouteLookup(destination) => R.Lookup(destination, h.at)
  }

  /** Route event `p` is what request `positions[p]` asked, and no route request is left out. */
  ghost predicate RoutesAt(history: seq<Handled>, events: seq<R.RouteEvent>, positions: seq<int>) {
    && |positions| == |events| && R.Increasing(positions)
    && (forall p | 0 <= p < |positions| ::
          && 0 <= positions[p] < |history| && IsRouteRequest(history[positions[p]])
          && events[p] == RouteEventOf(history[positions[p]]))
    && (forall i | 0 <= i < |history| && IsRouteRequest(history[i]) :: i in positions)
  }

  lemma RoutesAtStep(history: seq<Handled>, events: seq<R.RouteEvent>, positions: seq<int>, h: Handled)
    requires RoutesAt(history, events, positions)
    ensures IsRouteRequest(h) ==> RoutesAt(history + [h], events + [RouteEventOf(h)], positions + [|history|])
    ensures !IsRouteRequest(h) ==> RoutesAt(history + [h], events, positions)
  {
    var history', n := history + [h], |history|;
    assert history'[n] == h && forall i | 0 <= i < n :: history'[i] == history[i];
    assert forall i :: i in positions + [n] <==> i in positions || i == n;
  }

  lemma {:induction false} RoutePositions(history: seq<Handled>) returns (positions: seq<int>)
    ensures RoutesAt(history, RouteEvents(history), positions)
  {
    positions := [];
    if history != [] {
      var init, last := history[..|history| - 1], history[|history| - 1];
      positions := RoutePositions(init);
      hide RoutesAt;
      RoutesAtStep(init, RouteEvents(init), positions, last);
      assert history == init + [last];
      if IsRouteRequest(last) {
        positions := positions + [|init|];
      }
    }
  }

  lemma CandidatesAgree(history: seq<Handled>, events: seq<R.RouteEvent>, positions: seq<int>, p: int,
                        destination: Address, now: Instant)
    requires RoutesAt(history, events, positions) && 0 <= p < |positions|
    ensures R.Candidate(events, p, destination, now) <==> RouteCandidate(history, positions[p], destination, now)
  {
    hide Contains;
    if R.Candidate(events, p, destination, now) {
      forall j | positions[p] < j < |history| && history[j].request.AdvertiseRoute?
        ensures !(history[j].request.nodeId == history[positions[p]].request.nodeId
                  && history[j].request.prefix == history[positions[p]].request.prefix)
      {
        assert IsRouteRequest(history[j]);
        var q :| 0 <= q < |positions| && positions[q] == j;
        assert q > p;
        assert !R.SameKey(events[q], events[p]);
      }
    }
    if RouteCandidate(history, positions[p], destination, now) {
      forall q | p < q < |events|
        ensures !R.SameKey(events[q], events[p])
      {
        assert positions[p] < positions[q];
      }
    }
  }

  lemma BestAgree(history: seq<Handled>, events: seq<R.RouteEvent>, positions: seq<int>, p: int,
                  destination: Address, now: Instant)
    requires RoutesAt(history, events, positions) && 0 <= p < |positions|
    ensures R.BestCandidate(events, p, destination, now) <==> BestRoute(history, positions[p], destination, now)
  {
    CandidatesAgree(history, events, positions, p, destination, now);
    hide R.Candidate, RouteCandidate;
    forall q | 0 <= q < |positions|
      ensures R.Candidate(events, q, destination, now) <==> RouteCandidate(history, positions[q], destination, now)
    {
      CandidatesAgree(history, events, positions, q, destination, now);
    }
    if R.BestCandidate(events, p, destination, now) {
      forall j | RouteCandidate(history, j, destination, now)
        ensures history[j].request.prefix.length < history[positions[p]].request.prefix.length
                || (history[j].request.prefix.length == history[positions[p]].request.prefix.length && j <= positions[p])
      {
        CandidateIsRoute(history, j, destination, now);
        var q :| 0 <= q < |positions| && positions[q] == j;
        EventCandidate(events, q, destination, now);
        assert R.Preferred(events, p, q);
      }
      EventCandidate(events, p, destination, now);
    }
    if BestRoute(history, positions[p], destination, now) {
      EventCandidate(events, p, destination, now);
      forall q | R.Candidate(events, q, destination, now)
        ensures 0 <= q < |events| && events[q].Advertise? && R.Preferred(events, p, q)
      {
        EventCandidate(events, q, destination, now);
        assert RouteCandidate(history, positions[q], destination, now);
      }
    }
  }

  lemma EventCandidate(events: seq<R.RouteEvent>, p: int, destination: Address, now: Instant)
    ensures R.Candidate(events, p, destination, now) ==> 0 <= p < |events| && events[p].Advertise?
  {
  }

  lemma CandidateIsRoute(history: seq<Handled>, i: int, destination: Address, now: Instant)
    ensures RouteCandidate(history, i, destination, now) ==>
              0 <= i < |history| && history[i].request.AdvertiseRoute? && IsRouteRequest(history[i])
  {
  }

  /** A route lookup answers with the longest live prefix containing the destination, the most recent of
      equally long ones, among the advertisements in all requests so far; with none exactly when there is none. */
  lemma RouteAnswerExact(history: seq<Handled>, destination: Address, now: Instant, answer: Option<R.SelectedRoute>)
    ensures R.IsAnswer(RouteEvents(history), destination, now, answer) <==>
            match answer
            case None => forall i :: !RouteCandidate(history, i, destination, now)
            case Some(route) =>
              exists i :: BestRoute(history, i, destination, now)
                          && route.prefix == history[i].request.prefix && route.nodeId == history[i].request.nodeId
  {
    var positions := RoutePositions(history);
    var events := RouteEvents(history);
    forall p | 0 <= p < |positions|
      ensures R.Candidate(events, p, destination, now) <==> RouteCandidate(history, positions[p], destination, now)
      ensures R.BestCandidate(events, p, destination, now) <==> BestRoute(history, positions[p], destination, now)
    {
      CandidatesAgree(history, events, positions, p, destination, now);
      BestAgree(history, events, positions, p, destination, now);
    }
    hide R.Candidate, RouteCandidate, RouteEvents;
    match answer {
      case None =>
        forall i | RouteCandidate(history, i, destination, now)
          ensures exists p :: R.Candidate(events, p, destination, now)
        {
          CandidateIsRoute(history, i, destination, now);
          var p :| 0 <= p < |positions| && positions[p] == i;
          assert R.Candidate(events, p, destination, now);
        }
        forall p | R.Candidate(events, p, destination, now)
          ensures exists i :: RouteCandidate(history, i, destination, now)
        {
          EventCandidate(events, p, destination, now);
          assert RouteCandidate(history, positions[p], destination, now);
        }
      case Some(route) =>
        if p :| R.BestCandidate(events, p, destination, now) && route == R.SelectedRoute(events[p].prefix, events[p].nodeId) {
          EventCandidate(events, p, destination, now);
          assert BestRoute(history, positions[p], destination, now);
        }
        if i :| BestRoute(history, i, destination, now)
                && route.prefix == history[i].request.prefix && route.nodeId == history[i].request.nodeId {
          CandidateIsRoute(history, i, destination, now);
          var p :| 0 <= p < |positions| && positions[p] == i;
          assert R.BestCandidate(events, p, destination, now);
        }
    }
  }
}
