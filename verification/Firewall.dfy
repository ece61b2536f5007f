/** The stateful firewall's reply tracking (src/firewall.rs). */
module Firewall {
  import opened Base
  import opened Leases
  import opened Prefix

  datatype TransportProtocol = Tcp | Udp

  datatype Endpoint = Endpoint(address: Address, port: u16)

  datatype FlowKey = FlowKey(protocol: TransportProtocol, source: Endpoint, destination: Endpoint) {
    function Reverse(): FlowKey {
      FlowKey(protocol, destination, source)
    }
  }

  /** One operation: outbound traffic observed, or an inbound flow judged. */
  datatype Traffic = Outbound(flow: FlowKey, at: Instant) | Inbound(flow: FlowKey, at: Instant)

  ghost function Time(): Traffic -> Instant {
    (t: Traffic) => t.at
  }

  ghost predicate Chronological(history: seq<Traffic>) {
    InOrder(history, Time())
  }

  /** The flow in which the reply to an outbound flow arrives. */
  ghost function ReplyTo(flow: FlowKey): (reply: FlowKey)
    ensures reply.protocol == flow.protocol
    ensures reply.source == flow.destination && reply.destination == flow.source
  {
    FlowKey(flow.protocol, flow.destination, flow.source)
  }

  /** What one operation does to the table of replies: an inbound flow only prunes it. */
  ghost function ReplyEvent(timeout: Duration, t: Traffic): LeaseEvent<FlowKey, ()> {
    if t.Outbound? then Put(ReplyTo(t.flow), (), t.at + timeout, t.at) else Tick(t.at)
  }

  ghost function ReplyEvents(timeout: Duration, history: seq<Traffic>): seq<LeaseEvent<FlowKey, ()>> {
    seq(|history|, i requires 0 <= i < |history| => ReplyEvent(timeout, history[i]))
  }

  /** Some outbound flow with the same protocol and with source and destination exchanged was observed
      less than the timeout ago. */
  ghost predicate Solicited(timeout: Duration, history: seq<Traffic>, flow: FlowKey, now: Instant) {
    exists i | 0 <= i < |history| :: Solicits(timeout, history[i], flow, now)
  }

  ghost predicate Solicits(timeout: Duration, t: Traffic, flow: FlowKey, now: Instant) {
    && t.Outbound? && now < t.at + timeout
    && flow.protocol == t.flow.protocol && flow.source == t.flow.destination && flow.destination == t.flow.source
  }

  /** The distinct reply flows solicited at time `now`. */
  ghost function LiveReplies(timeout: Duration, history: seq<Traffic>, now: Instant): set<FlowKey> {
    set i | 0 <= i < |history| && Solicits(timeout, history[i], ReplyTo(history[i].flow), now) ::
      ReplyTo(history[i].flow)
  }

  /** The table of the code, seen as an expiring table without values. */
  ghost function Entries(replies: map<FlowKey, Instant>): map<FlowKey, Entry<()>> {
    map flow | flow in replies :: Entry((), replies[flow])
  }

  class Firewall {
    const flowTimeout: Duration
    var allowedReplies: map<FlowKey, Instant>
    ghost var history: seq<Traffic>

    ghost predicate Valid()
      reads this
    {
      flowTimeout > 0 && Represents(Entries(allowedReplies), ReplyEvents(flowTimeout, history))
    }

    /** The code stops on a zero timeout. */
    constructor (flowTimeout: Duration)
      requires flowTimeout > 0
      ensures Valid() && this.flowTimeout == flowTimeout && history == [] && allowedReplies == map[]
    {
      this.flowTimeout := flowTimeout;
      allowedReplies := map[];
      history := [];
    }

    /** Adds the observation to the history; `Valid` then makes the reverse flow the only reply that the
        table gains or renews, for one timeout from `now`. */
    method ObserveOutbound(flow: FlowKey, now: Instant)
      requires Valid()
      modifies this
      ensures Valid()
      ensures history == old(history) + [Outbound(flow, now)]
    {
      ghost var before := Entries(allowedReplies);
      RemoveExpired(now);
      var expiresAt := now + flowTimeout;
      allowedReplies := allowedReplies[flow.Reverse() := expiresAt];
      assert Entries(allowedReplies) == Stepped(before, ReplyEvent(flowTimeout, Outbound(flow, now)));
      TrafficRepresents(before, flowTimeout, history, Outbound(flow, now));
      history := history + [Outbound(flow, now)];
    }

    /** Whether an inbound flow is a tracked reply: on a clock that never runs back, exactly when it
        was solicited; on any clock, only then. */
    method AllowInbound(flow: FlowKey, now: Instant) returns (allowed: bool)
      requires Valid()
      modifies this
      ensures Valid()
      ensures history == old(history) + [Inbound(flow, now)]
      ensures allowed ==> Solicited(flowTimeout, old(history), flow, now)
      ensures Chronological(history) ==> (allowed <==> Solicited(flowTimeout, old(history), flow, now))
    {
      ghost var before := Entries(allowedReplies);
      RemoveExpired(now);
      allowed := flow in allowedReplies;
      TrafficRepresents(before, flowTimeout, history, Inbound(flow, now));
      if allowed {
        TrackedWereSolicited(before, flowTimeout, history, flow, now);
      }
      history := history + [Inbound(flow, now)];
      if Chronological(history) {
        InOrderPrefix(old(history), Inbound(flow, now), Time());
        SolicitedAreTracked(before, flowTimeout, old(history), flow, now);
      }
    }

    /** The count after an operation is the number of distinct replies solicited at its time. */
    method TrackedReplyFlows() returns (count: nat)
      requires Valid()
      ensures history == [] ==> count == 0
      ensures Chronological(history) && history != [] ==>
                count == |LiveReplies(flowTimeout, history, history[|history| - 1].at)|
    {
      count := |allowedReplies|;
      if history == [] {
        assert allowedReplies.Keys == {} by {
          assert forall flow | flow in allowedReplies :: flow in Entries(allowedReplies);
        }
      } else if Chronological(history) {
        TableIsLive(Entries(allowedReplies), flowTimeout, history);
        assert allowedReplies.Keys == Entries(allowedReplies).Keys;
      }
      assert |allowedReplies| == |allowedReplies.Keys|;
    }

    /** A reply stays allowed, until the same deadline, exactly while the deadline is ahead. */
    method RemoveExpired(now: Instant)
      modifies this`allowedReplies
      ensures forall flow :: flow in allowedReplies <==> flow in old(allowedReplies) && now < old(allowedReplies)[flow]
      ensures forall flow | flow in allowedReplies :: allowedReplies[flow] == old(allowedReplies)[flow]
      ensures Entries(allowedReplies) == Prune(Entries(old(allowedReplies)), now)
    {
      allowedReplies := map flow | flow in allowedReplies && allowedReplies[flow] > now :: allowedReplies[flow];
    }
  }

  lemma TrafficRepresents(table: map<FlowKey, Entry<()>>, timeout: Duration, history: seq<Traffic>, t: Traffic)
    requires Represents(table, ReplyEvents(timeout, history))
    ensures Represents(Stepped(table, ReplyEvent(timeout, t)), ReplyEvents(timeout, history + [t]))
  {
    StepRepresents(table, ReplyEvents(timeout, history), ReplyEvent(timeout, t));
    assert ReplyEvents(timeout, history + [t]) == ReplyEvents(timeout, history) + [ReplyEvent(timeout, t)];
  }

  /** On any clock, an entry that survives pruning was put there by a soliciting flow. */
  lemma TrackedWereSolicited(table: map<FlowKey, Entry<()>>, timeout: Duration, history: seq<Traffic>,
                             flow: FlowKey, now: Instant)
    requires Represents(table, ReplyEvents(timeout, history)) && flow in Prune(table, now)
    ensures Solicited(timeout, history, flow, now)
  {
    var events := ReplyEvents(timeout, history);
    var i :| Current(events, i) && events[i].key == flow;
    assert events[i] == ReplyEvent(timeout, history[i]);
    assert Solicits(timeout, history[i], flow, now);
  }

  /** The latest flow to solicit a reply has the latest deadline. */
  lemma {:induction false} LatestOutbound(timeout: Duration, history: seq<Traffic>, i: nat)
    requires Chronological(history) && i < |history| && history[i].Outbound?
    ensures var latest := LatestPut(ReplyEvents(timeout, history), ReplyTo(history[i].flow));
            latest.Some? && latest.value.expiresAt >= history[i].at + timeout
  {
    var n := |history| - 1;
    if i < n {
      var init := history[..n];
      assert ReplyEvents(timeout, history)[..n] == ReplyEvents(timeout, init);
      assert init[i] == history[i];
      LatestOutbound(timeout, init, i);
    }
  }

  /** On a chronological history pruning removes no solicited reply. */
  lemma SolicitedAreTracked(table: map<FlowKey, Entry<()>>, timeout: Duration, history: seq<Traffic>,
                            flow: FlowKey, now: Instant)
    requires Represents(table, ReplyEvents(timeout, history)) && Chronological(history)
    requires forall i | 0 <= i < |history| :: history[i].at <= now
    ensures Solicited(timeout, history, flow, now) ==> flow in Prune(table, now)
  {
    if i :| 0 <= i < |history| && Solicits(timeout, history[i], flow, now) {
      LatestOutbound(timeout, history, i);
      TableAnswers(table, ReplyEvents(timeout, history), flow, now);
    }
  }

  /** After an operation the table holds exactly the replies solicited at its time. */
  lemma TableIsLive(table: map<FlowKey, Entry<()>>, timeout: Duration, history: seq<Traffic>)
    requires timeout > 0 && history != [] && Chronological(history)
    requires Represents(table, ReplyEvents(timeout, history))
    ensures table.Keys == LiveReplies(timeout, history, history[|history| - 1].at)
  {
    var now := history[|history| - 1].at;
    var live := LiveReplies(timeout, history, now);
    NothingExpired(table, timeout, history);
    forall flow
      ensures flow in table <==> flow in live
    {
      SolicitedAreTracked(table, timeout, history, flow, now);
      if flow in table {
        TrackedWereSolicited(table, timeout, history, flow, now);
        var i :| 0 <= i < |history| && Solicits(timeout, history[i], flow, now);
        assert ReplyTo(history[i].flow) in live;
      }
    }
  }

  /** A reply still in force outlives the last operation; if that operation put it there, because
      the timeout is above zero. */
  lemma CurrentOutlives(timeout: Duration, history: seq<Traffic>, i: int)
    requires timeout > 0 && history != []
    requires Current(ReplyEvents(timeout, history), i)
    ensures ReplyEvents(timeout, history)[i].expiresAt > history[|history| - 1].at
  {
    var n := |history| - 1;
    assert ReplyEvents(timeout, history)[n] == ReplyEvent(timeout, history[n]);
  }

  lemma NothingExpired(table: map<FlowKey, Entry<()>>, timeout: Duration, history: seq<Traffic>)
    requires timeout > 0 && history != []
    requires Represents(table, ReplyEvents(timeout, history))
    ensures Prune(table, history[|history| - 1].at) == table
  {
    hide ReplyEvents;
    var events := ReplyEvents(timeout, history);
    forall flow | flow in table
      ensures table[flow].expiresAt > history[|history| - 1].at
    {
      var i :| Current(events, i) && events[i].key == flow;
      CurrentOutlives(timeout, history, i);
    }
  }
}
