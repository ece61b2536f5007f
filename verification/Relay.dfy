/** The one-client datagram relay (src/relay.rs). */
module Relay {
  import opened Base

  const MAX_DATAGRAM_BYTES: nat := 2_048
  const DATAGRAMS_IN_ONE_SECURE_ECHO: nat := 4

  datatype Datagram = Datagram(source: SocketAddr, payload: Bytes)

  datatype Forwarded = Forwarded(destination: SocketAddr, payload: Bytes)

  datatype RouteError =
    | NoClientYet
    | OtherClient(client: SocketAddr, rejected: SocketAddr)

  datatype Route = To(destination: SocketAddr) | NoRoute(error: RouteError)

  /** How a run ends; `Waiting` when no datagram is left to receive. */
  datatype Outcome = Completed | Waiting | Oversize | Unroutable(error: RouteError)

  class RelayState {
    const upstream: SocketAddr
    var client: Option<SocketAddr>

    /** The client is never the upstream peer. */
    ghost predicate Valid()
      reads this
    {
      client != Some(upstream)
    }

    constructor (upstream: SocketAddr)
      ensures Valid() && this.upstream == upstream && client == None
    {
      this.upstream := upstream;
      client := None;
    }

    /** Sets the client once, to the first source that is not the upstream peer; a route exists only
        between these two, and each refusal says why. */
    method DestinationFor(source: SocketAddr) returns (route: Route)
      requires Valid()
      modifies this`client
      ensures Valid()
      ensures client == if old(client) == None && source != upstream then Some(source) else old(client)
      ensures forall destination :: route == To(destination) <==>
                && client.Some?
                && ((source == client.value && destination == upstream)
                    || (source == upstream && destination == client.value))
      ensures route == NoRoute(NoClientYet) <==> source == upstream && old(client) == None
      ensures forall c, s :: route == NoRoute(OtherClient(c, s)) <==>
                s == source && source != upstream && old(client) == Some(c) && c != source
    {
      if source == upstream {
        return match client case Some(c) => To(c) case None => NoRoute(NoClientYet);
      }
      match client {
        case None =>
          client := Some(source);
          route := To(upstream);
        case Some(c) =>
          route := if source == c then To(upstream) else NoRoute(OtherClient(c, source));
      }
    }
  }

  // ---------- What a run does ----------

  function Opposite(a: SocketAddr, b: SocketAddr, source: SocketAddr): SocketAddr {
    if source == a then b else a
  }

  /** A datagram the relay forwards once `client` is its client. */
  predicate Relayable(upstream: SocketAddr, client: SocketAddr, d: Datagram) {
    (d.source == upstream || d.source == client) && |d.payload| <= 2048
  }

  /** Everything received so far came from one client or the upstream peer, the client first, and
      went unchanged to the other of the two. */
  predicate Relayed(upstream: SocketAddr, received: seq<Datagram>, sent: seq<Forwarded>) {
    && |sent| == |received|
    && (received != [] ==>
          var client := received[0].source;
          && client != upstream
          && forall i | 0 <= i < |received| ::
               && Relayable(upstream, client, received[i])
               && sent[i] == Forwarded(Opposite(upstream, client, received[i].source), received[i].payload))
  }

  /** Why a datagram after `received` is not forwarded. */
  function Fault(upstream: SocketAddr, received: seq<Datagram>, next: Datagram): Option<Outcome> {
    if |next.payload| > MAX_DATAGRAM_BYTES then Some(Oversize)
    else if received == [] then
      if next.source == upstream then Some(Unroutable(NoClientYet)) else None
    else if next.source == upstream || next.source == received[0].source then None
    else Some(Unroutable(OtherClient(received[0].source, next.source)))
  }

  /** `recv_from` into a buffer one byte longer than the limit: longer datagrams are cut. */
  method Receive(d: Datagram, buffer: array<byte>) returns (received: nat)
    modifies buffer
    ensures received == if |d.payload| <= buffer.Length then |d.payload| else buffer.Length
    ensures buffer[..received] == d.payload[..received]
  {
    received := 0;
    while received < |d.payload| && received < buffer.Length
      invariant received <= |d.payload| && received <= buffer.Length
      invariant buffer[..received] == d.payload[..received]
    {
      buffer[received] := d.payload[received];
      received := received + 1;
    }
  }

  /** The forwarding loop, with one buffer for all datagrams. Each forwarded payload is exactly the
      received one: nothing of an earlier, longer datagram is left in it. */
  method Run(upstream: SocketAddr, incoming: seq<Datagram>) returns (sent: seq<Forwarded>, outcome: Outcome)
    ensures |sent| <= |incoming| && |sent| <= 4
    ensures Relayed(upstream, incoming[..|sent|], sent)
    ensures outcome == Completed <==> |sent| == 4
    ensures outcome == Waiting <==> |sent| == |incoming| < 4
    ensures |sent| < |incoming| && |sent| < 4 ==>
              Fault(upstream, incoming[..|sent|], incoming[|sent|]) == Some(outcome)
    ensures outcome == Oversize <==> |sent| < |incoming| && |sent| < 4 && |incoming[|sent|].payload| > 2048
    ensures outcome == Unroutable(NoClientYet) <==>
              sent == [] && incoming != [] && |incoming[0].payload| <= 2048 && incoming[0].source == upstream
    ensures forall client, rejected :: outcome == Unroutable(OtherClient(client, rejected)) <==>
              && 0 < |sent| < |incoming| && |sent| < 4 && |incoming[|sent|].payload| <= 2048
              && client == incoming[0].source && rejected == incoming[|sent|].source
              && rejected != client && rejected != upstream
    ensures outcome == Completed <==> Acceptable(upstream, incoming)
  {
    var state := new RelayState(upstream);
    var buffer := new byte[MAX_DATAGRAM_BYTES + 1](_ => 0);
    sent := [];
    for number := 0 to DATAGRAMS_IN_ONE_SECURE_ECHO
      invariant |sent| == number <= |incoming|
      invariant state.Valid() && fresh(state) && fresh(buffer) && state.upstream == upstream
      invariant state.client == if number == 0 then None else Some(incoming[0].source)
      invariant Relayed(upstream, incoming[..number], sent)
    {
      if number == |incoming| {
        CompletesExactly(upstream, incoming, number, sent);
        return sent, Waiting;
      }
      var d := incoming[number];
      var bytesReceived := Receive(d, buffer);
      if bytesReceived > MAX_DATAGRAM_BYTES {
        CompletesExactly(upstream, incoming, number, sent);
        return sent, Oversize;
      }
      assert buffer[..bytesReceived] == d.payload;
      var route := state.DestinationFor(d.source);
      if route.NoRoute? {
        assert route.error.OtherClient? ==> route == NoRoute(OtherClient(route.error.client, route.error.rejected));
        assert number > 0 ==> incoming[..number][0] == incoming[0];
        CompletesExactly(upstream, incoming, number, sent);
        return sent, Unroutable(route.error);
      }
      sent := sent + [Forwarded(route.destination, buffer[..bytesReceived])];
      RelayedStep(upstream, incoming, number, sent[..number], sent[number]);
      assert sent[..number] + [sent[number]] == sent;
    }
    CompletesExactly(upstream, incoming, |sent|, sent);
    outcome := Completed;
  }

  lemma RelayedStep(upstream: SocketAddr, incoming: seq<Datagram>, n: nat, sent: seq<Forwarded>, next: Forwarded)
    requires n < |incoming| && Relayed(upstream, incoming[..n], sent)
    requires next.payload == incoming[n].payload && Fault(upstream, incoming[..n], incoming[n]) == None
    requires next.destination == Opposite(upstream, incoming[0].source, incoming[n].source)
    ensures Relayed(upstream, incoming[..n + 1], sent + [next])
  {
    var received := incoming[..n + 1];
    assert received[..n] == incoming[..n];
    assert n > 0 ==> received[0] == incoming[..n][0];
    forall i | 0 <= i < |received|
      ensures Relayable(upstream, received[0].source, received[i])
      ensures (sent + [next])[i]
           == Forwarded(Opposite(upstream, received[0].source, received[i].source), received[i].payload)
    {
      if i < n {
        assert received[i] == incoming[..n][i];
      }
    }
  }

  // ---------- What a run achieves ----------

  /** The payloads a source sent, in order. */
  function SentBy(received: seq<Datagram>, source: SocketAddr): seq<Bytes> {
    if received == [] then []
    else
      var init, last := SentBy(received[..|received| - 1], source), received[|received| - 1];
      if last.source == source then init + [last.payload] else init
  }

  /** The payloads a destination was sent, in order. */
  function SentTo(sent: seq<Forwarded>, destination: SocketAddr): seq<Bytes> {
    if sent == [] then []
    else
      var init, last := SentTo(sent[..|sent| - 1], destination), sent[|sent| - 1];
      if last.destination == destination then init + [last.payload] else init
  }

  /** Each side's output is exactly the other side's datagrams in order, and nothing goes elsewhere. */
  lemma {:induction false} RelayIsTransparent(upstream: SocketAddr, received: seq<Datagram>, sent: seq<Forwarded>)
    requires Relayed(upstream, received, sent)
    ensures received != [] ==>
              var client := received[0].source;
              && SentTo(sent, upstream) == SentBy(received, client)
              && SentTo(sent, client) == SentBy(received, upstream)
              && forall f | f in sent :: f.destination == upstream || f.destination == client
  {
    var n := |received| - 1;
    if n > 0 {
      var received', sent' := received[..n], sent[..n];
      assert forall i | 0 <= i < n :: received'[i] == received[i] && sent'[i] == sent[i];
      RelayIsTransparent(upstream, received', sent');
      assert sent == sent' + [sent[n]];
    }
  }

  /** The datagrams a run can complete on: the first not from upstream, and none oversize or from a
      third party among the first four. */
  predicate Acceptable(upstream: SocketAddr, incoming: seq<Datagram>) {
    && |incoming| >= 4
    && incoming[0].source != upstream
    && forall i | 0 <= i < 4 :: Relayable(upstream, incoming[0].source, incoming[i])
  }

  /** A run completes exactly on acceptable datagrams: stopping early, as `Run` does only at the end
      of input or at a fault, means they were not acceptable. */
  lemma CompletesExactly(upstream: SocketAddr, incoming: seq<Datagram>, n: nat, sent: seq<Forwarded>)
    requires n <= |incoming| && n <= 4
    requires Relayed(upstream, incoming[..n], sent)
    requires n < |incoming| && n < 4 ==>
               Fault(upstream, incoming[..n], incoming[n]).Some?
    ensures n == 4 <==> Acceptable(upstream, incoming)
  {
    var received := incoming[..n];
    assert forall i | 0 <= i < n :: received[i] == incoming[i];
  }
}
