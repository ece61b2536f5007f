/**
  Nodes and the authenticated coordinator together: what a successful registration says about the node
  it names (readme.md:674-677). The nodes' steps are those of `SecureEcho`; the coordinator is asked in
  between, over the same arbitrary network.
*/
module Enrolment {
  import A = Authenticated
  import opened Base
  import E = SecureEcho
  import opened Handshake
  import opened Identities
  import opened Leases
  import opened Signing
  import opened Text

  /** A step of some node, or something asked of the coordinator. */
  datatype NetworkStep = Node(step: E.Step) | Asked(event: A.AuthEvent)

  /** `marks[k]` is how many registrations had been signed when event `k` reached the coordinator. */
  datatype Network = Network(world: E.World, history: seq<A.AuthEvent>, marks: seq<nat>)

  function Apply(crypto: Crypto, n: Network, s: NetworkStep): Network {
    match s
    case Node(step) => n.(world := E.Apply(crypto, n.world, step))
    case Asked(event) => n.(history := n.history + [event], marks := n.marks + [|n.world.registrations|])
  }

  ghost function Run(crypto: Crypto, steps: seq<NetworkStep>): Network {
    if steps == [] then Network(E.World([], [], []), [], [])
    else Apply(crypto, Run(crypto, steps[..|steps| - 1]), steps[|steps| - 1])
  }

  /** Ideal signatures and challenges: under an honest key only what was signed verifies, and nobody has
      signed a challenge before it is issued. */
  ghost predicate Ideal(crypto: Crypto, trust: A.Trust, honest: set<Bytes32>, n: Network, s: NetworkStep) {
    match s
    case Asked(Attempt(nodeId, lease, challenge, signature, _, _, _)) =>
      A.Signed(trust, nodeId, lease, challenge, signature) && trust.keys[nodeId] in honest ==>
        E.HasSigned(crypto, n.world, trust.keys[nodeId], RegistrationMessage(nodeId, lease, challenge), signature)
    case Asked(Issue(_, _, challenge, _)) =>
      forall r | 0 <= r < |n.world.registrations| :: n.world.registrations[r].challenge != challenge
    case _ => true
  }

  ghost predicate IdealRun(crypto: Crypto, trust: A.Trust, honest: set<Bytes32>, steps: seq<NetworkStep>) {
    steps != [] ==>
      && IdealRun(crypto, trust, honest, steps[..|steps| - 1])
      && Ideal(crypto, trust, honest, Run(crypto, steps[..|steps| - 1]), steps[|steps| - 1])
  }

  /** The node holding the key on file signed exactly the name, the lease seconds and the challenge of
      this attempt, with this signature. */
  ghost predicate SignedFor(crypto: Crypto, trust: A.Trust, e: A.AuthEvent, g: E.SignedRegistration) {
    && e.Attempt? && e.nodeId in trust.keys
    && crypto.publicOf(g.identity.signingKey) == trust.keys[e.nodeId]
    && g.identity.nodeId == e.nodeId && AsSecs(g.lease) == AsSecs(e.lease)
    && g.challenge == e.challenge && g.signature == e.signature
  }

  // ---------- What every step keeps ----------

  ghost predicate HonestAttempt(trust: A.Trust, honest: set<Bytes32>, e: A.AuthEvent) {
    && e.Attempt? && A.Signed(trust, e.nodeId, e.lease, e.challenge, e.signature)
    && trust.keys[e.nodeId] in honest
  }

  /** Some registration among the first `mark` was signed for this attempt. */
  ghost predicate Backed(crypto: Crypto, trust: A.Trust, w: E.World, e: A.AuthEvent, mark: nat) {
    exists r | 0 <= r < |w.registrations| && r < mark :: SignedFor(crypto, trust, e, w.registrations[r])
  }

  /** No registration among the first `mark` carries this challenge. */
  ghost predicate Unseen(w: E.World, challenge: Bytes32, mark: nat) {
    forall r | 0 <= r < |w.registrations| && r < mark :: w.registrations[r].challenge != challenge
  }

  ghost predicate Witnessed(crypto: Crypto, trust: A.Trust, honest: set<Bytes32>, n: Network) {
    && |n.marks| == |n.history|
    && (forall k | 0 <= k < |n.marks| :: n.marks[k] <= |n.world.registrations|)
    && (forall k | 0 <= k < |n.marks| && HonestAttempt(trust, honest, n.history[k]) ::
          Backed(crypto, trust, n.world, n.history[k], n.marks[k]))
    && (forall k | 0 <= k < |n.marks| && n.history[k].Issue? :: Unseen(n.world, n.history[k].challenge, n.marks[k]))
  }

  lemma RegistrationsGrow(crypto: Crypto, w: E.World, step: E.Step)
    ensures w.registrations <= E.Apply(crypto, w, step).registrations
  {
    hide E.OnHelloReply, E.OnEcho, E.OnRequest, E.NewClient, E.NewServer, ServerAccept, RegistrationMessage;
  }

  /** What the signed registrations say about the past, later ones do not change. */
  lemma GrowthKeeps(crypto: Crypto, trust: A.Trust, w: E.World, w': E.World, e: A.AuthEvent, mark: nat)
    requires w.registrations <= w'.registrations && mark <= |w.registrations|
    ensures Backed(crypto, trust, w, e, mark) ==> Backed(crypto, trust, w', e, mark)
    ensures e.Issue? && Unseen(w, e.challenge, mark) ==> Unseen(w', e.challenge, mark)
  {
    hide SignedFor;
    if r :| 0 <= r < |w.registrations| && r < mark && SignedFor(crypto, trust, e, w.registrations[r]) {
      assert w'.registrations[r] == w.registrations[r];
    }
  }

  lemma NodeKeeps(crypto: Crypto, trust: A.Trust, honest: set<Bytes32>, n: Network, step: E.Step)
    requires Witnessed(crypto, trust, honest, n)
    ensures Witnessed(crypto, trust, honest, Apply(crypto, n, Node(step)))
  {
    RegistrationsGrow(crypto, n.world, step);
    hide E.Apply, Backed, Unseen, HonestAttempt;
    var w' := E.Apply(crypto, n.world, step);
    forall k | 0 <= k < |n.marks|
      ensures Backed(crypto, trust, n.world, n.history[k], n.marks[k]) ==>
                Backed(crypto, trust, w', n.history[k], n.marks[k])
      ensures n.history[k].Issue? && Unseen(n.world, n.history[k].challenge, n.marks[k]) ==>
                Unseen(w', n.history[k].challenge, n.marks[k])
    {
      GrowthKeeps(crypto, trust, n.world, w', n.history[k], n.marks[k]);
    }
  }

  /** An attempt that verifies under an honest key is backed by a registration signed before. */
  lemma AttemptIsBacked(crypto: Crypto, trust: A.Trust, honest: set<Bytes32>, n: Network, e: A.AuthEvent)
    requires Ideal(crypto, trust, honest, n, Asked(e)) && HonestAttempt(trust, honest, e)
    ensures Backed(crypto, trust, n.world, e, |n.world.registrations|)
  {
    hide E.HasSigned, RegistrationMessage, AsSecs, ValidNodeId;
    var r := E.RegistrationHasNode(crypto, n.world, trust.keys[e.nodeId], e.nodeId, e.lease, e.challenge, e.signature);
    assert SignedFor(crypto, trust, e, n.world.registrations[r]);
  }

  lemma AskedKeeps(crypto: Crypto, trust: A.Trust, honest: set<Bytes32>, n: Network, e: A.AuthEvent)
    requires Witnessed(crypto, trust, honest, n) && Ideal(crypto, trust, honest, n, Asked(e))
    ensures Witnessed(crypto, trust, honest, Apply(crypto, n, Asked(e)))
  {
    hide Backed, HonestAttempt;
    if HonestAttempt(trust, honest, e) {
      AttemptIsBacked(crypto, trust, honest, n, e);
    }
    var n' := Apply(crypto, n, Asked(e));
    var last := |n.marks|;
    assert n'.history[last] == e && n'.marks[last] == |n.world.registrations|;
    assert forall k | 0 <= k < last :: n'.history[k] == n.history[k] && n'.marks[k] == n.marks[k];
  }

  lemma {:induction false} RunIsWitnessed(crypto: Crypto, trust: A.Trust, honest: set<Bytes32>, steps: seq<NetworkStep>)
    requires IdealRun(crypto, trust, honest, steps)
    ensures Witnessed(crypto, trust, honest, Run(crypto, steps))
  {
    hide Witnessed, Ideal, Apply;
    if steps == [] {
      StartIsWitnessed(crypto, trust, honest);
    } else {
      var init, last := steps[..|steps| - 1], steps[|steps| - 1];
      RunIsWitnessed(crypto, trust, honest, init);
      match last {
        case Node(step) => NodeKeeps(crypto, trust, honest, Run(crypto, init), step);
        case Asked(event) => AskedKeeps(crypto, trust, honest, Run(crypto, init), event);
      }
    }
  }

  lemma StartIsWitnessed(crypto: Crypto, trust: A.Trust, honest: set<Bytes32>)
    ensures Witnessed(crypto, trust, honest, Network(E.World([], [], []), [], []))
  {
  }

  // ---------- What a successful registration says ----------

  /** Issue `j` entitled attempt `i`, and registration `r`, signed between the two, is what it presented. */
  ghost predicate EnrolledBy(crypto: Crypto, trust: A.Trust, n: Network, i: int, j: int, r: int)
  {
    && A.Grants(trust, n.history, j, i) && i < |n.marks|
    && 0 <= r < |n.world.registrations| && n.marks[j] <= r < n.marks[i]
    && SignedFor(crypto, trust, n.history[i], n.world.registrations[r])
  }

  /** A granted attempt under an honest key presents a signature made after its challenge was issued. */
  lemma GrantIsEnrolment(crypto: Crypto, trust: A.Trust, honest: set<Bytes32>, n: Network, i: int, j: int)
    requires Witnessed(crypto, trust, honest, n) && A.Grants(trust, n.history, j, i)
    requires trust.keys[n.history[i].nodeId] in honest
    ensures exists r :: EnrolledBy(crypto, trust, n, i, j, r)
  {
    hide A.UsesSlot;
    var e := n.history[i];
    assert HonestAttempt(trust, honest, e);
    var r :| 0 <= r < |n.world.registrations| && r < n.marks[i] && SignedFor(crypto, trust, e, n.world.registrations[r]);
    assert Unseen(n.world, n.history[j].challenge, n.marks[j]);
    assert EnrolledBy(crypto, trust, n, i, j, r);
  }

  /** In every ideal run, a registration that succeeds under an honest key was signed by the node that
      holds the key, for exactly this name, these lease seconds and this challenge, after the coordinator
      issued the challenge to the same source, less than ten seconds before. */
  lemma {:induction false} EnrolmentIsAuthentic(crypto: Crypto, trust: A.Trust, honest: set<Bytes32>,
                                                steps: seq<NetworkStep>, i: int)
    requires IdealRun(crypto, trust, honest, steps) && A.Entitled(trust, Run(crypto, steps).history)
    requires var history := Run(crypto, steps).history;
             && 0 <= i < |history| && history[i].Attempt? && history[i].accepted
             && history[i].nodeId in trust.keys && trust.keys[history[i].nodeId] in honest
    ensures exists j, r :: EnrolledBy(crypto, trust, Run(crypto, steps), i, j, r)
  {
    hide Run, IdealRun, Witnessed, A.Grants, EnrolledBy;
    var n := Run(crypto, steps);
    RunIsWitnessed(crypto, trust, honest, steps);
    assert A.Granted(trust, n.history, i);
    var j :| A.Grants(trust, n.history, j, i);
    GrantIsEnrolment(crypto, trust, honest, n, i, j);
  }

  // ---------- A genuine enrolment succeeds ----------

  lemma Continue(crypto: Crypto, trust: A.Trust, honest: set<Bytes32>, steps: seq<NetworkStep>, n: Network, s: NetworkStep)
    requires IdealRun(crypto, trust, honest, steps) && Run(crypto, steps) == n && Ideal(crypto, trust, honest, n, s)
    ensures IdealRun(crypto, trust, honest, steps + [s]) && Run(crypto, steps + [s]) == Apply(crypto, n, s)
  {
    hide Apply, Ideal;
    assert (steps + [s])[..|steps|] == steps;
  }

  lemma Begins(crypto: Crypto, trust: A.Trust, honest: set<Bytes32>)
    ensures IdealRun(crypto, trust, honest, [])
    ensures Run(crypto, []) == Network(E.World([], [], []), [], [])
  {
  }

  lemma SigningApplies(crypto: Crypto, id: Identity, lease: Duration, challenge: Bytes32)
    ensures E.Apply(crypto, E.World([], [], []), E.SignRegistration(id, lease, challenge))
            == E.World([], [], [Record(crypto, id, lease, challenge)])
  {
    hide E.OnHelloReply, E.OnEcho, E.OnRequest, E.NewClient, E.NewServer, ServerAccept, RegistrationMessage;
  }

  /** The registration a node signs for the coordinator. */
  function Record(crypto: Crypto, id: Identity, lease: Duration, challenge: Bytes32): E.SignedRegistration {
    E.SignedRegistration(id, lease, challenge,
                         crypto.sign(id.signingKey, RegistrationMessage(id.nodeId, lease, challenge)))
  }

  function Asking(id: Identity, source: SocketAddr, challenge: Bytes32, at: Instant): A.AuthEvent {
    A.Issue(id.nodeId, source, challenge, at)
  }

  function Presenting(crypto: Crypto, id: Identity, lease: Duration, challenge: Bytes32, source: SocketAddr,
                      at: Instant): A.AuthEvent
  {
    A.Attempt(id.nodeId, lease, challenge, Record(crypto, id, lease, challenge).signature, source, true, at)
  }

  /** The coordinator knows the node's key and checks signatures as the cryptography does. */
  ghost predicate Knows(crypto: Crypto, trust: A.Trust, id: Identity) {
    && id.nodeId in trust.keys && trust.keys[id.nodeId] == crypto.publicOf(id.signingKey)
    && forall k, m, s :: trust.verify(k, m, s) == crypto.verify(k, m, s)
  }

  lemma GenuineIsGranted(crypto: Crypto, trust: A.Trust, id: Identity, lease: Duration, challenge: Bytes32,
                         source: SocketAddr, issued: Instant, presented: Instant)
    requires Correct(crypto) && Knows(crypto, trust, id)
    requires presented < issued + 10_000_000_000
    ensures A.Lawful(trust, [Asking(id, source, challenge, issued),
                             Presenting(crypto, id, lease, challenge, source, presented)])
  {
    hide RegistrationMessage;
    var history := [Asking(id, source, challenge, issued),
                    Presenting(crypto, id, lease, challenge, source, presented)];
    assert A.Grants(trust, history, 0, 1);
    hide A.Due, A.Grants;
    A.DueIsGrant(trust, history, 1);
  }

  lemma GenuineIsSigned(crypto: Crypto, trust: A.Trust, honest: set<Bytes32>, id: Identity, lease: Duration,
                        challenge: Bytes32, source: SocketAddr, at: Instant, n: Network)
    requires Knows(crypto, trust, id) && n.world.registrations == [Record(crypto, id, lease, challenge)]
    ensures Ideal(crypto, trust, honest, n, Asked(Presenting(crypto, id, lease, challenge, source, at)))
  {
    hide RegistrationMessage, A.Signed;
    assert E.RegistrationSigned(crypto, n.world.registrations[0], trust.keys[id.nodeId],
                                RegistrationMessage(id.nodeId, lease, challenge),
                                Record(crypto, id, lease, challenge).signature);
  }

  /** A node the coordinator knows, asking from anywhere and answering within ten seconds, is registered:
      its enrolment is an ideal run, and the success in it is the outcome the coordinator gives. */
  lemma GenuineEnrolmentSucceeds(crypto: Crypto, trust: A.Trust, honest: set<Bytes32>, id: Identity, lease: Duration,
                                 challenge: Bytes32, source: SocketAddr, issued: Instant, presented: Instant)
    requires Correct(crypto) && Knows(crypto, trust, id)
    requires presented < issued + 10_000_000_000
    ensures exists steps :: IdealRun(crypto, trust, honest, steps) &&
              var history := Run(crypto, steps).history;
              && A.Lawful(trust, history)
              && history == [Asking(id, source, challenge, issued),
                             Presenting(crypto, id, lease, challenge, source, presented)]
  {
    hide E.OnHelloReply, E.OnEcho, E.OnRequest, E.NewClient, E.NewServer, ServerAccept, RegistrationMessage, E.HasSigned,
         A.Lawful, A.Signed, Correct, Knows;
    GenuineIsGranted(crypto, trust, id, lease, challenge, source, issued, presented);
    var ask := Asking(id, source, challenge, issued);
    var present := Presenting(crypto, id, lease, challenge, source, presented);
    var sign := E.SignRegistration(id, lease, challenge);
    var n0 := Network(E.World([], [], []), [], []);
    var n1 := Network(E.World([], [], []), [ask], [0]);
    var n2 := Network(E.World([], [], [Record(crypto, id, lease, challenge)]), [ask], [0]);
    GenuineIsSigned(crypto, trust, honest, id, lease, challenge, source, presented, n2);
    Begins(crypto, trust, honest);
    SigningApplies(crypto, id, lease, challenge);
    hide E.Apply, IdealRun, Run, Asking, Presenting;
    Continue(crypto, trust, honest, [], n0, Asked(ask));
    Continue(crypto, trust, honest, [Asked(ask)], n1, Node(sign));
    assert [Asked(ask)] + [Node(sign)] == [Asked(ask), Node(sign)];
    Continue(crypto, trust, honest, [Asked(ask), Node(sign)], n2, Asked(present));
    var steps := [Asked(ask), Node(sign)] + [Asked(present)];
    assert Run(crypto, steps).history == [ask] + [present] == [ask, present];
  }
}
