/** The authenticated coordinator: one-use challenges, signed registrations, exact lookups
    (src/coordinator.rs). */
module Authenticated {
  import opened Base
  import C = Coordinator
  import opened Identities
  import opened Leases
  import opened Signing

  const CHALLENGE_LIFETIME: Duration := 10 * SECOND

  /** The authorized public keys, and the signature check (Ed25519 is not part of this model). */
  datatype Trust = Trust(keys: Authorizations, verify: (Bytes32, Bytes, Signature) -> bool)

  datatype AuthError = NotAuthorized | NoChallenge | ChallengeMismatch | BadSignature

  datatype AuthResponse =
    | Challenge(nodeId: string, challenge: Bytes32)
    | Registered(nodeId: string, observedEndpoint: SocketAddr, lease: Duration)
    | Found(nodeId: string, observedEndpoint: SocketAddr)
    | NotFound(nodeId: string)
    | Error(reason: AuthError)

  /** One challenge slot per node and source endpoint. */
  type Slot = (string, SocketAddr)

  datatype AuthEvent =
    | Issue(nodeId: string, source: SocketAddr, challenge: Bytes32, at: Instant)
    | Attempt(nodeId: string, lease: Duration, challenge: Bytes32, signature: Signature,
              source: SocketAddr, accepted: bool, at: Instant)
    | Query(nodeId: string, at: Instant)

  ghost function Time(): AuthEvent -> Instant {
    (e: AuthEvent) => e.at
  }

  ghost predicate Chronological(history: seq<AuthEvent>) {
    InOrder(history, Time())
  }

  // ---------- The two tables, as the history determines them ----------

  ghost function ChallengeEvent(trust: Trust, e: AuthEvent): LeaseEvent<Slot, Bytes32> {
    match e
    case Issue(nodeId, source, challenge, at) =>
      if nodeId in trust.keys then Put((nodeId, source), challenge, at + 10_000_000_000, at) else Tick(at)
    case Attempt(nodeId, _, _, _, source, _, at) => Take((nodeId, source), at)
    case Query(_, at) => Tick(at)
  }

  ghost function ChallengeEvents(trust: Trust, history: seq<AuthEvent>): seq<LeaseEvent<Slot, Bytes32>> {
    seq(|history|, i requires 0 <= i < |history| => ChallengeEvent(trust, history[i]))
  }

  ghost function RegistrationEvent(e: AuthEvent): LeaseEvent<string, SocketAddr> {
    if e.Attempt? && e.accepted then Put(e.nodeId, e.source, e.at + e.lease, e.at) else Tick(e.at)
  }

  ghost function RegistrationEvents(history: seq<AuthEvent>): seq<LeaseEvent<string, SocketAddr>> {
    seq(|history|, i requires 0 <= i < |history| => RegistrationEvent(history[i]))
  }

  // ---------- Correspondence of registrations and challenges ----------

  /** The signature verifies, under the key on file, over exactly this node, lease and challenge. */
  ghost predicate Signed(trust: Trust, nodeId: string, lease: Duration, challenge: Bytes32, signature: Signature) {
    && nodeId in trust.keys
    && trust.verify(trust.keys[nodeId], RegistrationMessage(nodeId, lease, challenge), signature)
  }

  /** The event reads or replaces the pending challenge of a node and source. */
  ghost predicate UsesSlot(trust: Trust, e: AuthEvent, nodeId: string, source: SocketAddr) {
    && ((e.Issue? && e.nodeId in trust.keys) || e.Attempt?)
    && e.nodeId == nodeId && e.source == source
  }

  /** Issue `j` entitles attempt `i`: same node, source and value, less than ten seconds old, nothing in
      between on that slot, and a signature on exactly this node, lease and challenge. */
  ghost predicate Grants(trust: Trust, history: seq<AuthEvent>, j: int, i: int) {
    && 0 <= j < i < |history|
    && history[j].Issue? && history[i].Attempt?
    && var issue, attempt := history[j], history[i];
    && issue.nodeId == attempt.nodeId && issue.source == attempt.source
    && issue.challenge == attempt.challenge
    && attempt.at < issue.at + 10_000_000_000
    && (forall k | j < k < i :: !UsesSlot(trust, history[k], attempt.nodeId, attempt.source))
    && Signed(trust, attempt.nodeId, attempt.lease, attempt.challenge, attempt.signature)
  }

  ghost predicate Granted(trust: Trust, history: seq<AuthEvent>, i: int) {
    exists j :: Grants(trust, history, j, i)
  }

  /** Every attempt that succeeded is entitled by some issue. */
  ghost predicate Entitled(trust: Trust, history: seq<AuthEvent>) {
    forall i | 0 <= i < |history| && history[i].Attempt? && history[i].accepted :: Granted(trust, history, i)
  }

  /** An attempt succeeds exactly when some issue entitles it. */
  ghost predicate Corresponds(trust: Trust, history: seq<AuthEvent>) {
    forall i | 0 <= i < |history| && history[i].Attempt? :: history[i].accepted <==> Granted(trust, history, i)
  }

  /** The outcome the history prescribes for an attempt. */
  ghost function Outcome(trust: Trust, history: seq<AuthEvent>, nodeId: string, lease: Duration,
                         challenge: Bytes32, signature: Signature, source: SocketAddr, now: Instant): AuthResponse
  {
    match Answer(ChallengeEvents(trust, history), (nodeId, source), now)
    case None => Error(NoChallenge)
    case Some(issued) =>
      if issued != challenge then Error(ChallengeMismatch)
      else if !Signed(trust, nodeId, lease, challenge, signature) then Error(BadSignature)
      else Registered(nodeId, source, lease)
  }

  /** The checks of the code, in its order, against a pruned challenge table. */
  function Verdict(trust: Trust, challenges: map<Slot, Entry<Bytes32>>, nodeId: string, lease: Duration,
                   challenge: Bytes32, signature: Signature, source: SocketAddr): AuthResponse
  {
    if (nodeId, source) !in challenges then Error(NoChallenge)
    else if challenges[(nodeId, source)].value != challenge then Error(ChallengeMismatch)
    else if nodeId !in trust.keys then Error(NotAuthorized)
    else if !trust.verify(trust.keys[nodeId], RegistrationMessage(nodeId, lease, challenge), signature) then
      Error(BadSignature)
    else Registered(nodeId, source, lease)
  }

  /** Both tables hold what the history says, every pending challenge belongs to an authorized node,
      every success on record is entitled by an issue on any clock, and on a clock that never runs back
      every entitled attempt succeeded. */
  ghost predicate Consistent(trust: Trust, challenges: map<Slot, Entry<Bytes32>>,
                             registrations: map<string, Entry<SocketAddr>>, history: seq<AuthEvent>)
  {
    && Represents(challenges, ChallengeEvents(trust, history))
    && Represents(registrations, RegistrationEvents(history))
    && (forall slot | slot in challenges :: slot.0 in trust.keys)
    && Entitled(trust, history)
    && (Chronological(history) ==> Corresponds(trust, history))
  }

  class AuthenticatedCoordinator {
    const registry: C.Registry
    const trust: Trust
    var challenges: map<Slot, Entry<Bytes32>>
    ghost var history: seq<AuthEvent>

    ghost predicate Valid()
      reads this, registry
    {
      Consistent(trust, challenges, registry.registrations, history)
    }

    constructor (trust: Trust)
      ensures Valid() && fresh(registry) && this.trust == trust && history == []
    {
      registry := new C.Registry();
      this.trust := trust;
      challenges := map[];
      history := [];
    }

    /** Stores a challenge bound to one node and source; an unauthorized node gets none. */
    method IssueChallenge(nodeId: string, source: SocketAddr, now: Instant, challenge: Bytes32)
      returns (response: AuthResponse)
      requires Valid()
      modifies this, registry
      ensures Valid()
      ensures history == old(history) + [Issue(nodeId, source, challenge, now)]
      ensures response == if nodeId in trust.keys then Challenge(nodeId, challenge) else Error(NotAuthorized)
    {
      hide Represents, ChallengeEvents, RegistrationEvents, Entitled, Corresponds, Chronological, Prune, Consistent;
      ghost var e := Issue(nodeId, source, challenge, now);
      QuietStep(trust, challenges, registry.registrations, history, e);
      RemoveExpired(now);
      if nodeId !in trust.keys {
        response := Error(NotAuthorized);
      } else {
        var expiresAt := now + CHALLENGE_LIFETIME;
        challenges := challenges[(nodeId, source) := Entry(challenge, expiresAt)];
        response := Challenge(nodeId, challenge);
      }
      history := history + [e];
    }

    /** Consumes the pending challenge before anything is checked, then verifies and records. */
    method Register(nodeId: string, lease: Duration, challenge: Bytes32, signature: Signature,
                    source: SocketAddr, now: Instant)
      returns (response: AuthResponse)
      requires Valid()
      modifies this, registry
      ensures Valid()
      ensures history == old(history) +
                [Attempt(nodeId, lease, challenge, signature, source, response.Registered?, now)]
      ensures response != Error(NotAuthorized)
      ensures Chronological(history) ==>
                response == Outcome(trust, old(history), nodeId, lease, challenge, signature, source, now)
    {
      hide Consistent, Chronological, Outcome, Verdict, Prune;
      ghost var before, pending, table := history, challenges, registry.registrations;
      response := ConsumeAndVerify(nodeId, lease, challenge, signature, source, now);
      ghost var e := Attempt(nodeId, lease, challenge, signature, source, response.Registered?, now);
      AttemptKeeps(trust, pending, table, before, e, response, challenges, registry.registrations);
      history := before + [e];
    }

    /** The state change of `Register`: the challenge is gone whatever the outcome. */
    method ConsumeAndVerify(nodeId: string, lease: Duration, challenge: Bytes32, signature: Signature,
                            source: SocketAddr, now: Instant)
      returns (response: AuthResponse)
      modifies this`challenges, registry`registrations
      ensures challenges == Prune(old(challenges), now) - {(nodeId, source)}
      ensures response == Verdict(trust, Prune(old(challenges), now), nodeId, lease, challenge, signature, source)
      ensures var pruned := Prune(old(registry.registrations), now);
              registry.registrations ==
              if response.Registered? then pruned[nodeId := Entry(source, now + lease)] else pruned
    {
      RemoveExpired(now);
      if (nodeId, source) !in challenges {
        assert challenges - {(nodeId, source)} == challenges;
        return Error(NoChallenge);
      }
      var pending := challenges[(nodeId, source)];
      challenges := challenges - {(nodeId, source)};
      if pending.value != challenge {
        return Error(ChallengeMismatch);
      }
      if nodeId !in trust.keys {
        return Error(NotAuthorized);
      }
      var message := RegistrationMessage(nodeId, lease, challenge);
      if !trust.verify(trust.keys[nodeId], message, signature) {
        return Error(BadSignature);
      }
      var expiresAt := now + lease;
      registry.registrations := registry.registrations[nodeId := Entry(source, expiresAt)];
      response := Registered(nodeId, source, lease);
    }

    /** The unexpired endpoint of the node's last successful registration. */
    method Lookup(nodeId: string, now: Instant) returns (response: AuthResponse)
      requires Valid()
      modifies this, registry
      ensures Valid()
      ensures history == old(history) + [Query(nodeId, now)]
      ensures Chronological(history) ==>
                response == match Answer(RegistrationEvents(old(history)), nodeId, now)
                            case Some(endpoint) => Found(nodeId, endpoint)
                            case None => NotFound(nodeId)
    {
      hide Represents, Entitled, Corresponds, Chronological, Answer, RegistrationEvents, Prune;
      ghost var e := Query(nodeId, now);
      QuietStep(trust, challenges, registry.registrations, history, e);
      QueryAnswers(registry.registrations, history, e);
      RemoveExpired(now);
      if nodeId in registry.registrations {
        response := Found(nodeId, registry.registrations[nodeId].value);
      } else {
        response := NotFound(nodeId);
      }
      history := history + [e];
    }

    /** A pending challenge or a registration stays, unchanged, exactly while its deadline is ahead. */
    method RemoveExpired(now: Instant)
      modifies this`challenges, registry`registrations
      ensures forall slot :: slot in challenges <==> slot in old(challenges) && now < old(challenges)[slot].expiresAt
      ensures forall slot | slot in challenges :: challenges[slot] == old(challenges)[slot]
      ensures forall id :: id in registry.registrations <==>
                id in old(registry.registrations) && now < old(registry.registrations)[id].expiresAt
      ensures forall id | id in registry.registrations :: registry.registrations[id] == old(registry.registrations)[id]
      ensures challenges == Prune(old(challenges), now)
      ensures registry.registrations == Prune(old(registry.registrations), now)
    {
      registry.RemoveExpired(now);
      challenges := map slot | slot in challenges && challenges[slot].expiresAt > now :: challenges[slot];
    }
  }

  // ---------- Step lemmas ----------

  lemma Step(trust: Trust, challenges: map<Slot, Entry<Bytes32>>, registrations: map<string, Entry<SocketAddr>>,
             history: seq<AuthEvent>, e: AuthEvent)
    requires Represents(challenges, ChallengeEvents(trust, history))
    requires Represents(registrations, RegistrationEvents(history))
    ensures Represents(Stepped(challenges, ChallengeEvent(trust, e)), ChallengeEvents(trust, history + [e]))
    ensures Represents(Stepped(registrations, RegistrationEvent(e)), RegistrationEvents(history + [e]))
  {
    StepRepresents(challenges, ChallengeEvents(trust, history), ChallengeEvent(trust, e));
    StepRepresents(registrations, RegistrationEvents(history), RegistrationEvent(e));
    assert ChallengeEvents(trust, history + [e]) == ChallengeEvents(trust, history) + [ChallengeEvent(trust, e)];
    assert RegistrationEvents(history + [e]) == RegistrationEvents(history) + [RegistrationEvent(e)];
  }

  lemma GrantsInPrefix(trust: Trust, history: seq<AuthEvent>, e: AuthEvent, j: int, i: int)
    requires i < |history|
    ensures Grants(trust, history + [e], j, i) <==> Grants(trust, history, j, i)
  {
    var h' := history + [e];
    assert forall k | 0 <= k < |history| :: h'[k] == history[k];
  }

  lemma GrantedInPrefix(trust: Trust, history: seq<AuthEvent>, e: AuthEvent)
    ensures forall i | 0 <= i < |history| :: Granted(trust, history + [e], i) <==> Granted(trust, history, i)
  {
    hide Grants;
    forall i, j | 0 <= i < |history|
      ensures Grants(trust, history + [e], j, i) <==> Grants(trust, history, j, i)
    {
      GrantsInPrefix(trust, history, e, j, i);
    }
  }

  lemma EntitledExtends(trust: Trust, history: seq<AuthEvent>, e: AuthEvent)
    requires Entitled(trust, history)
    requires e.Attempt? && e.accepted ==> Granted(trust, history + [e], |history|)
    ensures Entitled(trust, history + [e])
  {
    GrantedInPrefix(trust, history, e);
    hide Granted;
    var h', n := history + [e], |history|;
    assert h'[n] == e && forall i | 0 <= i < n :: h'[i] == history[i];
  }

  lemma CorrespondsExtends(trust: Trust, history: seq<AuthEvent>, e: AuthEvent)
    requires Corresponds(trust, history)
    requires e.Attempt? ==> (e.accepted <==> Granted(trust, history + [e], |history|))
    ensures Corresponds(trust, history + [e])
  {
    GrantedInPrefix(trust, history, e);
    hide Granted;
    var h', n := history + [e], |history|;
    assert h'[n] == e && forall i | 0 <= i < n :: h'[i] == history[i];
  }

  lemma QuietStep(trust: Trust, challenges: map<Slot, Entry<Bytes32>>, registrations: map<string, Entry<SocketAddr>>,
                  history: seq<AuthEvent>, e: AuthEvent)
    requires Consistent(trust, challenges, registrations, history) && !e.Attempt?
    ensures Consistent(trust, Stepped(challenges, ChallengeEvent(trust, e)),
                       Stepped(registrations, RegistrationEvent(e)), history + [e])
  {
    hide Represents, Entitled, Corresponds, InOrder;
    Step(trust, challenges, registrations, history, e);
    EntitledExtends(trust, history, e);
    if Chronological(history + [e]) {
      InOrderPrefix(history, e, Time());
      CorrespondsExtends(trust, history, e);
    }
  }

  lemma QueryAnswers(registrations: map<string, Entry<SocketAddr>>, history: seq<AuthEvent>, e: AuthEvent)
    requires Represents(registrations, RegistrationEvents(history)) && e.Query?
    ensures Chronological(history + [e]) ==>
              var pruned := Prune(registrations, e.at);
              Answer(RegistrationEvents(history), e.nodeId, e.at) ==
              if e.nodeId in pruned then Some(pruned[e.nodeId].value) else None
  {
    if Chronological(history + [e]) {
      InOrderPrefix(history, e, Time());
      TableAnswers(registrations, RegistrationEvents(history), e.nodeId, e.at);
    }
  }

  /** A challenge still held is an issue whose slot nothing has used since. */
  lemma CurrentIsIssue(trust: Trust, history: seq<AuthEvent>, nodeId: string, source: SocketAddr, j: nat)
    requires j < |ChallengeEvents(trust, history)| && Current(ChallengeEvents(trust, history), j)
    requires ChallengeEvents(trust, history)[j].key == (nodeId, source)
    ensures j < |history| && history[j].Issue? && history[j].nodeId == nodeId && history[j].source == source
    ensures var put := ChallengeEvents(trust, history)[j];
            put.value == history[j].challenge && put.expiresAt == history[j].at + 10_000_000_000
    ensures forall k | j < k < |history| :: !UsesSlot(trust, history[k], nodeId, source)
  {
    var events := ChallengeEvents(trust, history);
    assert events[j] == ChallengeEvent(trust, history[j]);
    forall k | j < k < |history|
      ensures !UsesSlot(trust, history[k], nodeId, source)
    {
      assert events[k] == ChallengeEvent(trust, history[k]);
      SlotTouched(trust, history[k], nodeId, source);
    }
  }

  /** On any clock, what the code accepts is entitled by the issue whose challenge was pending. */
  lemma AcceptedIsGranted(trust: Trust, challenges: map<Slot, Entry<Bytes32>>, history: seq<AuthEvent>, e: AuthEvent)
    requires Represents(challenges, ChallengeEvents(trust, history)) && e.Attempt?
    requires Verdict(trust, Prune(challenges, e.at), e.nodeId, e.lease, e.challenge, e.signature, e.source).Registered?
    ensures Granted(trust, history + [e], |history|)
  {
    hide RegistrationMessage, ChallengeEvents, UsesSlot, Current, Represents;
    var j := StoredIsCurrent(challenges, ChallengeEvents(trust, history), (e.nodeId, e.source));
    CurrentIsIssue(trust, history, e.nodeId, e.source, j);
    var h' := history + [e];
    assert h'[|history|] == e;
    assert forall k | 0 <= k < |history| :: h'[k] == history[k];
    assert Grants(trust, h', j, |history|);
  }

  /** An attempt keeps everything consistent and is answered as the history prescribes. */
  lemma AttemptStep(trust: Trust, challenges: map<Slot, Entry<Bytes32>>, registrations: map<string, Entry<SocketAddr>>,
                    history: seq<AuthEvent>, e: AuthEvent, verdict: AuthResponse)
    requires Consistent(trust, challenges, registrations, history)
    requires e.Attempt? && (e.accepted <==> verdict.Registered?)
    requires verdict == Verdict(trust, Prune(challenges, e.at), e.nodeId, e.lease, e.challenge, e.signature, e.source)
    ensures Consistent(trust, Stepped(challenges, ChallengeEvent(trust, e)),
                       Stepped(registrations, RegistrationEvent(e)), history + [e])
    ensures verdict != Error(NotAuthorized)
    ensures Chronological(history + [e]) ==>
              verdict == Outcome(trust, history, e.nodeId, e.lease, e.challenge, e.signature, e.source, e.at)
  {
    hide Represents, ChallengeEvents, RegistrationEvents, Entitled, Corresponds, RegistrationMessage, Answer,
         RegistrationEvent, InOrder;
    Step(trust, challenges, registrations, history, e);
    if e.accepted {
      AcceptedIsGranted(trust, challenges, history, e);
    }
    if Chronological(history + [e]) {
      InOrderPrefix(history, e, Time());
      PendingAnswers(trust, challenges, history, (e.nodeId, e.source), e.at);
      AttemptCorresponds(trust, history, e);
    }
    EntitledExtends(trust, history, e);
  }

  /** What an attempt does to the two tables, event by event. */
  lemma AttemptTables(trust: Trust, challenges: map<Slot, Entry<Bytes32>>,
                      registrations: map<string, Entry<SocketAddr>>, e: AuthEvent)
    requires e.Attempt?
    ensures Stepped(challenges, ChallengeEvent(trust, e)) == Prune(challenges, e.at) - {(e.nodeId, e.source)}
    ensures var pruned := Prune(registrations, e.at);
            Stepped(registrations, RegistrationEvent(e)) ==
            if e.accepted then pruned[e.nodeId := Entry(e.source, e.at + e.lease)] else pruned
  {
  }

  /** `AttemptStep`, for the tables the code leaves behind. */
  lemma AttemptKeeps(trust: Trust, challenges: map<Slot, Entry<Bytes32>>, registrations: map<string, Entry<SocketAddr>>,
                     history: seq<AuthEvent>, e: AuthEvent, verdict: AuthResponse,
                     challenges': map<Slot, Entry<Bytes32>>, registrations': map<string, Entry<SocketAddr>>)
    requires Consistent(trust, challenges, registrations, history)
    requires e.Attempt? && (e.accepted <==> verdict.Registered?)
    requires verdict == Verdict(trust, Prune(challenges, e.at), e.nodeId, e.lease, e.challenge, e.signature, e.source)
    requires challenges' == Prune(challenges, e.at) - {(e.nodeId, e.source)}
    requires var pruned := Prune(registrations, e.at);
             registrations' == if e.accepted then pruned[e.nodeId := Entry(e.source, e.at + e.lease)] else pruned
    ensures Consistent(trust, challenges', registrations', history + [e])
    ensures verdict != Error(NotAuthorized)
    ensures Chronological(history + [e]) ==>
              verdict == Outcome(trust, history, e.nodeId, e.lease, e.challenge, e.signature, e.source, e.at)
  {
    AttemptTables(trust, challenges, registrations, e);
    assert challenges' == Stepped(challenges, ChallengeEvent(trust, e));
    assert registrations' == Stepped(registrations, RegistrationEvent(e));
    AttemptStep(trust, challenges, registrations, history, e, verdict);
  }

  lemma PendingAnswers(trust: Trust, challenges: map<Slot, Entry<Bytes32>>, history: seq<AuthEvent>, slot: Slot, now: Instant)
    requires Represents(challenges, ChallengeEvents(trust, history)) && Chronological(history)
    requires forall i | 0 <= i < |history| :: history[i].at <= now
    ensures var pruned := Prune(challenges, now);
            Answer(ChallengeEvents(trust, history), slot, now) ==
            if slot in pruned then Some(pruned[slot].value) else None
  {
    TableAnswers(challenges, ChallengeEvents(trust, history), slot, now);
  }

  lemma SlotTouched(trust: Trust, e: AuthEvent, nodeId: string, source: SocketAddr)
    ensures Touches(ChallengeEvent(trust, e), (nodeId, source)) <==> UsesSlot(trust, e, nodeId, source)
  {
  }

  /** A challenge was issued to this node and source less than ten seconds ago, and nothing has used the
      slot since. */
  ghost predicate Pending(trust: Trust, history: seq<AuthEvent>, nodeId: string, source: SocketAddr,
                          challenge: Bytes32, now: Instant)
  {
    exists j ::
      && 0 <= j < |history| && history[j].Issue? && nodeId in trust.keys
      && history[j].nodeId == nodeId && history[j].source == source
      && history[j].challenge == challenge && now < history[j].at + 10_000_000_000
      && forall k | j < k < |history| :: !UsesSlot(trust, history[k], nodeId, source)
  }

  /** A pending live challenge is an earlier issue that nothing has used since, and conversely. */
  lemma PendingIsIssue(trust: Trust, history: seq<AuthEvent>, nodeId: string, source: SocketAddr,
                       challenge: Bytes32, now: Instant)
    ensures Answer(ChallengeEvents(trust, history), (nodeId, source), now) == Some(challenge) <==>
            Pending(trust, history, nodeId, source, challenge, now)
  {
    var events, slot := ChallengeEvents(trust, history), (nodeId, source);
    var i := LatestPutIndex(events, slot);
    if LatestPut(events, slot).Some? {
      assert events[i] == ChallengeEvent(trust, history[i]);
      forall k | i < k < |history|
        ensures !UsesSlot(trust, history[k], nodeId, source)
      {
        assert !Touches(events[k], slot);
      }
    }
    if j :| && 0 <= j < |history| && history[j].Issue? && nodeId in trust.keys
            && history[j].nodeId == nodeId && history[j].source == source
            && forall k | j < k < |history| :: !UsesSlot(trust, history[k], nodeId, source)
    {
      assert events[j] == ChallengeEvent(trust, history[j]) && events[j].Put?;
      forall k | j < k < |history|
        ensures !Touches(events[k], slot)
      {
        SlotTouched(trust, history[k], nodeId, source);
      }
    }
  }

  /** Each response to an attempt, and exactly when it is the one. */
  lemma OutcomeExactly(trust: Trust, history: seq<AuthEvent>, nodeId: string, lease: Duration, challenge: Bytes32,
                       signature: Signature, source: SocketAddr, now: Instant)
    ensures var r := Outcome(trust, history, nodeId, lease, challenge, signature, source, now);
            var pending := Pending(trust, history, nodeId, source, challenge, now);
            var signed := nodeId in trust.keys &&
              trust.verify(trust.keys[nodeId], RegistrationMessage(nodeId, lease, challenge), signature);
            && (r == Error(NoChallenge) <==> forall c :: !Pending(trust, history, nodeId, source, c, now))
            && (r == Error(ChallengeMismatch) <==>
                  exists c | c != challenge :: Pending(trust, history, nodeId, source, c, now))
            && (r == Error(BadSignature) <==> pending && !signed)
            && (r == Registered(nodeId, source, lease) <==> pending && signed)
            && (r.Error? || r == Registered(nodeId, source, lease))
            && r != Error(NotAuthorized)
  {
    hide Pending, Answer, ChallengeEvents, RegistrationMessage;
    forall c
      ensures Answer(ChallengeEvents(trust, history), (nodeId, source), now) == Some(c) <==>
              Pending(trust, history, nodeId, source, c, now)
    {
      PendingIsIssue(trust, history, nodeId, source, c, now);
    }
  }

  /** An attempt is due to succeed exactly when some issue entitles it. */
  lemma OutcomeIsGrant(trust: Trust, history: seq<AuthEvent>, e: AuthEvent)
    requires e.Attempt?
    ensures Outcome(trust, history, e.nodeId, e.lease, e.challenge, e.signature, e.source, e.at).Registered? <==>
            Granted(trust, history + [e], |history|)
  {
    hide Answer, ChallengeEvents, UsesSlot;
    var h', n := history + [e], |history|;
    assert h'[n] == e && forall i | 0 <= i < n :: h'[i] == history[i];
    PendingIsIssue(trust, history, e.nodeId, e.source, e.challenge, e.at);
    if Outcome(trust, history, e.nodeId, e.lease, e.challenge, e.signature, e.source, e.at).Registered? {
      var j :| && 0 <= j < |history| && history[j].Issue? && e.nodeId in trust.keys
               && history[j].nodeId == e.nodeId && history[j].source == e.source
               && history[j].challenge == e.challenge && e.at < history[j].at + 10_000_000_000
               && forall k | j < k < |history| :: !UsesSlot(trust, history[k], e.nodeId, e.source);
      assert Grants(trust, h', j, n);
    }
    if j :| Grants(trust, h', j, n) {
      assert forall k | j < k < |history| :: h'[k] == history[k];
    }
  }

  /** Answering the newest attempt as prescribed keeps the correspondence. */
  lemma AttemptCorresponds(trust: Trust, history: seq<AuthEvent>, e: AuthEvent)
    requires e.Attempt? && Corresponds(trust, history)
    requires e.accepted <==>
             Outcome(trust, history, e.nodeId, e.lease, e.challenge, e.signature, e.source, e.at).Registered?
    ensures Corresponds(trust, history + [e])
  {
    hide Outcome, Granted, Corresponds;
    OutcomeIsGrant(trust, history, e);
    CorrespondsExtends(trust, history, e);
  }

  // ---------- Theorems over whole runs ----------

  /** Each successful registration has exactly one entitling issue, and no issue entitles two. */
  lemma InjectiveCorrespondence(trust: Trust, history: seq<AuthEvent>, i: int, i': int, j: int, j': int)
    requires Grants(trust, history, j, i) && Grants(trust, history, j', i')
    ensures i == i' <==> j == j'
  {
    var e, e' := history[i], history[i'];
    assert UsesSlot(trust, history[j], e.nodeId, e.source) && UsesSlot(trust, history[i], e.nodeId, e.source);
    assert UsesSlot(trust, history[j'], e'.nodeId, e'.source) && UsesSlot(trust, history[i'], e'.nodeId, e'.source);
  }

  /** The history before attempt `i` prescribes success. */
  ghost predicate Due(trust: Trust, history: seq<AuthEvent>, i: int)
    requires 0 <= i < |history| && history[i].Attempt?
  {
    var e := history[i];
    Outcome(trust, history[..i], e.nodeId, e.lease, e.challenge, e.signature, e.source, e.at).Registered?
  }

  /** A run as the code makes it: each attempt succeeded exactly when the history before it said so. */
  ghost predicate Lawful(trust: Trust, history: seq<AuthEvent>) {
    forall i | 0 <= i < |history| && history[i].Attempt? :: history[i].accepted <==> Due(trust, history, i)
  }

  lemma DueIsGrant(trust: Trust, history: seq<AuthEvent>, i: int)
    requires 0 <= i < |history| && history[i].Attempt?
    ensures Due(trust, history, i) <==> Granted(trust, history, i)
  {
    hide Grants, Outcome;
    var before, upTo := history[..i], history[..i + 1];
    OutcomeIsGrant(trust, before, history[i]);
    assert |before| == i && before + [history[i]] == upTo;
    assert Due(trust, history, i) <==> Granted(trust, upTo, i);
    forall j
      ensures Grants(trust, upTo, j, i) <==> Grants(trust, history, j, i)
    {
      GrantsInTake(trust, history, j, i);
    }
  }

  /** Answering step by step and corresponding as a whole are the same thing. */
  lemma LawfulIsCorresponding(trust: Trust, history: seq<AuthEvent>)
    ensures Lawful(trust, history) <==> Corresponds(trust, history)
  {
    hide Due, Granted;
    forall i | 0 <= i < |history| && history[i].Attempt?
      ensures Due(trust, history, i) <==> Granted(trust, history, i)
    {
      DueIsGrant(trust, history, i);
    }
  }

  lemma GrantsInTake(trust: Trust, history: seq<AuthEvent>, j: int, i: int)
    requires 0 <= i < |history|
    ensures Grants(trust, history[..i + 1], j, i) <==> Grants(trust, history, j, i)
  {
    hide Signed, UsesSlot;
    assert forall k | 0 <= k <= i :: history[..i + 1][k] == history[k];
  }

  /** Each successful registration follows an unused, matching, live challenge that was issued to the
      same node and source and signed for, and no two share one. */
  ghost predicate EntitledOneToOne(trust: Trust, history: seq<AuthEvent>) {
    forall i | 0 <= i < |history| && history[i].Attempt? && history[i].accepted ::
      exists j :: Grants(trust, history, j, i) && forall i' | Grants(trust, history, j, i') :: i' == i
  }

  lemma EntitledIsOneToOne(trust: Trust, history: seq<AuthEvent>)
    requires Entitled(trust, history)
    ensures EntitledOneToOne(trust, history)
  {
    forall i | 0 <= i < |history| && history[i].Attempt? && history[i].accepted
      ensures exists j :: Grants(trust, history, j, i) && forall i' | Grants(trust, history, j, i') :: i' == i
    {
      assert Granted(trust, history, i);
      var j :| Grants(trust, history, j, i);
      forall i' | Grants(trust, history, j, i')
        ensures i' == i
      {
        InjectiveCorrespondence(trust, history, i, i', j, j);
      }
    }
  }

  /** In every run answered step by step the successful registrations are entitled one to one. */
  lemma RegistrationsAreEntitled(trust: Trust, history: seq<AuthEvent>)
    requires Lawful(trust, history)
    ensures EntitledOneToOne(trust, history)
  {
    LawfulIsCorresponding(trust, history);
    hide Lawful, Granted;
    EntitledIsOneToOne(trust, history);
  }

  /** Whatever was asked of a coordinator, on any clock, its successful registrations are entitled one to
      one; on a clock that never runs back each attempt was answered as the history before it prescribes. */
  lemma CoordinatorIsSafe(coordinator: AuthenticatedCoordinator)
    requires coordinator.Valid()
    ensures Entitled(coordinator.trust, coordinator.history)
    ensures EntitledOneToOne(coordinator.trust, coordinator.history)
    ensures Chronological(coordinator.history) ==> Lawful(coordinator.trust, coordinator.history)
  {
    hide Represents, EntitledOneToOne, Lawful, Corresponds, Entitled;
    EntitledIsOneToOne(coordinator.trust, coordinator.history);
    LawfulIsCorresponding(coordinator.trust, coordinator.history);
  }

  /** `Found(e)` is the answer exactly when the node's last success came from `e` and is still leased. */
  lemma LookupExact(history: seq<AuthEvent>, nodeId: string, now: Instant, endpoint: SocketAddr)
    ensures Answer(RegistrationEvents(history), nodeId, now) == Some(endpoint) <==>
            exists i ::
              && 0 <= i < |history| && history[i].Attempt? && history[i].accepted && history[i].nodeId == nodeId
              && (forall j | i < j < |history| ::
                    !(history[j].Attempt? && history[j].accepted && history[j].nodeId == nodeId))
              && history[i].source == endpoint && now < history[i].at + history[i].lease
  {
    var events := RegistrationEvents(history);
    var i := LatestPutIndex(events, nodeId);
    if LatestPut(events, nodeId).Some? {
      assert events[i] == RegistrationEvent(history[i]);
      forall j | i < j < |history|
        ensures !(history[j].Attempt? && history[j].accepted && history[j].nodeId == nodeId)
      {
        assert !Touches(events[j], nodeId);
      }
    }
    if k :| && 0 <= k < |history| && history[k].Attempt? && history[k].accepted && history[k].nodeId == nodeId
            && forall j | k < j < |history| ::
                 !(history[j].Attempt? && history[j].accepted && history[j].nodeId == nodeId)
    {
      assert events[k] == RegistrationEvent(history[k]) && events[k].Put?;
    }
  }
}
