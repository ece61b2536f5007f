/** A network that delivers everything completes the echo; so the conditions of the agreement
    theorems can be met, for any correct cryptography and for a concrete one. */
module Completeness {
  import opened Base
  import opened Handshake
  import opened Identities
  import opened SecureEcho
  import opened SecurePacket
  import opened Signing
  import opened Text
  import opened Wire

  /** Two nodes that know each other's keys, with the secrets they draw. */
  datatype Parties = Parties(
    client: Identity, clientTrusts: Authorizations, clientSecret: Bytes32,
    server: Identity, serverTrusts: Authorizations, serverSecret: Bytes32, source: SocketAddr)

  ghost predicate Acquainted(crypto: Crypto, p: Parties) {
    && p.server.nodeId in p.clientTrusts
    && p.clientTrusts[p.server.nodeId] == crypto.publicOf(p.server.signingKey)
    && p.client.nodeId in p.serverTrusts
    && p.serverTrusts[p.client.nodeId] == crypto.publicOf(p.client.signingKey)
    && Contributory(crypto.agree(p.clientSecret, crypto.exchangePublic(p.serverSecret)))
  }

  /** The cipher refuses no text as short as a datagram. */
  ghost predicate Available(crypto: Crypto) {
    forall k, n, a, m | |m| <= MAX_DATAGRAM_BYTES :: crypto.aead.encrypt(k, n, a, m).Some?
  }

  function HelloOf(crypto: Crypto, p: Parties): ClientHello {
    MakeClientHello(crypto, p.client, p.server.nodeId, p.clientSecret)
  }

  function ReplyOf(crypto: Crypto, p: Parties): ServerHello {
    var hello, public := HelloOf(crypto, p), crypto.exchangePublic(p.serverSecret);
    ServerHello(hello.initiatorId, hello.responderId, hello.exchangePublic, public,
                crypto.sign(p.server.signingKey, ServerMessage(hello, public)))
  }

  /** The server accepts the genuine client hello. */
  lemma HelloAccepted(crypto: Crypto, p: Parties)
    requires Correct(crypto) && Acquainted(crypto, p)
    ensures ServerAccept(crypto, p.server, p.serverTrusts, p.serverSecret, Utf8(EncodeClientHello(HelloOf(crypto, p))))
            == Some((HelloOf(crypto, p), ReplyOf(crypto, p)))
  {
    hide ClientMessage, ServerMessage, EncodeClientHello, ParseClientHello, FromUtf8, Utf8;
    ClientHelloRoundTrip(HelloOf(crypto, p));
  }

  /** The client accepts the genuine server hello, and derives the server's session. */
  lemma ReplyAccepted(crypto: Crypto, p: Parties)
    requires Correct(crypto) && Acquainted(crypto, p)
    ensures var session := ServerSessionOf(crypto, p.serverSecret, HelloOf(crypto, p), ReplyOf(crypto, p));
            && session.Some?
            && ClientFinish(crypto, p.clientTrusts, HelloOf(crypto, p), p.clientSecret,
                            Some(Utf8(EncodeServerHello(ReplyOf(crypto, p))))) == Established(session.value)
  {
    hide ClientMessage, ServerMessage, Transcript, EncodeServerHello, ParseServerHello, FromUtf8, Utf8;
    ServerHelloRoundTrip(ReplyOf(crypto, p));
    assert crypto.agree(p.clientSecret, crypto.exchangePublic(p.serverSecret))
        == crypto.agree(p.serverSecret, crypto.exchangePublic(p.clientSecret));
  }

  lemma LearningMessageLength()
    ensures |LearningMessage()| <= 116
  {
    hide Utf8;
    Utf8LengthBound(LEARNING_TEXT);
    assert |LEARNING_TEXT| == 29;
  }

  lemma ShortSeal(crypto: Crypto, key: Bytes32, d: Direction)
    requires Correct(crypto) && Available(crypto)
    ensures var packet := SealAt(crypto.aead, key, d, 0, LearningMessage());
            && packet.Some? && |packet.value| <= MAX_DATAGRAM_BYTES
            && OpenAt(crypto.aead, key, d, 0, packet.value) == Some(LearningMessage())
  {
    LearningMessageLength();
    hide LearningMessage;
    var packet := SealAt(crypto.aead, key, d, 0, LearningMessage());
    assert crypto.aead.encrypt(key, Nonce(d, 0), Header(d, 0), LearningMessage()).Some?;
    OpenIffSealed(crypto.aead, key, d, 0, packet.value);
    assert OpensTo(crypto.aead, key, d, 0, packet.value, LearningMessage());
  }

  /** Under any keys, the request opens, and its answer is the echo the client accepts. */
  lemma EchoAccepted(crypto: Crypto, keys: SessionKeys)
    requires Correct(crypto) && Available(crypto)
    ensures SealedRequest(crypto, keys).Some?
    ensures var answer := AnswerOf(crypto, keys, SealedRequest(crypto, keys).value);
            answer.Some? && AcceptsEcho(crypto, keys, answer.value.response)
  {
    hide OpenAt, SealAt, LearningMessage, Correct, Available;
    ShortSeal(crypto, keys.clientToServer, ClientToServer);
    ShortSeal(crypto, keys.serverToClient, ServerToClient);
  }

  lemma Continue(crypto: Crypto, honest: set<Bytes32>, steps: seq<Step>, w: World, step: Step, w': World)
    requires IdealRun(crypto, honest, steps) && Run(crypto, steps) == w
    requires Apply(crypto, w, step) == w'
    requires SignaturesIdeal(crypto, honest, w, step) && PacketsIdeal(crypto, w, step) && Fresh(w') && NoCollision(w')
    ensures IdealRun(crypto, honest, steps + [step]) && Run(crypto, steps + [step]) == w'
  {
    hide Apply, SignaturesIdeal, PacketsIdeal, Fresh, NoCollision;
    assert (steps + [step])[..|steps|] == steps;
  }

  /** In a world with one session a side, both on the same transcript, nothing collides. */
  lemma PairIsIdeal(w: World)
    requires |w.clients| <= 1 && |w.servers| <= 1
    requires |w.clients| == 1 && |w.servers| == 1 && w.clients[0].session.Some? && w.servers[0].session.Some? ==>
               w.clients[0].session.value.transcript == w.servers[0].session.value.transcript
    ensures Fresh(w) && NoCollision(w)
  {
  }

  function Started(crypto: Crypto, p: Parties): Client {
    NewClient(crypto, p.client, p.clientTrusts, p.server.nodeId, p.clientSecret)
  }

  function Accepting(crypto: Crypto, p: Parties): Server {
    NewServer(crypto, p.server, p.serverTrusts, p.serverSecret, p.source, (HelloOf(crypto, p), ReplyOf(crypto, p)))
  }

  function HelloDelivery(crypto: Crypto, p: Parties): Step {
    HelloArrives(p.server, p.serverTrusts, p.serverSecret, p.source, Utf8(EncodeClientHello(HelloOf(crypto, p))))
  }

  function ReplyDelivery(crypto: Crypto, p: Parties): Step {
    HelloReply(0, Some(Utf8(EncodeServerHello(ReplyOf(crypto, p)))))
  }

  /** The genuine client hello is in the record of signatures. */
  lemma SignedHello(crypto: Crypto, honest: set<Bytes32>, p: Parties)
    requires Acquainted(crypto, p)
    ensures var w := World([Started(crypto, p)], [], []);
            SignaturesIdeal(crypto, honest, w, HelloDelivery(crypto, p)) && PacketsIdeal(crypto, w, HelloDelivery(crypto, p))
  {
    hide ClientMessage, ServerMessage, EncodeClientHello, ParseClientHello, FromUtf8, Utf8;
    ClientHelloRoundTrip(HelloOf(crypto, p));
    var w := World([Started(crypto, p)], [], []);
    var h := HelloOf(crypto, p);
    assert ClientSigned(crypto, w.clients[0], p.serverTrusts[p.client.nodeId],
                        ClientMessage(h.initiatorId, h.responderId, h.exchangePublic), h.signature);
  }

  /** The genuine server hello is in the record of signatures. */
  lemma SignedReply(crypto: Crypto, honest: set<Bytes32>, p: Parties)
    requires Acquainted(crypto, p)
    ensures var w := World([Started(crypto, p)], [Accepting(crypto, p)], []);
            SignaturesIdeal(crypto, honest, w, ReplyDelivery(crypto, p)) && PacketsIdeal(crypto, w, ReplyDelivery(crypto, p))
  {
    hide ClientMessage, ServerMessage, EncodeServerHello, ParseServerHello, FromUtf8, Utf8, ServerSessionOf;
    ServerHelloRoundTrip(ReplyOf(crypto, p));
    var w := World([Started(crypto, p)], [Accepting(crypto, p)], []);
    var h, r := HelloOf(crypto, p), ReplyOf(crypto, p);
    assert ServerSigned(crypto, w.servers[0], p.clientTrusts[p.server.nodeId],
                        ServerMessage(h, r.serverExchangePublic), r.signature);
  }

  /** What passes between the two sessions: the derived session, the request and the answer. */
  ghost predicate Exchange(crypto: Crypto, p: Parties, session: Session, request: Bytes, answer: Answer) {
    && ServerSessionOf(crypto, p.serverSecret, HelloOf(crypto, p), ReplyOf(crypto, p)) == Some(session)
    && SealedRequest(crypto, session.keys) == Some(request)
    && AnswerOf(crypto, session.keys, request) == Some(answer)
    && AcceptsEcho(crypto, session.keys, answer.response)
  }

  lemma ExchangeExists(crypto: Crypto, p: Parties) returns (session: Session, request: Bytes, answer: Answer)
    requires Correct(crypto) && Available(crypto) && Acquainted(crypto, p)
    ensures Exchange(crypto, p, session, request, answer)
  {
    hide ServerSessionOf, HelloOf, ReplyOf, SealedRequest, AnswerOf, AcceptsEcho, ClientFinish, EncodeServerHello, Utf8,
         Correct, Available, Acquainted;
    ReplyAccepted(crypto, p);
    session := ServerSessionOf(crypto, p.serverSecret, HelloOf(crypto, p), ReplyOf(crypto, p)).value;
    EchoAccepted(crypto, session.keys);
    request := SealedRequest(crypto, session.keys).value;
    answer := AnswerOf(crypto, session.keys, request).value;
  }

  // The worlds of a faithful run, and the steps between them.

  function Waiting(crypto: Crypto, p: Parties, session: Session, request: Bytes): Client {
    Started(crypto, p).(session := Some(session), request := request)
  }

  function Answered(crypto: Crypto, p: Parties, answer: Answer): Server {
    Accepting(crypto, p).(answer := Some(answer), closed := true)
  }

  function Finished(crypto: Crypto, p: Parties, session: Session, request: Bytes, answer: Answer): Client {
    Waiting(crypto, p, session, request).(echo := Some(answer.response), closed := true)
  }

  lemma StartApplies(crypto: Crypto, p: Parties)
    requires Acquainted(crypto, p)
    ensures Apply(crypto, World([], [], []), StartClient(p.client, p.clientTrusts, p.server.nodeId, p.clientSecret))
            == World([Started(crypto, p)], [], [])
  {
    KnowsServer(crypto, p);
    hide NewClient, Acquainted, ServerAccept, OnHelloReply, OnEcho, OnRequest, RegistrationMessage;
  }

  lemma KnowsServer(crypto: Crypto, p: Parties)
    requires Acquainted(crypto, p)
    ensures p.server.nodeId in p.clientTrusts
  {
  }

  lemma HelloApplies(crypto: Crypto, p: Parties)
    requires Correct(crypto) && Acquainted(crypto, p)
    ensures Apply(crypto, World([Started(crypto, p)], [], []), HelloDelivery(crypto, p))
            == World([Started(crypto, p)], [Accepting(crypto, p)], [])
  {
    hide Started, NewServer, ServerAccept, HelloOf, ReplyOf, Utf8, EncodeClientHello, Correct, Acquainted;
    HelloAccepted(crypto, p);
  }

  lemma StartedFields(crypto: Crypto, p: Parties)
    ensures var c := Started(crypto, p);
            && c.session.None? && !c.closed && c.hello == HelloOf(crypto, p) && c.secret == p.clientSecret
            && c.authorizations == p.clientTrusts && c.identity == p.client && c.peer == p.server.nodeId
  {
    hide MakeClientHello;
  }

  lemma AcceptingFields(crypto: Crypto, p: Parties)
    ensures var s := Accepting(crypto, p);
            && s.session == ServerSessionOf(crypto, p.serverSecret, HelloOf(crypto, p), ReplyOf(crypto, p))
            && s.closed == s.session.None? && s.identity == p.server && s.source == p.source && s.authorizations == p.serverTrusts
            && s.client == HelloOf(crypto, p)
  {
    hide HelloOf, ReplyOf, ServerSessionOf;
  }

  lemma ReplyApplies(crypto: Crypto, p: Parties, session: Session, request: Bytes, answer: Answer)
    requires Correct(crypto) && Acquainted(crypto, p) && Exchange(crypto, p, session, request, answer)
    ensures Apply(crypto, World([Started(crypto, p)], [Accepting(crypto, p)], []), ReplyDelivery(crypto, p))
            == World([Waiting(crypto, p, session, request)], [Accepting(crypto, p)], [])
  {
    hide Started, Accepting, HelloOf, ReplyOf, Utf8, EncodeServerHello, Correct, Acquainted, ClientFinish,
         ServerSessionOf, SealedRequest, AnswerOf, AcceptsEcho;
    ReplyAccepted(crypto, p);
    StartedFields(crypto, p);
  }

  lemma RequestApplies(crypto: Crypto, p: Parties, session: Session, request: Bytes, answer: Answer)
    requires Exchange(crypto, p, session, request, answer)
    ensures Apply(crypto, World([Waiting(crypto, p, session, request)], [Accepting(crypto, p)], []),
                  RequestArrives(0, p.source, request))
            == World([Waiting(crypto, p, session, request)], [Answered(crypto, p, answer)], [])
  {
    hide Waiting, Accepting, HelloOf, ReplyOf, ServerSessionOf, SealedRequest, AnswerOf, AcceptsEcho;
    AcceptingFields(crypto, p);
  }

  lemma EchoApplies(crypto: Crypto, p: Parties, session: Session, request: Bytes, answer: Answer)
    requires Exchange(crypto, p, session, request, answer)
    ensures Apply(crypto, World([Waiting(crypto, p, session, request)], [Answered(crypto, p, answer)], []),
                  EchoArrives(0, answer.response))
            == World([Finished(crypto, p, session, request, answer)], [Answered(crypto, p, answer)], [])
  {
    hide Started, Answered, HelloOf, ReplyOf, ServerSessionOf, SealedRequest, AnswerOf, AcceptsEcho;
    StartedFields(crypto, p);
  }

  lemma DeliveriesAreIdeal(crypto: Crypto, p: Parties, session: Session, request: Bytes, answer: Answer)
    requires Exchange(crypto, p, session, request, answer)
    ensures PacketsIdeal(crypto, World([Waiting(crypto, p, session, request)], [Accepting(crypto, p)], []),
                         RequestArrives(0, p.source, request))
    ensures PacketsIdeal(crypto, World([Waiting(crypto, p, session, request)], [Answered(crypto, p, answer)], []),
                         EchoArrives(0, answer.response))
  {
    hide Started, Accepting, HelloOf, ReplyOf, ServerSessionOf, SealedRequest, AnswerOf, AcceptsEcho, OpenAt;
    AcceptingFields(crypto, p);
    var c, s, s' := Waiting(crypto, p, session, request), Accepting(crypto, p), Answered(crypto, p, answer);
    assert ClientSealed(World([c], [s], []).clients[0], session.keys.clientToServer, request);
    assert ServerSealed(World([c], [s'], []).servers[0], session.keys.serverToClient, answer.response);
  }

  lemma WorldsAreIdeal(crypto: Crypto, p: Parties, session: Session, request: Bytes, answer: Answer)
    requires Exchange(crypto, p, session, request, answer)
    ensures var c0, c1, c2 := Started(crypto, p), Waiting(crypto, p, session, request),
                              Finished(crypto, p, session, request, answer);
            var s0, s1 := Accepting(crypto, p), Answered(crypto, p, answer);
            && Fresh(World([c0], [], [])) && NoCollision(World([c0], [], []))
            && Fresh(World([c0], [s0], [])) && NoCollision(World([c0], [s0], []))
            && Fresh(World([c1], [s0], [])) && NoCollision(World([c1], [s0], []))
            && Fresh(World([c1], [s1], [])) && NoCollision(World([c1], [s1], []))
            && Fresh(World([c2], [s1], [])) && NoCollision(World([c2], [s1], []))
  {
    hide Started, Accepting, HelloOf, ReplyOf, ServerSessionOf, SealedRequest, AnswerOf, AcceptsEcho, Fresh, NoCollision;
    AcceptingFields(crypto, p);
    StartedFields(crypto, p);
    var c0, c1, c2 := Started(crypto, p), Waiting(crypto, p, session, request), Finished(crypto, p, session, request, answer);
    var s0, s1 := Accepting(crypto, p), Answered(crypto, p, answer);
    PairIsIdeal(World([c0], [], []));
    PairIsIdeal(World([c0], [s0], []));
    PairIsIdeal(World([c1], [s0], []));
    PairIsIdeal(World([c1], [s1], []));
    PairIsIdeal(World([c2], [s1], []));
  }

  /** Only the arrival of a hello touches the record of signatures, only that of a packet the record
      of packets. */
  lemma QuietSteps(crypto: Crypto, honest: set<Bytes32>, w: World, step: Step)
    ensures !step.HelloReply? && !step.HelloArrives? ==> SignaturesIdeal(crypto, honest, w, step)
    ensures !step.EchoArrives? && !step.RequestArrives? ==> PacketsIdeal(crypto, w, step)
  {
  }

  lemma Beginning(crypto: Crypto, honest: set<Bytes32>)
    ensures IdealRun(crypto, honest, []) && Run(crypto, []) == World([], [], [])
  {
  }

  lemma HelloNames(crypto: Crypto, p: Parties)
    ensures HelloOf(crypto, p).initiatorId == p.client.nodeId
  {
  }

  /** Each party has one session, with the other; both are done, and the client holds the server's answer. */
  ghost predicate Completed(p: Parties, w: World) {
    && |w.clients| == 1 && |w.servers| == 1
    && var c, s := w.clients[0], w.servers[0];
    && c.identity == p.client && c.peer == p.server.nodeId && c.authorizations == p.clientTrusts
    && s.identity == p.server && s.client.initiatorId == p.client.nodeId && s.authorizations == p.serverTrusts
    && s.answer.Some? && c.echo == Some(s.answer.value.response)
  }

  lemma FinalFields(crypto: Crypto, p: Parties, session: Session, request: Bytes, answer: Answer)
    ensures Completed(p, World([Finished(crypto, p, session, request, answer)], [Answered(crypto, p, answer)], []))
  {
    hide Started, Accepting, HelloOf, ServerSessionOf, ReplyOf;
    StartedFields(crypto, p);
    AcceptingFields(crypto, p);
    HelloNames(crypto, p);
  }

  /** Whatever two acquainted nodes draw, delivering their datagrams completes the exchange. */
  lemma FaithfulNetworkCompletes(crypto: Crypto, honest: set<Bytes32>, p: Parties)
    requires Correct(crypto) && Available(crypto) && Acquainted(crypto, p)
    ensures exists steps :: IdealRun(crypto, honest, steps) && Completed(p, Run(crypto, steps))
  {
    hide *;
    var session, request, answer := ExchangeExists(crypto, p);
    var c0, c1, c2 := Started(crypto, p), Waiting(crypto, p, session, request), Finished(crypto, p, session, request, answer);
    var s0, s1 := Accepting(crypto, p), Answered(crypto, p, answer);
    StartApplies(crypto, p);
    HelloApplies(crypto, p);
    ReplyApplies(crypto, p, session, request, answer);
    RequestApplies(crypto, p, session, request, answer);
    EchoApplies(crypto, p, session, request, answer);
    SignedHello(crypto, honest, p);
    SignedReply(crypto, honest, p);
    DeliveriesAreIdeal(crypto, p, session, request, answer);
    WorldsAreIdeal(crypto, p, session, request, answer);
    FinalFields(crypto, p, session, request, answer);
    var start := StartClient(p.client, p.clientTrusts, p.server.nodeId, p.clientSecret);
    var w0, w1, w2 := World([], [], []), World([c0], [], []), World([c0], [s0], []);
    var w3, w4, w5 := World([c1], [s0], []), World([c1], [s1], []), World([c2], [s1], []);
    QuietSteps(crypto, honest, w0, start);
    QuietSteps(crypto, honest, w3, RequestArrives(0, p.source, request));
    QuietSteps(crypto, honest, w4, EchoArrives(0, answer.response));
    Beginning(crypto, honest);
    var steps := [];
    Continue(crypto, honest, steps, w0, start, w1);
    steps := steps + [start];
    Continue(crypto, honest, steps, w1, HelloDelivery(crypto, p), w2);
    steps := steps + [HelloDelivery(crypto, p)];
    Continue(crypto, honest, steps, w2, ReplyDelivery(crypto, p), w3);
    steps := steps + [ReplyDelivery(crypto, p)];
    Continue(crypto, honest, steps, w3, RequestArrives(0, p.source, request), w4);
    steps := steps + [RequestArrives(0, p.source, request)];
    Continue(crypto, honest, steps, w4, EchoArrives(0, answer.response), w5);
    steps := steps + [EchoArrives(0, answer.response)];
  }

  // ---------- A concrete instance ----------

  function Zeros(n: nat): Bytes {
    BigEndian(0, n)
  }

  function AddByte(x: int, y: int): byte {
    (x + y) % 256
  }

  function AddBytes(a: Bytes32, b: Bytes32): Bytes32 {
    seq(32, i requires 0 <= i < 32 => AddByte(a[i], b[i]))
  }

  function PlainAead(): Aead {
    Aead((k: Bytes32, n: Bytes, a: Bytes, m: Bytes) => Some(m + Zeros(16)),
         (k: Bytes32, n: Bytes, a: Bytes, c: Bytes) =>
           if |c| >= 16 && c[|c| - 16..] == Zeros(16) then Some(c[..|c| - 16]) else None)
  }

  /** Cryptography that keeps nothing secret but obeys the laws. */
  function Toy(): Crypto {
    Crypto((k: Bytes32) => k,
           (k: Bytes32, m: Bytes) => k + k,
           (p: Bytes32, m: Bytes, s: Signature) => s == p + p,
           (k: Bytes32) => k,
           (a: Bytes32, b: Bytes32) => AddBytes(a, b),
           (m: Bytes) => Zeros(32),
           (salt: Bytes32, shared: Bytes32, info: Bytes) => shared,
           PlainAead())
  }

  lemma PlainIsTidy()
    ensures Tidy(PlainAead())
  {
    var aead := PlainAead();
    forall k, n, a, m, c
      ensures aead.decrypt(k, n, a, c) == Some(m) <==> aead.encrypt(k, n, a, m) == Some(c)
    {
      if |c| >= 16 {
        assert c == c[..|c| - 16] + c[|c| - 16..];
      }
      assert (m + Zeros(16))[..|m|] == m && (m + Zeros(16))[|m|..] == Zeros(16);
    }
  }

  lemma ToyIsCorrect()
    ensures Correct(Toy()) && Available(Toy())
  {
    PlainIsTidy();
    forall a, b
      ensures Toy().agree(a, Toy().exchangePublic(b)) == Toy().agree(b, Toy().exchangePublic(a))
    {
      assert AddBytes(a, b) == AddBytes(b, a);
    }
  }

  function Someone(): Bytes32 {
    BigEndian(1, 32)
  }

  /** Two nodes, "a" and "b", that share a key. */
  function Couple(): Parties {
    var trusts: Authorizations := map["a" := Someone(), "b" := Someone()];
    Parties(RawIdentity("a", Someone()), trusts, Zeros(32), RawIdentity("b", Someone()), trusts, Someone(), V4(0, 0))
  }

  lemma CoupleIsAcquainted()
    ensures Acquainted(Toy(), Couple())
  {
    assert Zeros(32)[31] == 0 && Someone()[31] == 1;
    assert AddBytes(Zeros(32), Someone())[31] != 0;
  }

  /** One client and one server are done, each trusting an honest key. */
  ghost predicate BothComplete(honest: set<Bytes32>, w: World) {
    && |w.clients| == 1 && w.clients[0].echo.Some? && TrustsHonestServer(honest, w.clients[0])
    && |w.servers| == 1 && w.servers[0].answer.Some? && TrustsHonestClient(honest, w.servers[0])
  }

  lemma TrustsKnownKeys(honest: set<Bytes32>, w: World, p: Parties)
    requires Completed(p, w)
    requires p.server.nodeId in p.clientTrusts && p.clientTrusts[p.server.nodeId] in honest
    requires p.client.nodeId in p.serverTrusts && p.serverTrusts[p.client.nodeId] in honest
    ensures BothComplete(honest, w)
  {
  }

  lemma CoupleIsHonest()
    ensures var p := Couple();
            && p.server.nodeId in p.clientTrusts && p.clientTrusts[p.server.nodeId] == Someone()
            && p.client.nodeId in p.serverTrusts && p.serverTrusts[p.client.nodeId] == Someone()
  {
  }

  /** The agreement theorems are not vacuous: a concrete ideal run completes on both sides, each
      side trusting an honest key. */
  lemma IdealRunsComplete()
    ensures exists crypto, honest, steps ::
              Correct(crypto) && IdealRun(crypto, honest, steps) && BothComplete(honest, Run(crypto, steps))
  {
    hide *;
    var crypto, honest := Toy(), {Someone()};
    ToyIsCorrect();
    CoupleIsAcquainted();
    var p := Couple();
    CoupleIsHonest();
    FaithfulNetworkCompletes(crypto, honest, p);
    var steps :| IdealRun(crypto, honest, steps) && Completed(p, Run(crypto, steps));
    TrustsKnownKeys(honest, Run(crypto, steps), p);
  }
}
