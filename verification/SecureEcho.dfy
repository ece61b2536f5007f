/**
  Any number of clients and servers running the handshake and the encrypted echo over a network
  that drops, repeats, reorders, alters and invents datagrams. A run is any sequence of steps; the
  datagrams in it are arbitrary. Ideal cryptography is a condition on runs, stated over what the
  honest sessions have signed, sealed and derived so far.
*/
module SecureEcho {
  import opened Base
  import opened Handshake
  import opened Identities
  import opened Leases
  import opened SecurePacket
  import opened Signing
  import opened Text
  import opened Wire

  // ---------- State ----------

  /** A client: its hello is sent; `session` and `request` are set once the server hello is accepted,
      `echo` once the exchange completes. A closed session reads nothing more. */
  datatype Client = Client(
    identity: Identity, authorizations: Authorizations, peer: string, secret: Bytes32, hello: ClientHello,
    session: Option<Session>, request: Bytes, echo: Option<Bytes>, closed: bool)

  /** A server that accepted a client hello; `session` is unset when the shared secret was unsafe,
      `answer` is set once the encrypted request is answered. */
  datatype Server = Server(
    identity: Identity, authorizations: Authorizations, secret: Bytes32, source: SocketAddr,
    client: ClientHello, server: ServerHello, session: Option<Session>, answer: Option<Answer>, closed: bool)

  /** A registration signed for the coordinator with the same long-term key. */
  datatype SignedRegistration = SignedRegistration(
    identity: Identity, lease: Duration, challenge: Bytes32, signature: Signature)

  datatype World = World(clients: seq<Client>, servers: seq<Server>, registrations: seq<SignedRegistration>)

  datatype Step =
    | StartClient(identity: Identity, authorizations: Authorizations, peer: string, secret: Bytes32)
    | HelloReply(i: nat, reply: Option<Bytes>)
    | EchoArrives(i: nat, datagram: Bytes)
    | HelloArrives(identity: Identity, authorizations: Authorizations, secret: Bytes32,
                   source: SocketAddr, datagram: Bytes)
    | RequestArrives(j: nat, source: SocketAddr, datagram: Bytes)
    | SignRegistration(identity: Identity, lease: Duration, challenge: Bytes32)

  // ---------- Steps ----------

  function NewClient(crypto: Crypto, identity: Identity, authorizations: Authorizations, peer: string, secret: Bytes32): Client {
    Client(identity, authorizations, peer, secret, MakeClientHello(crypto, identity, peer, secret),
           None, [], None, false)
  }

  function OnHelloReply(crypto: Crypto, c: Client, reply: Option<Bytes>): Client {
    if c.closed || c.session.Some? then c
    else
      match ClientFinish(crypto, c.authorizations, c.hello, c.secret, reply)
      case Refused(_) => c.(closed := true)
      case Established(session) =>
        match SealedRequest(crypto, session.keys)
        case None => c.(closed := true)
        case Some(request) => c.(session := Some(session), request := request)
  }

  function OnEcho(crypto: Crypto, c: Client, datagram: Bytes): Client {
    if c.closed || c.session.None? then c
    else if AcceptsEcho(crypto, c.session.value.keys, datagram) then c.(echo := Some(datagram), closed := true)
    else c.(closed := true)
  }

  function NewServer(crypto: Crypto, identity: Identity, authorizations: Authorizations, secret: Bytes32,
                     source: SocketAddr, hellos: (ClientHello, ServerHello)): Server
  {
    var session := ServerSessionOf(crypto, secret, hellos.0, hellos.1);
    Server(identity, authorizations, secret, source, hellos.0, hellos.1, session, None, session.None?)
  }

  function OnRequest(crypto: Crypto, s: Server, source: SocketAddr, datagram: Bytes): Server {
    if s.closed || s.session.None? then s
    else if source != s.source then s.(closed := true)
    else s.(answer := AnswerOf(crypto, s.session.value.keys, datagram), closed := true)
  }

  /** The server as the code runs it: one hello, one reply, one request, one echo. Nothing is sent
      back after a failed check. */
  method RunSecureEchoServer(crypto: Crypto, identity: Identity, authorizations: Authorizations, secret: Bytes32,
                             hello: Bytes, source: SocketAddr, request: Bytes, requestSource: SocketAddr)
    returns (reply: Option<Bytes>, echo: Option<Bytes>)
    requires Tidy(crypto.aead)
    ensures match ServerAccept(crypto, identity, authorizations, secret, hello)
            case None => reply == None && echo == None
            case Some(hellos) =>
              var s := NewServer(crypto, identity, authorizations, secret, source, hellos);
              var answer := OnRequest(crypto, s, requestSource, request).answer;
              && reply == (if s.session.Some? then Some(Utf8(EncodeServerHello(hellos.1))) else None)
              && s.closed == s.session.None? && s.source == source && s.answer == None
              && echo == (if answer.Some? then Some(answer.value.response) else None)
    ensures echo.Some? ==> reply.Some? && requestSource == source
  {
    hide ClientMessage, ServerMessage, Transcript, ParseClientHello, FromUtf8, Utf8, EncodeServerHello, VerifySignature,
         AnswerOf, DeriveSessionKeys;
    reply, echo := None, None;
    var message := ReceivedText(hello);
    if message.None? {
      return;
    }
    var parsed := ParseClientHello(message.value);
    if parsed.None? || parsed.value.responderId != identity.nodeId {
      return;
    }
    var client := parsed.value;
    var signed := ClientMessage(client.initiatorId, client.responderId, client.exchangePublic);
    if !VerifySignature(crypto, authorizations, client.initiatorId, signed, client.signature) {
      return;
    }
    var exchangePublic := crypto.exchangePublic(secret);
    var signature := crypto.sign(identity.signingKey, ServerMessage(client, exchangePublic));
    var server := ServerHello(client.initiatorId, client.responderId, client.exchangePublic, exchangePublic, signature);
    var transcript := HandshakeTranscript(client, server);
    var keys := DeriveSessionKeys(crypto, crypto.agree(secret, client.exchangePublic), transcript);
    if keys.None? {
      return;
    }
    reply := Some(Utf8(EncodeServerHello(server)));
    if requestSource != source {
      return;
    }
    var answer := AnswerRequest(crypto, keys.value, request);
    if answer.Some? {
      echo := Some(answer.value.response);
    }
  }

  /** An open client takes the session that its handshake yields, with the request it can seal; any other reply
      closes it. A client that is closed or has a session reads no server hello. */
  lemma OnHelloReplyExactly(crypto: Crypto, c: Client, reply: Option<Bytes>)
    ensures var c' := OnHelloReply(crypto, c, reply);
            if c.closed || c.session.Some? then c' == c
            else if exists session, request :: Yields(crypto, c, reply, session, request) then
              && c'.session.Some? && Yields(crypto, c, reply, c'.session.value, c'.request)
              && c' == c.(session := c'.session, request := c'.request)
            else c' == c.(closed := true)
  {
    hide ClientFinish, SealedRequest;
    var c' := OnHelloReply(crypto, c, reply);
    if !c.closed && c.session.None? && c'.session.Some? {
      assert Yields(crypto, c, reply, c'.session.value, c'.request);
    }
  }

  ghost predicate Yields(crypto: Crypto, c: Client, reply: Option<Bytes>, session: Session, request: Bytes) {
    && ClientFinish(crypto, c.authorizations, c.hello, c.secret, reply) == Established(session)
    && SealedRequest(crypto, session.keys) == Some(request)
  }

  /** A client with a session reads one echo and closes, keeping the echo exactly when it accepts it. */
  lemma OnEchoExactly(crypto: Crypto, c: Client, datagram: Bytes)
    requires c.echo.None?
    ensures var c' := OnEcho(crypto, c, datagram);
            if c.closed || c.session.None? then c' == c
            else
              && c'.closed
              && (c'.echo == Some(datagram) <==> AcceptsEcho(crypto, c.session.value.keys, datagram))
              && (c'.echo == None <==> !AcceptsEcho(crypto, c.session.value.keys, datagram))
              && c' == c.(echo := c'.echo, closed := true)
  {
    hide AcceptsEcho;
  }

  /** A server answers exactly a request from the source of the hello, with the same plaintext, each sealed
      as packet zero under the key of its direction. */
  lemma OnRequestExactly(crypto: Crypto, s: Server, source: SocketAddr, datagram: Bytes, answer: Answer)
    requires Tidy(crypto.aead) && !s.closed && s.answer.None?
    ensures OnRequest(crypto, s, source, datagram).answer == Some(answer) <==>
            && s.session.Some? && source == s.source && |datagram| <= 1024 && answer.request == datagram
            && IsSeal(crypto.aead, s.session.value.keys.clientToServer, ClientToServer, 0, answer.plaintext, datagram)
            && IsSeal(crypto.aead, s.session.value.keys.serverToClient, ServerToClient, 0, answer.plaintext, answer.response)
    ensures OnRequest(crypto, s, source, datagram).session == s.session
  {
    hide AnswerOf, IsSeal, Tidy;
    if s.session.Some? {
      AnswerExactly(crypto, s.session.value.keys, datagram, answer);
    }
  }

  function Apply(crypto: Crypto, w: World, step: Step): World {
    match step
    case StartClient(identity, authorizations, peer, secret) =>
      if peer !in authorizations then w
      else w.(clients := w.clients + [NewClient(crypto, identity, authorizations, peer, secret)])
    case HelloReply(i, reply) =>
      if i >= |w.clients| then w
      else w.(clients := w.clients[i := OnHelloReply(crypto, w.clients[i], reply)])
    case EchoArrives(i, datagram) =>
      if i >= |w.clients| then w
      else w.(clients := w.clients[i := OnEcho(crypto, w.clients[i], datagram)])
    case HelloArrives(identity, authorizations, secret, source, datagram) =>
      (match ServerAccept(crypto, identity, authorizations, secret, datagram)
       case None => w
       case Some(hellos) =>
         w.(servers := w.servers + [NewServer(crypto, identity, authorizations, secret, source, hellos)]))
    case RequestArrives(j, source, datagram) =>
      if j >= |w.servers| then w
      else w.(servers := w.servers[j := OnRequest(crypto, w.servers[j], source, datagram)])
    case SignRegistration(identity, lease, challenge) =>
      var signature := crypto.sign(identity.signingKey, RegistrationMessage(identity.nodeId, lease, challenge));
      w.(registrations := w.registrations + [SignedRegistration(identity, lease, challenge, signature)])
  }

  // ---------- What the honest sessions have produced ----------

  /** Everything signed so far: client hellos, server hellos and registrations. */
  ghost predicate HasSigned(crypto: Crypto, w: World, key: Bytes32, message: Bytes, signature: Signature) {
    || (exists i | 0 <= i < |w.clients| :: ClientSigned(crypto, w.clients[i], key, message, signature))
    || (exists j | 0 <= j < |w.servers| :: ServerSigned(crypto, w.servers[j], key, message, signature))
    || (exists r | 0 <= r < |w.registrations| :: RegistrationSigned(crypto, w.registrations[r], key, message, signature))
  }

  ghost predicate ClientSigned(crypto: Crypto, c: Client, key: Bytes32, message: Bytes, signature: Signature) {
    && key == crypto.publicOf(c.identity.signingKey)
    && message == ClientMessage(c.hello.initiatorId, c.hello.responderId, c.hello.exchangePublic)
    && signature == c.hello.signature
  }

  ghost predicate ServerSigned(crypto: Crypto, s: Server, key: Bytes32, message: Bytes, signature: Signature) {
    && key == crypto.publicOf(s.identity.signingKey)
    && message == ServerMessage(s.client, s.server.serverExchangePublic)
    && signature == s.server.signature
  }

  ghost predicate RegistrationSigned(crypto: Crypto, r: SignedRegistration, key: Bytes32, message: Bytes, signature: Signature) {
    && key == crypto.publicOf(r.identity.signingKey)
    && message == RegistrationMessage(r.identity.nodeId, r.lease, r.challenge)
    && signature == r.signature
  }

  /** Everything sealed so far under a key. */
  ghost predicate HasSealed(w: World, key: Bytes32, packet: Bytes) {
    || (exists i | 0 <= i < |w.clients| :: ClientSealed(w.clients[i], key, packet))
    || (exists j | 0 <= j < |w.servers| :: ServerSealed(w.servers[j], key, packet))
  }

  ghost predicate ClientSealed(c: Client, key: Bytes32, packet: Bytes) {
    c.session.Some? && c.session.value.keys.clientToServer == key && c.request == packet
  }

  ghost predicate ServerSealed(s: Server, key: Bytes32, packet: Bytes) {
    && s.session.Some? && s.session.value.keys.serverToClient == key
    && s.answer.Some? && s.answer.value.response == packet
  }

  /** Some honest session derived these keys from this transcript. */
  ghost predicate HasDerived(w: World, transcript: Bytes, keys: SessionKeys) {
    || (exists i | 0 <= i < |w.clients| :: var s := w.clients[i].session;
          s.Some? && s.value.transcript == transcript && s.value.keys == keys)
    || (exists j | 0 <= j < |w.servers| :: var s := w.servers[j].session;
          s.Some? && s.value.transcript == transcript && s.value.keys == keys)
  }

  // ---------- Ideal cryptography, as conditions on a step ----------

  /** The signature verifies under the key on file for the name. */
  ghost predicate Verified(crypto: Crypto, authorizations: Authorizations, nodeId: string, message: Bytes, signature: Signature) {
    nodeId in authorizations && crypto.verify(authorizations[nodeId], message, signature)
  }

  /** Strong unforgeability: under an honest key only what was signed verifies, signature included. */
  ghost predicate Unforged(crypto: Crypto, honest: set<Bytes32>, w: World, authorizations: Authorizations,
                           nodeId: string, message: Bytes, signature: Signature)
  {
    Verified(crypto, authorizations, nodeId, message, signature) && authorizations[nodeId] in honest ==>
      HasSigned(crypto, w, authorizations[nodeId], message, signature)
  }

  ghost predicate SignaturesIdeal(crypto: Crypto, honest: set<Bytes32>, w: World, step: Step) {
    match step
    case HelloReply(i, Some(datagram)) =>
      i < |w.clients| ==>
        forall text, server | FromUtf8(datagram) == Some(text) && ParseServerHello(text) == Some(server) ::
          Unforged(crypto, honest, w, w.clients[i].authorizations, server.responderId,
                   ServerMessage(w.clients[i].hello, server.serverExchangePublic), server.signature)
    case HelloArrives(_, authorizations, _, _, datagram) =>
      forall text, client | FromUtf8(datagram) == Some(text) && ParseClientHello(text) == Some(client) ::
        Unforged(crypto, honest, w, authorizations, client.initiatorId,
                 ClientMessage(client.initiatorId, client.responderId, client.exchangePublic), client.signature)
    case _ => true
  }

  /** Authenticity: under keys agreed with an honest exchange key, only what was sealed opens. */
  ghost predicate PacketsIdeal(crypto: Crypto, w: World, step: Step) {
    match step
    case EchoArrives(i, datagram) =>
      i < |w.clients| && w.clients[i].session.Some? ==>
        var session := w.clients[i].session.value;
        (exists j | 0 <= j < |w.servers| ::
           w.servers[j].server.serverExchangePublic == session.server.serverExchangePublic)
        && OpenAt(crypto.aead, session.keys.serverToClient, ServerToClient, 0, datagram).Some?
        ==> HasSealed(w, session.keys.serverToClient, datagram)
    case RequestArrives(j, _, datagram) =>
      j < |w.servers| && w.servers[j].session.Some? ==>
        var s := w.servers[j];
        (exists i | 0 <= i < |w.clients| :: w.clients[i].hello.exchangePublic == s.client.exchangePublic)
        && OpenAt(crypto.aead, s.session.value.keys.clientToServer, ClientToServer, 0, datagram).Some?
        ==> HasSealed(w, s.session.value.keys.clientToServer, datagram)
    case _ => true
  }

  /** Fresh exchange secrets: no two clients, and no two servers, share an exchange key. */
  ghost predicate Fresh(w: World) {
    && (forall i, i' | 0 <= i < i' < |w.clients| ::
          w.clients[i].hello.exchangePublic != w.clients[i'].hello.exchangePublic)
    && (forall j, j' | 0 <= j < j' < |w.servers| ::
          w.servers[j].server.serverExchangePublic != w.servers[j'].server.serverExchangePublic)
  }

  /** Different transcripts never gave the same key of the same direction. */
  ghost predicate NoCollision(w: World) {
    forall t, k, t', k' | HasDerived(w, t, k) && HasDerived(w, t', k') ::
      k.clientToServer == k'.clientToServer || k.serverToClient == k'.serverToClient ==> t == t'
  }

  ghost predicate Ideal(crypto: Crypto, honest: set<Bytes32>, w: World, step: Step) {
    && SignaturesIdeal(crypto, honest, w, step)
    && PacketsIdeal(crypto, w, step)
    && Fresh(Apply(crypto, w, step))
    && NoCollision(Apply(crypto, w, step))
  }

  ghost function Run(crypto: Crypto, steps: seq<Step>): World {
    if steps == [] then World([], [], [])
    else Apply(crypto, Run(crypto, steps[..|steps| - 1]), steps[|steps| - 1])
  }

  ghost predicate IdealRun(crypto: Crypto, honest: set<Bytes32>, steps: seq<Step>) {
    steps != [] ==>
      && IdealRun(crypto, honest, steps[..|steps| - 1])
      && Ideal(crypto, honest, Run(crypto, steps[..|steps| - 1]), steps[|steps| - 1])
  }

  // ---------- What every step keeps ----------

  ghost predicate ClientSound(crypto: Crypto, c: Client) {
    && c.hello.initiatorId == c.identity.nodeId && c.hello.responderId == c.peer
    && ValidClientHello(c.hello)
    && c.hello.exchangePublic == crypto.exchangePublic(c.secret)
    && (c.session.Some? ==>
          var s := c.session.value;
          && Echoes(s.server, c.hello)
          && Verified(crypto, c.authorizations, c.peer,
                      ServerMessage(c.hello, s.server.serverExchangePublic), s.server.signature)
          && s.transcript == Transcript(c.hello, s.server)
          && DeriveSessionKeys(crypto, crypto.agree(c.secret, s.server.serverExchangePublic), s.transcript) == Some(s.keys)
          && SealedRequest(crypto, s.keys) == Some(c.request))
    && (c.echo.Some? ==> c.session.Some? && AcceptsEcho(crypto, c.session.value.keys, c.echo.value))
  }

  ghost predicate ServerSound(crypto: Crypto, s: Server) {
    && ValidClientHello(s.client) && s.client.responderId == s.identity.nodeId
    && Echoes(s.server, s.client) && s.server.serverExchangePublic == crypto.exchangePublic(s.secret)
    && Verified(crypto, s.authorizations, s.client.initiatorId,
                ClientMessage(s.client.initiatorId, s.client.responderId, s.client.exchangePublic),
                s.client.signature)
    && s.session == ServerSessionOf(crypto, s.secret, s.client, s.server)
    && (s.answer.Some? ==>
          && s.closed && s.session.Some?
          && AnswerOf(crypto, s.session.value.keys, s.answer.value.request) == s.answer)
  }

  /** The key the client expects of its peer belongs to an honest node. */
  ghost predicate TrustsHonestServer(honest: set<Bytes32>, c: Client) {
    c.peer in c.authorizations && c.authorizations[c.peer] in honest
  }

  /** The key the server expects of its client belongs to an honest node. */
  ghost predicate TrustsHonestClient(honest: set<Bytes32>, s: Server) {
    s.client.initiatorId in s.authorizations && s.authorizations[s.client.initiatorId] in honest
  }

  /** What a client that trusts an honest key may conclude. */
  ghost predicate ClientAssured(crypto: Crypto, honest: set<Bytes32>, w: World, c: Client) {
    c.session.Some? && TrustsHonestServer(honest, c) ==>
      var s := c.session.value;
      && HasSigned(crypto, w, c.authorizations[c.peer],
                   ServerMessage(c.hello, s.server.serverExchangePublic), s.server.signature)
      && (c.echo.Some? ==> HasSealed(w, s.keys.serverToClient, c.echo.value))
  }

  /** What a server that trusts an honest key may conclude. */
  ghost predicate ServerAssured(crypto: Crypto, honest: set<Bytes32>, w: World, s: Server) {
    TrustsHonestClient(honest, s) ==>
      && HasSigned(crypto, w, s.authorizations[s.client.initiatorId],
                   ClientMessage(s.client.initiatorId, s.client.responderId, s.client.exchangePublic),
                   s.client.signature)
      && (s.answer.Some? && s.session.Some? ==>
            HasSealed(w, s.session.value.keys.clientToServer, s.answer.value.request))
  }

  ghost predicate Sound(crypto: Crypto, w: World) {
    && (forall i | 0 <= i < |w.clients| :: ClientSound(crypto, w.clients[i]))
    && (forall j | 0 <= j < |w.servers| :: ServerSound(crypto, w.servers[j]))
  }

  ghost predicate Assured(crypto: Crypto, honest: set<Bytes32>, w: World) {
    && (forall i | 0 <= i < |w.clients| :: ClientAssured(crypto, honest, w, w.clients[i]))
    && (forall j | 0 <= j < |w.servers| :: ServerAssured(crypto, honest, w, w.servers[j]))
  }

  lemma ClientIsGood(crypto: Crypto, honest: set<Bytes32>, w: World, i: nat)
    requires Sound(crypto, w) && Assured(crypto, honest, w) && i < |w.clients|
    ensures ClientSound(crypto, w.clients[i]) && ClientAssured(crypto, honest, w, w.clients[i])
  {
    hide ClientSound, ClientAssured, ServerSound, ServerAssured;
  }

  lemma ServerIsGood(crypto: Crypto, honest: set<Bytes32>, w: World, j: nat)
    requires Sound(crypto, w) && Assured(crypto, honest, w) && j < |w.servers|
    ensures ServerSound(crypto, w.servers[j]) && ServerAssured(crypto, honest, w, w.servers[j])
  {
    hide ClientSound, ClientAssured, ServerSound, ServerAssured;
  }

  // ---------- Nothing produced is ever lost ----------

  ghost predicate ClientGrows(c: Client, c': Client) {
    && c'.identity == c.identity && c'.authorizations == c.authorizations && c'.peer == c.peer
    && c'.secret == c.secret && c'.hello == c.hello
    && (c.session.Some? ==> c'.session == c.session && c'.request == c.request)
  }

  ghost predicate ServerGrows(s: Server, s': Server) {
    && s'.identity == s.identity && s'.client == s.client && s'.server == s.server && s'.session == s.session
    && (s.answer.Some? ==> s'.answer == s.answer)
  }

  ghost predicate Extends(w: World, w': World) {
    && |w.clients| <= |w'.clients| && |w.servers| <= |w'.servers|
    && (forall i | 0 <= i < |w.clients| :: ClientGrows(w.clients[i], w'.clients[i]))
    && (forall j | 0 <= j < |w.servers| :: ServerGrows(w.servers[j], w'.servers[j]))
    && w.registrations <= w'.registrations
  }

  lemma ReplaceClientExtends(w: World, i: nat, c: Client)
    requires i < |w.clients| && ClientGrows(w.clients[i], c)
    ensures Extends(w, w.(clients := w.clients[i := c]))
  {
  }

  lemma ReplaceServerExtends(w: World, j: nat, s: Server)
    requires j < |w.servers| && ServerGrows(w.servers[j], s)
    ensures Extends(w, w.(servers := w.servers[j := s]))
  {
  }

  lemma SignedExtends(crypto: Crypto, w: World, w': World, key: Bytes32, message: Bytes, signature: Signature)
    requires Extends(w, w') && HasSigned(crypto, w, key, message, signature)
    ensures HasSigned(crypto, w', key, message, signature)
  {
    if i :| 0 <= i < |w.clients| && ClientSigned(crypto, w.clients[i], key, message, signature) {
      assert ClientGrows(w.clients[i], w'.clients[i]);
      assert ClientSigned(crypto, w'.clients[i], key, message, signature);
    } else if j :| 0 <= j < |w.servers| && ServerSigned(crypto, w.servers[j], key, message, signature) {
      assert ServerGrows(w.servers[j], w'.servers[j]);
      assert ServerSigned(crypto, w'.servers[j], key, message, signature);
    } else {
      var r :| 0 <= r < |w.registrations| && RegistrationSigned(crypto, w.registrations[r], key, message, signature);
      assert w'.registrations[r] == w.registrations[r];
    }
  }

  lemma SealedExtends(w: World, w': World, key: Bytes32, packet: Bytes)
    requires Extends(w, w') && HasSealed(w, key, packet)
    ensures HasSealed(w', key, packet)
  {
    if i :| 0 <= i < |w.clients| && ClientSealed(w.clients[i], key, packet) {
      assert ClientGrows(w.clients[i], w'.clients[i]);
      assert ClientSealed(w'.clients[i], key, packet);
    } else {
      var j :| 0 <= j < |w.servers| && ServerSealed(w.servers[j], key, packet);
      assert ServerGrows(w.servers[j], w'.servers[j]);
      assert ServerSealed(w'.servers[j], key, packet);
    }
  }

  lemma ClientStaysAssured(crypto: Crypto, honest: set<Bytes32>, w: World, w': World, c: Client)
    requires Extends(w, w') && ClientAssured(crypto, honest, w, c)
    ensures ClientAssured(crypto, honest, w', c)
  {
    if c.session.Some? && TrustsHonestServer(honest, c) {
      var s := c.session.value;
      SignedExtends(crypto, w, w', c.authorizations[c.peer],
                    ServerMessage(c.hello, s.server.serverExchangePublic), s.server.signature);
      if c.echo.Some? {
        SealedExtends(w, w', s.keys.serverToClient, c.echo.value);
      }
    }
  }

  lemma ServerStaysAssured(crypto: Crypto, honest: set<Bytes32>, w: World, w': World, s: Server)
    requires Extends(w, w') && ServerAssured(crypto, honest, w, s)
    ensures ServerAssured(crypto, honest, w', s)
  {
    if TrustsHonestClient(honest, s) {
      SignedExtends(crypto, w, w', s.authorizations[s.client.initiatorId],
                    ClientMessage(s.client.initiatorId, s.client.responderId, s.client.exchangePublic),
                    s.client.signature);
      if s.answer.Some? && s.session.Some? {
        SealedExtends(w, w', s.session.value.keys.clientToServer, s.answer.value.request);
      }
    }
  }

  // ---------- Who signed what ----------

  /** A message signed under a key comes from a server that holds the key and accepted exactly this hello. */
  lemma ServerMessageHasServer(crypto: Crypto, w: World, key: Bytes32, hello: ClientHello, public: Bytes32, signature: Signature)
    returns (j: nat)
    requires Sound(crypto, w) && ValidClientHello(hello)
    requires HasSigned(crypto, w, key, ServerMessage(hello, public), signature)
    ensures j < |w.servers| && w.servers[j].client == hello
    ensures w.servers[j].server.serverExchangePublic == public && w.servers[j].server.signature == signature
    ensures crypto.publicOf(w.servers[j].identity.signingKey) == key
  {
    hide ServerMessage, ClientMessage, RegistrationMessage, ServerSessionOf, DeriveSessionKeys, Transcript, Verified,
         AnswerOf, AcceptsEcho, SealedRequest;
    var message := ServerMessage(hello, public);
    NodeIdIsPlain(hello.initiatorId);
    NodeIdIsPlain(hello.responderId);
    if i :| 0 <= i < |w.clients| && ClientSigned(crypto, w.clients[i], key, message, signature) {
      var h := w.clients[i].hello;
      MessageKindsDisjoint(h.initiatorId, h.responderId, h.exchangePublic, hello, public, "", 0, public);
      assert false;
    } else if r :| 0 <= r < |w.registrations| && RegistrationSigned(crypto, w.registrations[r], key, message, signature) {
      var g := w.registrations[r];
      MessageKindsDisjoint("", "", public, hello, public, g.identity.nodeId, g.lease, g.challenge);
      assert false;
    } else {
      j :| 0 <= j < |w.servers| && ServerSigned(crypto, w.servers[j], key, message, signature);
      var s := w.servers[j];
      assert ServerSound(crypto, s);
      NodeIdIsPlain(s.client.initiatorId);
      NodeIdIsPlain(s.client.responderId);
      ServerMessageInjective(hello, public, s.client, s.server.serverExchangePublic);
    }
  }

  /** A message signed under a key comes from a client that holds the key and sent exactly this hello. */
  lemma ClientMessageHasClient(crypto: Crypto, w: World, key: Bytes32, hello: ClientHello) returns (i: nat)
    requires Sound(crypto, w) && ValidClientHello(hello)
    requires HasSigned(crypto, w, key, ClientMessage(hello.initiatorId, hello.responderId, hello.exchangePublic), hello.signature)
    ensures i < |w.clients| && w.clients[i].hello == hello
    ensures crypto.publicOf(w.clients[i].identity.signingKey) == key
  {
    hide ServerMessage, ClientMessage, RegistrationMessage, ServerSessionOf, DeriveSessionKeys, Transcript, Verified,
         AnswerOf, AcceptsEcho, SealedRequest;
    var message := ClientMessage(hello.initiatorId, hello.responderId, hello.exchangePublic);
    NodeIdIsPlain(hello.initiatorId);
    NodeIdIsPlain(hello.responderId);
    if j :| 0 <= j < |w.servers| && ServerSigned(crypto, w.servers[j], key, message, hello.signature) {
      var s := w.servers[j];
      MessageKindsDisjoint(hello.initiatorId, hello.responderId, hello.exchangePublic,
                           s.client, s.server.serverExchangePublic, "", 0, hello.exchangePublic);
      assert false;
    } else if r :| 0 <= r < |w.registrations| && RegistrationSigned(crypto, w.registrations[r], key, message, hello.signature) {
      var g := w.registrations[r];
      MessageKindsDisjoint(hello.initiatorId, hello.responderId, hello.exchangePublic,
                           hello, hello.exchangePublic, g.identity.nodeId, g.lease, g.challenge);
      assert false;
    } else {
      i :| 0 <= i < |w.clients| && ClientSigned(crypto, w.clients[i], key, message, hello.signature);
      var c := w.clients[i];
      assert ClientSound(crypto, c);
      NodeIdIsPlain(c.hello.initiatorId);
      NodeIdIsPlain(c.hello.responderId);
      ClientMessageInjective(hello.initiatorId, hello.responderId, hello.exchangePublic,
                             c.hello.initiatorId, c.hello.responderId, c.hello.exchangePublic);
    }
  }

  /** A registration signed under a key comes from a node that holds the key and signed exactly this name,
      these lease seconds and this challenge. */
  lemma RegistrationHasNode(crypto: Crypto, w: World, key: Bytes32, nodeId: string, lease: Duration,
                            challenge: Bytes32, signature: Signature)
    returns (r: nat)
    requires ValidNodeId(nodeId)
    requires HasSigned(crypto, w, key, RegistrationMessage(nodeId, lease, challenge), signature)
    ensures r < |w.registrations|
    ensures var g := w.registrations[r];
            && g.identity.nodeId == nodeId && AsSecs(g.lease) == AsSecs(lease) && g.challenge == challenge
            && g.signature == signature && crypto.publicOf(g.identity.signingKey) == key
  {
    hide ServerMessage, ClientMessage, RegistrationMessage, AsSecs;
    var message := RegistrationMessage(nodeId, lease, challenge);
    NodeIdIsPlain(nodeId);
    if i :| 0 <= i < |w.clients| && ClientSigned(crypto, w.clients[i], key, message, signature) {
      var h := w.clients[i].hello;
      MessageKindsDisjoint(h.initiatorId, h.responderId, h.exchangePublic, h, challenge, nodeId, lease, challenge);
      assert false;
    } else if j :| 0 <= j < |w.servers| && ServerSigned(crypto, w.servers[j], key, message, signature) {
      var s := w.servers[j];
      MessageKindsDisjoint("", "", challenge, s.client, s.server.serverExchangePublic, nodeId, lease, challenge);
      assert false;
    } else {
      r :| 0 <= r < |w.registrations| && RegistrationSigned(crypto, w.registrations[r], key, message, signature);
      var g := w.registrations[r];
      NodeIdIsPlain(g.identity.nodeId);
      RegistrationMessageInjective(nodeId, lease, challenge, g.identity.nodeId, g.lease, g.challenge);
    }
  }

  // ---------- Each step keeps soundness and assurance ----------

  lemma NewClientGood(crypto: Crypto, honest: set<Bytes32>, w: World, identity: Identity,
                      authorizations: Authorizations, peer: string, secret: Bytes32)
    requires peer in authorizations
    ensures var c := NewClient(crypto, identity, authorizations, peer, secret);
            ClientSound(crypto, c) && ClientAssured(crypto, honest, w, c)
  {
    hide ServerMessage, ClientMessage, Transcript, DeriveSessionKeys, SealedRequest, HasSigned, HasSealed, AcceptsEcho;
  }

  /** What a client checked before it took a session. */
  lemma EstablishedMeans(crypto: Crypto, authorizations: Authorizations, hello: ClientHello, secret: Bytes32,
                         reply: Option<Bytes>, session: Session)
    requires ClientFinish(crypto, authorizations, hello, secret, reply) == Established(session)
    ensures reply.Some? && FromUtf8(reply.value).Some?
    ensures ParseServerHello(FromUtf8(reply.value).value) == Some(session.server)
    ensures Echoes(session.server, hello)
    ensures Verified(crypto, authorizations, hello.responderId,
                     ServerMessage(hello, session.server.serverExchangePublic), session.server.signature)
    ensures session.transcript == Transcript(hello, session.server)
    ensures DeriveSessionKeys(crypto, crypto.agree(secret, session.server.serverExchangePublic), session.transcript)
            == Some(session.keys)
  {
    hide ServerMessage, Transcript, DeriveSessionKeys, ParseServerHello, FromUtf8;
  }

  lemma HelloReplySound(crypto: Crypto, c: Client, reply: Option<Bytes>)
    requires ClientSound(crypto, c)
    ensures var c' := OnHelloReply(crypto, c, reply);
            && ClientGrows(c, c') && ClientSound(crypto, c') && c'.echo == c.echo
            && (c'.session != c.session ==>
                  && c'.session.Some? && c.echo.None?
                  && ClientFinish(crypto, c.authorizations, c.hello, c.secret, reply) == Established(c'.session.value))
  {
    var c' := OnHelloReply(crypto, c, reply);
    hide ServerMessage, Transcript, DeriveSessionKeys, SealedRequest, AcceptsEcho, ClientFinish, ValidClientHello,
         Verified, Echoes;
    if c'.session != c.session {
      EstablishedMeans(crypto, c.authorizations, c.hello, c.secret, reply, c'.session.value);
    }
  }

  lemma UsesItsNames(crypto: Crypto, c: Client)
    requires ClientSound(crypto, c)
    ensures c.hello.responderId == c.peer
  {
  }

  /** A session that trusts an honest key was offered by whoever signed its server hello. */
  lemma NewSessionAssured(crypto: Crypto, honest: set<Bytes32>, w: World, i: nat, reply: Option<Bytes>, session: Session)
    requires i < |w.clients| && SignaturesIdeal(crypto, honest, w, HelloReply(i, reply))
    requires var c := w.clients[i];
             && c.hello.responderId == c.peer && TrustsHonestServer(honest, c)
             && ClientFinish(crypto, c.authorizations, c.hello, c.secret, reply) == Established(session)
    ensures var c := w.clients[i];
            HasSigned(crypto, w, c.authorizations[c.peer],
                      ServerMessage(c.hello, session.server.serverExchangePublic), session.server.signature)
  {
    hide ServerMessage, HasSigned, ParseServerHello, FromUtf8, ClientFinish, Verified;
    var c := w.clients[i];
    EstablishedMeans(crypto, c.authorizations, c.hello, c.secret, reply, session);
    assert Unforged(crypto, honest, w, c.authorizations, session.server.responderId,
                    ServerMessage(c.hello, session.server.serverExchangePublic), session.server.signature);
  }

  lemma HelloReplyGood(crypto: Crypto, honest: set<Bytes32>, w: World, i: nat, reply: Option<Bytes>)
    requires Sound(crypto, w) && Assured(crypto, honest, w) && i < |w.clients|
    requires SignaturesIdeal(crypto, honest, w, HelloReply(i, reply))
    ensures var c := OnHelloReply(crypto, w.clients[i], reply);
            && ClientGrows(w.clients[i], c)
            && ClientSound(crypto, c) && ClientAssured(crypto, honest, w, c)
  {
    hide ServerMessage, HasSigned, HasSealed, Sound, Assured, ClientFinish, ClientSound, OnHelloReply, SignaturesIdeal,
         ServerAssured, Verified;
    var c := w.clients[i];
    var c' := OnHelloReply(crypto, c, reply);
    ClientIsGood(crypto, honest, w, i);
    HelloReplySound(crypto, c, reply);
    UsesItsNames(crypto, c);
    if c'.session != c.session && TrustsHonestServer(honest, c) {
      NewSessionAssured(crypto, honest, w, i, reply, c'.session.value);
    }
  }

  lemma EchoSound(crypto: Crypto, c: Client, datagram: Bytes)
    requires ClientSound(crypto, c)
    ensures var c' := OnEcho(crypto, c, datagram);
            && ClientGrows(c, c') && ClientSound(crypto, c') && c'.session == c.session
            && (c'.echo != c.echo ==>
                  c.session.Some? && c'.echo == Some(datagram) && AcceptsEcho(crypto, c.session.value.keys, datagram))
  {
    hide ServerMessage, ClientMessage, Transcript, DeriveSessionKeys, SealedRequest, Verified, AcceptsEcho, Echoes;
  }

  /** A client that trusts an honest server has agreed its keys with an honest exchange key. */
  lemma SessionPeerIsServer(crypto: Crypto, honest: set<Bytes32>, w: World, c: Client)
    requires Sound(crypto, w) && ClientSound(crypto, c) && ClientAssured(crypto, honest, w, c)
    requires c.session.Some? && TrustsHonestServer(honest, c)
    ensures exists j | 0 <= j < |w.servers| ::
              w.servers[j].server.serverExchangePublic == c.session.value.server.serverExchangePublic
  {
    hide ServerMessage, ClientMessage, Transcript, DeriveSessionKeys, SealedRequest, Verified, HasSigned, HasSealed;
    var server := c.session.value.server;
    var j := ServerMessageHasServer(crypto, w, c.authorizations[c.peer], c.hello,
                                    server.serverExchangePublic, server.signature);
    assert w.servers[j].server.serverExchangePublic == server.serverExchangePublic;
  }

  lemma AcceptedEchoWasSealed(crypto: Crypto, honest: set<Bytes32>, w: World, i: nat, datagram: Bytes)
    requires Sound(crypto, w) && Assured(crypto, honest, w) && i < |w.clients|
    requires PacketsIdeal(crypto, w, EchoArrives(i, datagram))
    requires w.clients[i].session.Some? && TrustsHonestServer(honest, w.clients[i])
    requires AcceptsEcho(crypto, w.clients[i].session.value.keys, datagram)
    ensures HasSealed(w, w.clients[i].session.value.keys.serverToClient, datagram)
  {
    hide Sound, Assured, ClientSound, ClientAssured, OpenAt, HasSealed, TrustsHonestServer;
    ClientIsGood(crypto, honest, w, i);
    SessionPeerIsServer(crypto, honest, w, w.clients[i]);
  }

  lemma EchoGood(crypto: Crypto, honest: set<Bytes32>, w: World, i: nat, datagram: Bytes)
    requires Sound(crypto, w) && Assured(crypto, honest, w) && i < |w.clients|
    requires PacketsIdeal(crypto, w, EchoArrives(i, datagram))
    ensures var c := OnEcho(crypto, w.clients[i], datagram);
            && ClientGrows(w.clients[i], c)
            && ClientSound(crypto, c) && ClientAssured(crypto, honest, w, c)
  {
    hide Sound, Assured, ClientSound, ServerMessage, HasSigned, HasSealed, OnEcho, PacketsIdeal, AcceptsEcho;
    var c := w.clients[i];
    ClientIsGood(crypto, honest, w, i);
    EchoSound(crypto, c, datagram);
    if c.session.Some? && TrustsHonestServer(honest, c) && OnEcho(crypto, c, datagram).echo != c.echo {
      AcceptedEchoWasSealed(crypto, honest, w, i, datagram);
    }
  }

  lemma HelloArrivesGood(crypto: Crypto, honest: set<Bytes32>, w: World, identity: Identity,
                         authorizations: Authorizations, secret: Bytes32, source: SocketAddr, datagram: Bytes)
    requires ServerAccept(crypto, identity, authorizations, secret, datagram).Some?
    requires SignaturesIdeal(crypto, honest, w, HelloArrives(identity, authorizations, secret, source, datagram))
    ensures var hellos := ServerAccept(crypto, identity, authorizations, secret, datagram).value;
            var s := NewServer(crypto, identity, authorizations, secret, source, hellos);
            ServerSound(crypto, s) && ServerAssured(crypto, honest, w, s)
  {
    hide ServerMessage, ClientMessage, Transcript, ServerSessionOf, HasSigned, HasSealed, FromUtf8, ParseClientHello;
    var text := FromUtf8(datagram).value;
    var client := ParseClientHello(text).value;
    assert Unforged(crypto, honest, w, authorizations, client.initiatorId,
                    ClientMessage(client.initiatorId, client.responderId, client.exchangePublic), client.signature);
  }

  lemma RequestGood(crypto: Crypto, honest: set<Bytes32>, w: World, j: nat, source: SocketAddr, datagram: Bytes)
    requires Sound(crypto, w) && Assured(crypto, honest, w) && j < |w.servers|
    requires PacketsIdeal(crypto, w, RequestArrives(j, source, datagram))
    ensures var s := OnRequest(crypto, w.servers[j], source, datagram);
            && ServerGrows(w.servers[j], s)
            && ServerSound(crypto, s) && ServerAssured(crypto, honest, w, s)
  {
    hide ServerMessage, ClientMessage, Transcript, ServerSessionOf, HasSigned, HasSealed, Verified, OpenAt, SealAt,
         ClientSound, ClientAssured;
    var s := w.servers[j];
    ServerIsGood(crypto, honest, w, j);
    if TrustsHonestClient(honest, s) {
      var i := ClientMessageHasClient(crypto, w, s.authorizations[s.client.initiatorId], s.client);
      assert w.clients[i].hello.exchangePublic == s.client.exchangePublic;
    }
  }

  /** All old sessions stay assured in a world that extends theirs. */
  lemma OldStayAssured(crypto: Crypto, honest: set<Bytes32>, w: World, w': World)
    requires Extends(w, w') && Assured(crypto, honest, w)
    ensures forall i | 0 <= i < |w.clients| :: ClientAssured(crypto, honest, w', w.clients[i])
    ensures forall j | 0 <= j < |w.servers| :: ServerAssured(crypto, honest, w', w.servers[j])
  {
    forall i | 0 <= i < |w.clients|
      ensures ClientAssured(crypto, honest, w', w.clients[i])
    {
      ClientStaysAssured(crypto, honest, w, w', w.clients[i]);
    }
    forall j | 0 <= j < |w.servers|
      ensures ServerAssured(crypto, honest, w', w.servers[j])
    {
      ServerStaysAssured(crypto, honest, w, w', w.servers[j]);
    }
  }

  lemma ClientChangeKeeps(crypto: Crypto, honest: set<Bytes32>, w: World, i: nat, c: Client)
    requires Sound(crypto, w) && Assured(crypto, honest, w)
    requires i < |w.clients| && ClientGrows(w.clients[i], c)
    requires ClientSound(crypto, c) && ClientAssured(crypto, honest, w, c)
    ensures var w' := w.(clients := w.clients[i := c]);
            Sound(crypto, w') && Assured(crypto, honest, w')
  {
    hide ClientSound, ServerSound, ClientAssured, ServerAssured;
    var w' := w.(clients := w.clients[i := c]);
    ReplaceClientExtends(w, i, c);
    OldStayAssured(crypto, honest, w, w');
    ClientStaysAssured(crypto, honest, w, w', c);
  }

  lemma ServerChangeKeeps(crypto: Crypto, honest: set<Bytes32>, w: World, j: nat, s: Server)
    requires Sound(crypto, w) && Assured(crypto, honest, w)
    requires j < |w.servers| && ServerGrows(w.servers[j], s)
    requires ServerSound(crypto, s) && ServerAssured(crypto, honest, w, s)
    ensures var w' := w.(servers := w.servers[j := s]);
            Sound(crypto, w') && Assured(crypto, honest, w')
  {
    hide ClientSound, ServerSound, ClientAssured, ServerAssured;
    var w' := w.(servers := w.servers[j := s]);
    ReplaceServerExtends(w, j, s);
    OldStayAssured(crypto, honest, w, w');
    ServerStaysAssured(crypto, honest, w, w', s);
  }

  lemma AddClientKeeps(crypto: Crypto, honest: set<Bytes32>, w: World, c: Client)
    requires Sound(crypto, w) && Assured(crypto, honest, w)
    requires ClientSound(crypto, c) && ClientAssured(crypto, honest, w, c)
    ensures var w' := w.(clients := w.clients + [c]);
            Sound(crypto, w') && Assured(crypto, honest, w')
  {
    hide ClientSound, ServerSound, ClientAssured, ServerAssured;
    var w' := w.(clients := w.clients + [c]);
    assert Extends(w, w');
    OldStayAssured(crypto, honest, w, w');
    ClientStaysAssured(crypto, honest, w, w', c);
  }

  lemma AddServerKeeps(crypto: Crypto, honest: set<Bytes32>, w: World, s: Server)
    requires Sound(crypto, w) && Assured(crypto, honest, w)
    requires ServerSound(crypto, s) && ServerAssured(crypto, honest, w, s)
    ensures var w' := w.(servers := w.servers + [s]);
            Sound(crypto, w') && Assured(crypto, honest, w')
  {
    hide ClientSound, ServerSound, ClientAssured, ServerAssured;
    var w' := w.(servers := w.servers + [s]);
    assert Extends(w, w');
    OldStayAssured(crypto, honest, w, w');
    ServerStaysAssured(crypto, honest, w, w', s);
  }

  lemma AddRegistrationKeeps(crypto: Crypto, honest: set<Bytes32>, w: World, r: SignedRegistration)
    requires Sound(crypto, w) && Assured(crypto, honest, w)
    ensures var w' := w.(registrations := w.registrations + [r]);
            Sound(crypto, w') && Assured(crypto, honest, w')
  {
    hide ClientSound, ServerSound, ClientAssured, ServerAssured;
    var w' := w.(registrations := w.registrations + [r]);
    assert Extends(w, w');
    OldStayAssured(crypto, honest, w, w');
  }

  /** Every step of an ideal run keeps every session sound and every conclusion justified. */
  lemma StepKeeps(crypto: Crypto, honest: set<Bytes32>, w: World, step: Step)
    requires Sound(crypto, w) && Assured(crypto, honest, w) && Ideal(crypto, honest, w, step)
    ensures Sound(crypto, Apply(crypto, w, step)) && Assured(crypto, honest, Apply(crypto, w, step))
  {
    hide Sound, Assured, ClientSound, ServerSound, ClientAssured, ServerAssured, SignaturesIdeal, PacketsIdeal, Fresh,
         NoCollision, OnHelloReply, OnEcho, OnRequest, NewClient, NewServer, ClientGrows, ServerGrows, ServerAccept,
         RegistrationMessage;
    var w' := Apply(crypto, w, step);
    match step {
      case StartClient(identity, authorizations, peer, secret) =>
        if peer in authorizations {
          NewClientGood(crypto, honest, w, identity, authorizations, peer, secret);
          AddClientKeeps(crypto, honest, w, NewClient(crypto, identity, authorizations, peer, secret));
        }
      case HelloReply(i, reply) =>
        if i < |w.clients| {
          HelloReplyGood(crypto, honest, w, i, reply);
          ClientChangeKeeps(crypto, honest, w, i, OnHelloReply(crypto, w.clients[i], reply));
        }
      case EchoArrives(i, datagram) =>
        if i < |w.clients| {
          EchoGood(crypto, honest, w, i, datagram);
          ClientChangeKeeps(crypto, honest, w, i, OnEcho(crypto, w.clients[i], datagram));
        }
      case HelloArrives(identity, authorizations, secret, source, datagram) =>
        var hellos := ServerAccept(crypto, identity, authorizations, secret, datagram);
        if hellos.Some? {
          HelloArrivesGood(crypto, honest, w, identity, authorizations, secret, source, datagram);
          AddServerKeeps(crypto, honest, w, NewServer(crypto, identity, authorizations, secret, source, hellos.value));
        }
      case RequestArrives(j, source, datagram) =>
        if j < |w.servers| {
          RequestGood(crypto, honest, w, j, source, datagram);
          ServerChangeKeeps(crypto, honest, w, j, OnRequest(crypto, w.servers[j], source, datagram));
        }
      case SignRegistration(identity, lease, challenge) =>
        AddRegistrationKeeps(crypto, honest, w, w'.registrations[|w.registrations|]);
    }
  }

  lemma EmptyWorldIsGood(crypto: Crypto, honest: set<Bytes32>)
    ensures var w := World([], [], []);
            Sound(crypto, w) && Assured(crypto, honest, w) && Fresh(w) && NoCollision(w)
  {
    hide ClientSound, ServerSound, ClientAssured, ServerAssured;
  }

  lemma {:induction false} RunKeeps(crypto: Crypto, honest: set<Bytes32>, steps: seq<Step>)
    requires IdealRun(crypto, honest, steps)
    ensures var w := Run(crypto, steps);
            Sound(crypto, w) && Assured(crypto, honest, w) && Fresh(w) && NoCollision(w)
  {
    hide Sound, Assured, SignaturesIdeal, PacketsIdeal, Fresh, NoCollision, Apply;
    if steps == [] {
      EmptyWorldIsGood(crypto, honest);
    } else {
      RunKeeps(crypto, honest, steps[..|steps| - 1]);
      StepKeeps(crypto, honest, Run(crypto, steps[..|steps| - 1]), steps[|steps| - 1]);
    }
  }

  // ---------- The two ends agree ----------

  /** Both ends of one exchange: the same hellos, transcript and keys, and the same two packets, the
      request being the learning message and the response its echo. */
  ghost predicate Matched(c: Client, s: Server) {
    && c.identity.nodeId == s.client.initiatorId && c.peer == s.identity.nodeId
    && s.client == c.hello
    && c.session.Some? && s.session == c.session
    && c.session.value.server == s.server
    && s.answer.Some? && s.answer.value.plaintext == LearningMessage()
    && s.answer.value.request == c.request
  }

  lemma SealDirection(crypto: Crypto, key: Bytes32, d: Direction, d': Direction, number: u64,
                      sealed: Bytes, packet: Bytes)
    requires SealAt(crypto.aead, key, d, number, sealed) == Some(packet)
    requires OpenAt(crypto.aead, key, d', number, packet).Some?
    ensures d == d'
  {
    assert packet[4] == Header(d, number)[4] == WireValue(d);
  }

  /** Sessions on the same transcript are the two ends of the same handshake with the same keys. */
  lemma SameTranscriptSameSession(crypto: Crypto, c: Client, s: Server)
    requires Correct(crypto) && ClientSound(crypto, c) && ServerSound(crypto, s)
    requires c.session.Some? && s.session.Some?
    requires c.session.value.transcript == s.session.value.transcript
    ensures s.client == c.hello && s.session == c.session && c.session.value.server == s.server
    ensures c.peer == s.identity.nodeId
  {
    hide ServerMessage, ClientMessage, Transcript, DeriveSessionKeys, SealedRequest, AcceptsEcho, Verified, AnswerOf;
    NodeIdIsPlain(c.hello.initiatorId);
    NodeIdIsPlain(c.hello.responderId);
    NodeIdIsPlain(s.client.initiatorId);
    NodeIdIsPlain(s.client.responderId);
    TranscriptInjective(c.hello, c.session.value.server, s.client, s.server);
    assert crypto.agree(c.secret, s.server.serverExchangePublic) == crypto.agree(s.secret, c.hello.exchangePublic);
  }

  /** What the server opened and answered, given that the client accepted its answer. */
  lemma AcceptedEchoFixesAnswer(crypto: Crypto, keys: SessionKeys, request: Bytes, answer: Answer)
    requires Correct(crypto)
    requires SealedRequest(crypto, keys) == Some(request)
    requires AnswerOf(crypto, keys, answer.request) == Some(answer)
    requires AcceptsEcho(crypto, keys, answer.response)
    ensures answer.plaintext == LearningMessage() && answer.request == request
  {
    OpenIffSealed(crypto.aead, keys.serverToClient, ServerToClient, 0, answer.response);
    OpenIffSealed(crypto.aead, keys.clientToServer, ClientToServer, 0, answer.request);
    assert OpensTo(crypto.aead, keys.serverToClient, ServerToClient, 0, answer.response, answer.plaintext);
    assert OpensTo(crypto.aead, keys.clientToServer, ClientToServer, 0, answer.request, answer.plaintext);
  }

  lemma ClientSealedMeans(crypto: Crypto, w: World, i: nat, key: Bytes32, packet: Bytes) returns (plaintext: Bytes)
    requires Sound(crypto, w) && i < |w.clients| && ClientSealed(w.clients[i], key, packet)
    ensures SealAt(crypto.aead, key, ClientToServer, 0, plaintext) == Some(packet)
  {
    hide ServerMessage, Transcript, DeriveSessionKeys, Verified, SealAt, ServerSound, AcceptsEcho, ValidClientHello, Echoes;
    plaintext := LearningMessage();
  }

  lemma ServerSealedMeans(crypto: Crypto, w: World, j: nat, key: Bytes32, packet: Bytes) returns (plaintext: Bytes)
    requires Sound(crypto, w) && j < |w.servers| && ServerSealed(w.servers[j], key, packet)
    ensures SealAt(crypto.aead, key, ServerToClient, 0, plaintext) == Some(packet)
  {
    hide ClientMessage, ServerSessionOf, Verified, SealAt, OpenAt, ClientSound, ValidClientHello, Echoes;
    plaintext := w.servers[j].answer.value.plaintext;
  }

  /** Only a server seals what a client can open as an echo: a reflected request has the wrong direction. */
  lemma EchoSealerIsServer(crypto: Crypto, w: World, key: Bytes32, packet: Bytes) returns (j: nat)
    requires Sound(crypto, w) && HasSealed(w, key, packet)
    requires OpenAt(crypto.aead, key, ServerToClient, 0, packet).Some?
    ensures j < |w.servers| && ServerSealed(w.servers[j], key, packet)
  {
    hide Sound, OpenAt, SealAt;
    if i :| 0 <= i < |w.clients| && ClientSealed(w.clients[i], key, packet) {
      var plaintext := ClientSealedMeans(crypto, w, i, key, packet);
      SealDirection(crypto, key, ClientToServer, ServerToClient, 0, plaintext, packet);
      assert false;
    }
    j :| 0 <= j < |w.servers| && ServerSealed(w.servers[j], key, packet);
  }

  /** Only a client seals what a server can open as a request. */
  lemma RequestSealerIsClient(crypto: Crypto, w: World, key: Bytes32, packet: Bytes) returns (i: nat)
    requires Sound(crypto, w) && HasSealed(w, key, packet)
    requires OpenAt(crypto.aead, key, ClientToServer, 0, packet).Some?
    ensures i < |w.clients| && ClientSealed(w.clients[i], key, packet)
  {
    hide Sound, OpenAt, SealAt;
    if j :| 0 <= j < |w.servers| && ServerSealed(w.servers[j], key, packet) {
      var plaintext := ServerSealedMeans(crypto, w, j, key, packet);
      SealDirection(crypto, key, ServerToClient, ClientToServer, 0, plaintext, packet);
      assert false;
    }
    i :| 0 <= i < |w.clients| && ClientSealed(w.clients[i], key, packet);
  }

  lemma SharedKeyMeansSameTranscript(w: World, i: nat, j: nat)
    requires NoCollision(w) && i < |w.clients| && j < |w.servers|
    requires w.clients[i].session.Some? && w.servers[j].session.Some?
    requires var k, k' := w.clients[i].session.value.keys, w.servers[j].session.value.keys;
             k.clientToServer == k'.clientToServer || k.serverToClient == k'.serverToClient
    ensures w.clients[i].session.value.transcript == w.servers[j].session.value.transcript
  {
    var x, y := w.clients[i].session.value, w.servers[j].session.value;
    assert HasDerived(w, x.transcript, x.keys) && HasDerived(w, y.transcript, y.keys);
  }

  lemma EchoMatches(crypto: Crypto, c: Client, s: Server)
    requires Correct(crypto) && ClientSound(crypto, c) && ServerSound(crypto, s)
    requires c.session.Some? && s.session.Some? && c.session.value.transcript == s.session.value.transcript
    requires c.echo.Some? && s.answer.Some? && s.answer.value.response == c.echo.value
    ensures Matched(c, s)
  {
    SameTranscriptSameSession(crypto, c, s);
    hide ServerMessage, ClientMessage, Transcript, DeriveSessionKeys, Verified, Correct, ServerSessionOf,
         AnswerOf, AcceptsEcho, SealedRequest;
    AcceptedEchoFixesAnswer(crypto, c.session.value.keys, c.request, s.answer.value);
  }

  lemma RequestFixesPlaintext(crypto: Crypto, keys: SessionKeys, answer: Answer)
    requires Correct(crypto)
    requires SealedRequest(crypto, keys) == Some(answer.request)
    requires AnswerOf(crypto, keys, answer.request) == Some(answer)
    ensures answer.plaintext == LearningMessage()
  {
    OpenIffSealed(crypto.aead, keys.clientToServer, ClientToServer, 0, answer.request);
    assert OpensTo(crypto.aead, keys.clientToServer, ClientToServer, 0, answer.request, LearningMessage());
  }

  lemma RequestMatches(crypto: Crypto, c: Client, s: Server)
    requires Correct(crypto) && ClientSound(crypto, c) && ServerSound(crypto, s)
    requires c.session.Some? && s.session.Some? && c.session.value.transcript == s.session.value.transcript
    requires s.answer.Some? && s.answer.value.request == c.request
    ensures Matched(c, s)
  {
    SameTranscriptSameSession(crypto, c, s);
    hide ServerMessage, ClientMessage, Transcript, DeriveSessionKeys, Verified, Correct, ServerSessionOf,
         AnswerOf, AcceptsEcho, SealedRequest;
    RequestFixesPlaintext(crypto, c.session.value.keys, s.answer.value);
  }

  /** Fresh exchange keys make the other end unique. */
  lemma MatchUnique(w: World, i: nat, i': nat, j: nat, j': nat)
    requires Fresh(w) && i < |w.clients| && i' < |w.clients| && j < |w.servers| && j' < |w.servers|
    requires Matched(w.clients[i], w.servers[j]) && Matched(w.clients[i'], w.servers[j'])
    ensures i == i' <==> j == j'
  {
  }

  /** The other end of a client signs with the key the client trusts, if that key is honest. */
  lemma ServerHoldsTrustedKey(crypto: Crypto, honest: set<Bytes32>, w: World, i: nat, j: nat)
    requires Sound(crypto, w) && Assured(crypto, honest, w) && Fresh(w)
    requires i < |w.clients| && j < |w.servers| && Matched(w.clients[i], w.servers[j])
    requires TrustsHonestServer(honest, w.clients[i])
    ensures ServerHoldsKey(crypto, w.clients[i], w.servers[j])
  {
    hide Sound, Assured, ClientSound, ServerSound, ServerAssured, HasSigned, HasSealed, ServerMessage, ValidClientHello;
    var c := w.clients[i];
    var server := c.session.value.server;
    ClientIsGood(crypto, honest, w, i);
    HelloIsValid(crypto, c);
    var j' := ServerMessageHasServer(crypto, w, c.authorizations[c.peer], c.hello,
                                     server.serverExchangePublic, server.signature);
    assert j' == j;
  }

  /** The other end of a server signs with the key the server trusts, if that key is honest. */
  lemma ClientHoldsTrustedKey(crypto: Crypto, honest: set<Bytes32>, w: World, i: nat, j: nat)
    requires Sound(crypto, w) && Assured(crypto, honest, w) && Fresh(w)
    requires i < |w.clients| && j < |w.servers| && Matched(w.clients[i], w.servers[j])
    requires TrustsHonestClient(honest, w.servers[j])
    ensures ClientHoldsKey(crypto, w.clients[i], w.servers[j])
  {
    var s := w.servers[j];
    assert s.client == w.clients[i].hello;
    hide *;
    ServerIsGood(crypto, honest, w, j);
    ClientIsGood(crypto, honest, w, i);
    HelloIsValid(crypto, w.clients[i]);
    ClientSignedFor(crypto, honest, w, s);
    var i' := ClientMessageHasClient(crypto, w, s.authorizations[s.client.initiatorId], s.client);
    HelloIsFresh(w, i, i');
  }

  lemma ClientSignedFor(crypto: Crypto, honest: set<Bytes32>, w: World, s: Server)
    requires ServerAssured(crypto, honest, w, s) && TrustsHonestClient(honest, s)
    ensures s.client.initiatorId in s.authorizations
    ensures HasSigned(crypto, w, s.authorizations[s.client.initiatorId],
                      ClientMessage(s.client.initiatorId, s.client.responderId, s.client.exchangePublic),
                      s.client.signature)
  {
    hide HasSigned, HasSealed, ClientMessage;
  }

  lemma HelloIsFresh(w: World, i: nat, i': nat)
    requires Fresh(w) && i < |w.clients| && i' < |w.clients| && w.clients[i].hello == w.clients[i'].hello
    ensures i == i'
  {
  }

  lemma HelloIsValid(crypto: Crypto, c: Client)
    requires ClientSound(crypto, c)
    ensures ValidClientHello(c.hello)
  {
  }

  lemma ServerIsOnly(crypto: Crypto, w: World, i: nat, j: nat)
    requires i < |w.clients| && w.clients[i].echo.Some? && j < |w.servers| && Matched(w.clients[i], w.servers[j])
    requires ServerSealed(w.servers[j], w.clients[i].session.value.keys.serverToClient, w.clients[i].echo.value)
    requires ServerHoldsKey(crypto, w.clients[i], w.servers[j])
    requires forall j' | 0 <= j' < |w.servers| && Matched(w.clients[i], w.servers[j']) :: j' == j
    ensures OnlyServer(crypto, w, i, j)
  {
    hide Matched, ServerHoldsKey;
    AnswerOfMatched(w.clients[i], w.servers[j]);
  }

  lemma ClientIsOnly(crypto: Crypto, w: World, i: nat, j: nat)
    requires i < |w.clients| && j < |w.servers| && Matched(w.clients[i], w.servers[j])
    requires ClientHoldsKey(crypto, w.clients[i], w.servers[j])
    requires forall i' | 0 <= i' < |w.clients| && Matched(w.clients[i'], w.servers[j]) :: i' == i
    ensures OnlyClient(crypto, w, i, j)
  {
    hide Matched, ClientHoldsKey;
  }

  lemma AnswerOfMatched(c: Client, s: Server)
    requires Matched(c, s)
    ensures s.answer.Some?
  {
  }

  lemma EchoConclusions(crypto: Crypto, honest: set<Bytes32>, w: World, c: Client)
    requires ClientSound(crypto, c) && ClientAssured(crypto, honest, w, c)
    requires c.echo.Some? && TrustsHonestServer(honest, c)
    ensures c.session.Some? && HasSealed(w, c.session.value.keys.serverToClient, c.echo.value)
    ensures OpenAt(crypto.aead, c.session.value.keys.serverToClient, ServerToClient, 0, c.echo.value).Some?
  {
    hide HasSealed, HasSigned, OpenAt, SealedRequest, Verified, DeriveSessionKeys, Transcript, Echoes;
  }

  lemma AnswerConclusions(crypto: Crypto, honest: set<Bytes32>, w: World, s: Server)
    requires ServerSound(crypto, s) && ServerAssured(crypto, honest, w, s)
    requires s.answer.Some? && TrustsHonestClient(honest, s)
    ensures s.session.Some? && HasSealed(w, s.session.value.keys.clientToServer, s.answer.value.request)
    ensures OpenAt(crypto.aead, s.session.value.keys.clientToServer, ClientToServer, 0, s.answer.value.request).Some?
  {
    hide HasSealed, HasSigned, OpenAt, SealAt, Verified, ServerSessionOf, Echoes;
  }

  lemma ClientSealedFields(c: Client, key: Bytes32, packet: Bytes)
    requires ClientSealed(c, key, packet)
    ensures c.session.Some? && c.session.value.keys.clientToServer == key && c.request == packet
  {
  }

  lemma ServerSealedFields(s: Server, key: Bytes32, packet: Bytes)
    requires ServerSealed(s, key, packet)
    ensures s.session.Some? && s.session.value.keys.serverToClient == key
    ensures s.answer.Some? && s.answer.value.response == packet
  {
  }

  /** The server signs with the key the client has on file for its peer. */
  ghost predicate ServerHoldsKey(crypto: Crypto, c: Client, s: Server) {
    c.peer in c.authorizations && crypto.publicOf(s.identity.signingKey) == c.authorizations[c.peer]
  }

  /** The client signs with the key the server has on file for the client's name. */
  ghost predicate ClientHoldsKey(crypto: Crypto, c: Client, s: Server) {
    && s.client.initiatorId in s.authorizations
    && crypto.publicOf(c.identity.signingKey) == s.authorizations[s.client.initiatorId]
  }

  /** Server `j`, and no other, is the other end of client `i`; it holds the key the client trusts, and
      the client's echo is its response. */
  ghost predicate OnlyServer(crypto: Crypto, w: World, i: nat, j: int)
    requires i < |w.clients| && w.clients[i].echo.Some?
  {
    && 0 <= j < |w.servers| && Matched(w.clients[i], w.servers[j])
    && ServerHoldsKey(crypto, w.clients[i], w.servers[j])
    && w.servers[j].answer.value.response == w.clients[i].echo.value
    && forall j' | 0 <= j' < |w.servers| && Matched(w.clients[i], w.servers[j']) :: j' == j
  }

  /** Client `i`, and no other, is the other end of server `j`; it holds the key the server trusts. */
  ghost predicate OnlyClient(crypto: Crypto, w: World, i: int, j: nat)
    requires j < |w.servers|
  {
    && 0 <= i < |w.clients| && Matched(w.clients[i], w.servers[j])
    && ClientHoldsKey(crypto, w.clients[i], w.servers[j])
    && forall i' | 0 <= i' < |w.clients| && Matched(w.clients[i'], w.servers[j]) :: i' == i
  }

  /** End to end: when a client that trusts an honest key completes, exactly one server session is its
      other end, it signs with that key, and the echo the client accepted is its response to the
      client's own request. */
  lemma {:induction false} SecureEchoAgreement(crypto: Crypto, honest: set<Bytes32>, steps: seq<Step>, i: nat)
    requires Correct(crypto) && IdealRun(crypto, honest, steps)
    requires var w := Run(crypto, steps);
             i < |w.clients| && w.clients[i].echo.Some? && TrustsHonestServer(honest, w.clients[i])
    ensures exists j :: OnlyServer(crypto, Run(crypto, steps), i, j)
  {
    hide *;
    var w := Run(crypto, steps);
    RunKeeps(crypto, honest, steps);
    var c := w.clients[i];
    ClientIsGood(crypto, honest, w, i);
    EchoConclusions(crypto, honest, w, c);
    var j := EchoSealerIsServer(crypto, w, c.session.value.keys.serverToClient, c.echo.value);
    var s := w.servers[j];
    ServerIsGood(crypto, honest, w, j);
    ServerSealedFields(s, c.session.value.keys.serverToClient, c.echo.value);
    SharedKeyMeansSameTranscript(w, i, j);
    EchoMatches(crypto, c, s);
    forall j' | 0 <= j' < |w.servers| && Matched(c, w.servers[j'])
      ensures j' == j
    {
      MatchUnique(w, i, i, j, j');
    }
    ServerHoldsTrustedKey(crypto, honest, w, i, j);
    ServerIsOnly(crypto, w, i, j);
  }

  /** The other direction: when a server that trusts an honest key has answered, exactly one client
      session is its other end, and it signs with that key. */
  lemma {:induction false} SecureRequestAgreement(crypto: Crypto, honest: set<Bytes32>, steps: seq<Step>, j: nat)
    requires Correct(crypto) && IdealRun(crypto, honest, steps)
    requires var w := Run(crypto, steps);
             j < |w.servers| && w.servers[j].answer.Some? && TrustsHonestClient(honest, w.servers[j])
    ensures exists i :: OnlyClient(crypto, Run(crypto, steps), i, j)
  {
    hide *;
    var w := Run(crypto, steps);
    RunKeeps(crypto, honest, steps);
    var s := w.servers[j];
    ServerIsGood(crypto, honest, w, j);
    AnswerConclusions(crypto, honest, w, s);
    var i := RequestSealerIsClient(crypto, w, s.session.value.keys.clientToServer, s.answer.value.request);
    ClientIsGood(crypto, honest, w, i);
    ClientSealedFields(w.clients[i], s.session.value.keys.clientToServer, s.answer.value.request);
    SharedKeyMeansSameTranscript(w, i, j);
    RequestMatches(crypto, w.clients[i], s);
    forall i' | 0 <= i' < |w.clients| && Matched(w.clients[i'], s)
      ensures i' == i
    {
      MatchUnique(w, i, i', j, j);
    }
    ClientHoldsTrustedKey(crypto, honest, w, i, j);
    ClientIsOnly(crypto, w, i, j);
  }
}
