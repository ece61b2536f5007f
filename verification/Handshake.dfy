/** The peer handshake and the encrypted echo: what each side computes (src/handshake.rs). */
module Handshake {
  import opened Base
  import opened Identities
  import opened SecurePacket
  import opened Signing
  import opened Text
  import opened Wire

  // ---------- Cryptography as functions ----------

  /** The primitives the repository calls (RFC 8032, section 6.1 of RFC 7748, section 2 of RFC 5869,
      section 2.8 of RFC 8439). Only the laws in `Correct` are known of them. */
  datatype Crypto = Crypto(
    publicOf: Bytes32 -> Bytes32,
    sign: (Bytes32, Bytes) -> Signature,
    verify: (Bytes32, Bytes, Signature) -> bool,
    exchangePublic: Bytes32 -> Bytes32,
    agree: (Bytes32, Bytes32) -> Bytes32,
    sha256: Bytes -> Bytes32,
    hkdf: (Bytes32, Bytes32, Bytes) -> Bytes32,
    aead: Aead)

  ghost predicate Correct(crypto: Crypto) {
    && (forall k, m :: crypto.verify(crypto.publicOf(k), m, crypto.sign(k, m)))
    && (forall a, b :: crypto.agree(a, crypto.exchangePublic(b)) == crypto.agree(b, crypto.exchangePublic(a)))
    && Tidy(crypto.aead)
  }

  /** `SharedSecret::was_contributory`: not all bytes are zero. */
  predicate Contributory(shared: Bytes32) {
    exists i | 0 <= i < 32 :: shared[i] != 0
  }

  // ---------- Local computations ----------

  /** The HKDF label of each direction. */
  function KeyInfo(d: Direction): Bytes {
    match d
    case ClientToServer => Utf8("MESHLET/3 client-to-server encryption key")
    case ServerToClient => Utf8("MESHLET/3 server-to-client encryption key")
  }

  const LEARNING_TEXT: string := "hello from encrypted meshlet\n"

  function LearningMessage(): Bytes {
    Utf8(LEARNING_TEXT)
  }

  datatype SessionKeys = SessionKeys(clientToServer: Bytes32, serverToClient: Bytes32)

  /** `derive_session_keys`: the transcript hash is the salt. */
  function DeriveSessionKeys(crypto: Crypto, shared: Bytes32, transcript: Bytes): Option<SessionKeys> {
    if !Contributory(shared) then None
    else
      var salt := crypto.sha256(transcript);
      Some(SessionKeys(crypto.hkdf(salt, shared, KeyInfo(ClientToServer)),
                       crypto.hkdf(salt, shared, KeyInfo(ServerToClient))))
  }

  /** `verify_signature`. */
  predicate VerifySignature(crypto: Crypto, authorizations: Authorizations, nodeId: string, message: Bytes, signature: Signature) {
    nodeId in authorizations && crypto.verify(authorizations[nodeId], message, signature)
  }

  /** A bounded datagram as text, or nothing. */
  function ReceivedText(datagram: Bytes): Option<string> {
    if |datagram| > MAX_DATAGRAM_BYTES then None else FromUtf8(datagram)
  }

  /** The hello a client signs. */
  function MakeClientHello(crypto: Crypto, identity: Identity, peer: string, secret: Bytes32): ClientHello {
    var exchangePublic := crypto.exchangePublic(secret);
    var signature := crypto.sign(identity.signingKey, ClientMessage(identity.nodeId, peer, exchangePublic));
    ClientHello(identity.nodeId, peer, exchangePublic, signature)
  }

  datatype Session = Session(server: ServerHello, transcript: Bytes, keys: SessionKeys)

  datatype ClientAttemptError = Local | Unreachable | Rejected

  datatype Attempt = Established(session: Session) | Refused(error: ClientAttemptError)

  /** The client half after its hello is sent; `None` stands for a timeout or socket error. */
  function ClientFinish(crypto: Crypto, authorizations: Authorizations, hello: ClientHello, secret: Bytes32,
                        reply: Option<Bytes>): Attempt
  {
    match reply
    case None => Refused(Unreachable)
    case Some(datagram) =>
      match ReceivedText(datagram)
      case None => Refused(Unreachable)
      case Some(text) =>
        match ParseServerHello(text)
        case None => Refused(Rejected)
        case Some(server) =>
          if !Echoes(server, hello) then Refused(Rejected)
          else if !VerifySignature(crypto, authorizations, server.responderId,
                                   ServerMessage(hello, server.serverExchangePublic), server.signature)
          then Refused(Rejected)
          else
            var shared := crypto.agree(secret, server.serverExchangePublic);
            var transcript := Transcript(hello, server);
            match DeriveSessionKeys(crypto, shared, transcript)
            case None => Refused(Rejected)
            case Some(keys) => Established(Session(server, transcript, keys))
  }

  /** How far the client's socket gets: bound, connected to the peer, given a timeout, used to send. */
  datatype ClientSocket = BindFailed | SelectFailed | TimeoutRefused | SendFailed | HelloSent

  /** A whole attempt, from the socket to the session. */
  function ClientAttempt(crypto: Crypto, identity: Identity, authorizations: Authorizations, peer: string,
                         secret: Bytes32, socket: ClientSocket, reply: Option<Bytes>): Attempt
  {
    match socket
    case BindFailed => Refused(Local)
    case SelectFailed => Refused(Unreachable)
    case TimeoutRefused => Refused(Local)
    case SendFailed => Refused(Unreachable)
    case HelloSent => ClientFinish(crypto, authorizations, MakeClientHello(crypto, identity, peer, secret), secret, reply)
  }

  /** The client half as the code runs it, step by step; `hello` is the datagram it sends. */
  method EstablishClientSession(crypto: Crypto, identity: Identity, authorizations: Authorizations, peer: string,
                                secret: Bytes32, socket: ClientSocket, reply: Option<Bytes>)
    returns (hello: Option<Bytes>, attempt: Attempt)
    ensures attempt == ClientAttempt(crypto, identity, authorizations, peer, secret, socket, reply)
    ensures hello == if socket.HelloSent?
                     then Some(Utf8(EncodeClientHello(MakeClientHello(crypto, identity, peer, secret)))) else None
  {
    hide ClientMessage, ServerMessage, Transcript, ParseServerHello, EncodeClientHello, FromUtf8, Utf8, DeriveSessionKeys,
         Echoes, VerifySignature;
    hello := None;
    if socket.BindFailed? {
      return hello, Refused(Local);
    }
    if socket.SelectFailed? {
      return hello, Refused(Unreachable);
    }
    if socket.TimeoutRefused? {
      return hello, Refused(Local);
    }
    var exchangePublic := crypto.exchangePublic(secret);
    var signed := ClientMessage(identity.nodeId, peer, exchangePublic);
    var signature := crypto.sign(identity.signingKey, signed);
    var client := ClientHello(identity.nodeId, peer, exchangePublic, signature);
    if socket.SendFailed? {
      return hello, Refused(Unreachable);
    }
    hello := Some(Utf8(EncodeClientHello(client)));
    attempt := ReceiveServerHello(crypto, authorizations, client, secret, reply);
  }

  /** The rest of the attempt, once the hello is on its way. */
  method ReceiveServerHello(crypto: Crypto, authorizations: Authorizations, hello: ClientHello, secret: Bytes32,
                            reply: Option<Bytes>)
    returns (attempt: Attempt)
    ensures attempt == ClientFinish(crypto, authorizations, hello, secret, reply)
  {
    hide ServerMessage, Transcript, ParseServerHello, FromUtf8, DeriveSessionKeys, Echoes, VerifySignature;
    if reply.None? || |reply.value| > MAX_DATAGRAM_BYTES {
      return Refused(Unreachable);
    }
    var text := FromUtf8(reply.value);
    if text.None? {
      return Refused(Unreachable);
    }
    var parsed := ParseServerHello(text.value);
    if parsed.None? {
      return Refused(Rejected);
    }
    var server := parsed.value;
    if !Echoes(server, hello) {
      return Refused(Rejected);
    }
    var message := ServerMessage(hello, server.serverExchangePublic);
    if !VerifySignature(crypto, authorizations, server.responderId, message, server.signature) {
      return Refused(Rejected);
    }
    var shared := crypto.agree(secret, server.serverExchangePublic);
    var transcript := HandshakeTranscript(hello, server);
    var keys := DeriveSessionKeys(crypto, shared, transcript);
    if keys.None? {
      return Refused(Rejected);
    }
    attempt := Established(Session(server, transcript, keys.value));
  }

  /** The encrypted request a client sends, always packet zero. */
  function SealedRequest(crypto: Crypto, keys: SessionKeys): Option<Bytes> {
    SealAt(crypto.aead, keys.clientToServer, ClientToServer, 0, LearningMessage())
  }

  /** Whether a datagram is the echo the client accepts. */
  predicate AcceptsEcho(crypto: Crypto, keys: SessionKeys, datagram: Bytes) {
    && |datagram| <= MAX_DATAGRAM_BYTES
    && OpenAt(crypto.aead, keys.serverToClient, ServerToClient, 0, datagram) == Some(LearningMessage())
  }

  /** `complete_client_exchange`: one sealed request, one opened echo. */
  method CompleteClientExchange(crypto: Crypto, keys: SessionKeys, echo: Bytes)
    returns (request: Option<Bytes>, completed: bool)
    requires Tidy(crypto.aead)
    ensures request == SealedRequest(crypto, keys)
    ensures completed <==> request.Some? && AcceptsEcho(crypto, keys, echo)
  {
    var sender := new PacketSender(crypto.aead, keys.clientToServer, ClientToServer);
    request := sender.Seal(LearningMessage());
    if request.None? || |echo| > MAX_DATAGRAM_BYTES {
      return request, false;
    }
    var receiver := new PacketReceiver(crypto.aead, keys.serverToClient, ServerToClient);
    var plaintext := receiver.Open(echo);
    completed := plaintext == Some(LearningMessage());
  }

  /** The server up to and including its signature; `None` when it stops before signing. */
  function ServerAccept(crypto: Crypto, identity: Identity, authorizations: Authorizations, secret: Bytes32,
                        datagram: Bytes): Option<(ClientHello, ServerHello)>
  {
    match ReceivedText(datagram)
    case None => None
    case Some(text) =>
      match ParseClientHello(text)
      case None => None
      case Some(client) =>
        if client.responderId != identity.nodeId then None
        else if !VerifySignature(crypto, authorizations, client.initiatorId,
                                 ClientMessage(client.initiatorId, client.responderId, client.exchangePublic),
                                 client.signature)
        then None
        else
          var exchangePublic := crypto.exchangePublic(secret);
          var signature := crypto.sign(identity.signingKey, ServerMessage(client, exchangePublic));
          Some((client, ServerHello(client.initiatorId, client.responderId, client.exchangePublic,
                                    exchangePublic, signature)))
  }

  /** The server's session, unless the exchange key was unsafe. */
  function ServerSessionOf(crypto: Crypto, secret: Bytes32, client: ClientHello, server: ServerHello): Option<Session> {
    var transcript := Transcript(client, server);
    match DeriveSessionKeys(crypto, crypto.agree(secret, client.exchangePublic), transcript)
    case None => None
    case Some(keys) => Some(Session(server, transcript, keys))
  }

  datatype Answer = Answer(request: Bytes, plaintext: Bytes, response: Bytes)

  /** The server's answer to the encrypted request: open packet zero, seal its plaintext as packet zero. */
  function AnswerOf(crypto: Crypto, keys: SessionKeys, packet: Bytes): Option<Answer> {
    if |packet| > MAX_DATAGRAM_BYTES then None
    else
      match OpenAt(crypto.aead, keys.clientToServer, ClientToServer, 0, packet)
      case None => None
      case Some(plaintext) =>
        match SealAt(crypto.aead, keys.serverToClient, ServerToClient, 0, plaintext)
        case None => None
        case Some(response) => Some(Answer(packet, plaintext, response))
  }

  /** The data half of the server as the code runs it. */
  method AnswerRequest(crypto: Crypto, keys: SessionKeys, packet: Bytes) returns (answer: Option<Answer>)
    requires Tidy(crypto.aead)
    ensures answer == AnswerOf(crypto, keys, packet)
  {
    if |packet| > MAX_DATAGRAM_BYTES {
      return None;
    }
    var receiver := new PacketReceiver(crypto.aead, keys.clientToServer, ClientToServer);
    var plaintext := receiver.Open(packet);
    if plaintext.None? {
      return None;
    }
    var sender := new PacketSender(crypto.aead, keys.serverToClient, ServerToClient);
    var response := sender.Seal(plaintext.value);
    if response.None? {
      return None;
    }
    answer := Some(Answer(packet, plaintext.value, response.value));
  }

  // ---------- Fallback ----------

  /** Whether a received reply counts as no answer at all. */
  ghost predicate NoReply(reply: Option<Bytes>) {
    reply.None? || |reply.value| > 1024 || !exists text :: Utf8(text) == reply.value
  }

  lemma FinishUnreachable(crypto: Crypto, authorizations: Authorizations, hello: ClientHello,
                          secret: Bytes32, reply: Option<Bytes>)
    ensures ClientFinish(crypto, authorizations, hello, secret, reply) == Refused(Unreachable) <==> NoReply(reply)
    ensures ClientFinish(crypto, authorizations, hello, secret, reply) != Refused(Local)
  {
    hide ServerMessage, Transcript, ParseServerHello, FromUtf8, Utf8, DeriveSessionKeys, Echoes, VerifySignature;
    if reply.Some? && |reply.value| <= MAX_DATAGRAM_BYTES {
      if FromUtf8(reply.value).Some? {
        FromUtf8Sound(reply.value);
      }
      if text :| Utf8(text) == reply.value {
        Utf8RoundTrip(text);
      }
    }
  }

  /** A relay attempt is permitted (`Unreachable`) exactly when the peer could not be selected, the hello
      could not be sent, no reply came, or the reply was oversize or not UTF-8; the error is local exactly
      when the socket could not be bound or given a timeout. */
  lemma FallbackPermittedExactly(crypto: Crypto, identity: Identity, authorizations: Authorizations, peer: string,
                                 secret: Bytes32, socket: ClientSocket, reply: Option<Bytes>)
    ensures var attempt := ClientAttempt(crypto, identity, authorizations, peer, secret, socket, reply);
            && (attempt == Refused(Unreachable) <==>
                socket.SelectFailed? || socket.SendFailed? || (socket.HelloSent? && NoReply(reply)))
            && (attempt == Refused(Local) <==> socket.BindFailed? || socket.TimeoutRefused?)
  {
    hide ClientFinish, MakeClientHello, NoReply;
    FinishUnreachable(crypto, authorizations, MakeClientHello(crypto, identity, peer, secret), secret, reply);
  }

  /** So a malformed reply can permit the fallback: a single byte 0xFF does. */
  lemma MalformedReplyPermitsFallback(crypto: Crypto, identity: Identity, authorizations: Authorizations,
                                      peer: string, secret: Bytes32)
    ensures ClientAttempt(crypto, identity, authorizations, peer, secret, HelloSent, Some([0xFF])) == Refused(Unreachable)
  {
    hide MakeClientHello;
    assert FirstScalar([0xFF]) == (-1, 1) && FirstChar([0xFF]) == None;
  }

  // ---------- Exactly what each side computes and accepts ----------

  const TO_SERVER_LABEL: string := "MESHLET/3 client-to-server encryption key"
  const TO_CLIENT_LABEL: string := "MESHLET/3 server-to-client encryption key"

  lemma LabelsDiffer()
    ensures IsAscii(TO_SERVER_LABEL) && IsAscii(TO_CLIENT_LABEL)
    ensures KeyInfo(ClientToServer) == Ascii(TO_SERVER_LABEL) && KeyInfo(ServerToClient) == Ascii(TO_CLIENT_LABEL)
    ensures KeyInfo(ClientToServer) != KeyInfo(ServerToClient)
  {
    hide Utf8, Ascii, IsAscii;
    ServerLabelIsAscii();
    ClientLabelIsAscii();
    Utf8OfAscii(TO_SERVER_LABEL);
    Utf8OfAscii(TO_CLIENT_LABEL);
    AsciiAt(TO_SERVER_LABEL, 10);
    AsciiAt(TO_CLIENT_LABEL, 10);
  }

  lemma ServerLabelIsAscii()
    ensures IsAscii(TO_SERVER_LABEL)
  {
  }

  lemma ClientLabelIsAscii()
    ensures IsAscii(TO_CLIENT_LABEL)
  {
  }

  lemma LearningTextIsAscii()
    ensures IsAscii("hello from encrypted meshlet\n")
  {
  }

  lemma AsciiAt(s: string, i: nat)
    requires IsAscii(s) && i < |s|
    ensures Ascii(s)[i] == s[i] as int
  {
  }

  /** Keys are derived exactly from a secret with a byte other than zero; each is the expansion, salted with
      the hash of the transcript, under the label of its direction. */
  lemma DeriveSessionKeysExactly(crypto: Crypto, shared: Bytes32, transcript: Bytes, keys: SessionKeys)
    ensures IsAscii(TO_SERVER_LABEL) && IsAscii(TO_CLIENT_LABEL)
    ensures DeriveSessionKeys(crypto, shared, transcript) == Some(keys) <==>
            && (exists i :: 0 <= i < 32 && shared[i] != 0)
            && keys.clientToServer == crypto.hkdf(crypto.sha256(transcript), shared, Ascii(TO_SERVER_LABEL))
            && keys.serverToClient == crypto.hkdf(crypto.sha256(transcript), shared, Ascii(TO_CLIENT_LABEL))
  {
    hide KeyInfo;
    LabelsDiffer();
  }

  /** No collision between two derivations: equal hashes mean equal transcripts, and equal expansions under
      the two labels mean equal salts, secrets and labels. */
  ghost predicate NoCollisionBetween(crypto: Crypto, shared: Bytes32, transcript: Bytes, shared': Bytes32, transcript': Bytes) {
    && (crypto.sha256(transcript) == crypto.sha256(transcript') ==> transcript == transcript')
    && forall d, d' ::
         crypto.hkdf(crypto.sha256(transcript), shared, KeyInfo(d))
         == crypto.hkdf(crypto.sha256(transcript'), shared', KeyInfo(d')) ==>
           && crypto.sha256(transcript) == crypto.sha256(transcript') && shared == shared'
           && KeyInfo(d) == KeyInfo(d')
  }

  /** Without collisions the keys of the two directions always differ, and keys of one direction are equal
      exactly for equal secrets and equal transcripts. */
  lemma SessionKeysAreDirectional(crypto: Crypto, shared: Bytes32, transcript: Bytes, keys: SessionKeys,
                                  shared': Bytes32, transcript': Bytes, keys': SessionKeys)
    requires DeriveSessionKeys(crypto, shared, transcript) == Some(keys)
    requires DeriveSessionKeys(crypto, shared', transcript') == Some(keys')
    requires NoCollisionBetween(crypto, shared, transcript, shared', transcript')
    ensures keys.clientToServer != keys'.serverToClient && keys.serverToClient != keys'.clientToServer
    ensures keys.clientToServer == keys'.clientToServer <==> shared == shared' && transcript == transcript'
    ensures keys.serverToClient == keys'.serverToClient <==> shared == shared' && transcript == transcript'
  {
    hide KeyInfo;
    LabelsDiffer();
  }

  /** The text that the secure echo exchanges. */
  lemma LearningMessageExactly()
    ensures IsAscii("hello from encrypted meshlet\n")
    ensures LearningMessage() == Ascii("hello from encrypted meshlet\n")
  {
    hide Utf8, Ascii, IsAscii;
    LearningTextIsAscii();
    Utf8OfAscii("hello from encrypted meshlet\n");
  }

  /** The client's request is the learning text, sealed as packet zero under the client's key. */
  lemma SealedRequestExactly(crypto: Crypto, keys: SessionKeys, packet: Bytes)
    ensures IsAscii("hello from encrypted meshlet\n")
    ensures SealedRequest(crypto, keys) == Some(packet) <==>
            IsSeal(crypto.aead, keys.clientToServer, ClientToServer, 0, Ascii("hello from encrypted meshlet\n"), packet)
  {
    hide LearningMessage, SealAt, IsSeal;
    LearningMessageExactly();
    SealAtExactly(crypto.aead, keys.clientToServer, ClientToServer, 0, LearningMessage(), packet);
  }

  /** The client accepts exactly the learning text, sealed as packet zero under the server's key, in at most
      1024 bytes. */
  lemma AcceptsEchoExactly(crypto: Crypto, keys: SessionKeys, datagram: Bytes)
    requires Tidy(crypto.aead)
    ensures IsAscii("hello from encrypted meshlet\n")
    ensures AcceptsEcho(crypto, keys, datagram) <==>
            && |datagram| <= 1024
            && IsSeal(crypto.aead, keys.serverToClient, ServerToClient, 0, Ascii("hello from encrypted meshlet\n"), datagram)
  {
    hide LearningMessage, OpenAt, IsSeal, Tidy;
    LearningMessageExactly();
    OpenAtExactly(crypto.aead, keys.serverToClient, ServerToClient, 0, datagram, LearningMessage());
  }

  /** The server answers exactly a request of at most 1024 bytes that is packet zero under the client's key,
      with the same plaintext as packet zero under its own. */
  lemma AnswerExactly(crypto: Crypto, keys: SessionKeys, packet: Bytes, answer: Answer)
    requires Tidy(crypto.aead)
    ensures AnswerOf(crypto, keys, packet) == Some(answer) <==>
            && |packet| <= 1024 && answer.request == packet
            && IsSeal(crypto.aead, keys.clientToServer, ClientToServer, 0, answer.plaintext, packet)
            && IsSeal(crypto.aead, keys.serverToClient, ServerToClient, 0, answer.plaintext, answer.response)
  {
    hide OpenAt, SealAt, IsSeal, Tidy;
    OpenAtExactly(crypto.aead, keys.clientToServer, ClientToServer, 0, packet, answer.plaintext);
    SealAtExactly(crypto.aead, keys.serverToClient, ServerToClient, 0, answer.plaintext, answer.response);
  }

  /** The datagram, of at most 1024 bytes, is UTF-8 and spells this client hello. */
  ghost predicate CarriesClientHello(datagram: Bytes, hello: ClientHello) {
    |datagram| <= 1024 && exists text :: Utf8(text) == datagram && SpellsClientHello(text, hello)
  }

  ghost predicate CarriesServerHello(datagram: Bytes, hello: ServerHello) {
    |datagram| <= 1024 && exists text :: Utf8(text) == datagram && SpellsServerHello(text, hello)
  }

  lemma ReceivedClientHello(datagram: Bytes, hello: ClientHello)
    ensures CarriesClientHello(datagram, hello) <==>
            ReceivedText(datagram).Some? && ParseClientHello(ReceivedText(datagram).value) == Some(hello)
  {
    hide FromUtf8, Utf8, ParseClientHello, SpellsClientHello;
    if ReceivedText(datagram).Some? {
      var text := ReceivedText(datagram).value;
      FromUtf8Exactly(datagram, text);
      ParseClientHelloExactly(text, hello);
    }
    if text :| Utf8(text) == datagram && SpellsClientHello(text, hello) {
      FromUtf8Exactly(datagram, text);
      ParseClientHelloExactly(text, hello);
    }
  }

  lemma ReceivedServerHello(datagram: Bytes, hello: ServerHello)
    ensures CarriesServerHello(datagram, hello) <==>
            ReceivedText(datagram).Some? && ParseServerHello(ReceivedText(datagram).value) == Some(hello)
  {
    hide FromUtf8, Utf8, ParseServerHello, SpellsServerHello;
    if ReceivedText(datagram).Some? {
      var text := ReceivedText(datagram).value;
      FromUtf8Exactly(datagram, text);
      ParseServerHelloExactly(text, hello);
    }
    if text :| Utf8(text) == datagram && SpellsServerHello(text, hello) {
      FromUtf8Exactly(datagram, text);
      ParseServerHelloExactly(text, hello);
    }
  }

  /** The server accepts exactly the hellos that name it and verify under the key it has on file for the
      sender, and answers with the sender's values, its own exchange key and its signature over both. */
  lemma ServerAcceptExactly(crypto: Crypto, identity: Identity, authorizations: Authorizations, secret: Bytes32,
                            datagram: Bytes, client: ClientHello, server: ServerHello)
    ensures ServerAccept(crypto, identity, authorizations, secret, datagram) == Some((client, server)) <==>
            && CarriesClientHello(datagram, client) && client.responderId == identity.nodeId
            && client.initiatorId in authorizations
            && crypto.verify(authorizations[client.initiatorId],
                             ClientMessage(client.initiatorId, client.responderId, client.exchangePublic), client.signature)
            && server.initiatorId == client.initiatorId && server.responderId == client.responderId
            && server.clientExchangePublic == client.exchangePublic
            && server.serverExchangePublic == crypto.exchangePublic(secret)
            && server.signature == crypto.sign(identity.signingKey, ServerMessage(client, server.serverExchangePublic))
  {
    hide ReceivedText, ParseClientHello, CarriesClientHello, ClientMessage, ServerMessage;
    ReceivedClientHello(datagram, client);
  }

  /** A client takes a session exactly from a server hello that echoes its own and verifies under the key it
      has on file for its peer, with the transcript of the two hellos and the keys derived from it. */
  lemma ClientFinishExactly(crypto: Crypto, authorizations: Authorizations, hello: ClientHello, secret: Bytes32,
                            reply: Option<Bytes>, session: Session)
    ensures ClientFinish(crypto, authorizations, hello, secret, reply) == Established(session) <==>
            && reply.Some? && CarriesServerHello(reply.value, session.server)
            && session.server.initiatorId == hello.initiatorId && session.server.responderId == hello.responderId
            && session.server.clientExchangePublic == hello.exchangePublic
            && hello.responderId in authorizations
            && crypto.verify(authorizations[hello.responderId],
                             ServerMessage(hello, session.server.serverExchangePublic), session.server.signature)
            && session.transcript == Transcript(hello, session.server)
            && DeriveSessionKeys(crypto, crypto.agree(secret, session.server.serverExchangePublic), session.transcript)
               == Some(session.keys)
  {
    hide ReceivedText, ParseServerHello, CarriesServerHello, ServerMessage, Transcript, DeriveSessionKeys;
    if reply.Some? {
      ReceivedServerHello(reply.value, session.server);
    }
  }

  /** The session a server takes from the two hellos. */
  lemma ServerSessionExactly(crypto: Crypto, secret: Bytes32, client: ClientHello, server: ServerHello, session: Session)
    ensures ServerSessionOf(crypto, secret, client, server) == Some(session) <==>
            && session.server == server && session.transcript == Transcript(client, server)
            && DeriveSessionKeys(crypto, crypto.agree(secret, client.exchangePublic), session.transcript) == Some(session.keys)
  {
    hide Transcript, DeriveSessionKeys;
  }
}
