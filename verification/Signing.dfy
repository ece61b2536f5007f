/** The canonical byte strings that signatures cover, and the handshake transcript
    (src/handshake.rs, src/coordinator.rs). */
module Signing {
  import opened Base
  import opened Hex
  import opened Leases
  import opened Text

  const HANDSHAKE_VERSION: string := "MESHLET/3"

  datatype ClientHello = ClientHello(
    initiatorId: string, responderId: string, exchangePublic: Bytes32, signature: Signature)

  datatype ServerHello = ServerHello(
    initiatorId: string, responderId: string,
    clientExchangePublic: Bytes32, serverExchangePublic: Bytes32, signature: Signature)

  /** `Duration::as_secs`. */
  function AsSecs(d: Duration): nat {
    d / SECOND
  }

  function RegistrationLines(nodeId: string, lease: Duration, challenge: Bytes32): seq<string> {
    ["MESHLET-REGISTER-SIGNATURE/2",
     "node-id:" + nodeId,
     "lease-seconds:" + Decimal(AsSecs(lease)),
     "challenge:" + HexText(challenge)]
  }

  /** `registration_signing_message`. */
  function RegistrationMessage(nodeId: string, lease: Duration, challenge: Bytes32): Bytes {
    Utf8(Terminated(RegistrationLines(nodeId, lease, challenge)))
  }

  function ClientLines(initiatorId: string, responderId: string, exchangePublic: Bytes32): seq<string> {
    ["MESHLET-HANDSHAKE-CLIENT/1",
     "protocol:" + HANDSHAKE_VERSION,
     "initiator:" + initiatorId,
     "responder:" + responderId,
     "exchange-public:" + HexText(exchangePublic)]
  }

  /** `client_signing_message`. */
  function ClientMessage(initiatorId: string, responderId: string, exchangePublic: Bytes32): Bytes {
    Utf8(Terminated(ClientLines(initiatorId, responderId, exchangePublic)))
  }

  function ServerLines(client: ClientHello, serverExchangePublic: Bytes32): seq<string> {
    ["MESHLET-HANDSHAKE-SERVER/1",
     "protocol:" + HANDSHAKE_VERSION,
     "initiator:" + client.initiatorId,
     "responder:" + client.responderId,
     "client-exchange-public:" + HexText(client.exchangePublic),
     "client-signature:" + HexText(client.signature),
     "server-exchange-public:" + HexText(serverExchangePublic)]
  }

  /** `server_signing_message`. */
  function ServerMessage(client: ClientHello, serverExchangePublic: Bytes32): Bytes {
    Utf8(Terminated(ServerLines(client, serverExchangePublic)))
  }

  /** What the transcript of two hellos is. */
  function Transcript(client: ClientHello, server: ServerHello): Bytes {
    ClientMessage(client.initiatorId, client.responderId, client.exchangePublic) +
    (client.signature +
     (ServerMessage(client, server.serverExchangePublic) + server.signature))
  }

  /** `handshake_transcript`: the pieces are appended to a buffer one by one. */
  method HandshakeTranscript(client: ClientHello, server: ServerHello) returns (transcript: Bytes)
    ensures transcript == Transcript(client, server)
    ensures transcript == ClientMessage(client.initiatorId, client.responderId, client.exchangePublic)
              + client.signature + ServerMessage(client, server.serverExchangePublic) + server.signature
  {
    var clientMessage := ClientMessage(client.initiatorId, client.responderId, client.exchangePublic);
    var serverMessage := ServerMessage(client, server.serverExchangePublic);
    transcript := [];
    transcript := transcript + clientMessage;
    transcript := transcript + client.signature;
    transcript := transcript + serverMessage;
    transcript := transcript + server.signature;
  }

  /** `validate_server_hello`. */
  predicate Echoes(server: ServerHello, client: ClientHello) {
    && server.initiatorId == client.initiatorId
    && server.responderId == client.responderId
    && server.clientExchangePublic == client.exchangePublic
  }

  // ---------- Injectivity ----------

  predicate AreLines(lines: seq<string>) {
    forall i | 0 <= i < |lines| :: IsLine(lines[i])
  }

  lemma HexIsLine(bytes: Bytes)
    ensures IsLine(HexText(bytes))
  {
    HexTextIsHex(bytes);
  }

  lemma LabelledIsLine(tag: string, text: string)
    requires IsLine(tag) && IsLine(text)
    ensures IsLine(tag + text)
  {
  }

  lemma LabelledInjective(tag: string, a: string, b: string)
    requires tag + a == tag + b
    ensures a == b
  {
    assert a == (tag + a)[|tag|..];
  }

  lemma NameLabelsAreLines()
    ensures IsLine("node-id:") && IsLine("initiator:") && IsLine("responder:")
    ensures IsLine("protocol:" + HANDSHAKE_VERSION)
  {
  }

  lemma ValueLabelsAreLines()
    ensures IsLine("lease-seconds:") && IsLine("challenge:") && IsLine("exchange-public:")
  {
  }

  lemma ServerLabelsAreLines()
    ensures IsLine("client-exchange-public:") && IsLine("client-signature:")
    ensures IsLine("server-exchange-public:")
  {
  }

  /** The first lines of the three kinds of message. */
  lemma TitlesAreLines()
    ensures IsLine("MESHLET-REGISTER-SIGNATURE/2")
    ensures IsLine("MESHLET-HANDSHAKE-CLIENT/1") && IsLine("MESHLET-HANDSHAKE-SERVER/1")
  {
  }

  lemma RegistrationAreLines(nodeId: string, lease: Duration, challenge: Bytes32)
    requires IsLine(nodeId)
    ensures AreLines(RegistrationLines(nodeId, lease, challenge))
  {
    TitlesAreLines();
    NameLabelsAreLines();
    ValueLabelsAreLines();
    LabelledIsLine("node-id:", nodeId);
    DecimalIsPlain(AsSecs(lease));
    LabelledIsLine("lease-seconds:", Decimal(AsSecs(lease)));
    HexIsLine(challenge);
    LabelledIsLine("challenge:", HexText(challenge));
  }

  lemma ClientAreLines(initiatorId: string, responderId: string, exchangePublic: Bytes32)
    requires IsLine(initiatorId) && IsLine(responderId)
    ensures AreLines(ClientLines(initiatorId, responderId, exchangePublic))
  {
    TitlesAreLines();
    NameLabelsAreLines();
    ValueLabelsAreLines();
    LabelledIsLine("initiator:", initiatorId);
    LabelledIsLine("responder:", responderId);
    HexIsLine(exchangePublic);
    LabelledIsLine("exchange-public:", HexText(exchangePublic));
  }

  lemma ServerAreLines(client: ClientHello, serverExchangePublic: Bytes32)
    requires IsLine(client.initiatorId) && IsLine(client.responderId)
    ensures AreLines(ServerLines(client, serverExchangePublic))
  {
    TitlesAreLines();
    NameLabelsAreLines();
    ServerLabelsAreLines();
    LabelledIsLine("initiator:", client.initiatorId);
    LabelledIsLine("responder:", client.responderId);
    HexIsLine(client.exchangePublic);
    HexIsLine(client.signature);
    HexIsLine(serverExchangePublic);
    LabelledIsLine("client-exchange-public:", HexText(client.exchangePublic));
    LabelledIsLine("client-signature:", HexText(client.signature));
    LabelledIsLine("server-exchange-public:", HexText(serverExchangePublic));
  }

  lemma SameLines(a: seq<string>, b: seq<string>)
    requires |a| == |b| && AreLines(a) && AreLines(b)
    requires Utf8(Terminated(a)) == Utf8(Terminated(b))
    ensures a == b
  {
    assert Utf8(Terminated(a)) + [] == Utf8(Terminated(a));
    assert Utf8(Terminated(b)) + [] == Utf8(Terminated(b));
    TerminatedUnique(a, b, [], []);
  }

  lemma RegistrationLinesInjective(
    nodeId: string, lease: Duration, challenge: Bytes32, nodeId': string, lease': Duration, challenge': Bytes32)
    requires RegistrationLines(nodeId, lease, challenge) == RegistrationLines(nodeId', lease', challenge')
    ensures nodeId == nodeId' && AsSecs(lease) == AsSecs(lease') && challenge == challenge'
  {
    var a, b := RegistrationLines(nodeId, lease, challenge), RegistrationLines(nodeId', lease', challenge');
    assert a[1] == b[1] && a[2] == b[2] && a[3] == b[3];
    LabelledInjective("node-id:", nodeId, nodeId');
    LabelledInjective("lease-seconds:", Decimal(AsSecs(lease)), Decimal(AsSecs(lease')));
    DecimalValue(AsSecs(lease));
    DecimalValue(AsSecs(lease'));
    LabelledInjective("challenge:", HexText(challenge), HexText(challenge'));
    HexTextInjective(challenge, challenge');
  }

  lemma ClientLinesInjective(a: string, b: string, x: Bytes32, a': string, b': string, x': Bytes32)
    requires ClientLines(a, b, x) == ClientLines(a', b', x')
    ensures a == a' && b == b' && x == x'
  {
    var u, v := ClientLines(a, b, x), ClientLines(a', b', x');
    assert u[2] == v[2] && u[3] == v[3] && u[4] == v[4];
    LabelledInjective("initiator:", a, a');
    LabelledInjective("responder:", b, b');
    LabelledInjective("exchange-public:", HexText(x), HexText(x'));
    HexTextInjective(x, x');
  }

  lemma ServerLinesInjective(c: ClientHello, x: Bytes32, c': ClientHello, x': Bytes32)
    requires ServerLines(c, x) == ServerLines(c', x')
    ensures c == c' && x == x'
  {
    var u, v := ServerLines(c, x), ServerLines(c', x');
    assert u[2] == v[2] && u[3] == v[3] && u[4] == v[4] && u[5] == v[5] && u[6] == v[6];
    LabelledInjective("initiator:", c.initiatorId, c'.initiatorId);
    LabelledInjective("responder:", c.responderId, c'.responderId);
    LabelledInjective("client-exchange-public:", HexText(c.exchangePublic), HexText(c'.exchangePublic));
    LabelledInjective("client-signature:", HexText(c.signature), HexText(c'.signature));
    LabelledInjective("server-exchange-public:", HexText(x), HexText(x'));
    HexTextInjective(c.exchangePublic, c'.exchangePublic);
    HexTextInjective(c.signature, c'.signature);
    HexTextInjective(x, x');
  }

  /** A registration signature binds the node, the whole seconds of the lease and the challenge. */
  lemma RegistrationMessageInjective(
    nodeId: string, lease: Duration, challenge: Bytes32, nodeId': string, lease': Duration, challenge': Bytes32)
    requires IsLine(nodeId) && IsLine(nodeId')
    requires RegistrationMessage(nodeId, lease, challenge) == RegistrationMessage(nodeId', lease', challenge')
    ensures nodeId == nodeId' && AsSecs(lease) == AsSecs(lease') && challenge == challenge'
    ensures lease % SECOND == 0 && lease' % SECOND == 0 ==> lease == lease'
  {
    RegistrationAreLines(nodeId, lease, challenge);
    RegistrationAreLines(nodeId', lease', challenge');
    SameLines(RegistrationLines(nodeId, lease, challenge), RegistrationLines(nodeId', lease', challenge'));
    RegistrationLinesInjective(nodeId, lease, challenge, nodeId', lease', challenge');
  }

  /** A client signature binds both names and the exchange key. */
  lemma ClientMessageInjective(a: string, b: string, x: Bytes32, a': string, b': string, x': Bytes32)
    requires IsLine(a) && IsLine(b) && IsLine(a') && IsLine(b')
    requires ClientMessage(a, b, x) == ClientMessage(a', b', x')
    ensures a == a' && b == b' && x == x'
  {
    ClientAreLines(a, b, x);
    ClientAreLines(a', b', x');
    SameLines(ClientLines(a, b, x), ClientLines(a', b', x'));
    ClientLinesInjective(a, b, x, a', b', x');
  }

  /** A server signature binds the whole client hello, its signature included, and the server's key. */
  lemma ServerMessageInjective(c: ClientHello, x: Bytes32, c': ClientHello, x': Bytes32)
    requires IsLine(c.initiatorId) && IsLine(c.responderId)
    requires IsLine(c'.initiatorId) && IsLine(c'.responderId)
    requires ServerMessage(c, x) == ServerMessage(c', x')
    ensures c == c' && x == x'
  {
    ServerAreLines(c, x);
    ServerAreLines(c', x');
    SameLines(ServerLines(c, x), ServerLines(c', x'));
    ServerLinesInjective(c, x, c', x');
  }

  /** Messages whose first lines differ differ. */
  lemma FirstLineDecides(a: seq<string>, b: seq<string>)
    requires a != [] && b != [] && IsLine(a[0]) && IsLine(b[0])
    requires Utf8(Terminated(a)) == Utf8(Terminated(b))
    ensures a[0] == b[0]
  {
    TerminatedHead(a);
    TerminatedHead(b);
    Utf8AsciiByte(a[0], '\n');
    Utf8AsciiByte(b[0], '\n');
    CutUnique(Utf8(a[0]), Utf8(b[0]), 10, Utf8(Terminated(a[1..])), Utf8(Terminated(b[1..])));
    Utf8Injective(a[0], b[0]);
  }

  /** The three kinds of signed message never coincide, whatever the names in them. */
  lemma MessageKindsDisjoint(
    a: string, b: string, x: Bytes32, c: ClientHello, y: Bytes32, n: string, l: Duration, z: Bytes32)
    ensures ClientMessage(a, b, x) != ServerMessage(c, y)
    ensures ClientMessage(a, b, x) != RegistrationMessage(n, l, z)
    ensures ServerMessage(c, y) != RegistrationMessage(n, l, z)
  {
    var client, server, register := ClientLines(a, b, x), ServerLines(c, y), RegistrationLines(n, l, z);
    TitlesAreLines();
    TitlesDiffer();
    if ClientMessage(a, b, x) == ServerMessage(c, y) {
      FirstLineDecides(client, server);
    }
    if ClientMessage(a, b, x) == RegistrationMessage(n, l, z) {
      FirstLineDecides(client, register);
    }
    if ServerMessage(c, y) == RegistrationMessage(n, l, z) {
      FirstLineDecides(server, register);
    }
  }

  lemma TitlesDiffer()
    ensures "MESHLET-HANDSHAKE-CLIENT/1" != "MESHLET-HANDSHAKE-SERVER/1"
    ensures "MESHLET-HANDSHAKE-CLIENT/1" != "MESHLET-REGISTER-SIGNATURE/2"
    ensures "MESHLET-HANDSHAKE-SERVER/1" != "MESHLET-REGISTER-SIGNATURE/2"
  {
    assert "MESHLET-HANDSHAKE-CLIENT/1"[18] != "MESHLET-HANDSHAKE-SERVER/1"[18];
    assert "MESHLET-HANDSHAKE-CLIENT/1"[8] != "MESHLET-REGISTER-SIGNATURE/2"[8];
    assert "MESHLET-HANDSHAKE-SERVER/1"[8] != "MESHLET-REGISTER-SIGNATURE/2"[8];
  }

  lemma SamePieces(u: Bytes, v: Bytes, x: Bytes, y: Bytes)
    requires |u| == |v| && u + x == v + y
    ensures u == v && x == y
  {
    assert u == (u + x)[..|u|] && v == (v + y)[..|v|];
    assert x == (u + x)[|u|..] && y == (v + y)[|v|..];
  }

  lemma TranscriptFixesHellos(client: ClientHello, server: ServerHello, client': ClientHello, server': ServerHello)
    requires IsLine(client.initiatorId) && IsLine(client.responderId)
    requires IsLine(client'.initiatorId) && IsLine(client'.responderId)
    requires Transcript(client, server) == Transcript(client', server')
    ensures client == client'
    ensures server.serverExchangePublic == server'.serverExchangePublic
    ensures server.signature == server'.signature
  {
    var a := ClientLines(client.initiatorId, client.responderId, client.exchangePublic);
    var a' := ClientLines(client'.initiatorId, client'.responderId, client'.exchangePublic);
    var rest := ServerMessage(client, server.serverExchangePublic) + server.signature;
    var rest' := ServerMessage(client', server'.serverExchangePublic) + server'.signature;
    ClientAreLines(client.initiatorId, client.responderId, client.exchangePublic);
    ClientAreLines(client'.initiatorId, client'.responderId, client'.exchangePublic);
    TerminatedUnique(a, a', client.signature + rest, client'.signature + rest');
    ClientLinesInjective(client.initiatorId, client.responderId, client.exchangePublic,
                         client'.initiatorId, client'.responderId, client'.exchangePublic);
    SamePieces(client.signature, client'.signature, rest, rest');
    ServerAreLines(client, server.serverExchangePublic);
    ServerAreLines(client', server'.serverExchangePublic);
    TerminatedUnique(ServerLines(client, server.serverExchangePublic),
                     ServerLines(client', server'.serverExchangePublic), server.signature, server'.signature);
    ServerLinesInjective(client, server.serverExchangePublic, client', server'.serverExchangePublic);
  }

  /** The transcript fixes the client hello, the server's exchange key and its signature, and
      nothing else: it never reads the names and the client key that the server echoes. */
  lemma TranscriptDetermines(client: ClientHello, server: ServerHello, client': ClientHello, server': ServerHello)
    requires IsLine(client.initiatorId) && IsLine(client.responderId)
    requires IsLine(client'.initiatorId) && IsLine(client'.responderId)
    ensures Transcript(client, server) == Transcript(client', server') <==>
            && client == client'
            && server.serverExchangePublic == server'.serverExchangePublic
            && server.signature == server'.signature
  {
    if Transcript(client, server) == Transcript(client', server') {
      TranscriptFixesHellos(client, server, client', server');
    }
  }

  /** For server hellos that pass validation, equal transcripts come from equal hellos, and only then. */
  lemma TranscriptInjective(client: ClientHello, server: ServerHello, client': ClientHello, server': ServerHello)
    requires IsLine(client.initiatorId) && IsLine(client.responderId)
    requires IsLine(client'.initiatorId) && IsLine(client'.responderId)
    requires Echoes(server, client) && Echoes(server', client')
    ensures Transcript(client, server) == Transcript(client', server') <==> client == client' && server == server'
  {
    TranscriptDetermines(client, server, client', server');
  }

  // ---------- The signed texts in full ----------

  lemma TerminatedCons(line: string, lines: seq<string>)
    ensures Terminated([line] + lines) == line + "\n" + Terminated(lines)
  {
    assert ([line] + lines)[1..] == lines;
  }

  lemma TerminatedOne(line: string)
    ensures Terminated([line]) == line + "\n"
  {
    assert [line][1..] == [];
  }

  /** What a client signs, in full. */
  lemma ClientMessageText(a: string, b: string, x: Bytes32)
    ensures ClientMessage(a, b, x) == Utf8(
              "MESHLET-HANDSHAKE-CLIENT/1" + "\n" + ("protocol:MESHLET/3" + "\n" + ("initiator:" + a + "\n" +
              ("responder:" + b + "\n" + ("exchange-public:" + HexText(x) + "\n")))))
  {
    hide Terminated, HexText;
    var l1, l2, l3, l4, l5 :=
      "MESHLET-HANDSHAKE-CLIENT/1", "protocol:MESHLET/3", "initiator:" + a, "responder:" + b, "exchange-public:" + HexText(x);
    assert "protocol:" + HANDSHAKE_VERSION == l2;
    TerminatedOne(l5);
    TerminatedCons(l4, [l5]);
    TerminatedCons(l3, [l4, l5]);
    TerminatedCons(l2, [l3, l4, l5]);
    TerminatedCons(l1, [l2, l3, l4, l5]);
    assert ClientLines(a, b, x) == [l1] + [l2, l3, l4, l5] && [l2, l3, l4, l5] == [l2] + [l3, l4, l5];
    assert [l3, l4, l5] == [l3] + [l4, l5] && [l4, l5] == [l4] + [l5];
  }

  /** What a server signs, in full. */
  lemma ServerMessageText(c: ClientHello, x: Bytes32)
    ensures ServerMessage(c, x) == Utf8(
              "MESHLET-HANDSHAKE-SERVER/1" + "\n" + ("protocol:MESHLET/3" + "\n" + ("initiator:" + c.initiatorId + "\n" +
              ("responder:" + c.responderId + "\n" + ("client-exchange-public:" + HexText(c.exchangePublic) + "\n" +
              ("client-signature:" + HexText(c.signature) + "\n" + ("server-exchange-public:" + HexText(x) + "\n")))))))
  {
    hide Terminated, HexText;
    var l1, l2, l3, l4 :=
      "MESHLET-HANDSHAKE-SERVER/1", "protocol:MESHLET/3", "initiator:" + c.initiatorId, "responder:" + c.responderId;
    var l5, l6, l7 := "client-exchange-public:" + HexText(c.exchangePublic), "client-signature:" + HexText(c.signature),
                      "server-exchange-public:" + HexText(x);
    assert "protocol:" + HANDSHAKE_VERSION == l2;
    TerminatedOne(l7);
    TerminatedCons(l6, [l7]);
    TerminatedCons(l5, [l6, l7]);
    TerminatedCons(l4, [l5, l6, l7]);
    TerminatedCons(l3, [l4, l5, l6, l7]);
    TerminatedCons(l2, [l3, l4, l5, l6, l7]);
    TerminatedCons(l1, [l2, l3, l4, l5, l6, l7]);
    assert ServerLines(c, x) == [l1] + [l2, l3, l4, l5, l6, l7];
    assert [l2, l3, l4, l5, l6, l7] == [l2] + [l3, l4, l5, l6, l7] && [l3, l4, l5, l6, l7] == [l3] + [l4, l5, l6, l7];
    assert [l4, l5, l6, l7] == [l4] + [l5, l6, l7] && [l5, l6, l7] == [l5] + [l6, l7] && [l6, l7] == [l6] + [l7];
  }

  /** What a node signs for the coordinator, in full; the lease in whole seconds. */
  lemma RegistrationMessageText(nodeId: string, lease: Duration, challenge: Bytes32)
    ensures RegistrationMessage(nodeId, lease, challenge) == Utf8(
              "MESHLET-REGISTER-SIGNATURE/2" + "\n" + ("node-id:" + nodeId + "\n" +
              ("lease-seconds:" + Decimal(lease / 1_000_000_000) + "\n" + ("challenge:" + HexText(challenge) + "\n"))))
  {
    hide Terminated, HexText, Decimal;
    var l1, l2, l3, l4 := "MESHLET-REGISTER-SIGNATURE/2", "node-id:" + nodeId,
                          "lease-seconds:" + Decimal(lease / 1_000_000_000), "challenge:" + HexText(challenge);
    TerminatedOne(l4);
    TerminatedCons(l3, [l4]);
    TerminatedCons(l2, [l3, l4]);
    TerminatedCons(l1, [l2, l3, l4]);
    assert RegistrationLines(nodeId, lease, challenge) == [l1] + [l2, l3, l4];
    assert [l2, l3, l4] == [l2] + [l3, l4] && [l3, l4] == [l3] + [l4];
  }
}
