/** The text messages on the wire (src/handshake.rs, src/coordinator.rs). */
module Wire {
  import opened Base
  import C = Coordinator
  import opened Hex
  import opened Leases
  import opened Prefix
  import opened Signing
  import opened Text

  const PROTOCOL_VERSION: string := "MESHLET/1"
  const AUTH_PROTOCOL_VERSION: string := "MESHLET/2"
  const MAX_DATAGRAM_BYTES: nat := 1024
  const MAX_LEASE_SECONDS: nat := 300

  // ---------- Handshake hellos ----------

  predicate ValidClientHello(hello: ClientHello) {
    ValidNodeId(hello.initiatorId) && ValidNodeId(hello.responderId)
  }

  predicate ValidServerHello(hello: ServerHello) {
    ValidNodeId(hello.initiatorId) && ValidNodeId(hello.responderId)
  }

  function ClientHelloFields(hello: ClientHello): seq<string> {
    [HANDSHAKE_VERSION, "CLIENT_HELLO", hello.initiatorId, hello.responderId,
     HexText(hello.exchangePublic), HexText(hello.signature)]
  }

  /** `encode_client_hello`. */
  function EncodeClientHello(hello: ClientHello): string {
    Spaced(ClientHelloFields(hello))
  }

  /** `parse_client_hello`. */
  function ParseClientHello(message: string): (r: Option<ClientHello>)
    ensures r.Some? ==> ValidClientHello(r.value)
  {
    var f := Fields(message);
    if |f| != 6 || f[1] != "CLIENT_HELLO" then None
    else if f[0] != HANDSHAKE_VERSION || !ValidNodeId(f[2]) || !ValidNodeId(f[3]) then None
    else
      match (HexBytes(32, f[4]), HexBytes(64, f[5]))
      case (Some(exchangePublic), Some(signature)) => Some(ClientHello(f[2], f[3], exchangePublic, signature))
      case _ => None
  }

  function ServerHelloFields(hello: ServerHello): seq<string> {
    [HANDSHAKE_VERSION, "SERVER_HELLO", hello.initiatorId, hello.responderId,
     HexText(hello.clientExchangePublic), HexText(hello.serverExchangePublic), HexText(hello.signature)]
  }

  /** `encode_server_hello`. */
  function EncodeServerHello(hello: ServerHello): string {
    Spaced(ServerHelloFields(hello))
  }

  /** `parse_server_hello`. */
  function ParseServerHello(message: string): (r: Option<ServerHello>)
    ensures r.Some? ==> ValidServerHello(r.value)
  {
    var f := Fields(message);
    if |f| != 7 || f[1] != "SERVER_HELLO" then None
    else if f[0] != HANDSHAKE_VERSION || !ValidNodeId(f[2]) || !ValidNodeId(f[3]) then None
    else
      match (HexBytes(32, f[4]), HexBytes(32, f[5]), HexBytes(64, f[6]))
      case (Some(client), Some(server), Some(signature)) => Some(ServerHello(f[2], f[3], client, server, signature))
      case _ => None
  }

  // ---------- Coordinator requests ----------

  /** `parse_lease`: whole seconds from 1 to 300. */
  function ParseLease(s: string): (r: Option<Duration>)
    ensures r.Some? ==> ValidLease(r.value)
  {
    match ParseUnsigned(s, U64_MAX)
    case Some(seconds) => if 1 <= seconds <= MAX_LEASE_SECONDS then Some(seconds * SECOND) else None
    case None => None
  }

  /** A whole number of seconds from 1 to 300. */
  predicate ValidLease(lease: Duration) {
    lease % 1_000_000_000 == 0 && 1_000_000_000 <= lease <= 300_000_000_000
  }

  datatype AuthRequest =
    | AuthChallenge(nodeId: string)
    | AuthRegister(nodeId: string, lease: Duration, challenge: Bytes32, signature: Signature)
    | AuthLookup(nodeId: string)

  predicate ValidAuthRequest(r: AuthRequest) {
    ValidNodeId(r.nodeId) && (r.AuthRegister? ==> ValidLease(r.lease))
  }

  function AuthRequestFields(r: AuthRequest): seq<string> {
    match r
    case AuthChallenge(nodeId) => [AUTH_PROTOCOL_VERSION, "CHALLENGE", nodeId]
    case AuthRegister(nodeId, lease, challenge, signature) =>
      [AUTH_PROTOCOL_VERSION, "REGISTER", nodeId, Decimal(AsSecs(lease)), HexText(challenge), HexText(signature)]
    case AuthLookup(nodeId) => [AUTH_PROTOCOL_VERSION, "LOOKUP", nodeId]
  }

  /** The requests as the authenticated clients write them. */
  function EncodeAuthRequest(r: AuthRequest): string {
    Spaced(AuthRequestFields(r))
  }

  /** `parse_auth_request`. */
  function ParseAuthRequest(message: Bytes): (r: Option<AuthRequest>)
    ensures r.Some? ==> ValidAuthRequest(r.value)
  {
    match FromUtf8(message)
    case None => None
    case Some(text) =>
      var f := Fields(text);
      if |f| == 3 && f[0] == AUTH_PROTOCOL_VERSION && f[1] == "CHALLENGE" then
        if ValidNodeId(f[2]) then Some(AuthChallenge(f[2])) else None
      else if |f| == 6 && f[0] == AUTH_PROTOCOL_VERSION && f[1] == "REGISTER" then
        if !ValidNodeId(f[2]) then None
        else
          match (ParseLease(f[3]), HexBytes(32, f[4]), HexBytes(64, f[5]))
          case (Some(lease), Some(challenge), Some(signature)) => Some(AuthRegister(f[2], lease, challenge, signature))
          case _ => None
      else if |f| == 3 && f[0] == AUTH_PROTOCOL_VERSION && f[1] == "LOOKUP" then
        if ValidNodeId(f[2]) then Some(AuthLookup(f[2])) else None
      else None
  }

  function ChallengeFields(nodeId: string, challenge: Bytes32): seq<string> {
    [AUTH_PROTOCOL_VERSION, "CHALLENGE", nodeId, HexText(challenge)]
  }

  /** `AuthResponse::encode` of a challenge. */
  function EncodeChallenge(nodeId: string, challenge: Bytes32): string {
    Spaced(ChallengeFields(nodeId, challenge))
  }

  /** `parse_challenge_response`. */
  function ParseChallengeResponse(response: string, expectedNodeId: string): Option<Bytes32> {
    var f := Fields(response);
    if |f| != 4 || f[1] != "CHALLENGE" then None
    else if f[0] != AUTH_PROTOCOL_VERSION || f[2] != expectedNodeId then None
    else match HexBytes(32, f[3]) case Some(challenge) => Some(challenge) case None => None
  }

  predicate ValidRequest(r: C.Request) {
    match r
    case Register(nodeId, lease) => ValidNodeId(nodeId) && ValidLease(lease)
    case Lookup(nodeId) => ValidNodeId(nodeId)
    case AdvertiseRoute(nodeId, _, lease) => ValidNodeId(nodeId) && ValidLease(lease)
    case RouteLookup(_) => true
  }

  function RequestFields(r: C.Request): seq<string> {
    match r
    case Register(nodeId, lease) => [PROTOCOL_VERSION, "REGISTER", nodeId, Decimal(AsSecs(lease))]
    case Lookup(nodeId) => [PROTOCOL_VERSION, "LOOKUP", nodeId]
    case AdvertiseRoute(nodeId, prefix, lease) =>
      [PROTOCOL_VERSION, "ADVERTISE_ROUTE", nodeId, PrintPrefix(prefix), Decimal(AsSecs(lease))]
    case RouteLookup(destination) => [PROTOCOL_VERSION, "ROUTE_LOOKUP", PrintAddress(destination)]
  }

  /** The requests as the learning clients write them. */
  function EncodeRequest(r: C.Request): string {
    Spaced(RequestFields(r))
  }

  /** `parse_request`. */
  function ParseRequest(message: Bytes): (r: Option<C.Request>)
    ensures r.Some? ==> ValidRequest(r.value)
  {
    match FromUtf8(message)
    case None => None
    case Some(text) =>
      var f := Fields(text);
      if |f| == 4 && f[0] == PROTOCOL_VERSION && f[1] == "REGISTER" then
        if !ValidNodeId(f[2]) then None
        else match ParseLease(f[3]) case Some(lease) => Some(C.Request.Register(f[2], lease)) case None => None
      else if |f| == 3 && f[0] == PROTOCOL_VERSION && f[1] == "LOOKUP" then
        if ValidNodeId(f[2]) then Some(C.Request.Lookup(f[2])) else None
      else if |f| == 5 && f[0] == PROTOCOL_VERSION && f[1] == "ADVERTISE_ROUTE" then
        if !ValidNodeId(f[2]) then None
        else
          match (ParsePrefix(f[3]), ParseLease(f[4]))
          case (Some(prefix), Some(lease)) => Some(C.AdvertiseRoute(f[2], prefix, lease))
          case _ => None
      else if |f| == 3 && f[0] == PROTOCOL_VERSION && f[1] == "ROUTE_LOOKUP" then
        match ParseAddress(f[2]) case Some(destination) => Some(C.RouteLookup(destination)) case None => None
      else None
  }

  // ---------- Plain fields ----------

  /** A short field that joining, splitting and UTF-8 carry unchanged, one byte a character. */
  predicate IsPlain(field: string) {
    IsWord(field) && IsAscii(field) && |field| <= 128
  }

  predicate ArePlain(fields: seq<string>) {
    forall i | 0 <= i < |fields| :: IsPlain(fields[i])
  }

  lemma HexIsPlain(bytes: Bytes)
    requires 0 < |bytes| <= 64
    ensures IsPlain(HexText(bytes))
  {
    HexTextIsHex(bytes);
  }

  lemma NodeIdsArePlain(id: string)
    requires ValidNodeId(id)
    ensures IsPlain(id)
  {
    NodeIdIsPlain(id);
  }

  lemma VersionsArePlain()
    ensures IsPlain(HANDSHAKE_VERSION) && IsPlain(PROTOCOL_VERSION) && IsPlain(AUTH_PROTOCOL_VERSION)
  {
  }

  lemma HelloWordsArePlain()
    ensures IsPlain("CLIENT_HELLO") && IsPlain("SERVER_HELLO")
  {
  }

  lemma AuthWordsArePlain()
    ensures IsPlain("CHALLENGE") && IsPlain("REGISTER") && IsPlain("LOOKUP")
  {
  }

  lemma RouteWordsArePlain()
    ensures IsPlain("ADVERTISE_ROUTE") && IsPlain("ROUTE_LOOKUP")
  {
  }

  lemma PrefixIsPlain(prefix: Ipv4Prefix)
    ensures IsPlain(PrintPrefix(prefix))
  {
    AddressIsPlain(prefix.network);
    DecimalIsPlain(prefix.length);
    DecimalLength(prefix.length, 2, 100);
  }

  lemma AddressIsPlain(address: Address)
    ensures IsPlain(PrintAddress(address)) && |PrintAddress(address)| <= 15
  {
    var (a, b, c, d) := Octets(address);
    DecimalIsPlain(a);
    DecimalIsPlain(b);
    DecimalIsPlain(c);
    DecimalIsPlain(d);
    DecimalLength(a, 3, 1000);
    DecimalLength(b, 3, 1000);
    DecimalLength(c, 3, 1000);
    DecimalLength(d, 3, 1000);
  }

  /** What a plain message becomes on the wire and back, and how long it is. */
  lemma PlainOnTheWire(fields: seq<string>)
    requires ArePlain(fields)
    ensures Fields(Spaced(fields)) == fields
    ensures FromUtf8(Utf8(Spaced(fields))) == Some(Spaced(fields))
    ensures |Utf8(Spaced(fields))| <= 129 * |fields|
  {
    FieldsOfSpaced(fields);
    TotalBound(fields);
    Utf8RoundTrip(Spaced(fields));
    SpacedIsAscii(fields);
    Utf8LengthOfAscii(Spaced(fields));
  }

  lemma {:induction false} TotalBound(fields: seq<string>)
    requires ArePlain(fields)
    ensures TotalLength(fields) <= 128 * |fields|
  {
    if fields != [] {
      TotalBound(fields[1..]);
    }
  }

  /** Every valid client hello parses back from its datagram, which fits the limit. */
  lemma ClientHelloRoundTrip(hello: ClientHello)
    requires ValidClientHello(hello)
    ensures ParseClientHello(EncodeClientHello(hello)) == Some(hello)
    ensures FromUtf8(Utf8(EncodeClientHello(hello))) == Some(EncodeClientHello(hello))
    ensures |Utf8(EncodeClientHello(hello))| <= 1024
  {
    hide Fields, Spaced, Utf8, FromUtf8, HexText, HexBytes, ParseLease, Decimal, IsPlain, ParsePrefix, PrintPrefix,
         ParseAddress, PrintAddress;
    var f := ClientHelloFields(hello);
    VersionsArePlain();
    HelloWordsArePlain();
    NodeIdsArePlain(hello.initiatorId);
    NodeIdsArePlain(hello.responderId);
    HexIsPlain(hello.exchangePublic);
    HexIsPlain(hello.signature);
    PlainOnTheWire(f);
    HexRoundTrip(hello.exchangePublic);
    HexRoundTrip(hello.signature);
  }

  /** Every valid server hello parses back from its datagram, which fits the limit. */
  lemma ServerHelloRoundTrip(hello: ServerHello)
    requires ValidServerHello(hello)
    ensures ParseServerHello(EncodeServerHello(hello)) == Some(hello)
    ensures FromUtf8(Utf8(EncodeServerHello(hello))) == Some(EncodeServerHello(hello))
    ensures |Utf8(EncodeServerHello(hello))| <= 1024
  {
    hide Fields, Spaced, Utf8, FromUtf8, HexText, HexBytes, ParseLease, Decimal, IsPlain, ParsePrefix, PrintPrefix,
         ParseAddress, PrintAddress;
    var f := ServerHelloFields(hello);
    VersionsArePlain();
    HelloWordsArePlain();
    NodeIdsArePlain(hello.initiatorId);
    NodeIdsArePlain(hello.responderId);
    HexIsPlain(hello.clientExchangePublic);
    HexIsPlain(hello.serverExchangePublic);
    HexIsPlain(hello.signature);
    PlainOnTheWire(f);
    HexRoundTrip(hello.clientExchangePublic);
    HexRoundTrip(hello.serverExchangePublic);
    HexRoundTrip(hello.signature);
  }

  lemma LeaseRoundTrip(lease: Duration)
    requires ValidLease(lease)
    ensures ParseLease(Decimal(AsSecs(lease))) == Some(lease)
    ensures IsPlain(Decimal(AsSecs(lease)))
  {
    DecimalRoundTrip(AsSecs(lease), U64_MAX);
    DecimalIsPlain(AsSecs(lease));
    DecimalLength(AsSecs(lease), 3, 1000);
  }

  /** Every valid authenticated request parses back from its datagram, which fits the limit. */
  lemma AuthRequestRoundTrip(r: AuthRequest)
    requires ValidAuthRequest(r)
    ensures ParseAuthRequest(Utf8(EncodeAuthRequest(r))) == Some(r)
    ensures |Utf8(EncodeAuthRequest(r))| <= 1024
  {
    hide Fields, Spaced, Utf8, FromUtf8, HexText, HexBytes, ParseLease, Decimal, IsPlain, ParsePrefix, PrintPrefix,
         ParseAddress, PrintAddress;
    var f := AuthRequestFields(r);
    VersionsArePlain();
    AuthWordsArePlain();
    NodeIdsArePlain(r.nodeId);
    if r.AuthRegister? {
      LeaseRoundTrip(r.lease);
      HexIsPlain(r.challenge);
      HexIsPlain(r.signature);
      HexRoundTrip(r.challenge);
      HexRoundTrip(r.signature);
    }
    PlainOnTheWire(f);
  }

  /** Every issued challenge is read back by the node it was issued to, and by no other. */
  lemma ChallengeRoundTrip(nodeId: string, challenge: Bytes32, expected: string)
    requires ValidNodeId(nodeId)
    ensures ParseChallengeResponse(EncodeChallenge(nodeId, challenge), expected) ==
            if expected == nodeId then Some(challenge) else None
    ensures |Utf8(EncodeChallenge(nodeId, challenge))| <= 1024
  {
    hide Fields, Spaced, Utf8, FromUtf8, HexText, HexBytes, ParseLease, Decimal, IsPlain, ParsePrefix, PrintPrefix,
         ParseAddress, PrintAddress;
    var f := ChallengeFields(nodeId, challenge);
    VersionsArePlain();
    AuthWordsArePlain();
    NodeIdsArePlain(nodeId);
    HexIsPlain(challenge);
    HexRoundTrip(challenge);
    PlainOnTheWire(f);
  }

  lemma NodeRequestRoundTrip(r: C.Request)
    requires ValidRequest(r) && (r.Register? || r.Lookup?)
    ensures ParseRequest(Utf8(EncodeRequest(r))) == Some(r)
    ensures |Utf8(EncodeRequest(r))| <= 1024
  {
    hide Fields, Spaced, Utf8, FromUtf8, HexText, HexBytes, ParseLease, Decimal, IsPlain, ParsePrefix, PrintPrefix,
         ParseAddress, PrintAddress;
    VersionsArePlain();
    AuthWordsArePlain();
    NodeIdsArePlain(r.nodeId);
    if r.Register? {
      LeaseRoundTrip(r.lease);
    }
    PlainOnTheWire(RequestFields(r));
  }

  lemma AdvertiseRequestRoundTrip(nodeId: string, prefix: Ipv4Prefix, lease: Duration)
    requires ValidNodeId(nodeId) && ValidLease(lease)
    ensures var r := C.AdvertiseRoute(nodeId, prefix, lease);
            ParseRequest(Utf8(EncodeRequest(r))) == Some(r) && |Utf8(EncodeRequest(r))| <= 1024
  {
    hide Fields, Spaced, Utf8, FromUtf8, HexText, HexBytes, ParseLease, Decimal, IsPlain, ParsePrefix, PrintPrefix,
         ParseAddress, PrintAddress;
    VersionsArePlain();
    RouteWordsArePlain();
    NodeIdsArePlain(nodeId);
    LeaseRoundTrip(lease);
    PrefixIsPlain(prefix);
    PrefixRoundTrip(prefix);
    PlainOnTheWire(RequestFields(C.AdvertiseRoute(nodeId, prefix, lease)));
  }

  lemma RouteLookupRequestRoundTrip(destination: Address)
    ensures var r := C.RouteLookup(destination);
            ParseRequest(Utf8(EncodeRequest(r))) == Some(r) && |Utf8(EncodeRequest(r))| <= 1024
  {
    hide Fields, Spaced, Utf8, FromUtf8, HexText, HexBytes, ParseLease, Decimal, IsPlain, ParsePrefix, PrintPrefix,
         ParseAddress, PrintAddress;
    VersionsArePlain();
    RouteWordsArePlain();
    AddressIsPlain(destination);
    AddressRoundTrip(destination);
    PlainOnTheWire(RequestFields(C.RouteLookup(destination)));
  }

  /** Every valid learning request parses back from its datagram, which fits the limit. */
  lemma RequestRoundTrip(r: C.Request)
    requires ValidRequest(r)
    ensures ParseRequest(Utf8(EncodeRequest(r))) == Some(r)
    ensures |Utf8(EncodeRequest(r))| <= 1024
  {
    match r {
      case AdvertiseRoute(nodeId, prefix, lease) => AdvertiseRequestRoundTrip(nodeId, prefix, lease);
      case RouteLookup(destination) => RouteLookupRequestRoundTrip(destination);
      case _ => NodeRequestRoundTrip(r);
    }
  }

  // ---------- Exactly which messages are accepted ----------

  /** A number of seconds from 1 to 300, as a duration. */
  ghost predicate SpellsLease(s: string, lease: Duration) {
    exists seconds :: 1 <= seconds <= 300 && SpellsNumber(s, seconds) && lease == seconds * 1_000_000_000
  }

  lemma ParseLeaseExactly(s: string, lease: Duration)
    ensures ParseLease(s) == Some(lease) <==> SpellsLease(s, lease)
  {
    hide ParseUnsigned, SpellsNumber;
    var parsed := ParseUnsigned(s, U64_MAX);
    if parsed.Some? {
      ParseUnsignedExactly(s, U64_MAX, parsed.value);
    }
    if seconds :| 1 <= seconds <= 300 && SpellsNumber(s, seconds) && lease == seconds * 1_000_000_000 {
      ParseUnsignedExactly(s, U64_MAX, seconds);
    }
  }

  ghost predicate SpellsRegister(text: string, nodeId: string, lease: Duration) {
    exists number :: SplitsInto(text, ["MESHLET/1", "REGISTER", nodeId, number]) && SpellsLease(number, lease)
  }

  ghost predicate SpellsAdvertise(text: string, nodeId: string, prefix: Ipv4Prefix, lease: Duration) {
    exists route, number ::
      && SplitsInto(text, ["MESHLET/1", "ADVERTISE_ROUTE", nodeId, route, number])
      && SpellsPrefix(route, prefix.network, prefix.length) && SpellsLease(number, lease)
  }

  ghost predicate SpellsRouteLookup(text: string, destination: Address) {
    exists quad :: SplitsInto(text, ["MESHLET/1", "ROUTE_LOOKUP", quad]) && DottedQuad(quad, destination)
  }

  /** The words of a learning request, apart from the whitespace between them. */
  ghost predicate SpellsRequest(text: string, r: C.Request) {
    match r
    case Register(nodeId, lease) => ValidNodeId(nodeId) && SpellsRegister(text, nodeId, lease)
    case Lookup(nodeId) => ValidNodeId(nodeId) && SplitsInto(text, ["MESHLET/1", "LOOKUP", nodeId])
    case AdvertiseRoute(nodeId, prefix, lease) => ValidNodeId(nodeId) && SpellsAdvertise(text, nodeId, prefix, lease)
    case RouteLookup(destination) => SpellsRouteLookup(text, destination)
  }

  /** The request in a text that is known to be UTF-8. */
  lemma RequestOfText(text: string, r: C.Request)
    ensures ParseRequest(Utf8(text)) == Some(r) <==> SpellsRequest(text, r)
  {
    hide Utf8, FromUtf8, Fields, SplitsInto, ParseLease, SpellsLease, ParsePrefix, SpellsPrefix, ParseAddress,
         DottedQuad, ValidNodeId;
    Utf8RoundTrip(text);
    var f := Fields(text);
    FieldsExactly(text, f);
    forall words | SplitsInto(text, words)
      ensures words == f
    {
      FieldsExactly(text, words);
    }
    match r {
      case Register(nodeId, lease) =>
        RegisterOfFields(text, f, nodeId, lease);
      case Lookup(nodeId) =>
        if |f| == 3 {
          assert f == [f[0], f[1], f[2]];
        }
      case AdvertiseRoute(nodeId, prefix, lease) =>
        AdvertiseOfFields(text, f, nodeId, prefix, lease);
      case RouteLookup(destination) =>
        RouteLookupOfFields(text, f, destination);
    }
  }

  lemma RegisterOfFields(text: string, f: seq<string>, nodeId: string, lease: Duration)
    requires forall words :: SplitsInto(text, words) <==> words == f
    ensures SpellsRegister(text, nodeId, lease) <==>
            |f| == 4 && f[0] == "MESHLET/1" && f[1] == "REGISTER" && f[2] == nodeId && ParseLease(f[3]) == Some(lease)
  {
    hide SplitsInto, ParseLease, SpellsLease;
    if |f| == 4 {
      assert f == [f[0], f[1], f[2], f[3]];
      ParseLeaseExactly(f[3], lease);
    }
  }

  lemma AdvertiseOfFields(text: string, f: seq<string>, nodeId: string, prefix: Ipv4Prefix, lease: Duration)
    requires forall words :: SplitsInto(text, words) <==> words == f
    ensures SpellsAdvertise(text, nodeId, prefix, lease) <==>
            && |f| == 5 && f[0] == "MESHLET/1" && f[1] == "ADVERTISE_ROUTE" && f[2] == nodeId
            && ParsePrefix(f[3]) == Some(prefix) && ParseLease(f[4]) == Some(lease)
  {
    hide SplitsInto, ParseLease, SpellsLease, ParsePrefix, SpellsPrefix;
    if |f| == 5 {
      assert f == [f[0], f[1], f[2], f[3], f[4]];
      ParsePrefixExactly(f[3], prefix);
      ParseLeaseExactly(f[4], lease);
    }
  }

  lemma RouteLookupOfFields(text: string, f: seq<string>, destination: Address)
    requires forall words :: SplitsInto(text, words) <==> words == f
    ensures SpellsRouteLookup(text, destination) <==>
            && |f| == 3 && f[0] == "MESHLET/1" && f[1] == "ROUTE_LOOKUP"
            && ParseAddress(f[2]) == Some(destination)
  {
    hide SplitsInto, ParseAddress, DottedQuad;
    if |f| == 3 {
      assert f == [f[0], f[1], f[2]];
      ParseAddressExactly(f[2], destination);
    }
  }

  /** A datagram is accepted as a learning request exactly when it is UTF-8 and spells that request. */
  lemma ParseRequestExactly(message: Bytes, r: C.Request)
    ensures ParseRequest(message) == Some(r) <==> exists text :: Utf8(text) == message && SpellsRequest(text, r)
  {
    hide FromUtf8, SpellsRequest;
    if ParseRequest(message) == Some(r) {
      RequestIsText(message);
      var text := FromUtf8(message).value;
      FromUtf8Exactly(message, text);
      RequestOfText(text, r);
    }
    if text :| Utf8(text) == message && SpellsRequest(text, r) {
      RequestOfText(text, r);
    }
  }

  lemma RequestIsText(message: Bytes)
    ensures ParseRequest(message).Some? ==> FromUtf8(message).Some?
    ensures ParseAuthRequest(message).Some? ==> FromUtf8(message).Some?
  {
    hide FromUtf8, Fields;
  }

  ghost predicate SpellsAuthRegister(text: string, nodeId: string, lease: Duration, challenge: Bytes32, signature: Signature) {
    exists number, value, sealed ::
      && SplitsInto(text, ["MESHLET/2", "REGISTER", nodeId, number, value, sealed])
      && SpellsLease(number, lease) && Spells(32, value, challenge) && Spells(64, sealed, signature)
  }

  /** The words of an authenticated request, apart from the whitespace between them. */
  ghost predicate SpellsAuthRequest(text: string, r: AuthRequest) {
    && ValidNodeId(r.nodeId)
    && match r
       case AuthChallenge(nodeId) => SplitsInto(text, ["MESHLET/2", "CHALLENGE", nodeId])
       case AuthRegister(nodeId, lease, challenge, signature) =>
         SpellsAuthRegister(text, nodeId, lease, challenge, signature)
       case AuthLookup(nodeId) => SplitsInto(text, ["MESHLET/2", "LOOKUP", nodeId])
  }

  lemma AuthRegisterOfFields(text: string, f: seq<string>, nodeId: string, lease: Duration, challenge: Bytes32,
                             signature: Signature)
    requires forall words :: SplitsInto(text, words) <==> words == f
    ensures SpellsAuthRegister(text, nodeId, lease, challenge, signature) <==>
            && |f| == 6 && f[0] == "MESHLET/2" && f[1] == "REGISTER" && f[2] == nodeId
            && ParseLease(f[3]) == Some(lease)
            && HexBytes(32, f[4]) == Some(challenge) && HexBytes(64, f[5]) == Some(signature)
  {
    hide SplitsInto, ParseLease, SpellsLease, HexBytes, Spells;
    if |f| == 6 {
      assert f == [f[0], f[1], f[2], f[3], f[4], f[5]];
      ParseLeaseExactly(f[3], lease);
      HexBytesExactly(32, f[4], challenge);
      HexBytesExactly(64, f[5], signature);
    }
  }

  lemma AuthRequestOfText(text: string, r: AuthRequest)
    ensures ParseAuthRequest(Utf8(text)) == Some(r) <==> SpellsAuthRequest(text, r)
  {
    hide Utf8, FromUtf8, Fields, SplitsInto, ParseLease, SpellsLease, HexBytes, Spells, ValidNodeId;
    Utf8RoundTrip(text);
    var f := Fields(text);
    FieldsExactly(text, f);
    forall words | SplitsInto(text, words)
      ensures words == f
    {
      FieldsExactly(text, words);
    }
    if r.AuthRegister? {
      AuthRegisterOfFields(text, f, r.nodeId, r.lease, r.challenge, r.signature);
    } else if |f| == 3 {
      assert f == [f[0], f[1], f[2]];
    }
  }

  /** A datagram is accepted as an authenticated request exactly when it is UTF-8 and spells that request. */
  lemma ParseAuthRequestExactly(message: Bytes, r: AuthRequest)
    ensures ParseAuthRequest(message) == Some(r) <==> exists text :: Utf8(text) == message && SpellsAuthRequest(text, r)
  {
    hide FromUtf8, SpellsAuthRequest;
    if ParseAuthRequest(message) == Some(r) {
      RequestIsText(message);
      var text := FromUtf8(message).value;
      FromUtf8Exactly(message, text);
      AuthRequestOfText(text, r);
    }
    if text :| Utf8(text) == message && SpellsAuthRequest(text, r) {
      AuthRequestOfText(text, r);
    }
  }

  /** A response is read as a challenge exactly when it is one for the expected node, in this protocol. */
  lemma ParseChallengeResponseExactly(response: string, expected: string, challenge: Bytes32)
    ensures ParseChallengeResponse(response, expected) == Some(challenge) <==>
            exists value :: SplitsInto(response, ["MESHLET/2", "CHALLENGE", expected, value]) && Spells(32, value, challenge)
  {
    hide Fields, SplitsInto, HexBytes, Spells;
    var f := Fields(response);
    FieldsExactly(response, f);
    if |f| == 4 {
      assert f == [f[0], f[1], f[2], f[3]];
      HexBytesExactly(32, f[3], challenge);
    }
    forall value | SplitsInto(response, ["MESHLET/2", "CHALLENGE", expected, value])
      ensures f == ["MESHLET/2", "CHALLENGE", expected, value]
    {
      FieldsExactly(response, ["MESHLET/2", "CHALLENGE", expected, value]);
    }
  }

  /** The words of a client hello. */
  ghost predicate SpellsClientHello(text: string, hello: ClientHello) {
    && ValidNodeId(hello.initiatorId) && ValidNodeId(hello.responderId)
    && exists key, sealed ::
         && SplitsInto(text, ["MESHLET/3", "CLIENT_HELLO", hello.initiatorId, hello.responderId, key, sealed])
         && Spells(32, key, hello.exchangePublic) && Spells(64, sealed, hello.signature)
  }

  lemma ParseClientHelloExactly(text: string, hello: ClientHello)
    ensures ParseClientHello(text) == Some(hello) <==> SpellsClientHello(text, hello)
  {
    hide Fields, SplitsInto, HexBytes, Spells, ValidNodeId;
    var f := Fields(text);
    FieldsExactly(text, f);
    if |f| == 6 {
      assert f == [f[0], f[1], f[2], f[3], f[4], f[5]];
      HexBytesExactly(32, f[4], hello.exchangePublic);
      HexBytesExactly(64, f[5], hello.signature);
    }
    forall key, sealed |
        SplitsInto(text, ["MESHLET/3", "CLIENT_HELLO", hello.initiatorId, hello.responderId, key, sealed])
      ensures f == ["MESHLET/3", "CLIENT_HELLO", hello.initiatorId, hello.responderId, key, sealed]
    {
      FieldsExactly(text, ["MESHLET/3", "CLIENT_HELLO", hello.initiatorId, hello.responderId, key, sealed]);
    }
  }

  /** The words of a server hello. */
  ghost predicate SpellsServerHello(text: string, hello: ServerHello) {
    && ValidNodeId(hello.initiatorId) && ValidNodeId(hello.responderId)
    && exists clientKey, serverKey, sealed ::
         && SplitsInto(text, ["MESHLET/3", "SERVER_HELLO", hello.initiatorId, hello.responderId,
                              clientKey, serverKey, sealed])
         && Spells(32, clientKey, hello.clientExchangePublic) && Spells(32, serverKey, hello.serverExchangePublic)
         && Spells(64, sealed, hello.signature)
  }

  lemma ParseServerHelloExactly(text: string, hello: ServerHello)
    ensures ParseServerHello(text) == Some(hello) <==> SpellsServerHello(text, hello)
  {
    hide Fields, SplitsInto, HexBytes, Spells, ValidNodeId;
    var f := Fields(text);
    FieldsExactly(text, f);
    if |f| == 7 {
      assert f == [f[0], f[1], f[2], f[3], f[4], f[5], f[6]];
      HexBytesExactly(32, f[4], hello.clientExchangePublic);
      HexBytesExactly(32, f[5], hello.serverExchangePublic);
      HexBytesExactly(64, f[6], hello.signature);
    }
    forall clientKey, serverKey, sealed |
        SplitsInto(text, ["MESHLET/3", "SERVER_HELLO", hello.initiatorId, hello.responderId, clientKey, serverKey, sealed])
      ensures f == ["MESHLET/3", "SERVER_HELLO", hello.initiatorId, hello.responderId, clientKey, serverKey, sealed]
    {
      FieldsExactly(text, ["MESHLET/3", "SERVER_HELLO", hello.initiatorId, hello.responderId,
                           clientKey, serverKey, sealed]);
    }
  }
}
