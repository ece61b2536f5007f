/** Numbered, directional, authenticated packets (src/secure_packet.rs). */
module SecurePacket {
  import opened Base

  const MAGIC: Bytes := [0x4D, 0x53, 0x48, 0x33]
  const HEADER_BYTES: nat := 13
  const AUTHENTICATION_TAG_BYTES: nat := 16

  datatype Direction = ClientToServer | ServerToClient

  /** `Direction::wire_value`. */
  function WireValue(d: Direction): byte {
    match d case ClientToServer => 0 case ServerToClient => 1
  }

  /** `Direction::from_wire`. */
  function FromWire(value: byte): Option<Direction> {
    if value == 0 then Some(ClientToServer)
    else if value == 1 then Some(ServerToClient)
    else None
  }

  /** An authenticated cipher: key, nonce, associated data, text. `encrypt` may refuse a text. */
  datatype Aead = Aead(
    encrypt: (Bytes32, Bytes, Bytes, Bytes) -> Option<Bytes>,
    decrypt: (Bytes32, Bytes, Bytes, Bytes) -> Option<Bytes>)

  /** ChaCha20-Poly1305 decrypts exactly what it encrypts; its tag adds sixteen bytes. */
  ghost predicate Tidy(aead: Aead) {
    && (forall k, n, a, m, c :: aead.decrypt(k, n, a, c) == Some(m) <==> aead.encrypt(k, n, a, m) == Some(c))
    && (forall k, n, a, m :: var r := aead.encrypt(k, n, a, m);
          r.Some? ==> |r.value| == |m| + 16)
  }

  /** The visible header: marker, direction, big-endian packet number. */
  function Header(d: Direction, number: u64): (h: Bytes)
    ensures |h| == HEADER_BYTES
  {
    MAGIC + [WireValue(d)] + BigEndian(number, 8)
  }

  /** The nonce: direction, three zero bytes, big-endian packet number. */
  function Nonce(d: Direction, number: u64): (n: Bytes)
    ensures |n| == 12
  {
    [WireValue(d), 0, 0, 0] + BigEndian(number, 8)
  }

  /** `packet_header`: a zeroed array filled in three pieces. */
  method PacketHeader(d: Direction, number: u64) returns (header: array<byte>)
    ensures fresh(header) && header[..] == Header(d, number)
  {
    header := new byte[HEADER_BYTES](_ => 0);
    var numberBytes := BigEndian(number, 8);
    forall i | 0 <= i < |MAGIC| {
      header[i] := MAGIC[i];
    }
    header[4] := WireValue(d);
    forall i | 5 <= i < HEADER_BYTES {
      header[i] := numberBytes[i - 5];
    }
  }

  /** `packet_nonce`: a zeroed array filled in two pieces. */
  method PacketNonce(d: Direction, number: u64) returns (nonce: array<byte>)
    ensures fresh(nonce) && nonce[..] == Nonce(d, number)
  {
    nonce := new byte[12](_ => 0);
    var numberBytes := BigEndian(number, 8);
    nonce[0] := WireValue(d);
    forall i | 4 <= i < 12 {
      nonce[i] := numberBytes[i - 4];
    }
  }

  /** The packet that carries a plaintext under a number; the last number is never used. */
  function SealAt(aead: Aead, key: Bytes32, d: Direction, number: u64, plaintext: Bytes): Option<Bytes> {
    if number == U64_MAX then None
    else
      match aead.encrypt(key, Nonce(d, number), Header(d, number), plaintext)
      case None => None
      case Some(ciphertext) => Some(Header(d, number) + ciphertext)
  }

  datatype Sealed = Sealed(plaintext: Bytes, packet: Bytes)

  /** Every packet of a log is the seal of its plaintext under its position. */
  ghost predicate IsSealLog(aead: Aead, key: Bytes32, d: Direction, log: seq<Sealed>) {
    && |log| <= U64_MAX
    && forall i | 0 <= i < |log| :: SealAt(aead, key, d, i, log[i].plaintext) == Some(log[i].packet)
  }

  class PacketSender {
    const aead: Aead
    const key: Bytes32
    const direction: Direction
    var nextPacketNumber: u64
    ghost var sealed: seq<Sealed>

    ghost predicate Valid()
      reads this
    {
      nextPacketNumber == |sealed| && IsSealLog(aead, key, direction, sealed)
    }

    constructor (aead: Aead, key: Bytes32, direction: Direction)
      ensures Valid() && sealed == []
      ensures this.aead == aead && this.key == key && this.direction == direction
    {
      this.aead, this.key, this.direction := aead, key, direction;
      nextPacketNumber := 0;
      sealed := [];
    }

    /** Encrypts under the next number; a failure changes nothing. */
    method Seal(plaintext: Bytes) returns (packet: Option<Bytes>)
      requires Valid()
      modifies this
      ensures Valid()
      ensures packet == SealAt(aead, key, direction, old(nextPacketNumber), plaintext)
      ensures sealed == if packet.Some? then old(sealed) + [Sealed(plaintext, packet.value)] else old(sealed)
      ensures old(nextPacketNumber) == 18_446_744_073_709_551_615 ==> packet.None?
    {
      var number := nextPacketNumber;
      if number == U64_MAX {
        return None;
      }
      var header := PacketHeader(direction, number);
      var nonce := PacketNonce(direction, number);
      var ciphertext := aead.encrypt(key, nonce[..], header[..], plaintext);
      if ciphertext.None? {
        return None;
      }
      nextPacketNumber := number + 1;
      packet := Some(header[..] + ciphertext.value);
      sealed := sealed + [Sealed(plaintext, packet.value)];
    }
  }

  /** What a receiver expecting `next` makes of a packet. */
  ghost predicate OpensTo(aead: Aead, key: Bytes32, d: Direction, next: u64, packet: Bytes, plaintext: Bytes) {
    SealAt(aead, key, d, next, plaintext) == Some(packet)
  }

  /** The result of `open`: the same checks, as a function of the expected number. */
  function OpenAt(aead: Aead, key: Bytes32, d: Direction, next: u64, packet: Bytes): Option<Bytes> {
    if |packet| < HEADER_BYTES + AUTHENTICATION_TAG_BYTES then None
    else if packet[..|MAGIC|] != MAGIC then None
    else if FromWire(packet[4]) != Some(d) then None
    else if FromBigEndian(packet[5..HEADER_BYTES]) != next then None
    else if next == U64_MAX then None
    else aead.decrypt(key, Nonce(d, next), packet[..HEADER_BYTES], packet[HEADER_BYTES..])
  }

  class PacketReceiver {
    const aead: Aead
    const key: Bytes32
    const direction: Direction
    var nextPacketNumber: u64

    constructor (aead: Aead, key: Bytes32, direction: Direction)
      ensures nextPacketNumber == 0
      ensures this.aead == aead && this.key == key && this.direction == direction
    {
      this.aead, this.key, this.direction := aead, key, direction;
      nextPacketNumber := 0;
    }

    /** Accepts exactly the seal, under the expected number, of the plaintext it returns;
        a rejected packet leaves the receiver as it was. */
    method Open(packet: Bytes) returns (plaintext: Option<Bytes>)
      requires Tidy(aead)
      modifies this
      ensures plaintext == OpenAt(aead, key, direction, old(nextPacketNumber), packet)
      ensures plaintext.Some? ==> OpensTo(aead, key, direction, old(nextPacketNumber), packet, plaintext.value)
      ensures plaintext.None? ==> forall p :: !OpensTo(aead, key, direction, old(nextPacketNumber), packet, p)
      ensures nextPacketNumber == old(nextPacketNumber) + (if plaintext.Some? then 1 else 0)
    {
      OpenIffSealed(aead, key, direction, nextPacketNumber, packet);
      if |packet| < HEADER_BYTES + AUTHENTICATION_TAG_BYTES {
        return None;
      }
      if packet[..|MAGIC|] != MAGIC {
        return None;
      }
      var received := FromWire(packet[4]);
      if received.None? || received.value != direction {
        return None;
      }
      var number := FromBigEndian(packet[5..HEADER_BYTES]);
      if number != nextPacketNumber {
        return None;
      }
      if number == U64_MAX {
        return None;
      }
      var nonce := PacketNonce(received.value, number);
      plaintext := aead.decrypt(key, nonce[..], packet[..HEADER_BYTES], packet[HEADER_BYTES..]);
      if plaintext.Some? {
        nextPacketNumber := number + 1;
      }
    }
  }

  // ---------- Headers and nonces ----------

  /** A header is recognised by the receiver's checks, and only a header is. */
  lemma HeaderChecks(d: Direction, number: u64, bytes: Bytes)
    requires |bytes| == HEADER_BYTES
    ensures bytes == Header(d, number) <==>
            bytes[..|MAGIC|] == MAGIC && FromWire(bytes[4]) == Some(d) && FromBigEndian(bytes[5..]) == number
  {
    U64Pow();
    BigEndianRoundTrip(number, 8);
    var h := Header(d, number);
    assert h[..4] == MAGIC && h[4] == WireValue(d) && h[5..] == BigEndian(number, 8);
    if bytes[..|MAGIC|] == MAGIC && FromWire(bytes[4]) == Some(d) && FromBigEndian(bytes[5..]) == number {
      FromBigEndianRange(bytes[5..]);
      assert bytes == bytes[..4] + [bytes[4]] + bytes[5..];
    }
  }

  /** Eight bytes, the most significant first, that denote the number. */
  ghost predicate IsPacketNumber(bs: Bytes, number: int) {
    && |bs| == 8
    && number == At(bs, 7) + 256 * At(bs, 6) + 65_536 * At(bs, 5) + 16_777_216 * At(bs, 4) + 4_294_967_296 * At(bs, 3)
         + 1_099_511_627_776 * At(bs, 2) + 281_474_976_710_656 * At(bs, 1) + 72_057_594_037_927_936 * At(bs, 0)
  }

  /** Thirteen bytes: `MSH3`, 0 from the client or 1 from the server, and the packet number. */
  ghost predicate IsHeader(bs: Bytes, d: Direction, number: int) {
    && |bs| == 13 && bs[0] == 0x4D && bs[1] == 0x53 && bs[2] == 0x48 && bs[3] == 0x33
    && bs[4] == (if d.ClientToServer? then 0 else 1)
    && IsPacketNumber(bs[5..], number)
  }

  /** Twelve bytes: 0 from the client or 1 from the server, three zeros, and the packet number. */
  ghost predicate IsNonce(bs: Bytes, d: Direction, number: int) {
    && |bs| == 12 && bs[0] == (if d.ClientToServer? then 0 else 1) && bs[1] == 0 && bs[2] == 0 && bs[3] == 0
    && IsPacketNumber(bs[4..], number)
  }

  lemma PacketNumberExactly(bs: Bytes, number: u64)
    ensures BigEndian(number, 8) == bs <==> IsPacketNumber(bs, number)
  {
    U64Pow();
    BigEndianRoundTrip(number, 8);
    if |bs| == 8 {
      FromBigEndianOfEight(bs);
      FromBigEndianRange(bs);
    }
  }

  /** Headers and nonces byte by byte. */
  lemma LayoutExactly(d: Direction, number: u64, bs: Bytes)
    ensures Header(d, number) == bs <==> IsHeader(bs, d, number)
    ensures Nonce(d, number) == bs <==> IsNonce(bs, d, number)
  {
    hide BigEndian, IsPacketNumber;
    var header, nonce := Header(d, number), Nonce(d, number);
    assert header[5..] == BigEndian(number, 8) && nonce[4..] == BigEndian(number, 8);
    if |bs| == 13 {
      PacketNumberExactly(bs[5..], number);
      assert bs == [bs[0], bs[1], bs[2], bs[3], bs[4]] + bs[5..];
    }
    if |bs| == 12 {
      PacketNumberExactly(bs[4..], number);
      assert bs == [bs[0], bs[1], bs[2], bs[3]] + bs[4..];
    }
    PacketNumberExactly(BigEndian(number, 8), number);
  }

  /** A packet is its header, in the clear, and what the cipher makes of the plaintext under the nonce, with
      the header as associated data. The number 2^64 - 1 is never used. */
  ghost predicate IsSeal(aead: Aead, key: Bytes32, d: Direction, number: int, plaintext: Bytes, packet: Bytes) {
    number < 18_446_744_073_709_551_615 &&
    exists header, nonce, ciphertext ::
      && IsHeader(header, d, number) && IsNonce(nonce, d, number)
      && aead.encrypt(key, nonce, header, plaintext) == Some(ciphertext) && packet == header + ciphertext
  }

  lemma SealAtExactly(aead: Aead, key: Bytes32, d: Direction, number: u64, plaintext: Bytes, packet: Bytes)
    ensures SealAt(aead, key, d, number, plaintext) == Some(packet) <==> IsSeal(aead, key, d, number, plaintext, packet)
  {
    hide Header, Nonce, IsHeader, IsNonce;
    LayoutExactly(d, number, Header(d, number));
    LayoutExactly(d, number, Nonce(d, number));
    forall header, nonce | IsHeader(header, d, number) && IsNonce(nonce, d, number)
      ensures header == Header(d, number) && nonce == Nonce(d, number)
    {
      LayoutExactly(d, number, header);
      LayoutExactly(d, number, nonce);
    }
  }

  /** A receiver accepts exactly the seals under the number it expects. */
  lemma OpenAtExactly(aead: Aead, key: Bytes32, d: Direction, next: u64, packet: Bytes, plaintext: Bytes)
    requires Tidy(aead)
    ensures OpenAt(aead, key, d, next, packet) == Some(plaintext) <==> IsSeal(aead, key, d, next, plaintext, packet)
  {
    hide OpenAt, SealAt, IsSeal, Tidy;
    OpenIffSealedAs(aead, key, d, next, packet, plaintext);
    SealAtExactly(aead, key, d, next, plaintext, packet);
  }

  /** Directions and numbers determine the nonce and are determined by it. */
  lemma NonceInjective(d: Direction, n: u64, d': Direction, n': u64)
    ensures Nonce(d, n) == Nonce(d', n') <==> d == d' && n == n'
  {
    U64Pow();
    BigEndianRoundTrip(n, 8);
    BigEndianRoundTrip(n', 8);
    assert Nonce(d, n)[4..] == BigEndian(n, 8) && Nonce(d', n')[4..] == BigEndian(n', 8);
    assert Nonce(d, n)[0] == WireValue(d) && Nonce(d', n')[0] == WireValue(d');
  }

  lemma OpenIffSealedAs(aead: Aead, key: Bytes32, d: Direction, next: u64, packet: Bytes, p: Bytes)
    requires Tidy(aead)
    ensures OpenAt(aead, key, d, next, packet) == Some(p) <==> OpensTo(aead, key, d, next, packet, p)
  {
    hide Header, Nonce, FromWire, FromBigEndian, BigEndian;
    if OpensTo(aead, key, d, next, packet, p) {
      var c := aead.encrypt(key, Nonce(d, next), Header(d, next), p).value;
      assert packet == Header(d, next) + c;
      assert packet[..HEADER_BYTES] == Header(d, next) && packet[HEADER_BYTES..] == c;
    }
    if |packet| >= HEADER_BYTES {
      HeaderChecks(d, next, packet[..HEADER_BYTES]);
      assert packet[..HEADER_BYTES][..|MAGIC|] == packet[..|MAGIC|];
      assert packet[..HEADER_BYTES][5..] == packet[5..HEADER_BYTES];
      assert packet == packet[..HEADER_BYTES] + packet[HEADER_BYTES..];
    }
  }

  /** Opening succeeds exactly on the seal of some plaintext under the expected number. */
  lemma OpenIffSealed(aead: Aead, key: Bytes32, d: Direction, next: u64, packet: Bytes)
    requires Tidy(aead)
    ensures forall p :: OpenAt(aead, key, d, next, packet) == Some(p) <==> OpensTo(aead, key, d, next, packet, p)
  {
    forall p
      ensures OpenAt(aead, key, d, next, packet) == Some(p) <==> OpensTo(aead, key, d, next, packet, p)
    {
      OpenIffSealedAs(aead, key, d, next, packet, p);
    }
  }

  // ---------- One direction over an arbitrary network ----------

  datatype Link = Link(aead: Aead, key: Bytes32, direction: Direction)

  /** The sender seals, or the network hands the receiver any bytes it likes. */
  datatype ChannelEvent = Send(plaintext: Bytes) | Deliver(packet: Bytes)

  datatype Channel = Channel(sent: seq<Sealed>, accepted: seq<Bytes>)

  ghost predicate InRange(c: Channel) {
    |c.sent| <= U64_MAX && |c.accepted| <= U64_MAX
  }

  ghost function ChannelStep(link: Link, c: Channel, e: ChannelEvent): (c': Channel)
    requires InRange(c)
    ensures InRange(c')
  {
    match e
    case Send(p) =>
      (match SealAt(link.aead, link.key, link.direction, |c.sent|, p)
       case Some(packet) => c.(sent := c.sent + [Sealed(p, packet)])
       case None => c)
    case Deliver(packet) =>
      (match OpenAt(link.aead, link.key, link.direction, |c.accepted|, packet)
       case Some(p) => c.(accepted := c.accepted + [p])
       case None => c)
  }

  ghost function RunChannel(link: Link, c: Channel, events: seq<ChannelEvent>): (c': Channel)
    requires InRange(c)
    ensures InRange(c')
    decreases |events|
  {
    if events == [] then c else RunChannel(link, ChannelStep(link, c, events[0]), events[1..])
  }

  /** Ideal authenticity: what decrypts was output earlier by the sender, same nonce, header and ciphertext. */
  ghost predicate Authentic(link: Link, c: Channel, packet: Bytes)
    requires InRange(c)
  {
    OpenAt(link.aead, link.key, link.direction, |c.accepted|, packet).Some? ==>
      exists q :: 0 <= q < |c.sent|
        && Nonce(link.direction, q) == Nonce(link.direction, |c.accepted|)
        && c.sent[q].packet == packet
  }

  /** No delivery of the run is a forgery. */
  ghost predicate Unforged(link: Link, c: Channel, events: seq<ChannelEvent>)
    requires InRange(c)
    decreases |events|
  {
    events != [] ==>
      && (events[0].Deliver? ==> Authentic(link, c, events[0].packet))
      && Unforged(link, ChannelStep(link, c, events[0]), events[1..])
  }

  /** The receiver has accepted, in order, the first plaintexts the sender sealed. */
  ghost predicate InStep(link: Link, c: Channel) {
    && IsSealLog(link.aead, link.key, link.direction, c.sent)
    && |c.accepted| <= |c.sent|
    && forall k | 0 <= k < |c.accepted| :: c.accepted[k] == c.sent[k].plaintext
  }

  lemma InStepInRange(link: Link, c: Channel)
    requires InStep(link, c)
    ensures InRange(c)
  {
  }

  /** An accepted packet is the next unreceived one the sender sealed. */
  lemma DeliveryExtends(link: Link, c: Channel, packet: Bytes)
    requires Tidy(link.aead) && InStep(link, c) && Authentic(link, c, packet)
    ensures var r := OpenAt(link.aead, link.key, link.direction, |c.accepted|, packet);
            r.Some? ==> (|c.accepted| < |c.sent| && c.sent[|c.accepted|] == Sealed(r.value, packet))
  {
    var r := OpenAt(link.aead, link.key, link.direction, |c.accepted|, packet);
    if r.Some? {
      var q :| 0 <= q < |c.sent| && Nonce(link.direction, q) == Nonce(link.direction, |c.accepted|)
               && c.sent[q].packet == packet;
      NonceInjective(link.direction, q, link.direction, |c.accepted|);
      OpenIffSealed(link.aead, link.key, link.direction, q, packet);
      assert OpensTo(link.aead, link.key, link.direction, q, packet, c.sent[q].plaintext);
    }
  }

  lemma SendKeeps(link: Link, c: Channel, plaintext: Bytes)
    requires InStep(link, c)
    ensures InStep(link, ChannelStep(link, c, Send(plaintext)))
  {
    var c' := ChannelStep(link, c, Send(plaintext));
    if c' != c {
      assert forall i | 0 <= i < |c.sent| :: c'.sent[i] == c.sent[i];
    }
  }

  lemma DeliverKeeps(link: Link, c: Channel, packet: Bytes)
    requires Tidy(link.aead) && InStep(link, c) && Authentic(link, c, packet)
    ensures InStep(link, ChannelStep(link, c, Deliver(packet)))
  {
    hide OpenAt, SealAt, Nonce, IsSealLog, Authentic, Tidy;
    InStepInRange(link, c);
    DeliveryExtends(link, c, packet);
    var c' := ChannelStep(link, c, Deliver(packet));
    assert c'.sent == c.sent;
  }

  /** Every run of the channel keeps the receiver in step with the sender. */
  lemma {:induction false} RunStaysInStep(link: Link, c: Channel, events: seq<ChannelEvent>)
    requires Tidy(link.aead) && InStep(link, c) && Unforged(link, c, events)
    ensures InStep(link, RunChannel(link, c, events))
    decreases |events|
  {
    if events != [] {
      match events[0] {
        case Send(plaintext) => SendKeeps(link, c, plaintext);
        case Deliver(packet) => DeliverKeeps(link, c, packet);
      }
      RunStaysInStep(link, ChannelStep(link, c, events[0]), events[1..]);
    }
  }

  /** The genuine packets of a log, handed over in order. */
  ghost function Redelivered(log: seq<Sealed>): seq<ChannelEvent> {
    if log == [] then [] else [Deliver(log[0].packet)] + Redelivered(log[1..])
  }

  /** What the sender sealed and the receiver has not accepted. */
  ghost function Missing(c: Channel): seq<Sealed> {
    if |c.accepted| <= |c.sent| then c.sent[|c.accepted|..] else []
  }

  ghost function Plaintexts(log: seq<Sealed>): seq<Bytes> {
    seq(|log|, k requires 0 <= k < |log| => log[k].plaintext)
  }

  /** In-order prefix delivery: whatever the network drops, repeats, reorders or injects, the accepted
      plaintexts are a prefix of the sealed ones. */
  lemma {:induction false} PrefixDelivery(link: Link, c: Channel, events: seq<ChannelEvent>)
    requires Tidy(link.aead) && InStep(link, c) && Unforged(link, c, events)
    ensures var c' := RunChannel(link, c, events);
            c'.accepted <= Plaintexts(c'.sent)
  {
    RunStaysInStep(link, c, events);
    hide IsSealLog, RunChannel;
  }

  /** The packet the receiver waits for opens, whatever came before. */
  lemma NextGenuineOpens(link: Link, c: Channel)
    requires Tidy(link.aead) && InStep(link, c) && |c.accepted| < |c.sent|
    ensures var next := c.sent[|c.accepted|];
            var c' := ChannelStep(link, c, Deliver(next.packet));
            && c'.sent == c.sent && c'.accepted == c.accepted + [next.plaintext]
            && InStep(link, c')
  {
    var k := |c.accepted|;
    GenuineOpens(link, c.sent, k);
    assert Authentic(link, c, c.sent[k].packet);
    DeliverKeeps(link, c, c.sent[k].packet);
  }

  lemma GenuineOpens(link: Link, log: seq<Sealed>, k: nat)
    requires Tidy(link.aead) && IsSealLog(link.aead, link.key, link.direction, log) && k < |log|
    ensures OpenAt(link.aead, link.key, link.direction, k, log[k].packet) == Some(log[k].plaintext)
  {
    OpenIffSealed(link.aead, link.key, link.direction, k, log[k].packet);
    assert OpensTo(link.aead, link.key, link.direction, k, log[k].packet, log[k].plaintext);
  }

  lemma AllAccepted(link: Link, c: Channel)
    requires InStep(link, c)
    ensures |c.accepted| <= |c.sent|
    ensures Missing(c) == [] ==> c.accepted == Plaintexts(c.sent)
  {
  }

  lemma {:induction false} CatchUp(link: Link, c: Channel)
    requires Tidy(link.aead) && InStep(link, c)
    ensures RunChannel(link, c, Redelivered(Missing(c))) == Channel(c.sent, Plaintexts(c.sent))
    decreases |c.sent| - |c.accepted|
  {
    InStepInRange(link, c);
    AllAccepted(link, c);
    hide OpenAt, SealAt, IsSealLog, Tidy, InStep, Plaintexts, ChannelStep;
    var missing := Missing(c);
    if missing != [] {
      NextGenuineOpens(link, c);
      var c1 := ChannelStep(link, c, Deliver(missing[0].packet));
      assert missing[1..] == Missing(c1);
      CatchUp(link, c1);
      assert Redelivered(missing)[1..] == Redelivered(missing[1..]);
    }
  }

  /** No amount of junk stops the channel: handing over the missing packets in order delivers
      every plaintext that was sealed. */
  lemma JunkIsHarmless(link: Link, c: Channel, events: seq<ChannelEvent>)
    requires Tidy(link.aead) && InStep(link, c) && Unforged(link, c, events)
    ensures var c' := RunChannel(link, c, events);
            RunChannel(link, c', Redelivered(Missing(c'))) == Channel(c'.sent, Plaintexts(c'.sent))
  {
    RunStaysInStep(link, c, events);
    CatchUp(link, RunChannel(link, c, events));
  }

  // ---------- Nonces over a whole session ----------

  /** Both senders of a session, and the nonces they have used. */
  datatype Senders = Senders(client: u64, server: u64, nonces: seq<Bytes>) {
    function Count(d: Direction): u64 {
      match d case ClientToServer => client case ServerToClient => server
    }
  }

  /** One request to one of the senders; a failed seal changes nothing. */
  ghost function SendersStep(aead: Aead, keys: Direction -> Bytes32, s: Senders, d: Direction, plaintext: Bytes): Senders {
    if SealAt(aead, keys(d), d, s.Count(d), plaintext).None? then s
    else
      match d
      case ClientToServer => s.(client := s.client + 1, nonces := s.nonces + [Nonce(d, s.client)])
      case ServerToClient => s.(server := s.server + 1, nonces := s.nonces + [Nonce(d, s.server)])
  }

  ghost function RunSenders(aead: Aead, keys: Direction -> Bytes32, requests: seq<(Direction, Bytes)>): Senders {
    if requests == [] then Senders(0, 0, [])
    else
      var last := requests[|requests| - 1];
      SendersStep(aead, keys, RunSenders(aead, keys, requests[..|requests| - 1]), last.0, last.1)
  }

  /** The nonce was used before the counters reached their present values. */
  ghost predicate Used(s: Senders, nonce: Bytes) {
    exists d: Direction, k: u64 :: k < s.Count(d) && nonce == Nonce(d, k)
  }

  /** No two successful seals of a session use the same nonce, whatever the keys; every success is
      counted once, and neither count passes 2^64 - 1. */
  lemma {:induction false} NoncesNeverRepeat(aead: Aead, keys: Direction -> Bytes32, requests: seq<(Direction, Bytes)>)
    ensures var s := RunSenders(aead, keys, requests);
            && (forall i, j | 0 <= i < j < |s.nonces| :: s.nonces[i] != s.nonces[j])
            && (forall i | 0 <= i < |s.nonces| :: Used(s, s.nonces[i]))
            && |s.nonces| == s.client + s.server
            && s.client <= 18_446_744_073_709_551_615 && s.server <= 18_446_744_073_709_551_615
  {
    if requests != [] {
      var last := requests[|requests| - 1];
      NoncesNeverRepeat(aead, keys, requests[..|requests| - 1]);
      var s := RunSenders(aead, keys, requests[..|requests| - 1]);
      var s' := SendersStep(aead, keys, s, last.0, last.1);
      if s' != s {
        forall i | 0 <= i < |s.nonces|
          ensures s.nonces[i] != Nonce(last.0, s.Count(last.0)) && Used(s', s.nonces[i])
        {
          UsedIsOld(s, s.nonces[i], last.0);
          var d, k: u64 :| k < s.Count(d) && s.nonces[i] == Nonce(d, k);
          assert k < s'.Count(d);
        }
        assert s.Count(last.0) < s'.Count(last.0);
      }
    }
  }

  lemma UsedIsOld(s: Senders, nonce: Bytes, d: Direction)
    requires Used(s, nonce)
    ensures nonce != Nonce(d, s.Count(d))
  {
    var d', k: u64 :| k < s.Count(d') && nonce == Nonce(d', k);
    NonceInjective(d', k, d, s.Count(d));
  }
}
