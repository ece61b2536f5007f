# Meshlet in Dafny

Meshlet is a small Rust overlay network: a coordinator that tells nodes where their peers are, an
authenticated handshake between two nodes, an encrypted packet channel, a stateful firewall and a
one-client relay. This project models its deterministic core and proves what the protocols and tables
are for. `dafny verify dfyconfig.toml` checks everything.

## How the model is laid out

| file | models |
|---|---|
| `Base.dfy`, `Text.dfy` | bytes, UTF-8 and its exact inverse, big-endian words; fields, lines, decimal numbers, node IDs |
| `Hex.dfy`, `Identities.dfy` | hexadecimal text, authorization files, identity files (`src/identity.rs`) |
| `Prefix.dfy`, `Routes.dfy` | IPv4 prefixes and the expiring longest-prefix route table (`src/routing.rs`) |
| `Leases.dfy` | expiring tables in general: a pruned map against its whole, unpruned history |
| `Coordinator.dfy`, `Authenticated.dfy` | both coordinators (`src/coordinator.rs`) |
| `Signing.dfy`, `Wire.dfy` | signed messages and the transcript; wire messages |
| `Enrolment.dfy` | the nodes' signatures and the authenticated coordinator together |
| `SecurePacket.dfy` | packet sender and receiver, one channel over an arbitrary network |
| `Handshake.dfy`, `SecureEcho.dfy`, `Completeness.dfy` | both roles, any number of sessions over an arbitrary network, and a network that delivers |
| `Firewall.dfy`, `Relay.dfy`, `Percentile.dfy` | reply tracking, the relay, the latency percentile |

Objects the code updates in place are classes with the same fields. Each carries a ghost `history` of the
operations on it; `Valid()` ties the fields to the history, and answers are stated on the history alone,
in which nothing is ever pruned. Loops of the code are loops here.

**Time** is a natural number of nanoseconds passed by the caller. Invariants hold for any readings, and so
does the safety half of the firewall and of the authenticated coordinator; exact answers are stated for
readings that never run back (`Chronological`).

**Cryptography** is a record of functions (`Handshake.Crypto`, `SecurePacket.Aead`, `Authenticated.Trust`).
Only functional laws are required of them (`Correct`, `Tidy`): a signature made with a key verifies under
it, key agreement commutes, decryption is the exact inverse of encryption. Security is never a law of the
functions; it is a condition on a run, stated over what the honest sessions produced so far: what verifies
under an honest key was signed, signature included (`SignaturesIdeal`); what opens under a key agreed with
an honest session's exchange key was sealed (`PacketsIdeal`, `Unforged` in `SecurePacket`); exchange keys
are fresh (`Fresh`); different transcripts give different keys (`NoCollision`); no challenge is signed
before it is issued (`Enrolment.Ideal`). `Completeness.IdealRunsComplete` shows a concrete run that meets the
conditions of the agreement theorems and completes on both sides, so they are not vacuous;
`Completeness.FaithfulNetworkCompletes` shows that any two acquainted nodes complete when the network
delivers, and `Enrolment.GenuineEnrolmentSucceeds` that a known node's enrolment does.

**Byte strings on the wire** are exact: the code's texts are Dafny strings of Unicode scalar values, and
`Base.Utf8`/`Base.FromUtf8` give their bytes. Parsers accept what the code's parsers accept (runs of ASCII
whitespace, a leading `+` and leading zeros in numbers), so parsing undoes printing but not the reverse.

**Functions that contracts name** are pinned on their own. Where a method is proved equal to a function, a lemma
whose name ends in `Exactly` (or `Text`, for the signed messages) says for every input what the function
returns, in literal bytes, characters, numbers and field equalities, without calling it. Limits and constants of
the code appear in those statements, and in the predicates of the main results, as numbers.

**Main results**, hardest first: `SecureEcho.SecureEchoAgreement`, `SecureEcho.SecureRequestAgreement`,
`Routes.RouteRegistry.Lookup` with `Routes.SelectionIsAnswer` and `Routes.AnswerIsMostSpecific`,
`Enrolment.EnrolmentIsAuthentic`, `Authenticated.CoordinatorIsSafe`, `Authenticated.RegistrationsAreEntitled`,
`SecurePacket.PrefixDelivery` and `SecurePacket.JunkIsHarmless`,
`Signing.TranscriptDetermines`, `Coordinator.Registry.Handle`, `Firewall.Firewall.AllowInbound`,
`Identities.Load` with `Identities.OrderDoesNotMatter`, `Percentile.PercentileCorrectExactly`.

**Where the documentation and the code differ.** `readme.md:1076-1078` says that a malformed response never
permits relay fallback. In `src/handshake.rs:314-319` and `src/handshake.rs:663-702` a reply that is oversize
or not UTF-8 is `Unreachable`, which permits it. `Handshake.FallbackPermittedExactly` states exactly when
fallback is permitted, and `Handshake.MalformedReplyPermitsFallback` names a malformed reply that permits it.

**Two limits of the code.** The transcript does not read the names and the client key that
the server hello echoes (`src/handshake.rs:535-549`): `Signing.TranscriptDetermines` states what equal
transcripts do fix, and `Signing.TranscriptInjective` needs the echo check. The saturating product in
`percentile` (`src/main.rs:154`) makes the result wrong for some sorted samples exactly when samples times
percentage exceeds `100 * 184467440737095517`; the index stays in range.

## Model

| member | source | states |
|---|---|---|
| SecureEcho.SecureEchoAgreement | src/handshake.rs:94-402 | In any ideal run of any number of clients, servers and registrations, over a network that drops, repeats, reorders, alters and invents datagrams: if a client that trusts an honest key accepts its echo, exactly one server session has accepted this client's hello with equal transcript and keys, opened exactly its request, and sealed the echo; and that session signs with the key the client trusts |
| SecureEcho.SecureRequestAgreement | src/handshake.rs:94-402 | The other direction: if a server that trusts an honest key has answered, exactly one client session has its hello, transcript and keys and sent exactly the request it opened; and that session signs with the key the server trusts |
| SecureEcho.RunKeeps | src/handshake.rs:82-402 | Every world reached by an ideal run keeps each session's checks true and each conclusion about an honest peer backed by something that peer signed or sealed |
| SecureEcho.StepKeeps | src/handshake.rs:82-402 | One step of any kind, by any party or the network, keeps that invariant |
| SecureEcho.ServerMessageHasServer | src/handshake.rs:518-531 | A server message signed under a key comes from a server that holds the key and accepted exactly this client hello, never from a client hello or a registration signed with the same key |
| SecureEcho.ClientMessageHasClient | src/handshake.rs:504-514 | A client message signed under a key comes from a client that holds the key and sent exactly this hello |
| SecureEcho.RegistrationHasNode | src/coordinator.rs:541-552 | A registration message signed under a key comes from a node that holds the key and signed exactly this name, these lease seconds and this challenge |
| SecureEcho.ServerHoldsTrustedKey | src/handshake.rs:325-333 | The other end of a client that trusts an honest key signs with that key, not merely under the same name |
| SecureEcho.ClientHoldsTrustedKey | src/handshake.rs:101-111 | The other end of a server that trusts an honest key signs with that key |
| SecureEcho.SameTranscriptSameSession | src/handshake.rs:535-579 | Two sessions with the same transcript have the same hellos, the same shared secret and the same keys |
| SecureEcho.EchoSealerIsServer | src/secure_packet.rs:119-165 | What a client can open as an echo was sealed by a server: its own request, reflected, has the wrong direction |
| SecureEcho.RequestSealerIsClient | src/secure_packet.rs:119-165 | What a server can open as a request was sealed by a client |
| SecureEcho.RunSecureEchoServer | src/handshake.rs:82-178 | The server's steps in order send a reply and an echo exactly when the state machine of the agreement theorems does |
| SecureEcho.OnHelloReplyExactly | src/handshake.rs:314-352 | An open client takes exactly the session its handshake yields and seals its request; any other reply closes it, and it reads no second hello |
| SecureEcho.OnEchoExactly | src/handshake.rs:394-402 | A client with a session reads one echo and closes, keeping the echo exactly when it accepts it |
| SecureEcho.OnRequestExactly | src/handshake.rs:141-169 | The server answers exactly a request of at most 1024 bytes from the source of the hello that is packet zero under the client's key, with the same plaintext as packet zero under its own |
| Completeness.FaithfulNetworkCompletes | src/handshake.rs:82-402 | Whatever two nodes that know each other's keys draw, delivering their datagrams is an ideal run that completes the exchange on both sides |
| Completeness.IdealRunsComplete | src/handshake.rs:82-402 | For a concrete cryptography some ideal run completes on both sides, each side trusting an honest key |
| Completeness.HelloAccepted | src/handshake.rs:94-138 | The server accepts the genuine client hello and answers it |
| Completeness.ReplyAccepted | src/handshake.rs:314-343 | The client accepts the genuine server hello and derives the server's transcript and keys |
| Handshake.EstablishClientSession | src/handshake.rs:276-352 | The client's steps from the socket to the session, in order, send the signed hello and compute the attempt the theorems speak of, with the code's error category for every failure |
| Handshake.ReceiveServerHello | src/handshake.rs:314-352 | The steps after the hello is sent compute what the theorems speak of |
| Handshake.ClientFinishExactly | src/handshake.rs:314-343 | A session is taken exactly from a reply of at most 1024 bytes that spells a server hello with the client's own three values and a signature verifying under the key on file, with the transcript and the keys derived from it |
| Handshake.ServerAcceptExactly | src/handshake.rs:94-127 | A hello is accepted exactly when it has at most 1024 bytes, spells a client hello that names this server, and verifies under the key on file; every field of the answer |
| Handshake.ServerSessionExactly | src/handshake.rs:129-133 | The server's session comes from agreement with the client's exchange key over the transcript of the two hellos |
| Handshake.DeriveSessionKeysExactly | src/handshake.rs:553-579 | Keys exist exactly for a secret with a nonzero byte; each is the expansion, salted with the transcript's hash, under the label of its own direction |
| Handshake.SessionKeysAreDirectional | src/handshake.rs:553-579 | Where hash and expansion do not collide, keys of opposite directions always differ, and keys of one direction are equal exactly for equal secrets and transcripts |
| Handshake.SealedRequestExactly | src/handshake.rs:386-389 | The request is the learning text as packet zero under the client's key |
| Handshake.AcceptsEchoExactly | src/handshake.rs:394-402 | The echo accepted is exactly the learning text as packet zero under the server's key, in at most 1024 bytes |
| Handshake.AnswerExactly | src/handshake.rs:152-160 | A request is answered exactly when it is packet zero under the client's key, with the same plaintext sealed as packet zero under the server's |
| Handshake.CompleteClientExchange | src/handshake.rs:356-402 | A fresh sender and receiver complete exactly on the seal of the learning message and an echo that opens to it |
| Handshake.AnswerRequest | src/handshake.rs:152-169 | A fresh receiver and sender answer exactly what opens as packet zero, with its plaintext sealed as packet zero |
| Handshake.FallbackPermittedExactly | src/handshake.rs:276-343 | A relay attempt is permitted exactly when the peer could not be selected, the hello not sent, no reply came, or it was oversize or no UTF-8; the error is local exactly when the socket was not bound or got no timeout |
| Handshake.MalformedReplyPermitsFallback | src/handshake.rs:663-702 | The one-byte reply 0xFF permits a relay attempt, against the documentation |
| SecurePacket.PrefixDelivery | src/secure_packet.rs:71-165 | Under any network behaviour the accepted plaintexts are a prefix of those the sender sealed |
| SecurePacket.RunStaysInStep | src/secure_packet.rs:71-165 | Every run keeps the sealed log genuine and the accepted plaintexts equal to its first ones |
| SecurePacket.JunkIsHarmless | src/secure_packet.rs:119-165 | After any run the missing genuine packets, handed over in order, deliver every sealed plaintext |
| SecurePacket.CatchUp | src/secure_packet.rs:119-165 | From any state in step, the unreceived packets in order are all accepted |
| SecurePacket.DeliveryExtends | src/secure_packet.rs:119-165 | An accepted packet is the next unreceived one the sender sealed, with its plaintext |
| SecurePacket.OpenIffSealed | src/secure_packet.rs:71-165 | Opening yields a plaintext exactly when the packet is its seal under the expected number, direction and key |
| SecurePacket.SealAtExactly | src/secure_packet.rs:71-96 | A packet is the header and the ciphertext under the nonce with the header as associated data, for every number below 2^64 - 1 and no other |
| SecurePacket.OpenAtExactly | src/secure_packet.rs:119-165 | A receiver accepts exactly those packets under the number it expects |
| SecurePacket.LayoutExactly | src/secure_packet.rs:170-185 | Headers and nonces byte by byte: marker, 0 or 1 for the direction, zeros, and the number in eight bytes |
| SecurePacket.NonceInjective | src/secure_packet.rs:180-185 | Nonces are equal exactly for equal directions and numbers |
| SecurePacket.NoncesNeverRepeat | src/secure_packet.rs:71-96 | In any run of both senders no two successful seals use the same nonce, whatever the keys, and each side seals at most 2^64 - 1 times |
| SecurePacket.HeaderChecks | src/secure_packet.rs:119-145 | The receiver's checks accept exactly the header of the expected direction and number |
| SecurePacket.PacketSender.Seal | src/secure_packet.rs:71-96 | The packet is the seal under the next number, the number is used once, and a failure changes nothing |
| SecurePacket.PacketReceiver.Open | src/secure_packet.rs:119-165 | Accepts exactly the seal of the plaintext it returns; a rejected packet leaves the receiver unchanged |
| SecurePacket.PacketHeader | src/secure_packet.rs:170-176 | The array filled in pieces is the marker, the direction and the big-endian number |
| SecurePacket.PacketNonce | src/secure_packet.rs:180-185 | The array filled in pieces is the direction, three zeros and the big-endian number |
| Routes.RouteRegistry.Advertise | src/routing.rs:96-111 | Pruning, removing and pushing keep the vector equal to the surviving advertisements of the whole history, the refreshed one last |
| Routes.RouteRegistry.Lookup | src/routing.rs:115-122 | The answer is what the history prescribes: the longest live prefix containing the destination, the most recent of equally long ones, and none exactly when there is none |
| Routes.RouteRegistry.RemoveExpired | src/routing.rs:126-129 | An advertisement stays, unchanged and in the old order, exactly when its deadline is later than now |
| Routes.SelectionIsAnswer | src/routing.rs:115-122 | Filter and last maximum over the pruned vector give the answer of the unpruned history |
| Routes.SurvivorsAfter | src/routing.rs:96-129 | One prune-and-update step turns the survivors of a history into the survivors of the longer history |
| Routes.MaxByLengthIsLastMaximum | src/routing.rs:118-121 | `max_by_key` picks the last of the longest prefixes |
| Routes.AnswerUnique | src/routing.rs:115-122 | The prescribed answer is unique |
| Routes.AnswerIsMostSpecific | src/routing.rs:115-122 | The selected prefix lies within every other live match, and no different prefix is as long |
| Prefix.ContainsIsInterval | src/routing.rs:20-23 | Mask membership is membership in `[network, network + 2^(32 - length))` |
| Prefix.MaskValue | src/routing.rs:69-75 | The mask is `2^32 - 2^(32 - length)` for every length, zero included |
| Prefix.MaskRoundsDown | src/routing.rs:20-23 | A masked address is the address rounded down to a multiple of the size of the prefix |
| Prefix.NestedOrDisjoint | src/routing.rs:20-23 | Two prefixes overlap exactly when the longer lies within the shorter |
| Prefix.SameLengthSameAddress | src/routing.rs:20-23 | Equally long prefixes that share an address are the same |
| Prefix.PrefixRoundTrip | src/routing.rs:35-65 | Parsing a printed prefix returns it |
| Prefix.ParsePrefixIsCanonical | src/routing.rs:45-65 | Every accepted text gives a length of at most 32 and no host bits, and reprinting it is stable |
| Prefix.AddressRoundTrip | src/routing.rs:35-49 | Parsing a printed IPv4 address returns it |
| Prefix.ParsePrefixExactly | src/routing.rs:45-65 | A text is accepted exactly when it is a dotted quad, a slash and a number of at most 32 with no address bit beyond the length; host bits are refused |
| Prefix.ParseAddressExactly | src/routing.rs:49-51 | A text is an address exactly when it is four plain decimal numbers below 256 joined by dots, as the number they denote |
| Leases.StepRepresents | src/coordinator.rs:254-258 | Pruning is invisible: one prune-and-update step keeps a table equal to its unpruned history |
| Leases.TableAnswers | src/coordinator.rs:219-232 | On a clock that never runs back the pruned table answers as the latest entry of the history does |
| Leases.TicksDoNotMatter | src/coordinator.rs:254-258 | Operations that only prune a table change none of its answers |
| Coordinator.Registry.Handle | src/coordinator.rs:197-252 | Over any interleaving of the four requests, endpoint answers depend on the registrations alone and route answers on the route requests alone |
| Coordinator.Registry.RemoveExpired | src/coordinator.rs:254-258 | A registration stays, unchanged, exactly when its deadline is later than now |
| Coordinator.LookupAnswers | src/coordinator.rs:219-232 | The pruned endpoint table answers as the registrations alone |
| Coordinator.EndpointAnswerExact | src/coordinator.rs:197-232 | An endpoint is found exactly when the node's last registration came from it and its lease is not over |
| Coordinator.RouteAnswerExact | src/coordinator.rs:229-250 | A route is found exactly as the longest live prefix containing the destination, the most recent of equally long ones, among the last advertisements for their node and prefix in all requests so far |
| Authenticated.AuthenticatedCoordinator.IssueChallenge | src/coordinator.rs:285-312 | Challenges only authorized nodes, replaces the pending challenge of that node and source, keeps every invariant |
| Authenticated.AuthenticatedCoordinator.Register | src/coordinator.rs:314-364 | The response is what the history prescribes, and the late "not authorized" branch is never taken |
| Authenticated.AuthenticatedCoordinator.ConsumeAndVerify | src/coordinator.rs:314-364 | The pending challenge is gone whatever the outcome; the registration changes only on success |
| Authenticated.AuthenticatedCoordinator.Lookup | src/coordinator.rs:368-378 | The answer is that of the successful registrations alone |
| Authenticated.AuthenticatedCoordinator.RemoveExpired | src/coordinator.rs:382-387 | A pending challenge or a registration stays, unchanged, exactly when its deadline is later than now |
| Authenticated.RegistrationsAreEntitled | src/coordinator.rs:285-364 | In every run whose attempts were answered as the history before them prescribes: every successful registration has an earlier challenge issue for the same node, source and value, less than ten seconds old, unused in between, with a valid signature on exactly this node, lease and challenge, and no other registration shares it |
| Authenticated.InjectiveCorrespondence | src/coordinator.rs:285-364 | An issue entitles at most one registration, and a registration has at most one issue |
| Authenticated.PendingIsIssue | src/coordinator.rs:285-364 | A challenge is pending exactly when it was issued for that slot, is not over, and nothing used the slot since |
| Authenticated.LawfulIsCorresponding | src/coordinator.rs:285-364 | A run whose attempts are answered one by one as `register` answers them is exactly a run in which the successful attempts are the entitled ones |
| Authenticated.OutcomeIsGrant | src/coordinator.rs:314-364 | The history prescribes success for an attempt exactly when some issue in it entitles the attempt |
| Authenticated.OutcomeExactly | src/coordinator.rs:314-364 | Each response to an attempt and exactly when: no challenge pending, another one pending, the right one but no valid signature, or success with this node, source and lease |
| Authenticated.AcceptedIsGranted | src/coordinator.rs:314-364 | On any clock, what the code accepts is entitled by the issue whose challenge was pending |
| Authenticated.AttemptCorresponds | src/coordinator.rs:314-364 | Answering an attempt as prescribed keeps the correspondence of the whole run |
| Authenticated.CoordinatorIsSafe | src/coordinator.rs:285-387 | Whatever a coordinator object was asked, on any clock, its successful registrations are entitled one to one; on a clock that never runs back each attempt was answered as the history before it prescribes |
| Authenticated.LookupExact | src/coordinator.rs:368-378 | An endpoint is found exactly when the node's last successful registration came from it and its lease is not over |
| Enrolment.EnrolmentIsAuthentic | src/coordinator.rs:285-364 | In every ideal run of nodes and coordinator over an arbitrary network, a registration that succeeds under an honest key was signed by the node that holds the key, for exactly this name, these lease seconds and this challenge, after the challenge was issued to the same source, less than ten seconds before |
| Enrolment.RunIsWitnessed | src/coordinator.rs:285-364 | Every ideal run keeps each attempt that verifies under an honest key backed by a registration signed before it, and each challenge unsigned before its issue |
| Enrolment.GenuineEnrolmentSucceeds | src/coordinator.rs:285-364 | A known node that answers its challenge within ten seconds is registered, in a run that meets all the conditions |
| Signing.RegistrationMessageInjective | src/coordinator.rs:541-552 | A registration signature fixes the node, the lease in whole seconds and the challenge |
| Signing.RegistrationMessageText | src/coordinator.rs:541-552 | The signed registration in full, the lease in whole seconds |
| Signing.ClientMessageText | src/handshake.rs:504-514 | The signed client message in full |
| Signing.ServerMessageText | src/handshake.rs:518-531 | The signed server message in full |
| Signing.ClientMessageInjective | src/handshake.rs:504-514 | A client signature fixes both names and the exchange key |
| Signing.ServerMessageInjective | src/handshake.rs:518-531 | A server signature fixes the whole client hello, its signature included, and the server's exchange key |
| Signing.MessageKindsDisjoint | src/handshake.rs:504-531 | Client, server and registration messages never coincide, whatever names are in them |
| Signing.TranscriptDetermines | src/handshake.rs:535-549 | Equal transcripts fix the client hello, the server's exchange key and its signature, and nothing else |
| Signing.TranscriptInjective | src/handshake.rs:535-591 | For server hellos that echo their client hello, equal transcripts mean equal hellos |
| Signing.HandshakeTranscript | src/handshake.rs:535-549 | The buffer built piece by piece is both messages, each followed by its signature |
| Wire.ClientHelloRoundTrip | src/handshake.rs:416-452 | Every valid client hello parses back from its datagram, which fits 1024 bytes |
| Wire.ServerHelloRoundTrip | src/handshake.rs:456-500 | Every valid server hello parses back from its datagram, which fits 1024 bytes |
| Wire.AuthRequestRoundTrip | src/coordinator.rs:465-512 | Every valid authenticated request parses back from its datagram, which fits 1024 bytes |
| Wire.ChallengeRoundTrip | src/coordinator.rs:809-828 | An encoded challenge is read back by the node it names and by no other |
| Wire.RequestRoundTrip | src/coordinator.rs:401-462 | Every valid learning request parses back from its datagram, which fits 1024 bytes |
| Wire.ParseRequestExactly | src/coordinator.rs:401-462 | A datagram is accepted as a learning request exactly when it is UTF-8 and its words are `MESHLET/1`, the request's own word, a valid node ID, and a lease, prefix or address that spells the value; everything else is refused |
| Wire.ParseAuthRequestExactly | src/coordinator.rs:465-512 | The same for authenticated requests under `MESHLET/2`, with the challenge and signature as hexadecimal |
| Wire.ParseClientHelloExactly | src/handshake.rs:428-452 | The same for client hellos under `MESHLET/3` |
| Wire.ParseServerHelloExactly | src/handshake.rs:469-500 | The same for server hellos |
| Wire.ParseChallengeResponseExactly | src/coordinator.rs:809-828 | A response is read as a challenge exactly when its words are `MESHLET/2`, `CHALLENGE`, the expected node and the challenge as hexadecimal |
| Wire.ParseLeaseExactly | src/coordinator.rs:525-537 | A lease is accepted exactly when it spells a number from 1 to 300, as that many seconds |
| Text.FieldsExactly | src/coordinator.rs:403 | Splitting yields exactly the words of a text that otherwise consists of tabs, newlines, form feeds, carriage returns and spaces |
| Text.ParseUnsignedExactly | src/coordinator.rs:525-537 | A number is accepted exactly as an optional `+`, zeros and its plain decimal form, up to the limit |
| Text.ValidNodeIdExactly | src/coordinator.rs:391-397 | A node ID is 1 to 64 ASCII letters, digits, hyphens, dots and underscores |
| Wire.LeaseRoundTrip | src/coordinator.rs:525-537 | Every lease of 1 to 300 whole seconds survives printing and parsing |
| Hex.EncodeHex | src/identity.rs:217-227 | The pushing loop writes two lowercase digits a byte, high nibble first |
| Hex.DecodeHexArray | src/identity.rs:231-244 | The filling loop returns the bytes that the digits spell, or nothing |
| Hex.HexRoundTrip | src/identity.rs:217-244 | Decoding the text of any bytes, of any length, returns them |
| Hex.HexDecodesExactly | src/identity.rs:231-258 | Decoding succeeds exactly on 2N hexadecimal digits of either case, and re-encoding lowers the case |
| Hex.HexTextExactly | src/identity.rs:217-227 | Byte by byte: the digit of the sixteens, then the digit of the ones, in lowercase |
| Hex.HexBytesExactly | src/identity.rs:231-258 | Decoding yields bytes exactly when the text is two digits of either case for each, the sixteens first |
| Identities.Load | src/identity.rs:60-109 | The line loop succeeds exactly on files whose other lines are well formed, with distinct IDs and at least one; the keys are exactly those lines; a failure names the first offending line |
| Identities.ReadLine | src/identity.rs:65-97 | One line is read in the code's order of checks, with the code's error category |
| Identities.BlankExactly | src/identity.rs:66-69 | A line is passed over exactly when it is all whitespace or its first other character is `#` |
| Identities.MeaningExactly | src/identity.rs:71-97 | Every other line: exactly which grant it makes, or which fault is reported first, in terms of its words |
| Identities.TrimExactly | src/identity.rs:66 | Trimming removes exactly the whitespace at both ends |
| Identities.IsSpaceExactly | src/identity.rs:66 | Whitespace is the 25 code points with that Unicode property |
| Identities.LinesExactly | src/identity.rs:65 | The lines are the pieces before newlines, without a final carriage return, and the rest unless it is empty |
| Identities.LoadIdentityExactly | src/identity.rs:176-198 | An identity file is accepted exactly when its words are the version, a valid ID and 64 hexadecimal digits |
| Identities.LoadIsDecided | src/identity.rs:60-109 | No file both loads and fails, and the keys it gives are unique |
| Identities.OrderDoesNotMatter | src/identity.rs:65-104 | Reordering lines changes neither whether a file loads nor the keys it gives |
| Identities.PublicFilesConcatenate | src/identity.rs:135-160 | Concatenated generated public files load exactly when there is one and no ID repeats, as exactly the keys written |
| Identities.GeneratedFilesAgree | src/identity.rs:135-195 | The two files generated for a secret load as that identity and as its public key |
| Firewall.Firewall.constructor | src/firewall.rs:99-106 | A firewall with a timeout above zero starts empty |
| Firewall.Firewall.ObserveOutbound | src/firewall.rs:110-117 | Records the reverse flow and keeps the table equal to the history |
| Firewall.Firewall.AllowInbound | src/firewall.rs:120-123 | On any clock only solicited replies pass; on a clock that never runs back exactly those whose outbound flow was seen less than the timeout ago |
| Firewall.Firewall.TrackedReplyFlows | src/firewall.rs:127-129 | After each operation the count is the number of distinct replies solicited at its time |
| Firewall.Firewall.RemoveExpired | src/firewall.rs:133-136 | A reply stays allowed, until the same deadline, exactly when the deadline is later than now |
| Firewall.TableIsLive | src/firewall.rs:110-136 | After an operation the table holds exactly the replies solicited at its time |
| Firewall.LatestOutbound | src/firewall.rs:110-117 | The latest flow to solicit a reply has the latest deadline |
| Relay.RelayState.DestinationFor | src/relay.rs:29-46 | The first source other than upstream becomes the client for good; each of the two goes to the other, and anything else is refused with the code's error |
| Relay.Run | src/relay.rs:51-82 | A run forwards unchanged payloads between one client and upstream, stops at the first fault with its cause, and completes exactly on four acceptable datagrams |
| Relay.Receive | src/relay.rs:63-70 | A datagram longer than the buffer is cut to it; nothing of an earlier one is left in what was received |
| Relay.RelayIsTransparent | src/relay.rs:63-81 | Each side's output is exactly the other side's datagrams in order, and nothing goes elsewhere |
| Relay.CompletesExactly | src/relay.rs:63-81 | Stopping before four datagrams means some datagram was missing, oversize or from a third party, or upstream spoke first |
| Percentile.RankInRange | src/main.rs:154-155 | The index is in range even when the product saturates |
| Percentile.PercentileCorrectExactly | src/main.rs:147-156 | The result is the least sample with enough samples at or below it, for all sorted samples, exactly when samples times percentage is at most 100 * 184467440737095517 |
| Base.Utf8RoundTrip | src/coordinator.rs:401-404 | Every text survives encoding to bytes and UTF-8 decoding |
| Base.FromUtf8Sound | src/coordinator.rs:401-404 | UTF-8 decoding accepts only what some text encodes to |
| Base.FromUtf8Exactly | src/coordinator.rs:401-404 | Decoding yields a text exactly when the bytes are its encoding |
| Base.Utf8CharStandard | src/coordinator.rs:401-404 | Every character is encoded as section 3 of RFC 3629 prescribes: length, lead byte and payload |

## Left out

- Sockets, timeouts, printing, process exit, command dispatch and the loops of the coordinator servers: the protocol steps take datagrams as arguments. A receive that fails or times out is `None`.
- Ed25519, X25519, SHA-256, HKDF, ChaCha20-Poly1305 and operating-system randomness: functions with the laws above; fresh values are parameters.
- File creation, permissions and reads: file contents are parameters. A file that is not UTF-8 fails before the modelled loop.
- `VerifyingKey::from_bytes` is a predicate parameter; a key is its 32 bytes.
- The range of `Instant` and the panic when a deadline falls outside it: clock readings are unbounded.
- Wire.RequestRoundTrip: covers the requests; the text of `Response` (`src/coordinator.rs:144-179`) and the remaining authenticated responses are printed for people and contain a `SocketAddr` text that is not modelled.
- Error texts, `message`, `label`, `permits_fallback` and the `Display` of flows: only error categories are kept.
- `src/tun.rs`, the TCP and UDP demonstrations, the round-trip benchmark around `percentile`, shell scripts and container stages.
- Memory limits and capacities of `Vec` and `HashMap`, and iteration order of `HashMap`, which no modelled code uses.
- A server whose derived secret is unsafe stops before it sends its signed hello; `SecureEcho` still counts the signature as made, which only gives the network more.
