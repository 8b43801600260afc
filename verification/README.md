# qoru verification model

qoru relays TCP connections over QUIC. A client opens a stream to a server and sends a
connect request; the request names a service, an egress and optionally a route; every
node on the route strips its own hop and forwards the rest; the egress dials the
service, and with E2E the client and the egress agree on keys through the relays and
exchange encrypted records. This project models that core and proves what it keeps.

| module | models |
|---|---|
| Bytes, FieldLists, Frames | length-prefixed fields, counted lists, frames, streams |
| ConnectCodec, E2ECodec | every message of the wire protocol |
| Transcript | what is signed, hashed and authenticated |
| Records | the encrypted record writer and reader |
| Handshake | any number of handshakes with arbitrary message delivery |
| Policy, Relay, Responses, Access | a network of nodes: requests and answers on their way, and who gets through to a target |
| PeerSessions | the server's peer table under interleaving |
| UpstreamSession | the client's reconnecting session and its backoff |
| ProxyCopy | the two-way copy in every interleaving |
| ClientConfig, Fallback | client validation, candidates, sessions, fallback |

Codecs, the record layer, the session managers, validation and the candidate loop are
methods and classes that change buffers, maps and fields step by step, proved against
functions; the theorems are about those functions. Relays, handshakes, peer tables and
the proxy are state machines, and their theorems quantify over every run.

Strings are byte sequences. A decoded empty list and an absent one are the same value,
which is how the program treats them. A request ID is its 16 bytes, version 7 as
in section 5.7 of RFC 9562. Foreign functions come in as
parameters with a contract, and each contract is shown to be satisfiable: the cipher
(sections 2.1 and 2.2 of RFC 5116), SHA-256 without collisions, X25519 (section 6.1 of
RFC 7748), HKDF (section 2 of RFC 5869), certificate verification, and signatures that
verify exactly when the key's holder made them or the key is corrupt. Ephemeral keys
are fresh: a session that draws a key already in use does not start.

Five properties are false as one might first state them, and the exact condition is
proved instead. Record numbers repeat if a write follows a failed sink write
(`Records.NumbersUnique`). End of stream does not prove completeness, because close
frames are not sealed (`Records.ForgedCloseEndsStream`): it does exactly when the wire
has every record before its first close frame (`Records.EofCompleteExactlyWhen`). A
stream cut between a frame's header and its payload reads as a clean end, not as a
broken frame: when a read says what is stated exactly by `Records.ReadExactly`. A
refusal with code OK reads differently as a response than as a close frame
(`Responses.SameErrorEitherWay`). Half-closing can disturb the other direction exactly
when a CloseWrite closes more than the write side (`ProxyCopy.NeverFailsExactlyWhen`).

## Model

| member | source | states |
|---|---|---|
| Records.Tunnel | internal/e2e/record.go:95-202 | one writer, one reader and any wire between them, under one cipher contract (it opens exactly what the writer sealed): all bytes ever read are a prefix of all bytes written, even if the sink failed on the way; and if the writer got through and the wire is what it sent, the reads are the written bytes and then end of stream |
| Records.PrefixOfWrites | internal/e2e/record.go:95-202 | whatever was sealed of any writes, and whatever wire a reader is given (frames dropped, repeated, reordered, altered, injected, cut), reads of any sizes, reads after errors included, return a prefix of the writes |
| Records.DeliveredIsPrefix | internal/e2e/record.go:95-152 | the same in terms of the sealed chunks |
| Records.BytePipe | internal/e2e/record.go:154-202 | the unaltered stream of any writes, read with any positive sizes, gives exactly the written bytes in order, at least one byte per read, and then end of stream for ever |
| Records.ReadOnTrack | internal/e2e/record.go:95-132 | one read on the unaltered stream makes progress until every byte is out and returns end of stream from then on |
| Records.ChunksExact | internal/e2e/record.go:154-175 | a write is cut into non-empty chunks of at most 65492 bytes that concatenate to it, all but the last of them full |
| Records.RecordFits | internal/e2e/record.go:88-92 | a sealed chunk of at most 65492 bytes passes every size check of the data frame |
| Records.NumbersUnique | internal/e2e/record.go:191-202 | record numbers never repeat if and only if nothing is sealed after a frame that the sink refused |
| Records.SuffixInjective | internal/e2e/record.go:216-233 | different 64-bit record numbers give different nonces |
| Records.ForgedCloseEndsStream | internal/e2e/record.go:117-126 | the failing input: a close frame alone, or nothing, is read as end of stream and everything that was written is missing |
| Records.EofCompleteExactlyWhen | internal/e2e/record.go:95-132 | whatever arrives, the bytes before an end of stream are all that was written if and only if the wire has every record, in order, before its first close frame |
| Records.CipherExists | internal/e2e/record.go:134-152 | whatever is sealed, some cipher meets the one contract under which the record theorems are proved |
| Records.EncryptedWriter.WriteRecord | internal/e2e/record.go:191-202 | seals under the current number; the number moves on exactly when the sink accepted the frame; refused exactly at the last 64-bit number |
| Records.EncryptedWriter.Write | internal/e2e/record.go:154-175 | the byte count returned is what went through; while no sink write failed the sink holds exactly records 0, 1, 2, ... of the chunks |
| Records.EncryptedWriter.WriteAll | internal/e2e/record.go:154-175 | any list of writes up to the first error: what has been sealed by then are the first chunks of the writes, chunk i under number i |
| Records.EncryptedWriter.CloseWrite | internal/e2e/record.go:177-185 | one close frame ends the record stream, and a second call writes nothing |
| Records.EncryptedReader.OpenDataFrame | internal/e2e/record.go:134-152 | accepts only the record with the expected number, and only then moves the number on |
| Records.EncryptedReader.Read | internal/e2e/record.go:95-132 | the frame loop over the mutable reader refines the pure step that the pipe and prefix theorems are about |
| Records.EncryptedReader.ReadAll | internal/e2e/record.go:95-132 | reads of any sizes one after another are the run that the theorems are about |
| Records.ReadExactly | internal/e2e/record.go:95-132 | for every wire, reader state and buffer size: buffered bytes come first; else a read says r if and only if the first frame that is not an empty record says it: the end for a clean close or a stream that stops, exactly the code, connect code and text of any other close, the opened bytes of the next record, and failure for everything else |
| Records.OpenDataExact | internal/e2e/record.go:134-152 | a data payload opens to p if and only if it is the encoding of the record with the expected number, not the last possible one, that the cipher opens to p |
| Frames.StreamRoundTrip | internal/protocol/protocol.go:138-177 | a stream reads as a list of frames if and only if it is the concatenation of exactly those frames, each at most 65535 bytes |
| Frames.NextFrameOfWritten | internal/protocol/protocol.go:138-177 | a written frame is read back and the bytes after it are left untouched |
| Frames.WriteFrame | internal/protocol/protocol.go:138-153 | an oversized payload writes nothing; success appends the whole frame; failure appends some prefix of it |
| Frames.ReadFrame | internal/protocol/protocol.go:155-177 | refines the one-frame parser, and reports end of stream exactly when no byte stood where the header or the payload should begin |
| ConnectCodec.AcceptedPayloads | internal/protocol/protocol.go:283-366 | a payload decodes to a request if and only if the request is valid and the payload is its canonical encoding, or that less its last byte without an E2E route, or less its last two bytes with the E2E flag off as well |
| ConnectCodec.RequestRoundTrip | internal/protocol/protocol.go:179-228 | decoding undoes encoding for every valid request |
| ConnectCodec.RequestLimits | internal/protocol/protocol.go:12-15 | which requests some payload decodes to, in numbers: ID version, lengths of names, number and lengths of hops |
| ConnectCodec.ForwardedFits | internal/server/connection.go:244-246 | every accepted request with another hop passes all writer checks once its first hop is removed, and is strictly shorter than the payload it came from, legacy payloads included |
| ConnectCodec.EncodedRouteLength | internal/protocol/protocol.go:230-245 | gives the encoded length exactly for routes of at most 255 non-empty hops of at most 4096 bytes |
| ConnectCodec.MarshalRequest | internal/protocol/protocol.go:179-228 | the in-place writer succeeds exactly on valid requests and fills its buffer with exactly their encoding |
| ConnectCodec.WriteConnectRequest | internal/protocol/protocol.go:179-228 | success appends the framed encoding of a valid request, failure appends a prefix of it, and an invalid or oversized request appends nothing |
| ConnectCodec.UnmarshalRequest | internal/protocol/protocol.go:283-366 | the offset-driven reader, with every index in range, computes the parser that the exact characterisation is about |
| ConnectCodec.ReadConnectRequest | internal/protocol/protocol.go:283-292 | reads one frame and accepts it only as a connect request that parses |
| FieldLists.ReadItems | internal/protocol/protocol.go:258-281 | the route loop reads exactly the items that stand at the offset and says where they end |
| FieldLists.WriteCounted | internal/protocol/protocol.go:247-256 | the route loop writes exactly the counted list in place and leaves the rest of the buffer |
| FieldLists.CountedAtExact | internal/protocol/protocol.go:247-281 | reading a counted list succeeds with a list if and only if exactly its encoding stands there |
| Bytes.FieldAtExact | internal/protocol/protocol.go:722-738 | reading a length-prefixed field succeeds if and only if exactly that field stands there and its length is allowed |
| E2ECodec.HelloExact | internal/protocol/protocol.go:473-571 | a hello payload decodes to a hello if and only if it is the encoding of that valid hello |
| E2ECodec.MarshalHello | internal/protocol/protocol.go:473-522 | succeeds exactly on valid hellos that fit a frame and fills the buffer with their encoding |
| E2ECodec.UnmarshalHello | internal/protocol/protocol.go:535-571 | the chain loop computes the hello parser without an out-of-range read |
| E2ECodec.DataExact | internal/protocol/protocol.go:573-639 | data payloads and valid data messages are in one-to-one correspondence |
| E2ECodec.MarshalData | internal/protocol/protocol.go:573-595 | succeeds exactly on valid data and fills the buffer with its encoding |
| E2ECodec.CloseExact | internal/protocol/protocol.go:641-696 | close payloads and valid close messages are in one-to-one correspondence |
| E2ECodec.FinishedExact | internal/protocol/protocol.go:656-720 | finished payloads and valid signatures are in one-to-one correspondence |
| E2ECodec.ResponseExact | internal/protocol/protocol.go:368-428 | a response payload decodes to a response if and only if the response is normalised and valid and the payload is its encoding |
| E2ECodec.MessageLimits | internal/protocol/protocol.go:35-62 | which hellos, records, closes and responses some payload decodes to, in numbers |
| E2ECodec.WriteConnectResponse | internal/protocol/protocol.go:368-389 | success appends the framed normalised response, failure a prefix of it, and a message that does not fit appends nothing |
| E2ECodec.ReadConnectResponse | internal/protocol/protocol.go:391-428 | reads one frame and accepts it only as a response that parses |
| Transcript.TranscriptInjective | internal/e2e/handshake.go:205-270 | two transcripts have equal bytes if and only if domain, request ID, service, egress, route, client key and optional server key are all equal |
| Transcript.RecordAadInjective | internal/e2e/record.go:235-241 | two record contexts have equal associated data if and only if transcript hash and nonce suffix are equal |
| Transcript.IdTextInjective | internal/e2e/handshake.go:205-270 | different request IDs have different canonical texts |
| Transcript.MarshalTranscript | internal/e2e/handshake.go:205-270 | the appending writer succeeds exactly on valid contexts and keys and builds exactly the bytes that are injective |
| Handshake.EgressAgreement | internal/server/e2e.go:93-162 | in every run with arbitrary message delivery, an egress session with keys for an uncorrupted client certificate has a client session that signed the same request ID, service, egress, route and both ephemeral keys; the two split the key material of exactly this transcript between their directions; and the service admits the node that this very certificate names |
| Handshake.ClientAgreement | internal/client/e2e.go:66-118 | in every run, a client session that answered a hello did so under a key certified for the very service it asked for, and if that key is not corrupt an egress session of it has the same context and both ephemeral keys |
| Handshake.AtMostOneEgress | internal/server/e2e.go:93-162 | no replay: a client session agrees with at most one egress session |
| Handshake.AtMostOneClient | internal/client/e2e.go:66-118 | and an egress session with at most one client session |
| Handshake.AgreedKeys | internal/e2e/handshake.go:163-182 | sides that agree hold the two halves of what HKDF makes of their shared secret and the hash of their transcript: the client writes under the first half, where the egress reads, and reads under the second |
| Handshake.DirectionsDiffer | internal/e2e/handshake.go:179-180 | the two directions are under different keys whenever HKDF gives different halves |
| Handshake.HandshakeExactlyWhen | internal/server/e2e.go:93-162 | undisturbed, a handshake between parties whose certificates verify leaves both sides with their halves of the key material if and only if the service admits the client and the target can be dialled |
| Handshake.InvInEveryRun | internal/e2e/handshake.go:92-161 | every honest signature belongs to a session with exactly that context, and every session state is justified by verified signatures, in every reachable state |
| Handshake.DigestInjective | internal/e2e/handshake.go:184-203 | equal digests come from the same domain and the same context, so no signature serves two purposes |
| Handshake.MeetingExists | internal/e2e/handshake.go:51-75 | the contracts on foreign functions can be met by parties that verify each other and complete a handshake |
| Policy.FindServiceFirst | internal/server/policy.go:47-54 | the first service of that protocol and name is found, and none only if there is none |
| Policy.AccessRulesExactly | internal/server/policy.go:15-66 | relay clients and service users are denied if and only if there is a list and they are not on it; a routed exit needs to be on the list of peers, even an empty one |
| Relay.RequestsFollowRoutes | internal/server/connection.go:57-136 | in any network and for any route, cycles included, node i reads exactly the route suffix from i with everything else unchanged, at most as many nodes as the route names read it, and a service is reached only at the last |
| Relay.ServedExactlyWhen | internal/server/connection.go:57-136 | a request is taken by a service if and only if every node on the way admits the one before it and reaches the one after, the egress lists its previous hop as a peer, and the service takes it: by peer for plaintext, never routed plaintext to an E2E service, and for E2E subject to the handshake (Access.SetupExactlyWhen) |
| Relay.ContextSurvivesRelays | internal/server/e2e.go:101-105 | at every node on the way, with or without a route, the handshake context rebuilt from the request is the client's own |
| Relay.RoutingCodesExactlyWhen | internal/server/connection.go:71-112 | where node IDs match identities, ROUTE_INVALID, UNREACHABLE_EGRESS or UNSUPPORTED_PROTOCOL is answered if and only if the request was not well routed when it left the client |
| Relay.RejectedExactlyWhen | internal/server/connection.go:57-136 | for every code: a request is rejected with it if and only if some node on its route stops it for the reason the code stands for and every node before passes it on |
| Responses.WireTripExact | internal/protocol/protocol.go:368-428 | one trip normalises a response (success is code OK, a failure with code OK becomes an internal error, all else is kept), normalising is idempotent, and a response is lost exactly when its message is too long or its code unknown |
| Responses.ClientReadsLastFitting | internal/server/connection.go:224-274 | through any number of relays the client reads exactly the answer of the last node on the way whose text fits a frame, and nothing if none does |
| Responses.ClientReadsFinalAnswer | internal/server/connection.go:252-268 | so it reads the answer of the node where the request ended, unchanged, whenever that text fits |
| Responses.OutcomeCodes | internal/server/connection.go:57-136 | every request that parses ends at a service or in a known error code |
| Responses.SameErrorEitherWay | internal/client/client.go:230-235 | refusing by response or by close frame gives the client the same error and retry decision if and only if the code is not OK |
| Responses.HelloOrCloseExact | internal/client/e2e.go:120-137 | the client goes on with a hello, or gets a close, if and only if the stream begins with the frame of exactly that valid message |
| Access.SetupExactlyWhen | internal/server/connection.go:86-136 | the whole setup: a client gets through if and only if every node on the way lets its request through, the service admits it (the previous hop in plaintext, the client proved in the handshake with E2E) and the target answers; after a failure it may try elsewhere if and only if something was unreachable, never after a denial |
| Access.SetupCodeExactlyWhen | internal/server/connection.go:318-335 | which error, exactly: rejected with a code if and only if some node stops the request with it, the service refuses inside the handshake with it, or the client is admitted and the target cannot be dialled |
| Access.SetupAtService | internal/server/connection.go:174-222 | at the service, E2E ends with exactly the first refusal of certificate, access rule and dial, plaintext with the dial |
| Access.SetupRejected | internal/server/connection.go:57-136 | a request rejected on its way fails with the code of the one reason that stopped it, and no service admits it |
| Access.RefusalReachesClient | internal/server/e2e.go:187-192 | a refusal inside the handshake reaches the client as a rejection with the same code and text |
| Access.RefusalIsTheProtocols | internal/server/e2e.go:110-121 | the refusals are those of the handshake state machine: it leaves the egress with keys if and only if there is none |
| PeerSessions.OneSessionPerPeer | internal/server/peers.go:140-197 | in every interleaving only configured peers are in the table, every live connection that finished install or registration is the registered one, and all live connections ever returned for a peer are the same |
| PeerSessions.SessionsLeaveByDying | internal/server/peers.go:94-112 | no step of anybody removes or replaces a session that is alive afterwards |
| PeerSessions.DroppedIsNeverFoundAgain | internal/server/peers.go:264-271 | a returned connection that is dropped is dead and no later call in any continuation finds it |
| PeerSessions.InvInEveryRun | internal/server/peers.go:131-197 | every connection that joined or was returned is dead or registered, in every reachable state |
| PeerSessions.CheckExactly | internal/server/peers.go:140-168 | in every run a call finds the session of a peer that has a live one; otherwise the peer may be dialled if and only if it is configured with an address and the doubling wait after its failures since its last session is over; only a dead session of that peer leaves the table |
| PeerSessions.BackoffInEveryRun | internal/server/peers.go:241-262 | in every run the backoff entries are exactly what the failures since the last session say: their number and the last one plus its wait |
| PeerSessions.FinishExactly | internal/server/peers.go:180-197 | in every run a finished dial becomes the session and is returned, unless the peer has a live session: then that one is returned and the dialled one closed |
| PeerSessions.RegisterExactly | internal/server/peers.go:94-112 | an inbound connection becomes the session of a configured peer without a live one, and is closed if there is another |
| PeerSessions.EndingsExactly | internal/server/peers.go:131-138 | a drop ends exactly the connection it names; closing the table ends every session and leaves none |
| PeerSessions.DialMakesSession | internal/server/peers.go:140-197 | a peer that may be dialled gets a session if its dial succeeds, and later calls find it until it dies |
| PeerSessions.PeerTable.CheckSession | internal/server/peers.go:140-168 | the first section of connection() on the mutable maps refines the atomic check step |
| PeerSessions.PeerTable.InstallDialed | internal/server/peers.go:180-197 | the section after the dial: the first live session wins and the loser is closed |
| PeerSessions.PeerTable.RegisterInbound | internal/server/peers.go:94-112 | an inbound connection is registered only for a configured peer without a live session |
| PeerSessions.PeerTable.RecordDialFailure | internal/server/peers.go:241-258 | counts the failure and sets the next dial time by the backoff table |
| PeerSessions.PeerTable.DropConn | internal/server/peers.go:264-271 | closes and removes exactly the given connection |
| PeerSessions.PeerTable.Close | internal/server/peers.go:131-138 | the loop closes every registered connection and empties the table, whatever the order |
| UpstreamSession.NoConnectionLost | internal/client/session.go:169-218 | in every run every connection ever dialled is the current one or has been closed |
| UpstreamSession.NothingAfterClose | internal/client/session.go:159-167 | after Close no continuation dials or holds a connection, and every request for one is refused |
| UpstreamSession.GetExactly | internal/client/session.go:169-218 | in every run a live connection is given as it is and nothing changes; otherwise the dead one is given up and, if the doubling wait after the last failure is over, one dial is made and its result given, and if not the end of the wait |
| UpstreamSession.EndedForAReason | internal/client/session.go:159-244 | in every run a connection is closed only while it is current and only by a request that finds it dead, a drop that names it or the end of the session |
| UpstreamSession.DropExactly | internal/client/session.go:236-244 | a drop gives up exactly the connection it names, if it is the current one |
| UpstreamSession.FailingDialsAreSpaced | internal/client/session.go:14-21 | the n-th failing dial in a row starts at least 500*(2^(n-1)-1) ms after the first for n up to 7, and at least 31500+16000*(n-7) ms from then on |
| UpstreamSession.InvInEveryRun | internal/client/session.go:159-244 | failure count, next dial time and current connection always match the history of dials |
| UpstreamSession.ReconnectingSession.Connection | internal/client/session.go:169-218 | the method on the mutable session refines the step that the run theorems are about |
| UpstreamSession.ReconnectingSession.RecordDialFailure | internal/client/session.go:220-228 | the next dial waits for the delay of the failures so far |
| UpstreamSession.ReconnectingSession.Drop | internal/client/session.go:236-244 | ends exactly the given connection, if it is still the current one |
| UpstreamSession.ReconnectingSession.Close | internal/client/session.go:159-167 | marks the session closed and ends its connection |
| ProxyCopy.ProxySafety | internal/proxyio/proxy.go:27-73 | in every interleaving each target got a prefix of what its source gave, abort ran at most once and only after an error, closing happens only after both directions ended, and nil is returned exactly when neither direction failed, both sources then ended and delivered in full |
| ProxyCopy.ErrorsTell | internal/proxyio/proxy.go:59-73 | the error of a direction names it, and is a close error only if everything had been delivered; the caller gets the error of the direction it names |
| ProxyCopy.FaultFreeRunsDeliver | internal/proxyio/proxy.go:21-26 | with CloseWrite closing only the write side and nothing breaking by itself, no loop ever finds its source or target closed by the other direction, no read, write or half-close can fail, nothing is aborted, and both directions arrive complete |
| ProxyCopy.NeverFailsExactlyWhen | internal/proxyio/proxy.go:87-92 | fault-free runs never fail if and only if both CloseWrites close only the write side: the fallback that closes the whole connection loses the response |
| ProxyCopy.AbortFreesCaller | internal/proxyio/proxy.go:27-73 | after an abort, whatever sources and targets do or leave undone, at most eleven more steps of the proxy can happen and one always can until the caller has returned |
| ProxyCopy.ReturnsExactlyWhen | internal/proxyio/proxy.go:27-73 | once the proxy has done all it can, the caller has returned if and only if something failed and was aborted, or both sources ended and each target takes all that its source gave |
| ProxyCopy.FaultFreeReturnsExactlyWhen | internal/proxyio/proxy.go:27-73 | without faults the caller returns if and only if both sources end and both targets take everything; a silent source keeps it waiting |
| ProxyCopy.ComesToRest | internal/proxyio/proxy.go:59-73 | without news from outside only a bounded number of steps can happen |
| ClientConfig.ValidateClient | internal/config/validate.go:29-83 | accepts a configuration if and only if it meets the declarative definition of a valid client configuration |
| ClientConfig.ValidateServers | internal/config/validate.go:217-232 | gives the servers by ID if and only if all are complete and no ID repeats |
| ClientConfig.ValidateServiceRoutes | internal/config/validate.go:139-190 | accepts if and only if every service route is valid and no service has two, the joined key notwithstanding |
| ClientConfig.ValidateForwardRoute | internal/config/validate.go:110-131 | accepts if and only if the route is absent, or short, named, starting at a configured server and ending at the egress |
| ClientConfig.ValidateForward | internal/config/validate.go:45-82 | the checks of one forward accept exactly the valid ones |
| ClientConfig.BuildResolver | internal/client/routes.go:21-27 | the loop builds the table whose entries are characterised below |
| ClientConfig.ResolverHoldsLast | internal/client/routes.go:21-27 | a service is in the table if and only if some route names it, and its entry is the last such route |
| ClientConfig.ResolveCandidates | internal/client/routes.go:29-46 | the appending loop gives the candidate list that the theorems below are about |
| ClientConfig.CandidatesExactly | internal/client/routes.go:29-63 | the candidates are the forward itself or, in order, the entries of the last service route naming its service; each requires E2E if and only if the mode is always, or auto and its own route has more than one hop |
| ClientConfig.RequestsExactly | internal/client/stream.go:77-92 | for every accepted configuration, forward and candidate: to which server the request goes and what it says, field by field, with the E2E flag and route exactly as the mode asks |
| ClientConfig.NewSessions | internal/client/session.go:35-52 | a session per server ID, and a default exactly when there is one |
| ClientConfig.SessionsExactly | internal/client/session.go:35-52 | every configured server has its own session, and there is a default if and only if it is alone |
| ClientConfig.RoutableExactlyWhen | internal/client/session.go:72-106 | a candidate selects a session whose server is where its request must start, if and only if its hops, first hop and egress fit the configured servers |
| ClientConfig.RoutingChecksExact | internal/config/validate.go:66-81 | validation rejects a forward for its routing if and only if some candidate of it could not be sent to the right place |
| ClientConfig.AcceptedForwardsWork | internal/config/validate.go:29-83 | for every accepted configuration and forward there is a candidate; each selects an existing session, keeps its egress, is well routed, and has a service CA if it needs E2E |
| ClientConfig.AcceptedRequestsTravel | internal/client/session.go:72-85 | no request of an accepted configuration is ever answered with a routing code in a network whose node IDs match, and the egress rebuilds the candidate's handshake context |
| ClientConfig.AcceptedRequestsFit | internal/client/stream.go:83-92 | the request of an accepted candidate is written if and only if its names are at most 4096 bytes each, and then always fits a frame |
| Fallback.HandleLocalConnection | internal/client/client.go:156-205 | the candidate loop produces exactly the events that the run theorems are about |
| Fallback.OpenTCPStream | internal/client/session.go:137-157 | the reconnecting open produces exactly the requests, refusals and error of its two-try specification |
| Fallback.OpenExactly | internal/client/session.go:137-157 | a stream is open if and only if the first contact accepted, or had a connection, came to nothing without a refusal and the second accepted; refused with exactly the code and text of the one that declined; and the request is sent on every contact that gets a stream |
| Fallback.AttemptExactly | internal/client/client.go:170-197 | a candidate succeeds if and only if it has a session, its request is accepted, and where it requires E2E there is a runtime and the handshake completes |
| Fallback.TryCandidate | internal/client/client.go:170-197 | one round of the loop: open, handshake if required, proxy |
| Fallback.OpenShape | internal/client/session.go:137-157 | at most two requests per candidate, a refusal is always the last thing, and an open stream means a request was the last thing |
| Fallback.TriedIsExactPrefix | internal/client/client.go:170-204 | the candidates tried are a prefix of the list; all but the last failed retryably; the client stops early only after a success, a final refusal or cancellation |
| Fallback.TriedExactlyWhen | internal/client/client.go:198-204 | candidate k is tried if and only if every one before it failed, the client was not being stopped, and any refusal was for something unreachable |
| Fallback.EncryptedExactlyWhen | internal/client/client.go:170-197 | in every run of an accepted client, requests carry the E2E flag and payload is proxied encrypted if and only if the forward's mode asks for it on that candidate's route |
| Fallback.EveryRunOrderly | internal/client/client.go:156-205 | in every run requests go out in candidate order, at most two each, none after a refusal, each the configured one; the payload is proxied at most once, at the very end, encrypted if and only if E2E is required |
| Fallback.ProxiedExactlyWhen | internal/client/client.go:156-205 | the client proxies on candidate k if and only if k succeeds and all before it failed retryably |
| Fallback.FirstWorkingCandidate | internal/client/client.go:156-268 | in any network, an accepted client proxies on candidate k if and only if k gets through to its target (handshake and dial included) and every candidate before it got nowhere: no server, an unreachable hop or target, a request that cannot be written; no denial, by response or in the handshake, is ever stepped over |
| Fallback.AttemptOverNetwork | internal/client/client.go:170-204 | a candidate of an accepted configuration succeeds if and only if its request gets through, and lets the client move on if and only if it gets nowhere |
| Fallback.NetworkClientInNetwork | internal/client/client.go:156-205 | such clients exist for every configuration, forward and network whose node IDs match |

## Left out

- QUIC, TCP and TLS dialling and listening, contexts, timers, goroutine shutdown waits: only "alive or dead", "accepted or failed" and "stopped or not" are modelled.
- The insides of AES-GCM, X25519, HKDF, SHA-256, certificate chains and signature algorithms: contracts only.
- Parsing of request ID text: IDs are 16 bytes and the transcript uses their canonical text.
- Secrecy of the traffic keys: the handshake theorems are about agreement.
- Failures of the random source (request ID and ephemeral key generation): they end an attempt before anything is sent.
- ValidateServer, the peer list checks and the service certificate cache: linear checks without a property across operations.
- ConnectAll and the loop that keeps dialled peers connected: callers of the session operations that are modelled.
- Time in the server's peer backoff: the entries are modelled, a spacing bound is proved for the client only, because the server lets dials of one peer overlap.
- ClientConfig.ValidateClient: the host:port syntax of a listen address is a parameter; error texts are not modelled, only acceptance.
- Fallback.FirstWorkingCandidate: assumes that nodes that are there can be dialled, no frame is lost, certificates verify, answers fit their frames and the client is not stopped; the theorems before it in that module assume none of this.
- Access.SetupExactlyWhen: assumes the same of frames, certificates and answers; certificates that do not verify are covered by the handshake theorems only.
- ProxyCopy.ComesToRest: an endpoint's blocking is modelled by what has arrived and how much it takes, not by time.
- Frames.WriteFrame: which part of the bytes a failing sink lets through is left open.
- Server accept backoff, CLI, YAML loading, path resolution, logging, UDP services and planned features described only in documents.
