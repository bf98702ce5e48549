# longsocks: a verified model

longsocks tunnels TCP and UDP through WebSockets. This project models its hard parts in Dafny and
proves what they promise: over every input for the codecs and parsers, over every interleaving
for the parts that run concurrently.

| file | models |
|---|---|
| Bytes.dfy | Go byte strings: search, split and join, decimal text |
| HostPort.dfy | target text, the host/port split, IPv4 and IPv6 address text |
| IPv6Text.dfy | the canonical text of IPv6 addresses (section 4 of RFC 5952) |
| UdpFrame.dfy | the SOCKS5 UDP datagram (section 7 of RFC 1928) and its passage through target text |
| UdpRelay.dfy | target validation and the server's UDP request loop |
| UdpTunnel.dfy | the client's two UDP goroutines, the WebSocket and the server loop, interleaved |
| MuxHeader.dfy | the stream header, its writer, and its reader over a fragmenting transport |
| MuxServer.dfy | the server's handler of a multiplexed session and its reverse listeners |
| ReverseTunnel.dfy | reverse tunnels across client and server |
| Relay.dfy | the two copiers of the bidirectional relay |
| Accounting.dfy | metrics and stats, updated by any number of connection handlers |
| Backoff.dfy | exponential backoff and the retry loop |
| SessionCache.dfy | the shared multiplexed session of the SOCKS5 client |
| TrimSpace.dfy | strings.TrimSpace on UTF-8 text |
| Auth.dfy | token directory, revocation file, authenticator chain |
| ForwardSpec.dfy | command-line forwarding specs |

Objects with fields are classes and loops are methods with invariants. The concurrent parts are
step functions: `Apply` gives the state after one step (or nothing, when the step is not enabled),
`Exec` the state after a run, and the theorems speak of every run. Choices of the environment
(chunk sizes, short writes, errors, DNS answers, arriving connections, jitter, the outcome of
every dial) are arguments of the steps or scripts of the methods, so they are arbitrary.

Some properties one might expect do not hold of the code. Each of these has its exact condition:

- A UDP reply names its request's target exactly when the request's host has none of ':', '['
  and ']' (`UdpFrame.FrameRoundTrip`); of the hosts the validation lets through, exactly when the
  host is not in square brackets (`UdpRelay.ReplyDecodes`). `UdpFrame.BracketedDomainIsLost` is a
  frame for which it fails. An IPv6 address that is not IPv4-mapped never passes the split
  (`UdpFrame.V6FrameNeverSplits`), so such frames are always dropped.
- A stream header is read back exactly for addresses of at most 4096 bytes
  (`MuxHeader.HeaderRoundTripExact`); the writer accepts longer ones and cuts their length.
- A UDP reply may go to a local client that did not ask (`UdpTunnel.ReplyMayMeetAnotherClient`):
  it goes to the sender stored last when it is aimed (`UdpTunnel.DeliveriesAnswerRequests`), and
  askers are sure of their own replies exactly when there is only one of them
  (`UdpTunnel.RepliesReachAskersExactly`).
- More than one multiplexed session can be open at once: at most one more than Opens have failed
  (`SessionCache.SessionsAreBounded`), and that many whatever the numbers of failed Opens and of
  closed sessions are (`SessionCache.BoundIsTight`).
- Delays fit an int64 exactly for intervals of up to two thirds of 2^63
  (`Backoff.DelaysFitExactly`).
- Not every subject can be revoked: exactly those can that are not empty, have fewer than 65536
  bytes and no newline, no white space at their ends and no '#' in front
  (`Auth.RevocableExactly`); "a\nb" is one that cannot (`Auth.NewlineSubjectIsNeverListed`).
- A target whose host is the literal of a loopback or unspecified address is refused exactly when
  the literal has no zone (`UdpRelay.LocalLiteralRefusedExactly`): "[::1%lo]:80" is let through
  (`UdpRelay.ZonedLoopbackIsAllowed`).

Where documentation and code differ the model follows the code: the frame parser ignores the
reserved and fragment bytes (`UdpFrame.ReadsLayout`), and a revocation file that disappears leaves
the last list in force, without an error, although the program's README says, at line 540, that the
file is watched for changes (`Auth.JwtAuthenticator.LoadRevocations`).

## Model

| member | source | states |
|---|---|---|
| Bytes.JoinOfSplit | cmd/forward.go:109-118 | joining the parts of any text gives the text back |
| Bytes.SplitOfJoin | cmd/forward.go:109-118 | splitting joined separator-free parts gives the parts back |
| HostPort.SplitOfTarget | internal/server/server.go:593-599 | for every printed target: plain hosts come back from the split, one pair of brackets is dropped, everything else is an error |
| HostPort.SplitExactly | internal/server/server.go:637-641 | a text splits into host and port if and only if it is "host:port" or "[host]:port" with no colon in the port nor in an unbracketed host and no square brackets inside either part |
| HostPort.DottedInverse | internal/server/server.go:569-603 | text reads as an IPv4 address if and only if it is that address's dotted text |
| HostPort.V6TextNotSplit | internal/server/server.go:578-599 | the text printed for any IPv6 address makes the split fail, for every port |
| IPv6Text.V6TextIsCanonical | internal/server/server.go:578-583 | the host text of a true IPv6 address is its eight groups in hexadecimal with the longest, and of those the first, run of two or more zero groups as "::" |
| IPv6Text.HexSpells | internal/server/server.go:578-583 | the hexadecimal text of a group has its value and no leading zero |
| UdpFrame.ReadsLayout | internal/server/server.go:555-596 | frames of all three address types laid out as RFC 1928 says give dotted, domain or IPv6 host, network-order port and data, whatever the reserved and fragment bytes |
| UdpFrame.ParsesExactly | internal/server/server.go:555-596 | a frame parses if and only if it is three bytes, an address of one of the three types, two port bytes and data |
| UdpFrame.PortInverse | internal/server/server.go:592-601 | every 16-bit port survives decimal text and two bytes |
| UdpFrame.BuildUDPFrame | internal/server/server.go:598-623 | the frame grown by appends is the specified one |
| UdpFrame.RoundTripExact | internal/server/server.go:555-623 | printing and parsing return target and payload if and only if the host has at most 255 bytes and none of ':', '[', ']' |
| UdpFrame.BuiltFrameNames | internal/server/server.go:598-623 | for every printed target: the built frame carries the address that the split host reads as, in its printed form, else the host itself with the port; an unsplittable target gives the empty host and port 0 |
| UdpFrame.FrameRoundTrip | internal/server/server.go:555-623 | for every frame that parses and any reply payload, the rebuilt frame carries the same target if and only if the host is free of ':', '[', ']' |
| UdpFrame.RebuildBytes | internal/server/server.go:598-623 | rebuilding keeps a domain frame byte for byte after the first three; a host spelling an IPv4 address becomes address type 1 with those octets |
| UdpFrame.FramedOctets | internal/server/server.go:565-583 | hosts from type 1 and from IPv4-mapped type 4 read back as exactly the frame's octets; no other type 4 host is plain |
| UdpFrame.V6FrameNeverSplits | internal/server/server.go:578-599 | a type 4 frame that is not IPv4-mapped yields a target no split accepts |
| UdpFrame.BracketedDomainIsLost | internal/server/server.go:571-600 | a concrete frame whose target is not preserved |
| UdpRelay.ValidateTarget | internal/server/server.go:637-670 | the checks in their order accept exactly what AllowedExactly describes |
| UdpRelay.AllowedExactly | internal/server/server.go:637-670 | a target passes if and only if it splits, its host is not "localhost" in any letter case nor one of three literals, does not read as a local address, and, when it is no address, nothing that the lookup found reads as one; a failed lookup refuses nothing |
| UdpRelay.LocalhostIsRefused | internal/server/server.go:650-655 | "localhost" in every mixture of upper and lower case is refused whatever the lookup says |
| UdpRelay.BlockedExactly | internal/server/server.go:650-655 | the names refused by folding are the letter-case variants of "localhost", the long s included, and the three literals, and no others |
| UdpRelay.IsLocalExactly | internal/server/server.go:644-647 | loopback and unspecified addresses are 127.x.x.x and 0.0.0.0 in mapped form, "::" and "::1" |
| UdpRelay.AllowedHost | internal/server/server.go:637-641 | an accepted host is plain or a bracketed one, never both |
| UdpRelay.LocalFrameRefused | internal/server/server.go:637-646 | a frame whose host, within square brackets or not, reads as a loopback or unspecified IPv4, IPv6 or mapped address is refused, and so is every type 4 frame that is not IPv4-mapped |
| UdpRelay.AddressFrameAllowedExactly | internal/server/server.go:565-583 | type 1 and mapped type 4 frames pass validation if and only if their octets are not 127.x.x.x or 0.0.0.0, other type 4 frames never, whatever a lookup says |
| UdpRelay.LocalLiteralRefusedExactly | internal/server/server.go:637-668 | a target whose host spells a loopback or unspecified address is refused if and only if there is no zone in it |
| UdpRelay.ZonedLoopbackIsAllowed | internal/server/server.go:637-668 | "[::1%lo]:80" spells a loopback address and is accepted |
| UdpRelay.RepliesFollowRequests | internal/server/server.go:337-384 | written frames answer distinct requests in request order, each built from its own request's target and reply |
| UdpRelay.ReplyDecodes | internal/server/server.go:343-381 | each written frame decodes to its own request's target and the received bytes, if and only if that host is not bracketed |
| UdpRelay.UdpHandler.Handle | internal/server/server.go:338-383 | totalTx grows by the payload when the target is allowed and took it, totalRx by the reply when one came, the frame is written when the WebSocket took it, and the loop goes on unless a reply could not be written |
| UdpRelay.LedgersExactly | internal/server/server.go:338-383 | the totals and the written frames of a run, request by request, without reference to the handler |
| UdpRelay.UdpHandler.Serve | internal/server/server.go:335-384 | messages are handled in order; the loop stops early only right after a well-formed, allowed and answered request whose reply could not be written, so with a working WebSocket it handles them all |
| UdpTunnel.DeliveriesAnswerRequests | internal/client/udp.go:95-131 | in every interleaving a local delivery answers an earlier local datagram, decodes to its target (if and only if unbracketed), and goes to the sender current when clientAddr was read |
| UdpTunnel.DeliveredOnceInOrder | internal/client/udp.go:114-131 | in every interleaving each local datagram gets at most one delivery, and deliveries come in the order of the datagrams they answer |
| UdpTunnel.RequestsArriveInOrder | internal/client/udp.go:95-112 | in every interleaving the server has handled a prefix of what the clients sent, and can handle the next datagram while it is up |
| UdpTunnel.NothingAfterALostReply | internal/server/server.go:335-384 | in every interleaving a reply that could not be written is the last thing the server does |
| UdpTunnel.NextReplyIsDelivered | internal/client/udp.go:114-131 | from every reachable state with a waiting reader and a reply not yet taken, its next three steps deliver that reply to the sender stored last |
| UdpTunnel.NoReplyWithoutClient | internal/client/udp.go:122-128 | nothing is delivered before the first local datagram, and the nil-address branch never drops a reply |
| UdpTunnel.RepliesReachAskersExactly | internal/client/udp.go:103-130 | once any exchange is answered, all runs with senders from a set of addresses deliver every reply to its asker if and only if the set has at most one address |
| UdpTunnel.SingleClient | internal/client/udp.go:103-130 | with at most one local sender every delivery goes to the client that asked |
| UdpTunnel.ReplyMayMeetAnotherClient | internal/client/udp.go:103-130 | for any answered exchange and any two senders, a run delivers the first one's reply to the second |
| MuxHeader.HeaderRoundTripExact | internal/mux/mux.go:38-62 | header plus any rest decodes to the header and leaves the rest, if and only if the address has at most 4096 bytes |
| MuxHeader.WireLayout | internal/mux/mux.go:39-43 | on the wire: command, length with its high byte first, address |
| MuxHeader.DecodedReencodes | internal/mux/mux.go:48-62 | whatever is read re-encodes to precisely the bytes consumed |
| MuxHeader.PrefixFree | internal/mux/mux.go:38-62 | no header is a prefix of another |
| MuxHeader.CutHeaderTruncated | internal/mux/mux.go:50-60 | a header cut anywhere is an error |
| MuxHeader.LongAddressRefused | internal/mux/mux.go:53-56 | lengths from 4097 to 65535 are refused whatever follows |
| MuxHeader.ReadHeader | internal/mux/mux.go:48-62 | result and bytes left over depend only on the bytes of the stream, not on how reads cut them |
| MuxHeader.WriteHeader | internal/mux/mux.go:38-45 | the filled buffer is the encoded header, and a failing writer got a proper prefix of it |
| MuxServer.WrittenStreamsAreDispatched | internal/server/server.go:438-465 | written headers with any tail are connected, listened for when allowed and possible, or closed, by command |
| MuxServer.OnlyWholeHeadersAreServed | internal/server/server.go:438-465 | a stream that is not closed began with a whole header: a connect command, or a bind command that may and can be served |
| MuxServer.MuxSession.Accept | internal/server/server.go:433-465 | an accepted stream ends up in exactly one place: closed, with handleMuxConnect (which reads on right after the header), or held open for one new listener on its address |
| MuxServer.MuxSession.AcceptLoop | internal/server/server.go:433-467 | at every loop head each accepted stream is closed, with its handler or held; held streams and reverseListeners correspond one to one in order, and no other listener was opened |
| MuxServer.MuxSession.Serve | internal/server/server.go:418-467 | on return every stream and every listener is closed; without reverse there never was a listener |
| ReverseTunnel.BuildReverseLookup | internal/client/forward.go:46-49 | every spec after which no other has its bind address gives that address its target, and nothing else is in the map |
| ReverseTunnel.LastTargetExactly | internal/client/forward.go:46-49 | a lookup gives a target if and only if the last spec with that bind address has it |
| ReverseTunnel.DialsFollowTheListener | internal/client/forward.go:149-168 | over every run a dial goes to the target of the last spec with exactly the bind address of the listener that accepted the stream's connection |
| ReverseTunnel.ListenersWereRegistered | internal/server/server.go:448-461 | every listener stems from a registration stream of one of the client's specs, and listens on that spec's address if it has at most 4096 bytes |
| ReverseTunnel.WholeStreamsAreDialled | internal/client/forward.go:149-177 | with such addresses every completely announced reverse stream is dialled once the client accepts it, at the target of the last spec with the listener's address |
| ReverseTunnel.ConnectionsGetThrough | internal/client/forward.go:46-177 | with reverse allowed, for every spec with such an address some run listens on it and dials a connection accepted there at the target of the last spec with that address |
| ReverseTunnel.NothingWithoutReverse | internal/server/server.go:449-453 | without reverse no run has a listener or a local dial |
| ReverseTunnel.OneDialPerConnection | internal/server/server.go:521-534 | different dials carry different external connections |
| Relay.RelaysPrefixes | internal/relay/relay.go:30-55 | at every step of every interleaving each side accepted a prefix of what the other produced, and the counters equal the accepted lengths less a write not yet counted |
| Relay.CleanEndDeliversAll | internal/relay/relay.go:44-50 | a copier that ended on clean EOF delivered all its source produced |
| Relay.EndsHaveCauses | internal/relay/relay.go:44-50 | in every run a copier that is done had a read that gave that end or, if it failed, possibly a failed write; a good write never ends it |
| Relay.ChunkGoesThrough | internal/relay/relay.go:30-50 | any part of what is coming can be relayed in four steps, is then delivered and counted, and the copier reads on, or closes after a clean end |
| Relay.TransfersCanComplete | internal/relay/relay.go:39-55 | for all inputs some run delivers and counts everything both ways and ends both copiers cleanly |
| Relay.ReturnValues | internal/relay/relay.go:39-55 | on return both connections are closed and tx, rx are the accepted lengths |
| Relay.RunsAreBounded | internal/relay/relay.go:39-55 | no run takes more than four steps per byte sent, plus four |
| Relay.NoDeadlockAfterOneEnds | internal/relay/relay.go:44-54 | once one copier is done the other always has a step to take until it is done |
| Relay.CountingWriter.Write | internal/relay/relay.go:30-34 | the count stays the number of accepted bytes, short writes included |
| Relay.CountingWriter.CopyAndClose | internal/relay/relay.go:44-50 | the copy loop stops at the first failed or short write or read error, has delivered everything before it, and closes |
| Accounting.MetricsHandler.Handle | internal/audit/metrics.go:87-129 | a record changes the vectors as RecordEffects describes |
| Accounting.RecordEffects | internal/audit/metrics.go:108-126 | an open record adds one to total and gauge of exactly its token, a close record takes one from the gauge and adds its bytes, an empty token counting as "unknown"; an auth.failure adds one failure; other records and other children change nothing |
| Accounting.MetricsHandler.ReadAttrs | internal/audit/metrics.go:88-106 | the attribute visit yields the last token and byte counts |
| Accounting.StatsAggregator.ConnectionOpened | internal/audit/stats.go:40-43 | counts one more active and one more total connection |
| Accounting.StatsAggregator.ConnectionClosed | internal/audit/stats.go:46-50 | counts one fewer active connection and adds the bytes |
| Accounting.ProgramIsTheHandler | internal/server/server.go:484-496 | the ten ledger operations of a connection are those of LogOpen, ConnectionOpened, LogClose and ConnectionClosed in that order |
| Accounting.LedgersAreSums | internal/server/server.go:484-496 | over every interleaving each ledger quantity is the sum of the connections' shares in it |
| Accounting.HandlersCanFinish | internal/server/server.go:484-496 | from every reachable state some run takes all handlers to their end with the same connections |
| Accounting.LedgersDiffer | internal/server/server.go:484-496 | summed gauges minus the active count is the number of connections inside an open minus the number inside a close |
| Accounting.CountsAreConnections | internal/audit/metrics.go:108-125 | in every run the gauge of a token is the number of its own connections between their open and close events, that of "unknown" includes those with an empty token, and the active count is a number of connections too |
| Accounting.LedgersAgreeAtRest | internal/server/server.go:484-496 | with no handler in the middle of an open or close, active, total and byte counts agree |
| Accounting.FinalTotals | internal/audit/stats.go:40-50 | after all handlers: nothing active, every connection counted once, bytes are the sums of the relays' results |
| Accounting.FinalTokenTotals | internal/audit/metrics.go:108-125 | after all handlers each token has gauge zero, its own connections as total, and the sums of their relays' results as bytes |
| Backoff.Backoff.constructor | internal/backoff/backoff.go:32-40 | five minutes when the interval is not positive |
| Backoff.Backoff.Next | internal/backoff/backoff.go:43-55 | refuses exactly when a positive limit is used up, else gives the jittered delay of the attempt and counts it |
| Backoff.Backoff.Reset | internal/backoff/backoff.go:58-60 | restarts the count |
| Backoff.Backoff.Drive | internal/backoff/backoff.go:43-60 | over any sequence of calls, each Next uses the number of successes since the last Reset and never exceeds the limit |
| Backoff.CountsSuccesses | internal/backoff/backoff.go:43-60 | the count that Drive uses is the number of delays its calls returned since the last Reset |
| Backoff.BasesGrow | internal/backoff/backoff.go:47-50 | bases never shrink and never exceed the interval |
| Backoff.DelayBounds | internal/backoff/backoff.go:51-54 | a delay is at least half its base, rounded down, and below one and a half times it |
| Backoff.DelaysFitExactly | internal/backoff/backoff.go:47-54 | every delay of every jitter fits an int64 if and only if three times the interval is at most 2^64 |
| Backoff.BaseSumClosedForm | internal/backoff/backoff.go:47-50 | the capped geometric sum in closed form |
| Backoff.RetriesWaitWithinBounds | internal/client/session.go:30-49 | the total of M waits lies between half and one and a half times that sum |
| Backoff.DialMuxSession | internal/client/session.go:30-49 | with limit M and failing dials exactly M + 1 dials and M waits; in general the outcome, dials and waits of every script |
| SessionCache.MuxDialer.GetSession | internal/client/client.go:145-160 | returns the cached session observed not closed, or the one just dialled, which it caches |
| SessionCache.MuxDialer.Dial | internal/client/client.go:162-180 | a failed Open empties the cache; otherwise the stream's session is the cached one |
| SessionCache.SessionsAreBounded | internal/client/client.go:145-180 | over every interleaving, established sessions are at most 1 + closed sessions + failed Opens |
| SessionCache.QuietRunsShareOneSession | internal/client/client.go:145-180 | with no closes and no failed Opens one session serves every call |
| SessionCache.OneDiallerAtATime | internal/client/client.go:146-157 | at most one call dials at any time |
| SessionCache.LockIsGivenBack | internal/client/client.go:145-160 | in every reachable state the lock is held by a dialling call, which gives it back however its dial ends |
| SessionCache.NoDeadlock | internal/client/client.go:145-180 | in every reachable state a call that has not ended can take a step, or waits for a lock holder that can |
| SessionCache.CallsEndAsTheyShould | internal/client/client.go:162-180 | in every run a call has returned a session if and only if its Open worked, and failed if and only if its dial failed or it cleared the cache after a failed Open |
| SessionCache.BoundIsTight | internal/client/client.go:145-173 | for all m and n a run with m closed sessions and n failed Opens establishes 1 + m + n sessions, so the bound is exact |
| SessionCache.HeldWasUsable | internal/client/client.go:145-160 | over every interleaving, the session a call holds or returned was cached when the call got it, and was then observed not closed or just dialled by that call |
| TrimSpace.TrimExactly | internal/auth/static.go:76 | trimming gives x if and only if the text is x between two runs of Unicode white space and x has none at its ends |
| TrimSpace.TrimIsTrimmed | internal/auth/static.go:76 | trimming changes a text if and only if it has white space at its ends |
| Auth.StaticAuthenticator.Reload | internal/auth/static.go:62-85 | on success the index agrees with a scan for the last eligible file with that content, otherwise it is unchanged |
| Auth.ScanFindsLast | internal/auth/static.go:62-85 | the scan finds a name if and only if it is that of the last file that is no directory, not hidden, readable, and holds the token between white space |
| Auth.StaticAuthenticator.Authenticate | internal/auth/static.go:111-125 | the decision does not depend on the order in which the map is walked |
| Auth.StaticAuthenticator.Run | internal/auth/static.go:62-125 | over any interleaving of reloads and requests each decision is the scan of the last listing read completely |
| Auth.ScanAfterExactly | internal/auth/static.go:62-125 | a request is answered with a name if and only if that is the non-empty name of the last such file of the snapshot |
| Auth.StaticSnapshotIs | internal/auth/static.go:62-85 | the snapshot is the last listing in which every visible file was readable |
| Auth.EmptyTokenNeverScans | internal/auth/static.go:76-79 | no directory ever gives the empty token a name |
| Auth.RevocableExactly | internal/auth/jwt.go:143-147 | some file that is scanned to its end can revoke a name if and only if it is non-empty, shorter than 65536 bytes, without a newline, trimmed and no comment |
| Auth.FileIsItsLines | internal/auth/jwt.go:142-152 | for newline-free pieces joined by newlines: the file is scanned to its end if and only if all have fewer than 65536 bytes, and lists a name if and only if it stands on one of them, first, last or between |
| Auth.NewlineSubjectIsNeverListed | internal/auth/jwt.go:142-147 | no file lists the subject "a\nb" |
| Auth.JwtAuthenticator.LoadRevocations | internal/auth/jwt.go:131-157 | succeeds on a file whose bytes are all read if and only if every line has fewer than 65536 bytes, and then the set is exactly the names on all its lines; otherwise the set is kept |
| Auth.JwtAuthenticator.Authenticate | internal/auth/jwt.go:181-212 | accepts a verified token of this issuer with a subject, unless subject or non-empty id is revoked |
| Auth.JwtAuthenticator.Run | internal/auth/jwt.go:131-212 | over any interleaving a token is accepted, as its subject, if and only if it verifies with this issuer and a subject and no line of the last file read in full names the subject or a non-empty id |
| Auth.JwtSnapshotIs | internal/auth/jwt.go:131-157 | the snapshot is the last file read to its end |
| Auth.FirstAcceptorWins | internal/auth/auth.go:41-48 | the identity is that of the first member that accepts, and only that |
| Auth.OrderDoesNotMatter | internal/auth/auth.go:41-48 | acceptance is the same for every permutation of the members |
| Auth.AppendingKeepsIdentities | internal/auth/auth.go:41-48 | members added at the end change nothing for tokens already accepted |
| ForwardSpec.ParseKeepsText | cmd/forward.go:102-129 | parsing succeeds if and only if two or three colons remain after one "R:", and then loses no text |
| ForwardSpec.ParsedAddressesHaveOneColon | cmd/forward.go:112-118 | parsed bind and target addresses have exactly one colon |
| ForwardSpec.PrintParseExact | cmd/forward.go:102-129 | a printed forward parses to itself if and only if both addresses have one colon and a forward one does not start with "R:" |
| ForwardSpec.ParseAll | cmd/forward.go:76-87 | succeeds if and only if every spec parses, and then gives for each direction the list that SelectedExactly describes |
| ForwardSpec.SelectedExactly | cmd/forward.go:76-87 | the specs of a direction are those at an increasing list of positions, which are exactly that direction's arguments |

## Left out

- Relay.NoDeadlockAfterOneEnds: assumes that a read on a connection closed on this side fails and that a write returns; that a read without error gives at least one byte is assumed by Relay.RunsAreBounded.
- Relay.RelaysPrefixes: io.Copy's buffer size and its WriterTo shortcut are not modelled; chunks are arbitrary.
- UdpRelay.ValidateTarget: the DNS answer is an argument, and Fold covers ASCII letters and the long s only, which is all that can fold to the blocked names.
- HostPort.SplitOfTarget: which error the split reports is not modelled.
- UdpFrame.RoundTripExact: how net.ParseIP reads IPv6 text without a zone is a parameter; the results hold for every such reader.
- UdpFrame.BuildUDPFrame: leading white space in a port text, which Sscanf would skip; no target made by the parser has it.
- UdpTunnel.DeliveriesAnswerRequests: the WebSocket is taken to keep order and lose nothing before it fails.
- MuxHeader.ReadHeader: a read error that comes together with bytes is taken as one that comes right after them; which error it was is not modelled.
- MuxServer.MuxSession.Serve: net.Listen, the ends of the accept goroutines and of handleMuxConnect, and what session.Accept gives are outcomes in the script; they take effect between the turns of the loop.
- ReverseTunnel.DialsFollowTheListener: one session; Forward's reconnect loop starts the same system again with the same lookup map.
- Accounting.LedgersAreSums: counters are unbounded integers, so no wrap-around at 2^63 and no rounding of Prometheus floats; the duration histogram is not modelled, and both ledgers are taken to be enabled.
- Backoff.Backoff.Next: the product is taken over the reals, so float rounding is not modelled, nor is the conversion of a delay that does not fit an int64.
- Backoff.DialMuxSession: the loops of makeDialer, NewUDPRelay and the HTTP CONNECT client have the same form and are not repeated.
- SessionCache.SessionsAreBounded: yamux itself; sessions close and Opens fail at any time.
- Auth.JwtAuthenticator.Authenticate: signature and expiry checks, key loading and JWT decoding; the verified claims are an argument. OIDC and mutual TLS identities are tables or absent.
- Auth.StaticAuthenticator.Authenticate: constant-time comparison is plain equality.
- authenticateRequest and extractBearer: branching around the chain, without state.
- HTTP handlers, TLS, ACME, fingerprints, command-line flags, logging output, tickers and durations.
