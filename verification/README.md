# Pinguin: a verified model

Pinguin is a notification service. Besides its APIs it runs two hand-written SMTP
servers (authenticated submission and inbound forwarding), a sliding-window
throttle shared by all sessions, a rewriter for forwarded mail, a keyset-paginated
notification list, a store of SMTP identities and a tenant cache with provisioning.
This project models those parts in Dafny and proves what they promise, for every
input and every interleaving.

`dafny verify dfyconfig.toml` checks everything.

## How the model is laid out

| file | what it models |
|---|---|
| `SlidingWindow.dfy`, `CancelledReservations.dfy`, `SessionCounters.dfy`, `Throttle.dfy` | the throttle: pruned time lists against a log that never forgets, runs with and without a cancelled reservation, session counters, and the throttle object whose methods are the critical sections |
| `DataReader.dfy` | reading DATA through a bounded buffer |
| `SubmissionSession.dfy`, `SubmissionServer.dfy`, `SubmissionLedger.dfy` | one submission session; all sessions and the throttle together, with authentication and relaying as gaps between steps; what the throttle counts, told from steps and replies |
| `MessageLines.dfy`, `ForwardRewrite.dfy`, `HeaderParsing.dfy`, `ForwardedIdentity.dfy`, `HeaderPreservation.dfy` | the header parser, printer and rewriter of forwarded mail, whom a copy names, and which headers survive |
| `Routes.dfy`, `ForwardingSession.dfy` | routes and the inbound session |
| `DirectRelay.dfy` | direct delivery to mail exchangers |
| `Pagination.dfy` | the notification list and its cursors |
| `IdentityStore.dfy`, `SenderAuthority.dfy`, `SenderDomains.dfy`, `IdentityRepository.dfy` | identity life cycle as a state machine; who may send and change what; sender-domain names; the repository object |
| `AuthenticatedDelivery.dfy`, `DeletedIdentity.dfy` | submission server and identity store together, and a run in which a deleted identity sends |
| `ForwardedMail.dfy` | an inbound session, the identity store and the rewriter together |
| `TenantTables.dfy`, `TenantBootstrap.dfy`, `TenantCache.dfy`, `TenantRepository.dfy` | provisioning, what it leaves behind, the two caches, the repository object with its shared records |
| `Text.dfy`, `Sequences.dfy`, `Addresses.dfy`, `Wrappers.dfy` | shared vocabulary |

Methods are proved equal to specification functions; the laws are lemmas about those
functions and about runs built from them. The command loops (`SubmissionSession.Serve`,
`ForwardingSession.Serve`) carry the laws of whole sessions over to the session objects.

## Main results

- **Rate limit under concurrency** (`SubmissionServer.AcceptedWithinLimit`): with any number
  of sessions inside relay calls, no half-open window gets more than the limit of an
  identity's messages answered 250, and every such answer is counted
  (`SubmissionLedger.RepliesAreDeliveries`); likewise for AUTH attempts since the last 235
  (`FailedAttemptsWithinLimit`). The pruned lists refine a log that forgets nothing
  (`SlidingWindow.DecidesLikeNaiveLog`). A run with a cancelled reservation is the run without
  it exactly as long as it refuses nobody (`CancelledReservations.CancelledReservationErased`). A
  closed window holds at most twice the limit, which is reached (`ClosedWindowLimit`,
  `ClosedWindowReachesTwiceLimit`).
- **DATA** (`DataReader.ReadData`, `DataRoundTrip`, `WireIsStuffedText`, `AgreesWithStandard`): buffered reading
  equals line-by-line reading for every input and buffer, inverts dot-stuffing, and gives the
  outcome of the standard's receiver under an exact condition on the bytes.
- **Only authorised mail leaves** (`SubmissionSession.HandoffsAuthorized`, `Serve`,
  `SubmissionServer.DeliveriesAuthentic`): for every command sequence, stated from the exchanged
  commands and replies alone, and for every interleaving of sessions, from those of the session
  that handed the message over. Together with the identity store
  (`AuthenticatedDelivery.DeliveryAuthenticated`, `RetiredMailIsFromEarlierLogins`): behind every
  delivery stands the AUTH of that session that its exchanges show as the last one, with the then
  current credential of an active identity.
- **Replies** (`SubmissionSession.RepliesExplained`, `SubmissionVerdict`, `ForwardingSession.Serve`): in every
  session each reply code is exactly the one that the exchanges before it call for.
- **Rewriting** (`ForwardRewrite.RewriteParses`, `ForwardedIdentity.AuthorReplaced`, `RepliesReachAuthor`,
  `HeaderPreservation.PreservesOthersIff`): print-then-parse gives the intended headers and the same
  body; the copy is from the route under the author's name; replies reach the author after any number of hops; the other headers are preserved under an
  exact condition.
- **Inbound verdicts** (`ForwardingSession.DataVerdict`, `Serve`, `ForwardedMail.AcceptedMailReachesOwners`) and
  **direct delivery** (`DirectRelay.RelaySucceedsIff`): replies mean exactly what was delivered; end to end,
  250 means the rewritten text was sent to the owners that the store had for each recipient when the
  session accepted it.
- **Pagination** (`Pagination.PagesAreTheList`, `WalkListsExactly`, `PersistentRowListedOnce`): pages are the
  list of exactly the rows asked for, newest first; under arbitrary changes a persistent row is listed
  exactly once.
- **Credentials** (`IdentityStore.AuthenticationSound`, `RetiredForever`): the two-step authentication is
  sound under any interleaving, and a retired credential stays dead.
- **Authority** (`SenderAuthority.SendersMaySend`, `OwnersAreIsolated`): who may send from a domain follows
  from who registered it first and what its last check said; nobody but an admin changes what
  belongs to another owner.
- **Tenants** (`TenantBootstrap.BootstrapConverges`, `BootstrapExact`, `TenantCache.CachesTransparent`,
  `ConfigurationRoundTrip`, `ConfiguredHostResolves`): provisioning converges and stores exactly the
  configuration, the caches are invisible, and a host resolves to a tenant iff its name without the
  port is configured there.

## What the outside world contributes

- **Clock.** A critical section's clock reading is a parameter. The claims about the
  throttle assume readings never decrease, which is the `Enabled` condition of a
  reservation. The code uses wall-clock time.
- **Libraries.** Lower-casing, header-name canonicalisation, address-list parsing and
  formatting, the digest, encryption and LIKE matching are function values. Laws used
  are stated where they are used: canonical names keep the three written headers apart
  from each other and from the nine removed ones (`ForwardRewrite.Lawful`), decryption undoes encryption and the
  database returns one of the matching rows (`TenantCache.Lawful`), normalised
  addresses parse to themselves (`IdentityStore.Parses`), issued usernames never repeat
  (`IdentityStore.Fresh`).
- **Decisions of others** (a relay's answer, a DNS lookup, a route lookup) arrive as
  arguments of the command or step, so every claim holds for all of them.
- **Text** is a sequence of characters. In `DataReader` and the two sessions a character is a
  byte of the wire. Everywhere else, header parsing and rewriting included, it is a decoded
  character, and an undecodable byte counts as one character that is not a space.
- **Session numbers** only name sessions in the model; the number of a session that logged in is
  not given to another.
- **Database.** A query returns any row that matches. An empty string in a struct
  condition does not constrain a query, as in the code's object mapper: see
  `IdentityStore.Finds` and `TenantCache.Selection`.

## Where the code and expectations differ

- Ends of lines and leading dots: the reader lets a bare line feed end a line, also ends
  the text at a dot and a bare line feed, and removes a dot only from lines that start with
  two. Sections 2.3.8, 4.1.1.4 and 4.5.2 of RFC 5321 end lines by CRLF only, and drop every leading
  dot. The outcomes are equal exactly when the bytes contain no terminator or no line departs
  (`DataReader.AgreesWithStandard`): after CRLF or at the start, a line that is ".\n" or has an
  undoubled leading dot; after a bare line feed, a line that starts with two dots or is a
  terminator. `BareLineFeedEndsText` and `LoneDotKept` show one input of each kind.
- The project's own guide says forwarded copies preserve the original headers
  (`README.md:345`). The code replaces the author headers, drops nine other fields and unfolds
  values. Apart from the author headers, all headers come through unchanged and in order if and
  only if none is one of the nine and each value is a single trimmed line
  (`HeaderPreservation.PreservesOthersIff`); `SignatureLost` and `FoldingLost` show a signed and a
  folded message that change.
- Reply-To is stable over repeated forwarding exactly when the original had a nonblank
  From or Reply-To (`ForwardRewrite.SecondHopKeepsReplyTo`); a message with neither gets a
  Reply-To from its second hop (`UnsignedGainsReplyTo`).
- The limit holds for half-open windows. A closed window can hold twice as many, for every
  limit (`SlidingWindow.ClosedWindowReachesTwiceLimit`) and never more, and exceeds the limit
  only with reservations exactly at both its ends (`ClosedWindowLimit`).
- A reservation that is later cancelled can refuse others while it is held, for every limit
  (`CancelledReservations.HeldReservationRefuses`). Decisions after the cancel read the log without
  it (`SlidingWindow.CancelledReservationIgnored`). The two runs decide alike exactly as long as no
  reservation of its key meets a full window in which it still counts (`AgreeIffHarmless`).
- Deleting or rotating an identity ends no session. A session that is logged in goes on sending
  under an identity that is deleted (`AuthenticatedDelivery.DeletedIdentityStillSends`; a whole run is
  `DeletedIdentity.DeletedSenderSends`), and no session does so that was not logged in before
  (`RetiredMailIsFromEarlierLogins`).
- A tenant host configured with a port is stored with it, while resolution cuts ports
  off. Such a host resolves to its tenant iff the bare name is configured for that tenant
  too (`TenantCache.ConfiguredHostResolves`); otherwise it fails (`PortHostUnresolved`) or
  reaches whoever configured the bare name.
- When reading DATA times out, neither server answers, and both go on reading commands with
  the transaction still open (`ended` in the DATA command tells this from the end of the stream).
- EHLO does not clear a transaction in either server; no claim says it does.

## Model

| member | source | states |
|---|---|---|
| `SlidingWindow.PruneWindow` | internal/smtpsubmission/throttle.go:146-155 | skips the leading expired events; on an ascending list exactly the events inside the window are left |
| `SlidingWindow.DecidesLikeNaiveLog` | internal/smtpsubmission/throttle.go:105-117 | after any run a reservation is admitted iff fewer than the limit are neither cancelled nor expired in a log that forgets nothing, and the key's list is then exactly those |
| `SlidingWindow.CancelRemovesOwn` | internal/smtpsubmission/throttle.go:119-138 | cancelling removes exactly one entry with its own time, even among equal times, nothing if it was pruned, and leaves other keys alone |
| `SlidingWindow.CancelledReservationIgnored` | internal/smtpsubmission/throttle.go:119-138 | whatever ran before a cancel and whatever runs afterwards, decisions after it read the log without that reservation, for every key and instant |
| `CancelledReservations.CancelledReservationErased` | internal/smtpsubmission/throttle.go:105-138 | if no later reservation meets a full window in which a granted one still counts, the run without it and its cancel goes through with the same log but that entry, and once it is cancelled both decide alike for every key at every instant |
| `CancelledReservations.AgreeIffHarmless` | internal/smtpsubmission/throttle.go:105-117 | the run with and the run without the reservation decide a further one alike iff it does not meet a full window of its key in which the first still counts; else only the run without grants it |
| `CancelledReservations.HeldReservationRefuses` | internal/smtpsubmission/throttle.go:105-117 | for every limit some run refuses a reservation that is granted without the first one |
| `SlidingWindow.ClearedKeyStartsOver` | internal/smtpsubmission/throttle.go:95-103 | after a success, in any continuation, only the attempts made since decide whether the key is admitted |
| `SlidingWindow.WindowLimit` | internal/smtpsubmission/throttle.go:81-138 | for every interleaving of critical sections, no half-open window holds more than the limit of reservations still held |
| `SlidingWindow.ClosedWindowLimit` | internal/smtpsubmission/throttle.go:146-155 | in every run a closed window holds at most the limit besides the reservations exactly at either end, hence at most twice the limit, and more than the limit only with reservations at both ends |
| `SlidingWindow.ClosedWindowReachesTwiceLimit` | internal/smtpsubmission/throttle.go:146-155 | for every limit and length some run fills a closed window to twice the limit |
| `SlidingWindow.RunKeepsInv` | internal/smtpsubmission/throttle.go:81-138 | after every run each list is the live part of the log as of its latest prune, and every past grant fitted |
| `Throttle.SmtpThrottle.AcquireSession` | internal/smtpsubmission/throttle.go:51-66 | admits iff the sessions really open leave room under both limits, reports the global limit first, adds the session to the open ones under its normalised host and keeps the counters exact |
| `Throttle.SmtpThrottle.ReleaseSession` | internal/smtpsubmission/throttle.go:68-79 | takes one session of the host off the open ones; releasing an open session keeps the counters exact |
| `Throttle.SmtpThrottle.ReserveAuthAttempt` | internal/smtpsubmission/throttle.go:81-93 | prunes, refuses at the limit, else records the attempt under the username or host key |
| `Throttle.SmtpThrottle.ReserveAcceptedMessage` | internal/smtpsubmission/throttle.go:105-117 | prunes, refuses at the limit, else records the reservation |
| `Throttle.SmtpThrottle.CancelMessageReservation` | internal/smtpsubmission/throttle.go:123-138 | deletes the first entry with the reservation's time and drops an emptied key |
| `SessionCounters.CountersTrackSessions` | internal/smtpforwarding/server.go:425-456 | for every interleaving in which only open sessions are released, the counters are the multiplicities of the open sessions, none is zero, both limits hold, refusal means a limit is reached, and acquire then release restores the counters |
| `DataReader.BufferedReader.ReadSlice` | internal/smtpsubmission/server.go:532-539 | what a bounded buffer yields: a line if it ends within the buffer, else a full buffer, else what is left |
| `DataReader.ReadFragment` | internal/smtpsubmission/server.go:531-557 | one fragment: recognises a terminator only in a first fragment that is a whole line, unstuffs only a first fragment, and keeps the buffer in step with the unstuffed text |
| `DataReader.ReadLine` | internal/smtpsubmission/server.go:529-558 | the fragments of one line amount to that line, unstuffed |
| `DataReader.ReadData` | internal/smtpsubmission/server.go:526-559 | for every input and every buffer of at least three bytes the result is that of reading line by line: same text, same position after the terminator, too large iff the whole unstuffed text exceeds the limit |
| `DataReader.DataRoundTrip` | internal/smtpsubmission/server.go:526-563 | stuffing any line-terminated message, appending a terminator and further bytes, and reading gives back the message and leaves exactly the further bytes |
| `DataReader.WireIsStuffedText` | internal/smtpsubmission/server.go:526-563 | conversely, when every leading dot was doubled, the bytes read are exactly the stuffed text, a terminator and the rest |
| `DataReader.AgreesWithStandard` | internal/smtpsubmission/server.go:526-563 | for every input, same text and same end as the standard's receiver (CRLF lines, one terminator, every leading dot dropped) iff the bytes contain no terminator or no line departs; what the standard ends the reader ends |
| `DataReader.EndsAtTerminator` | internal/smtpsubmission/server.go:561-563 | the reader finds an end iff some line of the bytes is a lone dot |
| `DataReader.ConformingSenderAgrees` | internal/smtpsubmission/server.go:526-563 | a sender that ends every line in CRLF and doubles every leading dot is read as the standard says |
| `DataReader.BareLineFeedEndsText` | internal/smtpsubmission/server.go:561-563 | an input at which a dot between bare line feeds ends the text here and not by the standard |
| `DataReader.LoneDotKept` | internal/smtpsubmission/server.go:543-545 | an input at which an undoubled leading dot is kept here and dropped by the standard |
| `SubmissionSession.Connection.BeginData` | internal/smtpsubmission/server.go:458-491 | out of sequence nothing is read; text that breaks off is not answered and leaves the transaction open; else exactly the text is read and refused (size, header From) with the transaction cleared, or the message is built from the session |
| `SubmissionSession.HandoffsAuthorized` | internal/smtpsubmission/server.go:236-297 | for every command sequence, each message handed to the relay carries the identity logged in since the last STARTTLS in envelope and header, over TLS unless waived, with exactly the recipients accepted for the open sender, 1 to the maximum, within the size limit |
| `SubmissionSession.RepliesExplained` | internal/smtpsubmission/server.go:244-508 | for every command sequence each reply code is exactly the one that login, encryption and open transaction, as the exchanges before show them, call for; a message is handed over exactly at DATA answered 250, 554 or 451, with the text read; the connection ends exactly at QUIT, a failed handshake or a broken stream |
| `SubmissionSession.SubmissionVerdict` | internal/smtpsubmission/server.go:492-508 | DATA is answered 250 iff the message was handed over and the relay accepted it, 554 iff handed over and rejected for good, 451 iff handed over and rejected for now; a throttled one gets 452 and is not handed over |
| `SubmissionSession.Serve` | internal/smtpsubmission/server.go:236-508 | the command loop on the session object exchanges and hands over exactly the conversation of the specification, so that every handoff is authorised, every reply is the one called for and the fields say what the exchanges say |
| `SubmissionServer.RelayAcceptedMessage` | internal/smtpsubmission/server.go:510-524 | throttled without calling the relay; kept reservation on success; reservation given back and the error class reported on failure |
| `SubmissionServer.CompleteAuthAttempt` | internal/smtpsubmission/server.go:353-367 | throttled before anything else; a failed attempt stays recorded; success clears the key |
| `SubmissionServer.RunKeepsInv` | internal/smtpsubmission/server.go:213-234 | for every interleaving of all sessions: counters match connected clients, the throttle refines its log, reservation i is delivery i and is given back iff its session was answered something else than 250, each relaying session owns its own delivery and handed over its message, each session is where its own commands lead |
| `SubmissionServer.AcceptedWithinLimit` | internal/smtpsubmission/server.go:486-524 | however sessions interleave around relay calls, at most the limit of an identity's messages reserved in a half-open window are answered 250 |
| `SubmissionServer.DeliveriesAuthentic` | internal/smtpsubmission/server.go:458-524 | however sessions interleave, every message ever relayed is authorised by the exchanges of the session that handed it over (its own login since its own last STARTTLS), each session is the conversation of its own commands, and the connected clients respect both session limits |
| `SubmissionServer.RelayAnswersOwnDelivery` | internal/smtpsubmission/server.go:486-524 | in every reachable state the reply that ends a relay is the verdict on the session's own message: 250 iff the relay accepted it, and iff the reservation is kept; 554 or 451 by the kind of failure |
| `SubmissionServer.AuthAttemptsWithinLimit` | internal/smtpsubmission/server.go:353-367 | attempts admitted for a key since its last success never exceed the limit in a window |
| `SubmissionLedger.AttemptsShareKeyIff` | internal/smtpsubmission/throttle.go:157-171 | two attempts share a limit iff they name the same user up to case and outer space, or neither names one and they come from the same host |
| `SubmissionLedger.FailedAttemptsWithinLimit` | internal/smtpsubmission/server.go:353-367 | of the attempts that went ahead under a key since it last ended with 235, at most the limit were started within any half-open window |
| `SubmissionLedger.RepliesAreDeliveries` | internal/smtpsubmission/server.go:486-524 | in every run there are exactly as many replies 250 to an identity's DATA as deliveries that count for its limit |
| `AuthenticatedDelivery.DeliveryAuthenticated` | internal/smtpsubmission/server.go:353-367 | in every interleaving of sessions and store changes, behind each delivery stands an AUTH of the same session, for the identity its exchanges show as logged in since its last STARTTLS and the message carries, at which the identity was active and the presented username and password were its current ones |
| `AuthenticatedDelivery.RetiredMailIsFromEarlierLogins` | internal/smtpsubmission/server.go:458-491 | after a credential is rotated or its identity deleted, whatever runs on, each delivery whose session is logged in under that username has its AUTH before that |
| `AuthenticatedDelivery.DeletedIdentityStillSends` | internal/smtpsubmission/server.go:458-491 | in every state in which a logged-in session could hand a message over, deleting its identity first changes nothing about the handover |
| `DeletedIdentity.MailAfterDeletion` | internal/smtpsubmission/server.go:458-491 | for every sender, credential and text that is otherwise in order, a run from the empty server and store ends with that text handed over under a deleted identity |
| `DeletedIdentity.DeletedSenderSends` | internal/smtpsubmission/server.go:458-491 | one such run with everything concrete |
| `ForwardRewrite.ParseOrderedHeaders` | internal/smtpforwarding/relay.go:171-201 | the loop over lines: continuations extend the last header, other lines start one, with each error case |
| `ForwardRewrite.ParseHeaderLine` | internal/smtpforwarding/relay.go:178-198 | one round of that loop extends the last header, appends one, or stops with one of the three errors, as the line specification says |
| `HeaderParsing.DividedAtBlankLine` | internal/smtpforwarding/relay.go:161-169 | headers and body are divided at the first CRLF CRLF, or if there is none, at the first LF LF, or the message does not parse |
| `HeaderParsing.LineMeaning` | internal/smtpforwarding/relay.go:177-213 | a line that starts with a space or tab extends the header before it and is an error without one; any other line adds a header iff it has a nonempty printable name before its first colon |
| `ForwardRewrite.WriteHeader` | internal/smtpforwarding/relay.go:245-252 | appends one header line, trimmed and with line breaks turned to spaces |
| `ForwardRewrite.WriteIdentityHeaders` | internal/smtpforwarding/relay.go:235-243 | appends From, and Reply-To and X-Pinguin-Original-From when nonempty, in that order |
| `ForwardRewrite.VisitHeader` | internal/smtpforwarding/relay.go:129-140 | one round of the pass: replaces the first From, drops, or keeps |
| `ForwardRewrite.RewriteParsedMessage` | internal/smtpforwarding/relay.go:110-144 | the flag-driven single pass writes the kept headers in order with the identity headers at the first From, or in front without one, then the body |
| `ForwardRewrite.RewriteParses` | internal/smtpforwarding/relay.go:102-201 | the rewritten bytes of every message that parses parse again to exactly the intended headers, cleaned, and to the identical body |
| `ForwardRewrite.ForwardedHeaders` | internal/smtpforwarding/relay.go:30-43 | one From, Reply-To iff an author or reply address was named, X-Pinguin-Original-From iff an author was named, none of the other dropped headers |
| `ForwardedIdentity.AuthorReplaced` | internal/smtpforwarding/relay.go:116-127 | for every message that parses, the copy's From is the route's address, under the original author's name if there was one; X-Pinguin-Original-From is the original From; Reply-To is the original Reply-To or else the original From |
| `ForwardedIdentity.FromCarriesRoute` | internal/smtpforwarding/relay.go:258-272 | the new From is the bare route without an author, else the route's mailbox named after the first author's name, address, or the unparsable text |
| `ForwardedIdentity.StandsInPlaceOfFrom` | internal/smtpforwarding/relay.go:129-140 | the author headers stand where the first From stood, between the kept headers before and after it |
| `ForwardedIdentity.StandsInFront` | internal/smtpforwarding/relay.go:125-128 | without a From they stand in front of all kept headers |
| `HeaderPreservation.OthersForwarded` | internal/smtpforwarding/relay.go:129-140 | besides the author headers a copy carries exactly the headers that are not dropped, cleaned, in order |
| `HeaderPreservation.PreservesOthersIff` | internal/smtpforwarding/relay.go:102-144 | for every message that parses, the headers other than the author headers survive unchanged and in order iff none is a removed field and each value is a single trimmed line |
| `HeaderPreservation.SignatureLost` | internal/smtpforwarding/relay.go:30-43 | the DKIM-Signature of a concrete message is gone from its copy |
| `HeaderPreservation.FoldingLost` | internal/smtpforwarding/relay.go:245-256 | the folded Subject of a concrete message comes back on one line, its break turned into spaces |
| `ForwardRewrite.RepliesReachAuthor` | internal/smtpforwarding/relay.go:116-121 | after any number of forwarding hops Reply-To is the original reply target and the body is unchanged |
| `ForwardRewrite.SecondHopKeepsReplyTo` | internal/smtpforwarding/relay.go:116-127 | a second hop keeps Reply-To iff the original named an author or reply address; else it directs replies to the first route |
| `ForwardRewrite.UnsignedGainsReplyTo` | internal/smtpforwarding/relay.go:102-144 | "Subject: x" without author or reply address, parsed and rewritten twice: no Reply-To after the first hop, the first route's address after the second |
| `Routes.NewRoute` | internal/smtpforwarding/types.go:80-101 | a route exists iff the address is nonblank and the recipients are nonempty, nonblank and distinct |
| `Routes.Sort` | internal/smtpforwarding/server.go:284-288 | keys collected in any order come out strictly ascending and complete |
| `ForwardingSession.OrderedRoutes` | internal/smtpforwarding/server.go:283-294 | the routes of a transaction in ascending address order |
| `ForwardingSession.OrderedUnique` | internal/smtpforwarding/server.go:283-294 | that order is determined by the routes alone |
| `ForwardingSession.ForwardRoutes` | internal/smtpforwarding/server.go:274-281 | tries routes in order and stops at the first failure |
| `ForwardingSession.Connection.BeginData` | internal/smtpforwarding/server.go:240-264 | out of sequence nothing is read; text that breaks off is not answered and leaves the transaction open; else exactly the text is read, and oversized text ends the transaction or the message to forward is built |
| `ForwardingSession.Connection.ReceiveData` | internal/smtpforwarding/server.go:240-272 | refusal or forwarding in order; the transaction is empty after any verdict |
| `ForwardingSession.DataVerdict` | internal/smtpforwarding/server.go:240-294 | in every session 250 means the message read reached each distinct accepted address once in ascending order, 451 means a prefix was tried that failed exactly at its end, anything else means nothing was sent |
| `ForwardingSession.Serve` | internal/smtpforwarding/server.go:145-294 | the command loop on the session object answers the commands in order up to the one that ends the connection, as a conversation in which every reply code is the one the exchanges before it call for and every reply to DATA is a true verdict |
| `ForwardedMail.Forward` | internal/smtpforwarding/relay.go:78-100 | one copy from the route's address to all its recipients, rewritten if the text parses and as it came otherwise; succeeds iff the relay accepts it |
| `ForwardedMail.AcceptedMailReachesOwners` | internal/smtpforwarding/server.go:240-294 | however the store changes during a session, 250 means that for each recipient the relay accepted a copy to exactly the mailboxes the store had for that address at the exchange that last accepted it in this transaction, with the intended headers and the identical body if the text parses |
| `DirectRelay.SortRecords` | internal/smtpsubmission/direct_relay.go:123-128 | exchangers ordered by preference then host, as a permutation |
| `DirectRelay.LookupTargets` | internal/smtpsubmission/direct_relay.go:106-144 | falls back to the domain when there is no record, refuses for good on a null exchanger, skips blanks, fails softly without hosts |
| `DirectRelay.TryTargets` | internal/smtpsubmission/direct_relay.go:92-104 | stops at the first acceptance or permanent failure, else reports a temporary one after all targets |
| `DirectRelay.GroupByDomain` | internal/smtpsubmission/direct_relay.go:213-219 | each domain's recipients in order |
| `DirectRelay.Relay` | internal/smtpsubmission/direct_relay.go:64-82 | nothing for no recipients, a permanent refusal without contact for several domains, else the single domain's targets with all recipients |
| `DirectRelay.RelaySucceedsIff` | internal/smtpsubmission/direct_relay.go:64-104 | success iff one domain and some target accepted all recipients after only temporary failures, that target being the last contacted; a permanent answer ends the run |
| `DirectRelay.CodesDecide` | internal/smtpsubmission/direct_relay.go:92-104 | accepted, refused for good or failed for now exactly by which target first accepts or answers in the 500 range, other failures being passed over |
| `DirectRelay.RefusedWithoutContact` | internal/smtpsubmission/direct_relay.go:64-144 | several domains and a null exchanger are refused for good, a failed lookup for now, and nobody is contacted |
| `DirectRelay.TargetsUnique` | internal/smtpsubmission/direct_relay.go:123-143 | the targets and their order are determined by the records |
| `Pagination.NormalizedStatuses` | internal/model/models.go:220-238 | supported statuses, each once, in order of first occurrence |
| `Pagination.NormalizedMeaning` | internal/model/models.go:220-238 | exactly the supported statuses of the input remain, without repetition |
| `Pagination.NewRequest` | internal/model/models.go:176-186 | accepted iff the limit is between 1 and 100 |
| `Pagination.PageMeaning` | internal/model/models.go:480-494 | a page is a prefix of what is selected; a next cursor exists iff more follows and is the last row's key |
| `Pagination.PagesAreTheList` | internal/model/models.go:398-419 | following cursors terminates and the concatenated pages are the unpaged list, for every table, filter and accepted limit |
| `Pagination.PageShowsOnlyAskedFor` | internal/model/models.go:408-419 | every row of a page is stored, of the tenant and statuses asked for and meets the search; pages are newest first and within the limit |
| `Pagination.WalkListsExactly` | internal/model/models.go:398-419 | following the cursors lists exactly the stored rows of the tenant and statuses asked for that meet the search, newest first |
| `Pagination.WalkDescends` | internal/model/models.go:468-478 | whatever happens to the table between requests, no key is listed twice or out of order |
| `Pagination.WalkListsNoIdTwice` | internal/model/models.go:468-478 | as long as rows keep their creation time, no id is listed twice, whatever else changes between requests |
| `Pagination.PersistentRowListedOnce` | internal/model/models.go:408-419 | a row present and matching throughout a finished walk is listed exactly once, however other rows change |
| `IdentityRepository.ValidateForwardRecipients` | internal/smtpidentity/repository.go:520-536 | accepts iff nonempty, without blanks or repetitions, with the right error |
| `IdentityRepository.ValidateForwardRecipientTarget` | internal/smtpidentity/repository.go:538-545 | rejects iff the identity forwards to itself |
| `IdentityRepository.Repository.CreateForScope` | internal/smtpidentity/repository.go:188-259 | succeeds iff the domain is allowed, the recipients are valid and no active identity has the address; reactivates or inserts; a refusal changes nothing |
| `IdentityRepository.Repository.UpdateForwardingForScope` | internal/smtpidentity/repository.go:285-318 | replaces exactly the identity's recipients, or changes nothing |
| `IdentityRepository.Repository.RotateForScope` | internal/smtpidentity/repository.go:326-344 | replaces the credential of a visible active identity, or changes nothing |
| `IdentityRepository.Repository.DeleteForScope` | internal/smtpidentity/repository.go:352-363 | marks a visible active identity deleted, or changes nothing |
| `IdentityRepository.Repository.RequireIdentity` | internal/smtpidentity/repository.go:458-475 | finds an active row visible to the scope, or there is none |
| `IdentityRepository.Repository.LookupCredential` | internal/smtpidentity/repository.go:401-425 | the lookup half of authentication accepts iff an active row, its password and its domain check out |
| `IdentityRepository.Repository.Authenticate` | internal/smtpidentity/repository.go:401-456 | succeeds iff both inputs are nonblank and some row checks out, yields that row's identity and address, and changes nothing but its last use; a failure changes nothing |
| `IdentityRepository.Repository.ResolveForwarding` | internal/smtpidentity/repository.go:366-398 | a route iff an active identity has the address, has recipients and may use its domain; recipients come back sorted |
| `IdentityRepository.Repository.CreateSenderDomain` | internal/smtpidentity/domain_repository.go:30-69 | refuses a blank or malformed domain; else, under the normalised name, registers a new domain as pending, replaces a blank token, and refuses another owner's domain unless admin; a refusal changes nothing |
| `SenderDomains.ValidDnsDomainName` | internal/smtpidentity/sender_domain.go:87-103 | the loops over labels and characters accept exactly the names of at most 253 characters whose labels have 1 to 63 letters, digits and inner hyphens |
| `SenderDomains.NameMeaning` | internal/smtpidentity/sender_domain.go:87-103 | the same condition spelled out with its numbers and characters |
| `SenderDomains.NormalizeSenderDomain` | internal/smtpidentity/sender_domain.go:75-85 | lower case, trimmed, without a trailing dot; blank passes as empty, and anything else needs a dot and a valid name |
| `SenderDomains.NormalizedStays` | internal/smtpidentity/sender_domain.go:75-85 | a normalised domain in lower case normalises to itself |
| `IdentityStore.UsernamesStayUnique` | internal/smtpidentity/repository.go:401-410 | in every reachable state a username belongs to one identity at most |
| `IdentityStore.AuthenticationSound` | internal/smtpidentity/repository.go:401-456 | whatever happened between lookup and update, a successful update means the presented credential is the current one of an active identity, and it changes no status or credential |
| `IdentityStore.OnlyIssuedPasswordAccepted` | internal/smtpidentity/repository.go:572-608 | with a collision-free digest the accepted password is the one issued with the current username |
| `IdentityStore.ShownPasswordVerifies` | internal/smtpidentity/repository.go:267-277 | the password shown to an owner passes verification iff the identity's domain is allowed |
| `IdentityStore.RotateAndDeleteRetire` | internal/smtpidentity/repository.go:326-363 | rotating or deleting retires the credential the identity had |
| `IdentityStore.RetiredForever` | internal/smtpidentity/repository.go:401-456 | a retired credential never authenticates again in any continuation, reactivation included, not even for an attempt already past its lookup |
| `IdentityRepository.ResolveRoute` | cmd/server/main.go:718-728 | over the tables of any reachable state the inbound resolver never fails: it yields the route to exactly the recipients last accepted for the address, or none iff no identity serves it |
| `IdentityStore.RoutesNeverFail` | internal/smtpidentity/repository.go:188-318 | in every reachable state addresses are unique, stored recipients are exactly the last accepted list, the domain has the same owner or none, and a route built from them is valid |
| `SenderAuthority.StoredStanding` | internal/smtpidentity/domain_repository.go:30-101 | in every run a domain belongs to whoever it was seeded for or registered it first, and is verified iff its last check said so, or none was made and it was seeded so |
| `SenderAuthority.SendersMaySend` | internal/smtpidentity/repository.go:477-518 | an identity is created, and a credential accepted, only while the owner's domain is verified, or belongs to nobody and is verified or legacy where an admin may act |
| `SenderAuthority.OwnersAreIsolated` | internal/smtpidentity/repository.go:458-475 | a requester who is no admin changes no active identity of another owner and takes over no domain; a deleted identity changes only by being created again |
| `SenderAuthority.NewCredentialVerifies` | internal/smtpidentity/repository.go:188-259 | a new identity belongs to its requester, has the address and recipients asked for, and its credential verifies at once |
| `SenderAuthority.RotatedCredentialVerifies` | internal/smtpidentity/repository.go:326-344 | after a rotation the new credential verifies iff the owner may still send |
| `TenantTables.NormalizeDomainHosts` | internal/tenant/bootstrap.go:432-442 | the nonblank normalised hosts in order |
| `TenantTables.NormalizeAdminEmails` | internal/tenant/bootstrap.go:448-463 | the nonblank normalised emails, each once |
| `TenantTables.ValidateBootstrapDomains` | internal/tenant/bootstrap.go:360-380 | accepts iff every tenant has a host and no host repeats; else the complaint about the first offending tenant |
| `TenantTables.Transaction.UpsertTenant` | internal/tenant/bootstrap.go:221-312 | writes one tenant with hosts, administrators and profiles, or reports the first failure |
| `TenantTables.Provision` | internal/tenant/bootstrap.go:172-213 | checks, then all upserts in order on the cleared tables |
| `TenantBootstrap.BootstrapExact` | internal/tenant/bootstrap.go:172-312 | a successful bootstrap stores exactly the configured rows, and the domain conflict is unreachable |
| `TenantBootstrap.BootstrapSucceedsIff` | internal/tenant/bootstrap.go:172-219 | with distinct ids success iff some tenant is enabled, domains are valid and no status is set |
| `TenantBootstrap.BootstrapConverges` | internal/tenant/bootstrap.go:191-213 | the outcome does not depend on what the tables held before |
| `TenantBootstrap.OneDefaultHost` | internal/tenant/bootstrap.go:240-261 | each tenant has exactly one default host, its first |
| `TenantBootstrap.FirstHost` | internal/tenant/bootstrap.go:432-442 | the first host of a tenant is its first entry that is not blank, trimmed and in lower case |
| `TenantBootstrap.ProvisionedAdmins` | internal/tenant/bootstrap.go:327-338 | after a successful bootstrap an administrator is stored for a tenant iff the tenant configures that email, up to case and outer space |
| `TenantCache.CachesTransparent` | internal/tenant/repository.go:84-111 | in every state reached by resolutions and bootstraps, failed ones included, resolution through any repository's caches answers as the tables would |
| `TenantCache.ConfigurationRoundTrip` | internal/tenant/repository.go:175-226 | after a successful bootstrap with distinct ids, resolving a tenant yields the configured credentials |
| `TenantCache.LoadsConfiguredValues` | internal/tenant/repository.go:175-226 | field by field against the given configuration: names, active unless disabled, mail and text-message credentials |
| `TenantCache.ConfiguredHostResolves` | internal/tenant/repository.go:84-102 | after a successful bootstrap with distinct nonempty ids, a host resolves to a tenant's configuration iff its name without the port is among that tenant's hosts, and fails iff it is nobody's |
| `TenantCache.PlainHostResolves` | internal/tenant/repository.go:84-102 | a host configured without a port resolves to its tenant's configuration |
| `TenantCache.PortHostUnresolved` | internal/tenant/repository.go:321-331 | a tenant whose only host is "app:8443" is provisioned and that host is not found |
| `TenantCache.ConfiguredIdResolves` | internal/tenant/repository.go:105-111 | a text resolves to a tenant as an id iff, without outer space, it is that tenant's id, and fails iff it is nobody's |
| `TenantRepository.CloneRuntimeConfig` | internal/tenant/repository.go:270-277 | an equal configuration whose record is new |
| `TenantRepository.Repository.RuntimeFor` | internal/tenant/repository.go:163-173 | answers from the cache or loads and remembers; the caller's record is never the cached one |
| `TenantRepository.Repository.ResolveHost` | internal/tenant/repository.go:84-102 | the tables' answer for the host, with the caches kept in agreement |
| `TenantRepository.Repository.ResolveByID` | internal/tenant/repository.go:105-111 | the tables' answer for the id, with the caches kept in agreement |
| `TenantRepository.ResolveMutateResolve` | internal/tenant/repository.go:228-236 | overwriting a returned record never changes the next resolution |
| `TenantRepository.Bootstrap` | internal/tenant/bootstrap.go:172-219 | success installs the provisioned tables and empties every registered repository's caches; failure changes neither |

## Left out

- Sockets, TLS handshakes, the length of deadlines, failed writes, listeners, logging and context cancellation are I/O; only bytes read, commands parsed and replies given are modelled.
- Command-line parsing (`splitCommand`, `parseSMTPPath`, AUTH payload decoding): a command arrives parsed, with its path or failure.
- The 235/250 reply texts and greeting lines: replies are their codes.
- The forwarding server's session limiter object runs the code of the throttle's session counters and is covered by `SessionCounters`; its class is not repeated.
- Cursor encoding, JSON and base64 are identities; a time read back from the database is the instant that was stored.
- `LIKE` matching, preloaded attachments and the other notification columns would only add easy members.
- The lost update of two overlapping rotations of one identity: each change of the identity store is one atomic step.
- The text of generated identifiers, ciphertexts and timestamps; a bootstrap's randomness is one parameter.
- Resolution racing with a bootstrap in mid-step: each resolution and each bootstrap is one atomic step.
- The retry worker, sender caches, configuration checks, HTTP and gRPC mapping, the web client and release scripts.
