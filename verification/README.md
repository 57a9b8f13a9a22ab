# Velvet communications: a verified model

This project models the core of the Velvet communications package in Dafny and proves what it
promises: the authenticated local-IP delivery and request/reply protocols with their replay cache,
the wire codec under them, the wake-request codec, the store-and-forward queue, and carrier selection.

    dafny verify dfyconfig.toml

## How it is organised

| file | content |
|---|---|
| `Contracts.dfy` | identifiers, envelopes, offers, plans, results |
| `Recency.dfy`, `OrderedDicts.dfy`, `Replay.dfy` | the least-recently-used discipline, stated once by step and once by history; Python's `OrderedDict`; the replay guard |
| `Text.dfy`, `Json.dfy`, `JsonSize.dfy`, `Base64.dfy` | decimal integers, JSON strings (section 7 of RFC 8259), canonical JSON, base64 (section 4 of RFC 4648), and the byte-exact size of each |
| `Framing.dfy` | length-prefixed frames, and exact receive over a stream in arbitrary chunks |
| `LocalIp.dfy`, `Wire.dfy` | the envelope codec, signed frames and their validation; what those frames mean to the peer that reads them |
| `Delivery.dfy` | the server of both carriers as a class with its cache, and the history that its cache refines |
| `History.dfy` | what any such history says about repeated deliveries |
| `Protocol.dfy` | runs of any number of clients and one server over a hostile network |
| `Interop.dfy` | undisturbed and late exchanges end to end; the two carriers side by side |
| `Progress.dfy` | what a run can always do next |
| `Rejections.dfy` | what an acknowledged rejection is worth, and exactly when a request is accepted |
| `Dropped.dfy` | accepted replies whose acknowledgement cannot be sent |
| `Sizes.dfy`, `WakeSizes.dfy` | exactly which frames, replies and wake payloads fit their limits |
| `Wake.dfy` | wake requests, their payloads and their envelopes |
| `Queueing.dfy` | the queue as a class, its refinement of an ideal queue, and its conservation law |
| `Routing.dfy`, `Emergency.dfy` | carrier selection, and the two-pass emergency selection |

The classes `ReplayGuard`, `LocalIpServer` and `StoreAndForwardQueue` have the fields and the methods of
the originals. Each method is proved against a function or predicate on values, and the results about whole
runs are proved about those. An exception of the original is a `Result` that carries its message.

The plain server and the request/reply server differ in what a receiver returns and in the
acknowledgement; they are one class whose configuration says which of the two it is (`Kind`). They also share
one fingerprint, since both dictionaries hashed by the originals have the same eleven entries.

## The protocol model

A run is a sequence of actions: a client puts a request on the wire, or reports without sending because it has expired or
its frame is too long; the server serves a connection
that holds any bytes; a client reads any bytes as its acknowledgement, or times out; somebody outside signs
anything with a secret of their own. Loss, repetition, reordering, alteration and invention need no actions of
their own, because the bytes that arrive are not tied to bytes that were sent. The assumptions are:

- A frame that arrives with the HMAC of its content under a secret has content that was signed with that secret earlier
  in the run (`Unforged`, a guard on the two receiving actions; HMAC, section 2 of RFC 2104, is otherwise
  any function). Where a frame is validated by an honest reader, tags are 64 hexadecimal digits (`TagsAreHex`). That a
  tag covers the secret and every entry (`Wire.TagCoversContent`) is shown for tags that are injective
  (`InjectiveTags`), which excludes a fixed length, so no result assumes both.
- SHA-256 is injective (`InjectiveHash`).
- Nonces are fresh, and the server's clock does not go back. It is read twice in an exchange, and the model keeps
  the two readings apart.
- A receiver returns or raises anything; a reply's detail is at most 256 characters, as the reply's own
  construction demands.

## Where the code differs from what one might expect

- A receiver call that raises, or whose reply is too large, leaves no trace in the cache, so the next
  delivery calls the receiver again (`History.FailedCallIsRepeated`). "At most once" is about completed calls.
- An acknowledged rejection does not mean that the receiver never accepted the envelope. For every valid envelope that
  fits a frame there are runs that end in one after an acceptance, because the retry came late (`Rejections.RejectedAfterAcceptance`) or,
  with everything in time, because the server refused some other frame that carried the retry's ids
  (`Rejections.RejectedInTimeAfterAcceptance`). `Protocol.RejectionMeans` says what it does mean in every run:
  which earlier action of the server made it, on which frame and with which event or reason.
  `Rejections.RequestIsAcceptedIff` says exactly when an undisturbed request, first or repeated, is reported as accepted.
- The cache knows message ids, not whose they are: an id that one peer completed makes every other peer's envelope
  with that id a conflict while it is resident (`History.OtherPeersConflict`).
- `max_payload_bytes` is not compared with the size of the encoded frame. `Sizes.DeliveryFitsExactly` gives the exact
  condition for an envelope to fit; with the default limits the largest allowed payload never does
  (`Sizes.DefaultPayloadNeverFits`).
- The 2048-byte allowance for reply frames does not cover every allowed detail. `Sizes.ReplyAllowanceExact` gives
  the exact condition, `Sizes.BasicPlaneRepliesFit` the large family that meets it, and
  `Sizes.AstralDetailDoesNotFit` a reply that does not. Such a reply is cached, and every retry is dropped without an
  acknowledgement while its id is resident (`Interop.RetriesAreDropped`); `Dropped.AcceptedAndNeverAcknowledged` gives
  the runs.
- A valid wake request need not encode within its 4096-byte cap. `WakeSizes.EncodesExactly` gives the exact condition,
  `WakeSizes.PrintableRequestsEncode` the family that always does, and `WakeSizes.AstralSummaryDoesNotEncode` one that
  does not.
- Decoding an envelope and encoding it again gives the same dictionary exactly when the dictionary has the eleven
  entries and no other, its six textual ones are texts, and its base64 is canonical (`Wire.DecodedReadsBack`); a number
  for an id, spare base64 bits and spare padding are lost (`Wire.CoercedIdIsLost`, `Wire.TolerantPayloadIsLost`), and
  an absent id is read as the text `None` (`Wire.AbsentIdIsNone`).
- The selected transport name never depends on the order of the offers, but the plan may when two
  eligible offers share preference and name: `Routing.PlanIsOrderFreeIff` says exactly when, and
  `Routing.EqualKeysGiveTwoPlans` shows a pair.

## Model

| member | source | states |
|---|---|---|
| Contracts.Envelope.Checked | src/velvet_communications/contracts.py:50-66 | construction succeeds, with the envelope unchanged, exactly when ids, payload, times and hop limit are in range |
| Contracts.IdExactly | src/velvet_communications/contracts.py:10 | an identifier is 1 to 128 characters, which are letters, digits and `.` `_` `:` `-` by code point, the first one a letter or digit |
| Recency.OrderIsLastNByRecency | src/velvet_communications/replay.py:17-31 | after any history of touches the stored order is the last `capacity` distinct ids by last touch |
| Recency.ResidentIffHeld | src/velvet_communications/replay.py:20-31 | an id is held exactly when it was touched before and fewer than `capacity` distinct others have been touched since |
| Recency.OrderBounded | src/velvet_communications/replay.py:25-31 | no id is held twice and the capacity is never exceeded |
| Recency.StackInclusion | src/velvet_communications/replay.py:17-31 | on a common history a smaller memory holds the newest part of a larger one |
| OrderedDicts.OrderedDict.EvictDownTo | src/velvet_communications/replay.py:25-30 | the eviction loop leaves the newest `capacity` keys, in order, with their values |
| Replay.ReplayGuard.Create | src/velvet_communications/replay.py:11-15 | refuses a capacity below one, otherwise gives an empty guard |
| Replay.ReplayGuard.Accept | src/velvet_communications/replay.py:17-31 | answers false exactly when the id occurred before and fewer than `capacity` distinct others since; an empty id is an error that changes nothing |
| Replay.ReplayGuard.Length | src/velvet_communications/replay.py:33-34 | the number of ids held, never more than the capacity |
| Replay.RefusedByPosition | src/velvet_communications/replay.py:17-31 | the same answer by positions in a trace: last seen at some position, and few distinct ids after it |
| Replay.LargerGuardRefusesMore | src/velvet_communications/replay.py:17-31 | on any common trace, whatever a smaller guard refuses a larger one refuses |
| Text.BeforeExactly | src/velvet_communications/local_ip.py:500-510 | the order of keys and names is by the code points at the first position where two texts differ, a proper prefix first |
| Text.ParseIntDecimal | src/velvet_communications/local_ip.py:502-508 | a written integer, negative ones included, reads back before any non-digit |
| Text.ParseEscapedSurrogates | src/velvet_communications/local_ip.py:502-508 | a character beyond U+FFFF is written as a surrogate pair and reads back as one character |
| Text.ParseQuoted | src/velvet_communications/local_ip.py:502-508 | every text reads back from its escaped string, whatever follows it |
| Json.ParseRender | src/velvet_communications/local_ip.py:500-529 | any JSON value, the keys of each of its objects written in any order of its own, parses back to itself |
| Json.CanonicalExactly | src/velvet_communications/local_ip.py:500-510 | canonical text is the one text without spaces in which every object, at every depth, has its keys in increasing code point order |
| Json.TrailingTextIsRefused | src/velvet_communications/local_ip.py:526-529 | an object with anything but white space after it does not parse |
| Json.RepeatedKeyKeepsLast | src/velvet_communications/local_ip.py:526-529 | of a repeated key the last value counts |
| Json.CanonicalRoundTrip | src/velvet_communications/local_ip.py:500-529 | canonical bytes parse back to the object they were written from |
| Json.CanonicalInjective | src/velvet_communications/local_ip.py:500-510 | two objects have the same canonical bytes exactly when they are equal |
| Json.CanonicalFromAnyOrder | src/velvet_communications/local_ip.py:500-529 | the parsed object does not depend on the order of the keys in the bytes |
| Base64.DecodeEncode | src/velvet_communications/local_ip.py:457-473 | decoding undoes encoding for every byte string |
| Base64.QuadExactly | src/velvet_communications/local_ip.py:457 | the four symbols of three bytes have the same 24 bits, most significant first |
| Base64.EncodedSize | src/velvet_communications/local_ip_rpc.py:392-393 | the encoded length is four thirds rounded up, and JSON never escapes any of it |
| Base64.CanonicalExactly | src/velvet_communications/local_ip.py:457-473 | a text is the encoding of what it decodes to exactly when it is whole groups of four with the padding they need and no spare bits |
| Framing.ReceiveExact | src/velvet_communications/local_ip.py:535-544 | for every chunking, exactly the next `size` bytes, or an error once the stream ends short; the loop ends |
| Framing.ReceiveFrame | src/velvet_communications/local_ip.py:520-532 | the frame read depends on the byte stream only, not on its chunking, and only its own bytes are consumed |
| Framing.EveryHeaderIsRead | src/velvet_communications/local_ip.py:36 | every four bytes are the header of the number they say, most significant byte first, as `Header` states |
| Framing.ReadsExactly | src/velvet_communications/local_ip.py:520-544 | for every stream and limit: closed early, a bad length, or exactly the object that the bytes announced by its first four hold |
| Framing.FrameRoundTrip | src/velvet_communications/local_ip.py:513-532 | a sent frame is received unchanged whatever follows it |
| Framing.FramePrefixFails | src/velvet_communications/local_ip.py:520-544 | every strict prefix of a frame is an error |
| Wire.EnvelopeRoundTrip | src/velvet_communications/local_ip.py:450-493 | a valid envelope survives its dictionary form |
| Wire.DecodesExactly | src/velvet_communications/local_ip.py:466-493 | what any dictionary decodes to, entry by entry, and that it decodes to nothing else |
| Wire.EnvelopeFieldsInjective | src/velvet_communications/local_ip.py:450-463 | the dictionary form determines the envelope |
| Wire.DecodedReadsBack | src/velvet_communications/local_ip.py:450-493 | for every dictionary that decodes, encoding gives it back exactly when it has the eleven entries, texts where texts belong, and canonical base64 |
| Wire.CoercedIdIsLost | src/velvet_communications/local_ip.py:481-486 | a number for an id decodes, coerced to text, and does not come back |
| Wire.AbsentIdIsNone | src/velvet_communications/local_ip.py:483 | an envelope without an id is read as one with the id `None` |
| Wire.TolerantPayloadIsLost | src/velvet_communications/local_ip.py:470-473 | base64 with spare bits or spare padding decodes and does not come back |
| Wire.FingerprintExact | src/velvet_communications/local_ip_rpc.py:273-275 | with an injective hash, fingerprints are equal exactly when the envelopes are |
| Wire.LookupMatchesSource | src/velvet_communications/local_ip.py:441-447 | the peer looked up is the envelope's own source, although the lookup strips whitespace |
| Wire.PeerIdExactly | src/velvet_communications/local_ip.py:555-563 | a peer id is what is left of a text without the white space at its ends, if that is 1 to 128 identifier characters |
| Wire.SignedValidates | src/velvet_communications/local_ip.py:424-438 | with the HMAC of its canonical bytes as signature, a frame validates under that secret for exactly its own kind |
| Wire.ValidatesSigned | src/velvet_communications/local_ip.py:424-438 | any frame validates exactly if it has the schema, the kind, no authority, and as signature 64 characters that are the HMAC of all its other entries under the secret |
| Wire.TagCoversContent | src/velvet_communications/local_ip.py:434-438 | with injective tags, a frame that carries the tag of some content under some secret and validates is that content, read under that secret |
| Wire.AlteredFrameFails | src/velvet_communications/local_ip.py:434-438 | a signed frame with any entry replaced or added and the signature left as it was validates for nobody |
| Wire.SwappedEnvelopeFails | src/velvet_communications/local_ip.py:434-438 | a signed delivery given another envelope is a signature mismatch |
| Wire.DeliveryValidates | src/velvet_communications/local_ip.py:375-400 | an honest delivery validates, to its own envelope and nonce, exactly when it is in the clock window, addressed here, small enough and unexpired |
| Wire.DeliveryRefusedBecause | src/velvet_communications/local_ip.py:385-400 | and otherwise which of the five reasons it is refused with, in their order |
| Wire.ValidatesExactly | src/velvet_communications/local_ip.py:375-400 | exactly which frames, honest or not, validate to an envelope and a nonce |
| Wire.DeliveryOverTheWire | src/velvet_communications/local_ip.py:513-544 | end to end: the sent bytes are read and validated to exactly the envelope and nonce, and every strict prefix fails |
| Wire.AckFormatsInteroperate | src/velvet_communications/local_ip_rpc.py:338-386 | either validator reads either ack, with the same verdict and detail, exactly when the ack is addressed to the reader |
| Wire.AckExactly | src/velvet_communications/local_ip.py:403-421 | exactly which frames, honest or not, a plain client takes as its acknowledgement, and the verdict and detail it reads |
| Wire.ReplyAckExactly | src/velvet_communications/local_ip_rpc.py:358-386 | the same for a request/reply client and its reply bytes |
| Delivery.LocalIpServer.Create | src/velvet_communications/local_ip_rpc.py:211-227 | construction succeeds exactly when skew, capacity and the frame, payload and reply limits are in range; the cache starts empty |
| Delivery.LocalIpServer.Store | src/velvet_communications/local_ip.py:266-273 | a fresh outcome goes to the young end and the oldest entries over capacity go |
| Delivery.LocalIpServer.Deliver | src/velvet_communications/local_ip.py:252-273 | a resident id gets its outcome or a conflict and no entry changes; otherwise the receiver is called, and by its answer alone the call fails with its reason and leaves the cache as it was, or completes with its reply and is stored |
| Delivery.LocalIpServer.Exchange | src/velvet_communications/local_ip.py:238-304 | the acknowledgement and the new cache for any received frame, silent close and refusals included |
| Delivery.LocalIpServer.ServeOnce | src/velvet_communications/local_ip.py:227-309 | one connection from bytes to bytes; the server stays consistent with the log of all it did |
| Delivery.OutcomeByAnswer | src/velvet_communications/local_ip_rpc.py:286-290 | a call fails exactly if the receiver raises, or a request receiver returns a boolean or a reply over the limit; otherwise it completes with the reply that the answer determines |
| Delivery.FailsExactly | src/velvet_communications/local_ip_rpc.py:286-294 | for an id that is not cached: each way of failing with its reason, the cache unchanged, and completion in every other case |
| Delivery.CompletesExactly | src/velvet_communications/local_ip.py:259-273 | what a completed call replies for each answer, and that it is kept at the young end under the hash of the canonical envelope |
| Delivery.HitsExactly | src/velvet_communications/local_ip.py:252-258 | for a cached id: the cached reply to the same envelope, a conflict to any other, and no entry changes |
| Delivery.ClosesSilently | src/velvet_communications/local_ip.py:284-290 | there is no acknowledgement exactly if nothing was read or the frame names no provisioned peer, and then nothing changes |
| Delivery.RefusesExactly | src/velvet_communications/local_ip.py:281-304 | a frame of a provisioned peer that does not validate is answered with a rejection that shows the reason, carries the frame's own ids and changes nothing |
| Delivery.ClaimsExactly | src/velvet_communications/local_ip.py:291-297 | those ids are the frame's texts, and "unknown" where it has none |
| Delivery.HitRefines | src/velvet_communications/local_ip.py:252-258 | a hit or conflict moves the id to the young end and changes no entry |
| Delivery.InsertRefines | src/velvet_communications/local_ip.py:266-273 | a completed call stores its outcome and keeps the last `replay_capacity` touched ids |
| Delivery.ConsultRefines | src/velvet_communications/local_ip.py:249-273 | every step on the cache is one that the history specification admits, and keeps cache and history in agreement |
| Delivery.ServeRefines | src/velvet_communications/local_ip.py:237-304 | so does every whole exchange, whatever bytes arrive |
| Delivery.ServedUnderOwnSecret | src/velvet_communications/local_ip.py:242-260 | whatever reaches the receiver came in a frame whose signature is the HMAC of all its other entries under its own source's provisioned secret, addressed here and unexpired |
| History.AtMostOnce | src/velvet_communications/local_ip.py:242-273 | after a completed call, no later call for the envelope if fewer than `replay_capacity` distinct other ids touch the cache before it expires |
| History.CalledAgainIffForgotten | src/velvet_communications/local_ip.py:252-273 | a delivery of a touched id calls the receiver exactly when at least `replay_capacity` distinct ids were touched since its last touch |
| History.FailedCallIsRepeated | src/velvet_communications/local_ip_rpc.py:286-291 | after a call whose answer fails, the next delivery of the id calls the receiver again |
| History.FirstOutcomeStands | src/velvet_communications/local_ip_rpc.py:276-294 | until the next call, equal content gets the first outcome and different content a conflict, which damages nothing |
| History.OtherPeersConflict | src/velvet_communications/local_ip.py:252-258 | while an id that one peer completed stays resident, every envelope of another peer with that id is a conflict without a receiver call |
| History.ReplayedWasCompleted | src/velvet_communications/local_ip_rpc.py:276-279 | a replayed outcome is one that the receiver gave for exactly this envelope, the latest for its id |
| History.OneLogOneEvent | src/velvet_communications/local_ip.py:249-273 | two servers with one log do the same with the next delivery, whatever hash each uses |
| Protocol.RefusesOutright | src/velvet_communications/local_ip.py:106-111 | a send is an error exactly for a source, destination or payload-size mismatch, the first of them |
| Protocol.BeginsExactly | src/velvet_communications/local_ip.py:112-129 | a send that is no error puts the whole frame on the wire or, expired or too long, reports without acceptance, acknowledgement or payload |
| Protocol.ReadsAckExactly | src/velvet_communications/local_ip.py:131-136 | exactly which frames a client of either kind takes as its acknowledgement, and what it reads from them |
| Protocol.FinishesExactly | src/velvet_communications/local_ip.py:137-152 | on any bytes the report is what the acknowledgement says, or a failure with the reason and nothing else |
| Protocol.AcksAreRecorded | src/velvet_communications/local_ip.py:274-304 | whatever the server signs for an acknowledgement is recorded as signed, and nothing more |
| Protocol.DeliveryWasRequested | src/velvet_communications/local_ip.py:375-400 | a delivery that verifies under an honest secret was requested, envelope and nonce, by a client with that secret |
| Protocol.AckWasVerdictOrRefusal | src/velvet_communications/local_ip_rpc.py:358-386 | any acknowledgement that a client may read in any run was signed in an earlier action of the server, which decided exactly the client's request, or refused the frame it read, with the request's ids, by its own clock or because its call failed |
| Protocol.StepKeeps | src/velvet_communications/local_ip.py:227-309 | every enabled action keeps the protocol invariant |
| Protocol.RunKeeps | src/velvet_communications/local_ip.py:227-309 | the invariant holds after every legal run |
| Protocol.AcceptedMeansReceived | src/velvet_communications/local_ip_rpc.py:127-178 | in every run a report of acceptance means that the receiver was called with exactly that envelope and accepted it; reply bytes and detail are the receiver's own |
| Protocol.UnacknowledgedMeans | src/velvet_communications/local_ip.py:113-144 | a report without acknowledgement, in any run, is not accepted and has no payload, sends that end before they begin included |
| Protocol.AcknowledgedMeans | src/velvet_communications/local_ip.py:236-304 | every acknowledged report of every run was made on what one earlier action of the server had signed: its decision of exactly the client's envelope and nonce, or its refusal of a frame with those ids |
| Protocol.RejectionMeans | src/velvet_communications/local_ip.py:281-304 | so an acknowledged rejection tells such a decision that did not accept, or such a refusal, whose reason is that of the action's own validation or failed call |
| Protocol.RunIsChronicle | src/velvet_communications/local_ip.py:252-273 | every run's log is one that the history specification admits, in clock order |
| Protocol.RunDeliversAtMostOnce | src/velvet_communications/local_ip.py:242-273 | over every run, after a completed call the receiver is not called again for that envelope while fewer than `replay_capacity` other ids displace it |
| Protocol.CallsAreAuthentic | src/velvet_communications/local_ip.py:237-248 | the receiver only sees envelopes of provisioned sources, and an honest source asked for each of its own |
| Interop.SendsExactly | src/velvet_communications/local_ip.py:103-129 | a client puts a request on the wire exactly when it is between the configured peers, within the payload limit, before its expiry, and its frame, of exact length, fits |
| Interop.RequestIsAnswered | src/velvet_communications/local_ip.py:236-304 | every request that reaches the server gets a signed acknowledgement of its decision: in time from one consultation of the cache, late without any change |
| Interop.ReturnedIsReported | src/velvet_communications/local_ip.py:129-152 | the client reports exactly what the acknowledgement carries if it fits both frames and the reply limit, and no acknowledgement otherwise |
| Interop.ReturnableComesBack | src/velvet_communications/local_ip_rpc.py:325-328 | with accepted limits every plain acknowledgement, every empty reply and every bounded reply with a basic-plane detail comes back |
| Interop.UndisturbedExchange | src/velvet_communications/local_ip.py:103-152 | an undisturbed exchange in time decides on exactly the client's envelope; its outcome, a failed call included, is reported exactly if its acknowledgement comes back |
| Interop.UndisturbedExchangeCompletes | src/velvet_communications/local_ip_rpc.py:127-178 | with accepted limits it is reported: always over the plain carrier, over the request/reply carrier for the replies just named |
| Interop.FailedCallIsReported | src/velvet_communications/local_ip_rpc.py:301-324 | a receiver that raises, returns the wrong type or replies too much, read off its answer, is reported as an acknowledged rejection with the reason cut to 256 characters, and the cache stays as it was |
| Interop.LateRequestIsRefused | src/velvet_communications/local_ip.py:281-304 | a request out of time is reported as an acknowledged rejection whatever the cache holds, and changes nothing |
| Interop.RetriesAreDropped | src/velvet_communications/local_ip_rpc.py:276-328 | a completed reply that does not fit its frame is replayed to every retry while resident, and every one is dropped without an acknowledgement |
| Interop.DroppedReplyExists | src/velvet_communications/local_ip_rpc.py:286-294 | within accepted limits the server takes such a reply |
| Dropped.RetryIsDropped | src/velvet_communications/local_ip_rpc.py:276-328 | from any reachable state in which such a reply is resident, a retry in time is replayed and its report is not acknowledged |
| Dropped.AcceptedAndNeverAcknowledged | src/velvet_communications/local_ip_rpc.py:286-328 | for every envelope that fits 4096 bytes a run, with accepted limits, in which the receiver accepts it and no report, of the first sending or the retry, is acknowledged |
| Progress.UndisturbedExchangeIsLegal | src/velvet_communications/local_ip_rpc.py:127-178 | from any reachable state an undisturbed exchange is a legal continuation, whatever the server decides and whether or not its acknowledgement comes back; the log grows by the server's event and the report is the reply to its decision |
| Rejections.RequestIsAcceptedIff | src/velvet_communications/local_ip.py:242-273 | from any reachable state, any undisturbed request is reported as accepted exactly when it is in time, its acknowledgement comes back, and either its id is resident and the latest completed call was for this envelope and accepted it, or it is not and the receiver accepts it now |
| Rejections.RequestIsAcceptedWithinLimits | src/velvet_communications/local_ip.py:242-273 | with accepted limits the same without the condition on the way back |
| Rejections.LateRejectionIsLegal | src/velvet_communications/local_ip.py:281-304 | from any reachable state, whatever was accepted before, a late request ends in an acknowledged rejection |
| Rejections.StrayRejectionIsLegal | src/velvet_communications/local_ip.py:281-304 | from any reachable state, an unsigned frame with the ids of a pending request gets its report rejected, in time or not, without a receiver call |
| Rejections.RejectedAfterAcceptance | src/velvet_communications/local_ip.py:281-304 | for every valid envelope that fits a frame, a run with one accepting call, reported as accepted, that ends in an acknowledged rejection because the retry was late |
| Rejections.RejectedInTimeAfterAcceptance | src/velvet_communications/local_ip.py:281-304 | and one that does so with the retry in time |
| Interop.RpcServerActsAsPlain | src/velvet_communications/local_ip_rpc.py:251-329 | with empty replies and the plain detail texts the request server does in each exchange what the plain server does; plain clients read the two acknowledgements alike, and request/reply clients too if no cached outcome has reply bytes |
| Interop.RpcCourseIsPlain | src/velvet_communications/local_ip_rpc.py:251-329 | and so over every sequence of connections: equal caches, the same events, acknowledgements that both kinds of client read alike |
| Sizes.ReplyAckSize | src/velvet_communications/local_ip_rpc.py:338-355 | the exact frame size of a signed reply |
| Sizes.ReplyAllowanceExact | src/velvet_communications/local_ip_rpc.py:389-395 | every reply within an accepted limit fits exactly when the escaped texts stay within 1805 or 1806 characters |
| Sizes.BasicPlaneRepliesFit | src/velvet_communications/local_ip_rpc.py:389-395 | that holds for every valid id, 32-digit nonce and detail of at most 256 characters below U+10000; the overhead is at most 1940 bytes |
| Sizes.PlainAckBound | src/velvet_communications/local_ip.py:355-372 | a plain acknowledgement never exceeds 3453 bytes, whatever its detail |
| Sizes.EmptyReplyBound | src/velvet_communications/local_ip_rpc.py:316-324 | an empty reply, a refusal above all, never exceeds 3476 bytes |
| Sizes.AstralDetailDoesNotFit | src/velvet_communications/local_ip_rpc.py:389-395 | an allowed reply that its frame cannot carry |
| Sizes.DeliveryFitsExactly | src/velvet_communications/local_ip.py:513-517 | the exact size of a delivery frame, and exactly when it can be sent |
| Sizes.DefaultPayloadNeverFits | src/velvet_communications/local_ip.py:596-601 | with the default limits a payload of the largest allowed size is never sendable |
| Wake.CheckRefs | src/velvet_communications/wake.py:288-302 | the sequential reference checks accept exactly at most eight distinct printable references of 1 to 160 characters |
| Wake.Request.Checked | src/velvet_communications/wake.py:75-101 | construction succeeds exactly for requests within all bounds |
| Wake.ValidExactly | src/velvet_communications/wake.py:75-95 | those bounds in numbers |
| Wake.DecodesExactly | src/velvet_communications/wake.py:149-196 | exactly which objects decode to a request: the fifteen fields at most, no claim, every entry of its type, references and summary optional |
| Wake.RoundTripAnyOrder | src/velvet_communications/wake.py:108-196 | a valid request reads back from its fields written in any key order, if they fit the cap |
| Wake.RoundTrip | src/velvet_communications/wake.py:108-196 | decoding undoes encoding whenever encoding succeeds |
| Wake.DecodedClaimsNothing | src/velvet_communications/wake.py:138-177 | whatever decodes is a valid request from an object with no unknown field and no claim to authority |
| Wake.EnvelopeRoundTrip | src/velvet_communications/wake.py:228-269 | a built envelope is valid, has the request's payload, source, priority, creation time and lifetime, and reads back exactly when the message id is the request's and the time is before expiry |
| Wake.EnvelopeReadsExactly | src/velvet_communications/wake.py:257-269 | exactly which envelopes give which request |
| Wake.BuildsExactly | src/velvet_communications/wake.py:228-254 | building fails exactly for a bad destination, a bad explicit id or a payload over the cap |
| WakeSizes.PayloadSize | src/velvet_communications/wake.py:108-135 | the exact payload length of a request |
| WakeSizes.EncodesExactly | src/velvet_communications/wake.py:126-135 | encoding succeeds exactly when that length is within 4096 |
| WakeSizes.PrintableRequestsEncode | src/velvet_communications/wake.py:75-135 | printable summaries and timestamps of up to 20 digits always encode, even with eight full references that all need escapes |
| WakeSizes.AstralSummaryDoesNotEncode | src/velvet_communications/wake.py:133-134 | a valid request that does not encode |
| Queueing.StoreAndForwardQueue.Create | src/velvet_communications/queueing.py:18-23 | refuses limits below one, otherwise gives an empty queue |
| Queueing.StoreAndForwardQueue.Prune | src/velvet_communications/queueing.py:35-40 | keeps exactly the unexpired items in order and counts the rest |
| Queueing.StoreAndForwardQueue.Enqueue | src/velvet_communications/queueing.py:25-33 | prunes, then accepts exactly an unexpired envelope of allowed size while fewer than `capacity` unexpired ones are held; overflows exactly when that count has reached it |
| Queueing.StoreAndForwardQueue.PopNext | src/velvet_communications/queueing.py:42-46 | prunes, then takes the front item, if any |
| Queueing.TakesEarliest | src/velvet_communications/queueing.py:42-46 | the ideal queue hands out the earliest unexpired envelope and keeps all the others |
| Queueing.TakesNoneIfAllExpired | src/velvet_communications/queueing.py:42-45 | and nothing when all have expired |
| Queueing.StepsAgree | src/velvet_communications/queueing.py:25-46 | one operation on the pruned queue and on the ideal one gives the same output and keeps them in step |
| Queueing.RefinesIdeal | src/velvet_communications/queueing.py:25-46 | for non-decreasing times the outputs of every run equal those of a queue that keeps every accepted, unpopped envelope, pops the earliest unexpired one and overflows on the live count |
| Queueing.RecordKeepsBalanced | src/velvet_communications/queueing.py:25-46 | with any clock, every accepted envelope is exactly one of popped, held and pruned, in order of acceptance and within capacity |
| Queueing.PrunesTheExpired | src/velvet_communications/queueing.py:35-40 | an operation prunes exactly the holdings that have expired by its time |
| Queueing.RecordShowsPop | src/velvet_communications/queueing.py:42-46 | what is handed out is the accepted envelope that the books move to the popped side |
| Queueing.BooksBalance | src/velvet_communications/queueing.py:25-46 | over every run the books stay balanced for what the queue holds, and nothing popped or pruned comes back |
| Queueing.Conservation | src/velvet_communications/queueing.py:25-46 | from empty, over every run, the envelopes reported accepted are those handed out, held or pruned, by content and by number |
| Routing.Select | src/velvet_communications/routing.py:24-51 | fails exactly when no offer is eligible; otherwise plans an eligible offer whose preference no eligible one undercuts and whose name is least by code points among those, the first of equals; degraded exactly for the three constrained radios |
| Routing.SelectsFirstLeast | src/velvet_communications/routing.py:45-51 | the first eligible position with the least preference and then the least name, in numbers and code points, is the one planned |
| Routing.NameIsOrderFree | src/velvet_communications/routing.py:30-51 | no reordering changes whether there is a plan or the transport it names |
| Routing.PlanIsOrderFreeIff | src/velvet_communications/routing.py:46-51 | the whole plan is the same for every order exactly when the least eligible offers are of one kind |
| Routing.EqualKeysGiveTwoPlans | src/velvet_communications/routing.py:45-51 | two valid offers with equal key and different kinds give a different plan in each order |
| Routing.DistinctKeysSettleKind | src/velvet_communications/routing.py:46-51 | which holds when no two different eligible offers share a key |
| Routing.UnchosenOffersDoNotMatter | src/velvet_communications/routing.py:30-51 | withdrawing any offer but the chosen one leaves the plan as it was |
| Emergency.FailsIffNoCandidate | src/velvet_communications/emergency.py:58-89 | the two passes fail exactly for an invalid beacon or when no offer is a candidate |
| Emergency.FailsBecause | src/velvet_communications/emergency.py:71-89 | why there is no plan for a valid beacon: no consent, no radio, or no radio that can carry it |
| Emergency.SelectsLeastCandidate | src/velvet_communications/emergency.py:58-89 | whatever they select is the first candidate that is protected if any is, then of least preference, then of least name by code points |
| Emergency.TwoPassesAreOne | src/velvet_communications/emergency.py:58-89 | and for a valid beacon that minimum is what they select |
| Emergency.UnprotectedOnlyAsLastResort | src/velvet_communications/emergency.py:75-89 | an unprotected choice is by consent, a radio, marked degraded, and only with no eligible protected offer |

## Left out

- Sockets, `bind`, `close`, `address`, timeouts and threads: operating-system input and output. Connections are byte
  streams in arbitrary chunks, and a client may time out at any moment.
- `load_secret_file`: file metadata. Peer ids and secrets in the configurations are taken as already
  normalised and of permitted length.
- The internals of HMAC, SHA-256, uuid and the clock: see the assumptions above.
- Json.ParseBytes: reads what the code emits (objects, lists, strings, integers, booleans). Floats, null, NaN, spaces, leading
  zeros, raw non-ASCII bytes and lone surrogates, which `json.loads` reads, are refused.
- LocalIp.PyStr: `str` of a nested list or object is abbreviated to `[...]` or `{...}`, since the text of the original depends
  on the insertion order of keys, which a map does not keep. Such a text is neither a valid id nor a priority, but it is
  accepted as a schema, which nothing checks: envelopes that the original would tell apart by such a schema are one here.
- Base64.Decode: follows `b64decode(..., validate=True)` of Python 3.8; later versions differ on spare padding.
- Framing.FrameBytes: a frame of 2^32 bytes or more, for which the original's header packing raises `struct.error`, is a refusal here.
- `isinstance` checks and constant `authority` fields of the dataclasses: types settle them.
- Error texts: a result carries the original's text. Which text belongs to which refusal is stated for deliveries, sends,
  reports, received frames, failed calls, the queue and the emergency selection, not for every check of a constructor or of a
  decoder.
- `new_wake_request` (a lifetime check before construction) and `offer` (a constant capability report).
- The carrier protocol in `adapters.py` (declarations only), the re-exports, and the privacy, relay and hardware policy
  in the documents, which no code decides.
- LocalIp.ValidateSigned: a signature of 64 characters that are not all ASCII is a mismatch here. In the original
  `hmac.compare_digest` raises `TypeError` for it: the server then refuses with another text, and a client's `send` or
  `request` raises instead of reporting.
- Liveness of delivery: the code bounds no retries and promises no eventual delivery.
