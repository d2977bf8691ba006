# Verification model of the HTTP/HTTPS server

This project models the server's own logic in Dafny 4.11 and proves what a maintainer relies on when
changing it: the routing tree, the request parser and response printer, the connection loops, the
fork-per-client accept loop, the logging manager with its configuration watcher, and the identifiers
that tie requests to responses. `dafny verify dfyconfig.toml` checks everything.

## How it is organised

- `RoutingKeys`, `RoutingSpec`, `RoutingTree`, `Router`: paths to segment keys, the meaning of a run of
  registrations, the mutable tree of node objects that realises it, and `RouterManager` on top. The tree's
  `Linked` invariant gives every position its own node object; the positions and their handler slots are
  the whole abstract state, so "unchanged" means interior nodes too.
- `Text`, `HttpMethod`, `HttpMessage`: byte strings and CRLF lines, methods, header maps and the hashed
  container behind them.
- `HttpCodecSpec`, `HttpFraming`, `HttpRoundTrip`, `HttpResponse`, `HttpCodec`: the line-based meaning of
  parsing, messages as lines, a blank line and a body, requests and responses there and back, and the index
  loops of the codec with their `int` and `size_t` conversions written out.
- `ConnectionSpec`, `HttpsConnection`, `Pipeline`, `Refusals`: TLS reads and writes as an arbitrary finite trace of
  outcomes, the receive/send/process loops on it, the statements from connect to response, and what the
  client is told, field by field, when the server itself answers. A call that
  has used up its trace has not returned (`Waiting`), so every statement also covers unfinished calls.
- `Descriptors`, `AcceptLoop`: descriptor ownership objects, and the accept loop with one descriptor table
  per process and all interleavings of parent and children.
- `LogManager`, `LogWatcher`: the reload state machine, and the watcher thread against start and stop in
  all interleavings.
- `Uuid`: bit masks, shifts and padded hexadecimal printing on 64-bit words.

A byte is a `char`; the statements hold for all strings and so for all byte strings. Values drawn from
outside (clock, generator words, request and response identifiers, the accepted descriptor numbers, the
iteration order of a hash map, JSON reading and writing, reason phrases) are parameters.

## What the proofs brought to light

- `add` refuses a one-byte path other than `/`, while `get` looks it up as it stands, so asking for `x`
  answers with the route `/x` (`GetKeyAgrees`).
- The header view handed to the parser's loop takes the offset of the blank line as a length, so it reaches
  request-line length - 2 bytes into the body. The header map is still the one of the head under an exact
  condition on those bytes (`HeadersComeFromBlockIff`); `LeakingBody` is an accepted request that violates it.
- Header values are printed as they are. A response reads back as its handler meant it if and only if no name
  holds a colon, nothing holds a CRLF and every value is non-empty without a leading blank
  (`ResponseFraming`); a value with an embedded CRLF is, byte for byte, two headers
  (`EmbeddedCrlfIsTwoHeaders`). A handler that sets Content-Type or Content-Length itself overrides what
  the printer wrote (`FramedIff`).
- Receiving ends with a read that does not fill the buffer. While every read fills it or asks for a retry, and
  the limit is not reached, the call waits (`WaitsIff`); so a request that arrives in full reads is received
  if and only if its length is not a multiple of the buffer size (`ChunkedReceiveIff`).
- The chunk size handed to one write is the length that is left, converted to `int`; a response of more than
  INT_MAX bytes is therefore never sent in full (`DeliverSucceedsIff`).
- No process ever closes a descriptor that it does not have. The destructors take 0 for an empty slot, so a
  client accepted on descriptor 0 is left open in the parent and inherited by every later child; that is all
  that can be left behind, and it cannot happen if and only if descriptor 0 is in use when the loop starts
  (`DescriptorSafety`, `LeaksIff`, `NeverLeaksIff`, `NoForeignClientIff`, `DoneMeansClosedIff`).
- When the watcher thread has ended on its own, the event that the next stop triggers stays queued and ends
  the watcher of the following start, and so on for ever (`OneFailureEndsEveryWatcher`). The result of the
  triggering call is ignored: if it fails, stop may wait for a worker that nothing ends (`LostTriggerHangs`).
- README.md:186 of the server documents a flat method+path registry; the code is a segment tree. On paths
  that begin with a slash both answer alike (`FlatAgreement`).

## Model

| member | source | states |
|---|---|---|
| RoutingKeys.JoinSplit | src/routing/include/project/routing/routing_tree.h:98-120 | the segments found by the slash scan are slash-free and join back to the path |
| RoutingKeys.SplitJoin | src/routing/include/project/routing/routing_tree.h:98-120 | every non-empty list of slash-free segments is the split of exactly its join |
| RoutingKeys.SameAddKey | src/routing/include/project/routing/routing_tree.h:87-122 | two accepted paths share a key iff they agree from the first slash on, apart from the literal key of `/` |
| RoutingKeys.RootedKeysDistinct | src/routing/include/project/routing/routing_tree.h:87-122 | paths that begin with a slash, empty segments included, are accepted and told apart by their keys |
| RoutingKeys.GetKeyAgrees | src/routing/include/project/routing/routing_tree.h:135-142 | lookup and registration agree on a path iff it is not a one-byte path other than `/`; those alias the slashed route |
| RoutingKeys.AcceptedPaths | src/routing/include/project/routing/routing_tree.h:87-99 | a path can be registered iff it is `/` or has two bytes or more and a slash anywhere; a lookup also takes every one-byte path |
| RoutingKeys.PrefixIgnored | src/routing/include/project/routing/routing_tree.h:95-99 | what precedes the first slash does not matter, to registration and lookup alike |
| RoutingKeys.ServesIff | src/routing/include/project/routing/routing_tree.h:87-173 | which lookups a registered path answers, stated on the two texts from the first slash on |
| RoutingSpec.RunIsFirstHandler | src/routing/include/project/routing/routing_tree.h:177-193 | after any run of registrations a position holds the first non-null handler offered for its key |
| RoutingSpec.LookupFindsFirst | src/routing/include/project/routing/routing_tree.h:79-193 | after any run a lookup finds the handler of the first registration that offers one for its method and a path that serves it, else none |
| RoutingSpec.PrefixedRoute | src/routing/include/project/routing/routing_tree.h:95-99 | a route under `prefix/s` is the route under `/s`: same tree, same lookups, found either way |
| RoutingSpec.RunShape | src/routing/include/project/routing/routing_tree.h:95-122 | the nodes are exactly the non-empty prefixes of the keys offered |
| RoutingSpec.RefusedAddNothing | src/routing/include/project/routing/routing_tree.h:95-122 | they are equally the prefixes of the keys that were accepted when they came, so a refused registration adds no node |
| RoutingSpec.OrderIrrelevant | src/routing/include/project/routing/routing_tree.h:79-124 | registrations with pairwise distinct keys give the same tree in every order |
| RoutingSpec.FlatNameInjective | README.md:186-186 | method names and rooted paths can be recovered from their concatenation |
| RoutingSpec.FlatAgreement | README.md:186-186 | on rooted paths the tree answers as the documented flat method+path registry, after every run |
| RoutingTree.MakeRoot | src/routing/include/project/routing/routing_tree.h:57-66 | five separate empty roots, one per method |
| RoutingTree.Tree.constructor | src/routing/include/project/routing/routing_tree.h:75-76 | a new tree is well linked and has no nodes below its roots |
| RoutingTree.Tree.Emplace | src/routing/include/project/routing/routing_tree.h:111-113 | one fresh node is linked in and every other slot is kept |
| RoutingTree.Tree.SetElem | src/routing/include/project/routing/routing_tree.h:176-193 | refuses iff the slot holds a handler, and then changes nothing; otherwise sets just that slot |
| RoutingTree.Tree.Add | src/routing/include/project/routing/routing_tree.h:79-124 | the mutable tree performs one specified registration, and a refused one leaves every node as it was |
| RoutingTree.Tree.Descend | src/routing/include/project/routing/routing_tree.h:94-119 | the descending loop adds exactly the missing interior nodes on the way to the key it splits off the path |
| RoutingTree.Tree.AddBelow | src/routing/include/project/routing/routing_tree.h:94-122 | a free key is inserted with its missing prefixes; for an occupied one every slot stays as it was |
| RoutingTree.Tree.Get | src/routing/include/project/routing/routing_tree.h:127-173 | lookup returns the handler slot of the path's position, none where no node is |
| RoutingTree.Tree.GetBelow | src/routing/include/project/routing/routing_tree.h:143-171 | a missing interior node already means that the position does not exist |
| RoutingTree.InsertAfterGrow | src/routing/include/project/routing/routing_tree.h:104-121 | growing towards a slot that proves occupied has added nothing |
| Router.RouterManager.Init | src/routing/include/project/routing/router.h:133-152 | a new router with no registrations, replacing an old one |
| Router.RouterManager.Register | src/routing/src/router.cc:17-129 | reports an uninitialised router; otherwise true iff method and path are valid and no handler is registered yet under that key |
| Router.RouterManager.Route | src/routing/src/router.cc:132-147 | dispatches to the first handler registered for method and path, or answers not found under the request's id |
| HttpMethod.LowerLetters | src/server/src/http/http_message.cc:13-14 | case folding changes exactly the 26 capital letters, each into its small one |
| HttpMethod.RecognisedIff | src/server/src/http/http_message.cc:8-22 | which text stands for which method: exactly the five names in any case |
| HttpMethod.MethodRoundTrip | src/server/src/http/http_message.cc:8-22 | a text stands for a method iff it spells its name in any case; parsing undoes printing |
| HttpMessage.PutAllMeaning | src/server/src/http/http_codec.cc:62-68 | after any insertions a name has its last value and its first spelling |
| HttpMessage.EqualNamesIsLowerEquality | src/server/include/project/server/http/http_message.h:29-37 | the comparison functor is equality of lower-cased names, hence an equivalence |
| HttpMessage.RehashRepresents | src/server/include/project/server/http/http_message.h:20-37 | dealing the entries out to other buckets, in any order, changes no lookup |
| HttpMessage.TableRefinesHeaders | src/server/include/project/server/http/http_message.h:20-37 | the hashed container, filled in any way and rehashed at any time, answers every lookup as the map of lower-cased names, for every base hash |
| Text.IndexOfMeaning | src/server/src/http/http_codec.cc:16-17 | a search yields the leftmost occurrence, or there is none |
| Text.UnlinesLines | src/server/src/http/http_codec.cc:46-73 | the lines and the unterminated rest make up the whole text |
| Text.LinesUnlines | src/server/src/http/http_codec.cc:46-73 | a block of terminated lines contributes exactly its own lines, whatever follows |
| HttpCodecSpec.FieldsSeen | src/server/src/http/http_codec.cc:44-73 | with a blank line present the fields read are those of the head followed by those of the overshoot |
| HttpCodecSpec.HeadersComeFromBlockIff | src/server/src/http/http_codec.cc:44-73 | the header map is that of the head iff every name set by an overshoot line has its last value there already |
| HttpCodecSpec.ParsedHeadersIff | src/server/src/http/http_codec.cc:9-103 | every accepted request with a blank line has exactly the headers of its head iff that condition holds |
| HttpCodecSpec.CleanBodyAddsNothing | src/server/src/http/http_codec.cc:44-73 | no CRLF within the first request-line length - 2 body bytes means no added fields |
| HttpCodecSpec.RequestLineWords | src/server/src/http/http_codec.cc:24-36 | a request line is cut at its first two spaces, and what becomes of one with fewer |
| HttpCodecSpec.HeaderLine | src/server/src/http/http_codec.cc:54-68 | a header line is cut at its first colon, leading blanks of the value go unless nothing follows, and without a colon there is no header |
| HttpCodecSpec.BodyMeaning | src/server/src/http/http_codec.cc:84-96 | the body is what follows the first blank line; null without one or with nothing after it |
| HttpCodecSpec.AcceptedIff | src/server/src/http/http_codec.cc:9-103 | when bytes are accepted as a request and which request they are |
| HttpCodecSpec.HeadNeverEnds | src/server/src/http/http_codec.cc:16-96 | without a blank line every terminated line is read as a header and the body is null |
| HttpFraming.FieldLineRoundTrip | src/server/src/http/http_codec.cc:54-68 | a printed field reads back iff its name has no colon and its value is non-empty without a leading blank |
| HttpFraming.BlankLineEndsHead | src/server/src/http/http_codec.cc:17-17 | the first blank line of a message whose lines are non-empty and free of CRLF is the one that ends its head |
| HttpFraming.MessageComesApart | src/server/src/http/http_codec.cc:16-20 | such a message comes apart into its first line, its header lines and its body |
| HttpRoundTrip.RequestLineRoundTrip | src/server/src/http/http_codec.cc:24-36 | method, path and version are recovered from a printed request line, the method in any spelling |
| HttpRoundTrip.RequestRoundTrip | src/server/src/http/http_codec.cc:9-103 | parsing a request printed by sections 3 and 5 of RFC 9112, its method in any case, gives it back under the fresh id, in any header order |
| HttpRoundTrip.BodyLineBecomesHeader | src/server/src/http/http_codec.cc:44-73 | any CRLF-free body line with a colon that ends inside the overshoot is taken as a header |
| HttpRoundTrip.BodyHeaderIsAccepted | src/server/src/http/http_codec.cc:9-103 | a printed request whose body starts with such a line is accepted, with a header under that name |
| HttpRoundTrip.LeakingBody | src/server/src/http/http_codec.cc:9-103 | a concrete request, accepted with a header from its JSON body that its head does not have |
| HttpResponse.DecimalRoundTrip | src/server/src/http/http_codec.cc:113-114 | decimal printing is inverted by decimal reading |
| HttpResponse.DecimalDigit | src/server/src/http/http_codec.cc:113-114 | printed numbers are ordinary decimal, digit by digit |
| HttpResponse.StatusLineOnTheWire | src/server/src/http/http_codec.cc:113-114 | the first line sent is HTTP/1.1, the status in plain decimal, three digits for 100 to 999, and the reason, whatever the headers hold |
| HttpResponse.WireBytes | src/server/src/http/http_codec.cc:113-123 | the response byte for byte |
| HttpResponse.ResponseFraming | src/server/src/http/http_codec.cc:106-124 | status line, header map (the printer's two fields and then the handler's entries) and body are recovered from a serialized response iff every entry is free of CRLF, of colons in names, and of empty or blank-led values |
| HttpResponse.FramedIff | src/server/src/http/http_codec.cc:112-118 | the printer's own two fields then read back as the printer set them iff the handler leaves their values alone |
| HttpResponse.EmbeddedCrlfIsTwoHeaders | src/server/src/http/http_codec.cc:116-118 | a value with an embedded CRLF and field line is, byte for byte, two header entries |
| HttpResponse.EmbeddedCrlfExample | src/server/src/http/http_codec.cc:116-118 | at such a header the receiver reads an entry that the handler never set |
| HttpResponse.HiddenSplit | src/server/src/http/http_codec.cc:112-118 | an unsafe entry under the printer's own name can go unnoticed, so the two conditions cannot be merged into one |
| HttpResponse.ContentLengthCounts | src/server/src/http/http_codec.cc:113-114 | Content-Length reads back as the number of body bytes, without leading zeros |
| HttpCodec.FindCast | src/server/src/http/http_codec.cc:16-18 | up to INT_MAX bytes the int casts of search results are faithful, with -1 standing for npos |
| HttpCodec.CastsWrap | src/server/src/http/http_codec.cc:16-18 | the integer conversions wrap modulo 2 to the 32nd and 2 to the 64th |
| HttpCodec.ParseTargets | src/server/src/http/http_codec.cc:26-36 | the request line is cut as specified even when one or both spaces are missing; no position is out of range |
| HttpCodec.ParseHeaders | src/server/src/http/http_codec.cc:46-73 | the two-index loop terminates and equals the fold of insertions over the CRLF-terminated lines |
| HttpCodec.ParseBody | src/server/src/http/http_codec.cc:84-96 | the body is what follows the blank line, null when there is none or nothing follows |
| HttpCodec.Parse | src/server/src/http/http_codec.cc:9-103 | parse computes the line-based meaning on every input up to INT_MAX bytes without overflow or bad position |
| HttpCodec.Serialize | src/server/src/http/http_codec.cc:106-124 | the appended output is the message made of its lines, a blank line and the body |
| ConnectionSpec.ReceiveIff | src/server/src/http/https_connection.cc:62-112 | receiving ends at read k iff k is the first short, overflowing, closing or failing read, and which outcome it is |
| ConnectionSpec.MessageIsPayload | src/server/src/http/https_connection.cc:62-121 | a received message is exactly the concatenated chunks, under the limit, all but the last filling the buffer |
| ConnectionSpec.ReceivedIff | src/server/src/http/https_connection.cc:62-121 | a message is received iff a short read completes it after reads that all filled the buffer or asked for a retry, under the limit |
| ConnectionSpec.WaitsIff | src/server/src/http/https_connection.cc:62-112 | the call goes on waiting iff every read so far filled the buffer or asked for a retry and the limit is not reached |
| ConnectionSpec.OverflowIff | src/server/src/http/https_connection.cc:65-72 | the request is refused at a read iff the running total reaches 8192 there |
| ConnectionSpec.EndsAs | src/server/src/http/https_connection.cc:62-112 | after full reads and retries under 8192 bytes: close, failure, 8192 bytes or more and a short read each end receiving as what they are |
| ConnectionSpec.ReadBound | src/server/src/http/https_connection.cc:62-83 | at most ceil(8192 / bufsize) positive reads are made |
| ConnectionSpec.DeliverIff | src/server/src/http/https_connection.cc:126-171 | send succeeds iff every byte has gone out |
| ConnectionSpec.DeliverSucceedsIff | src/server/src/http/https_connection.cc:131-164 | send succeeds iff at most INT_MAX bytes are to go out and the peer takes them all, in any pieces, before closing or failing |
| ConnectionSpec.DeliverWaitsIff | src/server/src/http/https_connection.cc:131-164 | send has not returned iff every write so far was a retry or took bytes and something is left, and how much is out by then |
| HttpsConnection.Connection.Send | src/server/src/http/https_connection.cc:126-171 | the bytes handed over are always a prefix of the response, without gap, repeat or reorder, for any response size |
| HttpsConnection.Connection.Recv | src/server/src/http/https_connection.cc:56-122 | the loop follows the trace function, its byte counter never overflows, and refusals are answered with the right response |
| HttpsConnection.Connection.Execution | src/server/src/http/http_codec.cc:136-158 | the output is the serialized answer to the parsed and dispatched request |
| HttpsConnection.Connection.Process | src/server/src/http/https_connection.cc:44-53 | status and bytes written are those of the one reply fixed by the trace, the registrations and the drawn values |
| Pipeline.EndToEnd | src/server/src/http/https_connection.cc:44-171 | on every trace the output is a prefix of one response; success iff a message arrived and its answer went out in full |
| Pipeline.AnsweredIff | src/server/src/http/https_connection.cc:44-53 | a received message is answered in full iff its answer has at most INT_MAX bytes and the peer takes them all |
| Pipeline.PrintedRequestIsDispatched | src/server/src/http/http_codec.cc:136-158 | a well-formed request reaches the first handler registered for its method and path with every part intact, else not found |
| Refusals.AnswerByCase | src/server/src/http/http_codec.cc:136-158 | no request: 400 with 40000; no router: 500 with 50000; no route: 404 with 40400 under the request's id; else the first offered handler's response |
| Refusals.PrintedAnswer | src/server/src/http/http_codec.cc:136-158 | a printed request gets the first offered handler's response or the 404 refusal, member by member |
| Refusals.RefusedRead | src/server/src/http/https_connection.cc:65-112 | 8192 bytes or more are told 413 with 41300, a failed read 500 with 50000, and a closed client gets nothing |
| Refusals.RefusalOutcome | src/server/src/http/https_connection.cc:65-112 | how process ends after a refusal, and what is out by then |
| Refusals.AnswerOutcome | src/server/src/http/https_connection.cc:44-53 | how process ends after an answer, and what is out by then |
| Refusals.ResponseBytes | src/server/src/http/http_codec.cc:106-124 | every response goes out with its own status and its phrase, its own entries and its own body |
| ConnectionSpec.ChunkedReceiveIff | src/server/src/http/https_connection.cc:62-112 | a message under the limit arriving in full reads is received iff its length is not a multiple of the buffer size |
| Pipeline.ChunkedDeliversIff | src/server/src/http/https_connection.cc:62-112 | reads as large as the buffer allows deliver a request iff its length is not a multiple of the buffer size |
| Pipeline.RequestIsServed | src/server/src/http/https_connection.cc:44-171 | a well-formed request, delivered in any pieces and with any retries, gets exactly the response of the first handler registered for it iff the client takes it |
| Pipeline.OwnResponsesFramed | src/server/src/http/http_message.cc:31-55 | every response the server makes itself, with a generated identifier, can be cut apart by its receiver |
| Uuid.PaddingIsHex | src/common/src/uuid.cc:16-22 | padding what the stream prints to a width that fits gives exactly that many digits |
| Uuid.GenerateUuidV4 | src/common/src/uuid.cc:6-24 | the generated text is the dashed groups of the masked words |
| Uuid.UuidForm | src/common/src/uuid.cc:13-22 | 36 characters in 8-4-4-4-12 groups, version digit 4, variant digit 8, 9, a or b (section 5.4 of RFC 9562) |
| Uuid.DecodeFormat | src/common/src/uuid.cc:16-22 | reading the groups back returns both words |
| Uuid.GroupsInOrder | src/common/src/uuid.cc:13-22 | the five groups are the bits of the two masked words from the top down |
| Uuid.DigitLetters | src/common/src/uuid.cc:17-17 | the sixteen digits, letters in lower case |
| Uuid.UnhexDigit | src/common/src/uuid.cc:16-22 | what reading hexadecimal means: the value of every digit, and a shift by four for each one more |
| Uuid.UuidInjective | src/common/src/uuid.cc:11-23 | identifiers are equal iff the 60 and 62 bits that the two mask literals leave alone are |
| Descriptors.ServeChild | src/server/src/http/http_server.cc:217-224 | the child's block gives up the listener and its client exactly once and nothing else |
| AcceptLoop.InvRuns | src/server/src/http/http_server.cc:202-226 | the descriptor invariant holds in every state of every interleaving, whatever the server starts with |
| AcceptLoop.DescriptorSafety | src/server/src/http/http_server.cc:202-226 | no process closes what it does not have; between iterations, in a child of another client and once a client is done, at most a socket on descriptor 0 is left, and only if 0 was free at the start |
| AcceptLoop.ChildTable | src/server/src/http/http_server.cc:202-226 | exactly what every child has open, apart from the spare number, at each point of its life |
| AcceptLoop.StepsApart | src/server/src/http/http_server.cc:202-226 | a child's step changes neither the parent nor another child, and children come and go only by fork, exit and kill |
| AcceptLoop.ParentSteps | src/server/src/http/https_server.cc:85-114 | one iteration of the parent: the client is held under its number and given back when the handshake fails or the scope ends |
| AcceptLoop.UnwindingWouldCloseTwice | src/server/src/http/http_server.cc:219-223 | destroying the moved-from object in a finished child would be a second close, unless it names 0 |
| AcceptLoop.LeaksIff | src/server/include/project/server/http/http_connection.h:41-45 | back in accept the parent has what it began with iff no client of the run was accepted on descriptor 0 |
| AcceptLoop.NeverLeaksIff | src/server/include/project/server/http/http_connection.h:41-45 | that holds in every run iff descriptor 0 is in use from the start |
| AcceptLoop.NoForeignClientIff | src/server/src/http/http_server.cc:202-226 | no child has another client's socket in any run iff descriptor 0 is in use from the start |
| AcceptLoop.DoneMeansClosedIff | src/server/src/http/http_server.cc:202-226 | a client that is done is open nowhere in any run iff descriptor 0 is in use from the start |
| LogManager.ActiveLogger | src/logging/src/manager/logging_manager.cc:57-70 | the active logger is that of the last configuration that was valid and yielded a Logger |
| LogManager.PauseFlag | src/logging/src/manager/logging_manager.cc:131-147 | the pause flag is that of the last event that set it, refused configurations included |
| LogManager.OneMore | src/logging/src/manager/logging_manager.cc:57-90 | what one more event of each kind does to logger and pause flag |
| LogManager.LoadIff | src/logging/src/manager/logging_manager.cc:117-173 | which configurations are valid, refused or throw, read off their fields |
| LogManager.ReloadedIff | src/logging/src/manager/logging_manager.cc:57-70 | init succeeds iff the configuration is valid and its Logger constructible, and throws only where the parser does |
| LogManager.PauseEffectIff | src/logging/src/manager/logging_manager.cc:132-147 | only a boolean enabled field touches the pause flag, and how |
| LogManager.SinksInOrder | src/logging/src/manager/logging_manager.cc:165-170 | the sinks are those created, in the order of their entries |
| LogManager.LevelNames | src/common/src/status/log.cc:6-15 | the six level names and no other text |
| LogManager.LevelOrder | src/common/include/project/common/status/log.h:17-26 | the order of the levels |
| LogManager.MessageReaches | src/logging/src/manager/logging_system.cc:8-16 | a message reaches the active sinks iff there is a logger, it is not paused and the level suffices; the filter in front looks at logger and level alone |
| LogManager.LogManager.Init | src/logging/src/manager/logging_manager.cc:57-70 | one reload: the pause effect, and the new logger if the configuration is valid and the Logger can be constructed |
| LogManager.LogManager.ParseLogConfig | src/logging/src/manager/logging_manager.cc:117-173 | the verdict on a configuration and its effect on the pause flag, which survives later refusal |
| LogWatcher.InvRuns | src/logging/src/config/impl/macos.cc:48-147 | the lifecycle invariant holds in every state of every interleaving |
| LogWatcher.LoggerInForce | src/logging/src/config/impl/macos.cc:124-126 | along every run the active logger is that of the last completed reload that was valid and yielded one, before that of the first configuration |
| LogWatcher.FlagInForce | src/logging/src/manager/logging_system.cc:141-196 | along every run the pause flag is the one its steps leave, and a logger is handed out exactly while it is clear |
| LogWatcher.StopIsFinal | src/logging/src/manager/logging_system.cc:185-196 | after stop no callback runs and no logger is handed out until the next start |
| LogWatcher.StopCanFinishIff | src/logging/src/config/impl/macos.cc:56-71 | the join of a stop can end without a failure iff the event is queued or the worker has returned; always, unless a triggering call failed |
| LogWatcher.StopFinishes | src/logging/src/config/impl/macos.cc:56-71 | then at most three worker steps and the join itself complete it |
| LogWatcher.LostTriggerHangs | src/logging/src/config/impl/macos.cc:63-71 | a failing triggering call, whose result is ignored, can leave the join without an end |
| LogWatcher.PauseBeforeJoinIsUndone | src/logging/src/manager/logging_system.cc:194-195 | pausing before the join would be undone by a reload in progress |
| LogWatcher.WatcherLives | src/logging/src/config/impl/macos.cc:74-147 | while the event call has never failed, a started system has a live watcher |
| LogWatcher.StaleTriggerEndsNextWatcher | src/logging/src/config/impl/macos.cc:56-71 | after a failure the queued event of a stop ends the watcher of the next start |
| LogWatcher.OneFailureEndsEveryWatcher | src/logging/src/config/impl/macos.cc:56-147 | one failure can end the watcher of any number of later starts |
| LogWatcher.MayLoseWatcherIff | src/logging/src/config/impl/macos.cc:56-71 | the next start can lose its worker by itself iff, in the last stop that triggered, the worker was gone before the event could reach it: returned already, or failed during the join |
| LogWatcher.MayNotLoseBeforeTrigger | src/logging/src/config/impl/macos.cc:56-71 | before any stop has triggered the event it cannot |

## Left out

- Plain HTTP receiving (http_connection.cc:46-95): it appends the buffer without its length, so the bytes kept are not the bytes read; the TLS loop is modelled instead.
- Sockets, address resolution, socket options, the TLS handshake and the lifetime of SSL objects: calls into the system and OpenSSL. A handshake appears in the accept loop as a step that may fail.
- `std::unordered_map`: when it rehashes and how it orders a bucket are left free; iteration and erasure are not modelled on buckets. The hash maps of route segments are taken as finite maps.
- JSON, YAML and formatting libraries: parameters. Exceptions of theirs other than a JSON parse error end a process that runs inside `noexcept`, which is not modelled.
- Handlers are functions of the request; effects of a handler on anything else are not modelled.
- HttpCodec.Parse: inputs over INT_MAX bytes, on which the casts wrap, are excluded; receiving never produces them.
- HttpsConnection.Connection.Recv: buffer sizes that are not positive, which listening refuses, or so large that the byte counter could overflow are excluded.
- Plain HTTP sending (http_connection.cc:115-148): the same loop without the conversion of the chunk size to int.
- `LogSystem::Start(path)`, a second `Init`, a failing `Init` and `Start` on a running watcher: they replace or abandon objects in use without synchronisation.
- The unsynchronised reads of the pause flag and the logger are taken as atomic steps.
- Status and return-code tables beyond the four codes the server itself sends: plain enumerations. Log formatting and file output do not affect results.
- Rendering of the socket address and port of a client: only logged.
