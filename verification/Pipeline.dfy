/** What a client can rely on from connect to response, put together from the parts. */
module Pipeline {
  import opened Wrappers
  import opened Text
  import opened HttpMethod
  import opened HttpMessage
  import opened HttpCodecSpec
  import opened HttpFraming
  import opened HttpRoundTrip
  import opened HttpResponse
  import opened HttpCodec
  import opened ConnectionSpec
  import opened RoutingSpec
  import opened Router
  import opened HttpsConnection
  import opened Uuid

  /** On every trace the bytes written are a prefix of one response, fixed by what was received, the
      registrations and the drawn values; process reports success exactly when a whole message was
      received and its response went out in full. */
  lemma EndToEnd(trace: seq<ReadOutcome>, bufsize: nat, writes: seq<WriteOutcome>,
                 routes: Option<seq<Registration<Handler>>>, lib: Library, d: Draws)
    ensures var (r, n) := Receive(trace, bufsize, "");
            var reply := Reply(r, routes, lib, d);
            var (status, out) := Outcome(r, reply, writes);
            (reply.None? ==> out == "") && (reply.Some? ==> out <= reply.value) &&
            (status == Done(true) <==> r.Message? && out == reply.value) &&
            (status == Done(true) ==>
               n <= |trace| && reply == Some(WireOf(lib, Answer(Payload(trace[..n]), routes, lib, d))))
  {
    var (r, n) := Receive(trace, bufsize, "");
    var reply := Reply(r, routes, lib, d);
    if reply.Some? {
      DeliverIff(|reply.value|, 0, writes);
      assert reply.value[..|reply.value|] == reply.value;
    }
    if r.Message? {
      MessageIsPayload(trace, bufsize);
    }
  }

  /** A message received in full is answered in full exactly when the answer has at most INT_MAX bytes and
      the peer takes them all before closing or failing. */
  lemma AnsweredIff(raw: string, writes: seq<WriteOutcome>,
                    routes: Option<seq<Registration<Handler>>>, lib: Library, d: Draws)
    ensures var answer := WireOf(lib, Answer(raw, routes, lib, d));
            Outcome(Message(raw), Reply(Message(raw), routes, lib, d), writes) == (Done(true), answer)
            <==> |answer| <= INT_MAX && Enough(|answer|, writes)
  {
    SentIff(raw, WireOf(lib, Answer(raw, routes, lib, d)), writes);
  }

  lemma SentIff(raw: string, bytes: string, writes: seq<WriteOutcome>)
    ensures Outcome(Message(raw), Some(bytes), writes) == (Done(true), bytes)
            <==> |bytes| <= INT_MAX && Enough(|bytes|, writes)
  {
    DeliverSucceedsIff(|bytes|, 0, writes);
    DeliverIff(|bytes|, 0, writes);
    assert bytes[..|bytes|] == bytes;
  }

  /** A request in the syntax of RFC 9112 reaches the first handler registered for its method and path,
      with every part as the client meant it; without one the client is told so under the request's id. */
  lemma PrintedRequestIsDispatched(r: Request, word: string, fs: seq<Field>, body: string,
                                   rs: seq<Registration<Handler>>, lib: Library, d: Draws)
    requires Spells(word, r.mtd) && OneLine(r.path) && ' ' !in r.path && OneLine(r.version)
    requires Enumerates(fs, r.headers) && Lower("Host") in r.headers
    requires forall f :: f in fs ==> Safe(f)
    requires if body == "" then r.body == Null else lib.json(body) == Some(r.body)
    requires !Contains(body[..Min(|body|, |word| + |r.path| + |r.version|)], CRLF)
    ensures Answer(PrintRequest(word, r.path, r.version, fs, body), Some(rs), lib, d) ==
            match FirstHandler(rs, GetLoc(r.mtd, r.path))
            case None => MakeResp(NotFound, d.requestId, d.now)
            case Some(h) => h(r.(id := d.requestId))
  {
    RequestRoundTrip(r, word, fs, body, lib.json, d.requestId);
  }

  /** From the client's bytes to the client's bytes: a well-formed request, delivered in whatever pieces and
      with whatever retries, gets exactly the response of the first handler registered for its method and
      path, if and only if the client takes what it is sent. */
  lemma RequestIsServed(r: Request, word: string, fs: seq<Field>, body: string,
                        trace: seq<ReadOutcome>, bufsize: nat, writes: seq<WriteOutcome>,
                        rs: seq<Registration<Handler>>, lib: Library, d: Draws)
    requires Spells(word, r.mtd) && OneLine(r.path) && ' ' !in r.path && OneLine(r.version)
    requires Enumerates(fs, r.headers) && Lower("Host") in r.headers
    requires forall f :: f in fs ==> Safe(f)
    requires if body == "" then r.body == Null else lib.json(body) == Some(r.body)
    requires !Contains(body[..Min(|body|, |word| + |r.path| + |r.version|)], CRLF)
    requires Delivers(trace, bufsize, PrintRequest(word, r.path, r.version, fs, body))
    ensures var received := Receive(trace, bufsize, "").0;
            var expected := WireOf(lib, match FirstHandler(rs, GetLoc(r.mtd, r.path))
                                        case None => MakeResp(NotFound, d.requestId, d.now)
                                        case Some(h) => h(r.(id := d.requestId)));
            Outcome(received, Reply(received, Some(rs), lib, d), writes) == (Done(true), expected)
            <==> |expected| <= INT_MAX && Enough(|expected|, writes)
  {
    var raw := PrintRequest(word, r.path, r.version, fs, body);
    PrintedRequestIsDispatched(r, word, fs, body, rs, lib, d);
    ReceivedIff(trace, bufsize, raw);
    AnsweredIff(raw, writes, Some(rs), lib, d);
  }

  /** In particular a request under the limit that arrives in reads as large as the buffer allows is delivered
      exactly when its length is not a multiple of the buffer size. */
  lemma ChunkedDeliversIff(raw: string, bufsize: nat)
    requires 0 < bufsize && |raw| < RECEPTION_BUF_LIMIT
    ensures Delivers(Chunked(raw, bufsize), bufsize, raw) <==> |raw| % bufsize != 0
  {
    ChunkedReceiveIff("", raw, bufsize);
    ReceivedIff(Chunked(raw, bufsize), bufsize, raw);
    assert "" + raw == raw;
  }

  // An identifier is a header value that cannot end its line or be mistaken for blanks.
  lemma UuidHeaderSafe(a: bv64, b: bv64)
    ensures Safe(Field("X-Request-Id", UuidText(a, b)))
  {
    UuidForm(a, b);
    HexTextSafe(UuidText(a, b));
  }

  lemma HexTextSafe(s: string)
    requires |s| == 36 && forall i :: 0 <= i < 36 ==> if i in {8, 13, 18, 23} then s[i] == '-' else IsHex(s[i])
    ensures Safe(Field("X-Request-Id", s))
  {
    forall i | 0 <= i < 36 ensures s[i] != '\r' {
      if i !in {8, 13, 18, 23} { assert IsHex(s[i]); }
    }
    assert IsHex(s[0]);
    NoCarriageReturn(s);
    NoCarriageReturn("X-Request-Id");
    assert ':' !in "X-Request-Id";
  }

  /** Every response the server makes itself, with a generated identifier, can be cut apart by the
      receiver: status line, the three headers, and exactly Content-Length bytes of body. */
  lemma OwnResponsesFramed(c: RetCode, a: bv64, b: bv64, now: int, lib: Library)
    requires Sound(lib)
    ensures var resp := MakeResp(c, UuidText(a, b), now);
            ReadsAs(WireOf(lib, resp), StatusLine(CodeOf(c) / 100, lib.reason(CodeOf(c) / 100)),
                    Framed(resp.headers, |lib.dump(resp.body)|), lib.dump(resp.body))
  {
    UuidHeaderSafe(a, b);
    SafeIdFramed(c, UuidText(a, b), now, lib);
  }

  lemma SafeIdFramed(c: RetCode, id: string, now: int, lib: Library)
    requires Sound(lib) && Safe(Field("X-Request-Id", id))
    ensures var resp := MakeResp(c, id, now);
            ReadsAs(WireOf(lib, resp), StatusLine(CodeOf(c) / 100, lib.reason(CodeOf(c) / 100)),
                    Framed(resp.headers, |lib.dump(resp.body)|), lib.dump(resp.body))
  {
    var resp := MakeResp(c, id, now);
    var f := Field("X-Request-Id", id);
    var fs := lib.order(resp.headers);
    OnlyRequestId(f);
    assert Enumerates(fs, resp.headers);
    forall g | g in fs ensures g == f {
      var i :| 0 <= i < |fs| && fs[i] == g;
    }
    FramedIff(resp.status, lib.reason(resp.status), resp.headers, fs, lib.dump(resp.body));
  }

  lemma OnlyRequestId(f: Field)
    requires f.name == "X-Request-Id"
    ensures Put(map[], f) == map["x-request-id" := f] && SpelledKeys(Put(map[], f))
    ensures "content-type" !in Put(map[], f) && "content-length" !in Put(map[], f)
  {
    assert Lower("X-Request-Id") == "x-request-id";
    assert "x-request-id"[0] == 'x' && "content-type"[0] == 'c' && "content-length"[0] == 'c';
  }
}
