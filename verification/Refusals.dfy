/** What a client is told when the server itself answers, field by field, and when it is told that. */
module Refusals {
  import opened Wrappers
  import opened Text
  import opened HttpMethod
  import opened HttpMessage
  import opened HttpCodecSpec
  import opened HttpFraming
  import opened HttpRoundTrip
  import opened HttpResponse
  import opened HttpCodec
  import opened ConnectionSpec
  import opened RoutingSpec
  import opened Router
  import opened HttpsConnection

  // A response of the server's own: status, identifier header and the four members of the body.
  predicate Tells(resp: Response, status: nat, code: nat, mesg: string, id: string, now: int) {
    && resp.status == status
    && resp.headers == map["x-request-id" := Field("X-Request-Id", id)]
    && resp.body == Object([("retCode", Number(code)), ("retMesg", Text(mesg)), ("time", Number(now)),
                            ("result", Object([]))])
  }

  predicate BadRequest(resp: Response, d: Draws) {
    Tells(resp, 400, 40000, "Invalid JSON or parameters", d.responseId, d.now)
  }

  predicate TooLarge(resp: Response, d: Draws) {
    Tells(resp, 413, 41300, "Request exceeded receive buffer size", d.responseId, d.now)
  }

  predicate Internal(resp: Response, d: Draws) {
    Tells(resp, 500, 50000, "Internal error", d.responseId, d.now)
  }

  // The one refusal under the identifier of the request.
  predicate NoSuchRoute(resp: Response, d: Draws) {
    Tells(resp, 404, 40400, "Resource not found", d.requestId, d.now)
  }

  lemma MadeTells(c: RetCode, id: string, now: int)
    ensures c.InvalidJsonOrParams? ==> Tells(MakeResp(c, id, now), 400, 40000, "Invalid JSON or parameters", id, now)
    ensures c.NotFound? ==> Tells(MakeResp(c, id, now), 404, 40400, "Resource not found", id, now)
    ensures c.RequestBufferOverflow? ==>
              Tells(MakeResp(c, id, now), 413, 41300, "Request exceeded receive buffer size", id, now)
    ensures c.InternalError? ==> Tells(MakeResp(c, id, now), 500, 50000, "Internal error", id, now)
  {
    IdLowered();
  }

  lemma IdLowered()
    ensures Lower("X-Request-Id") == "x-request-id"
  {
  }

  /** Bytes that are no request are answered 400; a request without a router 500; a request without a route 404;
      and any other with the response of the first handler offered for its method and path. */
  lemma AnswerByCase(raw: string, rs: seq<Registration<Handler>>, lib: Library, d: Draws, i: nat)
    ensures Parsed(raw, lib.json, d.requestId).None? ==>
              BadRequest(Answer(raw, None, lib, d), d) && BadRequest(Answer(raw, Some(rs), lib, d), d)
    ensures Parsed(raw, lib.json, d.requestId).Some? ==> Internal(Answer(raw, None, lib, d), d)
    ensures Parsed(raw, lib.json, d.requestId).Some? ==>
              var req := Parsed(raw, lib.json, d.requestId).value;
              i <= |rs| && (forall j :: 0 <= j < i ==> !Offers(rs, j, req.mtd, req.path)) ==>
                (i == |rs| ==> NoSuchRoute(Answer(raw, Some(rs), lib, d), d)) &&
                (i < |rs| && Offers(rs, i, req.mtd, req.path) ==>
                   Answer(raw, Some(rs), lib, d) == rs[i].handler.value(req))
  {
    MadeTells(InvalidJsonOrParams, d.responseId, d.now);
    MadeTells(InternalError, d.responseId, d.now);
    MadeTells(NotFound, d.requestId, d.now);
    match Parsed(raw, lib.json, d.requestId) {
      case None =>
      case Some(req) =>
        AcceptedIff(raw, lib.json, d.requestId);
        if i <= |rs| && forall j :: 0 <= j < i ==> !Offers(rs, j, req.mtd, req.path) {
          RunIsFirstHandler(rs, GetLoc(req.mtd, req.path));
          LookupFindsFirst(rs, req.mtd, req.path, i);
        }
    }
  }

  /** A printed request, its method in any spelling, gets the response of the first handler offered for its method
      and path, or is told that there is none. */
  lemma PrintedAnswer(r: Request, word: string, fs: seq<Field>, body: string,
                      rs: seq<Registration<Handler>>, lib: Library, d: Draws, i: nat)
    requires Spells(word, r.mtd) && OneLine(r.path) && ' ' !in r.path && OneLine(r.version)
    requires Enumerates(fs, r.headers) && Lower("Host") in r.headers
    requires forall f :: f in fs ==> Safe(f)
    requires if body == "" then r.body == Null else lib.json(body) == Some(r.body)
    requires !Contains(body[..Min(|body|, |word| + |r.path| + |r.version|)], CRLF)
    requires i <= |rs| && forall j :: 0 <= j < i ==> !Offers(rs, j, r.mtd, r.path)
    ensures var answer := Answer(PrintRequest(word, r.path, r.version, fs, body), Some(rs), lib, d);
            (i == |rs| ==> NoSuchRoute(answer, d)) &&
            (i < |rs| && Offers(rs, i, r.mtd, r.path) ==> answer == rs[i].handler.value(r.(id := d.requestId)))
  {
    RequestRoundTrip(r, word, fs, body, lib.json, d.requestId);
    AnswerByCase(PrintRequest(word, r.path, r.version, fs, body), rs, lib, d, i);
  }

  /** What is written when receiving ends without a message: a request of 8192 bytes or more is told so, a failed
      read is an internal error, and a client that has closed gets nothing. */
  lemma RefusedRead(trace: seq<ReadOutcome>, bufsize: nat, k: nat, resp: Response,
                    routes: Option<seq<Registration<Handler>>>, lib: Library, d: Draws)
    requires k < |trace| && AllContinue(trace, bufsize, k) && |Payload(trace[..k])| < 8192
    ensures var reply := Reply(Receive(trace, bufsize, "").0, routes, lib, d);
            (trace[k] == ReadClosed ==> reply == None) &&
            (trace[k] == ReadFailed && Internal(resp, d) ==> reply == Some(WireOf(lib, resp))) &&
            (trace[k].Data? && |Payload(trace[..k + 1])| >= 8192 && TooLarge(resp, d) ==>
               reply == Some(WireOf(lib, resp)))
  {
    EndsAs(trace, bufsize, k);
    MadeTells(InternalError, d.responseId, d.now);
    MadeTells(RequestBufferOverflow, d.responseId, d.now);
  }

  /** How process ends when a refusal is written from recv: never with success, and with a return unless the writes
      run out before all of it has gone; what has gone is the beginning of it. */
  lemma RefusalOutcome(r: Received, bytes: string, writes: seq<WriteOutcome>)
    requires !r.Message?
    ensures var (status, out) := Outcome(r, Some(bytes), writes);
            out <= bytes &&
            (status == Waiting <==>
               bytes != "" && AllGoOn(|bytes|, writes) && (|bytes| <= INT_MAX ==> Accepted(writes) < |bytes|)) &&
            (status != Waiting ==> status == Done(false)) &&
            (out == bytes <==> |bytes| <= INT_MAX && Enough(|bytes|, writes))
    ensures Outcome(r, None, writes) == (if r == Pending then Waiting else Done(false), "")
  {
    DeliverIff(|bytes|, 0, writes);
    DeliverWaitsIff(|bytes|, 0, writes);
    DeliverSucceedsIff(|bytes|, 0, writes);
    assert bytes[..|bytes|] == bytes;
  }

  /** And when an answer is written: success when all of it has gone, failure when a write ended it before. */
  lemma AnswerOutcome(raw: string, bytes: string, writes: seq<WriteOutcome>)
    ensures var (status, out) := Outcome(Message(raw), Some(bytes), writes);
            out <= bytes &&
            (status == Waiting <==>
               bytes != "" && AllGoOn(|bytes|, writes) && (|bytes| <= INT_MAX ==> Accepted(writes) < |bytes|)) &&
            (status == Done(true) <==> |bytes| <= INT_MAX && Enough(|bytes|, writes)) &&
            (status == Done(true) <==> out == bytes)
  {
    DeliverIff(|bytes|, 0, writes);
    DeliverWaitsIff(|bytes|, 0, writes);
    DeliverSucceedsIff(|bytes|, 0, writes);
    assert bytes[..|bytes|] == bytes;
  }

  /** The bytes of any response: its own status with the phrase of that status, its header entries in the order in
      which the map hands them out, and its own body. */
  lemma ResponseBytes(lib: Library, resp: Response)
    requires Sound(lib)
    ensures var s, body := WireOf(lib, resp), lib.dump(resp.body);
            Contains(s, CRLF) &&
            (var (version, code, phrase) := RequestLine(s[..LineLength(s)]);
             version == "HTTP/1.1" && phrase == lib.reason(resp.status) && IsDecimal(code) &&
             Undecimal(code) == resp.status && (|code| == 3 <==> 100 <= resp.status <= 999)) &&
            s == "HTTP/1.1 " + Decimal(resp.status) + " " + lib.reason(resp.status) + "\r\n" +
                 ("Content-Type: application/json" + "\r\n" + ("Content-Length: " + Decimal(|body|) + "\r\n")) +
                 Appended(lib.order(resp.headers)) + ("\r\n" + body)
  {
    StatusLineOnTheWire(resp.status, lib.reason(resp.status), lib.order(resp.headers), lib.dump(resp.body));
    WireBytes(resp.status, lib.reason(resp.status), lib.order(resp.headers), lib.dump(resp.body));
  }
}
