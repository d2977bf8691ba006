/** HttpsConnection::recv, send and process (https_connection.cc) over a scripted TLS stream, with
    HttpCodec::process in between; each call is tied to the trace functions of ConnectionSpec.dfy. */
module HttpsConnection {
  import opened Wrappers
  import opened Text
  import opened HttpMethod
  import opened HttpMessage
  import opened HttpCodecSpec
  import opened HttpFraming
  import opened HttpResponse
  import opened HttpCodec
  import opened ConnectionSpec
  import opened RoutingSpec
  import opened Router

  // Code outside this model: the JSON library, the reason phrases and the hash map's iteration order.
  datatype Library = Library(
    json: string -> Option<Json>,
    dump: Json -> string,
    reason: nat -> string,
    order: Headers -> seq<Field>)

  // The header order lists every entry once and no reason phrase holds a line end.
  ghost predicate Sound(lib: Library) {
    && (forall h: Headers :: SpelledKeys(h) ==> Enumerates(lib.order(h), h))
    && (forall n: nat :: OneLine(lib.reason(n)))
  }

  // Each entry sits under its own lower-cased name, as every map built by insertions has it.
  ghost predicate SpelledKeys(h: Headers) {
    forall key :: key in h ==> Lower(h[key].name) == key
  }

  function WireOf(lib: Library, resp: Response): string {
    Wire(resp.status, lib.reason(resp.status), lib.order(resp.headers), lib.dump(resp.body))
  }

  // Values drawn from the outside while one request is served.
  datatype Draws = Draws(requestId: string, responseId: string, now: int)

  // HttpCodec::process as a function of the bytes received.
  ghost function Answer(raw: string, routes: Option<seq<Registration<Handler>>>, lib: Library, d: Draws): Response {
    match Parsed(raw, lib.json, d.requestId)
    case None => MakeResp(InvalidJsonOrParams, d.responseId, d.now)
    case Some(req) =>
      match Dispatch(routes, req, d.now)
      case None => MakeResp(InternalError, d.responseId, d.now)
      case Some(resp) => resp
  }

  // The one response that a connection may write, if any.
  ghost function Reply(r: Received, routes: Option<seq<Registration<Handler>>>, lib: Library, d: Draws)
    : Option<string>
  {
    match r
    case Message(raw) => Some(WireOf(lib, Answer(raw, routes, lib, d)))
    case Overflow => Some(Refusal(RequestBufferOverflow, lib, d))
    case Failed => Some(Refusal(InternalError, lib, d))
    case Closed => None
    case Pending => None
  }

  function Refusal(c: RetCode, lib: Library, d: Draws): string {
    WireOf(lib, MakeResp(c, d.responseId, d.now))
  }

  // The status of process and the bytes written.
  ghost function Outcome(r: Received, reply: Option<string>, writes: seq<WriteOutcome>): (Status, string) {
    match reply
    case None => (if r.Pending? then Waiting else Done(false), "")
    case Some(bytes) =>
      DeliverIff(|bytes|, 0, writes);
      var (status, n) := Deliver(|bytes|, 0, writes);
      (if status.Waiting? then Waiting else Done(status.ok && r.Message?), bytes[..n])
  }

  // The stream behind an SSL*: what the reads and writes still to come will return, and what went out.
  class Ssl {
    var inbound: seq<ReadOutcome>
    var outbound: seq<WriteOutcome>
    var sent: string

    constructor (inbound: seq<ReadOutcome>, outbound: seq<WriteOutcome>)
      ensures this.inbound == inbound && this.outbound == outbound && sent == ""
    {
      this.inbound, this.outbound, sent := inbound, outbound, "";
    }

    method Read() returns (r: Option<ReadOutcome>)
      modifies this`inbound
      ensures if old(inbound) == [] then r.None? && inbound == []
              else r == Some(old(inbound)[0]) && inbound == old(inbound)[1..]
    {
      if inbound == [] {
        return None;
      }
      r := Some(inbound[0]);
      inbound := inbound[1..];
    }

    // SSL_write of the first chunk bytes; numbytes is positive for the bytes taken.
    method Write(bytes: string, chunk: int32) returns (w: Option<WriteOutcome>, numbytes: int32)
      requires chunk as int <= |bytes|
      modifies this`outbound, this`sent
      ensures old(outbound) == [] ==> w.None? && outbound == [] && numbytes == 0 && sent == old(sent)
      ensures old(outbound) != [] ==>
                w == Some(old(outbound)[0]) && outbound == old(outbound)[1..] &&
                numbytes as int == Taken(w.value, chunk) && 0 <= numbytes as int <= |bytes| &&
                sent == old(sent) + bytes[..numbytes]
    {
      if outbound == [] {
        return None, 0;
      }
      w := Some(outbound[0]);
      numbytes := Taken(outbound[0], chunk) as int32;
      sent := sent + bytes[..numbytes];
      outbound := outbound[1..];
    }
  }

  lemma NoGap(s: string, sent: nat, n: nat)
    requires sent + n <= |s|
    ensures s[..sent] + s[sent..][..n] == s[..sent + n]
  {
  }

  // A refusal does not depend on the registrations and is never a success; an answer is sent as it is.
  lemma ReplyByOutcome(r: Received, routes: Option<seq<Registration<Handler>>>, lib: Library, d: Draws,
                       writes: seq<WriteOutcome>)
    ensures !r.Message? ==> Reply(r, routes, lib, d) == Reply(r, None, lib, d)
    ensures !r.Message? ==> Outcome(r, Reply(r, None, lib, d), writes).0 != Done(true)
    ensures r.Message? ==>
              var bytes := WireOf(lib, Answer(r.raw, routes, lib, d));
              Deliver(|bytes|, 0, writes).1 <= |bytes| &&
              Outcome(r, Reply(r, routes, lib, d), writes) ==
              (Deliver(|bytes|, 0, writes).0, bytes[..Deliver(|bytes|, 0, writes).1])
  {
    if r.Message? {
      DeliverIff(|WireOf(lib, Answer(r.raw, routes, lib, d))|, 0, writes);
    }
  }

  class Connection {
    const ssl: Ssl
    const bufsize: int32
    var req: string

    constructor (ssl: Ssl, bufsize: int32)
      ensures this.ssl == ssl && this.bufsize == bufsize && req == ""
    {
      this.ssl, this.bufsize, req := ssl, bufsize, "";
    }

    /** HttpsConnection::send. */
    method Send(resp: string) returns (status: Status)
      modifies ssl`outbound, ssl`sent
      ensures var (s, n) := Deliver(|resp|, 0, old(ssl.outbound));
              status == s && n <= |resp| && ssl.sent == old(ssl.sent) + resp[..n]
    {
      var totalSent: nat := 0;
      var totalSize := |resp|;
      while totalSent < totalSize
        invariant totalSent <= totalSize
        invariant Deliver(|resp|, totalSent, ssl.outbound) == Deliver(|resp|, 0, old(ssl.outbound))
        invariant ssl.sent == old(ssl.sent) + resp[..totalSent]
        decreases |ssl.outbound|
      {
        var chunk := ToInt(totalSize - totalSent);
        ChunkFits(|resp|, totalSent);
        var w, numbytes := ssl.Write(resp[totalSent..], chunk);
        if w.None? {
          return Waiting;
        }
        if numbytes > 0 {
          NoGap(resp, totalSent, numbytes as nat);
          Assoc(old(ssl.sent), resp[..totalSent], resp[totalSent..][..numbytes]);
          totalSent := totalSent + numbytes as int;
          continue;
        }
        if w.value.WriteRetry? {
          continue;
        }
        return Done(false);
      }
      return Done(true);
    }

    /** HttpsConnection::recv; a refused request is answered from here. */
    method Recv(lib: Library, d: Draws) returns (status: Status)
      requires 0 < bufsize as int <= INT_MAX - (RECEPTION_BUF_LIMIT - 1) && ReadsFit(ssl.inbound, bufsize as nat)
      modifies this`req, ssl
      ensures var r := Receive(old(ssl.inbound), bufsize as nat, "").0;
              if r.Message? then
                status == Done(true) && req == r.raw && |req| < RECEPTION_BUF_LIMIT &&
                ssl.sent == old(ssl.sent) && ssl.outbound == old(ssl.outbound)
              else
                var (s, out) := Outcome(r, Reply(r, None, lib, d), old(ssl.outbound));
                status == s && ssl.sent == old(ssl.sent) + out && req == old(req)
    {
      var received: string := "";
      var resbytes: int32 := 0;
      while true
        invariant resbytes as int == |received| < RECEPTION_BUF_LIMIT
        invariant ReadsFit(ssl.inbound, bufsize as nat)
        invariant Receive(ssl.inbound, bufsize as nat, received).0 == Receive(old(ssl.inbound), bufsize as nat, "").0
        invariant ssl.sent == old(ssl.sent) && ssl.outbound == old(ssl.outbound) && req == old(req)
        decreases |ssl.inbound|
      {
        var r := ssl.Read();
        if r.None? {
          return Waiting;
        }
        if r.value.Data? {
          var numbytes := |r.value.bytes| as int32;
          resbytes := resbytes + numbytes;
          if resbytes as int >= RECEPTION_BUF_LIMIT {
            var s := Send(Refusal(RequestBufferOverflow, lib, d));
            return if s.Waiting? then Waiting else Done(false);
          }
          received := received + r.value.bytes;
          if numbytes < bufsize {
            break;
          }
          continue;
        }
        if r.value.ReadRetry? {
          assert received + "" == received;
          continue;
        }
        if r.value.ReadClosed? {
          return Done(false);
        }
        var s := Send(Refusal(InternalError, lib, d));
        return if s.Waiting? then Waiting else Done(false);
      }
      req := received;
      return Done(true);
    }

    /** HttpConnection::execution over HttpCodec::process. */
    method Execution(manager: RouterManager, lib: Library, d: Draws) returns (out: string)
      requires manager.Valid() && |req| <= INT_MAX
      ensures out == WireOf(lib, Answer(req, manager.Routes(), lib, d))
    {
      var parsed := Parse(req, lib.json, d.requestId);
      var resp: Response;
      if parsed.None? {
        resp := MakeResp(InvalidJsonOrParams, d.responseId, d.now);
      } else {
        var routed := manager.Route(parsed.value, d.now);
        resp := if routed.None? then MakeResp(InternalError, d.responseId, d.now) else routed.value;
      }
      out := Serialize(resp.status, lib.reason(resp.status), lib.order(resp.headers), lib.dump(resp.body));
    }

    /** HttpsConnection::process. */
    method Process(manager: RouterManager, lib: Library, d: Draws) returns (status: Status)
      requires manager.Valid()
      requires 0 < bufsize as int <= INT_MAX - (RECEPTION_BUF_LIMIT - 1) && ReadsFit(ssl.inbound, bufsize as nat)
      modifies this`req, ssl
      ensures var r := Receive(old(ssl.inbound), bufsize as nat, "").0;
              var (s, out) := Outcome(r, Reply(r, old(manager.Routes()), lib, d), old(ssl.outbound));
              status == s && ssl.sent == old(ssl.sent) + out
    {
      ghost var trace, writes, routes := ssl.inbound, ssl.outbound, manager.Routes();
      ReplyByOutcome(Receive(trace, bufsize as nat, "").0, routes, lib, d, writes);
      status := Recv(lib, d);
      if status != Done(true) {
        return;
      }
      var resp := Execution(manager, lib, d);
      status := Send(resp);
    }
  }
}
