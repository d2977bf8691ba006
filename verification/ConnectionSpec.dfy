/** What a TLS connection does on a given trace of SSL_read and SSL_write outcomes. */
module ConnectionSpec {
  import opened Wrappers
  import opened HttpCodec

  const RECEPTION_BUF_LIMIT := 8192

  datatype ReadOutcome = Data(bytes: string) | ReadRetry | ReadClosed | ReadFailed

  // Accept(n): the peer side is ready for up to n bytes.
  datatype WriteOutcome = Accept(n: nat) | WriteRetry | WriteClosed | WriteFailed

  // A call that has used up the trace has not returned.
  datatype Status = Done(ok: bool) | Waiting

  // ----- receiving -----

  datatype Received = Message(raw: string) | Overflow | Closed | Failed | Pending

  ghost predicate ReadsFit(trace: seq<ReadOutcome>, bufsize: nat) {
    forall i :: 0 <= i < |trace| && trace[i].Data? ==> 1 <= |trace[i].bytes| <= bufsize
  }

  // The outcome and the number of reads it took, with acc already received.
  function Receive(trace: seq<ReadOutcome>, bufsize: nat, acc: string): (Received, nat) {
    if trace == [] then (Pending, 0)
    else if Stops(trace[0], bufsize, acc) then (Verdict(trace[0], acc), 1)
    else
      var (r, n) := Receive(trace[1..], bufsize, acc + Bytes(trace[0]));
      (r, n + 1)
  }

  predicate Stops(r: ReadOutcome, bufsize: nat, acc: string) {
    match r
    case Data(b) => |acc| + |b| >= RECEPTION_BUF_LIMIT || |b| < bufsize
    case ReadRetry => false
    case ReadClosed => true
    case ReadFailed => true
  }

  function Verdict(r: ReadOutcome, acc: string): Received {
    match r
    case Data(b) => if |acc| + |b| >= RECEPTION_BUF_LIMIT then Overflow else Message(acc + b)
    case ReadRetry => Pending
    case ReadClosed => Closed
    case ReadFailed => Failed
  }

  function Bytes(r: ReadOutcome): string {
    if r.Data? then r.bytes else ""
  }

  // All bytes of a stretch of the trace, in order.
  function Payload(trace: seq<ReadOutcome>): string {
    if trace == [] then "" else Payload(trace[..|trace| - 1]) + Bytes(trace[|trace| - 1])
  }

  function Chunks(trace: seq<ReadOutcome>): nat {
    if trace == [] then 0 else Chunks(trace[..|trace| - 1]) + if trace[|trace| - 1].Data? then 1 else 0
  }

  // Read i, after everything before it, ends the message.
  predicate Halts(trace: seq<ReadOutcome>, bufsize: nat, i: nat)
    requires i < |trace|
  {
    Stops(trace[i], bufsize, Payload(trace[..i]))
  }

  function VerdictAt(trace: seq<ReadOutcome>, i: nat): Received
    requires i < |trace|
  {
    Verdict(trace[i], Payload(trace[..i]))
  }

  // Nothing in the first k reads ends the message.
  ghost predicate KeepsReading(trace: seq<ReadOutcome>, bufsize: nat, k: nat)
    requires k <= |trace|
  {
    forall i :: 0 <= i < k ==> !Halts(trace, bufsize, i)
  }

  /** The message ends at the first read that is short, overflows, closes or fails, and holds
      every byte up to there; while there is no such read the call is still waiting. */
  lemma ReceiveIff(trace: seq<ReadOutcome>, bufsize: nat, k: nat)
    requires k < |trace|
    ensures Receive(trace, bufsize, "") == (Pending, |trace|) <==> KeepsReading(trace, bufsize, |trace|)
    ensures Receive(trace, bufsize, "").1 == k + 1 && Receive(trace, bufsize, "").0 != Pending
            <==> KeepsReading(trace, bufsize, k) && Halts(trace, bufsize, k)
    ensures KeepsReading(trace, bufsize, k) && Halts(trace, bufsize, k) ==>
            Receive(trace, bufsize, "").0 == VerdictAt(trace, k)
  {
    var n := ReceiveFrom(trace, bufsize, 0);
    ResumeStart(trace, bufsize);
  }

  lemma PayloadSnoc(trace: seq<ReadOutcome>, i: nat)
    requires i < |trace|
    ensures Payload(trace[..i + 1]) == Payload(trace[..i]) + Bytes(trace[i])
    ensures Chunks(trace[..i + 1]) == Chunks(trace[..i]) + if trace[i].Data? then 1 else 0
  {
    assert trace[..i + 1][..i] == trace[..i];
  }

  // Reading from position i on, with everything before it received.
  ghost function Resume(trace: seq<ReadOutcome>, bufsize: nat, i: nat): (Received, nat)
    requires i <= |trace|
  {
    Receive(trace[i..], bufsize, Payload(trace[..i]))
  }

  lemma ResumeStep(trace: seq<ReadOutcome>, bufsize: nat, i: nat)
    requires i < |trace|
    ensures Resume(trace, bufsize, i) ==
            if Halts(trace, bufsize, i) then (VerdictAt(trace, i), 1)
            else (Resume(trace, bufsize, i + 1).0, Resume(trace, bufsize, i + 1).1 + 1)
  {
    PayloadSnoc(trace, i);
    assert trace[i..][0] == trace[i] && trace[i..][1..] == trace[i + 1..];
  }

  lemma ResumeStart(trace: seq<ReadOutcome>, bufsize: nat)
    ensures Resume(trace, bufsize, 0) == Receive(trace, bufsize, "")
  {
    assert trace[0..] == trace && Payload(trace[..0]) == "";
  }

  // The point where reading from position i stops, or the end of the trace.
  lemma {:induction false} ReceiveFrom(trace: seq<ReadOutcome>, bufsize: nat, i: nat) returns (n: nat)
    requires i <= |trace| && KeepsReading(trace, bufsize, i)
    ensures i <= n <= |trace| && KeepsReading(trace, bufsize, n)
    ensures if n == |trace| then Resume(trace, bufsize, i) == (Pending, n - i)
            else Halts(trace, bufsize, n) &&
                 Resume(trace, bufsize, i) == (VerdictAt(trace, n), n + 1 - i)
    decreases |trace| - i
  {
    n := i;
    if i < |trace| {
      ResumeStep(trace, bufsize, i);
      if !Halts(trace, bufsize, i) {
        n := ReceiveFrom(trace, bufsize, i + 1);
      }
    }
  }

  /** A received message is shorter than the limit and is exactly the bytes read, of which all chunks
      but the last filled the buffer. */
  lemma MessageIsPayload(trace: seq<ReadOutcome>, bufsize: nat)
    requires Receive(trace, bufsize, "").0.Message?
    ensures var (r, n) := Receive(trace, bufsize, "");
            1 <= n <= |trace| && r.raw == Payload(trace[..n]) && |r.raw| < RECEPTION_BUF_LIMIT &&
            trace[n - 1].Data? && |trace[n - 1].bytes| < bufsize &&
            forall i :: 0 <= i < n - 1 ==> trace[i].ReadRetry? || (trace[i].Data? && |trace[i].bytes| >= bufsize)
  {
    var n := ReceiveFrom(trace, bufsize, 0);
    ResumeStart(trace, bufsize);
    PayloadSnoc(trace, n);
    forall i | 0 <= i < n ensures trace[i].ReadRetry? || (trace[i].Data? && |trace[i].bytes| >= bufsize) {
      assert !Halts(trace, bufsize, i);
    }
  }

  // A read after which recv goes back for more, as long as the limit is not reached.
  predicate Continues(r: ReadOutcome, bufsize: nat) {
    r.ReadRetry? || (r.Data? && |r.bytes| >= bufsize)
  }

  ghost predicate AllContinue(trace: seq<ReadOutcome>, bufsize: nat, k: nat)
    requires k <= |trace|
  {
    forall i :: 0 <= i < k ==> Continues(trace[i], bufsize)
  }

  lemma {:induction false} KeepsReadingIff(trace: seq<ReadOutcome>, bufsize: nat, k: nat)
    requires k <= |trace|
    ensures KeepsReading(trace, bufsize, k) <==>
            AllContinue(trace, bufsize, k) && |Payload(trace[..k])| < RECEPTION_BUF_LIMIT
  {
    if k > 0 {
      KeepsReadingIff(trace, bufsize, k - 1);
      PayloadSnoc(trace, k - 1);
      assert KeepsReading(trace, bufsize, k) <==> KeepsReading(trace, bufsize, k - 1) && !Halts(trace, bufsize, k - 1);
      assert AllContinue(trace, bufsize, k) <==> AllContinue(trace, bufsize, k - 1) && Continues(trace[k - 1], bufsize);
    }
  }

  /** The call goes on waiting exactly when every read so far filled the buffer or asked for a retry and the
      total is under the limit: a message that ends with a full read is never seen to end. */
  lemma WaitsIff(trace: seq<ReadOutcome>, bufsize: nat)
    ensures Receive(trace, bufsize, "").0 == Pending <==>
            AllContinue(trace, bufsize, |trace|) && |Payload(trace)| < RECEPTION_BUF_LIMIT
  {
    var n := ReceiveFrom(trace, bufsize, 0);
    ResumeStart(trace, bufsize);
    KeepsReadingIff(trace, bufsize, |trace|);
    assert trace[..|trace|] == trace;
    assert n < |trace| ==> !KeepsReading(trace, bufsize, |trace|);
  }

  // Some short read completes raw, and every read before it filled the buffer or asked for a retry.
  ghost predicate Delivers(trace: seq<ReadOutcome>, bufsize: nat, raw: string) {
    exists k :: 0 <= k < |trace| && CompletedAt(trace, bufsize, k, raw)
  }

  ghost predicate CompletedAt(trace: seq<ReadOutcome>, bufsize: nat, k: nat, raw: string)
    requires k < |trace|
  {
    && AllContinue(trace, bufsize, k)
    && trace[k].Data? && |trace[k].bytes| < bufsize
    && Payload(trace[..k + 1]) == raw && |raw| < RECEPTION_BUF_LIMIT
  }

  /** A message is received from exactly the traces that deliver it, in whatever pieces and with whatever
      retries in between. */
  lemma ReceivedIff(trace: seq<ReadOutcome>, bufsize: nat, raw: string)
    ensures Receive(trace, bufsize, "").0 == Message(raw) <==> Delivers(trace, bufsize, raw)
  {
    var n := ReceiveFrom(trace, bufsize, 0);
    ResumeStart(trace, bufsize);
    if n < |trace| {
      PayloadSnoc(trace, n);
      KeepsReadingIff(trace, bufsize, n);
      if Receive(trace, bufsize, "").0 == Message(raw) {
        assert CompletedAt(trace, bufsize, n, raw);
      }
    }
    if k :| 0 <= k < |trace| && CompletedAt(trace, bufsize, k, raw) {
      PayloadSnoc(trace, k);
      KeepsReadingIff(trace, bufsize, k);
      ReceiveIff(trace, bufsize, k);
    }
  }

  /** The limit counts every byte: once the running total reaches it the request is refused. */
  lemma OverflowIff(trace: seq<ReadOutcome>, bufsize: nat, k: nat)
    requires k < |trace| && KeepsReading(trace, bufsize, k)
    ensures Receive(trace, bufsize, "") == (Overflow, k + 1)
            <==> trace[k].Data? && |Payload(trace[..k + 1])| >= RECEPTION_BUF_LIMIT
  {
    ReceiveIff(trace, bufsize, k);
    PayloadSnoc(trace, k);
  }

  /** What each end of receiving is, after reads that all filled the buffer or asked for a retry and brought
      fewer than 8192 bytes. */
  lemma EndsAs(trace: seq<ReadOutcome>, bufsize: nat, k: nat)
    requires k < |trace| && AllContinue(trace, bufsize, k) && |Payload(trace[..k])| < 8192
    ensures trace[k] == ReadClosed ==> Receive(trace, bufsize, "") == (Closed, k + 1)
    ensures trace[k] == ReadFailed ==> Receive(trace, bufsize, "") == (Failed, k + 1)
    ensures trace[k].Data? && |Payload(trace[..k + 1])| >= 8192 ==> Receive(trace, bufsize, "") == (Overflow, k + 1)
    ensures trace[k].Data? && |Payload(trace[..k + 1])| < 8192 && |trace[k].bytes| < bufsize ==>
              Receive(trace, bufsize, "") == (Message(Payload(trace[..k + 1])), k + 1)
  {
    KeepsReadingIff(trace, bufsize, k);
    PayloadSnoc(trace, k);
    ReceiveIff(trace, bufsize, k);
    var n := ReceiveFrom(trace, bufsize, 0);
    ResumeStart(trace, bufsize);
  }

  lemma {:induction false} FullChunks(trace: seq<ReadOutcome>, bufsize: nat, k: nat)
    requires k <= |trace| && ReadsFit(trace, bufsize) && KeepsReading(trace, bufsize, k)
    ensures |Payload(trace[..k])| == Chunks(trace[..k]) * bufsize && |Payload(trace[..k])| < RECEPTION_BUF_LIMIT
  {
    if k > 0 {
      var before := trace[..k - 1];
      FullChunks(trace, bufsize, k - 1);
      PayloadSnoc(trace, k - 1);
      assert !Halts(trace, bufsize, k - 1);
      if trace[k - 1].Data? {
        OneMore(Chunks(before), bufsize);
      }
    }
  }

  lemma OneMore(c: nat, bufsize: nat)
    ensures (c + 1) * bufsize == c * bufsize + bufsize
  {
  }

  /** recv never makes more positive reads than fill the limit once over. */
  lemma ReadBound(trace: seq<ReadOutcome>, bufsize: nat)
    requires 0 < bufsize && ReadsFit(trace, bufsize)
    ensures var n := Receive(trace, bufsize, "").1;
            n <= |trace| && Chunks(trace[..n]) <= (RECEPTION_BUF_LIMIT + bufsize - 1) / bufsize
  {
    var n := ReceiveFrom(trace, bufsize, 0);
    ResumeStart(trace, bufsize);
    FullChunks(trace, bufsize, n);
    ChunkBound(Chunks(trace[..n]), bufsize);
    if n < |trace| {
      PayloadSnoc(trace, n);
    }
  }

  lemma ChunkBound(c: nat, bufsize: nat)
    requires 0 < bufsize && c * bufsize < RECEPTION_BUF_LIMIT
    ensures c + 1 <= (RECEPTION_BUF_LIMIT + bufsize - 1) / bufsize
  {
    var q := (RECEPTION_BUF_LIMIT + bufsize - 1) / bufsize;
    assert q * bufsize >= RECEPTION_BUF_LIMIT;
    FewerChunks(c, q, bufsize);
  }

  lemma FewerChunks(c: nat, q: nat, bufsize: nat)
    requires c * bufsize < q * bufsize
    ensures c < q
  {
  }

  // A message that arrives in reads as large as the buffer allows.
  function Chunked(m: string, bufsize: nat): seq<ReadOutcome>
    requires bufsize > 0
  {
    if m == "" then []
    else if |m| <= bufsize then [Data(m)]
    else [Data(m[..bufsize])] + Chunked(m[bufsize..], bufsize)
  }

  /** A message under the limit that arrives in full reads is received exactly when its length is not
      a multiple of the buffer size; otherwise the call waits for a short read that never comes. */
  lemma {:induction false} ChunkedReceiveIff(acc: string, m: string, bufsize: nat)
    requires bufsize > 0 && |acc| + |m| < RECEPTION_BUF_LIMIT
    ensures Receive(Chunked(m, bufsize), bufsize, acc).0 == if |m| % bufsize == 0 then Pending else Message(acc + m)
    decreases |m|
  {
    if |m| > bufsize {
      var rest := m[bufsize..];
      var trace := Chunked(m, bufsize);
      assert trace[1..] == Chunked(rest, bufsize);
      assert acc + m[..bufsize] + rest == acc + m;
      ChunkedReceiveIff(acc + m[..bufsize], rest, bufsize);
      ModuloStep(|m|, bufsize);
    } else if m != "" {
      assert Chunked(m, bufsize)[1..] == [];
      if |m| == bufsize {
        ModuloStep(|m|, bufsize);
      }
    }
  }

  lemma ModuloStep(n: nat, d: nat)
    requires 0 < d <= n
    ensures n % d == (n - d) % d
  {
    var q := (n - d) / d;
    Division(n, d);
    Division(n - d, d);
    OneMore(q, d);
    SameQuotient(n / d, n % d, q + 1, (n - d) % d, d);
  }

  lemma Division(n: nat, d: nat)
    requires 0 < d
    ensures n == n / d * d + n % d && n % d < d
  {
  }

  lemma SameQuotient(p: nat, r: nat, q: nat, t: nat, d: nat)
    requires p * d + r == q * d + t && r < d && t < d
    ensures p == q && r == t
  {
    OneMore(p, d);
    OneMore(q, d);
    FewerChunks(p, q + 1, d);
    FewerChunks(q, p + 1, d);
  }

  // ----- sending -----

  // The size handed to one SSL_write: what is left, converted to int.
  function ChunkSize(size: nat, sent: nat): int32
    requires sent <= size
  {
    ToInt(size - sent)
  }

  // What one write takes of a chunk; a chunk size that is not positive is an error of the call.
  function Taken(w: WriteOutcome, chunk: int32): nat {
    if w.Accept? && chunk > 0 then if w.n <= chunk as nat then w.n else chunk as nat else 0
  }

  // The status of send and how many bytes have gone out, with `sent` of `size` out already.
  function Deliver(size: nat, sent: nat, writes: seq<WriteOutcome>): (Status, nat)
    requires sent <= size
    decreases |writes|
  {
    if sent == size then (Done(true), sent)
    else if writes == [] then (Waiting, sent)
    else
      var chunk := ChunkSize(size, sent);
      var taken := Taken(writes[0], chunk);
      ChunkFits(size, sent);
      if taken > 0 then Deliver(size, sent + taken, writes[1..])
      else if writes[0].WriteRetry? then Deliver(size, sent, writes[1..])
      else (Done(false), sent)
  }

  // The conversion never makes a chunk longer than what is left.
  lemma ChunkFits(size: nat, sent: nat)
    requires sent <= size
    ensures ChunkSize(size, sent) as int <= size - sent
    ensures size - sent <= INT_MAX ==> ChunkSize(size, sent) as int == size - sent
  {
  }

  /** send reports success exactly when every byte has gone out. */
  lemma {:induction false} DeliverIff(size: nat, sent: nat, writes: seq<WriteOutcome>)
    requires sent <= size
    ensures var (status, out) := Deliver(size, sent, writes);
            sent <= out <= size && (status == Done(true) <==> out == size)
    decreases |writes|
  {
    if sent < size && writes != [] {
      var taken := Taken(writes[0], ChunkSize(size, sent));
      ChunkFits(size, sent);
      if taken > 0 {
        DeliverIff(size, sent + taken, writes[1..]);
      } else if writes[0].WriteRetry? {
        DeliverIff(size, sent, writes[1..]);
      }
    }
  }

  function Accepted(writes: seq<WriteOutcome>): nat {
    if writes == [] then 0 else (if writes[0].Accept? then writes[0].n else 0) + Accepted(writes[1..])
  }

  predicate Usable(w: WriteOutcome) {
    w.WriteRetry? || (w.Accept? && w.n > 0)
  }

  lemma {:induction false} AcceptedSplit(writes: seq<WriteOutcome>, k: nat)
    requires 0 < k <= |writes|
    ensures Accepted(writes[..k]) == (if writes[0].Accept? then writes[0].n else 0) + Accepted(writes[1..][..k - 1])
  {
    assert writes[..k][1..] == writes[1..][..k - 1];
  }

  // Some stretch of usable writes accepts enough.
  ghost predicate Enough(size: nat, writes: seq<WriteOutcome>) {
    exists k :: 0 <= k <= |writes| && Covers(size, writes, k)
  }

  ghost predicate Covers(size: nat, writes: seq<WriteOutcome>, k: nat)
    requires k <= |writes|
  {
    Accepted(writes[..k]) >= size && forall i :: 0 <= i < k ==> Usable(writes[i])
  }

  /** A response goes out in full exactly when it is no longer than INT_MAX bytes and the peer side takes
      that many, in whatever pieces, before it closes or fails. Of a longer one the chunk sizes only ever
      cover the low 31 bits of the length, and the rest is an error. */
  lemma {:induction false} DeliverSucceedsIff(size: nat, sent: nat, writes: seq<WriteOutcome>)
    requires sent <= size
    ensures Deliver(size, sent, writes).0 == Done(true) <==>
            size - sent <= INT_MAX && Enough(size - sent, writes)
    decreases |writes|
  {
    ChunkFits(size, sent);
    if sent == size {
      assert Covers(0, writes, 0);
    } else if writes == [] {
      assert Accepted(writes[..0]) == 0;
    } else {
      var taken := Taken(writes[0], ChunkSize(size, sent));
      if taken > 0 || writes[0].WriteRetry? {
        DeliverSucceedsIff(size, sent + taken, writes[1..]);
      }
      if size - sent > INT_MAX {
        LongRemains(size, sent, taken);
      } else if Usable(writes[0]) {
        EnoughStep(size - sent, writes, taken);
      } else {
        UnusableFirst(size - sent, writes);
      }
    }
  }

  lemma LongRemains(size: nat, sent: nat, taken: nat)
    requires sent <= size && size - sent > INT_MAX
    requires taken > 0 ==> taken <= ChunkSize(size, sent) as int
    ensures size - sent - taken > INT_MAX
  {
  }

  lemma UnusableFirst(left: nat, writes: seq<WriteOutcome>)
    requires left > 0 && writes != [] && !Usable(writes[0])
    ensures !Enough(left, writes)
  {
    forall k | 0 <= k <= |writes| ensures !Covers(left, writes, k) {
      if k == 0 {
        assert writes[..0] == [];
      } else {
        assert !Usable(writes[0]);
      }
    }
  }

  lemma EnoughStep(left: nat, writes: seq<WriteOutcome>, taken: nat)
    requires left > 0 && writes != [] && Usable(writes[0])
    requires taken == if writes[0].WriteRetry? then 0 else if writes[0].n <= left then writes[0].n else left
    ensures Enough(left, writes) <==> Enough(left - taken, writes[1..])
  {
    if k :| 0 <= k <= |writes| && Covers(left, writes, k) {
      assert k > 0 by { assert Accepted(writes[..0]) == 0; }
      AcceptedSplit(writes, k);
      assert forall i :: 0 <= i < k - 1 ==> Usable(writes[1..][i]);
      assert Covers(left - taken, writes[1..], k - 1);
    }
    var rest, less := writes[1..], left - taken;
    if k :| 0 <= k <= |rest| && Covers(less, rest, k) {
      if taken == left && writes[0].Accept? {
        AcceptedSplit(writes, 1);
        assert Accepted(writes[1..][..0]) == 0;
        assert Covers(left, writes, 1);
      } else {
        AcceptedSplit(writes, k + 1);
        assert forall i :: 0 <= i < k + 1 ==> Usable(writes[i]) by {
          assert forall i :: 1 <= i < k + 1 ==> writes[i] == writes[1..][i - 1];
        }
        assert Covers(left, writes, k + 1);
      }
    }
  }

  // ----- a send that has not returned -----

  // How many bytes the chunk sizes reach: all of them up to INT_MAX, and of a longer rest its low 31 bits, if
  // the bit above those is clear.
  function Reach(left: nat): nat {
    var low := left % 0x1_0000_0000;
    if low < 0x8000_0000 then low else 0
  }

  lemma ReachStep(left: nat, taken: nat)
    requires taken <= Reach(left)
    ensures taken <= left && Reach(left - taken) == Reach(left) - taken
    ensures left <= INT_MAX ==> Reach(left) == left
    ensures left > INT_MAX ==> left - taken > INT_MAX
  {
  }

  lemma TakenReach(w: WriteOutcome, left: nat)
    ensures Taken(w, ToInt(left)) == if w.Accept? then (if w.n <= Reach(left) then w.n else Reach(left)) else 0
  {
  }

  // Write i is a retry, or takes something of what the chunk sizes reach.
  ghost predicate GoesOn(left: nat, writes: seq<WriteOutcome>, i: nat)
    requires i < |writes|
  {
    writes[i].WriteRetry? || (writes[i].Accept? && writes[i].n > 0 && Accepted(writes[..i]) < Reach(left))
  }

  ghost predicate AllGoOn(left: nat, writes: seq<WriteOutcome>) {
    forall i :: 0 <= i < |writes| ==> GoesOn(left, writes, i)
  }

  lemma GoesOnStep(left: nat, writes: seq<WriteOutcome>, taken: nat)
    requires writes != [] && GoesOn(left, writes, 0)
    requires taken ==
             if writes[0].WriteRetry? then 0 else if writes[0].n <= Reach(left) then writes[0].n else Reach(left)
    ensures taken <= left && (AllGoOn(left, writes) <==> AllGoOn(left - taken, writes[1..]))
  {
    ReachStep(left, taken);
    forall i | 1 <= i < |writes| ensures GoesOn(left, writes, i) <==> GoesOn(left - taken, writes[1..], i - 1) {
      AcceptedSplit(writes, i);
    }
    assert AllGoOn(left, writes) <==> forall i :: 1 <= i < |writes| ==> GoesOn(left, writes, i);
    if AllGoOn(left - taken, writes[1..]) {
      forall i | 1 <= i < |writes| ensures GoesOn(left, writes, i) {
        assert GoesOn(left - taken, writes[1..], i - 1);
      }
    }
    if AllGoOn(left, writes) {
      var less, rest := left - taken, writes[1..];
      forall i | 0 <= i < |rest| ensures GoesOn(less, rest, i) {
        assert GoesOn(left, writes, i + 1);
      }
    }
  }

  /** send is still waiting exactly when every write so far was a retry or took bytes that the chunk sizes reach, and
      something is left; what has gone out by then is what was taken. Otherwise it has returned. */
  lemma {:induction false} DeliverWaitsIff(size: nat, sent: nat, writes: seq<WriteOutcome>)
    requires sent <= size
    ensures Deliver(size, sent, writes).0 == Waiting <==>
            sent < size && AllGoOn(size - sent, writes) && (size - sent <= INT_MAX ==> Accepted(writes) < size - sent)
    ensures Deliver(size, sent, writes).0 == Waiting ==>
            Deliver(size, sent, writes).1 ==
            sent + if Accepted(writes) <= Reach(size - sent) then Accepted(writes) else Reach(size - sent)
    decreases |writes|
  {
    var left := size - sent;
    if sent < size && writes != [] {
      var taken := Taken(writes[0], ChunkSize(size, sent));
      ChunkFits(size, sent);
      TakenReach(writes[0], left);
      assert Accepted(writes[..0]) == 0;
      if GoesOn(left, writes, 0) {
        GoesOnStep(left, writes, taken);
        ReachStep(left, taken);
        DeliverWaitsIff(size, sent + taken, writes[1..]);
      } else {
        assert !AllGoOn(left, writes);
      }
    }
  }
}
