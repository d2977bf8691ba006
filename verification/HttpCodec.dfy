/** HttpCodec::parse and HttpCodec::serialize with their own indices and integer widths,
    proved against the line-based meaning in HttpCodecSpec.dfy. */
module HttpCodec {
  import opened Wrappers
  import opened Text
  import opened HttpMethod
  import opened HttpMessage
  import opened HttpCodecSpec
  import opened HttpFraming
  import opened HttpResponse

  // The verifier checks every int32 operation below for overflow.
  newtype int32 = x: int | -0x8000_0000 <= x < 0x8000_0000

  const INT_MAX := 0x7FFF_FFFF
  const NPOS: nat := 0xFFFF_FFFF_FFFF_FFFF

  // size_t to int: the low 32 bits as two's complement.
  function ToInt(n: nat): int32 {
    var low := n % 0x1_0000_0000;
    if low < 0x8000_0000 then low as int32 else (low - 0x1_0000_0000) as int32
  }

  // int to size_t: negative values wrap around.
  function ToSize(i: int32): nat {
    if i < 0 then i as int + NPOS + 1 else i as nat
  }

  // basic_string_view::find
  function Find(s: string, pat: string, from: nat): nat {
    match IndexOf(s, pat, from)
    case None => NPOS
    case Some(i) => i
  }

  // basic_string_view::substr, which throws when pos is past the end
  function Substr(s: string, pos: nat, n: nat): string
    requires pos <= |s|
  {
    s[pos..Min(|s|, pos + n)]
  }

  /** On texts of at most INT_MAX bytes an int holds what find found, and -1 stands for npos. */
  lemma FindCast(s: string, pat: string, from: nat)
    requires |s| <= INT_MAX
    ensures var i := ToInt(Find(s, pat, from));
            match IndexOf(s, pat, from)
            case None => i == -1 && ToSize(i) == NPOS
            case Some(at) => i as int == at && ToSize(i) == at && ToSize(i) != NPOS && from <= at && at + |pat| <= |s|
  {
    IndexOfBounds(s, pat, from);
    match IndexOf(s, pat, from) {
      case None => NposCast();
      case Some(at) => SmallCast(at);
    }
  }

  lemma SmallCast(n: nat)
    requires n <= INT_MAX
    ensures ToInt(n) as int == n && ToSize(ToInt(n)) == n
  {
  }

  lemma NposCast()
    ensures ToInt(NPOS) == -1 && ToSize(-1) == NPOS
  {
  }

  // int i = s.find(pat, from)
  method FindFrom(s: string, pat: string, from: int32) returns (i: int32)
    requires |s| <= INT_MAX && from >= 0
    ensures match IndexOf(s, pat, from as nat)
            case None => i == -1
            case Some(at) => i as int == at && from as int <= at && at + |pat| <= |s|
  {
    FindCast(s, pat, ToSize(from));
    i := ToInt(Find(s, pat, ToSize(from)));
  }

  lemma SubstrMeaning(s: string, pos: nat, n: nat)
    requires pos <= |s|
    ensures pos + n >= |s| ==> Substr(s, pos, n) == s[pos..]
    ensures pos + n <= |s| ==> Substr(s, pos, n) == s[pos..pos + n]
    ensures s[0..] == s
  {
  }

  method ParseTargets(targets: string) returns (method_: string, path: string, version: string)
    requires |targets| <= INT_MAX
    ensures (method_, path, version) == RequestLine(targets)
  {
    var firstSpace := FindFrom(targets, " ", 0);
    var secondSpace := FindFrom(targets, " ", firstSpace + 1);
    TargetsCut(targets, firstSpace, secondSpace);
    method_ := Substr(targets, 0, ToSize(firstSpace));
    path := Substr(targets, ToSize(firstSpace + 1), ToSize(secondSpace - firstSpace - 1));
    version := Substr(targets, ToSize(secondSpace + 1), NPOS);
  }

  // What find returned: a position, or -1.
  ghost predicate Found(i: int32, r: Option<nat>) {
    match r case None => i == -1 case Some(at) => i as int == at
  }

  // Where a space is missing, -1 as a size takes everything up to the end.
  lemma TargetsCut(targets: string, first: int32, second: int32)
    requires |targets| <= INT_MAX && Found(first, IndexOf(targets, " ", 0)) && first < INT_MAX as int32
    requires Found(second, IndexOf(targets, " ", (first + 1) as nat)) && second < INT_MAX as int32
    ensures (first + 1) as int <= |targets| && (second + 1) as int <= |targets|
    ensures (Substr(targets, 0, ToSize(first)),
             Substr(targets, ToSize(first + 1), ToSize(second - first - 1)),
             Substr(targets, ToSize(second + 1), NPOS)) == RequestLine(targets)
  {
    IndexOfBounds(targets, " ", 0);
    IndexOfBounds(targets, " ", (first + 1) as nat);
    SubstrMeaning(targets, 0, ToSize(first));
    SubstrMeaning(targets, ToSize(first + 1), ToSize(second - first - 1));
    SubstrMeaning(targets, ToSize(second + 1), NPOS);
  }

  // The key and value of a header line whose colon has been found.
  method FieldAt(headers: string, beg: int32, colon: int32, end: int32) returns (f: Field)
    requires |headers| <= INT_MAX && 0 <= beg <= colon < end && end as int <= |headers|
    requires IndexOf(headers[beg..end], ":", 0) == Some((colon - beg) as nat)
    ensures Some(f) == FieldOf(headers[beg..end])
  {
    var key := Substr(headers, ToSize(beg), ToSize(colon - beg));
    var value := Substr(headers, ToSize(colon + 1), ToSize(end - colon - 1));
    LineParts(headers, beg as nat, colon as nat, end as nat);
    FieldIs(headers[beg..end], (colon - beg) as nat, key, value);
    var valStart := FirstNonBlank(value);
    Trimmed(value);
    if valStart.Some? {
      value := Substr(value, valStart.value, NPOS);
    }
    f := Field(key, value);
  }

  lemma FieldIs(line: string, colon: nat, key: string, value: string)
    requires IndexOf(line, ":", 0) == Some(colon) && colon < |line|
    requires key == line[..colon] && value == line[colon + 1..]
    ensures FieldOf(line) == Some(Field(key, SkipBlanks(value)))
  {
  }

  lemma LineParts(s: string, beg: nat, colon: nat, end: nat)
    requires beg <= colon < end <= |s|
    ensures Substr(s, beg, colon - beg) == s[beg..end][..colon - beg]
    ensures Substr(s, colon + 1, end - colon - 1) == s[beg..end][colon - beg + 1..]
    ensures |Substr(s, colon + 1, end - colon - 1)| < |s|
  {
    SubstrIs(s, beg, colon);
    SubstrIs(s, colon + 1, end);
    SliceOfSlice(s, beg, end, 0, colon - beg);
    SliceOfSlice(s, beg, end, colon - beg + 1, end - beg);
  }

  lemma SubstrIs(s: string, from: nat, to: nat)
    requires from <= to <= |s|
    ensures Substr(s, from, to - from) == s[from..to]
  {
  }

  lemma SliceOfSlice(s: string, from: nat, to: nat, i: nat, j: nat)
    requires from <= to <= |s| && i <= j <= to - from
    ensures s[from..to][i..j] == s[from + i..from + j]
    ensures i == 0 ==> s[from..to][..j] == s[from + i..from + j]
    ensures j == to - from ==> s[from..to][i..] == s[from + i..from + j]
  {
    forall k | i <= k < j ensures s[from..to][k] == s[from + k] {
    }
  }

  // From the first byte that is no blank, if there is one.
  lemma Trimmed(value: string)
    requires |value| <= INT_MAX
    ensures match FirstNonBlank(value)
            case None => SkipBlanks(value) == value
            case Some(i) => SkipBlanks(value) == Substr(value, i, NPOS)
  {
  }

  // One turn of the header loop: a line without a colon before its end inserts nothing.
  method InsertLine(headers: string, beg: int32, end: int32, fields: Headers) returns (after: Headers)
    requires |headers| <= INT_MAX && 0 <= beg <= end && end as int + 2 <= |headers|
    requires IndexOf(headers, CRLF, beg as nat) == Some(end as nat)
    ensures after == Inserted(headers[beg..end], fields)
  {
    ColonInLine(headers, beg as nat, end as nat);
    var colon := FindFrom(headers, ":", beg);
    if ToSize(colon) == NPOS || colon > end {
      return fields;
    }
    var f := FieldAt(headers, beg, colon, end);
    after := Put(fields, f);
  }

  function Inserted(line: string, fields: Headers): Headers {
    match FieldOf(line) case None => fields case Some(f) => Put(fields, f)
  }

  function HeadersOf(lines: seq<string>): Headers {
    if lines == [] then map[] else Inserted(lines[|lines| - 1], HeadersOf(lines[..|lines| - 1]))
  }

  lemma {:induction false} HeadersOfLines(lines: seq<string>)
    ensures HeadersOf(lines) == PutAll(map[], FieldsOf(lines))
  {
    if lines != [] {
      var before := FieldsOf(lines[..|lines| - 1]);
      HeadersOfLines(lines[..|lines| - 1]);
      match FieldOf(lines[|lines| - 1]) {
        case None => assert before + [] == before;
        case Some(f) => assert (before + [f])[..|before|] == before;
      }
    }
  }

  // The lines before beg have been read into fields; the lines of the rest are still to come.
  ghost predicate ReadTo(headers: string, beg: nat, done: seq<string>, fields: Headers)
    requires beg <= |headers|
  {
    Lines(headers) == done + Lines(headers[beg..]) && fields == HeadersOf(done)
  }

  // The header loop. Lines without a colon are skipped; nothing stops it at a blank line.
  method ParseHeaders(headers: string) returns (fields: Headers)
    requires |headers| <= INT_MAX && Contains(headers, CRLF)
    ensures fields == PutAll(map[], FieldsOf(Lines(headers)))
  {
    fields := map[];
    ghost var done: seq<string> := [];
    var beg: int32 := 0;
    var end := FindFrom(headers, CRLF, 0);
    NothingRead(headers);
    while true
      invariant 0 <= beg <= end && end as int + 2 <= |headers|
      invariant IndexOf(headers, CRLF, beg as nat) == Some(end as nat)
      invariant ReadTo(headers, beg as nat, done, fields)
      decreases |headers| - beg as int
    {
      ReadLine(headers, beg as nat, end as nat, done, fields);
      done := done + [headers[beg..end]];
      fields := InsertLine(headers, beg, end, fields);
      beg := end + 2;
      end := FindFrom(headers, CRLF, beg);
      if ToSize(end) == NPOS {
        break;
      }
    }
    AllRead(headers, beg as nat, done, fields);
  }

  lemma NothingRead(headers: string)
    ensures ReadTo(headers, 0, [], map[])
  {
    assert headers[0..] == headers && [] + Lines(headers) == Lines(headers);
  }

  lemma AllRead(headers: string, beg: nat, done: seq<string>, fields: Headers)
    requires beg <= |headers| && IndexOf(headers, CRLF, beg).None? && ReadTo(headers, beg, done, fields)
    ensures fields == PutAll(map[], FieldsOf(Lines(headers)))
  {
    IndexOfSuffix(headers, CRLF, beg);
    assert done + [] == done;
    HeadersOfLines(done);
  }

  // One line further, with its field inserted if it has one.
  lemma ReadLine(headers: string, beg: nat, end: nat, done: seq<string>, fields: Headers)
    requires beg <= |headers| && IndexOf(headers, CRLF, beg) == Some(end) && ReadTo(headers, beg, done, fields)
    ensures beg <= end && end + 2 <= |headers|
    ensures ReadTo(headers, end + 2, done + [headers[beg..end]], Inserted(headers[beg..end], fields))
  {
    NextLine(headers, beg, end);
    Snoc(done, headers[beg..end], Lines(headers[end + 2..]));
  }

  lemma Snoc(done: seq<string>, line: string, more: seq<string>)
    ensures done + ([line] + more) == done + [line] + more
    ensures HeadersOf(done + [line]) == Inserted(line, HeadersOf(done))
  {
    assert (done + [line])[..|done|] == done;
  }

  lemma NextLine(s: string, beg: nat, end: nat)
    requires beg <= |s| && IndexOf(s, CRLF, beg) == Some(end)
    ensures beg <= end && end + 2 <= |s| && Lines(s[beg..]) == [s[beg..end]] + Lines(s[end + 2..])
  {
    IndexOfBounds(s, CRLF, beg);
    IndexOfSuffix(s, CRLF, beg);
    LinesStep(s[beg..], end - beg);
    RestParts(s, beg, end);
  }

  lemma LinesStep(rest: string, i: nat)
    requires IndexOf(rest, CRLF, 0) == Some(i)
    ensures i + 2 <= |rest| && Lines(rest) == [rest[..i]] + Lines(rest[i + 2..])
  {
    IndexOfBounds(rest, CRLF, 0);
  }

  lemma RestParts(s: string, beg: nat, end: nat)
    requires beg <= end && end + 2 <= |s|
    ensures s[beg..][..end - beg] == s[beg..end] && s[beg..][end - beg + 2..] == s[end + 2..]
  {
  }

  // A colon found from the start of a line lies in the line exactly when it is not past its end.
  lemma ColonInLine(s: string, beg: nat, end: nat)
    requires beg <= |s| && IndexOf(s, CRLF, beg) == Some(end)
    ensures beg <= end && end + 2 <= |s|
    ensures var line := s[beg..end];
            match IndexOf(s, ":", beg)
            case None => IndexOf(line, ":", 0).None?
            case Some(colon) => if colon > end then IndexOf(line, ":", 0).None?
                                else beg <= colon < end && IndexOf(line, ":", 0) == Some(colon - beg)
  {
    IndexOfMeaning(s, CRLF, beg);
    IndexOfMeaning(s, ":", beg);
    var line := s[beg..end];
    AtCrlf(s, end);
    forall i: nat ensures At(line, ":", i) <==> beg + i < end && At(s, ":", beg + i) {
      AtChar(line, ':', i);
      AtChar(s, ':', beg + i);
    }
    AtChar(s, ':', end);
    match IndexOf(s, ":", beg) {
      case None => IndexOfNone(line, ":", 0);
      case Some(colon) =>
        if colon > end {
          IndexOfNone(line, ":", 0);
        } else {
          IndexOfIs(line, ":", 0, colon - beg);
        }
    }
  }

  /** HttpCodec::parse. The JSON reader and the fresh request id are supplied. */
  method Parse(raw: string, json: string -> Option<Json>, id: string) returns (req: Option<Request>)
    requires |raw| <= INT_MAX
    ensures req == Parsed(raw, json, id)
  {
    var endTargets := FindFrom(raw, CRLF, 0);
    var endHeaders := FindFrom(raw, BLANK_LINE, 0);
    if ToSize(endTargets) == NPOS {
      return None;
    }
    HeadParts(raw, endTargets as nat);
    var targets := Substr(raw, 0, ToSize(endTargets));
    var method_, path, version := ParseTargets(targets);
    var mtd := ToMethod(method_);
    if mtd == UNKNOWN {
      return None;
    }

    var headers := Substr(raw, ToSize(endTargets + 2), ToSize(endHeaders));
    ViewIsSubstr(raw, ToSize(endHeaders));
    var fields := RequiredFields(headers);
    if fields.None? {
      return None;
    }
    var body := ParseBody(raw, endHeaders, json);
    if body.None? {
      return None;
    }
    return Some(Request(id, mtd, path, version, fields.value, body.value));
  }

  // The header part: at least one line, and a Host among the fields.
  method RequiredFields(headers: string) returns (fields: Option<Headers>)
    requires |headers| <= INT_MAX
    ensures var all := PutAll(map[], FieldsOf(Lines(headers)));
            fields == if Contains(headers, CRLF) && Lower("Host") in all then Some(all) else None
  {
    var end := FindFrom(headers, CRLF, 0);
    if ToSize(end) == NPOS {
      return None;
    }
    var all := ParseHeaders(headers);
    if Lower("Host") !in all {
      return None;
    }
    return Some(all);
  }

  lemma HeadParts(raw: string, end: nat)
    requires IndexOf(raw, CRLF, 0) == Some(end)
    ensures Contains(raw, CRLF) && LineLength(raw) == end && end + 2 <= |raw| && Substr(raw, 0, end) == raw[..end]
  {
    IndexOfMeaning(raw, CRLF, 0);
  }

  // No blank line or nothing after it leaves the default null body.
  method ParseBody(raw: string, endHeaders: int32, json: string -> Option<Json>) returns (body: Option<Json>)
    requires |raw| <= INT_MAX && ToSize(endHeaders) == Find(raw, BLANK_LINE, 0)
    ensures body == BodyOf(raw, json)
  {
    FindCast(raw, BLANK_LINE, 0);
    if ToSize(endHeaders) == NPOS {
      return Some(Null);
    }
    var text := Substr(raw, ToSize(endHeaders + 4), NPOS);
    SubstrMeaning(raw, ToSize(endHeaders + 4), NPOS);
    if text == "" {
      return Some(Null);
    }
    body := json(text);
  }

  // The length passed to substr is the offset of the blank line, or npos.
  lemma ViewIsSubstr(raw: string, endHeaders: nat)
    requires |raw| <= INT_MAX && Contains(raw, CRLF) && endHeaders == Find(raw, BLANK_LINE, 0)
    ensures Substr(raw, LineLength(raw) + 2, endHeaders) == HeaderView(raw, LineLength(raw))
  {
    SubstrMeaning(raw, LineLength(raw) + 2, endHeaders);
  }

  /** HttpCodec::serialize: fs is the order in which the hash map hands out its entries. */
  method Serialize(status: nat, reason: string, fs: seq<Field>, body: string) returns (out: string)
    ensures out == Wire(status, reason, fs, body)
  {
    out := StatusLine(status, reason) + CRLF +
           ("Content-Type: application/json" + CRLF + ("Content-Length: " + Decimal(|body|) + CRLF));
    ghost var own := Own(|body|);
    ghost var lines := [StatusLine(status, reason)] + FieldLines(own);
    OpeningLines(StatusLine(status, reason), |body|);
    assert own + fs[..0] == own;
    for i := 0 to |fs|
      invariant out == Unlines(lines)
      invariant lines == [StatusLine(status, reason)] + FieldLines(own + fs[..i])
    {
      out := out + (fs[i].name + ": " + fs[i].value + CRLF);
      PrintedSoFar(StatusLine(status, reason), own, fs, i);
      UnlinesSnoc(lines, FieldLine(fs[i]));
      lines := lines + [FieldLine(fs[i])];
    }
    assert fs[..|fs|] == fs;
    Assoc(Unlines(lines), CRLF, body);
    out := out + CRLF;
    out := out + body;
  }

  lemma PrintedSoFar(first: string, own: seq<Field>, fs: seq<Field>, i: nat)
    requires i < |fs|
    ensures [first] + FieldLines(own + fs[..i + 1]) == [first] + FieldLines(own + fs[..i]) + [FieldLine(fs[i])]
  {
    assert own + fs[..i + 1] == own + fs[..i] + [fs[i]];
    FieldLinesSnoc(own + fs[..i], fs[i]);
  }

  /** The conversions wrap around: modulo 2 to the 32nd into the range of int, modulo 2 to the 64th into size_t. */
  lemma CastsWrap(n: nat, i: int32)
    ensures (n - ToInt(n) as int) % 4294967296 == 0
    ensures (ToSize(i) - i as int) % 18446744073709551616 == 0 && ToSize(i) < 18446744073709551616
  {
  }
}
