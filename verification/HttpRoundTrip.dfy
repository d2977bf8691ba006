/** Requests printed and read back through parse, and bodies that the parser reads headers from. */
module HttpRoundTrip {
  import opened Wrappers
  import opened Text
  import opened HttpMethod
  import opened HttpMessage
  import opened HttpCodecSpec
  import opened HttpFraming

  // A printer for the request syntax of sections 3 and 5 of RFC 9112, with the method text in any spelling.
  function PrintRequest(word: string, path: string, version: string, fs: seq<Field>, body: string): string {
    Message([word + " " + path + " " + version] + FieldLines(fs), body)
  }

  // The text is a name of the method, in any mix of cases.
  predicate Spells(word: string, mtd: Method) {
    mtd != UNKNOWN && Lower(word) == Lower(MethodName(mtd))
  }

  lemma SpelledPlain(word: string, mtd: Method)
    requires Spells(word, mtd)
    ensures ToMethod(word) == mtd && |word| >= 3 && OneLine(word) && ' ' !in word
  {
    MethodRoundTrip(word, mtd);
    NamesLowered();
    assert |word| == |Lower(word)|;
    forall i | 0 <= i < |word| ensures word[i] != ' ' && word[i] != '\r' {
      assert Lower(word)[i] == ToLower(word[i]);
    }
  }

  lemma RequestLineRoundTrip(word: string, mtd: Method, path: string, version: string)
    requires Spells(word, mtd) && ' ' !in path
    ensures RequestLine(word + " " + path + " " + version) == (word, path, version) && ToMethod(word) == mtd
  {
    SpelledPlain(word, mtd);
    ThreeWords(word, path, version);
  }

  /** Parsing a printed request gives the request back, under the fresh id, in whatever case its method was
      spelled, whatever order its headers were printed in and whatever the body is, as long as the body
      starts with enough CRLF-free bytes to cover the overshoot. */
  lemma RequestRoundTrip(r: Request, word: string, fs: seq<Field>, body: string,
                         json: string -> Option<Json>, id: string)
    requires Spells(word, r.mtd) && OneLine(r.path) && ' ' !in r.path && OneLine(r.version)
    requires Enumerates(fs, r.headers) && Lower("Host") in r.headers
    requires forall f :: f in fs ==> Safe(f)
    requires if body == "" then r.body == Null else json(body) == Some(r.body)
    requires !Contains(body[..Min(|body|, |word| + |r.path| + |r.version|)], CRLF)
    ensures Parsed(PrintRequest(word, r.path, r.version, fs, body), json, id) == Some(r.(id := id))
  {
    SpelledPlain(word, r.mtd);
    RequestLineRoundTrip(word, r.mtd, r.path, r.version);
    RequestLineOneLine(word, r.path, r.version);
    PrintedUnder(word + " " + r.path + " " + r.version, word, r, fs, body, json, id);
  }

  lemma RequestLineOneLine(word: string, path: string, version: string)
    requires OneLine(word) && OneLine(path) && OneLine(version)
    ensures OneLine(word + " " + path + " " + version)
  {
    OneLineJoin(word, ' ', path);
    OneLineJoin(word + " " + path, ' ', version);
    assert word + " " + path == word + ([' '] + path);
    assert word + " " + path + " " + version == word + " " + path + ([' '] + version);
  }

  lemma PrintedUnder(line: string, word: string, r: Request, fs: seq<Field>, body: string,
                     json: string -> Option<Json>, id: string)
    requires OneLine(line) && |line| >= 2 && RequestLine(line) == (word, r.path, r.version)
    requires r.mtd != UNKNOWN && ToMethod(word) == r.mtd
    requires Enumerates(fs, r.headers) && Lower("Host") in r.headers
    requires forall f :: f in fs ==> Safe(f)
    requires if body == "" then r.body == Null else json(body) == Some(r.body)
    requires !Contains(body[..Min(|body|, |line| - 2)], CRLF)
    ensures Parsed(Message([line] + FieldLines(fs), body), json, id) == Some(r.(id := id))
  {
    MessageComesApart(line, fs, body);
    FieldsBack(fs, r.headers);
    ParsedFromParts(Message([line] + FieldLines(fs), body), line, word, r, fs, body, json, id);
  }

  lemma ParsedFromParts(raw: string, line: string, word: string, r: Request, fs: seq<Field>, body: string,
                        json: string -> Option<Json>, id: string)
    requires Contains(raw, CRLF) && LineLength(raw) == |line| && raw[..|line|] == line && |line| >= 2
    requires Contains(raw, BLANK_LINE) && raw[HeadEnd(raw) + 4..] == body
    requires RequestLine(line) == (word, r.path, r.version)
    requires r.mtd != UNKNOWN && ToMethod(word) == r.mtd
    requires FieldsOf(Lines(HeaderBlock(raw))) == fs && PutAll(map[], fs) == r.headers && Lower("Host") in r.headers
    requires if body == "" then r.body == Null else json(body) == Some(r.body)
    requires !Contains(body[..Min(|body|, |line| - 2)], CRLF)
    ensures Parsed(raw, json, id) == Some(r.(id := id))
  {
    CleanView(raw, body);
    BodyReads(raw, json, body, r.body);
    ParsedIs(raw, json, id, word, r.(id := id));
  }

  lemma BodyReads(raw: string, json: string -> Option<Json>, body: string, value: Json)
    requires Contains(raw, BLANK_LINE) && raw[HeadEnd(raw) + 4..] == body
    requires if body == "" then value == Null else json(body) == Some(value)
    ensures BodyOf(raw, json) == Some(value)
  {
  }

  lemma ParsedIs(raw: string, json: string -> Option<Json>, id: string, name: string, r: Request)
    requires Contains(raw, CRLF) && Contains(HeaderView(raw, LineLength(raw)), CRLF)
    requires RequestLine(raw[..LineLength(raw)]) == (name, r.path, r.version)
    requires ToMethod(name) == r.mtd && !r.mtd.UNKNOWN? && r.id == id
    requires PutAll(map[], FieldsOf(Lines(HeaderView(raw, LineLength(raw))))) == r.headers && Lower("Host") in r.headers
    requires BodyOf(raw, json) == Some(r.body)
    ensures Parsed(raw, json, id) == Some(r)
  {
  }

  lemma CleanView(raw: string, body: string)
    requires Contains(raw, CRLF) && LineLength(raw) >= 2
    requires Contains(raw, BLANK_LINE) && raw[HeadEnd(raw) + 4..] == body
    requires !Contains(body[..Min(|body|, LineLength(raw) - 2)], CRLF)
    ensures FieldsOf(Lines(HeaderView(raw, LineLength(raw)))) == FieldsOf(Lines(HeaderBlock(raw)))
    ensures Contains(HeaderView(raw, LineLength(raw)), CRLF)
  {
    PrefixOfSuffix(raw, HeadEnd(raw) + 4, LineLength(raw) - 2);
    assert Overshoot(raw) == body[..Min(|body|, LineLength(raw) - 2)];
    CleanBodyAddsNothing(raw);
    FieldsSeen(raw);
  }

  lemma PrefixOfSuffix(raw: string, from: nat, n: nat)
    requires from <= |raw|
    ensures raw[from..Min(|raw|, from + n)] == raw[from..][..Min(|raw| - from, n)]
  {
  }

  // ----- a body that writes headers -----

  /** Any clean body line with a colon that ends inside the overshoot becomes a header. */
  lemma BodyLineBecomesHeader(first: string, fs: seq<Field>, line: string, rest: string)
    requires OneLine(first) && forall f :: f in fs ==> OneLineField(f)
    requires OneLine(line) && FieldOf(line).Some? && |line| + 4 <= |first|
    ensures var raw := Message([first] + FieldLines(fs), line + CRLF + rest);
            Contains(raw, CRLF) &&
            Lower(FieldOf(line).value.name) in PutAll(map[], FieldsOf(Lines(HeaderView(raw, LineLength(raw)))))
  {
    MessageComesApart(first, fs, line + CRLF + rest);
    LeakFromParts(Message([first] + FieldLines(fs), line + CRLF + rest), line, rest);
  }

  lemma LeakFromParts(raw: string, line: string, rest: string)
    requires Contains(raw, CRLF) && Contains(raw, BLANK_LINE) && raw[HeadEnd(raw) + 4..] == line + CRLF + rest
    requires OneLine(line) && FieldOf(line).Some? && |line| + 4 <= LineLength(raw)
    ensures Lower(FieldOf(line).value.name) in PutAll(map[], FieldsOf(Lines(HeaderView(raw, LineLength(raw)))))
  {
    var body := line + CRLF + rest;
    FieldsSeen(raw);
    PrefixOfSuffix(raw, HeadEnd(raw) + 4, LineLength(raw) - 2);
    assert Overshoot(raw) == body[..Min(|body|, LineLength(raw) - 2)];
    LeadingLine(line, rest, Min(|body|, LineLength(raw) - 2));
    NameKept(FieldsOf(Lines(HeaderBlock(raw))), FieldsOf(Lines(Overshoot(raw))), Lower(FieldOf(line).value.name));
  }

  lemma LeadingLine(line: string, rest: string, n: nat)
    requires OneLine(line) && FieldOf(line).Some? && |line| + 2 <= n <= |line + CRLF + rest|
    ensures var over := FieldsOf(Lines((line + CRLF + rest)[..n]));
            FirstName(over, Lower(FieldOf(line).value.name)).Some?
  {
    var more := rest[..n - |line| - 2];
    assert (line + CRLF + rest)[..n] == line + CRLF + more;
    OneLineIff(line);
    FirstLine(line, more);
    FieldsOfConcat([line], Lines(more));
    assert FieldsOf([line]) == [FieldOf(line).value] by { assert [line][..0] == []; }
  }

  lemma NameKept(block: seq<Field>, over: seq<Field>, key: string)
    requires FirstName(over, key).Some?
    ensures key in PutAll(map[], block + over)
  {
    FirstNameConcat(block, over, key);
    PutAllMeaning(block + over, key);
  }

  /** So does the header of an accepted request: a printed request whose body starts with such a line is
      accepted with a header under that name, whatever its head holds. */
  lemma BodyHeaderIsAccepted(word: string, mtd: Method, path: string, version: string, fs: seq<Field>,
                             line: string, rest: string, json: string -> Option<Json>, id: string)
    requires Spells(word, mtd) && OneLine(path) && ' ' !in path && OneLine(version)
    requires (forall f :: f in fs ==> OneLineField(f)) && Lower("Host") in PutAll(map[], FieldsOf(FieldLines(fs)))
    requires OneLine(line) && FieldOf(line).Some? && json(line + CRLF + rest).Some?
    requires |line| + 2 <= |word| + |path| + |version|
    ensures var raw := PrintRequest(word, path, version, fs, line + CRLF + rest);
            Parsed(raw, json, id).Some? &&
            Lower(FieldOf(line).value.name) in Parsed(raw, json, id).value.headers &&
            Contains(raw, CRLF) && Contains(raw, BLANK_LINE) && Lines(HeaderBlock(raw)) == FieldLines(fs)
  {
    SpelledPlain(word, mtd);
    RequestLineOneLine(word, path, version);
    RequestLineRoundTrip(word, mtd, path, version);
    AcceptedUnder(word + " " + path + " " + version, fs, line, rest, json, id);
  }

  lemma AcceptedUnder(first: string, fs: seq<Field>, line: string, rest: string,
                      json: string -> Option<Json>, id: string)
    requires OneLine(first) && !ToMethod(RequestLine(first).0).UNKNOWN? && forall f :: f in fs ==> OneLineField(f)
    requires Lower("Host") in PutAll(map[], FieldsOf(FieldLines(fs)))
    requires OneLine(line) && FieldOf(line).Some? && |line| + 4 <= |first| && json(line + CRLF + rest).Some?
    ensures var raw := Message([first] + FieldLines(fs), line + CRLF + rest);
            Parsed(raw, json, id).Some? &&
            Lower(FieldOf(line).value.name) in Parsed(raw, json, id).value.headers &&
            Contains(raw, CRLF) && Contains(raw, BLANK_LINE) && Lines(HeaderBlock(raw)) == FieldLines(fs)
  {
    MessageComesApart(first, fs, line + CRLF + rest);
    AcceptedFromParts(Message([first] + FieldLines(fs), line + CRLF + rest), FieldLines(fs), line, rest, json, id);
  }

  lemma AcceptedFromParts(raw: string, lines: seq<string>, line: string, rest: string,
                          json: string -> Option<Json>, id: string)
    requires Contains(raw, CRLF) && Contains(raw, BLANK_LINE) && raw[HeadEnd(raw) + 4..] == line + CRLF + rest
    requires !ToMethod(RequestLine(raw[..LineLength(raw)]).0).UNKNOWN?
    requires Lines(HeaderBlock(raw)) == lines && Lower("Host") in PutAll(map[], FieldsOf(lines))
    requires OneLine(line) && FieldOf(line).Some? && |line| + 4 <= LineLength(raw) && json(line + CRLF + rest).Some?
    ensures Parsed(raw, json, id).Some? && Lower(FieldOf(line).value.name) in Parsed(raw, json, id).value.headers
  {
    LeakFromParts(raw, line, rest);
    HostSeen(raw, lines);
    BodyIs(raw, json, line + CRLF + rest);
    HostLowered();
    RecognisedIff(RequestLine(raw[..LineLength(raw)]).0);
    AcceptedIff(raw, json, id);
  }

  lemma BodyIs(raw: string, json: string -> Option<Json>, body: string)
    requires Contains(raw, BLANK_LINE) && raw[HeadEnd(raw) + 4..] == body && body != ""
    ensures BodyOf(raw, json) == json(body)
  {
  }

  /** A concrete request whose JSON body, broken over two lines, is accepted with a header
      that its head does not have. */
  lemma LeakingBody(json: string -> Option<Json>, id: string)
    requires json("{\"k\":" + CRLF + "1}").Some?
    ensures var raw := PrintRequest("POST", "/orders", "HTTP/1.1", [Field("Host", "h")], "{\"k\":" + CRLF + "1}");
            Parsed(raw, json, id).Some? && "{\"k\"" in Parsed(raw, json, id).value.headers &&
            Contains(raw, CRLF) && Contains(raw, BLANK_LINE) &&
            "{\"k\"" !in PutAll(map[], FieldsOf(Lines(HeaderBlock(raw))))
  {
    var name := "{\"k\"";
    assert name + ":" == "{\"k\":" && Lower(name) == name;
    NoCarriageReturn("/orders");
    NoCarriageReturn("HTTP/1.1");
    LeakingName("POST", POST, "/orders", "HTTP/1.1", name, "1}", json, id);
  }

  lemma LeakingName(word: string, mtd: Method, path: string, version: string, name: string, rest: string,
                    json: string -> Option<Json>, id: string)
    requires Spells(word, mtd) && OneLine(path) && ' ' !in path && OneLine(version)
    requires '\r' !in name && ':' !in name && name != "" && Lower(name)[0] != 'h'
    requires |name| + 3 <= |word| + |path| + |version| && json(name + ":" + CRLF + rest).Some?
    ensures var raw := PrintRequest(word, path, version, [Field("Host", "h")], name + ":" + CRLF + rest);
            Parsed(raw, json, id).Some? && Lower(name) in Parsed(raw, json, id).value.headers &&
            Contains(raw, CRLF) && Contains(raw, BLANK_LINE) &&
            Lower(name) !in PutAll(map[], FieldsOf(Lines(HeaderBlock(raw))))
  {
    LeakingLine(name);
    HostOnly(Lower(name));
    BodyHeaderIsAccepted(word, mtd, path, version, [Field("Host", "h")], name + ":", rest, json, id);
  }

  lemma HostSeen(raw: string, lines: seq<string>)
    requires Contains(raw, CRLF) && Contains(raw, BLANK_LINE) && LineLength(raw) >= 2
    requires Lines(HeaderBlock(raw)) == lines && Lower("Host") in PutAll(map[], FieldsOf(lines))
    ensures Contains(HeaderView(raw, LineLength(raw)), CRLF)
    ensures Lower("Host") in PutAll(map[], FieldsOf(Lines(HeaderView(raw, LineLength(raw)))))
  {
    FieldsSeen(raw);
    HeadNameKept(FieldsOf(lines), FieldsOf(Lines(Overshoot(raw))), Lower("Host"));
  }

  lemma HeadNameKept(block: seq<Field>, over: seq<Field>, key: string)
    requires key in PutAll(map[], block)
    ensures key in PutAll(map[], block + over)
  {
    PutAllMeaning(block, key);
    FirstNameConcat(block, over, key);
    PutAllMeaning(block + over, key);
  }

  lemma LeakingLine(name: string)
    requires '\r' !in name && ':' !in name
    ensures OneLine(name + ":") && FieldOf(name + ":") == Some(Field(name, ""))
  {
    var line := name + ":";
    NoCarriageReturn(line);
    forall j: nat | j < |name| ensures !At(line, ":", j) {
      AtChar(line, ':', j);
    }
    AtChar(line, ':', |name|);
    IndexOfIs(line, ":", 0, |name|);
    assert line[..|name|] == name && line[|name| + 1..] == "";
  }

  lemma HostOnly(key: string)
    requires key != "" && key[0] != 'h'
    ensures OneLineField(Field("Host", "h"))
    ensures Lower("Host") in PutAll(map[], FieldsOf(FieldLines([Field("Host", "h")])))
    ensures key !in PutAll(map[], FieldsOf(FieldLines([Field("Host", "h")])))
  {
    var host := Field("Host", "h");
    NoCarriageReturn("Host");
    FieldLinesRoundTrip([host]);
    PutAllMeaning([host], key);
    PutAllMeaning([host], Lower("Host"));
    assert Lower("Host")[0] == 'h';
    assert FirstName([host][1..], key).None?;
  }
}
