/** What HttpCodec::parse and HttpCodec::serialize compute, stated over lines instead of indices,
    and what that means: where header lines come from, and round trips in both directions. */
module HttpCodecSpec {
  import opened Wrappers
  import opened Text
  import opened HttpMethod
  import opened HttpMessage

  // ----- header lines -----

  function FirstNonBlank(v: string): (r: Option<nat>)
    ensures r.Some? ==> r.value < |v| && v[r.value] != ' ' && v[r.value] != '\t'
    ensures forall i :: 0 <= i < (if r.Some? then r.value else |v|) ==> v[i] == ' ' || v[i] == '\t'
  {
    if v == "" then None
    else if v[0] != ' ' && v[0] != '\t' then Some(0)
    else match FirstNonBlank(v[1..])
      case None => assert forall i :: 1 <= i < |v| ==> v[i] == v[1..][i - 1]; None
      case Some(i) => assert forall j :: 1 <= j < i + 1 ==> v[j] == v[1..][j - 1]; Some(i + 1)
  }

  // Leading blanks go, unless there is nothing else.
  function SkipBlanks(v: string): string {
    match FirstNonBlank(v)
    case None => v
    case Some(i) => v[i..]
  }

  function FieldOf(line: string): Option<Field> {
    match IndexOf(line, ":", 0)
    case None => None
    case Some(c) => IndexOfMeaning(line, ":", 0); Some(Field(line[..c], SkipBlanks(line[c + 1..])))
  }

  function FieldList(line: string): seq<Field> {
    match FieldOf(line) case None => [] case Some(f) => [f]
  }

  function FieldsOf(lines: seq<string>): seq<Field> {
    if lines == [] then [] else FieldsOf(lines[..|lines| - 1]) + FieldList(lines[|lines| - 1])
  }

  lemma {:induction false} FieldsOfConcat(a: seq<string>, b: seq<string>)
    ensures FieldsOf(a + b) == FieldsOf(a) + FieldsOf(b)
  {
    if b == [] {
      assert a + b == a;
    } else {
      var init, last := b[..|b| - 1], b[|b| - 1];
      assert b == init + [last];
      FieldsOfConcat(a, init);
      FieldsOfConcatSnoc(a, init, last);
    }
  }

  lemma FieldsOfConcatSnoc(a: seq<string>, init: seq<string>, last: string)
    requires FieldsOf(a + init) == FieldsOf(a) + FieldsOf(init)
    ensures FieldsOf(a + (init + [last])) == FieldsOf(a) + FieldsOf(init + [last])
  {
    assert a + (init + [last]) == a + init + [last];
    FieldsOfSnoc(a + init, last);
    FieldsOfSnoc(init, last);
    AssocFields(FieldsOf(a), FieldsOf(init), FieldList(last));
  }

  lemma FieldsOfSnoc(lines: seq<string>, line: string)
    ensures FieldsOf(lines + [line]) == FieldsOf(lines) + FieldList(line)
  {
    assert (lines + [line])[..|lines|] == lines;
  }

  lemma AssocFields(a: seq<Field>, b: seq<Field>, c: seq<Field>)
    ensures a + b + c == a + (b + c)
  {
  }

  // ----- parse -----

  // Method text, path and version. A missing space leaves the whole line where substr would put it.
  function RequestLine(targets: string): (string, string, string) {
    match IndexOf(targets, " ", 0)
    case None => (targets, targets, targets)
    case Some(i) =>
      IndexOfMeaning(targets, " ", 0);
      match IndexOf(targets, " ", i + 1)
      case None => (targets[..i], targets[i + 1..], targets)
      case Some(j) => IndexOfMeaning(targets, " ", i + 1); (targets[..i], targets[i + 1..j], targets[j + 1..])
  }

  function LineLength(raw: string): (n: nat)
    requires Contains(raw, CRLF)
    ensures n + 2 <= |raw| && At(raw, CRLF, n)
  {
    IndexOfMeaning(raw, CRLF, 0);
    IndexOf(raw, CRLF, 0).value
  }

  function HeadEnd(raw: string): (n: nat)
    requires Contains(raw, BLANK_LINE)
    ensures n + 4 <= |raw| && At(raw, BLANK_LINE, n)
  {
    IndexOfMeaning(raw, BLANK_LINE, 0);
    IndexOf(raw, BLANK_LINE, 0).value
  }

  // The bytes searched for header lines: the offset of the blank line is used as a length.
  function HeaderView(raw: string, lineEnd: nat): string
    requires lineEnd + 2 <= |raw|
  {
    if Contains(raw, BLANK_LINE) then raw[lineEnd + 2..Min(|raw|, lineEnd + 2 + HeadEnd(raw))] else raw[lineEnd + 2..]
  }

  function Min(a: nat, b: nat): nat {
    if a <= b then a else b
  }

  function BodyOf(raw: string, json: string -> Option<Json>): Option<Json> {
    if !Contains(raw, BLANK_LINE) || raw[HeadEnd(raw) + 4..] == "" then Some(Null) else json(raw[HeadEnd(raw) + 4..])
  }

  function Parsed(raw: string, json: string -> Option<Json>, id: string): Option<Request> {
    if !Contains(raw, CRLF) then None else
      var (method_, path, version) := RequestLine(raw[..LineLength(raw)]);
      var view := HeaderView(raw, LineLength(raw));
      var headers := PutAll(map[], FieldsOf(Lines(view)));
      if ToMethod(method_).UNKNOWN? || !Contains(view, CRLF) || Lower("Host") !in headers then None
      else
        match BodyOf(raw, json)
        case None => None
        case Some(body) => Some(Request(id, ToMethod(method_), path, version, headers, body))
  }

  // ----- where the header lines come from -----

  // The terminated lines between the request line and the blank line.
  function HeaderBlock(raw: string): string
    requires Contains(raw, CRLF) && Contains(raw, BLANK_LINE)
  {
    BlankNotBeforeLine(raw);
    raw[LineLength(raw) + 2..HeadEnd(raw) + 2]
  }

  // The body bytes that the view reaches: request-line length - 2 of them, or all there are.
  function Overshoot(raw: string): string
    requires Contains(raw, CRLF) && Contains(raw, BLANK_LINE) && LineLength(raw) >= 2
  {
    raw[HeadEnd(raw) + 4..Min(|raw|, HeadEnd(raw) + 4 + (LineLength(raw) - 2))]
  }

  lemma AtBlankLine(raw: string, blank: nat)
    requires At(raw, BLANK_LINE, blank)
    ensures At(raw, CRLF, blank) && At(raw, CRLF, blank + 2)
  {
    var four := raw[blank..blank + 4];
    assert raw[blank..blank + 2] == four[..2] == CRLF;
    assert raw[blank + 2..blank + 4] == four[2..] == CRLF;
  }

  lemma BlankNotBeforeLine(raw: string)
    requires Contains(raw, BLANK_LINE)
    ensures Contains(raw, CRLF) && LineLength(raw) + 2 <= HeadEnd(raw) + 2
  {
    IndexOfMeaning(raw, BLANK_LINE, 0);
    IndexOfMeaning(raw, CRLF, 0);
    AtBlankLine(raw, IndexOf(raw, BLANK_LINE, 0).value);
  }

  lemma ViewParts(raw: string, line: nat, blank: nat, end: nat)
    requires At(raw, CRLF, line) && At(raw, BLANK_LINE, blank) && line <= blank && blank + 4 <= end <= |raw|
    ensures raw[line + 2..end] == raw[line + 2..blank + 2] + (CRLF + raw[blank + 4..end])
    ensures raw[line + 2..blank + 2] == "" || EndsLine(raw[line + 2..blank + 2])
  {
    AtBlankLine(raw, blank);
    AtCrlf(raw, line);
    AtCrlf(raw, blank);
    AtCrlf(raw, blank + 2);
    assert raw[blank + 2..end] == CRLF + raw[blank + 4..end];
    assert raw[line + 2..end] == raw[line + 2..blank + 2] + raw[blank + 2..end];
    if line < blank {
      AtCrlf(raw[line + 2..blank + 2], blank - line - 2);
    }
  }

  /** With a blank line present, the fields seen are those of the header block
      followed by those of the body bytes that the view runs into. */
  lemma FieldsSeen(raw: string)
    requires Contains(raw, BLANK_LINE) && Contains(raw, CRLF) && LineLength(raw) >= 2
    ensures FieldsOf(Lines(HeaderView(raw, LineLength(raw)))) ==
            FieldsOf(Lines(HeaderBlock(raw))) + FieldsOf(Lines(Overshoot(raw)))
    ensures Contains(HeaderView(raw, LineLength(raw)), CRLF)
  {
    ViewIsHeadAndOvershoot(raw);
    FieldsOfView(HeaderBlock(raw), Overshoot(raw));
  }

  lemma ViewIsHeadAndOvershoot(raw: string)
    requires Contains(raw, BLANK_LINE) && Contains(raw, CRLF) && LineLength(raw) >= 2
    ensures HeaderView(raw, LineLength(raw)) == HeaderBlock(raw) + (CRLF + Overshoot(raw))
    ensures HeaderBlock(raw) == "" || EndsLine(HeaderBlock(raw))
  {
    BlankNotBeforeLine(raw);
    var end := Min(|raw|, HeadEnd(raw) + 4 + (LineLength(raw) - 2));
    assert HeaderView(raw, LineLength(raw)) == raw[LineLength(raw) + 2..end];
    assert Overshoot(raw) == raw[HeadEnd(raw) + 4..end];
    assert HeaderBlock(raw) == raw[LineLength(raw) + 2..HeadEnd(raw) + 2];
    ViewParts(raw, LineLength(raw), HeadEnd(raw), end);
  }

  lemma FieldsOfView(block: string, over: string)
    requires block == "" || EndsLine(block)
    ensures FieldsOf(Lines(block + (CRLF + over))) == FieldsOf(Lines(block)) + FieldsOf(Lines(over))
    ensures Contains(block + (CRLF + over), CRLF)
  {
    ContainsMiddle(block, CRLF, over);
    calc {
      FieldsOf(Lines(block + (CRLF + over)));
      { LinesAfter(block, CRLF + over); }
      FieldsOf(Lines(block) + Lines(CRLF + over));
      { FieldsOfConcat(Lines(block), Lines(CRLF + over)); }
      FieldsOf(Lines(block)) + FieldsOf(Lines(CRLF + over));
      { EmptyLineFields(over); }
      FieldsOf(Lines(block)) + FieldsOf(Lines(over));
    }
  }

  lemma EmptyLineFields(over: string)
    ensures FieldsOf(Lines(CRLF + over)) == FieldsOf(Lines(over))
  {
    assert IndexOf("", CRLF, 0).None?;
    FirstLine("", over);
    assert "" + CRLF + over == CRLF + over;
    FieldsOfConcat([""], Lines(over));
    NoField("");
  }

  lemma NoField(line: string)
    requires FieldOf(line).None?
    ensures FieldsOf([line]) == []
  {
    assert [line][..0] == [];
  }

  lemma LinesAfter(block: string, tail: string)
    requires block == "" || EndsLine(block)
    ensures Lines(block + tail) == Lines(block) + Lines(tail)
  {
    if block == "" {
      assert block + tail == tail;
    } else {
      LinesConcat(block, tail);
    }
  }

  lemma ContainsMiddle(a: string, pat: string, b: string)
    ensures Contains(a + (pat + b), pat)
  {
    assert (a + (pat + b))[|a|..|a| + |pat|] == pat;
    assert At(a + (pat + b), pat, |a|);
    IndexOfMeaning(a + (pat + b), pat, 0);
  }

  /** The parsed header map is that of the header block exactly when every name that a body line
      inside the overshoot sets last is set by the block, last, to the same value. */
  lemma HeadersComeFromBlockIff(raw: string)
    requires Contains(raw, BLANK_LINE) && Contains(raw, CRLF) && LineLength(raw) >= 2
    ensures var block, over := FieldsOf(Lines(HeaderBlock(raw))), FieldsOf(Lines(Overshoot(raw)));
            PutAll(map[], FieldsOf(Lines(HeaderView(raw, LineLength(raw))))) == PutAll(map[], block)
            <==> forall key: string :: SameLast(over, block, key)
  {
    var block, over := FieldsOf(Lines(HeaderBlock(raw))), FieldsOf(Lines(Overshoot(raw)));
    FieldsSeen(raw);
    PutAllEqualIff(block, over);
  }

  /** So for every accepted request with a blank line: its headers are those of its head under that condition only. */
  lemma ParsedHeadersIff(raw: string, json: string -> Option<Json>, id: string)
    requires Contains(raw, BLANK_LINE) && Parsed(raw, json, id).Some?
    ensures Contains(raw, CRLF) && LineLength(raw) >= 2
    ensures var block, over := FieldsOf(Lines(HeaderBlock(raw))), FieldsOf(Lines(Overshoot(raw)));
            Parsed(raw, json, id).value.headers == PutAll(map[], block)
            <==> forall key: string :: SameLast(over, block, key)
  {
    MethodFillsLine(raw[..LineLength(raw)]);
    HeadersComeFromBlockIff(raw);
  }

  lemma MethodFillsLine(line: string)
    requires !ToMethod(RequestLine(line).0).UNKNOWN?
    ensures |line| >= 2
  {
    IndexOfMeaning(line, " ", 0);
    var name := RequestLine(line).0;
    assert |Lower(name)| == |name| <= |line|;
  }

  ghost predicate SameLast(over: seq<Field>, block: seq<Field>, key: string) {
    LastValue(over, key).None? || LastValue(over, key) == LastValue(block, key)
  }

  lemma PutAllEqualIff(block: seq<Field>, over: seq<Field>)
    ensures PutAll(map[], block + over) == PutAll(map[], block) <==> forall key: string :: SameLast(over, block, key)
  {
    var seen, proper := PutAll(map[], block + over), PutAll(map[], block);
    forall key: string ensures Slot(seen, key) == Slot(proper, key) <==> SameLast(over, block, key) {
      SlotAfter(block, over, key);
    }
    assert seen == proper <==> forall key: string :: Slot(seen, key) == Slot(proper, key) by {
      if forall key: string :: Slot(seen, key) == Slot(proper, key) {
        assert forall key: string :: key in seen <==> Slot(seen, key).Some?;
        assert forall key: string :: key in proper <==> Slot(proper, key).Some?;
        assert forall key: string :: key in seen ==> Slot(seen, key).value == seen[key];
      }
    }
  }

  function Slot(h: Headers, key: string): Option<Field> {
    if key in h then Some(h[key]) else None
  }

  lemma SlotAfter(block: seq<Field>, over: seq<Field>, key: string)
    ensures var proper := Slot(PutAll(map[], block), key);
            Slot(PutAll(map[], block + over), key) ==
            (if LastValue(over, key).None? || FirstName(over, key).None? then proper
             else Some(Field(if proper.Some? then proper.value.name else FirstName(over, key).value,
                             LastValue(over, key).value)))
    ensures Slot(PutAll(map[], block), key).Some? <==> LastValue(block, key).Some?
    ensures LastValue(block, key).Some? ==> Slot(PutAll(map[], block), key).value.value == LastValue(block, key).value
    ensures LastValue(over, key).Some? <==> FirstName(over, key).Some?
  {
    LastValueConcat(block, over, key);
    FirstNameConcat(block, over, key);
    PutAllMeaning(block + over, key);
    PutAllMeaning(block, key);
    PutAllMeaning(over, key);
  }

  lemma {:induction false} LastValueConcat(a: seq<Field>, b: seq<Field>, key: string)
    ensures LastValue(a + b, key) == if LastValue(b, key).Some? then LastValue(b, key) else LastValue(a, key)
  {
    if b == [] {
      assert a + b == a;
    } else {
      LastValueConcat(a, b[..|b| - 1], key);
      assert (a + b)[..|a + b| - 1] == a + b[..|b| - 1];
    }
  }

  lemma {:induction false} FirstNameConcat(a: seq<Field>, b: seq<Field>, key: string)
    ensures FirstName(a + b, key) == if FirstName(a, key).Some? then FirstName(a, key) else FirstName(b, key)
  {
    if a == [] {
      assert a + b == b;
    } else {
      FirstNameConcat(a[1..], b, key);
      assert (a + b)[1..] == a[1..] + b;
    }
  }

  /** In particular a CRLF-free overshoot adds nothing. */
  lemma CleanBodyAddsNothing(raw: string)
    requires Contains(raw, BLANK_LINE) && Contains(raw, CRLF) && LineLength(raw) >= 2
    requires !Contains(Overshoot(raw), CRLF)
    ensures FieldsOf(Lines(HeaderView(raw, LineLength(raw)))) == FieldsOf(Lines(HeaderBlock(raw)))
  {
    FieldsSeen(raw);
    assert Lines(Overshoot(raw)) == [];
  }

  // ----- every accepted and every refused request -----

  lemma ThreeWords(a: string, b: string, c: string)
    requires ' ' !in a && ' ' !in b
    ensures RequestLine(a + " " + b + " " + c) == (a, b, c)
  {
    var line, tail := a + " " + b + " " + c, b + " " + c;
    assert line == a + " " + tail;
    FirstSpace(a, tail);
    FirstSpace(b, c);
    assert line[|a| + 1..] == tail;
    IndexOfSuffix(line, " ", |a| + 1);
    WordSlices(a, b, c);
  }

  lemma FirstSpace(a: string, b: string)
    requires ' ' !in a
    ensures IndexOf(a + " " + b, " ", 0) == Some(|a|)
  {
    var s := a + " " + b;
    forall j: nat | j < |a| ensures !At(s, " ", j) {
      AtChar(s, ' ', j);
      assert s[j] == a[j];
    }
    AtChar(s, ' ', |a|);
    IndexOfIs(s, " ", 0, |a|);
  }

  lemma WordSlices(a: string, b: string, c: string)
    ensures var line, i, j := a + " " + b + " " + c, |a|, |a| + 1 + |b|;
            line[..i] == a && line[i + 1..j] == b && line[j + 1..] == c
  {
  }

  /** A request line is cut at its first two spaces; without the second one the version is the whole line, without
      any space method, path and version all are. */
  lemma RequestLineWords(a: string, b: string, c: string)
    requires ' ' !in a && ' ' !in b
    ensures RequestLine(a + " " + b + " " + c) == (a, b, c)
    ensures RequestLine(a + " " + b) == (a, b, a + " " + b)
    ensures RequestLine(a) == (a, a, a)
  {
    ThreeWords(a, b, c);
    FirstSpace(a, b);
    LacksChar(a, ' ');
    LacksChar(b, ' ');
    var line := a + " " + b;
    assert line[..|a|] == a && line[|a| + 1..] == b;
    IndexOfSuffix(line, " ", |a| + 1);
  }

  predicate AllBlank(s: string) {
    forall c :: c in s ==> c == ' ' || c == '\t'
  }

  /** A header line is cut at its first colon, and the blanks and tabs before its value go, unless nothing
      else follows; a line without a colon is no header. */
  lemma HeaderLine(name: string, blanks: string, value: string)
    requires ':' !in name && AllBlank(blanks) && value != "" && value[0] != ' ' && value[0] != '\t'
    ensures FieldOf(name + ":" + (blanks + value)) == Some(Field(name, value))
    ensures FieldOf(name + ":" + blanks) == Some(Field(name, blanks))
    ensures FieldOf(name) == None
  {
    LacksChar(name, ':');
    CutAtColon(name, blanks + value);
    CutAtColon(name, blanks);
    BlanksGo(blanks, value);
  }

  lemma CutAtColon(name: string, rest: string)
    requires ':' !in name
    ensures FieldOf(name + ":" + rest) == Some(Field(name, SkipBlanks(rest)))
  {
    var line := name + ":" + rest;
    forall j: nat | j < |name| ensures !At(line, ":", j) {
      AtChar(line, ':', j);
      assert line[j] == name[j];
    }
    AtChar(line, ':', |name|);
    IndexOfIs(line, ":", 0, |name|);
    assert line[..|name|] == name && line[|name| + 1..] == rest;
  }

  lemma BlanksGo(blanks: string, value: string)
    requires AllBlank(blanks) && value != "" && value[0] != ' ' && value[0] != '\t'
    ensures SkipBlanks(blanks + value) == value && SkipBlanks(blanks) == blanks
  {
    var s := blanks + value;
    assert forall i :: 0 <= i < |blanks| ==> s[i] == blanks[i] && blanks[i] in blanks;
    assert s[|blanks|] == value[0];
    assert FirstNonBlank(s) == Some(|blanks|) && s[|blanks|..] == value;
    assert FirstNonBlank(blanks) == None;
  }

  /** The body is what follows the first blank line; it is null when there is no blank line or nothing follows. */
  lemma BodyMeaning(raw: string, head: string, body: string, json: string -> Option<Json>)
    ensures !Contains(raw, BLANK_LINE) ==> BodyOf(raw, json) == Some(Null)
    ensures raw == head + (BLANK_LINE + body) && IndexOf(raw, BLANK_LINE, 0) == Some(|head|) ==>
              BodyOf(raw, json) == if body == "" then Some(Null) else json(body)
  {
    if raw == head + (BLANK_LINE + body) {
      assert raw[|head| + 4..] == body;
    }
  }

  /** When bytes are accepted as a request, and which request they are. */
  lemma AcceptedIff(raw: string, json: string -> Option<Json>, id: string)
    ensures !Contains(raw, CRLF) ==> Parsed(raw, json, id) == None
    ensures Contains(raw, CRLF) ==>
              var (name, path, version) := RequestLine(raw[..LineLength(raw)]);
              var view := HeaderView(raw, LineLength(raw));
              var headers := PutAll(map[], FieldsOf(Lines(view)));
              (Parsed(raw, json, id).Some? <==>
                 Lower(name) in {"get", "post", "put", "delete", "patch"} && Contains(view, CRLF) &&
                 "host" in headers && BodyOf(raw, json).Some?) &&
              (Parsed(raw, json, id).Some? ==>
                 Parsed(raw, json, id).value ==
                 Request(id, ToMethod(name), path, version, headers, BodyOf(raw, json).value))
  {
    HostLowered();
    if Contains(raw, CRLF) {
      RecognisedIff(RequestLine(raw[..LineLength(raw)]).0);
    }
  }

  lemma HostLowered()
    ensures Lower("Host") == "host"
  {
  }

  /** Without a blank line every terminated line after the first is read as a header, and the body is null. */
  lemma HeadNeverEnds(line: string, rest: string, json: string -> Option<Json>, id: string)
    requires OneLine(line) && !Contains(line + CRLF + rest, BLANK_LINE)
    ensures var (name, path, version) := RequestLine(line);
            var headers := PutAll(map[], FieldsOf(Lines(rest)));
            Parsed(line + CRLF + rest, json, id) ==
            if Lower(name) in {"get", "post", "put", "delete", "patch"} && Contains(rest, CRLF) && "host" in headers
            then Some(Request(id, ToMethod(name), path, version, headers, Null)) else None
  {
    var raw := line + CRLF + rest;
    OneLineIff(line);
    LineEnds(line, rest);
    assert raw[..|line|] == line && raw[|line| + 2..] == rest;
    AcceptedIff(raw, json, id);
    BodyMeaning(raw, "", "", json);
    assert HeaderView(raw, |line|) == rest;
  }
}
