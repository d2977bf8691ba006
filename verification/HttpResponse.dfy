/** Responses printed by serialize and cut apart again by their own framing: exactly when that works. */
module HttpResponse {
  import opened Wrappers
  import opened Text
  import opened HttpMethod
  import opened HttpMessage
  import opened HttpCodecSpec
  import opened HttpFraming

  // ----- decimal numbers -----

  function Decimal(n: nat): string {
    (if n < 10 then "" else Decimal(n / 10)) + [(n % 10) as char + '0']
  }

  predicate IsDecimal(s: string) {
    s != "" && forall c :: c in s ==> '0' <= c <= '9'
  }

  function Undecimal(s: string): int {
    if s == "" then 0 else 10 * Undecimal(s[..|s| - 1]) + (s[|s| - 1] as int - '0' as int)
  }

  lemma {:induction false} DecimalRoundTrip(n: nat)
    ensures IsDecimal(Decimal(n)) && Undecimal(Decimal(n)) == n
  {
    if n >= 10 {
      DecimalRoundTrip(n / 10);
      assert Decimal(n)[..|Decimal(n)| - 1] == Decimal(n / 10);
    } else {
      assert Decimal(n)[..0] == "";
    }
  }

  lemma {:induction false} DecimalLength(n: nat)
    ensures |Decimal(n)| == 1 <==> n < 10
    ensures |Decimal(n)| == 2 <==> 10 <= n < 100
    ensures |Decimal(n)| == 3 <==> 100 <= n < 1000
    ensures |Decimal(n)| >= 1
  {
    if n >= 10 {
      DecimalLength(n / 10);
    }
  }

  lemma {:induction false} DecimalStart(n: nat)
    ensures Decimal(n) != "" && (Decimal(n)[0] == '0' <==> n == 0)
  {
    if n >= 10 {
      DecimalStart(n / 10);
    }
  }

  /** It is ordinary decimal: every digit stands for itself, and one more multiplies by ten. */
  lemma DecimalDigit(n: nat, d: nat)
    requires d < 10
    ensures Decimal(10 * n + d) == (if n == 0 then "" else Decimal(n)) + ["0123456789"[d]]
  {
    assert (10 * n + d) / 10 == n && (10 * n + d) % 10 == d;
    DigitChar(d);
  }

  lemma DigitChar(d: nat)
    requires d < 10
    ensures d as char + '0' == "0123456789"[d]
  {
  }

  // ----- the printed response -----

  const CONTENT_TYPE := Field("Content-Type", "application/json")

  function ContentLength(n: nat): Field {
    Field("Content-Length", Decimal(n))
  }

  function StatusLine(status: nat, reason: string): string {
    "HTTP/1.1 " + Decimal(status) + " " + reason
  }

  function Own(length: nat): seq<Field> {
    [CONTENT_TYPE, ContentLength(length)]
  }

  // The bytes of a response whose header entries are printed in the order fs.
  function Wire(status: nat, reason: string, fs: seq<Field>, body: string): string {
    Message([StatusLine(status, reason)] + FieldLines(Own(|body|) + fs), body)
  }

  // What one more field in front makes of a header map: its spelling stays, a value set later wins.
  function Fronted(h: Headers, f: Field): Headers {
    var key := Lower(f.name);
    h[key := if key in h then Field(f.name, h[key].value) else f]
  }

  // The printer's two fields followed by the entries of h, as a map.
  function Merged(h: Headers, length: nat): Headers {
    Fronted(Fronted(h, ContentLength(length)), CONTENT_TYPE)
  }

  // The entries of h with the printer's own two as the printer set them.
  function Framed(h: Headers, length: nat): Headers {
    h["content-length" := ContentLength(length)]["content-type" := CONTENT_TYPE]
  }

  // h leaves the values of the printer's own two fields as they are.
  predicate KeepsOwn(h: Headers, length: nat) {
    && ("content-type" in h ==> h["content-type"].value == CONTENT_TYPE.value)
    && ("content-length" in h ==> h["content-length"].value == Decimal(length))
  }

  // The receiver's cut at the first blank line gives this status line, this header map and this body.
  ghost predicate ReadsAs(s: string, first: string, h: Headers, body: string) {
    && Contains(s, CRLF) && Contains(s, BLANK_LINE)
    && s[..LineLength(s)] == first && s[HeadEnd(s) + 4..] == body
    && PutAll(map[], FieldsOf(Lines(HeaderBlock(s)))) == h
  }

  /** A response is cut apart into its status line, all header entries and its body exactly when every
      header name is free of colons and of CRLF, and every value is non-empty, free of CRLF and starts
      with no blank. */
  lemma ResponseFraming(status: nat, reason: string, h: Headers, fs: seq<Field>, body: string)
    requires Enumerates(fs, h) && OneLine(reason)
    ensures ReadsAs(Wire(status, reason, fs, body), StatusLine(status, reason), Merged(h, |body|), body)
            <==> forall f :: f in fs ==> Safe(f)
  {
    var s, first := Wire(status, reason, fs, body), StatusLine(status, reason);
    PrintedMerged(fs, h, |body|);
    StatusOneLine(status, reason);
    if forall f :: f in fs ==> Safe(f) {
      SafeReadsBack(first, Own(|body|), fs, h, body);
    }
    if ReadsAs(s, first, Merged(h, |body|), body) {
      ReadBackIsSafe(first, fs, h, body);
    }
  }

  /** With the printer's own two fields as the printer set them, the same holds exactly when the
      handler's entries leave their values alone. */
  lemma FramedIff(status: nat, reason: string, h: Headers, fs: seq<Field>, body: string)
    requires Enumerates(fs, h) && OneLine(reason)
    ensures Merged(h, |body|) == Framed(h, |body|) <==> KeepsOwn(h, |body|)
    ensures (forall f :: f in fs ==> Safe(f)) ==>
              (ReadsAs(Wire(status, reason, fs, body), StatusLine(status, reason), Framed(h, |body|), body)
               <==> KeepsOwn(h, |body|))
    ensures KeepsOwn(h, |body|) ==>
              (ReadsAs(Wire(status, reason, fs, body), StatusLine(status, reason), Framed(h, |body|), body)
               <==> forall f :: f in fs ==> Safe(f))
  {
    MergedIsFramedIff(h, |body|);
    ResponseFraming(status, reason, h, fs, body);
  }

  lemma MergedIsFramedIff(h: Headers, length: nat)
    ensures Merged(h, length) == Framed(h, length) <==> KeepsOwn(h, length)
  {
    OwnNames();
    var m, f := Merged(h, length), Framed(h, length);
    assert forall key :: key in m <==> key in f;
    assert forall key :: key in m && key != "content-type" && key != "content-length" ==> m[key] == f[key];
    assert m["content-type"] == f["content-type"] <==>
           ("content-type" in h ==> h["content-type"].value == CONTENT_TYPE.value);
    assert m["content-length"] == f["content-length"] <==>
           ("content-length" in h ==> h["content-length"].value == Decimal(length));
  }

  /** Content-Length is the decimal count of the body bytes. */
  lemma ContentLengthCounts(h: Headers, length: nat)
    ensures Framed(h, length)["content-length"].value == Decimal(length)
    ensures IsDecimal(Decimal(length)) && Undecimal(Decimal(length)) == length
    ensures Decimal(length)[0] == '0' <==> length == 0
  {
    OwnNames();
    DecimalRoundTrip(length);
    DecimalStart(length);
  }

  // ----- the bytes -----

  // The header entries as they are appended, one line each.
  function Appended(fs: seq<Field>): string {
    if fs == [] then "" else Appended(fs[..|fs| - 1]) + (fs[|fs| - 1].name + ": " + fs[|fs| - 1].value + "\r\n")
  }

  /** The response byte for byte. */
  lemma WireBytes(status: nat, reason: string, fs: seq<Field>, body: string)
    ensures Wire(status, reason, fs, body) ==
            "HTTP/1.1 " + Decimal(status) + " " + reason + "\r\n" +
            ("Content-Type: application/json" + "\r\n" + ("Content-Length: " + Decimal(|body|) + "\r\n")) +
            Appended(fs) + ("\r\n" + body)
  {
    HeadBytes(StatusLine(status, reason), |body|, fs);
  }

  lemma {:induction false} HeadBytes(first: string, length: nat, fs: seq<Field>)
    ensures Unlines([first] + FieldLines(Own(length) + fs)) ==
            first + CRLF + ("Content-Type: application/json" + CRLF + ("Content-Length: " + Decimal(length) + CRLF)) +
            Appended(fs)
  {
    if fs == [] {
      OpeningLines(first, length);
      assert Own(length) + fs == Own(length);
    } else {
      var before, f := fs[..|fs| - 1], fs[|fs| - 1];
      HeadBytes(first, length, before);
      var lines := [first] + FieldLines(Own(length) + before);
      assert Own(length) + fs == Own(length) + before + [f];
      FieldLinesSnoc(Own(length) + before, f);
      assert [first] + FieldLines(Own(length) + fs) == lines + [FieldLine(f)];
      UnlinesSnoc(lines, FieldLine(f));
      Assoc(first + CRLF + ("Content-Type: application/json" + CRLF + ("Content-Length: " + Decimal(length) + CRLF)),
            Appended(before), FieldLine(f) + CRLF);
    }
  }

  lemma OpeningLines(first: string, length: nat)
    ensures Unlines([first] + FieldLines(Own(length))) ==
            first + CRLF + ("Content-Type: application/json" + CRLF + ("Content-Length: " + Decimal(length) + CRLF))
  {
    var a, b := FieldLine(CONTENT_TYPE), FieldLine(ContentLength(length));
    assert a == "Content-Type: application/json" && b == "Content-Length: " + Decimal(length);
    FieldLinesSnoc([], CONTENT_TYPE);
    FieldLinesSnoc([CONTENT_TYPE], ContentLength(length));
    assert [CONTENT_TYPE] + [ContentLength(length)] == [CONTENT_TYPE, ContentLength(length)];
    assert FieldLines([CONTENT_TYPE, ContentLength(length)]) == [a] + [b];
    UnlinesCons(first, [a] + [b]);
    UnlinesCons(a, [b]);
    UnlinesCons(b, []);
    assert [b] + [] == [b] && b + CRLF + "" == b + CRLF;
  }

  /** Whatever the header entries hold, the first line of a response, cut at its first two spaces, is HTTP/1.1,
      the status in plain decimal, three digits for every HTTP status, and the reason. */
  lemma StatusLineOnTheWire(status: nat, reason: string, fs: seq<Field>, body: string)
    requires OneLine(reason)
    ensures var s := Wire(status, reason, fs, body);
            Contains(s, CRLF) &&
            var (version, code, phrase) := RequestLine(s[..LineLength(s)]);
            version == "HTTP/1.1" && phrase == reason &&
            IsDecimal(code) && Undecimal(code) == status && (code[0] == '0' <==> status == 0) &&
            (|code| == 3 <==> 100 <= status <= 999)
  {
    var first, lines := StatusLine(status, reason), FieldLines(Own(|body|) + fs);
    StatusOneLine(status, reason);
    UnlinesCons(first, lines);
    Assoc(first + CRLF, Unlines(lines), CRLF + body);
    OneLineIff(first);
    LineEnds(first, Unlines(lines) + (CRLF + body));
    assert Wire(status, reason, fs, body) == first + CRLF + (Unlines(lines) + (CRLF + body));
    assert Wire(status, reason, fs, body)[..|first|] == first;
    StatusLineWords(status, reason);
  }

  lemma StatusLineWords(status: nat, reason: string)
    ensures RequestLine(StatusLine(status, reason)) == ("HTTP/1.1", Decimal(status), reason)
    ensures IsDecimal(Decimal(status)) && Undecimal(Decimal(status)) == status
    ensures Decimal(status)[0] == '0' <==> status == 0
    ensures |Decimal(status)| == 3 <==> 100 <= status <= 999
  {
    DecimalRoundTrip(status);
    DecimalStart(status);
    DecimalLength(status);
    assert "HTTP/1.1" + " " == "HTTP/1.1 ";
    ThreeWords("HTTP/1.1", Decimal(status), reason);
  }

  // ----- safe entries are read back -----

  lemma SafeReadsBack(first: string, own: seq<Field>, fs: seq<Field>, h: Headers, body: string)
    requires OneLine(first) && first != "" && own == Own(|body|)
    requires (forall f :: f in fs ==> Safe(f)) && PutAll(map[], own + fs) == Merged(h, |body|)
    ensures ReadsAs(Message([first] + FieldLines(own + fs), body), first, Merged(h, |body|), body)
  {
    OwnSafe(|body|);
    assert forall f :: f in own + fs ==> Safe(f);
    MessageComesApart(first, own + fs, body);
    FieldLinesRoundTrip(own + fs);
  }

  // The fields as printed make up the merged map.
  lemma PrintedMerged(fs: seq<Field>, h: Headers, length: nat)
    requires Enumerates(fs, h)
    ensures PutAll(map[], Own(length) + fs) == Merged(h, length)
  {
    EnumerationRebuilds(fs, h);
    FrontedIs(ContentLength(length), fs);
    FrontedIs(CONTENT_TYPE, [ContentLength(length)] + fs);
    assert [CONTENT_TYPE] + ([ContentLength(length)] + fs) == Own(length) + fs;
  }

  lemma FrontedIs(f: Field, fs: seq<Field>)
    ensures PutAll(map[], [f] + fs) == Fronted(PutAll(map[], fs), f)
  {
    forall key: string
      ensures Slot(PutAll(map[], [f] + fs), key) == Slot(Fronted(PutAll(map[], fs), f), key)
    {
      FrontedAt(f, fs, key);
    }
    SlotsEqual(PutAll(map[], [f] + fs), Fronted(PutAll(map[], fs), f));
  }

  lemma FrontedAt(f: Field, fs: seq<Field>, key: string)
    ensures Slot(PutAll(map[], [f] + fs), key) == Slot(Fronted(PutAll(map[], fs), f), key)
  {
    LastValueConcat([f], fs, key);
    FirstNameConcat([f], fs, key);
    PutAllMeaning([f] + fs, key);
    PutAllMeaning(fs, key);
    Singleton(f, key);
  }

  lemma Singleton(f: Field, key: string)
    ensures LastValue([f], key) == if Lower(f.name) == key then Some(f.value) else None
    ensures FirstName([f], key) == if Lower(f.name) == key then Some(f.name) else None
  {
    assert [f][..0] == [] && [f][1..] == [];
  }

  lemma SlotsEqual(a: Headers, b: Headers)
    requires forall key: string :: Slot(a, key) == Slot(b, key)
    ensures a == b
  {
    forall key: string ensures key in a <==> key in b
                       ensures key in a ==> a[key] == b[key] {
      assert Slot(a, key) == Slot(b, key);
    }
  }

  // ----- only safe entries are read back -----

  // A field read from text is cut from one line at its first colon.
  lemma FieldFromLine(line: string)
    requires FieldOf(line).Some? && OneLine(line)
    ensures OneLineField(FieldOf(line).value) && ':' !in FieldOf(line).value.name
  {
    IndexOfMeaning(line, ":", 0);
    var c := IndexOf(line, ":", 0).value;
    var f := FieldOf(line).value;
    forall i: nat | i < c ensures f.name[i] != ':' { AtChar(line, ':', i); }
    PartOneLine(line, 0, c);
    var n := match FirstNonBlank(line[c + 1..]) case None => 0 case Some(i) => i;
    assert f.value == line[c + 1 + n..|line|];
    assert line[0..c] == f.name;
    PartOneLine(line, c + 1 + n, |line|);
  }

  lemma PartOneLine(line: string, from: nat, to: nat)
    requires OneLine(line) && from <= to <= |line|
    ensures OneLine(line[from..to])
  {
    var part := line[from..to];
    forall i | 0 <= i < |part| - 1 ensures !(part[i] == '\r' && part[i + 1] == '\n') {
      assert part[i] == line[from + i] && part[i + 1] == line[from + i + 1];
    }
  }

  // Each field read comes from one of the lines.
  lemma {:induction false} FieldHasLine(lines: seq<string>, i: nat)
    requires i < |FieldsOf(lines)|
    ensures exists j :: 0 <= j < |lines| && FieldOf(lines[j]) == Some(FieldsOf(lines)[i])
  {
    var before, last := lines[..|lines| - 1], lines[|lines| - 1];
    assert forall j :: 0 <= j < |before| ==> before[j] == lines[j];
    if i < |FieldsOf(before)| {
      FieldHasLine(before, i);
      var j :| 0 <= j < |before| && FieldOf(before[j]) == Some(FieldsOf(before)[i]);
      assert FieldOf(lines[j]) == Some(FieldsOf(lines)[i]);
    } else {
      assert FieldOf(lines[|lines| - 1]) == Some(FieldsOf(lines)[i]);
    }
  }

  // Whatever text a header map is read from, no name in it holds a colon and nothing in it a CRLF.
  lemma ReadMapPlain(text: string, key: string)
    requires key in PutAll(map[], FieldsOf(Lines(text)))
    ensures var f := PutAll(map[], FieldsOf(Lines(text)))[key]; OneLineField(f) && ':' !in f.name
  {
    var fields := FieldsOf(Lines(text));
    PutAllMeaning(fields, key);
    ValueFound(fields, key);
    NameFound(fields, key);
    var i :| 0 <= i < |fields| && Lower(fields[i].name) == key && LastValue(fields, key) == Some(fields[i].value);
    var j :| 0 <= j < |fields| && Lower(fields[j].name) == key && FirstName(fields, key) == Some(fields[j].name);
    ReadFieldPlain(text, i);
    ReadFieldPlain(text, j);
  }

  lemma ReadFieldPlain(text: string, i: nat)
    requires i < |FieldsOf(Lines(text))|
    ensures OneLineField(FieldsOf(Lines(text))[i]) && ':' !in FieldsOf(Lines(text))[i].name
  {
    FieldHasLine(Lines(text), i);
    var j :| 0 <= j < |Lines(text)| && FieldOf(Lines(text)[j]) == Some(FieldsOf(Lines(text))[i]);
    LinesLackCrlf(text);
    OneLineIff(Lines(text)[j]);
    FieldFromLine(Lines(text)[j]);
  }

  // A name with the printer's own lower-case form has no CR and no colon.
  lemma OwnNamePlain(name: string)
    requires Lower(name) == "content-type" || Lower(name) == "content-length"
    ensures '\r' !in name && ':' !in name
  {
    PlainText("content-type");
    PlainText("content-length");
    forall i | 0 <= i < |name| ensures name[i] != '\r' && name[i] != ':' {
      assert Lower(name)[i] == ToLower(name[i]);
      assert Lower(name)[i] in Lower(name);
    }
  }

  lemma PlainText(s: string)
    requires s == "content-type" || s == "content-length"
    ensures '\r' !in s && ':' !in s
  {
  }

  // Lines that all hold a field are read one for one.
  lemma {:induction false} FieldPerLine(lines: seq<string>, i: nat)
    requires i < |lines| && forall j :: 0 <= j < |lines| ==> FieldOf(lines[j]).Some?
    ensures |FieldsOf(lines)| == |lines| && Some(FieldsOf(lines)[i]) == FieldOf(lines[i])
  {
    var before, last := lines[..|lines| - 1], lines[|lines| - 1];
    assert lines == before + [last];
    if before != [] {
      assert forall j :: 0 <= j < |before| ==> before[j] == lines[j];
      FieldPerLine(before, if i < |before| then i else 0);
    }
    OneLineMore(before, last, i);
  }

  lemma OneLineMore(before: seq<string>, last: string, i: nat)
    requires |FieldsOf(before)| == |before| && FieldOf(last).Some? && i <= |before|
    requires i < |before| ==> Some(FieldsOf(before)[i]) == FieldOf(before[i])
    ensures var lines := before + [last];
            |FieldsOf(lines)| == |lines| && Some(FieldsOf(lines)[i]) == FieldOf(lines[i])
  {
    FieldsOfSnoc(before, last);
  }

  lemma PrintedAt(fs: seq<Field>, i: nat)
    requires i < |fs|
    ensures |FieldsOf(FieldLines(fs))| == |fs| && Some(FieldsOf(FieldLines(fs))[i]) == FieldOf(FieldLine(fs[i]))
  {
    forall j | 0 <= j < |fs| ensures FieldOf(FieldLines(fs)[j]).Some? {
      FieldLinesAt(fs, j);
      FieldLineParses(fs[j]);
    }
    FieldPerLine(FieldLines(fs), i);
    FieldLinesAt(fs, i);
  }

  // The entry of h for one of its fields, as merged.
  lemma MergedEntry(fs: seq<Field>, h: Headers, length: nat, f: Field)
    requires Enumerates(fs, h) && f in fs
    ensures Lower(f.name) in Merged(h, length) && Merged(h, length)[Lower(f.name)].value == f.value
    ensures Lower(f.name) != "content-type" && Lower(f.name) != "content-length" ==>
              Merged(h, length)[Lower(f.name)] == f
  {
    OwnNames();
    var i :| 0 <= i < |fs| && fs[i] == f;
    assert h[Lower(fs[i].name)] == fs[i];
  }

  lemma ReadBackIsSafe(first: string, fs: seq<Field>, h: Headers, body: string)
    requires OneLine(first) && first != "" && Enumerates(fs, h)
    requires ReadsAs(Message([first] + FieldLines(Own(|body|) + fs), body), first, Merged(h, |body|), body)
    ensures forall f :: f in fs ==> Safe(f)
  {
    var s := Message([first] + FieldLines(Own(|body|) + fs), body);
    forall f | f in fs ensures OneLineField(f) && ':' !in f.name {
      MergedEntry(fs, h, |body|, f);
      ReadMapPlain(HeaderBlock(s), Lower(f.name));
      if Lower(f.name) == "content-type" || Lower(f.name) == "content-length" {
        OwnNamePlain(f.name);
        NoCarriageReturn(f.name);
      }
    }
    OwnSafe(|body|);
    assert forall f :: f in Own(|body|) + fs ==> OneLineField(f);
    MessageComesApart(first, Own(|body|) + fs, body);
    forall f | f in fs ensures Safe(f) {
      MergedEntry(fs, h, |body|, f);
      ValueReadIsPrintable(Own(|body|), fs, f);
    }
  }

  // A value that comes back under its name was printable: only its own line could give it.
  lemma ValueReadIsPrintable(own: seq<Field>, fs: seq<Field>, f: Field)
    requires f in fs && ':' !in f.name && forall g :: g in own ==> Printable(g)
    requires forall i, j :: 0 <= i < j < |fs| ==> Lower(fs[i].name) != Lower(fs[j].name)
    requires var seen := PutAll(map[], FieldsOf(FieldLines(own + fs)));
             Lower(f.name) in seen && seen[Lower(f.name)].value == f.value
    ensures Printable(f)
  {
    var all, key := own + fs, Lower(f.name);
    var fields := FieldsOf(FieldLines(all));
    PutAllMeaning(fields, key);
    ValueFound(fields, key);
    var i :| 0 <= i < |fields| && Lower(fields[i].name) == key && LastValue(fields, key) == Some(fields[i].value);
    PrintedAt(all, if i < |all| then i else 0);
    if Lower(all[i].name) == key && i >= |own| {
      var j :| 0 <= j < |fs| && fs[j] == f;
      assert all[i] == fs[i - |own|];
      assert all[i] == f;
    }
    if i < |own| {
      assert all[i] in own;
    }
    OwnLineGives(all[i], f, fields[i]);
  }

  // Field f has the value that was read off the line of g.
  lemma OwnLineGives(g: Field, f: Field, r: Field)
    requires FieldOf(FieldLine(g)) == Some(r) && Lower(r.name) == Lower(f.name) && r.value == f.value
    requires ':' !in f.name && (Printable(g) || (Lower(g.name) == Lower(f.name) ==> g == f))
    ensures Printable(f)
  {
    FieldLineParses(g);
    BlankBeforeValue(g.value);
  }

  // ----- one header with an embedded CRLF -----

  /** A value with an embedded CRLF and a further field line is, byte for byte, two header entries. */
  lemma EmbeddedCrlfIsTwoHeaders(status: nat, reason: string, fs: seq<Field>, name: string, value: string, g: Field,
                                 body: string)
    ensures Wire(status, reason, fs + [Field(name, value + CRLF + FieldLine(g))], body) ==
            Wire(status, reason, fs + [Field(name, value), g], body)
  {
    var f, e := Field(name, value), Field(name, value + CRLF + FieldLine(g));
    var lines := [StatusLine(status, reason)] + FieldLines(Own(|body|) + fs);
    LinesWithOne(status, reason, fs, e, body);
    LinesWithOne(status, reason, fs, f, body);
    LinesWithOne(status, reason, fs + [f], g, body);
    assert fs + [f] + [g] == fs + [f, g];
    UnlinesSnoc(lines, FieldLine(e));
    UnlinesSnoc(lines, FieldLine(f));
    UnlinesSnoc(lines + [FieldLine(f)], FieldLine(g));
    assert FieldLine(e) + CRLF == FieldLine(f) + CRLF + (FieldLine(g) + CRLF);
    Assoc(Unlines(lines), FieldLine(f) + CRLF, FieldLine(g) + CRLF);
  }

  lemma LinesWithOne(status: nat, reason: string, fs: seq<Field>, f: Field, body: string)
    ensures [StatusLine(status, reason)] + FieldLines(Own(|body|) + (fs + [f])) ==
            [StatusLine(status, reason)] + FieldLines(Own(|body|) + fs) + [FieldLine(f)]
  {
    assert Own(|body|) + (fs + [f]) == Own(|body|) + fs + [f];
    FieldLinesSnoc(Own(|body|) + fs, f);
  }

  /** At such a header the receiver sees an entry that the handler never set. */
  lemma EmbeddedCrlfExample(status: nat, reason: string, body: string)
    requires OneLine(reason)
    ensures var f := Field("X-Note", "a" + CRLF + "X-Other: b");
            !Safe(f) && "x-other" !in Merged(map["x-note" := f], |body|) &&
            ReadsAs(Wire(status, reason, [f], body), StatusLine(status, reason),
                    Merged(map["x-note" := Field("X-Note", "a"), "x-other" := Field("X-Other", "b")], |body|), body)
  {
    var f, g := Field("X-Note", "a"), Field("X-Other", "b");
    assert FieldLine(g) == "X-Other: b";
    EmbeddedCrlfIsTwoHeaders(status, reason, [], "X-Note", "a", g, body);
    assert [] + [Field("X-Note", "a" + CRLF + FieldLine(g))] == [Field("X-Note", "a" + CRLF + FieldLine(g))];
    assert [] + [f, g] == [f, g];
    TwoNotes(f, g);
    ResponseFraming(status, reason, map["x-note" := f, "x-other" := g], [f, g], body);
    HasCrlf("a" + CRLF + "X-Other: b");
    OwnNames();
  }

  lemma HasCrlf(s: string)
    requires |s| >= 3 && s[1] == '\r' && s[2] == '\n'
    ensures !OneLine(s)
  {
  }

  lemma TwoNotes(f: Field, g: Field)
    requires f == Field("X-Note", "a") && g == Field("X-Other", "b")
    ensures Safe(f) && Safe(g) && Enumerates([f, g], map["x-note" := f, "x-other" := g])
    ensures "x-other" != "content-type" && "x-other" != "content-length" && "x-other" != "x-note"
  {
    assert Lower("X-Note") == "x-note" && Lower("X-Other") == "x-other";
    assert |"x-note"| != |"x-other"|;
    NoCarriageReturn("X-Note");
    NoCarriageReturn("X-Other");
    assert Lower([f, g][0].name) == "x-note" && Lower([f, g][1].name) == "x-other";
    assert "x-other"[0] != "content-type"[0] && "x-other"[0] != "content-length"[0];
  }

  // ----- an unsafe entry that hides behind the printer's own -----

  /** An entry can be unsafe, and not keep the printer's value, and still go unnoticed: the field read from
      it restores that value and the rest of it is a line without a colon. */
  lemma HiddenSplit(status: nat, reason: string, body: string)
    requires OneLine(reason)
    ensures var f := Field("Content-Type", "application/json" + CRLF + "x");
            var h := map["content-type" := f];
            Enumerates([f], h) && !Safe(f) && !KeepsOwn(h, |body|) &&
            ReadsAs(Wire(status, reason, [f], body), StatusLine(status, reason), Framed(h, |body|), body)
  {
    var f := Field("Content-Type", "application/json" + CRLF + "x");
    HiddenBytes(status, reason, f, body);
    HiddenMap(f, |body|);
    HiddenFields(|body|);
    StatusOneLine(status, reason);
    LacksChar("x", ':');
    ReadsWithout(StatusLine(status, reason), Own(|body|) + [CONTENT_TYPE], "x", body);
  }

  lemma HiddenMap(f: Field, length: nat)
    requires f == Field("Content-Type", "application/json" + CRLF + "x")
    ensures var h := map["content-type" := f];
            Enumerates([f], h) && !Safe(f) && !KeepsOwn(h, length) &&
            PutAll(map[], Own(length) + [CONTENT_TYPE]) == Framed(h, length)
  {
    var plain := map["content-type" := CONTENT_TYPE];
    OwnNames();
    OneEntry(f, "content-type");
    OneEntry(CONTENT_TYPE, "content-type");
    MergedIsFramedIff(plain, length);
    PrintedMerged([CONTENT_TYPE], plain, length);
    assert Framed(plain, length) == Framed(map["content-type" := f], length);
    assert f.value[16] == '\r' && f.value[17] == '\n';
  }

  lemma OneEntry(f: Field, key: string)
    requires Lower(f.name) == key
    ensures Enumerates([f], map[key := f])
  {
    assert Lower([f][0].name) == key;
  }

  lemma HiddenFields(length: nat)
    ensures forall g :: g in Own(length) + [CONTENT_TYPE] ==> Safe(g)
  {
    OwnSafe(length);
    assert CONTENT_TYPE in Own(length);
  }

  lemma HiddenBytes(status: nat, reason: string, f: Field, body: string)
    requires f == Field("Content-Type", "application/json" + CRLF + "x")
    ensures Wire(status, reason, [f], body) ==
            Message([StatusLine(status, reason)] + FieldLines(Own(|body|) + [CONTENT_TYPE]) + ["x"], body)
  {
    var lines := [StatusLine(status, reason)] + FieldLines(Own(|body|) + []);
    LinesWithOne(status, reason, [], f, body);
    LinesWithOne(status, reason, [], CONTENT_TYPE, body);
    assert [] + [f] == [f] && [] + [CONTENT_TYPE] == [CONTENT_TYPE];
    UnlinesSnoc(lines, FieldLine(f));
    UnlinesSnoc(lines, FieldLine(CONTENT_TYPE));
    UnlinesSnoc(lines + [FieldLine(CONTENT_TYPE)], "x");
    assert FieldLine(f) + CRLF == FieldLine(CONTENT_TYPE) + CRLF + ("x" + CRLF);
    Assoc(Unlines(lines), FieldLine(CONTENT_TYPE) + CRLF, "x" + CRLF);
  }

  // A last line without a colon leaves no trace.
  lemma ReadsWithout(first: string, fs: seq<Field>, line: string, body: string)
    requires OneLine(first) && first != "" && forall f :: f in fs ==> Safe(f)
    requires OneLine(line) && line != "" && FieldOf(line).None?
    ensures ReadsAs(Message([first] + FieldLines(fs) + [line], body), first, PutAll(map[], fs), body)
  {
    var more := FieldLines(fs) + [line];
    assert [first] + FieldLines(fs) + [line] == [first] + more;
    FieldLinesOneLine(fs);
    WellFormedSnoc(FieldLines(fs), line);
    WithoutField(fs, line);
    ReadsLines(first, more, body);
  }

  lemma WithoutField(fs: seq<Field>, line: string)
    requires (forall f :: f in fs ==> Safe(f)) && FieldOf(line).None?
    ensures FieldsOf(FieldLines(fs) + [line]) == fs
  {
    FieldsOfSnoc(FieldLines(fs), line);
    FieldLinesRoundTrip(fs);
  }

  lemma WellFormedSnoc(lines: seq<string>, line: string)
    requires WellFormed(lines) && OneLine(line) && line != ""
    ensures WellFormed(lines + [line])
  {
  }

  lemma ReadsLines(first: string, more: seq<string>, body: string)
    requires OneLine(first) && first != "" && WellFormed(more)
    ensures ReadsAs(Message([first] + more, body), first, PutAll(map[], FieldsOf(more)), body)
  {
    var lines := [first] + more;
    assert lines[0] == first && lines[1..] == more && WellFormed(lines);
    MessageLine(lines, body);
    MessageBody(lines, body);
    MessageBlock(lines, body);
    LinesOfWellFormed(more);
  }

  // ----- the printer's own lines -----

  lemma OwnSafe(length: nat)
    ensures forall f :: f in Own(length) ==> Safe(f)
  {
    DecimalPlain(length);
    OwnNames();
    NoCarriageReturn("Content-Type");
    NoCarriageReturn("Content-Length");
    NoCarriageReturn("application/json");
  }

  lemma OwnNames()
    ensures ':' !in "Content-Type" && ':' !in "Content-Length"
    ensures Lower("Content-Type") == "content-type" && Lower("Content-Length") == "content-length"
    ensures "content-type" != "content-length"
  {
    assert |"content-type"| != |"content-length"|;
  }

  lemma DecimalPlain(n: nat)
    ensures OneLine(Decimal(n)) && Decimal(n) != "" && Decimal(n)[0] != ' ' && Decimal(n)[0] != '\t'
  {
    DecimalRoundTrip(n);
    assert Decimal(n)[0] in Decimal(n);
    NoCarriageReturn(Decimal(n));
  }

  lemma StatusOneLine(status: nat, reason: string)
    requires OneLine(reason)
    ensures OneLine(StatusLine(status, reason)) && StatusLine(status, reason) != ""
  {
    DecimalPlain(status);
    NoCarriageReturn("HTTP/1.1");
    OneLineJoin("HTTP/1.1", ' ', Decimal(status));
    OneLineJoin("HTTP/1.1" + ([' '] + Decimal(status)), ' ', reason);
    assert StatusLine(status, reason) == "HTTP/1.1" + ([' '] + Decimal(status)) + ([' '] + reason);
  }
}
