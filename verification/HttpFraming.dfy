/** Messages as lines, a blank line and a body, and header fields as lines of them. */
module HttpFraming {
  import opened Wrappers
  import opened Text
  import opened HttpMethod
  import opened HttpMessage
  import opened HttpCodecSpec

  // ----- fields -----

  predicate OneLineField(f: Field) {
    OneLine(f.name) && OneLine(f.value)
  }

  // A field that survives being printed and parsed.
  predicate Printable(f: Field) {
    ':' !in f.name && f.value != "" && f.value[0] != ' ' && f.value[0] != '\t'
  }

  predicate Safe(f: Field) {
    OneLineField(f) && Printable(f)
  }

  function FieldLine(f: Field): string {
    f.name + ": " + f.value
  }

  function FieldLines(fs: seq<Field>): (lines: seq<string>)
    ensures |lines| == |fs|
  {
    if fs == [] then [] else FieldLines(fs[..|fs| - 1]) + [FieldLine(fs[|fs| - 1])]
  }

  lemma FieldLinesSnoc(fs: seq<Field>, f: Field)
    ensures FieldLines(fs + [f]) == FieldLines(fs) + [FieldLine(f)]
  {
    assert (fs + [f])[..|fs|] == fs;
  }

  lemma {:induction false} FieldLinesAt(fs: seq<Field>, i: nat)
    requires i < |fs|
    ensures FieldLines(fs)[i] == FieldLine(fs[i])
  {
    if i < |fs| - 1 {
      FieldLinesAt(fs[..|fs| - 1], i);
    }
  }

  // What the parser makes of a printed field: it cuts at the first colon, wherever that is.
  lemma FieldLineParses(f: Field)
    ensures FieldOf(FieldLine(f)).Some?
    ensures var g := FieldOf(FieldLine(f)).value;
            if ':' in f.name then |g.name| < |f.name| && ':' !in g.name && CutsInside(f, g)
            else g == Field(f.name, SkipBlanks(" " + f.value))
  {
    LacksChar(f.name, ':');
    assert FieldLine(f) == f.name + (": " + f.value);
    if ':' in f.name {
      ColonInName(f);
    } else {
      ColonAfterName(f.name, f.value);
    }
  }

  // The value of g still holds the colon that was meant to end the name of f.
  ghost predicate CutsInside(f: Field, g: Field) {
    ':' in g.value && g.value != "" && g.value[0] != ' ' && g.value[0] != '\t'
  }

  lemma ColonInName(f: Field)
    requires Contains(f.name, ":")
    ensures var line := f.name + (": " + f.value);
            FieldOf(line).Some? && |FieldOf(line).value.name| < |f.name| && ':' !in FieldOf(line).value.name &&
            CutsInside(f, FieldOf(line).value)
  {
    var line := f.name + (": " + f.value);
    IndexOfAppend(f.name, ": " + f.value, ":");
    IndexOfMeaning(f.name, ":", 0);
    IndexOfMeaning(line, ":", 0);
    var c := IndexOf(line, ":", 0).value;
    forall i: nat | i < c ensures line[i] != ':' { AtChar(line, ':', i); }
    var rest := line[c + 1..];
    assert rest[|f.name| - c - 1] == line[|f.name|] == ':';
    SkipKeepsColon(rest, |f.name| - c - 1);
  }

  lemma SkipKeepsColon(v: string, i: nat)
    requires i < |v| && v[i] == ':'
    ensures ':' in SkipBlanks(v) && SkipBlanks(v)[0] != ' ' && SkipBlanks(v)[0] != '\t'
  {
    var n := FirstNonBlank(v).value;
    assert v[n..][i - n] == ':';
  }

  lemma ColonAfterName(name: string, value: string)
    requires ':' !in name
    ensures FieldOf(name + (": " + value)) == Some(Field(name, SkipBlanks(" " + value)))
  {
    var line := name + (": " + value);
    forall j: nat | j < |name| ensures !At(line, ":", j) {
      AtChar(line, ':', j);
      assert line[j] == name[j];
    }
    AtChar(line, ':', |name|);
    IndexOfIs(line, ":", 0, |name|);
    assert line[..|name|] == name && line[|name| + 1..] == " " + value;
  }

  // The blank printed after the colon goes again exactly when the value can stand without help.
  // A value read back is blank at the front only if it is blank all over, and then one byte longer.
  lemma BlankBeforeValue(value: string)
    ensures SkipBlanks(" " + value) == value <==> value != "" && value[0] != ' ' && value[0] != '\t'
    ensures var v := SkipBlanks(" " + value);
            v != "" && (v[0] == ' ' || v[0] == '\t' ==> |v| == |value| + 1)
  {
    var v := " " + value;
    assert v[1..] == value;
    match FirstNonBlank(v) {
      case None => assert forall i :: 0 <= i < |value| ==> value[i] == v[i + 1];
      case Some(i) => assert value[i - 1] == v[i];
    }
  }

  /** A printed field reads back exactly when it is printable. */
  lemma FieldLineRoundTrip(f: Field)
    ensures FieldOf(FieldLine(f)) == Some(f) <==> Printable(f)
  {
    FieldLineParses(f);
    BlankBeforeValue(f.value);
  }

  lemma {:induction false} FieldLinesRoundTrip(fs: seq<Field>)
    requires forall f :: f in fs ==> Printable(f)
    ensures FieldsOf(FieldLines(fs)) == fs
  {
    if fs != [] {
      var before, f := fs[..|fs| - 1], fs[|fs| - 1];
      FieldLinesRoundTrip(before);
      FieldLineRoundTrip(f);
      FieldsOfSnoc(FieldLines(before), FieldLine(f));
      assert fs == before + [f];
    }
  }

  lemma FieldLineOneLine(f: Field)
    ensures OneLine(FieldLine(f)) <==> OneLineField(f)
    ensures FieldLine(f) != ""
  {
    var value := "" + ([' '] + f.value);
    OneLineJoin("", ' ', f.value);
    OneLineJoin(f.name, ':', value);
    assert FieldLine(f) == f.name + ([':'] + value);
  }

  lemma FieldLinesOneLine(fs: seq<Field>)
    requires forall f :: f in fs ==> OneLineField(f)
    ensures forall line :: line in FieldLines(fs) ==> OneLine(line) && line != ""
  {
    forall i | 0 <= i < |fs| ensures OneLine(FieldLines(fs)[i]) && FieldLines(fs)[i] != "" {
      FieldLinesAt(fs, i);
      FieldLineOneLine(fs[i]);
      assert fs[i] in fs;
    }
  }

  lemma NoCarriageReturn(s: string)
    requires '\r' !in s
    ensures OneLine(s)
  {
  }

  // ----- messages -----

  // A message is its lines, a blank line and a body.
  function Message(lines: seq<string>, body: string): string {
    Unlines(lines) + (CRLF + body)
  }

  ghost predicate WellFormed(lines: seq<string>) {
    forall line :: line in lines ==> OneLine(line) && line != ""
  }

  predicate CrlfAt(s: string, i: nat) {
    i + 2 <= |s| && s[i] == '\r' && s[i + 1] == '\n'
  }

  lemma BlankLineBytes(s: string, i: nat)
    ensures At(s, BLANK_LINE, i) <==> CrlfAt(s, i) && CrlfAt(s, i + 2)
  {
    AtCrlf(s, i);
    AtCrlf(s, i + 2);
    if At(s, BLANK_LINE, i) {
      AtBlankLine(s, i);
    }
    if At(s, CRLF, i) && At(s, CRLF, i + 2) {
      assert s[i..i + 4] == s[i..i + 2] + s[i + 2..i + 4];
    }
  }

  // s is a line, its end, and a tail.
  ghost predicate Splits(s: string, line: string, tail: string) {
    && |s| == |line| + 2 + |tail|
    && s[..|line|] == line
    && CrlfAt(s, |line|)
    && s[|line| + 2..] == tail
  }

  lemma SplitsOf(line: string, tail: string)
    ensures Splits(line + (CRLF + tail), line, tail)
  {
  }

  lemma NoCrlfInLine(s: string, line: string, tail: string)
    requires Splits(s, line, tail) && OneLine(line)
    ensures forall j: nat :: j < |line| ==> !CrlfAt(s, j)
  {
    forall j: nat | j < |line| ensures !CrlfAt(s, j) {
      assert s[j] == line[j];
      if j + 1 < |line| {
        assert s[j + 1] == line[j + 1];
      }
    }
  }

  lemma FirstCrlf(s: string, line: string, tail: string)
    requires Splits(s, line, tail) && OneLine(line)
    ensures IndexOf(s, CRLF, 0) == Some(|line|)
  {
    NoCrlfInLine(s, line, tail);
    forall j: nat | j <= |line| { AtCrlf(s, j); }
    IndexOfIs(s, CRLF, 0, |line|);
  }

  lemma BlankRightAfter(s: string, line: string, tail: string)
    requires Splits(s, line, tail) && OneLine(line) && CrlfAt(tail, 0)
    ensures IndexOf(s, BLANK_LINE, 0) == Some(|line|)
  {
    NoCrlfInLine(s, line, tail);
    forall j: nat | j < |line| ensures !At(s, BLANK_LINE, j) {
      BlankLineBytes(s, j);
    }
    assert s[|line| + 2] == tail[0] && s[|line| + 3] == tail[1];
    BlankLineBytes(s, |line|);
    IndexOfIs(s, BLANK_LINE, 0, |line|);
  }

  lemma BlankFurtherOn(s: string, line: string, tail: string, k: nat)
    requires Splits(s, line, tail) && OneLine(line) && !CrlfAt(tail, 0) && IndexOf(tail, BLANK_LINE, 0) == Some(k)
    ensures IndexOf(s, BLANK_LINE, 0) == Some(|line| + 2 + k)
  {
    IndexOfSuffix(s, BLANK_LINE, |line| + 2);
    NoBlankBefore(s, line, tail);
    IndexOfSkips(s, BLANK_LINE, |line| + 2);
  }

  lemma NoBlankBefore(s: string, line: string, tail: string)
    requires Splits(s, line, tail) && OneLine(line) && !CrlfAt(tail, 0)
    ensures forall j: nat :: j < |line| + 2 ==> !At(s, BLANK_LINE, j)
  {
    NoCrlfInLine(s, line, tail);
    assert |tail| >= 2 ==> s[|line| + 2] == tail[0] && s[|line| + 3] == tail[1];
    forall j: nat | j < |line| + 2 ensures !At(s, BLANK_LINE, j) {
      BlankLineBytes(s, j);
    }
  }

  // A message that starts with a non-empty line does not start with a line end.
  lemma NoLeadingCrlf(s: string, line: string, tail: string)
    requires Splits(s, line, tail) && OneLine(line) && line != ""
    ensures !CrlfAt(s, 0)
  {
    NoCrlfInLine(s, line, tail);
  }

  lemma BlankAfterFirst(s: string, line: string, tail: string, next: string, rest: string, k: nat)
    requires Splits(s, line, tail) && OneLine(line) && Splits(tail, next, rest) && OneLine(next) && next != ""
    requires IndexOf(tail, BLANK_LINE, 0) == Some(k)
    ensures IndexOf(s, BLANK_LINE, 0) == Some(|line| + 2 + k)
  {
    NoLeadingCrlf(tail, next, rest);
    BlankFurtherOn(s, line, tail, k);
  }

  lemma MessageSplits(lines: seq<string>, body: string)
    requires lines != []
    ensures Splits(Message(lines, body), lines[0], Message(lines[1..], body))
    ensures |Unlines(lines)| == |lines[0]| + 2 + |Unlines(lines[1..])|
  {
    var a, c, d := lines[0], Unlines(lines[1..]), CRLF + body;
    Assoc(a, CRLF, c);
    Assoc(a, CRLF + c, d);
    Assoc(CRLF, c, d);
    SplitsOf(a, c + d);
  }

  lemma EmptyMessage(body: string)
    ensures Message([], body) == CRLF + body && CrlfAt(Message([], body), 0)
  {
  }

  /** The blank line that ends the head is the first one: non-empty lines without a CRLF hold no other. */
  lemma {:induction false} BlankLineEndsHead(lines: seq<string>, body: string)
    requires lines != [] && WellFormed(lines)
    ensures |Unlines(lines)| >= 2 && IndexOf(Message(lines, body), BLANK_LINE, 0) == Some(|Unlines(lines)| - 2)
  {
    var line, more := lines[0], lines[1..];
    var s, tail := Message(lines, body), Message(more, body);
    assert line in lines;
    MessageSplits(lines, body);
    if more == [] {
      EmptyMessage(body);
      BlankRightAfter(s, line, tail);
    } else {
      MoreWellFormed(lines);
      BlankLineEndsHead(more, body);
      MessageSplits(more, body);
      BlankAfterFirst(s, line, tail, more[0], Message(more[1..], body), |Unlines(more)| - 2);
    }
  }

  lemma MoreWellFormed(lines: seq<string>)
    requires lines != [] && WellFormed(lines)
    ensures WellFormed(lines[1..]) && (|lines| > 1 ==> OneLine(lines[1..][0]) && lines[1..][0] != "")
  {
    forall line | line in lines[1..] ensures OneLine(line) && line != "" {
      assert line in lines;
    }
    if |lines| > 1 {
      assert lines[1..][0] in lines[1..];
    }
  }

  lemma LinesOfWellFormed(lines: seq<string>)
    requires WellFormed(lines)
    ensures Lines(Unlines(lines)) == lines
  {
    forall line | line in lines ensures !Contains(line, CRLF) {
      OneLineIff(line);
    }
    LinesUnlines(lines, "");
    assert Unlines(lines) + "" == Unlines(lines) && lines + Lines("") == lines;
  }

  lemma MessageLine(lines: seq<string>, body: string)
    requires lines != [] && WellFormed(lines)
    ensures var s := Message(lines, body);
            Contains(s, CRLF) && LineLength(s) == |lines[0]| && s[..|lines[0]|] == lines[0]
  {
    assert lines[0] in lines;
    MessageSplits(lines, body);
    FirstCrlf(Message(lines, body), lines[0], Message(lines[1..], body));
  }

  lemma MessageBody(lines: seq<string>, body: string)
    requires lines != [] && WellFormed(lines)
    ensures var s := Message(lines, body);
            Contains(s, BLANK_LINE) && HeadEnd(s) == |Unlines(lines)| - 2 && s[HeadEnd(s) + 4..] == body
  {
    BlankLineEndsHead(lines, body);
    assert (Unlines(lines) + (CRLF + body))[|Unlines(lines)| + 2..] == body;
  }

  lemma MessageBlock(lines: seq<string>, body: string)
    requires lines != [] && WellFormed(lines)
    ensures var s := Message(lines, body);
            Contains(s, CRLF) && Contains(s, BLANK_LINE) && HeaderBlock(s) == Unlines(lines[1..])
  {
    MessageLine(lines, body);
    MessageBody(lines, body);
    MessageSplits(lines, body);
    var s, tail := Message(lines, body), Message(lines[1..], body);
    var n, m := |lines[0]| + 2, |Unlines(lines[1..])|;
    assert tail[..m] == Unlines(lines[1..]);
    assert s[n..][..m] == s[n..n + m];
  }

  /** A printed message comes apart into its first line, its fields and its body. */
  lemma MessageComesApart(first: string, fs: seq<Field>, body: string)
    requires OneLine(first) && first != "" && forall f :: f in fs ==> OneLineField(f)
    ensures var s := Message([first] + FieldLines(fs), body);
            Contains(s, CRLF) && Contains(s, BLANK_LINE) &&
            LineLength(s) == |first| && s[..|first|] == first && s[HeadEnd(s) + 4..] == body &&
            Lines(HeaderBlock(s)) == FieldLines(fs)
  {
    var lines := [first] + FieldLines(fs);
    assert WellFormed(lines) by {
      FieldLinesOneLine(fs);
    }
    assert lines[0] == first && lines[1..] == FieldLines(fs);
    MessageLine(lines, body);
    MessageBody(lines, body);
    MessageBlock(lines, body);
    MoreWellFormed(lines);
    LinesOfWellFormed(FieldLines(fs));
  }

  // ----- iteration over the header map -----

  // fs lists every entry of h once, in some order.
  ghost predicate Enumerates(fs: seq<Field>, h: Headers) {
    && (forall i, j :: 0 <= i < j < |fs| ==> Lower(fs[i].name) != Lower(fs[j].name))
    && (forall i :: 0 <= i < |fs| ==> Lower(fs[i].name) in h && h[Lower(fs[i].name)] == fs[i])
    && (forall key :: key in h ==> Names(fs, key))
  }

  ghost predicate Names(fs: seq<Field>, key: string) {
    exists i :: 0 <= i < |fs| && Lower(fs[i].name) == key
  }

  // Where the last value and the first spelling of a name come from.
  lemma {:induction false} ValueFound(fs: seq<Field>, key: string)
    ensures LastValue(fs, key).Some? <==> Names(fs, key)
    ensures LastValue(fs, key).Some? ==>
              exists i :: 0 <= i < |fs| && Lower(fs[i].name) == key && LastValue(fs, key) == Some(fs[i].value)
  {
    if fs != [] {
      var before := fs[..|fs| - 1];
      ValueFound(before, key);
      assert forall i :: 0 <= i < |before| ==> before[i] == fs[i];
      if Names(fs, key) && Lower(fs[|fs| - 1].name) != key {
        var i :| 0 <= i < |fs| && Lower(fs[i].name) == key;
        assert before[i] == fs[i];
      }
    }
  }

  lemma {:induction false} NameFound(fs: seq<Field>, key: string)
    ensures FirstName(fs, key).Some? <==> Names(fs, key)
    ensures FirstName(fs, key).Some? ==>
              exists i :: 0 <= i < |fs| && Lower(fs[i].name) == key && FirstName(fs, key) == Some(fs[i].name)
  {
    if fs != [] {
      var after := fs[1..];
      NameFound(after, key);
      assert forall i :: 0 <= i < |after| ==> after[i] == fs[i + 1];
      if Names(fs, key) && Lower(fs[0].name) != key {
        var i :| 0 <= i < |fs| && Lower(fs[i].name) == key;
        assert after[i - 1] == fs[i];
      }
    }
  }

  lemma EnumerationRebuilds(fs: seq<Field>, h: Headers)
    requires Enumerates(fs, h)
    ensures PutAll(map[], fs) == h
  {
    forall key: string
      ensures key in PutAll(map[], fs) <==> key in h
      ensures key in h ==> PutAll(map[], fs)[key] == h[key]
    {
      PutAllMeaning(fs, key);
      ValueFound(fs, key);
      NameFound(fs, key);
    }
  }

  lemma FieldsBack(fs: seq<Field>, h: Headers)
    requires Enumerates(fs, h) && forall f :: f in fs ==> Printable(f)
    ensures FieldsOf(FieldLines(fs)) == fs && PutAll(map[], fs) == h
  {
    FieldLinesRoundTrip(fs);
    EnumerationRebuilds(fs, h);
  }
}
