/** Byte strings as std::string and std::string_view see them, and their division into CRLF-terminated lines.

    A byte is a char; nothing below depends on a char being less than 256, so every statement
    about all strings covers all byte strings. */
module Text {
  import opened Wrappers

  const CRLF: string := "\r\n"
  const BLANK_LINE: string := "\r\n\r\n"

  predicate At(s: string, pat: string, i: nat) {
    i + |pat| <= |s| && s[i..i + |pat|] == pat
  }

  // The first occurrence of pat at or after `from`.
  function IndexOf(s: string, pat: string, from: nat): Option<nat>
    decreases |s| - from
  {
    if from + |pat| > |s| then None
    else if At(s, pat, from) then Some(from)
    else IndexOf(s, pat, from + 1)
  }

  /** It is an occurrence, none comes before it, and none at all means there is none. */
  lemma {:induction false} IndexOfMeaning(s: string, pat: string, from: nat)
    ensures var r := IndexOf(s, pat, from);
            match r
            case Some(i) => from <= i && At(s, pat, i) && forall j :: from <= j < i ==> !At(s, pat, j)
            case None => forall j :: from <= j ==> !At(s, pat, j)
    decreases |s| - from
  {
    if from + |pat| <= |s| && !At(s, pat, from) {
      IndexOfMeaning(s, pat, from + 1);
    }
  }

  lemma {:induction false} IndexOfBounds(s: string, pat: string, from: nat)
    ensures var r := IndexOf(s, pat, from);
            r.Some? ==> from <= r.value && r.value + |pat| <= |s|
    decreases |s| - from
  {
    if from + |pat| <= |s| && !At(s, pat, from) {
      IndexOfBounds(s, pat, from + 1);
    }
  }

  predicate Contains(s: string, pat: string) {
    IndexOf(s, pat, 0).Some?
  }

  lemma IndexOfIs(s: string, pat: string, from: nat, i: nat)
    requires from <= i && At(s, pat, i)
    requires forall j :: from <= j < i ==> !At(s, pat, j)
    ensures IndexOf(s, pat, from) == Some(i)
  {
    IndexOfMeaning(s, pat, from);
  }

  lemma IndexOfNone(s: string, pat: string, from: nat)
    requires forall j :: from <= j ==> !At(s, pat, j)
    ensures IndexOf(s, pat, from).None?
  {
    IndexOfMeaning(s, pat, from);
  }

  // Searching from an offset is searching the rest of the string.
  lemma {:induction false} IndexOfSuffix(s: string, pat: string, from: nat)
    requires from <= |s|
    ensures IndexOf(s, pat, from) ==
            match IndexOf(s[from..], pat, 0) case None => None case Some(i) => Some(from + i)
  {
    SearchShifted(s, pat, from, 0);
  }

  lemma {:induction false} SearchShifted(s: string, pat: string, from: nat, k: nat)
    requires from <= |s|
    ensures IndexOf(s, pat, from + k) ==
            match IndexOf(s[from..], pat, k) case None => None case Some(i) => Some(from + i)
    decreases |s| - k
  {
    if from + k + |pat| <= |s| {
      AtShifted(s, pat, from, k);
      if !At(s, pat, from + k) {
        SearchShifted(s, pat, from, k + 1);
      }
    }
  }

  lemma AtShifted(s: string, pat: string, from: nat, k: nat)
    requires from <= |s| && from + k + |pat| <= |s|
    ensures At(s[from..], pat, k) <==> At(s, pat, from + k)
  {
    assert s[from..][k..k + |pat|] == s[from + k..from + k + |pat|];
  }

  // Offsets without an occurrence can be skipped.
  lemma {:induction false} IndexOfSkips(s: string, pat: string, to: nat)
    requires forall j: nat :: j < to ==> !At(s, pat, j)
    ensures IndexOf(s, pat, 0) == IndexOf(s, pat, to)
  {
    if to > 0 {
      IndexOfSkips(s, pat, to - 1);
    }
  }

  // The earliest occurrence does not move when bytes are appended.
  lemma IndexOfAppend(s: string, t: string, pat: string)
    requires Contains(s, pat)
    ensures IndexOf(s + t, pat, 0) == IndexOf(s, pat, 0)
  {
    var i := IndexOf(s, pat, 0).value;
    IndexOfMeaning(s, pat, 0);
    forall j: nat | j <= i ensures At(s + t, pat, j) <==> At(s, pat, j) {
      if j + |pat| <= |s| {
        assert (s + t)[j..j + |pat|] == s[j..j + |pat|];
      }
    }
    IndexOfIs(s + t, pat, 0, i);
  }

  lemma AtCrlf(s: string, i: nat)
    ensures At(s, CRLF, i) <==> i + 2 <= |s| && s[i] == '\r' && s[i + 1] == '\n'
  {
    if i + 2 <= |s| {
      assert s[i..i + 2] == [s[i], s[i + 1]];
    }
  }

  // No CRLF anywhere: the text fits on one line of a message. A lone CR or a lone LF does no harm.
  predicate OneLine(s: string) {
    forall i :: 0 <= i < |s| - 1 ==> !(s[i] == '\r' && s[i + 1] == '\n')
  }

  lemma OneLineIff(s: string)
    ensures OneLine(s) <==> !Contains(s, CRLF)
  {
    IndexOfMeaning(s, CRLF, 0);
    forall i: nat ensures At(s, CRLF, i) <==> i + 2 <= |s| && s[i] == '\r' && s[i + 1] == '\n' {
      AtCrlf(s, i);
    }
    if Contains(s, CRLF) {
      var i := IndexOf(s, CRLF, 0).value;
      assert s[i] == '\r' && s[i + 1] == '\n' by { AtCrlf(s, i); }
    }
  }

  /** A byte that is neither CR nor LF keeps what stands on its two sides apart. */
  lemma OneLineJoin(a: string, c: char, b: string)
    requires c != '\r' && c != '\n'
    ensures OneLine(a + ([c] + b)) <==> OneLine(a) && OneLine(b)
  {
    var s := a + ([c] + b);
    assert forall i :: 0 <= i < |a| ==> s[i] == a[i];
    assert forall i :: 0 <= i < |b| ==> b[i] == s[|a| + 1 + i];
    assert s[|a|] == c;
    if OneLine(s) {
      forall i | 0 <= i < |b| - 1 ensures !(b[i] == '\r' && b[i + 1] == '\n') {
        assert b[i] == s[|a| + 1 + i] && b[i + 1] == s[|a| + 1 + (i + 1)];
      }
    }
    if OneLine(a) && OneLine(b) {
      forall i | 0 <= i < |s| - 1 ensures !(s[i] == '\r' && s[i + 1] == '\n') {
        if i > |a| {
          assert s[i] == b[i - |a| - 1] && s[i + 1] == b[i - |a|];
        }
      }
    }
  }

  lemma AtChar(s: string, c: char, i: nat)
    ensures At(s, [c], i) <==> i < |s| && s[i] == c
  {
  }

  lemma LacksChar(s: string, c: char)
    ensures Contains(s, [c]) <==> c in s
  {
    forall i: nat { AtChar(s, c, i); }
    IndexOfMeaning(s, [c], 0);
  }

  /** The lines of a text that a CRLF ends; an unterminated rest is no line. */
  function Lines(s: string): seq<string>
    decreases |s|
  {
    match IndexOf(s, CRLF, 0)
    case None => []
    case Some(i) => IndexOfMeaning(s, CRLF, 0); [s[..i]] + Lines(s[i + 2..])
  }

  lemma PrefixLacks(s: string)
    requires Contains(s, CRLF)
    ensures IndexOf(s, CRLF, 0).value + 2 <= |s| && !Contains(s[..IndexOf(s, CRLF, 0).value], CRLF)
  {
    IndexOfMeaning(s, CRLF, 0);
    var i := IndexOf(s, CRLF, 0).value;
    forall j: nat ensures !At(s[..i], CRLF, j) {
      AtCrlf(s[..i], j);
      AtCrlf(s, j);
    }
    IndexOfNone(s[..i], CRLF, 0);
  }

  lemma {:induction false} LinesLackCrlf(s: string)
    ensures forall line :: line in Lines(s) ==> !Contains(line, CRLF)
    ensures !Contains(Rest(s), CRLF)
    decreases |s|
  {
    match IndexOf(s, CRLF, 0) {
      case None =>
      case Some(i) =>
        PrefixLacks(s);
        LinesLackCrlf(s[i + 2..]);
    }
  }

  function Unlines(lines: seq<string>): string {
    if lines == [] then "" else lines[0] + CRLF + Unlines(lines[1..])
  }

  // The bytes after the last CRLF.
  function Rest(s: string): string
    decreases |s|
  {
    match IndexOf(s, CRLF, 0)
    case None => s
    case Some(i) => IndexOfMeaning(s, CRLF, 0); Rest(s[i + 2..])
  }

  // A line without a CRLF still has none when the CR that starts its own terminator is looked at.
  lemma LineEnds(line: string, rest: string)
    requires !Contains(line, CRLF)
    ensures IndexOf(line + CRLF + rest, CRLF, 0) == Some(|line|)
  {
    var s := line + CRLF + rest;
    IndexOfMeaning(line, CRLF, 0);
    forall j: nat | j < |line| ensures !At(s, CRLF, j) {
      AtCrlf(s, j);
      AtCrlf(line, j);
    }
    AtCrlf(s, |line|);
    IndexOfIs(s, CRLF, 0, |line|);
  }

  lemma FirstLine(line: string, rest: string)
    requires !Contains(line, CRLF)
    ensures Lines(line + CRLF + rest) == [line] + Lines(rest)
    ensures Rest(line + CRLF + rest) == Rest(rest)
  {
    var s := line + CRLF + rest;
    LineEnds(line, rest);
    assert s[..|line|] == line;
    assert s[|line| + 2..] == rest;
  }

  lemma UnlinesCons(line: string, lines: seq<string>)
    ensures Unlines([line] + lines) == line + CRLF + Unlines(lines)
  {
    assert ([line] + lines)[1..] == lines;
  }

  lemma {:induction false} UnlinesSnoc(lines: seq<string>, line: string)
    ensures Unlines(lines + [line]) == Unlines(lines) + (line + CRLF)
  {
    if lines == [] {
      assert Unlines([line]) == line + CRLF + Unlines([]);
    } else {
      assert (lines + [line])[1..] == lines[1..] + [line];
      UnlinesSnoc(lines[1..], line);
      Assoc(lines[0] + CRLF, Unlines(lines[1..]), line + CRLF);
    }
  }

  /** Lines and Rest take a text apart, and Unlines puts it together again. */
  lemma {:induction false} UnlinesLines(s: string)
    ensures Unlines(Lines(s)) + Rest(s) == s
    decreases |s|
  {
    match IndexOf(s, CRLF, 0) {
      case None =>
      case Some(i) =>
        PrefixLacks(s);
        var line, tail := s[..i], s[i + 2..];
        CutAt(s, i);
        FirstLine(line, tail);
        UnlinesLines(tail);
        UnlinesCons(line, Lines(tail));
        Regroup(line, CRLF, Unlines(Lines(tail)), Rest(tail));
    }
  }

  lemma CutAt(s: string, i: nat)
    requires IndexOf(s, CRLF, 0) == Some(i)
    ensures i + 2 <= |s| && s == s[..i] + CRLF + s[i + 2..]
  {
    IndexOfMeaning(s, CRLF, 0);
    Thirds(s, i, i + 2);
  }

  lemma Thirds(s: string, i: nat, j: nat)
    requires i <= j <= |s|
    ensures s == s[..i] + s[i..j] + s[j..]
  {
  }

  lemma Assoc(a: string, b: string, c: string)
    ensures a + b + c == a + (b + c)
  {
  }

  lemma Regroup(a: string, b: string, c: string, d: string)
    ensures a + b + c + d == a + b + (c + d)
  {
    Assoc(a + b, c, d);
  }

  /** Whatever follows a block of terminated lines, the block contributes exactly its own lines. */
  lemma {:induction false} LinesUnlines(lines: seq<string>, rest: string)
    requires forall line :: line in lines ==> !Contains(line, CRLF)
    ensures Lines(Unlines(lines) + rest) == lines + Lines(rest)
  {
    if lines == [] {
      assert Unlines(lines) + rest == rest;
    } else {
      var line, more := lines[0], lines[1..];
      calc {
        Lines(Unlines(lines) + rest);
        { Regroup(line, CRLF, Unlines(more), rest); }
        Lines(line + CRLF + (Unlines(more) + rest));
        { FirstLine(line, Unlines(more) + rest); }
        [line] + Lines(Unlines(more) + rest);
        { LinesUnlines(more, rest); }
        [line] + (more + Lines(rest));
        lines + Lines(rest);
      }
    }
  }

  predicate EndsLine(s: string) {
    |s| >= 2 && At(s, CRLF, |s| - 2)
  }

  lemma {:induction false} RestOfEnded(s: string)
    requires EndsLine(s)
    ensures Rest(s) == ""
    decreases |s|
  {
    IndexOfMeaning(s, CRLF, 0);
    var i := IndexOf(s, CRLF, 0).value;
    if i + 2 < |s| {
      EndsLineSuffix(s, i);
      RestOfEnded(s[i + 2..]);
    } else {
      assert s[i + 2..] == "";
    }
  }

  lemma EndsLineSuffix(s: string, i: nat)
    requires EndsLine(s) && At(s, CRLF, i) && i + 2 < |s|
    ensures EndsLine(s[i + 2..])
  {
    AtCrlf(s, i);
    AtCrlf(s, |s| - 2);
    var rest := s[i + 2..];
    assert |rest| >= 2;
    AtCrlf(rest, |rest| - 2);
  }

  /** The lines of two texts run together add up when the first one ends at a line end. */
  lemma LinesConcat(s: string, t: string)
    requires EndsLine(s)
    ensures Lines(s + t) == Lines(s) + Lines(t)
  {
    RestOfEnded(s);
    UnlinesLines(s);
    LinesLackCrlf(s);
    assert Unlines(Lines(s)) == s;
    LinesUnlines(Lines(s), t);
  }
}
