/** Detecting and normalising line endings, against the lines of a text as the reference (src/utils/lineEndingHandler.ts). */
module LineEndings {
  datatype Style = CRLF | LF | CR

  function Ending(style: Style): (e: string)
    ensures e != ""
  {
    match style case CRLF => "\r\n" case LF => "\n" case CR => "\r"
  }

  predicate IsBreak(c: char) { c == '\r' || c == '\n' }

  /** The character at i is no line break, or part of one of the style's own. */
  predicate BreakOk(s: string, i: nat, style: Style)
    requires i < |s|
  {
    match style
    case LF => s[i] != '\r'
    case CR => s[i] != '\n'
    case CRLF =>
      && (s[i] == '\r' ==> i + 1 < |s| && s[i + 1] == '\n')
      && (s[i] == '\n' ==> 0 < i && s[i - 1] == '\r')
  }

  /** Every line break of s is the style's own. */
  ghost predicate Uniform(s: string, style: Style) {
    forall i :: 0 <= i < |s| ==> BreakOk(s, i, style)
  }

  // ---- Detection ----

  /** The first line break decides; `platform` where there is none. */
  function Detect(content: string, platform: Style): Style {
    if content == "" then platform
    else if content[0] == '\r' then if |content| > 1 && content[1] == '\n' then CRLF else CR
    else if content[0] == '\n' then LF
    else Detect(content[1..], platform)
  }

  method DetectLineEnding(content: string, platform: Style) returns (style: Style)
    ensures style == Detect(content, platform)
  {
    for i := 0 to |content|
      invariant Detect(content[i..], platform) == Detect(content, platform)
    {
      assert content[i..][0] == content[i] && content[i..][1..] == content[i + 1..];
      if content[i] == '\r' {
        if i + 1 < |content| && content[i + 1] == '\n' {
          return CRLF;
        }
        return CR;
      }
      if content[i] == '\n' {
        return LF;
      }
    }
    return platform;
  }

  /** The line break with the least index gives the style, whatever follows it. */
  lemma {:induction false} DetectFirst(content: string, i: nat, platform: Style)
    requires i < |content| && IsBreak(content[i]) && forall j :: 0 <= j < i ==> !IsBreak(content[j])
    ensures Detect(content, platform) ==
      if content[i] == '\n' then LF else if i + 1 < |content| && content[i + 1] == '\n' then CRLF else CR
  {
    if i > 0 {
      assert !IsBreak(content[0]) && content[1..][i - 1] == content[i];
      DetectFirst(content[1..], i - 1, platform);
    }
  }

  lemma {:induction false} DetectWithoutBreaks(content: string, platform: Style)
    requires forall i :: 0 <= i < |content| ==> !IsBreak(content[i])
    ensures Detect(content, platform) == platform
  {
    if content != "" {
      DetectWithoutBreaks(content[1..], platform);
    }
  }

  /** A file with some line break, all of one style, is recognised. */
  lemma {:induction false} DetectUniform(content: string, style: Style, platform: Style)
    requires Uniform(content, style) && exists i :: 0 <= i < |content| && IsBreak(content[i])
    ensures Detect(content, platform) == style
  {
    assert BreakOk(content, 0, style);
    assert |content| > 1 ==> BreakOk(content, 1, style);
    if !IsBreak(content[0]) {
      var rest := content[1..];
      var i :| 0 <= i < |content| && IsBreak(content[i]);
      assert IsBreak(rest[i - 1]);
      SuffixIsUniform(content, 1, style);
      DetectUniform(rest, style, platform);
    }
  }

  // ---- Normalisation ----

  /** replace(/\r\n/g, '\n') */
  function CollapseCrLf(s: string): string {
    if |s| > 1 && s[0] == '\r' && s[1] == '\n' then "\n" + CollapseCrLf(s[2..])
    else if s == "" then ""
    else [s[0]] + CollapseCrLf(s[1..])
  }

  /** replace(/c/g, sub) for a single character */
  function ReplaceChar(s: string, c: char, sub: string): string {
    if s == "" then "" else (if s[0] == c then sub else [s[0]]) + ReplaceChar(s[1..], c, sub)
  }

  function ToLf(text: string): string {
    ReplaceChar(CollapseCrLf(text), '\r', "\n")
  }

  function Normalize(text: string, target: Style): string {
    match target
    case CRLF => ReplaceChar(ToLf(text), '\n', "\r\n")
    case CR => ReplaceChar(ToLf(text), '\n', "\r")
    case LF => ToLf(text)
  }

  // ---- Reference: a text is a list of lines ----

  /** The number of characters of the line break at the front; 0 when there is none. */
  function BreakLength(s: string): nat {
    if |s| > 1 && s[0] == '\r' && s[1] == '\n' then 2
    else if s != "" && IsBreak(s[0]) then 1
    else 0
  }

  function Lines(s: string): (ls: seq<string>)
    ensures ls != []
    decreases |s|
  {
    if s == "" then [""]
    else if BreakLength(s) > 0 then [""] + Lines(s[BreakLength(s)..])
    else
      var rest := Lines(s[1..]);
      [[s[0]] + rest[0]] + rest[1..]
  }

  function Join(pieces: seq<string>, separator: string): string
    requires pieces != []
  {
    if |pieces| == 1 then pieces[0] else pieces[0] + separator + Join(pieces[1..], separator)
  }

  ghost predicate BreakFree(s: string) {
    forall i :: 0 <= i < |s| ==> !IsBreak(s[i])
  }

  lemma {:induction false} LinesAreBreakFree(s: string)
    ensures forall l <- Lines(s) :: BreakFree(l)
    decreases |s|
  {
    if s != "" {
      if BreakLength(s) > 0 {
        LinesAreBreakFree(s[BreakLength(s)..]);
      } else {
        LinesAreBreakFree(s[1..]);
        assert BreakFree(Lines(s[1..])[0]);
      }
    }
  }

  /** The first line break becomes a newline, any other first character stays. */
  lemma {:induction false} ToLfStep(s: string)
    requires s != ""
    ensures
      var n := BreakLength(s);
      n <= |s| && ToLf(s) == if n > 0 then "\n" + ToLf(s[n..]) else [s[0]] + ToLf(s[1..])
  {
    var n := if BreakLength(s) > 0 then BreakLength(s) else 1;
    var head, tail := if BreakLength(s) == 2 then '\n' else s[0], CollapseCrLf(s[n..]);
    assert CollapseCrLf(s) == [head] + tail;
    assert ([head] + tail)[1..] == tail;
  }

  lemma {:induction false} LinesStep(s: string, separator: string)
    requires s != ""
    ensures
      var n := BreakLength(s);
      n <= |s| && Join(Lines(s), separator) ==
        if n > 0 then separator + Join(Lines(s[n..]), separator) else [s[0]] + Join(Lines(s[1..]), separator)
  {
    var n := BreakLength(s);
    if n > 0 {
      var rest := Lines(s[n..]);
      assert Lines(s) == [""] + rest && ([""] + rest)[1..] == rest;
      assert "" + separator == separator;
    } else {
      JoinPlain(s[0], Lines(s[1..]), separator);
    }
  }

  lemma {:induction false} ToLfJoinsLines(s: string)
    ensures ToLf(s) == Join(Lines(s), "\n")
    decreases |s|
  {
    if s != "" {
      ToLfStep(s);
      LinesStep(s, "\n");
      ToLfJoinsLines(s[if BreakLength(s) > 0 then BreakLength(s) else 1..]);
    }
  }

  lemma {:induction false} ReplaceConcat(a: string, b: string, c: char, sub: string)
    ensures ReplaceChar(a + b, c, sub) == ReplaceChar(a, c, sub) + ReplaceChar(b, c, sub)
  {
    if a == "" {
      assert a + b == b;
    } else {
      assert (a + b)[1..] == a[1..] + b;
      ReplaceConcat(a[1..], b, c, sub);
    }
  }

  lemma {:induction false} ReplaceNothing(s: string, c: char, sub: string)
    requires c !in s
    ensures ReplaceChar(s, c, sub) == s
  {
    if s != "" {
      ReplaceNothing(s[1..], c, sub);
      assert s == [s[0]] + s[1..];
    }
  }

  lemma {:induction false} ReplaceSeparator(pieces: seq<string>, sub: string)
    requires pieces != [] && forall p <- pieces :: BreakFree(p)
    ensures ReplaceChar(Join(pieces, "\n"), '\n', sub) == Join(pieces, sub)
  {
    assert '\n' !in pieces[0] by {
      assert BreakFree(pieces[0]);
    }
    ReplaceNothing(pieces[0], '\n', sub);
    if |pieces| > 1 {
      var rest := Join(pieces[1..], "\n");
      ReplaceSeparator(pieces[1..], sub);
      ReplaceConcat(pieces[0] + "\n", rest, '\n', sub);
      ReplaceConcat(pieces[0], "\n", '\n', sub);
      assert "\n"[1..] == "";
      assert ReplaceChar("\n", '\n', sub) == sub + "" == sub;
    }
  }

  /** Normalising keeps the lines and joins them with the target's line ending. */
  lemma {:induction false} NormalizeJoinsLines(text: string, target: Style)
    ensures Normalize(text, target) == Join(Lines(text), Ending(target))
  {
    ToLfJoinsLines(text);
    LinesAreBreakFree(text);
    ReplaceSeparator(Lines(text), Ending(target));
  }

  lemma UniformConcat(a: string, b: string, style: Style)
    requires Uniform(a, style) && Uniform(b, style)
    ensures Uniform(a + b, style)
  {
    forall i | 0 <= i < |a + b| ensures BreakOk(a + b, i, style) {
      if i < |a| {
        assert BreakOk(a, i, style);
      } else {
        assert BreakOk(b, i - |a|, style);
      }
    }
  }

  lemma {:induction false} JoinIsUniform(pieces: seq<string>, style: Style)
    requires pieces != [] && forall p <- pieces :: BreakFree(p)
    ensures Uniform(Join(pieces, Ending(style)), style)
  {
    assert BreakFree(pieces[0]);
    assert Uniform(pieces[0], style);
    if |pieces| > 1 {
      JoinIsUniform(pieces[1..], style);
      UniformConcat(pieces[0], Ending(style), style);
      UniformConcat(pieces[0] + Ending(style), Join(pieces[1..], Ending(style)), style);
    }
  }

  lemma NormalizeIsUniform(text: string, target: Style)
    ensures Uniform(Normalize(text, target), target)
  {
    NormalizeJoinsLines(text, target);
    LinesAreBreakFree(text);
    JoinIsUniform(Lines(text), target);
  }

  lemma {:induction false} LinesOfPlain(p: string, s: string)
    requires BreakFree(p)
    ensures Lines(p + s) == [p + Lines(s)[0]] + Lines(s)[1..]
  {
    if p == "" {
      assert p + s == s;
      assert p + Lines(s)[0] == Lines(s)[0];
    } else {
      assert (p + s)[1..] == p[1..] + s;
      LinesOfPlain(p[1..], s);
      assert [p[0]] + (p[1..] + Lines(s)[0]) == p + Lines(s)[0];
    }
  }

  lemma LinesOfBreak(style: Style, rest: string)
    requires Uniform(rest, style)
    ensures Lines(Ending(style) + rest) == [""] + Lines(rest)
  {
    var s := Ending(style) + rest;
    assert s[|Ending(style)|..] == rest;
    assert rest != "" ==> BreakOk(rest, 0, style);
    assert style.CR? && rest != "" ==> s[1] == rest[0];
  }

  /** A line before a text that starts a new one. */
  lemma {:induction false} LinesOfCons(p: string, rest: string, style: Style)
    requires BreakFree(p) && Uniform(rest, style)
    ensures Lines(p + (Ending(style) + rest)) == [p] + Lines(rest)
  {
    LinesOfBreak(style, rest);
    LinesOfPlain(p, Ending(style) + rest);
    FirstPiece(p, Lines(rest));
  }

  lemma FirstPiece(p: string, rest: seq<string>)
    ensures
      var more := [""] + rest;
      [p + more[0]] + more[1..] == [p] + rest
  {
    assert p + "" == p;
  }

  lemma {:induction false} LinesOfJoin(pieces: seq<string>, style: Style)
    requires pieces != [] && forall p <- pieces :: BreakFree(p)
    ensures Lines(Join(pieces, Ending(style))) == pieces
  {
    var p := pieces[0];
    assert BreakFree(p);
    if |pieces| == 1 {
      LinesOfPlain(p, "");
      assert p + "" == p;
    } else {
      LinesOfJoin(pieces[1..], style);
      JoinIsUniform(pieces[1..], style);
      LinesOfCons(p, Join(pieces[1..], Ending(style)), style);
      JoinCons(pieces, Ending(style));
      assert pieces == [p] + pieces[1..];
    }
  }

  lemma JoinCons(pieces: seq<string>, separator: string)
    requires |pieces| > 1
    ensures Join(pieces, separator) == pieces[0] + (separator + Join(pieces[1..], separator))
  {
  }

  /** The lines survive, and only the last normalisation matters. */
  lemma NormalizeKeepsLines(text: string, first: Style, second: Style)
    ensures Lines(Normalize(text, first)) == Lines(text)
    ensures Normalize(Normalize(text, first), second) == Normalize(text, second)
  {
    NormalizeJoinsLines(text, first);
    LinesAreBreakFree(text);
    LinesOfJoin(Lines(text), first);
    NormalizeJoinsLines(Normalize(text, first), second);
    NormalizeJoinsLines(text, second);
  }

  lemma JoinPlain(c: char, pieces: seq<string>, separator: string)
    requires pieces != []
    ensures Join([[c] + pieces[0]] + pieces[1..], separator) == [c] + Join(pieces, separator)
  {
    var more := [[c] + pieces[0]] + pieces[1..];
    assert more[1..] == pieces[1..];
    if |pieces| > 1 {
      var tail := Join(pieces[1..], separator);
      assert [c] + pieces[0] + separator + tail == [c] + (pieces[0] + separator + tail);
    }
  }

  lemma {:induction false} UniformBreak(s: string, style: Style)
    requires Uniform(s, style) && BreakLength(s) > 0
    ensures
      var n := BreakLength(s);
      n <= |s| && Uniform(s[n..], style) && s == "" + Ending(style) + s[n..]
  {
    var n := BreakLength(s);
    assert BreakOk(s, 0, style);
    assert |s| > 1 ==> BreakOk(s, 1, style);
    assert |s| > 2 ==> BreakOk(s, 2, style);
    assert s[..n] == Ending(style);
    SuffixIsUniform(s, n, style);
  }

  lemma {:induction false} UniformIsJoined(s: string, style: Style)
    requires Uniform(s, style)
    ensures Join(Lines(s), Ending(style)) == s
    decreases |s|
  {
    if s != "" {
      var n := BreakLength(s);
      if n > 0 {
        UniformBreak(s, style);
        UniformIsJoined(s[n..], style);
        assert Lines(s)[1..] == Lines(s[n..]);
      } else {
        assert BreakOk(s, 0, style);
        assert |s| > 1 ==> BreakOk(s, 1, style);
        SuffixIsUniform(s, 1, style);
        UniformIsJoined(s[1..], style);
        JoinPlain(s[0], Lines(s[1..]), Ending(style));
        assert s == [s[0]] + s[1..];
      }
    }
  }

  lemma SuffixIsUniform(s: string, n: nat, style: Style)
    requires Uniform(s, style) && n <= |s| && (n < |s| && style.CRLF? ==> s[n] != '\n')
    ensures Uniform(s[n..], style)
  {
    forall i | 0 <= i < |s| - n ensures BreakOk(s[n..], i, style) {
      assert BreakOk(s, n + i, style);
    }
  }

  lemma PrefixIsUniform(s: string, n: nat, style: Style)
    requires Uniform(s, style) && n <= |s| && (n < |s| && style.CRLF? ==> s[n] != '\n')
    ensures Uniform(s[..n], style)
  {
    forall i | 0 <= i < n ensures BreakOk(s[..n], i, style) {
      assert BreakOk(s, i, style);
    }
  }

  /** Neither end of a uniform text cuts a CR LF pair. */
  lemma UniformEnds(s: string, style: Style)
    requires Uniform(s, style) && s != "" && style.CRLF?
    ensures s[0] != '\n' && s[|s| - 1] != '\r'
  {
    assert BreakOk(s, 0, style) && BreakOk(s, |s| - 1, style);
  }

  /** A text is left alone exactly when it already has the target's line endings. */
  lemma NormalizeIdentity(text: string, target: Style)
    ensures Normalize(text, target) == text <==> Uniform(text, target)
  {
    NormalizeIsUniform(text, target);
    if Uniform(text, target) {
      NormalizeJoinsLines(text, target);
      UniformIsJoined(text, target);
    }
  }
}
