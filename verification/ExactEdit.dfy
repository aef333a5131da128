/** Exact search-and-replace edits of one file (src/tools/edit.ts). */
module ExactEdit {
  import opened Prelude
  import opened LineEndings
  import opened ExactModel
  import opened ExactLemmas

  /** The two counts differ exactly when some occurrences overlap. */
  lemma {:induction false} CountsAgree(s: string, p: string, from: nat)
    requires p != ""
    ensures CountDisjoint(s, p, from) == CountAll(s, p, from) <==> !Overlap(s, p, from)
    decreases |s| - from
  {
    if IndexOf(s, p, from).None? {
      NoOccurrence(s, p, from);
    } else {
      var next := FirstOccurrence(s, p, from);
      DisjointAreFewer(s, p, next);
      CountsAgree(s, p, next);
    }
  }

  /** Splitting and joining with the same text changes nothing. */
  lemma SplitJoin(s: string, p: string)
    requires p != ""
    ensures ReplaceAll(s, p, p) == s
  {
    JoinIsReplace(s, p, p, 0);
    ReplaceByItself(s, p, 0);
  }

  /** The batch's scan count is the number of split pieces less one. */
  lemma ScanCountIsPieces(s: string, p: string)
    requires p != ""
    ensures CountDisjoint(s, p, 0) == |Split(s, p)| - 1
  {
    CountIsPieces(s, p, 0);
  }

  lemma {:induction false} SingleOccurrence(s: string, p: string, replacement: string)
    requires p != "" && CountDisjoint(s, p, 0) == 1
    ensures IndexOf(s, p, 0).Some?
    ensures
      var i := IndexOf(s, p, 0).value;
      ReplaceAll(s, p, replacement) == s[..i] + replacement + s[i + |p|..]
  {
    JoinIsReplace(s, p, replacement, 0);
    OneReplaced(s, p, replacement);
  }

  /** The counting loop that resumes one character after each match. */
  method CountOverlapping(content: string, search: string) returns (count: nat)
    requires search != ""
    ensures count == CountAll(content, search, 0)
  {
    count := 0;
    var pos := IndexOf(content, search, 0);
    ghost var from := 0;
    while pos.Some?
      invariant pos == IndexOf(content, search, from)
      invariant CountAll(content, search, 0) == count + CountAll(content, search, from)
      decreases |content| - from
    {
      IndexOfIsFirst(content, search, from);
      CountAllSkip(content, search, from, pos.value);
      count := count + 1;
      from := pos.value + 1;
      pos := IndexOf(content, search, pos.value + 1);
    }
    IndexOfIsFirst(content, search, from);
    if from < |content| {
      CountAllSkip(content, search, from, |content|);
    }
  }

  function ExactEditResult(content: string, edit: Edit, platform: Style): EditResult {
    if edit.search == "" then EmptySearch
    else
      var style := Detect(content, platform);
      var search, replacement := Normalize(edit.search, style), Normalize(edit.replacement, style);
      NormalizeNonEmpty(edit.search, style);
      var count := CountAll(content, search, 0);
      if count == 0 then NotFound
      else if count != edit.expected then WrongCount(count)
      else Written(ReplaceAll(content, search, replacement))
  }

  method PerformSearchReplace(content: string, edit: Edit, platform: Style) returns (result: EditResult)
    ensures result == ExactEditResult(content, edit, platform)
  {
    if edit.search == "" {
      return EmptySearch;
    }
    var style := DetectLineEnding(content, platform);
    var search := Normalize(edit.search, style);
    NormalizeNonEmpty(edit.search, style);
    var count := CountOverlapping(content, search);
    if count == 0 {
      return NotFound;
    }
    if count != edit.expected {
      return WrongCount(count);
    }
    var replacement := Normalize(edit.replacement, style);
    if edit.expected == 1 {
      var searchIndex := IndexOf(content, search, 0);
      SingleMeansDisjoint(content, search);
      SingleOccurrence(content, search, replacement);
      return Written(content[..searchIndex.value] + replacement + content[searchIndex.value + |search|..]);
    }
    result := Written(Join(Split(content, search), replacement));
  }

  /** What an edit does. With the line endings of the file, it is refused for an empty search text; otherwise the places where
      the search text stands are counted, overlapping ones included. None, or another number than expected, is reported.
      Otherwise the parts of the file between disjoint occurrences, none of which holds the search text, are joined by the
      replacement; without overlaps there is one part more than expected occurrences. */
  lemma EditMeans(content: string, edit: Edit, platform: Style)
    ensures
      var style := Detect(content, platform);
      var search, replacement := Normalize(edit.search, style), Normalize(edit.replacement, style);
      var starts := set i | 0 <= i <= |content| && At(content, search, i);
      match ExactEditResult(content, edit, platform)
      case EmptySearch => edit.search == ""
      case NotFound => edit.search != "" && starts == {}
      case WrongCount(n) => edit.search != "" && n == |starts| && n != 0 && n != edit.expected
      case Written(c) =>
        && edit.search != "" && |starts| == edit.expected && edit.expected > 0
        && exists parts :: AreParts(content, search, parts) && c == Join(parts, replacement)
             && (!Overlap(content, search, 0) ==> |parts| == edit.expected + 1)
  {
    if edit.search != "" {
      var style := Detect(content, platform);
      var search := Normalize(edit.search, style);
      NormalizeNonEmpty(edit.search, style);
      CountIsSize(content, search, 0);
      SplitIsParts(content, search);
      CountsAgree(content, search, 0);
      ScanCountIsPieces(content, search);
    }
  }

  /** Splitting gives the parts between disjoint occurrences. */
  lemma SplitIsParts(s: string, p: string)
    requires p != ""
    ensures AreParts(s, p, Split(s, p)) && |Split(s, p)| == CountDisjoint(s, p, 0) + 1
  {
    SplitJoin(s, p);
    SplitFromIsFree(s, p, 0);
    ScanCountIsPieces(s, p);
  }

  /** The edit of a batch that expects one occurrence: the patterns stand for the text around it and for itself. */
  lemma FirstIsReplaced(s: string, p: string, replacement: string) returns (before: string, after: string)
    requires p != "" && CountDisjoint(s, p, 0) == 1
    ensures s == before + p + after
    ensures ReplaceFirst(s, p, replacement) == before + Expand(replacement, before, p, after) + after
    ensures ReplaceAll(s, p, replacement) == before + replacement + after
  {
    SingleOccurrence(s, p, replacement);
    var i := IndexOf(s, p, 0).value;
    before, after := s[..i], s[i + |p|..];
    assert s[i..i + |p|] == p;
  }

  /** What each pattern stands for; text before it without a pattern is literal. */
  lemma PatternsExpand(a: string, b: string, before: string, matched: string, after: string)
    requires !HasPattern(a) && (a != "" ==> a[|a| - 1] != '$')
    ensures Expand(a + ("$$" + b), before, matched, after) == a + ("$" + Expand(b, before, matched, after))
    ensures Expand(a + ("$&" + b), before, matched, after) == a + (matched + Expand(b, before, matched, after))
    ensures Expand(a + ("$`" + b), before, matched, after) == a + (before + Expand(b, before, matched, after))
    ensures Expand(a + ("$'" + b), before, matched, after) == a + (after + Expand(b, before, matched, after))
  {
    OnePattern('$', a, b, before, matched, after);
    OnePattern('&', a, b, before, matched, after);
    OnePattern('`', a, b, before, matched, after);
    OnePattern('\'', a, b, before, matched, after);
  }

  lemma OnePattern(c: char, a: string, b: string, before: string, matched: string, after: string)
    requires !HasPattern(a) && (a != "" ==> a[|a| - 1] != '$') && c in "$&`'"
    ensures Expand(a + (['$', c] + b), before, matched, after) == a +
      ((if c == '$' then "$" else if c == '&' then matched else if c == '`' then before else after) + Expand(b, before, matched, after))
  {
    ExpandJoins(a, ['$', c] + b, before, matched, after);
    assert (['$', c] + b)[2..] == b;
  }

  /** An accepted edit replaces as many occurrences as were expected exactly when none of them overlap:
      the scan counts overlapping occurrences, the replacement does not see them. */
  lemma ReplacesAsManyAsExpected(content: string, edit: Edit, platform: Style)
    requires ExactEditResult(content, edit, platform).Written?
    ensures
      var search := Normalize(edit.search, Detect(content, platform));
      search != "" &&
      (|Split(content, search)| - 1 == edit.expected <==> !Overlap(content, search, 0))
  {
    var search := Normalize(edit.search, Detect(content, platform));
    NormalizeNonEmpty(edit.search, Detect(content, platform));
    CountsAgree(content, search, 0);
    ScanCountIsPieces(content, search);
  }

  lemma OverlapIsMiscounted()
    ensures
      var edit := Edit("aa", "b", 2);
      ExactEditResult("aaa", edit, LF) == Written("ba")
  {
    var s, p := "aaa", "aa";
    assert CollapseCrLf(p) == "aa" && CollapseCrLf("b") == "b";
    NormalizeIdentity(p, LF);
    NormalizeIdentity("b", LF);
    assert s[0..2] == p && s[1..3] == p && s[2..] == "a" && s[0..0] == "";
    assert CountAll(s, p, 2) == 0 && CountAll(s, p, 1) == 1 && CountAll(s, p, 0) == 2;
    assert IndexOf(s, p, 0) == Some(0) && IndexOf(s, p, 2) == None;
    assert SplitFrom(s, p, 2) == ["a"] && Split(s, p) == ["", "a"];
    assert ["", "a"][1..] == ["a"];
    assert Detect(s, LF) == LF by {
      DetectWithoutBreaks(s, LF);
    }
  }

  /** A replacement text is taken literally in every context exactly when it holds none of the patterns. */
  lemma LiteralReplacement(replacement: string)
    ensures (forall before, matched, after :: Expand(replacement, before, matched, after) == replacement) <==> !HasPattern(replacement)
  {
    if HasPattern(replacement) {
      ExpandShrinks(replacement, "a", "b", "c");
      assert Expand(replacement, "a", "b", "c") != replacement;
    } else {
      forall before, matched, after ensures Expand(replacement, before, matched, after) == replacement {
        ExpandPlain(replacement, before, matched, after);
      }
    }
  }

  /** The loop of the batch from one intermediate text on; the style is that of the original file. */
  function BatchFrom(next: string, edits: seq<Edit>, style: Style): BatchResult
    requires forall e <- edits :: e.search != ""
    decreases |edits|
  {
    if edits == [] then Applied(next)
    else
      var search, replacement := Normalize(edits[0].search, style), Normalize(edits[0].replacement, style);
      NormalizeNonEmpty(edits[0].search, style);
      var count := CountDisjoint(next, search, 0);
      if count != edits[0].expected then Rejected(edits[0].expected, count)
      else
        BatchFrom(if count == 1 then ReplaceFirst(next, search, replacement) else ReplaceAll(next, search, replacement),
                  edits[1..], style)
  }

  /** The counting loop that resumes after each match. */
  method CountScan(next: string, search: string) returns (count: nat)
    requires search != ""
    ensures count == CountDisjoint(next, search, 0)
  {
    count := 0;
    var pos := IndexOf(next, search, 0);
    ghost var from := 0;
    while pos.Some?
      invariant from >= 0 && pos == IndexOf(next, search, from)
      invariant CountDisjoint(next, search, 0) == count + CountDisjoint(next, search, from)
      decreases |next| - from
    {
      count := count + 1;
      var resume := pos.value + if |search| > 1 then |search| else 1;
      assert resume == pos.value + |search|;
      CountDisjointStep(next, search, from);
      from, pos := resume, IndexOf(next, search, resume);
    }
  }

  /** The edits are applied to a private copy; the file is written only after the last one. */
  method PerformExactBatch(file: string, edits: seq<Edit>, platform: Style) returns (written: string, result: BatchResult)
    requires forall e <- edits :: e.search != ""
    ensures result == BatchFrom(file, edits, Detect(file, platform))
    ensures written == if result.Applied? then result.content else file
  {
    written := file;
    var fileLineEnding := DetectLineEnding(file, platform);
    var next := file;
    for k := 0 to |edits|
      invariant written == file
      invariant BatchFrom(next, edits[k..], fileLineEnding) == BatchFrom(file, edits, fileLineEnding)
    {
      assert edits[k..][0] == edits[k] && edits[k..][1..] == edits[k + 1..];
      var search, replacement := Normalize(edits[k].search, fileLineEnding), Normalize(edits[k].replacement, fileLineEnding);
      NormalizeNonEmpty(edits[k].search, fileLineEnding);
      var count := CountScan(next, search);
      if count != edits[k].expected {
        return file, Rejected(edits[k].expected, count);
      }
      next := if count == 1 then ReplaceFirst(next, search, replacement) else Join(Split(next, search), replacement);
    }
    written, result := next, Applied(next);
  }

  /** The intended meaning: every edit replaces all its occurrences by the literal text. */
  function LiteralBatch(next: string, edits: seq<Edit>, style: Style): BatchResult
    requires forall e <- edits :: e.search != ""
    decreases |edits|
  {
    if edits == [] then Applied(next)
    else
      var search := Normalize(edits[0].search, style);
      NormalizeNonEmpty(edits[0].search, style);
      var pieces := Split(next, search);
      if |pieces| - 1 != edits[0].expected then Rejected(edits[0].expected, |pieces| - 1)
      else LiteralBatch(Join(pieces, Normalize(edits[0].replacement, style)), edits[1..], style)
  }

  lemma PlainReplaceFirst(s: string, p: string, replacement: string)
    requires p != "" && CountDisjoint(s, p, 0) == 1 && !HasPattern(replacement)
    ensures ReplaceFirst(s, p, replacement) == ReplaceAll(s, p, replacement)
  {
    SingleOccurrence(s, p, replacement);
    var i := IndexOf(s, p, 0).value;
    ExpandPlain(replacement, s[..i], p, s[i + |p|..]);
  }

  /** The batch is the sequential composition of literal replacements, or nothing, unless an edit that expects one
      occurrence has a $ pattern in its replacement. */
  lemma {:induction false} BatchIsSequentialComposition(next: string, edits: seq<Edit>, style: Style)
    requires forall e <- edits :: e.search != ""
    requires forall e <- edits :: e.expected == 1 ==> !HasPattern(Normalize(e.replacement, style))
    ensures BatchFrom(next, edits, style) == LiteralBatch(next, edits, style)
    decreases |edits|
  {
    if edits != [] {
      var e := edits[0];
      var search, replacement := Normalize(e.search, style), Normalize(e.replacement, style);
      NormalizeNonEmpty(e.search, style);
      ScanCountIsPieces(next, search);
      var count := CountDisjoint(next, search, 0);
      if count == e.expected {
        if count == 1 {
          PlainReplaceFirst(next, search, replacement);
        }
        BatchIsSequentialComposition(ReplaceAll(next, search, replacement), edits[1..], style);
      }
    }
  }

  lemma DollarIsExpanded()
    ensures
      var edits := [Edit("a", "$&$&", 1)];
      BatchFrom("a", edits, LF) == Applied("aa") && LiteralBatch("a", edits, LF) == Applied("$&$&")
  {
    MatchedTwice();
    WholeText(Edit("a", "$&$&", 1));
  }

  /** A pattern may still expand to itself. */
  lemma PatternCanBeLiteral(before: string, after: string)
    ensures HasPattern("$&") && Expand("$&", before, "$&", after) == "$&"
  {
    assert PatternAt("$&", 0);
    assert "$&"[2..] == "";
    assert Expand("", before, "$&", after) == "";
  }

  /** The only edit of a batch expects the whole text once. */
  lemma {:induction false} WholeText(e: Edit)
    requires e.search != "" && e.expected == 1 && Uniform(e.search, LF) && Uniform(e.replacement, LF)
    ensures BatchFrom(e.search, [e], LF) == Applied(Expand(e.replacement, "", e.search, ""))
    ensures LiteralBatch(e.search, [e], LF) == Applied(e.replacement)
  {
    NormalizeIdentity(e.search, LF);
    NormalizeIdentity(e.replacement, LF);
    ReplaceWhole(e.search, e.replacement);
    assert [e][1..] == [];
  }

  lemma {:induction false} ReplaceWhole(s: string, r: string)
    requires s != ""
    ensures CountDisjoint(s, s, 0) == |Split(s, s)| - 1 == 1
    ensures ReplaceFirst(s, s, r) == Expand(r, "", s, "")
    ensures ReplaceAll(s, s, r) == r
  {
    OnlyOccurrence(s);
    ScanCountIsPieces(s, s);
    SingleOccurrence(s, s, r);
    NothingAround(r);
    NothingAround(Expand(r, "", s, ""));
  }

  /** An accepted edit of a file with uniform line endings leaves it uniform in that style. */
  lemma EditKeepsLineEndings(content: string, edit: Edit, platform: Style)
    requires Uniform(content, Detect(content, platform))
    requires ExactEditResult(content, edit, platform).Written?
    ensures Uniform(ExactEditResult(content, edit, platform).content, Detect(content, platform))
  {
    var style := Detect(content, platform);
    NormalizeNonEmpty(edit.search, style);
    NormalizeIsUniform(edit.search, style);
    NormalizeIsUniform(edit.replacement, style);
    ReplaceAllIsUniform(content, Normalize(edit.search, style), Normalize(edit.replacement, style), style);
  }

  /** So does an accepted batch, $ patterns included. */
  lemma {:induction false} BatchKeepsLineEndings(next: string, edits: seq<Edit>, style: Style)
    requires forall e <- edits :: e.search != ""
    requires Uniform(next, style) && BatchFrom(next, edits, style).Applied?
    ensures Uniform(BatchFrom(next, edits, style).content, style)
    decreases |edits|
  {
    if edits != [] {
      var search, replacement := Normalize(edits[0].search, style), Normalize(edits[0].replacement, style);
      NormalizeNonEmpty(edits[0].search, style);
      NormalizeIsUniform(edits[0].search, style);
      NormalizeIsUniform(edits[0].replacement, style);
      if CountDisjoint(next, search, 0) == 1 {
        ReplaceFirstIsUniform(next, search, replacement, style);
        BatchKeepsLineEndings(ReplaceFirst(next, search, replacement), edits[1..], style);
      } else {
        ReplaceAllIsUniform(next, search, replacement, style);
        BatchKeepsLineEndings(ReplaceAll(next, search, replacement), edits[1..], style);
      }
    }
  }
}
