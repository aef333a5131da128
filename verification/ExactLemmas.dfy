/** Lemmas about occurrences and replacement. The search that resumes after a match finds disjoint occurrences, the one that
    resumes one character further finds all; splitting at the former and joining replaces them; a replacement expands to itself
    in every context unless it has a pattern; and replacing pieces of a text that is uniform in its line endings by texts that
    are leaves it uniform. */
module ExactLemmas {
  import opened Prelude
  import opened LineEndings
  import opened ExactModel

  lemma {:induction false} IndexOfIsFirst(s: string, p: string, from: nat)
    ensures
      var i := IndexOf(s, p, from);
      forall k :: from <= k && (i.Some? ==> k < i.value) ==> !At(s, p, k)
    decreases |s| - from
  {
    if from + |p| <= |s| && !At(s, p, from) {
      IndexOfIsFirst(s, p, from + 1);
    }
  }

  lemma {:induction false} CountAllSkip(s: string, p: string, from: nat, end: nat)
    requires from <= end
    ensures CountAll(s, p, end) <= CountAll(s, p, from)
    ensures if SomeAt(s, p, from, end) then CountAll(s, p, end) < CountAll(s, p, from) else CountAll(s, p, from) == CountAll(s, p, end)
    decreases end - from
  {
    if from < end {
      CountAllSkip(s, p, from + 1, end);
      assert SomeAt(s, p, from, end) <==> At(s, p, from) || SomeAt(s, p, from + 1, end);
      if from + |p| > |s| {
        assert CountAll(s, p, from + 1) == 0;
      }
    }
  }

  lemma OverlapAfterFirst(s: string, p: string, from: nat)
    requires IndexOf(s, p, from).Some?
    ensures
      var i := IndexOf(s, p, from).value;
      Overlap(s, p, from) <==> SomeAt(s, p, i + 1, i + |p|) || Overlap(s, p, i + |p|)
  {
    IndexOfIsFirst(s, p, from);
    var i := IndexOf(s, p, from).value;
    if Overlap(s, p, from) {
      var a :| from <= a && OverlapAt(s, p, a);
      assert i <= a;
      assert i < a < i + |p| ==> SomeAt(s, p, i + 1, i + |p|);
    } else if SomeAt(s, p, i + 1, i + |p|) {
      assert OverlapAt(s, p, i);
    }
  }

  lemma NoOccurrence(s: string, p: string, from: nat)
    requires IndexOf(s, p, from).None?
    ensures CountAll(s, p, from) == 0 && !Overlap(s, p, from)
  {
    IndexOfIsFirst(s, p, from);
    if from < |s| {
      CountAllSkip(s, p, from, |s|);
      assert CountAll(s, p, |s|) == 0 || At(s, p, |s|);
    }
  }

  lemma CountAllAtFirst(s: string, p: string, from: nat)
    requires IndexOf(s, p, from).Some?
    ensures CountAll(s, p, from) == 1 + CountAll(s, p, IndexOf(s, p, from).value + 1)
  {
    IndexOfIsFirst(s, p, from);
    CountAllSkip(s, p, from, IndexOf(s, p, from).value);
  }

  /** The first occurrence: where the disjoint search resumes, and what both counts owe to the part before. */
  lemma {:induction false} FirstOccurrence(s: string, p: string, from: nat) returns (next: nat)
    requires p != "" && IndexOf(s, p, from).Some?
    ensures from < next <= |s|
    ensures CountDisjoint(s, p, from) == 1 + CountDisjoint(s, p, next)
    ensures CountAll(s, p, from) >= 1 + CountAll(s, p, next)
    ensures Overlap(s, p, from) <==> CountAll(s, p, from) > 1 + CountAll(s, p, next) || Overlap(s, p, next)
  {
    var i := IndexOf(s, p, from).value;
    next := i + |p|;
    IndexOfIsFirst(s, p, from);
    AllAtFirst(s, p, from, i);
    OverlapAtFirst(s, p, from, i);
  }

  lemma {:induction false} AllAtFirst(s: string, p: string, from: nat, i: nat)
    requires p != "" && IndexOf(s, p, from) == Some(i)
    ensures CountAll(s, p, from) >= 1 + CountAll(s, p, i + |p|)
    ensures SomeAt(s, p, i + 1, i + |p|) <==> CountAll(s, p, from) > 1 + CountAll(s, p, i + |p|)
  {
    CountAllAtFirst(s, p, from);
    CountAllSkip(s, p, i + 1, i + |p|);
  }

  lemma {:induction false} OverlapAtFirst(s: string, p: string, from: nat, i: nat)
    requires p != "" && IndexOf(s, p, from) == Some(i)
    ensures Overlap(s, p, from) <==> SomeAt(s, p, i + 1, i + |p|) || Overlap(s, p, i + |p|)
  {
    OverlapAfterFirst(s, p, from);
  }

  lemma {:induction false} DisjointAreFewer(s: string, p: string, from: nat)
    requires p != ""
    ensures CountDisjoint(s, p, from) <= CountAll(s, p, from)
    decreases |s| - from
  {
    if IndexOf(s, p, from).Some? {
      var next := FirstOccurrence(s, p, from);
      DisjointAreFewer(s, p, next);
    }
  }

  lemma {:induction false} JoinIsReplace(s: string, p: string, replacement: string, from: nat)
    requires p != "" && from <= |s|
    ensures Join(SplitFrom(s, p, from), replacement) == ReplaceFrom(s, p, replacement, from)
    decreases |s| - from
  {
    var i := IndexOf(s, p, from);
    if i.Some? {
      JoinIsReplace(s, p, replacement, i.value + |p|);
      assert SplitFrom(s, p, from)[1..] == SplitFrom(s, p, i.value + |p|);
    }
  }

  lemma CutOut(s: string, p: string, from: nat, i: nat)
    requires from <= i && At(s, p, i)
    ensures s[from..] == s[from..i] + p + s[i + |p|..]
  {
  }

  lemma {:induction false} ReplaceByItself(s: string, p: string, from: nat)
    requires p != "" && from <= |s|
    ensures ReplaceFrom(s, p, p, from) == s[from..]
    decreases |s| - from
  {
    var i := IndexOf(s, p, from);
    if i.Some? {
      ReplaceByItself(s, p, i.value + |p|);
      CutOut(s, p, from, i.value);
    }
  }

  lemma {:induction false} CountIsPieces(s: string, p: string, from: nat)
    requires p != "" && from <= |s|
    ensures CountDisjoint(s, p, from) == |SplitFrom(s, p, from)| - 1
    decreases |s| - from
  {
    if IndexOf(s, p, from).Some? {
      CountIsPieces(s, p, IndexOf(s, p, from).value + |p|);
    }
  }

  lemma {:induction false} OneReplaced(s: string, p: string, replacement: string)
    requires p != "" && CountDisjoint(s, p, 0) == 1
    ensures IndexOf(s, p, 0).Some?
    ensures
      var i := IndexOf(s, p, 0).value;
      ReplaceFrom(s, p, replacement, 0) == s[..i] + replacement + s[i + |p|..]
  {
    var i := IndexOf(s, p, 0).value;
    NoneReplaced(s, p, replacement, i + |p|);
    assert s[0..i] == s[..i];
  }

  lemma {:induction false} NoneReplaced(s: string, p: string, replacement: string, from: nat)
    requires p != "" && from <= |s| && CountDisjoint(s, p, from) == 0
    ensures ReplaceFrom(s, p, replacement, from) == s[from..]
  {
  }

  lemma SingleMeansDisjoint(s: string, p: string)
    requires p != "" && CountAll(s, p, 0) == 1
    ensures CountDisjoint(s, p, 0) == 1
  {
    DisjointAreFewer(s, p, 0);
    if IndexOf(s, p, 0).None? {
      NoOccurrence(s, p, 0);
    }
  }

  lemma NormalizeNonEmpty(s: string, style: Style)
    requires s != ""
    ensures Normalize(s, style) != ""
  {
    if Normalize(s, style) == "" {
      NormalizeKeepsLines(s, style, LF);
      assert Lines("") == [""];
      LinesOfNonEmpty(s);
    }
  }

  lemma LinesOfNonEmpty(s: string)
    requires s != ""
    ensures Lines(s) != [""]
  {
    if BreakLength(s) > 0 {
      assert |Lines(s)| > 1;
    }
  }

  lemma PatternOrTail(replacement: string)
    requires replacement != ""
    ensures HasPattern(replacement) <==> PatternAt(replacement, 0) || HasPattern(replacement[1..])
  {
    var rest := replacement[1..];
    assert forall i :: i != 0 && PatternAt(replacement, i) ==> PatternAt(rest, i - 1);
    assert forall i :: PatternAt(rest, i) ==> PatternAt(replacement, i + 1);
  }

  lemma {:induction false} ExpandPlain(replacement: string, before: string, matched: string, after: string)
    requires !HasPattern(replacement)
    ensures Expand(replacement, before, matched, after) == replacement
  {
    if replacement != "" {
      PatternOrTail(replacement);
      ExpandPlain(replacement[1..], before, matched, after);
      assert replacement == [replacement[0]] + replacement[1..];
    }
  }

  lemma {:induction false} ExpandShrinks(replacement: string, before: string, matched: string, after: string)
    requires |before| <= 1 && |matched| <= 1 && |after| <= 1
    ensures |Expand(replacement, before, matched, after)| <= |replacement|
    ensures HasPattern(replacement) ==> |Expand(replacement, before, matched, after)| < |replacement|
  {
    if PatternAt(replacement, 0) {
      ExpandShrinks(replacement[2..], before, matched, after);
    } else if replacement != "" {
      PatternOrTail(replacement);
      ExpandShrinks(replacement[1..], before, matched, after);
    }
  }

  lemma {:induction false} CountDisjointStep(s: string, p: string, from: nat)
    requires p != "" && IndexOf(s, p, from).Some?
    ensures CountDisjoint(s, p, from) == 1 + CountDisjoint(s, p, IndexOf(s, p, from).value + |p|)
  {
  }

  lemma {:induction false} MatchedTwice()
    ensures Expand("$&$&", "", "a", "") == "aa"
  {
    assert "$&$&"[2..] == "$&" && "$&"[2..] == "";
    assert Expand("", "", "a", "") == "";
    assert Expand("$&", "", "a", "") == "a";
  }

  lemma NothingAround(s: string)
    ensures "" + s + "" == s
  {
  }

  lemma {:induction false} OnlyOccurrence(s: string)
    requires s != ""
    ensures IndexOf(s, s, 0) == Some(0) && CountDisjoint(s, s, 0) == 1
    ensures s[..0] == "" && s[|s|..] == ""
  {
    assert s[0..] == s && At(s, s, 0);
    assert IndexOf(s, s, |s|) == None;
    assert CountDisjoint(s, s, |s|) == 0;
  }

  // ---- Line endings survive ----

  lemma CutIsUniform(s: string, p: string, i: nat, style: Style)
    requires Uniform(s, style) && Uniform(p, style) && p != "" && At(s, p, i)
    ensures Uniform(s[..i], style) && Uniform(s[i + |p|..], style)
  {
    if style.CRLF? {
      UniformEnds(p, style);
      assert s[i] == p[0];
      if i + |p| < |s| {
        assert s[i + |p| - 1] == p[|p| - 1];
        assert BreakOk(s, i + |p|, style);
      }
    }
    PrefixIsUniform(s, i, style);
    SuffixIsUniform(s, i + |p|, style);
  }

  lemma {:induction false} ReplaceFromIsUniform(s: string, p: string, from: nat, replacement: string, style: Style)
    requires p != "" && from <= |s| && Uniform(s, style) && Uniform(s[from..], style)
    requires Uniform(p, style) && Uniform(replacement, style)
    ensures Uniform(ReplaceFrom(s, p, replacement, from), style)
    decreases |s| - from
  {
    if IndexOf(s, p, from).Some? {
      var i := IndexOf(s, p, from).value;
      CutIsUniform(s, p, i, style);
      PieceIsUniform(s, from, i, style);
      ReplaceFromIsUniform(s, p, i + |p|, replacement, style);
      UniformConcat(s[from..i], replacement, style);
      UniformConcat(s[from..i] + replacement, ReplaceFrom(s, p, replacement, i + |p|), style);
    }
  }

  lemma PieceIsUniform(s: string, from: nat, end: nat, style: Style)
    requires from <= end <= |s| && Uniform(s[from..], style) && Uniform(s[..end], style)
    ensures Uniform(s[from..end], style)
  {
    forall k | 0 <= k < end - from ensures BreakOk(s[from..end], k, style) {
      assert BreakOk(s[from..], k, style) && BreakOk(s[..end], from + k, style);
    }
  }

  lemma ReplaceAllIsUniform(s: string, p: string, replacement: string, style: Style)
    requires p != "" && Uniform(s, style) && Uniform(p, style) && Uniform(replacement, style)
    ensures Uniform(ReplaceAll(s, p, replacement), style)
  {
    assert s[0..] == s;
    ReplaceFromIsUniform(s, p, 0, replacement, style);
    JoinIsReplace(s, p, replacement, 0);
  }

  lemma {:induction false} ExpandIsUniform(replacement: string, before: string, matched: string, after: string, style: Style)
    requires Uniform(replacement, style) && Uniform(before, style) && Uniform(matched, style) && Uniform(after, style)
    ensures Uniform(Expand(replacement, before, matched, after), style)
    decreases |replacement|
  {
    if PatternAt(replacement, 0) {
      TailIsUniform(replacement, 2, style);
      ExpandIsUniform(replacement[2..], before, matched, after, style);
      var head := match replacement[1] case '$' => "$" case '&' => matched case '`' => before case _ => after;
      UniformConcat(head, Expand(replacement[2..], before, matched, after), style);
    } else if |replacement| >= 2 && replacement[0] == '\r' && replacement[1] == '\n' {
      TailIsUniform(replacement, 2, style);
      ExpandIsUniform(replacement[2..], before, matched, after, style);
      CrLfStays(replacement, before, matched, after);
      UniformConcat("\r\n", Expand(replacement[2..], before, matched, after), style);
    } else if replacement != "" {
      TailIsUniform(replacement, 1, style);
      ExpandIsUniform(replacement[1..], before, matched, after, style);
      UniformConcat([replacement[0]], Expand(replacement[1..], before, matched, after), style);
    }
  }

  /** A uniform text that starts with a whole line break, or with no line break, stays uniform without that start. */
  lemma {:induction false} TailIsUniform(s: string, n: nat, style: Style)
    requires Uniform(s, style) && 1 <= n <= 2 && n <= |s|
    requires if n == 1 then !(|s| > 1 && s[0] == '\r' && s[1] == '\n') else (s[0] == '$' && s[1] != '\r') || (s[0] == '\r' && s[1] == '\n')
    ensures Uniform(s[n..], style) && Uniform(s[..n], style) && (n == 1 ==> [s[0]] == s[..1]) && (n == 2 ==> s[..2] == [s[0], s[1]])
    ensures n == 2 && s[0] == '\r' ==> s[..2] == "\r\n"
  {
    assert BreakOk(s, 0, style);
    assert |s| > 1 ==> BreakOk(s, 1, style);
    assert |s| > 2 ==> BreakOk(s, 2, style);
    SuffixIsUniform(s, n, style);
  }

  lemma {:induction false} CrLfStays(replacement: string, before: string, matched: string, after: string)
    requires |replacement| >= 2 && replacement[0] == '\r' && replacement[1] == '\n'
    ensures Expand(replacement, before, matched, after) == "\r\n" + Expand(replacement[2..], before, matched, after)
  {
    var tail, rest := replacement[1..], Expand(replacement[2..], before, matched, after);
    assert tail[1..] == replacement[2..];
    assert Expand(tail, before, matched, after) == "\n" + rest;
    assert "\r" + ("\n" + rest) == "\r\n" + rest;
  }

  lemma ReplaceFirstIsUniform(s: string, p: string, replacement: string, style: Style)
    requires p != "" && Uniform(s, style) && Uniform(p, style) && Uniform(replacement, style)
    ensures Uniform(ReplaceFirst(s, p, replacement), style)
  {
    var found := IndexOf(s, p, 0);
    if found.Some? {
      var i := found.value;
      var before, after := s[..i], s[i + |p|..];
      CutIsUniform(s, p, i, style);
      ExpandIsUniform(replacement, before, p, after, style);
      var middle := Expand(replacement, before, p, after);
      UniformConcat(before, middle, style);
      UniformConcat(before + middle, after, style);
    }
  }

  // ---- What counting, splitting and expanding mean ----

  /** All occurrences are counted, each once. */
  lemma {:induction false} CountIsSize(s: string, p: string, from: nat)
    ensures CountAll(s, p, from) == |set i | from <= i <= |s| && At(s, p, i)|
    decreases |s| - from
  {
    var starts := set i | from <= i <= |s| && At(s, p, i);
    if from + |p| > |s| {
      assert starts == {};
    } else {
      var later := set i | from + 1 <= i <= |s| && At(s, p, i);
      CountIsSize(s, p, from + 1);
      var here: set<int> := if At(s, p, from) then {from} else {};
      forall i ensures i in starts <==> i in here || i in later {
      }
      assert starts == here + later;
    }
  }

  /** An occurrence in a slice is one in the text. */
  lemma AtInSlice(s: string, p: string, from: nat, end: nat, i: int)
    requires from <= end <= |s| && At(s[from..end], p, i)
    ensures At(s, p, from + i) && from + i + |p| <= end
  {
    var t := s[from..end];
    forall k | 0 <= k < |p| ensures s[from + i + k] == p[k] {
      assert t[i..i + |p|][k] == t[i + k] == s[from + i + k];
    }
    assert s[from + i..from + i + |p|] == p;
  }

  lemma {:induction false} SplitFromIsFree(s: string, p: string, from: nat)
    requires p != "" && from <= |s|
    ensures forall piece <- SplitFrom(s, p, from) :: Free(piece, p)
    decreases |s| - from
  {
    var i := IndexOf(s, p, from);
    IndexOfIsFirst(s, p, from);
    var end := if i.None? then |s| else i.value;
    var first := s[from..end];
    forall k ensures !At(first, p, k) {
      if At(first, p, k) {
        AtInSlice(s, p, from, end, k);
      }
    }
    assert Free(first, p);
    if i.None? {
      assert first == s[from..];
    } else {
      SplitFromIsFree(s, p, i.value + |p|);
    }
  }

  /** Expansion goes from left to right, pattern by pattern. */
  lemma {:induction false} ExpandJoins(a: string, b: string, before: string, matched: string, after: string)
    requires !HasPattern(a) && (a != "" ==> a[|a| - 1] != '$')
    ensures Expand(a + b, before, matched, after) == a + Expand(b, before, matched, after)
    decreases |a|
  {
    if a == "" {
      assert a + b == b;
    } else {
      PatternOrTail(a);
      NoPatternAtStart(a, b);
      assert (a + b)[1..] == a[1..] + b;
      ExpandJoins(a[1..], b, before, matched, after);
      assert [a[0]] + (a[1..] + Expand(b, before, matched, after)) == a + Expand(b, before, matched, after);
    }
  }

  lemma {:induction false} NoPatternAtStart(a: string, b: string)
    requires a != "" && !HasPattern(a) && a[|a| - 1] != '$'
    ensures !PatternAt(a + b, 0)
  {
    assert |a| > 1 ==> (a + b)[1] == a[1];
    assert !PatternAt(a, 0);
  }
}
