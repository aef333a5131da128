/** Lemmas about joined lines. Everything is stated on the stream of a buffer: the evicted text followed by the retained
    lines, joined by newlines. Appending text, splitting a line, evicting a line and reading from the cursor are each
    described by what they do to that stream, one line at a time; LineBuffer puts the pieces together. */
module LineLemmas {
  import opened Prelude
  import opened LineModel

  lemma {:induction false} JoinedConcat(a: seq<string>, b: seq<string>)
    requires a != [] && b != []
    ensures Joined(a + b) == Joined(a) + "\n" + Joined(b)
  {
    assert (a + b)[1..] == a[1..] + b;
    if |a| > 1 {
      JoinedConcat(a[1..], b);
    } else {
      assert a[1..] + b == b;
    }
  }

  lemma JoinedPrefix(before: seq<string>, rest: seq<string>)
    requires rest != []
    ensures Joined(before + rest) == Prefix(before) + Joined(rest)
  {
    if before == [] {
      assert before + rest == rest;
    } else {
      JoinedConcat(before, rest);
    }
  }

  lemma {:induction false} JoinedFrontLast(lines: seq<string>)
    ensures Joined(lines) == Prefix(Front(lines)) + Last(lines)
  {
    if lines != [] {
      assert lines == Front(lines) + [Last(lines)];
      JoinedPrefix(Front(lines), [Last(lines)]);
    }
  }

  lemma {:induction false} SplitLinesJoin(text: string)
    ensures Joined(SplitLines(text)) == text && AllNewlineFree(SplitLines(text))
  {
    if text != "" {
      SplitLinesJoin(text[1..]);
      var rest := SplitLines(text[1..]);
      assert text == [text[0]] + text[1..];
      if text[0] == '\n' {
        assert ([""] + rest)[1..] == rest;
      } else {
        PrependToFirst([text[0]], rest);
        assert NewlineFree(rest[0]);
      }
    }
  }

  lemma PrependToFirst(p: string, lines: seq<string>)
    requires lines != []
    ensures Joined([p + lines[0]] + lines[1..]) == p + Joined(lines)
  {
    var more := [p + lines[0]] + lines[1..];
    assert more[1..] == lines[1..];
    if |lines| > 1 {
      assert p + lines[0] + "\n" + Joined(lines[1..]) == p + (lines[0] + "\n" + Joined(lines[1..]));
    }
  }

  lemma MergeShape(lines: seq<string>, fragments: seq<string>)
    requires fragments != []
    ensures Merge(lines, fragments) == Front(lines) + ([Last(lines) + fragments[0]] + fragments[1..])
  {
    if lines == [] {
      assert "" + fragments[0] == fragments[0];
      assert fragments == [fragments[0]] + fragments[1..];
    }
  }

  lemma MergeJoins(lines: seq<string>, fragments: seq<string>)
    requires fragments != []
    ensures Joined(Merge(lines, fragments)) == Joined(lines) + Joined(fragments)
  {
    MergeShape(lines, fragments);
    JoinedPrefix(Front(lines), [Last(lines) + fragments[0]] + fragments[1..]);
    PrependToFirst(Last(lines), fragments);
    JoinedFrontLast(lines);
    assert Prefix(Front(lines)) + (Last(lines) + Joined(fragments)) == Prefix(Front(lines)) + Last(lines) + Joined(fragments);
  }

  lemma {:induction false} ChunksAreShort(line: string)
    ensures Short(Chunks(line))
    decreases |line|
  {
    if |line| > MAX_LINE_CHARS {
      ChunksAreShort(line[MAX_LINE_CHARS..]);
    }
  }

  lemma {:induction false} SplitOneLine(line: string)
    requires NewlineFree(line)
    ensures SplitLines(line + "\n") == [line, ""]
  {
    var text := line + "\n";
    if line == "" {
      assert text[1..] == "";
    } else {
      assert text[1..] == line[1..] + "\n";
      SplitOneLine(line[1..]);
      assert [line[0]] + line[1..] == line;
    }
  }

  lemma {:induction false} ChunksJoin(line: string)
    ensures Joined(Chunks(line)) == BrokenLine(line)
    decreases |line|
  {
    if |line| > MAX_LINE_CHARS {
      var rest := line[MAX_LINE_CHARS..];
      ChunksJoin(rest);
      assert Chunks(line)[1..] == Chunks(rest);
    }
  }

  lemma ForceSplitJoins(lines: seq<string>)
    requires lines != []
    ensures Joined(ForceSplit(lines)) == Prefix(Front(lines)) + BrokenLine(Last(lines))
  {
    JoinedPrefix(Front(lines), Chunks(Last(lines)));
    ChunksJoin(Last(lines));
  }

  lemma {:induction false} EvictKeepsStream(v: View)
    ensures Evict(v).Stream() == v.Stream()
    decreases |v.lines|
  {
    if v.BufferedChars() > MAX_BUFFERED_OUTPUT_CHARS && |v.lines| > 1 {
      var w := View(v.lines[1..], v.evicted + v.lines[0] + "\n", v.evictedLines + 1,
                    if v.readIndex > 0 then v.readIndex - 1 else 0, v.readOffset);
      EvictKeepsStream(w);
      assert v.evicted + v.lines[0] + "\n" + Joined(w.lines) == v.evicted + (v.lines[0] + "\n" + Joined(w.lines));
    }
  }

  lemma {:induction false} DropsFewest(lines: seq<string>)
    requires lines != []
    ensures Drops(lines) < |lines|
    ensures forall j :: 0 <= j < Drops(lines) ==> |Joined(lines[j..])| > MAX_BUFFERED_OUTPUT_CHARS
    ensures Drops(lines) < |lines| - 1 ==> |Joined(lines[Drops(lines)..])| <= MAX_BUFFERED_OUTPUT_CHARS
    decreases |lines|
  {
    assert lines[0..] == lines;
    if |Joined(lines)| > MAX_BUFFERED_OUTPUT_CHARS && |lines| > 1 {
      DropsFewest(lines[1..]);
      forall j | 0 < j <= Drops(lines) ensures lines[1..][j - 1..] == lines[j..] {
      }
    }
  }

  lemma {:induction false} EvictDrops(v: View)
    requires v.lines != []
    ensures Drops(v.lines) < |v.lines|
    ensures
      var (after, k) := (Evict(v), Drops(v.lines));
      && after.lines == v.lines[k..] && after.evictedLines == v.evictedLines + k && after.readOffset == v.readOffset
      && after.readIndex == (if v.readIndex > k then v.readIndex - k else 0)
    decreases |v.lines|
  {
    if v.BufferedChars() > MAX_BUFFERED_OUTPUT_CHARS && |v.lines| > 1 {
      var next := View(v.lines[1..], v.evicted + v.lines[0] + "\n", v.evictedLines + 1,
                       if v.readIndex > 0 then v.readIndex - 1 else 0, v.readOffset);
      EvictDrops(next);
      assert v.lines[1..][Drops(v.lines[1..])..] == v.lines[Drops(v.lines)..];
    }
  }

  lemma {:induction false} EvictCaps(v: View)
    requires v.lines != [] && |v.LastLine()| <= MAX_LINE_CHARS && AllNewlineFree(v.lines)
    ensures Capped(Evict(v)) && Evict(v).lines != []
    decreases |v.lines|
  {
    if v.BufferedChars() > MAX_BUFFERED_OUTPUT_CHARS && |v.lines| > 1 {
      EvictCaps(View(v.lines[1..], v.evicted + v.lines[0] + "\n", v.evictedLines + 1,
                     if v.readIndex > 0 then v.readIndex - 1 else 0, v.readOffset));
    }
  }

  lemma {:induction false} ChunksNewlineFree(line: string)
    requires NewlineFree(line)
    ensures AllNewlineFree(Chunks(line))
    decreases |line|
  {
    if |line| > MAX_LINE_CHARS {
      ChunksNewlineFree(line[MAX_LINE_CHARS..]);
    }
  }

  lemma MergeNewlineFree(lines: seq<string>, fragments: seq<string>)
    requires fragments != [] && AllNewlineFree(lines) && AllNewlineFree(fragments)
    ensures AllNewlineFree(Merge(lines, fragments))
  {
    if lines != [] {
      assert NewlineFree(lines[|lines| - 1]) && NewlineFree(fragments[0]);
      assert NewlineFree(lines[|lines| - 1] + fragments[0]);
    }
  }

  lemma {:induction false} BrokenLineExtends(line: string, n: nat)
    requires n <= |line| && n <= MAX_LINE_CHARS
    ensures n <= |BrokenLine(line)| && BrokenLine(line)[..n] == line[..n]
  {
    if |line| > MAX_LINE_CHARS {
      var head, rest := line[..MAX_LINE_CHARS], BrokenLine(line[MAX_LINE_CHARS..]);
      FrontOfThree(head, "\n", rest, n);
      assert head[..n] == line[..n];
    }
  }

  lemma FrontOfThree(a: string, b: string, c: string, n: nat)
    requires n <= |a|
    ensures (a + b + c)[..n] == a[..n]
  {
  }

  lemma {:induction false} SplitLinesAt(text: string, k: nat)
    requires k <= |text| && NewlineFree(text[k..]) && (k > 0 ==> text[k - 1] == '\n')
    ensures
      var lines := SplitLines(text);
      && lines[|lines| - 1] == text[k..]
      && (k == 0 ==> |lines| == 1)
      && (k > 0 ==> |lines| > 1 && Joined(lines[..|lines| - 1]) + "\n" == text[..k])
    decreases |text|
  {
    var lines := SplitLines(text);
    if text == "" {
    } else if k == 0 {
      assert text[0..] == text;
      assert NewlineFree(text[1..][0..]);
      SplitLinesAt(text[1..], 0);
      assert [text[0]] + text[1..] == text;
    } else {
      var rest := SplitLines(text[1..]);
      assert text[1..][k - 1..] == text[k..];
      SplitLinesAt(text[1..], k - 1);
      assert text[..k] == [text[0]] + text[1..][..k - 1];
      var front := rest[..|rest| - 1];
      if text[0] == '\n' {
        assert lines == [""] + rest;
        assert lines[..|lines| - 1] == [""] + front;
        if k > 1 {
          assert ([""] + front)[1..] == front;
          assert "" + "\n" + Joined(front) + "\n" == ['\n'] + (Joined(front) + "\n");
        } else {
          assert front == [];
        }
      } else {
        assert lines[..|lines| - 1] == [[text[0]] + front[0]] + front[1..];
        PrependToFirst([text[0]], front);
        assert [text[0]] + Joined(front) + "\n" == [text[0]] + (Joined(front) + "\n");
      }
    }
  }

  lemma RenderedOneLine(last: string, text: string)
    requires |last| <= MAX_LINE_CHARS && LastLineStart(text) == 0
    ensures last + Rendered(last, text) == BrokenLine(last + text)
  {
    BrokenLineExtends(last + text, |last|);
    assert (last + text)[..|last|] == last;
  }

  lemma AppendOneLine(lines: seq<string>, text: string)
    requires |Last(lines)| <= MAX_LINE_CHARS && LastLineStart(text) == 0
    ensures Joined(ForceSplit(Merge(lines, SplitLines(text)))) == Joined(lines) + Rendered(Last(lines), text)
  {
    SplitLinesAt(text, 0);
    assert text[0..] == text && SplitLines(text) == [text] && [text][1..] == [];
    var last, merged := Last(lines), Merge(lines, [text]);
    MergeShape(lines, [text]);
    assert [last + text] + [] == [last + text];
    assert Front(merged) == Front(lines) && Last(merged) == last + text;
    ForceSplitJoins(merged);
    RenderedOneLine(last, text);
    JoinedFrontLast(lines);
    Assoc(Prefix(Front(lines)), last, Rendered(last, text));
  }

  lemma Assoc(a: string, b: string, c: string)
    ensures a + (b + c) == a + b + c
  {
  }

  lemma AppendMoreLines(lines: seq<string>, text: string)
    requires LastLineStart(text) > 0
    ensures Joined(ForceSplit(Merge(lines, SplitLines(text)))) == Joined(lines) + Rendered(Last(lines), text)
  {
    var k, fragments := LastLineStart(text), SplitLines(text);
    SplitLinesAt(text, k);
    var front, merged := Front(fragments), Merge(lines, fragments);
    FrontOfMerge(lines, fragments);
    ForceSplitJoins(merged);
    MergeJoins(lines, front);
    Assoc(Joined(lines), Joined(front), "\n");
    Assoc(Joined(lines), text[..k], BrokenLine(text[k..]));
  }

  lemma FrontOfMerge(lines: seq<string>, fragments: seq<string>)
    requires |fragments| > 1
    ensures Front(Merge(lines, fragments)) == Merge(lines, Front(fragments))
    ensures Last(Merge(lines, fragments)) == Last(fragments)
  {
  }

  // ---- The rendered text is the appended text with breaks at forced splits only ----

  lemma {:induction false} ChunksCut(line: string)
    ensures Flatten(Chunks(line)) == line
    ensures forall i :: 0 <= i < |Chunks(line)| - 1 ==> |Chunks(line)[i]| == MAX_LINE_CHARS
    decreases |line|
  {
    if |line| > MAX_LINE_CHARS {
      ChunksCut(line[MAX_LINE_CHARS..]);
      assert Chunks(line)[1..] == Chunks(line[MAX_LINE_CHARS..]);
    } else {
      assert [line][1..] == [];
    }
  }

  lemma {:induction false} LastLineStartsAfter(before: string, line: string)
    requires NewlineFree(line) && (before == "" || before[|before| - 1] == '\n')
    ensures LastLineStart(before + line) == |before|
    decreases |line|
  {
    var text := before + line;
    if line == "" {
      assert text == before;
    } else {
      assert text[|text| - 1] == line[|line| - 1];
      assert text[..|text| - 1] == before + line[..|line| - 1];
      LastLineStartsAfter(before, line[..|line| - 1]);
    }
  }

  lemma {:induction false} CurrentLineAfter(before: string, line: string)
    requires NewlineFree(line) && (before == "" || before[|before| - 1] == '\n')
    ensures CurrentLine(before + line) == line
  {
    LastLineStartsAfter(before, line);
    assert (before + line)[|before|..] == line;
  }

  lemma PiecesOfOneLine(last: string, text: string) returns (pieces: seq<string>)
    requires |last| <= MAX_LINE_CHARS && NewlineFree(last) && LastLineStart(text) == 0
    ensures pieces != [] && last + pieces[0] == Chunks(last + text)[0] && pieces[1..] == Chunks(last + text)[1..]
    ensures Flatten(pieces) == text && Joined(pieces) == Rendered(last, text)
  {
    var chunks := Chunks(last + text);
    ChunksCut(last + text);
    ChunksJoin(last + text);
    assert (last + text)[..|last|] == last;
    assert last <= chunks[0];
    var first := chunks[0][|last|..];
    pieces := [first] + chunks[1..];
    assert last + first == chunks[0] && pieces[1..] == chunks[1..];
    PrependToFirst(last, pieces);
    assert [last + pieces[0]] + pieces[1..] == chunks;
    RenderedOneLine(last, text);
    Cancel(last, Joined(pieces), Rendered(last, text));
    Assoc(last, first, Flatten(chunks[1..]));
    Cancel(last, Flatten(pieces), text);
  }

  lemma PiecesOfMoreLines(text: string) returns (pieces: seq<string>)
    requires LastLineStart(text) > 0
    ensures
      var k := LastLineStart(text);
      && pieces != [] && pieces[0] == text[..k] + Chunks(text[k..])[0] && pieces[1..] == Chunks(text[k..])[1..]
      && Joined(pieces) == text[..k] + BrokenLine(text[k..])
    ensures Flatten(pieces) == text
  {
    var k := LastLineStart(text);
    var chunks := Chunks(text[k..]);
    ChunksCut(text[k..]);
    ChunksJoin(text[k..]);
    PrependToFirst(text[..k], chunks);
    pieces := [text[..k] + chunks[0]] + chunks[1..];
    assert pieces[1..] == chunks[1..];
    Assoc(text[..k], chunks[0], Flatten(chunks[1..]));
    assert text[..k] + text[k..] == text;
  }

  lemma TailsAgree(a: seq<string>, b: seq<string>)
    requires a != [] && b != [] && a[1..] == b[1..]
    ensures |a| == |b| && forall i :: 0 < i < |a| ==> a[i] == b[i]
  {
    assert forall i :: 0 < i < |a| ==> a[i] == a[1..][i - 1];
    assert forall i :: 0 < i < |b| ==> b[i] == b[1..][i - 1];
  }

  lemma Cancel(a: string, b: string, c: string)
    requires a + b == a + c
    ensures b == c
  {
    assert (a + b)[|a|..] == b && (a + c)[|a|..] == c;
  }

  lemma PrefixStep(lines: seq<string>)
    requires lines != []
    ensures Prefix(lines) == Prefix(Front(lines)) + (Last(lines) + "\n")
  {
    JoinedFrontLast(lines);
  }

  lemma RotateNewline(line: string)
    requires NewlineFree(line)
    ensures "\n" + line == line + "\n" <==> line == ""
  {
    if line != "" {
      assert ("\n" + line)[0] == '\n' && (line + "\n")[0] == line[0];
    }
  }

  /** What is collected for r characters has the length of the true tail, and is the true tail exactly when that is all
      newlines. */
  ghost predicate Exact(found: string, truth: string) {
    |found| == |truth| && (found == truth <==> AllNewlines(truth))
  }

  /** One whole line collected on each side, after what precedes it. */
  lemma {:induction false} WholeLineCollected(found: string, truth: string, line: string, more: string, whole: string)
    requires NewlineFree(line) && Exact(found, truth)
    requires more == found + ("\n" + line) && whole == truth + (line + "\n")
    ensures Exact(more, whole)
  {
    RotateNewline(line);
    SameCut(found, "\n" + line, truth, line + "\n");
    NewlinesConcat(truth, line + "\n");
    NewlinesConcat(line, "\n");
  }

  lemma TailOfConcat(a: string, b: string, r: nat)
    ensures TailOf(a + b, r) == if r >= |b| then TailOf(a, r - |b|) + b else TailOf(b, r)
  {
  }

  lemma {:induction false} WholeLineTail(lines: seq<string>, r: nat)
    requires lines != [] && r >= |Last(lines)| + 1
    ensures TailOf(NewlinesLast(lines), r) == TailOf(NewlinesLast(Front(lines)), r - |Last(lines)| - 1) + (Last(lines) + "\n")
  {
    NewlinesLastUnfold(lines);
    WholeTail(NewlinesLast(Front(lines)), Last(lines), r);
  }

  lemma {:induction false} NewlinesLastUnfold(lines: seq<string>)
    requires lines != []
    ensures NewlinesLast(lines) == NewlinesLast(Front(lines)) + (Last(lines) + "\n")
  {
  }

  lemma {:induction false} WholeTail(before: string, line: string, r: nat)
    requires r >= |line| + 1
    ensures TailOf(before + (line + "\n"), r) == TailOf(before, r - |line| - 1) + (line + "\n")
  {
    TailOfConcat(before, line + "\n", r);
  }

  lemma {:induction false} PartTail(before: string, line: string, r: nat)
    requires 0 < r <= |line|
    ensures TailOf(before + (line + "\n"), r) == TailOf(line, r - 1) + "\n"
  {
    TailOfConcat(before, line + "\n", r);
    TailOfConcat(line, "\n", r);
  }

  lemma {:induction false} PartLineTail(lines: seq<string>, r: nat)
    requires lines != [] && 0 < r <= |Last(lines)|
    ensures TailOf(NewlinesLast(lines), r) == TailOf(Last(lines), r - 1) + "\n"
  {
    NewlinesLastUnfold(lines);
    PartTail(NewlinesLast(Front(lines)), Last(lines), r);
  }

  lemma {:induction false} PrefixIsNewlinesLast(lines: seq<string>)
    ensures Prefix(lines) == NewlinesLast(lines)
    decreases |lines|
  {
    if lines != [] {
      PrefixStep(lines);
      PrefixIsNewlinesLast(Front(lines));
    }
  }

  lemma {:induction false} PartsAreFree(lines: seq<string>, r: nat)
    requires AllNewlineFree(lines)
    ensures AllNewlineFree(TailParts(lines, r))
    decreases |lines|
  {
    if lines != [] && r > 0 {
      FrontIsFree(lines);
      if r >= |Last(lines)| + 1 {
        PartsAreFree(Front(lines), r - |Last(lines)| - 1);
      }
    }
  }

  lemma {:induction false} NothingOf(s: string)
    ensures TailOf(s, 0) == "" && TailOf("", 0) == ""
  {
    assert s[|s|..] == "";
  }

  lemma {:induction false} TailPartsWhole(lines: seq<string>, r: nat)
    requires lines != [] && r >= |Last(lines)| + 1
    ensures TailParts(lines, r) == TailParts(Front(lines), r - |Last(lines)| - 1) + [Last(lines)]
  {
  }

  lemma {:induction false} TailPartsPart(lines: seq<string>, r: nat)
    requires lines == [] || r <= |Last(lines)|
    ensures TailParts(lines, r) == if lines == [] || r == 0 then [] else [TailOf(Last(lines), r - 1)]
  {
  }

  lemma {:induction false} OneMoreTail(tail: string, rest: string, line: string, more: seq<string>, parts: seq<string>)
    requires tail == rest + (line + "\n") && rest == NewlinesLast(more) && parts == more + [line]
    ensures tail == NewlinesLast(parts)
  {
    OneMorePart(more, line);
  }

  lemma {:induction false} OneMoreFound(found: string, rest: string, line: string, more: seq<string>, parts: seq<string>)
    requires found == rest + ("\n" + line) && rest == NewlinesFirst(more) && parts == more + [line]
    ensures found == NewlinesFirst(parts)
  {
    OneMorePart(more, line);
  }

  lemma {:induction false} PartsAreTail(lines: seq<string>, r: nat)
    ensures TailOf(NewlinesLast(lines), r) == NewlinesLast(TailParts(lines, r))
    decreases |lines|
  {
    if lines != [] && r >= |Last(lines)| + 1 {
      PartsAreTail(Front(lines), r - |Last(lines)| - 1);
      WholeLineTail(lines, r);
      TailPartsWhole(lines, r);
      var (more, rest) := (TailParts(Front(lines), r - |Last(lines)| - 1), TailOf(NewlinesLast(Front(lines)), r - |Last(lines)| - 1));
      OneMoreTail(TailOf(NewlinesLast(lines), r), rest, Last(lines), more, TailParts(lines, r));
    } else {
      TailPartsPart(lines, r);
      PartIsTail(lines, r);
    }
  }

  lemma {:induction false} PartIsTail(lines: seq<string>, r: nat)
    requires lines == [] || r <= |Last(lines)|
    ensures TailOf(NewlinesLast(lines), r) == NewlinesLast(if lines == [] || r == 0 then [] else [TailOf(Last(lines), r - 1)])
  {
    NothingOf(NewlinesLast(lines));
    if lines != [] && r > 0 {
      PartLineTail(lines, r);
      OnePart(TailOf(Last(lines), r - 1));
    }
  }

  lemma {:induction false} PartsAreCollected(lines: seq<string>, r: nat)
    ensures CollectMid(lines, r) == NewlinesFirst(TailParts(lines, r))
    decreases |lines|
  {
    if lines != [] && r >= |Last(lines)| + 1 {
      PartsAreCollected(Front(lines), r - |Last(lines)| - 1);
      WholeLineMid(lines, r);
      TailPartsWhole(lines, r);
      var (more, rest) := (TailParts(Front(lines), r - |Last(lines)| - 1), CollectMid(Front(lines), r - |Last(lines)| - 1));
      OneMoreFound(CollectMid(lines, r), rest, Last(lines), more, TailParts(lines, r));
    } else {
      TailPartsPart(lines, r);
      PartIsCollected(lines, r);
    }
  }

  lemma {:induction false} PartIsCollected(lines: seq<string>, r: nat)
    requires lines == [] || r <= |Last(lines)|
    ensures CollectMid(lines, r) == NewlinesFirst(if lines == [] || r == 0 then [] else [TailOf(Last(lines), r - 1)])
  {
    if lines != [] && r > 0 {
      OnePart(TailOf(Last(lines), r - 1));
    }
  }

  /** Moving the newlines changes nothing exactly when there is nothing but newlines. */
  lemma {:induction false} NewlinesMoved(parts: seq<string>)
    requires AllNewlineFree(parts)
    ensures Exact(NewlinesFirst(parts), NewlinesLast(parts))
    decreases |parts|
  {
    if parts != [] {
      FrontIsFree(parts);
      NewlinesMoved(Front(parts));
      WholeLineCollected(NewlinesFirst(Front(parts)), NewlinesLast(Front(parts)), Last(parts), NewlinesFirst(parts), NewlinesLast(parts));
    }
  }

  lemma {:induction false} CollectMidExact(lines: seq<string>, r: nat)
    requires AllNewlineFree(lines)
    ensures Exact(CollectMid(lines, r), TailOf(NewlinesLast(lines), r))
  {
    PartsAreFree(lines, r);
    PartsAreTail(lines, r);
    PartsAreCollected(lines, r);
    NewlinesMoved(TailParts(lines, r));
  }

  lemma {:induction false} OneMorePart(parts: seq<string>, part: string)
    ensures NewlinesLast(parts + [part]) == NewlinesLast(parts) + (part + "\n")
    ensures NewlinesFirst(parts + [part]) == NewlinesFirst(parts) + ("\n" + part)
  {
    var more := parts + [part];
    assert Front(more) == parts && Last(more) == part;
  }

  lemma {:induction false} OnePart(part: string)
    ensures NewlinesLast([part]) == part + "\n" && NewlinesFirst([part]) == "\n" + part
  {
    assert Front([part]) == [] && Last([part]) == part;
    assert "" + ("\n" + part) == "\n" + part && "" + (part + "\n") == part + "\n";
  }

  lemma {:induction false} MoreAreFree(parts: seq<string>, part: string)
    requires AllNewlineFree(parts) && NewlineFree(part)
    ensures AllNewlineFree(parts + [part]) && [] + [part] == [part]
  {
  }

  lemma {:induction false} NewPartsAreFree(lines: seq<string>, newChars: nat)
    requires AllNewlineFree(lines)
    ensures AllNewlineFree(NewParts(lines, newChars))
  {
    if lines != [] {
      FrontIsFree(lines);
      if newChars >= |Last(lines)| {
        PartsAreFree(Front(lines), newChars - |Last(lines)|);
      }
    }
  }

  lemma {:induction false} NewPartsAreTruth(lines: seq<string>, newChars: nat)
    ensures TailOf(Joined(lines), newChars) == Joined(NewParts(lines, newChars))
  {
    if lines != [] {
      if newChars >= |Last(lines)| {
        var r := newChars - |Last(lines)|;
        LastLineTail(lines, newChars);
        PartsAreTail(Front(lines), r);
        PrefixIsNewlinesLast(TailParts(Front(lines), r));
        JoinedPrefix(TailParts(Front(lines), r), [Last(lines)]);
      } else {
        WithinLastLine(lines, newChars);
      }
    }
  }

  lemma {:induction false} NewPartsAreFound(lines: seq<string>, newChars: nat)
    ensures NewOutput(OutputSince(lines, newChars), NewParts(lines, newChars))
  {
    if lines == [] {
      AfterParts([], "", "", "");
    } else if newChars >= |Last(lines)| {
      ManyNewParts(lines, newChars);
    } else {
      WithinFound(lines, newChars);
      AfterParts([], "", TailOf(Last(lines), newChars), OutputSince(lines, newChars));
    }
  }

  /** All newlines but the last part's before their part. */
  ghost predicate NewOutput(found: string, parts: seq<string>) {
    parts != [] && found == NewlinesFirst(Front(parts)) + Last(parts)
  }

  lemma {:induction false} ManyNewParts(lines: seq<string>, newChars: nat)
    requires lines != [] && newChars >= |Last(lines)|
    ensures NewOutput(OutputSince(lines, newChars), TailParts(Front(lines), newChars - |Last(lines)|) + [Last(lines)])
  {
    var (r, last, found) := (newChars - |Last(lines)|, Last(lines), OutputSince(lines, newChars));
    LastLineFound(lines, newChars);
    PartsAreCollected(Front(lines), r);
    AfterParts(TailParts(Front(lines), r), CollectMid(Front(lines), r), last, found);
  }

  lemma {:induction false} AfterParts(mid: seq<string>, moved: string, last: string, found: string)
    requires moved == NewlinesFirst(mid) && (found == moved + last || (mid == [] && found == last))
    ensures NewOutput(found, mid + [last]) && [] + [last] == [last]
  {
    assert Front(mid + [last]) == mid && "" + last == last;
  }

  lemma {:induction false} FrontIsFree(lines: seq<string>)
    requires lines != [] && AllNewlineFree(lines)
    ensures AllNewlineFree(Front(lines)) && NewlineFree(Last(lines))
  {
  }

  lemma {:induction false} WholeLineMid(lines: seq<string>, r: nat)
    requires lines != [] && r >= |Last(lines)| + 1
    ensures CollectMid(lines, r) == CollectMid(Front(lines), r - |Last(lines)| - 1) + ("\n" + Last(lines))
  {
  }

  lemma SameCut(a: string, b: string, c: string, d: string)
    requires |a| == |c|
    ensures a + b == c + d <==> a == c && b == d
  {
    if a + b == c + d {
      assert (a + b)[..|a|] == a && (c + d)[..|c|] == c;
      assert (a + b)[|a|..] == b && (c + d)[|c|..] == d;
    }
  }

  lemma NewlinesConcat(a: string, b: string)
    ensures AllNewlines(a + b) <==> AllNewlines(a) && AllNewlines(b)
    ensures NewlineFree(a) ==> (AllNewlines(a) <==> a == "")
  {
    assert forall i :: 0 <= i < |a| ==> (a + b)[i] == a[i];
    assert forall i :: 0 <= i < |b| ==> (a + b)[|a| + i] == b[i];
    if NewlineFree(a) && a != "" {
      assert a[0] != '\n';
    }
  }

  lemma MidThenLast(found: string, mid: string, last: string)
    requires Exact(found, mid)
    ensures found + last == mid + last <==> forall i :: 0 <= i < |mid + last| - |last| ==> (mid + last)[i] == '\n'
  {
    SameCut(found, last, mid, last);
    assert forall i :: 0 <= i < |mid| ==> (mid + last)[i] == mid[i];
  }

  lemma {:induction false} LastLineTail(lines: seq<string>, newChars: nat)
    requires lines != [] && newChars >= |Last(lines)|
    ensures TailOf(Joined(lines), newChars) == TailOf(NewlinesLast(Front(lines)), newChars - |Last(lines)|) + Last(lines)
  {
    JoinedFrontLast(lines);
    PrefixIsNewlinesLast(Front(lines));
    var (front, last) := (NewlinesLast(Front(lines)), Last(lines));
    TailOfConcat(front, last, newChars);
  }

  lemma {:induction false} LastLineFound(lines: seq<string>, newChars: nat)
    requires lines != [] && newChars >= |Last(lines)|
    ensures OutputSince(lines, newChars) == CollectMid(Front(lines), newChars - |Last(lines)|) + Last(lines)
  {
    NothingFound(Front(lines), Last(lines));
  }

  lemma {:induction false} NothingFound(lines: seq<string>, last: string)
    ensures CollectMid(lines, 0) + last == last
  {
  }

  lemma {:induction false} WithinLastLine(lines: seq<string>, newChars: nat)
    requires lines != [] && newChars <= |Last(lines)|
    ensures TailOf(Joined(lines), newChars) == TailOf(Last(lines), newChars) == OutputSince(lines, newChars)
  {
    JoinedFrontLast(lines);
    TailOfConcat(Prefix(Front(lines)), Last(lines), newChars);
  }

  lemma {:induction false} WithinFound(lines: seq<string>, newChars: nat)
    requires lines != [] && newChars < |Last(lines)|
    ensures OutputSince(lines, newChars) == TailOf(Last(lines), newChars)
  {
    NothingOf(Last(lines));
  }

  lemma {:induction false} OutputSinceExact(lines: seq<string>, newChars: nat)
    requires AllNewlineFree(lines)
    ensures
      var truth, found := TailOf(Joined(lines), newChars), OutputSince(lines, newChars);
      && |found| == |truth|
      && (found == truth <==> forall i :: 0 <= i < |truth| - |Last(lines)| ==> truth[i] == '\n')
  {
    if lines == [] {
    } else if newChars >= |Last(lines)| {
      var r := newChars - |Last(lines)|;
      LastLineTail(lines, newChars);
      LastLineFound(lines, newChars);
      CollectMidExact(Front(lines), r);
      MidThenLast(CollectMid(Front(lines), r), TailOf(NewlinesLast(Front(lines)), r), Last(lines));
    } else {
      WithinLastLine(lines, newChars);
    }
  }

  lemma {:induction false} OutputSinceIs(lines: seq<string>, newChars: nat, truth: string)
    requires AllNewlineFree(lines) && truth == TailOf(Joined(lines), newChars)
    ensures |OutputSince(lines, newChars)| == |truth|
    ensures OutputSince(lines, newChars) == truth <==> forall i :: 0 <= i < |truth| - |Last(lines)| ==> truth[i] == '\n'
  {
    OutputSinceExact(lines, newChars);
  }

  lemma {:induction false} StreamTail(v: View, snapshot: nat)
    requires snapshot <= |v.Stream()|
    ensures v.Stream()[if snapshot > |v.evicted| then snapshot else |v.evicted|..] ==
      TailOf(Joined(v.lines), |v.Stream()| - snapshot)
  {
  }

  lemma ReadNewIs(v: View, length: nat, first: string, tail: seq<string>)
    requires v.lines != [] && (first, tail) == Window(v, length)
    ensures
      var out := if first != "" || tail == [] then [first] + tail else tail;
      var n := |v.lines|;
      var index := if StartLine(v) + |out| - 1 < n - 1 then StartLine(v) + |out| - 1 else n - 1;
      ReadNew(v, length) == (v.(readIndex := index, readOffset := |v.lines[index]|), out)
  {
  }

  /** The lines before m, cut at offset off of line i. */
  lemma WindowSplit(lines: seq<string>, i: nat, off: nat, m: nat)
    requires i < m <= |lines| && off <= |lines[i]|
    ensures Joined(lines[..m]) == Prefix(lines[..i]) + lines[i][..off] + Joined([lines[i][off..]] + lines[i + 1..m])
  {
    var head := lines[i][..off];
    var rest := [lines[i][off..]] + lines[i + 1..m];
    assert head + lines[i][off..] == lines[i] && rest[1..] == lines[i + 1..m];
    PrependToFirst(head, rest);
    assert lines[..m] == lines[..i] + ([lines[i]] + lines[i + 1..m]);
    JoinedPrefix(lines[..i], [lines[i]] + lines[i + 1..m]);
    Assoc(Prefix(lines[..i]), head, Joined(rest));
  }

  lemma {:induction false} LineStartIsPrefix(lines: seq<string>, i: nat)
    requires i <= |lines|
    ensures LineStart(lines, i) == |Prefix(lines[..i])|
  {
    if i > 0 {
      LineStartIsPrefix(lines, i - 1);
      PrefixStep(lines[..i]);
      assert Front(lines[..i]) == lines[..i - 1];
    }
  }

  lemma {:induction false} LineStartGrows(lines: seq<string>, i: nat, j: nat)
    requires i < j <= |lines|
    ensures LineStart(lines, i) + |lines[i]| < LineStart(lines, j)
  {
    if i < j - 1 {
      LineStartGrows(lines, i, j - 1);
    }
  }

  /** Lines before i decide where line i starts. */
  lemma {:induction false} LineStartAgrees(a: seq<string>, b: seq<string>, i: nat)
    requires i <= |a| && i <= |b| && forall k :: 0 <= k < i ==> a[k] == b[k]
    ensures LineStart(a, i) == LineStart(b, i)
  {
    if i > 0 {
      LineStartAgrees(a, b, i - 1);
    }
  }

  lemma {:induction false} LineStartShifts(lines: seq<string>, i: nat)
    requires 0 < i <= |lines|
    ensures LineStart(lines, i) == |lines[0]| + 1 + LineStart(lines[1..], i - 1)
  {
    if i > 1 {
      LineStartShifts(lines, i - 1);
      assert lines[1..][i - 2] == lines[i - 1];
    }
  }

  lemma LastLineEnds(lines: seq<string>)
    requires lines != []
    ensures LineStart(lines, |lines| - 1) + |Last(lines)| == |Joined(lines)|
  {
    LineStartIsPrefix(lines, |lines| - 1);
    JoinedFrontLast(lines);
  }

  /** Where the window ends. */
  lemma {:induction false} WindowPosition(lines: seq<string>, i: nat, off: nat, m: nat)
    requires i < m <= |lines| && off <= |lines[i]|
    ensures LineStart(lines, i) + off + |TextFrom(lines, i, off, m)| == LineStart(lines, m - 1) + |lines[m - 1]|
  {
    WindowSplit(lines, i, off, m);
    LineStartIsPrefix(lines, i);
    LastLineEnds(lines[..m]);
    LineStartAgrees(lines, lines[..m], m - 1);
  }

  /** What the window's text is. */
  lemma {:induction false} WindowText(lines: seq<string>, i: nat, off: nat, m: nat)
    requires i < m <= |lines| && off <= |lines[i]|
    ensures
      var shown := TextFrom(lines, i, off, m);
      var at := LineStart(lines, i) + off;
      at + |shown| <= |Joined(lines)| && Joined(lines)[at..at + |shown|] == shown
  {
    WindowSplit(lines, i, off, m);
    JoinedGrows(lines, m);
    LineStartIsPrefix(lines, i);
    SliceOfPrefix(Prefix(lines[..i]) + lines[i][..off], TextFrom(lines, i, off, m), Joined(lines));
  }

  lemma SliceOfPrefix(a: string, b: string, whole: string)
    requires a + b <= whole
    ensures |a| + |b| <= |whole| && whole[|a|..|a| + |b|] == b
  {
    assert whole[..|a| + |b|] == a + b;
    assert whole[|a|..|a| + |b|] == (a + b)[|a|..];
  }

  lemma JoinedGrows(lines: seq<string>, m: nat)
    requires 0 < m <= |lines|
    ensures Joined(lines[..m]) <= Joined(lines)
  {
    var front, back := lines[..m], lines[m..];
    assert lines == front + back;
    if back == [] {
      assert lines == front;
    } else {
      JoinedConcat(front, back);
      Assoc(Joined(front), "\n", Joined(back));
      IsPrefix(Joined(front), "\n" + Joined(back));
    }
  }

  lemma IsPrefix(a: string, b: string)
    ensures a <= a + b
  {
  }

  /** The line a read leaves the cursor in. */
  lemma {:induction false} IndexAfterRead(v: View, length: nat)
    requires v.lines != [] && CursorOk(v)
    ensures
      var index := WindowEnd(v, length) - if Passes(v, length) then 2 else 1;
      && 0 <= index < |v.lines|
      && ReadNew(v, length).0 == v.(readIndex := index, readOffset := |v.lines[index]|)
  {
  }

  lemma {:induction false} ReadMovesCursor(v: View, length: nat)
    requires v.lines != [] && CursorOk(v)
    ensures
      var after := ReadNew(v, length).0;
      && CursorOk(after) && Cursor(v) <= Cursor(after) <= Cursor(v) + |Shown(v, length)|
      && (Cursor(after) < Cursor(v) + |Shown(v, length)| <==> Passes(v, length))
  {
    IndexAfterRead(v, length);
    var m := WindowEnd(v, length);
    WindowPosition(v.lines, v.readIndex, v.readOffset, m);
    if Passes(v, length) && v.readIndex < m - 2 {
      LineStartGrows(v.lines, v.readIndex, m - 2);
    }
  }

  lemma ShownIsStreamText(v: View, length: nat)
    requires v.lines != [] && CursorOk(v)
    ensures
      var shown := Shown(v, length);
      Cursor(v) + |shown| <= |v.Stream()| && v.Stream()[Cursor(v)..Cursor(v) + |shown|] == shown
  {
    WindowText(v.lines, v.readIndex, v.readOffset, WindowEnd(v, length));
    var at, shown := LineStart(v.lines, v.readIndex) + v.readOffset, Shown(v, length);
    SliceAfter(v.evicted, Joined(v.lines), at, at + |shown|);
  }

  lemma ShownIsHandedOver(v: View, length: nat)
    requires v.lines != [] && CursorOk(v)
    ensures
      Shown(v, length) == if Passes(v, length) then "\n" + Joined(ReadNew(v, length).1) else Joined(ReadNew(v, length).1)
  {
    var (first, tail) := Window(v, length);
    assert ([first] + tail)[1..] == tail;
  }

  lemma SliceAfter(a: string, b: string, lo: nat, hi: nat)
    requires lo <= hi <= |b|
    ensures (a + b)[|a| + lo..|a| + hi] == b[lo..hi]
  {
  }

  lemma {:induction false} EvictCursor(v: View)
    requires CursorOk(v)
    ensures
      var after := Evict(v);
      var dropped := after.evictedLines - v.evictedLines;
      && dropped >= 0 && after.readIndex <= |after.lines| && after.readOffset == v.readOffset
      && (dropped <= v.readIndex ==> CursorOk(after) && Cursor(after) == Cursor(v))
      && (dropped > v.readIndex ==> after.readIndex == 0 && Cursor(v) < |after.evicted|)
    decreases |v.lines|
  {
    if v.BufferedChars() > MAX_BUFFERED_OUTPUT_CHARS && |v.lines| > 1 {
      var w := View(v.lines[1..], v.evicted + v.lines[0] + "\n", v.evictedLines + 1,
                    if v.readIndex > 0 then v.readIndex - 1 else 0, v.readOffset);
      if v.readIndex > 0 {
        LineStartShifts(v.lines, v.readIndex);
        EvictCursor(w);
      } else {
        EvictOnlyGrows(w);
      }
    }
  }

  lemma {:induction false} EvictOnlyGrows(v: View)
    ensures |v.evicted| <= |Evict(v).evicted| && v.evictedLines <= Evict(v).evictedLines
    ensures v.readIndex == 0 ==> Evict(v).readIndex == 0
    ensures Evict(v).readOffset == v.readOffset
    decreases |v.lines|
  {
    if v.BufferedChars() > MAX_BUFFERED_OUTPUT_CHARS && |v.lines| > 1 {
      EvictOnlyGrows(View(v.lines[1..], v.evicted + v.lines[0] + "\n", v.evictedLines + 1,
                          if v.readIndex > 0 then v.readIndex - 1 else 0, v.readOffset));
    }
  }

  /** Eviction reaches line r exactly when what starts there is over the cap. */
  lemma {:induction false} EvictReaches(v: View, r: nat)
    requires r < |v.lines| && |v.LastLine()| <= MAX_BUFFERED_OUTPUT_CHARS
    ensures Evict(v).evictedLines - v.evictedLines <= r <==> |Joined(v.lines[r..])| <= MAX_BUFFERED_OUTPUT_CHARS
    decreases |v.lines|
  {
    if v.BufferedChars() > MAX_BUFFERED_OUTPUT_CHARS && |v.lines| > 1 {
      var w := View(v.lines[1..], v.evicted + v.lines[0] + "\n", v.evictedLines + 1,
                    if v.readIndex > 0 then v.readIndex - 1 else 0, v.readOffset);
      if r == 0 {
        EvictOnlyGrows(w);
        assert v.lines[0..] == v.lines;
      } else {
        EvictReaches(w, r - 1);
        assert w.lines[r - 1..] == v.lines[r..];
      }
    } else if |v.lines| > 1 {
      JoinedFallsFrom(v.lines, r);
    }
  }

  lemma {:induction false} JoinedFallsFrom(lines: seq<string>, r: nat)
    requires r < |lines|
    ensures |Joined(lines[r..])| <= |Joined(lines)|
  {
    if r == 0 {
      assert lines[0..] == lines;
    } else {
      JoinedFallsFrom(lines[1..], r - 1);
      assert lines[1..][r - 1..] == lines[r..];
    }
  }

  /** From line r on, the new text is added to what was there. */
  lemma {:induction false} AppendedFrom(lines: seq<string>, text: string, r: nat)
    requires (r < |lines| || r == |lines| == 0) && |Last(lines)| <= MAX_LINE_CHARS && text != ""
    ensures
      var after := ForceSplit(Merge(lines, SplitLines(text)));
      && r < |after|
      && |Joined(after[r..])| == |Joined(lines[r..])| + |Rendered(Last(lines), text)|
  {
    var after, rest := ForceSplit(Merge(lines, SplitLines(text))), lines[r..];
    SuffixAppends(lines, SplitLines(text), r);
    assert Last(rest) == Last(lines);
    if LastLineStart(text) == 0 {
      AppendOneLine(rest, text);
    } else {
      AppendMoreLines(rest, text);
    }
  }

  lemma {:induction false} SuffixAppends(lines: seq<string>, fragments: seq<string>, r: nat)
    requires (r < |lines| || r == |lines| == 0) && fragments != []
    ensures
      var after := ForceSplit(Merge(lines, fragments));
      r < |after| && after[r..] == ForceSplit(Merge(lines[r..], fragments))
  {
    if lines == [] {
      assert lines[0..] == lines;
      var split := ForceSplit(Merge(lines, fragments));
      assert split[0..] == split;
    } else {
      SuffixMerges(lines, fragments, r);
      SuffixSplits(Merge(lines, fragments), r);
    }
  }

  lemma {:induction false} SuffixMerges(lines: seq<string>, fragments: seq<string>, r: nat)
    requires r < |lines| && fragments != []
    ensures r < |Merge(lines, fragments)| && Merge(lines, fragments)[r..] == Merge(lines[r..], fragments)
  {
  }

  lemma {:induction false} SuffixSplits(lines: seq<string>, r: nat)
    requires r < |lines|
    ensures r < |ForceSplit(lines)| && ForceSplit(lines)[r..] == ForceSplit(lines[r..])
  {
    var n := |lines| - 1;
    assert (lines[..n] + Chunks(lines[n]))[r..] == lines[..n][r..] + Chunks(lines[n]);
    assert lines[..n][r..] == lines[r..][..n - r];
  }

  /** Text that stays in the buffer has all its lines where they were. */
  lemma {:induction false} NothingEvicted(v: View)
    requires Evict(v).evictedLines == v.evictedLines
    ensures Evict(v) == v
  {
    if v.BufferedChars() > MAX_BUFFERED_OUTPUT_CHARS && |v.lines| > 1 {
      EvictOnlyGrows(View(v.lines[1..], v.evicted + v.lines[0] + "\n", v.evictedLines + 1,
                          if v.readIndex > 0 then v.readIndex - 1 else 0, v.readOffset));
    }
  }

  lemma {:induction false} AppendedLinesKeepCursor(v: View, fragments: seq<string>)
    requires CursorOk(v) && |v.LastLine()| <= MAX_LINE_CHARS && fragments != []
    ensures
      var w := v.(lines := ForceSplit(Merge(v.lines, fragments)));
      CursorOk(w) && Cursor(w) == Cursor(v)
  {
    if v.lines != [] {
      EarlierLinesStay(v.lines, fragments);
      LineStartAgrees(v.lines, ForceSplit(Merge(v.lines, fragments)), v.readIndex);
    }
  }

  lemma {:induction false} EarlierLinesStay(lines: seq<string>, fragments: seq<string>)
    requires lines != [] && |Last(lines)| <= MAX_LINE_CHARS && fragments != []
    ensures
      var (split, n) := (ForceSplit(Merge(lines, fragments)), |lines| - 1);
      |split| > n && (forall k :: 0 <= k < n ==> split[k] == lines[k]) && |split[n]| >= |lines[n]|
  {
    var (merged, n) := (Merge(lines, fragments), |lines| - 1);
    assert |merged[n]| >= |lines[n]|;
  }

  lemma OneForcedSplit(before: seq<string>, after: seq<string>)
    requires before != [] && |Last(before)| > MAX_LINE_CHARS
    requires after == before[|before| - 1 := Last(before)[..MAX_LINE_CHARS]] + [Last(before)[MAX_LINE_CHARS..]]
    ensures ForceSplit(after) == ForceSplit(before)
    ensures |Joined(after)| == |Joined(before)| + 1
  {
    var cut, rest := Last(before)[..MAX_LINE_CHARS], Last(before)[MAX_LINE_CHARS..];
    assert Front(after) == Front(before) + [cut] && Last(after) == rest;
    assert Chunks(Last(before)) == [cut] + Chunks(rest);
    assert Front(before) + ([cut] + Chunks(rest)) == Front(before) + [cut] + Chunks(rest);
    OneMoreSeparator(before, after, cut, rest);
  }

  lemma OneMoreSeparator(before: seq<string>, after: seq<string>, cut: string, rest: string)
    requires before != [] && after != [] && Front(after) == Front(before) + [cut]
    requires |Last(before)| == |cut| + |rest| && Last(after) == rest
    ensures |Joined(after)| == |Joined(before)| + 1
  {
    JoinedFrontLast(after);
    JoinedFrontLast(before);
    JoinedPrefix(Front(before), [cut]);
  }

  lemma CollectLast(lines: seq<string>, remaining: nat)
    requires lines != [] && remaining > 0
    ensures
      var (part, rest) := PartOf(Last(lines), 0, remaining);
      OutputSince(lines, remaining) == CollectMid(Front(lines), rest) + part
  {
    var (part, rest) := PartOf(Last(lines), 0, remaining);
    assert "" + Last(lines) == Last(lines);
    assert "" + part == part;
  }

  lemma CollectOne(lines: seq<string>, remaining: nat)
    requires lines != [] && remaining > 0
    ensures
      var (part, rest) := PartOf(Last(lines), 1, remaining);
      CollectMid(lines, remaining) == CollectMid(Front(lines), rest) + part
  {
    var (part, rest) := PartOf(Last(lines), 1, remaining);
    assert "" + part == part;
  }

  lemma CollectStep(lines: seq<string>, i: nat, remaining: nat)
    requires i < |lines| && remaining > 0
    ensures
      var (part, rest) := PartOf(lines[i], if i < |lines| - 1 then 1 else 0, remaining);
      ToCollect(lines, i + 1, remaining) == ToCollect(lines, i, rest) + part
  {
    if i == |lines| - 1 {
      CollectLast(lines, remaining);
      assert Front(lines) == lines[..i];
    } else {
      CollectOne(lines[..i + 1], remaining);
      assert Front(lines[..i + 1]) == lines[..i] && Last(lines[..i + 1]) == lines[i];
    }
  }
}
