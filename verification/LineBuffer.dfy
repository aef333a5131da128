/** The capped line buffer of a terminal session (src/terminal-manager.ts). */
module LineBuffer {
  import opened Prelude
  import opened LineModel
  import opened LineLemmas

  /** "No line exceeds MAX_LINE_CHARS" is met after a forced split exactly when every line but the last met it before. */
  lemma ForceSplitShortens(lines: seq<string>)
    requires lines != []
    ensures Short(ForceSplit(lines)) <==> Short(lines[..|lines| - 1])
    ensures |ForceSplit(lines)[|ForceSplit(lines)| - 1]| <= MAX_LINE_CHARS
  {
    var n := |lines| - 1;
    var pieces, split := Chunks(lines[n]), ForceSplit(lines);
    ChunksAreShort(lines[n]);
    assert forall i :: 0 <= i < n ==> split[i] == lines[..n][i];
    assert forall i :: n <= i < |split| ==> split[i] == pieces[i - n];
  }

  /** A completed line may stay over the cap: the split looks at the last line only. */
  lemma LongLineSurvives(c: char)
    requires c != '\n'
    ensures
      var text := seq(MAX_LINE_CHARS + 1, _ => c) + "\n";
      !Short(ForceSplit(Merge([], SplitLines(text))))
  {
    var line := seq(MAX_LINE_CHARS + 1, _ => c);
    SplitOneLine(line);
    var lines := [line, ""];
    assert lines[..1] == [line] && |[line][0]| > MAX_LINE_CHARS;
    ForceSplitShortens(lines);
  }

  /** After each append the buffer is within its cap and its last line within the line cap. */
  lemma AppendCaps(v: View, text: string)
    requires Capped(v)
    ensures Capped(Append(v, text))
    ensures Append(v, text).BufferedChars() <= 52428800 && |Append(v, text).LastLine()| <= 1048576
  {
    if text != "" {
      var merged := Merge(v.lines, SplitLines(text));
      SplitLinesJoin(text);
      MergeNewlineFree(v.lines, SplitLines(text));
      ForceSplitShortens(merged);
      var n := |merged| - 1;
      assert NewlineFree(merged[n]);
      ChunksNewlineFree(merged[n]);
      EvictCaps(v.(lines := ForceSplit(merged)));
    }
  }

  /** The stream only grows at its end, by the rendered text. */
  lemma AppendExtendsStream(v: View, text: string)
    requires Capped(v) && text != ""
    ensures Append(v, text).Stream() == v.Stream() + Rendered(v.LastLine(), text)
  {
    if LastLineStart(text) == 0 {
      AppendOneLine(v.lines, text);
    } else {
      AppendMoreLines(v.lines, text);
    }
    var lines := ForceSplit(Merge(v.lines, SplitLines(text)));
    EvictKeepsStream(v.(lines := lines));
    Assoc(v.evicted, Joined(v.lines), Rendered(v.LastLine(), text));
  }

  /** An append drops the fewest oldest lines that bring the buffer within its cap, never the last line; the count of
      evicted lines and the cursor's line follow. */
  lemma {:induction false} AppendDropsFewest(v: View, text: string) returns (lines: seq<string>, k: nat)
    requires text != ""
    ensures lines == ForceSplit(Merge(v.lines, SplitLines(text))) && k < |lines|
    ensures forall j :: 0 <= j < k ==> |Joined(lines[j..])| > MAX_BUFFERED_OUTPUT_CHARS
    ensures k < |lines| - 1 ==> |Joined(lines[k..])| <= MAX_BUFFERED_OUTPUT_CHARS
    ensures
      var after := Append(v, text);
      && after.lines == lines[k..] && after.evictedLines == v.evictedLines + k && after.readOffset == v.readOffset
      && after.readIndex == (if v.readIndex > k then v.readIndex - k else 0)
  {
    lines := ForceSplit(Merge(v.lines, SplitLines(text)));
    k := Drops(lines);
    DropsFewest(lines);
    EvictDrops(v.(lines := lines));
  }

  lemma {:induction false} SnapshotsStayValid(v: View, texts: seq<string>)
    requires Capped(v)
    ensures Capped(AppendAll(v, texts))
    ensures v.Stream() <= AppendAll(v, texts).Stream()
    decreases |texts|
  {
    if texts != [] {
      AppendCaps(v, texts[0]);
      if texts[0] != "" {
        AppendExtendsStream(v, texts[0]);
      }
      SnapshotsStayValid(Append(v, texts[0]), texts[1..]);
    }
  }

  /** The pieces between the inserted breaks: together they are the text, and each break follows a line of exactly
      MAX_LINE_CHARS characters. */
  lemma {:induction false} RenderedPieces(last: string, text: string) returns (pieces: seq<string>)
    requires |last| <= MAX_LINE_CHARS && NewlineFree(last)
    ensures pieces != [] && Flatten(pieces) == text && Joined(pieces) == Rendered(last, text)
    ensures |pieces| > 1 ==> |CurrentLine(last + pieces[0])| == MAX_LINE_CHARS
    ensures forall i :: 0 < i < |pieces| - 1 ==> |pieces[i]| == MAX_LINE_CHARS
    ensures forall i :: 0 < i < |pieces| ==> NewlineFree(pieces[i])
  {
    var k := LastLineStart(text);
    assert text[0..] == text;
    var line := if k == 0 then last + text else text[k..];
    var chunks := Chunks(line);
    ChunksCut(line);
    ChunksNewlineFree(line);
    assert NewlineFree(chunks[0]);
    if k == 0 {
      pieces := PiecesOfOneLine(last, text);
      CurrentLineAfter("", chunks[0]);
      assert "" + chunks[0] == chunks[0];
    } else {
      pieces := PiecesOfMoreLines(text);
      CurrentLineAfter(last + text[..k], chunks[0]);
      Assoc(last, text[..k], chunks[0]);
    }
    TailsAgree(pieces, chunks);
  }

  /** Output since a snapshot has exactly as many characters as are new and still buffered. It is the true text exactly
      when everything before the last line is newlines: the code writes each separator before its line. */
  lemma SinceSnapshot(v: View, snapshot: nat)
    requires AllNewlineFree(v.lines) && snapshot <= |v.Stream()|
    ensures
      var truth := v.Stream()[if snapshot > |v.evicted| then snapshot else |v.evicted|..];
      var found := OutputSince(v.lines, |v.Stream()| - snapshot);
      && |found| == |truth|
      && (found == truth <==> forall i :: 0 <= i < |truth| - |Last(v.lines)| ==> truth[i] == '\n')
  {
    var truth := v.Stream()[if snapshot > |v.evicted| then snapshot else |v.evicted|..];
    StreamTail(v, snapshot);
    OutputSinceIs(v.lines, |v.Stream()| - snapshot, truth);
  }

  /** What it gives exactly: the true text is cut at its newlines into parts, and every newline is put before the part it
      ends instead of after it. */
  lemma {:induction false} SinceSnapshotIs(v: View, snapshot: nat) returns (parts: seq<string>)
    requires AllNewlineFree(v.lines) && snapshot <= |v.Stream()|
    ensures parts != [] && AllNewlineFree(parts)
    ensures v.Stream()[if snapshot > |v.evicted| then snapshot else |v.evicted|..] == Joined(parts)
    ensures OutputSince(v.lines, |v.Stream()| - snapshot) == NewlinesFirst(Front(parts)) + Last(parts)
  {
    StreamTail(v, snapshot);
    var newChars := |v.Stream()| - snapshot;
    parts := NewParts(v.lines, newChars);
    NewPartsAreFree(v.lines, newChars);
    NewPartsAreTruth(v.lines, newChars);
    NewPartsAreFound(v.lines, newChars);
  }

  /** A read skips nothing: what it hands over starts at the cursor and reaches at least to the new cursor. The new
      cursor stops short of what was handed over exactly when the current line was already used up and there was a
      next one; the next read then repeats the last line. */
  lemma ReadSkipsNothing(v: View, length: nat)
    requires v.lines != [] && CursorOk(v)
    ensures CursorOk(ReadNew(v, length).0) && ReadNew(v, length).0.Stream() == v.Stream()
    ensures
      var (after, out) := ReadNew(v, length);
      var shown := if Passes(v, length) then "\n" + Joined(out) else Joined(out);
      && Cursor(v) + |shown| <= |v.Stream()| && v.Stream()[Cursor(v)..Cursor(v) + |shown|] == shown
      && Cursor(v) <= Cursor(after) <= Cursor(v) + |shown|
      && (Cursor(after) < Cursor(v) + |shown| <==> Passes(v, length))
  {
    ReadMovesCursor(v, length);
    ShownIsStreamText(v, length);
    ShownIsHandedOver(v, length);
  }

  /** An append leaves the cursor where it is exactly when the cap has room for the new text beside everything from the
      cursor's line on. Otherwise the line is evicted and the stale offset is applied to the oldest retained line. */
  lemma AppendKeepsCursor(v: View, text: string)
    requires CursorOk(v) && Capped(v)
    ensures
      var after := Append(v, text);
      && after.readIndex <= |after.lines|
      && (Cursor(after) == Cursor(v) <==> KeepsRoom(v, text))
      && (KeepsRoom(v, text) ==> CursorOk(after))
      && (!KeepsRoom(v, text) ==>
            after.readIndex == 0 && Cursor(v) < |after.evicted| && Cursor(after) == |after.evicted| + v.readOffset)
  {
    if text == "" {
      NothingRendered(v);
    } else {
      var w := v.(lines := ForceSplit(Merge(v.lines, SplitLines(text))));
      AppendedLinesKeepCursor(v, SplitLines(text));
      EvictCursor(w);
      AppendedFrom(v.lines, text, v.readIndex);
      ForceSplitShortens(Merge(v.lines, SplitLines(text)));
      EvictReaches(w, v.readIndex);
      assert Append(v, text).lines[..0] == [];
    }
  }

  lemma {:induction false} NothingRendered(v: View)
    requires CursorOk(v) && Capped(v)
    ensures KeepsRoom(v, "")
  {
    assert v.LastLine() + "" == v.LastLine();
    if v.lines != [] {
      JoinedFallsFrom(v.lines, v.readIndex);
    }
  }

  /** Marking with the cursor of the last line moves the cursor to the end of the stream. */
  lemma MarkedIsAllRead(v: View)
    requires v.lines != []
    ensures
      var after := MarkConsumed(v, |v.lines| - 1, |v.LastLine()|);
      CursorOk(after) && Cursor(after) == |v.Stream()|
  {
    LastLineEnds(v.lines);
  }

  /** A mark with the cursor captured at some earlier time declares delivered exactly what was shown by then, provided
      that nothing has been evicted since. */
  lemma {:induction false} MarkIsAtCapture(v: View, texts: seq<string>)
    requires Capped(v) && v.lines != [] && AppendAll(v, texts).evictedLines == v.evictedLines
    ensures
      var after := MarkConsumed(AppendAll(v, texts), |v.lines| - 1, |v.LastLine()|);
      CursorOk(after) && Cursor(after) == |v.Stream()|
  {
    LastLineEnds(v.lines);
    var captured := v.(readIndex := |v.lines| - 1, readOffset := |v.LastLine()|);
    CaptureStays(v, captured, texts);
  }

  /** Until something is evicted, a cursor and what it points at do not move. */
  lemma {:induction false} CaptureStays(v: View, captured: View, texts: seq<string>)
    requires Capped(v) && v.lines != [] && CursorOk(captured)
    requires captured == v.(readIndex := captured.readIndex, readOffset := captured.readOffset)
    requires AppendAll(v, texts).evictedLines == v.evictedLines
    ensures
      var after := MarkConsumed(AppendAll(v, texts), captured.readIndex, captured.readOffset);
      CursorOk(after) && Cursor(after) == Cursor(captured)
    decreases |texts|
  {
    if texts != [] {
      AppendCaps(v, texts[0]);
      AppendOnlyEvicts(v, texts[0]);
      AppendAllOnlyEvicts(Append(v, texts[0]), texts[1..]);
      if texts[0] == "" {
        CaptureStays(v, captured, texts[1..]);
      } else {
        var split := ForceSplit(Merge(v.lines, SplitLines(texts[0])));
        NothingEvicted(v.(lines := split));
        AppendedLinesKeepCursor(captured, SplitLines(texts[0]));
        CaptureStays(Append(v, texts[0]), captured.(lines := split), texts[1..]);
      }
    }
  }

  lemma {:induction false} AppendOnlyEvicts(v: View, text: string)
    ensures v.evictedLines <= Append(v, text).evictedLines
  {
    if text != "" {
      EvictOnlyGrows(v.(lines := ForceSplit(Merge(v.lines, SplitLines(text)))));
    }
  }

  lemma {:induction false} AppendAllOnlyEvicts(v: View, texts: seq<string>)
    ensures v.evictedLines <= AppendAll(v, texts).evictedLines
    decreases |texts|
  {
    if texts != [] {
      AppendOnlyEvicts(v, texts[0]);
      AppendAllOnlyEvicts(Append(v, texts[0]), texts[1..]);
    }
  }

  lemma StepKeepsCursor(v: View, op: Op)
    requires CursorOk(v) && Capped(v) && Spares(v, op)
    ensures
      var after := Apply(v, op);
      && CursorOk(after) && Capped(after)
      && forall p: nat :: Cursor(v) <= p < Cursor(after) ==> DeliveredBy(v, op, p)
  {
    match op
    case Appended(text) =>
      AppendKeepsCursor(v, text);
      AppendCaps(v, text);
    case Read(length) =>
      if v.lines != [] {
        ReadMovesCursor(v, length);
      }
    case Marked(_, _) =>
  }

  /** Over any run of appends, reads and marks that leaves the cursor on retained text, every character the cursor has
      passed was handed over by some read or declared delivered by some mark. */
  lemma {:induction false} ReadsNeverSkip(v: View, ops: seq<Op>)
    requires CursorOk(v) && Capped(v) && SparesCursor(v, ops)
    ensures CursorOk(Run(v, ops))
    ensures forall p: nat :: Cursor(v) <= p < Cursor(Run(v, ops)) ==> Delivered(v, ops, p)
    decreases |ops|
  {
    if ops != [] {
      StepKeepsCursor(v, ops[0]);
      ReadsNeverSkip(Apply(v, ops[0]), ops[1..]);
      assert Run(v, ops) == Run(Apply(v, ops[0]), ops[1..]);
    }
  }

  /** Reads at consecutive offsets join up, and a read of the last n lines gives them. */
  lemma PagesJoinUp(lines: seq<string>, offset: nat, a: nat, b: nat, n: int)
    ensures ReadAt(lines, offset, a) + ReadAt(lines, offset + a, b) == ReadAt(lines, offset, a + b)
    ensures 0 < n <= |lines| ==> ReadAt(lines, -n, n) == lines[|lines| - n..]
  {
  }

  /** The lines of every read, by index. A read at another offset is the page from that line, counted from the end if the
      offset is negative; an offset-0 read is the page of at least one line from the cursor's line on, of that line only
      what is left, and without it when nothing is left and other lines of the page follow. */
  lemma {:induction false} ReadsByIndex(v: View, offset: int, length: nat)
    ensures offset >= 0 ==> IsPage(v.lines, offset, length, ReadAt(v.lines, offset, length))
    ensures offset < 0 ==>
      IsPage(v.lines, if |v.lines| + offset > 0 then |v.lines| + offset else 0, length, ReadAt(v.lines, offset, length))
    ensures v.lines != [] && CursorOk(v) ==>
      var (i, out) := (v.readIndex, ReadNew(v, length).1);
      if v.readOffset == |v.lines[i]| && i + 1 < |v.lines| && length >= 2 then IsPage(v.lines, i + 1, length - 1, out)
      else IsPage(v.lines[i := v.lines[i][v.readOffset..]], i, if length == 0 then 1 else length, out)
  {
    OldPage(v.lines, offset, length);
    if v.lines != [] && CursorOk(v) {
      NewPage(v, length);
    }
  }

  lemma {:induction false} OldPage(lines: seq<string>, offset: int, length: nat)
    ensures
      var first := if offset >= 0 then offset else if |lines| + offset > 0 then |lines| + offset else 0;
      IsPage(lines, first, length, ReadAt(lines, offset, length))
  {
  }

  lemma {:induction false} NewPage(v: View, length: nat)
    requires v.lines != [] && CursorOk(v)
    ensures
      var (i, out) := (v.readIndex, ReadNew(v, length).1);
      if v.readOffset == |v.lines[i]| && i + 1 < |v.lines| && length >= 2 then IsPage(v.lines, i + 1, length - 1, out)
      else IsPage(v.lines[i := v.lines[i][v.readOffset..]], i, if length == 0 then 1 else length, out)
  {
    var (first, tail) := Window(v, length);
    assert first == "" <==> v.readOffset == |v.lines[v.readIndex]|;
    assert tail != [] <==> v.readIndex + 1 < |v.lines| && length >= 2;
    assert forall k :: 0 <= k < |tail| ==> tail[k] == v.lines[v.readIndex + 1 + k];
  }

  // ---- Where the code falls short ----

  /** The separator comes before its line. */
  lemma SeparatorsAreMisplaced()
    ensures
      var v := View(["a", "b"], "", 0, 0, 0);
      v.Stream() == "a\nb" && OutputSince(v.lines, |v.Stream()|) == "\nab"
  {
    var lines := ["a", "b"];
    assert lines[1..] == ["b"] && Front(lines) == ["a"] && Front(["a"]) == [];
    assert Joined(lines) == "a" + "\n" + "b";
    assert CollectMid(["a"], 2) == "" + ("\n" + "a");
    assert "" + "a\nb" == "a\nb";
  }

  /** When the current line is used up and other lines follow, the next read begins with the last line of this one. */
  lemma LastLineIsRepeated(v: View, length: nat, next: nat)
    requires v.lines != [] && CursorOk(v) && Passes(v, length) && next >= 2
    ensures
      var (after, out) := ReadNew(v, length);
      var again := ReadNew(after, next).1;
      out != [] && again != [] && again[0] == out[|out| - 1]
  {
    IndexAfterRead(v, length);
    var after, index := ReadNew(v, length).0, WindowEnd(v, length) - 2;
    UsedUpLine(after, index, next);
    var out := ReadNew(v, length).1;
    assert out == v.lines[v.readIndex + 1..index + 2];
    assert out[|out| - 1] == v.lines[index + 1];
  }

  lemma {:induction false} UsedUpLine(v: View, index: nat, length: nat)
    requires index + 1 < |v.lines| && v.readIndex == index && v.readOffset == |v.lines[index]| && length >= 2
    ensures ReadNew(v, length).1 != [] && ReadNew(v, length).1[0] == v.lines[index + 1]
  {
    assert v.lines[index][v.readOffset..] == "";
    assert WindowEnd(v, length) >= index + 2;
    assert v.lines[index + 1..WindowEnd(v, length)][0] == v.lines[index + 1];
  }

  /** With one line after the used-up one, the same line is read again and again. */
  lemma SameLineForEver(line: string, used: string, length: nat)
    requires length >= 2
    ensures
      var v := View([used, line], "", 0, 0, |used|);
      ReadNew(v, length) == (v, [line])
  {
    var v := View([used, line], "", 0, 0, |used|);
    assert WindowEnd(v, length) == 2;
    assert v.lines[1..2] == [line] && used[|used|..] == "";
    assert Window(v, length) == ("", [line]);
  }

  /** An append that fills the buffer moves the cursor past text that no read has shown. */
  lemma EvictionMovesCursor()
    ensures
      var v := View(["a"], "", 0, 0, 1);
      var after := Append(v, seq(MAX_BUFFERED_OUTPUT_CHARS, _ => '\n'));
      CursorOk(v) && Capped(v) && Cursor(v) == 1 && after.readIndex == 0 && Cursor(after) > 1 + Cursor(v)
  {
    var v, text := View(["a"], "", 0, 0, 1), seq(MAX_BUFFERED_OUTPUT_CHARS, _ => '\n');
    assert text[|text| - 1] == '\n';
    assert text[..|text|] == text && text[|text|..] == "";
    assert v.lines[0..] == ["a"] && v.lines[..0] == [];
    assert |Rendered("a", text)| == |text|;
    AppendKeepsCursor(v, text);
  }

  // ---- The session as written ----

  class Session {
    var outputLines: seq<string>
    var bufferedChars: nat
    var evictedChars: nat
    var evictedLines: nat
    var lastReadIndex: nat
    var lastReadOffset: nat
    ghost var evictedText: string

    ghost predicate Valid()
      reads this
    {
      bufferedChars == |Joined(outputLines)| && evictedChars == |evictedText|
    }

    ghost function Abstract(): View
      reads this
    {
      View(outputLines, evictedText, evictedLines, lastReadIndex, lastReadOffset)
    }

    constructor ()
      ensures Valid() && Abstract() == Empty
    {
      outputLines, bufferedChars, evictedChars, evictedLines := [], 0, 0, 0;
      lastReadIndex, lastReadOffset, evictedText := 0, 0, "";
    }

    method AppendToLineBuffer(text: string)
      requires Valid()
      modifies this
      ensures Valid() && Abstract() == Append(old(Abstract()), text)
    {
      if text == "" {
        return;
      }
      AddFragments(text);
      SplitLastLine();
      EvictOldest();
    }

    /** The first fragment extends the last line, unless there is none; every other fragment is a new line. */
    method AddFragments(text: string)
      requires Valid()
      modifies this`outputLines, this`bufferedChars
      ensures Valid() && outputLines == Merge(old(outputLines), SplitLines(text))
    {
      var lines := SplitLines(text);
      ghost var start := outputLines;
      for i := 0 to |lines|
        invariant outputLines == if i == 0 then start else Merge(start, lines[..i])
        invariant bufferedChars == old(bufferedChars)
      {
        if |outputLines| == 0 {
          outputLines := outputLines + [lines[i]];
        } else if i == 0 {
          var last := |outputLines| - 1;
          outputLines := outputLines[last := outputLines[last] + lines[i]];
        } else {
          outputLines := outputLines + [lines[i]];
        }
        assert lines[..i + 1] == lines[..i] + [lines[i]];
      }
      assert lines[..|lines|] == lines;
      MergeJoins(start, lines);
      SplitLinesJoin(text);
      bufferedChars := bufferedChars + |text|;
    }

    method SplitLastLine()
      requires Valid() && outputLines != []
      modifies this`outputLines, this`bufferedChars
      ensures Valid() && outputLines == ForceSplit(old(outputLines))
    {
      var lastIndex := |outputLines| - 1;
      while |outputLines[lastIndex]| > MAX_LINE_CHARS
        invariant Valid() && outputLines != [] && lastIndex == |outputLines| - 1
        invariant ForceSplit(outputLines) == ForceSplit(old(outputLines))
        decreases |outputLines[lastIndex]|
      {
        ghost var before := outputLines;
        var overlong := outputLines[lastIndex];
        outputLines := outputLines[lastIndex := overlong[..MAX_LINE_CHARS]] + [overlong[MAX_LINE_CHARS..]];
        OneForcedSplit(before, outputLines);
        bufferedChars := bufferedChars + 1;
        lastIndex := lastIndex + 1;
      }
      assert ForceSplit(outputLines) == outputLines;
    }

    method EvictOldest()
      requires Valid() && outputLines != []
      modifies this
      ensures Valid() && Abstract() == Evict(old(Abstract()))
    {
      while bufferedChars > MAX_BUFFERED_OUTPUT_CHARS && |outputLines| > 1
        invariant Valid()
        invariant Evict(Abstract()) == Evict(old(Abstract()))
        decreases |outputLines|
      {
        var dropped := outputLines[0];
        outputLines := outputLines[1..];
        var droppedJoinedChars := |dropped| + 1;
        bufferedChars := bufferedChars - droppedJoinedChars;
        evictedChars := evictedChars + droppedJoinedChars;
        evictedText := evictedText + dropped + "\n";
        evictedLines := evictedLines + 1;
        if lastReadIndex > 0 {
          lastReadIndex := lastReadIndex - 1;
        }
      }
    }

    method CaptureOutputSnapshot() returns (totalChars: nat)
      requires Valid()
      ensures totalChars == |Abstract().Stream()|
    {
      totalChars := evictedChars + bufferedChars;
    }

    method GetOutputSinceSnapshot(snapshot: nat) returns (output: string)
      requires Valid()
      ensures output == OutputSince(outputLines, |Abstract().Stream()| - snapshot)
    {
      output := OutputSinceSnapshot(outputLines, bufferedChars, evictedChars, snapshot);
    }

    /** readOutputPaginated: only a read at offset 0 moves the cursor. */
    method ReadOutput(offset: int, length: nat) returns (lines: seq<string>)
      requires Valid()
      modifies this`lastReadIndex, this`lastReadOffset
      ensures Valid()
      ensures offset == 0 ==> (Abstract(), lines) == ReadNew(old(Abstract()), length)
      ensures offset != 0 ==> Abstract() == old(Abstract()) && lines == ReadAt(outputLines, offset, length)
    {
      if offset == 0 && |outputLines| > 0 {
        lines := ReadFromCursor(length);
      } else {
        lines := ReadFromLineBuffer(offset, length);
      }
    }

    method ReadFromCursor(length: nat) returns (lines: seq<string>)
      requires Valid() && outputLines != []
      modifies this`lastReadIndex, this`lastReadOffset
      ensures Valid() && (Abstract(), lines) == ReadNew(old(Abstract()), length)
    {
      var n := |outputLines|;
      var start := if lastReadIndex < n - 1 then lastReadIndex else n - 1;
      var first := SliceFrom(outputLines[start], lastReadOffset);
      var end := if start + length > n then n else if length == 0 then start + 1 else start + length;
      var tail := outputLines[start + 1..end];
      ghost var v := Abstract();
      assert (first, tail) == Window(v, length);
      lines := if first != "" || tail == [] then [first] + tail else tail;
      ReadNewIs(v, length, first, tail);
      lastReadIndex := if start + |lines| - 1 < n - 1 then start + |lines| - 1 else n - 1;
      lastReadOffset := |outputLines[lastReadIndex]|;
    }

    method ReadFromLineBuffer(offset: int, length: nat) returns (lines: seq<string>)
      requires Valid()
      modifies this`lastReadIndex
      ensures Valid()
      ensures offset == 0 ==>
        && lines == SliceLines(outputLines, old(lastReadIndex), old(lastReadIndex) + length)
        && Abstract() == old(Abstract()).(readIndex := lastReadIndex) && lastReadIndex <= |outputLines|
      ensures offset != 0 ==> Abstract() == old(Abstract()) && lines == ReadAt(outputLines, offset, length)
    {
      var totalLines := |outputLines|;
      if offset < 0 {
        var startIndex := if totalLines + offset > 0 then totalLines + offset else 0;
        lines := SliceLines(outputLines, startIndex, startIndex + length);
      } else if offset == 0 {
        lines := SliceLines(outputLines, lastReadIndex, lastReadIndex + length);
        lastReadIndex := if lastReadIndex + |lines| < totalLines then lastReadIndex + |lines| else totalLines;
      } else {
        lines := SliceLines(outputLines, offset, offset + length);
      }
    }

    method MarkOutputConsumed(lineIndex: nat, lineOffset: nat)
      requires Valid()
      modifies this`lastReadIndex, this`lastReadOffset
      ensures Valid() && Abstract() == MarkConsumed(old(Abstract()), lineIndex, lineOffset)
    {
      var limit := if |outputLines| > 0 then |outputLines| - 1 else 0;
      lastReadIndex, lastReadOffset := if lineIndex < limit then lineIndex else limit, lineOffset;
    }
  }

  /** The parts are collected from the last line backwards, then reversed. */
  method OutputSinceSnapshot(outputLines: seq<string>, bufferedChars: nat, evictedChars: nat, snapshotTotalChars: nat)
    returns (output: string)
    ensures output == OutputSince(outputLines, evictedChars + bufferedChars - snapshotTotalChars)
  {
    var newChars := evictedChars + bufferedChars - snapshotTotalChars;
    if newChars <= 0 {
      return "";
    }
    var remaining: nat := newChars;
    output := "";
    var i := |outputLines|;
    while i > 0 && remaining > 0
      invariant 0 <= i <= |outputLines|
      invariant ToCollect(outputLines, i, remaining) + output == OutputSince(outputLines, newChars)
    {
      i := i - 1;
      var separator := if i < |outputLines| - 1 then 1 else 0;
      CollectStep(outputLines, i, remaining);
      var (part, rest) := PartOf(outputLines[i], separator, remaining);
      Assoc(ToCollect(outputLines, i, rest), part, output);
      remaining, output := rest, part + output;
    }
    assert ToCollect(outputLines, i, remaining) == "";
  }
}
