/** The lines of a terminal session as values: appending, eviction, snapshots and the read cursor
    (src/terminal-manager.ts). */
module LineModel {
  const MAX_BUFFERED_OUTPUT_CHARS: nat := 50 * 1024 * 1024
  const MAX_LINE_CHARS: nat := 1024 * 1024

  // ---- Lines and joined text ----

  function Joined(lines: seq<string>): string {
    if lines == [] then "" else if |lines| == 1 then lines[0] else lines[0] + "\n" + Joined(lines[1..])
  }

  /** The text of lines that others follow. */
  function Prefix(lines: seq<string>): string {
    if lines == [] then "" else Joined(lines) + "\n"
  }

  function Front(lines: seq<string>): seq<string> {
    if lines == [] then [] else lines[..|lines| - 1]
  }

  function Last(lines: seq<string>): string {
    if lines == [] then "" else lines[|lines| - 1]
  }

  predicate NewlineFree(s: string) {
    forall i :: 0 <= i < |s| ==> s[i] != '\n'
  }

  ghost predicate AllNewlineFree(lines: seq<string>) {
    forall i :: 0 <= i < |lines| ==> NewlineFree(lines[i])
  }

  /** text.split('\n') */
  function SplitLines(text: string): (lines: seq<string>)
    ensures lines != []
  {
    if text == "" then [""]
    else
      var rest := SplitLines(text[1..]);
      if text[0] == '\n' then [""] + rest else [[text[0]] + rest[0]] + rest[1..]
  }

  /** The first fragment continues the last line; the others are new lines. */
  function Merge(lines: seq<string>, fragments: seq<string>): (merged: seq<string>)
    requires fragments != []
    ensures merged != []
  {
    if lines == [] then fragments
    else lines[..|lines| - 1] + [lines[|lines| - 1] + fragments[0]] + fragments[1..]
  }

  // ---- Forced splits ----

  /** A long line cut into pieces of MAX_LINE_CHARS. */
  function Chunks(line: string): (pieces: seq<string>)
    ensures pieces != []
    decreases |line|
  {
    if |line| <= MAX_LINE_CHARS then [line] else [line[..MAX_LINE_CHARS]] + Chunks(line[MAX_LINE_CHARS..])
  }

  /** Only the last line is cut. */
  function ForceSplit(lines: seq<string>): (split: seq<string>)
    requires lines != []
    ensures split != []
  {
    lines[..|lines| - 1] + Chunks(lines[|lines| - 1])
  }

  ghost predicate Short(lines: seq<string>) {
    forall i :: 0 <= i < |lines| ==> |lines[i]| <= MAX_LINE_CHARS
  }

  /** How a line longer than the cap is shown: with a break after every MAX_LINE_CHARS characters. */
  function BrokenLine(line: string): (shown: string)
    ensures |shown| >= |line|
    decreases |line|
  {
    if |line| <= MAX_LINE_CHARS then line
    else line[..MAX_LINE_CHARS] + "\n" + BrokenLine(line[MAX_LINE_CHARS..])
  }

  // ---- The buffer ----

  /** `evicted` is the text that eviction dropped; the code keeps only its length. */
  datatype View = View(lines: seq<string>, evicted: string, evictedLines: nat, readIndex: nat, readOffset: nat)
  {
    /** Everything shown since the process started. */
    function Stream(): string { evicted + Joined(lines) }

    function LastLine(): string { Last(lines) }

    function BufferedChars(): nat { |Joined(lines)| }
  }

  const Empty := View([], "", 0, 0, 0)

  function Evict(v: View): View
    decreases |v.lines|
  {
    if v.BufferedChars() > MAX_BUFFERED_OUTPUT_CHARS && |v.lines| > 1 then
      Evict(View(v.lines[1..], v.evicted + v.lines[0] + "\n", v.evictedLines + 1,
                 if v.readIndex > 0 then v.readIndex - 1 else 0, v.readOffset))
    else v
  }

  /** The number of oldest lines that eviction drops. */
  function Drops(lines: seq<string>): nat {
    if |Joined(lines)| > MAX_BUFFERED_OUTPUT_CHARS && |lines| > 1 then Drops(lines[1..]) + 1 else 0
  }

  function Append(v: View, text: string): View {
    if text == "" then v else Evict(v.(lines := ForceSplit(Merge(v.lines, SplitLines(text)))))
  }

  /** What every append keeps. */
  ghost predicate Capped(v: View) {
    && v.BufferedChars() <= MAX_BUFFERED_OUTPUT_CHARS
    && |v.LastLine()| <= MAX_LINE_CHARS
    && AllNewlineFree(v.lines)
  }

  // ---- The stream only grows ----

  /** Where the last line of the text starts. */
  function LastLineStart(text: string): (k: nat)
    ensures k <= |text|
    ensures NewlineFree(text[k..])
    ensures k > 0 ==> text[k - 1] == '\n'
  {
    if text == "" || text[|text| - 1] == '\n' then |text|
    else
      var k := LastLineStart(text[..|text| - 1]);
      assert text[k..] == text[..|text| - 1][k..] + [text[|text| - 1]];
      k
  }

  /** What an append shows: the text, its last line broken at the line cap, counting what the line already held. */
  function Rendered(last: string, text: string): string {
    var k := LastLineStart(text);
    if k == 0 then BrokenLine(last + text)[|last|..] else text[..k] + BrokenLine(text[k..])
  }

  /** Runs of appends: an offset taken at any time keeps pointing at the same text. */
  function AppendAll(v: View, texts: seq<string>): View
    decreases |texts|
  {
    if texts == [] then v else AppendAll(Append(v, texts[0]), texts[1..])
  }

  function CurrentLine(text: string): string {
    text[LastLineStart(text)..]
  }

  // ---- Output since a snapshot ----

  /** The last r characters, or all of them. */
  function TailOf(s: string, r: nat): string {
    if r >= |s| then s else s[|s| - r..]
  }

  /** The lines before the last one, collected backwards: each separator is put before its line. */
  function CollectMid(lines: seq<string>, r: nat): string
    decreases |lines|
  {
    if lines == [] || r == 0 then ""
    else
      var line := Last(lines);
      if r >= |line| + 1 then CollectMid(Front(lines), r - |line| - 1) + ("\n" + line)
      else "\n" + TailOf(line, r - 1)
  }

  function OutputSince(lines: seq<string>, newChars: int): string {
    if newChars <= 0 || lines == [] then ""
    else if newChars >= |Last(lines)| then CollectMid(Front(lines), newChars - |Last(lines)|) + Last(lines)
    else TailOf(Last(lines), newChars)
  }

  /** The parts with a newline after each of them. */
  function NewlinesLast(parts: seq<string>): string
    decreases |parts|
  {
    if parts == [] then "" else NewlinesLast(Front(parts)) + (Last(parts) + "\n")
  }

  /** The parts with a newline before each of them instead of after it. */
  function NewlinesFirst(parts: seq<string>): string
    decreases |parts|
  {
    if parts == [] then "" else NewlinesFirst(Front(parts)) + ("\n" + Last(parts))
  }

  /** The last r characters of these lines, each ended by a newline, as lines. */
  function TailParts(lines: seq<string>, r: nat): seq<string>
    decreases |lines|
  {
    if lines == [] || r == 0 then []
    else if r >= |Last(lines)| + 1 then TailParts(Front(lines), r - |Last(lines)| - 1) + [Last(lines)]
    else [TailOf(Last(lines), r - 1)]
  }

  /** The new output as lines. */
  function NewParts(lines: seq<string>, newChars: nat): (parts: seq<string>)
    ensures parts != []
  {
    if lines == [] then [""]
    else if newChars >= |Last(lines)| then TailParts(Front(lines), newChars - |Last(lines)|) + [Last(lines)]
    else [TailOf(Last(lines), newChars)]
  }

  predicate AllNewlines(s: string) {
    forall i :: 0 <= i < |s| ==> s[i] == '\n'
  }

  // ---- The read cursor ----

  /** Where line i starts in the joined text. */
  function LineStart(lines: seq<string>, i: nat): nat
    requires i <= |lines|
  {
    if i == 0 then 0 else LineStart(lines, i - 1) + |lines[i - 1]| + 1
  }

  /** The position in the stream up to which output counts as read. */
  function Cursor(v: View): nat
    requires v.readIndex <= |v.lines|
  {
    |v.evicted| + LineStart(v.lines, v.readIndex) + v.readOffset
  }

  ghost predicate CursorOk(v: View) {
    if v.lines == [] then v.readIndex == v.readOffset == 0
    else v.readIndex < |v.lines| && v.readOffset <= |v.lines[v.readIndex]|
  }

  /** The line an offset-0 read starts in. */
  function StartLine(v: View): (i: nat)
    requires v.lines != []
    ensures i < |v.lines|
  {
    if v.readIndex < |v.lines| - 1 then v.readIndex else |v.lines| - 1
  }

  /** The line after the last one it may return. */
  function WindowEnd(v: View, length: nat): (m: nat)
    requires v.lines != []
    ensures StartLine(v) < m <= |v.lines|
  {
    if StartLine(v) + length > |v.lines| then |v.lines|
    else if length == 0 then StartLine(v) + 1
    else StartLine(v) + length
  }

  /** JavaScript's slice with one argument. */
  function SliceFrom(s: string, off: nat): string {
    if off > |s| then "" else s[off..]
  }

  /** What is left of the current line, and the lines after it. */
  function Window(v: View, length: nat): (string, seq<string>)
    requires v.lines != []
  {
    (SliceFrom(v.lines[StartLine(v)], v.readOffset), v.lines[StartLine(v) + 1..WindowEnd(v, length)])
  }

  /** An offset-0 read passes over the current line when it is used up and other lines follow. */
  predicate Passes(v: View, length: nat)
    requires v.lines != []
  {
    Window(v, length).0 == "" && Window(v, length).1 != []
  }

  /** A read from the last position: the lines handed over, and the moved cursor. */
  function ReadNew(v: View, length: nat): (View, seq<string>) {
    if v.lines == [] then (v.(readIndex := 0), [])
    else
      var (first, tail) := Window(v, length);
      var out := if Passes(v, length) then tail else [first] + tail;
      var index := if StartLine(v) + |out| - 1 < |v.lines| - 1 then StartLine(v) + |out| - 1 else |v.lines| - 1;
      (v.(readIndex := index, readOffset := |v.lines[index]|), out)
  }

  /** JavaScript's slice with two arguments. */
  function SliceLines(lines: seq<string>, start: nat, end: nat): seq<string> {
    var last := if end < |lines| then end else |lines|;
    if start < last then lines[start..last] else []
  }

  /** A read at another offset: a positive one counts lines from the start, a negative one from the end. */
  function ReadAt(lines: seq<string>, offset: int, length: nat): seq<string> {
    var start := if offset >= 0 then offset else if -offset < |lines| then |lines| + offset else 0;
    SliceLines(lines, start, start + length)
  }

  /** The page holds `length` lines from line `first` on, or as many as there are. */
  ghost predicate IsPage(lines: seq<string>, first: nat, length: nat, page: seq<string>) {
    && |page| == (if first + length <= |lines| then length else if first <= |lines| then |lines| - first else 0)
    && forall k :: 0 <= k < |page| ==> page[k] == lines[first + k]
  }

  /** The text from offset off of line i to the end of line m - 1. */
  function TextFrom(lines: seq<string>, i: nat, off: nat, m: nat): string
    requires i < m <= |lines| && off <= |lines[i]|
  {
    Joined([lines[i][off..]] + lines[i + 1..m])
  }

  /** The text a read hands over; when the current line was used up it starts with that line's separator. */
  ghost function Shown(v: View, length: nat): string
    requires CursorOk(v)
  {
    if v.lines == [] then "" else TextFrom(v.lines, v.readIndex, v.readOffset, WindowEnd(v, length))
  }

  /** markOutputConsumed */
  function MarkConsumed(v: View, lineIndex: nat, lineOffset: nat): View {
    var limit := if |v.lines| > 0 then |v.lines| - 1 else 0;
    v.(readIndex := if lineIndex < limit then lineIndex else limit, readOffset := lineOffset)
  }

  /** The cap leaves room for the new text beside everything from the cursor's line on. */
  predicate KeepsRoom(v: View, text: string)
    requires v.readIndex <= |v.lines|
  {
    |Joined(v.lines[v.readIndex..])| + |Rendered(v.LastLine(), text)| <= MAX_BUFFERED_OUTPUT_CHARS
  }

  /** The line a mark falls on, and whether its offset lies in that line. */
  predicate MarksInLine(v: View, lineIndex: nat, lineOffset: nat) {
    if v.lines == [] then lineOffset == 0
    else lineOffset <= |v.lines[if lineIndex < |v.lines| - 1 then lineIndex else |v.lines| - 1]|
  }

  // ---- Runs of appends, reads and marks ----

  datatype Op = Appended(text: string) | Read(length: nat) | Marked(lineIndex: nat, lineOffset: nat)

  function Apply(v: View, op: Op): View {
    match op
    case Appended(text) => Append(v, text)
    case Read(length) => ReadNew(v, length).0
    case Marked(lineIndex, lineOffset) => MarkConsumed(v, lineIndex, lineOffset)
  }

  function Run(v: View, ops: seq<Op>): View
    decreases |ops|
  {
    if ops == [] then v else Run(Apply(v, ops[0]), ops[1..])
  }

  /** The operation leaves the cursor on text that is still there. */
  predicate Spares(v: View, op: Op) {
    match op
    case Appended(text) => v.readIndex <= |v.lines| && KeepsRoom(v, text)
    case Read(_) => true
    case Marked(lineIndex, lineOffset) => MarksInLine(v, lineIndex, lineOffset)
  }

  ghost predicate SparesCursor(v: View, ops: seq<Op>)
    decreases |ops|
  {
    ops == [] || (Spares(v, ops[0]) && SparesCursor(Apply(v, ops[0]), ops[1..]))
  }

  /** Some read of the run hands over the character at stream position p, or some mark declares it delivered. */
  ghost predicate Delivered(v: View, ops: seq<Op>, p: nat)
    decreases |ops|
  {
    ops != [] && (DeliveredBy(v, ops[0], p) || Delivered(Apply(v, ops[0]), ops[1..], p))
  }

  ghost predicate DeliveredBy(v: View, op: Op, p: nat) {
    CursorOk(v) && match op
    case Appended(_) => false
    case Read(length) => Cursor(v) <= p < Cursor(v) + |Shown(v, length)|
    case Marked(_, _) => CursorOk(Apply(v, op)) && Cursor(v) <= p < Cursor(Apply(v, op))
  }

  /** What the backwards loop takes from one line, and what it then still has to find. */
  function PartOf(line: string, separator: nat, remaining: nat): (string, nat)
    requires remaining > 0
  {
    var mark := if separator == 1 then "\n" else "";
    if remaining >= |line| + separator then (mark + line, remaining - |line| - separator)
    else (mark + TailOf(line, if remaining > separator then remaining - separator else 0), 0)
  }

  /** What the loop still has to collect from the first i lines. */
  ghost function ToCollect(lines: seq<string>, i: nat, remaining: nat): string
    requires i <= |lines|
  {
    if i == |lines| then OutputSince(lines, remaining) else CollectMid(lines[..i], remaining)
  }
}
