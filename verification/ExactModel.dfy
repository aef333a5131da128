/** Exact search and replace as functions of the text (src/tools/edit.ts): occurrences, splitting and joining, the patterns
    of a replacement, one edit and a batch. */
module ExactModel {
  import opened Prelude
  import opened LineEndings

  // ---- Occurrences ----

  predicate At(s: string, p: string, i: int) {
    0 <= i && i + |p| <= |s| && s[i..i + |p|] == p
  }

  /** indexOf: the first occurrence at or after `from`. */
  function IndexOf(s: string, p: string, from: nat): (i: Option<nat>)
    ensures i.Some? ==> from <= i.value && At(s, p, i.value)
    decreases |s| - from
  {
    if from + |p| > |s| then None
    else if At(s, p, from) then Some(from)
    else IndexOf(s, p, from + 1)
  }

  /** All occurrences, overlapping ones included. */
  function CountAll(s: string, p: string, from: nat): nat
    decreases |s| - from
  {
    if from + |p| > |s| then 0 else (if At(s, p, from) then 1 else 0) + CountAll(s, p, from + 1)
  }

  /** Occurrences met when the search resumes after each match. */
  function CountDisjoint(s: string, p: string, from: nat): nat
    requires p != ""
    decreases |s| - from
  {
    var i := IndexOf(s, p, from);
    if i.None? then 0 else 1 + CountDisjoint(s, p, i.value + |p|)
  }

  /** An occurrence starts in [lo, hi). */
  ghost predicate SomeAt(s: string, p: string, lo: int, hi: int) {
    exists k :: lo <= k < hi && At(s, p, k)
  }

  /** The occurrence at i shares characters with a later one. */
  ghost predicate OverlapAt(s: string, p: string, i: int) {
    At(s, p, i) && SomeAt(s, p, i + 1, i + |p|)
  }

  ghost predicate Overlap(s: string, p: string, from: int) {
    exists i :: from <= i && OverlapAt(s, p, i)
  }

  // ---- Split and join ----

  /** The pieces of s from `from` on, between the disjoint occurrences of p. */
  function SplitFrom(s: string, p: string, from: nat): (pieces: seq<string>)
    requires p != "" && from <= |s|
    ensures pieces != []
    decreases |s| - from
  {
    var i := IndexOf(s, p, from);
    if i.None? then [s[from..]] else [s[from..i.value]] + SplitFrom(s, p, i.value + |p|)
  }

  function Split(s: string, p: string): (pieces: seq<string>)
    requires p != ""
    ensures pieces != []
  {
    SplitFrom(s, p, 0)
  }

  function ReplaceAll(s: string, p: string, replacement: string): string
    requires p != ""
  {
    Join(Split(s, p), replacement)
  }

  /** These pieces joined by p are s, and p occurs in none of them. */
  ghost predicate AreParts(s: string, p: string, pieces: seq<string>) {
    && pieces != [] && Join(pieces, p) == s
    && forall piece <- pieces :: Free(piece, p)
  }

  ghost predicate Free(piece: string, p: string) {
    forall i :: !At(piece, p, i)
  }

  /** What joining the pieces with another text amounts to. */
  function ReplaceFrom(s: string, p: string, replacement: string, from: nat): string
    requires p != "" && from <= |s|
    decreases |s| - from
  {
    var i := IndexOf(s, p, from);
    if i.None? then s[from..]
    else s[from..i.value] + replacement + ReplaceFrom(s, p, replacement, i.value + |p|)
  }

  // ---- One edit: performSearchReplace ----

  datatype EditResult = EmptySearch | Written(content: string) | WrongCount(found: nat) | NotFound

  datatype Edit = Edit(search: string, replacement: string, expected: int)

  // ---- String.prototype.replace with a string pattern ----

  /** The expansion of $$, $&, $` and $' in a replacement text. */
  function Expand(replacement: string, before: string, matched: string, after: string): string {
    if PatternAt(replacement, 0) then
      (match replacement[1]
       case '$' => "$"
       case '&' => matched
       case '`' => before
       case _ => after) + Expand(replacement[2..], before, matched, after)
    else if replacement == "" then ""
    else [replacement[0]] + Expand(replacement[1..], before, matched, after)
  }

  /** $$, $&, $` or $' stands at i. */
  predicate PatternAt(replacement: string, i: int) {
    0 <= i < |replacement| - 1 && replacement[i] == '$' && replacement[i + 1] in "$&`'"
  }

  ghost predicate HasPattern(replacement: string) {
    exists i :: PatternAt(replacement, i)
  }

  // ---- A batch: performExactBatch ----

  datatype BatchResult = Applied(content: string) | Rejected(expected: int, found: nat)

  function ReplaceFirst(s: string, p: string, replacement: string): string {
    var i := IndexOf(s, p, 0);
    if i.None? then s
    else
      s[..i.value] + Expand(replacement, s[..i.value], p, s[i.value + |p|..]) + s[i.value + |p|..]
  }
}
