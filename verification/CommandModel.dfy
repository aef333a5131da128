/** What the shell-command scanner computes (src/command-manager.ts): trimming, nesting, and the scan of one command line
    as a function of the text that is left. `base` stands for extractBaseCommand, whose regular expressions are not
    modelled. */
module CommandModel {
  import opened Prelude

  type Base = string -> Option<string>

  // ---- Whitespace ----

  /** The characters String.prototype.trim removes. */
  predicate IsSpace(c: char) {
    '\t' <= c <= '\r' || c == ' ' || c == '\U{00A0}' || c == '\U{1680}' || '\U{2000}' <= c <= '\U{200A}'
    || c == '\U{2028}' || c == '\U{2029}' || c == '\U{202F}' || c == '\U{205F}' || c == '\U{3000}' || c == '\U{FEFF}'
  }

  predicate Blank(s: string) {
    forall i :: 0 <= i < |s| ==> IsSpace(s[i])
  }

  function TrimLeft(s: string): (t: string)
    ensures |t| <= |s|
  {
    if s != "" && IsSpace(s[0]) then TrimLeft(s[1..]) else s
  }

  function TrimRight(s: string): (t: string)
    ensures |t| <= |s|
  {
    if s != "" && IsSpace(s[|s| - 1]) then TrimRight(s[..|s| - 1]) else s
  }

  function Trim(s: string): (t: string)
    ensures |t| <= |s|
  {
    TrimRight(TrimLeft(s))
  }

  // ---- What stands at the front of the remaining text ----

  datatype Lexeme =
    | Backslash
    | Escaped
    | OpenQuote
    | CloseQuote
    | Nested(length: nat, inner: string)  // $(inner), `inner` or (inner)
    | Separator(length: nat)
    | Plain
  {
    function Length(): nat {
      if Nested? || Separator? then length else 1
    }
  }

  /** The number of characters up to the parenthesis that closes the last of `depth` open ones. */
  function MatchParen(s: string, depth: nat): (n: Option<nat>)
    ensures n.Some? ==> n.value <= |s| && (depth > 0 ==> n.value > 0)
  {
    if depth == 0 then Some(0)
    else if s == "" then None
    else
      var rest := MatchParen(s[1..], if s[0] == '(' then depth + 1 else if s[0] == ')' then depth - 1 else depth);
      if rest.Some? then Some(rest.value + 1) else None
  }

  /** The position of the first backtick. */
  function FindTick(s: string): (n: Option<nat>)
    ensures n.Some? ==> n.value < |s| && s[n.value] == '`'
  {
    if s == "" then None
    else if s[0] == '`' then Some(0)
    else
      var rest := FindTick(s[1..]);
      if rest.Some? then Some(rest.value + 1) else None
  }

  /** The separators are tried in the order ; && || | &. */
  function SeparatorAt(s: string): (n: nat)
    requires s != ""
    ensures n <= 2 && n <= |s|
  {
    if s[0] == ';' then 1
    else if |s| > 1 && s[0] == '&' && s[1] == '&' then 2
    else if |s| > 1 && s[0] == '|' && s[1] == '|' then 2
    else if s[0] == '|' || s[0] == '&' then 1
    else 0
  }

  predicate IsDollarParen(s: string) {
    |s| > 1 && s[0] == '$' && s[1] == '('
  }

  /** The length of a closed $(..) at the front. */
  function DollarParen(s: string): (n: Option<nat>)
    ensures n.Some? ==> 3 <= n.value <= |s|
  {
    if IsDollarParen(s) && MatchParen(s[2..], 1).Some? then Some(2 + MatchParen(s[2..], 1).value) else None
  }

  /** The length of a closed `..` at the front. */
  function Backticked(s: string): (n: Option<nat>)
    ensures n.Some? ==> 2 <= n.value <= |s|
  {
    if s != "" && s[0] == '`' && FindTick(s[1..]).Some? then Some(2 + FindTick(s[1..]).value) else None
  }

  /** The length of a closed (..) at the front. */
  function Parenthesized(s: string): (n: Option<nat>)
    ensures n.Some? ==> 2 <= n.value <= |s|
  {
    if s != "" && s[0] == '(' && MatchParen(s[1..], 1).Some? then Some(1 + MatchParen(s[1..], 1).value) else None
  }

  /** A closed nested command line at the front: its length and that of its opener. Quotes hide only (..). */
  function NestedAt(s: string, quoted: bool): (found: Option<(nat, nat)>)
    ensures found.Some? ==> 1 <= found.value.1 < found.value.0 <= |s|
  {
    if DollarParen(s).Some? then Some((DollarParen(s).value, 2))
    else if Backticked(s).Some? then Some((Backticked(s).value, 1))
    else if !quoted && Parenthesized(s).Some? then Some((Parenthesized(s).value, 1))
    else None
  }

  function Classify(s: string, quote: Option<char>, escaped: bool): (l: Lexeme)
    requires s != ""
    ensures 1 <= l.Length() <= |s|
    ensures l.Nested? ==> |l.inner| < |s|
  {
    var c := s[0];
    if c == '\\' && !escaped then Backslash
    else if escaped then Escaped
    else if (c == '"' || c == '\'') && quote.None? then OpenQuote
    else if quote == Some(c) then CloseQuote
    else if NestedAt(s, quote.Some?).Some? then
      var (n, open) := NestedAt(s, quote.Some?).value;
      Nested(n, s[open..n - 1])
    else if quote.Some? then Plain
    else if SeparatorAt(s) > 0 then Separator(SeparatorAt(s))
    else Plain
  }

  function QuoteAfter(l: Lexeme, c: char, quote: Option<char>): Option<char> {
    if l.OpenQuote? then Some(c) else if l.CloseQuote? then None else quote
  }

  // ---- The scan ----

  datatype Scan = Scan(quote: Option<char>, escaped: bool, cur: string, cmds: seq<string>)

  const Start := Scan(None, false, "", [])

  /** The commands with the pending one added. */
  function Flush(base: Base, st: Scan): seq<string> {
    if Trim(st.cur) == "" then st.cmds
    else
      match base(Trim(st.cur))
      case Some(name) => st.cmds + [name]
      case None => st.cmds
  }

  function ScanFrom(base: Base, s: string, st: Scan): Scan
    decreases |s|, 1
  {
    if s == "" then st
    else
      var l := Classify(s, st.quote, st.escaped);
      ScanFrom(base, s[l.Length()..], Step(base, s, st))
  }

  function Step(base: Base, s: string, st: Scan): Scan
    requires s != ""
    decreases |s|, 0
  {
    var l := Classify(s, st.quote, st.escaped);
    var after := st.(quote := QuoteAfter(l, s[0], st.quote), escaped := l.Backslash?);
    match l
    case Nested(n, inner) =>
      after.(cur := if st.quote.Some? then st.cur + s[..n] else st.cur, cmds := st.cmds + Extract(base, inner))
    case Separator(_) => after.(cur := "", cmds := Flush(base, st))
    case _ => after.(cur := st.cur + [s[0]])
  }

  /** All the commands, repetitions included. */
  function Raw(base: Base, s: string): seq<string>
    decreases |s|, 2
  {
    Flush(base, ScanFrom(base, s, Start))
  }

  function Extract(base: Base, s: string): seq<string>
    decreases |s|, 3
  {
    Dedup(Raw(base, Trim(s)))
  }

  // ---- Keeping first occurrences ----

  function AddNew<T(==)>(kept: seq<T>, xs: seq<T>): seq<T>
    decreases |xs|
  {
    if xs == [] then kept else AddNew(if xs[0] in kept then kept else kept + [xs[0]], xs[1..])
  }

  function Dedup<T(==)>(xs: seq<T>): seq<T> {
    AddNew([], xs)
  }

  ghost predicate Distinct<T>(xs: seq<T>) {
    forall i, j :: 0 <= i < j < |xs| ==> xs[i] != xs[j]
  }

  // ---- Text that leaves nothing open ----

  /** An opening `$(`, backtick or, outside quotes, parenthesis whose closing partner is missing. */
  predicate Dangling(s: string, quote: Option<char>, escaped: bool)
    requires s != ""
  {
    && Classify(s, quote, escaped).Plain?
    && (s[0] == '`' || IsDollarParen(s) || (quote.None? && s[0] == '('))
  }

  /** No opener dangles, scanning from this quote and escape state. */
  predicate Clean(s: string, quote: Option<char>, escaped: bool)
    decreases |s|
  {
    s == "" ||
    var l := Classify(s, quote, escaped);
    !Dangling(s, quote, escaped) && Clean(s[l.Length()..], QuoteAfter(l, s[0], quote), l.Backslash?)
  }

  /** The quote and escape state at the end of the text. */
  function EndState(s: string, quote: Option<char>, escaped: bool): (Option<char>, bool)
    decreases |s|
  {
    if s == "" then (quote, escaped)
    else
      var l := Classify(s, quote, escaped);
      EndState(s[l.Length()..], QuoteAfter(l, s[0], quote), l.Backslash?)
  }

  /** Every quote, escape, backtick and parenthesis opened in s closes in s. */
  predicate Balanced(s: string) {
    Clean(s, None, false) && EndState(s, None, false) == (None, false)
  }

  /** t cannot turn the last character of s into the start of a longer token. */
  predicate Separate(s: string, t: string) {
    s == "" || t == "" ||
    var c := s[|s| - 1];
    && (t[0] == '(' ==> c != '$')
    && (t[0] == '&' ==> c != '&')
    && (t[0] == '|' ==> c != '|')
  }

  predicate IsSeparator(op: string) {
    op == ";" || op == "&&" || op == "||" || op == "|" || op == "&"
  }

  // ---- Substitutions and subshells ----

  /** The parentheses of s pair up, with `depth` of them open before it. */
  predicate ParensPair(s: string, depth: nat) {
    if s == "" then depth == 0
    else if s[0] == '(' then ParensPair(s[1..], depth + 1)
    else if s[0] == ')' then depth > 0 && ParensPair(s[1..], depth - 1)
    else ParensPair(s[1..], depth)
  }

  /** The scanner state as the loop keeps it. */
  function LoopState(inQuote: bool, quoteChar: char, escaped: bool, currentCmd: string, commands: seq<string>): Scan {
    Scan(if inQuote then Some(quoteChar) else None, escaped, currentCmd, commands)
  }

  // ---- Reference: a command line is a list of tokens ----

  datatype Token =
    | Character(c: char)
    | Backslashed(c: char)
    | QuoteMark(q: char)
    | Substitution(inner: string)
    | Ticked(inner: string)
    | Subshell(inner: string)
    | Operator(op: string)

  function TokenText(t: Token): string {
    match t
    case Character(c) => [c]
    case Backslashed(c) => ['\\', c]
    case QuoteMark(q) => [q]
    case Substitution(inner) => "$(" + inner + ")"
    case Ticked(inner) => "`" + inner + "`"
    case Subshell(inner) => "(" + inner + ")"
    case Operator(op) => op
  }

  function Text(ts: seq<Token>): string {
    if ts == [] then "" else TokenText(ts[0]) + Text(ts[1..])
  }

  /** An open parenthesis before s finds its partner in s. */
  predicate Closes(s: string) {
    exists n :: 0 <= n < |s| && s[n] == ')' && ParensPair(s[..n], 0)
  }

  /** The token may stand here, in these quotes and before this text. In quotes, operators, parentheses and the other quote
      are characters like others; an opener without a partner is one anywhere, and so is a backslash at the end. */
  predicate MayStand(t: Token, quote: Option<char>, rest: string) {
    match t
    case Character(c) =>
      && (c == '\\' ==> rest == "")
      && (c == '`' ==> '`' !in rest)
      && (c == '$' && rest != "" && rest[0] == '(' ==> !Closes(rest[1..]))
      && if quote.Some? then c != quote.value else c !in "\"';&|" && (c == '(' ==> !Closes(rest))
    case Backslashed(_) => true
    case QuoteMark(q) => (q == '"' || q == '\'') && (quote.None? || quote == Some(q))
    case Substitution(inner) => ParensPair(inner, 0)
    case Ticked(inner) => '`' !in inner
    case Subshell(inner) => quote.None? && ParensPair(inner, 0)
    case Operator(op) => quote.None? && IsSeparator(op) && (op == "&" || op == "|" ==> Separate(op, rest))
  }

  function QuoteBeyond(t: Token, quote: Option<char>): Option<char> {
    if !t.QuoteMark? then quote else if quote.None? then Some(t.q) else None
  }

  predicate Tokenizes(ts: seq<Token>, quote: Option<char>) {
    ts == [] || (MayStand(ts[0], quote, Text(ts[1..])) && Tokenizes(ts[1..], QuoteBeyond(ts[0], quote)))
  }

  /** The base command of one command, if it has one. */
  function Named(base: Base, s: string): seq<string> {
    var word := Trim(s);
    if word == "" || base(word).None? then [] else [base(word).value]
  }

  /** The commands of the tokens: those of a nested line where it stands; and at every operator and at the end the one that
      has been written since the last operator, nested lines left out unless they are in quotes. */
  function Meaning(base: Base, ts: seq<Token>, quote: Option<char>, cur: string): seq<string> {
    if ts == [] then Named(base, cur)
    else
      var t, rest := ts[0], ts[1..];
      match t
      case Operator(_) => Named(base, cur) + Meaning(base, rest, quote, "")
      case Substitution(inner) =>
        Extract(base, inner) + Meaning(base, rest, quote, if quote.Some? then cur + TokenText(t) else cur)
      case Ticked(inner) =>
        Extract(base, inner) + Meaning(base, rest, quote, if quote.Some? then cur + TokenText(t) else cur)
      case Subshell(inner) => Extract(base, inner) + Meaning(base, rest, quote, cur)
      case _ => Meaning(base, rest, QuoteBeyond(t, quote), cur + TokenText(t))
  }

  // ---- Commands with quotes and escapes, but without nesting ----

  /** Plain characters, backslashed characters and quoted runs; a run holds anything but its quote, a backslash, a dollar
      sign or a backtick. */
  predicate WellQuoted(s: string, quote: Option<char>) {
    if s == "" then quote.None?
    else
      match quote
      case None =>
        if s[0] == '\\' then |s| > 1 && WellQuoted(s[2..], None)
        else if s[0] == '"' || s[0] == '\'' then WellQuoted(s[1..], Some(s[0]))
        else s[0] !in "`$(;&|" && WellQuoted(s[1..], None)
      case Some(q) => if s[0] == q then WellQuoted(s[1..], None) else s[0] !in "\\$`" && WellQuoted(s[1..], quote)
  }

  function NamesOf(base: Base, parts: seq<string>): seq<string> {
    if parts == [] then [] else Named(base, parts[0]) + NamesOf(base, parts[1..])
  }

  function Joined(parts: seq<string>, op: string): string
    requires parts != []
  {
    if |parts| == 1 then parts[0] else parts[0] + op + Joined(parts[1..], op)
  }
}
