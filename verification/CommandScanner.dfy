/** The shell-command scanner (src/command-manager.ts, extractCommands). */
module CommandScanner {
  import opened Prelude
  import opened CommandModel
  import opened CommandLemmas

  lemma DedupConcat<T>(a: seq<T>, b: seq<T>)
    ensures Dedup(Dedup(a) + Dedup(b)) == Dedup(a + b)
  {
    AddNewConcat([], Dedup(a), Dedup(b));
    AddNewTwice([], [], a);
    AddNewTwice(Dedup(a), [], b);
    AddNewConcat([], a, b);
  }

  lemma TrimIsInvisible(base: Base, s: string)
    ensures Raw(base, Trim(s)) == Raw(base, s)
  {
    var before := TrimLeftSplit(s);
    var t := TrimLeft(s);
    var after := TrimRightSplit(t);
    ScanBlankAfter(base, TrimRight(t), after, Start);
    LeadingBlank(base, before, t);
  }

  /** Joining two command lines with a separator gives the commands of the first followed by those of the second. */
  lemma {:induction false} SequenceIsCompositional(base: Base, a: string, op: string, b: string)
    requires Balanced(a) && IsSeparator(op) && Separate(a, op) && (op == "&" || op == "|" ==> Separate(op, b))
    ensures Extract(base, a + op + b) == Dedup(Extract(base, a) + Extract(base, b))
  {
    RawJoined(base, a, op, b);
    ExtractJoined(base, a + op + b, a, b);
  }

  lemma {:induction false} RawJoined(base: Base, a: string, op: string, b: string)
    requires Balanced(a) && IsSeparator(op) && Separate(a, op) && (op == "&" || op == "|" ==> Separate(op, b))
    ensures Raw(base, a + op + b) == Raw(base, a) + Raw(base, b)
  {
    RawSequence(base, a, op, b);
    assert a + op + b == a + (op + b);
  }

  lemma {:induction false} ExtractJoined(base: Base, s: string, a: string, b: string)
    requires Raw(base, s) == Raw(base, a) + Raw(base, b)
    ensures Extract(base, s) == Dedup(Extract(base, a) + Extract(base, b))
  {
    TrimIsInvisible(base, s);
    TrimIsInvisible(base, a);
    TrimIsInvisible(base, b);
    DedupConcat(Raw(base, a), Raw(base, b));
  }

  lemma {:induction false} ExtractFromScan(base: Base, s: string, found: seq<string>)
    requires Flush(base, ScanFrom(base, s, Start)) == found
    ensures Extract(base, s) == Dedup(found)
  {
    TrimIsInvisible(base, s);
  }

  /** The commands of a line, told from its tokens alone. */
  lemma {:induction false} TokensExact(base: Base, ts: seq<Token>)
    requires Tokenizes(ts, None)
    ensures Extract(base, Text(ts)) == Dedup(Meaning(base, ts, None, ""))
  {
    var named := Meaning(base, ts, None, "");
    TokenScan(base, ts, Start);
    assert [] + named == named;
    ExtractFromScan(base, Text(ts), named);
  }

  /** Every command line whatever is made of tokens, so its commands are told. */
  lemma {:induction false} EveryLineIsTokens(base: Base, s: string) returns (ts: seq<Token>)
    ensures Text(ts) == s && Tokenizes(ts, None) && Extract(base, s) == Dedup(Meaning(base, ts, None, ""))
  {
    ts := HasTokens(s, None);
    TokensExact(base, ts);
  }

  /** Commands that quote and escape as they like, joined by a separator, give the base command of each of them that has
      one, in order, once: separators, parentheses and the other quote are text within quotes. */
  lemma {:induction false} PlainCommands(base: Base, parts: seq<string>, op: string)
    requires parts != [] && IsSeparator(op) && forall part <- parts :: part != "" && WellQuoted(part, None)
    ensures Extract(base, Joined(parts, op)) == Dedup(NamesOf(base, parts))
  {
    var names := NamesOf(base, parts);
    PlainRaws(base, parts, op, Start);
    assert [] + names == names;
    ExtractFromScan(base, Joined(parts, op), names);
  }

  lemma {:induction false} PlainRaws(base: Base, parts: seq<string>, op: string, st: Scan)
    requires parts != [] && IsSeparator(op) && forall part <- parts :: part != "" && WellQuoted(part, None)
    requires st.quote.None? && !st.escaped && st.cur == ""
    ensures Flush(base, ScanFrom(base, Joined(parts, op), st)) == st.cmds + NamesOf(base, parts)
    decreases |parts|
  {
    assert parts[0] in parts;
    if |parts| == 1 {
      LastWord(base, parts[0], st);
      assert parts[1..] == [] && Named(base, parts[0]) + [] == Named(base, parts[0]);
    } else {
      assert forall part <- parts[1..] :: part in parts;
      var names := st.cmds + Named(base, parts[0]);
      PlainRaws(base, parts[1..], op, Start.(cmds := names));
      FirstOfMany(base, parts, op, st);
      Regroup(st.cmds, Named(base, parts[0]), NamesOf(base, parts[1..]));
    }
  }

  lemma {:induction false} FirstOfMany(base: Base, parts: seq<string>, op: string, st: Scan)
    requires |parts| > 1 && IsSeparator(op) && forall part <- parts :: part != "" && WellQuoted(part, None)
    requires st.quote.None? && !st.escaped && st.cur == ""
    ensures
      var names := st.cmds + Named(base, parts[0]);
      ScanFrom(base, Joined(parts, op), st) == ScanFrom(base, Joined(parts[1..], op), Start.(cmds := names))
  {
    assert parts[0] in parts && parts[1] in parts && parts[1..][0] == parts[1];
    NoOperatorFirst(parts[1..], op);
    FirstWord(base, parts[0], op, Joined(parts[1..], op), st);
  }

  lemma {:induction false} NoOperatorFirst(parts: seq<string>, op: string)
    requires parts != [] && parts[0] != "" && WellQuoted(parts[0], None) && IsSeparator(op)
    ensures Separate(op, Joined(parts, op)) || |op| == 2
  {
    var first := parts[0];
    var line := Joined(parts, op);
    assert line[0] == first[0];
    assert first[0] != '&' && first[0] != '|' && first[0] != '(';
  }

  lemma {:induction false} LastWord(base: Base, word: string, st: Scan)
    requires WellQuoted(word, None) && st.quote.None? && !st.escaped && st.cur == ""
    ensures Flush(base, ScanFrom(base, word, st)) == st.cmds + Named(base, word)
  {
    WordScan(base, word, "", st);
    assert word + "" == word && "" + word == word;
    FlushAddsNamed(base, st.(cur := word));
  }

  lemma {:induction false} FirstWord(base: Base, word: string, op: string, tail: string, st: Scan)
    requires word != "" && WellQuoted(word, None) && st.quote.None? && !st.escaped && st.cur == ""
    requires IsSeparator(op) && (op == "&" || op == "|" ==> Separate(op, tail))
    ensures ScanFrom(base, word + op + tail, st) == ScanFrom(base, tail, Start.(cmds := st.cmds + Named(base, word)))
  {
    var read := st.(cur := word);
    WordScan(base, word, op + tail, st);
    Regroup(word, op, tail);
    assert st.(quote := None, cur := st.cur + word) == read;
    FlushAddsNamed(base, read);
    SeparatorStep(base, op, tail, read);
  }

  /** A nested command line that the scanner meets contributes all of its commands. */
  lemma NestedContributes(base: Base, pre: string, nested: string, inner: string, post: string)
    requires Clean(pre, None, false) && !EndState(pre, None, false).1 && Separate(pre, nested)
    requires nested != ""
    requires
      var l := Classify(nested + post, EndState(pre, None, false).0, false);
      l.Nested? && l.inner == inner
    ensures forall x <- Extract(base, inner) :: x in Extract(base, pre + nested + post)
  {
    var s, tail := pre + nested + post, nested + post;
    assert s == pre + tail;
    ScanExtends(base, pre, tail, Start);
    var mid := ScanFrom(base, pre, Start);
    var next := Step(base, tail, mid);
    assert next.cmds == mid.cmds + Extract(base, inner);
    CommandsOnlyGrow(base, tail[Classify(tail, mid.quote, mid.escaped).Length()..], next);
    TrimIsInvisible(base, s);
    AddNewMembers([], Raw(base, s));
  }

  /** $(inner) counts even inside quotes. */
  lemma SubstitutionContributes(base: Base, pre: string, inner: string, post: string)
    requires Clean(pre, None, false) && !EndState(pre, None, false).1 && ParensPair(inner, 0)
    ensures forall x <- Extract(base, inner) :: x in Extract(base, pre + ("$(" + inner + ")") + post)
  {
    var nested := "$(" + inner + ")";
    var tail := nested + post;
    assert tail[2..] == inner + ")" + post;
    PairedIsMatched(inner, post, 0);
    assert tail[2..2 + |inner|] == inner;
    QuoteStaysAQuote(pre, None, false);
    NestedContributes(base, pre, nested, inner, post);
  }

  /** `inner` counts even inside quotes. */
  lemma BacktickContributes(base: Base, pre: string, inner: string, post: string)
    requires Clean(pre, None, false) && !EndState(pre, None, false).1 && '`' !in inner
    ensures forall x <- Extract(base, inner) :: x in Extract(base, pre + ("`" + inner + "`") + post)
  {
    var nested := "`" + inner + "`";
    var tail := nested + post;
    assert tail[1..] == inner + "`" + post;
    FirstTick(inner, post);
    assert tail[1..1 + |inner|] == inner;
    QuoteStaysAQuote(pre, None, false);
    NestedContributes(base, pre, nested, inner, post);
  }

  /** (inner) counts outside quotes; after a $ it would be a substitution. */
  lemma SubshellContributes(base: Base, pre: string, inner: string, post: string)
    requires Balanced(pre) && ParensPair(inner, 0) && Separate(pre, "(")
    ensures forall x <- Extract(base, inner) :: x in Extract(base, pre + ("(" + inner + ")") + post)
  {
    var nested := "(" + inner + ")";
    var tail := nested + post;
    assert tail[1..] == inner + ")" + post;
    PairedIsMatched(inner, post, 0);
    assert tail[1..1 + |inner|] == inner;
    NestedContributes(base, pre, nested, inner, post);
  }

  /** The paren-counting loop: the position after the matching parenthesis. */
  method SkipParens(s: string, from: nat) returns (j: nat, openParens: nat)
    requires from <= |s|
    ensures openParens == 0 <==> MatchParen(s[from..], 1).Some?
    ensures openParens == 0 ==> j == from + MatchParen(s[from..], 1).value
  {
    openParens, j := 1, from;
    while j < |s| && openParens > 0
      invariant from <= j <= |s|
      invariant MatchParen(s[from..], 1) ==
        var rest := MatchParen(s[j..], openParens);
        if rest.Some? then Some(rest.value + (j - from)) else None
    {
      MatchParenUnfold(s, j, openParens);
      if s[j] == '(' {
        openParens := openParens + 1;
      }
      if s[j] == ')' {
        openParens := openParens - 1;
      }
      j := j + 1;
    }
    MatchParenUnfold(s, j, openParens);
  }

  method SkipToTick(s: string, from: nat) returns (j: nat)
    requires from <= |s|
    ensures from <= j <= |s|
    ensures j < |s| <==> FindTick(s[from..]).Some?
    ensures j < |s| ==> j == from + FindTick(s[from..]).value
  {
    j := from;
    while j < |s| && s[j] != '`'
      invariant from <= j <= |s|
      invariant FindTick(s[from..]) ==
        var rest := FindTick(s[j..]);
        if rest.Some? then Some(rest.value + (j - from)) else None
    {
      assert s[j..][1..] == s[j + 1..];
      j := j + 1;
    }
  }

  /** Trying the separators in turn at position i. */
  method FindSeparator(s: string, i: nat) returns (length: nat)
    requires i < |s|
    ensures length == SeparatorAt(s[i..]) && i + length <= |s|
  {
    var separators := [";", "&&", "||", "|", "&"];
    length := 0;
    for k := 0 to |separators|
      invariant length == 0
      invariant forall m :: 0 <= m < k ==> !(separators[m] <= s[i..])
    {
      if separators[k] <= s[i..] {
        length := |separators[k]|;
        SeparatorFound(s[i..], k);
        return;
      }
    }
    NoSeparator(s[i..]);
  }

  /** Looking for $(..), then `..`, then, outside quotes, (..) at position i. */
  method FindNested(s: string, i: nat, inQuote: bool) returns (n: nat, open: nat)
    requires i < |s|
    ensures n > 0 <==> NestedAt(s[i..], inQuote).Some?
    ensures n > 0 ==> (n, open) == NestedAt(s[i..], inQuote).value
  {
    n, open := 0, 0;
    var c := s[i];
    assert s[i..][1..] == s[i + 1..];
    if c == '$' && i + 1 < |s| && s[i + 1] == '(' {
      assert s[i..][2..] == s[i + 2..];
      var j, openParens := SkipParens(s, i + 2);
      if openParens == 0 {
        return j - i, 2;
      }
    }
    if c == '`' {
      var j := SkipToTick(s, i + 1);
      if j < |s| {
        return j + 1 - i, 1;
      }
    }
    if !inQuote && c == '(' {
      var j, openParens := SkipParens(s, i + 1);
      if openParens == 0 {
        return j - i, 1;
      }
    }
  }

  /** The branches for escapes and quotes. */
  method ReadQuoting(c: char, st: Scan) returns (handled: bool, inQuote: bool, quoteChar: char, escaped: bool, currentCmd: string)
    ensures forall s: string | s != "" && s[0] == c ::
      var l := Classify(s, st.quote, st.escaped);
      && handled == (l.Backslash? || l.Escaped? || l.OpenQuote? || l.CloseQuote?)
      && (handled ==>
            LoopState(inQuote, quoteChar, escaped, currentCmd, st.cmds)
            == Scan(QuoteAfter(l, c, st.quote), l.Backslash?, st.cur + [c], st.cmds))
    ensures !handled ==> LoopState(inQuote, quoteChar, escaped, currentCmd, st.cmds) == st
  {
    handled, inQuote, quoteChar, escaped, currentCmd := true, st.quote.Some?, if st.quote.Some? then st.quote.value else ' ', st.escaped, st.cur + [c];
    if c == '\\' && !escaped {
      escaped := true;
    } else if escaped {
      escaped := false;
    } else if (c == '"' || c == '\'') && !inQuote {
      inQuote, quoteChar := true, c;
    } else if inQuote && c == quoteChar {
      inQuote := false;
    } else {
      handled, currentCmd := false, st.cur;
    }
  }

  method AddPending(base: Base, st: Scan) returns (commands: seq<string>)
    ensures commands == Flush(base, st)
  {
    commands := st.cmds;
    if Trim(st.cur) != "" {
      var baseCommand := base(Trim(st.cur));
      if baseCommand.Some? {
        commands := commands + [baseCommand.value];
      }
    }
  }

  /** One round of the loop: the lexeme at position i is scanned. */
  method ScanOne(base: Base, s: string, i: nat, st: Scan) returns (next: Scan, j: nat)
    requires i < |s|
    ensures next == Step(base, s[i..], st) && j == i + Classify(s[i..], st.quote, st.escaped).Length()
    decreases |s|, 0
  {
    var handled, inQuote, quoteChar, escaped, currentCmd := ReadQuoting(s[i], st);
    var n, open := FindNested(s, i, inQuote);
    var length := FindSeparator(s, i);
    if handled {
      next, j := LoopState(inQuote, quoteChar, escaped, currentCmd, st.cmds), i + 1;
    } else if n > 0 {
      NestedStep(base, s, i, st, n, open);
      var subCommands := ExtractCommands(base, s[i + open..i + n - 1]);
      next := st.(cur := if inQuote then currentCmd + s[i..i + n] else currentCmd, cmds := st.cmds + subCommands);
      j := i + n;
    } else if inQuote || length == 0 {
      next, j := st.(cur := currentCmd + [s[i]]), i + 1;
    } else {
      var commands := AddPending(base, st);
      next, j := st.(cur := "", cmds := commands), i + length;
    }
  }

  method ExtractCommands(base: Base, commandString: string) returns (found: seq<string>)
    ensures found == Extract(base, commandString)
    decreases |commandString|, 1
  {
    var s := Trim(commandString);
    var st := Start;
    var i := 0;
    assert s[0..] == s;
    while i < |s|
      invariant 0 <= i <= |s|
      invariant ScanFrom(base, s[i..], st) == ScanFrom(base, s, Start)
      decreases |s| - i
    {
      var next, j := ScanOne(base, s, i, st);
      assert s[i..][j - i..] == s[j..];
      st, i := next, j;
    }
    assert s[i..] == "";
    var commands := AddPending(base, st);
    found := Dedup(commands);
  }
}
