/** Lemmas about the scan of a command line. A scan state that is outside of everything forgets what has been read, so
    text may be put before or after a command line as long as it closes what it opens; blanks at either end change neither
    what is matched nor what is collected; and the commands that have been found once are never lost again by what follows
    them, whatever is still pending. */
module CommandLemmas {
  import opened Prelude
  import opened CommandModel

  lemma {:induction false} AddNewMembers<T>(kept: seq<T>, xs: seq<T>)
    requires Distinct(kept)
    ensures Distinct(AddNew(kept, xs))
    ensures forall x :: x in AddNew(kept, xs) <==> x in kept || x in xs
    decreases |xs|
  {
    if xs != [] {
      var kept' := if xs[0] in kept then kept else kept + [xs[0]];
      AddNewMembers(kept', xs[1..]);
      assert forall x :: x in xs <==> x == xs[0] || x in xs[1..];
    }
  }

  lemma {:induction false} AddNewConcat<T>(kept: seq<T>, a: seq<T>, b: seq<T>)
    ensures AddNew(kept, a + b) == AddNew(AddNew(kept, a), b)
    decreases |a|
  {
    if a == [] {
      assert a + b == b;
    } else {
      assert (a + b)[1..] == a[1..] + b;
      AddNewConcat(if a[0] in kept then kept else kept + [a[0]], a[1..], b);
    }
  }

  /** Adding the elements of xs after those of ys were added, or only the ones that are new to ys. */
  lemma {:induction false} AddNewTwice<T>(kept: seq<T>, ys: seq<T>, xs: seq<T>)
    ensures AddNew(kept, AddNew(ys, xs)) == AddNew(AddNew(kept, ys), xs)
    decreases |xs|
  {
    if xs != [] {
      var x := xs[0];
      AddNewConcat(kept, ys, [x]);
      AddNewAll(kept, ys);
      assert AddNew(AddNew(kept, ys), [x]) == if x in AddNew(kept, ys) then AddNew(kept, ys) else AddNew(kept, ys) + [x] by {
        assert [x][1..] == [];
      }
      AddNewTwice(kept, if x in ys then ys else ys + [x], xs[1..]);
    }
  }

  lemma {:induction false} AddNewAll<T>(kept: seq<T>, xs: seq<T>)
    ensures forall x :: x in kept || x in xs ==> x in AddNew(kept, xs)
    decreases |xs|
  {
    if xs != [] {
      AddNewAll(if xs[0] in kept then kept else kept + [xs[0]], xs[1..]);
    }
  }

  // ---- Trimming does not change the commands ----

  lemma {:induction false} TrimLeftBlank(w: string, s: string)
    requires Blank(w)
    ensures TrimLeft(w + s) == TrimLeft(s)
  {
    if w == "" {
      assert w + s == s;
    } else {
      assert (w + s)[1..] == w[1..] + s;
      TrimLeftBlank(w[1..], s);
    }
  }

  lemma {:induction false} TrimRightBlank(s: string, w: string)
    requires Blank(w)
    ensures TrimRight(s + w) == TrimRight(s)
  {
    if w == "" {
      assert s + w == s;
    } else {
      assert (s + w)[..|s + w| - 1] == s + w[..|w| - 1];
      TrimRightBlank(s, w[..|w| - 1]);
    }
  }

  lemma {:induction false} TrimLeftSplit(s: string) returns (w: string)
    ensures Blank(w) && s == w + TrimLeft(s)
    ensures TrimLeft(s) != "" ==> !IsSpace(TrimLeft(s)[0])
  {
    if s != "" && IsSpace(s[0]) {
      w := TrimLeftSplit(s[1..]);
      assert s == [s[0]] + s[1..];
      w := [s[0]] + w;
    } else {
      w := "";
    }
  }

  lemma {:induction false} TrimRightSplit(s: string) returns (w: string)
    ensures Blank(w) && s == TrimRight(s) + w
  {
    if s != "" && IsSpace(s[|s| - 1]) {
      w := TrimRightSplit(s[..|s| - 1]);
      assert s == s[..|s| - 1] + [s[|s| - 1]];
      w := w + [s[|s| - 1]];
    } else {
      w := "";
    }
  }

  lemma TrimBlankBefore(w: string, s: string)
    requires Blank(w)
    ensures Trim(w + s) == Trim(s)
  {
    TrimLeftBlank(w, s);
  }

  lemma TrimBlankAfter(s: string, w: string)
    requires Blank(w)
    ensures Trim(s + w) == Trim(s)
  {
    var v := TrimLeftSplit(s);
    var t := TrimLeft(s);
    if t == "" {
      assert s + w == v + w;
      TrimLeftBlank(v + w, "");
      assert v + w + "" == v + w;
    } else {
      assert s + w == v + (t + w);
      TrimLeftBlank(v, t + w);
      assert TrimLeft(t + w) == t + w;
      TrimRightBlank(t, w);
    }
  }

  lemma {:induction false} BlankIsInvisibleToMatching(s: string, w: string, depth: nat)
    requires Blank(w)
    ensures MatchParen(s + w, depth) == MatchParen(s, depth)
    ensures FindTick(s + w) == FindTick(s)
    decreases |s + w|
  {
    if s != "" {
      assert (s + w)[1..] == s[1..] + w;
      BlankIsInvisibleToMatching(s[1..], w, if s[0] == '(' then depth + 1 else if s[0] == ')' && depth > 0 then depth - 1 else depth);
    } else if w != "" {
      assert s + w == w && "" + w[1..] == w[1..];
      BlankIsInvisibleToMatching("", w[1..], depth);
    } else {
      assert s + w == "";
    }
  }

  lemma {:induction false} NestingBeforeBlank(s: string, w: string)
    requires s != "" && Blank(w)
    ensures DollarParen(s + w) == DollarParen(s) && Backticked(s + w) == Backticked(s)
    ensures Parenthesized(s + w) == Parenthesized(s) && SeparatorAt(s + w) == SeparatorAt(s)
  {
    SecondBeforeBlank(s, w);
    assert (s + w)[1..] == s[1..] + w;
    BlankIsInvisibleToMatching(s[1..], w, 1);
    if |s| > 1 {
      assert (s + w)[2..] == s[2..] + w;
      BlankIsInvisibleToMatching(s[2..], w, 1);
    }
  }

  lemma {:induction false} SecondBeforeBlank(s: string, w: string)
    requires s != "" && Blank(w)
    ensures SeparatorAt(s + w) == SeparatorAt(s) && IsDollarParen(s + w) == IsDollarParen(s)
  {
    var t := s + w;
    assert t[0] == s[0] && (|s| > 1 ==> t[1] == s[1]);
    if |s| == 1 && w != "" {
      assert t[1] == w[0] && IsSpace(w[0]);
    }
  }

  lemma SameFront(s: string, t: string, from: nat)
    ensures forall n :: from <= n <= |s| ==> (s + t)[from..n] == s[from..n]
  {
  }

  lemma ClassifyBeforeBlank(s: string, w: string, quote: Option<char>, escaped: bool)
    requires s != "" && Blank(w)
    ensures Classify(s + w, quote, escaped) == Classify(s, quote, escaped)
  {
    NestingBeforeBlank(s, w);
    SameFront(s, w, 1);
    SameFront(s, w, 2);
  }

  lemma {:induction false} BlankScan(base: Base, w: string, st: Scan)
    requires Blank(w)
    ensures Flush(base, ScanFrom(base, w, st)) == Flush(base, st)
    decreases |w|
  {
    if w != "" {
      var st' := Step(base, w, st);
      assert Classify(w, st.quote, st.escaped).Length() == 1;
      assert st'.cmds == st.cmds && st'.cur == st.cur + [w[0]];
      TrimBlankAfter(st.cur, [w[0]]);
      BlankScan(base, w[1..], st');
    }
  }

  lemma {:induction false} ScanBlankAfter(base: Base, s: string, w: string, st: Scan)
    requires Blank(w)
    ensures Flush(base, ScanFrom(base, s + w, st)) == Flush(base, ScanFrom(base, s, st))
    decreases |s|
  {
    if s == "" {
      assert s + w == w;
      BlankScan(base, w, st);
    } else {
      ClassifyBeforeBlank(s, w, st.quote, st.escaped);
      var n := Classify(s, st.quote, st.escaped).Length();
      assert (s + w)[n..] == s[n..] + w && (s + w)[..n] == s[..n];
      ScanBlankAfter(base, s[n..], w, Step(base, s, st));
    }
  }

  lemma StepBlankBefore(base: Base, s: string, w: string, st: Scan)
    requires s != "" && Blank(w)
    ensures
      var padded, plain := Step(base, s, st.(cur := w + st.cur)), Step(base, s, st);
      padded == plain || padded == plain.(cur := w + plain.cur)
  {
    var l := Classify(s, st.quote, st.escaped);
    var padded, plain := Step(base, s, st.(cur := w + st.cur)), Step(base, s, st);
    if l.Separator? {
      TrimBlankBefore(w, st.cur);
      assert padded == plain;
    } else {
      assert padded.cur == w + plain.cur;
    }
  }

  lemma {:induction false} ScanBlankBefore(base: Base, s: string, w: string, st: Scan)
    requires Blank(w)
    ensures Flush(base, ScanFrom(base, s, st.(cur := w + st.cur))) == Flush(base, ScanFrom(base, s, st))
    decreases |s|
  {
    if s == "" {
      TrimBlankBefore(w, st.cur);
    } else {
      StepBlankBefore(base, s, w, st);
      var plain := Step(base, s, st);
      ScanBlankBefore(base, s[Classify(s, st.quote, st.escaped).Length()..], w, plain);
    }
  }

  lemma {:induction false} LeadingBlank(base: Base, w: string, s: string)
    requires Blank(w)
    ensures Raw(base, w + s) == Raw(base, s)
    decreases |w|
  {
    if w == "" {
      assert w + s == s;
    } else {
      var c := [w[0]];
      assert (w + s)[1..] == w[1..] + s;
      assert Classify(w + s, None, false).Plain?;
      assert Step(base, w + s, Start) == Start.(cur := c + "");
      ScanBlankBefore(base, w[1..] + s, c, Start);
      LeadingBlank(base, w[1..], s);
    }
  }

  lemma {:induction false} MatchingExtends(s: string, t: string, depth: nat)
    ensures MatchParen(s, depth).Some? ==> MatchParen(s + t, depth) == MatchParen(s, depth)
    ensures FindTick(s).Some? ==> FindTick(s + t) == FindTick(s)
    decreases |s|
  {
    if s != "" {
      assert (s + t)[1..] == s[1..] + t;
      MatchingExtends(s[1..], t, if s[0] == '(' then depth + 1 else if s[0] == ')' && depth > 0 then depth - 1 else depth);
    }
  }

  lemma {:induction false} NestingExtends(s: string, t: string)
    requires s != ""
    ensures DollarParen(s).Some? ==> DollarParen(s + t) == DollarParen(s)
    ensures Backticked(s).Some? ==> Backticked(s + t) == Backticked(s)
    ensures Parenthesized(s).Some? ==> Parenthesized(s + t) == Parenthesized(s)
  {
    assert (s + t)[1..] == s[1..] + t;
    MatchingExtends(s[1..], t, 1);
    if |s| > 1 {
      assert (s + t)[2..] == s[2..] + t;
      MatchingExtends(s[2..], t, 1);
    }
  }

  lemma {:induction false} SecondExtends(s: string, t: string)
    requires s != "" && Separate(s, t)
    ensures SeparatorAt(s + t) == SeparatorAt(s) && IsDollarParen(s + t) == IsDollarParen(s)
  {
    var st := s + t;
    assert st[0] == s[0] && (|s| > 1 ==> st[1] == s[1]);
    if |s| == 1 && t != "" {
      assert st[1] == t[0] && s[|s| - 1] == s[0];
    }
  }

  lemma ClassifyExtends(s: string, t: string, quote: Option<char>, escaped: bool)
    requires s != "" && !Dangling(s, quote, escaped) && Separate(s, t)
    ensures Classify(s + t, quote, escaped) == Classify(s, quote, escaped)
  {
    NestingExtends(s, t);
    SecondExtends(s, t);
    SameFront(s, t, 1);
    SameFront(s, t, 2);
  }

  lemma {:induction false} ScanExtends(base: Base, s: string, t: string, st: Scan)
    requires Clean(s, st.quote, st.escaped) && Separate(s, t)
    ensures ScanFrom(base, s + t, st) == ScanFrom(base, t, ScanFrom(base, s, st))
    ensures (ScanFrom(base, s, st).quote, ScanFrom(base, s, st).escaped) == EndState(s, st.quote, st.escaped)
    decreases |s|
  {
    if s == "" {
      assert s + t == t;
    } else {
      ClassifyExtends(s, t, st.quote, st.escaped);
      var n := Classify(s, st.quote, st.escaped).Length();
      assert (s + t)[n..] == s[n..] + t && (s + t)[..n] == s[..n];
      ScanExtends(base, s[n..], t, Step(base, s, st));
    }
  }

  lemma {:induction false} ScanKeepsPrefix(base: Base, s: string, st: Scan, before: seq<string>)
    ensures ScanFrom(base, s, st.(cmds := before + st.cmds)) ==
      ScanFrom(base, s, st).(cmds := before + ScanFrom(base, s, st).cmds)
    decreases |s|
  {
    if s != "" {
      var l := Classify(s, st.quote, st.escaped);
      var next := Step(base, s, st);
      assert Step(base, s, st.(cmds := before + st.cmds)) == next.(cmds := before + next.cmds);
      ScanKeepsPrefix(base, s[l.Length()..], next, before);
    }
  }

  lemma SeparatorStep(base: Base, op: string, b: string, st: Scan)
    requires IsSeparator(op) && (op == "&" || op == "|" ==> Separate(op, b))
    requires st.quote.None? && !st.escaped
    ensures ScanFrom(base, op + b, st) == ScanFrom(base, b, Start.(cmds := Flush(base, st)))
  {
    var tail := op + b;
    assert tail[0] == op[0] && (|op| > 1 ==> tail[1] == op[1]);
    assert Classify(tail, None, false) == Separator(|op|);
    assert tail[|op|..] == b;
  }

  lemma ScanFresh(base: Base, s: string, before: seq<string>)
    ensures Flush(base, ScanFrom(base, s, Start.(cmds := before))) == before + Raw(base, s)
  {
    ScanKeepsPrefix(base, s, Start, before);
    assert before + [] == before;
    var end := ScanFrom(base, s, Start);
    assert forall x :: before + (end.cmds + [x]) == before + end.cmds + [x];
  }

  lemma RawSequence(base: Base, a: string, op: string, b: string)
    requires Balanced(a) && IsSeparator(op) && Separate(a, op) && (op == "&" || op == "|" ==> Separate(op, b))
    ensures Raw(base, a + (op + b)) == Raw(base, a) + Raw(base, b)
  {
    ScanExtends(base, a, op + b, Start);
    SeparatorStep(base, op, b, ScanFrom(base, a, Start));
    ScanFresh(base, b, Raw(base, a));
  }

  lemma {:induction false} PairedIsMatched(inner: string, post: string, depth: nat)
    requires ParensPair(inner, depth)
    ensures MatchParen(inner + ")" + post, depth + 1) == Some(|inner| + 1)
    decreases |inner|
  {
    var s := inner + ")" + post;
    if inner == "" {
      assert s[0] == ')';
      assert MatchParen(s[1..], 0) == Some(0);
    } else {
      assert s[0] == inner[0] && s[1..] == inner[1..] + ")" + post;
      PairedIsMatched(inner[1..], post, if inner[0] == '(' then depth + 1 else if inner[0] == ')' then depth - 1 else depth);
    }
  }

  lemma {:induction false} FirstTick(inner: string, post: string)
    requires '`' !in inner
    ensures FindTick(inner + "`" + post) == Some(|inner|)
  {
    var s := inner + "`" + post;
    if inner == "" {
      assert s[0] == '`';
    } else {
      assert s[0] == inner[0] && s[1..] == inner[1..] + "`" + post;
      FirstTick(inner[1..], post);
    }
  }

  lemma {:induction false} CommandsOnlyGrow(base: Base, s: string, st: Scan)
    ensures forall x <- st.cmds :: x in Flush(base, ScanFrom(base, s, st))
    decreases |s|
  {
    if s != "" {
      var next := Step(base, s, st);
      assert forall x <- st.cmds :: x in next.cmds;
      CommandsOnlyGrow(base, s[Classify(s, st.quote, st.escaped).Length()..], next);
    }
  }

  lemma {:induction false} QuoteStaysAQuote(s: string, quote: Option<char>, escaped: bool)
    requires quote in {None, Some('"'), Some('\'')}
    ensures EndState(s, quote, escaped).0 in {None, Some('"'), Some('\'')}
    decreases |s|
  {
    if s != "" {
      var l := Classify(s, quote, escaped);
      QuoteStaysAQuote(s[l.Length()..], QuoteAfter(l, s[0], quote), l.Backslash?);
    }
  }

  // ---- Single steps of the scanner ----

  lemma {:induction false} MatchParenUnfold(s: string, j: nat, depth: nat)
    requires j <= |s|
    ensures depth == 0 ==> MatchParen(s[j..], depth) == Some(0)
    ensures depth > 0 && j == |s| ==> MatchParen(s[j..], depth) == None
    ensures depth > 0 && j < |s| ==>
      var rest := MatchParen(s[j + 1..], if s[j] == '(' then depth + 1 else if s[j] == ')' then depth - 1 else depth);
      MatchParen(s[j..], depth) == if rest.Some? then Some(rest.value + 1) else None
  {
    if j < |s| {
      assert s[j..][0] == s[j] && s[j..][1..] == s[j + 1..];
    }
  }

  lemma SeparatorFound(s: string, k: nat)
    requires k < 5 && [";", "&&", "||", "|", "&"][k] <= s
    requires forall m :: 0 <= m < k ==> !([";", "&&", "||", "|", "&"][m] <= s)
    ensures s != "" && SeparatorAt(s) == |[";", "&&", "||", "|", "&"][k]|
  {
    var separators := [";", "&&", "||", "|", "&"];
    assert separators[0] == ";" && separators[1] == "&&" && separators[2] == "||" && separators[3] == "|" && separators[4] == "&";
    assert |s| > 1 && s[0] == '&' && s[1] == '&' ==> s[..2] == "&&";
    assert |s| > 1 && s[0] == '|' && s[1] == '|' ==> s[..2] == "||";
    assert s[0] == separators[k][0];
  }

  lemma NoSeparator(s: string)
    requires s != ""
    requires forall m :: 0 <= m < 5 ==> !([";", "&&", "||", "|", "&"][m] <= s)
    ensures SeparatorAt(s) == 0
  {
    var separators := [";", "&&", "||", "|", "&"];
    assert !(separators[0] <= s) && !(separators[3] <= s) && !(separators[4] <= s);
    assert s[..1] == [s[0]];
  }

  lemma NestedStep(base: Base, s: string, i: nat, st: Scan, n: nat, open: nat)
    requires i < |s| && NestedAt(s[i..], st.quote.Some?) == Some((n, open))
    requires Classify(s[i..], st.quote, st.escaped).Nested?
    ensures Classify(s[i..], st.quote, st.escaped).Length() == n
    ensures Step(base, s[i..], st) ==
      st.(cur := if st.quote.Some? then st.cur + s[i..i + n] else st.cur, escaped := false,
          cmds := st.cmds + Extract(base, s[i + open..i + n - 1]))
  {
    SliceOfRest(s, i, open, n - 1);
    SliceOfRest(s, i, 0, n);
    assert s[i..][0..n] == s[i..][..n];
  }

  lemma {:induction false} SliceOfRest(s: string, i: nat, lo: nat, hi: nat)
    requires i <= |s| && lo <= hi <= |s| - i
    ensures s[i..][lo..hi] == s[i + lo..i + hi]
  {
  }

  // ---- Tokens ----

  /** The scan after one token. */
  function AfterToken(base: Base, t: Token, st: Scan): Scan {
    match t
    case Operator(_) => st.(cur := "", cmds := Flush(base, st))
    case Substitution(inner) =>
      st.(cur := if st.quote.Some? then st.cur + TokenText(t) else st.cur, cmds := st.cmds + Extract(base, inner))
    case Ticked(inner) =>
      st.(cur := if st.quote.Some? then st.cur + TokenText(t) else st.cur, cmds := st.cmds + Extract(base, inner))
    case Subshell(inner) => st.(cmds := st.cmds + Extract(base, inner))
    case _ => st.(quote := QuoteBeyond(t, st.quote), escaped := t == Character('\\'), cur := st.cur + TokenText(t))
  }

  /** A parenthesis that is matched encloses paired parentheses. */
  lemma {:induction false} MatchedIsPaired(s: string, depth: nat) returns (n: nat)
    requires MatchParen(s, depth + 1).Some?
    ensures n < |s| && s[n] == ')' && ParensPair(s[..n], depth) && MatchParen(s, depth + 1) == Some(n + 1)
    decreases |s|
  {
    if s[0] == ')' && depth == 0 {
      n := 0;
      assert MatchParen(s[1..], 0) == Some(0);
    } else {
      var m := MatchedIsPaired(s[1..], if s[0] == '(' then depth + 1 else if s[0] == ')' then depth - 1 else depth);
      n := m + 1;
      assert s[..n][1..] == s[1..][..m];
    }
  }

  lemma {:induction false} ClosesMeansMatched(s: string)
    ensures Closes(s) <==> MatchParen(s, 1).Some?
  {
    if MatchParen(s, 1).Some? {
      var n := MatchedIsPaired(s, 0);
    }
    forall n | 0 <= n < |s| && s[n] == ')' && ParensPair(s[..n], 0) ensures MatchParen(s, 1).Some? {
      PairedIsMatched(s[..n], s[n + 1..], 0);
      assert s[..n] + ")" + s[n + 1..] == s;
    }
  }

  lemma {:induction false} NoTick(s: string)
    ensures FindTick(s).None? <==> '`' !in s
  {
    if s != "" {
      NoTick(s[1..]);
    }
  }

  lemma {:induction false} CharacterLexeme(c: char, rest: string, quote: Option<char>)
    requires MayStand(Character(c), quote, rest)
    ensures Classify([c] + rest, quote, false) == if c == '\\' then Backslash else Plain
  {
    var s := [c] + rest;
    assert s[1..] == rest && s[0] == c && (rest != "" ==> s[1] == rest[0]);
    if c == '$' && rest != "" && rest[0] == '(' {
      assert s[2..] == rest[1..];
      ClosesMeansMatched(rest[1..]);
    } else if c == '`' {
      NoTick(rest);
    } else if c == '(' && quote.None? {
      ClosesMeansMatched(rest);
    }
    assert c != '\\' ==> NestedAt(s, quote.Some?).None?;
  }

  lemma {:induction false} CharacterScan(base: Base, c: char, rest: string, st: Scan)
    requires MayStand(Character(c), st.quote, rest) && !st.escaped
    ensures ScanFrom(base, [c] + rest, st) == ScanFrom(base, rest, st.(escaped := c == '\\', cur := st.cur + [c]))
  {
    CharacterLexeme(c, rest, st.quote);
    assert ([c] + rest)[1..] == rest;
  }

  lemma {:induction false} QuoteScan(base: Base, q: char, rest: string, st: Scan)
    requires MayStand(QuoteMark(q), st.quote, rest) && !st.escaped
    ensures ScanFrom(base, [q] + rest, st) == ScanFrom(base, rest, AfterToken(base, QuoteMark(q), st))
  {
    assert ([q] + rest)[1..] == rest;
  }

  lemma {:induction false} BackslashScan(base: Base, c: char, rest: string, st: Scan)
    requires !st.escaped
    ensures ScanFrom(base, ['\\', c] + rest, st) == ScanFrom(base, rest, st.(cur := st.cur + ['\\', c]))
  {
    var s := ['\\', c] + rest;
    var mid := st.(escaped := true, cur := st.cur + ['\\']);
    assert s[0] == '\\' && s[1..] == [c] + rest;
    assert ScanFrom(base, s, st) == ScanFrom(base, s[1..], mid);
    assert s[1..][0] == c && s[1..][1..] == rest;
    assert ScanFrom(base, s[1..], mid) == ScanFrom(base, rest, mid.(escaped := false, cur := mid.cur + [c]));
    assert st.cur + ['\\'] + [c] == st.cur + ['\\', c];
  }

  predicate QuoteOk(quote: Option<char>) {
    quote.None? || quote == Some('"') || quote == Some('\'')
  }

  predicate Nests(t: Token) {
    t.Substitution? || t.Ticked? || t.Subshell?
  }

  lemma {:induction false} DollarLexeme(inner: string, rest: string, quote: Option<char>)
    requires ParensPair(inner, 0) && QuoteOk(quote)
    ensures Classify("$(" + inner + ")" + rest, quote, false) == Nested(|inner| + 3, inner)
  {
    var s := "$(" + inner + ")" + rest;
    assert s[2..] == inner + ")" + rest;
    PairedIsMatched(inner, rest, 0);
    assert s[2..2 + |inner|] == inner;
    assert NestedAt(s, quote.Some?) == Some((|inner| + 3, 2));
  }

  lemma {:induction false} TickLexeme(inner: string, rest: string, quote: Option<char>)
    requires '`' !in inner && QuoteOk(quote)
    ensures Classify("`" + inner + "`" + rest, quote, false) == Nested(|inner| + 2, inner)
  {
    var s := "`" + inner + "`" + rest;
    assert s[1..] == inner + "`" + rest;
    FirstTick(inner, rest);
    assert s[1..1 + |inner|] == inner;
    assert NestedAt(s, quote.Some?) == Some((|inner| + 2, 1));
  }

  lemma {:induction false} ParenLexeme(inner: string, rest: string)
    requires ParensPair(inner, 0)
    ensures Classify("(" + inner + ")" + rest, None, false) == Nested(|inner| + 2, inner)
  {
    var s := "(" + inner + ")" + rest;
    assert s[1..] == inner + ")" + rest;
    PairedIsMatched(inner, rest, 0);
    assert s[1..1 + |inner|] == inner;
    assert NestedAt(s, false) == Some((|inner| + 2, 1));
  }

  /** A closed nested line, by its opener and closer. */
  lemma {:induction false} NestedScan(base: Base, t: Token, rest: string, st: Scan)
    requires Nests(t) && MayStand(t, st.quote, rest) && !st.escaped && QuoteOk(st.quote)
    ensures ScanFrom(base, TokenText(t) + rest, st) == ScanFrom(base, rest, AfterToken(base, t, st))
  {
    var text := TokenText(t);
    var s := text + rest;
    match t {
      case Substitution(inner) => DollarLexeme(inner, rest, st.quote);
      case Ticked(inner) => TickLexeme(inner, rest, st.quote);
      case Subshell(inner) => ParenLexeme(inner, rest);
    }
    assert Classify(s, st.quote, false) == Nested(|text|, t.inner);
    assert s[..|text|] == text && s[|text|..] == rest;
  }

  lemma {:induction false} TokenStep(base: Base, t: Token, rest: string, st: Scan)
    requires MayStand(t, st.quote, rest) && !st.escaped && QuoteOk(st.quote)
    ensures ScanFrom(base, TokenText(t) + rest, st) == ScanFrom(base, rest, AfterToken(base, t, st))
  {
    match t {
      case Character(c) => CharacterScan(base, c, rest, st);
      case Backslashed(c) => BackslashScan(base, c, rest, st);
      case QuoteMark(q) => QuoteScan(base, q, rest, st);
      case Operator(op) =>
        SeparatorStep(base, op, rest, st);
        assert AfterToken(base, t, st) == Start.(cmds := Flush(base, st));
      case _ => NestedScan(base, t, rest, st);
    }
  }

  lemma {:induction false} FlushAddsNamed(base: Base, st: Scan)
    ensures Flush(base, st) == st.cmds + Named(base, st.cur)
  {
  }

  lemma {:induction false} MeaningStep(base: Base, ts: seq<Token>, st: Scan)
    requires ts != []
    ensures
      var next := AfterToken(base, ts[0], st);
      next.cmds + Meaning(base, ts[1..], next.quote, next.cur) == st.cmds + Meaning(base, ts, st.quote, st.cur)
  {
    var t, rest := ts[0], ts[1..];
    var next := AfterToken(base, t, st);
    var more := Meaning(base, rest, next.quote, next.cur);
    FlushAddsNamed(base, st);
    if Nests(t) {
      assert Meaning(base, ts, st.quote, st.cur) == Extract(base, t.inner) + more;
      Regroup(st.cmds, Extract(base, t.inner), more);
    } else if t.Operator? {
      assert Meaning(base, ts, st.quote, st.cur) == Named(base, st.cur) + more;
      Regroup(st.cmds, Named(base, st.cur), more);
    }
  }

  lemma {:induction false} Regroup<T>(a: seq<T>, b: seq<T>, c: seq<T>)
    ensures a + b + c == a + (b + c)
  {
  }

  lemma {:induction false} TokenizesStep(ts: seq<Token>, quote: Option<char>)
    requires Tokenizes(ts, quote) && ts != [] && QuoteOk(quote)
    ensures MayStand(ts[0], quote, Text(ts[1..])) && Tokenizes(ts[1..], QuoteBeyond(ts[0], quote))
    ensures Text(ts) == TokenText(ts[0]) + Text(ts[1..]) && QuoteOk(QuoteBeyond(ts[0], quote))
  {
  }

  lemma {:induction false} AfterTokenState(base: Base, ts: seq<Token>, st: Scan)
    requires ts != [] && Tokenizes(ts, st.quote) && !st.escaped
    ensures AfterToken(base, ts[0], st).quote == QuoteBeyond(ts[0], st.quote)
    ensures AfterToken(base, ts[0], st).escaped ==> ts[1..] == []
  {
    var rest := ts[1..];
    assert rest != [] ==> TokenText(rest[0]) != "" && Text(rest) != "";
  }

  lemma {:induction false} MeaningEnds(base: Base, quote: Option<char>, cur: string)
    ensures Meaning(base, [], quote, cur) == Named(base, cur)
  {
  }

  /** The scan of the tokens, from any state that is not just after a backslash, unless that is the last character. */
  lemma {:induction false} TokenScan(base: Base, ts: seq<Token>, st: Scan)
    requires Tokenizes(ts, st.quote) && (st.escaped ==> ts == []) && QuoteOk(st.quote)
    ensures Flush(base, ScanFrom(base, Text(ts), st)) == st.cmds + Meaning(base, ts, st.quote, st.cur)
    decreases |ts|
  {
    if ts == [] {
      MeaningEnds(base, st.quote, st.cur);
      FlushAddsNamed(base, st);
    } else {
      var next := AfterToken(base, ts[0], st);
      TokenizesStep(ts, st.quote);
      TokenStep(base, ts[0], Text(ts[1..]), st);
      AfterTokenState(base, ts, st);
      TokenScan(base, ts[1..], next);
      MeaningStep(base, ts, st);
    }
  }

  lemma {:induction false} NestedToken(s: string, quote: Option<char>) returns (t: Token, n: nat)
    requires s != "" && NestedAt(s, quote.Some?).Some?
    ensures 0 < n <= |s| && TokenText(t) == s[..n] && MayStand(t, quote, s[n..]) && !t.QuoteMark?
  {
    if DollarParen(s).Some? {
      var m := MatchedIsPaired(s[2..], 0);
      t, n := Substitution(s[2..][..m]), m + 3;
      assert s[2..][..m + 1] == s[2..][..m] + ")";
      assert s[..n] == "$(" + s[2..][..m + 1];
    } else if Backticked(s).Some? {
      var m := FindTick(s[1..]).value;
      TickIsFirst(s[1..]);
      t, n := Ticked(s[1..][..m]), m + 2;
      assert s[1..][..m + 1] == s[1..][..m] + "`";
      assert s[..n] == "`" + s[1..][..m + 1];
    } else {
      var m := MatchedIsPaired(s[1..], 0);
      t, n := Subshell(s[1..][..m]), m + 2;
      assert s[1..][..m + 1] == s[1..][..m] + ")";
      assert s[..n] == "(" + s[1..][..m + 1];
    }
  }

  lemma {:induction false} TickIsFirst(s: string)
    ensures FindTick(s).Some? ==> '`' !in s[..FindTick(s).value]
  {
    if s != "" && s[0] != '`' && FindTick(s).Some? {
      TickIsFirst(s[1..]);
      assert s[..FindTick(s).value] == [s[0]] + s[1..][..FindTick(s).value - 1];
    }
  }

  lemma {:induction false} OperatorToken(s: string, quote: Option<char>) returns (t: Token, n: nat)
    requires s != "" && SeparatorAt(s) > 0 && quote.None?
    ensures 0 < n <= |s| && TokenText(t) == s[..n] && MayStand(t, quote, s[n..]) && !t.QuoteMark?
  {
    n := SeparatorAt(s);
    t := Operator(s[..n]);
    assert n == 1 ==> s[..1] == [s[0]] && (|s| > 1 ==> s[1..][0] == s[1]);
    assert n == 2 ==> s[..2] == [s[0], s[1]];
  }

  lemma {:induction false} CharacterToken(s: string, quote: Option<char>) returns (t: Token)
    requires s != "" && NestedAt(s, quote.Some?).None? && (quote.None? ==> SeparatorAt(s) == 0)
    requires s[0] != '\\' && (if quote.Some? then s[0] != quote.value else s[0] != '"' && s[0] != '\'')
    ensures TokenText(t) == s[..1] && MayStand(t, quote, s[1..]) && !t.QuoteMark?
  {
    t := Character(s[0]);
    ClosesMeansMatched(s[1..]);
    NoTick(s[1..]);
    if |s| > 1 {
      ClosesMeansMatched(s[2..]);
      assert s[1..][1..] == s[2..] && s[1..][0] == s[1];
    }
  }

  lemma {:induction false} FirstToken(s: string, quote: Option<char>) returns (t: Token, n: nat)
    requires s != "" && QuoteOk(quote)
    ensures 0 < n <= |s| && TokenText(t) == s[..n] && MayStand(t, quote, s[n..]) && QuoteOk(QuoteBeyond(t, quote))
  {
    var c := s[0];
    assert s[..1] == [c];
    if c == '\\' {
      if |s| == 1 {
        t, n := Character(c), 1;
      } else {
        t, n := Backslashed(s[1]), 2;
      }
    } else if quote == Some(c) || (quote.None? && (c == '"' || c == '\'')) {
      t, n := QuoteMark(c), 1;
    } else if NestedAt(s, quote.Some?).Some? {
      t, n := NestedToken(s, quote);
    } else if quote.None? && SeparatorAt(s) > 0 {
      t, n := OperatorToken(s, quote);
    } else {
      n := 1;
      t := CharacterToken(s, quote);
    }
  }

  /** Every text is made of tokens. */
  lemma {:induction false} HasTokens(s: string, quote: Option<char>) returns (ts: seq<Token>)
    requires QuoteOk(quote)
    ensures Text(ts) == s && Tokenizes(ts, quote)
    decreases |s|
  {
    if s == "" {
      ts := [];
    } else {
      var t, n := FirstToken(s, quote);
      var more := HasTokens(s[n..], QuoteBeyond(t, quote));
      ts := [t] + more;
      assert ts[1..] == more && s == s[..n] + s[n..];
    }
  }

  // ---- Quoted and escaped text ----

  lemma {:induction false} CharThenRest(cur: string, a: string, b: string)
    ensures cur + a + b == cur + (a + b)
  {
  }

  lemma {:induction false} WordStep(base: Base, s: string, rest: string, st: Scan) returns (n: nat, quote: Option<char>)
    requires s != "" && WellQuoted(s, st.quote) && !st.escaped && QuoteOk(st.quote)
    ensures 0 < n <= |s| && QuoteOk(quote) && WellQuoted(s[n..], quote)
    ensures ScanFrom(base, s + rest, st) == ScanFrom(base, s[n..] + rest, st.(quote := quote, cur := st.cur + s[..n]))
  {
    var c := s[0];
    n := if st.quote.None? && c == '\\' then 2 else 1;
    quote := st.quote;
    assert s + rest == s[..n] + (s[n..] + rest);
    if n == 2 {
      assert s[..2] == [c, s[1]];
      BackslashScan(base, s[1], s[2..] + rest, st);
    } else {
      assert s[..1] == [c];
      if st.quote == Some(c) || (st.quote.None? && (c == '"' || c == '\'')) {
        quote := QuoteBeyond(QuoteMark(c), st.quote);
        QuoteScan(base, c, s[1..] + rest, st);
      } else {
        CharacterScan(base, c, s[1..] + rest, st);
      }
    }
  }

  /** Such text is collected as it stands, and leaves no quote open. */
  lemma {:induction false} WordScan(base: Base, s: string, rest: string, st: Scan)
    requires WellQuoted(s, st.quote) && !st.escaped && QuoteOk(st.quote)
    ensures ScanFrom(base, s + rest, st) == ScanFrom(base, rest, st.(quote := None, cur := st.cur + s))
    decreases |s|
  {
    if s == "" {
      assert s + rest == rest && st.cur + s == st.cur;
    } else {
      var n, quote := WordStep(base, s, rest, st);
      WordScan(base, s[n..], rest, st.(quote := quote, cur := st.cur + s[..n]));
      CharThenRest(st.cur, s[..n], s[n..]);
      assert s[..n] + s[n..] == s;
    }
  }
}
