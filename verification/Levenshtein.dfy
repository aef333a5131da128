/** Levenshtein distance, the number the fuzzy search measures with: the recurrence, and what it means in edit scripts. */
module Levenshtein {
  function Min(x: nat, y: nat): nat { if x < y then x else y }

  function Max(x: nat, y: nat): nat { if x < y then y else x }

  function Lev(a: string, b: string): nat
    decreases |a| + |b|
  {
    if a == "" then |b|
    else if b == "" then |a|
    else Min(Min(Lev(a[1..], b) + 1, Lev(a, b[1..]) + 1), Lev(a[1..], b[1..]) + if a[0] == b[0] then 0 else 1)
  }

  // ---- What the number means: the least cost of an edit script ----

  datatype Edit = Keep(c: char) | Substitute(old_: char, new_: char) | Delete(c: char) | Insert(c: char)

  function Before(script: seq<Edit>): string {
    if script == [] then ""
    else
      match script[0]
      case Keep(c) => [c] + Before(script[1..])
      case Substitute(c, _) => [c] + Before(script[1..])
      case Delete(c) => [c] + Before(script[1..])
      case Insert(_) => Before(script[1..])
  }

  function After(script: seq<Edit>): string {
    if script == [] then ""
    else
      match script[0]
      case Keep(c) => [c] + After(script[1..])
      case Substitute(_, c) => [c] + After(script[1..])
      case Delete(_) => After(script[1..])
      case Insert(c) => [c] + After(script[1..])
  }

  function Cost(script: seq<Edit>): nat {
    if script == [] then 0 else Cost(script[1..]) + if script[0].Keep? then 0 else 1
  }

  lemma {:induction false} NoScriptIsCheaper(script: seq<Edit>)
    ensures Lev(Before(script), After(script)) <= Cost(script)
  {
    if script != [] {
      var a, b := Before(script[1..]), After(script[1..]);
      NoScriptIsCheaper(script[1..]);
      match script[0]
      case Keep(c) =>
        assert ([c] + a)[1..] == a && ([c] + b)[1..] == b;
      case Substitute(c, d) =>
        assert ([c] + a)[1..] == a && ([d] + b)[1..] == b;
      case Delete(c) =>
        assert ([c] + a)[1..] == a;
      case Insert(c) =>
        assert ([c] + b)[1..] == b;
    }
  }

  lemma {:induction false} CheapestScript(a: string, b: string) returns (script: seq<Edit>)
    ensures Before(script) == a && After(script) == b && Cost(script) == Lev(a, b)
    decreases |a| + |b|
  {
    if a == "" && b == "" {
      script := [];
    } else if b == "" || (a != "" && Lev(a, b) == Lev(a[1..], b) + 1) {
      var rest := CheapestScript(a[1..], b);
      script := [Delete(a[0])] + rest;
      assert a == [a[0]] + a[1..];
    } else if a == "" || Lev(a, b) == Lev(a, b[1..]) + 1 {
      var rest := CheapestScript(a, b[1..]);
      script := [Insert(b[0])] + rest;
      assert b == [b[0]] + b[1..];
    } else {
      var rest := CheapestScript(a[1..], b[1..]);
      script := [if a[0] == b[0] then Keep(a[0]) else Substitute(a[0], b[0])] + rest;
      assert a == [a[0]] + a[1..] && b == [b[0]] + b[1..];
    }
  }

  // ---- Bounds, and the effect of removing one character ----

  lemma {:induction false} Bounds(a: string, b: string)
    ensures Lev(a, b) <= Max(|a|, |b|)
    ensures |a| - |b| <= Lev(a, b) && |b| - |a| <= Lev(a, b)
    decreases |a| + |b|
  {
    if a != "" && b != "" {
      Bounds(a[1..], b);
      Bounds(a, b[1..]);
      Bounds(a[1..], b[1..]);
    }
  }

  lemma {:induction false} ZeroMeansEqual(a: string, b: string)
    ensures Lev(a, b) == 0 <==> a == b
    decreases |a| + |b|
  {
    if a != "" && b != "" {
      ZeroMeansEqual(a[1..], b[1..]);
      assert a == b <==> a[0] == b[0] && a[1..] == b[1..] by {
        assert a == [a[0]] + a[1..] && b == [b[0]] + b[1..];
      }
    }
  }

  lemma {:induction false} DropFirst(a: string, b: string)
    requires a != ""
    ensures Lev(a, b) <= Lev(a[1..], b) + 1 && Lev(a[1..], b) <= Lev(a, b) + 1
    decreases |b|
  {
    if b != "" {
      DropFirst(a, b[1..]);
      SkipFirst(a[1..], b);
    }
  }

  lemma SkipFirst(a: string, b: string)
    requires b != ""
    ensures Lev(a, b) <= Lev(a, b[1..]) + 1
  {
  }

  lemma {:induction false} AddLast(a: string, c: char, b: string)
    ensures Lev(a + [c], b) <= Lev(a, b) + 1 && Lev(a, b) <= Lev(a + [c], b) + 1
    decreases |a| + |b|
  {
    var t := a + [c];
    if a == "" {
      assert t == [c];
      Bounds(t, b);
    } else if b != "" {
      assert t[1..] == a[1..] + [c] && t[0] == a[0];
      AddLast(a[1..], c, b);
      AddLast(a, c, b[1..]);
      AddLast(a[1..], c, b[1..]);
    }
  }

  lemma {:induction false} DropLast(a: string, b: string)
    requires a != ""
    ensures Lev(a[..|a| - 1], b) <= Lev(a, b) + 1 && Lev(a, b) <= Lev(a[..|a| - 1], b) + 1
  {
    assert a == a[..|a| - 1] + [a[|a| - 1]];
    AddLast(a[..|a| - 1], a[|a| - 1], b);
  }

  /** One character is nearer to b than nothing is exactly when it occurs in b. */
  lemma {:induction false} OneCharacter(c: char, b: string)
    ensures Lev([c], b) < |b| <==> c in b
    ensures c in b ==> Lev([c], b) == |b| - 1
  {
    if b != "" {
      OneCharacter(c, b[1..]);
      assert [c][1..] == "";
      assert b == [b[0]] + b[1..];
      Bounds([c], b);
    }
  }

  // ---- Similarity ----

  function SimilarityRatio(a: string, b: string): real {
    var maxLength := Max(|a|, |b|);
    if maxLength == 0 then 1.0 else 1.0 - Lev(a, b) as real / maxLength as real
  }

  lemma SimilarityRange(a: string, b: string)
    ensures 0.0 <= SimilarityRatio(a, b) <= 1.0
    ensures SimilarityRatio(a, b) == 1.0 <==> a == b
  {
    Bounds(a, b);
    ZeroMeansEqual(a, b);
    var n, m := Lev(a, b), Max(|a|, |b|);
    if m > 0 {
      Quotient(n, m);
    }
  }

  /** The share of the longer length that the edits leave alone; two empty texts are alike. */
  lemma {:induction false} SimilarityShare(a: string, b: string)
    ensures a == b == "" ==> SimilarityRatio(a, b) == 1.0
    ensures a != "" || b != "" ==>
      SimilarityRatio(a, b) == (Max(|a|, |b|) - Lev(a, b)) as real / Max(|a|, |b|) as real
  {
    Bounds(a, b);
    if a != "" || b != "" {
      Quotient(Lev(a, b), Max(|a|, |b|));
    }
  }

  lemma Quotient(n: nat, m: nat)
    requires n <= m && m > 0
    ensures 0.0 <= n as real / m as real <= 1.0
    ensures n as real / m as real == 0.0 <==> n == 0
    ensures 1.0 - n as real / m as real == (m - n) as real / m as real
  {
    assert n as real / m as real * m as real == n as real;
    Remainder(n as real, m as real);
    assert (m - n) as real == m as real - n as real;
  }

  lemma Remainder(x: real, y: real)
    requires y != 0.0
    ensures 1.0 - x / y == (y - x) / y
  {
    var (q, r) := (x / y, (y - x) / y);
    assert q * y == x && r * y == y - x;
    assert (1.0 - q) * y == y - q * y;
    SameQuotient(1.0 - q, r, y);
  }

  lemma SameQuotient(a: real, b: real, y: real)
    requires a * y == b * y && y != 0.0
    ensures a == b
  {
    assert (a - b) * y == a * y - b * y;
  }
}
