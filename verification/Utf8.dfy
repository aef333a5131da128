/** UTF-8 as section 4 of RFC 3629 defines it, and the byte-bounded prefix of src/context/text.ts. */
module Utf8 {
  import opened Prelude

  predicate IsContinuation(b: byte) { 0x80 <= b < 0xC0 }

  /** The length of the well-formed character at the front; 0 when there is none. */
  function FirstChar(s: seq<byte>): (n: nat)
    ensures n <= |s| && n <= 4
    ensures n > 0 ==> !IsContinuation(s[0])
    ensures forall k :: 0 < k < n ==> IsContinuation(s[k])
  {
    if s == [] then 0
    else if s[0] <= 0x7F then 1
    else if |s| >= 2 && 0xC2 <= s[0] <= 0xDF && IsContinuation(s[1]) then 2
    else if |s| >= 3 && SecondOfThree(s[0], s[1]) && IsContinuation(s[2]) then 3
    else if |s| >= 4 && SecondOfFour(s[0], s[1]) && IsContinuation(s[2]) && IsContinuation(s[3]) then 4
    else 0
  }

  predicate SecondOfThree(a: byte, b: byte) {
    || (a == 0xE0 && 0xA0 <= b <= 0xBF)
    || (0xE1 <= a <= 0xEC && IsContinuation(b))
    || (a == 0xED && 0x80 <= b <= 0x9F)
    || (0xEE <= a <= 0xEF && IsContinuation(b))
  }

  predicate SecondOfFour(a: byte, b: byte) {
    || (a == 0xF0 && 0x90 <= b <= 0xBF)
    || (0xF1 <= a <= 0xF3 && IsContinuation(b))
    || (a == 0xF4 && 0x80 <= b <= 0x8F)
  }

  predicate Valid(s: seq<byte>) {
    s == [] || (FirstChar(s) > 0 && Valid(s[FirstChar(s)..]))
  }

  /** The test the code makes: the end of the text, or a byte that continues no character. */
  predicate Boundary(s: seq<byte>, i: nat) {
    i <= |s| && (i < |s| ==> !IsContinuation(s[i]))
  }

  lemma FirstCharOfPrefix(s: seq<byte>, i: nat)
    requires FirstChar(s) <= i <= |s| && FirstChar(s) > 0
    ensures FirstChar(s[..i]) == FirstChar(s)
  {
    var t := s[..i];
    assert forall k :: 0 <= k < i ==> t[k] == s[k];
  }

  /** In valid text the boundaries are exactly the places where both sides are valid text. */
  lemma {:induction false} BoundaryIsCharacterBoundary(s: seq<byte>, i: nat)
    requires Valid(s) && i <= |s|
    ensures Boundary(s, i) <==> Valid(s[..i]) && Valid(s[i..])
    decreases |s|
  {
    if i == 0 {
      assert s[..0] == [] && s[0..] == s;
    } else {
      var n := FirstChar(s);
      if i < n {
        assert FirstChar(s[i..]) == 0;
      } else {
        BoundaryIsCharacterBoundary(s[n..], i - n);
        FirstCharOfPrefix(s, i);
        assert s[..i][n..] == s[n..][..i - n] && s[n..][i - n..] == s[i..];
      }
    }
  }

  lemma PieceIsValid(s: seq<byte>, start: nat, end: nat)
    requires Valid(s) && start <= end && Boundary(s, start) && Boundary(s, end)
    ensures Valid(s[start..end])
  {
    BoundaryIsCharacterBoundary(s, end);
    var t := s[..end];
    assert start < end ==> t[start] == s[start];
    BoundaryIsCharacterBoundary(t, start);
    assert t[start..] == s[start..end];
  }

  /** The longest prefix of at most `cap` bytes that ends on a boundary. */
  method Utf8Prefix(text: seq<byte>, cap: nat) returns (prefix: seq<byte>)
    ensures prefix <= text && |prefix| == PrefixLength(text, cap)
  {
    if |text| <= cap {
      return text;
    }
    var end := cap;
    while end > 0 && IsContinuation(text[end])
      invariant 0 <= end <= cap
      invariant PrefixLength(text, cap) == PrefixLength(text, end)
    {
      end := end - 1;
    }
    prefix := text[..end];
  }

  function PrefixLength(text: seq<byte>, cap: nat): (n: nat)
    ensures n <= |text| && n <= cap
    decreases cap
  {
    if |text| <= cap then |text|
    else if cap > 0 && IsContinuation(text[cap]) then PrefixLength(text, cap - 1)
    else cap
  }

  lemma {:induction false} PrefixIsLongest(text: seq<byte>, cap: nat)
    requires text != [] ==> !IsContinuation(text[0])
    ensures Boundary(text, PrefixLength(text, cap))
    ensures forall k :: PrefixLength(text, cap) < k <= cap ==> !Boundary(text, k)
    decreases cap
  {
    if |text| > cap > 0 && IsContinuation(text[cap]) {
      PrefixIsLongest(text, cap - 1);
    }
  }

  /** A larger cap gives no shorter prefix. */
  lemma {:induction false} PrefixGrows(text: seq<byte>, a: nat, b: nat)
    requires a <= b
    ensures PrefixLength(text, a) <= PrefixLength(text, b)
    decreases b - a
  {
    if a < b {
      PrefixGrows(text, a, b - 1);
    }
  }
}
