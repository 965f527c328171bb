/**
  The string operations the flattener relies on: str.strip() with Python's
  whitespace set, str.endswith, a prefix test with which the pattern's literal
  command text is read, and the iteration over the lines of a text file.
 */
module Strings {

  predicate StartsWith(s: string, prefix: string) {
    |prefix| <= |s| && s[..|prefix|] == prefix
  }

  predicate EndsWith(s: string, suffix: string) {
    |suffix| <= |s| && s[|s| - |suffix|..] == suffix
  }

  /** Python's str.isspace() for one character: the ASCII separators and the Unicode spaces. */
  predicate IsSpace(c: char) {
    || '\t' <= c <= '\r'
    || '\U{1C}' <= c <= ' '
    || c == '\U{85}' || c == '\U{A0}' || c == '\U{1680}'
    || '\U{2000}' <= c <= '\U{200A}'
    || c == '\U{2028}' || c == '\U{2029}' || c == '\U{202F}' || c == '\U{205F}' || c == '\U{3000}'
  }

  /** The number of whitespace characters that begin s. */
  function LeadingSpace(s: string): (n: nat)
    ensures n <= |s|
    ensures forall k :: 0 <= k < n ==> IsSpace(s[k])
    ensures n < |s| ==> !IsSpace(s[n])
  {
    if s == [] || !IsSpace(s[0]) then 0 else 1 + LeadingSpace(s[1..])
  }

  /** The number of whitespace characters that end s. */
  function TrailingSpace(s: string): (n: nat)
    ensures n <= |s|
    ensures forall k :: |s| - n <= k < |s| ==> IsSpace(s[k])
    ensures n < |s| ==> !IsSpace(s[|s| - 1 - n])
  {
    if s == [] || !IsSpace(s[|s| - 1]) then 0 else 1 + TrailingSpace(s[..|s| - 1])
  }

  /**
    Python's s.strip(): s without its leading and trailing whitespace. The
    result is the slice of s that starts after the leading whitespace; all
    that is cut off on either side is whitespace, and the result neither
    begins nor ends with whitespace.
   */
  function Strip(s: string): (r: string)
    ensures LeadingSpace(s) + |r| <= |s|
    ensures r == s[LeadingSpace(s)..LeadingSpace(s) + |r|]
    ensures forall k :: 0 <= k < LeadingSpace(s) ==> IsSpace(s[k])
    ensures forall k :: LeadingSpace(s) + |r| <= k < |s| ==> IsSpace(s[k])
    ensures Trimmed(r)
  {
    var i := LeadingSpace(s);
    s[i..|s| - TrailingSpace(s[i..])]
  }

  /** Neither end of s is whitespace (trivially so when s is empty). */
  predicate Trimmed(s: string) {
    s == [] || (!IsSpace(s[0]) && !IsSpace(s[|s| - 1]))
  }

  /** A string is left alone by Strip exactly when its ends are not whitespace. */
  lemma StripFixed(s: string)
    ensures Strip(s) == s <==> Trimmed(s)
  {
    if s != [] && Trimmed(s) {
      assert LeadingSpace(s) == 0;
      assert TrailingSpace(s[0..]) == 0 by { assert s[0..] == s; }
    }
  }

  /** Stripping twice is stripping once. */
  lemma StripIdempotent(s: string)
    ensures Strip(Strip(s)) == Strip(s)
  {
    StripFixed(Strip(s));
  }

  /** Two stripped strings stay stripped when concatenated. */
  lemma StripConcat(s: string, t: string)
    requires Strip(s) == s && Strip(t) == t
    ensures Strip(s + t) == s + t
  {
    StripFixed(s);
    StripFixed(t);
    var u := s + t;
    assert Trimmed(u) by {
      if s == [] {
        assert u == t;
      } else if t == [] {
        assert u == s;
      } else {
        assert u[0] == s[0] && u[|u| - 1] == t[|t| - 1];
      }
    }
    StripFixed(u);
  }

  /** The index of the first line break at or after i, or |s| when there is none. */
  function NextNewline(s: string, i: nat): (k: nat)
    requires i <= |s|
    ensures i <= k <= |s|
    ensures '\n' !in s[i..k]
    ensures k < |s| ==> s[k] == '\n'
    decreases |s| - i
  {
    if i == |s| || s[i] == '\n' then i else NextNewline(s, i + 1)
  }

  function Concat(ls: seq<string>): string {
    if ls == [] then [] else ls[0] + Concat(ls[1..])
  }

  lemma {:induction false} ConcatAppend(a: seq<string>, b: seq<string>)
    ensures Concat(a + b) == Concat(a) + Concat(b)
  {
    if a == [] {
      assert a + b == b;
    } else {
      assert (a + b)[1..] == a[1..] + b;
      ConcatAppend(a[1..], b);
    }
  }

  /** A line as iterating over a text file yields it: not empty, and a line break at most as its last character. */
  predicate IsLine(l: string) {
    |l| > 0 && forall k :: 0 <= k < |l| - 1 ==> l[k] != '\n'
  }

  /** A sequence of lines that some text splits into: every line but the last ends with a line break. */
  predicate IsLineSequence(ls: seq<string>) {
    && (forall i :: 0 <= i < |ls| ==> IsLine(ls[i]))
    && (forall i :: 0 <= i < |ls| - 1 ==> EndsWith(ls[i], "\n"))
  }

  /**
    `for line in file`: the text cut after every line break, each line keeping
    its "\n"; a last line without a line break is yielded as it is, and an
    empty text yields no line.
   */
  function Lines(text: string): (ls: seq<string>)
    ensures Concat(ls) == text
    ensures IsLineSequence(ls)
    decreases |text|
  {
    if text == [] then []
    else
      var k := NextNewline(text, 0);
      var e := if k < |text| then k + 1 else k;
      assert text[..e] + text[e..] == text;
      [text[..e]] + Lines(text[e..])
  }

  /** Splitting the concatenation of a line sequence gives the sequence back. */
  lemma {:induction false} LinesOfConcat(ls: seq<string>)
    requires IsLineSequence(ls)
    ensures Lines(Concat(ls)) == ls
  {
    if ls != [] {
      var text := Concat(ls);
      var l := ls[0];
      assert text == l + Concat(ls[1..]);
      var k := NextNewline(text, 0);
      if |ls| > 1 {
        assert l[|l| - 1] == '\n';
        assert text[|l| - 1] == '\n';
        assert forall j :: 0 <= j < |l| - 1 ==> text[j] == l[j];
        assert k == |l| - 1;
      } else {
        assert text == l;
        if k < |text| {
          assert k == |l| - 1;
        }
      }
      assert text[..|l|] == l;
      assert text[|l|..] == Concat(ls[1..]);
      assert IsLineSequence(ls[1..]) by {
        forall i | 0 <= i < |ls[1..]| ensures IsLine(ls[1..][i]) { assert ls[1..][i] == ls[i + 1]; }
        forall i | 0 <= i < |ls[1..]| - 1 ensures EndsWith(ls[1..][i], "\n") { assert ls[1..][i] == ls[i + 1]; }
      }
      LinesOfConcat(ls[1..]);
      assert ls == [l] + ls[1..];
    }
  }
}
