/**
  The regular expression Config.inputRe of flatten_latex.py,

    ^(?P<before>(?:[^%\\]|\\.)*)\\(?:input|include)\{(?P<filename>.*?)\}(?P<after>.*)

  as Python's backtracking matcher applies it to one line. The before group
  reads the line as a run of tokens, each either one character other than
  '%' and '\', or a '\' and one character other than a line break. At each
  position at most one kind of token fits, so the token boundaries of a line
  are fixed; the greedy star tries them from the last one back, so the match
  is the directive that starts at the LAST boundary where one starts, that
  is, where a command starts whose argument a '}' closes before the line
  break. The
  filename group ends at the first '}', and after (with '.', which does not
  take "\n") stops before the first line break.
 */
module InputPattern {
  import opened Wrappers
  import opened Strings

  /** The parts of a successful match: the text before the command, the command word, the braces' content and the text after. */
  datatype Directive = Directive(before: string, command: string, raw: string, after: string)

  /** The matched text: before, then "\" and the command word, then the braced argument, then after. */
  function Reassemble(d: Directive): string {
    d.before + "\\" + d.command + "{" + d.raw + "}" + d.after
  }

  /** s is matched in full by the before group (?:[^%\\]|\\.)* */
  predicate Tokens(s: string)
    decreases |s|
  {
    if s == [] then true
    else if s[0] != '%' && s[0] != '\\' then Tokens(s[1..])
    else s[0] == '\\' && |s| >= 2 && s[1] != '\n' && Tokens(s[2..])
  }

  /**
    The end of the token that starts at position p of line, if one does: no
    shorter piece from p is a token run, and None means that no piece from p
    is one.
   */
  function NextBoundary(line: string, p: nat): (q: Option<nat>)
    requires p <= |line|
    ensures q.Some? ==> p < q.value <= |line| && Tokens(line[p..q.value])
    ensures q.Some? ==> forall j {:trigger Tokens(line[p..j])} :: p < j < q.value ==> !Tokens(line[p..j])
    ensures q.None? ==> forall j {:trigger Tokens(line[p..j])} :: p < j <= |line| ==> !Tokens(line[p..j])
  {
    if p < |line| && line[p] != '%' && line[p] != '\\' then
      assert Tokens(line[p..p + 1][1..]);
      Some(p + 1)
    else if p + 1 < |line| && line[p] == '\\' && line[p + 1] != '\n' then
      assert Tokens(line[p..p + 2][2..]);
      assert line[p..p + 1][0] == '\\';
      Some(p + 2)
    else
      NoTokenAt(line, p);
      None
  }

  /** Where no token starts at p, no piece of line from p is a token run. */
  lemma NoTokenAt(line: string, p: nat)
    requires p <= |line|
    requires !(p < |line| && line[p] != '%' && line[p] != '\\')
    requires !(p + 1 < |line| && line[p] == '\\' && line[p + 1] != '\n')
    ensures forall j :: p < j <= |line| ==> !Tokens(line[p..j])
  {
    forall j | p < j <= |line|
      ensures !Tokens(line[p..j])
    {
      var s := line[p..j];
      assert s[0] == line[p];
      if j > p + 1 {
        assert s[1] == line[p + 1];
      }
    }
  }

  /**
    The lazy group .*? followed by \}: the position of the first '}' at or
    after q, provided no line break comes before it.
   */
  function CloseBrace(line: string, q: nat): (k: Option<nat>)
    requires q <= |line|
    ensures k.Some? ==> q <= k.value < |line| && line[k.value] == '}'
    ensures k.Some? ==> '}' !in line[q..k.value] && '\n' !in line[q..k.value]
    ensures k.None? ==> '}' !in line[q..NextNewline(line, q)]
    decreases |line| - q
  {
    if q == |line| || line[q] == '\n' then None
    else if line[q] == '}' then Some(q)
    else CloseBrace(line, q + 1)
  }

  /** Where the parts of a directive lie in a line: the command's backslash at p, the braced argument from q up to the '}' at k, and after from k + 1 up to e. */
  datatype Span = Span(p: nat, q: nat, k: nat, e: nat)

  /** The alternation \\(?:input|include)\{ tried at position p: the position just after the opening brace, or p itself when neither command fits. */
  function CommandEnd(line: string, p: nat): (q: nat)
    requires p <= |line|
    ensures q == p || q == p + 7 || q == p + 9
    ensures q <= |line|
    ensures q == p + 7 ==> line[p..q] == "\\input{"
    ensures q == p + 9 ==> line[p..q] == "\\include{"
    ensures q == p <==> !StartsWith(line[p..], "\\input{") && !StartsWith(line[p..], "\\include{")
  {
    if StartsWith(line[p..], "\\input{") then
      assert line[p..p + 7] == line[p..][..7];
      p + 7
    else if StartsWith(line[p..], "\\include{") then
      assert line[p..p + 9] == line[p..][..9];
      p + 9
    else p
  }

  /** The rest of the pattern, after the before group, tried at position p of line: where its parts lie, if it matches there. */
  function SpanAt(line: string, p: nat): (r: Option<Span>)
    requires p <= |line|
    ensures r.Some? ==> r.value.p == p && r.value.q == CommandEnd(line, p) > p
    ensures r.Some? ==> CloseBrace(line, r.value.q) == Some(r.value.k) && r.value.e == NextNewline(line, r.value.k + 1)
    ensures r.None? <==> CommandEnd(line, p) == p || CloseBrace(line, CommandEnd(line, p)).None?
  {
    var q := CommandEnd(line, p);
    if q == p then None
    else
      match CloseBrace(line, q)
      case None => None
      case Some(k) => Some(Span(p, q, k, NextNewline(line, k + 1)))
  }

  /** The groups of a span of line: the command word lies between the backslash and the opening brace. */
  function Parts(line: string, sp: Span): Directive
    requires sp.p + 2 <= sp.q <= sp.k < sp.e <= |line|
  {
    Directive(line[..sp.p], line[sp.p + 1..sp.q - 1], line[sp.q..sp.k], line[sp.k + 1..sp.e])
  }

  /** The rest of the pattern, after the before group, tried at position p of line. */
  function DirectiveAt(line: string, p: nat): (r: Option<Directive>)
    requires p <= |line|
    ensures r.Some? ==> r.value.before == line[..p]
  {
    match SpanAt(line, p)
    case None => None
    case Some(sp) => Some(Parts(line, sp))
  }

  lemma {:induction false} TokensAppend(a: string, b: string)
    requires Tokens(a) && Tokens(b)
    ensures Tokens(a + b)
    decreases |a|
  {
    if a == [] {
      assert a + b == b;
    } else if a[0] != '%' && a[0] != '\\' {
      assert (a + b)[1..] == a[1..] + b;
      TokensAppend(a[1..], b);
    } else {
      assert (a + b)[2..] == a[2..] + b;
      TokensAppend(a[2..], b);
    }
  }

  /** Stepping one token from a token boundary reaches a token boundary. */
  lemma TokensStep(line: string, p: nat)
    requires p <= |line| && Tokens(line[..p])
    ensures NextBoundary(line, p).Some? ==> Tokens(line[..NextBoundary(line, p).value])
  {
    if NextBoundary(line, p).Some? {
      var q := NextBoundary(line, p).value;
      TokensAppend(line[..p], line[p..q]);
      assert line[..p] + line[p..q] == line[..q];
    }
  }

  /** The token boundaries of line[k..] beyond a boundary p are reached by stepping from p. */
  lemma {:induction false} BoundaryStepFrom(line: string, k: nat, p: nat, p': nat)
    requires k <= p < p' <= |line|
    requires Tokens(line[k..p]) && Tokens(line[k..p'])
    ensures NextBoundary(line, p).Some? && NextBoundary(line, p).value <= p'
    decreases p - k
  {
    var s, t := line[k..p], line[k..p'];
    assert t[0] == line[k];
    if line[k] != '%' && line[k] != '\\' {
      if k < p {
        assert s[1..] == line[k + 1..p];
        assert t[1..] == line[k + 1..p'];
        BoundaryStepFrom(line, k + 1, p, p');
      }
    } else {
      assert t[1] == line[k + 1];
      if k < p {
        assert s[2..] == line[k + 2..p];
        assert t[2..] == line[k + 2..p'];
        BoundaryStepFrom(line, k + 2, p, p');
      }
    }
  }

  /** There is no token boundary strictly between a boundary and the next one. */
  lemma BoundaryStep(line: string, p: nat, p': nat)
    requires p < p' <= |line|
    requires Tokens(line[..p]) && Tokens(line[..p'])
    ensures NextBoundary(line, p).Some? && NextBoundary(line, p).value <= p'
  {
    assert line[0..p] == line[..p] && line[0..p'] == line[..p'];
    BoundaryStepFrom(line, 0, p, p');
  }

  /** No token boundary lies strictly between a boundary p and the next one, or beyond p when there is none. */
  lemma BoundaryGap(line: string, p: nat)
    requires p <= |line| && Tokens(line[..p])
    ensures NextBoundary(line, p).None? ==> forall p': nat :: p < p' <= |line| ==> !Tokens(line[..p'])
    ensures NextBoundary(line, p).Some? ==> forall p': nat :: p < p' < NextBoundary(line, p).value ==> !Tokens(line[..p'])
  {
    forall p': nat | p < p' <= |line| && Tokens(line[..p'])
      ensures NextBoundary(line, p).Some? && NextBoundary(line, p).value <= p'
    {
      BoundaryStep(line, p, p');
    }
  }

  /**
    The backtracking search over the token boundaries from p on: the
    directive found is the one at the last boundary from p on that has one.
   */
  function FindFrom(line: string, p: nat): (r: Option<Directive>)
    requires p <= |line| && Tokens(line[..p])
    ensures r.Some? ==> p <= |r.value.before| <= |line|
    ensures r.Some? ==> Tokens(line[..|r.value.before|]) && DirectiveAt(line, |r.value.before|) == r
    ensures forall p': nat :: p <= p' <= |line| && Tokens(line[..p']) && DirectiveAt(line, p').Some? ==>
              r.Some? && p' <= |r.value.before|
    decreases |line| - p
  {
    TokensStep(line, p);
    match NextBoundary(line, p)
    case None =>
      BoundaryGap(line, p);
      DirectiveAt(line, p)
    case Some(q) =>
      var later := FindFrom(line, q);
      LaterWins(line, p, q, later);
      if later.Some? then later else DirectiveAt(line, p)
  }

  /**
    One step of the search: when the directive found from the next boundary q
    on is the latest one there, keeping it, or else taking the one at p, gives
    the latest one from p on.
   */
  lemma LaterWins(line: string, p: nat, q: nat, later: Option<Directive>)
    requires p <= |line| && Tokens(line[..p]) && NextBoundary(line, p) == Some(q)
    requires later.Some? ==> q <= |later.value.before|
    requires forall p': nat :: q <= p' <= |line| && Tokens(line[..p']) && DirectiveAt(line, p').Some? ==>
               later.Some? && p' <= |later.value.before|
    ensures var r := if later.Some? then later else DirectiveAt(line, p);
      forall p': nat :: p <= p' <= |line| && Tokens(line[..p']) && DirectiveAt(line, p').Some? ==>
        r.Some? && p' <= |r.value.before|
  {
    BoundaryGap(line, p);
  }

  /** Config.inputRe.search(line): the directive at the last token boundary of line that has one. */
  function Match(line: string): (r: Option<Directive>)
    ensures r.Some? ==> |r.value.before| <= |line| && Tokens(r.value.before)
    ensures r.Some? ==> DirectiveAt(line, |r.value.before|) == r
    ensures forall p: nat :: p <= |line| && Tokens(line[..p]) && DirectiveAt(line, p).Some? ==>
              r.Some? && p <= |r.value.before|
  {
    assert line[..0] == [];
    FindFrom(line, 0)
  }

  /**
    What a directive found at p takes apart: the line continues, from p, with
    "\\" and one of the two command words, the braced argument, which holds no
    '}' and no line break, and after, which holds no line break and is
    followed by the end of the line or by a line break.
   */
  lemma DirectiveShape(line: string, p: nat)
    requires p <= |line| && DirectiveAt(line, p).Some?
    ensures var d := DirectiveAt(line, p).value;
      && (d.command == "input" || d.command == "include")
      && '}' !in d.raw && '\n' !in d.raw && '\n' !in d.after
      && |Reassemble(d)| <= |line| && line[..|Reassemble(d)|] == Reassemble(d)
      && (|Reassemble(d)| == |line| || line[|Reassemble(d)|] == '\n')
  {
    var sp := SpanAt(line, p).value;
    var d := Parts(line, sp);
    var q, k, e := sp.q, sp.k, sp.e;
    CommandWord(line, p);
    SlicesReassemble(line, d, q, k, e);
  }

  /** Consecutive slices of a line holding the parts of d make up the line's prefix up to e. */
  lemma SlicesReassemble(line: string, d: Directive, q: nat, k: nat, e: nat)
    requires |d.before| <= q <= k < e <= |line|
    requires line[..|d.before|] == d.before && line[|d.before|..q] == "\\" + d.command + "{"
    requires line[q..k] == d.raw && line[k] == '}' && line[k + 1..e] == d.after
    ensures Reassemble(d) == line[..e]
  {
    var p := |d.before|;
    assert line[k..k + 1] == "}";
    PrefixExtend(line, p, q, d.before, "\\" + d.command + "{");
    PrefixExtend(line, q, k, d.before + "\\" + d.command + "{", d.raw);
    PrefixExtend(line, k, k + 1, d.before + "\\" + d.command + "{" + d.raw, "}");
    PrefixExtend(line, k + 1, e, d.before + "\\" + d.command + "{" + d.raw + "}", d.after);
  }

  /** The command text a matching span starts with: a backslash, one of the two words, an opening brace. */
  lemma CommandWord(line: string, p: nat)
    requires p <= |line| && CommandEnd(line, p) != p
    ensures var q := CommandEnd(line, p);
      && (line[p + 1..q - 1] == "input" || line[p + 1..q - 1] == "include")
      && line[p..q] == "\\" + line[p + 1..q - 1] + "{"
  {
    var q := CommandEnd(line, p);
    var w := line[p..q];
    assert line[p + 1..q - 1] == w[1..|w| - 1];
    if q == p + 7 {
      assert w == "\\" + "input" + "{";
      Middle("\\", "input", "{");
    } else {
      assert w == "\\" + "include" + "{";
      Middle("\\", "include", "{");
    }
  }

  /** The middle piece of a three-piece string. */
  lemma Middle(a: string, b: string, c: string)
    ensures (a + b + c)[|a|..|a| + |b|] == b
  {
    assert (a + b + c)[|a|..|a| + |b|] == (a + b)[|a|..];
  }

  lemma PrefixExtend(line: string, i: nat, j: nat, a: string, b: string)
    requires i <= j <= |line| && a == line[..i] && b == line[i..j]
    ensures a + b == line[..j]
  {
  }

  /**
    What a match takes apart: the line begins with the reassembled directive,
    which is followed by the end of the line or by a line break; before is a
    run of tokens, the command is one of the two words, the argument holds no
    '}' and no line break, and after holds no line break.
   */
  lemma MatchShape(line: string)
    requires Match(line).Some?
    ensures var d := Match(line).value;
      && Tokens(d.before)
      && (d.command == "input" || d.command == "include")
      && '}' !in d.raw && '\n' !in d.raw && '\n' !in d.after
      && |Reassemble(d)| <= |line| && line[..|Reassemble(d)|] == Reassemble(d)
      && (|Reassemble(d)| == |line| || line[|Reassemble(d)|] == '\n')
  {
    DirectiveShape(line, |Match(line).value.before|);
  }

  /** On a line as a text file yields it, the match covers the whole line but at most its line break. */
  lemma MatchCoversLine(line: string)
    requires IsLine(line) && Match(line).Some?
    ensures var d := Match(line).value;
      line == Reassemble(d) || line == Reassemble(d) + "\n"
  {
    MatchShape(line);
    LineAfterPrefix(line, |Reassemble(Match(line).value)|);
  }

  lemma LineAfterPrefix(line: string, n: nat)
    requires IsLine(line) && n <= |line| && (n == |line| || line[n] == '\n')
    ensures line == line[..n] || line == line[..n] + "\n"
  {
    if n < |line| {
      assert n == |line| - 1;
      assert line == line[..n] + [line[n]];
    }
  }

  /** No directive starts at a position holding no backslash. */
  lemma NoDirectiveWithoutBackslash(line: string, p: nat)
    requires p <= |line|
    requires p == |line| || line[p] != '\\'
    ensures DirectiveAt(line, p).None?
  {
    if p < |line| {
      assert line[p..][0] == line[p];
    }
  }

  /**
    Parsing the reassembled parts gives them back, when neither the argument
    nor after holds a backslash (so that no later directive can start) and
    the line ends there or with its line break.
   */
  lemma MatchReassemble(d: Directive, tail: string)
    requires Tokens(d.before)
    requires d.command == "input" || d.command == "include"
    requires '}' !in d.raw && '\n' !in d.raw && '\\' !in d.raw
    requires '\n' !in d.after && '\\' !in d.after
    requires tail == "" || tail == "\n"
    ensures Match(Reassemble(d) + tail) == Some(d)
  {
    var line := Reassemble(d) + tail;
    var p := |d.before|;
    ReassembleSlices(d, tail);
    DirectiveAtReassemble(d, tail);
    forall p': nat | p < p' <= |line|
      ensures DirectiveAt(line, p').None?
    {
      NoBackslashAfterCommand(d, tail, p');
      NoDirectiveWithoutBackslash(line, p');
    }
    MatchAt(line, p);
  }

  /**
    Parsing the reassembled parts gives them back also when after holds
    backslashes, provided it holds no '}': no command after the directive
    then has its argument closed.
   */
  lemma MatchReassembleUnclosed(d: Directive)
    requires Tokens(d.before)
    requires d.command == "input" || d.command == "include"
    requires '}' !in d.raw && '\n' !in d.raw && '\\' !in d.raw
    requires '\n' !in d.after && '}' !in d.after
    ensures Match(Reassemble(d)) == Some(d)
  {
    var line := Reassemble(d);
    var p := |d.before|;
    DirectiveAtReassemble(d, "");
    assert line + "" == line;
    forall p': nat | p < p' <= |line|
      ensures DirectiveAt(line, p').None?
    {
      if p' <= p + |d.command| + 2 + |d.raw| {
        NoBackslashInCommand(d, p');
        NoDirectiveWithoutBackslash(line, p');
      } else {
        NoDirectiveInAfter(d, p');
      }
    }
    MatchAt(line, p);
  }

  /** No directive starts inside an after that holds no '}': no command there has its argument closed. */
  lemma NoDirectiveInAfter(d: Directive, i: nat)
    requires '}' !in d.after
    requires |d.before| + |d.command| + 2 + |d.raw| < i <= |Reassemble(d)|
    ensures DirectiveAt(Reassemble(d), i).None?
  {
    var line := Reassemble(d);
    var k := |d.before| + |d.command| + 2 + |d.raw|;
    var q := CommandEnd(line, i);
    assert line == (d.before + "\\" + d.command + "{" + d.raw + "}") + d.after;
    assert |d.before + "\\" + d.command + "{" + d.raw + "}"| == k + 1;
    if q != i {
      assert line[q..] == d.after[q - k - 1..];
      NoCloseBrace(line, q);
    }
  }

  /** Between the command's backslash and the argument's '}', the reassembled line holds no backslash. */
  lemma NoBackslashInCommand(d: Directive, i: nat)
    requires d.command == "input" || d.command == "include"
    requires '\\' !in d.raw
    requires |d.before| < i <= |d.before| + |d.command| + 2 + |d.raw|
    ensures Reassemble(d)[i] != '\\'
  {
    var line := Reassemble(d);
    var p := |d.before|;
    var q := p + |d.command| + 2;
    if i < q {
      assert line[p..q] == "\\" + d.command + "{";
      assert line[i] == line[p..q][i - p];
    } else if i < q + |d.raw| {
      assert line[i] == d.raw[i - q];
    }
  }

  /** With no '}' in the rest of the line, the argument is never closed. */
  lemma {:induction false} NoCloseBrace(line: string, q: nat)
    requires q <= |line| && '}' !in line[q..]
    ensures CloseBrace(line, q).None?
    decreases |line| - q
  {
    if q < |line| && line[q] != '\n' {
      assert line[q] == line[q..][0];
      assert line[q + 1..] == line[q..][1..];
      NoCloseBrace(line, q + 1);
    }
  }

  /** The directive at a token boundary p is the match when no directive starts beyond p. */
  lemma MatchAt(line: string, p: nat)
    requires p <= |line| && Tokens(line[..p]) && DirectiveAt(line, p).Some?
    requires forall p': nat :: p < p' <= |line| ==> DirectiveAt(line, p').None?
    ensures Match(line) == DirectiveAt(line, p)
  {
  }

  /** The directive of the reassembled parts is found where before ends. */
  lemma DirectiveAtReassemble(d: Directive, tail: string)
    requires d.command == "input" || d.command == "include"
    requires '}' !in d.raw && '\n' !in d.raw
    requires '\n' !in d.after
    requires tail == "" || tail == "\n"
    ensures |d.before| <= |Reassemble(d) + tail|
    ensures DirectiveAt(Reassemble(d) + tail, |d.before|) == Some(d)
  {
    var line := Reassemble(d) + tail;
    var p := |d.before|;
    var q := p + |d.command| + 2;
    var k := q + |d.raw|;
    var e := k + 1 + |d.after|;
    ReassembleSlices(d, tail);
    assert line[p..q] == "\\input{" || line[p..q] == "\\include{" by {
      if d.command == "input" {
        assert "\\" + d.command + "{" == "\\input{";
      } else {
        assert "\\" + d.command + "{" == "\\include{";
      }
    }
    PartsFromSlices(line, d, q, k, e);
  }

  /** A line whose slices hold the parts of d, as the pattern reads them, has d at the end of before. */
  lemma PartsFromSlices(line: string, d: Directive, q: nat, k: nat, e: nat)
    requires |d.before| + 2 <= q <= k < e <= |line|
    requires line[..|d.before|] == d.before && line[|d.before| + 1..q - 1] == d.command
    requires line[|d.before|..q] == "\\input{" || line[|d.before|..q] == "\\include{"
    requires line[q..k] == d.raw && line[k + 1..e] == d.after
    requires '}' !in line[q..k] && '\n' !in line[q..k] && line[k] == '}'
    requires '\n' !in line[k + 1..e] && (e == |line| || line[e] == '\n')
    ensures DirectiveAt(line, |d.before|) == Some(d)
  {
    DirectiveFromSlices(line, |d.before|, q, k, e);
  }

  /** A line whose slices hold a command, an argument without '}' or line break, a '}' and a rest without line break has that directive at p. */
  lemma DirectiveFromSlices(line: string, p: nat, q: nat, k: nat, e: nat)
    requires p < q <= k < e <= |line|
    requires line[p..q] == "\\input{" || line[p..q] == "\\include{"
    requires '}' !in line[q..k] && '\n' !in line[q..k] && line[k] == '}'
    requires '\n' !in line[k + 1..e] && (e == |line| || line[e] == '\n')
    ensures DirectiveAt(line, p) == Some(Directive(line[..p], line[p + 1..q - 1], line[q..k], line[k + 1..e]))
  {
    CommandEndAt(line, p, q);
    CloseBraceAt(line, q, k);
    NextNewlineAt(line, k + 1, e);
  }

  lemma CommandEndAt(line: string, p: nat, q: nat)
    requires p < q <= |line|
    requires line[p..q] == "\\input{" || line[p..q] == "\\include{"
    ensures CommandEnd(line, p) == q
  {
    if line[p..q] == "\\input{" {
      assert line[p..][..7] == line[p..q];
    } else {
      assert line[p..][..9] == line[p..q];
      assert line[p..q][3] == 'c';
    }
  }

  /** Where the parts of a directive stand in the reassembled line. */
  lemma ReassembleSlices(d: Directive, tail: string)
    requires tail == "" || tail == "\n"
    ensures var line := Reassemble(d) + tail;
      var p := |d.before|;
      var q := p + |d.command| + 2;
      var k := q + |d.raw|;
      var e := k + 1 + |d.after|;
      && e + |tail| == |line|
      && line[..p] == d.before
      && line[p..q] == "\\" + d.command + "{"
      && line[p + 1..q - 1] == d.command
      && line[q..k] == d.raw
      && line[k] == '}'
      && line[k + 1..e] == d.after
      && (e == |line| || line[e] == '\n')
  {
    var line := Reassemble(d) + tail;
    var p := |d.before|;
    var q := p + |d.command| + 2;
    var k := q + |d.raw|;
    var e := k + 1 + |d.after|;
    assert line[..p] == d.before;
    assert line[p..q] == "\\" + d.command + "{";
    assert line[p + 1..q - 1] == d.command;
    assert line[q..k] == d.raw;
    assert line[k + 1..e] == d.after;
  }

  /** Beyond the command's backslash, the reassembled line holds no backslash. */
  lemma NoBackslashAfterCommand(d: Directive, tail: string, i: nat)
    requires d.command == "input" || d.command == "include"
    requires '\\' !in d.raw && '\\' !in d.after
    requires tail == "" || tail == "\n"
    requires |d.before| < i <= |Reassemble(d) + tail|
    ensures i == |Reassemble(d) + tail| || (Reassemble(d) + tail)[i] != '\\'
  {
    var line := Reassemble(d) + tail;
    var p := |d.before|;
    var q := p + |d.command| + 2;
    var k := q + |d.raw|;
    var e := k + 1 + |d.after|;
    if i < |line| {
      if i < q {
        assert line[p..q] == "\\" + d.command + "{";
        assert line[i] == line[p..q][i - p];
      } else if i < k {
        assert line[i] == d.raw[i - q];
      } else if k < i < e {
        assert line[i] == d.after[i - k - 1];
      }
    }
  }

  lemma {:induction false} CloseBraceAt(line: string, q: nat, k: nat)
    requires q <= k < |line| && line[k] == '}'
    requires '}' !in line[q..k] && '\n' !in line[q..k]
    ensures CloseBrace(line, q) == Some(k)
    decreases k - q
  {
    if q < k {
      assert line[q] == line[q..k][0];
      assert line[q + 1..k] == line[q..k][1..];
      CloseBraceAt(line, q + 1, k);
    }
  }

  lemma {:induction false} NextNewlineAt(line: string, i: nat, e: nat)
    requires i <= e <= |line|
    requires '\n' !in line[i..e]
    requires e == |line| || line[e] == '\n'
    ensures NextNewline(line, i) == e
    decreases e - i
  {
    if i < e {
      assert line[i] == line[i..e][0];
      assert line[i + 1..e] == line[i..e][1..];
      NextNewlineAt(line, i + 1, e);
    }
  }

  /** The number of backslashes that immediately precede position i of s. */
  function BackslashRun(s: string, i: nat): nat
    requires i <= |s|
  {
    if i == 0 || s[i - 1] != '\\' then 0 else 1 + BackslashRun(s, i - 1)
  }

  lemma {:induction false} BackslashRunPrefix(s: string, n: nat, i: nat)
    requires i <= n <= |s|
    ensures BackslashRun(s[..n], i) == BackslashRun(s, i)
    decreases i
  {
    if i > 0 {
      assert s[..n][i - 1] == s[i - 1];
      BackslashRunPrefix(s, n, i - 1);
    }
  }

  lemma {:induction false} EscapedPercentFrom(s: string, k: nat, i: nat)
    requires k <= i < |s| && Tokens(s[k..]) && s[i] == '%'
    requires BackslashRun(s, k) % 2 == 0
    ensures BackslashRun(s, i) % 2 == 1
    decreases i - k
  {
    var t := s[k..];
    assert t[0] == s[k];
    if s[k] != '%' && s[k] != '\\' {
      assert t[1..] == s[k + 1..];
      EscapedPercentFrom(s, k + 1, i);
    } else {
      assert t[1] == s[k + 1];
      if i > k + 1 {
        assert t[2..] == s[k + 2..];
        EscapedPercentFrom(s, k + 2, i);
      }
    }
  }

  /** Inside a run of tokens, every '%' is preceded by an odd number of backslashes: it is escaped. */
  lemma EscapedPercent(s: string, i: nat)
    requires Tokens(s)
    ensures i < |s| && s[i] == '%' ==> BackslashRun(s, i) % 2 == 1
  {
    if i < |s| && s[i] == '%' {
      assert s[0..] == s;
      EscapedPercentFrom(s, 0, i);
    }
  }

  /**
    A '%' preceded by an even number of backslashes (none, or "\\\\") starts a
    comment: every directive the pattern finds begins before it.
   */
  lemma CommentHidesRest(line: string, i: nat)
    requires i < |line| && line[i] == '%' && BackslashRun(line, i) % 2 == 0
    ensures Match(line).Some? ==> |Match(line).value.before| < i
  {
    if Match(line).Some? {
      var before := Match(line).value.before;
      var b := |before|;
      assert line[..b] == before;
      NoDirectiveWithoutBackslash(line, i);
      if i < b {
        EscapedPercent(before, i);
        BackslashRunPrefix(line, b, i);
      }
    }
  }

  /**
    A '%' preceded by an even run of backslashes comments out the rest of the
    line: when no token boundary before it has a directive, the line is
    unmatched.
   */
  lemma CommentedOutFrom(line: string, i: nat)
    requires i < |line| && line[i] == '%' && BackslashRun(line, i) % 2 == 0
    requires forall p: nat :: p < i && Tokens(line[..p]) ==> DirectiveAt(line, p).None?
    ensures Match(line).None?
  {
    CommentHidesRest(line, i);
  }

  /** A '%' before the first backslash of the line leaves the whole line unmatched. */
  lemma CommentedOutLine(line: string, i: nat)
    requires i < |line| && line[i] == '%'
    requires forall j :: 0 <= j < i ==> line[j] != '\\'
    ensures Match(line).None?
  {
    assert BackslashRun(line, i) == 0 by {
      if i > 0 {
        assert line[i - 1] != '\\';
      }
    }
    forall p: nat | p < i
      ensures DirectiveAt(line, p).None?
    {
      NoDirectiveWithoutBackslash(line, p);
    }
    CommentedOutFrom(line, i);
  }

  /** A '%' that is not escaped comments out a directive that follows it. */
  lemma CommentExample()
    ensures Match("50% discount, see \\input{notes}") == None
  {
    var line := "50% discount, see \\input{notes}";
    assert line[2] == '%' && line[1] != '\\';
    CommentedOutLine(line, 2);
  }

  /** An escaped '%' belongs to before, and the directive after it is found. */
  lemma EscapedPercentExample()
    ensures Match("\\%\\input{notes}") == Some(Directive("\\%", "input", "notes", ""))
  {
    var d := Directive("\\%", "input", "notes", "");
    assert Tokens(d.before);
    assert Reassemble(d) + "" == "\\%\\input{notes}";
    MatchReassemble(d, "");
  }

  /** Of two directives on a line, the greedy before reaches the second one. */
  lemma LastDirectiveExample()
    ensures Match("\\input{a}\\input{b}") == Some(Directive("\\input{a}", "input", "b", ""))
  {
    var d := Directive("\\input{a}", "input", "b", "");
    assert Tokens("nput{a}");
    TokensAppend("\\i", "nput{a}");
    assert "\\i" + "nput{a}" == d.before;
    assert Reassemble(d) + "" == "\\input{a}\\input{b}";
    MatchReassemble(d, "");
  }

  /** A command whose argument no '}' closes is no directive: the match is the command before it. */
  lemma UnclosedCommandExample()
    ensures Match("\\input{a}\\input{b") == Some(Directive("", "input", "a", "\\input{b"))
  {
    var d := Directive("", "input", "a", "\\input{b");
    assert Reassemble(d) == "\\input{a}\\input{b";
    MatchReassembleUnclosed(d);
  }

  /** "\\\\" is an escaped backslash (a LaTeX line break): the word input after it is no command. */
  lemma DoubleBackslashExample()
    ensures Match("\\\\input{x}") == None
  {
    var line := "\\\\input{x}";
    NoCommandAt(line, 0);
    assert !Tokens(line[..1]) by {
      assert line[..1] == "\\";
    }
    if Match(line).Some? {
      var b := |Match(line).value.before|;
      if b > 1 {
        NoDirectiveWithoutBackslash(line, b);
      }
    }
  }

  /** No directive starts at a backslash that the letter i does not follow. */
  lemma NoCommandAt(line: string, p: nat)
    requires p + 1 < |line| && line[p + 1] != 'i'
    ensures DirectiveAt(line, p).None?
  {
    assert line[p..][1] == line[p + 1];
    assert "\\input{"[1] == 'i' && "\\include{"[1] == 'i';
  }

  /** "\\\\%" is an escaped backslash followed by a comment, which hides the command after it. */
  lemma EscapedBackslashCommentExample()
    ensures Match("\\\\%\\input{x}") == None
  {
    var line := "\\\\%\\input{x}";
    assert line[0] == '\\' && line[1] == '\\';
    assert BackslashRun(line, 2) == 2;
    NoCommandAt(line, 0);
    assert !Tokens(line[..1]) by {
      assert line[..1] == "\\";
    }
    CommentedOutFrom(line, 2);
  }
}
