/**
  What flattening promises about its output, stated on the events of
  FlattenLatex: lines without a directive are copied verbatim, a directive
  is replaced by before, the inserted file and after, the marker comments
  are the only difference that addComments makes, the markers of the
  insertions nest, an error names the innermost file being inserted, and the
  nesting bound only matters where it is reached.
 */
module FlattenProperties {
  import opened Wrappers
  import opened Strings
  import opened InputPattern
  import opened FlattenLatex

  /**
    The text the two marker events of one insertion put into the output file,
    which is what Written gives for them. BeginWritten and EndWritten prove
    that Render of the single event is this text; the lemmas below use these
    names so that they state the output as plain text rather than as the
    rendering of a one-event sequence.
   */
  function BeginText(addComments: bool, name: string): string {
    if addComments then BeginMarker(name) else ""
  }

  function EndText(addComments: bool, name: string): string {
    if addComments then EndMarker(name) else ""
  }

  lemma RenderSingle(addComments: bool, e: Event)
    ensures Render(addComments, [e]) == Concat(Written(addComments, e))
  {
    WritesSingle(addComments, e);
  }

  lemma ConcatSingle(s: string)
    ensures Concat([s]) == s
  {
    assert [s][1..] == [];
  }

  // ---------------------------------------------------------------------
  // Copying

  /** A file none of whose lines the pattern matches is copied unchanged, line breaks included. */
  lemma {:induction false} CopiedFile(addComments: bool, ext: string, fs: FileSystem, lines: seq<string>, depth: nat)
    requires forall i :: 0 <= i < |lines| ==> Match(lines[i]).None?
    ensures FlattenLines(ext, fs, lines, depth).status.Ok?
    ensures Render(addComments, FlattenLines(ext, fs, lines, depth).events) == Concat(lines)
    decreases |lines|
  {
    if lines != [] {
      var rest := lines[1..];
      assert Match(lines[0]).None?;
      assert forall i :: 0 <= i < |rest| ==> Match(rest[i]).None? by {
        forall i | 0 <= i < |rest| ensures Match(rest[i]).None? { assert rest[i] == lines[i + 1]; }
      }
      CopiedFile(addComments, ext, fs, rest, depth);
      var tail := FlattenLines(ext, fs, rest, depth);
      assert FlattenLines(ext, fs, lines, depth) == FlattenFirst(ext, fs, lines[0], rest, depth);
      assert FlattenLine(ext, fs, lines[0], depth) == Run([Text(lines[0])], Ok);
      RenderAppend(addComments, [Text(lines[0])], tail.events);
      RenderSingle(addComments, Text(lines[0]));
      ConcatSingle(lines[0]);
    }
  }

  /** A document without directives is written out exactly as it was read. */
  lemma CopiedDocument(addComments: bool, ext: string, fs: FileSystem, text: string, depth: nat)
    requires forall i :: 0 <= i < |Lines(text)| ==> Match(Lines(text)[i]).None?
    ensures Render(addComments, FlattenLines(ext, fs, Lines(text), depth).events) == text
  {
    CopiedFile(addComments, ext, fs, Lines(text), depth);
  }

  // ---------------------------------------------------------------------
  // Directives and insertions

  /**
    A line with a directive is written as before, then what the insertion of
    the normalised name writes, then, when the insertion succeeded, after.
   */
  lemma DirectiveLine(addComments: bool, ext: string, fs: FileSystem, line: string, depth: nat)
    requires Match(line).Some?
    ensures var d := Match(line).value;
      var ins := Insert(ext, fs, NormaliseName(ext, d.raw), depth);
      var r := FlattenLine(ext, fs, line, depth);
      && r.status == ins.status
      && Render(addComments, r.events) == d.before + Render(addComments, ins.events) + (if ins.status.Ok? then d.after else "")
  {
    var d := Match(line).value;
    var ins := Insert(ext, fs, NormaliseName(ext, d.raw), depth);
    RenderAppend(addComments, [Text(d.before)], ins.events);
    RenderSingle(addComments, Text(d.before));
    ConcatSingle(d.before);
    if ins.status.Ok? {
      RenderAppend(addComments, [Text(d.before)] + ins.events, [Text(d.after)]);
      RenderSingle(addComments, Text(d.after));
      ConcatSingle(d.after);
    } else {
      assert d.before + Render(addComments, ins.events) + "" == d.before + Render(addComments, ins.events);
    }
  }

  /**
    On a line that ends with a line break, the directive ends right before it:
    the break belongs to no part, so a replaced line loses it.
   */
  lemma DirectiveLineBreak(line: string)
    requires IsLine(line) && EndsWith(line, "\n") && Match(line).Some?
    ensures line == Reassemble(Match(line).value) + "\n"
  {
    MatchCoversLine(line);
    MatchShape(line);
    ReassembledEnd(Match(line).value);
  }

  lemma ReassembledEnd(d: Directive)
    requires '\n' !in d.after
    ensures !EndsWith(Reassemble(d), "\n")
  {
    var r := Reassemble(d);
    if d.after == [] {
      assert r[|r| - 1] == '}';
    } else {
      assert r[|r| - 1] == d.after[|d.after| - 1];
    }
  }

  lemma BeginWritten(addComments: bool, name: string)
    ensures Render(addComments, [BeginInsertion(name)]) == BeginText(addComments, name)
  {
    RenderSingle(addComments, BeginInsertion(name));
    ConcatSingle(BeginMarker(name));
  }

  lemma EndWritten(addComments: bool, name: string)
    ensures Render(addComments, [EndInsertion(name)]) == EndText(addComments, name)
  {
    RenderSingle(addComments, EndInsertion(name));
    ConcatSingle(EndMarker(name));
  }

  /**
    insertFile on a file that exists: the begin marker, the flattened file,
    and the end marker only when the file was flattened without error.
   */
  lemma InsertedFile(addComments: bool, ext: string, fs: FileSystem, name: string, depth: nat)
    requires name in fs && depth > 0
    ensures var body := FlattenLines(ext, fs, fs[name], depth - 1);
      var r := Insert(ext, fs, name, depth);
      && r.status == body.status
      && Render(addComments, r.events)
         == BeginText(addComments, name) + Render(addComments, body.events) + (if body.status.Ok? then EndText(addComments, name) else "")
  {
    var body := FlattenLines(ext, fs, fs[name], depth - 1);
    assert Open(ext, fs, name, depth) == body;
    BeginWritten(addComments, name);
    RenderAppend(addComments, [BeginInsertion(name)], body.events);
    if body.status.Ok? {
      EndWritten(addComments, name);
      RenderAppend(addComments, [BeginInsertion(name)] + body.events, [EndInsertion(name)]);
    } else {
      var w := BeginText(addComments, name) + Render(addComments, body.events);
      assert w + "" == w;
    }
  }

  /** insertFile on a missing file writes the begin marker and fails with FileNotFoundError for that name. */
  lemma MissingFile(addComments: bool, ext: string, fs: FileSystem, name: string, depth: nat)
    requires name !in fs
    ensures Insert(ext, fs, name, depth).status == FileNotFound(name)
    ensures Render(addComments, Insert(ext, fs, name, depth).events) == BeginText(addComments, name)
  {
    BeginWritten(addComments, name);
    assert [BeginInsertion(name)] + [] == [BeginInsertion(name)];
  }

  /** An existing file inserted with no nesting depth left writes the begin marker and fails there. */
  lemma NestingLimit(addComments: bool, ext: string, fs: FileSystem, name: string)
    requires name in fs
    ensures Insert(ext, fs, name, 0).status == RecursionLimit(name)
    ensures Render(addComments, Insert(ext, fs, name, 0).events) == BeginText(addComments, name)
  {
    BeginWritten(addComments, name);
    assert [BeginInsertion(name)] + [] == [BeginInsertion(name)];
  }

  /**
    A line that fails ends the whole file: the writes are those of the lines
    before it and its own, and the run ends with its error.
   */
  lemma FailedLine(ext: string, fs: FileSystem, lines: seq<string>, i: nat, depth: nat)
    requires i < |lines| && FlattenLines(ext, fs, lines[..i], depth).status.Ok?
    requires !FlattenLine(ext, fs, lines[i], depth).status.Ok?
    ensures var r := FlattenLines(ext, fs, lines, depth);
      var l := FlattenLine(ext, fs, lines[i], depth);
      r == Run(FlattenLines(ext, fs, lines[..i], depth).events + l.events, l.status)
  {
    FlattenSingle(ext, fs, lines[i], depth);
    FailedStep(ext, fs, lines, i, depth);
  }

  lemma FailedStep(ext: string, fs: FileSystem, lines: seq<string>, i: nat, depth: nat)
    requires i < |lines| && FlattenLines(ext, fs, lines[..i], depth).status.Ok?
    requires !FlattenLines(ext, fs, [lines[i]], depth).status.Ok?
    ensures var l := FlattenLines(ext, fs, [lines[i]], depth);
      FlattenLines(ext, fs, lines, depth) == Run(FlattenLines(ext, fs, lines[..i], depth).events + l.events, l.status)
  {
    var head, line := lines[..i], lines[i];
    FlattenLinesAppend(ext, fs, head, [line], depth);
    assert lines[..i + 1] == head + [line];
    FlattenLinesStop(ext, fs, lines, i + 1, depth);
  }

  /**
    The document is processed in order: the text of a + b is the text of a
    followed by that of b, once a ends normally.
   */
  lemma RenderLinesAppend(addComments: bool, ext: string, fs: FileSystem, a: seq<string>, b: seq<string>, depth: nat)
    requires FlattenLines(ext, fs, a, depth).status.Ok?
    ensures FlattenLines(ext, fs, a + b, depth).status == FlattenLines(ext, fs, b, depth).status
    ensures Render(addComments, FlattenLines(ext, fs, a + b, depth).events)
            == Render(addComments, FlattenLines(ext, fs, a, depth).events) + Render(addComments, FlattenLines(ext, fs, b, depth).events)
  {
    FlattenLinesAppend(ext, fs, a, b, depth);
    RenderAppend(addComments, FlattenLines(ext, fs, a, depth).events, FlattenLines(ext, fs, b, depth).events);
  }

  /**
    A directive naming a file that exists: before, at once followed by the
    begin marker, the flattened file, and then, when that succeeded, the end
    marker and after.
   */
  lemma DirectiveInsertion(addComments: bool, ext: string, fs: FileSystem, line: string, d: Directive, depth: nat)
    requires Match(line) == Some(d) && NormaliseName(ext, d.raw) in fs && depth > 0
    ensures var name := NormaliseName(ext, d.raw);
      var body := FlattenLines(ext, fs, fs[name], depth - 1);
      var r := FlattenLine(ext, fs, line, depth);
      && r.status == body.status
      && Render(addComments, r.events)
         == d.before + BeginText(addComments, name) + Render(addComments, body.events)
            + (if body.status.Ok? then EndText(addComments, name) + d.after else "")
  {
    var name := NormaliseName(ext, d.raw);
    var body := FlattenLines(ext, fs, fs[name], depth - 1);
    DirectiveLine(addComments, ext, fs, line, depth);
    InsertedFile(addComments, ext, fs, name, depth);
    var b, t := BeginText(addComments, name), Render(addComments, body.events);
    if body.status.Ok? {
      Regroup(d.before, b, t, EndText(addComments, name), d.after);
    } else {
      Regroup(d.before, b, t, "", "");
    }
  }

  lemma Regroup(x: string, b: string, t: string, e: string, y: string)
    ensures x + (b + t + e) + y == x + b + t + (e + y)
  {
  }

  /**
    A directive naming a missing file: what was written stays (before and
    the begin marker), nothing more is written, and the error names the file.
   */
  lemma MissingFileLine(addComments: bool, ext: string, fs: FileSystem, line: string, d: Directive, depth: nat)
    requires Match(line) == Some(d) && NormaliseName(ext, d.raw) !in fs
    ensures var name := NormaliseName(ext, d.raw);
      var r := FlattenLine(ext, fs, line, depth);
      && r.status == FileNotFound(name)
      && Render(addComments, r.events) == d.before + BeginText(addComments, name)
  {
    var name := NormaliseName(ext, d.raw);
    DirectiveLine(addComments, ext, fs, line, depth);
    MissingFile(addComments, ext, fs, name, depth);
  }

  // ---------------------------------------------------------------------
  // The marker comments

  /** The events without the insertion boundaries: the document text alone. */
  function Unmarked(events: seq<Event>): (r: seq<Event>)
    ensures |r| <= |events|
    ensures forall i :: 0 <= i < |r| ==> r[i].Text?
  {
    if events == [] then []
    else (if events[0].Text? then [events[0]] else []) + Unmarked(events[1..])
  }

  /**
    addComments only adds the marker lines: without it, the writes are those
    of the marked run with every insertion boundary dropped.
   */
  lemma {:induction false} MarkersOnly(events: seq<Event>)
    ensures Writes(false, events) == Writes(true, Unmarked(events))
  {
    if events != [] {
      var e, rest := events[0], events[1..];
      var head := if e.Text? then [e] else [];
      MarkersOnly(rest);
      WritesAppend(true, head, Unmarked(rest));
      if e.Text? {
        WritesSingle(true, e);
      }
    }
  }

  // ---------------------------------------------------------------------
  // Nesting of the insertions

  /** The effect of one event on the stack of files being inserted; an end that does not close the innermost one is out of order. */
  function Step(e: Event, open: seq<string>): Option<seq<string>> {
    match e
    case Text(_) => Some(open)
    case BeginInsertion(name) => Some(open + [name])
    case EndInsertion(name) => if open != [] && open[|open| - 1] == name then Some(open[..|open| - 1]) else None
  }

  /** The stack after a sequence of events, or None when an end appears out of order. */
  function Walk(events: seq<Event>, open: seq<string>): Option<seq<string>> {
    if events == [] then Some(open)
    else
      var o := Step(events[0], open);
      if o.None? then None else Walk(events[1..], o.value)
  }

  function Continue(w: Option<seq<string>>, events: seq<Event>): Option<seq<string>> {
    if w.None? then None else Walk(events, w.value)
  }

  lemma {:induction false} WalkAppend(a: seq<Event>, b: seq<Event>, open: seq<string>)
    ensures Walk(a + b, open) == Continue(Walk(a, open), b)
  {
    if a == [] {
      assert a + b == b;
    } else {
      assert (a + b)[0] == a[0];
      assert (a + b)[1..] == a[1..] + b;
      var o := Step(a[0], open);
      if o.Some? {
        WalkAppend(a[1..], b, o.value);
      }
    }
  }

  lemma WalkOne(e: Event, open: seq<string>)
    ensures Walk([e], open) == Step(e, open)
  {
    assert [e][1..] == [];
  }

  /**
    The markers a run writes, started with the insertions open still open:
    a run that ends normally closes every insertion it begins, in order; a
    run that fails leaves open more insertions than it started with, and the
    innermost of them is the file the error names.
   */
  predicate Nested(r: Run, open: seq<string>) {
    var w := Walk(r.events, open);
    && w.Some?
    && (r.status.Ok? ==> w.value == open)
    && (!r.status.Ok? ==> |open| < |w.value| && w.value[..|open|] == open && w.value[|w.value| - 1] == r.status.name)
  }

  lemma {:induction false} LinesNested(ext: string, fs: FileSystem, lines: seq<string>, depth: nat, open: seq<string>)
    ensures Nested(FlattenLines(ext, fs, lines, depth), open)
    decreases depth, 2, |lines|, 1
  {
    if lines != [] {
      FirstNested(ext, fs, lines[0], lines[1..], depth, open);
    }
  }

  lemma {:induction false} FirstNested(ext: string, fs: FileSystem, line: string, rest: seq<string>, depth: nat, open: seq<string>)
    ensures Nested(FlattenFirst(ext, fs, line, rest, depth), open)
    decreases depth, 2, |rest| + 1, 0
  {
    var head := FlattenLine(ext, fs, line, depth);
    LineNested(ext, fs, line, depth, open);
    if head.status.Ok? {
      var tail := FlattenLines(ext, fs, rest, depth);
      LinesNested(ext, fs, rest, depth, open);
      WalkAppend(head.events, tail.events, open);
    }
  }

  lemma {:induction false} LineNested(ext: string, fs: FileSystem, line: string, depth: nat, open: seq<string>)
    ensures Nested(FlattenLine(ext, fs, line, depth), open)
    decreases depth, 1, 0, 0
  {
    match Match(line)
    case None =>
      WalkOne(Text(line), open);
    case Some(d) =>
      var name := NormaliseName(ext, d.raw);
      InsertNested(ext, fs, name, depth, open);
      TextAround(d.before, d.after, Insert(ext, fs, name, depth), open);
  }

  /** The text written before and after an insertion leaves the stack as the insertion does. */
  lemma TextAround(before: string, after: string, ins: Run, open: seq<string>)
    requires Nested(ins, open)
    ensures Nested(Run([Text(before)] + ins.events, ins.status), open)
    ensures ins.status.Ok? ==> Nested(Run([Text(before)] + ins.events + [Text(after)], Ok), open)
  {
    WalkOne(Text(before), open);
    WalkAppend([Text(before)], ins.events, open);
    if ins.status.Ok? {
      WalkOne(Text(after), open);
      WalkAppend([Text(before)] + ins.events, [Text(after)], open);
    }
  }

  lemma {:induction false} InsertNested(ext: string, fs: FileSystem, name: string, depth: nat, open: seq<string>)
    ensures Nested(Insert(ext, fs, name, depth), open)
    decreases depth, 0, 1, 0
  {
    var inner := open + [name];
    var body := Open(ext, fs, name, depth);
    OpenNested(ext, fs, name, depth, inner);
    WalkOne(BeginInsertion(name), open);
    WalkAppend([BeginInsertion(name)], body.events, open);
    if body.status.Ok? {
      WalkOne(EndInsertion(name), inner);
      assert inner[..|inner| - 1] == open;
      WalkAppend([BeginInsertion(name)] + body.events, [EndInsertion(name)], open);
    } else if body.events == [] {
      assert Walk(body.events, inner) == Some(inner);
    } else {
      var w := Walk(body.events, inner).value;
      assert w[..|open|] == w[..|inner|][..|open|];
    }
  }

  lemma {:induction false} OpenNested(ext: string, fs: FileSystem, name: string, depth: nat, open: seq<string>)
    ensures var r := Open(ext, fs, name, depth);
      Nested(r, open) || (r.events == [] && !r.status.Ok? && r.status.name == name)
    decreases depth, 0, 0, 0
  {
    if name in fs && depth > 0 {
      LinesNested(ext, fs, fs[name], depth - 1, open);
    }
  }

  /**
    Flattening a whole document: when it succeeds every begin marker is
    matched by the end marker of the same file; when it fails, the last
    insertion begun and not ended is that of the file the error names.
   */
  lemma DocumentNested(ext: string, fs: FileSystem, lines: seq<string>, depth: nat)
    ensures var r := FlattenLines(ext, fs, lines, depth);
      var w := Walk(r.events, []);
      && w.Some?
      && (r.status.Ok? <==> w.value == [])
      && (!r.status.Ok? ==> w.value[|w.value| - 1] == r.status.name)
  {
    LinesNested(ext, fs, lines, depth, []);
  }

  // ---------------------------------------------------------------------
  // The nesting bound

  /** A run that does not reach the nesting bound is the same with any larger bound. */
  lemma {:induction false} LinesDeeper(ext: string, fs: FileSystem, lines: seq<string>, depth: nat, more: nat)
    requires !FlattenLines(ext, fs, lines, depth).status.RecursionLimit?
    ensures FlattenLines(ext, fs, lines, depth + more) == FlattenLines(ext, fs, lines, depth)
    decreases depth, 2, |lines|, 1
  {
    if lines != [] {
      FirstDeeper(ext, fs, lines[0], lines[1..], depth, more);
    }
  }

  lemma {:induction false} FirstDeeper(ext: string, fs: FileSystem, line: string, rest: seq<string>, depth: nat, more: nat)
    requires !FlattenFirst(ext, fs, line, rest, depth).status.RecursionLimit?
    ensures FlattenFirst(ext, fs, line, rest, depth + more) == FlattenFirst(ext, fs, line, rest, depth)
    decreases depth, 2, |rest| + 1, 0
  {
    var head := FlattenLine(ext, fs, line, depth);
    LineDeeper(ext, fs, line, depth, more);
    if head.status.Ok? {
      LinesDeeper(ext, fs, rest, depth, more);
    }
  }

  lemma {:induction false} LineDeeper(ext: string, fs: FileSystem, line: string, depth: nat, more: nat)
    requires !FlattenLine(ext, fs, line, depth).status.RecursionLimit?
    ensures FlattenLine(ext, fs, line, depth + more) == FlattenLine(ext, fs, line, depth)
    decreases depth, 1, 0, 0
  {
    match Match(line)
    case None =>
    case Some(d) =>
      InsertDeeper(ext, fs, NormaliseName(ext, d.raw), depth, more);
  }

  lemma {:induction false} InsertDeeper(ext: string, fs: FileSystem, name: string, depth: nat, more: nat)
    requires !Insert(ext, fs, name, depth).status.RecursionLimit?
    ensures Insert(ext, fs, name, depth + more) == Insert(ext, fs, name, depth)
    decreases depth, 0, 1, 0
  {
    OpenDeeper(ext, fs, name, depth, more);
  }

  lemma {:induction false} OpenDeeper(ext: string, fs: FileSystem, name: string, depth: nat, more: nat)
    requires !Open(ext, fs, name, depth).status.RecursionLimit?
    ensures Open(ext, fs, name, depth + more) == Open(ext, fs, name, depth)
    decreases depth, 0, 0, 0
  {
    if name in fs && depth > 0 {
      LinesDeeper(ext, fs, fs[name], depth - 1, more);
      assert depth + more - 1 == depth - 1 + more;
    }
  }

  /**
    A file whose first line inputs the file itself never finishes: however
    large the bound, its insertion ends with the recursion error for it.
   */
  lemma {:induction false} SelfInclusion(ext: string, fs: FileSystem, name: string, d: Directive, depth: nat)
    requires name in fs && fs[name] != [] && Match(fs[name][0]) == Some(d) && NormaliseName(ext, d.raw) == name
    ensures Insert(ext, fs, name, depth).status == RecursionLimit(name)
  {
    if depth > 0 {
      var k: nat := depth - 1;
      var line := fs[name][0];
      var status := RecursionLimit(name);
      SelfInclusion(ext, fs, name, d, k);
      LineFailsWith(ext, fs, line, d, name, k, status);
      InsertFailsWith(ext, fs, name, line, k, status);
    }
  }

  lemma LineFailsWith(ext: string, fs: FileSystem, line: string, d: Directive, name: string, depth: nat, status: Status)
    requires Match(line) == Some(d) && NormaliseName(ext, d.raw) == name && !status.Ok?
    requires Insert(ext, fs, name, depth).status == status
    ensures FlattenLine(ext, fs, line, depth).status == status
  {
  }

  lemma InsertFailsWith(ext: string, fs: FileSystem, name: string, line: string, depth: nat, status: Status)
    requires name in fs && fs[name] != [] && fs[name][0] == line && !status.Ok?
    requires FlattenLine(ext, fs, line, depth).status == status
    ensures Insert(ext, fs, name, depth + 1).status == status
  {
    var lines := fs[name];
    assert FlattenLines(ext, fs, lines, depth) == FlattenFirst(ext, fs, line, lines[1..], depth);
  }

  // ---------------------------------------------------------------------
  // File names

  /** Whitespace around the argument does not change the file opened. */
  lemma NormaliseStripped(ext: string, raw: string)
    ensures NormaliseName(ext, Strip(raw)) == NormaliseName(ext, raw)
  {
    StripIdempotent(raw);
  }

  /** A normalised name is its own normal form, for an extension without surrounding whitespace. */
  lemma NormaliseIdempotent(ext: string, raw: string)
    requires Strip(ext) == ext
    ensures NormaliseName(ext, NormaliseName(ext, raw)) == NormaliseName(ext, raw)
  {
    var s := Strip(raw);
    StripIdempotent(raw);
    if NormaliseName(ext, raw) != s {
      StripConcat(s, ext);
    }
  }

  /** The stem and the stem with the extension open the same file, the stem with the extension. */
  lemma NormaliseWithExtension(ext: string, stem: string)
    requires Strip(ext) == ext && Strip(stem) == stem && !EndsWith(stem, ext)
    ensures NormaliseName(ext, stem + ext) == stem + ext
    ensures NormaliseName(ext, stem) == stem + ext
  {
    StripConcat(stem, ext);
    assert (stem + ext)[|stem + ext| - |ext|..] == ext;
  }

  /** The default extension has no surrounding whitespace, so the two lemmas above apply to it. */
  lemma DefaultExtensionStripped()
    ensures Strip(DefaultConfig.texExtension) == DefaultConfig.texExtension
  {
    StripFixed(".tex");
  }
}
