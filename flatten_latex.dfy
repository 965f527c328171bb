/**
  flatten_latex.py: parseFile copies a LaTeX document line by line into an
  output sink; a line holding an \input{...} or \include{...} command that
  the pattern of InputPattern recognises is written as the text before the
  command, then the named file, flattened the same way between two marker
  comment lines, then the text after the command.

  The file system maps each file name that open() accepts to the lines that
  iterating over the opened file yields. What parseFile writes is described
  by the functions FlattenLines, FlattenLine, Insert and Open as a sequence
  of events (a piece of text, the start or the end of an insertion) together
  with a Status: Ok, or the error that stopped the run. Render turns the
  events into the text the sink receives. The methods ParseFile, ParseLine,
  InsertFile and OpenFile mirror the Python code over a Sink and are proved
  to make exactly the writes those events call for.

  Python raises FileNotFoundError when an included file does not exist, and
  an include cycle ends in RecursionError; both end every enclosing call.
  The model returns them as FileNotFound and RecursionLimit, the latter when
  more than `depth` insertions are nested.
 */
module FlattenLatex {
  import opened Strings
  import opened InputPattern

  /** The configuration values: whether insertions are marked with comment lines, and the extension a file name receives. */
  datatype Config = Config(addComments: bool, texExtension: string)

  /** The values the class Config holds. */
  const DefaultConfig: Config := Config(true, ".tex")

  /** The files open() can read: each name with the lines iterating over the opened file yields. */
  type FileSystem = map<string, seq<string>>

  /**
    The file name an \input argument opens: the argument stripped of
    surrounding whitespace, with the extension appended unless the stripped
    argument already ends with it.
   */
  function NormaliseName(ext: string, raw: string): (name: string)
    ensures EndsWith(name, ext)
    ensures StartsWith(name, Strip(raw))
    ensures name == Strip(raw) <==> EndsWith(Strip(raw), ext)
    ensures name != Strip(raw) ==> name == Strip(raw) + ext
  {
    var stripped := Strip(raw);
    if EndsWith(stripped, ext) then stripped
    else
      assert (stripped + ext)[..|stripped|] == stripped;
      assert (stripped + ext)[|stripped + ext| - |ext|..] == ext;
      stripped + ext
  }

  /** The comment line written before an inserted file. */
  const BeginPrefix: string := "% ========= begin insertion of "
  const MarkerSuffix: string := " ==========\n"
  function BeginMarker(name: string): (m: string)
    ensures |m| == |BeginPrefix| + |name| + |MarkerSuffix|
    ensures m[0] == '%' && m[|m| - 1] == '\n'
    ensures m[|BeginPrefix|..|BeginPrefix| + |name|] == name
  {
    MarkerLine(BeginPrefix, name);
    BeginPrefix + name + MarkerSuffix
  }

  /** The comment line written after an inserted file. */
  const EndPrefix: string := "% ========= end insertion of "
  function EndMarker(name: string): (m: string)
    ensures |m| == |EndPrefix| + |name| + |MarkerSuffix|
    ensures m[0] == '%' && m[|m| - 1] == '\n'
    ensures m[|EndPrefix|..|EndPrefix| + |name|] == name
  {
    MarkerLine(EndPrefix, name);
    EndPrefix + name + MarkerSuffix
  }

  /** A marker is a LaTeX comment line that holds the file name right after its prefix. */
  lemma MarkerLine(prefix: string, name: string)
    requires prefix != [] && prefix[0] == '%'
    ensures var m := prefix + name + MarkerSuffix;
      m[0] == '%' && m[|m| - 1] == '\n' && m[|prefix|..|prefix| + |name|] == name
  {
    var m := prefix + name + MarkerSuffix;
    assert m[|m| - 1] == MarkerSuffix[|MarkerSuffix| - 1];
    assert m[|prefix|..|prefix| + |name|] == (prefix + name)[|prefix|..];
  }

  /** One write to the sink: a piece of the document, or the start or end of the insertion of a file. */
  datatype Event = Text(s: string) | BeginInsertion(name: string) | EndInsertion(name: string)

  /** How a run ends: normally, or with the error that ends every enclosing call. */
  datatype Status = Ok | FileNotFound(name: string) | RecursionLimit(name: string)

  /** What a call writes, and how it ends. */
  datatype Run = Run(events: seq<Event>, status: Status)

  /** The calls of outFile.write one event makes: the markers only when comments are switched on. */
  function Written(addComments: bool, e: Event): seq<string> {
    match e
    case Text(s) => [s]
    case BeginInsertion(name) => if addComments then [BeginMarker(name)] else []
    case EndInsertion(name) => if addComments then [EndMarker(name)] else []
  }

  /** The strings a sequence of events writes, in order. */
  function Writes(addComments: bool, events: seq<Event>): seq<string> {
    if events == [] then [] else Written(addComments, events[0]) + Writes(addComments, events[1..])
  }

  /** The text a sequence of events puts into the output file. */
  function Render(addComments: bool, events: seq<Event>): string {
    Concat(Writes(addComments, events))
  }

  /**
    The for loop of parseFile over the lines of a file: the lines' writes in
    order, stopping at the first line whose processing fails.
   */
  function FlattenLines(ext: string, fs: FileSystem, lines: seq<string>, depth: nat): Run
    decreases depth, 2, |lines|, 1
  {
    if lines == [] then Run([], Ok) else FlattenFirst(ext, fs, lines[0], lines[1..], depth)
  }

  /** The loop over a file that starts with line and goes on with rest. */
  function FlattenFirst(ext: string, fs: FileSystem, line: string, rest: seq<string>, depth: nat): Run
    decreases depth, 2, |rest| + 1, 0
  {
    var head := FlattenLine(ext, fs, line, depth);
    if !head.status.Ok? then head
    else
      var tail := FlattenLines(ext, fs, rest, depth);
      Run(head.events + tail.events, tail.status)
  }

  /**
    One pass of the loop body: a line without a directive is copied; a line
    with one writes before, the insertion of the normalised name, and after
    (which has lost the line's line break) when the insertion succeeded.
   */
  function FlattenLine(ext: string, fs: FileSystem, line: string, depth: nat): Run
    decreases depth, 1, 0, 0
  {
    match Match(line)
    case None => Run([Text(line)], Ok)
    case Some(d) =>
      var inserted := Insert(ext, fs, NormaliseName(ext, d.raw), depth);
      if !inserted.status.Ok? then Run([Text(d.before)] + inserted.events, inserted.status)
      else Run([Text(d.before)] + inserted.events + [Text(d.after)], Ok)
  }

  /**
    insertFile: the begin marker, then what opening and parsing the file
    writes, then, when that succeeded, the end marker.
   */
  function Insert(ext: string, fs: FileSystem, name: string, depth: nat): Run
    decreases depth, 0, 1, 0
  {
    var body := Open(ext, fs, name, depth);
    if !body.status.Ok? then Run([BeginInsertion(name)] + body.events, body.status)
    else Run([BeginInsertion(name)] + body.events + [EndInsertion(name)], Ok)
  }

  /**
    `with open(fileName) as file: parseFile(file, outFile)`: a missing file
    fails to open; an opened file is flattened one nesting level deeper, and
    with no nesting depth left that recursive parse fails.
   */
  function Open(ext: string, fs: FileSystem, name: string, depth: nat): Run
    decreases depth, 0, 0, 0
  {
    if name !in fs then Run([], FileNotFound(name))
    else if depth == 0 then Run([], RecursionLimit(name))
    else FlattenLines(ext, fs, fs[name], depth - 1)
  }

  /** The writes of consecutive events are those of the first ones followed by those of the rest. */
  lemma {:induction false} WritesAppend(addComments: bool, a: seq<Event>, b: seq<Event>)
    ensures Writes(addComments, a + b) == Writes(addComments, a) + Writes(addComments, b)
  {
    if a != [] {
      assert (a + b)[0] == a[0];
      assert (a + b)[1..] == a[1..] + b;
      WritesAppend(addComments, a[1..], b);
    } else {
      assert a + b == b;
    }
  }

  /** The text of consecutive events is the text of the first ones followed by that of the rest. */
  lemma RenderAppend(addComments: bool, a: seq<Event>, b: seq<Event>)
    ensures Render(addComments, a + b) == Render(addComments, a) + Render(addComments, b)
  {
    WritesAppend(addComments, a, b);
    ConcatAppend(Writes(addComments, a), Writes(addComments, b));
  }

  /**
    The lines of a document are processed in order: the writes of a + b are
    those of a followed by those of b, and when a fails nothing of b is
    processed.
   */
  lemma {:induction false} FlattenLinesAppend(ext: string, fs: FileSystem, a: seq<string>, b: seq<string>, depth: nat)
    ensures var ra := FlattenLines(ext, fs, a, depth);
      var rb := FlattenLines(ext, fs, b, depth);
      FlattenLines(ext, fs, a + b, depth) == if ra.status.Ok? then Run(ra.events + rb.events, rb.status) else ra
  {
    if a == [] {
      assert a + b == b;
    } else {
      assert (a + b)[0] == a[0];
      assert (a + b)[1..] == a[1..] + b;
      FlattenLinesAppend(ext, fs, a[1..], b, depth);
      var head := FlattenLine(ext, fs, a[0], depth);
      if head.status.Ok? {
        var r1 := FlattenLines(ext, fs, a[1..], depth);
        var rb := FlattenLines(ext, fs, b, depth);
        if r1.status.Ok? {
          assert head.events + (r1.events + rb.events) == (head.events + r1.events) + rb.events;
        }
      }
    }
  }

  /** A file of one line is processed as that line. */
  lemma FlattenSingle(ext: string, fs: FileSystem, line: string, depth: nat)
    ensures FlattenLines(ext, fs, [line], depth) == FlattenLine(ext, fs, line, depth)
  {
    assert [line][1..] == [];
    assert FlattenLines(ext, fs, [], depth) == Run([], Ok);
    var l := FlattenLine(ext, fs, line, depth);
    if l.status.Ok? {
      assert l.events + [] == l.events;
    }
  }

  /**
    One more pass of the loop after lines that succeeded: the writes of the
    lines before, then those of the new line, which decides how the run ends.
   */
  lemma WritesSnoc(addComments: bool, ext: string, fs: FileSystem, lines: seq<string>, line: string, depth: nat, start: seq<string>)
    requires FlattenLines(ext, fs, lines, depth).status.Ok?
    ensures var done := FlattenLines(ext, fs, lines, depth);
      var step := FlattenLines(ext, fs, [line], depth);
      var next := FlattenLines(ext, fs, lines + [line], depth);
      && next.status == step.status
      && start + Writes(addComments, done.events) + Writes(addComments, step.events) == start + Writes(addComments, next.events)
  {
    var done := FlattenLines(ext, fs, lines, depth);
    var step := FlattenLines(ext, fs, [line], depth);
    FlattenLinesAppend(ext, fs, lines, [line], depth);
    AppendAssoc(start, Writes(addComments, done.events), Writes(addComments, step.events));
    WritesAppend(addComments, done.events, step.events);
  }

  /** Once the first n lines of a file fail, the rest of the file is not processed. */
  lemma FlattenLinesStop(ext: string, fs: FileSystem, lines: seq<string>, n: nat, depth: nat)
    requires n <= |lines| && !FlattenLines(ext, fs, lines[..n], depth).status.Ok?
    ensures FlattenLines(ext, fs, lines, depth) == FlattenLines(ext, fs, lines[..n], depth)
  {
    FlattenLinesAppend(ext, fs, lines[..n], lines[n..], depth);
    assert lines[..n] + lines[n..] == lines;
  }

  /** An output text file that parseFile appends to: the strings written to it, in order. */
  class Sink {
    var writes: seq<string>

    constructor()
      ensures writes == []
    {
      writes := [];
    }

    /** The content of the file. */
    function Text(): string
      reads this
    {
      Concat(writes)
    }

    /** outFile.write(s) */
    method Write(s: string)
      modifies this
      ensures writes == old(writes) + [s]
      ensures Text() == old(Text()) + s
    {
      ConcatAppend(writes, [s]);
      assert Concat([s]) == s + Concat([]);
      writes := writes + [s];
    }
  }

  /**
    parseFile(inFile, outFile): writes to outFile what FlattenLines says, and
    reports how the run ended.
   */
  method ParseFile(cfg: Config, fs: FileSystem, inFile: seq<string>, outFile: Sink, depth: nat) returns (status: Status)
    modifies outFile
    ensures var run := FlattenLines(cfg.texExtension, fs, inFile, depth);
      status == run.status && outFile.writes == old(outFile.writes) + Writes(cfg.addComments, run.events)
    decreases depth, 2
  {
    ghost var start := outFile.writes;
    ghost var ext, ac := cfg.texExtension, cfg.addComments;
    for i := 0 to |inFile|
      invariant FlattenLines(ext, fs, inFile[..i], depth).status.Ok?
      invariant outFile.writes == start + Writes(ac, FlattenLines(ext, fs, inFile[..i], depth).events)
    {
      status := ParseLine(cfg, fs, inFile[i], outFile, depth);
      WritesSnoc(ac, ext, fs, inFile[..i], inFile[i], depth, start);
      assert inFile[..i + 1] == inFile[..i] + [inFile[i]];
      if !status.Ok? {
        FlattenLinesStop(ext, fs, inFile, i + 1, depth);
        return;
      }
    }
    assert inFile[..|inFile|] == inFile;
    return Ok;
  }

  /**
    One pass of the loop of parseFile: a line with a directive is written as
    before, the insertion of the normalised file name, and after; any other
    line is copied.
   */
  method ParseLine(cfg: Config, fs: FileSystem, line: string, outFile: Sink, depth: nat) returns (status: Status)
    modifies outFile
    // Stated as the run of a one-line file, the form ParseFile's loop invariant
    // extends line by line; FlattenSingle shows it is the run FlattenLine gives.
    ensures var run := FlattenLines(cfg.texExtension, fs, [line], depth);
      status == run.status && outFile.writes == old(outFile.writes) + Writes(cfg.addComments, run.events)
    decreases depth, 1
  {
    ghost var start := outFile.writes;
    ghost var ext, ac := cfg.texExtension, cfg.addComments;
    ghost var step := FlattenLine(ext, fs, line, depth);
    FlattenSingle(ext, fs, line, depth);
    var found := Match(line);
    if found.Some? {
      var before := found.value.before;
      var incFileName := NormaliseName(cfg.texExtension, found.value.raw);
      var after := found.value.after;
      ghost var ins := Insert(ext, fs, incFileName, depth);
      outFile.Write(before);
      status := InsertFile(cfg, fs, incFileName, outFile, depth);
      AppendAssoc(start, [before], Writes(ac, ins.events));
      WritesDirective(ac, before, ins.events, after);
      if !status.Ok? {
        assert step == Run([Text(before)] + ins.events, ins.status);
        return;
      }
      assert step == Run([Text(before)] + ins.events + [Text(after)], Ok);
      outFile.Write(after);
      AppendAssoc(start, [before] + Writes(ac, ins.events), [after]);
    } else {
      assert step == Run([Text(line)], Ok);
      outFile.Write(line);
      WritesSingle(ac, Text(line));
      status := Ok;
    }
  }

  /** The writes of the events of a line with a directive. */
  lemma WritesDirective(addComments: bool, before: string, inserted: seq<Event>, after: string)
    ensures Writes(addComments, [Text(before)] + inserted) == [before] + Writes(addComments, inserted)
    ensures Writes(addComments, [Text(before)] + inserted + [Text(after)]) == [before] + Writes(addComments, inserted) + [after]
  {
    WritesSingle(addComments, Text(before));
    WritesSingle(addComments, Text(after));
    WritesAppend(addComments, [Text(before)], inserted);
    WritesAppend(addComments, [Text(before)] + inserted, [Text(after)]);
  }

  /**
    insertFile(fileName): the begin marker, then (when the file opens) its
    flattened content and the end marker; an error ends this call at once.
   */
  method InsertFile(cfg: Config, fs: FileSystem, fileName: string, outFile: Sink, depth: nat) returns (status: Status)
    modifies outFile
    ensures var run := Insert(cfg.texExtension, fs, fileName, depth);
      status == run.status && outFile.writes == old(outFile.writes) + Writes(cfg.addComments, run.events)
    decreases depth, 0, 1
  {
    ghost var start := outFile.writes;
    if cfg.addComments {
      outFile.Write(BeginMarker(fileName));
    }
    assert outFile.writes == start + Written(cfg.addComments, BeginInsertion(fileName));
    status := OpenFile(cfg, fs, fileName, outFile, depth);
    InsertWrites(cfg.addComments, cfg.texExtension, fs, fileName, depth, start);
    if !status.Ok? {
      return;
    }
    if cfg.addComments {
      outFile.Write(EndMarker(fileName));
    }
  }

  /** The writes of an insertion: the begin marker, what opening the file writes, and the end marker when that succeeded. */
  lemma InsertWrites(addComments: bool, ext: string, fs: FileSystem, name: string, depth: nat, start: seq<string>)
    ensures var body := Open(ext, fs, name, depth);
      var run := Insert(ext, fs, name, depth);
      && run.status == body.status
      && start + Writes(addComments, run.events)
         == start + Written(addComments, BeginInsertion(name)) + Writes(addComments, body.events)
            + (if body.status.Ok? then Written(addComments, EndInsertion(name)) else [])
  {
    var body := Open(ext, fs, name, depth);
    var begin, end := BeginInsertion(name), EndInsertion(name);
    WritesSingle(addComments, begin);
    WritesSingle(addComments, end);
    WritesAppend(addComments, [begin], body.events);
    var w := Written(addComments, begin) + Writes(addComments, body.events);
    if body.status.Ok? {
      WritesAppend(addComments, [begin] + body.events, [end]);
      AppendAssoc(start, w, Written(addComments, end));
    } else {
      assert w + [] == w;
    }
    AppendAssoc(start, Written(addComments, begin), Writes(addComments, body.events));
  }

  /**
    Opening fileName and parsing the opened file: nothing is written when the
    file is missing or no nesting depth is left.
   */
  method OpenFile(cfg: Config, fs: FileSystem, fileName: string, outFile: Sink, depth: nat) returns (status: Status)
    modifies outFile
    ensures var run := Open(cfg.texExtension, fs, fileName, depth);
      status == run.status && outFile.writes == old(outFile.writes) + Writes(cfg.addComments, run.events)
    decreases depth, 0, 0
  {
    if fileName !in fs {
      return FileNotFound(fileName);
    }
    if depth == 0 {
      return RecursionLimit(fileName);
    }
    var file := fs[fileName];
    status := ParseFile(cfg, fs, file, outFile, depth - 1);
  }

  /**
    The script itself: the document read from standard input is flattened
    into standard output, which starts out empty; what it receives is the
    text of the document's run.
   */
  method FlattenDocument(cfg: Config, fs: FileSystem, document: string, depth: nat) returns (output: string, status: Status)
    ensures var run := FlattenLines(cfg.texExtension, fs, Lines(document), depth);
      status == run.status && output == Render(cfg.addComments, run.events)
  {
    var outFile := new Sink();
    status := ParseFile(cfg, fs, Lines(document), outFile, depth);
    ghost var run := FlattenLines(cfg.texExtension, fs, Lines(document), depth);
    assert outFile.writes == [] + Writes(cfg.addComments, run.events);
    assert [] + Writes(cfg.addComments, run.events) == Writes(cfg.addComments, run.events);
    output := outFile.Text();
  }

  lemma AppendAssoc<T>(a: seq<T>, b: seq<T>, c: seq<T>)
    ensures a + b + c == a + (b + c)
  {
  }

  lemma WritesSingle(addComments: bool, e: Event)
    ensures Writes(addComments, [e]) == Written(addComments, e)
  {
    assert [e][1..] == [];
  }
}
