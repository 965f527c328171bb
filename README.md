# flatten_latex in Dafny

`flatten_latex.py` flattens a LaTeX document. It copies the document line by
line into an output file. A line that holds an `\input{name}` or
`\include{name}` command, and whose command is not commented out by `%`, is
replaced in three parts:

- the text before the command;
- the named file, flattened the same way and by default framed by two marker
  comment lines;
- the text after the command.

The file name is the braced argument with surrounding whitespace stripped,
plus `.tex` unless it already ends with that.

The project models this core in five modules:

- `Wrappers` holds the `Option` type.
- `Strings` holds the string operations the script relies on: `str.strip()`
  with Python's whitespace set, `str.endswith`, a prefix test with which the
  pattern's literal command text is read, and reading a text file as a
  sequence of lines.
- `InputPattern` is the regular expression `Config.inputRe`, applied to one
  line as Python's backtracking matcher applies it.
  - The `before` group reads the line as tokens. A token is one character
    other than `%` and `\`, or a `\` together with the next character if
    that is not a line break.
  - Because the star is greedy, the command found is the one at the last
    token boundary where a command starts and its argument is closed by `}`
    before the line break. `Match` returns that directive. A command whose
    argument is not closed does not count: in `\input{a}\input{b` the first
    command is the match (`UnclosedCommandExample`).
  - The argument ends at the first `}`.
  - `after` stops before the line break, because `.` does not match `"\n"`.
  - The pattern begins with `^`, so `search` only tries the start of the
    line.
- `FlattenLatex` holds the configuration and the run itself.
  - `Config` carries `addComments` and `texExtension`, and `DefaultConfig`
    holds the class's values.
  - A `FileSystem` maps every name that `open()` accepts to the lines that
    iterating over the opened file yields.
  - What a run writes is a sequence of events (text, begin of an insertion,
    end of an insertion) and a `Status`: `Ok`, `FileNotFound(name)` or
    `RecursionLimit(name)`. The functions `FlattenLines`, `FlattenLine`,
    `Insert` and `Open` compute them.
  - `Render` gives the text those events put into the output file. Marker
    lines are included only when `addComments` holds.
  - The methods `ParseFile` (the `for` loop), `ParseLine` (the loop body),
    `InsertFile` (the nested `insertFile`) and `OpenFile` (the `with open`
    block) follow the Python code over a `Sink` object that records every
    `outFile.write`. Each is proved to make exactly the writes that the
    events call for and to return the same status.
  - `FlattenDocument` is the `__main__` block: a document in, its flattened
    text out.
- `FlattenProperties` holds what the flattener promises about its output:
  - lines without a command are copied verbatim;
  - a command is replaced by before, the insertion and after;
  - a missing file stops everything after the begin marker;
  - `addComments` adds nothing but the markers;
  - markers nest properly, and an error names the innermost open insertion;
  - the nesting bound only matters where it is reached, and a file whose
    first line includes the file itself always reaches it;
  - name normalisation is idempotent.

The script does not catch the errors it raises:

- A missing file raises `FileNotFoundError`.
- An inclusion cycle ends in `RecursionError`.

Both unwind every enclosing call. In the model they are a `Status` that every
enclosing call returns unchanged, and nothing is written after the failure.
The recursion limit is the parameter `depth`: an insertion nested more than
`depth` levels deep fails with `RecursionLimit` for the file it would open.

Two points where the code's behaviour differs from a plain reading of the
tool's description. The model follows the code in both:

- **Last command, not first.** When a line has several commands, the one
  expanded is the last one at a token boundary whose argument is closed by
  `}` before the line break, not the first. The earlier ones stay in
  `before` as literal text (`LastDirectiveExample`).
- **The line break is dropped.** The line break that ends a line with a
  command is not written, because `after` does not include it
  (`DirectiveLineBreak` together with `DirectiveLine`).

## Model

| member | source | states |
|---|---|---|
| Strings.Strip | flatten_latex.py:68 | `str.strip()`: the result is the slice of the argument that starts after its leading whitespace; all that is cut off on either side is whitespace (Python's `isspace` set); the result neither starts nor ends with whitespace |
| Strings.StripFixed | flatten_latex.py:68 | stripping leaves a string unchanged exactly when neither of its ends is whitespace |
| Strings.StripIdempotent | flatten_latex.py:68 | stripping twice is stripping once |
| Strings.StripConcat | flatten_latex.py:68 | two strings that stripping leaves alone are left alone when concatenated |
| Strings.Lines | flatten_latex.py:61 | `for line in inFile`: the lines concatenate back to the text; each is non-empty with a line break at most as its last character; every line but the last ends with a line break |
| Strings.LinesOfConcat | flatten_latex.py:61 | splitting the concatenation of such a line sequence gives the sequence back |
| InputPattern.Tokens | flatten_latex.py:38-40 | the `before` group `(?:[^%\\]\|\\.)*` matches s in full: s is empty, or it starts with a character other than `%` and `\` or with `\` and a character other than a line break, and the rest is again a token run |
| InputPattern.NextBoundary | flatten_latex.py:40 | the end of the single token of the `before` group that starts at p: the piece from p to it is a token run and no shorter piece from p is one; None exactly when no piece from p is a token run |
| InputPattern.BoundaryGap | flatten_latex.py:40 | no token boundary of the line lies strictly between a boundary p and the next one, and none lies beyond p when there is no next one |
| InputPattern.CloseBrace | flatten_latex.py:40 | `(?P<filename>.*?)\}`: the first `}` from q, with no `}` and no line break before it; with no result, no `}` occurs before the next line break |
| InputPattern.CommandEnd | flatten_latex.py:40 | `\\(?:input\|include)\{` at p: the position after `\input{` or `\include{` when the line continues with one of them, p exactly when it continues with neither |
| InputPattern.SpanAt | flatten_latex.py:40 | the rest of the pattern at p fails exactly when no command starts there or no `}` closes its argument; otherwise it gives the positions of the command, the argument's `}` and the end of `after` |
| InputPattern.DirectiveAt | flatten_latex.py:40 | the rest of the pattern after the `before` group, tried at p: a result has the line up to p as its `before`; what its other groups hold is stated by DirectiveShape |
| InputPattern.FindFrom | flatten_latex.py:40 | backtracking over the token boundaries from p: the directive found lies at a token boundary, is the directive there, and no token boundary beyond it has one; no result means no boundary from p has one |
| InputPattern.Match | flatten_latex.py:40 | `inputRe.search(line)`: `before` is a token run, the groups are those of the directive at `before`'s end, and every token boundary where a directive starts lies at or before it; None exactly when no token boundary has a directive |
| InputPattern.DirectiveShape | flatten_latex.py:40 | a directive found at p: the line continues from p with `\`, one of the two command words, the braced argument (no `}`, no line break) and after (no line break), followed by the end of the line or a line break |
| InputPattern.MatchShape | flatten_latex.py:66-73 | the groups of a match: `before` is a token run, the command word is `input` or `include`, the argument holds no `}` or line break, `after` holds no line break, and their reassembly is a prefix of the line followed by its end or a line break |
| InputPattern.MatchCoversLine | flatten_latex.py:63-73 | a line that file iteration yields and that matches is the reassembled directive, possibly followed by one line break |
| InputPattern.MatchReassemble | flatten_latex.py:40 | round trip: a directive whose before is a token run, whose command is `input` or `include`, whose argument holds no `}`, line break or backslash and whose after holds no line break or backslash, reassembled and followed by nothing or a line break, is matched back to itself |
| InputPattern.MatchReassembleUnclosed | flatten_latex.py:40 | round trip with a backslash allowed in after: a directive whose before is a token run, whose command is `input` or `include`, whose argument holds no `}`, line break or backslash and whose after holds no line break or `}`, reassembled, is matched back to itself |
| InputPattern.NoDirectiveInAfter | flatten_latex.py:40 | no directive starts inside an after that holds no `}`, because `\}` finds no closing brace there |
| InputPattern.NoDirectiveWithoutBackslash | flatten_latex.py:40 | no directive starts at a position that holds no backslash |
| InputPattern.NoCommandAt | flatten_latex.py:40 | no directive starts at a backslash that the letter `i` does not follow |
| InputPattern.EscapedPercent | flatten_latex.py:38-40 | inside a token run every `%` is preceded by an odd number of backslashes |
| InputPattern.CommentHidesRest | flatten_latex.py:38-40 | a `%` preceded by an even number of backslashes starts a comment: any directive found begins before it |
| InputPattern.CommentedOutFrom | flatten_latex.py:38-40 | a `%` preceded by an even number of backslashes comments out the rest of the line: when no token boundary before it has a directive, the line is unmatched |
| InputPattern.CommentedOutLine | flatten_latex.py:38-40 | a `%` before any backslash of the line leaves the line unmatched |
| InputPattern.CommentExample | flatten_latex.py:38-40 | `50% discount, see \input{notes}` is not matched |
| InputPattern.EscapedPercentExample | flatten_latex.py:38-40 | in `\%\input{notes}` the escaped `%` belongs to `before` and the command is found |
| InputPattern.LastDirectiveExample | flatten_latex.py:40 | in `\input{a}\input{b}` the second command is the match, and the first is part of `before` |
| InputPattern.UnclosedCommandExample | flatten_latex.py:40 | in `\input{a}\input{b` the second command, whose argument is never closed, is no match: the first command is, and the second stays in after |
| InputPattern.DoubleBackslashExample | flatten_latex.py:38-40 | `\\input{x}` (an escaped backslash, then the word) is not matched |
| InputPattern.EscapedBackslashCommentExample | flatten_latex.py:38-40 | `\\%\input{x}` (an escaped backslash, then a comment) is not matched |
| FlattenLatex.DefaultConfig | flatten_latex.py:35-37 | the class attributes: `addComments` is true and the extension is `.tex` |
| FlattenLatex.NormaliseName | flatten_latex.py:68-71 | the name opened ends with the extension and starts with the stripped argument; it is that argument exactly when the argument already ends with the extension, and otherwise the argument with the extension appended |
| FlattenLatex.BeginMarker | flatten_latex.py:55 | the line written before an inserted file: a LaTeX comment line (it starts with `%` and ends with a line break) holding the file name right after the fixed text `% ========= begin insertion of ` |
| FlattenLatex.EndMarker | flatten_latex.py:59 | the line written after an inserted file: a LaTeX comment line holding the file name right after the fixed text `% ========= end insertion of ` |
| FlattenLatex.Written | flatten_latex.py:54-81 | the `outFile.write` calls of one event: a text event writes its text (lines 76, 78, 81); a marker event writes its marker line when `addComments` holds and nothing otherwise (lines 54-55, 58-59) |
| FlattenLatex.Writes | flatten_latex.py:54-81 | the write calls of a sequence of events, event by event in order |
| FlattenLatex.Render | flatten_latex.py:54-81 | the text those write calls put into `outFile`: the written strings joined in order |
| FlattenLatex.FlattenLines | flatten_latex.py:61-81 | the `for line in inFile` loop: no lines write nothing and succeed; otherwise the loop starts with the first line |
| FlattenLatex.FlattenFirst | flatten_latex.py:61-81 | the loop from a given line on: that line's events, and only when it succeeded, the events of the remaining lines; the status is the first error, or Ok |
| FlattenLatex.FlattenLine | flatten_latex.py:62-81 | the loop body: a line without a match is written as it is; a matching line writes before, then the insertion of the normalised argument, then after only when the insertion succeeded; the status is the insertion's |
| FlattenLatex.Insert | flatten_latex.py:52-59 | `insertFile`: the begin marker event, then what opening the file writes, then the end marker event only when that succeeded; the status is the opened file's |
| FlattenLatex.Open | flatten_latex.py:56-57 | a name the file system lacks writes nothing and fails with FileNotFound for it; with no nesting depth left, nothing is written and the run fails with RecursionLimit for it; otherwise the file's lines are run one nesting level deeper |
| FlattenLatex.FlattenLinesAppend | flatten_latex.py:61-81 | the lines of a + b are processed in order: a's run followed by b's, or a's run alone when a fails |
| FlattenLatex.FlattenLinesStop | flatten_latex.py:61-81 | once a prefix of the lines fails, the rest are not processed |
| FlattenLatex.Sink.Write | flatten_latex.py:76 | `outFile.write(s)` appends s to the writes, and the file's text grows by s |
| FlattenLatex.ParseFile | flatten_latex.py:43-81 | `parseFile`: the writes made are the old writes followed by those the file's events call for, and the status is that of the run |
| FlattenLatex.ParseLine | flatten_latex.py:62-81 | one pass of the loop body makes the writes of that line's run and returns its status |
| FlattenLatex.InsertFile | flatten_latex.py:52-59 | `insertFile`: the begin marker (when comments are on), then the writes of opening and parsing the file, then the end marker only when that succeeded; the status is that of the opened file |
| FlattenLatex.OpenFile | flatten_latex.py:56-57 | `with open(fileName) as file: parseFile(file, outFile)`: nothing is written and the error is returned when the file is missing or no nesting depth is left; otherwise the writes of parsing the file one level deeper |
| FlattenLatex.FlattenDocument | flatten_latex.py:84-87 | the script: the output is exactly the text of the document's run, and the status is that run's |
| FlattenProperties.CopiedFile | flatten_latex.py:79-81 | a file with no matching line is flattened without error into exactly its own text, line breaks included |
| FlattenProperties.CopiedDocument | flatten_latex.py:61-81 | a document none of whose lines matches is written out unchanged |
| FlattenProperties.RenderLinesAppend | flatten_latex.py:61-81 | the output of a + b is the output of a followed by that of b, once a succeeds |
| FlattenProperties.FailedLine | flatten_latex.py:61-81 | a failing line ends its file: the writes are those of the lines before it then its own, and the file's status is the line's error |
| FlattenProperties.DirectiveLine | flatten_latex.py:66-78 | a matching line writes before, then the insertion of the normalised name, then after only when the insertion succeeded; the status is the insertion's |
| FlattenProperties.DirectiveLineBreak | flatten_latex.py:73 | a matching line that ends with a line break is the directive followed by that break, so the break is not among the parts written |
| FlattenProperties.InsertedFile | flatten_latex.py:52-59 | inserting an existing file writes the begin marker, the flattened file and, only on success, the end marker; the status is the file's |
| FlattenProperties.MissingFile | flatten_latex.py:54-57 | inserting a missing file writes the begin marker and nothing else, and fails with FileNotFound for that name |
| FlattenProperties.NestingLimit | flatten_latex.py:56-57 | inserting an existing file with no depth left writes the begin marker and fails with RecursionLimit for that name |
| FlattenProperties.DirectiveInsertion | flatten_latex.py:52-78 | a command naming an existing file: before, directly followed by the begin marker, the flattened file, and then, only on success, the end marker and after |
| FlattenProperties.MissingFileLine | flatten_latex.py:52-78 | a command naming a missing file: before and the begin marker stay written, nothing follows (no end marker, no after), and the error names the file |
| FlattenProperties.MarkersOnly | flatten_latex.py:54-59 | with `addComments` off the writes are those with it on, less every marker line |
| FlattenProperties.LinesNested | flatten_latex.py:52-81 | the markers of a file's run nest: on success every insertion begun is ended in order; on failure more insertions are open than before, and the innermost is the file the error names |
| FlattenProperties.LineNested | flatten_latex.py:62-78 | the same for the run of one line |
| FlattenProperties.InsertNested | flatten_latex.py:52-59 | the same for one insertion |
| FlattenProperties.OpenNested | flatten_latex.py:56-57 | the same for opening a file, or nothing written and the error naming that file |
| FlattenProperties.DocumentNested | flatten_latex.py:52-81 | for a whole document: it succeeds exactly when every begin marker is closed by the end marker of the same file; on failure the last insertion left open is the file the error names |
| FlattenProperties.LinesDeeper | flatten_latex.py:56-57 | a run of a file that does not hit the nesting bound is the same with any larger bound |
| FlattenProperties.LineDeeper | flatten_latex.py:62-78 | the same for one line |
| FlattenProperties.InsertDeeper | flatten_latex.py:52-59 | the same for one insertion |
| FlattenProperties.OpenDeeper | flatten_latex.py:56-57 | the same for opening a file |
| FlattenProperties.SelfInclusion | flatten_latex.py:56-57 | a file whose first line inputs the file itself fails with RecursionLimit for that file, whatever the bound |
| FlattenProperties.NormaliseStripped | flatten_latex.py:68 | whitespace around the argument does not change the file opened |
| FlattenProperties.NormaliseIdempotent | flatten_latex.py:68-71 | normalising a normalised name changes nothing, for an extension without surrounding whitespace |
| FlattenProperties.NormaliseWithExtension | flatten_latex.py:68-71 | a stem not ending with the extension and the stem with the extension both open the stem with the extension (`chapter1` and `chapter1.tex` open `chapter1.tex`) |
| FlattenProperties.DefaultExtensionStripped | flatten_latex.py:37 | the default extension `.tex` has no surrounding whitespace |

## Left out

- make-diff.py is not part of this model. It runs git, latexdiff and pdflatex, and it handles temporary files and command-line arguments; all of that is external programs and file-system work.
- Standard input and output (flatten_latex.py:84-87): `FlattenDocument` takes the document as a string and returns the text written; the streams themselves are not modelled.
- File handles and the closing done by `with` (flatten_latex.py:56): the file system is a map, and closing is not observable in it.
- The newline translation of text mode (`"\r\n"` read as `"\n"`): a file is given as the lines its iteration yields. `Strings.Lines` shows how a text splits at `"\n"`.
- Errors of `open()` other than a missing name (permissions, directories, decoding errors): every name in the map opens, and every other name fails with `FileNotFound`.
- Path resolution relative to the working directory: names are map keys as written.
- Python's recursion limit counts interpreter frames. The model counts nested insertions against the parameter `depth`. `RecursionLimit` is reported when the file that would go beyond that bound is opened.
- `Config` is a class whose attributes `parseFile` reads through a fresh `Config()` on every call. The model passes one `Config` value through all calls, which holds the same values.
- The exceptions themselves: an error is a `Status` that the methods return and every caller passes on at once. Nothing after the failure is executed.

Deliberately weaker contracts:

- FlattenProperties.NormaliseIdempotent: requires that the extension has no surrounding whitespace. For an extension such as `".tex "`, normalising a normalised name can change it: `a` becomes `a.tex `, and that becomes `a.tex.tex `.
