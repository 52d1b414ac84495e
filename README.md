# vmod region rewriter, modelled in Dafny

`vmod` rewrites Verilog source files according to a list of operations. Each
operation names a kind (`remove`, `dummy`, `replace` or `deleteline`) and a
begin-marker, an end-marker and a source file. For each file of a file
list, the operations are applied in order. The result is written to an output
directory under the file's base name.

The engine exists twice, byte for byte. It is a library in
`internal/vtext/process.go` and a copy in `cmd/vmod/main.go`. Lines 23-165 and
246-325 of the first are lines 25-167 and 248-327 of the second. The table
below cites the library and, for the pipeline, both.

The model has six modules:

- `Strings` (`strings.dfy`): the Go `strings` functions the engine calls.
  These are `HasPrefix`, `Contains`, `Split`, `Join` and `LastIndex`. A Go
  string is a byte sequence; here it is a `string`, one char per byte.
- `Locator` (`locator.dfy`): `findBeginEnd`. The comment lexer is the
  one-step function `Lex`. `PlainFrom` is the list of offsets the scan tests
  for a marker, and `ScanFor` is the scan itself. `Locate` is the pair
  `findBeginEnd` returns. The method `FindBeginEnd` is proved equal to
  `Locate`. Lemmas say what `Locate` means in terms of the tested offsets.
- `Comments` (`comments.dfy`): how the lexer treats `/* ... */` and
  `// ... \n` comments, and that no offset inside a comment is ever tested.
- `Actions` (`actions.dfy`): `removeAction` and `replaceAction` as functions.
  `dummyAction` and `deletelineAction` are methods with their loops, proved
  equal to the functions `Dummied` and `DeletedLines`. Lemmas cover:
  - the kept text around a region;
  - the recovered line lists;
  - the identity on texts without a region.
- `Pipeline` (`pipeline.dfy`): the per-file operation loop (`ApplyOp`,
  `RunOps`, the method `ProcessFile`). It also covers skipping empty
  file-list entries (`NonEmpty`, the method `ProcessFiles`) and the output
  path (`BaseName`, `OutPath`).
- `Scenarios` (`scenarios.dfy`): two short texts worked through the model.
  In one, a marker inside a block comment is skipped. The other is a
  deleteline run on a three-line file.

Reading files is modelled by a map `Disk` from path to contents. A path that
is not a key cannot be read. A Go panic is the `Panicked` outcome.

Some behaviours of the code that the model keeps:

- The end-marker scan starts just past the begin-marker, with both comment
  flags false. The characters of the begin-marker are never lexed.
- The scan never resumes after a begin-marker is found. With no end-marker
  after it, the result is `(b, -1)`, and all region actions leave the text
  unchanged.
- The returned end offset `e` lies just past the end-marker.
- `deletelineAction` writes a newline after every piece of the split. A text
  in which no line holds the keyword comes back with one newline more
  (`DeletelineNoMatch`).
- `replaceAction` reads its source file before it looks for the region. An
  unreadable source panics even when the text holds no region. The code
  panics (`internal/vtext/process.go:136-139`), and the model follows the
  code.
- Every action returns a nil error. So the error branches of the operation
  loop never run (`ActionResultTaken`). They are written as conditional
  updates so that they stay part of the model.

## Model

| member | source | states |
|---|---|---|
| Strings.HasPrefix | internal/vtext/process.go:45 | a definition without a contract: `strings.HasPrefix`; `Locator.ScanFound` and `Locator.LocateEnd` state what a match at an offset means |
| Strings.Contains | internal/vtext/process.go:158 | a definition without a contract: `strings.Contains`; `ContainsIff` characterizes it |
| Strings.ContainsIff | internal/vtext/process.go:158 | `strings.Contains(s, sub)` holds exactly when `sub` occurs at some offset of `s` |
| Strings.ContainedCharsOccur | internal/vtext/process.go:158 | a string found inside `s` holds no character that `s` lacks |
| Strings.ContainsSuffixOf | internal/vtext/process.go:119 | wherever a word occurs, every suffix of it occurs too |
| Strings.Join | internal/vtext/process.go:123 | a definition without a contract: `strings.Join`; `SplitJoin` and `JoinTrailingEmpty` relate it to `Split` |
| Strings.Split | internal/vtext/process.go:155 | `strings.Split` gives at least one piece, no piece holds the separator, and joining the pieces gives the string back |
| Strings.SplitWithoutSeparator | internal/vtext/process.go:116 | a string without the separator splits into itself alone |
| Strings.SplitAtFirst | internal/vtext/process.go:116 | splitting cuts at the first separator and splits the rest |
| Strings.SplitJoin | internal/vtext/process.go:123 | `Split` undoes `Join` when no part holds the separator |
| Strings.JoinTrailingEmpty | internal/vtext/process.go:159 | a trailing empty part adds exactly one separator at the end |
| Strings.LastIndex | internal/vtext/process.go:311 | `strings.LastIndex` is -1 or the offset of a `/`, and no `/` follows it |
| Locator.Lex | internal/vtext/process.go:33-44 | each step of the comment lexer advances by exactly one or two characters and stays within the text |
| Locator.PlainFrom | internal/vtext/process.go:32-44 | a definition without a contract: the offsets the scan tests; `PlainFromOrdered` and the `Comments` lemmas characterize it |
| Locator.PlainFromOrdered | internal/vtext/process.go:32-44 | the offsets the scan tests lie within the text, each once, in increasing order |
| Locator.FirstMatch | internal/vtext/process.go:45 | -1 exactly when the marker occurs at none of the offsets; otherwise one of them where it occurs |
| Locator.FirstMatchLeast | internal/vtext/process.go:45 | in an increasing list, no offset before the first match holds the marker |
| Locator.ScanFor | internal/vtext/process.go:32-81 | the scan returns -1 or an offset from its start on, inside the text |
| Locator.ScanForIsFirstMatch | internal/vtext/process.go:32-81 | the scan returns the first tested offset at which the marker occurs |
| Locator.ScanNone | internal/vtext/process.go:47-78 | a fresh scan finds nothing exactly when no tested offset holds the marker |
| Locator.ScanFound | internal/vtext/process.go:45-46 | what a fresh scan finds is a tested offset where the whole marker lies in the text, and no earlier tested offset holds it |
| Locator.Locate | internal/vtext/process.go:23-88 | a definition without a contract: the pair `findBeginEnd` returns; `LocateNoBegin`, `LocateBegin`, `LocateUnterminated`, `LocateEnd` and `LocateEndFirst` characterize it |
| Locator.LocateNoBegin | internal/vtext/process.go:82-87 | the begin offset is -1 exactly when no begin-marker stands outside comments, and then the end offset is -1 too |
| Locator.LocateBegin | internal/vtext/process.go:44-46 | a begin offset `b` holds the begin-marker, is tested, and is the first tested offset that holds it |
| Locator.LocateUnterminated | internal/vtext/process.go:47-78 | after a begin-marker, the end offset is -1 exactly when no tested offset after the marker holds the end-marker |
| Locator.LocateEnd | internal/vtext/process.go:60-68 | on success `(b, e)`, `text[e-|end|..e]` is the end-marker, it starts no earlier than `b+|begin|`, and `e <= |text|` |
| Locator.LocateEndFirst | internal/vtext/process.go:47-68 | on success the end-marker stands at the first tested offset after the begin-marker that holds it |
| Locator.FindBeginEnd | internal/vtext/process.go:23-88 | the method's two scanning loops return exactly the pair `Locate` defines |
| Locator.ScanMarker | internal/vtext/process.go:47-71 | the scanning loop, with its comment flags and its skips over delimiters, returns exactly what `ScanFor` defines |
| Comments.NextPair | internal/vtext/process.go:36 | the first offset from `j` where a two-character delimiter starts, or the text's length |
| Comments.NextChar | internal/vtext/process.go:42 | the first offset from `j` holding a character, or the text's length |
| Comments.InsideBlock | internal/vtext/process.go:36-38 | inside a block comment nothing is tested until the first `*/`; unclosed, the comment runs to the end |
| Comments.InsideLine | internal/vtext/process.go:42-43 | inside a line comment nothing is tested up to the next newline; unclosed, the comment runs to the end |
| Comments.BlockComment | internal/vtext/process.go:33-38 | outside comments `/*` opens a block comment that the first `*/` after it closes; comments do not nest |
| Comments.LineComment | internal/vtext/process.go:39-43 | outside comments `//` opens a line comment that the next newline closes |
| Comments.PlainChar | internal/vtext/process.go:44-45 | outside comments every offset that opens no comment is tested, and the scan stays outside |
| Comments.BlockCommentUntested | internal/vtext/process.go:33-38 | no offset from `/*` to the closing `*/` is ever tested for a marker |
| Comments.LineCommentUntested | internal/vtext/process.go:39-43 | no offset from `//` to the closing newline is ever tested for a marker |
| Actions.FindRegion | internal/vtext/process.go:96-98 | a region found starts with the begin-marker and ends with the end-marker, the two do not overlap, and it lies in the text |
| Actions.RegionMissing | internal/vtext/process.go:98-101 | there is no region exactly when no begin-marker stands outside comments, or no end-marker stands outside comments after the first one |
| Actions.RegionFound | internal/vtext/process.go:96 | a region starts at the first plain begin-marker and ends with the first plain end-marker after it |
| Actions.Splice | internal/vtext/process.go:99 | the rewritten text keeps the text before the region, then holds the insert, then the text after the region |
| Actions.SpliceRestores | internal/vtext/process.go:99 | putting the region back in place of the insert gives the original text |
| Actions.SpliceUnchangedIff | internal/vtext/process.go:99 | a rewrite leaves the text unchanged exactly when the region already reads as the insert |
| Actions.RemoveAction | internal/vtext/process.go:90-104 | the region gives way to `// remove <begin>` and a newline; without a region the text is unchanged; the error is nil |
| Actions.ReplaceAction | internal/vtext/process.go:130-148 | it panics exactly when the source file cannot be read, region or not; otherwise the region gives way to `// replace <begin>`, a newline and the source contents; without a region the text is unchanged; the error is nil |
| Actions.EndmoduleImpliesModule | internal/vtext/process.go:119 | a line holding `endmodule` holds `module`, so that test is redundant |
| Actions.Structural | internal/vtext/process.go:117-122 | the kept lines are no more than the input lines, and each is structural |
| Actions.StructuralAppend | internal/vtext/process.go:118-122 | filtering a concatenation concatenates the filtered parts, so kept lines keep their order |
| Actions.StructuralMembers | internal/vtext/process.go:119-120 | a line is kept exactly when it is an input line holding one of the five keywords |
| Actions.StructuralKeepsLines | internal/vtext/process.go:116-120 | kept lines hold no character that the input lines lack |
| Actions.Dummied | internal/vtext/process.go:112-127 | a definition without a contract: what dummyAction returns; `DummyKeepsStructuralLines` and `MissingRegionKeepsText` characterize it |
| Actions.DummyAction | internal/vtext/process.go:106-128 | the loop that collects kept lines returns exactly `Dummied` |
| Actions.DummyKeepsStructuralLines | internal/vtext/process.go:114-123 | around a region the text is kept; the comment line `// dummy <begin>` comes first; splitting the rest of the region's replacement at newlines gives back exactly the region's structural lines |
| Actions.SpliceTwoParts | internal/vtext/process.go:123 | each part of a two-part insert lands in its place |
| Actions.AfterDelete | internal/vtext/process.go:158-161 | a definition without a contract: one line as deletelineAction rewrites it; `DeletelineLines` and `AfterDeleteOneLine` characterize it |
| Actions.AllAfterDelete | internal/vtext/process.go:157-162 | a definition without a contract: the reference per-line map, every line rewritten by `AfterDelete`; `DeletedLinesJoin` and `DeletelineLines` relate it to the output |
| Actions.DeletedLines | internal/vtext/process.go:155-164 | a definition without a contract: the text deletelineAction accumulates; `DeletedLinesJoin`, `DeletelineLines` and `DeletelineNoMatch` characterize it |
| Actions.DeletelineAction | internal/vtext/process.go:150-165 | the accumulating loop returns exactly `DeletedLines` of the split text |
| Actions.DeletedLinesJoin | internal/vtext/process.go:156-163 | the accumulated text is the rewritten lines joined by newlines, plus a final newline |
| Actions.AfterDeleteOneLine | internal/vtext/process.go:158-161 | a rewritten line holds no newline |
| Actions.DeletelineLines | internal/vtext/process.go:155-164 | splitting the output gives one line per input line, then an empty piece, so the output ends in a newline; a line holding the keyword becomes `// remove the line <kw>`, and every other line is written as it was |
| Actions.DeletelineNoMatch | internal/vtext/process.go:155-164 | when no line holds the keyword, the output is the input plus one newline |
| Actions.MissingRegionKeepsText | internal/vtext/process.go:124-126 | with no complete region, remove, dummy and a replace whose source file can be read all leave the text unchanged |
| Pipeline.ApplyOp | internal/vtext/process.go:269-308 | a definition without a contract: the switch on the operation kind; `ActionResultTaken`, `ApplyOpPanics`, `UnknownOpKeepsContent` and `OpFieldsUsed` characterize it |
| Pipeline.RunOps | internal/vtext/process.go:268-309 | a definition without a contract: the operation loop; `RunOpsAppend` and `RunOpsPanics` characterize it |
| Pipeline.ActionResultTaken | internal/vtext/process.go:270-302 | every remove, dummy and readable replace takes the action's content, because no action reports an error |
| Pipeline.ApplyOpPanics | internal/vtext/process.go:270-280 | an operation panics exactly when it is a replace whose source file cannot be read |
| Pipeline.UnknownOpKeepsContent | internal/vtext/process.go:306-307 | an operation of unknown kind leaves the content unchanged |
| Pipeline.OpFieldsUsed | cmd/vmod/main.go:272-307 | deleteline reads only `begin`; remove and dummy do not read `src`; replace reads the disk only at `src` |
| Pipeline.RunOpsAppend | cmd/vmod/main.go:270-311 | running operations in two parts runs the second on what the first left, so each sees its predecessor's output |
| Pipeline.RunOpsPanics | internal/vtext/process.go:268-309 | a run panics only at a replace operation whose source file cannot be read, and names that file |
| Pipeline.BaseName | internal/vtext/process.go:311 | the base name is a suffix of the path without a slash, and it is the whole path or follows a slash |
| Pipeline.BaseNameUnique | internal/vtext/process.go:311 | no other suffix has those properties |
| Pipeline.OutPath | cmd/vmod/main.go:313 | the output path is the output directory, a slash and the base name |
| Pipeline.FileResult | internal/vtext/process.go:257-323 | a definition without a contract: the goroutine body for one file; `ProcessFile` is proved equal to it |
| Pipeline.ProcessFile | internal/vtext/process.go:257-311 | the goroutine's read, its operation loop and its output path give exactly `FileResult` |
| Pipeline.NonEmpty | cmd/vmod/main.go:248-251 | the named entries are no more than the list's entries, and none is empty; `NonEmptyMembers` and `NonEmptyAppend` state which entries are kept and in what order |
| Pipeline.NonEmptyMembers | internal/vtext/process.go:246-249 | an entry is kept exactly when it is a non-empty entry of the list |
| Pipeline.NonEmptyAppend | internal/vtext/process.go:246-249 | dropping empty entries from a concatenation drops them from each part, so the kept entries keep their order |
| Pipeline.FilesResult | internal/vtext/process.go:246-324 | a definition without a contract: the loop over the file list; `FilesInOrder`, `FilesStopAtCrash` and `EmptyEntriesSkipped` characterize it |
| Pipeline.FilesInOrder | internal/vtext/process.go:246-249 | files are handled in list order with empty entries skipped; the k-th outcome is about the k-th non-empty entry |
| Pipeline.FilesStopAtCrash | internal/vtext/process.go:136-139 | only a panic stops the run early, and it is the last outcome |
| Pipeline.EmptyEntriesSkipped | cmd/vmod/main.go:248-251 | dropping the empty entries from the list changes no outcome |
| Pipeline.ProcessFiles | cmd/vmod/main.go:184-192 | an unreadable file list does nothing; otherwise the list is split at newlines and handled as `FilesResult` says |
| Scenarios.CommentedMarkerSkipped | internal/vtext/process.go:32-68 | in `a/*b*/b c` with markers `b` and `c`, the `b` inside the block comment is skipped and the region is (6, 9) |
| Scenarios.DeletelineScenario | internal/vtext/process.go:155-164 | deleteline with keyword `celldefine` on a three-line file rewrites only the line holding it, keeps the blank line, and adds a final newline |

## Left out

- Locator.FindBeginEnd: the source nests the end-marker loop inside the
  begin-marker loop. The model calls one scanning method, `ScanMarker`,
  twice. This is the same behaviour: the outer loop returns as soon as the
  inner loop ends, and the inner loop starts with both comment flags false.
- Writing the output file (`ioutil.WriteFile`) and its failure are not
  modelled. The `Written` outcome names the path and the content that would
  be written.
- `readConfig` and its JSON decoding are not modelled. The operations are
  given as a list of `OpEntry`. `CreateOutputDir` is not modelled either.
  It only touches the file system. The source makes three checks before it
  handles any file. If the config cannot be read
  (`internal/vtext/process.go:214-220`), the file list cannot be read
  (226-232) or the output directory cannot be created (238-244),
  `processFiles` returns at once. The model covers only the second of these,
  as the empty outcome list of `ProcessFiles`. The other two end the run the
  same way.
- The goroutine per file and the `sync.WaitGroup` are not modelled. Files are
  handled one after another, in list order. In the source, a panic in one
  goroutine ends the whole program. Files handled by other goroutines may or
  may not have been written by then. The model stops at the panicking file,
  after the earlier files.
- Logging through `logrus`, the `fmt.Printf` for an unknown operation kind,
  and the command-line front end are not modelled. They produce output only.
- Go strings are byte sequences. The model uses one char per byte and does
  no UTF-8 decoding. The engine itself only compares and slices bytes.
- The test text of `cmd/vmod/main_test.go` and the worked example of the help
  text (`cmd/vmod/main.go:330-431`) are not evaluated on the verifier. The
  scan unfolds once per character, and every step needs its own assertion.
  On texts of that length this goes beyond what the verifier does within its
  resource bound. The `Scenarios` module works through two short texts
  instead. Reading the code by hand on the test text gives a region from
  offset 134 to 209, where 209 is just past the final `<end>`. The test
  expects 204, the offset where that `<end>` starts.
- `internal/demo/gen.go` only writes fixed fixture files and is not part of
  this model.
