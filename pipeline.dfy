/** The per-file pipeline of vmod's processFiles: the file list is read and
    split into lines, empty entries are skipped, and each file is read, put
    through every configured operation in order and written to the output
    directory under its base name. Files are handled one after another here;
    the source runs one goroutine per file. */
module Pipeline {
  import opened Strings
  import opened Actions

  /** One entry of the configuration's "opcode" list. */
  datatype OpEntry = OpEntry(op: string, begin: string, end: string, src: string)

  /** What becomes of one file: it cannot be read; a replace operation
      panics on the unreadable source file `unreadable`; or its new content
      is written to `path`. */
  datatype FileOutcome =
    | Unreadable(file: string)
    | Crashed(file: string, unreadable: string)
    | Written(file: string, path: string, content: string)

  /** One operation applied to the content, dispatched on its kind. An
      action that reports an error leaves the content as it was; an unknown
      kind only prints a message. */
  function ApplyOp(disk: Disk, fileContent: string, op: OpEntry): Outcome<string> {
    if op.op == "replace" then
      match ReplaceAction(disk, fileContent, op.src, op.begin, op.end)
      case Panicked(path) => Panicked(path)
      case Returned(r) => Returned(if r.err.None? then r.content else fileContent)
    else if op.op == "dummy" then
      var r := Dummied(fileContent, op.begin, op.end);
      Returned(if r.err.None? then r.content else fileContent)
    else if op.op == "remove" then
      var r := RemoveAction(fileContent, op.begin, op.end);
      Returned(if r.err.None? then r.content else fileContent)
    else if op.op == "deleteline" then
      Returned(DeletedLines(Split(fileContent, '\n'), op.begin))
    else
      Returned(fileContent)
  }

  /** The operations applied in order, each to the content the previous one
      left; a panic ends the run. */
  function RunOps(disk: Disk, fileContent: string, ops: seq<OpEntry>): Outcome<string>
    decreases |ops|
  {
    if |ops| == 0 then Returned(fileContent)
    else
      match ApplyOp(disk, fileContent, ops[0])
      case Panicked(path) => Panicked(path)
      case Returned(next) => RunOps(disk, next, ops[1..])
  }

  /** Every action's result is taken: none of them ever reports an error,
      so the error branches of the operation loop never run. */
  lemma ActionResultTaken(disk: Disk, fileContent: string, op: OpEntry)
    ensures op.op == "remove" ==>
      ApplyOp(disk, fileContent, op) == Returned(RemoveAction(fileContent, op.begin, op.end).content)
    ensures op.op == "dummy" ==>
      ApplyOp(disk, fileContent, op) == Returned(Dummied(fileContent, op.begin, op.end).content)
    ensures op.op == "replace" && op.src in disk ==>
      ApplyOp(disk, fileContent, op) == Returned(ReplaceAction(disk, fileContent, op.src, op.begin, op.end).value.content)
  {
  }

  /** Only a replace operation whose source file cannot be read panics. */
  lemma ApplyOpPanics(disk: Disk, fileContent: string, op: OpEntry)
    ensures ApplyOp(disk, fileContent, op).Panicked? <==> op.op == "replace" && op.src !in disk
  {
  }

  /** An operation of unknown kind leaves the content unchanged. */
  lemma UnknownOpKeepsContent(disk: Disk, fileContent: string, op: OpEntry)
    requires op.op != "replace" && op.op != "dummy" && op.op != "remove" && op.op != "deleteline"
    ensures ApplyOp(disk, fileContent, op) == Returned(fileContent)
  {
  }

  /** Which fields of an entry an operation reads: deleteline only `begin`;
      remove and dummy `begin` and `end` but not `src`; replace all three,
      and the disk only through `src`. */
  lemma OpFieldsUsed(disk: Disk, fileContent: string, op: OpEntry, end2: string, src2: string, disk2: Disk)
    ensures op.op == "deleteline" ==>
      ApplyOp(disk2, fileContent, op.(end := end2, src := src2)) == ApplyOp(disk, fileContent, op)
    ensures op.op == "remove" || op.op == "dummy" ==>
      ApplyOp(disk2, fileContent, op.(src := src2)) == ApplyOp(disk, fileContent, op)
    ensures op.op == "replace" && op.src in disk && op.src in disk2 && disk2[op.src] == disk[op.src] ==>
      ApplyOp(disk2, fileContent, op) == ApplyOp(disk, fileContent, op)
  {
  }

  /** Running a list of operations in two parts runs the first part, then
      the second on what the first left: operations apply in the order of
      the configuration, each to its predecessor's output. */
  lemma {:induction false} RunOpsAppend(disk: Disk, fileContent: string, first: seq<OpEntry>, second: seq<OpEntry>)
    ensures RunOps(disk, fileContent, first + second) ==
      match RunOps(disk, fileContent, first)
      case Panicked(path) => Panicked(path)
      case Returned(mid) => RunOps(disk, mid, second)
    decreases |first|
  {
    if |first| == 0 {
      assert first + second == second;
    } else {
      assert (first + second)[0] == first[0];
      assert (first + second)[1..] == first[1..] + second;
      match ApplyOp(disk, fileContent, first[0])
      case Panicked(path) =>
      case Returned(next) => RunOpsAppend(disk, next, first[1..], second);
    }
  }

  /** A run panics only at a replace operation whose source file cannot be
      read. */
  lemma {:induction false} RunOpsPanics(disk: Disk, fileContent: string, ops: seq<OpEntry>)
    requires RunOps(disk, fileContent, ops).Panicked?
    ensures exists k :: (0 <= k < |ops| && ops[k].op == "replace" && ops[k].src !in disk &&
                         RunOps(disk, fileContent, ops).unreadable == ops[k].src)
    decreases |ops|
  {
    ApplyOpPanics(disk, fileContent, ops[0]);
    match ApplyOp(disk, fileContent, ops[0])
    case Panicked(path) =>
      assert ops[0].op == "replace" && ops[0].src !in disk;
    case Returned(next) =>
      RunOpsPanics(disk, next, ops[1..]);
      var k :| 0 <= k < |ops[1..]| && ops[1..][k].op == "replace" && ops[1..][k].src !in disk &&
        RunOps(disk, next, ops[1..]).unreadable == ops[1..][k].src;
      assert ops[k + 1] == ops[1..][k];
  }

  /** The part of a path after its last slash (the whole path when it has
      none): the longest suffix that holds no slash. */
  function BaseName(file: string): (base: string)
    ensures |base| <= |file| && file[|file| - |base|..] == base
    ensures '/' !in base
    ensures base == file || file[|file| - |base| - 1] == '/'
  {
    file[LastIndex(file, '/') + 1..]
  }

  /** The base name is the only slash-free suffix that is either the whole
      path or preceded by a slash. */
  lemma BaseNameUnique(file: string, s: string)
    requires |s| <= |file| && file[|file| - |s|..] == s
    requires '/' !in s
    requires s == file || file[|file| - |s| - 1] == '/'
    ensures s == BaseName(file)
  {
    var base := BaseName(file);
    if |s| == |base| {
      assert s == file[|file| - |s|..];
    }
  }

  /** Where a processed file is written: the output directory, a slash and
      the file's base name. */
  function OutPath(outDir: string, file: string): (path: string)
    ensures |path| > |outDir| && path[..|outDir|] == outDir && path[|outDir|] == '/'
    ensures path[|outDir| + 1..] == BaseName(file)
  {
    outDir + "/" + file[LastIndex(file, '/') + 1..]
  }

  /** What happens to one file. */
  function FileResult(disk: Disk, ops: seq<OpEntry>, outDir: string, file: string): FileOutcome {
    if file !in disk then Unreadable(file)
    else
      match RunOps(disk, disk[file], ops)
      case Panicked(path) => Crashed(file, path)
      case Returned(content) => Written(file, OutPath(outDir, file), content)
  }

  /** The work of one goroutine: read the file, apply the operations in
      order, and name where the result goes. */
  method ProcessFile(disk: Disk, ops: seq<OpEntry>, outDir: string, file: string) returns (outcome: FileOutcome)
    ensures outcome == FileResult(disk, ops, outDir, file)
  {
    if file !in disk {
      return Unreadable(file);
    }
    var fileContent := disk[file];
    for k := 0 to |ops|
      invariant RunOps(disk, fileContent, ops[k..]) == RunOps(disk, disk[file], ops)
    {
      var op := ops[k];
      assert ops[k..][0] == op && ops[k..][1..] == ops[k + 1..];
      if op.op == "replace" {
        var result := ReplaceAction(disk, fileContent, op.src, op.begin, op.end);
        if result.Panicked? {
          return Crashed(file, result.unreadable);
        }
        var newContent := result.value;
        fileContent := if newContent.err.None? then newContent.content else fileContent;
      } else if op.op == "dummy" {
        var newContent := DummyAction(fileContent, op.begin, op.end);
        fileContent := if newContent.err.None? then newContent.content else fileContent;
      } else if op.op == "remove" {
        var newContent := RemoveAction(fileContent, op.begin, op.end);
        fileContent := if newContent.err.None? then newContent.content else fileContent;
      } else if op.op == "deleteline" {
        fileContent := DeletelineAction(fileContent, op.begin);
      }
    }
    assert ops[|ops|..] == [];
    var outPath := outDir + "/" + file[LastIndex(file, '/') + 1..];
    return Written(file, outPath, fileContent);
  }

  /** The entries of the file list that name a file. */
  function NonEmpty(files: seq<string>): (named: seq<string>)
    ensures |named| <= |files|
    ensures forall k :: 0 <= k < |named| ==> named[k] != ""
    decreases |files|
  {
    if |files| == 0 then []
    else (if files[0] == "" then [] else [files[0]]) + NonEmpty(files[1..])
  }

  /** An entry is kept exactly when it is a non-empty entry of the list. */
  lemma {:induction false} NonEmptyMembers(files: seq<string>, f: string)
    ensures f in NonEmpty(files) <==> f in files && f != ""
    decreases |files|
  {
    if |files| > 0 {
      NonEmptyMembers(files[1..], f);
      assert files == [files[0]] + files[1..];
    }
  }

  /** Dropping the empty entries of a concatenation concatenates the kept
      entries of the parts, so the kept entries keep their order. */
  lemma {:induction false} NonEmptyAppend(a: seq<string>, b: seq<string>)
    ensures NonEmpty(a + b) == NonEmpty(a) + NonEmpty(b)
    decreases |a|
  {
    if |a| == 0 {
      assert a + b == b;
    } else {
      assert (a + b)[1..] == a[1..] + b;
      NonEmptyAppend(a[1..], b);
    }
  }

  /** What happens to the files of the list, in order; a panic ends the
      program, so no file after it is handled. */
  function FilesResult(disk: Disk, ops: seq<OpEntry>, outDir: string, files: seq<string>): seq<FileOutcome>
    decreases |files|
  {
    if |files| == 0 then []
    else if files[0] == "" then FilesResult(disk, ops, outDir, files[1..])
    else
      var outcome := FileResult(disk, ops, outDir, files[0]);
      if outcome.Crashed? then [outcome]
      else [outcome] + FilesResult(disk, ops, outDir, files[1..])
  }

  /** The files are handled in the order of the list, empty entries
      skipped: the k-th outcome is about the k-th non-empty entry. */
  lemma {:induction false} FilesInOrder(disk: Disk, ops: seq<OpEntry>, outDir: string, files: seq<string>)
    ensures var outcomes := FilesResult(disk, ops, outDir, files);
      |outcomes| <= |NonEmpty(files)| &&
      forall k :: 0 <= k < |outcomes| ==> outcomes[k].file == NonEmpty(files)[k]
    decreases |files|
  {
    if |files| > 0 {
      FilesInOrder(disk, ops, outDir, files[1..]);
      if files[0] != "" {
        var outcome := FileResult(disk, ops, outDir, files[0]);
        assert outcome.file == files[0];
        var named := NonEmpty(files);
        assert named == [files[0]] + NonEmpty(files[1..]);
        if !outcome.Crashed? {
          var outcomes := [outcome] + FilesResult(disk, ops, outDir, files[1..]);
          forall k | 1 <= k < |outcomes|
            ensures outcomes[k].file == named[k]
          {
            assert outcomes[k] == FilesResult(disk, ops, outDir, files[1..])[k - 1];
          }
        }
      }
    }
  }

  /** Only a crash stops the run early: no outcome but the last is a
      crash, and when fewer outcomes than named files come back, the last
      one is a crash. */
  lemma {:induction false} FilesStopAtCrash(disk: Disk, ops: seq<OpEntry>, outDir: string, files: seq<string>)
    ensures var outcomes := FilesResult(disk, ops, outDir, files);
      (forall k :: 0 <= k < |outcomes| - 1 ==> !outcomes[k].Crashed?) &&
      (|outcomes| < |NonEmpty(files)| ==> |outcomes| > 0 && outcomes[|outcomes| - 1].Crashed?)
    decreases |files|
  {
    if |files| > 0 {
      FilesStopAtCrash(disk, ops, outDir, files[1..]);
      if files[0] != "" {
        var outcome := FileResult(disk, ops, outDir, files[0]);
        var rest := FilesResult(disk, ops, outDir, files[1..]);
        if !outcome.Crashed? {
          var outcomes := [outcome] + rest;
          assert NonEmpty(files) == [files[0]] + NonEmpty(files[1..]);
          forall k | 1 <= k < |outcomes| - 1
            ensures !outcomes[k].Crashed?
          {
            assert outcomes[k] == rest[k - 1];
          }
          if |rest| > 0 {
            assert outcomes[|outcomes| - 1] == rest[|rest| - 1];
          }
        }
      }
    }
  }

  /** Empty entries change nothing: the list with them dropped gives the
      same outcomes. */
  lemma {:induction false} EmptyEntriesSkipped(disk: Disk, ops: seq<OpEntry>, outDir: string, files: seq<string>)
    ensures FilesResult(disk, ops, outDir, NonEmpty(files)) == FilesResult(disk, ops, outDir, files)
    decreases |files|
  {
    if |files| > 0 {
      EmptyEntriesSkipped(disk, ops, outDir, files[1..]);
      var named := NonEmpty(files);
      if files[0] != "" {
        assert named[0] == files[0] && named[1..] == NonEmpty(files[1..]);
      } else {
        assert named == NonEmpty(files[1..]);
      }
    }
  }

  /** processFiles from the file list on: the list file is read and split
      into lines (an unreadable list ends the run with nothing done), then
      each non-empty entry is handled in turn until one panics. */
  method ProcessFiles(disk: Disk, ops: seq<OpEntry>, fileList: string, outDir: string) returns (outcomes: seq<FileOutcome>)
    ensures fileList !in disk ==> outcomes == []
    ensures fileList in disk ==> outcomes == FilesResult(disk, ops, outDir, Split(disk[fileList], '\n'))
  {
    if fileList !in disk {
      return [];
    }
    var files := Split(disk[fileList], '\n');
    outcomes := [];
    for k := 0 to |files|
      invariant outcomes + FilesResult(disk, ops, outDir, files[k..]) == FilesResult(disk, ops, outDir, files)
    {
      var file := files[k];
      assert files[k..][0] == file && files[k..][1..] == files[k + 1..];
      if file == "" {
        continue;
      }
      var outcome := ProcessFile(disk, ops, outDir, file);
      if outcome.Crashed? {
        return outcomes + [outcome];
      }
      ghost var before := outcomes;
      ghost var rest := FilesResult(disk, ops, outDir, files[k + 1..]);
      assert FilesResult(disk, ops, outDir, files[k..]) == [outcome] + rest;
      outcomes := outcomes + [outcome];
      assert outcomes + rest == before + ([outcome] + rest);
    }
    assert files[|files|..] == [];
    assert outcomes + [] == outcomes;
  }
}
