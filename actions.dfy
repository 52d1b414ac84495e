/** The four text transformers of vmod. `removeAction`, `dummyAction` and
    `replaceAction` rewrite the first region that findBeginEnd locates and
    leave the text alone when there is none; `deletelineAction` rewrites
    every line that holds a keyword. */
module Actions {
  import opened Strings
  import opened Locator

  datatype Option<T> = None | Some(value: T)

  /** What removeAction, dummyAction and replaceAction return: the new
      content and Go's `error` value, None standing for nil. */
  datatype Rewrite = Rewrite(content: string, err: Option<string>)

  /** The end of a Go call that may panic: it returns a value, or it panics
      because the file at `unreadable` could not be read. */
  datatype Outcome<T> = Returned(value: T) | Panicked(unreadable: string)

  /** The files ioutil.ReadFile can read, by path, with their contents; a
      path that is not a key cannot be read. */
  type Disk = map<string, string>

  /** A region of the text, from the first character of its begin-marker
      (b) to just past the last character of its end-marker (e). */
  datatype Region = Region(b: nat, e: nat)

  /** The region findBeginEnd reports, when both of its offsets are found:
      it starts with the begin-marker and ends with the end-marker, and the
      two do not overlap. */
  function FindRegion(text: string, begin: string, end: string): (g: Option<Region>)
    ensures g.Some? ==>
      g.value.b + |begin| <= g.value.e - |end| && g.value.e <= |text| &&
      text[g.value.b..g.value.b + |begin|] == begin &&
      text[g.value.e - |end|..g.value.e] == end
  {
    var b, e := Locate(text, begin, end).0, Locate(text, begin, end).1;
    if b != -1 && e != -1 then
      LocateEnd(text, begin, end);
      LocateBegin(text, begin, end);
      Some(Region(b, e))
    else None
  }

  /** There is no region exactly when no begin-marker stands outside
      comments, or when no end-marker stands outside comments after the
      first one. */
  lemma RegionMissing(text: string, begin: string, end: string)
    ensures FindRegion(text, begin, end).None? <==>
      (forall p :: p in PlainPositions(text, 0) ==> !MatchAt(text, p, begin)) ||
      (Locate(text, begin, end).0 >= 0 &&
       forall p :: p in PlainPositions(text, Locate(text, begin, end).0 + |begin|) ==> !MatchAt(text, p, end))
  {
    LocateNoBegin(text, begin, end);
    if Locate(text, begin, end).0 != -1 {
      LocateBegin(text, begin, end);
      LocateUnterminated(text, begin, end);
    }
  }

  /** A region found starts at the first begin-marker outside comments and
      ends with the first end-marker outside comments after it. */
  lemma RegionFound(text: string, begin: string, end: string)
    requires FindRegion(text, begin, end).Some?
    ensures var g := FindRegion(text, begin, end).value;
      g.b in PlainPositions(text, 0) &&
      (forall p :: p in PlainPositions(text, 0) && p < g.b ==> !MatchAt(text, p, begin)) &&
      g.e - |end| in PlainPositions(text, g.b + |begin|) &&
      forall p :: p in PlainPositions(text, g.b + |begin|) && p < g.e - |end| ==> !MatchAt(text, p, end)
  {
    LocateBegin(text, begin, end);
    LocateEndFirst(text, begin, end);
  }

  /** The text with region `g` replaced by `insert`: the text before the
      region, then `insert`, then the text after the region. */
  function Splice(text: string, g: Region, insert: string): (out: string)
    requires g.b <= g.e <= |text|
    ensures |out| == |text| - (g.e - g.b) + |insert|
    ensures out[..g.b] == text[..g.b]
    ensures out[g.b..g.b + |insert|] == insert
    ensures out[g.b + |insert|..] == text[g.e..]
  {
    text[..g.b] + insert + text[g.e..]
  }

  /** Putting the region back in place of `insert` restores the text. */
  lemma SpliceRestores(text: string, g: Region, insert: string)
    requires g.b <= g.e <= |text|
    ensures var out := Splice(text, g, insert);
      out[..g.b] + text[g.b..g.e] + out[g.b + |insert|..] == text
  {
    var out := Splice(text, g, insert);
    assert text[..g.b] + text[g.b..g.e] + text[g.e..] == text;
  }

  /** A splice leaves the text unchanged exactly when the region already
      reads `insert`. */
  lemma SpliceUnchangedIff(text: string, g: Region, insert: string)
    requires g.b <= g.e <= |text|
    ensures Splice(text, g, insert) == text <==> text[g.b..g.e] == insert
  {
    var out := Splice(text, g, insert);
    if out == text {
      assert |insert| == g.e - g.b;
      assert text[g.b..g.e] == out[g.b..g.b + |insert|];
    }
    if text[g.b..g.e] == insert {
      assert text[..g.b] + text[g.b..g.e] + text[g.e..] == text;
    }
  }

  /** removeAction: the first region gives way to a `// remove` comment
      line; without a region the text comes back unchanged. The error is
      always nil. */
  function RemoveAction(fileContent: string, begin: string, end: string): (r: Rewrite)
    ensures r.err == None
    ensures match FindRegion(fileContent, begin, end)
      case None => r.content == fileContent
      case Some(g) => r.content == Splice(fileContent, g, "// remove " + begin + "\n")
  {
    var beginIndex, endIndex := Locate(fileContent, begin, end).0, Locate(fileContent, begin, end).1;
    if beginIndex != -1 && endIndex != -1 then
      LocateEnd(fileContent, begin, end);
      var insert := "// remove " + begin + "\n";
      Rewrite(fileContent[..beginIndex] + insert + fileContent[endIndex..], None)
    else Rewrite(fileContent, None)
  }

  /** replaceAction: the source file is read first, and a failed read
      panics whether or not the text holds a region; otherwise the first
      region gives way to a `// replace` comment line followed by the
      source file's contents, and without a region the text comes back
      unchanged. The error is always nil. */
  function ReplaceAction(disk: Disk, fileContent: string, src: string, begin: string, end: string): (r: Outcome<Rewrite>)
    ensures r.Panicked? <==> src !in disk
    ensures r.Panicked? ==> r.unreadable == src
    ensures r.Returned? ==> r.value.err == None
    ensures r.Returned? ==>
      (match FindRegion(fileContent, begin, end)
       case None => r.value.content == fileContent
       case Some(g) => r.value.content == Splice(fileContent, g, "// replace " + begin + "\n" + disk[src]))
  {
    if src !in disk then Panicked(src)
    else
      var srcData := disk[src];
      var beginIndex, endIndex := Locate(fileContent, begin, end).0, Locate(fileContent, begin, end).1;
      if beginIndex != -1 && endIndex != -1 then
        LocateEnd(fileContent, begin, end);
        var insert := "// replace " + begin + "\n" + srcData;
        Returned(Rewrite(fileContent[..beginIndex] + insert + fileContent[endIndex..], None))
      else Returned(Rewrite(fileContent, None))
  }

  /** The lines dummyAction keeps: those naming a module boundary or a port. */
  predicate IsStructural(line: string) {
    Contains(line, "module") || Contains(line, "endmodule") || Contains(line, "input") ||
    Contains(line, "output") || Contains(line, "inout")
  }

  /** Testing for "endmodule" adds nothing: a line holding it holds "module". */
  lemma EndmoduleImpliesModule(line: string)
    requires Contains(line, "endmodule")
    ensures Contains(line, "module")
  {
    ContainsSuffixOf(line, "endmodule", "module");
  }

  /** The structural lines of `lines`, in their order. */
  function Structural(lines: seq<string>): (kept: seq<string>)
    ensures |kept| <= |lines|
    ensures forall k :: 0 <= k < |kept| ==> IsStructural(kept[k])
    decreases |lines|
  {
    if |lines| == 0 then []
    else Structural(lines[..|lines| - 1]) + (if IsStructural(lines[|lines| - 1]) then [lines[|lines| - 1]] else [])
  }

  /** Filtering a concatenation filters each part and keeps them in order:
      the kept lines keep their relative order. */
  lemma {:induction false} StructuralAppend(a: seq<string>, b: seq<string>)
    ensures Structural(a + b) == Structural(a) + Structural(b)
    decreases |b|
  {
    if |b| == 0 {
      assert a + b == a;
    } else {
      var b' := b[..|b| - 1];
      assert (a + b)[..|a + b| - 1] == a + b';
      assert (a + b)[|a + b| - 1] == b[|b| - 1];
      StructuralAppend(a, b');
    }
  }

  /** A line is kept exactly when it is structural. */
  lemma {:induction false} StructuralMembers(lines: seq<string>, line: string)
    ensures line in Structural(lines) <==> line in lines && IsStructural(line)
    decreases |lines|
  {
    if |lines| > 0 {
      var front := lines[..|lines| - 1];
      StructuralMembers(front, line);
      assert lines == front + [lines[|lines| - 1]];
    }
  }

  /** What dummyAction returns: the first region gives way to a `// dummy`
      comment line followed by the structural lines of the region, joined
      by newlines; without a region the text comes back unchanged. */
  function Dummied(fileContent: string, begin: string, end: string): Rewrite {
    match FindRegion(fileContent, begin, end)
    case None => Rewrite(fileContent, None)
    case Some(g) =>
      var kept := Structural(Split(fileContent[g.b..g.e], '\n'));
      Rewrite(Splice(fileContent, g, "// dummy " + begin + "\n" + Join(kept, '\n')), None)
  }

  /** dummyAction */
  method DummyAction(fileContent: string, begin: string, end: string) returns (r: Rewrite)
    ensures r == Dummied(fileContent, begin, end)
  {
    var beginIndex, endIndex := FindBeginEnd(fileContent, begin, end);
    if beginIndex != -1 && endIndex != -1 {
      LocateEnd(fileContent, begin, end);
      var moduleContent := fileContent[beginIndex..endIndex];
      var lines := Split(moduleContent, '\n');
      var newLines: seq<string> := [];
      for k := 0 to |lines|
        invariant newLines == Structural(lines[..k])
      {
        var line := lines[k];
        assert lines[..k + 1][..k] == lines[..k];
        if Contains(line, "module") || Contains(line, "endmodule") || Contains(line, "input") ||
           Contains(line, "output") || Contains(line, "inout") {
          newLines := newLines + [line];
        }
      }
      assert lines[..|lines|] == lines;
      var insert := "// dummy " + begin + "\n" + Join(newLines, '\n');
      assert FindRegion(fileContent, begin, end) == Some(Region(beginIndex, endIndex));
      r := Rewrite(fileContent[..beginIndex] + insert + fileContent[endIndex..], None);
    } else {
      r := Rewrite(fileContent, None);
    }
  }

  /** In a region dummyAction rewrites, the text around the region is kept,
      the comment line comes first, and splitting what follows it at
      newlines gives back exactly the region's structural lines (an empty
      body when there are none). */
  lemma DummyKeepsStructuralLines(fileContent: string, begin: string, end: string)
    requires FindRegion(fileContent, begin, end).Some?
    ensures var g := FindRegion(fileContent, begin, end).value;
      var out := Dummied(fileContent, begin, end).content;
      var mark := "// dummy " + begin + "\n";
      var kept := Structural(Split(fileContent[g.b..g.e], '\n'));
      var tail := |fileContent| - g.e;
      g.b + |mark| <= |out| - tail &&
      out[..g.b] == fileContent[..g.b] &&
      out[g.b..g.b + |mark|] == mark &&
      out[|out| - tail..] == fileContent[g.e..] &&
      (|kept| == 0 ==> out[g.b + |mark|..|out| - tail] == "") &&
      (|kept| >= 1 ==> Split(out[g.b + |mark|..|out| - tail], '\n') == kept)
  {
    var g := FindRegion(fileContent, begin, end).value;
    var mark := "// dummy " + begin + "\n";
    var lines := Split(fileContent[g.b..g.e], '\n');
    var kept := Structural(lines);
    var body := Join(kept, '\n');
    assert Dummied(fileContent, begin, end).content == Splice(fileContent, g, mark + body);
    SpliceTwoParts(fileContent, g, mark, body);
    if |kept| >= 1 {
      StructuralKeepsLines(lines, '\n');
      SplitJoin(kept, '\n');
    }
  }

  /** A splice whose insert has two parts puts each where it belongs. */
  lemma SpliceTwoParts(text: string, g: Region, first: string, second: string)
    requires g.b <= g.e <= |text|
    ensures var out := Splice(text, g, first + second);
      var tail := |text| - g.e;
      g.b + |first| <= |out| - tail &&
      out[g.b..g.b + |first|] == first &&
      out[g.b + |first|..|out| - tail] == second &&
      out[|out| - tail..] == text[g.e..]
  {
    var out := Splice(text, g, first + second);
    assert out == text[..g.b] + first + second + text[g.e..];
  }

  /** Kept lines are input lines, so they hold no character that no input
      line holds. */
  lemma StructuralKeepsLines(lines: seq<string>, c: char)
    requires forall k :: 0 <= k < |lines| ==> c !in lines[k]
    ensures forall k :: 0 <= k < |Structural(lines)| ==> c !in Structural(lines)[k]
  {
    var kept := Structural(lines);
    forall k | 0 <= k < |kept|
      ensures c !in kept[k]
    {
      StructuralMembers(lines, kept[k]);
      var m :| 0 <= m < |lines| && lines[m] == kept[k];
    }
  }

  /** The line deletelineAction writes in place of a line holding `kw`. */
  function DeletedMark(kw: string): string {
    "// remove the line " + kw
  }

  /** One line as deletelineAction rewrites it. */
  function AfterDelete(line: string, kw: string): string {
    if !Contains(line, kw) then line else DeletedMark(kw)
  }

  /** Every line of `lines` as deletelineAction rewrites it. */
  function AllAfterDelete(lines: seq<string>, kw: string): seq<string> {
    seq(|lines|, k requires 0 <= k < |lines| => AfterDelete(lines[k], kw))
  }

  /** What deletelineAction accumulates: each line, rewritten, followed by a
      newline. */
  function DeletedLines(lines: seq<string>, kw: string): string
    decreases |lines|
  {
    if |lines| == 0 then ""
    else DeletedLines(lines[..|lines| - 1], kw) + AfterDelete(lines[|lines| - 1], kw) + "\n"
  }

  /** deletelineAction */
  method DeletelineAction(fileContent: string, begin: string) returns (newLines: string)
    ensures newLines == DeletedLines(Split(fileContent, '\n'), begin)
  {
    var lines := Split(fileContent, '\n');
    newLines := "";
    for k := 0 to |lines|
      invariant newLines == DeletedLines(lines[..k], begin)
    {
      var line := lines[k];
      assert lines[..k + 1][..k] == lines[..k];
      if !Contains(line, begin) {
        newLines := newLines + (line + "\n");
      } else {
        newLines := newLines + DeletedMark(begin) + "\n";
      }
    }
    assert lines[..|lines|] == lines;
  }

  /** The accumulated text is the rewritten lines joined by newlines, with
      one more newline at the end. */
  lemma {:induction false} DeletedLinesJoin(lines: seq<string>, kw: string)
    ensures DeletedLines(lines, kw) == Join(AllAfterDelete(lines, kw) + [""], '\n')
    decreases |lines|
  {
    if |lines| > 0 {
      var front := lines[..|lines| - 1];
      var last := AfterDelete(lines[|lines| - 1], kw);
      DeletedLinesJoin(front, kw);
      JoinAppend(AllAfterDelete(front, kw), last, '\n');
      AllAfterDeleteSnoc(lines, kw);
    }
  }

  /** Rewriting all lines rewrites all but the last, then the last. */
  lemma AllAfterDeleteSnoc(lines: seq<string>, kw: string)
    requires |lines| > 0
    ensures AllAfterDelete(lines, kw) + [""] ==
      AllAfterDelete(lines[..|lines| - 1], kw) + [AfterDelete(lines[|lines| - 1], kw), ""]
  {
    assert AllAfterDelete(lines, kw) == AllAfterDelete(lines[..|lines| - 1], kw) + [AfterDelete(lines[|lines| - 1], kw)];
  }

  /** Joining with one more part before a trailing empty one. */
  lemma {:induction false} JoinAppend(parts: seq<string>, last: string, sep: char)
    ensures Join(parts + [last, ""], sep) == Join(parts + [""], sep) + last + [sep]
    decreases |parts|
  {
    if |parts| > 0 {
      assert (parts + [last, ""])[1..] == parts[1..] + [last, ""];
      assert (parts + [""])[1..] == parts[1..] + [""];
      JoinAppend(parts[1..], last, sep);
    }
  }

  /** The lines deletelineAction writes hold no newline: input lines hold
      none, and a keyword found in such a line holds none either. */
  lemma AfterDeleteOneLine(line: string, kw: string)
    requires '\n' !in line
    ensures '\n' !in AfterDelete(line, kw)
  {
    if Contains(line, kw) {
      ContainedCharsOccur(line, kw, '\n');
    }
  }

  /** deletelineAction keeps the line structure: splitting its output at
      newlines gives each input line, rewritten, then the empty piece after
      the final newline, so the output ends in a newline and has exactly as
      many lines as the input has pieces. A line holding the keyword becomes
      `// remove the line <kw>`; every other line is written as it was. */
  lemma DeletelineLines(fileContent: string, kw: string)
    ensures var lines := Split(fileContent, '\n');
      var out := DeletedLines(lines, kw);
      Split(out, '\n') == AllAfterDelete(lines, kw) + [""] &&
      |out| > 0 && out[|out| - 1] == '\n'
    ensures var lines := Split(fileContent, '\n');
      var outLines := Split(DeletedLines(lines, kw), '\n');
      |outLines| == |lines| + 1 && outLines[|lines|] == "" &&
      forall k :: 0 <= k < |lines| ==>
        (Contains(lines[k], kw) ==> outLines[k] == DeletedMark(kw)) &&
        (!Contains(lines[k], kw) ==> outLines[k] == lines[k])
  {
    var lines := Split(fileContent, '\n');
    var mapped := AllAfterDelete(lines, kw);
    DeletedLinesJoin(lines, kw);
    forall k | 0 <= k < |mapped + [""]|
      ensures '\n' !in (mapped + [""])[k]
    {
      if k < |mapped| {
        AfterDeleteOneLine(lines[k], kw);
      }
    }
    SplitJoin(mapped + [""], '\n');
    JoinTrailingEmpty(mapped, '\n');
  }

  /** When no line holds the keyword, deletelineAction only adds a newline
      at the end. */
  lemma DeletelineNoMatch(fileContent: string, kw: string)
    requires forall k :: 0 <= k < |Split(fileContent, '\n')| ==> !Contains(Split(fileContent, '\n')[k], kw)
    ensures DeletedLines(Split(fileContent, '\n'), kw) == fileContent + "\n"
  {
    var lines := Split(fileContent, '\n');
    DeletedLinesJoin(lines, kw);
    assert AllAfterDelete(lines, kw) == lines;
    JoinTrailingEmpty(lines, '\n');
  }

  /** With no complete region, remove, dummy and replace (once its source
      file is read) all leave the text unchanged. */
  lemma MissingRegionKeepsText(disk: Disk, fileContent: string, src: string, begin: string, end: string)
    requires FindRegion(fileContent, begin, end).None?
    ensures RemoveAction(fileContent, begin, end).content == fileContent
    ensures Dummied(fileContent, begin, end).content == fileContent
    ensures src in disk ==> ReplaceAction(disk, fileContent, src, begin, end) == Returned(Rewrite(fileContent, None))
  {
  }
}
