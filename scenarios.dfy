/** Small texts worked through the model: where the locator finds a region
    when a marker also stands inside a comment, and what deletelineAction
    writes for a short file. */
module Scenarios {
  import opened Strings
  import opened Locator
  import opened Actions

  /** A begin-marker inside a block comment is skipped: in `a/*b*/b c` the
      region runs from the `b` after the comment to just past the `c`. */
  lemma CommentedMarkerSkipped()
    ensures Locate("a/*b*/b c", "b", "c") == (6, 9)
  {
    var t := "a/*b*/b c";
    assert t[0] == 'a' && t[1] == '/' && t[2] == '*' && t[3] == 'b';
    assert t[4] == '*' && t[5] == '/' && t[6] == 'b' && t[7] == ' ' && t[8] == 'c';
    assert MatchAt(t, 6, "b") by { assert t[6..][..1] == "b"; }
    assert !MatchAt(t, 0, "b") by { assert t[0..][0] == 'a'; }
    assert ScanFor(t, "b", 6, false, false) == 6;
    assert ScanFor(t, "b", 4, true, false) == 6;
    assert ScanFor(t, "b", 3, true, false) == 6;
    assert ScanFor(t, "b", 1, false, false) == 6;
    assert ScanFor(t, "b", 0, false, false) == 6;
    assert MatchAt(t, 8, "c") by { assert t[8..][..1] == "c"; }
    assert !MatchAt(t, 7, "c") by { assert t[7..][0] == ' '; }
    assert ScanFor(t, "c", 8, false, false) == 8;
    assert ScanFor(t, "c", 7, false, false) == 8;
  }

  /** A string shorter than `sub` does not contain it. */
  lemma ShorterNotContained(s: string, sub: string)
    requires |s| < |sub|
    ensures !Contains(s, sub)
  {
    ContainsIff(s, sub);
  }

  /** Three separator-free pieces joined by separators split back apart. */
  lemma SplitThree(a: string, b: string, c: string, sep: char)
    requires sep !in a && sep !in b && sep !in c
    ensures Split(a + [sep] + b + [sep] + c, sep) == [a, b, c]
  {
    assert a + [sep] + b + [sep] + c == a + [sep] + (b + [sep] + c);
    SplitAtFirst(a, sep, b + [sep] + c);
    SplitAtFirst(b, sep, c);
    SplitWithoutSeparator(c, sep);
  }

  /** The file of the deleteline scenario has three lines, the middle one
      blank. */
  lemma CelldefineLines()
    ensures Split("`celldefine\n\nmodule m;", '\n') == ["`celldefine", "", "module m;"]
  {
    var first, last := "`celldefine", "module m;";
    assert "`celldefine\n\nmodule m;" == first + ['\n'] + "" + ['\n'] + last;
    SplitThree(first, "", last, '\n');
  }

  /** deletelineAction on three lines writes each, rewritten, with a
      newline after it. */
  lemma DeletedThreeLines(a: string, b: string, c: string, kw: string)
    ensures DeletedLines([a, b, c], kw)
      == AfterDelete(a, kw) + "\n" + AfterDelete(b, kw) + "\n" + AfterDelete(c, kw) + "\n"
  {
    assert [a][..0] == [];
    assert DeletedLines([a], kw) == AfterDelete(a, kw) + "\n";
    assert [a, b][..1] == [a];
    assert [a, b, c][..2] == [a, b];
  }

  /** deletelineAction on a file whose first line holds the keyword: that
      line is rewritten, the blank line and the last line are written as
      they were, and a newline is added after the last line. */
  lemma DeletelineScenario()
    ensures DeletedLines(Split("`celldefine\n\nmodule m;", '\n'), "celldefine")
      == DeletedMark("celldefine") + "\n" + "\n" + "module m;" + "\n"
  {
    var kw, first, last := "celldefine", "`celldefine", "module m;";
    CelldefineLines();
    assert Contains(first, kw) by {
      assert first[1..][..10] == kw;
      assert HasPrefix(first[1..], kw);
    }
    ShorterNotContained("", kw);
    ShorterNotContained(last, kw);
    DeletedThreeLines(first, "", last, kw);
    var mark := DeletedMark(kw);
    assert AfterDelete(first, kw) == mark;
    assert AfterDelete("", kw) == "";
    assert AfterDelete(last, kw) == last;
    assert mark + "\n" + "" == mark + "\n";
  }
}
