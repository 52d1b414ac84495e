/** The marker locator `findBeginEnd`: a left-to-right scan that keeps two
    comment flags and reports the first begin-marker outside comments, then
    the first end-marker outside comments after it. */
module Locator {
  import opened Strings

  /** `text[i]` is `c0` and `text[i + 1]` exists and is `c1`: the scanner's
      two-character lookahead for `/*`, `*/` and `//` */
  predicate At2(text: string, i: nat, c0: char, c1: char) {
    i + 1 < |text| && text[i] == c0 && text[i + 1] == c1
  }

  predicate Increasing(ps: seq<nat>) {
    forall a, b :: 0 <= a < b < |ps| ==> ps[a] < ps[b]
  }

  /** One step of the comment lexer: where the scan goes next, the comment
      flags it then holds, and whether the current offset is tested for a
      marker. */
  datatype Move = Move(next: nat, inBlock: bool, inLine: bool, tests: bool)

  /** The comment lexer's step at offset `i`, its branches tried in the
      scanner's order: `/*` opens a block comment only outside any comment;
      inside one only `*/` closes it (so block comments do not nest); `//`
      opens a line comment only outside any comment and the next newline
      closes it. A delimiter is consumed whole and is never tested, nor is the
      newline that closes a line comment; any other offset is tested exactly
      when it lies outside both kinds of comment. */
  function Lex(text: string, i: nat, inBlock: bool, inLine: bool): (m: Move)
    requires i < |text|
    ensures m.next == i + 1 || m.next == i + 2
    ensures m.next <= |text|
  {
    if !inBlock && !inLine && At2(text, i, '/', '*') then Move(i + 2, true, inLine, false)
    else if inBlock && At2(text, i, '*', '/') then Move(i + 2, false, inLine, false)
    else if !inBlock && !inLine && At2(text, i, '/', '/') then Move(i + 2, inBlock, true, false)
    else if inLine && text[i] == '\n' then Move(i + 1, inBlock, false, false)
    else Move(i + 1, inBlock, inLine, !inBlock && !inLine)
  }

  /** The offsets, from `i` on, that a scan standing at `i` with the given
      flags tests for a marker. */
  function PlainFrom(text: string, i: nat, inBlock: bool, inLine: bool): seq<nat>
    decreases |text| - i
  {
    if i >= |text| then []
    else
      var m := Lex(text, i, inBlock, inLine);
      (if m.tests then [i] else []) + PlainFrom(text, m.next, m.inBlock, m.inLine)
  }

  /** The lexer tests each offset at most once, in increasing order, and
      never beyond the text. */
  lemma {:induction false} PlainFromOrdered(text: string, i: nat, inBlock: bool, inLine: bool)
    ensures forall p :: p in PlainFrom(text, i, inBlock, inLine) ==> i <= p < |text|
    ensures Increasing(PlainFrom(text, i, inBlock, inLine))
    decreases |text| - i
  {
    if i < |text| {
      var m := Lex(text, i, inBlock, inLine);
      var rest := PlainFrom(text, m.next, m.inBlock, m.inLine);
      PlainFromOrdered(text, m.next, m.inBlock, m.inLine);
      assert forall k :: 0 <= k < |rest| ==> rest[k] in rest;
    }
  }

  /** The offsets tested by a scan that starts at `start` outside any comment.
      Both of the scanner's loops start that way: the outer one at 0, the inner
      one just past the begin-marker (whose own characters are not lexed). */
  function PlainPositions(text: string, start: nat): seq<nat> {
    PlainFrom(text, start, false, false)
  }

  /** `pat` occurs in `text` at offset `p` (strings.HasPrefix(text[p:], pat)) */
  predicate MatchAt(text: string, p: nat, pat: string) {
    p <= |text| && HasPrefix(text[p..], pat)
  }

  /** The first offset of `ps` at which `pat` occurs, or -1 when there is none */
  function FirstMatch(text: string, pat: string, ps: seq<nat>): (r: int)
    ensures r == -1 <==> forall p :: p in ps ==> !MatchAt(text, p, pat)
    ensures r != -1 ==> r >= 0 && r in ps && MatchAt(text, r, pat)
  {
    if |ps| == 0 then -1
    else if MatchAt(text, ps[0], pat) then ps[0]
    else FirstMatch(text, pat, ps[1..])
  }

  /** In an increasing list, no smaller offset than the first match matches. */
  lemma {:induction false} FirstMatchLeast(text: string, pat: string, ps: seq<nat>)
    requires Increasing(ps)
    ensures forall p :: p in ps && p < FirstMatch(text, pat, ps) ==> !MatchAt(text, p, pat)
    decreases |ps|
  {
    if |ps| > 0 && !MatchAt(text, ps[0], pat) {
      FirstMatchLeast(text, pat, ps[1..]);
    }
  }

  /** The scan itself: from offset `i` with the given flags, the first
      offset that the lexer tests and at which `pat` occurs, or -1. */
  function ScanFor(text: string, pat: string, i: nat, inBlock: bool, inLine: bool): (r: int)
    ensures r == -1 || i <= r < |text|
    decreases |text| - i
  {
    if i >= |text| then -1
    else
      var m := Lex(text, i, inBlock, inLine);
      if m.tests && MatchAt(text, i, pat) then i
      else ScanFor(text, pat, m.next, m.inBlock, m.inLine)
  }

  /** The scan finds the first tested offset where `pat` occurs. */
  lemma {:induction false} ScanForIsFirstMatch(text: string, pat: string, i: nat, inBlock: bool, inLine: bool)
    ensures ScanFor(text, pat, i, inBlock, inLine) == FirstMatch(text, pat, PlainFrom(text, i, inBlock, inLine))
    decreases |text| - i
  {
    if i < |text| {
      var m := Lex(text, i, inBlock, inLine);
      var rest := PlainFrom(text, m.next, m.inBlock, m.inLine);
      ScanForIsFirstMatch(text, pat, m.next, m.inBlock, m.inLine);
      if m.tests {
        assert ([i] + rest)[1..] == rest;
      } else {
        assert [] + rest == rest;
      }
    }
  }

  /** A scan from `start` (outside comments) finds nothing exactly when
      `pat` occurs at none of the offsets it tests. */
  lemma ScanNone(text: string, pat: string, start: nat)
    ensures ScanFor(text, pat, start, false, false) == -1
        <==> forall p :: p in PlainPositions(text, start) ==> !MatchAt(text, p, pat)
  {
    ScanForIsFirstMatch(text, pat, start, false, false);
  }

  /** What a scan from `start` (outside comments) finds: an occurrence of
      `pat` at a tested offset, with no occurrence at an earlier one. */
  lemma ScanFound(text: string, pat: string, start: nat)
    requires ScanFor(text, pat, start, false, false) != -1
    ensures var r := ScanFor(text, pat, start, false, false);
      start <= r && r + |pat| <= |text| && text[r..r + |pat|] == pat &&
      r in PlainPositions(text, start) &&
      forall p :: p in PlainPositions(text, start) && p < r ==> !MatchAt(text, p, pat)
  {
    var ps := PlainPositions(text, start);
    ScanForIsFirstMatch(text, pat, start, false, false);
    PlainFromOrdered(text, start, false, false);
    FirstMatchLeast(text, pat, ps);
    var r := FirstMatch(text, pat, ps);
    assert text[r..][..|pat|] == text[r..r + |pat|];
  }

  /** The pair `findBeginEnd` returns: the first begin-marker found by a scan
      of the whole text, then the first end-marker found by a fresh scan just
      past it; (b, -1) when that second scan finds none, (-1, -1) when the
      first finds none. The lemmas below say what this means in terms of the
      offsets the comment lexer tests. */
  function Locate(text: string, begin: string, end: string): (int, int) {
    var b := ScanFor(text, begin, 0, false, false);
    if b == -1 then (-1, -1)
    else
      var j := ScanFor(text, end, b + |begin|, false, false);
      if j == -1 then (b, -1) else (b, j + |end|)
  }

  /** No begin-marker outside comments, and only then, gives (-1, -1). */
  lemma LocateNoBegin(text: string, begin: string, end: string)
    ensures Locate(text, begin, end).0 == -1
        <==> forall p :: p in PlainPositions(text, 0) ==> !MatchAt(text, p, begin)
    ensures Locate(text, begin, end).0 == -1 ==> Locate(text, begin, end).1 == -1
  {
    ScanNone(text, begin, 0);
  }

  /** On success the begin-marker sits at b, at an offset the lexer tests,
      and no earlier tested offset holds it. */
  lemma LocateBegin(text: string, begin: string, end: string)
    requires Locate(text, begin, end).0 != -1
    ensures var b := Locate(text, begin, end).0;
      0 <= b && b + |begin| <= |text| && text[b..b + |begin|] == begin &&
      b in PlainPositions(text, 0) &&
      forall p :: p in PlainPositions(text, 0) && p < b ==> !MatchAt(text, p, begin)
  {
    ScanFound(text, begin, 0);
  }

  /** With a begin-marker found, the region is unterminated exactly when no
      end-marker stands at a tested offset of the scan that starts just past it. */
  lemma LocateUnterminated(text: string, begin: string, end: string)
    requires Locate(text, begin, end).0 != -1
    ensures var b := Locate(text, begin, end).0;
      (Locate(text, begin, end).1 == -1 <==>
       forall p :: p in PlainPositions(text, b + |begin|) ==> !MatchAt(text, p, end))
  {
    var b := ScanFor(text, begin, 0, false, false);
    ScanNone(text, end, b + |begin|);
  }

  /** On success the end-marker ends at e and starts no earlier than the
      begin-marker ends. */
  lemma LocateEnd(text: string, begin: string, end: string)
    requires Locate(text, begin, end).1 != -1
    ensures var b, e := Locate(text, begin, end).0, Locate(text, begin, end).1;
      b != -1 && b + |begin| <= e - |end| && e <= |text| &&
      text[e - |end|..e] == end
  {
    var b := ScanFor(text, begin, 0, false, false);
    var j := ScanFor(text, end, b + |begin|, false, false);
    ScanFound(text, end, b + |begin|);
    assert Locate(text, begin, end) == (b, j + |end|);
    assert text[j + |end| - |end|..j + |end|] == text[j..j + |end|];
  }

  /** On success the end-marker is the first one that the scan started just
      past the begin-marker tests. */
  lemma LocateEndFirst(text: string, begin: string, end: string)
    requires Locate(text, begin, end).1 != -1
    ensures var b, e := Locate(text, begin, end).0, Locate(text, begin, end).1;
      b != -1 &&
      e - |end| in PlainPositions(text, b + |begin|) &&
      forall p :: p in PlainPositions(text, b + |begin|) && p < e - |end| ==> !MatchAt(text, p, end)
  {
    var b := ScanFor(text, begin, 0, false, false);
    var j := ScanFor(text, end, b + |begin|, false, false);
    ScanFound(text, end, b + |begin|);
    assert Locate(text, begin, end) == (b, j + |end|);
  }

  /** findBeginEnd. Its outer loop scans from offset 0 with both comment
      flags false and, at the first tested offset holding `begin`, runs its
      inner loop, which is the same scan for `end` started just past the
      begin-marker with both flags false again, and returns whatever that
      finds; the outer loop never resumes. So the two loops are two calls of
      one scan. */
  method FindBeginEnd(text: string, begin: string, end: string) returns (beginIndex: int, endIndex: int)
    ensures (beginIndex, endIndex) == Locate(text, begin, end)
  {
    beginIndex := ScanMarker(text, begin, 0);
    if beginIndex == -1 {
      return -1, -1;
    }
    ScanFound(text, begin, 0);
    var endAt := ScanMarker(text, end, beginIndex + |begin|);
    endIndex := if endAt == -1 then -1 else endAt + |end|;
  }

  /** The scanning loop of findBeginEnd: from `start`, with both comment
      flags false, the first tested offset at which `pat` occurs, or -1. */
  method ScanMarker(text: string, pat: string, start: nat) returns (at: int)
    requires start <= |text|
    ensures at == ScanFor(text, pat, start, false, false)
  {
    var inBlockComment, inLineComment := false, false;
    var j := start;
    while j < |text|
      invariant start <= j <= |text|
      invariant ScanFor(text, pat, j, inBlockComment, inLineComment) == ScanFor(text, pat, start, false, false)
    {
      ghost var n := Lex(text, j, inBlockComment, inLineComment);
      if !inBlockComment && !inLineComment && text[j] == '/' && j + 1 < |text| && text[j + 1] == '*' {
        assert n == Move(j + 2, true, false, false);
        inBlockComment := true;
        j := j + 1;
      } else if inBlockComment && text[j] == '*' && j + 1 < |text| && text[j + 1] == '/' {
        assert n == Move(j + 2, false, inLineComment, false);
        inBlockComment := false;
        j := j + 1;
      } else if !inBlockComment && !inLineComment && text[j] == '/' && j + 1 < |text| && text[j + 1] == '/' {
        assert n == Move(j + 2, false, true, false);
        inLineComment := true;
        j := j + 1;
      } else if inLineComment && text[j] == '\n' {
        assert n == Move(j + 1, inBlockComment, false, false);
        inLineComment := false;
      } else if !inBlockComment && !inLineComment {
        assert n == Move(j + 1, false, false, true);
        if HasPrefix(text[j..], pat) {
          return j;
        }
      }
      j := j + 1;
    }
    return -1;
  }
}
