/** What the locator's comment lexer does with the two kinds of Verilog
    comment, stated from a scan that stands outside any comment. A block
    comment opens with a slash and a star and closes with a star and a
    slash; a line comment opens with two slashes and closes with a newline. */
module Comments {
  import opened Locator

  /** The first offset `k >= j` at which the pair `c0 c1` starts, or `|text|`
      when there is none. */
  function NextPair(text: string, j: nat, c0: char, c1: char): (k: nat)
    requires j <= |text|
    ensures j <= k <= |text|
    ensures k < |text| ==> At2(text, k, c0, c1)
    ensures forall q :: j <= q < k ==> !At2(text, q, c0, c1)
    decreases |text| - j
  {
    if j == |text| then |text|
    else if At2(text, j, c0, c1) then j
    else NextPair(text, j + 1, c0, c1)
  }

  /** The first offset `k >= j` holding `c`, or `|text|` when there is none. */
  function NextChar(text: string, j: nat, c: char): (k: nat)
    requires j <= |text|
    ensures j <= k <= |text|
    ensures k < |text| ==> text[k] == c
    ensures forall q :: j <= q < k ==> text[q] != c
    decreases |text| - j
  {
    if j == |text| then |text|
    else if text[j] == c then j
    else NextChar(text, j + 1, c)
  }

  /** Inside a block comment nothing is tested until the first star-slash
      pair, which closes it; an unclosed block comment runs to the end of the
      text. */
  lemma {:induction false} InsideBlock(text: string, j: nat)
    requires j <= |text|
    ensures var k := NextPair(text, j, '*', '/');
      PlainFrom(text, j, true, false) == if k < |text| then PlainPositions(text, k + 2) else []
    decreases |text| - j
  {
    if j < |text| && !At2(text, j, '*', '/') {
      assert Lex(text, j, true, false) == Move(j + 1, true, false, false);
      InsideBlock(text, j + 1);
    }
  }

  /** Inside a line comment nothing is tested up to and including the next
      newline, after which the scan is outside any comment again; an
      unclosed line comment runs to the end of the text. */
  lemma {:induction false} InsideLine(text: string, j: nat)
    requires j <= |text|
    ensures var k := NextChar(text, j, '\n');
      PlainFrom(text, j, false, true) == if k < |text| then PlainPositions(text, k + 1) else []
    decreases |text| - j
  {
    if j < |text| && text[j] != '\n' {
      assert Lex(text, j, false, true) == Move(j + 1, false, true, false);
      InsideLine(text, j + 1);
    }
  }

  /** Outside any comment, a slash-star pair opens a block comment that the
      first star-slash pair after it closes: block comments do not nest, and
      the star of the opening pair cannot double as the star of the closing
      one. */
  lemma BlockComment(text: string, i: nat)
    requires At2(text, i, '/', '*')
    ensures var k := NextPair(text, i + 2, '*', '/');
      PlainPositions(text, i) == if k < |text| then PlainPositions(text, k + 2) else []
  {
    assert Lex(text, i, false, false) == Move(i + 2, true, false, false);
    InsideBlock(text, i + 2);
  }

  /** Outside any comment, two slashes open a line comment that the next
      newline closes. */
  lemma LineComment(text: string, i: nat)
    requires At2(text, i, '/', '/')
    ensures var k := NextChar(text, i + 2, '\n');
      PlainPositions(text, i) == if k < |text| then PlainPositions(text, k + 1) else []
  {
    assert Lex(text, i, false, false) == Move(i + 2, false, true, false);
    InsideLine(text, i + 2);
  }

  /** Outside any comment, any offset that does not open a comment is tested,
      a stray star-slash pair and a newline included, and the scan stays
      outside. */
  lemma PlainChar(text: string, i: nat)
    requires i < |text|
    requires !At2(text, i, '/', '*') && !At2(text, i, '/', '/')
    ensures PlainPositions(text, i) == [i] + PlainPositions(text, i + 1)
  {
    assert Lex(text, i, false, false) == Move(i + 1, false, false, true);
  }

  /** No offset of a block comment, from its opening slash to its closing
      slash, is ever tested for a marker. */
  lemma BlockCommentUntested(text: string, i: nat)
    requires At2(text, i, '/', '*')
    ensures var k := NextPair(text, i + 2, '*', '/');
      forall p :: i <= p < k + 2 ==> p !in PlainPositions(text, i)
  {
    var k := NextPair(text, i + 2, '*', '/');
    BlockComment(text, i);
    if k < |text| {
      PlainFromOrdered(text, k + 2, false, false);
    }
  }

  /** No offset of a line comment, from its first slash to the newline that
      closes it, is ever tested for a marker. */
  lemma LineCommentUntested(text: string, i: nat)
    requires At2(text, i, '/', '/')
    ensures var k := NextChar(text, i + 2, '\n');
      forall p :: i <= p <= k ==> p !in PlainPositions(text, i)
  {
    var k := NextChar(text, i + 2, '\n');
    LineComment(text, i);
    if k < |text| {
      PlainFromOrdered(text, k + 1, false, false);
    }
  }
}
