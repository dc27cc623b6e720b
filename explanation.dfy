/** The markdown-lite rendering of a flag explanation: each line becomes a
    heading, a list item or a paragraph. The quiz view drops blank lines
    first; the detail overlay keeps every line. */
module Explanation {
  import opened Types
  import opened Text
  import opened Seqs

  /** One rendered line: `<h3>`, `<li>` or `<p>` with its text. */
  datatype Block = Heading(text: string) | Item(text: string) | Para(text: string)

  /** `line.startsWith('### ') || line.startsWith('## ') || line.startsWith('# ')`:
      the run of `#` at the start of the line has one to three characters
      and a space follows it. */
  function HasHeadingMarker(line: string): (r: bool)
    ensures r <==> 1 <= HashRunEnd(line, 0) <= 3 && HashRunEnd(line, 0) < |line|
                   && line[HashRunEnd(line, 0)] == ' '
  {
    var e := HashRunEnd(line, 0);
    assert e >= 1 ==> HashRunEnd(line, 1) == e;
    assert e >= 2 ==> HashRunEnd(line, 2) == e;
    assert e >= 3 ==> HashRunEnd(line, 3) == e;
    "### " <= line || "## " <= line || "# " <= line
  }

  /** End of the run of `#` that starts at index `i`. */
  function HashRunEnd(s: string, i: nat): (e: nat)
    requires i <= |s|
    ensures i <= e <= |s|
    ensures forall k :: i <= k < e ==> s[k] == '#'
    ensures e == |s| || s[e] != '#'
    decreases |s| - i
  {
    if i < |s| && s[i] == '#' then HashRunEnd(s, i + 1) else i
  }

  /** `s[a..b]` is a match of the regular expression `#+\s`: one or more
      `#` followed by one white-space character. */
  predicate HashSpaceAt(s: string, a: nat, b: nat) {
    a + 1 < b <= |s| && (forall k :: a <= k < b - 1 ==> s[k] == '#') && IsWhitespace(s[b - 1])
  }

  /** No match starts inside a run of `#` that is not followed by white space. */
  lemma NoMatchInRun(s: string, i: nat, e: nat)
    requires i < e <= |s| && (forall k :: i <= k < e ==> s[k] == '#')
    requires e == |s| || (s[e] != '#' && !IsWhitespace(s[e]))
    ensures forall a: nat, b: nat :: i <= a < e ==> !HashSpaceAt(s, a, b)
  {
  }

  /** The leftmost match `[start, end)` of `#+\s` in `s` at or after index
      `i`. A match starting inside a run of `#` would have to end where a
      match from the run's first `#` ends, so after a run that is not
      followed by white space the search resumes at the run's end. */
  function FirstHashSpace(s: string, i: nat): (m: Option<(nat, nat)>)
    requires i <= |s|
    ensures m.Some? ==> i <= m.value.0 && HashSpaceAt(s, m.value.0, m.value.1)
    ensures m.Some? ==> forall b: nat :: HashSpaceAt(s, m.value.0, b) ==> b == m.value.1
    ensures m.Some? ==> forall a: nat, b: nat :: i <= a < m.value.0 ==> !HashSpaceAt(s, a, b)
    ensures m.None? ==> forall a: nat, b: nat :: i <= a ==> !HashSpaceAt(s, a, b)
    decreases |s| - i
  {
    if i == |s| then None
    else if s[i] != '#' then
      assert forall b: nat :: !HashSpaceAt(s, i, b);
      FirstHashSpace(s, i + 1)
    else
      var e := HashRunEnd(s, i);
      if e < |s| && IsWhitespace(s[e]) then
        Some((i, e + 1))
      else
        NoMatchInRun(s, i, e);
        FirstHashSpace(s, e)
  }

  /** `line.replace(/#+\s/, '')`: a line with no match is kept, and
      otherwise a match is cut out, so the line gets shorter. */
  function StripHashSpace(line: string): (r: string)
    ensures (forall a: nat, b: nat :: !HashSpaceAt(line, a, b)) <==> r == line
    ensures |r| <= |line|
  {
    match FirstHashSpace(line, 0)
    case None => line
    case Some((a, b)) => line[..a] + line[b..]
  }

  /** The match cut out is the leftmost one. */
  lemma StripCutsLeftmostMatch(line: string, a: nat, b: nat)
    requires HashSpaceAt(line, a, b)
    requires forall a': nat, b': nat :: a' < a ==> !HashSpaceAt(line, a', b')
    ensures StripHashSpace(line) == line[..a] + line[b..]
  {
    var m := FirstHashSpace(line, 0);
    assert m.Some?;
    assert m.value.0 == a;
  }

  /** On a heading line the match is the leading `#` run and its space. */
  lemma StripHeadingMarker(line: string, marker: string)
    requires marker == "# " || marker == "## " || marker == "### "
    requires marker <= line
    ensures StripHashSpace(line) == line[|marker|..]
    ensures line == marker + StripHashSpace(line)
  {
    var k := |marker| - 1;
    assert line[k] == ' ';
    assert HashRunEnd(line, k) == k;
    if k >= 2 { assert HashRunEnd(line, k - 1) == k; }
    if k == 3 { assert HashRunEnd(line, 1) == k; }
    assert HashRunEnd(line, 0) == k;
    assert FirstHashSpace(line, 0) == Some((0, k + 1));
    assert line[..k + 1] == marker;
    assert line == line[..k + 1] + line[k + 1..];
  }

  /** Putting the marker back in front of a heading's text gives the line. */
  lemma HeadingRestores(line: string)
    requires HasHeadingMarker(line)
    ensures line == "# " + StripHashSpace(line) || line == "## " + StripHashSpace(line)
         || line == "### " + StripHashSpace(line)
  {
    if "### " <= line {
      StripHeadingMarker(line, "### ");
    } else if "## " <= line {
      StripHeadingMarker(line, "## ");
    } else {
      StripHeadingMarker(line, "# ");
    }
  }

  /** How one line is rendered. A heading's text is the line without its
      `#` run and one space; an item's text is the line from index 2; any
      other line is a paragraph with the line unchanged. */
  function ClassifyLine(line: string): (b: Block)
    ensures b.Heading? <==> HasHeadingMarker(line)
    ensures b.Heading? ==> line == "# " + b.text || line == "## " + b.text || line == "### " + b.text
    ensures b.Item? <==> !HasHeadingMarker(line) && "* " <= line
    ensures b.Item? ==> line == "* " + b.text
    ensures b.Para? ==> b.text == line
  {
    if HasHeadingMarker(line) then
      HeadingRestores(line);
      Heading(StripHashSpace(line))
    else if "* " <= line then
      assert line == "* " + line[2..];
      Item(line[2..])
    else
      Para(line)
  }

  /** The block a blank line becomes: a paragraph of white space. */
  predicate IsBlankPara(b: Block) {
    b.Para? && IsBlank(b.text)
  }

  /** A line is blank exactly when it renders as a blank paragraph. */
  lemma BlankLineIsBlankPara(line: string)
    ensures IsBlankPara(ClassifyLine(line)) <==> IsBlank(line)
  {
    if IsBlank(line) && |line| >= 1 {
      assert IsWhitespace(line[0]);
    }
  }

  /** The inline formatter of the detail overlay: every line of the text,
      empty ones included, becomes one block. */
  function FormattedExplanation(explanation: string): (r: seq<Block>)
    ensures |r| == Count(explanation, '\n') + 1
    ensures forall i :: 0 <= i < |r| ==> r[i] == ClassifyLine(Split(explanation, '\n')[i])
  {
    Map(ClassifyLine, Split(explanation, '\n'))
  }

  /** The quiz view's formatter: lines that are blank after trimming are
      dropped, the rest become one block each, in order. */
  function FormatExplanation(explanation: string): (r: seq<Block>)
    ensures |r| <= Count(explanation, '\n') + 1
    ensures forall i :: 0 <= i < |r| ==> !IsBlankPara(r[i])
  {
    var kept := Filter(line => Trim(line) != [], Split(explanation, '\n'));
    forall i | 0 <= i < |kept| ensures !IsBlankPara(ClassifyLine(kept[i])) {
      assert kept[i] in kept;
      TrimEmptyIffBlank(kept[i]);
      BlankLineIsBlankPara(kept[i]);
    }
    Map(ClassifyLine, kept)
  }

  /** The two formatters agree except that the quiz view drops exactly the
      blank paragraphs the overlay shows. */
  lemma QuizFormatDropsBlankParagraphs(explanation: string)
    ensures FormatExplanation(explanation) == Filter(b => !IsBlankPara(b), FormattedExplanation(explanation))
  {
    forall line: string ensures !IsBlankPara(ClassifyLine(line)) == (Trim(line) != []) {
      BlankLineIsBlankPara(line);
      TrimEmptyIffBlank(line);
    }
    FilterMapCommute(ClassifyLine, line => Trim(line) != [], b => !IsBlankPara(b), Split(explanation, '\n'));
  }

  /** Text without blank lines renders the same in both views. */
  lemma NoBlankLinesSameRendering(explanation: string)
    requires forall line :: line in Split(explanation, '\n') ==> !IsBlank(line)
    ensures FormatExplanation(explanation) == FormattedExplanation(explanation)
  {
    var lines := Split(explanation, '\n');
    forall line | line in lines ensures Trim(line) != [] {
      TrimEmptyIffBlank(line);
    }
    FilterKeepsAll(line => Trim(line) != [], lines);
  }

  /** Deeper headings are not recognised: a `####` line is a paragraph. */
  lemma FourHashesIsParagraph(rest: string)
    ensures ClassifyLine("####" + rest) == Para("####" + rest)
  {
  }
}
