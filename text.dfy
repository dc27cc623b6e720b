/** The string operations the views rely on: `String.prototype.trim`,
    `toLowerCase`, `includes`, `startsWith` (Dafny's prefix `<=`) and
    `split` on one character. */
module Text {

  /** ECMAScript white space and line terminators: the characters `trim`
      removes and the regular-expression class `\s` matches. */
  predicate IsWhitespace(c: char) {
    c == '\t' || c == '\n' || c == '\U{000B}' || c == '\U{000C}' || c == '\r' || c == ' '
    || c == '\U{00A0}' || c == '\U{1680}' || ('\U{2000}' <= c <= '\U{200A}')
    || c == '\U{2028}' || c == '\U{2029}' || c == '\U{202F}' || c == '\U{205F}'
    || c == '\U{3000}' || c == '\U{FEFF}'
  }

  /** Every character of `s` is white space. */
  predicate IsBlank(s: string) {
    forall i :: 0 <= i < |s| ==> IsWhitespace(s[i])
  }

  /** `s` without its leading white space. */
  function TrimStart(s: string): (r: string)
    ensures |r| <= |s| && r == s[|s| - |r|..]
    ensures forall i :: 0 <= i < |s| - |r| ==> IsWhitespace(s[i])
    ensures r != [] ==> !IsWhitespace(r[0])
  {
    if s != [] && IsWhitespace(s[0]) then TrimStart(s[1..]) else s
  }

  /** `s` without its trailing white space. */
  function TrimEnd(s: string): (r: string)
    ensures |r| <= |s| && r == s[..|r|]
    ensures forall i :: |r| <= i < |s| ==> IsWhitespace(s[i])
    ensures r != [] ==> !IsWhitespace(r[|r| - 1])
  {
    if s != [] && IsWhitespace(s[|s| - 1]) then TrimEnd(s[..|s| - 1]) else s
  }

  /** `s.trim()`: the part of `s` between its leading and its trailing
      white space, which starts and ends with a character that is not. */
  function Trim(s: string): (r: string)
    ensures exists lead, trail :: s == lead + r + trail && IsBlank(lead) && IsBlank(trail)
    ensures r != [] ==> !IsWhitespace(r[0]) && !IsWhitespace(r[|r| - 1])
  {
    var t := TrimStart(s);
    var r := TrimEnd(t);
    var lead, trail := s[..|s| - |t|], t[|r|..];
    assert IsBlank(lead) && IsBlank(trail);
    Surround(lead, r, trail, s);
    r
  }

  /** `s` is `r` with `lead` before it and `trail` after it. */
  lemma Surround(lead: string, r: string, trail: string, s: string)
    requires |lead| + |r| <= |s| && s[|lead|..][..|r|] == r
    requires lead == s[..|lead|] && trail == s[|lead|..][|r|..]
    ensures s == lead + r + trail
  {
    var t := s[|lead|..];
    assert t == r + trail;
    assert s == lead + t;
  }

  /** `line.trim() !== ''` holds exactly of the lines that are not all white space. */
  lemma TrimEmptyIffBlank(s: string)
    ensures Trim(s) == [] <==> IsBlank(s)
  {
  }

  /** ASCII lowercasing of one character; every other character is kept. */
  function LowerChar(c: char): (r: char)
    ensures 'A' <= c <= 'Z' ==> r as int == c as int + 32
    ensures !('A' <= c <= 'Z') ==> r == c
    ensures !('A' <= r <= 'Z')
  {
    if 'A' <= c <= 'Z' then (c as int + 32) as char else c
  }

  /** `s.toLowerCase()`, restricted to ASCII letters. */
  function Lower(s: string): (r: string)
    ensures |r| == |s|
    ensures forall i :: 0 <= i < |s| ==> r[i] == LowerChar(s[i])
  {
    seq(|s|, i requires 0 <= i < |s| => LowerChar(s[i]))
  }

  /** `needle` occurs in `hay` starting at index `i`. */
  predicate OccursAt(hay: string, needle: string, i: nat) {
    i + |needle| <= |hay| && hay[i..i + |needle|] == needle
  }

  /** `hay.includes(needle)`: a left-to-right search for an occurrence. */
  function Contains(hay: string, needle: string): (r: bool)
    ensures r <==> exists i: nat :: OccursAt(hay, needle, i)
    decreases |hay|
  {
    if needle <= hay then
      assert OccursAt(hay, needle, 0);
      true
    else if hay == [] then
      false
    else
      OccursShift(hay, needle);
      Contains(hay[1..], needle)
  }

  /** Past a position where `needle` does not start, the occurrences of
      `needle` are those in the rest of `hay`. */
  lemma OccursShift(hay: string, needle: string)
    requires hay != [] && !(needle <= hay)
    ensures (exists i: nat :: OccursAt(hay, needle, i)) <==> (exists i: nat :: OccursAt(hay[1..], needle, i))
  {
    if exists i: nat :: OccursAt(hay[1..], needle, i) {
      var i: nat :| OccursAt(hay[1..], needle, i);
      assert hay[i + 1..i + 1 + |needle|] == hay[1..][i..i + |needle|];
      assert OccursAt(hay, needle, i + 1);
    }
    if exists i: nat :: OccursAt(hay, needle, i) {
      var i: nat :| OccursAt(hay, needle, i);
      assert hay[i..i + |needle|] == hay[1..][i - 1..i - 1 + |needle|];
      assert OccursAt(hay[1..], needle, i - 1);
    }
  }

  /** The empty string occurs in every string. */
  lemma ContainsEmpty(hay: string)
    ensures Contains(hay, [])
  {
  }

  /** Whatever contains a longer needle contains its prefix. */
  lemma ContainsPrefix(hay: string, needle: string, more: string)
    requires Contains(hay, needle + more)
    ensures Contains(hay, needle)
  {
    var i: nat :| OccursAt(hay, needle + more, i);
    assert hay[i..i + |needle|] == (needle + more)[..|needle|];
    assert OccursAt(hay, needle, i);
  }

  /** How many times `c` occurs in `s`. */
  function Count(s: string, c: char): nat {
    multiset(s)[c]
  }

  /** `parts` joined with `sep` between neighbours (`Array.prototype.join`). */
  function Join(parts: seq<string>, sep: char): string
    decreases |parts|
  {
    if |parts| == 0 then []
    else if |parts| == 1 then parts[0]
    else parts[0] + [sep] + Join(parts[1..], sep)
  }

  /** `s.split(sep)` for a one-character separator: the pieces between
      separators, one more than there are separators, none holding it. */
  function Split(s: string, sep: char): (r: seq<string>)
    ensures |r| == Count(s, sep) + 1
    ensures forall i :: 0 <= i < |r| ==> sep !in r[i]
    decreases |s|
  {
    if s == [] then [[]]
    else
      var rest := Split(s[1..], sep);
      assert s == [s[0]] + s[1..];
      if s[0] == sep then
        [[]] + rest
      else
        var r := [[s[0]] + rest[0]] + rest[1..];
        assert r[1..] == rest[1..];
        r
  }

  /** Joining a piece in front of at least one other puts a separator between. */
  lemma JoinCons(a: string, rest: seq<string>, sep: char)
    requires |rest| >= 1
    ensures Join([a] + rest, sep) == a + [sep] + Join(rest, sep)
  {
    assert ([a] + rest)[1..] == rest;
  }

  /** Growing the first piece by one character grows the join by it. */
  lemma JoinPrepend(c: char, parts: seq<string>, sep: char)
    requires |parts| >= 1
    ensures Join([[c] + parts[0]] + parts[1..], sep) == [c] + Join(parts, sep)
  {
    if |parts| > 1 {
      JoinCons([c] + parts[0], parts[1..], sep);
      JoinCons(parts[0], parts[1..], sep);
      assert parts == [parts[0]] + parts[1..];
    }
  }

  /** Joining the pieces with the separator gives the text back. */
  lemma {:induction false} JoinSplit(s: string, sep: char)
    ensures Join(Split(s, sep), sep) == s
    decreases |s|
  {
    if s != [] {
      var rest := Split(s[1..], sep);
      JoinSplit(s[1..], sep);
      assert s == [s[0]] + s[1..];
      if s[0] == sep {
        JoinCons([], rest, sep);
      } else {
        JoinPrepend(s[0], rest, sep);
      }
    }
  }

  /** Splitting a separator-free prefix off puts it in front of the first piece. */
  lemma {:induction false} SplitPrefix(p: string, x: string, sep: char)
    requires sep !in p
    ensures Split(p + x, sep) == [p + Split(x, sep)[0]] + Split(x, sep)[1..]
    decreases |p|
  {
    if p != [] {
      var q := p + x;
      var S := Split(x, sep);
      assert q[1..] == p[1..] + x;
      assert q[0] == p[0] && q[0] != sep;
      SplitPrefix(p[1..], x, sep);
      var R := Split(q[1..], sep);
      assert R == [p[1..] + S[0]] + S[1..];
      assert Split(q, sep) == [[q[0]] + R[0]] + R[1..];
      assert R[1..] == S[1..];
      assert R[0] == p[1..] + S[0];
      assert p == [p[0]] + p[1..];
      calc {
        [q[0]] + R[0];
        [p[0]] + (p[1..] + S[0]);
        ([p[0]] + p[1..]) + S[0];
        p + S[0];
      }
      assert Split(q, sep) == [p + S[0]] + S[1..];
    } else {
      var S := Split(x, sep);
      assert p + x == x && p + S[0] == S[0];
      assert S == [S[0]] + S[1..];
    }
  }

  /** Splitting a join gives the pieces back, when no piece holds the separator. */
  lemma {:induction false} SplitJoin(parts: seq<string>, sep: char)
    requires |parts| >= 1
    requires forall i :: 0 <= i < |parts| ==> sep !in parts[i]
    ensures Split(Join(parts, sep), sep) == parts
    decreases |parts|
  {
    if |parts| == 1 {
      SplitPrefix(parts[0], [], sep);
      assert parts[0] + [] == parts[0];
      assert Split([], sep) == [[]];
      assert Split(Join(parts, sep), sep) == [parts[0]];
    } else {
      var rest := Join(parts[1..], sep);
      SplitJoin(parts[1..], sep);
      var t := [sep] + rest;
      assert t[1..] == rest && t[0] == sep;
      var T := Split(t, sep);
      assert T == [[]] + parts[1..];
      assert Join(parts, sep) == parts[0] + t;
      SplitPrefix(parts[0], t, sep);
      assert T[0] == [] && T[1..] == parts[1..];
      assert parts[0] + T[0] == parts[0];
      assert parts == [parts[0]] + parts[1..];
    }
  }
}
