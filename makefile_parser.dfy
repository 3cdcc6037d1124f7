/**
 * The makefile reader of `cvise/utils/makefileparser.py`: it reads a
 * makefile's bytes into lines (joining backslash continuations), classifies
 * each line as a rule header, a recipe line or an unclassified line, and
 * tokenizes rule headers on whitespace and recipe lines the way a shell
 * would, remembering where in the file every piece of text came from.
 */
module MakefileParser {
  import opened Common
  import opened ByteLines

  const TAB: Byte := 9
  const CARRIAGE_RETURN: Byte := 13
  const SPACE: Byte := 32
  const DOUBLE_QUOTE: Byte := 34
  const HASH: Byte := 35
  const SINGLE_QUOTE: Byte := 39
  const COLON: Byte := 58
  const AT: Byte := 64
  const BACKSLASH: Byte := 92

  /** The encoding of an ASCII string. */
  function Ascii(s: string): (b: Bytes)
    requires forall i :: 0 <= i < |s| ==> s[i] as int < 128
    ensures |b| == |s| && forall i :: 0 <= i < |s| ==> b[i] == s[i] as int
  {
    if |s| == 0 then [] else [s[0] as int as Byte] + Ascii(s[1..])
  }

  /** A half-open byte range `[begin, end)` of the makefile. */
  datatype SourceLoc = SourceLoc(begin: int, end: int)

  /** Text with its location; `precedingSpaces` is the whitespace skipped before a token, if any. */
  datatype TextWithLoc = TextWithLoc(loc: SourceLoc, value: Bytes, precedingSpaces: Option<SourceLoc>)

  /** A target or prerequisite name with its location. */
  datatype PathWithLoc = PathWithLoc(loc: SourceLoc, value: Bytes, precedingSpaces: Option<SourceLoc>)

  /** A recipe command: the program token and the argument tokens. */
  datatype RecipeLine = RecipeLine(loc: SourceLoc, program: TextWithLoc, args: seq<TextWithLoc>)

  datatype Rule = Rule(loc: SourceLoc, targets: seq<PathWithLoc>, prereqs: seq<PathWithLoc>,
                       recipe: seq<RecipeLine>, unclassifiedLines: seq<TextWithLoc>)

  datatype Makefile = Makefile(rules: seq<Rule>, unclassifiedLines: seq<TextWithLoc>,
                               builtinTargets: set<Bytes>, phonyTargets: set<Bytes>)

  /** `t`'s value is exactly the bytes of `file` at its location. */
  ghost predicate Located(file: Bytes, t: TextWithLoc)
  {
    0 <= t.loc.begin <= t.loc.end <= |file| && t.value == file[t.loc.begin..t.loc.end]
  }

  /** Python's `v[b:e]` for non-negative bounds: both are clamped to the length. */
  function PySlice(v: Bytes, b: nat, e: nat): (r: Bytes)
    ensures b <= e <= |v| ==> r == v[b..e]
  {
    var lo := if b <= |v| then b else |v|;
    var hi := if e <= |v| then e else |v|;
    if lo <= hi then v[lo..hi] else []
  }

  /**
   * `TextWithLoc.substr`: the part from `begin` to `end` (to the end when
   * `end` is absent), both relative to the start of the text. The two
   * `assert`s of the source are the preconditions.
   */
  function Substr(t: TextWithLoc, begin: nat, end: Option<nat>): (r: TextWithLoc)
    requires t.loc.begin + begin <= t.loc.end
    requires end.Some? ==> begin <= end.value && t.loc.begin + end.value <= t.loc.end
    ensures t.loc.begin <= r.loc.begin <= r.loc.end <= t.loc.end
    ensures r.loc.begin - t.loc.begin == begin
    ensures end.Some? ==> r.loc.end - t.loc.begin == end.value
    ensures end.None? ==> r.loc.end == t.loc.end
    ensures r.precedingSpaces.None?
    ensures Sized(t) ==> Sized(r)
  {
    TextWithLoc(SourceLoc(t.loc.begin + begin, if end.None? then t.loc.end else t.loc.begin + end.value),
                PySlice(t.value, begin, if end.None? then |t.value| else end.value), None)
  }

  /** A part of located text is located: the value still matches the file at the new location. */
  lemma SubstrLocated(file: Bytes, t: TextWithLoc, begin: nat, end: Option<nat>)
    requires Located(file, t)
    requires t.loc.begin + begin <= t.loc.end
    requires end.Some? ==> begin <= end.value && t.loc.begin + end.value <= t.loc.end
    ensures Located(file, Substr(t, begin, end))
  {
    var r := Substr(t, begin, end);
    var e := if end.None? then |t.value| else end.value;
    SliceOfSlice(file, t.loc.begin, t.loc.end, begin, e);
    assert r.value == t.value[begin..e];
  }

  lemma SliceOfSlice(s: Bytes, a: nat, b: nat, c: nat, d: nat)
    requires a <= b <= |s| && c <= d <= b - a
    ensures s[a..b][c..d] == s[a + c..a + d]
  {
    forall i | 0 <= i < d - c
      ensures s[a..b][c..d][i] == s[a + c..a + d][i]
    {
    }
  }

  /** Taking a part of a part is taking a part of the whole. */
  lemma SubstrOfSubstr(t: TextWithLoc, a: nat, b: nat, c: nat, d: nat)
    requires t.loc.end - t.loc.begin == |t.value|
    requires a <= b && t.loc.begin + b <= t.loc.end && c <= d <= b - a
    ensures Substr(Substr(t, a, Some(b)), c, Some(d)) == Substr(t, a + c, Some(a + d))
  {
    SliceOfSlice(t.value, a, b, c, d);
  }

  /** `rstrip(b'\r\n')`: the line without its trailing carriage returns and newlines. */
  function RStripLineEnd(l: Bytes): (r: Bytes)
    ensures |r| <= |l| && r == l[..|r|]
    ensures forall i :: |r| <= i < |l| ==> l[i] == NEWLINE || l[i] == CARRIAGE_RETURN
    ensures |r| > 0 ==> r[|r| - 1] != NEWLINE && r[|r| - 1] != CARRIAGE_RETURN
  {
    if |l| == 0 then l
    else if l[|l| - 1] == NEWLINE || l[|l| - 1] == CARRIAGE_RETURN then RStripLineEnd(l[..|l| - 1])
    else l
  }

  /** The line continues on the next one: it ends with a backslash before its line end. */
  predicate Continues(l: Bytes)
  {
    var s := RStripLineEnd(l);
    |s| > 0 && s[|s| - 1] == BACKSLASH
  }

  /** `rfind`: the last index holding `b`, or -1. */
  function RFind(l: Bytes, b: Byte): (r: int)
    ensures -1 <= r < |l|
    ensures r >= 0 ==> l[r] == b && forall i :: r < i < |l| ==> l[i] != b
    ensures r == -1 ==> forall i :: 0 <= i < |l| ==> l[i] != b
  {
    if |l| == 0 then -1
    else if l[|l| - 1] == b then |l| - 1
    else RFind(l[..|l| - 1], b)
  }

  /**
   * Joining `cur` onto `prev`, which continues: the last backslash of
   * `prev` becomes a space, and so does a tab that starts `cur`.
   */
  function JoinLine(prev: Bytes, cur: Bytes): Bytes
    requires Continues(prev)
  {
    var pos := RFind(prev, BACKSLASH);
    assert RStripLineEnd(prev)[|RStripLineEnd(prev)| - 1] == prev[|RStripLineEnd(prev)| - 1];
    prev[pos := SPACE] + (if |cur| > 0 && cur[0] == TAB then cur[0 := SPACE] else cur)
  }

  /** The lines after continuation lines are joined onto the lines they continue. */
  function Joined(raw: seq<Bytes>): seq<Bytes>
  {
    if |raw| == 0 then []
    else
      var ls := Joined(raw[..|raw| - 1]);
      var cur := raw[|raw| - 1];
      if |ls| > 0 && Continues(ls[|ls| - 1]) then ls[..|ls| - 1] + [JoinLine(ls[|ls| - 1], cur)]
      else ls + [cur]
  }

  /** `b` is `a` with some backslashes and tabs turned into spaces. */
  ghost predicate SpacedOut(a: Bytes, b: Bytes)
  {
    |a| == |b| && forall i :: 0 <= i < |a| ==> a[i] == b[i] || (b[i] == SPACE && (a[i] == BACKSLASH || a[i] == TAB))
  }

  lemma SpacedOutAppend(a1: Bytes, b1: Bytes, a2: Bytes, b2: Bytes)
    requires SpacedOut(a1, b1) && SpacedOut(a2, b2)
    ensures SpacedOut(a1 + a2, b1 + b2)
  {
    forall i | 0 <= i < |a1 + a2|
      ensures (a1 + a2)[i] == (b1 + b2)[i] || ((b1 + b2)[i] == SPACE && ((a1 + a2)[i] == BACKSLASH || (a1 + a2)[i] == TAB))
    {
      if i >= |a1| {
        assert (a1 + a2)[i] == a2[i - |a1|] && (b1 + b2)[i] == b2[i - |a1|];
      }
    }
  }

  lemma SpacedOutTrans(a: Bytes, b: Bytes, c: Bytes)
    requires SpacedOut(a, b) && SpacedOut(b, c)
    ensures SpacedOut(a, c)
  {
  }

  lemma JoinLineSpacedOutLocal(last: Bytes, cur: Bytes)
    requires Continues(last)
    ensures SpacedOut(last + cur, JoinLine(last, cur))
  {
    var curSpaced := if |cur| > 0 && cur[0] == TAB then cur[0 := SPACE] else cur;
    assert SpacedOut(cur, curSpaced);
    var pos := RFind(last, BACKSLASH);
    assert SpacedOut(last, last[pos := SPACE]);
    SpacedOutAppend(last, last[pos := SPACE], cur, curSpaced);
  }

  lemma SpacedOutReplaceTail(a: Bytes, x: Bytes, last: Bytes, cur: Bytes, joined: Bytes)
    requires SpacedOut(a, x + last) && SpacedOut(last + cur, joined)
    ensures SpacedOut(a + cur, x + joined)
  {
    assert SpacedOut(cur, cur);
    SpacedOutAppend(a, x + last, cur, cur);
    assert SpacedOut(x, x);
    SpacedOutAppend(x, x, last + cur, joined);
    assert x + last + cur == x + (last + cur);
    SpacedOutTrans(a + cur, x + (last + cur), x + joined);
  }

  lemma JoinLineSpacedOut(a: Bytes, lines: seq<Bytes>, cur: Bytes)
    requires |lines| > 0 && Continues(lines[|lines| - 1]) && SpacedOut(a, Concat(lines))
    ensures SpacedOut(a + cur, Concat(lines[..|lines| - 1] + [JoinLine(lines[|lines| - 1], cur)]))
  {
    var last := lines[|lines| - 1];
    var before := lines[..|lines| - 1];
    var x := Concat(before);
    var joined := JoinLine(last, cur);
    assert Concat(lines) == x + last;
    JoinLineSpacedOutLocal(last, cur);
    SpacedOutReplaceTail(a, x, last, cur, joined);
    assert Concat(before + [joined]) == x + joined by {
      assert (before + [joined])[..|before|] == before;
    }
  }

  lemma AppendLineSpacedOut(a: Bytes, lines: seq<Bytes>, cur: Bytes)
    requires SpacedOut(a, Concat(lines))
    ensures SpacedOut(a + cur, Concat(lines + [cur]))
  {
    assert Concat(lines + [cur]) == Concat(lines) + cur by {
      assert (lines + [cur])[..|lines|] == lines;
    }
    assert SpacedOut(cur, cur);
    SpacedOutAppend(a, Concat(lines), cur, cur);
  }

  /** Joining continuations only turns backslashes and tabs into spaces; the bytes stay where they were. */
  lemma {:induction false} JoinedSpacedOut(raw: seq<Bytes>)
    ensures SpacedOut(Concat(raw), Concat(Joined(raw)))
  {
    if |raw| > 0 {
      var k := |raw| - 1;
      JoinedSpacedOut(raw[..k]);
      var lines := Joined(raw[..k]);
      assert Concat(raw) == Concat(raw[..k]) + raw[k];
      if |lines| > 0 && Continues(lines[|lines| - 1]) {
        JoinLineSpacedOut(Concat(raw[..k]), lines, raw[k]);
      } else {
        AppendLineSpacedOut(Concat(raw[..k]), lines, raw[k]);
      }
    }
  }

  /**
   * `parse`, first loop: continuation lines are joined onto the line they
   * continue, in place.
   */
  method JoinContinuations(raw: seq<Bytes>) returns (lines: seq<Bytes>)
    ensures lines == Joined(raw)
    ensures SpacedOut(Concat(raw), Concat(lines))
  {
    lines := [];
    for k := 0 to |raw|
      invariant lines == Joined(raw[..k])
    {
      var cur := raw[k];
      assert raw[..k + 1][..k] == raw[..k];
      if |lines| > 0 && Continues(lines[|lines| - 1]) {
        var pos := RFind(lines[|lines| - 1], BACKSLASH);
        var last := lines[|lines| - 1][pos := SPACE];
        var joined := if |cur| > 0 && cur[0] == TAB then last + cur[0 := SPACE] else last + cur;
        assert joined == JoinLine(lines[|lines| - 1], cur);
        lines := lines[..|lines| - 1] + [joined];
      } else {
        lines := lines + [cur];
      }
    }
    assert raw[..|raw|] == raw;
    JoinedSpacedOut(raw);
  }

  /** `chr(b).isspace()`: besides ASCII whitespace, the separators 0x1C-0x1F, NEL and NBSP. */
  predicate IsSpace(b: Byte)
  {
    9 <= b <= 13 || 28 <= b <= 32 || b == 0x85 || b == 0xA0
  }

  /** The first position at or after `i` that is ASCII whitespace. */
  function SkipWord(v: Bytes, i: nat): (j: nat)
    requires i <= |v|
    ensures i <= j <= |v|
    ensures forall k :: i <= k < j ==> !IsAsciiSpace(v[k])
    ensures j < |v| ==> IsAsciiSpace(v[j])
    decreases |v| - i
  {
    if i == |v| || IsAsciiSpace(v[i]) then i else SkipWord(v, i + 1)
  }

  /** The spans of the words of `v[i..]`: the maximal runs without ASCII whitespace. */
  function WordSpans(v: Bytes, i: nat): (r: seq<(nat, nat)>)
    requires i <= |v|
    ensures forall k :: 0 <= k < |r| ==> i <= r[k].0 < r[k].1 <= |v|
    decreases |v| - i
  {
    var b := SkipSpaces(v, i);
    if b == |v| then []
    else
      var e := SkipWord(v, b);
      [(b, e)] + WordSpans(v, e)
  }

  function Words(v: Bytes, spans: seq<(nat, nat)>): (r: seq<Bytes>)
    requires forall k :: 0 <= k < |spans| ==> spans[k].0 <= spans[k].1 <= |v|
    ensures |r| == |spans| && forall k :: 0 <= k < |r| ==> r[k] == v[spans[k].0..spans[k].1]
  {
    if |spans| == 0 then [] else [v[spans[0].0..spans[0].1]] + Words(v, spans[1..])
  }

  /** `bytes.split()` with no separator. */
  function Split(v: Bytes): seq<Bytes>
  {
    Words(v, WordSpans(v, 0))
  }

  /** `bytes.find(w, start)`: the first position at or after `start` where `w` occurs, or -1. */
  function Find(v: Bytes, w: Bytes, start: nat): (r: int)
    ensures r == -1 || (start <= r && r + |w| <= |v| && v[r..r + |w|] == w)
    decreases |v| - start
  {
    if start + |w| > |v| then -1
    else if v[start..start + |w|] == w then start
    else Find(v, w, start + 1)
  }

  /** A word found after only whitespace is found where it is: it cannot start on a space. */
  lemma {:induction false} FindWordAfterSpaces(v: Bytes, start: nat, b: nat, e: nat)
    requires start <= b < e <= |v|
    requires forall k :: start <= k < b ==> IsAsciiSpace(v[k])
    requires !IsAsciiSpace(v[b])
    ensures Find(v, v[b..e], start) == b
    decreases b - start
  {
    if start < b {
      assert v[start..start + (e - b)][0] != v[b..e][0];
      FindWordAfterSpaces(v, start + 1, b, e);
    }
  }

  /** The token for the word `v[b..e]` found after position `i`, with the whitespace before it if any. */
  function SpaceToken(text: TextWithLoc, i: nat, b: nat, e: nat): TextWithLoc
    requires b <= e <= |text.value|
  {
    var base := text.loc.begin;
    TextWithLoc(SourceLoc(base + b, base + e), text.value[b..e],
                if b > i then Some(SourceLoc(base + i, base + b)) else None)
  }

  /**
   * The tokens `_split_by_spaces` returns for the words of `text.value[i..]`:
   * each word's location, and the whitespace before it when there is some.
   */
  function SpaceTokens(text: TextWithLoc, i: nat): (r: seq<TextWithLoc>)
    requires i <= |text.value|
    decreases |text.value| - i
  {
    var v := text.value;
    var b := SkipSpaces(v, i);
    if b == |v| then []
    else
      var e := SkipWord(v, b);
      [SpaceToken(text, i, b, e)] + SpaceTokens(text, e)
  }

  /** The text's location spans exactly its value. */
  predicate Sized(t: TextWithLoc)
  {
    t.loc.end - t.loc.begin == |t.value|
  }

  /** One round of `_split_by_spaces`: the next word is found where its span starts. */
  lemma NextWord(text: TextWithLoc, startPos: nat, spans: seq<(nat, nat)>, k: nat)
    requires startPos <= |text.value| && k < |spans|
    requires spans[k..] == WordSpans(text.value, startPos)
    ensures var v, b, e := text.value, spans[k].0, spans[k].1;
      startPos <= b < e <= |v| && Find(v, v[b..e], startPos) == b
      && spans[k + 1..] == WordSpans(v, e)
      && SpaceTokens(text, startPos) == [SpaceToken(text, startPos, b, e)] + SpaceTokens(text, e)
  {
    var v := text.value;
    var b := SkipSpaces(v, startPos);
    assert spans[k..][0] == spans[k];
    assert spans[k + 1..] == spans[k..][1..];
    FindWordAfterSpaces(v, startPos, b, spans[k].1);
  }

  /**
   * One round of `_split_by_spaces`: `find` the word from `startPos`, take
   * it as a `substr`, record the whitespace skipped before it, and move past
   * it.
   */
  function LocateWord(text: TextWithLoc, startPos: nat, tok: Bytes): (r: (TextWithLoc, nat))
    requires Sized(text)
    requires Find(text.value, tok, startPos) != -1
  {
    var pos := Find(text.value, tok, startPos);
    var tokLoc := Substr(text, pos, Some(pos + |tok|));
    (if pos > startPos then tokLoc.(precedingSpaces := Some(SourceLoc(text.loc.begin + startPos, text.loc.begin + pos)))
     else tokLoc,
     pos + |tok|)
  }

  lemma LocateWordSpec(text: TextWithLoc, startPos: nat, b: nat, e: nat)
    requires Sized(text) && startPos <= b < e <= |text.value|
    requires Find(text.value, text.value[b..e], startPos) == b
    ensures LocateWord(text, startPos, text.value[b..e]) == (SpaceToken(text, startPos, b, e), e)
  {
    var t := Substr(text, b, Some(e));
    assert t.value == text.value[b..e];
  }

  /**
   * `_split_by_spaces`: the tokens of `bytes.split()`, each located with
   * `find` from the end of the previous one.
   */
  method SplitBySpaces(text: TextWithLoc) returns (toks: seq<TextWithLoc>)
    requires Sized(text)
    ensures toks == SpaceTokens(text, 0)
  {
    var v := text.value;
    ghost var spans := WordSpans(v, 0);
    var words := Split(v);
    assert |words| == |spans| && forall k :: 0 <= k < |spans| ==> words[k] == v[spans[k].0..spans[k].1];
    var startPos: nat := 0;
    toks := [];
    ghost var all := SpaceTokens(text, 0);
    for k := 0 to |words|
      invariant startPos <= |v|
      invariant spans[k..] == WordSpans(v, startPos)
      invariant toks + SpaceTokens(text, startPos) == all
    {
      NextWord(text, startPos, spans, k);
      LocateWordSpec(text, startPos, spans[k].0, spans[k].1);
      ghost var rest := SpaceTokens(text, spans[k].1);
      var located := LocateWord(text, startPos, words[k]);
      var tokLoc := located.0;
      startPos := located.1;
      assert (toks + [tokLoc]) + rest == toks + ([tokLoc] + rest);
      toks := toks + [tokLoc];
    }
  }

  /**
   * A located token: its value is what the file holds at its location, and
   * its preceding whitespace, when recorded, is whitespace of the file that
   * ends where the token begins.
   */
  ghost predicate LocatedToken(file: Bytes, t: TextWithLoc, space: Byte -> bool)
  {
    Located(file, t) && |t.value| > 0
    && (t.precedingSpaces.Some? ==>
          var p := t.precedingSpaces.value;
          0 <= p.begin < p.end == t.loc.begin && forall j :: p.begin <= j < p.end ==> space(file[j]))
  }

  /** Consecutive tokens: the second starts after the first ends, and its recorded whitespace is exactly the gap. */
  ghost predicate Consecutive(t: TextWithLoc, u: TextWithLoc)
  {
    t.loc.end <= u.loc.begin
    && (t.loc.end < u.loc.begin <==> u.precedingSpaces.Some?)
    && (u.precedingSpaces.Some? ==> u.precedingSpaces.value.begin == t.loc.end)
  }

  /** One token of `_split_by_spaces`: a located word without whitespace, after its recorded whitespace. */
  lemma SpaceTokenSpec(file: Bytes, text: TextWithLoc, i: nat, b: nat, e: nat)
    requires Located(file, text) && i <= b < e <= |text.value|
    requires forall k :: i <= k < b ==> IsAsciiSpace(text.value[k])
    requires forall k :: b <= k < e ==> !IsAsciiSpace(text.value[k])
    ensures var t := SpaceToken(text, i, b, e);
      LocatedToken(file, t, IsAsciiSpace) && text.loc.begin + i <= t.loc.begin <= t.loc.end <= text.loc.end
      && t.loc.end == text.loc.begin + e
      && (forall j :: 0 <= j < |t.value| ==> !IsAsciiSpace(t.value[j]))
      && (text.loc.begin + i < t.loc.begin <==> t.precedingSpaces.Some?)
      && (t.precedingSpaces.Some? ==> t.precedingSpaces.value.begin == text.loc.begin + i)
  {
    var v, base := text.value, text.loc.begin;
    var t := SpaceToken(text, i, b, e);
    assert t.value == file[base + b..base + e];
    forall j | base + i <= j < base + b
      ensures IsAsciiSpace(file[j])
    {
      assert file[j] == v[j - base];
    }
  }

  /**
   * The tokens of `_split_by_spaces` are located words without whitespace,
   * in order; each records exactly the whitespace since the previous token.
   */
  lemma {:induction false} SpaceTokensSpec(file: Bytes, text: TextWithLoc, i: nat)
    requires Located(file, text) && i <= |text.value|
    ensures var r := SpaceTokens(text, i);
      (forall k :: 0 <= k < |r| ==>
        LocatedToken(file, r[k], IsAsciiSpace) && text.loc.begin + i <= r[k].loc.begin <= r[k].loc.end <= text.loc.end
        && (forall j :: 0 <= j < |r[k].value| ==> !IsAsciiSpace(r[k].value[j])))
      && (forall k :: 0 < k < |r| ==> Consecutive(r[k - 1], r[k]))
      && (|r| > 0 ==> (text.loc.begin + i < r[0].loc.begin <==> r[0].precedingSpaces.Some?))
      && (|r| > 0 && r[0].precedingSpaces.Some? ==> r[0].precedingSpaces.value.begin == text.loc.begin + i)
    decreases |text.value| - i
  {
    var v := text.value;
    var b := SkipSpaces(v, i);
    if b < |v| {
      var e := SkipWord(v, b);
      SpaceTokensSpec(file, text, e);
      SpaceTokenSpec(file, text, i, b, e);
      var t := SpaceToken(text, i, b, e);
      var rest := SpaceTokens(text, e);
      var r := [t] + rest;
      assert SpaceTokens(text, i) == r;
      forall k | 0 < k < |r|
        ensures Consecutive(r[k - 1], r[k])
      {
        if k > 1 {
          assert r[k - 1] == rest[k - 2] && r[k] == rest[k - 1];
        }
      }
    }
  }

  /** The first position at or after `i` that is not whitespace to `isspace()`. */
  function SkipShellSpaces(v: Bytes, i: nat): (j: nat)
    requires i <= |v|
    ensures i <= j <= |v|
    ensures forall k :: i <= k < j ==> IsSpace(v[k])
    ensures j < |v| ==> !IsSpace(v[j])
    decreases |v| - i
  {
    if i == |v| || !IsSpace(v[i]) then i else SkipShellSpaces(v, i + 1)
  }

  predicate IsQuote(b: Byte)
  {
    b == DOUBLE_QUOTE || b == SINGLE_QUOTE
  }

  /**
   * The rest of a shell token from position `i`, with `quote` the open
   * quote and `tok` the bytes kept so far: a quote opens or closes quoting
   * and is dropped (the other kind of quote inside quotes is kept), and
   * whitespace outside quotes ends the token. The result is the token and
   * the position after it.
   *
   * The source also means to take a backslash inside double quotes as an
   * escape, but it tests the following byte (an `int`) for membership in a
   * tuple of one-character `str`s, which is never true; so a backslash is
   * always kept as it is, and that branch is not part of the model.
   */
  function ScanShellToken(v: Bytes, i: nat, quote: Option<Byte>, tok: Bytes): (r: (Bytes, nat))
    requires i <= |v|
    ensures i <= r.1 <= |v|
    ensures i < |v| && !(IsSpace(v[i]) && quote.None?) ==> r.1 > i
    ensures |r.0| <= |tok| + (r.1 - i)
    ensures r.1 < |v| ==> IsSpace(v[r.1])
    decreases |v| - i
  {
    if i == |v| then (tok, i)
    else
      var c := v[i];
      if IsQuote(c) && quote == Some(c) then ScanShellToken(v, i + 1, None, tok)
      else if IsQuote(c) && quote.None? then ScanShellToken(v, i + 1, Some(c), tok)
      else if IsSpace(c) && quote.None? then (tok, i)
      else ScanShellToken(v, i + 1, quote, tok + [c])
  }

  /** The inner loop of `_split_shell_cmd_line`: one token starting at `begin`. */
  method ReadShellToken(v: Bytes, begin: nat) returns (tok: Bytes, end: nat)
    requires begin <= |v|
    ensures (tok, end) == ScanShellToken(v, begin, None, [])
  {
    var n := |v|;
    var i := begin;
    tok := [];
    var activeQuote: Option<Byte> := None;
    while i < n
      invariant begin <= i <= n
      invariant ScanShellToken(v, i, activeQuote, tok) == ScanShellToken(v, begin, None, [])
    {
      var c := v[i];
      if IsQuote(c) {
        if activeQuote == Some(c) {
          activeQuote := None;
          i := i + 1;
          continue;
        }
        if activeQuote.None? {
          activeQuote := Some(c);
          i := i + 1;
          continue;
        }
      } else if IsSpace(c) && activeQuote.None? {
        break;
      }
      tok := tok + [c];
      i := i + 1;
    }
    end := i;
  }

  /** The token read at `b`, having skipped the whitespace from `i`. */
  function ShellToken(text: TextWithLoc, i: nat, b: nat): TextWithLoc
    requires b <= |text.value|
  {
    var base := text.loc.begin;
    var r := ScanShellToken(text.value, b, None, []);
    TextWithLoc(SourceLoc(base + b, base + r.1), r.0, if i < b then Some(SourceLoc(base + i, base + b)) else None)
  }

  /** The tokens `_split_shell_cmd_line` returns for `text.value[i..]`. */
  function ShellTokens(text: TextWithLoc, i: nat): seq<TextWithLoc>
    requires i <= |text.value|
    decreases |text.value| - i
  {
    var v := text.value;
    var b := SkipShellSpaces(v, i);
    if b == |v| then []
    else [ShellToken(text, i, b)] + ShellTokens(text, ScanShellToken(v, b, None, []).1)
  }

  /**
   * `_split_shell_cmd_line`: skip whitespace, then read one token, until
   * the text is used up.
   */
  method SplitShellCmdLine(text: TextWithLoc) returns (toks: seq<TextWithLoc>)
    ensures toks == ShellTokens(text, 0)
  {
    var v := text.value;
    var n := |v|;
    toks := [];
    var i := 0;
    ghost var all := ShellTokens(text, 0);
    while i < n
      invariant i <= n
      invariant toks + ShellTokens(text, i) == all
      decreases n - i
    {
      var start := i;
      i := ReadShellSpaces(v, start);
      ShellTokensAt(text, start);
      if i == n {
        break;
      }
      var t;
      t, i := LocatedShellToken(text, start, i);
      SnocAssoc(toks, t, ShellTokens(text, i));
      toks := toks + [t];
    }
  }

  /** The token read at `begin`, located in the file, with the whitespace from `start` before it. */
  method LocatedShellToken(text: TextWithLoc, start: nat, begin: nat) returns (t: TextWithLoc, end: nat)
    requires start <= begin <= |text.value|
    ensures t == ShellToken(text, start, begin) && end == ScanShellToken(text.value, begin, None, []).1
  {
    var precedingSpacesLoc := if start < begin then Some(SourceLoc(text.loc.begin + start, text.loc.begin + begin)) else None;
    var tok;
    tok, end := ReadShellToken(text.value, begin);
    t := TextWithLoc(SourceLoc(text.loc.begin + begin, text.loc.begin + end), tok, precedingSpacesLoc);
  }

  /** The inner loop of `_split_shell_cmd_line` that skips whitespace. */
  method ReadShellSpaces(v: Bytes, start: nat) returns (i: nat)
    requires start <= |v|
    ensures i == SkipShellSpaces(v, start)
  {
    i := start;
    while i < |v| && IsSpace(v[i])
      invariant start <= i <= |v|
      invariant SkipShellSpaces(v, start) == SkipShellSpaces(v, i)
    {
      i := i + 1;
    }
  }

  /** The tokens from `i`: none once only whitespace is left, else the token after the whitespace and the rest. */
  lemma ShellTokensAt(text: TextWithLoc, i: nat)
    requires i <= |text.value|
    ensures var b := SkipShellSpaces(text.value, i);
      ShellTokens(text, i)
      == if b == |text.value| then []
         else [ShellToken(text, i, b)] + ShellTokens(text, ScanShellToken(text.value, b, None, []).1)
  {
  }

  lemma SnocAssoc<T>(xs: seq<T>, x: T, ys: seq<T>)
    ensures (xs + [x]) + ys == xs + ([x] + ys)
  {
  }

  /** The whitespace recorded before `t`, if any, is whitespace of `file` ending where `t` begins. */
  ghost predicate SpacesBefore(file: Bytes, t: TextWithLoc, space: Byte -> bool)
  {
    t.precedingSpaces.Some? ==>
      var p := t.precedingSpaces.value;
      0 <= p.begin < p.end == t.loc.begin && p.end <= |file| && forall j :: p.begin <= j < p.end ==> space(file[j])
  }

  /**
   * A shell token of `text` found from `i`: within the text, not empty, no
   * longer in value than in location, recording only whitespace before it,
   * and ending at the end of the text or at whitespace.
   */
  ghost predicate ShellTokenIn(file: Bytes, text: TextWithLoc, i: nat, t: TextWithLoc)
  {
    text.loc.begin + i <= t.loc.begin < t.loc.end <= text.loc.end
    && SpacesBefore(file, t, IsSpace)
    && |t.value| <= t.loc.end - t.loc.begin
    && (t.loc.end < text.loc.end ==> 0 <= t.loc.end < |file| && IsSpace(file[t.loc.end]))
    && (text.loc.begin + i < t.loc.begin <==> t.precedingSpaces.Some?)
  }

  lemma ShellTokenSpec(file: Bytes, text: TextWithLoc, i: nat)
    requires Located(file, text) && i <= |text.value| && SkipShellSpaces(text.value, i) < |text.value|
    ensures ShellTokenIn(file, text, i, ShellToken(text, i, SkipShellSpaces(text.value, i)))
  {
    var v, base := text.value, text.loc.begin;
    var b := SkipShellSpaces(v, i);
    var e := ScanShellToken(v, b, None, []).1;
    forall j | base + i <= j < base + b
      ensures IsSpace(file[j])
    {
      assert file[j] == v[j - base];
    }
    if e < |v| {
      assert file[base + e] == v[e];
    }
  }

  /**
   * The tokens of `_split_shell_cmd_line` lie in order within the text, and
   * each records exactly the whitespace since the previous token.
   */
  lemma {:induction false} ShellTokensSpec(file: Bytes, text: TextWithLoc, i: nat)
    requires Located(file, text) && i <= |text.value|
    ensures var r := ShellTokens(text, i);
      (|r| > 0 ==> ShellTokenIn(file, text, i, r[0]))
      && (forall k :: 0 < k < |r| ==> ShellTokenIn(file, text, 0, r[k]) && Consecutive(r[k - 1], r[k]))
    decreases |text.value| - i
  {
    var v := text.value;
    var b := SkipShellSpaces(v, i);
    if b < |v| {
      var e := ScanShellToken(v, b, None, []).1;
      ShellTokenSpec(file, text, i);
      ShellTokensSpec(file, text, e);
      var t := ShellToken(text, i, b);
      var rest := ShellTokens(text, e);
      var r := [t] + rest;
      assert ShellTokens(text, i) == r;
      forall k | 0 < k < |r|
        ensures ShellTokenIn(file, text, 0, r[k]) && Consecutive(r[k - 1], r[k])
      {
        if k == 1 {
          var b' := SkipShellSpaces(v, e);
          assert rest[0] == ShellToken(text, e, b');
        } else {
          assert r[k - 1] == rest[k - 2] && r[k] == rest[k - 1];
        }
      }
    }
  }

  /** A token without quotes is taken as it stands, up to the next whitespace. */
  lemma {:induction false} UnquotedShellToken(v: Bytes, i: nat, tok: Bytes, e: nat)
    requires i <= e <= |v| && (e < |v| ==> IsSpace(v[e]))
    requires forall k :: i <= k < e ==> !IsSpace(v[k]) && !IsQuote(v[k])
    ensures ScanShellToken(v, i, None, tok) == (tok + v[i..e], e)
    decreases e - i
  {
    if i < e {
      UnquotedShellToken(v, i + 1, tok + [v[i]], e);
      assert (tok + [v[i]]) + v[i + 1..e] == tok + v[i..e];
    } else {
      assert tok + v[i..e] == tok;
    }
  }

  /** `find` of one byte: its first index, or -1. */
  function FindByte(v: Bytes, b: Byte): (r: int)
    ensures -1 <= r < |v|
    ensures r >= 0 ==> v[r] == b && forall j :: 0 <= j < r ==> v[j] != b
    ensures r == -1 ==> forall j :: 0 <= j < |v| ==> v[j] != b
  {
    if |v| == 0 then -1
    else if v[0] == b then 0
    else var r := FindByte(v[1..], b); if r == -1 then -1 else r + 1
  }

  predicate StartsWith(v: Bytes, b: Byte)
  {
    |v| > 0 && v[0] == b
  }

  function ToPaths(toks: seq<TextWithLoc>): (r: seq<PathWithLoc>)
    ensures |r| == |toks|
    ensures forall k :: 0 <= k < |toks| ==>
      r[k] == PathWithLoc(toks[k].loc, toks[k].value, toks[k].precedingSpaces)
  {
    if |toks| == 0 then [] else [PathWithLoc(toks[0].loc, toks[0].value, toks[0].precedingSpaces)] + ToPaths(toks[1..])
  }

  /**
   * `_parse_rule_line`, specified. A rule header does not start with a
   * tab, has a `:`, and has no `#` before its first `:`; a comment is cut
   * off first. The targets are the words before the `:`, the prerequisites
   * the words after it.
   */
  function RuleOf(line: TextWithLoc): (r: Option<Rule>)
    requires Sized(line)
    ensures r.Some? ==> (r.value.loc.begin == line.loc.begin <= r.value.loc.end <= line.loc.end
      && r.value.recipe == [] && r.value.unclassifiedLines == [])
  {
    var v := line.value;
    if StartsWith(v, TAB) then None
    else
      var colon := FindByte(v, COLON);
      if colon == -1 then None
      else
        var hash := FindByte(v, HASH);
        if hash != -1 && colon >= hash then None
        else
          var l := if hash != -1 then Substr(line, 0, Some(hash)) else line;
          var before := Substr(l, 0, Some(colon));
          var after := Substr(l, colon + 1, None);
          Some(Rule(l.loc, ToPaths(SpaceTokens(before, 0)), ToPaths(SpaceTokens(after, 0)), [], []))
  }

  /**
   * A line is a rule line exactly when it does not start with a tab and has
   * a colon before any `#`.
   */
  lemma RuleOfSome(line: TextWithLoc)
    requires Sized(line)
    ensures RuleOf(line).Some? <==> (!StartsWith(line.value, TAB) && COLON in line.value
      && forall j :: 0 <= j < |line.value| && line.value[j] == HASH ==> exists i :: 0 <= i < j && line.value[i] == COLON)
  {
  }

  /** `_parse_rule_line`. */
  method ParseRuleLine(line: TextWithLoc) returns (r: Option<Rule>)
    requires Sized(line)
    ensures r == RuleOf(line)
  {
    if StartsWith(line.value, TAB) {
      return None;
    }
    var semicolonPos := FindByte(line.value, COLON);
    if semicolonPos == -1 {
      return None;
    }
    var l := line;
    var commentStart := FindByte(l.value, HASH);
    if commentStart != -1 {
      if semicolonPos >= commentStart {
        return None;
      }
      l := Substr(l, 0, Some(commentStart));
    }
    var beforeSemicolon := Substr(l, 0, Some(semicolonPos));
    var targets := SplitBySpaces(beforeSemicolon);
    var afterSemicolon := Substr(l, semicolonPos + 1, None);
    var prereqs := SplitBySpaces(afterSemicolon);
    r := Some(Rule(l.loc, ToPaths(targets), ToPaths(prereqs), [], []));
  }

  /** Where the command of a recipe line starts: after the tab, and after an `@` that follows it. */
  function CommandStart(v: Bytes): nat
  {
    if |v| > 1 && v[1] == AT then 2 else 1
  }

  /**
   * `_parse_recipe_line`, specified. A recipe line starts with a tab and
   * holds a command after the tab and an optional `@`; the first token of
   * the command is the program, the others are the arguments.
   */
  function RecipeOf(line: TextWithLoc): (r: Option<RecipeLine>)
    requires Sized(line)
    ensures r.Some? ==> r.value.loc == SourceLoc(line.loc.begin + CommandStart(line.value), line.loc.end)
  {
    if !StartsWith(line.value, TAB) then None
    else
      var l := Substr(line, 1, None);
      var cmd := if StartsWith(l.value, AT) then Substr(l, 1, None) else l;
      assert cmd.value == line.value[CommandStart(line.value)..];
      var toks := ShellTokens(cmd, 0);
      assert |toks| > 0 <==> SkipShellSpaces(cmd.value, 0) < |cmd.value|;
      if |toks| == 0 then None
      else Some(RecipeLine(cmd.loc, toks[0], toks[1..]))
  }

  /** A line is a recipe line exactly when it starts with a tab and has a command after it. */
  lemma RecipeOfSome(line: TextWithLoc)
    requires Sized(line)
    ensures RecipeOf(line).Some? <==> (StartsWith(line.value, TAB)
      && exists j :: CommandStart(line.value) <= j < |line.value| && !IsSpace(line.value[j]))
  {
    if StartsWith(line.value, TAB) {
      var l := Substr(line, 1, None);
      var cmd := if StartsWith(l.value, AT) then Substr(l, 1, None) else l;
      assert cmd.value == line.value[CommandStart(line.value)..];
      var toks := ShellTokens(cmd, 0);
      assert |toks| > 0 <==> SkipShellSpaces(cmd.value, 0) < |cmd.value|;
    }
  }

  /** `_parse_recipe_line`. */
  method ParseRecipeLine(line: TextWithLoc) returns (r: Option<RecipeLine>)
    requires Sized(line)
    ensures r == RecipeOf(line)
  {
    if !StartsWith(line.value, TAB) {
      return None;
    }
    var l := Substr(line, 1, None);
    if StartsWith(l.value, AT) {
      l := Substr(l, 1, None);
    }
    var cmdTokLocs := SplitShellCmdLine(l);
    if |cmdTokLocs| == 0 {
      return None;
    }
    r := Some(RecipeLine(l.loc, cmdTokLocs[0], cmdTokLocs[1..]));
  }

  /** The lines with their locations: each starts where the previous one ends, the first at 0. */
  function LineTexts(lines: seq<Bytes>): (r: seq<TextWithLoc>)
    ensures |r| == |lines|
    ensures forall k :: 0 <= k < |r| ==> Sized(r[k])
  {
    if |lines| == 0 then []
    else
      var pre := lines[..|lines| - 1];
      var pos := |Concat(pre)|;
      LineTexts(pre) + [TextWithLoc(SourceLoc(pos, pos + |lines[|lines| - 1]|), lines[|lines| - 1], None)]
  }

  /** Each line starts where the previous one ends, the first at `0`, and every line can be tokenized. */
  ghost predicate Chained(texts: seq<TextWithLoc>)
  {
    (forall k :: 0 <= k < |texts| ==> Sized(texts[k]) && 0 <= texts[k].loc.begin <= texts[k].loc.end)
    && Linked(texts)
  }

  /** Each line starts where the lines before it end, the first at `0`. */
  ghost predicate Linked(texts: seq<TextWithLoc>)
  {
    |texts| == 0
    || (var n := |texts| - 1; Linked(texts[..n]) && texts[n].loc.begin == EndOf(texts[..n]))
  }

  /** Where the last line ends. */
  function EndOf(texts: seq<TextWithLoc>): int
  {
    if |texts| == 0 then 0 else texts[|texts| - 1].loc.end
  }

  /** The lines are chained, each one is the bytes at its location, and the last ends at the end of the file. */
  lemma {:induction false} LineTextsSpec(lines: seq<Bytes>)
    ensures var r := LineTexts(lines);
      Chained(r) && EndOf(r) == |Concat(lines)|
      && forall k :: 0 <= k < |r| ==> Located(Concat(lines), r[k]) && r[k].precedingSpaces.None?
  {
    if |lines| > 0 {
      var pre := lines[..|lines| - 1];
      LineTextsSpec(pre);
      var r := LineTexts(lines);
      var c := Concat(lines);
      assert r[..|r| - 1] == LineTexts(pre);
      assert c == Concat(pre) + lines[|lines| - 1];
      forall k | 0 <= k < |r|
        ensures Located(c, r[k])
      {
        if k < |r| - 1 {
          assert r[k] == LineTexts(pre)[k];
          assert c[..|Concat(pre)|] == Concat(pre);
        }
      }
    }
  }

  /** The rule's location covers its recipe lines and its unclassified lines. */
  ghost predicate Covers(r: Rule)
  {
    r.loc.begin <= r.loc.end
    && (forall j :: 0 <= j < |r.recipe| ==> r.loc.begin <= r.recipe[j].loc.begin && r.recipe[j].loc.end <= r.loc.end)
    && (forall j :: 0 <= j < |r.unclassifiedLines| ==>
          r.loc.begin <= r.unclassifiedLines[j].loc.begin && r.unclassifiedLines[j].loc.end <= r.loc.end)
  }

  /** One step of `parse`'s second loop: the line becomes a recipe line, a rule, or an unclassified line. */
  function ClassifyLine(rules: seq<Rule>, unclassified: seq<TextWithLoc>, t: TextWithLoc): (seq<Rule>, seq<TextWithLoc>)
    requires Sized(t)
  {
    if |rules| > 0 && RecipeOf(t).Some? then
      var last := rules[|rules| - 1];
      (rules[..|rules| - 1] + [last.(loc := last.loc.(end := t.loc.end), recipe := last.recipe + [RecipeOf(t).value])],
       unclassified)
    else if RuleOf(t).Some? then
      (rules + [RuleOf(t).value], unclassified)
    else if |rules| > 0 then
      var last := rules[|rules| - 1];
      (rules[..|rules| - 1] + [last.(loc := last.loc.(end := t.loc.end), unclassifiedLines := last.unclassifiedLines + [t])],
       unclassified)
    else
      (rules, unclassified + [t])
  }

  /** The rules and the top-level unclassified lines of the lines `texts`. */
  function Classify(texts: seq<TextWithLoc>): (seq<Rule>, seq<TextWithLoc>)
    requires forall k :: 0 <= k < |texts| ==> Sized(texts[k])
  {
    if |texts| == 0 then ([], [])
    else
      var c := Classify(texts[..|texts| - 1]);
      ClassifyLine(c.0, c.1, texts[|texts| - 1])
  }

  lemma ClassifySnoc(pre: seq<TextWithLoc>, t: TextWithLoc)
    requires forall k :: 0 <= k < |pre| ==> Sized(pre[k])
    requires Sized(t)
    ensures var c := Classify(pre); Classify(pre + [t]) == ClassifyLine(c.0, c.1, t)
  {
    assert (pre + [t])[..|pre|] == pre;
  }

  /** The number of lines a rule accounts for: its header, its recipe lines and its unclassified lines. */
  function LinesIn(rules: seq<Rule>): nat
  {
    if |rules| == 0 then 0
    else
      var last := rules[|rules| - 1];
      LinesIn(rules[..|rules| - 1]) + 1 + |last.recipe| + |last.unclassifiedLines|
  }

  /**
   * The shape of the classification of lines ending at `end`: the rules
   * follow one another and each covers its own lines, and the top-level
   * unclassified lines are the first lines of the file, before any rule.
   */
  ghost predicate Arranged(texts: seq<TextWithLoc>, rules: seq<Rule>, unclassified: seq<TextWithLoc>)
  {
    (forall k :: 0 <= k < |rules| ==> Covers(rules[k]) && rules[k].loc.end <= EndOf(texts))
    && (forall i, j :: 0 <= i < j < |rules| ==> rules[i].loc.end <= rules[j].loc.begin)
    && |unclassified| <= |texts| && unclassified == texts[..|unclassified|]
    && (|rules| == 0 ==> |unclassified| == |texts|)
    && (|rules| > 0 ==> EndOf(unclassified) <= rules[0].loc.begin)
    && LinesIn(rules) + |unclassified| == |texts|
  }

  lemma LinesInLast(rules: seq<Rule>, r: Rule)
    requires |rules| > 0
    ensures var n := |rules| - 1; var rs := rules[..n] + [r];
      LinesIn(rs) == LinesIn(rules) - |rules[n].recipe| - |rules[n].unclassifiedLines| + |r.recipe| + |r.unclassifiedLines|
  {
    var n := |rules| - 1;
    assert (rules[..n] + [r])[..n] == rules[..n];
  }

  /** A line attached to the last rule, as a recipe line or an unclassified line, keeps the arrangement. */
  lemma AttachKeepsArranged(pre: seq<TextWithLoc>, rules: seq<Rule>, unclassified: seq<TextWithLoc>, t: TextWithLoc, r: Rule)
    requires Arranged(pre, rules, unclassified) && |rules| > 0
    requires EndOf(pre) <= t.loc.begin <= t.loc.end
    requires var last := rules[|rules| - 1];
      r.loc == last.loc.(end := t.loc.end)
      && ((r.recipe == last.recipe && |r.unclassifiedLines| == |last.unclassifiedLines| + 1)
          || (r.unclassifiedLines == last.unclassifiedLines && |r.recipe| == |last.recipe| + 1))
      && (forall j :: 0 <= j < |r.recipe| ==>
            ((j < |last.recipe| && r.recipe[j] == last.recipe[j])
             || (t.loc.begin <= r.recipe[j].loc.begin && r.recipe[j].loc.end <= t.loc.end)))
      && (forall j :: 0 <= j < |r.unclassifiedLines| ==>
            ((j < |last.unclassifiedLines| && r.unclassifiedLines[j] == last.unclassifiedLines[j])
             || (t.loc.begin <= r.unclassifiedLines[j].loc.begin && r.unclassifiedLines[j].loc.end <= t.loc.end)))
    ensures Arranged(pre + [t], rules[..|rules| - 1] + [r], unclassified)
  {
    var n := |rules| - 1;
    var rs := rules[..n] + [r];
    LinesInLast(rules, r);
    assert Covers(rules[n]);
    assert Covers(r);
    assert (pre + [t])[..|unclassified|] == pre[..|unclassified|];
    forall i, j | 0 <= i < j < |rs|
      ensures rs[i].loc.end <= rs[j].loc.begin
    {
      assert rs[i] == rules[i];
    }
  }

  /** A new rule keeps the arrangement. */
  lemma NewRuleKeepsArranged(pre: seq<TextWithLoc>, rules: seq<Rule>, unclassified: seq<TextWithLoc>, t: TextWithLoc, r: Rule)
    requires Arranged(pre, rules, unclassified)
    requires EndOf(pre) <= t.loc.begin
    requires r.loc.begin == t.loc.begin <= r.loc.end <= t.loc.end && r.recipe == [] && r.unclassifiedLines == []
    ensures Arranged(pre + [t], rules + [r], unclassified)
  {
    assert (rules + [r])[..|rules|] == rules;
    assert (pre + [t])[..|unclassified|] == pre[..|unclassified|];
    if |unclassified| > 0 {
      assert EndOf(unclassified) <= EndOf(pre) by {
        assert unclassified[|unclassified| - 1] == pre[|unclassified| - 1];
      }
    }
  }

  /** A top-level unclassified line before any rule keeps the arrangement. */
  lemma TopLevelKeepsArranged(pre: seq<TextWithLoc>, unclassified: seq<TextWithLoc>, t: TextWithLoc)
    requires Arranged(pre, [], unclassified)
    ensures Arranged(pre + [t], [], unclassified + [t])
  {
    assert unclassified == pre;
  }

  lemma ChainedPrefix(texts: seq<TextWithLoc>)
    requires Chained(texts) && |texts| > 0
    ensures var n := |texts| - 1;
      Chained(texts[..n]) && Sized(texts[n]) && EndOf(texts[..n]) <= texts[n].loc.begin <= texts[n].loc.end
  {
  }

  /** One classified line keeps the arrangement. */
  lemma ClassifyLineArranged(pre: seq<TextWithLoc>, rules: seq<Rule>, unclassified: seq<TextWithLoc>, t: TextWithLoc)
    requires Arranged(pre, rules, unclassified) && Sized(t)
    requires EndOf(pre) <= t.loc.begin <= t.loc.end
    ensures var c := ClassifyLine(rules, unclassified, t); Arranged(pre + [t], c.0, c.1)
  {
    if |rules| > 0 && RecipeOf(t).Some? {
      var last := rules[|rules| - 1];
      var r := last.(loc := last.loc.(end := t.loc.end), recipe := last.recipe + [RecipeOf(t).value]);
      AttachKeepsArranged(pre, rules, unclassified, t, r);
    } else if RuleOf(t).Some? {
      NewRuleKeepsArranged(pre, rules, unclassified, t, RuleOf(t).value);
    } else if |rules| > 0 {
      var last := rules[|rules| - 1];
      var r := last.(loc := last.loc.(end := t.loc.end), unclassifiedLines := last.unclassifiedLines + [t]);
      AttachKeepsArranged(pre, rules, unclassified, t, r);
    } else {
      TopLevelKeepsArranged(pre, unclassified, t);
    }
  }

  /**
   * Classifying chained lines: every line is accounted for exactly once,
   * the rules follow one another in the file, each rule's location spans
   * its recipe and unclassified lines, and the top-level unclassified
   * lines are the lines before the first rule.
   */
  lemma {:induction false} ClassifySpec(texts: seq<TextWithLoc>)
    requires Chained(texts)
    ensures var c := Classify(texts); Arranged(texts, c.0, c.1)
  {
    if |texts| > 0 {
      var n := |texts| - 1;
      var pre := texts[..n];
      ChainedPrefix(texts);
      ClassifySpec(pre);
      ClassifyLastArranged(texts, Classify(pre).0, Classify(pre).1);
    }
  }

  /** Classifying the last line keeps the arrangement of the lines before it. */
  lemma ClassifyLastArranged(texts: seq<TextWithLoc>, rules: seq<Rule>, unclassified: seq<TextWithLoc>)
    requires |texts| > 0
    requires var n := |texts| - 1;
      Arranged(texts[..n], rules, unclassified) && Sized(texts[n]) && EndOf(texts[..n]) <= texts[n].loc.begin <= texts[n].loc.end
    ensures var c := ClassifyLine(rules, unclassified, texts[|texts| - 1]); Arranged(texts, c.0, c.1)
  {
    var n := |texts| - 1;
    ClassifyLineArranged(texts[..n], rules, unclassified, texts[n]);
    assert texts[..n] + [texts[n]] == texts;
  }

  /** The bytes read as characters, one per byte. */
  function Chars(v: Bytes): (r: string)
    ensures |r| == |v| && forall i :: 0 <= i < |v| ==> r[i] as int == v[i]
  {
    seq(|v|, i requires 0 <= i < |v| => v[i] as char)
  }

  /** GNU make's special built-in target names. */
  const BUILTIN_TARGETS: seq<string> := [
    ".DEFAULT", ".DELETE_ON_ERROR", ".EXPORT_ALL_VARIABLES", ".IGNORE",
    ".INTERMEDIATE", ".LOW_RESOLUTION_TIME", ".NOTINTERMEDIATE", ".NOTPARALLEL",
    ".ONESHELL", ".PHONY", ".POSIX", ".PRECIOUS",
    ".SECONDARY", ".SECONDEXPANSION", ".SILENT", ".SUFFIXES"]

  predicate IsBuiltin(v: Bytes)
  {
    Chars(v) in BUILTIN_TARGETS
  }

  predicate IsPhony(v: Bytes)
  {
    Chars(v) == ".PHONY"
  }

  /** The rule declares phony targets: one of its targets is `.PHONY`. */
  predicate IsPhonyRule(r: Rule)
  {
    exists j :: 0 <= j < |r.targets| && IsPhony(r.targets[j].value)
  }

  function RuleBuiltins(r: Rule): set<Bytes>
  {
    set t | t in r.targets && IsBuiltin(t.value) :: t.value
  }

  function RulePhonies(r: Rule): set<Bytes>
  {
    if IsPhonyRule(r) then set p | p in r.prereqs :: p.value else {}
  }

  function BuiltinTargetsOf(rules: seq<Rule>): set<Bytes>
  {
    if |rules| == 0 then {} else BuiltinTargetsOf(rules[..|rules| - 1]) + RuleBuiltins(rules[|rules| - 1])
  }

  function PhonyTargetsOf(rules: seq<Rule>): set<Bytes>
  {
    if |rules| == 0 then {} else PhonyTargetsOf(rules[..|rules| - 1]) + RulePhonies(rules[|rules| - 1])
  }

  lemma RuleBuiltinsSpec(r: Rule, b: Bytes)
    ensures b in RuleBuiltins(r) <==> IsBuiltin(b) && exists j :: 0 <= j < |r.targets| && r.targets[j].value == b
  {
    if b in RuleBuiltins(r) {
      var t :| t in r.targets && IsBuiltin(t.value) && t.value == b;
      var j :| 0 <= j < |r.targets| && r.targets[j] == t;
    }
    if IsBuiltin(b) && exists j :: 0 <= j < |r.targets| && r.targets[j].value == b {
      var j :| 0 <= j < |r.targets| && r.targets[j].value == b;
      assert r.targets[j] in r.targets;
    }
  }

  /** The built-in targets are exactly the built-in names that some rule has as a target. */
  lemma {:induction false} BuiltinTargetsSpec(rules: seq<Rule>, b: Bytes)
    ensures b in BuiltinTargetsOf(rules) <==>
      IsBuiltin(b) && exists k, j :: 0 <= k < |rules| && 0 <= j < |rules[k].targets| && rules[k].targets[j].value == b
  {
    if |rules| > 0 {
      var n := |rules| - 1;
      BuiltinTargetsSpec(rules[..n], b);
      RuleBuiltinsSpec(rules[n], b);
      if exists k, j :: 0 <= k < |rules| && 0 <= j < |rules[k].targets| && rules[k].targets[j].value == b {
        var k, j :| 0 <= k < |rules| && 0 <= j < |rules[k].targets| && rules[k].targets[j].value == b;
        if k < n {
          assert rules[..n][k] == rules[k];
        }
      }
    }
  }

  /** The phony targets are exactly the prerequisites of the rules that have `.PHONY` as a target. */
  lemma {:induction false} PhonyTargetsSpec(rules: seq<Rule>, p: Bytes)
    ensures p in PhonyTargetsOf(rules) <==>
      exists k, j :: 0 <= k < |rules| && IsPhonyRule(rules[k]) && 0 <= j < |rules[k].prereqs| && rules[k].prereqs[j].value == p
  {
    if |rules| > 0 {
      var n := |rules| - 1;
      PhonyTargetsSpec(rules[..n], p);
      if p in RulePhonies(rules[n]) {
        var q :| q in rules[n].prereqs && q.value == p;
        var j :| 0 <= j < |rules[n].prereqs| && rules[n].prereqs[j] == q;
        assert rules[n].prereqs[j].value == p;
      }
      if exists k, j :: 0 <= k < |rules| && IsPhonyRule(rules[k]) && 0 <= j < |rules[k].prereqs| && rules[k].prereqs[j].value == p {
        var k, j :| 0 <= k < |rules| && IsPhonyRule(rules[k]) && 0 <= j < |rules[k].prereqs| && rules[k].prereqs[j].value == p;
        if k < n {
          assert rules[..n][k] == rules[k];
        } else {
          assert rules[n].prereqs[j] in rules[n].prereqs;
        }
      }
    }
  }

  /** What `parse` returns for a makefile with contents `contents`. */
  function ParseSpec(contents: Bytes): Makefile
  {
    var c := Classify(LineTexts(Joined(ReadLines(contents))));
    Makefile(c.0, c.1, BuiltinTargetsOf(c.0), PhonyTargetsOf(c.0))
  }

  /** The next line is located at the end of the lines before it. */
  lemma LineTextsSnoc(lines: seq<Bytes>, k: nat, texts: seq<TextWithLoc>, filePos: nat, t: TextWithLoc)
    requires k < |lines| && texts == LineTexts(lines[..k]) && filePos == |Concat(lines[..k])|
    requires t == TextWithLoc(SourceLoc(filePos, filePos + |lines[k]|), lines[k], None)
    ensures texts + [t] == LineTexts(lines[..k + 1])
    ensures filePos + |lines[k]| == |Concat(lines[..k + 1])|
  {
    assert lines[..k + 1][..k] == lines[..k];
  }

  /** The body of `parse`'s second loop: the line is a recipe line, a rule, or an unclassified line. */
  method ClassifyOne(rules0: seq<Rule>, unclassified0: seq<TextWithLoc>, lineWithLoc: TextWithLoc)
    returns (rules: seq<Rule>, unclassified: seq<TextWithLoc>)
    requires Sized(lineWithLoc)
    ensures (rules, unclassified) == ClassifyLine(rules0, unclassified0, lineWithLoc)
  {
    rules, unclassified := rules0, unclassified0;
    var end := lineWithLoc.loc.end;
    var recipe: Option<RecipeLine> := None;
    if |rules| > 0 {
      recipe := ParseRecipeLine(lineWithLoc);
    }
    if recipe.Some? {
      var rule := rules[|rules| - 1];
      rules := rules[..|rules| - 1] + [rule.(loc := rule.loc.(end := end), recipe := rule.recipe + [recipe.value])];
    } else {
      var rule := ParseRuleLine(lineWithLoc);
      if rule.Some? {
        rules := rules + [rule.value];
      } else if |rules| > 0 {
        var last := rules[|rules| - 1];
        rules := rules[..|rules| - 1]
          + [last.(loc := last.loc.(end := end), unclassifiedLines := last.unclassifiedLines + [lineWithLoc])];
      } else {
        unclassified := unclassified + [lineWithLoc];
      }
    }
  }

  /** `parse`, second loop: each line, with its location, is classified in turn. */
  method ClassifyLines(lines: seq<Bytes>) returns (rules: seq<Rule>, unclassified: seq<TextWithLoc>)
    ensures (rules, unclassified) == Classify(LineTexts(lines))
  {
    rules := [];
    unclassified := [];
    var filePos := 0;
    ghost var texts: seq<TextWithLoc> := [];
    for k := 0 to |lines|
      invariant filePos == |Concat(lines[..k])|
      invariant texts == LineTexts(lines[..k])
      invariant (rules, unclassified) == Classify(texts)
    {
      var line := lines[k];
      var lineWithLoc := TextWithLoc(SourceLoc(filePos, filePos + |line|), line, None);
      LineTextsSnoc(lines, k, texts, filePos, lineWithLoc);
      ClassifySnoc(texts, lineWithLoc);
      rules, unclassified := ClassifyOne(rules, unclassified, lineWithLoc);
      texts := texts + [lineWithLoc];
      filePos := filePos + |line|;
    }
    assert lines[..|lines|] == lines;
  }

  /** `parse`, third loop: the names of the built-in and the phony targets. */
  method CollectTargets(rules: seq<Rule>) returns (builtinTargets: set<Bytes>, phonyTargets: set<Bytes>)
    ensures builtinTargets == BuiltinTargetsOf(rules) && phonyTargets == PhonyTargetsOf(rules)
  {
    builtinTargets := {};
    phonyTargets := {};
    for k := 0 to |rules|
      invariant builtinTargets == BuiltinTargetsOf(rules[..k])
      invariant phonyTargets == PhonyTargetsOf(rules[..k])
    {
      assert rules[..k + 1][..k] == rules[..k];
      var rule := rules[k];
      builtinTargets := builtinTargets + (set t | t in rule.targets && IsBuiltin(t.value) :: t.value);
      if exists j :: 0 <= j < |rule.targets| && IsPhony(rule.targets[j].value) {
        phonyTargets := phonyTargets + (set p | p in rule.prereqs :: p.value);
      }
    }
    assert rules[..|rules|] == rules;
  }

  /**
   * `parse`: the file's lines, with continuations joined, are classified
   * one by one, then the built-in and phony targets are collected. The
   * file's contents are a parameter.
   */
  method Parse(contents: Bytes) returns (mk: Makefile)
    ensures mk == ParseSpec(contents)
  {
    var lines := JoinContinuations(ReadLines(contents));
    var rules, unclassified := ClassifyLines(lines);
    var builtinTargets, phonyTargets := CollectTargets(rules);
    mk := Makefile(rules, unclassified, builtinTargets, phonyTargets);
  }

  /**
   * The parsed makefile: the joined file has the length of the original,
   * every line is counted exactly once among the rules and the top-level
   * unclassified lines, the rules follow one another and cover their
   * lines, the top-level unclassified lines are the file's first lines and
   * each is the bytes at its location.
   */
  lemma ParseSpecArranged(contents: Bytes)
    ensures var lines := Joined(ReadLines(contents)); var mk := ParseSpec(contents);
      |Concat(lines)| == |contents|
      && Arranged(LineTexts(lines), mk.rules, mk.unclassifiedLines)
      && forall k :: 0 <= k < |mk.unclassifiedLines| ==> Located(Concat(lines), mk.unclassifiedLines[k])
  {
    var raw := ReadLines(contents);
    var lines := Joined(raw);
    ReadLinesConcat(contents);
    JoinedSpacedOut(raw);
    LineTextsSpec(lines);
    ClassifySpec(LineTexts(lines));
  }
}
