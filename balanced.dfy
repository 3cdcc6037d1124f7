/**
 * The balanced-bracket pass of `cvise/passes/balanced.py`: a left-to-right
 * scan that matches open and close brackets with a stack and proposes, for
 * every matched pair, a hint deleting the pair, only its two brackets, or
 * what lies between them.
 */
module Balanced {
  import opened Common
  import opened HintModel

  /** What a hint removes around a matched pair. */
  datatype Deletion = All | Only | Inside

  /**
   * `Config`. The two bytes of the bracket pair are given directly;
   * `replacement` is the encoded replacement text (empty for none) and
   * `searchPrefix` the prefix regex (empty for none).
   */
  datatype Config = Config(openCh: Byte, closeCh: Byte, toDelete: Deletion, replacement: Bytes,
                           searchPrefix: string)

  /** The `(start, end)` span of one regex match. */
  type Span = (nat, nat)

  /**
   * What `re.finditer` reports: each span starts no later than it ends, and
   * the matches come left to right, so their ends never decrease.
   */
  ghost predicate MatchSpans(spans: seq<Span>)
  {
    (forall k :: 0 <= k < |spans| ==> spans[k].0 <= spans[k].1)
    && forall i, j :: 0 <= i < j < |spans| ==> spans[i].1 <= spans[j].1
  }

  /** The index of the first match ending at `pos`, or `|spans|` when there is none. */
  function FirstEndingAt(spans: seq<Span>, pos: nat): (k: nat)
    ensures k <= |spans|
    ensures forall j :: 0 <= j < k ==> spans[j].1 != pos
    ensures k < |spans| ==> spans[k].1 == pos
  {
    if |spans| == 0 then 0
    else if spans[0].1 == pos then 0
    else 1 + FirstEndingAt(spans[1..], pos)
  }

  /** `get_touching_prefix`, specified: the start of the first match that ends exactly at `pos`. */
  function Touching(spans: seq<Span>, pos: nat): Option<nat>
  {
    var k := FirstEndingAt(spans, pos);
    if k < |spans| then Some(spans[k].0) else None
  }

  /**
   * The entry pushed for an open bracket at `pos`: the position itself, or,
   * with a search prefix, the start of the prefix touching it (`None` for a
   * "bad" bracket that no prefix touches).
   */
  function StartOf(cfg: Config, spans: seq<Span>, pos: nat): Option<nat>
  {
    if |cfg.searchPrefix| > 0 then Touching(spans, pos) else Some(pos)
  }

  /** With a prefix, a start exists exactly when some match ends at the bracket, and it lies before it. */
  lemma StartOfSpec(cfg: Config, spans: seq<Span>, pos: nat)
    requires MatchSpans(spans)
    ensures var s := StartOf(cfg, spans, pos);
      (s.Some? ==> s.value <= pos)
      && (|cfg.searchPrefix| == 0 ==> s == Some(pos))
      && (|cfg.searchPrefix| > 0 ==>
            (s.Some? <==> exists k :: 0 <= k < |spans| && spans[k].1 == pos)
            && (s.Some? ==> exists k :: 0 <= k < |spans| && spans[k] == (s.value, pos)))
  {
    var k := FirstEndingAt(spans, pos);
    if k < |spans| {
      assert spans[k].0 <= spans[k].1;
    }
  }

  /**
   * `get_touching_prefix`: the cursor skips the matches ending before `pos`;
   * the match under the cursor is used if it ends exactly at `pos`.
   */
  method GetTouchingPrefix(spans: seq<Span>, pos: nat, cursor: nat) returns (start: Option<nat>, next: nat)
    requires MatchSpans(spans)
    requires cursor <= |spans| && forall k :: 0 <= k < cursor ==> spans[k].1 < pos
    ensures start == Touching(spans, pos)
    ensures cursor <= next <= |spans| && forall k :: 0 <= k < next ==> spans[k].1 < pos
  {
    next := cursor;
    while next < |spans| && spans[next].1 < pos
      invariant cursor <= next <= |spans|
      invariant forall k :: 0 <= k < next ==> spans[k].1 < pos
    {
      next := next + 1;
    }
    var k := FirstEndingAt(spans, pos);
    if next < |spans| && spans[next].1 == pos {
      assert k == next;
      start := Some(spans[next].0);
    } else {
      assert forall j :: next <= j < |spans| ==> spans[next].1 <= spans[j].1;
      start := None;
    }
  }

  /** The one patch shape of the pass: a deletion of `[left, right)` in the file `fileId`. */
  function Cut(fileId: Option<nat>, left: int, right: int, value: Option<nat>): Patch
  {
    Patch(fileId, Some(left), Some(right), None, value)
  }

  /**
   * `create_hint`. No hint for a bad bracket, nor in mode `Inside` when
   * nothing lies between the brackets.
   */
  function CreateHint(cfg: Config, fileId: Option<nat>, start: Option<nat>, close: nat): (r: Option<Hint>)
    ensures r.None? <==> start.None? || (cfg.toDelete == Inside && close - start.value <= 1)
    ensures r.Some? ==> r.value.hintType.None? && r.value.extra.None? && |r.value.patches| > 0
    ensures r.Some? ==> forall p :: p in r.value.patches ==>
      p.path == fileId && p.operation.None? && Positioned(p)
      && p.value == (if cfg.toDelete == All && |cfg.replacement| > 0 then Some(0) else None)
  {
    if start.None? then None
    else
      var s := start.value;
      match cfg.toDelete
      case All =>
        Some(Hint(None, [Cut(fileId, s, close + 1, if |cfg.replacement| > 0 then Some(0) else None)], None))
      case Only =>
        Some(Hint(None, [Cut(fileId, s, s + 1, None), Cut(fileId, close, close + 1, None)], None))
      case Inside =>
        if close - s <= 1 then None
        else Some(Hint(None, [Cut(fileId, s + 1, close, None)], None))
  }

  /** Position `i` lies inside one of the hint's patches. */
  ghost predicate Deletes(h: Hint, i: int)
  {
    exists p :: p in h.patches && Positioned(p) && p.left.value <= i < p.right.value
  }

  /**
   * The bytes a hint removes: the whole pair with everything between
   * (`All`), just the two brackets (`Only`), or just what lies strictly
   * between them (`Inside`).
   */
  lemma CreateHintDeletes(cfg: Config, fileId: Option<nat>, s: nat, c: nat, i: int)
    requires s < c
    requires CreateHint(cfg, fileId, Some(s), c).Some?
    ensures var h := CreateHint(cfg, fileId, Some(s), c).value;
      Deletes(h, i) <==> match cfg.toDelete
        case All => s <= i <= c
        case Only => i == s || i == c
        case Inside => s < i < c
  {
    var h := CreateHint(cfg, fileId, Some(s), c).value;
    match cfg.toDelete
    case All =>
      if s <= i <= c {
        assert h.patches[0] in h.patches;
      }
    case Only =>
      if i == s {
        assert h.patches[0] in h.patches;
      } else if i == c {
        assert h.patches[1] in h.patches;
      }
    case Inside =>
      if s < i < c {
        assert h.patches[0] in h.patches;
      }
  }

  /** `+1` for an open bracket, `-1` for a close one (open wins if both are the same byte). */
  function Delta(cfg: Config, ch: Byte): int
  {
    if ch == cfg.openCh then 1 else if ch == cfg.closeCh then -1 else 0
  }

  /** Open brackets minus close brackets in `contents[a..b]`. */
  function Depth(cfg: Config, contents: Bytes, a: nat, b: nat): int
    requires a <= b <= |contents|
    decreases b
  {
    if a == b then 0 else Depth(cfg, contents, a, b - 1) + Delta(cfg, contents[b - 1])
  }

  /** `contents[a..b]` is balanced: as many opens as closes, and no prefix closes more than it opened. */
  ghost predicate BalancedBetween(cfg: Config, contents: Bytes, a: nat, b: nat)
    requires a <= b <= |contents|
  {
    Depth(cfg, contents, a, b) == 0 && NeverBelowZero(cfg, contents, a, b)
  }

  /** No prefix of `contents[a..b]` closes more brackets than it opens. */
  ghost predicate NeverBelowZero(cfg: Config, contents: Bytes, a: nat, b: nat)
    requires a <= b <= |contents|
  {
    forall j :: a <= j <= b ==> Depth(cfg, contents, a, j) >= 0
  }

  /**
   * The scan after some bytes: the positions of the open brackets still on
   * the stack, the hints made so far, and for each hint the open and close
   * positions it came from.
   */
  datatype Scan = Scan(opens: seq<nat>, hints: seq<Hint>, pairs: seq<(nat, nat)>)

  /** One byte of the scan: an open bracket pushes; a close bracket pops if the stack is not empty. */
  function StepAt(cfg: Config, fileId: Option<nat>, contents: Bytes, spans: seq<Span>, s: Scan, pos: nat): Scan
    requires pos < |contents|
  {
    var ch := contents[pos];
    if ch == cfg.openCh then s.(opens := s.opens + [pos])
    else if ch == cfg.closeCh && |s.opens| > 0 then
      var e := s.opens[|s.opens| - 1];
      var h := CreateHint(cfg, fileId, StartOf(cfg, spans, e), pos);
      Scan(s.opens[..|s.opens| - 1],
           s.hints + (if h.Some? then [h.value] else []),
           s.pairs + (if h.Some? then [(e, pos)] else []))
    else s
  }

  /** The scan of `contents[..n]`. */
  function ScanTo(cfg: Config, fileId: Option<nat>, contents: Bytes, spans: seq<Span>, n: nat): Scan
    requires n <= |contents|
  {
    if n == 0 then Scan([], [], [])
    else StepAt(cfg, fileId, contents, spans, ScanTo(cfg, fileId, contents, spans, n - 1), n - 1)
  }

  /** Hint `h` comes from the open bracket at `pair.0` matched with the close bracket at `pair.1`. */
  ghost predicate MatchedPair(cfg: Config, fileId: Option<nat>, contents: Bytes, spans: seq<Span>,
                              pair: (nat, nat), h: Hint)
  {
    var e, c := pair.0, pair.1;
    e < c < |contents| && contents[e] == cfg.openCh && contents[c] == cfg.closeCh && contents[c] != cfg.openCh
    && BalancedBetween(cfg, contents, e + 1, c)
    && CreateHint(cfg, fileId, StartOf(cfg, spans, e), c) == Some(h)
  }

  /**
   * What the scan keeps: every stacked position holds an open bracket, and
   * the bytes after the `i`-th one never close more than they open and
   * leave exactly the brackets above it open; every hint comes from a
   * matched pair.
   */
  ghost predicate ScanInv(cfg: Config, fileId: Option<nat>, contents: Bytes, spans: seq<Span>, n: nat, s: Scan)
    requires n <= |contents|
  {
    (forall i :: 0 <= i < |s.opens| ==>
       s.opens[i] < n && contents[s.opens[i]] == cfg.openCh
       && Depth(cfg, contents, s.opens[i] + 1, n) == |s.opens| - 1 - i
       && NeverBelowZero(cfg, contents, s.opens[i] + 1, n))
    && |s.pairs| == |s.hints|
    && forall k :: 0 <= k < |s.pairs| ==> MatchedPair(cfg, fileId, contents, spans, s.pairs[k], s.hints[k])
  }

  lemma ScanStep(cfg: Config, fileId: Option<nat>, contents: Bytes, spans: seq<Span>, n: nat, s: Scan)
    requires n < |contents| && ScanInv(cfg, fileId, contents, spans, n, s)
    ensures ScanInv(cfg, fileId, contents, spans, n + 1, StepAt(cfg, fileId, contents, spans, s, n))
  {
    if contents[n] == cfg.openCh {
      ScanStepOpen(cfg, fileId, contents, spans, n, s);
    } else if contents[n] == cfg.closeCh && |s.opens| > 0 {
      ScanStepClose(cfg, fileId, contents, spans, n, s);
    } else {
      ScanStepOther(cfg, fileId, contents, spans, n, s);
    }
  }

  /** An open bracket is pushed; the brackets below it are one level deeper. */
  lemma ScanStepOpen(cfg: Config, fileId: Option<nat>, contents: Bytes, spans: seq<Span>, n: nat, s: Scan)
    requires n < |contents| && ScanInv(cfg, fileId, contents, spans, n, s) && contents[n] == cfg.openCh
    ensures ScanInv(cfg, fileId, contents, spans, n + 1, StepAt(cfg, fileId, contents, spans, s, n))
  {
    var t := StepAt(cfg, fileId, contents, spans, s, n);
    var o := s.opens;
    forall i | 0 <= i < |t.opens|
      ensures Depth(cfg, contents, t.opens[i] + 1, n + 1) == |t.opens| - 1 - i
      ensures NeverBelowZero(cfg, contents, t.opens[i] + 1, n + 1)
    {
      if i < |o| {
        assert t.opens[i] == o[i];
      }
    }
  }

  /** A close bracket pops the innermost open one, which it balances. */
  lemma ScanStepClose(cfg: Config, fileId: Option<nat>, contents: Bytes, spans: seq<Span>, n: nat, s: Scan)
    requires n < |contents| && ScanInv(cfg, fileId, contents, spans, n, s)
    requires contents[n] != cfg.openCh && contents[n] == cfg.closeCh && |s.opens| > 0
    ensures ScanInv(cfg, fileId, contents, spans, n + 1, StepAt(cfg, fileId, contents, spans, s, n))
  {
    var t := StepAt(cfg, fileId, contents, spans, s, n);
    var o := s.opens;
    var e := o[|o| - 1];
    assert BalancedBetween(cfg, contents, e + 1, n);
    forall i | 0 <= i < |t.opens|
      ensures Depth(cfg, contents, t.opens[i] + 1, n + 1) == |t.opens| - 1 - i
      ensures NeverBelowZero(cfg, contents, t.opens[i] + 1, n + 1)
    {
      assert t.opens[i] == o[i];
    }
  }

  /** Any other byte leaves the stack and the hints as they are. */
  lemma ScanStepOther(cfg: Config, fileId: Option<nat>, contents: Bytes, spans: seq<Span>, n: nat, s: Scan)
    requires n < |contents| && ScanInv(cfg, fileId, contents, spans, n, s)
    requires contents[n] != cfg.openCh && (contents[n] != cfg.closeCh || |s.opens| == 0)
    ensures ScanInv(cfg, fileId, contents, spans, n + 1, StepAt(cfg, fileId, contents, spans, s, n))
  {
    var o := s.opens;
    forall i | 0 <= i < |o|
      ensures Depth(cfg, contents, o[i] + 1, n + 1) == |o| - 1 - i
    {
    }
  }

  /** The scan of any prefix keeps `ScanInv`. */
  lemma {:induction false} ScanInvariant(cfg: Config, fileId: Option<nat>, contents: Bytes, spans: seq<Span>, n: nat)
    requires n <= |contents|
    ensures ScanInv(cfg, fileId, contents, spans, n, ScanTo(cfg, fileId, contents, spans, n))
  {
    if n > 0 {
      ScanInvariant(cfg, fileId, contents, spans, n - 1);
      ScanStep(cfg, fileId, contents, spans, n - 1, ScanTo(cfg, fileId, contents, spans, n - 1));
    }
  }

  /**
   * Every hint of the file comes from an open bracket matched with a later
   * close bracket, with balanced bytes between them; with a search prefix,
   * a match of the prefix ends exactly at that open bracket.
   */
  lemma HintsFromMatchedPairs(cfg: Config, fileId: Option<nat>, contents: Bytes, spans: seq<Span>)
    requires MatchSpans(spans)
    ensures var s := ScanTo(cfg, fileId, contents, spans, |contents|);
      |s.pairs| == |s.hints|
      && forall k :: 0 <= k < |s.pairs| ==>
           MatchedPair(cfg, fileId, contents, spans, s.pairs[k], s.hints[k])
           && (|cfg.searchPrefix| > 0 ==> exists m :: 0 <= m < |spans| && spans[m].1 == s.pairs[k].0)
  {
    var s := ScanTo(cfg, fileId, contents, spans, |contents|);
    ScanInvariant(cfg, fileId, contents, spans, |contents|);
    forall k | 0 <= k < |s.pairs|
      ensures MatchedPair(cfg, fileId, contents, spans, s.pairs[k], s.hints[k])
      ensures |cfg.searchPrefix| > 0 ==> exists m :: 0 <= m < |spans| && spans[m].1 == s.pairs[k].0
    {
      assert MatchedPair(cfg, fileId, contents, spans, s.pairs[k], s.hints[k]);
      var e := s.pairs[k].0;
      StartOfSpec(cfg, spans, e);
      assert StartOf(cfg, spans, e).Some?;
    }
  }

  /**
   * Over bytes that never close more brackets than they open, the stack
   * keeps what it held and grows by their depth.
   */
  lemma {:induction false} StackKept(cfg: Config, fileId: Option<nat>, contents: Bytes, spans: seq<Span>, a: nat, b: nat)
    requires a <= b <= |contents| && NeverBelowZero(cfg, contents, a, b)
    ensures var sa, sb := ScanTo(cfg, fileId, contents, spans, a).opens, ScanTo(cfg, fileId, contents, spans, b).opens;
      |sb| == |sa| + Depth(cfg, contents, a, b) && sb[..|sa|] == sa
    decreases b
  {
    if b > a {
      assert NeverBelowZero(cfg, contents, a, b - 1) by {
        forall j | a <= j <= b - 1 ensures Depth(cfg, contents, a, j) >= 0 { }
      }
      StackKept(cfg, fileId, contents, spans, a, b - 1);
      assert Depth(cfg, contents, a, b) >= 0;
      var sa := ScanTo(cfg, fileId, contents, spans, a).opens;
      var prev := ScanTo(cfg, fileId, contents, spans, b - 1).opens;
      var sb := ScanTo(cfg, fileId, contents, spans, b).opens;
      if contents[b - 1] == cfg.openCh {
        assert sb == prev + [b - 1];
        assert sb[..|sa|] == prev[..|sa|];
      } else if contents[b - 1] == cfg.closeCh && |prev| > 0 {
        assert sb == prev[..|prev| - 1];
        assert sb[..|sa|] == prev[..|sa|];
      }
    }
  }

  /** Scanning further only appends pairs and hints. */
  lemma {:induction false} ScanGrows(cfg: Config, fileId: Option<nat>, contents: Bytes, spans: seq<Span>, n: nat, m: nat)
    requires n <= m <= |contents|
    ensures var sn, sm := ScanTo(cfg, fileId, contents, spans, n), ScanTo(cfg, fileId, contents, spans, m);
      |sn.pairs| <= |sm.pairs| && sm.pairs[..|sn.pairs|] == sn.pairs
      && |sn.hints| <= |sm.hints| && sm.hints[..|sn.hints|] == sn.hints
    decreases m
  {
    if m > n {
      ScanGrows(cfg, fileId, contents, spans, n, m - 1);
      var sn := ScanTo(cfg, fileId, contents, spans, n);
      var prev := ScanTo(cfg, fileId, contents, spans, m - 1);
      var sm := ScanTo(cfg, fileId, contents, spans, m);
      assert sm.pairs[..|prev.pairs|] == prev.pairs && sm.hints[..|prev.hints|] == prev.hints;
      assert sm.pairs[..|sn.pairs|] == prev.pairs[..|sn.pairs|];
      assert sm.hints[..|sn.hints|] == prev.hints[..|sn.hints|];
    }
  }

  /**
   * Conversely, every open bracket matched by a later close bracket with
   * balanced bytes between them yields its hint: the pair is recorded,
   * with that hint at the same index.
   */
  lemma MatchedPairsFound(cfg: Config, fileId: Option<nat>, contents: Bytes, spans: seq<Span>,
                          e: nat, c: nat, h: Hint)
    requires e < c < |contents| && contents[e] == cfg.openCh
    requires contents[c] == cfg.closeCh && contents[c] != cfg.openCh
    requires BalancedBetween(cfg, contents, e + 1, c)
    requires CreateHint(cfg, fileId, StartOf(cfg, spans, e), c) == Some(h)
    ensures var s := ScanTo(cfg, fileId, contents, spans, |contents|);
      exists k :: 0 <= k < |s.pairs| && k < |s.hints| && s.pairs[k] == (e, c) && s.hints[k] == h
  {
    var before := ScanTo(cfg, fileId, contents, spans, e + 1);
    assert before.opens == ScanTo(cfg, fileId, contents, spans, e).opens + [e];
    StackKept(cfg, fileId, contents, spans, e + 1, c);
    var atClose := ScanTo(cfg, fileId, contents, spans, c);
    assert atClose.opens == before.opens;
    ScanInvariant(cfg, fileId, contents, spans, c);
    var k := |atClose.pairs|;
    var after := ScanTo(cfg, fileId, contents, spans, c + 1);
    assert after.pairs == atClose.pairs + [(e, c)] && after.hints == atClose.hints + [h];
    ScanGrows(cfg, fileId, contents, spans, c + 1, |contents|);
    var s := ScanTo(cfg, fileId, contents, spans, |contents|);
    assert s.pairs[..|after.pairs|][k] == (e, c);
    assert s.hints[..|after.hints|][k] == h;
  }

  /** A close bracket met with an empty stack changes nothing. */
  lemma UnmatchedCloseIgnored(cfg: Config, fileId: Option<nat>, contents: Bytes, spans: seq<Span>, n: nat)
    requires n < |contents| && contents[n] == cfg.closeCh
    requires |ScanTo(cfg, fileId, contents, spans, n).opens| == 0
    ensures ScanTo(cfg, fileId, contents, spans, n + 1).hints == ScanTo(cfg, fileId, contents, spans, n).hints
    ensures ScanTo(cfg, fileId, contents, spans, n + 1).opens == (if cfg.closeCh == cfg.openCh then [n] else [])
  {
  }

  /**
   * Every patch the file's hints hold is a deletion inside the file: it
   * names the file, has a non-empty range within the contents, and carries
   * the value 0 exactly when mode `All` has a replacement.
   */
  lemma PatchesWithinFile(cfg: Config, fileId: Option<nat>, contents: Bytes, spans: seq<Span>)
    requires MatchSpans(spans)
    ensures forall h, p :: h in ScanTo(cfg, fileId, contents, spans, |contents|).hints && p in h.patches ==>
      WithinFile(cfg, fileId, |contents|, p)
  {
    var s := ScanTo(cfg, fileId, contents, spans, |contents|);
    HintsFromMatchedPairs(cfg, fileId, contents, spans);
    forall h | h in s.hints
      ensures forall p :: p in h.patches ==> WithinFile(cfg, fileId, |contents|, p)
    {
      var k :| 0 <= k < |s.hints| && s.hints[k] == h;
      PairPatchesWithinFile(cfg, fileId, contents, spans, s.pairs[k], h);
    }
  }

  /** A patch of the pass for file `fileId` of `size` bytes. */
  ghost predicate WithinFile(cfg: Config, fileId: Option<nat>, size: nat, p: Patch)
  {
    p.path == fileId && p.operation.None? && Positioned(p)
    && 0 <= p.left.value < p.right.value <= size
    && p.value == (if cfg.toDelete == All && |cfg.replacement| > 0 then Some(0) else None)
  }

  lemma PairPatchesWithinFile(cfg: Config, fileId: Option<nat>, contents: Bytes, spans: seq<Span>,
                              pair: (nat, nat), h: Hint)
    requires MatchSpans(spans) && MatchedPair(cfg, fileId, contents, spans, pair, h)
    ensures forall p :: p in h.patches ==> WithinFile(cfg, fileId, |contents|, p)
  {
    StartOfSpec(cfg, spans, pair.0);
  }

  /**
   * The stack of starts the scan keeps beside the open positions: each
   * entry is what `StartOf` gives for its open bracket.
   */
  ghost predicate StartsOf(cfg: Config, spans: seq<Span>, activeStack: seq<Option<nat>>, opens: seq<nat>)
  {
    |activeStack| == |opens| && forall i :: 0 <= i < |opens| ==> activeStack[i] == StartOf(cfg, spans, opens[i])
  }

  /**
   * One iteration of `_generate_hints_for_file`'s loop, at byte `filePos`:
   * the stack of starts and the hints follow `StepAt` on the scan `s`.
   */
  method ScanByte(cfg: Config, fileId: Option<nat>, contents: Bytes, spans: seq<Span>, ghost s: Scan, filePos: nat,
                  prefixesPos0: nat, activeStack0: seq<Option<nat>>, hints0: seq<Hint>, ghost hintsIn: seq<Hint>)
    returns (prefixesPos: nat, activeStack: seq<Option<nat>>, hints: seq<Hint>)
    requires MatchSpans(spans) && filePos < |contents|
    requires prefixesPos0 <= |spans| && forall k :: 0 <= k < prefixesPos0 ==> spans[k].1 < filePos
    requires hints0 == hintsIn + s.hints && StartsOf(cfg, spans, activeStack0, s.opens)
    ensures prefixesPos <= |spans| && forall k :: 0 <= k < prefixesPos ==> spans[k].1 < filePos + 1
    ensures hints == hintsIn + StepAt(cfg, fileId, contents, spans, s, filePos).hints
    ensures StartsOf(cfg, spans, activeStack, StepAt(cfg, fileId, contents, spans, s, filePos).opens)
  {
    prefixesPos, activeStack, hints := prefixesPos0, activeStack0, hints0;
    var ch := contents[filePos];
    if ch == cfg.openCh {
      var start: Option<nat>;
      if |cfg.searchPrefix| > 0 {
        start, prefixesPos := GetTouchingPrefix(spans, filePos, prefixesPos);
      } else {
        start := Some(filePos);
      }
      activeStack := activeStack + [start];
    } else if ch == cfg.closeCh && |activeStack| > 0 {
      var startPos := activeStack[|activeStack| - 1];
      activeStack := activeStack[..|activeStack| - 1];
      var h := CreateHint(cfg, fileId, startPos, filePos);
      if h.Some? {
        hints := hints + [h.value];
      }
    }
  }

  /**
   * `_generate_hints_for_file`: one pass over the bytes with the stack of
   * pending open brackets and the prefix cursor; the file's hints are
   * appended to `hintsIn`.
   */
  method GenerateHintsForFile(cfg: Config, fileId: Option<nat>, contents: Bytes, spans: seq<Span>,
                              hintsIn: seq<Hint>) returns (hints: seq<Hint>)
    requires MatchSpans(spans)
    ensures hints == hintsIn + ScanTo(cfg, fileId, contents, spans, |contents|).hints
  {
    var prefixesPos: nat := 0;
    var activeStack: seq<Option<nat>> := [];
    ghost var scan := Scan([], [], []);
    hints := hintsIn;
    for filePos: nat := 0 to |contents|
      invariant prefixesPos <= |spans| && forall k :: 0 <= k < prefixesPos ==> spans[k].1 < filePos
      invariant scan == ScanTo(cfg, fileId, contents, spans, filePos)
      invariant hints == hintsIn + scan.hints
      invariant StartsOf(cfg, spans, activeStack, scan.opens)
    {
      prefixesPos, activeStack, hints :=
        ScanByte(cfg, fileId, contents, spans, scan, filePos, prefixesPos, activeStack, hints, hintsIn);
      scan := StepAt(cfg, fileId, contents, spans, scan, filePos);
    }
  }

  /** One regular file of a directory test case: its path relative to the directory, its bytes and its prefix matches. */
  datatype FileEntry = FileEntry(relPath: Bytes, contents: Bytes, spans: seq<Span>)

  /** The vocabulary slots taken before any path: the replacement, if there is one. */
  function BaseVocabulary(cfg: Config): (v: seq<Bytes>)
    ensures |cfg.replacement| > 0 ==> v == [cfg.replacement]
    ensures |cfg.replacement| == 0 ==> v == []
  {
    if |cfg.replacement| > 0 then [cfg.replacement] else []
  }

  function RelPaths(files: seq<FileEntry>): (r: seq<Bytes>)
    ensures |r| == |files| && forall k :: 0 <= k < |files| ==> r[k] == files[k].relPath
  {
    if |files| == 0 then [] else RelPaths(files[..|files| - 1]) + [files[|files| - 1].relPath]
  }

  lemma RelPathsSnoc(files: seq<FileEntry>, k: nat)
    requires k < |files|
    ensures RelPaths(files[..k + 1]) == RelPaths(files[..k]) + [files[k].relPath]
  {
    assert files[..k + 1][..k] == files[..k];
  }

  /** The hints of the first `n` files, the `k`-th file having id `base + k`. */
  function DirHints(cfg: Config, files: seq<FileEntry>, base: nat, n: nat): seq<Hint>
    requires n <= |files|
  {
    if n == 0 then []
    else
      var f := files[n - 1];
      DirHints(cfg, files, base, n - 1) + ScanTo(cfg, Some(base + n - 1), f.contents, f.spans, |f.contents|).hints
  }

  /**
   * Every patch of the first `n` files' hints names one of those files and
   * lies within its contents.
   */
  lemma {:induction false} DirPatchesWithinFiles(cfg: Config, files: seq<FileEntry>, base: nat, n: nat)
    requires n <= |files| && forall k :: 0 <= k < |files| ==> MatchSpans(files[k].spans)
    ensures forall h, p :: h in DirHints(cfg, files, base, n) && p in h.patches ==>
      exists k :: 0 <= k < n && WithinFile(cfg, Some(base + k), |files[k].contents|, p)
  {
    if n > 0 {
      DirPatchesWithinFiles(cfg, files, base, n - 1);
      var f := files[n - 1];
      PatchesWithinFile(cfg, Some(base + (n - 1)), f.contents, f.spans);
      forall h, p | h in DirHints(cfg, files, base, n) && p in h.patches
        ensures exists k :: 0 <= k < n && WithinFile(cfg, Some(base + k), |files[k].contents|, p)
      {
        if h !in DirHints(cfg, files, base, n - 1) {
          assert WithinFile(cfg, Some(base + (n - 1)), |files[n - 1].contents|, p);
        }
      }
    }
  }

  /** A test case: a single file, or a directory given as its regular files in walk order. */
  datatype TestCase = SingleFile(contents: Bytes, spans: seq<Span>) | Directory(files: seq<FileEntry>)

  ghost predicate WellFormed(tc: TestCase)
  {
    match tc
    case SingleFile(_, spans) => MatchSpans(spans)
    case Directory(files) => forall k :: 0 <= k < |files| ==> MatchSpans(files[k].spans)
  }

  /** The bundle `generate_hints` returns. */
  function GeneratedBundle(cfg: Config, tc: TestCase): Bundle
  {
    match tc
    case SingleFile(contents, spans) =>
      Bundle(ScanTo(cfg, None, contents, spans, |contents|).hints, "", "", BaseVocabulary(cfg))
    case Directory(files) =>
      Bundle(DirHints(cfg, files, |BaseVocabulary(cfg)|, |files|), "", "", BaseVocabulary(cfg) + RelPaths(files))
  }

  /**
   * `generate_hints`. The replacement, if any, takes vocabulary slot 0 (and
   * is only allowed with mode `All`); in a directory every file's relative
   * path is appended and the file's hints refer to it by that slot.
   */
  method GenerateHints(cfg: Config, tc: TestCase) returns (bundle: Bundle)
    requires |cfg.replacement| > 0 ==> cfg.toDelete == All
    requires WellFormed(tc)
    ensures bundle == GeneratedBundle(cfg, tc)
  {
    var vocabulary := BaseVocabulary(cfg);
    var hints: seq<Hint> := [];
    match tc {
      case SingleFile(contents, spans) =>
        hints := GenerateHintsForFile(cfg, None, contents, spans, hints);
      case Directory(files) =>
        for k := 0 to |files|
          invariant vocabulary == BaseVocabulary(cfg) + RelPaths(files[..k])
          invariant hints == DirHints(cfg, files, |BaseVocabulary(cfg)|, k)
        {
          RelPathsSnoc(files, k);
          vocabulary := vocabulary + [files[k].relPath];
          var fileId := |vocabulary| - 1;
          assert fileId == |BaseVocabulary(cfg)| + k;
          hints := GenerateHintsForFile(cfg, Some(fileId), files[k].contents, files[k].spans, hints);
        }
        assert files[..|files|] == files;
    }
    bundle := Bundle(hints, "", "", vocabulary);
  }

  /**
   * For a single file: a value always refers to the slot holding the
   * replacement, and every patch lies within the file.
   */
  lemma SingleFileReferences(cfg: Config, contents: Bytes, spans: seq<Span>)
    requires MatchSpans(spans)
    ensures var b := GeneratedBundle(cfg, SingleFile(contents, spans));
      forall h, p :: h in b.hints && p in h.patches ==>
        (p.value.Some? ==> p.value.value < |b.vocabulary| && b.vocabulary[p.value.value] == cfg.replacement)
        && WithinFile(cfg, None, |contents|, p)
  {
    var b := GeneratedBundle(cfg, SingleFile(contents, spans));
    PatchesWithinFile(cfg, None, contents, spans);
    forall h, p | h in b.hints && p in h.patches
      ensures p.value.Some? ==> p.value.value < |b.vocabulary| && b.vocabulary[p.value.value] == cfg.replacement
    {
      assert WithinFile(cfg, None, |contents|, p);
    }
  }

  /**
   * For a directory: a value always refers to the slot holding the
   * replacement, and every patch lies within the file it names, which it
   * names by the slot holding that file's relative path.
   */
  lemma DirectoryReferences(cfg: Config, files: seq<FileEntry>)
    requires forall k :: 0 <= k < |files| ==> MatchSpans(files[k].spans)
    ensures var b := GeneratedBundle(cfg, Directory(files));
      forall h, p :: h in b.hints && p in h.patches ==>
        (p.value.Some? ==> p.value.value < |b.vocabulary| && b.vocabulary[p.value.value] == cfg.replacement)
        && exists k :: (0 <= k < |files|
                && WithinFile(cfg, Some(|BaseVocabulary(cfg)| + k), |files[k].contents|, p)
                && b.vocabulary[|BaseVocabulary(cfg)| + k] == files[k].relPath)
  {
    var base := |BaseVocabulary(cfg)|;
    var hints := DirHints(cfg, files, base, |files|);
    var vocabulary := BaseVocabulary(cfg) + RelPaths(files);
    assert GeneratedBundle(cfg, Directory(files)) == Bundle(hints, "", "", vocabulary);
    DirPatchesWithinFiles(cfg, files, base, |files|);
    forall h, p | h in hints && p in h.patches
      ensures p.value.Some? ==> p.value.value < |vocabulary| && vocabulary[p.value.value] == cfg.replacement
      ensures exists k :: (0 <= k < |files| && WithinFile(cfg, Some(base + k), |files[k].contents|, p)
                && vocabulary[base + k] == files[k].relPath)
    {
      var k :| 0 <= k < |files| && WithinFile(cfg, Some(base + k), |files[k].contents|, p);
      DirPatchReference(cfg, files, k, p);
    }
  }

  /** A patch within file `k` names the slot holding that file's path, and its value the replacement. */
  lemma DirPatchReference(cfg: Config, files: seq<FileEntry>, k: nat, p: Patch)
    requires k < |files| && WithinFile(cfg, Some(|BaseVocabulary(cfg)| + k), |files[k].contents|, p)
    ensures var vocabulary := BaseVocabulary(cfg) + RelPaths(files);
      && (p.value.Some? ==> p.value.value < |vocabulary| && vocabulary[p.value.value] == cfg.replacement)
      && vocabulary[|BaseVocabulary(cfg)| + k] == files[k].relPath
  {
  }
}
