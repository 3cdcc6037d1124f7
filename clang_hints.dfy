/**
 * `cvise/passes/clanghints.py`: reading the hint stream `clang_delta
 * --generate-hints` prints, and choosing the C++ standard whose run
 * offers the most hints.
 *
 * The stream is the vocabulary size in decimal and a newline, that many
 * strings each ended by a NUL byte, and then one JSON hint per line.
 * Decoding one JSON line is the `decode` parameter; running `clang_delta`
 * for one standard is the `run` parameter.
 */
module ClangHints {
  import opened Common
  import opened ByteLines
  import opened HintModel

  const NUL: Byte := 0
  const PLUS: Byte := 43
  const MINUS: Byte := 45

  /** `HintBundle(vocabulary=..., hints=...)` as the parser builds it. */
  datatype ParsedBundle = ParsedBundle(vocabulary: seq<Bytes>, hints: seq<Hint>)

  /** `not stdout.strip()`: nothing but ASCII whitespace. */
  predicate IsBlank(s: Bytes)
  {
    forall i :: 0 <= i < |s| ==> IsAsciiSpace(s[i])
  }

  /** `s.index(b, from)`: the first position at or after `from` holding `b`, if any. */
  function Find(s: Bytes, b: Byte, from: nat): (r: Option<nat>)
    ensures r.Some? ==> from <= r.value < |s| && s[r.value] == b
    decreases |s| - from
  {
    if from >= |s| then None
    else if s[from] == b then Some(from)
    else Find(s, b, from + 1)
  }

  /** `Find` skips no `b`: none lies between `from` and the hit, or after `from` at all on a miss. */
  lemma {:induction false} FindFirst(s: Bytes, b: Byte, from: nat)
    ensures Find(s, b, from).Some? ==> forall i :: from <= i < Find(s, b, from).value ==> s[i] != b
    ensures Find(s, b, from).None? ==> forall i :: from <= i < |s| ==> s[i] != b
    decreases |s| - from
  {
    if from < |s| && s[from] != b {
      FindFirst(s, b, from + 1);
    }
  }

  /** The number of bytes `b` at or after `from`. */
  function Count(s: Bytes, b: Byte, from: nat): nat
    decreases |s| - from
  {
    if from >= |s| then 0 else (if s[from] == b then 1 else 0) + Count(s, b, from + 1)
  }

  predicate IsDigitByte(b: Byte)
  {
    48 <= b <= 57
  }

  predicate AllDigits(s: Bytes)
  {
    forall i :: 0 <= i < |s| ==> IsDigitByte(s[i])
  }

  /** The number a run of ASCII digits denotes, most significant first. */
  function DigitsValue(s: Bytes): nat
    requires AllDigits(s)
  {
    if |s| == 0 then 0 else DigitsValue(s[..|s| - 1]) * 10 + (s[|s| - 1] - 48)
  }

  /** `n` in decimal, without leading zeros. */
  function DecimalBytes(n: nat): (s: Bytes)
    ensures |s| > 0 && AllDigits(s)
  {
    if n < 10 then [48 + n] else DecimalBytes(n / 10) + [48 + n % 10]
  }

  lemma {:induction false} DecimalBytesValue(n: nat)
    ensures DigitsValue(DecimalBytes(n)) == n
  {
    if n >= 10 {
      var s := DecimalBytes(n);
      assert s[..|s| - 1] == DecimalBytes(n / 10);
      DecimalBytesValue(n / 10);
    }
  }

  /** The end of `s[..j]` once trailing ASCII whitespace is dropped. */
  function TrimEnd(s: Bytes, j: nat): (k: nat)
    requires j <= |s|
    ensures k <= j && forall i :: k <= i < j ==> IsAsciiSpace(s[i])
    ensures k > 0 ==> !IsAsciiSpace(s[k - 1])
  {
    if j == 0 || !IsAsciiSpace(s[j - 1]) then j else TrimEnd(s, j - 1)
  }

  /**
   * `int(s)` on bytes: optional surrounding whitespace, an optional sign
   * and at least one decimal digit. `None` for anything else, including
   * digits grouped by underscores, which Python would accept.
   */
  function ParseInt(s: Bytes): (r: Option<int>)
  {
    var e := TrimEnd(s, |s|);
    var b := SkipSpaces(s[..e], 0);
    var t := s[b..e];
    if |t| == 0 then None
    else if t[0] == PLUS || t[0] == MINUS then
      if |t| > 1 && AllDigits(t[1..]) then
        var m: int := DigitsValue(t[1..]);
        Some(if t[0] == MINUS then -m else m)
      else None
    else if AllDigits(t) then Some(DigitsValue(t))
    else None
  }

  /** `ParseInt` reads back what `DecimalBytes` writes. */
  lemma ParseIntDecimal(n: nat)
    ensures ParseInt(DecimalBytes(n)) == Some(n)
  {
    var s := DecimalBytes(n);
    assert !IsAsciiSpace(s[|s| - 1]);
    assert TrimEnd(s, |s|) == |s|;
    assert s[..|s|] == s;
    assert SkipSpaces(s, 0) == 0 by {
      assert !IsAsciiSpace(s[0]);
    }
    assert s[0..|s|] == s;
    DecimalBytesValue(n);
  }

  /**
   * The vocabulary loop: `count` strings, each running from the cursor to
   * the next NUL byte, the cursor then moving past the NUL.
   */
  function ReadVocab(s: Bytes, pos: nat, count: nat): (r: Result<(seq<Bytes>, nat)>)
    decreases count
  {
    if count == 0 then Ok(([], pos))
    else
      match Find(s, NUL, pos)
      case None => Err("ValueError: subsection not found")
      case Some(end) =>
        var rest :- ReadVocab(s, end + 1, count - 1);
        Ok(([s[pos..end]] + rest.0, rest.1))
  }

  /** `ws` in front of the strings an outcome read; a failure stays as it is. */
  function WithWords(ws: seq<Bytes>, r: Result<(seq<Bytes>, nat)>): Result<(seq<Bytes>, nat)>
  {
    if r.Err? then r else Ok((ws + r.value.0, r.value.1))
  }

  /** The vocabulary loop of `parse_clang_delta_hints`, from `pos0`. */
  method ReadVocabulary(s: Bytes, pos0: nat, count: nat) returns (r: Result<(seq<Bytes>, nat)>)
    ensures r == ReadVocab(s, pos0, count)
  {
    var vocab: seq<Bytes> := [];
    var pos: nat := pos0;
    if ReadVocab(s, pos0, count).Ok? {
      assert [] + ReadVocab(s, pos0, count).value.0 == ReadVocab(s, pos0, count).value.0;
    }
    for k := 0 to count
      invariant ReadVocab(s, pos0, count) == WithWords(vocab, ReadVocab(s, pos, count - k))
    {
      var end := Find(s, NUL, pos);
      if end.None? {
        return Err("ValueError: subsection not found");
      }
      ReadVocabAdvance(s, pos0, count, k, pos, end.value, vocab);
      vocab := vocab + [s[pos..end.value]];
      pos := end.value + 1;
    }
    assert vocab + [] == vocab;
    return Ok((vocab, pos));
  }

  /** The vocabulary loop's invariant carried over one string. */
  lemma ReadVocabAdvance(s: Bytes, pos0: nat, count: nat, k: nat, pos: nat, end: nat, vocab: seq<Bytes>)
    requires k < count && Find(s, NUL, pos) == Some(end)
    requires ReadVocab(s, pos0, count) == WithWords(vocab, ReadVocab(s, pos, count - k))
    ensures ReadVocab(s, pos0, count) == WithWords(vocab + [s[pos..end]], ReadVocab(s, end + 1, count - k - 1))
  {
    var rest := ReadVocab(s, end + 1, count - k - 1);
    assert ReadVocab(s, pos, count - k) == WithWords([s[pos..end]], rest);
    if rest.Ok? {
      assert vocab + ([s[pos..end]] + rest.value.0) == vocab + [s[pos..end]] + rest.value.0;
    }
  }

  /**
   * The hint loop: while the cursor is inside the stream, the bytes up to
   * the next newline are one hint.
   */
  function ReadHints(s: Bytes, pos: nat, decode: Bytes -> Option<Hint>): (r: Result<seq<Hint>>)
    decreases |s| - pos
  {
    if pos >= |s| then Ok([])
    else
      match Find(s, NEWLINE, pos)
      case None => Err("ValueError: subsection not found")
      case Some(end) =>
        match decode(s[pos..end])
        case None => Err("msgspec.DecodeError")
        case Some(h) =>
          var rest :- ReadHints(s, end + 1, decode);
          Ok([h] + rest)
  }

  /** `hs` in front of the hints an outcome read; a failure stays as it is. */
  function WithHints(hs: seq<Hint>, r: Result<seq<Hint>>): Result<seq<Hint>>
  {
    if r.Err? then r else Ok(hs + r.value)
  }

  /** The hint loop of `parse_clang_delta_hints`, from `pos0`. */
  method ReadHintLines(s: Bytes, pos0: nat, decode: Bytes -> Option<Hint>) returns (r: Result<seq<Hint>>)
    ensures r == ReadHints(s, pos0, decode)
  {
    var hints: seq<Hint> := [];
    var pos: nat := pos0;
    if ReadHints(s, pos0, decode).Ok? {
      assert [] + ReadHints(s, pos0, decode).value == ReadHints(s, pos0, decode).value;
    }
    while pos < |s|
      invariant ReadHints(s, pos0, decode) == WithHints(hints, ReadHints(s, pos, decode))
      decreases |s| - pos
    {
      var end := Find(s, NEWLINE, pos);
      if end.None? {
        ReadHintsStops(s, pos, decode, "ValueError: subsection not found");
        return Err("ValueError: subsection not found");
      }
      var h := decode(s[pos..end.value]);
      if h.None? {
        ReadHintsStops(s, pos, decode, "msgspec.DecodeError");
        return Err("msgspec.DecodeError");
      }
      ReadHintsAdvance(s, pos0, pos, end.value, hints, h.value, decode);
      hints := hints + [h.value];
      pos := end.value + 1;
    }
    assert hints + [] == hints;
    return Ok(hints);
  }

  /** A line without its newline, or one that does not decode, ends the reading with that error. */
  lemma ReadHintsStops(s: Bytes, pos: nat, decode: Bytes -> Option<Hint>, msg: string)
    requires pos < |s|
    requires var end := Find(s, NEWLINE, pos);
      if end.None? then msg == "ValueError: subsection not found"
      else decode(s[pos..end.value]).None? && msg == "msgspec.DecodeError"
    ensures ReadHints(s, pos, decode) == Err(msg)
  {
  }

  /** The loop's invariant carried over one hint line. */
  lemma ReadHintsAdvance(s: Bytes, pos0: nat, pos: nat, end: nat, hints: seq<Hint>, h: Hint,
                         decode: Bytes -> Option<Hint>)
    requires pos < |s| && Find(s, NEWLINE, pos) == Some(end) && decode(s[pos..end]) == Some(h)
    requires ReadHints(s, pos0, decode) == WithHints(hints, ReadHints(s, pos, decode))
    ensures ReadHints(s, pos0, decode) == WithHints(hints + [h], ReadHints(s, end + 1, decode))
  {
    ReadHintsStep(s, pos, end, h, decode);
    WithHintsAppend(hints, [h], ReadHints(s, end + 1, decode));
  }

  /** One hint line read: the hint goes in front of what the rest of the stream reads. */
  lemma ReadHintsStep(s: Bytes, pos: nat, end: nat, h: Hint, decode: Bytes -> Option<Hint>)
    requires pos < |s| && Find(s, NEWLINE, pos) == Some(end) && decode(s[pos..end]) == Some(h)
    ensures ReadHints(s, pos, decode) == WithHints([h], ReadHints(s, end + 1, decode))
  {
  }

  lemma WithHintsAppend(hs: seq<Hint>, more: seq<Hint>, r: Result<seq<Hint>>)
    ensures WithHints(hs, WithHints(more, r)) == WithHints(hs + more, r)
  {
    if r.Ok? {
      assert hs + (more + r.value) == hs + more + r.value;
    }
  }

  /** `parse_clang_delta_hints` as a function of the whole output. */
  function ParseHintStream(s: Bytes, decode: Bytes -> Option<Hint>): Result<ParsedBundle>
  {
    if IsBlank(s) then Ok(ParsedBundle([], []))
    else
      match Find(s, NEWLINE, 0)
      case None => Err("ValueError: subsection not found")
      case Some(nl) =>
        match ParseInt(s[..nl])
        case None => Err("ValueError: invalid literal for int()")
        case Some(n) =>
          var vocab :- ReadVocab(s, nl + 1, if n < 0 then 0 else n);
          var hints :- ReadHints(s, vocab.1, decode);
          Ok(ParsedBundle(vocab.0, hints))
  }

  /** `parse_clang_delta_hints`: a cursor walks the output. */
  method ParseClangDeltaHints(stdout: Bytes, decode: Bytes -> Option<Hint>) returns (r: Result<ParsedBundle>)
    ensures r == ParseHintStream(stdout, decode)
  {
    if IsBlank(stdout) {
      return Ok(ParsedBundle([], []));
    }
    var nl := Find(stdout, NEWLINE, 0);
    if nl.None? {
      return Err("ValueError: subsection not found");
    }
    var size := ParseInt(stdout[..nl.value]);
    if size.None? {
      return Err("ValueError: invalid literal for int()");
    }
    var vocab := ReadVocabulary(stdout, nl.value + 1, if size.value < 0 then 0 else size.value);
    if vocab.Err? {
      return Err(vocab.error);
    }
    var hints := ReadHintLines(stdout, vocab.value.1, decode);
    if hints.Err? {
      return Err(hints.error);
    }
    return Ok(ParsedBundle(vocab.value.0, hints.value));
  }

  /** The strings, each followed by a NUL byte. */
  function JoinNul(ws: seq<Bytes>): Bytes
  {
    if |ws| == 0 then [] else ws[0] + [NUL] + JoinNul(ws[1..])
  }

  /** The lines, each followed by a newline. */
  function JoinLines(ls: seq<Bytes>): Bytes
  {
    if |ls| == 0 then [] else ls[0] + [NEWLINE] + JoinLines(ls[1..])
  }

  /** The stream `clang_delta --generate-hints` writes for a vocabulary and hint lines. */
  function Emit(vocab: seq<Bytes>, lines: seq<Bytes>): Bytes
  {
    DecimalBytes(|vocab|) + [NEWLINE] + JoinNul(vocab) + JoinLines(lines)
  }

  /** Each line decoded. */
  function DecodeAll(ls: seq<Bytes>, decode: Bytes -> Option<Hint>): (hs: seq<Hint>)
    requires forall k :: 0 <= k < |ls| ==> decode(ls[k]).Some?
    ensures |hs| == |ls| && forall k :: 0 <= k < |ls| ==> hs[k] == decode(ls[k]).value
  {
    if |ls| == 0 then [] else [decode(ls[0]).value] + DecodeAll(ls[1..], decode)
  }

  /** `Find` stops at the first `b` it meets. */
  lemma {:induction false} FindAt(s: Bytes, b: Byte, from: nat, k: nat)
    requires from <= k < |s| && s[k] == b
    requires forall i :: from <= i < k ==> s[i] != b
    ensures Find(s, b, from) == Some(k)
    decreases k - from
  {
    if from < k {
      FindAt(s, b, from + 1, k);
    }
  }

  lemma Regroup<T>(a: seq<T>, b: seq<T>, c: seq<T>, d: seq<T>, e: seq<T>)
    ensures a + (b + c + d) + e == (a + b + c) + d + e
  {
  }

  /** `t` appears in `s` from `pos` on. */
  ghost predicate At(s: Bytes, pos: nat, t: Bytes)
  {
    pos + |t| <= |s| && forall i :: 0 <= i < |t| ==> s[pos + i] == t[i]
  }

  /** Reading `|ws|` strings from NUL-terminated `ws` gives back `ws` and stops after the last NUL. */
  lemma ReadVocabJoined(p: Bytes, ws: seq<Bytes>, q: Bytes)
    requires forall k :: 0 <= k < |ws| ==> NUL !in ws[k]
    ensures ReadVocab(p + JoinNul(ws) + q, |p|, |ws|) == Ok((ws, |p| + |JoinNul(ws)|))
  {
    var s, j := p + JoinNul(ws) + q, JoinNul(ws);
    forall i | 0 <= i < |j|
      ensures s[|p| + i] == j[i]
    {
    }
    ReadVocabAt(s, |p|, ws);
  }

  /** Where `s` holds NUL-terminated `ws` from `pos` on, reading `|ws|` strings gives back `ws`. */
  lemma {:induction false} ReadVocabAt(s: Bytes, pos: nat, ws: seq<Bytes>)
    requires forall k :: 0 <= k < |ws| ==> NUL !in ws[k]
    requires At(s, pos, JoinNul(ws))
    ensures ReadVocab(s, pos, |ws|) == Ok((ws, pos + |JoinNul(ws)|))
    decreases |ws|
  {
    if |ws| > 0 {
      var w, more := ws[0], ws[1..];
      JoinNulSplit(s, pos, ws);
      ReadVocabAt(s, pos + |w| + 1, more);
      ReadVocabStep(s, pos, w, |ws|);
      ReadVocabCons(s, pos, w, more, pos + |w| + 1 + |JoinNul(more)|);
      assert [w] + more == ws;
    }
  }

  lemma ReadVocabCons(s: Bytes, pos: nat, w: Bytes, more: seq<Bytes>, end: nat)
    requires ReadVocab(s, pos, |more| + 1) == WithWords([w], ReadVocab(s, pos + |w| + 1, |more|))
    requires ReadVocab(s, pos + |w| + 1, |more|) == Ok((more, end))
    ensures ReadVocab(s, pos, |more| + 1) == Ok(([w] + more, end))
  {
  }

  /** NUL-terminated `ws` at `pos` in `s` is its first string, that NUL, and the rest. */
  lemma JoinNulSplit(s: Bytes, pos: nat, ws: seq<Bytes>)
    requires |ws| > 0 && At(s, pos, JoinNul(ws))
    ensures |JoinNul(ws)| == |ws[0]| + 1 + |JoinNul(ws[1..])|
    ensures At(s, pos, ws[0]) && s[pos + |ws[0]|] == NUL && At(s, pos + |ws[0]| + 1, JoinNul(ws[1..]))
  {
    var w, j, t := ws[0], JoinNul(ws), JoinNul(ws[1..]);
    assert j == w + [NUL] + t;
    assert s[pos + |w|] == j[|w|];
    forall i | 0 <= i < |w|
      ensures s[pos + i] == w[i]
    {
      assert s[pos + i] == j[i];
    }
    forall i | 0 <= i < |t|
      ensures s[pos + |w| + 1 + i] == t[i]
    {
      assert s[pos + (|w| + 1 + i)] == j[|w| + 1 + i];
    }
  }

  /** One vocabulary string read: it goes in front of what the rest of the count reads. */
  lemma ReadVocabStep(s: Bytes, pos: nat, w: Bytes, count: nat)
    requires count > 0 && NUL !in w && At(s, pos, w) && pos + |w| < |s| && s[pos + |w|] == NUL
    ensures ReadVocab(s, pos, count) == WithWords([w], ReadVocab(s, pos + |w| + 1, count - 1))
  {
    forall i | pos <= i < pos + |w|
      ensures s[i] != NUL
    {
      assert s[pos + (i - pos)] == w[i - pos];
    }
    FindAt(s, NUL, pos, pos + |w|);
    assert s[pos..pos + |w|] == w;
  }


  /** Reading hints from newline-terminated lines up to the end decodes each line, in order. */
  lemma ReadHintsJoined(p: Bytes, ls: seq<Bytes>, decode: Bytes -> Option<Hint>)
    requires forall k :: 0 <= k < |ls| ==> NEWLINE !in ls[k] && decode(ls[k]).Some?
    ensures ReadHints(p + JoinLines(ls), |p|, decode) == Ok(DecodeAll(ls, decode))
  {
    var s, j := p + JoinLines(ls), JoinLines(ls);
    forall i | 0 <= i < |j|
      ensures s[|p| + i] == j[i]
    {
    }
    ReadHintsAt(s, |p|, ls, decode);
  }

  /** Where `s` ends with newline-terminated `ls` from `pos` on, reading hints decodes each line. */
  lemma {:induction false} ReadHintsAt(s: Bytes, pos: nat, ls: seq<Bytes>, decode: Bytes -> Option<Hint>)
    requires forall k :: 0 <= k < |ls| ==> NEWLINE !in ls[k] && decode(ls[k]).Some?
    requires At(s, pos, JoinLines(ls)) && pos + |JoinLines(ls)| == |s|
    ensures ReadHints(s, pos, decode) == Ok(DecodeAll(ls, decode))
    decreases |ls|
  {
    if |ls| > 0 {
      var l := ls[0];
      JoinLinesSplit(s, pos, ls);
      ReadHintsAt(s, pos + |l| + 1, ls[1..], decode);
      forall i | pos <= i < pos + |l|
        ensures s[i] != NEWLINE
      {
        assert s[pos + (i - pos)] == l[i - pos];
      }
      FindAt(s, NEWLINE, pos, pos + |l|);
      assert s[pos..pos + |l|] == l;
      ReadHintsStep(s, pos, pos + |l|, decode(l).value, decode);
    }
  }

  /** Newline-terminated `ls` at `pos` in `s` is its first line, that newline, and the rest. */
  lemma JoinLinesSplit(s: Bytes, pos: nat, ls: seq<Bytes>)
    requires |ls| > 0 && At(s, pos, JoinLines(ls))
    ensures |JoinLines(ls)| == |ls[0]| + 1 + |JoinLines(ls[1..])|
    ensures At(s, pos, ls[0]) && s[pos + |ls[0]|] == NEWLINE && At(s, pos + |ls[0]| + 1, JoinLines(ls[1..]))
  {
    var l, j, t := ls[0], JoinLines(ls), JoinLines(ls[1..]);
    assert j == l + [NEWLINE] + t;
    assert s[pos + |l|] == j[|l|];
    forall i | 0 <= i < |l|
      ensures s[pos + i] == l[i]
    {
      assert s[pos + i] == j[i];
    }
    forall i | 0 <= i < |t|
      ensures s[pos + |l| + 1 + i] == t[i]
    {
      assert s[pos + (|l| + 1 + i)] == j[|l| + 1 + i];
    }
  }

  /** `Find` misses exactly when `Count` is zero, and a hit holds one of the counted bytes. */
  lemma {:induction false} FindCount(s: Bytes, b: Byte, from: nat)
    ensures Find(s, b, from).None? <==> Count(s, b, from) == 0
    ensures Find(s, b, from).Some? ==> Count(s, b, from) == 1 + Count(s, b, Find(s, b, from).value + 1)
    decreases |s| - from
  {
    if from < |s| && s[from] != b {
      FindCount(s, b, from + 1);
    }
  }

  /**
   * Reading `count` vocabulary strings fails exactly when fewer than
   * `count` NUL bytes remain; otherwise it yields `count` strings, none
   * holding a NUL.
   */
  lemma {:induction false} ReadVocabShape(s: Bytes, pos: nat, count: nat, r: Result<(seq<Bytes>, nat)>)
    requires r == ReadVocab(s, pos, count)
    ensures r.Err? <==> Count(s, NUL, pos) < count
    ensures r.Ok? ==> |r.value.0| == count && forall k :: 0 <= k < count ==> NUL !in r.value.0[k]
    decreases count
  {
    FindCount(s, NUL, pos);
    FindFirst(s, NUL, pos);
    if count > 0 {
      match Find(s, NUL, pos)
      case None =>
      case Some(end) =>
        var rest := ReadVocab(s, end + 1, count - 1);
        ReadVocabShape(s, end + 1, count - 1, rest);
        if rest.Ok? {
          var w := s[pos..end];
          assert NUL !in w by {
            forall i | 0 <= i < |w|
              ensures w[i] != NUL
            {
              assert w[i] == s[pos + i];
            }
          }
          assert r.value.0 == [w] + rest.value.0;
        }
    }
  }

  /** A successful read of the hint lines yields one hint per newline left in the stream. */
  lemma {:induction false} ReadHintsCount(s: Bytes, pos: nat, decode: Bytes -> Option<Hint>, r: Result<seq<Hint>>)
    requires r == ReadHints(s, pos, decode) && r.Ok?
    ensures |r.value| == Count(s, NEWLINE, pos)
    decreases |s| - pos
  {
    if pos < |s| {
      FindCount(s, NEWLINE, pos);
      var end := Find(s, NEWLINE, pos).value;
      ReadHintsCount(s, end + 1, decode, ReadHints(s, end + 1, decode));
    }
  }

  /** `parse_clang_delta_hints` succeeds once its header, vocabulary and hint lines each read. */
  lemma ParseHintStreamOk(s: Bytes, decode: Bytes -> Option<Hint>, nl: nat, n: nat, start: nat,
                          vocab: (seq<Bytes>, nat), next: nat, hints: seq<Hint>)
    requires !IsBlank(s) && Find(s, NEWLINE, 0) == Some(nl) && ParseInt(s[..nl]) == Some(n)
    requires start == nl + 1 && ReadVocab(s, start, n) == Ok(vocab)
    requires next == vocab.1 && ReadHints(s, next, decode) == Ok(hints)
    ensures ParseHintStream(s, decode) == Ok(ParsedBundle(vocab.0, hints))
  {
  }

  /** The header of an emitted stream is the vocabulary size and its newline. */
  lemma EmittedHeader(s: Bytes, digits: Bytes, rest: Bytes, n: nat)
    requires digits == DecimalBytes(n) && s == digits + [NEWLINE] + rest
    ensures !IsBlank(s) && Find(s, NEWLINE, 0) == Some(|digits|) && ParseInt(s[..|digits|]) == Some(n)
  {
    assert s[|digits|] == NEWLINE;
    forall i | 0 <= i < |digits|
      ensures s[i] != NEWLINE
    {
      assert s[i] == digits[i];
    }
    FindAt(s, NEWLINE, 0, |digits|);
    assert s[0] == digits[0];
    assert s[..|digits|] == digits;
    ParseIntDecimal(n);
  }

  /** The vocabulary of an emitted stream reads back. */
  lemma EmittedVocab(s: Bytes, head: Bytes, vocab: seq<Bytes>, tail: Bytes, start: nat, r: (seq<Bytes>, nat))
    requires forall k :: 0 <= k < |vocab| ==> NUL !in vocab[k]
    requires s == head + JoinNul(vocab) + tail && start == |head| && r == (vocab, |head| + |JoinNul(vocab)|)
    ensures ReadVocab(s, start, |vocab|) == Ok(r)
  {
    ReadVocabJoined(head, vocab, tail);
  }

  /** The hint lines of an emitted stream read back. */
  lemma EmittedLines(s: Bytes, front: Bytes, lines: seq<Bytes>, decode: Bytes -> Option<Hint>, next: nat)
    requires forall k :: 0 <= k < |lines| ==> NEWLINE !in lines[k] && decode(lines[k]).Some?
    requires s == front + JoinLines(lines) && next == |front|
    ensures ReadHints(s, next, decode) == Ok(DecodeAll(lines, decode))
  {
    ReadHintsJoined(front, lines, decode);
  }

  /** The header and the vocabulary of an emitted stream read back. */
  lemma EmittedFront(vocab: seq<Bytes>, lines: seq<Bytes>, s: Bytes, nl: nat, next: nat)
    requires forall k :: 0 <= k < |vocab| ==> NUL !in vocab[k]
    requires s == Emit(vocab, lines) && nl == |DecimalBytes(|vocab|)| && next == nl + 1 + |JoinNul(vocab)|
    ensures !IsBlank(s) && Find(s, NEWLINE, 0) == Some(nl) && ParseInt(s[..nl]) == Some(|vocab|)
    ensures ReadVocab(s, nl + 1, |vocab|) == Ok((vocab, next))
  {
    var digits := DecimalBytes(|vocab|);
    var body := JoinNul(vocab);
    var tail := JoinLines(lines);
    assert s == digits + [NEWLINE] + (body + tail);
    EmittedHeader(s, digits, body + tail, |vocab|);
    EmittedVocab(s, digits + [NEWLINE], vocab, tail, nl + 1, (vocab, next));
  }

  /** The hint lines of an emitted stream read back. */
  lemma EmittedBack(vocab: seq<Bytes>, lines: seq<Bytes>, decode: Bytes -> Option<Hint>, s: Bytes, next: nat)
    requires forall k :: 0 <= k < |lines| ==> NEWLINE !in lines[k] && decode(lines[k]).Some?
    requires s == Emit(vocab, lines) && next == |DecimalBytes(|vocab|)| + 1 + |JoinNul(vocab)|
    ensures ReadHints(s, next, decode) == Ok(DecodeAll(lines, decode))
  {
    var front := DecimalBytes(|vocab|) + [NEWLINE] + JoinNul(vocab);
    EmittedLines(s, front, lines, decode, next);
  }

  /**
   * The parser reads back any well-formed stream: strings without NUL
   * bytes and hint lines without newlines that each decode.
   */
  lemma ParseEmitted(vocab: seq<Bytes>, lines: seq<Bytes>, decode: Bytes -> Option<Hint>)
    requires forall k :: 0 <= k < |vocab| ==> NUL !in vocab[k]
    requires forall k :: 0 <= k < |lines| ==> NEWLINE !in lines[k] && decode(lines[k]).Some?
    ensures ParseHintStream(Emit(vocab, lines), decode) == Ok(ParsedBundle(vocab, DecodeAll(lines, decode)))
  {
    var s := Emit(vocab, lines);
    var nl := |DecimalBytes(|vocab|)|;
    var next := nl + 1 + |JoinNul(vocab)|;
    EmittedFront(vocab, lines, s, nl, next);
    EmittedBack(vocab, lines, decode, s, next);
    ParseHintStreamOk(s, decode, nl, |vocab|, nl + 1, (vocab, next), next, DecodeAll(lines, decode));
  }

  /** `CLANG_STD_CHOICES`, oldest first. */
  const CLANG_STD_CHOICES: seq<string> := ["c++98", "c++11", "c++14", "c++17", "c++20", "c++2b"]

  /**
   * The `--std=` values `new()` tries: the user's standard when one is
   * given (an empty string counts as none), every known standard when
   * iterating, and otherwise a single run without `--std=` (`None`).
   */
  function StdChoices(userStd: Option<string>, iterateStds: bool): (r: seq<Option<string>>)
    ensures |r| > 0
    ensures userStd.Some? && userStd.value != "" ==> r == [userStd]
    ensures (userStd.None? || userStd.value == "") && iterateStds ==>
              |r| == |CLANG_STD_CHOICES| && forall i :: 0 <= i < |r| ==> r[i] == Some(CLANG_STD_CHOICES[i])
    ensures (userStd.None? || userStd.value == "") && !iterateStds ==> r == [None]
  {
    if userStd.Some? && userStd.value != "" then [userStd]
    else if iterateStds then seq(|CLANG_STD_CHOICES|, i requires 0 <= i < |CLANG_STD_CHOICES| => Some(CLANG_STD_CHOICES[i]))
    else [None]
  }

  /**
   * The index of the run `new()` keeps among the outcomes of the choices,
   * in order: a later bundle replaces the best so far when it has at least
   * as many hints; an `Err` is skipped.
   */
  function BestIndex(outs: seq<Result<ParsedBundle>>): (r: Option<nat>)
    ensures r.Some? ==> r.value < |outs| && outs[r.value].Ok?
  {
    if |outs| == 0 then None
    else
      var k := |outs| - 1;
      var before := BestIndex(outs[..k]);
      if outs[k].Err? then before
      else if before.None? || |outs[k].value.hints| >= |outs[before.value].value.hints| then Some(k)
      else before
  }

  /**
   * The kept run is the last of those with the most hints, and there is
   * none exactly when every outcome is an `Err`.
   */
  lemma {:induction false} BestIndexSpec(outs: seq<Result<ParsedBundle>>)
    ensures BestIndex(outs).None? <==> forall i :: 0 <= i < |outs| ==> outs[i].Err?
    ensures BestIndex(outs).Some? ==>
              var b := BestIndex(outs).value;
              b < |outs| && outs[b].Ok? &&
              (forall i :: 0 <= i < |outs| && outs[i].Ok? ==> |outs[i].value.hints| <= |outs[b].value.hints|) &&
              (forall i :: b < i < |outs| && outs[i].Ok? ==> |outs[i].value.hints| < |outs[b].value.hints|)
  {
    if |outs| > 0 {
      var k := |outs| - 1;
      BestIndexSpec(outs[..k]);
      assert forall i :: 0 <= i < k ==> outs[..k][i] == outs[i];
    }
  }

  /** One more outcome: `BestIndex` moves to it when it is a bundle with at least as many hints. */
  lemma BestIndexStep(outs: seq<Result<ParsedBundle>>, k: nat)
    requires k < |outs|
    ensures var before := BestIndex(outs[..k]);
      BestIndex(outs[..k + 1])
        == if outs[k].Err? then before
           else if before.None? || |outs[k].value.hints| >= |outs[before.value].value.hints| then Some(k)
           else before
  {
    assert outs[..k + 1][..k] == outs[..k];
  }

  /** The standard and bundle of the run at index `b`, if any. */
  function KeptBundle(choices: seq<Option<string>>, outs: seq<Result<ParsedBundle>>, b: Option<nat>)
    : (kept: Option<(Option<string>, ParsedBundle)>)
    requires |outs| == |choices| && (b.Some? ==> b.value < |outs| && outs[b.value].Ok?)
    ensures kept.None? <==> b.None?
    ensures kept.Some? ==> kept.value.0 == choices[b.value] && outs[b.value] == Ok(kept.value.1)
  {
    if b.None? then None else Some((choices[b.value], outs[b.value].value))
  }

  /** The outcome of every choice, in order. */
  function Outcomes(choices: seq<Option<string>>, run: Option<string> -> Result<Bytes>,
                    decode: Bytes -> Option<Hint>): (outs: seq<Result<ParsedBundle>>)
    ensures |outs| == |choices| && forall i :: 0 <= i < |choices| ==> outs[i] == GenerateFor(run, decode, choices[i])
  {
    seq(|choices|, i requires 0 <= i < |choices| => GenerateFor(run, decode, choices[i]))
  }

  /**
   * `_generate_hints_for_standard`: `run` gives clang_delta's standard
   * output for a standard, or an `Err` standing for a `ClangDeltaError`
   * (timeout, failed subprocess, non-zero exit code); the output is then
   * parsed, and a parse error is an `Err` too.
   */
  function GenerateFor(run: Option<string> -> Result<Bytes>, decode: Bytes -> Option<Hint>, std: Option<string>)
    : (r: Result<ParsedBundle>)
    ensures run(std).Err? ==> r == Err(run(std).error)
    ensures run(std).Ok? ==> r == ParseHintStream(run(std).value, decode)
  {
    match run(std)
    case Err(e) => Err(e)
    case Ok(out) => ParseHintStream(out, decode)
  }

  /**
   * Parsing the output of a successful run failed: the `ValueError` or
   * `msgspec.DecodeError` is not a `ClangDeltaError`, so it escapes `new()`.
   */
  predicate Raises(run: Option<string> -> Result<Bytes>, decode: Bytes -> Option<Hint>, std: Option<string>)
  {
    run(std).Ok? && ParseHintStream(run(std).value, decode).Err?
  }

  /** The index of the first choice whose parse raises, or `|choices|` when none does. */
  function FirstRaising(choices: seq<Option<string>>, run: Option<string> -> Result<Bytes>,
                        decode: Bytes -> Option<Hint>): (k: nat)
    ensures k <= |choices|
    ensures forall i :: 0 <= i < k ==> !Raises(run, decode, choices[i])
    ensures k < |choices| ==> Raises(run, decode, choices[k])
  {
    if |choices| == 0 then 0
    else if Raises(run, decode, choices[0]) then 0
    else 1 + FirstRaising(choices[1..], run, decode)
  }

  /** `FirstRaising` is the index before which nothing raises and at which the parse raises. */
  lemma FirstRaisingIs(choices: seq<Option<string>>, run: Option<string> -> Result<Bytes>,
                       decode: Bytes -> Option<Hint>, k: nat)
    requires k <= |choices| && forall i :: 0 <= i < k ==> !Raises(run, decode, choices[i])
    requires k < |choices| ==> Raises(run, decode, choices[k])
    ensures FirstRaising(choices, run, decode) == k
  {
  }

  /**
   * `_generate_hints_for_standard`: run clang_delta, and parse its output
   * when it exited cleanly; `raised` tells a parse error from a
   * `ClangDeltaError`.
   */
  method GenerateHintsForStandard(std: Option<string>, run: Option<string> -> Result<Bytes>,
                                  decode: Bytes -> Option<Hint>)
    returns (bundle: Result<ParsedBundle>, raised: bool)
    ensures bundle == GenerateFor(run, decode, std)
    ensures raised <==> Raises(run, decode, std)
    ensures raised ==> bundle.Err?
  {
    var out := run(std);
    if out.Err? {
      return Err(out.error), false;
    }
    bundle := ParseClangDeltaHints(out.value, decode);
    raised := bundle.Err?;
  }

  /**
   * One turn of the loop of `new()`: run standard `k`; a parse error is
   * `raised`, otherwise the bundle replaces `best` when it has at least as
   * many hints.
   */
  method ConsiderStandard(choices: seq<Option<string>>, run: Option<string> -> Result<Bytes>,
                          decode: Bytes -> Option<Hint>, k: nat,
                          best: Option<(Option<string>, ParsedBundle)>)
    returns (next: Option<(Option<string>, ParsedBundle)>, raised: bool, error: string)
    requires k < |choices|
    requires best == KeptBundle(choices, Outcomes(choices, run, decode), BestIndex(Outcomes(choices, run, decode)[..k]))
    ensures raised <==> Raises(run, decode, choices[k])
    ensures raised ==> error == GenerateFor(run, decode, choices[k]).error
    ensures next == KeptBundle(choices, Outcomes(choices, run, decode), BestIndex(Outcomes(choices, run, decode)[..k + 1]))
  {
    ghost var outs := Outcomes(choices, run, decode);
    BestIndexStep(outs, k);
    var bundle;
    bundle, raised := GenerateHintsForStandard(choices[k], run, decode);
    error := if bundle.Err? then bundle.error else "";
    next := best;
    if bundle.Ok? && (best.None? || |bundle.value.hints| >= |best.value.1.hints|) {
      next := Some((choices[k], bundle.value));
    }
  }

  /**
   * The loop of `new()`: run each standard in turn and keep the best
   * bundle; a run that raises `ClangDeltaError` is skipped, and a parse
   * error ends the loop and propagates.
   */
  method ChooseStandard(choices: seq<Option<string>>, run: Option<string> -> Result<Bytes>,
                        decode: Bytes -> Option<Hint>)
    returns (r: Result<Option<(Option<string>, ParsedBundle)>>)
    ensures var k := FirstRaising(choices, run, decode);
      k < |choices| ==> r == Err(GenerateFor(run, decode, choices[k]).error)
    ensures FirstRaising(choices, run, decode) == |choices| ==>
              r == Ok(KeptBundle(choices, Outcomes(choices, run, decode), BestIndex(Outcomes(choices, run, decode))))
  {
    var best: Option<(Option<string>, ParsedBundle)> := None;
    ghost var outs := Outcomes(choices, run, decode);
    for k := 0 to |choices|
      invariant forall i :: 0 <= i < k ==> !Raises(run, decode, choices[i])
      invariant best == KeptBundle(choices, outs, BestIndex(outs[..k]))
    {
      var raised, error;
      best, raised, error := ConsiderStandard(choices, run, decode, k, best);
      if raised {
        FirstRaisingIs(choices, run, decode, k);
        return Err(error);
      }
    }
    assert outs[..|choices|] == outs;
    FirstRaisingIs(choices, run, decode, |choices|);
    r := Ok(best);
  }

  /**
   * `new()`: a parse error of the first run that raises one propagates;
   * otherwise the chosen standard and its bundle, or `None` when every run
   * raised `ClangDeltaError`.
   */
  method NewClangState(userStd: Option<string>, iterateStds: bool, run: Option<string> -> Result<Bytes>,
                       decode: Bytes -> Option<Hint>)
    returns (r: Result<Option<(Option<string>, ParsedBundle)>>)
    ensures var choices := StdChoices(userStd, iterateStds); var k := FirstRaising(choices, run, decode);
      (k < |choices| ==> r == Err(ParseHintStream(run(choices[k]).value, decode).error))
      && (k == |choices| ==> r.Ok?)
    ensures r.Ok? ==> (r.value.None? <==> forall std :: std in StdChoices(userStd, iterateStds) ==> run(std).Err?)
    ensures r.Ok? && r.value.Some? ==>
              var best := r.value.value;
              best.0 in StdChoices(userStd, iterateStds) && GenerateFor(run, decode, best.0) == Ok(best.1)
    ensures r.Ok? && r.value.Some? ==>
              forall std :: std in StdChoices(userStd, iterateStds) && GenerateFor(run, decode, std).Ok? ==>
                |GenerateFor(run, decode, std).value.hints| <= |r.value.value.1.hints|
    ensures r.Ok? && r.value.Some? ==> var choices := StdChoices(userStd, iterateStds);
              exists b :: 0 <= b < |choices| && choices[b] == r.value.value.0
                && forall i :: b < i < |choices| && GenerateFor(run, decode, choices[i]).Ok? ==>
                     |GenerateFor(run, decode, choices[i]).value.hints| < |r.value.value.1.hints|
  {
    var choices := StdChoices(userStd, iterateStds);
    r := ChooseStandard(choices, run, decode);
    var outs := Outcomes(choices, run, decode);
    BestIndexSpec(outs);
    if r.Ok? {
      assert FirstRaising(choices, run, decode) == |choices|;
      forall std | std in choices
        ensures run(std).Err? <==> GenerateFor(run, decode, std).Err?
      {
        var i :| 0 <= i < |choices| && choices[i] == std;
        assert !Raises(run, decode, choices[i]);
      }
      if r.value.Some? {
        var b := BestIndex(outs).value;
        assert choices[b] == r.value.value.0;
      }
    }
  }

}
