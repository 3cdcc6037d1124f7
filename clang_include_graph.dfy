/**
 * The helpers of `cvise/passes/clangincludegraph.py`: splitting the NUL
 * separated output of `clang_include_graph`, spreading the makefile
 * commands over the parallel jobs, dropping arguments the tool cannot
 * use, and merging the jobs' bundles into one vocabulary.
 *
 * Which arguments are removable is a regular expression in the source; it
 * is the `removable` parameter here.
 */
module ClangIncludeGraph {
  import opened Common
  import opened Ordering
  import opened HintModel
  import opened ClangHints

  /** `-Xclang`, the argument dropped together with a removable one right after it. */
  const XCLANG: Bytes := [45, 88, 99, 108, 97, 110, 103]

  /** `@fileref`, the first and fixed entry of the merged vocabulary. */
  const FILEREF: Bytes := [64, 102, 105, 108, 101, 114, 101, 102]

  // ---------------------------------------------------------------------
  // _split_by_null_char
  // ---------------------------------------------------------------------

  /**
   * The tokens `_split_by_null_char` yields from `start` on: each run of
   * bytes up to the next NUL, and a last run with no NUL after it.
   */
  function SplitNul(data: Bytes, start: nat): seq<Bytes>
    decreases |data| - start
  {
    if start >= |data| then []
    else
      match Find(data, NUL, start)
      case None => [data[start..]]
      case Some(sep) => [data[start..sep]] + SplitNul(data, sep + 1)
  }

  /** `_split_by_null_char`: a cursor walks the data from one NUL to the next. */
  method SplitByNullChar(data: Bytes) returns (toks: seq<Bytes>)
    ensures toks == SplitNul(data, 0)
  {
    toks := [];
    var start: nat := 0;
    while start < |data|
      invariant SplitNul(data, 0) == toks + SplitNul(data, start)
      decreases |data| - start
    {
      var found := Find(data, NUL, start);
      var sep: nat := if found.None? then |data| else found.value;
      ghost var rest := SplitNul(data, sep + 1);
      if found.None? {
        assert SplitNul(data, start) == [data[start..]];
        assert data[start..sep] == data[start..];
        assert rest == [];
      } else {
        assert SplitNul(data, start) == [data[start..sep]] + rest;
      }
      assert toks + [data[start..sep]] + rest == toks + ([data[start..sep]] + rest);
      toks := toks + [data[start..sep]];
      start := sep + 1;
    }
  }

  /** The tokens joined with a NUL between each two. */
  function JoinSep(ws: seq<Bytes>): Bytes
  {
    if |ws| == 0 then []
    else if |ws| == 1 then ws[0]
    else ws[0] + [NUL] + JoinSep(ws[1..])
  }

  /** A final NUL of the data: the one byte the tokens do not give back. */
  function Trailer(data: Bytes): Bytes
  {
    if |data| > 0 && data[|data| - 1] == NUL then [NUL] else []
  }

  /** No token holds a NUL. */
  lemma {:induction false} SplitNulTokens(data: Bytes, start: nat)
    ensures forall k :: 0 <= k < |SplitNul(data, start)| ==> NUL !in SplitNul(data, start)[k]
    decreases |data| - start
  {
    if start < |data| {
      FindFirst(data, NUL, start);
      match Find(data, NUL, start)
      case None =>
        var w := data[start..];
        forall i | 0 <= i < |w|
          ensures w[i] != NUL
        {
          assert w[i] == data[start + i];
        }
      case Some(sep) =>
        var w := data[start..sep];
        forall i | 0 <= i < |w|
          ensures w[i] != NUL
        {
          assert w[i] == data[start + i];
        }
        SplitNulTokens(data, sep + 1);
    }
  }

  /**
   * The tokens, joined back with NULs, give the data again up to its final
   * NUL: nothing but the separators is lost.
   */
  lemma {:induction false} SplitNulJoin(data: Bytes, start: nat)
    requires start < |data|
    ensures JoinSep(SplitNul(data, start)) + Trailer(data) == data[start..]
    decreases |data| - start
  {
    match Find(data, NUL, start)
    case None =>
      SplitNulJoinNone(data, start);
    case Some(sep) =>
      SplitNulFirst(data, start, sep);
      if sep + 1 < |data| {
        SliceAround(data, start, sep);
        SplitNulJoin(data, sep + 1);
        JoinSepStep(data[start..sep], SplitNul(data, sep + 1), Trailer(data), data[sep + 1..], data[start..]);
      } else {
        SplitNulJoinLast(data, start, sep);
      }
  }

  /** With no NUL from `start` on, the one token is the rest of the data, and there is no trailer. */
  lemma SplitNulJoinNone(data: Bytes, start: nat)
    requires start < |data| && Find(data, NUL, start).None?
    ensures JoinSep(SplitNul(data, start)) + Trailer(data) == data[start..]
  {
    FindFirst(data, NUL, start);
    assert data[|data| - 1] != NUL;
    assert JoinSep(SplitNul(data, start)) == data[start..];
  }

  /** A NUL ending the data closes the last token and is the trailer. */
  lemma SplitNulJoinLast(data: Bytes, start: nat, sep: nat)
    requires start < |data| && Find(data, NUL, start) == Some(sep) && sep + 1 == |data|
    ensures JoinSep(SplitNul(data, start)) + Trailer(data) == data[start..]
  {
    SplitNulFirst(data, start, sep);
    assert SplitNul(data, start) == [data[start..sep]];
    SliceAround(data, start, sep);
    assert data[sep + 1..] == [];
  }

  /** A NUL at `sep`, the first from `start`, ends the first token; the data after it gives the rest. */
  lemma SplitNulFirst(data: Bytes, start: nat, sep: nat)
    requires start < |data| && Find(data, NUL, start) == Some(sep)
    ensures SplitNul(data, start) == [data[start..sep]] + SplitNul(data, sep + 1)
    ensures sep + 1 < |data| <==> SplitNul(data, sep + 1) != []
  {
  }

  /** Joining a token in front of at least one more puts a NUL between them. */
  lemma JoinSepStep(tok: Bytes, rest: seq<Bytes>, trailer: Bytes, after: Bytes, whole: Bytes)
    requires rest != [] && JoinSep(rest) + trailer == after && whole == tok + [NUL] + after
    ensures JoinSep([tok] + rest) + trailer == whole
  {
    assert ([tok] + rest)[1..] == rest;
    assert JoinSep([tok] + rest) == tok + [NUL] + JoinSep(rest);
  }

  /** The data from `start` on is the bytes before a NUL at `sep`, that NUL, and the bytes after it. */
  lemma SliceAround(data: Bytes, start: nat, sep: nat)
    requires start <= sep < |data| && data[sep] == NUL
    ensures data[start..] == data[start..sep] + [NUL] + data[sep + 1..]
  {
  }

  /** The whole data splits into tokens that join back to it. */
  lemma SplitByNullCharJoin(data: Bytes)
    ensures JoinSep(SplitNul(data, 0)) + Trailer(data) == data
  {
    if |data| > 0 {
      SplitNulJoin(data, 0);
      assert data[0..] == data;
    }
  }

  /** NUL-terminated strings split back into exactly those strings. */
  lemma SplitNulTerminated(p: Bytes, ws: seq<Bytes>)
    requires forall k :: 0 <= k < |ws| ==> NUL !in ws[k]
    ensures SplitNul(p + JoinNul(ws), |p|) == ws
  {
    var s, j := p + JoinNul(ws), JoinNul(ws);
    forall i | 0 <= i < |j|
      ensures s[|p| + i] == j[i]
    {
    }
    SplitNulAt(s, |p|, ws);
  }

  /** Where `s` ends with NUL-terminated `ws` from `pos` on, the tokens from `pos` are `ws`. */
  lemma {:induction false} SplitNulAt(s: Bytes, pos: nat, ws: seq<Bytes>)
    requires forall k :: 0 <= k < |ws| ==> NUL !in ws[k]
    requires At(s, pos, JoinNul(ws)) && pos + |JoinNul(ws)| == |s|
    ensures SplitNul(s, pos) == ws
    decreases |ws|
  {
    if |ws| > 0 {
      var w := ws[0];
      JoinNulSplit(s, pos, ws);
      SplitNulAt(s, pos + |w| + 1, ws[1..]);
      SplitNulStep(s, pos, w);
      assert [w] + ws[1..] == ws;
    }
  }

  /** A NUL-free `w` at `pos`, followed by a NUL, is the first token from `pos`. */
  lemma SplitNulStep(s: Bytes, pos: nat, w: Bytes)
    requires NUL !in w && At(s, pos, w) && pos + |w| < |s| && s[pos + |w|] == NUL
    ensures SplitNul(s, pos) == [w] + SplitNul(s, pos + |w| + 1)
  {
    forall i | pos <= i < pos + |w|
      ensures s[i] != NUL
    {
      assert s[pos + (i - pos)] == w[i - pos];
    }
    FindAt(s, NUL, pos, pos + |w|);
    assert s[pos..pos + |w|] == w;
  }

  // ---------------------------------------------------------------------
  // _get_kth_modulo_n
  // ---------------------------------------------------------------------

  /** `_get_kth_modulo_n`: the commands whose index is `k` modulo `n`, in order. */
  function KthModuloN<T>(commands: seq<T>, k: int, n: nat): seq<T>
    requires n > 0
  {
    if |commands| == 0 then []
    else
      var i := |commands| - 1;
      KthModuloN(commands[..i], k, n) + (if i % n == k then [commands[i]] else [])
  }

  /** A multiple of `n` other than zero is at least `n` away from zero. */
  lemma MulSign(e: int, n: int)
    requires n >= 0
    ensures e >= 1 ==> e * n >= n
    ensures e <= -1 ==> e * n <= -n
  {
  }

  lemma MulSucc(m: int, n: int)
    ensures (m + 1) * n == m * n + n
  {
  }

  /** `q * n + k` leaves remainder `k`. */
  lemma ModOfMulAdd(q: int, n: nat, k: int)
    requires n > 0 && 0 <= k < n
    ensures (q * n + k) % n == k
  {
    var x := q * n + k;
    var d := x / n;
    var r := x % n;
    assert x == d * n + r;
    assert (q - d) * n == r - k;
    MulSign(q - d, n);
  }

  /** Multiplying by a positive `n` keeps a strict order. */
  lemma MulLessCancel(a: int, b: int, n: nat)
    requires n > 0 && a * n < b * n
    ensures a < b
  {
  }

  /**
   * Index `i` past the first `m` members of job `k` is the next member
   * exactly when it is `k` modulo `n`.
   */
  lemma KthStep(i: nat, m: nat, n: nat, k: nat)
    requires 0 <= k < n
    requires (m == 0 || (m - 1) * n + k < i) && i <= m * n + k
    ensures i % n == k ==> i == m * n + k
    ensures i % n != k ==> i < m * n + k
  {
    if i % n == k {
      var q := i / n;
      assert i == q * n + k;
      if m > 0 {
        MulLessCancel(m - 1, q, n);
      }
      MulSign(q - m, n);
      assert (q - m) * n == q * n - m * n;
    }
    if i == m * n + k {
      ModOfMulAdd(m, n, k);
    }
  }

  /**
   * The `j`-th command of job `k` is command `j * n + k`, and job `k` gets
   * every such command: no index `|K| * n + k` is left in the list.
   */
  lemma {:induction false} KthModuloNElements<T>(commands: seq<T>, k: nat, n: nat)
    requires 0 <= k < n
    ensures forall j :: 0 <= j < |KthModuloN(commands, k, n)| ==>
              j * n + k < |commands| && KthModuloN(commands, k, n)[j] == commands[j * n + k]
    ensures |commands| <= |KthModuloN(commands, k, n)| * n + k
  {
    if |commands| > 0 {
      var i := |commands| - 1;
      var pre := KthModuloN(commands[..i], k, n);
      KthModuloNElements(commands[..i], k, n);
      var m := |pre|;
      if m > 0 {
        assert (m - 1) * n + k < i;
      }
      KthStep(i, m, n, k);
      if i % n == k {
        MulSucc(m, n);
      }
    }
  }

  /** The jobs `0 .. m-1` together. */
  function JobsUpTo<T>(commands: seq<T>, n: nat, m: nat): multiset<T>
    requires n > 0
  {
    if m == 0 then multiset{} else JobsUpTo(commands, n, m - 1) + multiset(KthModuloN(commands, m - 1, n))
  }

  /** Adding a command adds it to the jobs numbered below `m` when its index modulo `n` is below `m`. */
  lemma {:induction false} JobsUpToAppend<T>(commands: seq<T>, x: T, n: nat, m: nat)
    requires n > 0
    ensures |commands| % n < m ==> JobsUpTo(commands + [x], n, m) == JobsUpTo(commands, n, m) + multiset{x}
    ensures |commands| % n >= m ==> JobsUpTo(commands + [x], n, m) == JobsUpTo(commands, n, m)
  {
    if m > 0 {
      JobsUpToAppend(commands, x, n, m - 1);
      KthAppend(commands, x, m - 1, n);
      var r := |commands| % n;
      JobsStep(JobsUpTo(commands + [x], n, m - 1), JobsUpTo(commands, n, m - 1),
               multiset(KthModuloN(commands + [x], m - 1, n)), multiset(KthModuloN(commands, m - 1, n)),
               x, r < m - 1, r == m - 1);
    }
  }

  /** One more job: the command lands in the jobs so far or in this one, or in neither. */
  lemma JobsStep<T>(a: multiset<T>, b: multiset<T>, k1: multiset<T>, k0: multiset<T>, x: T, before: bool, here: bool)
    requires !(before && here)
    requires a == (if before then b + multiset{x} else b)
    requires k1 == (if here then k0 + multiset{x} else k0)
    ensures a + k1 == (if before || here then b + k0 + multiset{x} else b + k0)
  {
  }

  /** Appending a command appends it to job `k` exactly when its index is `k` modulo `n`. */
  lemma KthAppend<T>(commands: seq<T>, x: T, k: int, n: nat)
    requires n > 0
    ensures |commands| % n == k ==> KthModuloN(commands + [x], k, n) == KthModuloN(commands, k, n) + [x]
    ensures |commands| % n != k ==> KthModuloN(commands + [x], k, n) == KthModuloN(commands, k, n)
  {
    assert (commands + [x])[..|commands|] == commands;
  }

  /** The `n` jobs partition the commands: each command goes to exactly one job. */
  lemma {:induction false} KthModuloNPartition<T>(commands: seq<T>, n: nat)
    requires n > 0
    ensures JobsUpTo(commands, n, n) == multiset(commands)
  {
    if |commands| == 0 {
      JobsUpToEmpty(commands, n, n);
    } else {
      var i := |commands| - 1;
      KthModuloNPartition(commands[..i], n);
      JobsUpToAppend(commands[..i], commands[i], n, n);
      assert commands[..i] + [commands[i]] == commands;
    }
  }

  lemma {:induction false} JobsUpToEmpty<T>(commands: seq<T>, n: nat, m: nat)
    requires n > 0 && |commands| == 0
    ensures JobsUpTo(commands, n, m) == multiset{}
  {
    if m > 0 {
      JobsUpToEmpty(commands, n, m - 1);
    }
  }

  /** A job number outside `0 .. n-1` gets no command. */
  lemma {:induction false} KthModuloNOutside<T>(commands: seq<T>, k: int, n: nat)
    requires n > 0 && (k < 0 || k >= n)
    ensures KthModuloN(commands, k, n) == []
  {
    if |commands| > 0 {
      KthModuloNOutside(commands[..|commands| - 1], k, n);
    }
  }

  // ---------------------------------------------------------------------
  // _filter_args
  // ---------------------------------------------------------------------

  /**
   * `_filter_args`, specified: a kept argument is appended; a removable one
   * is dropped, and takes with it the last kept argument when that is
   * `-Xclang`.
   */
  function FilterArgs(args: seq<Bytes>, removable: Bytes -> bool): seq<Bytes>
  {
    if |args| == 0 then []
    else
      var filtered := FilterArgs(args[..|args| - 1], removable);
      var cur := args[|args| - 1];
      if !removable(cur) then filtered + [cur]
      else if |filtered| > 0 && filtered[|filtered| - 1] == XCLANG then filtered[..|filtered| - 1]
      else filtered
  }

  /** `_filter_args`: a loop that appends kept arguments and pops a preceding `-Xclang`. */
  method FilterArgsLoop(args: seq<Bytes>, removable: Bytes -> bool) returns (filtered: seq<Bytes>)
    ensures filtered == FilterArgs(args, removable)
  {
    filtered := [];
    for k := 0 to |args|
      invariant filtered == FilterArgs(args[..k], removable)
    {
      assert args[..k + 1][..k] == args[..k];
      var cur := args[k];
      if !removable(cur) {
        filtered := filtered + [cur];
      } else if |filtered| > 0 && filtered[|filtered| - 1] == XCLANG {
        filtered := filtered[..|filtered| - 1];
      }
    }
    assert args[..|args|] == args;
  }

  /** Only arguments that are not removable survive, and each comes from the input. */
  lemma {:induction false} FilterArgsKept(args: seq<Bytes>, removable: Bytes -> bool)
    ensures forall k :: 0 <= k < |FilterArgs(args, removable)| ==>
              FilterArgs(args, removable)[k] in args && !removable(FilterArgs(args, removable)[k])
  {
    if |args| > 0 {
      var pre := args[..|args| - 1];
      FilterArgsKept(pre, removable);
      assert forall a :: a in pre ==> a in args;
    }
  }

  /** With nothing removable, every argument is kept in order. */
  lemma {:induction false} FilterArgsNothingRemovable(args: seq<Bytes>, removable: Bytes -> bool)
    requires forall k :: 0 <= k < |args| ==> !removable(args[k])
    ensures FilterArgs(args, removable) == args
  {
    if |args| > 0 {
      var pre := args[..|args| - 1];
      FilterArgsNothingRemovable(pre, removable);
      assert pre + [args[|args| - 1]] == args;
    }
  }

  /** A removable argument right after `-Xclang` drops both. */
  lemma FilterArgsDropsPair(args: seq<Bytes>, x: Bytes, removable: Bytes -> bool)
    requires !removable(XCLANG) && removable(x)
    ensures FilterArgs(args + [XCLANG, x], removable) == FilterArgs(args, removable)
  {
    var withX := args + [XCLANG];
    assert (args + [XCLANG, x])[..|args| + 1] == withX;
    assert withX[..|args|] == args;
    var f := FilterArgs(args, removable);
    assert FilterArgs(withX, removable) == f + [XCLANG];
    assert (f + [XCLANG])[..|f|] == f;
  }

  /** A removable argument not preceded by a kept `-Xclang` drops only itself. */
  lemma FilterArgsDropsAlone(args: seq<Bytes>, x: Bytes, removable: Bytes -> bool)
    requires removable(x)
    requires |FilterArgs(args, removable)| == 0 || FilterArgs(args, removable)[|FilterArgs(args, removable)| - 1] != XCLANG
    ensures FilterArgs(args + [x], removable) == FilterArgs(args, removable)
  {
    assert (args + [x])[..|args|] == args;
  }

  // ---------------------------------------------------------------------
  // ClangIncludeGraphPass.generate_hints and _remap_file_ids
  // ---------------------------------------------------------------------

  /** Python's `bytes` order: lexicographic over the byte values. */
  function BytesKey(b: Bytes): Key
  {
    Tup(ByteKeys(b))
  }

  function ByteKeys(b: Bytes): (r: seq<Key>)
    ensures |r| == |b| && forall i :: 0 <= i < |b| ==> r[i] == Int(b[i])
  {
    if |b| == 0 then [] else [Int(b[0])] + ByteKeys(b[1..])
  }

  /** The first occurrence of each element, in order: a `set` listed out. */
  function Distinct<T(==,!new)>(s: seq<T>): (r: seq<T>)
    ensures NoDuplicates(r)
    ensures forall x :: x in r <==> x in s
  {
    if |s| == 0 then []
    else
      var d := Distinct(s[..|s| - 1]);
      var x := s[|s| - 1];
      assert forall y :: y in s <==> y in s[..|s| - 1] || y == x by {
        assert s == s[..|s| - 1] + [x];
      }
      if x in d then d else d + [x]
  }

  /** Every bundle's vocabulary, one after another (`merged_vocab`). */
  function ConcatVocab(bundles: seq<Bundle>): seq<Bytes>
  {
    if |bundles| == 0 then [] else ConcatVocab(bundles[..|bundles| - 1]) + bundles[|bundles| - 1].vocabulary
  }

  lemma {:induction false} ConcatVocabHas(bundles: seq<Bundle>, b: nat, i: nat)
    requires b < |bundles| && i < |bundles[b].vocabulary|
    ensures bundles[b].vocabulary[i] in ConcatVocab(bundles)
  {
    var last := |bundles| - 1;
    if b < last {
      ConcatVocabHas(bundles[..last], b, i);
    } else {
      assert ConcatVocab(bundles)[|ConcatVocab(bundles[..last])| + i] == bundles[b].vocabulary[i];
    }
  }

  lemma {:induction false} ConcatVocabFrom(bundles: seq<Bundle>, s: Bytes)
    requires s in ConcatVocab(bundles)
    ensures exists b, i :: 0 <= b < |bundles| && 0 <= i < |bundles[b].vocabulary| && bundles[b].vocabulary[i] == s
  {
    var last := |bundles| - 1;
    var pre := ConcatVocab(bundles[..last]);
    if s in pre {
      ConcatVocabFrom(bundles[..last], s);
      var b, i :| 0 <= b < last && 0 <= i < |bundles[..last][b].vocabulary| && bundles[..last][b].vocabulary[i] == s;
      assert bundles[b] == bundles[..last][b];
    } else {
      var j :| 0 <= j < |ConcatVocab(bundles)| && ConcatVocab(bundles)[j] == s;
      assert bundles[last].vocabulary[j - |pre|] == s;
    }
  }

  /** `list(_HINT_VOCAB) + sorted(set(merged_vocab))`. */
  function MergedVocab(bundles: seq<Bundle>): seq<Bytes>
  {
    [FILEREF] + SortBy(Distinct(ConcatVocab(bundles)), BytesKey)
  }

  /**
   * The merged vocabulary starts with `@fileref`, then lists every string
   * of every bundle once, in byte order.
   */
  lemma MergedVocabSpec(bundles: seq<Bundle>)
    ensures MergedVocab(bundles)[0] == FILEREF
    ensures NoDuplicates(MergedVocab(bundles)[1..]) && SortedBy(MergedVocab(bundles)[1..], BytesKey)
    ensures forall s :: s in MergedVocab(bundles)[1..] <==>
              exists b, i :: 0 <= b < |bundles| && 0 <= i < |bundles[b].vocabulary| && bundles[b].vocabulary[i] == s
  {
    var d := Distinct(ConcatVocab(bundles));
    var sorted := SortBy(d, BytesKey);
    assert MergedVocab(bundles)[1..] == sorted;
    SortBySortsBy(d, BytesKey);
    PermutationDistinct(d, sorted);
    forall s
      ensures s in sorted <==>
              exists b, i :: 0 <= b < |bundles| && 0 <= i < |bundles[b].vocabulary| && bundles[b].vocabulary[i] == s
    {
      assert s in sorted <==> s in multiset(d);
      if s in sorted {
        ConcatVocabFrom(bundles, s);
      }
      if exists b, i :: 0 <= b < |bundles| && 0 <= i < |bundles[b].vocabulary| && bundles[b].vocabulary[i] == s {
        var b, i :| 0 <= b < |bundles| && 0 <= i < |bundles[b].vocabulary| && bundles[b].vocabulary[i] == s;
        ConcatVocabHas(bundles, b, i);
      }
    }
  }

  /** `text_to_vocab[s]`: the dictionary built over the vocabulary keeps the last index of each string. */
  function VocabIndex(vocab: seq<Bytes>, s: Bytes): (i: nat)
    requires s in vocab
    ensures i < |vocab| && vocab[i] == s
    ensures forall j :: i < j < |vocab| ==> vocab[j] != s
  {
    if vocab[|vocab| - 1] == s then |vocab| - 1
    else
      assert s in vocab[..|vocab| - 1] by {
        assert vocab == vocab[..|vocab| - 1] + [vocab[|vocab| - 1]];
      }
      VocabIndex(vocab[..|vocab| - 1], s)
  }

  /** The vocabulary indices of a hint are all in range for its bundle. */
  predicate IndicesIn(h: Hint, vocabulary: seq<Bytes>)
  {
    h.extra.Some? && h.extra.value < |vocabulary| &&
    forall k :: 0 <= k < |h.patches| ==> h.patches[k].path.None? || h.patches[k].path.value < |vocabulary|
  }

  /** The hints of a bundle all have their indices in range. */
  predicate WellIndexed(b: Bundle)
  {
    forall j :: 0 <= j < |b.hints| ==> IndicesIn(b.hints[j], b.vocabulary)
  }

  /** `_remap_file_ids` for one patch: only the range and the file survive. */
  function RemapPatch(p: Patch, bundleVocab: seq<Bytes>, vocab: seq<Bytes>): Patch
    requires p.path.None? || (p.path.value < |bundleVocab| && bundleVocab[p.path.value] in vocab)
  {
    Patch(if p.path.None? then None else Some(VocabIndex(vocab, bundleVocab[p.path.value])), p.left, p.right, None, None)
  }

  function RemapPatches(ps: seq<Patch>, bundleVocab: seq<Bytes>, vocab: seq<Bytes>): (r: seq<Patch>)
    requires forall k :: 0 <= k < |ps| ==> ps[k].path.None? || (ps[k].path.value < |bundleVocab| && bundleVocab[ps[k].path.value] in vocab)
    ensures |r| == |ps| && forall k :: 0 <= k < |ps| ==> r[k] == RemapPatch(ps[k], bundleVocab, vocab)
  {
    if |ps| == 0 then [] else [RemapPatch(ps[0], bundleVocab, vocab)] + RemapPatches(ps[1..], bundleVocab, vocab)
  }

  /** All the strings of a bundle occur in `vocab`. */
  predicate Covers(vocab: seq<Bytes>, bundleVocab: seq<Bytes>)
  {
    forall i :: 0 <= i < |bundleVocab| ==> bundleVocab[i] in vocab
  }

  /** `_remap_file_ids`: the hint in terms of the merged vocabulary, typed `@fileref`. */
  function RemapFileIds(h: Hint, bundleVocab: seq<Bytes>, vocab: seq<Bytes>): Hint
    requires IndicesIn(h, bundleVocab) && Covers(vocab, bundleVocab)
  {
    Hint(Some(0), RemapPatches(h.patches, bundleVocab, vocab), Some(VocabIndex(vocab, bundleVocab[h.extra.value])))
  }

  /**
   * Remapping keeps what every index stands for: the new indices name the
   * same strings in the merged vocabulary as the old ones did in the
   * bundle's, and the ranges stay.
   */
  lemma RemapPreservesStrings(h: Hint, bundleVocab: seq<Bytes>, vocab: seq<Bytes>)
    requires IndicesIn(h, bundleVocab) && Covers(vocab, bundleVocab)
    ensures var r := RemapFileIds(h, bundleVocab, vocab);
      r.hintType == Some(0) && r.extra.Some? && r.extra.value < |vocab| &&
      vocab[r.extra.value] == bundleVocab[h.extra.value] &&
      |r.patches| == |h.patches| &&
      forall k :: 0 <= k < |h.patches| ==>
        r.patches[k].left == h.patches[k].left && r.patches[k].right == h.patches[k].right &&
        r.patches[k].path.Some? == h.patches[k].path.Some? &&
        (r.patches[k].path.Some? ==> r.patches[k].path.value < |vocab| &&
                                     vocab[r.patches[k].path.value] == bundleVocab[h.patches[k].path.value])
  {
  }

  /** `[_remap_file_ids(h, b, text_to_vocab) for b in dependee_hints for h in b.hints]`. */
  function RemapAll(bundles: seq<Bundle>, vocab: seq<Bytes>): (r: seq<Hint>)
    requires forall b :: 0 <= b < |bundles| ==> WellIndexed(bundles[b]) && Covers(vocab, bundles[b].vocabulary)
  {
    if |bundles| == 0 then []
    else
      var b := bundles[|bundles| - 1];
      assert forall c :: 0 <= c < |bundles| - 1 ==> bundles[..|bundles| - 1][c] == bundles[c];
      assert WellIndexed(b) && Covers(vocab, b.vocabulary);
      RemapAll(bundles[..|bundles| - 1], vocab) + RemapBundle(b.hints, b.vocabulary, vocab)
  }

  function RemapBundle(hs: seq<Hint>, bundleVocab: seq<Bytes>, vocab: seq<Bytes>): (r: seq<Hint>)
    requires forall j :: 0 <= j < |hs| ==> IndicesIn(hs[j], bundleVocab)
    requires Covers(vocab, bundleVocab)
    ensures |r| == |hs| && forall j :: 0 <= j < |hs| ==> r[j] == RemapFileIds(hs[j], bundleVocab, vocab)
  {
    if |hs| == 0 then [] else [RemapFileIds(hs[0], bundleVocab, vocab)] + RemapBundle(hs[1..], bundleVocab, vocab)
  }

  /** Every bundle string is in the merged vocabulary. */
  lemma MergedCovers(bundles: seq<Bundle>, b: nat)
    requires b < |bundles|
    ensures Covers(MergedVocab(bundles), bundles[b].vocabulary)
  {
    MergedVocabSpec(bundles);
    forall i | 0 <= i < |bundles[b].vocabulary|
      ensures bundles[b].vocabulary[i] in MergedVocab(bundles)
    {
      assert bundles[b].vocabulary[i] in MergedVocab(bundles)[1..];
    }
  }

  /** The merged bundle `generate_hints` returns. */
  datatype MergedBundle = MergedBundle(vocabulary: seq<Bytes>, hints: seq<Hint>)

  /** `ClangIncludeGraphPass.generate_hints`: merge the jobs' bundles; `list(set(hints))` is listed in first-seen order. */
  function MergeJobBundles(bundles: seq<Bundle>): (r: MergedBundle)
    requires forall b :: 0 <= b < |bundles| ==> WellIndexed(bundles[b])
  {
    var vocab := MergedVocab(bundles);
    assert forall b :: 0 <= b < |bundles| ==> Covers(vocab, bundles[b].vocabulary) by {
      forall b | 0 <= b < |bundles| {
        MergedCovers(bundles, b);
      }
    }
    MergedBundle(vocab, Distinct(RemapAll(bundles, vocab)))
  }

  /**
   * The merged hints are the remapped hints of all jobs, each exactly once:
   * duplicates reported by several jobs collapse.
   */
  lemma MergeJobBundlesSpec(bundles: seq<Bundle>)
    requires forall b :: 0 <= b < |bundles| ==> WellIndexed(bundles[b])
    ensures var r := MergeJobBundles(bundles);
      r.vocabulary == MergedVocab(bundles) && NoDuplicates(r.hints) &&
      (forall b :: 0 <= b < |bundles| ==> Covers(r.vocabulary, bundles[b].vocabulary)) &&
      forall h :: h in r.hints <==> h in RemapAll(bundles, r.vocabulary)
  {
    forall b | 0 <= b < |bundles| {
      MergedCovers(bundles, b);
    }
  }
}
