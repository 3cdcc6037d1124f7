/**
 * The hint generators of `cvise/passes/makefile.py`: hints that remove a
 * compiler argument from every command that uses it, and hints that remove
 * a make target together with every mention of it. The makefile is the
 * parsed `Makefile` of `MakefileParser`; the regular expressions of the
 * pass are written out as predicates over bytes.
 */
module MakefilePass {
  import opened Common
  import opened ByteLines
  import opened HintModel
  import opened MakefileParser

  /** The pass's fixed vocabulary, in index order. */
  const VOCAB: seq<string> := ["@makefile", "@fileref", "remove-arguments-across-all-commands", "remove-target"]
  const MAKEFILE_TYPE: nat := 0
  const FILEREF_TYPE: nat := 1
  const REMOVE_ARGUMENTS_TYPE: nat := 2
  const REMOVE_TARGET_TYPE: nat := 3

  /** `_locs_to_patches`: one deletion patch per location, in the same order, in the makefile `fileId`. */
  function LocsToPatches(locs: seq<SourceLoc>, fileId: nat): (r: seq<Patch>)
    ensures |r| == |locs|
  {
    if |locs| == 0 then []
    else LocsToPatches(locs[..|locs| - 1], fileId) + [Patch(Some(fileId), Some(locs[|locs| - 1].begin), Some(locs[|locs| - 1].end), None, None)]
  }

  /** Each patch deletes exactly its location's bytes of the makefile. */
  lemma {:induction false} LocsToPatchesSpec(locs: seq<SourceLoc>, fileId: nat)
    ensures var r := LocsToPatches(locs, fileId);
      forall k :: 0 <= k < |locs| ==>
        r[k].path == Some(fileId) && r[k].left == Some(locs[k].begin) && r[k].right == Some(locs[k].end)
        && r[k].operation.None? && r[k].value.None?
  {
    if |locs| > 0 {
      LocsToPatchesSpec(locs[..|locs| - 1], fileId);
    }
  }

  lemma {:induction false} LocsToPatchesAppend(a: seq<SourceLoc>, b: seq<SourceLoc>, fileId: nat)
    ensures LocsToPatches(a + b, fileId) == LocsToPatches(a, fileId) + LocsToPatches(b, fileId)
    decreases |b|
  {
    if |b| > 0 {
      var n := |b| - 1;
      assert (a + b)[..|a + b| - 1] == a + b[..n];
      LocsToPatchesAppend(a, b[..n], fileId);
    } else {
      assert a + b == a;
    }
  }

  // The regular expressions, written out. `.` matches any byte but a newline.

  predicate NoNewline(v: Bytes)
  {
    forall i :: 0 <= i < |v| ==> v[i] != NEWLINE
  }

  /** `v` is `p` followed by `.*`. */
  predicate PrefixThenLine(v: Bytes, p: string)
  {
    |p| <= |v| && Chars(v[..|p|]) == p && NoNewline(v[|p|..])
  }

  /** `_TWO_TOKEN_OPTIONS.fullmatch`: an option whose value is the next argument. */
  predicate TwoTokenOption(v: Bytes)
  {
    Chars(v) in ["-I", "-iquote", "-isystem", "-o", "-Xclang"]
  }

  const BLOCKED_ARGS: seq<string> := [
    "-fallow-pcm-with-compiler-errors", "-fmodule-map-file-home-is-cwd", "-fno-crash-diagnostics",
    "-fno-cxx-modules", "-fno-implicit-module-maps", "-fno-implicit-modules", "-fpermissive",
    "-fsyntax-only", "-no-pedantic", "--no-pedantic", "-nostdinc++", "-nostdlib++", "--no-warnings",
    "-pedantic", "--pedantic", "-pedantic-errors", "--pedantic-errors", "-w", "-Xclang=-emit-module",
    "-Xclang=-fno-cxx-modules", "-Xclang=-fmodule-map-file-home-is-cwd"]

  const BLOCKED_ARG_PREFIXES: seq<string> := ["-ferror-limit=", "-fmax-errors=", "-I", "-o", "-W"]

  /** `_REMOVAL_BLOCKLIST.fullmatch`: an argument that is never removed. */
  predicate Blocklisted(v: Bytes)
  {
    Chars(v) in BLOCKED_ARGS || exists k :: 0 <= k < |BLOCKED_ARG_PREFIXES| && PrefixThenLine(v, BLOCKED_ARG_PREFIXES[k])
  }

  const BLOCKED_PAIR_PREFIXES: seq<string> := ["-I ", "-iquote ", "-isystem ", "-o "]

  /** `_TWO_TOKEN_OPTIONS_REMOVAL_BLOCKLIST.fullmatch` of the option, a space and its value. */
  predicate PairBlocklisted(option: Bytes, value: Bytes)
  {
    var v := option + [SPACE] + value;
    Chars(v) == "-Xclang -fallow-pcm-with-compiler-errors"
    || exists k :: 0 <= k < |BLOCKED_PAIR_PREFIXES| && PrefixThenLine(v, BLOCKED_PAIR_PREFIXES[k])
  }

  /** A byte of `\w`, for ASCII text. */
  predicate IsWordByte(b: Byte)
  {
    'a' as int <= b <= 'z' as int || 'A' as int <= b <= 'Z' as int || '0' as int <= b <= '9' as int || b == '_' as int
  }

  predicate OccursAt(v: Bytes, i: nat, w: string)
  {
    i + |w| <= |v| && Chars(v[i..i + |w|]) == w
  }

  predicate Contains(v: Bytes, w: string)
  {
    exists i :: 0 <= i <= |v| && OccursAt(v, i, w)
  }

  /** `w` occurs at `i` between word boundaries (`\b...\b`). */
  predicate WordAt(v: Bytes, i: nat, w: string)
  {
    OccursAt(v, i, w) && (i == 0 || !IsWordByte(v[i - 1])) && (i + |w| == |v| || !IsWordByte(v[i + |w|]))
  }

  /** `_ARG_REMOVAL_PROG_ALLOWLIST.search`: the program looks like a C or C++ compiler. */
  predicate ProgAllowlisted(v: Bytes)
  {
    (exists i :: 0 <= i <= |v| && WordAt(v, i, "CC"))
    || Contains(v, "clang") || Contains(v, "CLANG")
    || (exists i :: 0 <= i <= |v| && WordAt(v, i, "CXX"))
    || Contains(v, "g++") || Contains(v, "G++") || Contains(v, "gcc") || Contains(v, "GCC")
  }

  /** The end of the line that starts at `i`: the first newline at or after `i`, or the end. */
  function LineEnd(v: Bytes, i: nat): (j: nat)
    requires i <= |v|
    ensures i <= j <= |v| && NoNewline(v[i..j]) && (j < |v| ==> v[j] == NEWLINE)
    decreases |v| - i
  {
    if i == |v| || v[i] == NEWLINE then i else LineEnd(v, i + 1)
  }

  /** The `group(1)` of each match of `_FILE_PATH_OPTIONS` at or after `i`: the rest of the line after each `=`. */
  function AfterEquals(v: Bytes, i: nat): (r: seq<Bytes>)
    requires i <= |v|
    decreases |v| - i
  {
    if i == |v| then []
    else if v[i] == '=' as int then [v[i + 1..LineEnd(v, i + 1)]] + AfterEquals(v, i + 1)
    else AfterEquals(v, i + 1)
  }

  /** An argument's possible paths: the argument itself, then what follows each `=` in it. */
  function PossiblePaths(v: Bytes): seq<Bytes>
  {
    [v] + AfterEquals(v, 0)
  }

  /** Every suffix taken after an `=` is a newline-free part of the argument that follows an `=`. */
  lemma {:induction false} AfterEqualsSpec(v: Bytes, i: nat)
    requires i <= |v|
    ensures forall s :: s in AfterEquals(v, i) ==>
      NoNewline(s) && exists e :: i <= e < |v| && v[e] == '=' as int && e + 1 + |s| <= |v| && s == v[e + 1..e + 1 + |s|]
    decreases |v| - i
  {
    if i < |v| {
      AfterEqualsSpec(v, i + 1);
    }
  }

  // `_get_removable_arg_groups`.

  /** A two-token option is waiting for its value when the argument at `n` comes. */
  predicate Pending(args: seq<TextWithLoc>, n: nat)
    requires n <= |args|
  {
    n > 0 && !Pending(args, n - 1) && TwoTokenOption(args[n - 1].value)
  }

  /** Spans `[b, e)` of argument indices, in `0..n`. */
  ghost predicate SpansIn(spans: seq<(nat, nat)>, n: nat)
  {
    forall k :: 0 <= k < |spans| ==> spans[k].0 < spans[k].1 <= n
  }

  /** The index spans of the removable groups among the first `n` arguments. */
  function GroupSpans(args: seq<TextWithLoc>, n: nat): (r: seq<(nat, nat)>)
    requires n <= |args|
    ensures SpansIn(r, n)
  {
    if n == 0 then []
    else
      var m := n - 1;
      GroupSpans(args, m)
      + if Pending(args, m) then
          (if !PairBlocklisted(args[m - 1].value, args[m].value) then [(m - 1, n)] else [])
        else if TwoTokenOption(args[m].value) || Blocklisted(args[m].value) then []
        else [(m, n)]
  }

  function Slices(args: seq<TextWithLoc>, spans: seq<(nat, nat)>): (r: seq<seq<TextWithLoc>>)
    requires SpansIn(spans, |args|)
    ensures |r| == |spans| && forall k :: 0 <= k < |spans| ==> r[k] == args[spans[k].0..spans[k].1]
  {
    if |spans| == 0 then [] else Slices(args, spans[..|spans| - 1]) + [args[spans[|spans| - 1].0..spans[|spans| - 1].1]]
  }

  /** What `_get_removable_arg_groups` returns. */
  function RemovableArgGroups(args: seq<TextWithLoc>): seq<seq<TextWithLoc>>
  {
    Slices(args, GroupSpans(args, |args|))
  }

  /** `_get_removable_arg_groups`. */
  method GetRemovableArgGroups(args: seq<TextWithLoc>) returns (removable: seq<seq<TextWithLoc>>)
    ensures removable == RemovableArgGroups(args)
  {
    var twoTokenOption: Option<TextWithLoc> := None;
    removable := [];
    for i := 0 to |args|
      invariant removable == Slices(args, GroupSpans(args, i))
      invariant twoTokenOption == if Pending(args, i) then Some(args[i - 1]) else None
    {
      GroupSlicesSnoc(args, i);
      var arg := args[i];
      if twoTokenOption.Some? {
        if !PairBlocklisted(twoTokenOption.value.value, arg.value) {
          removable := removable + [[twoTokenOption.value, arg]];
        }
        twoTokenOption := None;
        continue;
      }
      if TwoTokenOption(arg.value) {
        twoTokenOption := Some(arg);
        continue;
      }
      if Blocklisted(arg.value) {
        continue;
      }
      removable := removable + [[arg]];
    }
  }

  /** Argument `i` closes a pair with the pending option, starts one, is dropped, or is a group of its own. */
  lemma GroupSlicesSnoc(args: seq<TextWithLoc>, i: nat)
    requires i < |args|
    ensures Slices(args, GroupSpans(args, i + 1)) == Slices(args, GroupSpans(args, i)) +
      if Pending(args, i) then
        (if !PairBlocklisted(args[i - 1].value, args[i].value) then [[args[i - 1], args[i]]] else [])
      else if TwoTokenOption(args[i].value) || Blocklisted(args[i].value) then []
      else [[args[i]]]
  {
    if i > 0 {
      assert args[i - 1..i + 1] == [args[i - 1], args[i]];
    }
    assert args[i..i + 1] == [args[i]];
    var pre := GroupSpans(args, i);
    var post := GroupSpans(args, i + 1);
    if |post| == |pre| {
      assert post == pre;
      assert Slices(args, pre) + [] == Slices(args, pre);
    } else {
      assert post[..|pre|] == pre;
    }
  }

  /** One removable group: a lone argument, or a two-token option with its value. */
  ghost predicate GroupSpan(args: seq<TextWithLoc>, b: nat, e: nat)
    requires b < e <= |args|
  {
    (e == b + 1 && !Pending(args, b) && !TwoTokenOption(args[b].value) && !Blocklisted(args[b].value))
    || (e == b + 2 && Pending(args, b + 1) && !PairBlocklisted(args[b].value, args[b + 1].value))
  }

  /** The spans are disjoint and in increasing order. */
  ghost predicate InOrder(spans: seq<(nat, nat)>)
  {
    forall i, j :: 0 <= i < j < |spans| ==> spans[i].1 <= spans[j].0
  }

  lemma {:induction false} GroupSpansOrdered(args: seq<TextWithLoc>, n: nat)
    requires n <= |args|
    ensures InOrder(GroupSpans(args, n))
    ensures Pending(args, n) ==> forall k :: 0 <= k < |GroupSpans(args, n)| ==> GroupSpans(args, n)[k].1 < n
  {
    if n > 0 {
      var m := n - 1;
      GroupSpansOrdered(args, m);
      GroupSpansSound(args, m);
      var pre := GroupSpans(args, m);
      var spans := GroupSpans(args, n);
      assert forall k :: 0 <= k < |pre| ==> spans[k] == pre[k];
      if Pending(args, m) {
        assert !Pending(args, m - 1) && TwoTokenOption(args[m - 1].value);
        forall k | 0 <= k < |pre|
          ensures pre[k].1 < m
        {
          var b := pre[k].0;
          assert GroupSpan(args, b, pre[k].1);
        }
      }
      forall i, j | 0 <= i < j < |spans|
        ensures spans[i].1 <= spans[j].0
      {
        if j >= |pre| {
          assert spans[i] == pre[i];
        }
      }
    }
  }

  lemma {:induction false} GroupSpansSound(args: seq<TextWithLoc>, n: nat)
    requires n <= |args|
    ensures forall k :: 0 <= k < |GroupSpans(args, n)| ==> GroupSpan(args, GroupSpans(args, n)[k].0, GroupSpans(args, n)[k].1)
  {
    if n > 0 {
      var m := n - 1;
      GroupSpansSound(args, m);
      var pre := GroupSpans(args, m);
      var spans := GroupSpans(args, n);
      forall k | 0 <= k < |spans|
        ensures GroupSpan(args, spans[k].0, spans[k].1)
      {
        if k < |pre| {
          assert spans[k] == pre[k];
        } else if Pending(args, m) {
          assert spans[k] == (m - 1, n);
        } else {
          assert spans[k] == (m, n);
        }
      }
    }
  }

  lemma {:induction false} GroupSpansPrefix(args: seq<TextWithLoc>, a: nat, b: nat)
    requires a <= b <= |args|
    ensures var x := GroupSpans(args, a); var y := GroupSpans(args, b); |x| <= |y| && x == y[..|x|]
    decreases b - a
  {
    if a < b {
      GroupSpansPrefix(args, a, b - 1);
    }
  }

  lemma GroupSpansComplete(args: seq<TextWithLoc>, n: nat)
    requires n <= |args|
    ensures var spans := GroupSpans(args, n);
      (forall m :: 0 <= m < n && !Pending(args, m) && !TwoTokenOption(args[m].value) && !Blocklisted(args[m].value)
            ==> (m, m + 1) in spans)
      && (forall m :: 0 < m < n && Pending(args, m) && !PairBlocklisted(args[m - 1].value, args[m].value)
            ==> (m - 1, m + 1) in spans)
  {
    var spans := GroupSpans(args, n);
    forall m | 0 <= m < n
      ensures (!Pending(args, m) && !TwoTokenOption(args[m].value) && !Blocklisted(args[m].value)) ==> (m, m + 1) in spans
      ensures (m > 0 && Pending(args, m) && !PairBlocklisted(args[m - 1].value, args[m].value)) ==> (m - 1, m + 1) in spans
    {
      GroupSpansPrefix(args, m + 1, n);
      var x := GroupSpans(args, m + 1);
      if |x| > 0 {
        assert x[|x| - 1] == spans[|x| - 1];
      }
    }
  }

  /**
   * The groups are disjoint and in order; each is a lone argument that is
   * neither a two-token option nor blocklisted, or a two-token option and
   * the argument after it whose pair is not blocklisted; and every such
   * argument or pair is a group.
   */
  lemma GroupSpansSpec(args: seq<TextWithLoc>)
    ensures var spans := GroupSpans(args, |args|);
      InOrder(spans)
      && (forall k :: 0 <= k < |spans| ==> GroupSpan(args, spans[k].0, spans[k].1))
      && (forall m :: 0 <= m < |args| && !Pending(args, m) && !TwoTokenOption(args[m].value) && !Blocklisted(args[m].value)
            ==> (m, m + 1) in spans)
      && (forall m :: 0 < m < |args| && Pending(args, m) && !PairBlocklisted(args[m - 1].value, args[m].value)
            ==> (m - 1, m + 1) in spans)
  {
    GroupSpansOrdered(args, |args|);
    GroupSpansSound(args, |args|);
    GroupSpansComplete(args, |args|);
  }

  // The insertion-ordered dictionaries of the two hint generators.

  /** A dictionary from names to lists of locations, with its keys in insertion order. */
  datatype Mentions = Mentions(keys: seq<Bytes>, locs: map<Bytes, seq<SourceLoc>>)

  const EMPTY: Mentions := Mentions([], map[])

  ghost predicate WellFormed(d: Mentions)
  {
    NoDuplicates(d.keys) && forall k :: k in d.locs <==> k in d.keys
  }

  /** `d.setdefault(key, []).extend(more)`. */
  function Record(d: Mentions, key: Bytes, more: seq<SourceLoc>): (r: Mentions)
    ensures WellFormed(d) ==> WellFormed(r)
  {
    if key in d.locs then d.(locs := d.locs[key := d.locs[key] + more])
    else Mentions(d.keys + [key], d.locs[key := more])
  }

  /** One hint of type `hintType` per key, in key order, deleting the key's locations. */
  function HintsFor(keys: seq<Bytes>, locs: map<Bytes, seq<SourceLoc>>, hintType: nat, fileId: nat): (r: seq<Hint>)
    requires forall k :: k in keys ==> k in locs
    ensures |r| == |keys|
  {
    if |keys| == 0 then []
    else
      HintsFor(keys[..|keys| - 1], locs, hintType, fileId)
      + [Hint(Some(hintType), LocsToPatches(locs[keys[|keys| - 1]], fileId), None)]
  }

  lemma {:induction false} HintsForSpec(keys: seq<Bytes>, locs: map<Bytes, seq<SourceLoc>>, hintType: nat, fileId: nat)
    requires forall k :: k in keys ==> k in locs
    ensures forall k :: 0 <= k < |keys| ==>
      HintsFor(keys, locs, hintType, fileId)[k] == Hint(Some(hintType), LocsToPatches(locs[keys[k]], fileId), None)
  {
    if |keys| > 0 {
      HintsForSpec(keys[..|keys| - 1], locs, hintType, fileId);
    }
  }

  /** The token's preceding whitespace, if any, then the token. */
  function SpacesAndLoc(t: TextWithLoc): seq<SourceLoc>
  {
    (if t.precedingSpaces.Some? then [t.precedingSpaces.value] else []) + [t.loc]
  }

  /** The locations recorded for an argument group. */
  function GroupLocs(g: seq<TextWithLoc>): seq<SourceLoc>
  {
    if |g| == 0 then [] else GroupLocs(g[..|g| - 1]) + SpacesAndLoc(g[|g| - 1])
  }

  /** `b' '.join` of the group's values. */
  function GroupKey(g: seq<TextWithLoc>): Bytes
  {
    if |g| == 0 then []
    else if |g| == 1 then g[0].value
    else GroupKey(g[..|g| - 1]) + [SPACE] + g[|g| - 1].value
  }

  /** The removable argument groups of the compiler commands among `lines`, in order. */
  function CommandGroups(lines: seq<RecipeLine>): seq<seq<TextWithLoc>>
  {
    if |lines| == 0 then []
    else
      var l := lines[|lines| - 1];
      CommandGroups(lines[..|lines| - 1]) + if ProgAllowlisted(l.program.value) then RemovableArgGroups(l.args) else []
  }

  function RecipeGroups(rules: seq<Rule>): seq<seq<TextWithLoc>>
  {
    if |rules| == 0 then [] else RecipeGroups(rules[..|rules| - 1]) + CommandGroups(rules[|rules| - 1].recipe)
  }

  function CollectGroups(d: Mentions, groups: seq<seq<TextWithLoc>>): (r: Mentions)
    ensures WellFormed(d) ==> WellFormed(r)
  {
    if |groups| == 0 then d
    else
      var g := groups[|groups| - 1];
      Record(CollectGroups(d, groups[..|groups| - 1]), GroupKey(g), GroupLocs(g))
  }

  /** The hints `_add_arg_removal_hints` appends. */
  function ArgRemovalHints(mk: Makefile, fileId: nat): seq<Hint>
  {
    var d := CollectGroups(EMPTY, RecipeGroups(mk.rules));
    HintsFor(d.keys, d.locs, REMOVE_ARGUMENTS_TYPE, fileId)
  }

  /** The body of the loop over one argument group: its locations are appended under its text. */
  method RecordGroup(argLocs: Mentions, argGroup: seq<TextWithLoc>) returns (d: Mentions)
    ensures d == Record(argLocs, GroupKey(argGroup), GroupLocs(argGroup))
  {
    d := argLocs;
    var key := GroupKey(argGroup);
    if key !in d.locs {
      d := Mentions(d.keys + [key], d.locs[key := []]);
    }
    var locs := d.locs[key];
    assert key in argLocs.locs ==> locs == argLocs.locs[key];
    assert key !in argLocs.locs ==> locs == [];
    ghost var start := locs;
    for l := 0 to |argGroup|
      invariant locs == start + GroupLocs(argGroup[..l])
    {
      var arg := argGroup[l];
      assert argGroup[..l + 1][..l] == argGroup[..l];
      if arg.precedingSpaces.Some? {
        locs := locs + [arg.precedingSpaces.value];
      }
      locs := locs + [arg.loc];
    }
    assert argGroup[..|argGroup|] == argGroup;
    assert key !in argLocs.locs ==> locs == GroupLocs(argGroup);
    d := d.(locs := d.locs[key := locs]);
  }

  /** The loop that turns a dictionary's values into hints, appended in key order. */
  method AppendHints(d: Mentions, hintType: nat, fileId: nat, hintsIn: seq<Hint>) returns (hints: seq<Hint>)
    requires WellFormed(d)
    ensures hints == hintsIn + HintsFor(d.keys, d.locs, hintType, fileId)
  {
    hints := hintsIn;
    for k := 0 to |d.keys|
      invariant hints == hintsIn + HintsFor(d.keys[..k], d.locs, hintType, fileId)
    {
      assert d.keys[..k + 1][..k] == d.keys[..k];
      hints := hints + [Hint(Some(hintType), LocsToPatches(d.locs[d.keys[k]], fileId), None)];
    }
    assert d.keys[..|d.keys|] == d.keys;
  }

  lemma {:induction false} CollectGroupsAppend(d: Mentions, a: seq<seq<TextWithLoc>>, b: seq<seq<TextWithLoc>>)
    ensures CollectGroups(d, a + b) == CollectGroups(CollectGroups(d, a), b)
    decreases |b|
  {
    if |b| > 0 {
      assert (a + b)[..|a + b| - 1] == a + b[..|b| - 1];
      CollectGroupsAppend(d, a, b[..|b| - 1]);
    } else {
      assert a + b == a;
    }
  }

  /** The loop over the removable groups of one command. */
  method RecordGroups(argLocs: Mentions, groups: seq<seq<TextWithLoc>>) returns (d: Mentions)
    ensures d == CollectGroups(argLocs, groups)
  {
    d := argLocs;
    for k := 0 to |groups|
      invariant d == CollectGroups(argLocs, groups[..k])
    {
      assert groups[..k + 1][..k] == groups[..k];
      d := RecordGroup(d, groups[k]);
    }
    assert groups[..|groups|] == groups;
  }

  /** The loop over the recipe lines of one rule. */
  method RecordCommands(argLocs: Mentions, recipe: seq<RecipeLine>) returns (d: Mentions)
    ensures d == CollectGroups(argLocs, CommandGroups(recipe))
  {
    d := argLocs;
    for j := 0 to |recipe|
      invariant d == CollectGroups(argLocs, CommandGroups(recipe[..j]))
    {
      var recipeLine := recipe[j];
      assert recipe[..j + 1][..j] == recipe[..j];
      if !ProgAllowlisted(recipeLine.program.value) {
        assert recipe[..j + 1][j] == recipeLine;
        assert CommandGroups(recipe[..j + 1]) == CommandGroups(recipe[..j]) + [];
        assert CommandGroups(recipe[..j]) + [] == CommandGroups(recipe[..j]);
        continue;
      }
      var groups := GetRemovableArgGroups(recipeLine.args);
      assert recipe[..j + 1][j] == recipeLine;
      assert CommandGroups(recipe[..j + 1]) == CommandGroups(recipe[..j]) + groups;
      CollectGroupsAppend(argLocs, CommandGroups(recipe[..j]), groups);
      d := RecordGroups(d, groups);
    }
    assert recipe[..|recipe|] == recipe;
  }

  /**
   * `_add_arg_removal_hints`: every removable argument group of every
   * compiler command is recorded under its text, and each distinct text
   * becomes one hint.
   */
  method AddArgRemovalHints(mk: Makefile, fileId: nat, hintsIn: seq<Hint>) returns (hints: seq<Hint>)
    ensures hints == hintsIn + ArgRemovalHints(mk, fileId)
  {
    var argLocs := EMPTY;
    for i := 0 to |mk.rules|
      invariant argLocs == CollectGroups(EMPTY, RecipeGroups(mk.rules[..i]))
    {
      RecipeGroupsSnoc(mk.rules, i);
      CollectGroupsAppend(EMPTY, RecipeGroups(mk.rules[..i]), CommandGroups(mk.rules[i].recipe));
      argLocs := RecordCommands(argLocs, mk.rules[i].recipe);
    }
    assert mk.rules[..|mk.rules|] == mk.rules;
    hints := AppendHints(argLocs, REMOVE_ARGUMENTS_TYPE, fileId, hintsIn);
  }

  lemma RecipeGroupsSnoc(rules: seq<Rule>, i: nat)
    requires i < |rules|
    ensures RecipeGroups(rules[..i + 1]) == RecipeGroups(rules[..i]) + CommandGroups(rules[i].recipe)
  {
    assert rules[..i + 1][..i] == rules[..i];
  }

  /** The distinct texts of the groups, in order of first occurrence. */
  function KeysInOrder(groups: seq<seq<TextWithLoc>>): seq<Bytes>
  {
    if |groups| == 0 then []
    else
      var pre := KeysInOrder(groups[..|groups| - 1]);
      var key := GroupKey(groups[|groups| - 1]);
      if key in pre then pre else pre + [key]
  }

  /** The locations of every group with text `key`, in order. */
  function LocsOfKey(groups: seq<seq<TextWithLoc>>, key: Bytes): seq<SourceLoc>
  {
    if |groups| == 0 then []
    else
      var g := groups[|groups| - 1];
      LocsOfKey(groups[..|groups| - 1], key) + if GroupKey(g) == key then GroupLocs(g) else []
  }

  lemma {:induction false} LocsOfAbsentKey(groups: seq<seq<TextWithLoc>>, key: Bytes)
    requires key !in KeysInOrder(groups)
    ensures LocsOfKey(groups, key) == []
  {
    if |groups| > 0 {
      LocsOfAbsentKey(groups[..|groups| - 1], key);
    }
  }

  /** Collecting from an empty dictionary records exactly the texts in first-occurrence order, each with all its locations. */
  lemma {:induction false} CollectGroupsSpec(groups: seq<seq<TextWithLoc>>)
    ensures WellFormed(CollectGroups(EMPTY, groups))
    ensures CollectGroups(EMPTY, groups).keys == KeysInOrder(groups)
    ensures forall key :: key in CollectGroups(EMPTY, groups).locs ==> CollectGroups(EMPTY, groups).locs[key] == LocsOfKey(groups, key)
  {
    assert WellFormed(EMPTY);
    if |groups| > 0 {
      var pre := groups[..|groups| - 1];
      CollectGroupsSpec(pre);
      var key := GroupKey(groups[|groups| - 1]);
      if key !in KeysInOrder(pre) {
        LocsOfAbsentKey(pre, key);
      }
    }
  }

  lemma {:induction false} KeysInOrderSpec(groups: seq<seq<TextWithLoc>>, key: Bytes)
    ensures key in KeysInOrder(groups) <==> exists i :: 0 <= i < |groups| && GroupKey(groups[i]) == key
  {
    if |groups| > 0 {
      var pre := groups[..|groups| - 1];
      KeysInOrderSpec(pre, key);
      if exists i :: 0 <= i < |groups| && GroupKey(groups[i]) == key {
        var i :| 0 <= i < |groups| && GroupKey(groups[i]) == key;
        if i < |pre| {
          assert GroupKey(pre[i]) == key;
        }
      }
    }
  }

  /**
   * `_add_arg_removal_hints` appends one hint per distinct argument text:
   * the texts are distinct, every removable group's text has a hint, and
   * the hint of a text deletes every occurrence of it in every compiler
   * command, each with its preceding whitespace.
   */
  lemma ArgRemovalHintsSpec(mk: Makefile, fileId: nat)
    ensures NoDuplicates(KeysInOrder(RecipeGroups(mk.rules)))
    ensures |ArgRemovalHints(mk, fileId)| == |KeysInOrder(RecipeGroups(mk.rules))|
    ensures forall i :: 0 <= i < |RecipeGroups(mk.rules)| ==> GroupKey(RecipeGroups(mk.rules)[i]) in KeysInOrder(RecipeGroups(mk.rules))
    ensures forall k :: 0 <= k < |ArgRemovalHints(mk, fileId)| ==>
      var key := KeysInOrder(RecipeGroups(mk.rules))[k];
      ArgRemovalHints(mk, fileId)[k] == Hint(Some(REMOVE_ARGUMENTS_TYPE), LocsToPatches(LocsOfKey(RecipeGroups(mk.rules), key), fileId), None)
  {
    var groups := RecipeGroups(mk.rules);
    var d := CollectGroups(EMPTY, groups);
    CollectGroupsSpec(groups);
    HintsForSpec(d.keys, d.locs, REMOVE_ARGUMENTS_TYPE, fileId);
    forall i | 0 <= i < |groups|
      ensures GroupKey(groups[i]) in KeysInOrder(groups)
    {
      KeysInOrderSpec(groups, GroupKey(groups[i]));
    }
  }

  // _add_target_removal_hints

  /** Every location in `d` is still recorded, at the head of its list, in `e`. */
  ghost predicate Grows(d: Mentions, e: Mentions)
  {
    forall k :: k in d.locs ==> k in e.locs && d.locs[k] <= e.locs[k]
  }

  lemma GrowsTrans(a: Mentions, b: Mentions, c: Mentions)
    requires Grows(a, b) && Grows(b, c)
    ensures Grows(a, c)
  {
    forall k | k in a.locs
      ensures k in c.locs && a.locs[k] <= c.locs[k]
    {
      assert a.locs[k] == b.locs[k][..|a.locs[k]|];
      assert b.locs[k] == c.locs[k][..|b.locs[k]|];
      assert a.locs[k] == c.locs[k][..|a.locs[k]|];
    }
  }

  lemma RecordGrows(d: Mentions, key: Bytes, more: seq<SourceLoc>)
    ensures Grows(d, Record(d, key, more))
    ensures key in Record(d, key, more).locs
    ensures forall l :: l in more ==> l in Record(d, key, more).locs[key]
  {
  }

  function PathLocs(p: PathWithLoc): seq<SourceLoc>
  {
    (if p.precedingSpaces.Some? then [p.precedingSpaces.value] else []) + [p.loc]
  }

  /** The names among `ps` are recorded one after another, each with its preceding whitespace and location. */
  function PathMentions(d: Mentions, ps: seq<PathWithLoc>): (r: Mentions)
    ensures WellFormed(d) ==> WellFormed(r)
    ensures Grows(d, r)
    ensures forall name :: name in r.locs <==> name in d.locs || exists j :: 0 <= j < |ps| && ps[j].value == name
    ensures forall j :: 0 <= j < |ps| ==> ps[j].value in r.locs && ps[j].loc in r.locs[ps[j].value]
  {
    if |ps| == 0 then d
    else
      var p := ps[|ps| - 1];
      var pre := PathMentions(d, ps[..|ps| - 1]);
      RecordGrows(pre, p.value, PathLocs(p));
      GrowsTrans(d, pre, Record(pre, p.value, PathLocs(p)));
      assert forall j :: 0 <= j < |ps| - 1 ==> ps[..|ps| - 1][j] == ps[j];
      Record(pre, p.value, PathLocs(p))
  }

  function TargetValues(r: Rule): set<Bytes>
  {
    set t | t in r.targets :: t.value
  }

  /** A rule has one distinct target name exactly when it has targets and they all carry the first one's name. */
  lemma OneDistinctTarget(r: Rule)
    ensures |TargetValues(r)| == 1 <==>
      |r.targets| > 0 && forall j :: 0 <= j < |r.targets| ==> r.targets[j].value == r.targets[0].value
  {
    var names := TargetValues(r);
    if |r.targets| == 0 {
      assert names == {};
    } else {
      var x := r.targets[0].value;
      assert r.targets[0] in r.targets;
      assert x in names;
      if |names| == 1 {
        assert |names - {x}| == 0;
        forall j | 0 <= j < |r.targets|
          ensures r.targets[j].value == x
        {
          assert r.targets[j] in r.targets;
          assert r.targets[j].value in names;
          assert r.targets[j].value !in names - {x};
        }
      }
      if forall j :: 0 <= j < |r.targets| ==> r.targets[j].value == x {
        forall v | v in names
          ensures v == x
        {
          var t :| t in r.targets && t.value == v;
          var j :| 0 <= j < |r.targets| && r.targets[j] == t;
        }
        assert names == {x};
      }
    }
  }

  /** The header of one rule: the whole rule under its only target name, or each target, and then each prerequisite. */
  function HeaderRule(d: Mentions, r: Rule): (e: Mentions)
    ensures WellFormed(d) ==> WellFormed(e)
    ensures Grows(d, e)
  {
    OneDistinctTarget(r);
    var withTargets :=
      if |TargetValues(r)| == 1 then RecordGrows(d, r.targets[0].value, [r.loc]); Record(d, r.targets[0].value, [r.loc])
      else PathMentions(d, r.targets);
    GrowsTrans(d, withTargets, PathMentions(withTargets, r.prereqs));
    PathMentions(withTargets, r.prereqs)
  }

  /** The dictionary after the loop over the rule headers. */
  function HeaderMentions(rules: seq<Rule>): (r: Mentions)
    ensures WellFormed(r)
  {
    if |rules| == 0 then EMPTY else HeaderRule(HeaderMentions(rules[..|rules| - 1]), rules[|rules| - 1])
  }

  /** The names of `keys` that are not in `drop`, in order. */
  function Filter(keys: seq<Bytes>, drop: set<Bytes>): (r: seq<Bytes>)
    ensures forall x :: x in r <==> x in keys && x !in drop
    ensures NoDuplicates(keys) ==> NoDuplicates(r)
  {
    if |keys| == 0 then []
    else
      var pre := Filter(keys[..|keys| - 1], drop);
      var last := keys[|keys| - 1];
      assert forall x :: x in keys <==> x in keys[..|keys| - 1] || x == last;
      if last in drop then pre else pre + [last]
  }

  lemma {:induction false} FilterNothing(keys: seq<Bytes>)
    ensures Filter(keys, {}) == keys
  {
    if |keys| > 0 {
      FilterNothing(keys[..|keys| - 1]);
    }
  }

  lemma {:induction false} FilterTwice(keys: seq<Bytes>, drop: set<Bytes>, name: Bytes)
    ensures Filter(Filter(keys, drop), {name}) == Filter(keys, drop + {name})
  {
    if |keys| > 0 {
      var pre := keys[..|keys| - 1];
      FilterTwice(pre, drop, name);
      var f := Filter(keys, drop);
      if keys[|keys| - 1] !in drop {
        assert f[..|f| - 1] == Filter(pre, drop);
      }
    }
  }

  /** `d` with every name of `drop` popped. */
  function Without(d: Mentions, drop: set<Bytes>): (r: Mentions)
    ensures WellFormed(d) ==> WellFormed(r)
    ensures forall k :: k in r.locs <==> k in d.locs && k !in drop
    ensures forall k :: k in r.locs ==> r.locs[k] == d.locs[k]
  {
    Mentions(Filter(d.keys, drop), d.locs - drop)
  }

  lemma WithoutOneMore(d: Mentions, drop: set<Bytes>, name: Bytes)
    ensures Without(Without(d, drop), {name}) == Without(d, drop + {name})
  {
    FilterTwice(d.keys, drop, name);
    assert (d.locs - drop) - {name} == d.locs - (drop + {name});
  }

  /** The loop popping the built-in and phony targets, in any order. */
  method PopTargets(dIn: Mentions, drop: set<Bytes>) returns (d: Mentions)
    ensures d == Without(dIn, drop)
  {
    FilterNothing(dIn.keys);
    assert dIn.locs - {} == dIn.locs;
    d := dIn;
    var popped := {};
    while popped != drop
      invariant popped <= drop
      invariant d == Without(dIn, popped)
      decreases |drop - popped|
    {
      var name :| name in drop - popped;
      WithoutOneMore(dIn, popped, name);
      d := Mentions(Filter(d.keys, {name}), d.locs - {name});
      assert drop - (popped + {name}) < drop - popped;
      popped := popped + {name};
    }
  }

  /** The first of `paths` that is a known target, if any. */
  function FirstKnown(paths: seq<Bytes>, locs: map<Bytes, seq<SourceLoc>>): (r: Option<Bytes>)
    ensures r.None? ==> forall i :: 0 <= i < |paths| ==> paths[i] !in locs
    ensures r.Some? ==> r.value in locs && (exists i :: 0 <= i < |paths| && paths[i] == r.value &&
                                               forall j :: 0 <= j < i ==> paths[j] !in locs)
  {
    if |paths| == 0 then None
    else if paths[0] in locs then Some(paths[0])
    else
      var r := FirstKnown(paths[1..], locs);
      assert forall i :: 0 < i < |paths| ==> paths[i] == paths[1..][i - 1];
      if r.Some? then
        var i :| 0 <= i < |paths[1..]| && paths[1..][i] == r.value && forall j :: 0 <= j < i ==> paths[1..][j] !in locs;
        assert paths[i + 1] == r.value;
        r
      else r
  }

  function Spaces(t: TextWithLoc): seq<SourceLoc>
  {
    if t.precedingSpaces.Some? then [t.precedingSpaces.value] else []
  }

  /**
   * The locations recorded for a command-line argument that names a
   * target: the argument with its whitespace and, when the argument
   * before it is a two-token option, that option's location and then
   * its whitespace.
   */
  function ArgLocs(args: seq<TextWithLoc>, i: nat): seq<SourceLoc>
    requires i < |args|
  {
    SpacesAndLoc(args[i])
    + if i > 0 && TwoTokenOption(args[i - 1].value) then [args[i - 1].loc] + Spaces(args[i - 1]) else []
  }

  /** The effect of the first `n` arguments of a command. */
  function ArgsMentions(d: Mentions, args: seq<TextWithLoc>, n: nat): (r: Mentions)
    requires n <= |args|
    ensures r.keys == d.keys && r.locs.Keys == d.locs.Keys
    ensures Grows(d, r)
  {
    if n == 0 then d
    else
      var pre := ArgsMentions(d, args, n - 1);
      match FirstKnown(PossiblePaths(args[n - 1].value), pre.locs)
      case None => assert Grows(pre, pre); pre
      case Some(path) =>
        RecordGrows(pre, path, ArgLocs(args, n - 1));
        GrowsTrans(d, pre, Record(pre, path, ArgLocs(args, n - 1)));
        Record(pre, path, ArgLocs(args, n - 1))
  }

  /** One recipe line: the whole line when its program is a known target, otherwise its arguments. */
  function LineMentions(d: Mentions, line: RecipeLine): (r: Mentions)
    ensures r.keys == d.keys && r.locs.Keys == d.locs.Keys
    ensures Grows(d, r)
  {
    if line.program.value in d.locs then
      RecordGrows(d, line.program.value, [line.loc]);
      Record(d, line.program.value, [line.loc])
    else ArgsMentions(d, line.args, |line.args|)
  }

  function CommandMentions(d: Mentions, lines: seq<RecipeLine>): (r: Mentions)
    ensures r.keys == d.keys && r.locs.Keys == d.locs.Keys
    ensures Grows(d, r)
  {
    if |lines| == 0 then d
    else
      var pre := CommandMentions(d, lines[..|lines| - 1]);
      GrowsTrans(d, pre, LineMentions(pre, lines[|lines| - 1]));
      LineMentions(pre, lines[|lines| - 1])
  }

  /** The effect of the loop over the recipes: it only appends, never adding or removing a name. */
  function RecipeMentions(d: Mentions, rules: seq<Rule>): (r: Mentions)
    ensures r.keys == d.keys && r.locs.Keys == d.locs.Keys
    ensures Grows(d, r)
  {
    if |rules| == 0 then d
    else
      var pre := RecipeMentions(d, rules[..|rules| - 1]);
      GrowsTrans(d, pre, CommandMentions(pre, rules[|rules| - 1].recipe));
      CommandMentions(pre, rules[|rules| - 1].recipe)
  }

  /** The dictionary `_add_target_removal_hints` turns into hints. */
  function TargetMentions(mk: Makefile): (r: Mentions)
    ensures WellFormed(r)
  {
    RecipeMentions(Without(HeaderMentions(mk.rules), mk.builtinTargets + mk.phonyTargets), mk.rules)
  }

  function TargetRemovalHints(mk: Makefile, fileId: nat): seq<Hint>
  {
    var d := TargetMentions(mk);
    HintsFor(d.keys, d.locs, REMOVE_TARGET_TYPE, fileId)
  }

  /** The loop over the targets or the prerequisites of a rule header. */
  method RecordPaths(dIn: Mentions, ps: seq<PathWithLoc>) returns (d: Mentions)
    ensures d == PathMentions(dIn, ps)
  {
    d := dIn;
    for j := 0 to |ps|
      invariant d == PathMentions(dIn, ps[..j])
    {
      assert ps[..j + 1][..j] == ps[..j];
      d := Record(d, ps[j].value, PathLocs(ps[j]));
    }
    assert ps[..|ps|] == ps;
  }

  /** The loop over the rule headers. */
  method RecordHeaders(rules: seq<Rule>) returns (d: Mentions)
    ensures d == HeaderMentions(rules)
  {
    d := EMPTY;
    for i := 0 to |rules|
      invariant d == HeaderMentions(rules[..i])
    {
      var rule := rules[i];
      assert rules[..i + 1][..i] == rules[..i];
      var names := set t | t in rule.targets :: t.value;
      if |names| == 1 {
        OneDistinctTarget(rule);
        d := Record(d, rule.targets[0].value, [rule.loc]);
      } else {
        d := RecordPaths(d, rule.targets);
      }
      d := RecordPaths(d, rule.prereqs);
    }
    assert rules[..|rules|] == rules;
  }

  /** The search through an argument's possible paths for a known target. */
  method FindKnownPath(paths: seq<Bytes>, locs: map<Bytes, seq<SourceLoc>>) returns (r: Option<Bytes>)
    ensures r == FirstKnown(paths, locs)
  {
    r := None;
    for i := 0 to |paths|
      invariant FirstKnown(paths, locs) == FirstKnown(paths[i..], locs)
    {
      assert paths[i..][1..] == paths[i + 1..];
      if paths[i] in locs {
        r := Some(paths[i]);
        return;
      }
    }
  }

  /** The loop over the arguments of a command whose program is not a known target. */
  method RecordArgs(dIn: Mentions, args: seq<TextWithLoc>) returns (d: Mentions)
    ensures d == ArgsMentions(dIn, args, |args|)
  {
    d := dIn;
    for i := 0 to |args|
      invariant d == ArgsMentions(dIn, args, i)
    {
      var path := FindKnownPath(PossiblePaths(args[i].value), d.locs);
      if path.Some? {
        d := Record(d, path.value, ArgLocs(args, i));
      }
    }
  }

  /** The loop over the recipe lines of one rule. */
  method RecordRecipeLines(dIn: Mentions, recipe: seq<RecipeLine>) returns (d: Mentions)
    ensures d == CommandMentions(dIn, recipe)
  {
    d := dIn;
    for j := 0 to |recipe|
      invariant d == CommandMentions(dIn, recipe[..j])
    {
      var recipeLine := recipe[j];
      assert recipe[..j + 1][..j] == recipe[..j];
      if recipeLine.program.value in d.locs {
        d := Record(d, recipeLine.program.value, [recipeLine.loc]);
        continue;
      }
      d := RecordArgs(d, recipeLine.args);
    }
    assert recipe[..|recipe|] == recipe;
  }

  /**
   * `_add_target_removal_hints`: the names in the rule headers, minus
   * the built-in and phony targets, each with its mentions in headers
   * and commands, become one hint each.
   */
  method AddTargetRemovalHints(mk: Makefile, fileId: nat, hintsIn: seq<Hint>) returns (hints: seq<Hint>)
    ensures hints == hintsIn + TargetRemovalHints(mk, fileId)
  {
    var targetMentions := RecordHeaders(mk.rules);
    targetMentions := PopTargets(targetMentions, mk.builtinTargets + mk.phonyTargets);
    ghost var popped := targetMentions;
    for i := 0 to |mk.rules|
      invariant targetMentions == RecipeMentions(popped, mk.rules[..i])
    {
      assert mk.rules[..i + 1][..i] == mk.rules[..i];
      targetMentions := RecordRecipeLines(targetMentions, mk.rules[i].recipe);
    }
    assert mk.rules[..|mk.rules|] == mk.rules;
    hints := AppendHints(targetMentions, REMOVE_TARGET_TYPE, fileId, hintsIn);
  }

  /** `name` is a target or a prerequisite of `r`. */
  ghost predicate InHeader(r: Rule, name: Bytes)
  {
    (exists j :: 0 <= j < |r.targets| && r.targets[j].value == name)
    || (exists j :: 0 <= j < |r.prereqs| && r.prereqs[j].value == name)
  }

  lemma HeaderRuleKeys(d: Mentions, r: Rule, name: Bytes)
    ensures name in HeaderRule(d, r).locs <==> name in d.locs || InHeader(r, name)
  {
    OneDistinctTarget(r);
  }

  /** The header loop records exactly the names that appear in some rule header. */
  lemma {:induction false} HeaderKeysSpec(rules: seq<Rule>, name: Bytes)
    ensures name in HeaderMentions(rules).locs <==> InSomeHeader(rules, name)
  {
    if |rules| > 0 {
      var n := |rules| - 1;
      HeaderKeysSpec(rules[..n], name);
      HeaderRuleKeys(HeaderMentions(rules[..n]), rules[n], name);
      InSomeHeaderSnoc(rules, name);
    }
  }

  /** `name` appears in the header of one of `rules`. */
  ghost predicate InSomeHeader(rules: seq<Rule>, name: Bytes)
  {
    exists k :: 0 <= k < |rules| && InHeader(rules[k], name)
  }

  lemma InSomeHeaderSnoc(rules: seq<Rule>, name: Bytes)
    requires |rules| > 0
    ensures InSomeHeader(rules, name) <==>
      InSomeHeader(rules[..|rules| - 1], name) || InHeader(rules[|rules| - 1], name)
  {
    var n := |rules| - 1;
    if InSomeHeader(rules, name) {
      var k :| 0 <= k < |rules| && InHeader(rules[k], name);
      if k < n {
        assert rules[..n][k] == rules[k];
      }
    }
    if InSomeHeader(rules[..n], name) {
      var k :| 0 <= k < n && InHeader(rules[..n][k], name);
      assert rules[..n][k] == rules[k];
    }
  }

  lemma {:induction false} HeaderGrows(rules: seq<Rule>, m: nat)
    requires m <= |rules|
    ensures Grows(HeaderMentions(rules[..m]), HeaderMentions(rules))
  {
    if m == |rules| {
      assert rules[..m] == rules;
    } else {
      var n := |rules| - 1;
      assert rules[..n][..m] == rules[..m];
      HeaderGrows(rules[..n], m);
      HeaderStepGrows(rules);
      GrowsTrans(HeaderMentions(rules[..m]), HeaderMentions(rules[..n]), HeaderMentions(rules));
    }
  }

  lemma HeaderStepGrows(rules: seq<Rule>)
    requires |rules| > 0
    ensures Grows(HeaderMentions(rules[..|rules| - 1]), HeaderMentions(rules))
  {
    var n := |rules| - 1;
    assert HeaderMentions(rules) == HeaderRule(HeaderMentions(rules[..n]), rules[n]);
  }

  lemma {:induction false} CommandGrows(d: Mentions, lines: seq<RecipeLine>, m: nat)
    requires m <= |lines|
    ensures Grows(CommandMentions(d, lines[..m]), CommandMentions(d, lines))
  {
    if m == |lines| {
      assert lines[..m] == lines;
    } else {
      var n := |lines| - 1;
      assert lines[..n][..m] == lines[..m];
      CommandGrows(d, lines[..n], m);
      CommandStep(d, lines);
      GrowsTrans(CommandMentions(d, lines[..m]), CommandMentions(d, lines[..n]), CommandMentions(d, lines));
    }
  }

  /** The last line of a command is scanned after the ones before it. */
  lemma CommandStep(d: Mentions, lines: seq<RecipeLine>)
    requires |lines| > 0
    ensures var pre := CommandMentions(d, lines[..|lines| - 1]);
      CommandMentions(d, lines) == LineMentions(pre, lines[|lines| - 1]) && Grows(pre, CommandMentions(d, lines))
  {
  }

  lemma {:induction false} RecipeGrows(d: Mentions, rules: seq<Rule>, m: nat)
    requires m <= |rules|
    ensures Grows(RecipeMentions(d, rules[..m]), RecipeMentions(d, rules))
  {
    if m == |rules| {
      assert rules[..m] == rules;
    } else {
      var n := |rules| - 1;
      assert rules[..n][..m] == rules[..m];
      RecipeGrows(d, rules[..n], m);
      GrowsTrans(RecipeMentions(d, rules[..m]), RecipeMentions(d, rules[..n]), RecipeMentions(d, rules));
    }
  }

  lemma GrowsKeeps(d: Mentions, e: Mentions, name: Bytes, l: SourceLoc)
    requires Grows(d, e) && name in d.locs && l in d.locs[name]
    ensures name in e.locs && l in e.locs[name]
  {
    assert d.locs[name] == e.locs[name][..|d.locs[name]|];
  }

  /** A location recorded for a name during the header loop survives to the final dictionary, unless the name is popped. */
  lemma HeaderLocKept(mk: Makefile, m: nat, name: Bytes, l: SourceLoc)
    requires m <= |mk.rules|
    requires name in HeaderMentions(mk.rules[..m]).locs && l in HeaderMentions(mk.rules[..m]).locs[name]
    requires name !in mk.builtinTargets && name !in mk.phonyTargets
    ensures name in TargetMentions(mk).locs && l in TargetMentions(mk).locs[name]
  {
    HeaderGrows(mk.rules, m);
    GrowsKeeps(HeaderMentions(mk.rules[..m]), HeaderMentions(mk.rules), name, l);
    var popped := Without(HeaderMentions(mk.rules), mk.builtinTargets + mk.phonyTargets);
    assert name in popped.locs && l in popped.locs[name];
    GrowsKeeps(popped, TargetMentions(mk), name, l);
  }

  /**
   * A rule with a single distinct target name is deleted whole by that
   * target's hint, unless the target is built-in or phony.
   */
  lemma SingleTargetRuleRemoved(mk: Makefile, k: nat)
    requires k < |mk.rules| && |TargetValues(mk.rules[k])| == 1
    requires mk.rules[k].targets[0].value !in mk.builtinTargets && mk.rules[k].targets[0].value !in mk.phonyTargets
    ensures mk.rules[k].targets[0].value in TargetMentions(mk).locs
    ensures mk.rules[k].loc in TargetMentions(mk).locs[mk.rules[k].targets[0].value]
  {
    var r := mk.rules[k];
    var name := r.targets[0].value;
    var withTarget := Record(HeaderMentions(mk.rules[..k]), name, [r.loc]);
    RecordGrows(HeaderMentions(mk.rules[..k]), name, [r.loc]);
    var h := PathMentions(withTarget, r.prereqs);
    HeaderMentionsSnoc(mk.rules, k);
    GrowsKeeps(withTarget, h, name, r.loc);
    HeaderLocKept(mk, k + 1, name, r.loc);
  }

  /** Every prerequisite mention is deleted by the prerequisite's hint, unless it is built-in or phony. */
  lemma PrereqMentionRemoved(mk: Makefile, k: nat, j: nat)
    requires k < |mk.rules| && j < |mk.rules[k].prereqs|
    requires mk.rules[k].prereqs[j].value !in mk.builtinTargets && mk.rules[k].prereqs[j].value !in mk.phonyTargets
    ensures mk.rules[k].prereqs[j].value in TargetMentions(mk).locs
    ensures mk.rules[k].prereqs[j].loc in TargetMentions(mk).locs[mk.rules[k].prereqs[j].value]
  {
    assert mk.rules[..k + 1][..k] == mk.rules[..k];
    HeaderLocKept(mk, k + 1, mk.rules[k].prereqs[j].value, mk.rules[k].prereqs[j].loc);
  }

  /** In a rule with several distinct target names, each target mention is deleted by its own hint. */
  lemma TargetMentionRemoved(mk: Makefile, k: nat, j: nat)
    requires k < |mk.rules| && j < |mk.rules[k].targets| && |TargetValues(mk.rules[k])| != 1
    requires mk.rules[k].targets[j].value !in mk.builtinTargets && mk.rules[k].targets[j].value !in mk.phonyTargets
    ensures mk.rules[k].targets[j].value in TargetMentions(mk).locs
    ensures mk.rules[k].targets[j].loc in TargetMentions(mk).locs[mk.rules[k].targets[j].value]
  {
    var r := mk.rules[k];
    var name := r.targets[j].value;
    var withTargets := PathMentions(HeaderMentions(mk.rules[..k]), r.targets);
    var h := PathMentions(withTargets, r.prereqs);
    HeaderMentionsSnoc(mk.rules, k);
    assert h == HeaderMentions(mk.rules[..k + 1]);
    GrowsKeeps(withTargets, h, name, r.targets[j].loc);
    HeaderLocKept(mk, k + 1, name, r.targets[j].loc);
  }

  /** The header loop after rule `k`: rule `k`'s targets, then its prerequisites, recorded after the earlier rules. */
  lemma HeaderMentionsSnoc(rules: seq<Rule>, k: nat)
    requires k < |rules|
    ensures var d := HeaderMentions(rules[..k]);
      HeaderMentions(rules[..k + 1]) == PathMentions(
        if |TargetValues(rules[k])| == 1 then Record(d, rules[k].targets[0].value, [rules[k].loc])
        else PathMentions(d, rules[k].targets),
        rules[k].prereqs)
  {
    assert rules[..k + 1][..k] == rules[..k];
  }

  lemma KnownProgramRecorded(a: Mentions, recipe: seq<RecipeLine>, j: nat)
    requires j < |recipe| && recipe[j].program.value in a.locs
    ensures recipe[j].program.value in CommandMentions(a, recipe).locs
    ensures recipe[j].loc in CommandMentions(a, recipe).locs[recipe[j].program.value]
  {
    LineLocKept(a, recipe, j, recipe[j].program.value, recipe[j].loc);
  }

  /** A location recorded while the recipe of rule `k` is scanned is still recorded at the end. */
  lemma RecipeLocKept(popped: Mentions, rules: seq<Rule>, k: nat, name: Bytes, l: SourceLoc)
    requires k < |rules|
    requires name in CommandMentions(RecipeMentions(popped, rules[..k]), rules[k].recipe).locs
    requires l in CommandMentions(RecipeMentions(popped, rules[..k]), rules[k].recipe).locs[name]
    ensures name in RecipeMentions(popped, rules).locs && l in RecipeMentions(popped, rules).locs[name]
  {
    assert rules[..k + 1][..k] == rules[..k];
    var after := RecipeMentions(popped, rules[..k + 1]);
    assert after == CommandMentions(RecipeMentions(popped, rules[..k]), rules[k].recipe);
    RecipeGrows(popped, rules, k + 1);
    assert rules[..|rules|] == rules;
    GrowsKeeps(after, RecipeMentions(popped, rules), name, l);
  }

  /** A command whose program is a target that gets a hint is deleted by that hint. */
  lemma CommandOfTargetRemoved(mk: Makefile, k: nat, j: nat)
    requires k < |mk.rules| && j < |mk.rules[k].recipe|
    requires mk.rules[k].recipe[j].program.value in TargetMentions(mk).locs
    ensures mk.rules[k].recipe[j].loc in TargetMentions(mk).locs[mk.rules[k].recipe[j].program.value]
  {
    var popped := Without(HeaderMentions(mk.rules), mk.builtinTargets + mk.phonyTargets);
    var line := mk.rules[k].recipe[j];
    KnownProgramRecorded(RecipeMentions(popped, mk.rules[..k]), mk.rules[k].recipe, j);
    RecipeLocKept(popped, mk.rules, k, line.program.value, line.loc);
  }

  lemma {:induction false} FirstKnownKeys(paths: seq<Bytes>, locs: map<Bytes, seq<SourceLoc>>, other: map<Bytes, seq<SourceLoc>>)
    requires locs.Keys == other.Keys
    ensures FirstKnown(paths, locs) == FirstKnown(paths, other)
  {
    if |paths| > 0 {
      FirstKnownKeys(paths[1..], locs, other);
    }
  }

  lemma {:induction false} ArgsGrows(d: Mentions, args: seq<TextWithLoc>, m: nat, n: nat)
    requires m <= n <= |args|
    ensures Grows(ArgsMentions(d, args, m), ArgsMentions(d, args, n))
  {
    if m < n {
      ArgsGrows(d, args, m, n - 1);
      ArgsStepGrows(d, args, n);
      GrowsTrans(ArgsMentions(d, args, m), ArgsMentions(d, args, n - 1), ArgsMentions(d, args, n));
    }
  }

  lemma ArgsStepGrows(d: Mentions, args: seq<TextWithLoc>, n: nat)
    requires 0 < n <= |args|
    ensures Grows(ArgsMentions(d, args, n - 1), ArgsMentions(d, args, n))
  {
    var pre := ArgsMentions(d, args, n - 1);
    match FirstKnown(PossiblePaths(args[n - 1].value), pre.locs)
    case None =>
    case Some(path) => RecordGrows(pre, path, ArgLocs(args, n - 1));
  }

  lemma ArgRecorded(b: Mentions, args: seq<TextWithLoc>, i: nat, path: Bytes, l: SourceLoc)
    requires i < |args| && FirstKnown(PossiblePaths(args[i].value), b.locs) == Some(path)
    requires l in ArgLocs(args, i)
    ensures path in ArgsMentions(b, args, |args|).locs && l in ArgsMentions(b, args, |args|).locs[path]
  {
    var pre := ArgsMentions(b, args, i);
    FirstKnownKeys(PossiblePaths(args[i].value), b.locs, pre.locs);
    var now := ArgsMentions(b, args, i + 1);
    assert now == Record(pre, path, ArgLocs(args, i));
    ArgsGrows(b, args, i + 1, |args|);
    GrowsKeeps(now, ArgsMentions(b, args, |args|), path, l);
  }

  /** A location recorded while line `j` is scanned is still recorded after the whole recipe. */
  lemma LineLocKept(a: Mentions, recipe: seq<RecipeLine>, j: nat, name: Bytes, l: SourceLoc)
    requires j < |recipe|
    requires name in LineMentions(CommandMentions(a, recipe[..j]), recipe[j]).locs
    requires l in LineMentions(CommandMentions(a, recipe[..j]), recipe[j]).locs[name]
    ensures name in CommandMentions(a, recipe).locs && l in CommandMentions(a, recipe).locs[name]
  {
    var upTo := recipe[..j + 1];
    assert upTo[..|upTo| - 1] == recipe[..j] && upTo[|upTo| - 1] == recipe[j];
    CommandStep(a, upTo);
    CommandGrows(a, recipe, j + 1);
    GrowsKeeps(CommandMentions(a, upTo), CommandMentions(a, recipe), name, l);
  }

  lemma KnownArgRecorded(a: Mentions, recipe: seq<RecipeLine>, j: nat, i: nat, path: Bytes, l: SourceLoc)
    requires j < |recipe| && i < |recipe[j].args| && recipe[j].program.value !in a.locs
    requires FirstKnown(PossiblePaths(recipe[j].args[i].value), a.locs) == Some(path)
    requires l in ArgLocs(recipe[j].args, i)
    ensures path in CommandMentions(a, recipe).locs && l in CommandMentions(a, recipe).locs[path]
  {
    var b := CommandMentions(a, recipe[..j]);
    FirstKnownKeys(PossiblePaths(recipe[j].args[i].value), a.locs, b.locs);
    ArgRecorded(b, recipe[j].args, i, path, l);
    LineLocKept(a, recipe, j, path, l);
  }

  /**
   * In a command whose program is not a target with a hint, an argument
   * whose value, or a path after an `=` in it, names a target with a hint
   * is deleted by the hint of the first such name, together with a
   * two-token option right before it.
   */
  lemma ArgOfTargetRemoved(mk: Makefile, k: nat, j: nat, i: nat, path: Bytes)
    requires k < |mk.rules| && j < |mk.rules[k].recipe| && i < |mk.rules[k].recipe[j].args|
    requires mk.rules[k].recipe[j].program.value !in TargetMentions(mk).locs
    requires FirstKnown(PossiblePaths(mk.rules[k].recipe[j].args[i].value), TargetMentions(mk).locs) == Some(path)
    ensures path in TargetMentions(mk).locs
    ensures mk.rules[k].recipe[j].args[i].loc in TargetMentions(mk).locs[path]
    ensures i > 0 && TwoTokenOption(mk.rules[k].recipe[j].args[i - 1].value) ==>
      mk.rules[k].recipe[j].args[i - 1].loc in TargetMentions(mk).locs[path]
  {
    var popped := Without(HeaderMentions(mk.rules), mk.builtinTargets + mk.phonyTargets);
    var args := mk.rules[k].recipe[j].args;
    var a := RecipeMentions(popped, mk.rules[..k]);
    FirstKnownKeys(PossiblePaths(args[i].value), a.locs, TargetMentions(mk).locs);
    KnownArgRecorded(a, mk.rules[k].recipe, j, i, path, args[i].loc);
    RecipeLocKept(popped, mk.rules, k, path, args[i].loc);
    if i > 0 && TwoTokenOption(args[i - 1].value) {
      KnownArgRecorded(a, mk.rules[k].recipe, j, i, path, args[i - 1].loc);
      RecipeLocKept(popped, mk.rules, k, path, args[i - 1].loc);
    }
  }

  /**
   * `_add_target_removal_hints` appends one hint per name: the names are
   * distinct, they are exactly the names in rule headers that are neither
   * built-in nor phony, and each name's hint deletes all its recorded
   * mentions.
   */
  lemma TargetRemovalHintsSpec(mk: Makefile, fileId: nat)
    ensures NoDuplicates(TargetMentions(mk).keys)
    ensures |TargetRemovalHints(mk, fileId)| == |TargetMentions(mk).keys|
    ensures forall name :: name in TargetMentions(mk).keys <==>
      (exists k :: 0 <= k < |mk.rules| && InHeader(mk.rules[k], name))
      && name !in mk.builtinTargets && name !in mk.phonyTargets
    ensures forall k :: 0 <= k < |TargetRemovalHints(mk, fileId)| ==>
      TargetRemovalHints(mk, fileId)[k]
      == Hint(Some(REMOVE_TARGET_TYPE), LocsToPatches(TargetMentions(mk).locs[TargetMentions(mk).keys[k]], fileId), None)
  {
    var d := TargetMentions(mk);
    HintsForSpec(d.keys, d.locs, REMOVE_TARGET_TYPE, fileId);
    forall name
      ensures name in d.keys <==>
        (exists k :: 0 <= k < |mk.rules| && InHeader(mk.rules[k], name))
        && name !in mk.builtinTargets && name !in mk.phonyTargets
    {
      HeaderKeysSpec(mk.rules, name);
    }
  }
}
