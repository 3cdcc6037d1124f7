/**
 * The hints of `cvise/passes/clangmodulemap.py`. For each module map file
 * the pass proposes deleting each empty submodule, inlining the contents
 * of each other submodule (deleting its title and closing-brace lines),
 * making each header non-modular (with a reference to the header file
 * when it exists), deleting each `use` declaration, and deleting each line
 * the reader did not classify. Top-level modules are never deleted or
 * inlined.
 */
module ClangModuleMapHints {
  import opened Common
  import opened ByteLines
  import opened HintModel
  import opened VocabTables
  import opened ClangModuleMap

  /** A patch deleting the bytes of `loc` in the file with vocabulary index `fileId`. */
  function LocPatch(loc: SourceLoc, fileId: nat): Patch
  {
    Patch(Some(fileId), Some(loc.begin), Some(loc.end), None, None)
  }

  /** A hint of type `hintType` deleting the bytes of `loc`. */
  function LineHint(hintType: nat, loc: SourceLoc, fileId: nat): Hint
  {
    Hint(Some(hintType), [LocPatch(loc, fileId)], None)
  }

  predicate IsEmpty(m: ModuleDecl)
  {
    |m.headers| == 0 && |m.uses| == 0 && |m.submodules| == 0
  }

  function InlineHint(m: ModuleDecl, fileId: nat): Hint
  {
    Hint(Some(INLINE_SUBMODULE_CONTENTS_TYPE), [LocPatch(m.titleLoc, fileId), LocPatch(m.closeBraceLoc, fileId)], None)
  }

  /** The hint a module gets for itself: none at the top level, else deletion when empty and inlining otherwise. */
  function OwnHints(m: ModuleDecl, fileId: nat, top: bool): seq<Hint>
  {
    if top then []
    else if IsEmpty(m) then [LineHint(DELETE_EMPTY_SUBMODULE_TYPE, m.loc, fileId)]
    else [InlineHint(m, fileId)]
  }

  /**
   * The hints of `headers`, in order: for each one a reference to the
   * header file when `fileExists` says it exists (interning its path), then
   * a make-non-modular hint.
   */
  function HeaderHints(headers: seq<HeaderDecl>, fileId: nat, fileExists: Bytes -> bool, v: Vocabulary): (r: (seq<Hint>, Vocabulary))
    requires Valid(v)
    ensures Valid(r.1) && Extends(v, r.1)
  {
    if |headers| == 0 then ([], v)
    else
      var pre := HeaderHints(headers[..|headers| - 1], fileId, fileExists, v);
      var h := headers[|headers| - 1];
      var nonModular := LineHint(MAKE_HEADER_NON_MODULAR_TYPE, h.loc, fileId);
      if fileExists(h.filePath) then
        var interned := Intern(pre.1, h.filePath);
        ExtendsTransitive(v, pre.1, interned.0);
        (pre.0 + [Hint(Some(FILEREF_TYPE), [LocPatch(h.loc, fileId)], Some(interned.1)), nonModular], interned.0)
      else (pre.0 + [nonModular], pre.1)
  }

  /** One delete-use-decl hint per `use` declaration, in order. */
  function UseHints(uses: seq<UseDecl>, fileId: nat): (r: seq<Hint>)
    ensures |r| == |uses|
    ensures forall k :: 0 <= k < |uses| ==> r[k] == LineHint(DELETE_USE_DECL_TYPE, uses[k].loc, fileId)
  {
    if |uses| == 0 then [] else UseHints(uses[..|uses| - 1], fileId) + [LineHint(DELETE_USE_DECL_TYPE, uses[|uses| - 1].loc, fileId)]
  }

  /**
   * `_create_hints_for_module`: the module's own hint, its headers' hints,
   * its uses' hints and then, in order, those of its submodules, none of
   * them top-level.
   */
  function ModuleHints(m: ModuleDecl, fileId: nat, top: bool, fileExists: Bytes -> bool, v: Vocabulary): (r: (seq<Hint>, Vocabulary))
    requires Valid(v)
    ensures Valid(r.1) && Extends(v, r.1)
    decreases m, 1
  {
    var headers := HeaderHints(m.headers, fileId, fileExists, v);
    var subs := SubmoduleHints(m, |m.submodules|, fileId, fileExists, headers.1);
    ExtendsTransitive(v, headers.1, subs.1);
    (OwnHints(m, fileId, top) + headers.0 + UseHints(m.uses, fileId) + subs.0, subs.1)
  }

  /** The hints of the first `n` submodules of `m`, the vocabulary threaded from one to the next. */
  function SubmoduleHints(m: ModuleDecl, n: nat, fileId: nat, fileExists: Bytes -> bool, v: Vocabulary): (r: (seq<Hint>, Vocabulary))
    requires n <= |m.submodules| && Valid(v)
    ensures Valid(r.1) && Extends(v, r.1)
    decreases m, 0, n
  {
    if n == 0 then ([], v)
    else
      var pre := SubmoduleHints(m, n - 1, fileId, fileExists, v);
      var last := ModuleHints(m.submodules[n - 1], fileId, false, fileExists, pre.1);
      ExtendsTransitive(v, pre.1, last.1);
      (pre.0 + last.0, last.1)
  }

  /** `_create_hints_for_unclassified_lines`: one delete-line hint per line, in order. */
  function UnclassifiedHints(locs: seq<SourceLoc>, fileId: nat): (r: seq<Hint>)
    ensures |r| == |locs|
    ensures forall k :: 0 <= k < |locs| ==> r[k] == LineHint(DELETE_LINE_TYPE, locs[k], fileId)
  {
    if |locs| == 0 then [] else UnclassifiedHints(locs[..|locs| - 1], fileId) + [LineHint(DELETE_LINE_TYPE, locs[|locs| - 1], fileId)]
  }

  /** The hints of the first `n` top-level modules. */
  function TopLevelHints(ms: seq<ModuleDecl>, n: nat, fileId: nat, fileExists: Bytes -> bool, v: Vocabulary): (r: (seq<Hint>, Vocabulary))
    requires n <= |ms| && Valid(v)
    ensures Valid(r.1) && Extends(v, r.1)
  {
    if n == 0 then ([], v)
    else
      var pre := TopLevelHints(ms, n - 1, fileId, fileExists, v);
      var last := ModuleHints(ms[n - 1], fileId, true, fileExists, pre.1);
      ExtendsTransitive(v, pre.1, last.1);
      (pre.0 + last.0, last.1)
  }

  /**
   * The hints of one module map file at `relPath` with `contents`: its path
   * is interned first, then come the hints of its modules and of its
   * unclassified lines.
   */
  function FileHints(relPath: Bytes, contents: Bytes, fileExists: Bytes -> bool, v: Vocabulary): (r: (seq<Hint>, Vocabulary))
    requires Valid(v)
    ensures Valid(r.1) && Extends(v, r.1)
  {
    var file := ParseModuleMap(contents);
    var interned := Intern(v, relPath);
    var modules := TopLevelHints(file.modules, |file.modules|, interned.1, fileExists, interned.0);
    ExtendsTransitive(v, interned.0, modules.1);
    (modules.0 + UnclassifiedHints(file.unclassifiedLines, interned.1), modules.1)
  }

  /** The hints of the first `n` files, each given as its path relative to the test case and its contents. */
  function FilesHints(files: seq<(Bytes, Bytes)>, n: nat, fileExists: Bytes -> bool, v: Vocabulary): (r: (seq<Hint>, Vocabulary))
    requires n <= |files| && Valid(v)
    ensures Valid(r.1) && Extends(v, r.1)
  {
    if n == 0 then ([], v)
    else
      var pre := FilesHints(files, n - 1, fileExists, v);
      var last := FileHints(files[n - 1].0, files[n - 1].1, fileExists, pre.1);
      ExtendsTransitive(v, pre.1, last.1);
      (pre.0 + last.0, last.1)
  }

  /** The pass's fixed vocabulary as bytes. */
  function InitialVocabulary(): (v: Vocabulary)
    ensures Valid(v) && |v.words| == |VOCAB|
  {
    Vocabulary(seq(|VOCAB|, k requires 0 <= k < |VOCAB| => AsciiBytes(VOCAB[k])), map[])
  }

  // The pass, as the source writes it.

  lemma AppendAssociative3<T>(a: seq<T>, b: seq<T>, c: seq<T>)
    ensures a + (b + c) == a + b + c
  {
  }

  lemma AppendAssociative<T>(a: seq<T>, b: seq<T>, c: seq<T>, d: seq<T>, e: seq<T>)
    ensures a + (b + c + d + e) == a + b + c + d + e
  {
  }

  /** The loop of `_create_hints_for_module` over the module's headers. */
  method CreateHintsForHeaders(headers: seq<HeaderDecl>, fileId: nat, fileExists: Bytes -> bool, table: VocabTable,
                               hintsIn: seq<Hint>) returns (hints: seq<Hint>)
    requires Valid(table.Snapshot())
    modifies table
    ensures var r := HeaderHints(headers, fileId, fileExists, old(table.Snapshot()));
      hints == hintsIn + r.0 && table.Snapshot() == r.1
  {
    ghost var v0 := table.Snapshot();
    hints := hintsIn;
    for k := 0 to |headers|
      invariant Valid(table.Snapshot())
      invariant hints == hintsIn + HeaderHints(headers[..k], fileId, fileExists, v0).0
      invariant table.Snapshot() == HeaderHints(headers[..k], fileId, fileExists, v0).1
    {
      var header := headers[k];
      assert headers[..k + 1][..k] == headers[..k];
      if fileExists(header.filePath) {
        var headerFileId := table.GetVocabId(header.filePath);
        hints := hints + [Hint(Some(FILEREF_TYPE), [LocPatch(header.loc, fileId)], Some(headerFileId))];
      }
      hints := hints + [LineHint(MAKE_HEADER_NON_MODULAR_TYPE, header.loc, fileId)];
    }
    assert headers[..|headers|] == headers;
  }

  /** The loop of `_create_hints_for_module` over the module's `use` declarations. */
  method CreateHintsForUses(uses: seq<UseDecl>, fileId: nat, hintsIn: seq<Hint>) returns (hints: seq<Hint>)
    ensures hints == hintsIn + UseHints(uses, fileId)
  {
    hints := hintsIn;
    for k := 0 to |uses|
      invariant hints == hintsIn + UseHints(uses[..k], fileId)
    {
      assert uses[..k + 1][..k] == uses[..k];
      hints := hints + [LineHint(DELETE_USE_DECL_TYPE, uses[k].loc, fileId)];
    }
    assert uses[..|uses|] == uses;
  }

  /** `_create_hints_for_module`, appending to `hintsIn` and interning header paths in `table`. */
  method CreateHintsForModule(m: ModuleDecl, fileId: nat, top: bool, fileExists: Bytes -> bool, table: VocabTable,
                              hintsIn: seq<Hint>) returns (hints: seq<Hint>)
    requires Valid(table.Snapshot())
    modifies table
    ensures var r := ModuleHints(m, fileId, top, fileExists, old(table.Snapshot()));
      hints == hintsIn + r.0 && table.Snapshot() == r.1
    decreases m, 1
  {
    ghost var v0 := table.Snapshot();
    var empty := |m.headers| == 0 && |m.uses| == 0 && |m.submodules| == 0;
    hints := hintsIn;
    if !top && empty {
      hints := hints + [LineHint(DELETE_EMPTY_SUBMODULE_TYPE, m.loc, fileId)];
    }
    if !top && !empty {
      hints := hints + [InlineHint(m, fileId)];
    }
    assert hints == hintsIn + OwnHints(m, fileId, top);
    hints := CreateHintsForHeaders(m.headers, fileId, fileExists, table, hints);
    hints := CreateHintsForUses(m.uses, fileId, hints);
    ghost var v1 := table.Snapshot();
    ghost var own := OwnHints(m, fileId, top) + HeaderHints(m.headers, fileId, fileExists, v0).0 + UseHints(m.uses, fileId);
    hints := CreateHintsForSubmodules(m, fileId, fileExists, table, hints);
    ghost var subs := SubmoduleHints(m, |m.submodules|, fileId, fileExists, v1);
    assert ModuleHints(m, fileId, top, fileExists, v0) == (own + subs.0, subs.1);
    AppendAssociative(hintsIn, OwnHints(m, fileId, top), HeaderHints(m.headers, fileId, fileExists, v0).0,
                      UseHints(m.uses, fileId), subs.0);
  }

  /** The loop of `_create_hints_for_module` over the module's submodules. */
  method CreateHintsForSubmodules(m: ModuleDecl, fileId: nat, fileExists: Bytes -> bool, table: VocabTable,
                                  hintsIn: seq<Hint>) returns (hints: seq<Hint>)
    requires Valid(table.Snapshot())
    modifies table
    ensures var r := SubmoduleHints(m, |m.submodules|, fileId, fileExists, old(table.Snapshot()));
      hints == hintsIn + r.0 && table.Snapshot() == r.1
    decreases m, 0
  {
    ghost var v := table.Snapshot();
    hints := hintsIn;
    for k := 0 to |m.submodules|
      invariant Valid(table.Snapshot())
      invariant hints == hintsIn + SubmoduleHints(m, k, fileId, fileExists, v).0
      invariant table.Snapshot() == SubmoduleHints(m, k, fileId, fileExists, v).1
    {
      ghost var pre := SubmoduleHints(m, k, fileId, fileExists, v);
      hints := CreateHintsForModule(m.submodules[k], fileId, false, fileExists, table, hints);
      AppendAssociative3(hintsIn, pre.0, ModuleHints(m.submodules[k], fileId, false, fileExists, pre.1).0);
    }
  }

  /** `_create_hints_for_unclassified_lines`, appending to `hintsIn`. */
  method CreateHintsForUnclassifiedLines(locs: seq<SourceLoc>, fileId: nat, hintsIn: seq<Hint>) returns (hints: seq<Hint>)
    ensures hints == hintsIn + UnclassifiedHints(locs, fileId)
  {
    hints := hintsIn;
    for k := 0 to |locs|
      invariant hints == hintsIn + UnclassifiedHints(locs[..k], fileId)
    {
      assert locs[..k + 1][..k] == locs[..k];
      hints := hints + [LineHint(DELETE_LINE_TYPE, locs[k], fileId)];
    }
    assert locs[..|locs|] == locs;
  }

  /** The loop of `generate_hints` over one file's top-level modules. */
  method CreateHintsForTopLevel(modules: seq<ModuleDecl>, fileId: nat, fileExists: Bytes -> bool, table: VocabTable,
                                hintsIn: seq<Hint>) returns (hints: seq<Hint>)
    requires Valid(table.Snapshot())
    modifies table
    ensures var r := TopLevelHints(modules, |modules|, fileId, fileExists, old(table.Snapshot()));
      hints == hintsIn + r.0 && table.Snapshot() == r.1
  {
    ghost var v := table.Snapshot();
    hints := hintsIn;
    for k := 0 to |modules|
      invariant Valid(table.Snapshot())
      invariant hints == hintsIn + TopLevelHints(modules, k, fileId, fileExists, v).0
      invariant table.Snapshot() == TopLevelHints(modules, k, fileId, fileExists, v).1
    {
      ghost var pre := TopLevelHints(modules, k, fileId, fileExists, v);
      hints := CreateHintsForModule(modules[k], fileId, true, fileExists, table, hints);
      AppendAssociative3(hintsIn, pre.0, ModuleHints(modules[k], fileId, true, fileExists, pre.1).0);
    }
  }

  /** The body of `generate_hints`' loop over files: one module map file's hints. */
  method CreateHintsForFile(relPath: Bytes, contents: Bytes, fileExists: Bytes -> bool, table: VocabTable,
                            hintsIn: seq<Hint>) returns (hints: seq<Hint>)
    requires Valid(table.Snapshot())
    modifies table
    ensures var r := FileHints(relPath, contents, fileExists, old(table.Snapshot()));
      hints == hintsIn + r.0 && table.Snapshot() == r.1
  {
    ghost var v0 := table.Snapshot();
    var file := ParseFile(contents);
    var fileId := table.GetVocabId(relPath);
    ghost var v := table.Snapshot();
    hints := CreateHintsForTopLevel(file.modules, fileId, fileExists, table, hintsIn);
    ghost var modules := TopLevelHints(file.modules, |file.modules|, fileId, fileExists, v);
    hints := CreateHintsForUnclassifiedLines(file.unclassifiedLines, fileId, hints);
    AppendAssociative3(hintsIn, modules.0, UnclassifiedHints(file.unclassifiedLines, fileId));
    assert (v, fileId) == Intern(v0, relPath);
  }

  /**
   * `generate_hints` over the module map files of a test case, each given
   * as its relative path and its contents; `fileExists` answers whether a
   * header path names a file of the test case. Returns the hints and the
   * bundle's vocabulary.
   */
  method GenerateHints(files: seq<(Bytes, Bytes)>, fileExists: Bytes -> bool) returns (hints: seq<Hint>, vocab: seq<Bytes>)
    ensures var r := FilesHints(files, |files|, fileExists, InitialVocabulary());
      hints == r.0 && vocab == r.1.words
  {
    var table := new VocabTable(InitialVocabulary().words);
    assert table.Snapshot() == InitialVocabulary();
    hints := [];
    for i := 0 to |files|
      invariant Valid(table.Snapshot())
      invariant hints == FilesHints(files, i, fileExists, InitialVocabulary()).0
      invariant table.Snapshot() == FilesHints(files, i, fileExists, InitialVocabulary()).1
    {
      hints := CreateHintsForFile(files[i].0, files[i].1, fileExists, table, hints);
    }
    vocab := table.vocab;
  }

  // What the hints say about the module tree.

  /** The hints of `hs` whose type is `t`, in order. */
  function WithType(hs: seq<Hint>, t: nat): (r: seq<Hint>)
  {
    if |hs| == 0 then []
    else WithType(hs[..|hs| - 1], t) + (if hs[|hs| - 1].hintType == Some(t) then [hs[|hs| - 1]] else [])
  }

  lemma {:induction false} WithTypeAppend(a: seq<Hint>, b: seq<Hint>, t: nat)
    ensures WithType(a + b, t) == WithType(a, t) + WithType(b, t)
    decreases |b|
  {
    if |b| == 0 {
      assert a + b == a;
    } else {
      assert (a + b)[..|a + b| - 1] == a + b[..|b| - 1];
      assert (a + b)[|a + b| - 1] == b[|b| - 1];
      WithTypeAppend(a, b[..|b| - 1], t);
    }
  }

  /** Hints that all have type `t` are all kept by `WithType(_, t)`, and none by any other type. */
  lemma {:induction false} WithTypeUniform(hs: seq<Hint>, s: nat, t: nat)
    requires forall k :: 0 <= k < |hs| ==> hs[k].hintType == Some(s)
    ensures WithType(hs, t) == if s == t then hs else []
  {
    if |hs| > 0 {
      WithTypeUniform(hs[..|hs| - 1], s, t);
      assert hs == hs[..|hs| - 1] + [hs[|hs| - 1]];
    }
  }

  /** The concatenation of `f(x)` over the elements `x` of `xs`. */
  function Gather<A, B>(xs: seq<A>, f: A -> seq<B>): seq<B>
  {
    if |xs| == 0 then [] else Gather(xs[..|xs| - 1], f) + f(xs[|xs| - 1])
  }

  lemma {:induction false} GatherAppend<A, B>(xs: seq<A>, ys: seq<A>, f: A -> seq<B>)
    ensures Gather(xs + ys, f) == Gather(xs, f) + Gather(ys, f)
    decreases |ys|
  {
    if |ys| == 0 {
      assert xs + ys == xs;
    } else {
      assert (xs + ys)[..|xs + ys| - 1] == xs + ys[..|ys| - 1];
      assert (xs + ys)[|xs + ys| - 1] == ys[|ys| - 1];
      GatherAppend(xs, ys[..|ys| - 1], f);
    }
  }

  /** A module followed by every module nested in it, in the order `_create_hints_for_module` visits them. */
  function Subtree(m: ModuleDecl): (r: seq<ModuleDecl>)
    ensures |r| > 0 && r[0] == m
    decreases m, 1
  {
    [m] + Descendants(m, |m.submodules|)
  }

  /** The subtrees of the first `n` submodules of `m`, one after another. */
  function Descendants(m: ModuleDecl, n: nat): seq<ModuleDecl>
    requires n <= |m.submodules|
    decreases m, 0, n
  {
    if n == 0 then [] else Descendants(m, n - 1) + Subtree(m.submodules[n - 1])
  }

  /** The modules that get a delete or inline hint of their own: all but the top-level one. */
  function Members(m: ModuleDecl, top: bool): seq<ModuleDecl>
  {
    if top then Descendants(m, |m.submodules|) else Subtree(m)
  }

  function EmptyOnly(m: ModuleDecl): seq<ModuleDecl>
  {
    if IsEmpty(m) then [m] else []
  }

  function NonEmptyOnly(m: ModuleDecl): seq<ModuleDecl>
  {
    if IsEmpty(m) then [] else [m]
  }

  function HeadersOf(m: ModuleDecl): seq<HeaderDecl>
  {
    m.headers
  }

  function UsesOf(m: ModuleDecl): seq<UseDecl>
  {
    m.uses
  }

  /** One whole-module deletion per module of `ms`, in order. */
  function DeletionHints(ms: seq<ModuleDecl>, fileId: nat): (r: seq<Hint>)
    ensures |r| == |ms|
    ensures forall k :: 0 <= k < |ms| ==> r[k] == LineHint(DELETE_EMPTY_SUBMODULE_TYPE, ms[k].loc, fileId)
  {
    if |ms| == 0 then [] else DeletionHints(ms[..|ms| - 1], fileId) + [LineHint(DELETE_EMPTY_SUBMODULE_TYPE, ms[|ms| - 1].loc, fileId)]
  }

  /** One title-and-closing-brace removal per module of `ms`, in order. */
  function InlineHints(ms: seq<ModuleDecl>, fileId: nat): (r: seq<Hint>)
    ensures |r| == |ms|
    ensures forall k :: 0 <= k < |ms| ==> r[k] == InlineHint(ms[k], fileId)
  {
    if |ms| == 0 then [] else InlineHints(ms[..|ms| - 1], fileId) + [InlineHint(ms[|ms| - 1], fileId)]
  }

  /** One make-non-modular hint per header of `hs`, in order. */
  function NonModularHints(hs: seq<HeaderDecl>, fileId: nat): (r: seq<Hint>)
    ensures |r| == |hs|
    ensures forall k :: 0 <= k < |hs| ==> r[k] == LineHint(MAKE_HEADER_NON_MODULAR_TYPE, hs[k].loc, fileId)
  {
    if |hs| == 0 then [] else NonModularHints(hs[..|hs| - 1], fileId) + [LineHint(MAKE_HEADER_NON_MODULAR_TYPE, hs[|hs| - 1].loc, fileId)]
  }

  lemma DeletionHintsAppend(a: seq<ModuleDecl>, b: seq<ModuleDecl>, fileId: nat)
    ensures DeletionHints(a + b, fileId) == DeletionHints(a, fileId) + DeletionHints(b, fileId)
  {
    var r, l := DeletionHints(a + b, fileId), DeletionHints(a, fileId) + DeletionHints(b, fileId);
    assert |r| == |l|;
    forall k | 0 <= k < |r|
      ensures r[k] == l[k]
    {
      if k >= |a| {
        assert (a + b)[k] == b[k - |a|];
      }
    }
  }

  lemma InlineHintsAppend(a: seq<ModuleDecl>, b: seq<ModuleDecl>, fileId: nat)
    ensures InlineHints(a + b, fileId) == InlineHints(a, fileId) + InlineHints(b, fileId)
  {
    var r, l := InlineHints(a + b, fileId), InlineHints(a, fileId) + InlineHints(b, fileId);
    assert |r| == |l|;
    forall k | 0 <= k < |r|
      ensures r[k] == l[k]
    {
      if k >= |a| {
        assert (a + b)[k] == b[k - |a|];
      }
    }
  }

  lemma NonModularHintsAppend(a: seq<HeaderDecl>, b: seq<HeaderDecl>, fileId: nat)
    ensures NonModularHints(a + b, fileId) == NonModularHints(a, fileId) + NonModularHints(b, fileId)
  {
    var r, l := NonModularHints(a + b, fileId), NonModularHints(a, fileId) + NonModularHints(b, fileId);
    assert |r| == |l|;
    forall k | 0 <= k < |r|
      ensures r[k] == l[k]
    {
      if k >= |a| {
        assert (a + b)[k] == b[k - |a|];
      }
    }
  }

  lemma UseHintsAppend(a: seq<UseDecl>, b: seq<UseDecl>, fileId: nat)
    ensures UseHints(a + b, fileId) == UseHints(a, fileId) + UseHints(b, fileId)
  {
    var r, l := UseHints(a + b, fileId), UseHints(a, fileId) + UseHints(b, fileId);
    assert |r| == |l|;
    forall k | 0 <= k < |r|
      ensures r[k] == l[k]
    {
      if k >= |a| {
        assert (a + b)[k] == b[k - |a|];
      }
    }
  }

  /** The hints of a sequence of headers are make-non-modular hints, one per header, and file references only. */
  lemma {:induction false} HeaderHintsByType(headers: seq<HeaderDecl>, fileId: nat, fileExists: Bytes -> bool, v: Vocabulary, t: nat)
    requires Valid(v) && t != FILEREF_TYPE
    ensures WithType(HeaderHints(headers, fileId, fileExists, v).0, t)
      == if t == MAKE_HEADER_NON_MODULAR_TYPE then NonModularHints(headers, fileId) else []
  {
    if |headers| > 0 {
      var pre := HeaderHints(headers[..|headers| - 1], fileId, fileExists, v);
      HeaderHintsByType(headers[..|headers| - 1], fileId, fileExists, v, t);
      var h := headers[|headers| - 1];
      var nonModular := LineHint(MAKE_HEADER_NON_MODULAR_TYPE, h.loc, fileId);
      var added;
      if fileExists(h.filePath) {
        var fileref := Hint(Some(FILEREF_TYPE), [LocPatch(h.loc, fileId)], Some(Intern(pre.1, h.filePath).1));
        added := [fileref, nonModular];
        assert added[..1] == [fileref] && [fileref][..0] == [];
        assert WithType([fileref], t) == [];
      } else {
        added := [nonModular];
        assert added[..0] == [];
      }
      assert WithType(added, t) == if t == MAKE_HEADER_NON_MODULAR_TYPE then [nonModular] else [];
      WithTypeAppend(pre.0, added, t);
    }
  }

  /**
   * The hints of type `t` that the modules `own` and `all` call for: a
   * deletion per empty module of `own`, an inlining per non-empty module of
   * `own`, a make-non-modular hint per header of `all` and a delete hint
   * per `use` of `all`, each in order.
   */
  function Expected(own: seq<ModuleDecl>, all: seq<ModuleDecl>, fileId: nat, t: nat): seq<Hint>
  {
    if t == DELETE_EMPTY_SUBMODULE_TYPE then DeletionHints(Gather(own, EmptyOnly), fileId)
    else if t == INLINE_SUBMODULE_CONTENTS_TYPE then InlineHints(Gather(own, NonEmptyOnly), fileId)
    else if t == MAKE_HEADER_NON_MODULAR_TYPE then NonModularHints(Gather(all, HeadersOf), fileId)
    else if t == DELETE_USE_DECL_TYPE then UseHints(Gather(all, UsesOf), fileId)
    else []
  }

  lemma ExpectedAppend(own: seq<ModuleDecl>, all: seq<ModuleDecl>, own': seq<ModuleDecl>, all': seq<ModuleDecl>, fileId: nat, t: nat)
    ensures Expected(own + own', all + all', fileId, t) == Expected(own, all, fileId, t) + Expected(own', all', fileId, t)
  {
    if t == DELETE_EMPTY_SUBMODULE_TYPE {
      GatherAppend(own, own', EmptyOnly);
      DeletionHintsAppend(Gather(own, EmptyOnly), Gather(own', EmptyOnly), fileId);
    } else if t == INLINE_SUBMODULE_CONTENTS_TYPE {
      GatherAppend(own, own', NonEmptyOnly);
      InlineHintsAppend(Gather(own, NonEmptyOnly), Gather(own', NonEmptyOnly), fileId);
    } else if t == MAKE_HEADER_NON_MODULAR_TYPE {
      GatherAppend(all, all', HeadersOf);
      NonModularHintsAppend(Gather(all, HeadersOf), Gather(all', HeadersOf), fileId);
    } else if t == DELETE_USE_DECL_TYPE {
      GatherAppend(all, all', UsesOf);
      UseHintsAppend(Gather(all, UsesOf), Gather(all', UsesOf), fileId);
    }
  }

  /** The hint a module gets for itself, by type. */
  lemma OwnHintsByType(m: ModuleDecl, fileId: nat, top: bool, t: nat)
    ensures WithType(OwnHints(m, fileId, top), t)
      == Expected(if top then [] else [m], [], fileId, t)
  {
    assert [m][..0] == [];
    var own := OwnHints(m, fileId, top);
    if !top {
      assert own[..0] == [];
      assert Gather([m], EmptyOnly) == EmptyOnly(m);
      assert Gather([m], NonEmptyOnly) == NonEmptyOnly(m);
      if IsEmpty(m) {
        assert DeletionHints([m], fileId) == own;
        assert InlineHints([], fileId) == [];
      } else {
        assert InlineHints([m], fileId) == own;
        assert DeletionHints([], fileId) == [];
      }
    }
  }

  /** The hints of a module's own hint, its headers and its uses of type `t`, piece by piece. */
  lemma LocalHintsSplit(m: ModuleDecl, fileId: nat, top: bool, fileExists: Bytes -> bool, v: Vocabulary, t: nat)
    requires Valid(v) && t != FILEREF_TYPE
    ensures var own := OwnHints(m, fileId, top);
      var headers := HeaderHints(m.headers, fileId, fileExists, v).0;
      var uses := UseHints(m.uses, fileId);
      WithType(own + headers + uses, t)
        == Expected(if top then [] else [m], [], fileId, t)
          + (if t == MAKE_HEADER_NON_MODULAR_TYPE then NonModularHints(m.headers, fileId) else [])
          + (if t == DELETE_USE_DECL_TYPE then uses else [])
  {
    var own := OwnHints(m, fileId, top);
    var headers := HeaderHints(m.headers, fileId, fileExists, v).0;
    var uses := UseHints(m.uses, fileId);
    WithTypeAppend(own + headers, uses, t);
    WithTypeAppend(own, headers, t);
    OwnHintsByType(m, fileId, top, t);
    HeaderHintsByType(m.headers, fileId, fileExists, v, t);
    WithTypeUniform(uses, DELETE_USE_DECL_TYPE, t);
  }

  /** What a single module `m` calls for, apart from its own hint. */
  lemma ExpectedSingle(m: ModuleDecl, ownList: seq<ModuleDecl>, fileId: nat, t: nat)
    ensures Expected(ownList, [m], fileId, t)
      == Expected(ownList, [], fileId, t)
        + (if t == MAKE_HEADER_NON_MODULAR_TYPE then NonModularHints(m.headers, fileId) else [])
        + (if t == DELETE_USE_DECL_TYPE then UseHints(m.uses, fileId) else [])
  {
    assert [m][..0] == [];
    if t == MAKE_HEADER_NON_MODULAR_TYPE {
      assert Gather([m], HeadersOf) == m.headers;
    } else if t == DELETE_USE_DECL_TYPE {
      assert Gather([m], UsesOf) == m.uses;
    }
  }

  /** The hints a module gets for itself, its headers and its uses, by type. */
  lemma LocalHintsByType(m: ModuleDecl, fileId: nat, top: bool, fileExists: Bytes -> bool, v: Vocabulary, t: nat)
    requires Valid(v) && t != FILEREF_TYPE
    ensures var local := OwnHints(m, fileId, top) + HeaderHints(m.headers, fileId, fileExists, v).0 + UseHints(m.uses, fileId);
      WithType(local, t) == Expected(if top then [] else [m], [m], fileId, t)
  {
    LocalHintsSplit(m, fileId, top, fileExists, v, t);
    ExpectedSingle(m, if top then [] else [m], fileId, t);
  }

  /**
   * The hints of `_create_hints_for_module` by type: a deletion for each
   * empty module in the tree and an inlining for each other one, except for
   * a top-level module itself; a make-non-modular hint for each header and
   * a delete-use-decl hint for each `use` in the whole tree; all in the
   * order of the tree.
   */
  lemma {:induction false} ModuleHintsByType(m: ModuleDecl, fileId: nat, top: bool, fileExists: Bytes -> bool, v: Vocabulary, t: nat,
                                             hints: seq<Hint>)
    requires Valid(v) && t != FILEREF_TYPE && hints == ModuleHints(m, fileId, top, fileExists, v).0
    ensures WithType(hints, t) == Expected(Members(m, top), Subtree(m), fileId, t)
    decreases m, 1
  {
    var headers := HeaderHints(m.headers, fileId, fileExists, v);
    var local := OwnHints(m, fileId, top) + headers.0 + UseHints(m.uses, fileId);
    var subs := SubmoduleHints(m, |m.submodules|, fileId, fileExists, headers.1);
    var ds := Descendants(m, |m.submodules|);
    LocalHintsByType(m, fileId, top, fileExists, v, t);
    SubmoduleHintsByType(m, |m.submodules|, fileId, fileExists, headers.1, t, subs.0);
    WithTypeAppend(local, subs.0, t);
    ExpectedAppend(if top then [] else [m], [m], ds, ds, fileId, t);
    assert Members(m, top) == (if top then [] else [m]) + ds;
  }

  lemma {:induction false} SubmoduleHintsByType(m: ModuleDecl, n: nat, fileId: nat, fileExists: Bytes -> bool, v: Vocabulary, t: nat,
                                                hints: seq<Hint>)
    requires n <= |m.submodules| && Valid(v) && t != FILEREF_TYPE && hints == SubmoduleHints(m, n, fileId, fileExists, v).0
    ensures WithType(hints, t) == Expected(Descendants(m, n), Descendants(m, n), fileId, t)
    decreases m, 0, n
  {
    if n > 0 {
      var pre := SubmoduleHints(m, n - 1, fileId, fileExists, v);
      var last := ModuleHints(m.submodules[n - 1], fileId, false, fileExists, pre.1);
      var before := Descendants(m, n - 1);
      var sub := Subtree(m.submodules[n - 1]);
      calc {
        WithType(hints, t);
        WithType(pre.0 + last.0, t);
        { WithTypeAppend(pre.0, last.0, t); }
        WithType(pre.0, t) + WithType(last.0, t);
        { SubmoduleHintsByType(m, n - 1, fileId, fileExists, v, t, pre.0);
          ModuleHintsByType(m.submodules[n - 1], fileId, false, fileExists, pre.1, t, last.0); }
        Expected(before, before, fileId, t) + Expected(sub, sub, fileId, t);
        { ExpectedAppend(before, before, sub, sub, fileId, t); }
        Expected(before + sub, before + sub, fileId, t);
      }
    }
  }

  /**
   * The hints `_create_hints_for_module` makes for a module and everything
   * in it: a delete-empty-submodule hint for each empty module and an
   * inline-submodule-contents hint for each other module, the module itself
   * excepted when it is top-level; a make-header-non-modular hint for each
   * header and a delete-use-decl hint for each `use` declaration; each kind
   * in the order of the module tree.
   */
  lemma ModuleHintsSpec(m: ModuleDecl, fileId: nat, top: bool, fileExists: Bytes -> bool, v: Vocabulary)
    requires Valid(v)
    ensures var hints := ModuleHints(m, fileId, top, fileExists, v).0;
      && WithType(hints, DELETE_EMPTY_SUBMODULE_TYPE) == DeletionHints(Gather(Members(m, top), EmptyOnly), fileId)
      && WithType(hints, INLINE_SUBMODULE_CONTENTS_TYPE) == InlineHints(Gather(Members(m, top), NonEmptyOnly), fileId)
      && WithType(hints, MAKE_HEADER_NON_MODULAR_TYPE) == NonModularHints(Gather(Subtree(m), HeadersOf), fileId)
      && WithType(hints, DELETE_USE_DECL_TYPE) == UseHints(Gather(Subtree(m), UsesOf), fileId)
  {
    var hints := ModuleHints(m, fileId, top, fileExists, v).0;
    ExpectedCases(Members(m, top), Subtree(m), fileId);
    ModuleHintsByType(m, fileId, top, fileExists, v, DELETE_EMPTY_SUBMODULE_TYPE, hints);
    ModuleHintsByType(m, fileId, top, fileExists, v, INLINE_SUBMODULE_CONTENTS_TYPE, hints);
    ModuleHintsByType(m, fileId, top, fileExists, v, MAKE_HEADER_NON_MODULAR_TYPE, hints);
    ModuleHintsByType(m, fileId, top, fileExists, v, DELETE_USE_DECL_TYPE, hints);
  }

  lemma ExpectedCases(own: seq<ModuleDecl>, all: seq<ModuleDecl>, fileId: nat)
    ensures Expected(own, all, fileId, DELETE_EMPTY_SUBMODULE_TYPE) == DeletionHints(Gather(own, EmptyOnly), fileId)
    ensures Expected(own, all, fileId, INLINE_SUBMODULE_CONTENTS_TYPE) == InlineHints(Gather(own, NonEmptyOnly), fileId)
    ensures Expected(own, all, fileId, MAKE_HEADER_NON_MODULAR_TYPE) == NonModularHints(Gather(all, HeadersOf), fileId)
    ensures Expected(own, all, fileId, DELETE_USE_DECL_TYPE) == UseHints(Gather(all, UsesOf), fileId)
  {
  }

  /** A top-level module's own title, closing brace and extent are never the subject of a hint of its own. */
  lemma TopLevelMembers(m: ModuleDecl)
    ensures Members(m, true) == Subtree(m)[1..]
  {
  }

  // File references.

  /** The headers of `headers` whose file exists, in order. */
  function Existing(headers: seq<HeaderDecl>, fileExists: Bytes -> bool): seq<HeaderDecl>
  {
    if |headers| == 0 then []
    else
      var last := headers[|headers| - 1];
      Existing(headers[..|headers| - 1], fileExists) + (if fileExists(last.filePath) then [last] else [])
  }

  lemma {:induction false} ExistingAppend(a: seq<HeaderDecl>, b: seq<HeaderDecl>, fileExists: Bytes -> bool)
    ensures Existing(a + b, fileExists) == Existing(a, fileExists) + Existing(b, fileExists)
    decreases |b|
  {
    if |b| == 0 {
      assert a + b == a;
    } else {
      assert (a + b)[..|a + b| - 1] == a + b[..|b| - 1];
      assert (a + b)[|a + b| - 1] == b[|b| - 1];
      ExistingAppend(a, b[..|b| - 1], fileExists);
    }
  }

  /**
   * `hs` are file references to `headers`, one each and in order: each
   * removes its header's line of the file `fileId`, and its extra index
   * names the header's path in `words`.
   */
  ghost predicate FilerefsFor(hs: seq<Hint>, headers: seq<HeaderDecl>, fileId: nat, words: seq<Bytes>)
  {
    |hs| == |headers|
    && forall k :: 0 <= k < |hs| ==>
         hs[k].hintType == Some(FILEREF_TYPE) && hs[k].patches == [LocPatch(headers[k].loc, fileId)]
         && hs[k].extra.Some? && hs[k].extra.value < |words| && words[hs[k].extra.value] == headers[k].filePath
  }

  lemma FilerefsForAppend(a: seq<Hint>, ha: seq<HeaderDecl>, b: seq<Hint>, hb: seq<HeaderDecl>, fileId: nat, words: seq<Bytes>)
    requires FilerefsFor(a, ha, fileId, words) && FilerefsFor(b, hb, fileId, words)
    ensures FilerefsFor(a + b, ha + hb, fileId, words)
  {
    forall k | |a| <= k < |a + b|
      ensures (a + b)[k] == b[k - |a|] && (ha + hb)[k] == hb[k - |a|]
    {
    }
  }

  /** Growing the vocabulary at its end keeps every file reference pointing at its header. */
  lemma FilerefsForExtends(hs: seq<Hint>, headers: seq<HeaderDecl>, fileId: nat, v: Vocabulary, w: Vocabulary)
    requires FilerefsFor(hs, headers, fileId, v.words) && Extends(v, w)
    ensures FilerefsFor(hs, headers, fileId, w.words)
  {
    forall k | 0 <= k < |hs|
      ensures w.words[hs[k].extra.value] == headers[k].filePath
    {
      assert w.words[..|v.words|][hs[k].extra.value] == w.words[hs[k].extra.value];
    }
  }

  /**
   * The file references of `all` are those of `a` followed by those of `b`;
   * those of `a` were interned into `v` and those of `b` into its extension `w`.
   */
  lemma FilerefsJoin(all: seq<Hint>, a: seq<Hint>, b: seq<Hint>, hall: seq<HeaderDecl>, ha: seq<HeaderDecl>, hb: seq<HeaderDecl>,
                     fileId: nat, v: Vocabulary, w: Vocabulary)
    requires WithType(all, FILEREF_TYPE) == WithType(a, FILEREF_TYPE) + WithType(b, FILEREF_TYPE)
    requires hall == ha + hb
    requires FilerefsFor(WithType(a, FILEREF_TYPE), ha, fileId, v.words) && Extends(v, w)
    requires FilerefsFor(WithType(b, FILEREF_TYPE), hb, fileId, w.words)
    ensures FilerefsFor(WithType(all, FILEREF_TYPE), hall, fileId, w.words)
  {
    FilerefsForExtends(WithType(a, FILEREF_TYPE), ha, fileId, v, w);
    FilerefsForAppend(WithType(a, FILEREF_TYPE), ha, WithType(b, FILEREF_TYPE), hb, fileId, w.words);
  }

  lemma WithTypeAround(x: seq<Hint>, a: seq<Hint>, y: seq<Hint>, b: seq<Hint>, t: nat)
    requires WithType(x, t) == [] && WithType(y, t) == []
    ensures WithType(x + a + y + b, t) == WithType(a, t) + WithType(b, t)
  {
    var xa := x + a;
    var xay := xa + y;
    WithTypeAppend(x, a, t);
    assert WithType(xa, t) == WithType(a, t);
    WithTypeAppend(xa, y, t);
    assert WithType(xay, t) == WithType(a, t);
    WithTypeAppend(xay, b, t);
  }

  /** Each header whose file exists gets one file reference naming its path, in order. */
  lemma {:induction false} HeaderFilerefs(headers: seq<HeaderDecl>, fileId: nat, fileExists: Bytes -> bool, v: Vocabulary)
    requires Valid(v)
    ensures var r := HeaderHints(headers, fileId, fileExists, v);
      FilerefsFor(WithType(r.0, FILEREF_TYPE), Existing(headers, fileExists), fileId, r.1.words)
  {
    if |headers| > 0 {
      var pre := HeaderHints(headers[..|headers| - 1], fileId, fileExists, v);
      HeaderFilerefs(headers[..|headers| - 1], fileId, fileExists, v);
      var h := headers[|headers| - 1];
      var r := HeaderHints(headers, fileId, fileExists, v);
      var nonModular := LineHint(MAKE_HEADER_NON_MODULAR_TYPE, h.loc, fileId);
      FilerefsForExtends(WithType(pre.0, FILEREF_TYPE), Existing(headers[..|headers| - 1], fileExists), fileId, pre.1, r.1);
      if fileExists(h.filePath) {
        var fileref := Hint(Some(FILEREF_TYPE), [LocPatch(h.loc, fileId)], Some(Intern(pre.1, h.filePath).1));
        assert WithType([fileref, nonModular], FILEREF_TYPE) == [fileref] by {
          WithTypeUniform([fileref], FILEREF_TYPE, FILEREF_TYPE);
          WithTypeUniform([nonModular], MAKE_HEADER_NON_MODULAR_TYPE, FILEREF_TYPE);
          WithTypeAppend([fileref], [nonModular], FILEREF_TYPE);
          assert [fileref] + [nonModular] == [fileref, nonModular];
        }
        WithTypeAppend(pre.0, [fileref, nonModular], FILEREF_TYPE);
        FilerefsForAppend(WithType(pre.0, FILEREF_TYPE), Existing(headers[..|headers| - 1], fileExists), [fileref], [h], fileId, r.1.words);
      } else {
        assert [nonModular][..0] == [];
        WithTypeAppend(pre.0, [nonModular], FILEREF_TYPE);
      }
    }
  }

  /**
   * Every header in the tree of `m` whose file exists gets one file
   * reference, in the order of the tree, whose extra index names the
   * header's path in the vocabulary as it stands afterwards.
   */
  lemma {:induction false} ModuleFilerefs(m: ModuleDecl, fileId: nat, top: bool, fileExists: Bytes -> bool, v: Vocabulary,
                                          r: (seq<Hint>, Vocabulary))
    requires Valid(v) && r == ModuleHints(m, fileId, top, fileExists, v)
    ensures FilerefsFor(WithType(r.0, FILEREF_TYPE), Existing(Gather(Subtree(m), HeadersOf), fileExists), fileId, r.1.words)
    decreases m, 1
  {
    var headers := HeaderHints(m.headers, fileId, fileExists, v);
    var subs := SubmoduleHints(m, |m.submodules|, fileId, fileExists, headers.1);
    HeaderFilerefs(m.headers, fileId, fileExists, v);
    SubmoduleFilerefs(m, |m.submodules|, fileId, fileExists, headers.1, subs);
    SubtreeExisting(m, fileExists);
    OwnHintsByType(m, fileId, top, FILEREF_TYPE);
    ExpectedCases(if top then [] else [m], [], fileId);
    WithTypeUniform(UseHints(m.uses, fileId), DELETE_USE_DECL_TYPE, FILEREF_TYPE);
    WithTypeAround(OwnHints(m, fileId, top), headers.0, UseHints(m.uses, fileId), subs.0, FILEREF_TYPE);
    FilerefsJoin(r.0, headers.0, subs.0,
                       Existing(Gather(Subtree(m), HeadersOf), fileExists), Existing(m.headers, fileExists),
                       Existing(Gather(Descendants(m, |m.submodules|), HeadersOf), fileExists), fileId, headers.1, subs.1);
  }

  /** The existing headers of a module's tree: its own, then those below its submodules. */
  lemma SubtreeExisting(m: ModuleDecl, fileExists: Bytes -> bool)
    ensures Existing(Gather(Subtree(m), HeadersOf), fileExists)
         == Existing(m.headers, fileExists) + Existing(Gather(Descendants(m, |m.submodules|), HeadersOf), fileExists)
  {
    var ds := Descendants(m, |m.submodules|);
    GatherAppend([m], ds, HeadersOf);
    assert [m][..0] == [];
    assert Gather([m], HeadersOf) == m.headers;
    ExistingAppend(m.headers, Gather(ds, HeadersOf), fileExists);
  }

  /** The existing headers below the first `n` submodules: those below the first `n - 1`, then those in the `n`th. */
  lemma DescendantsExisting(m: ModuleDecl, n: nat, fileExists: Bytes -> bool)
    requires 0 < n <= |m.submodules|
    ensures Existing(Gather(Descendants(m, n), HeadersOf), fileExists)
         == Existing(Gather(Descendants(m, n - 1), HeadersOf), fileExists)
          + Existing(Gather(Subtree(m.submodules[n - 1]), HeadersOf), fileExists)
  {
    assert Descendants(m, n) == Descendants(m, n - 1) + Subtree(m.submodules[n - 1]);
    GatherAppend(Descendants(m, n - 1), Subtree(m.submodules[n - 1]), HeadersOf);
    ExistingAppend(Gather(Descendants(m, n - 1), HeadersOf), Gather(Subtree(m.submodules[n - 1]), HeadersOf), fileExists);
  }

  lemma {:induction false} SubmoduleFilerefs(m: ModuleDecl, n: nat, fileId: nat, fileExists: Bytes -> bool, v: Vocabulary,
                                             r: (seq<Hint>, Vocabulary))
    requires n <= |m.submodules| && Valid(v) && r == SubmoduleHints(m, n, fileId, fileExists, v)
    ensures FilerefsFor(WithType(r.0, FILEREF_TYPE), Existing(Gather(Descendants(m, n), HeadersOf), fileExists), fileId, r.1.words)
    decreases m, 0, n
  {
    if n > 0 {
      var pre := SubmoduleHints(m, n - 1, fileId, fileExists, v);
      var last := ModuleHints(m.submodules[n - 1], fileId, false, fileExists, pre.1);
      SubmoduleFilerefs(m, n - 1, fileId, fileExists, v, pre);
      ModuleFilerefs(m.submodules[n - 1], fileId, false, fileExists, pre.1, last);
      DescendantsExisting(m, n, fileExists);
      WithTypeAppend(pre.0, last.0, FILEREF_TYPE);
      FilerefsJoin(r.0, pre.0, last.0, Existing(Gather(Descendants(m, n), HeadersOf), fileExists),
                   Existing(Gather(Descendants(m, n - 1), HeadersOf), fileExists),
                   Existing(Gather(Subtree(m.submodules[n - 1]), HeadersOf), fileExists), fileId, pre.1, last.1);
    }
  }
}
