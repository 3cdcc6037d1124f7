/**
 * clang_delta's `replace-function-def-with-decl` transformation: the
 * counting of function definitions as the AST visitor reports them
 * (`addOneFunctionDef`) and the rewriting of the chosen ones
 * (`doRewriting`), each in a hint scope of its own.
 *
 * A function definition is an opaque handle: its qualified name and the
 * edits rewriting it adds to its hint scope (what the Clang rewriter
 * computes from the AST).
 */
module ClangReplaceFunctionDef {
  import opened Common
  import opened HintJson
  import opened HintsBuilder

  /** `std::numeric_limits<int>::max()`: the to-counter that asks for every definition. */
  const INT_MAX: int := 0x7fff_ffff

  /** A function definition handed over by the visitor. */
  datatype FunctionDecl = FunctionDecl(qualifiedName: string, edits: seq<Edit>)

  /** The collection fields: `ValidInstanceNum`, `AllValidFunctionDefs`, `TheFunctionDef`. */
  datatype Collection = Collection(validInstanceNum: int, all: seq<FunctionDecl>, theDef: Option<FunctionDecl>)

  /** The definition the `--preserve-routine` option names is skipped. */
  predicate Preserved(fd: FunctionDecl, doPreserveRoutine: bool, preserveRoutine: string)
  {
    doPreserveRoutine && fd.qualifiedName == preserveRoutine
  }

  /**
   * `addOneFunctionDef`: a preserved routine is skipped; any other
   * definition is counted, and then either collected (range mode, a
   * positive to-counter) or kept when its 1-based number is the counter.
   */
  function Added(c: Collection, fd: FunctionDecl, counter: int, toCounter: int,
                 doPreserveRoutine: bool, preserveRoutine: string): Collection
  {
    if Preserved(fd, doPreserveRoutine, preserveRoutine) then c
    else
      var n := c.validInstanceNum + 1;
      if toCounter > 0 then Collection(n, c.all + [fd], c.theDef)
      else Collection(n, c.all, if n == counter then Some(fd) else c.theDef)
  }

  /** Every definition the visitor reports, in order. */
  function Collect(c: Collection, defs: seq<FunctionDecl>, counter: int, toCounter: int,
                   doPreserveRoutine: bool, preserveRoutine: string): Collection
  {
    if |defs| == 0 then c
    else
      Added(Collect(c, defs[..|defs| - 1], counter, toCounter, doPreserveRoutine, preserveRoutine),
            defs[|defs| - 1], counter, toCounter, doPreserveRoutine, preserveRoutine)
  }

  /** The definitions that are not preserved, in order. */
  function Kept(defs: seq<FunctionDecl>, doPreserveRoutine: bool, preserveRoutine: string): seq<FunctionDecl>
  {
    if |defs| == 0 then []
    else
      var fd := defs[|defs| - 1];
      Kept(defs[..|defs| - 1], doPreserveRoutine, preserveRoutine)
        + (if Preserved(fd, doPreserveRoutine, preserveRoutine) then [] else [fd])
  }

  /**
   * Starting from the constructor's state, the count is the number of
   * definitions not preserved; range mode collects exactly those, in
   * order; single mode keeps the one whose 1-based number is the counter.
   */
  lemma {:induction false} CollectSpec(defs: seq<FunctionDecl>, counter: int, toCounter: int,
                                       doPreserveRoutine: bool, preserveRoutine: string)
    ensures var c := Collect(Collection(0, [], None), defs, counter, toCounter, doPreserveRoutine, preserveRoutine);
      var kept := Kept(defs, doPreserveRoutine, preserveRoutine);
      && c.validInstanceNum == |kept|
      && (toCounter > 0 ==> c.all == kept && c.theDef == None)
      && (toCounter <= 0 ==>
            c.all == [] && c.theDef == (if 1 <= counter <= |kept| then Some(kept[counter - 1]) else None))
  {
    if |defs| > 0 {
      CollectSpec(defs[..|defs| - 1], counter, toCounter, doPreserveRoutine, preserveRoutine);
    }
  }

  /** Rewrites definitions `hi` down to `lo` (1-based), each in its own hint scope. */
  function ScopesDown(st: State, defs: seq<FunctionDecl>, lo: int, hi: int): State
    requires 1 <= lo && hi <= |defs|
    decreases hi - lo
  {
    if hi < lo then st else ScopesDown(Scope(st, defs[hi - 1].edits), defs, lo, hi - 1)
  }

  /**
   * What `doRewriting` demands in range mode once the to-counter is
   * resolved: nothing when there are no definitions, otherwise a counter
   * and a to-counter that name definitions that exist.
   */
  predicate RangeOk(c: Collection, counter: int, toCounter: int)
  {
    toCounter > 0 ==>
      var to := if toCounter == INT_MAX then |c.all| else toCounter;
      to == 0 || (1 <= counter <= |c.all| && to <= |c.all|)
  }

  /**
   * `doRewriting` on the builder and the to-counter: one definition in
   * single mode; otherwise the range from the to-counter down to the
   * counter (all definitions for `INT_MAX`, nothing when there are none),
   * and then the hints reversed.
   */
  function Rewritten(st: State, c: Collection, counter: int, toCounter: int): (State, int)
    requires toCounter <= 0 ==> c.theDef.Some?
    requires RangeOk(c, counter, toCounter)
  {
    if toCounter <= 0 then (Scope(st, c.theDef.value.edits), toCounter)
    else
      var to := if toCounter == INT_MAX then |c.all| else toCounter;
      if to == 0 then (st, to)
      else
        var done := ScopesDown(st, c.all, counter, to);
        (State(done.vocab, Reversed(done.hints), done.current), to)
  }

  /** The patches of a hint cover the positive-length edits, in order. */
  predicate Covers(h: seq<JPatch>, edits: seq<Edit>)
  {
    |h| == |Positive(edits)| &&
    forall k :: 0 <= k < |h| ==> h[k].l == Positive(edits)[k].offset && h[k].r == Positive(edits)[k].offset + Positive(edits)[k].len
  }

  /** Hint `j` covers definition `j`'s edits, for every `j`. */
  predicate CoversEach(hs: seq<seq<JPatch>>, ds: seq<FunctionDecl>)
  {
    |hs| == |ds| && forall j :: 0 <= j < |hs| ==> Covers(hs[j], ds[j].edits)
  }

  /** Rewriting the definition gives at least one patch. */
  predicate HasEdits(fd: FunctionDecl)
  {
    |Positive(fd.edits)| > 0
  }

  /** A scope with at least one positive-length edit commits one hint covering those edits. */
  lemma ScopeCommits(st: State, edits: seq<Edit>)
    requires st.current == [] && |Positive(edits)| > 0
    ensures var r := Scope(st, edits);
      |r.hints| == |st.hints| + 1 && r.hints == st.hints + [r.hints[|st.hints|]] && Covers(r.hints[|st.hints|], edits) && r.current == []
  {
    AddPatchesSpec(st, edits);
    var a := AddPatches(st, edits);
    assert a.current[..0] == [];
    forall k | 0 <= k < |a.current|
      ensures a.current[k].l == Positive(edits)[k].offset
      ensures a.current[k].r == Positive(edits)[k].offset + Positive(edits)[k].len
    {
      assert a.current[|st.current| + k] == a.current[k];
    }
  }

  lemma ReversedSnoc<T>(s: seq<T>, x: T)
    ensures Reversed(s + [x]) == [x] + Reversed(s)
  {
    var l := Reversed(s + [x]);
    var r := [x] + Reversed(s);
    assert |l| == |r|;
    forall i | 0 <= i < |l|
      ensures l[i] == r[i]
    {
      if i > 0 {
        assert r[i] == Reversed(s)[i - 1];
      }
    }
  }

  lemma CoversEachReversed(hs: seq<seq<JPatch>>, ds: seq<FunctionDecl>)
    requires CoversEach(hs, Reversed(ds))
    ensures CoversEach(Reversed(hs), ds)
  {
    var rel := (h: seq<JPatch>, d: FunctionDecl) => Covers(h, d.edits);
    assert forall j :: 0 <= j < |hs| ==> rel(hs[j], Reversed(ds)[j]);
    ReversedPairs(hs, ds, rel);
  }

  lemma CoversEachCons(h: seq<JPatch>, hs: seq<seq<JPatch>>, fd: FunctionDecl, ds: seq<FunctionDecl>)
    requires Covers(h, fd.edits) && CoversEach(hs, ds)
    ensures CoversEach([h] + hs, [fd] + ds)
  {
    forall j | 0 <= j < 1 + |hs|
      ensures Covers(([h] + hs)[j], ([fd] + ds)[j].edits)
    {
      if j > 0 {
        assert ([h] + hs)[j] == hs[j - 1] && ([fd] + ds)[j] == ds[j - 1];
      }
    }
  }

  /**
   * `r` is `st` with one more hint per definition of `ds`, in that order,
   * and no hint open.
   */
  predicate Appended(st: State, r: State, ds: seq<FunctionDecl>)
  {
    && r.current == []
    && |st.hints| <= |r.hints| && r.hints[..|st.hints|] == st.hints
    && CoversEach(r.hints[|st.hints|..], ds)
  }

  lemma AppendedCons(st: State, mid: State, r: State, h: seq<JPatch>, fd: FunctionDecl, ds: seq<FunctionDecl>)
    requires mid.hints == st.hints + [h] && Covers(h, fd.edits) && Appended(mid, r, ds)
    ensures Appended(st, r, [fd] + ds)
  {
    var y := r.hints[|mid.hints|..];
    assert r.hints == st.hints + [h] + y by {
      assert r.hints == r.hints[..|mid.hints|] + y;
    }
    assert r.hints[|st.hints|..] == [h] + y;
    CoversEachCons(h, y, fd, ds);
  }

  /** The definitions from `lo` to `hi` (1-based, inclusive). */
  function Range(defs: seq<FunctionDecl>, lo: int, hi: int): (r: seq<FunctionDecl>)
    requires 1 <= lo && hi <= |defs|
    ensures |r| == if hi < lo then 0 else hi - lo + 1
  {
    if hi < lo then [] else defs[lo - 1..hi]
  }

  /**
   * Rewriting `hi` down to `lo` from a builder with no open hint appends
   * one hint per definition, the last definition's first.
   */
  lemma {:induction false} ScopesDownOrder(st: State, defs: seq<FunctionDecl>, lo: int, hi: int)
    requires 1 <= lo && hi <= |defs| && st.current == []
    requires forall i :: lo - 1 <= i < hi ==> HasEdits(defs[i])
    ensures Appended(st, ScopesDown(st, defs, lo, hi), Reversed(Range(defs, lo, hi)))
    decreases hi - lo
  {
    if lo <= hi {
      assert HasEdits(defs[hi - 1]);
      ScopeCloses(st, defs[hi - 1].edits);
      ScopesDownOrder(Scope(st, defs[hi - 1].edits), defs, lo, hi - 1);
      OrderStep(st, defs, lo, hi);
    } else {
      assert st.hints[|st.hints|..] == [];
    }
  }

  lemma ScopeCloses(st: State, edits: seq<Edit>)
    requires st.current == [] && |Positive(edits)| > 0
    ensures Scope(st, edits).current == []
  {
    ScopeCommits(st, edits);
  }

  /** Scoping definition `hi` first puts its hint before those of the definitions below it. */
  lemma OrderStep(st: State, defs: seq<FunctionDecl>, lo: int, hi: int)
    requires 1 <= lo <= hi <= |defs| && st.current == [] && HasEdits(defs[hi - 1])
    requires var mid := Scope(st, defs[hi - 1].edits);
      Appended(mid, ScopesDown(mid, defs, lo, hi - 1), Reversed(Range(defs, lo, hi - 1)))
    ensures Appended(st, ScopesDown(st, defs, lo, hi), Reversed(Range(defs, lo, hi)))
  {
    var fd := defs[hi - 1];
    var mid := Scope(st, fd.edits);
    ScopeCommits(st, fd.edits);
    assert Range(defs, lo, hi) == Range(defs, lo, hi - 1) + [fd];
    ReversedSnoc(Range(defs, lo, hi - 1), fd);
    AppendedCons(st, mid, ScopesDown(mid, defs, lo, hi - 1), mid.hints[|st.hints|], fd, Reversed(Range(defs, lo, hi - 1)));
  }

  /**
   * In range mode, starting with no hints, the hints come out in source
   * order: hint `j` covers definition `counter + j`, over the counter to
   * the to-counter (every definition for `INT_MAX`).
   */
  lemma RewrittenInOrder(st: State, c: Collection, counter: int, toCounter: int)
    requires st.hints == [] && st.current == []
    requires toCounter > 0 && RangeOk(c, counter, toCounter)
    requires forall i :: 0 <= i < |c.all| ==> HasEdits(c.all[i])
    ensures var (r, to) := Rewritten(st, c, counter, toCounter);
      && to == (if toCounter == INT_MAX then |c.all| else toCounter)
      && (to == 0 ==> r == st)
      && (to > 0 ==> CoversEach(r.hints, Range(c.all, counter, to)))
  {
    var to := if toCounter == INT_MAX then |c.all| else toCounter;
    if to > 0 {
      ScopesDownOrder(st, c.all, counter, to);
      var done := ScopesDown(st, c.all, counter, to);
      assert done.hints[0..] == done.hints;
      assert CoversEach(done.hints, Reversed(Range(c.all, counter, to)));
      CoversEachReversed(done.hints, Range(c.all, counter, to));
    }
  }

  /** The transformation object's fields that `addOneFunctionDef` and `doRewriting` use. */
  class ReplaceFunctionDefWithDecl {
    const transformationCounter: int
    var toCounter: int
    const doPreserveRoutine: bool
    const preserveRoutine: string
    var validInstanceNum: int
    var allValidFunctionDefs: seq<FunctionDecl>
    var theFunctionDef: Option<FunctionDecl>
    const hints: Builder

    function Abs(): Collection
      reads this
    {
      Collection(validInstanceNum, allValidFunctionDefs, theFunctionDef)
    }

    /** The constructor's defaults, with the options the manager sets. */
    constructor(counter: int, toCounter: int, doPreserveRoutine: bool, preserveRoutine: string, hints: Builder)
      ensures transformationCounter == counter && this.toCounter == toCounter
      ensures this.doPreserveRoutine == doPreserveRoutine && this.preserveRoutine == preserveRoutine
      ensures this.hints == hints && Abs() == Collection(0, [], None)
    {
      transformationCounter := counter;
      this.toCounter := toCounter;
      this.doPreserveRoutine := doPreserveRoutine;
      this.preserveRoutine := preserveRoutine;
      validInstanceNum := 0;
      allValidFunctionDefs := [];
      theFunctionDef := None;
      this.hints := hints;
    }

    /** `addOneFunctionDef`. */
    method AddOneFunctionDef(fd: FunctionDecl)
      modifies this
      ensures Abs() == Added(old(Abs()), fd, transformationCounter, toCounter, doPreserveRoutine, preserveRoutine)
      ensures toCounter == old(toCounter)
    {
      if doPreserveRoutine && fd.qualifiedName == preserveRoutine {
        return;
      }
      validInstanceNum := validInstanceNum + 1;
      if toCounter > 0 {
        allValidFunctionDefs := allValidFunctionDefs + [fd];
        return;
      }
      if validInstanceNum == transformationCounter {
        theFunctionDef := Some(fd);
      }
    }

    /** The collection visitor's traversal: `addOneFunctionDef` for each definition it meets, in order. */
    method CollectDefs(defs: seq<FunctionDecl>)
      modifies this
      ensures Abs() == Collect(old(Abs()), defs, transformationCounter, toCounter, doPreserveRoutine, preserveRoutine)
      ensures toCounter == old(toCounter)
    {
      for k := 0 to |defs|
        invariant Abs() == Collect(old(Abs()), defs[..k], transformationCounter, toCounter, doPreserveRoutine, preserveRoutine)
        invariant toCounter == old(toCounter)
      {
        assert defs[..k + 1][..k] == defs[..k];
        AddOneFunctionDef(defs[k]);
      }
      assert defs[..|defs|] == defs;
    }

    /**
     * `doRewriting`: the definitions are rewritten from the to-counter down
     * to the counter, so that a definition nested in an earlier one is
     * rewritten first, and the hints are reversed afterwards.
     */
    method DoRewriting()
      requires toCounter <= 0 ==> theFunctionDef.Some?
      requires RangeOk(Abs(), transformationCounter, toCounter)
      modifies this, hints
      ensures Abs() == old(Abs())
      ensures (hints.Abs(), toCounter) == Rewritten(old(hints.Abs()), Abs(), transformationCounter, old(toCounter))
    {
      if toCounter <= 0 {
        hints.AddScopedHint(theFunctionDef.value.edits);
        return;
      }
      if toCounter == INT_MAX {
        toCounter := |allValidFunctionDefs|;
        if toCounter == 0 {
          return;
        }
      }
      var i := toCounter;
      ghost var to := toCounter;
      while i >= transformationCounter
        invariant toCounter == to && 1 <= to <= |allValidFunctionDefs|
        invariant i <= toCounter && (i == toCounter || transformationCounter - 1 <= i)
        invariant Abs() == old(Abs())
        invariant hints.Abs() == ScopesDown(old(hints.Abs()), allValidFunctionDefs, i + 1, toCounter)
        decreases i
      {
        ScopesDownSplit(old(hints.Abs()), allValidFunctionDefs, i, toCounter);
        hints.AddScopedHint(allValidFunctionDefs[i - 1].edits);
        i := i - 1;
      }
      assert hints.Abs() == ScopesDown(old(hints.Abs()), allValidFunctionDefs, transformationCounter, to);
      hints.ReverseOrder();
    }
  }

  /** Rewriting down to `lo` is rewriting down to `lo + 1` and then definition `lo`. */
  lemma {:induction false} ScopesDownSplit(st: State, defs: seq<FunctionDecl>, lo: int, hi: int)
    requires 1 <= lo <= hi && hi <= |defs|
    ensures ScopesDown(st, defs, lo, hi) == Scope(ScopesDown(st, defs, lo + 1, hi), defs[lo - 1].edits)
    decreases hi - lo
  {
    if lo < hi {
      ScopesDownSplit(Scope(st, defs[hi - 1].edits), defs, lo, hi - 1);
    }
  }
}
