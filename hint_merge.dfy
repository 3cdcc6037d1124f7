/**
 * `_merge_overlapping_patches` of `cvise/utils/hint.py`: patches sorted by
 * the merge key are folded into a list in which a patch that starts inside
 * the previous one is absorbed by it.
 */
module HintMerge {
  import opened Common
  import opened Ordering
  import opened HintModel

  function Max(a: int, b: int): int { if a < b then b else a }

  function Min(a: int, b: int): int { if a < b then a else b }

  /** The overlap test as the source writes it: the two ranges share a character. */
  predicate OverlapsAsWritten(prev: Patch, cur: Patch)
  {
    Positioned(prev) && Positioned(cur)
    && Max(prev.left.value, cur.left.value) < Min(prev.right.value, cur.right.value)
  }

  /**
   * The corrected test: `cur` starts before `prev` ends. In merge-key order
   * `prev` never starts after `cur`, so this absorbs every patch that
   * overlaps `prev` and also an empty patch (an insertion) strictly inside it
   * or at its start.
   */
  predicate Absorbs(prev: Patch, cur: Patch)
  {
    Positioned(prev) && Positioned(cur) && cur.left.value < prev.right.value
  }

  /** The previous patch extended to the current one's right end, if that is larger. */
  function Extend(prev: PatchRef, cur: PatchRef): PatchRef
    requires Positioned(prev.patch) && Positioned(cur.patch)
  {
    if cur.patch.right.value > prev.patch.right.value then
      prev.(patch := prev.patch.(right := cur.patch.right))
    else prev
  }

  /** One iteration of the merge loop; `asWritten` selects the source's overlap test. */
  function MergeInto(merged: seq<PatchRef>, cur: PatchRef, asWritten: bool): seq<PatchRef>
  {
    if |merged| > 0
       && (if asWritten then OverlapsAsWritten(merged[|merged| - 1].patch, cur.patch)
           else Absorbs(merged[|merged| - 1].patch, cur.patch))
    then merged[..|merged| - 1] + [Extend(merged[|merged| - 1], cur)]
    else merged + [cur]
  }

  function MergeSorted(sorted: seq<PatchRef>, asWritten: bool): seq<PatchRef>
  {
    if |sorted| == 0 then []
    else MergeInto(MergeSorted(sorted[..|sorted| - 1], asWritten), sorted[|sorted| - 1], asWritten)
  }

  /** The whole merge: a stable sort by the merge key, then the fold. */
  function Merge(patches: seq<PatchRef>, asWritten: bool): seq<PatchRef>
  {
    MergeSorted(SortBy(patches, MergeKey), asWritten)
  }

  /** The merge loop, with the corrected overlap test. */
  method MergeOverlappingPatches(patches: seq<PatchRef>) returns (merged: seq<PatchRef>)
    ensures merged == Merge(patches, false)
  {
    var sorted := SortBy(patches, MergeKey);
    merged := [];
    for i := 0 to |sorted|
      invariant merged == MergeSorted(sorted[..i], false)
    {
      assert sorted[..i + 1][..i] == sorted[..i];
      var cur := sorted[i];
      if |merged| > 0 {
        var prev := merged[|merged| - 1];
        if Absorbs(prev.patch, cur.patch) {
          if cur.patch.right.value > prev.patch.right.value {
            merged := merged[..|merged| - 1] + [prev.(patch := prev.patch.(right := cur.patch.right))];
          } else {
            assert merged == merged[..|merged| - 1] + [prev];
          }
          continue;
        }
      }
      merged := merged + [cur];
    }
    assert sorted[..|sorted|] == sorted;
  }

  /** A positioned patch with `0 <= left <= right`. */
  predicate WellFormed(p: Patch)
  {
    Positioned(p) && 0 <= p.left.value <= p.right.value
  }

  predicate InRange(p: Patch, x: int)
  {
    Positioned(p) && p.left.value <= x < p.right.value
  }

  /** Some patch of `ps` replaces the character at position `x`. */
  ghost predicate Covered(ps: seq<PatchRef>, x: int)
  {
    exists i :: 0 <= i < |ps| && InRange(ps[i].patch, x)
  }

  /** Consecutive patches do not share a character and are in position order. */
  ghost predicate Disjoint(ps: seq<PatchRef>)
    requires AllWellFormed(ps)
  {
    forall i :: 0 < i < |ps| ==> ps[i - 1].patch.right.value <= ps[i].patch.left.value
  }

  ghost predicate AllWellFormed(ps: seq<PatchRef>)
  {
    forall i :: 0 <= i < |ps| ==> WellFormed(ps[i].patch)
  }

  ghost predicate LeftsSorted(ps: seq<PatchRef>)
    requires AllWellFormed(ps)
  {
    forall i, j :: 0 <= i < j < |ps| ==> ps[i].patch.left.value <= ps[j].patch.left.value
  }

  lemma CoveredSnoc(s: seq<PatchRef>, p: PatchRef, x: int)
    ensures Covered(s + [p], x) <==> Covered(s, x) || InRange(p.patch, x)
  {
    var t := s + [p];
    if Covered(s, x) {
      var i :| 0 <= i < |s| && InRange(s[i].patch, x);
      assert t[i] == s[i];
    }
    if InRange(p.patch, x) {
      assert t[|s|] == p;
    }
    if Covered(t, x) {
      var i :| 0 <= i < |t| && InRange(t[i].patch, x);
      if i < |s| {
        assert t[i] == s[i];
      }
    }
  }

  /** Covering depends only on which patches there are, not on their order. */
  lemma CoveredPermutation(s: seq<PatchRef>, t: seq<PatchRef>, x: int)
    requires multiset(s) == multiset(t)
    ensures Covered(s, x) <==> Covered(t, x)
  {
    if Covered(s, x) {
      var i :| 0 <= i < |s| && InRange(s[i].patch, x);
      assert s[i] in multiset(t);
      var j :| 0 <= j < |t| && t[j] == s[i];
    }
    if Covered(t, x) {
      var i :| 0 <= i < |t| && InRange(t[i].patch, x);
      assert t[i] in multiset(s);
      var j :| 0 <= j < |s| && s[j] == t[i];
    }
  }

  /** One corrected merge step keeps the merged list well formed and disjoint. */
  lemma MergeIntoShape(m: seq<PatchRef>, cur: PatchRef)
    requires AllWellFormed(m) && Disjoint(m) && WellFormed(cur.patch)
    requires |m| > 0 ==> m[|m| - 1].patch.left.value <= cur.patch.left.value
    ensures var n := MergeInto(m, cur, false);
      AllWellFormed(n) && Disjoint(n) && |n| > 0 && n[|n| - 1].patch.left.value <= cur.patch.left.value
  {
  }

  /** One corrected merge step adds exactly the characters of the new patch. */
  lemma MergeIntoCovers(m: seq<PatchRef>, cur: PatchRef, x: int)
    requires AllWellFormed(m) && WellFormed(cur.patch)
    requires |m| > 0 ==> m[|m| - 1].patch.left.value <= cur.patch.left.value
    ensures Covered(MergeInto(m, cur, false), x) <==> Covered(m, x) || InRange(cur.patch, x)
  {
    if |m| > 0 && Absorbs(m[|m| - 1].patch, cur.patch) {
      var init, last := m[..|m| - 1], m[|m| - 1];
      assert m == init + [last];
      CoveredSnoc(init, last, x);
      CoveredSnoc(init, Extend(last, cur), x);
    } else {
      CoveredSnoc(m, cur, x);
    }
  }

  /**
   * The corrected fold over left-sorted, well-formed patches yields
   * well-formed, disjoint patches whose last one starts no later than the
   * last input.
   */
  lemma {:induction false} MergeSortedShape(sorted: seq<PatchRef>)
    requires AllWellFormed(sorted) && LeftsSorted(sorted)
    ensures var m := MergeSorted(sorted, false);
      AllWellFormed(m) && Disjoint(m)
      && (|sorted| > 0 ==> |m| > 0 && m[|m| - 1].patch.left.value <= sorted[|sorted| - 1].patch.left.value)
  {
    if |sorted| > 0 {
      var pre := sorted[..|sorted| - 1];
      MergeSortedShape(pre);
      MergeIntoShape(MergeSorted(pre, false), sorted[|sorted| - 1]);
    }
  }

  /** The corrected fold replaces exactly the characters its inputs replace. */
  lemma {:induction false} MergeSortedCovers(sorted: seq<PatchRef>, x: int)
    requires AllWellFormed(sorted) && LeftsSorted(sorted)
    ensures Covered(MergeSorted(sorted, false), x) <==> Covered(sorted, x)
  {
    if |sorted| > 0 {
      var pre := sorted[..|sorted| - 1];
      var cur := sorted[|sorted| - 1];
      assert sorted == pre + [cur];
      MergeSortedCovers(pre, x);
      MergeSortedShape(pre);
      MergeIntoCovers(MergeSorted(pre, false), cur, x);
      CoveredSnoc(pre, cur, x);
    }
  }

  /** The sort by merge key puts well-formed patches in order of their left ends. */
  lemma SortedByMergeKeyLeftsSorted(s: seq<PatchRef>)
    requires AllWellFormed(s) && SortedBy(s, MergeKey)
    ensures LeftsSorted(s)
  {
    forall i, j | 0 <= i < j < |s|
      ensures s[i].patch.left.value <= s[j].patch.left.value
    {
      assert LessOrEqual(MergeKey(s[i]), MergeKey(s[j]));
      MergeKeyOrder(s[j], s[i]);
    }
  }

  lemma SortedWellFormed(patches: seq<PatchRef>)
    requires AllWellFormed(patches)
    ensures var s := SortBy(patches, MergeKey); AllWellFormed(s) && LeftsSorted(s)
  {
    var s := SortBy(patches, MergeKey);
    forall i | 0 <= i < |s|
      ensures WellFormed(s[i].patch)
    {
      assert s[i] in multiset(patches);
    }
    SortBySortsBy(patches, MergeKey);
    SortedByMergeKeyLeftsSorted(s);
  }

  /**
   * After merging well-formed patches, consecutive patches are disjoint and
   * in position order, and exactly the characters some input patch replaced
   * are still replaced.
   */
  lemma MergeSpec(patches: seq<PatchRef>)
    requires AllWellFormed(patches)
    ensures var m := Merge(patches, false);
      AllWellFormed(m) && Disjoint(m)
      && (forall x :: Covered(m, x) <==> Covered(patches, x))
  {
    var s := SortBy(patches, MergeKey);
    SortedWellFormed(patches);
    MergeSortedShape(s);
    forall x
      ensures Covered(Merge(patches, false), x) <==> Covered(patches, x)
    {
      MergeSortedCovers(s, x);
      CoveredPermutation(s, patches, x);
    }
  }

  /** When no patch is empty, the source's overlap test and the corrected one agree. */
  lemma {:induction false} AsWrittenAgreesOnNonEmpty(sorted: seq<PatchRef>)
    requires AllWellFormed(sorted) && LeftsSorted(sorted)
    requires forall i :: 0 <= i < |sorted| ==> sorted[i].patch.left.value < sorted[i].patch.right.value
    ensures MergeSorted(sorted, true) == MergeSorted(sorted, false)
  {
    if |sorted| > 0 {
      var pre, cur := sorted[..|sorted| - 1], sorted[|sorted| - 1];
      assert forall i :: 0 <= i < |pre| ==> pre[i] == sorted[i];
      AsWrittenAgreesOnNonEmpty(pre);
      MergeSortedShape(pre);
      var m := MergeSorted(pre, false);
      if |m| > 0 {
        OverlapTestsAgree(m[|m| - 1].patch, cur.patch);
      }
    }
  }

  /**
   * For a previous patch that starts no later than a non-empty current one,
   * sharing a character and starting before the previous end are the same test.
   */
  lemma OverlapTestsAgree(prev: Patch, cur: Patch)
    requires WellFormed(prev) && WellFormed(cur)
    requires prev.left.value <= cur.left.value < cur.right.value
    ensures OverlapsAsWritten(prev, cur) <==> Absorbs(prev, cur)
  {
  }

  /** A merge of non-empty well-formed patches is the same under both overlap tests. */
  lemma MergeAgreesOnNonEmpty(patches: seq<PatchRef>)
    requires AllWellFormed(patches)
    requires forall i :: 0 <= i < |patches| ==> patches[i].patch.left.value < patches[i].patch.right.value
    ensures Merge(patches, true) == Merge(patches, false)
  {
    var s := SortBy(patches, MergeKey);
    SortedWellFormed(patches);
    forall i | 0 <= i < |s|
      ensures s[i].patch.left.value < s[i].patch.right.value
    {
      assert s[i] in multiset(patches);
    }
    AsWrittenAgreesOnNonEmpty(s);
  }

  /**
   * The source's test keeps an insertion at 5 next to the deletion of
   * `[0, 10)` that contains it: the result is not disjoint. The corrected
   * test absorbs it.
   */
  lemma AsWrittenKeepsInsertionInsideDeletion()
    ensures var del := PatchRef(Patch(None, Some(0), Some(10), None, None), 0, 0);
      var ins := PatchRef(Patch(None, Some(5), Some(5), None, Some(0)), 0, 1);
      Merge([del, ins], true) == [del, ins]
      && !Disjoint(Merge([del, ins], true))
      && Merge([del, ins], false) == [del]
  {
    var del := PatchRef(Patch(None, Some(0), Some(10), None, None), 0, 0);
    var ins := PatchRef(Patch(None, Some(5), Some(5), None, Some(0)), 0, 1);
    MergeKeyOrder(ins, del);
    assert SortBy([del], MergeKey) == [del];
    assert [del, ins][..1] == [del];
    assert SortBy([del, ins], MergeKey) == Insert([del], ins, MergeKey);
    assert Insert([del], ins, MergeKey) == [del, ins];
    assert MergeSorted([del], true) == [del];
    assert MergeSorted([del], false) == [del];
    assert [del, ins][..1] == [del];
  }

  /** Touching patches stay separate; overlapping and nested ones are absorbed. */
  lemma MergeExamples()
    ensures var a := PatchRef(Patch(None, Some(3), Some(4), None, None), 0, 0);
      var b := PatchRef(Patch(None, Some(4), Some(5), None, None), 0, 1);
      MergeSorted([a, b], false) == [a, b]
    ensures var a := PatchRef(Patch(None, Some(3), Some(6), None, None), 0, 0);
      var b := PatchRef(Patch(None, Some(4), Some(7), None, None), 0, 1);
      MergeSorted([a, b], false) == [PatchRef(Patch(None, Some(3), Some(7), None, None), 0, 0)]
    ensures var a := PatchRef(Patch(None, Some(3), Some(7), None, None), 0, 0);
      var b := PatchRef(Patch(None, Some(4), Some(6), None, None), 0, 1);
      MergeSorted([a, b], false) == [a]
  {
    var a := PatchRef(Patch(None, Some(3), Some(4), None, None), 0, 0);
    var b := PatchRef(Patch(None, Some(4), Some(5), None, None), 0, 1);
    assert [a, b][..1] == [a];
    assert MergeSorted([a], false) == [a];
    var c := PatchRef(Patch(None, Some(3), Some(6), None, None), 0, 0);
    var d := PatchRef(Patch(None, Some(4), Some(7), None, None), 0, 1);
    assert [c, d][..1] == [c];
    assert MergeSorted([c], false) == [c];
    var e := PatchRef(Patch(None, Some(3), Some(7), None, None), 0, 0);
    var f := PatchRef(Patch(None, Some(4), Some(6), None, None), 0, 1);
    assert [e, f][..1] == [e];
    assert MergeSorted([e], false) == [e];
  }

  /** A single patch is its own merge. */
  lemma MergeOne(a: PatchRef)
    ensures Merge([a], false) == [a]
  {
    assert SortBy([a], MergeKey) == [a];
    assert [a][..0] == [];
    assert MergeSorted([a], false) == MergeInto([], a, false);
  }

  /** Two patches merge by folding the one that comes second in merge-key order into the other. */
  lemma MergeTwo(a: PatchRef, b: PatchRef)
    ensures Merge([a, b], false)
         == if Less(MergeKey(b), MergeKey(a)) then MergeInto([b], a, false) else MergeInto([a], b, false)
  {
    assert SortBy([a], MergeKey) == [a];
    assert [a, b][..1] == [a];
    var s := SortBy([a, b], MergeKey);
    assert s == if Less(MergeKey(b), MergeKey(a)) then [b, a] else [a, b];
    assert s[..1] == [s[0]];
    assert [s[0]][..0] == [];
    assert MergeSorted([s[0]], false) == [s[0]];
    assert MergeSorted(s, false) == MergeInto([s[0]], s[1], false);
  }

  /** A patch nested in one that comes first in merge-key order is absorbed, in either input order. */
  lemma MergeNested(inner: PatchRef, outer: PatchRef)
    requires WellFormed(inner.patch) && WellFormed(outer.patch)
    requires outer.patch.left.value <= inner.patch.left.value < outer.patch.right.value
    requires inner.patch.right.value <= outer.patch.right.value
    requires outer.patch.left.value < inner.patch.left.value || inner.patch.right.value < outer.patch.right.value
    ensures Merge([inner, outer], false) == [outer] && Merge([outer, inner], false) == [outer]
  {
    assert Less(MergeKey(outer), MergeKey(inner)) by {
      MergeKeyOrder(outer, inner);
    }
    assert !Less(MergeKey(inner), MergeKey(outer)) by {
      MergeKeyOrder(inner, outer);
    }
    assert MergeInto([outer], inner, false) == [outer] by {
      assert Absorbs(outer.patch, inner.patch) && Extend(outer, inner) == outer;
    }
    MergeTwo(inner, outer);
    MergeTwo(outer, inner);
  }

  /**
   * Of two patches sharing characters, the one starting first absorbs the
   * other and is stretched to its end, in either input order.
   */
  lemma MergeLeftmost(first: PatchRef, second: PatchRef)
    requires WellFormed(first.patch) && WellFormed(second.patch)
    requires first.patch.left.value < second.patch.left.value < first.patch.right.value
    ensures var stretched := first.(patch := first.patch.(right := Some(Max(first.patch.right.value, second.patch.right.value))));
      Merge([first, second], false) == [stretched] && Merge([second, first], false) == [stretched]
  {
    MergeKeyOrder(first, second);
    MergeKeyOrder(second, first);
    MergeTwo(first, second);
    MergeTwo(second, first);
  }

  /** Everything about a patch reference except its range. */
  datatype Origin = Origin(path: Option<nat>, operation: Option<nat>, value: Option<nat>,
                           bundleId: nat, hintId: nat)

  function OriginOf(r: PatchRef): Origin
  {
    Origin(r.patch.path, r.patch.operation, r.patch.value, r.bundleId, r.hintId)
  }

  function Origins(ps: seq<PatchRef>): set<Origin>
  {
    set r | r in ps :: OriginOf(r)
  }

  lemma {:induction false} MergeSortedOrigins(sorted: seq<PatchRef>, asWritten: bool)
    ensures Origins(MergeSorted(sorted, asWritten)) <= Origins(sorted)
  {
    if |sorted| > 0 {
      var pre := sorted[..|sorted| - 1];
      var cur := sorted[|sorted| - 1];
      MergeSortedOrigins(pre, asWritten);
      var m := MergeSorted(pre, asWritten);
      assert sorted == pre + [cur];
      forall o | o in Origins(MergeInto(m, cur, asWritten))
        ensures o in Origins(sorted)
      {
        var r :| r in MergeInto(m, cur, asWritten) && OriginOf(r) == o;
        if r == cur {
          assert cur in sorted;
        } else if r in m {
          assert o in Origins(pre);
          var q :| q in pre && OriginOf(q) == o;
          assert q in sorted;
        } else {
          assert |m| > 0 && r == Extend(m[|m| - 1], cur);
          assert OriginOf(r) == OriginOf(m[|m| - 1]);
          assert m[|m| - 1] in m;
          assert o in Origins(pre);
          var q :| q in pre && OriginOf(q) == o;
          assert q in sorted;
        }
      }
    }
  }

  /** Every merged patch keeps the vocabulary indices and the hint of some input patch. */
  lemma MergeOrigins(patches: seq<PatchRef>, asWritten: bool)
    ensures Origins(Merge(patches, asWritten)) <= Origins(patches)
  {
    var s := SortBy(patches, MergeKey);
    MergeSortedOrigins(s, asWritten);
    forall o | o in Origins(s)
      ensures o in Origins(patches)
    {
      var r :| r in s && OriginOf(r) == o;
      assert r in multiset(patches);
    }
  }

  ghost predicate EndsWithin(ps: seq<PatchRef>, n: int)
  {
    forall i :: 0 <= i < |ps| ==> Positioned(ps[i].patch) ==> ps[i].patch.right.value <= n
  }

  lemma {:induction false} MergeSortedEndsWithin(sorted: seq<PatchRef>, asWritten: bool, n: int)
    requires EndsWithin(sorted, n)
    ensures EndsWithin(MergeSorted(sorted, asWritten), n)
  {
    if |sorted| > 0 {
      MergeSortedEndsWithin(sorted[..|sorted| - 1], asWritten, n);
    }
  }

  /** Merging never extends a patch past the largest right end of the inputs. */
  lemma MergeEndsWithin(patches: seq<PatchRef>, asWritten: bool, n: int)
    requires EndsWithin(patches, n)
    ensures EndsWithin(Merge(patches, asWritten), n)
  {
    var s := SortBy(patches, MergeKey);
    forall i | 0 <= i < |s| && Positioned(s[i].patch)
      ensures s[i].patch.right.value <= n
    {
      assert s[i] in multiset(patches);
    }
    MergeSortedEndsWithin(s, asWritten, n);
  }

  /** In a disjoint list every patch ends before any later one starts. */
  lemma {:induction false} DisjointChain(ps: seq<PatchRef>, i: nat, j: nat)
    requires AllWellFormed(ps) && Disjoint(ps) && i < j < |ps|
    ensures ps[i].patch.right.value <= ps[j].patch.left.value
    decreases j - i
  {
    if i + 1 < j {
      DisjointChain(ps, i + 1, j);
    }
  }

  /** One corrected merge step that absorbs `cur` keeps the previous patch's origin and start, and ends at the larger right end. */
  lemma MergeIntoAbsorbed(m: seq<PatchRef>, cur: PatchRef)
    requires |m| > 0 && Absorbs(m[|m| - 1].patch, cur.patch)
    ensures var n := MergeInto(m, cur, false);
      |n| == |m| && n[..|m| - 1] == m[..|m| - 1]
      && OriginOf(n[|m| - 1]) == OriginOf(m[|m| - 1])
      && n[|m| - 1].patch.left == m[|m| - 1].patch.left
      && n[|m| - 1].patch.right.value == Max(m[|m| - 1].patch.right.value, cur.patch.right.value)
  {
  }

  /** The left end of a patch, zero when absent. */
  function LeftOf(r: PatchRef): int
  {
    if r.patch.left.Some? then r.patch.left.value else 0
  }

  /** The right end of a patch, zero when absent. */
  function RightOf(r: PatchRef): int
  {
    if r.patch.right.Some? then r.patch.right.value else 0
  }

  /** The largest right end of a non-empty list of patches. */
  ghost function MaxRight(ps: seq<PatchRef>): int
    requires |ps| > 0
  {
    if |ps| == 1 then RightOf(ps[0]) else Max(MaxRight(ps[..|ps| - 1]), RightOf(ps[|ps| - 1]))
  }

  lemma {:induction false} MaxRightIsMax(ps: seq<PatchRef>)
    requires |ps| > 0
    ensures forall k :: 0 <= k < |ps| ==> RightOf(ps[k]) <= MaxRight(ps)
    ensures exists k :: 0 <= k < |ps| && RightOf(ps[k]) == MaxRight(ps)
  {
    if |ps| == 1 {
      assert RightOf(ps[0]) == MaxRight(ps);
    } else {
      var pre := ps[..|ps| - 1];
      MaxRightIsMax(pre);
      assert forall k :: 0 <= k < |pre| ==> pre[k] == ps[k];
      var k :| 0 <= k < |pre| && RightOf(pre[k]) == MaxRight(pre);
      if MaxRight(ps) == MaxRight(pre) {
        assert RightOf(ps[k]) == MaxRight(ps);
      } else {
        assert RightOf(ps[|ps| - 1]) == MaxRight(ps);
      }
    }
  }

  /**
   * Patch `j` of a sorted list starts a new merged patch: no earlier patch
   * ends after its start.
   */
  ghost predicate Leader(s: seq<PatchRef>, j: int)
  {
    0 <= j < |s| && forall k :: 0 <= k < j ==> RightOf(s[k]) <= LeftOf(s[j])
  }

  /** The merged patch `r` is `p` with, at most, a different right end. */
  predicate Keeps(r: PatchRef, p: PatchRef)
  {
    OriginOf(r) == OriginOf(p) && r.patch.left == p.patch.left
  }

  /** Merged patch `i` keeps a leader of `s`. */
  ghost predicate FromLeader(m: seq<PatchRef>, s: seq<PatchRef>, i: int)
  {
    0 <= i < |m| && exists j :: Leader(s, j) && Keeps(m[i], s[j])
  }

  /** Some merged patch keeps patch `j` of `s`. */
  ghost predicate KeptIn(m: seq<PatchRef>, s: seq<PatchRef>, j: int)
  {
    0 <= j < |s| && exists i :: 0 <= i < |m| && Keeps(m[i], s[j])
  }

  lemma LeaderPrefix(s: seq<PatchRef>, j: int)
    requires |s| > 0 && 0 <= j < |s| - 1
    ensures Leader(s, j) <==> Leader(s[..|s| - 1], j)
  {
    var pre := s[..|s| - 1];
    assert forall k :: 0 <= k <= j ==> pre[k] == s[k];
  }

  /** The last patch of a sorted list starts a merged patch exactly when it starts at or after every earlier end. */
  lemma LeaderLast(s: seq<PatchRef>)
    requires |s| > 1
    ensures Leader(s, |s| - 1) <==> MaxRight(s[..|s| - 1]) <= LeftOf(s[|s| - 1])
  {
    var pre := s[..|s| - 1];
    MaxRightIsMax(pre);
    assert forall k :: 0 <= k < |pre| ==> pre[k] == s[k];
  }

  /**
   * The corrected fold over left-sorted, well-formed patches keeps, for each
   * group of overlapping patches, the first one of the group (its origin
   * and start) extended to the group's end: every merged patch keeps a
   * leader, every leader is kept, and the last merged patch ends where the
   * inputs end at the latest.
   */
  lemma {:induction false} MergeSortedLeaders(sorted: seq<PatchRef>)
    requires AllWellFormed(sorted) && LeftsSorted(sorted)
    ensures var m := MergeSorted(sorted, false);
      (|sorted| > 0 ==> |m| > 0 && m[|m| - 1].patch.right.value == MaxRight(sorted))
      && (forall i :: 0 <= i < |m| ==> FromLeader(m, sorted, i))
      && (forall j :: Leader(sorted, j) ==> KeptIn(m, sorted, j))
  {
    if |sorted| > 0 {
      var pre := sorted[..|sorted| - 1];
      assert forall k :: 0 <= k < |pre| ==> pre[k] == sorted[k];
      MergeSortedLeaders(pre);
      MergeSortedShape(pre);
      LeadersStep(sorted, MergeSorted(pre, false));
    }
  }

  /** One step of the fold keeps the leaders of the list so far and adds the new patch exactly when it leads. */
  lemma LeadersStep(sorted: seq<PatchRef>, m: seq<PatchRef>)
    requires |sorted| > 0 && AllWellFormed(sorted) && LeftsSorted(sorted)
    requires var pre := sorted[..|sorted| - 1];
      AllWellFormed(m)
      && (|pre| > 0 ==> |m| > 0 && m[|m| - 1].patch.right.value == MaxRight(pre))
      && (|pre| == 0 ==> m == [])
      && (forall i :: 0 <= i < |m| ==> FromLeader(m, pre, i))
      && (forall j :: Leader(pre, j) ==> KeptIn(m, pre, j))
    ensures var r := MergeInto(m, sorted[|sorted| - 1], false);
      |r| > 0 && r[|r| - 1].patch.right.value == MaxRight(sorted)
      && (forall i :: 0 <= i < |r| ==> FromLeader(r, sorted, i))
      && (forall j :: Leader(sorted, j) ==> KeptIn(r, sorted, j))
  {
    var n := |sorted|;
    var pre, cur := sorted[..n - 1], sorted[n - 1];
    var r := MergeInto(m, cur, false);
    forall j | 0 <= j < n - 1
      ensures Leader(sorted, j) <==> Leader(pre, j)
    {
      LeaderPrefix(sorted, j);
    }
    if n > 1 {
      LeaderLast(sorted);
    }
    if |m| > 0 && Absorbs(m[|m| - 1].patch, cur.patch) {
      MergeIntoAbsorbed(m, cur);
      assert !Leader(sorted, n - 1);
      forall i | 0 <= i < |r|
        ensures FromLeader(r, sorted, i)
      {
        assert Keeps(r[i], m[i]);
        assert FromLeader(m, pre, i);
        var j :| Leader(pre, j) && Keeps(m[i], pre[j]);
        assert Leader(sorted, j) && Keeps(r[i], sorted[j]);
      }
      forall j | Leader(sorted, j)
        ensures KeptIn(r, sorted, j)
      {
        assert Leader(pre, j);
        assert KeptIn(m, pre, j);
        var i :| 0 <= i < |m| && Keeps(m[i], pre[j]);
        assert Keeps(r[i], m[i]);
      }
    } else {
      assert r == m + [cur];
      assert Leader(sorted, n - 1);
      forall i | 0 <= i < |r|
        ensures FromLeader(r, sorted, i)
      {
        if i < |m| {
          assert FromLeader(m, pre, i);
        var j :| Leader(pre, j) && Keeps(m[i], pre[j]);
          assert Leader(sorted, j) && Keeps(r[i], sorted[j]);
        } else {
          assert Keeps(r[i], sorted[n - 1]);
        }
      }
      forall j | Leader(sorted, j)
        ensures KeptIn(r, sorted, j)
      {
        if j < n - 1 {
          assert Leader(pre, j);
          assert KeptIn(m, pre, j);
        var i :| 0 <= i < |m| && Keeps(m[i], pre[j]);
          assert r[i] == m[i];
        } else {
          assert Keeps(r[|m|], sorted[j]);
        }
      }
    }
  }

  /**
   * Which patch survives a merge: in merge-key order (left ascending, then
   * right descending, then a deletion before a replacement) the first patch
   * of every group of overlapping patches is kept with its operation, value,
   * path, bundle and hint, and the patches it absorbs contribute only their
   * extent.
   */
  lemma MergeLeaders(patches: seq<PatchRef>)
    requires AllWellFormed(patches)
    ensures var s := SortBy(patches, MergeKey);
      var m := Merge(patches, false);
      (forall i :: 0 <= i < |m| ==> FromLeader(m, s, i))
      && (forall j :: Leader(s, j) ==> KeptIn(m, s, j))
  {
    SortedWellFormed(patches);
    MergeSortedLeaders(SortBy(patches, MergeKey));
  }
}
