/**
 * `sort_hints` and `group_hints_by_type` of `cvise/utils/hint.py`.
 */
module HintSort {
  import opened Common
  import opened Ordering
  import opened HintModel

  /** The hint with its patches sorted by `Patch.comparison_key`. */
  function SortPatches(h: Hint): Hint
  {
    h.(patches := SortBy(h.patches, PatchKey))
  }

  function SortEach(hs: seq<Hint>): (r: seq<Hint>)
    ensures |r| == |hs| && forall i :: 0 <= i < |hs| ==> r[i] == SortPatches(hs[i])
  {
    if |hs| == 0 then [] else [SortPatches(hs[0])] + SortEach(hs[1..])
  }

  /** What `sort_hints` leaves in `bundle.hints`. */
  function SortedHints(hs: seq<Hint>): seq<Hint>
  {
    SortBy(SortEach(hs), HintKey)
  }

  /** The scan for a pair of neighbours whose keys are out of order. */
  method NeedsSort(patches: seq<Patch>) returns (needSort: bool)
    requires |patches| > 0
    ensures needSort <==> !SortedBy(patches, PatchKey)
  {
    needSort := false;
    var prevKey := PatchKey(patches[0]);
    var i := 1;
    while i < |patches| && !needSort
      invariant 1 <= i <= |patches|
      invariant prevKey == PatchKey(patches[i - 1])
      invariant !needSort ==> forall j :: 0 < j < i ==> LessOrEqual(PatchKey(patches[j - 1]), PatchKey(patches[j]))
      invariant needSort ==> i < |patches| && Less(PatchKey(patches[i]), PatchKey(patches[i - 1]))
      decreases |patches| - i, !needSort
    {
      var key := PatchKey(patches[i]);
      if Less(key, prevKey) {
        needSort := true;
      } else {
        prevKey := key;
        i := i + 1;
      }
    }
    if needSort {
      assert !LessOrEqual(PatchKey(patches[i - 1]), PatchKey(patches[i]));
    } else {
      AdjacentSorted(patches, PatchKey);
    }
  }

  /** The first half of `sort_hints` for one hint: sort its patches only if they are out of order. */
  method SortHintPatches(hint: Hint) returns (h: Hint)
    ensures h == SortPatches(hint)
  {
    h := hint;
    if |hint.patches| == 0 {
      return;
    }
    var needSort := NeedsSort(hint.patches);
    if !needSort {
      SortBySorted(hint.patches, PatchKey);
      return;
    }
    h := hint.(patches := SortBy(hint.patches, PatchKey));
  }

  /**
   * `sort_hints`: each hint's patches are sorted unless they already are,
   * then the hints are sorted. The bundle is returned rather than updated.
   */
  method SortHintsOf(bundle: Bundle) returns (sorted: Bundle)
    ensures sorted == bundle.(hints := SortedHints(bundle.hints))
  {
    var hints := bundle.hints;
    for i := 0 to |hints|
      invariant |hints| == |bundle.hints|
      invariant forall j :: 0 <= j < i ==> hints[j] == SortPatches(bundle.hints[j])
      invariant forall j :: i <= j < |hints| ==> hints[j] == bundle.hints[j]
    {
      var h := SortHintPatches(hints[i]);
      hints := hints[i := h];
    }
    assert hints == SortEach(bundle.hints);
    sorted := bundle.(hints := SortBy(hints, HintKey));
  }

  /**
   * After sorting, the hints are a permutation of the hints with sorted
   * patches, they are in `Hint.comparison_key` order, and every hint's
   * patches are in `Patch.comparison_key` order.
   */
  lemma SortedHintsSpec(hs: seq<Hint>)
    ensures var r := SortedHints(hs);
      |r| == |hs| && multiset(r) == multiset(SortEach(hs)) && SortedBy(r, HintKey)
      && forall i :: 0 <= i < |r| ==> SortedBy(r[i].patches, PatchKey)
  {
    var r := SortedHints(hs);
    SortBySortsBy(SortEach(hs), HintKey);
    SortEachSorted(hs);
    forall i | 0 <= i < |r|
      ensures SortedBy(r[i].patches, PatchKey)
    {
      assert r[i] in multiset(SortEach(hs));
    }
  }

  /** Every hint `SortEach` returns has its patches in key order. */
  lemma SortEachSorted(hs: seq<Hint>)
    ensures forall h :: h in SortEach(hs) ==> SortedBy(h.patches, PatchKey)
  {
    forall h | h in SortEach(hs)
      ensures SortedBy(h.patches, PatchKey)
    {
      var j :| 0 <= j < |hs| && SortEach(hs)[j] == h;
      SortBySortsBy(hs[j].patches, PatchKey);
    }
  }

  /** Sorting twice is sorting once. */
  lemma SortHintsIdempotent(hs: seq<Hint>)
    ensures SortedHints(SortedHints(hs)) == SortedHints(hs)
  {
    var r := SortedHints(hs);
    SortedHintsSpec(hs);
    forall i | 0 <= i < |r|
      ensures SortEach(r)[i] == r[i]
    {
      SortBySorted(r[i].patches, PatchKey);
    }
    assert SortEach(r) == r;
    SortBySorted(r, HintKey);
  }

  /** The hint's type name: its vocabulary entry, or empty bytes when it has none. */
  function TypeOf(b: Bundle, h: Hint): Bytes
    requires h.hintType.Some? ==> h.hintType.value < |b.vocabulary|
  {
    if h.hintType.Some? then b.vocabulary[h.hintType.value] else []
  }

  /** Every hint's type index lies in the vocabulary. */
  ghost predicate TypesResolvable(b: Bundle, hs: seq<Hint>)
  {
    forall i :: 0 <= i < |hs| ==> (hs[i].hintType.Some? ==> hs[i].hintType.value < |b.vocabulary|)
  }

  /** The hints of type `t`, in their original order. */
  function HintsOfType(b: Bundle, hs: seq<Hint>, t: Bytes): seq<Hint>
    requires TypesResolvable(b, hs)
  {
    if |hs| == 0 then []
    else
      var last := hs[|hs| - 1];
      HintsOfType(b, hs[..|hs| - 1], t) + (if TypeOf(b, last) == t then [last] else [])
  }

  /** The distinct types in order of first occurrence. */
  function TypesInOrder(b: Bundle, hs: seq<Hint>): seq<Bytes>
    requires TypesResolvable(b, hs)
  {
    if |hs| == 0 then []
    else
      var pre := TypesInOrder(b, hs[..|hs| - 1]);
      var t := TypeOf(b, hs[|hs| - 1]);
      if t in pre then pre else pre + [t]
  }

  lemma {:induction false} AbsentTypeHasNoHints(b: Bundle, hs: seq<Hint>, t: Bytes)
    requires TypesResolvable(b, hs) && t !in TypesInOrder(b, hs)
    ensures HintsOfType(b, hs, t) == []
  {
    if |hs| > 0 {
      AbsentTypeHasNoHints(b, hs[..|hs| - 1], t);
    }
  }

  /**
   * `group_hints_by_type`: one bundle per type, keyed by the type name, in
   * order of first occurrence (the order of the dictionary's keys).
   */
  method GroupHintsByType(bundle: Bundle) returns (grouped: map<Bytes, Bundle>, order: seq<Bytes>)
    requires TypesResolvable(bundle, bundle.hints)
    ensures order == TypesInOrder(bundle, bundle.hints)
    ensures forall t :: t in grouped <==> t in order
    ensures forall t :: t in grouped ==> grouped[t] == bundle.(hints := HintsOfType(bundle, bundle.hints, t))
  {
    grouped := map[];
    order := [];
    for i := 0 to |bundle.hints|
      invariant TypesResolvable(bundle, bundle.hints[..i])
      invariant order == TypesInOrder(bundle, bundle.hints[..i])
      invariant forall t :: t in grouped <==> t in order
      invariant forall t :: t in grouped ==> grouped[t] == bundle.(hints := HintsOfType(bundle, bundle.hints[..i], t))
    {
      var h := bundle.hints[i];
      assert bundle.hints[..i + 1][..i] == bundle.hints[..i];
      assert TypesResolvable(bundle, bundle.hints[..i + 1]);
      var t := if h.hintType.Some? then bundle.vocabulary[h.hintType.value] else [];
      if t !in grouped {
        AbsentTypeHasNoHints(bundle, bundle.hints[..i], t);
        grouped := grouped[t := bundle.(hints := [])];
        order := order + [t];
      }
      grouped := grouped[t := grouped[t].(hints := grouped[t].hints + [h])];
    }
    assert bundle.hints[..|bundle.hints|] == bundle.hints;
  }

  /** The number of hints in the groups of the types `ts`. */
  function GroupSizes(b: Bundle, hs: seq<Hint>, ts: seq<Bytes>): nat
    requires TypesResolvable(b, hs)
  {
    if |ts| == 0 then 0 else |HintsOfType(b, hs, ts[0])| + GroupSizes(b, hs, ts[1..])
  }

  lemma {:induction false} GroupSizesAppendType(b: Bundle, hs: seq<Hint>, ts: seq<Bytes>, t: Bytes)
    requires TypesResolvable(b, hs)
    ensures GroupSizes(b, hs, ts + [t]) == GroupSizes(b, hs, ts) + |HintsOfType(b, hs, t)|
  {
    if |ts| > 0 {
      assert (ts + [t])[1..] == ts[1..] + [t];
      GroupSizesAppendType(b, hs, ts[1..], t);
    }
  }

  lemma {:induction false} GroupSizesAddHint(b: Bundle, hs: seq<Hint>, ts: seq<Bytes>)
    requires |hs| > 0 && TypesResolvable(b, hs) && NoDuplicates(ts)
    ensures var pre := hs[..|hs| - 1];
      TypesResolvable(b, pre)
      && GroupSizes(b, hs, ts) == GroupSizes(b, pre, ts) + (if TypeOf(b, hs[|hs| - 1]) in ts then 1 else 0)
  {
    var pre := hs[..|hs| - 1];
    assert TypesResolvable(b, pre);
    if |ts| > 0 {
      GroupSizesAddHint(b, hs, ts[1..]);
      assert ts[0] !in ts[1..];
      assert forall x :: x in ts <==> x == ts[0] || x in ts[1..];
    }
  }

  /** The types in order are distinct, and the groups hold every hint exactly once. */
  lemma {:induction false} GroupingPartitions(b: Bundle, hs: seq<Hint>)
    requires TypesResolvable(b, hs)
    ensures NoDuplicates(TypesInOrder(b, hs))
    ensures GroupSizes(b, hs, TypesInOrder(b, hs)) == |hs|
    ensures forall t :: t in TypesInOrder(b, hs) ==> |HintsOfType(b, hs, t)| > 0
  {
    if |hs| > 0 {
      var pre := hs[..|hs| - 1];
      var t := TypeOf(b, hs[|hs| - 1]);
      assert TypesResolvable(b, pre);
      GroupingPartitions(b, pre);
      var ts := TypesInOrder(b, pre);
      if t in ts {
        GroupSizesAddHint(b, hs, ts);
      } else {
        GroupSizesAddHint(b, hs, ts + [t]);
        AbsentTypeHasNoHints(b, pre, t);
        GroupSizesAppendType(b, pre, ts, t);
      }
    }
  }
}
