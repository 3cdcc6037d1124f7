/**
 * `subtract_hints` and `_calc_positions_mapping_for_patches` of
 * `cvise/utils/hint.py`: the positions of a bundle's patches are recomputed
 * as if the hints of other bundles had already been applied to the files.
 */
module HintSubtract {
  import opened Common
  import opened HintModel
  import opened HintMerge
  import opened Ordering

  /** `patch.right or 0`. */
  function RightOrZero(p: Patch): int
  {
    if p.right.Some? then p.right.value else 0
  }

  /** The first index at or after `from` whose patch does not end at or before `q`. */
  function StopIndex(q: int, ps: seq<PatchRef>, from: nat): (i: nat)
    requires from <= |ps|
    ensures from <= i <= |ps|
    ensures forall j :: from <= j < i ==> RightOrZero(ps[j].patch) <= q
    ensures i < |ps| ==> RightOrZero(ps[i].patch) > q
    decreases |ps| - from
  {
    if from == |ps| || RightOrZero(ps[from].patch) > q then from else StopIndex(q, ps, from + 1)
  }

  /** The reference's bundle exists and its value index is in that bundle's vocabulary. */
  predicate Resolvable(ref: PatchRef, bundles: seq<Bundle>)
  {
    ref.bundleId < |bundles|
    && (ref.patch.value.Some? ==> ref.patch.value.value < |bundles[ref.bundleId].vocabulary|)
  }

  /** How far a positioned patch moves later text: the value's length minus the deleted length. */
  function PositionDelta(ref: PatchRef, bundles: seq<Bundle>): int
  {
    if !Positioned(ref.patch) then 0
    else
      var toInsert := if ref.patch.value.Some? && Resolvable(ref, bundles)
        then |bundles[ref.bundleId].vocabulary[ref.patch.value.value]| else 0;
      toInsert - (ref.patch.right.value - ref.patch.left.value)
  }

  /** The total shift caused by the first `i` patches. */
  function DeltaBefore(ps: seq<PatchRef>, i: nat, bundles: seq<Bundle>): int
    requires i <= |ps|
  {
    if i == 0 then 0 else DeltaBefore(ps, i - 1, bundles) + PositionDelta(ps[i - 1], bundles)
  }

  /**
   * Where position `q` ends up: shifted by every merged patch that ends at
   * or before it, and pulled back to the start of the patch it lies inside.
   */
  function MapPosition(q: int, merged: seq<PatchRef>, bundles: seq<Bundle>): int
  {
    var i := StopIndex(q, merged, 0);
    var pos := q + DeltaBefore(merged, i, bundles);
    if i < |merged| && merged[i].patch.left.Some? && merged[i].patch.left.value < q then
      pos - (q - merged[i].patch.left.value)
    else pos
  }

  /** `StopIndex` is the only index before which every patch ends at or before `q` and at which none does. */
  lemma {:induction false} StopIndexUnique(q: int, ps: seq<PatchRef>, from: nat, i: nat)
    requires from <= i <= |ps|
    requires forall j :: from <= j < i ==> RightOrZero(ps[j].patch) <= q
    requires i < |ps| ==> RightOrZero(ps[i].patch) > q
    ensures StopIndex(q, ps, from) == i
    decreases i - from
  {
    if from < i {
      StopIndexUnique(q, ps, from + 1, i);
    }
  }

  predicate StrictlyIncreasing(s: seq<int>)
  {
    forall i, j :: 0 <= i < j < |s| ==> s[i] < s[j]
  }

  function InsertDistinct(r: seq<int>, x: int): (t: seq<int>)
    requires StrictlyIncreasing(r)
    ensures StrictlyIncreasing(t)
    ensures forall y :: y in t <==> y in r || y == x
  {
    if |r| == 0 then [x]
    else if x < r[0] then [x] + r
    else if x == r[0] then r
    else
      assert r == [r[0]] + r[1..];
      IncreasingTail(r);
      var rest := InsertDistinct(r[1..], x);
      ConsIncreasing(r[0], rest);
      [r[0]] + rest
  }

  lemma IncreasingTail(r: seq<int>)
    requires StrictlyIncreasing(r) && |r| > 0
    ensures StrictlyIncreasing(r[1..]) && forall y :: y in r[1..] ==> r[0] < y
  {
  }

  lemma ConsIncreasing(a: int, rest: seq<int>)
    requires StrictlyIncreasing(rest) && forall y :: y in rest ==> a < y
    ensures StrictlyIncreasing([a] + rest)
  {
    forall i, j | 0 <= i < j < |[a] + rest|
      ensures ([a] + rest)[i] < ([a] + rest)[j]
    {
      assert ([a] + rest)[j] == rest[j - 1] && rest[j - 1] in rest;
      if i > 0 {
        assert ([a] + rest)[i] == rest[i - 1];
      }
    }
  }

  /** `sorted(set(queries))`. */
  function SortedDistinct(s: seq<int>): (r: seq<int>)
    ensures StrictlyIncreasing(r)
    ensures forall y :: y in r <==> y in s
  {
    if |s| == 0 then []
    else
      assert forall y :: y in s <==> y in s[..|s| - 1] || y == s[|s| - 1] by {
        assert s == s[..|s| - 1] + [s[|s| - 1]];
      }
      InsertDistinct(SortedDistinct(s[..|s| - 1]), s[|s| - 1])
  }

  lemma MergeResolvable(patches: seq<PatchRef>, bundles: seq<Bundle>)
    requires forall i :: 0 <= i < |patches| ==> Resolvable(patches[i], bundles)
    ensures var m := Merge(patches, false); forall i :: 0 <= i < |m| ==> Resolvable(m[i], bundles)
  {
    var m := Merge(patches, false);
    MergeOrigins(patches, false);
    forall i | 0 <= i < |m|
      ensures Resolvable(m[i], bundles)
    {
      assert OriginOf(m[i]) in Origins(patches);
      var q :| q in patches && OriginOf(q) == OriginOf(m[i]);
    }
  }

  /** The inner loop: apply the patches that end at or before `query`. */
  method Advance(query: int, merged: seq<PatchRef>, bundles: seq<Bundle>, ptr0: nat, delta0: int)
    returns (ptr: nat, delta: int)
    requires forall i :: 0 <= i < |merged| ==> Resolvable(merged[i], bundles)
    requires ptr0 <= |merged| && delta0 == DeltaBefore(merged, ptr0, bundles)
    requires forall j :: 0 <= j < ptr0 ==> RightOrZero(merged[j].patch) <= query
    ensures ptr == StopIndex(query, merged, 0) && delta == DeltaBefore(merged, ptr, bundles)
  {
    ptr, delta := ptr0, delta0;
    while ptr < |merged| && RightOrZero(merged[ptr].patch) <= query
      invariant ptr <= |merged| && delta == DeltaBefore(merged, ptr, bundles)
      invariant forall j :: 0 <= j < ptr ==> RightOrZero(merged[j].patch) <= query
    {
      var ref := merged[ptr];
      var p := ref.patch;
      if p.left.Some? && p.right.Some? {
        var toDelete := p.right.value - p.left.value;
        var toInsert := if p.value.None? then 0 else |bundles[ref.bundleId].vocabulary[p.value.value]|;
        delta := delta + toInsert - toDelete;
      }
      ptr := ptr + 1;
    }
    StopIndexUnique(query, merged, 0, ptr);
  }

  /**
   * The mapping loop: the queries are visited in increasing order while a
   * cursor into the merged patches and the accumulated shift only move
   * forward.
   */
  method CalcPositionsMapping(queries: seq<int>, patches: seq<PatchRef>, bundles: seq<Bundle>)
    returns (mapping: map<int, int>)
    requires forall i :: 0 <= i < |patches| ==> Resolvable(patches[i], bundles)
    ensures forall q :: q in mapping <==> q in queries
    ensures forall q :: q in mapping ==> mapping[q] == MapPosition(q, Merge(patches, false), bundles)
  {
    var merged := MergeOverlappingPatches(patches);
    MergeResolvable(patches, bundles);
    var qs := SortedDistinct(queries);
    mapping := map[];
    var ptr: nat := 0;
    var delta := 0;
    for k := 0 to |qs|
      invariant ptr <= |merged| && delta == DeltaBefore(merged, ptr, bundles)
      invariant k < |qs| ==> forall j :: 0 <= j < ptr ==> RightOrZero(merged[j].patch) <= qs[k]
      invariant forall q :: q in mapping <==> q in qs[..k]
      invariant forall q :: q in mapping ==> mapping[q] == MapPosition(q, merged, bundles)
    {
      var query := qs[k];
      ptr, delta := Advance(query, merged, bundles, ptr, delta);
      var newPos := query + delta;
      if ptr < |merged| && merged[ptr].patch.left.Some? && merged[ptr].patch.left.value < query {
        newPos := newPos - (query - merged[ptr].patch.left.value);
      }
      mapping := mapping[query := newPos];
      assert qs[..k + 1] == qs[..k] + [query];
    }
    assert qs[..|qs|] == qs;
  }

  /** The file a patch belongs to: its path's vocabulary entry, or `None` for the default path. */
  function PathOf(b: Bundle, p: Patch): Option<Bytes>
  {
    if p.path.Some? && p.path.value < |b.vocabulary| then Some(b.vocabulary[p.path.value]) else None
  }

  function PatchRefs(patches: seq<Patch>, bundleId: nat, hintId: nat): (rs: seq<PatchRef>)
    ensures |rs| == |patches|
    ensures forall i :: 0 <= i < |rs| ==> rs[i] == PatchRef(patches[i], bundleId, hintId)
  {
    if |patches| == 0 then [] else [PatchRef(patches[0], bundleId, hintId)] + PatchRefs(patches[1..], bundleId, hintId)
  }

  /** The patches of hints `0..|hints|` of bundle `bundleId`, in order. */
  function HintRefs(hints: seq<Hint>, bundleId: nat): seq<PatchRef>
  {
    if |hints| == 0 then []
    else HintRefs(hints[..|hints| - 1], bundleId) + PatchRefs(hints[|hints| - 1].patches, bundleId, |hints| - 1)
  }

  /** Every patch of every bundle, tagged with its bundle and hint, in order. */
  function AllRefs(bundles: seq<Bundle>): seq<PatchRef>
  {
    if |bundles| == 0 then []
    else AllRefs(bundles[..|bundles| - 1]) + HintRefs(bundles[|bundles| - 1].hints, |bundles| - 1)
  }

  /** The patches of the subtracted bundles that belong to the file `path`. */
  function Subtrahends(refs: seq<PatchRef>, bundles: seq<Bundle>, path: Option<Bytes>): seq<PatchRef>
  {
    if |refs| == 0 then []
    else
      (if refs[0].bundleId < |bundles| && PathOf(bundles[refs[0].bundleId], refs[0].patch) == path
       then [refs[0]] else [])
      + Subtrahends(refs[1..], bundles, path)
  }

  /** The patch with both ends mapped through the subtracted patches of its file. */
  function MappedPatch(p: Patch, source: Bundle, subtracted: seq<Bundle>): Patch
  {
    var merged := Merge(Subtrahends(AllRefs(subtracted), subtracted, PathOf(source, p)), false);
    p.(left := if p.left.None? then None else Some(MapPosition(p.left.value, merged, subtracted)),
       right := if p.right.None? then None else Some(MapPosition(p.right.value, merged, subtracted)))
  }

  /** A remapped patch survives unless it became empty (or reversed) without an operation. */
  predicate Keep(p: Patch)
  {
    p.left.None? || p.right.None? || p.left.value < p.right.value
    || (p.left.value == p.right.value && p.operation.Some?)
  }

  function SubtractPatches(ps: seq<Patch>, source: Bundle, subtracted: seq<Bundle>): seq<Patch>
  {
    if |ps| == 0 then []
    else
      var np := MappedPatch(ps[0], source, subtracted);
      (if Keep(np) then [np] else []) + SubtractPatches(ps[1..], source, subtracted)
  }

  function SubtractHintList(hs: seq<Hint>, source: Bundle, subtracted: seq<Bundle>): (r: seq<Hint>)
    ensures |r| == |hs|
    ensures forall i :: 0 <= i < |hs| ==>
      r[i] == hs[i].(patches := SubtractPatches(hs[i].patches, source, subtracted))
  {
    if |hs| == 0 then []
    else [hs[0].(patches := SubtractPatches(hs[0].patches, source, subtracted))]
         + SubtractHintList(hs[1..], source, subtracted)
  }

  /** `subtract_hints`: the same hints, pass names and vocabulary, with remapped patches. */
  function SubtractHints(source: Bundle, subtracted: seq<Bundle>): Bundle
  {
    source.(hints := SubtractHintList(source.hints, source, subtracted))
  }

  /** With nothing to subtract, positions map to themselves. */
  lemma MappedPatchUnchanged(p: Patch, source: Bundle)
    ensures MappedPatch(p, source, []) == p
  {
    assert SortBy<PatchRef>([], MergeKey) == [];
  }

  lemma {:induction false} SubtractNothingPatches(ps: seq<Patch>, source: Bundle)
    requires forall i :: 0 <= i < |ps| ==> Keep(ps[i])
    ensures SubtractPatches(ps, source, []) == ps
  {
    if |ps| > 0 {
      MappedPatchUnchanged(ps[0], source);
      SubtractNothingPatches(ps[1..], source);
      assert ps == [ps[0]] + ps[1..];
    }
  }

  /**
   * Subtracting no bundles gives back unchanged a bundle whose patches are
   * non-empty or carry an operation.
   */
  lemma SubtractNothing(source: Bundle)
    requires forall h, p :: h in source.hints && p in h.patches ==> Keep(p)
    ensures SubtractHints(source, []) == source
  {
    var r := SubtractHints(source, []);
    forall i | 0 <= i < |source.hints|
      ensures r.hints[i] == source.hints[i]
    {
      var h := source.hints[i];
      assert forall j :: 0 <= j < |h.patches| ==> h.patches[j] in h.patches;
      SubtractNothingPatches(h.patches, source);
    }
  }

  /** Every position inside a merged patch maps to where the patch's start maps. */
  lemma MapInsidePatch(q: int, merged: seq<PatchRef>, bundles: seq<Bundle>, i: nat)
    requires AllWellFormed(merged) && Disjoint(merged) && i < |merged|
    requires merged[i].patch.left.value <= q < merged[i].patch.right.value
    ensures MapPosition(q, merged, bundles) == MapPosition(merged[i].patch.left.value, merged, bundles)
    ensures MapPosition(q, merged, bundles) == merged[i].patch.left.value + DeltaBefore(merged, i, bundles)
  {
    var l := merged[i].patch.left.value;
    forall j | 0 <= j < i
      ensures RightOrZero(merged[j].patch) <= l
    {
      DisjointChain(merged, j, i);
    }
    StopIndexUnique(q, merged, 0, i);
    StopIndexUnique(l, merged, 0, i);
  }

  /**
   * A patch without an operation whose range lies inside one subtracted
   * patch collapses to an empty range and is dropped; with an operation it
   * is kept as an empty patch.
   */
  lemma InsideSubtrahendCollapses(p: Patch, merged: seq<PatchRef>, bundles: seq<Bundle>, i: nat)
    requires AllWellFormed(merged) && Disjoint(merged) && i < |merged|
    requires Positioned(p)
    requires merged[i].patch.left.value <= p.left.value <= p.right.value < merged[i].patch.right.value
    ensures var np := p.(left := Some(MapPosition(p.left.value, merged, bundles)),
                         right := Some(MapPosition(p.right.value, merged, bundles)));
      np.left == np.right && (Keep(np) <==> p.operation.Some?)
  {
    MapInsidePatch(p.left.value, merged, bundles, i);
    MapInsidePatch(p.right.value, merged, bundles, i);
  }

  /** A position at or after the end of every patch moves by the total shift. */
  lemma MapAfterAll(q: int, merged: seq<PatchRef>, bundles: seq<Bundle>)
    requires forall j :: 0 <= j < |merged| ==> RightOrZero(merged[j].patch) <= q
    ensures MapPosition(q, merged, bundles) == q + DeltaBefore(merged, |merged|, bundles)
  {
    StopIndexUnique(q, merged, 0, |merged|);
  }

  /** A position at or before the start of every patch, and inside none, does not move. */
  lemma MapBeforeAll(q: int, merged: seq<PatchRef>, bundles: seq<Bundle>)
    requires |merged| > 0 ==> RightOrZero(merged[0].patch) > q
    requires |merged| > 0 && merged[0].patch.left.Some? ==> q <= merged[0].patch.left.value
    ensures MapPosition(q, merged, bundles) == q
  {
    StopIndexUnique(q, merged, 0, 0);
  }
}
