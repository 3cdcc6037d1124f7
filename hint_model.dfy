/**
 * The in-memory hint data of `cvise/utils/hint.py`: patches, hints, hint
 * bundles, and the comparison keys that order them.
 */
module HintModel {
  import opened Common
  import opened Ordering

  /**
   * One patch. `path`, `operation` and `value` index the bundle's vocabulary;
   * `left` and `right` delimit the byte range `[left, right)` it replaces.
   * Every field may be absent.
   */
  datatype Patch = Patch(path: Option<nat>, left: Option<int>, right: Option<int>,
                         operation: Option<nat>, value: Option<nat>)

  /** A hint: an optional type (a vocabulary index), its patches and an optional extra index. */
  datatype Hint = Hint(hintType: Option<nat>, patches: seq<Patch>, extra: Option<nat>)

  /** The hints a pass produced, with the vocabulary their indices refer to. */
  datatype Bundle = Bundle(hints: seq<Hint>, passName: string, passUserVisibleName: string,
                           vocabulary: seq<Bytes>)

  /** A patch together with the bundle and the hint it came from. */
  datatype PatchRef = PatchRef(patch: Patch, bundleId: nat, hintId: nat)

  /** Both ends of the patch are present. */
  predicate Positioned(p: Patch)
  {
    p.left.Some? && p.right.Some?
  }

  /** Positions that are present are not negative, as the hint schema demands. */
  predicate NonNegative(p: Patch)
  {
    (p.left.Some? ==> p.left.value >= 0) && (p.right.Some? ==> p.right.value >= 0)
  }

  /** The key of an optional vocabulary index: absent becomes -1. */
  function IndexKey(f: Option<nat>): Key
  {
    if f.None? then Int(-1) else Int(f.value)
  }

  /** The key of an optional position: absent becomes -1. */
  function PositionKey(f: Option<int>): Key
  {
    if f.None? then Int(-1) else Int(f.value)
  }

  /** `Patch.comparison_key`: the tuple of the five fields. */
  function PatchKey(p: Patch): Key
  {
    Tup([IndexKey(p.path), PositionKey(p.left), PositionKey(p.right),
         IndexKey(p.operation), IndexKey(p.value)])
  }

  function PatchKeys(ps: seq<Patch>): (ks: seq<Key>)
    ensures |ks| == |ps| && forall i :: 0 <= i < |ps| ==> ks[i] == PatchKey(ps[i])
  {
    if |ps| == 0 then [] else [PatchKey(ps[0])] + PatchKeys(ps[1..])
  }

  /** `Hint.comparison_key`: type, then the tuple of patch keys, then extra. */
  function HintKey(h: Hint): Key
  {
    Tup([IndexKey(h.hintType), Tup(PatchKeys(h.patches)), IndexKey(h.extra)])
  }

  /** An absent field sorts before every present one. */
  lemma AbsentSortsFirst(n: nat, x: int)
    requires x >= 0
    ensures Less(IndexKey(None), IndexKey(Some(n)))
    ensures Less(PositionKey(None), PositionKey(Some(x)))
    ensures PatchKey(Patch(None, None, None, None, None)) == Tup([Int(-1), Int(-1), Int(-1), Int(-1), Int(-1)])
  {
  }

  lemma IndexKeyInjective(f: Option<nat>, g: Option<nat>)
    ensures IndexKey(f) == IndexKey(g) <==> f == g
  {
  }

  /** Because absent fields become -1, the key tells non-negative patches apart. */
  lemma PatchKeyInjective(p: Patch, q: Patch)
    requires NonNegative(p) && NonNegative(q)
    ensures PatchKey(p) == PatchKey(q) <==> p == q
  {
    if PatchKey(p) == PatchKey(q) {
      var kp, kq := PatchKey(p).elems, PatchKey(q).elems;
      assert kp[0] == kq[0] && kp[1] == kq[1] && kp[2] == kq[2] && kp[3] == kq[3] && kp[4] == kq[4];
      IndexKeyInjective(p.path, q.path);
      IndexKeyInjective(p.operation, q.operation);
      IndexKeyInjective(p.value, q.value);
    }
  }

  /** Hints with non-negative patches have equal keys exactly when they are equal. */
  lemma HintKeyInjective(h: Hint, g: Hint)
    requires forall p :: p in h.patches ==> NonNegative(p)
    requires forall p :: p in g.patches ==> NonNegative(p)
    ensures HintKey(h) == HintKey(g) <==> h == g
  {
    if HintKey(h) == HintKey(g) {
      var kh, kg := HintKey(h).elems, HintKey(g).elems;
      assert kh[0] == kg[0] && kh[1] == kg[1] && kh[2] == kg[2];
      IndexKeyInjective(h.hintType, g.hintType);
      IndexKeyInjective(h.extra, g.extra);
      var ph, pg := PatchKeys(h.patches), PatchKeys(g.patches);
      assert ph == pg;
      forall i | 0 <= i < |h.patches|
        ensures h.patches[i] == g.patches[i]
      {
        assert ph[i] == pg[i];
        PatchKeyInjective(h.patches[i], g.patches[i]);
      }
    }
  }

  /**
   * `_patch_merge_sorting_key`: `-inf` or left, `-inf` or minus right, then
   * whether the patch carries a replacement value.
   */
  function MergeKey(r: PatchRef): Key
  {
    var p := r.patch;
    Tup([if p.left.None? then NegInf else Int(p.left.value),
         if p.right.None? then NegInf else Int(-p.right.value),
         Int(if p.value.Some? then 1 else 0)])
  }

  /** Positionless patches come before positioned ones. */
  lemma PositionlessFirst(a: PatchRef, b: PatchRef)
    requires a.patch.left.None? && b.patch.left.Some?
    ensures Less(MergeKey(a), MergeKey(b))
  {
    var ka, kb := MergeKey(a).elems, MergeKey(b).elems;
    assert Less(ka[0], kb[0]);
  }

  /**
   * Among positioned patches: ascending left, then descending right, then a
   * deletion before a replacement.
   */
  lemma MergeKeyOrder(a: PatchRef, b: PatchRef)
    requires Positioned(a.patch) && Positioned(b.patch)
    ensures Less(MergeKey(a), MergeKey(b)) <==>
      var l1, r1, l2, r2 := a.patch.left.value, a.patch.right.value, b.patch.left.value, b.patch.right.value;
      l1 < l2 || (l1 == l2 && (r1 > r2 || (r1 == r2 && a.patch.value.None? && b.patch.value.Some?)))
  {
    var ka, kb := MergeKey(a).elems, MergeKey(b).elems;
    assert LexLess(ka, kb) == (Less(ka[0], kb[0]) || (ka[0] == kb[0] && LexLess(ka[1..], kb[1..])));
    assert LexLess(ka[1..], kb[1..]) == (Less(ka[1], kb[1]) || (ka[1] == kb[1] && LexLess(ka[2..], kb[2..])));
    assert LexLess(ka[2..], kb[2..]) == (Less(ka[2], kb[2]) || (ka[2] == kb[2] && LexLess(ka[3..], kb[3..])));
    assert ka[3..] == [] && kb[3..] == [];
  }
}
