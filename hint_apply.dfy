/**
 * `_apply_hint_patches_to_file` of `cvise/utils/hint.py`, as a function of
 * the original bytes: the merged patches are applied left to right, copying
 * the unmodified chunks and inserting replacement values, while a per-pass
 * size delta is accumulated.
 */
module HintApply {
  import opened Common
  import opened HintModel
  import opened HintMerge

  /** The vocabulary entry `b"paste"` that names the paste operation. */
  const PasteOperation: Bytes := [112, 97, 115, 116, 101]

  /**
   * What a patch inserts: nothing, some bytes, an unsolvable merge conflict
   * (the pasted file is patched by another hint), or an exception (a
   * vocabulary index out of range).
   */
  datatype Insertion = NoInsertion | Text(bytes: Bytes) | MergeConflict | Broken

  /** `Applied` writes `data`; `Conflict` is the source's `return False`; `Failed` is a raised exception. */
  datatype Outcome = Applied(data: Bytes, stats: map<string, int>) | Conflict | Failed

  /**
   * Reading a pasted file is an input: `paste(bundleId, hintId, path)` is
   * `None` when a patch of another hint touches `path`, and the file's
   * contents otherwise.
   */
  type Paste = (nat, nat, Bytes) -> Option<Bytes>

  function InsertionOf(ref: PatchRef, b: Bundle, paste: Paste): Insertion
  {
    var p := ref.patch;
    if p.value.None? then NoInsertion
    else if p.operation.Some? && p.operation.value >= |b.vocabulary| then Broken
    else if p.operation.Some? && b.vocabulary[p.operation.value] == PasteOperation then
      if p.value.value >= |b.vocabulary| then Broken
      else
        match paste(ref.bundleId, ref.hintId, b.vocabulary[p.value.value])
        case None => MergeConflict
        case Some(t) => Text(t)
    else if p.value.value >= |b.vocabulary| then Broken
    else Text(b.vocabulary[p.value.value])
  }

  /** The value a stats dictionary holds for `k`, zero when absent. */
  function Get(m: map<string, int>, k: string): int
  {
    if k in m then m[k] else 0
  }

  /** The state of the patch loop after one patch: go on, or stop with an outcome. */
  datatype Progress = Continue(data: Bytes, start: nat, stats: map<string, int>) | Stop(outcome: Outcome)

  /**
   * One iteration of the patch loop: check the patch's range, copy the
   * unmodified chunk before it, skip its range and insert its value.
   */
  function Step(ref: PatchRef, bundles: seq<Bundle>, orig: Bytes, paste: Paste,
                data: Bytes, start: nat, stats: map<string, int>): (r: Progress)
    requires start <= |orig|
    ensures r.Continue? ==> r.start <= |orig|
  {
    if ref.bundleId >= |bundles| then Stop(Failed)
    else
      var b := bundles[ref.bundleId];
      var name := b.passUserVisibleName;
      var st := if name in stats then stats else stats[name := 0];
      var p := ref.patch;
      if !(Positioned(p) && start <= p.left.value <= |orig| && p.left.value <= p.right.value <= |orig|) then
        Stop(Failed)
      else
        var l, r := p.left.value, p.right.value;
        var kept := data + orig[start..l];
        var st' := st[name := st[name] - (r - l)];
        match InsertionOf(ref, b, paste)
        case NoInsertion => Continue(kept, r, st')
        case Text(t) => Continue(kept + t, r, st'[name := st'[name] + |t|])
        case MergeConflict => Stop(Conflict)
        case Broken => Stop(Failed)
  }

  /**
   * The patch loop from position `start` on, with the output so far in
   * `data` and the statistics so far in `stats`; the rest of the file is
   * copied at the end.
   */
  function ApplyPatches(ps: seq<PatchRef>, bundles: seq<Bundle>, orig: Bytes, paste: Paste,
                        data: Bytes, start: nat, stats: map<string, int>): Outcome
    requires start <= |orig|
    decreases |ps|
  {
    if |ps| == 0 then Applied(data + orig[start..], stats)
    else
      match Step(ps[0], bundles, orig, paste, data, start, stats)
      case Stop(o) => o
      case Continue(d, s, st) => ApplyPatches(ps[1..], bundles, orig, paste, d, s, st)
  }

  /** Applying the patches of one file: merge them, then run the patch loop from the start. */
  function ApplyToFile(patches: seq<PatchRef>, bundles: seq<Bundle>, orig: Bytes, paste: Paste,
                       stats: map<string, int>): Outcome
  {
    ApplyPatches(Merge(patches, false), bundles, orig, paste, [], 0, stats)
  }

  /** The body of the patch loop for one patch. */
  method ApplyPatch(ref: PatchRef, bundles: seq<Bundle>, orig: Bytes, paste: Paste,
                    data: Bytes, start: nat, stats: map<string, int>) returns (r: Progress)
    requires start <= |orig|
    ensures r == Step(ref, bundles, orig, paste, data, start, stats)
  {
    if ref.bundleId >= |bundles| {
      return Stop(Failed);
    }
    var b := bundles[ref.bundleId];
    var name := b.passUserVisibleName;
    var st := stats;
    if name !in st {
      st := st[name := 0];
    }
    var p := ref.patch;
    if !(p.left.Some? && p.right.Some? && start <= p.left.value <= |orig|
         && p.left.value <= p.right.value <= |orig|) {
      return Stop(Failed);
    }
    var newData := data + orig[start..p.left.value];
    st := st[name := st[name] - (p.right.value - p.left.value)];
    if p.value.Some? {
      var toInsert: Bytes;
      if p.operation.Some? && p.operation.value >= |b.vocabulary| {
        return Stop(Failed);
      }
      if p.operation.Some? && b.vocabulary[p.operation.value] == PasteOperation {
        if p.value.value >= |b.vocabulary| {
          return Stop(Failed);
        }
        var pasted := paste(ref.bundleId, ref.hintId, b.vocabulary[p.value.value]);
        if pasted.None? {
          return Stop(Conflict);
        }
        toInsert := pasted.value;
      } else {
        if p.value.value >= |b.vocabulary| {
          return Stop(Failed);
        }
        toInsert := b.vocabulary[p.value.value];
      }
      newData := newData + toInsert;
      st := st[name := st[name] + |toInsert|];
    }
    r := Continue(newData, p.right.value, st);
  }

  method ApplyHintPatchesToFile(patches: seq<PatchRef>, bundles: seq<Bundle>, orig: Bytes, paste: Paste,
                                stats: map<string, int>) returns (out: Outcome)
    ensures out == ApplyToFile(patches, bundles, orig, paste, stats)
  {
    var merged := MergeOverlappingPatches(patches);
    var newData: Bytes := [];
    var startPos: nat := 0;
    var st := stats;
    var i := 0;
    while i < |merged|
      invariant 0 <= i <= |merged| && startPos <= |orig|
      invariant ApplyPatches(merged[i..], bundles, orig, paste, newData, startPos, st)
             == ApplyPatches(merged, bundles, orig, paste, [], 0, stats)
    {
      assert merged[i..][1..] == merged[i + 1..];
      var r := ApplyPatch(merged[i], bundles, orig, paste, newData, startPos, st);
      if r.Stop? {
        return r.outcome;
      }
      newData, startPos, st := r.data, r.start, r.stats;
      i := i + 1;
    }
    out := Applied(newData + orig[startPos..], st);
  }

  /** The patch's bundle exists and its insertion neither conflicts nor raises. */
  predicate RefOk(ref: PatchRef, bundles: seq<Bundle>, paste: Paste)
  {
    ref.bundleId < |bundles|
    && (InsertionOf(ref, bundles[ref.bundleId], paste).NoInsertion?
        || InsertionOf(ref, bundles[ref.bundleId], paste).Text?)
  }

  /** Bytes inserted by a patch whose insertion is fine. */
  function Inserted(ref: PatchRef, bundles: seq<Bundle>, paste: Paste): nat
  {
    if ref.bundleId < |bundles| && InsertionOf(ref, bundles[ref.bundleId], paste).Text? then
      |InsertionOf(ref, bundles[ref.bundleId], paste).bytes|
    else 0
  }

  /** Inserted minus deleted bytes of one positioned patch. */
  function Change(ref: PatchRef, bundles: seq<Bundle>, paste: Paste): int
  {
    if Positioned(ref.patch) then
      Inserted(ref, bundles, paste) - (ref.patch.right.value - ref.patch.left.value)
    else 0
  }

  /** Total size change of a patch list. */
  function NetChange(ps: seq<PatchRef>, bundles: seq<Bundle>, paste: Paste): int
  {
    if |ps| == 0 then 0 else Change(ps[0], bundles, paste) + NetChange(ps[1..], bundles, paste)
  }

  /** Size change of the patches that come from a pass with user-visible name `name`. */
  function PassChange(ps: seq<PatchRef>, bundles: seq<Bundle>, paste: Paste, name: string): int
  {
    if |ps| == 0 then 0
    else
      (if ps[0].bundleId < |bundles| && bundles[ps[0].bundleId].passUserVisibleName == name
       then Change(ps[0], bundles, paste) else 0)
      + PassChange(ps[1..], bundles, paste, name)
  }

  /**
   * On success the output grows by the total inserted minus deleted length,
   * and each pass's statistic grows by that of its own patches.
   */
  lemma {:induction false} ApplyDelta(ps: seq<PatchRef>, bundles: seq<Bundle>, orig: Bytes, paste: Paste,
                                      data: Bytes, start: nat, stats: map<string, int>)
    requires start <= |orig|
    requires ApplyPatches(ps, bundles, orig, paste, data, start, stats).Applied?
    ensures var out := ApplyPatches(ps, bundles, orig, paste, data, start, stats);
      |out.data| == |data| + (|orig| - start) + NetChange(ps, bundles, paste)
      && forall name :: Get(out.stats, name) == Get(stats, name) + PassChange(ps, bundles, paste, name)
  {
    if |ps| > 0 {
      var next := Step(ps[0], bundles, orig, paste, data, start, stats);
      StepDelta(ps[0], bundles, orig, paste, data, start, stats);
      ApplyDelta(ps[1..], bundles, orig, paste, next.data, next.start, next.stats);
    }
  }

  /** One patch that goes through changes the output and its pass's statistic by its own size change. */
  lemma StepDelta(ref: PatchRef, bundles: seq<Bundle>, orig: Bytes, paste: Paste,
                  data: Bytes, start: nat, stats: map<string, int>)
    requires start <= |orig|
    requires Step(ref, bundles, orig, paste, data, start, stats).Continue?
    ensures var next := Step(ref, bundles, orig, paste, data, start, stats);
      |next.data| == |data| + (next.start - start) + Change(ref, bundles, paste)
      && forall name :: Get(next.stats, name) == Get(stats, name) +
           (if bundles[ref.bundleId].passUserVisibleName == name then Change(ref, bundles, paste) else 0)
  {
  }

  /** Patches that lie in the file, in order and without shared characters, apply without failure. */
  lemma {:induction false} ApplySucceeds(ps: seq<PatchRef>, bundles: seq<Bundle>, orig: Bytes, paste: Paste,
                                         data: Bytes, start: nat, stats: map<string, int>)
    requires start <= |orig|
    requires AllWellFormed(ps) && Disjoint(ps)
    requires forall i :: 0 <= i < |ps| ==> ps[i].patch.right.value <= |orig| && RefOk(ps[i], bundles, paste)
    requires |ps| > 0 ==> start <= ps[0].patch.left.value
    ensures ApplyPatches(ps, bundles, orig, paste, data, start, stats).Applied?
  {
    if |ps| > 0 {
      var ref := ps[0];
      StepContinues(ref, bundles, orig, paste, data, start, stats);
      var next := Step(ref, bundles, orig, paste, data, start, stats);
      var rest := ps[1..];
      assert forall i :: 0 <= i < |rest| ==> rest[i] == ps[i + 1];
      ApplySucceeds(rest, bundles, orig, paste, next.data, next.start, next.stats);
    }
  }

  /** A patch inside the file, at or after the cursor, whose insertion is fine lets the loop go on past it. */
  lemma StepContinues(ref: PatchRef, bundles: seq<Bundle>, orig: Bytes, paste: Paste,
                      data: Bytes, start: nat, stats: map<string, int>)
    requires start <= |orig| && WellFormed(ref.patch) && RefOk(ref, bundles, paste)
    requires start <= ref.patch.left.value && ref.patch.right.value <= |orig|
    ensures Step(ref, bundles, orig, paste, data, start, stats).Continue?
    ensures Step(ref, bundles, orig, paste, data, start, stats).start == ref.patch.right.value
  {
  }


  /** `RefOk` depends only on what merging keeps from an input patch. */
  lemma MergeKeepsRefOk(patches: seq<PatchRef>, bundles: seq<Bundle>, paste: Paste)
    requires forall i :: 0 <= i < |patches| ==> RefOk(patches[i], bundles, paste)
    ensures var m := Merge(patches, false);
      forall i :: 0 <= i < |m| ==> RefOk(m[i], bundles, paste)
  {
    var m := Merge(patches, false);
    MergeOrigins(patches, false);
    forall i | 0 <= i < |m|
      ensures RefOk(m[i], bundles, paste)
    {
      assert OriginOf(m[i]) in Origins(patches);
      var q :| q in patches && OriginOf(q) == OriginOf(m[i]);
    }
  }

  /**
   * Well-formed patches inside the file whose insertions are fine always
   * apply: merging leaves no two of them sharing a character.
   */
  lemma ApplyToFileSucceeds(patches: seq<PatchRef>, bundles: seq<Bundle>, orig: Bytes, paste: Paste,
                            stats: map<string, int>)
    requires AllWellFormed(patches)
    requires forall i :: 0 <= i < |patches| ==>
      patches[i].patch.right.value <= |orig| && RefOk(patches[i], bundles, paste)
    ensures ApplyToFile(patches, bundles, orig, paste, stats).Applied?
  {
    var m := Merge(patches, false);
    MergeSpec(patches);
    MergeKeepsRefOk(patches, bundles, paste);
    MergeEndsWithin(patches, false, |orig|);
    ApplySucceeds(m, bundles, orig, paste, [], 0, stats);
  }

  /** What a patch puts in place of its range: its value's bytes, or nothing. */
  function InsertionBytes(ref: PatchRef, bundles: seq<Bundle>, paste: Paste): Bytes
  {
    if ref.bundleId < |bundles| && InsertionOf(ref, bundles[ref.bundleId], paste).Text? then
      InsertionOf(ref, bundles[ref.bundleId], paste).bytes
    else []
  }

  /** Patches in position order, without shared characters, inside the file and not before `start`. */
  ghost predicate Placed(ps: seq<PatchRef>, orig: Bytes, start: nat)
  {
    start <= |orig| && AllWellFormed(ps) && Disjoint(ps)
    && (forall i :: 0 <= i < |ps| ==> ps[i].patch.right.value <= |orig|)
    && (|ps| > 0 ==> start <= ps[0].patch.left.value)
  }

  /** Where the unmodified chunk before patch `k` (or, for `k == |ps|`, the tail) starts. */
  ghost function ChunkStart(ps: seq<PatchRef>, k: nat, start: nat): int
    requires k <= |ps| && AllWellFormed(ps)
  {
    if k == 0 then start else ps[k - 1].patch.right.value
  }

  /** Piece `k`: the unmodified chunk before patch `k`, then what patch `k` inserts. */
  ghost function Pieces(orig: Bytes, ps: seq<PatchRef>, bundles: seq<Bundle>, paste: Paste, start: nat): seq<Bytes>
    requires Placed(ps, orig, start)
  {
    seq(|ps|, k requires 0 <= k < |ps| =>
      orig[ChunkStart(ps, k, start)..ps[k].patch.left.value] + InsertionBytes(ps[k], bundles, paste))
  }

  ghost function Concat(parts: seq<Bytes>): Bytes
  {
    if |parts| == 0 then [] else parts[0] + Concat(parts[1..])
  }

  /**
   * The file from `start` on with the range of each patch replaced by its
   * insertion: the pieces in order, then the bytes after the last patch.
   */
  ghost function Spliced(orig: Bytes, ps: seq<PatchRef>, bundles: seq<Bundle>, paste: Paste, start: nat): Bytes
    requires Placed(ps, orig, start)
  {
    Concat(Pieces(orig, ps, bundles, paste, start)) + orig[ChunkStart(ps, |ps|, start)..]
  }

  /** The splice from `start` is the first piece followed by the splice of the rest from the first patch's end. */
  lemma SplicedCons(orig: Bytes, ps: seq<PatchRef>, bundles: seq<Bundle>, paste: Paste, start: nat)
    requires Placed(ps, orig, start) && |ps| > 0
    ensures Placed(ps[1..], orig, ps[0].patch.right.value)
    ensures Spliced(orig, ps, bundles, paste, start)
         == orig[start..ps[0].patch.left.value] + InsertionBytes(ps[0], bundles, paste)
            + Spliced(orig, ps[1..], bundles, paste, ps[0].patch.right.value)
  {
    var rest, r := ps[1..], ps[0].patch.right.value;
    assert forall i :: 0 <= i < |rest| ==> rest[i] == ps[i + 1];
    if |rest| > 0 {
      DisjointChain(ps, 0, 1);
    }
    var p, q := Pieces(orig, ps, bundles, paste, start), Pieces(orig, rest, bundles, paste, r);
    assert p[1..] == q;
    assert ChunkStart(ps, |ps|, start) == ChunkStart(rest, |rest|, r);
  }

  lemma AppendFour(a: Bytes, b: Bytes, c: Bytes, d: Bytes)
    ensures a + b + c + d == a + (b + c + d)
  {
  }

  /**
   * The loop over placed patches takes the first one by copying the chunk
   * before it and its insertion, and goes on from its right end.
   */
  lemma ApplyCons(ps: seq<PatchRef>, bundles: seq<Bundle>, orig: Bytes, paste: Paste,
                  data: Bytes, start: nat, stats: map<string, int>) returns (stats': map<string, int>)
    requires Placed(ps, orig, start) && |ps| > 0 && RefOk(ps[0], bundles, paste)
    ensures ApplyPatches(ps, bundles, orig, paste, data, start, stats)
         == ApplyPatches(ps[1..], bundles, orig, paste,
                         data + orig[start..ps[0].patch.left.value] + InsertionBytes(ps[0], bundles, paste),
                         ps[0].patch.right.value, stats')
  {
    var next := Step(ps[0], bundles, orig, paste, data, start, stats);
    StepContinues(ps[0], bundles, orig, paste, data, start, stats);
    assert next.data == data + orig[start..ps[0].patch.left.value] + InsertionBytes(ps[0], bundles, paste);
    stats' := next.stats;
  }

  /**
   * Patches in position order without shared characters, inside the file,
   * whose insertions are fine, turn the file into the splice: each patch's
   * range is replaced by its value (nothing for a deletion) and every other
   * byte is copied.
   */
  lemma {:induction false} ApplyContent(ps: seq<PatchRef>, bundles: seq<Bundle>, orig: Bytes, paste: Paste,
                                        data: Bytes, start: nat, stats: map<string, int>)
    requires Placed(ps, orig, start)
    requires forall i :: 0 <= i < |ps| ==> RefOk(ps[i], bundles, paste)
    ensures var out := ApplyPatches(ps, bundles, orig, paste, data, start, stats);
      out.Applied? && out.data == data + Spliced(orig, ps, bundles, paste, start)
  {
    if |ps| > 0 {
      var rest := ps[1..];
      var stats' := ApplyCons(ps, bundles, orig, paste, data, start, stats);
      SplicedCons(orig, ps, bundles, paste, start);
      var data' := data + orig[start..ps[0].patch.left.value] + InsertionBytes(ps[0], bundles, paste);
      assert forall i :: 0 <= i < |rest| ==> rest[i] == ps[i + 1];
      ApplyContent(rest, bundles, orig, paste, data', ps[0].patch.right.value, stats');
      AppendFour(data, orig[start..ps[0].patch.left.value], InsertionBytes(ps[0], bundles, paste),
                 Spliced(orig, rest, bundles, paste, ps[0].patch.right.value));
    }
  }

  /**
   * Applying well-formed in-file patches whose insertions are fine writes
   * the splice of the merged patches: the leader of each overlap group
   * (`MergeLeaders`) replaces the group's whole extent by its own value.
   */
  lemma ApplyToFileContent(patches: seq<PatchRef>, bundles: seq<Bundle>, orig: Bytes, paste: Paste,
                           stats: map<string, int>)
    requires AllWellFormed(patches)
    requires forall i :: 0 <= i < |patches| ==>
      patches[i].patch.right.value <= |orig| && RefOk(patches[i], bundles, paste)
    ensures var m := Merge(patches, false);
      Placed(m, orig, 0)
      && var out := ApplyToFile(patches, bundles, orig, paste, stats);
      out.Applied? && out.data == Spliced(orig, m, bundles, paste, 0)
  {
    var m := Merge(patches, false);
    MergeSpec(patches);
    MergeKeepsRefOk(patches, bundles, paste);
    MergeEndsWithin(patches, false, |orig|);
    ApplyContent(m, bundles, orig, paste, [], 0, stats);
  }

  /** The bytes of `orig[lo..hi]` that no patch of `ps` replaces, in order. */
  ghost function Kept(orig: Bytes, ps: seq<PatchRef>, lo: nat, hi: nat): Bytes
    requires lo <= hi <= |orig|
    decreases hi - lo
  {
    if lo == hi then []
    else Kept(orig, ps, lo, hi - 1) + (if Covered(ps, hi - 1) then [] else [orig[hi - 1]])
  }

  lemma {:induction false} KeptSplit(orig: Bytes, ps: seq<PatchRef>, a: nat, b: nat, c: nat)
    requires a <= b <= c <= |orig|
    ensures Kept(orig, ps, a, c) == Kept(orig, ps, a, b) + Kept(orig, ps, b, c)
    decreases c - b
  {
    if b < c {
      KeptSplit(orig, ps, a, b, c - 1);
    }
  }

  lemma {:induction false} KeptUncovered(orig: Bytes, ps: seq<PatchRef>, a: nat, b: nat)
    requires a <= b <= |orig|
    requires forall x :: a <= x < b ==> !Covered(ps, x)
    ensures Kept(orig, ps, a, b) == orig[a..b]
    decreases b - a
  {
    if a < b {
      KeptUncovered(orig, ps, a, b - 1);
      assert orig[a..b] == orig[a..b - 1] + [orig[b - 1]];
    }
  }

  lemma {:induction false} KeptAllCovered(orig: Bytes, ps: seq<PatchRef>, a: nat, b: nat)
    requires a <= b <= |orig|
    requires forall x :: a <= x < b ==> Covered(ps, x)
    ensures Kept(orig, ps, a, b) == []
    decreases b - a
  {
    if a < b {
      KeptAllCovered(orig, ps, a, b - 1);
    }
  }

  lemma {:induction false} KeptSame(orig: Bytes, ps: seq<PatchRef>, qs: seq<PatchRef>, a: nat, b: nat)
    requires a <= b <= |orig|
    requires forall x :: a <= x < b ==> (Covered(ps, x) <==> Covered(qs, x))
    ensures Kept(orig, ps, a, b) == Kept(orig, qs, a, b)
    decreases b - a
  {
    if a < b {
      KeptSame(orig, ps, qs, a, b - 1);
    }
  }

  lemma CoveredCons(ps: seq<PatchRef>, x: int)
    requires |ps| > 0
    ensures Covered(ps, x) <==> InRange(ps[0].patch, x) || Covered(ps[1..], x)
  {
    if Covered(ps[1..], x) {
      var i :| 0 <= i < |ps| - 1 && InRange(ps[1..][i].patch, x);
      assert ps[i + 1] == ps[1..][i];
    }
    if Covered(ps, x) {
      var i :| 0 <= i < |ps| && InRange(ps[i].patch, x);
      if i > 0 {
        assert ps[1..][i - 1] == ps[i];
      }
    }
  }

  /** A pure deletion whose bundle exists. */
  predicate Deletion(ref: PatchRef, bundles: seq<Bundle>)
  {
    ref.patch.value.None? && ref.bundleId < |bundles|
  }

  /** A deletion continues the loop after its range, having copied the chunk before it. */
  lemma StepDeletion(p: PatchRef, bundles: seq<Bundle>, orig: Bytes, paste: Paste,
                     data: Bytes, start: nat, stats: map<string, int>)
    requires start <= |orig| && WellFormed(p.patch) && Deletion(p, bundles)
    requires start <= p.patch.left.value && p.patch.right.value <= |orig|
    ensures var next := Step(p, bundles, orig, paste, data, start, stats);
      next.Continue? && next.data == data + orig[start..p.patch.left.value] && next.start == p.patch.right.value
  {
  }

  /** The bytes kept from `start` on are the chunk before the first patch and those kept after it. */
  lemma KeptAroundFirst(ps: seq<PatchRef>, orig: Bytes, start: nat)
    requires start <= |orig| && |ps| > 0
    requires AllWellFormed(ps) && Disjoint(ps)
    requires start <= ps[0].patch.left.value && ps[0].patch.right.value <= |orig|
    ensures Kept(orig, ps, start, |orig|)
         == orig[start..ps[0].patch.left.value] + Kept(orig, ps[1..], ps[0].patch.right.value, |orig|)
  {
    var rest := ps[1..];
    var l, r := ps[0].patch.left.value, ps[0].patch.right.value;
    KeptSplit(orig, ps, start, l, |orig|);
    KeptSplit(orig, ps, l, r, |orig|);
    forall x | start <= x < l
      ensures !Covered(ps, x)
    {
      CoveredCons(ps, x);
      if Covered(rest, x) {
        var j :| 0 <= j < |rest| && InRange(rest[j].patch, x);
        DisjointChain(ps, 0, j + 1);
      }
    }
    KeptUncovered(orig, ps, start, l);
    forall x | l <= x < r
      ensures Covered(ps, x)
    {
      assert InRange(ps[0].patch, x);
    }
    KeptAllCovered(orig, ps, l, r);
    forall x | r <= x < |orig|
      ensures Covered(ps, x) <==> Covered(rest, x)
    {
      CoveredCons(ps, x);
    }
    KeptSame(orig, ps, rest, r, |orig|);
  }

  /** Applying disjoint deletions keeps exactly the bytes none of them covers. */
  lemma {:induction false} ApplyDeletions(ps: seq<PatchRef>, bundles: seq<Bundle>, orig: Bytes, paste: Paste,
                                          data: Bytes, start: nat, stats: map<string, int>)
    requires start <= |orig|
    requires AllWellFormed(ps) && Disjoint(ps)
    requires forall i :: 0 <= i < |ps| ==> ps[i].patch.right.value <= |orig| && Deletion(ps[i], bundles)
    requires |ps| > 0 ==> start <= ps[0].patch.left.value
    ensures var out := ApplyPatches(ps, bundles, orig, paste, data, start, stats);
      out.Applied? && out.data == data + Kept(orig, ps, start, |orig|)
  {
    if |ps| == 0 {
      KeptUncovered(orig, ps, start, |orig|);
    } else {
      var next := Step(ps[0], bundles, orig, paste, data, start, stats);
      StepDeletion(ps[0], bundles, orig, paste, data, start, stats);
      ApplyDeletions(ps[1..], bundles, orig, paste, next.data, next.start, next.stats);
      KeptAroundFirst(ps, orig, start);
    }
  }

  /**
   * Applying pure deletions to a file, in any order and however they
   * overlap, keeps exactly the bytes that no deletion covers.
   */
  lemma ApplyToFileDeletes(patches: seq<PatchRef>, bundles: seq<Bundle>, orig: Bytes, paste: Paste,
                           stats: map<string, int>)
    requires AllWellFormed(patches)
    requires forall i :: 0 <= i < |patches| ==>
      patches[i].patch.right.value <= |orig| && Deletion(patches[i], bundles)
    ensures var out := ApplyToFile(patches, bundles, orig, paste, stats);
      out.Applied? && out.data == Kept(orig, patches, 0, |orig|)
  {
    var m := Merge(patches, false);
    MergeSpec(patches);
    MergeOrigins(patches, false);
    MergeEndsWithin(patches, false, |orig|);
    forall i | 0 <= i < |m|
      ensures Deletion(m[i], bundles)
    {
      assert OriginOf(m[i]) in Origins(patches);
      var q :| q in patches && OriginOf(q) == OriginOf(m[i]);
    }
    ApplyDeletions(m, bundles, orig, paste, [], 0, stats);
    KeptSame(orig, m, patches, 0, |orig|);
  }

  /**
   * With the source's overlap test, deleting `[0, 10)` of a 10-byte file
   * together with an insertion at 5 raises.
   */
  lemma AsWrittenMergeBreaksApply(paste: Paste)
    ensures var del := PatchRef(Patch(None, Some(0), Some(10), None, None), 0, 0);
      var ins := PatchRef(Patch(None, Some(5), Some(5), None, Some(0)), 0, 1);
      ApplyPatches(Merge([del, ins], true), [Bundle([], "p", "p", [[120]])], Digits(), paste, [], 0, map[]) == Failed
  {
    AsWrittenKeepsInsertionInsideDeletion();
    var del := PatchRef(Patch(None, Some(0), Some(10), None, None), 0, 0);
    var ins := PatchRef(Patch(None, Some(5), Some(5), None, Some(0)), 0, 1);
    var bundles := [Bundle([], "p", "p", [[120]])];
    var after := Step(del, bundles, Digits(), paste, [], 0, map[]);
    assert after.Continue? && after.start == 10;
    assert [del, ins][1..] == [ins];
    assert Step(ins, bundles, Digits(), paste, after.data, 10, after.stats) == Stop(Failed);
  }

  /** With the corrected test the same insertion is absorbed and the file becomes empty. */
  lemma CorrectedMergeApplies(paste: Paste)
    ensures var del := PatchRef(Patch(None, Some(0), Some(10), None, None), 0, 0);
      var ins := PatchRef(Patch(None, Some(5), Some(5), None, Some(0)), 0, 1);
      var out := ApplyToFile([del, ins], [Bundle([], "p", "p", [[120]])], Digits(), paste, map[]);
      out.Applied? && out.data == [] && Get(out.stats, "p") == -10
  {
    AsWrittenKeepsInsertionInsideDeletion();
    DeleteAllDigits(paste);
  }

  lemma DeleteAllDigits(paste: Paste)
    ensures var del := PatchRef(Patch(None, Some(0), Some(10), None, None), 0, 0);
      var out := ApplyPatches([del], [Bundle([], "p", "p", [[120]])], Digits(), paste, [], 0, map[]);
      out.Applied? && out.data == [] && Get(out.stats, "p") == -10
  {
    var del := PatchRef(Patch(None, Some(0), Some(10), None, None), 0, 0);
    var bundles := [Bundle([], "p", "p", [[120]])];
    var after := Step(del, bundles, Digits(), paste, [], 0, map[]);
    assert after.Continue? && after.start == 10 && after.data == [] && Get(after.stats, "p") == -10;
    assert [del][1..] == [];
    assert Digits()[10..] == [];
  }

  /**
   * When the patches merge into one, the file becomes the bytes before it,
   * its insertion and the bytes after it.
   */
  lemma ApplyMergedToOne(patches: seq<PatchRef>, m: PatchRef, bundles: seq<Bundle>, orig: Bytes, paste: Paste,
                         before: Bytes, inserted: Bytes, after: Bytes)
    requires Merge(patches, false) == [m]
    requires WellFormed(m.patch) && m.patch.right.value <= |orig| && RefOk(m, bundles, paste)
    requires before == orig[..m.patch.left.value] && after == orig[m.patch.right.value..]
    requires inserted == InsertionBytes(m, bundles, paste)
    ensures var out := ApplyToFile(patches, bundles, orig, paste, map[]);
      out.Applied? && out.data == before + inserted + after
  {
    assert ApplyToFile(patches, bundles, orig, paste, map[]) == ApplyPatches([m], bundles, orig, paste, [], 0, map[]);
    var st := ApplyCons([m], bundles, orig, paste, [], 0, map[]);
    var data := [] + orig[0..m.patch.left.value] + inserted;
    assert [m][1..] == [];
    assert ApplyPatches([], bundles, orig, paste, data, m.patch.right.value, st)
        == Applied(data + orig[m.patch.right.value..], st);
    assert data + orig[m.patch.right.value..] == before + inserted + after;
  }

  /** What a patch inserts depends on its vocabulary indices and its hint, not on its range. */
  lemma InsertionOfOrigin(r: PatchRef, q: PatchRef, bundles: seq<Bundle>, paste: Paste)
    requires OriginOf(r) == OriginOf(q)
    ensures InsertionBytes(r, bundles, paste) == InsertionBytes(q, bundles, paste)
    ensures RefOk(r, bundles, paste) == RefOk(q, bundles, paste)
  {
    assert r.patch.value == q.patch.value && r.patch.operation == q.patch.operation;
    assert r.bundleId == q.bundleId && r.hintId == q.hintId;
  }

  /** A patch without an operation inserts its value's vocabulary entry; a deletion inserts nothing. */
  lemma PlainInsertion(r: PatchRef, bundles: seq<Bundle>, paste: Paste)
    requires r.bundleId < |bundles| && r.patch.operation.None?
    requires r.patch.value.Some? ==> r.patch.value.value < |bundles[r.bundleId].vocabulary|
    ensures RefOk(r, bundles, paste)
    ensures InsertionBytes(r, bundles, paste)
         == if r.patch.value.Some? then bundles[r.bundleId].vocabulary[r.patch.value.value] else []
  {
  }

  /**
   * A patch nested inside another one that comes first in merge-key order
   * (it starts earlier or ends later) is dropped, whichever of the two is
   * listed first: the outer patch alone replaces its range.
   */
  lemma NestedPatchDropped(inner: PatchRef, outer: PatchRef, bundles: seq<Bundle>, orig: Bytes, paste: Paste)
    requires WellFormed(inner.patch) && WellFormed(outer.patch)
    requires outer.patch.left.value <= inner.patch.left.value < outer.patch.right.value
    requires inner.patch.right.value <= outer.patch.right.value
    requires outer.patch.left.value < inner.patch.left.value || inner.patch.right.value < outer.patch.right.value
    requires outer.patch.right.value <= |orig| && RefOk(outer, bundles, paste)
    ensures var out := ApplyToFile([inner, outer], bundles, orig, paste, map[]);
      out.Applied?
      && out.data == orig[..outer.patch.left.value] + InsertionBytes(outer, bundles, paste)
                     + orig[outer.patch.right.value..]
    ensures var out := ApplyToFile([outer, inner], bundles, orig, paste, map[]);
      out.Applied?
      && out.data == orig[..outer.patch.left.value] + InsertionBytes(outer, bundles, paste)
                     + orig[outer.patch.right.value..]
  {
    MergeNested(inner, outer);
    ApplyMergedToOne([inner, outer], outer, bundles, orig, paste, orig[..outer.patch.left.value],
                     InsertionBytes(outer, bundles, paste), orig[outer.patch.right.value..]);
    ApplyMergedToOne([outer, inner], outer, bundles, orig, paste, orig[..outer.patch.left.value],
                     InsertionBytes(outer, bundles, paste), orig[outer.patch.right.value..]);
  }

  /**
   * Of two patches that share characters, the one that starts first is
   * stretched over both and only its value is inserted, whichever of the
   * two is listed first.
   */
  lemma LeftmostPatchWins(first: PatchRef, second: PatchRef, bundles: seq<Bundle>, orig: Bytes, paste: Paste)
    requires WellFormed(first.patch) && WellFormed(second.patch)
    requires first.patch.left.value < second.patch.left.value < first.patch.right.value <= second.patch.right.value
    requires second.patch.right.value <= |orig| && RefOk(first, bundles, paste)
    ensures var out := ApplyToFile([first, second], bundles, orig, paste, map[]);
      out.Applied?
      && out.data == orig[..first.patch.left.value] + InsertionBytes(first, bundles, paste)
                     + orig[second.patch.right.value..]
    ensures var out := ApplyToFile([second, first], bundles, orig, paste, map[]);
      out.Applied?
      && out.data == orig[..first.patch.left.value] + InsertionBytes(first, bundles, paste)
                     + orig[second.patch.right.value..]
  {
    MergeLeftmost(first, second);
    var stretched := first.(patch := first.patch.(right := second.patch.right));
    InsertionOfOrigin(stretched, first, bundles, paste);
    ApplyMergedToOne([first, second], stretched, bundles, orig, paste, orig[..first.patch.left.value],
                     InsertionBytes(first, bundles, paste), orig[second.patch.right.value..]);
    ApplyMergedToOne([second, first], stretched, bundles, orig, paste, orig[..first.patch.left.value],
                     InsertionBytes(first, bundles, paste), orig[second.patch.right.value..]);
  }

  /** "Foo bar baz" */
  const FooBarBaz: Bytes := [70, 111, 111, 32, 98, 97, 114, 32, 98, 97, 122]

  /** "Foo  baz" */
  const FooSpaceSpaceBaz: Bytes := [70, 111, 111, 32, 32, 98, 97, 122]

  /** Cutting "bar" out of "Foo bar baz", and putting "some" in its place. */
  lemma FooBarBazCuts()
    ensures FooBarBaz[..4] + [] + FooBarBaz[7..] == FooSpaceSpaceBaz
    ensures FooBarBaz[..4] + [115, 111, 109, 101] + FooBarBaz[7..]
         == [70, 111, 111, 32, 115, 111, 109, 101, 32, 98, 97, 122]
  {
    assert FooBarBaz[..4] == [70, 111, 111, 32];
    assert FooBarBaz[7..] == [32, 98, 97, 122];
  }

  /** A bundle of untyped single-patch hints, in the order given, as `apply_hints` numbers them. */
  function TestBundle(ps: seq<Patch>, vocabulary: seq<Bytes>): Bundle
  {
    Bundle(seq(|ps|, k requires 0 <= k < |ps| => Hint(None, [ps[k]], None)), "p", "p", vocabulary)
  }

  /** A replacement of `[4, 13)` by "xyz" turns "Foo foobarbaz baz" into "Foo xyz baz" (test_apply_hints_replace_with_shorter). */
  lemma ReplaceWithShorter(paste: Paste)
    ensures var p := Patch(None, Some(4), Some(13), None, Some(0));
      var out := ApplyToFile([PatchRef(p, 0, 0)], [TestBundle([p], [[120, 121, 122]])],
                             [70, 111, 111, 32, 102, 111, 111, 98, 97, 114, 98, 97, 122, 32, 98, 97, 122], paste, map[]);
      out.Applied? && out.data == [70, 111, 111, 32, 120, 121, 122, 32, 98, 97, 122]
  {
    var p := Patch(None, Some(4), Some(13), None, Some(0));
    var a := PatchRef(p, 0, 0);
    var bs := [TestBundle([p], [[120, 121, 122]])];
    var orig: Bytes := [70, 111, 111, 32, 102, 111, 111, 98, 97, 114, 98, 97, 122, 32, 98, 97, 122];
    MergeOne(a);
    ApplyMergedToOne([a], a, bs, orig, paste, [70, 111, 111, 32], [120, 121, 122], [32, 98, 97, 122]);
  }

  /**
   * Replacing "a" in "bar" and deleting "bar" leaves "Foo  baz": the
   * deletion starts first and absorbs the replacement
   * (test_apply_hints_replacement_inside_deletion).
   */
  lemma ReplacementInsideDeletion(a: PatchRef, b: PatchRef, paste: Paste)
    requires a == PatchRef(Patch(None, Some(5), Some(6), None, Some(0)), 0, 0)
    requires b == PatchRef(Patch(None, Some(4), Some(7), None, None), 0, 1)
    ensures var out := ApplyToFile([a, b], [TestBundle([a.patch, b.patch], [[120]])], FooBarBaz, paste, map[]);
      out.Applied? && out.data == FooSpaceSpaceBaz
  {
    var bs := [TestBundle([a.patch, b.patch], [[120]])];
    NestedPatchDropped(a, b, bs, FooBarBaz, paste);
    PlainInsertion(b, bs, paste);
    FooBarBazCuts();
  }

  /**
   * Deleting "a" in "bar" and replacing "bar" by "some" gives
   * "Foo some baz": the replacement starts first and absorbs the deletion
   * (test_apply_hints_deletion_inside_replacement).
   */
  lemma DeletionInsideReplacement(a: PatchRef, b: PatchRef, paste: Paste)
    requires a == PatchRef(Patch(None, Some(5), Some(6), None, None), 0, 0)
    requires b == PatchRef(Patch(None, Some(4), Some(7), None, Some(0)), 0, 1)
    ensures var out := ApplyToFile([a, b], [TestBundle([a.patch, b.patch], [[115, 111, 109, 101]])],
                                   FooBarBaz, paste, map[]);
      out.Applied? && out.data == [70, 111, 111, 32, 115, 111, 109, 101, 32, 98, 97, 122]
  {
    var bs := [TestBundle([a.patch, b.patch], [[115, 111, 109, 101]])];
    NestedPatchDropped(a, b, bs, FooBarBaz, paste);
    PlainInsertion(b, bs, paste);
    FooBarBazCuts();
  }

  /**
   * Replacing "b" in "bar" and deleting "bar" leaves "Foo  baz": at the
   * same start the longer deletion comes first in merge-key order and wins
   * (test_apply_hints_replacement_of_deleted_prefix).
   */
  lemma DeletionOfPrefixWins(a: PatchRef, b: PatchRef, paste: Paste)
    requires a == PatchRef(Patch(None, Some(4), Some(5), None, Some(0)), 0, 0)
    requires b == PatchRef(Patch(None, Some(4), Some(7), None, None), 0, 1)
    ensures var out := ApplyToFile([a, b], [TestBundle([a.patch, b.patch], [[120]])], FooBarBaz, paste, map[]);
      out.Applied? && out.data == FooSpaceSpaceBaz
  {
    var bs := [TestBundle([a.patch, b.patch], [[120]])];
    NestedPatchDropped(a, b, bs, FooBarBaz, paste);
    PlainInsertion(b, bs, paste);
    FooBarBazCuts();
  }

  /**
   * Replacing "bc" by "foo" and "cd" by "x" in "abcd" gives "afoo": the
   * leftmost replacement wins and is stretched over both ranges
   * (test_apply_hints_overlapping_replacements).
   */
  lemma LeftmostReplacementWins(a: PatchRef, b: PatchRef, bs: seq<Bundle>, orig: Bytes, paste: Paste)
    requires a == PatchRef(Patch(None, Some(1), Some(3), None, Some(0)), 0, 0)
    requires b == PatchRef(Patch(None, Some(2), Some(4), None, Some(1)), 0, 1)
    requires |bs| == 1 && bs[0].vocabulary == [[102, 111, 111], [120]]
    requires orig == [97, 98, 99, 100]
    ensures var out := ApplyToFile([a, b], bs, orig, paste, map[]);
      out.Applied? && out.data == [97, 102, 111, 111]
  {
    PlainInsertion(a, bs, paste);
    LeftmostPatchWins(a, b, bs, orig, paste);
    AbcdCut(orig, bs[0].vocabulary[0]);
  }

  /** Replacing "bcd" of "abcd" by "foo" gives "afoo". */
  lemma AbcdCut(orig: Bytes, foo: Bytes)
    requires orig == [97, 98, 99, 100] && foo == [102, 111, 111]
    ensures orig[..1] + foo + orig[4..] == [97, 102, 111, 111]
  {
    assert orig[..1] == [97] && orig[4..] == [];
  }

  /** A 10-byte file, the ASCII digits. */
  function Digits(): (d: Bytes)
    ensures |d| == 10
  {
    [48, 49, 50, 51, 52, 53, 54, 55, 56, 57]
  }
}
