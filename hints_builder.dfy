/**
 * clang_delta's hint builder: a vocabulary interner, the patches of the hint
 * being built, and the committed hints, with their JSON serialisation.
 *
 * `State` and the functions over it specify each operation; the class
 * `Builder` is the mutable object of the C++ code, and each of its methods is
 * proved to move its fields exactly as the specifying function says.
 */
module HintsBuilder {
  import opened Common
  import opened HintJson

  /** The builder's fields: `Vocab`, `Hints` (each a list of patches) and `CurrentHint`. */
  datatype State = State(vocab: seq<string>, hints: seq<seq<JPatch>>, current: seq<JPatch>)

  /** A patch as the builder creates it: non-empty, and naming an existing vocabulary entry. */
  predicate PatchOk(p: JPatch, vocabSize: nat)
  {
    p.l < p.r && (p.v.Some? ==> p.v.value < vocabSize)
  }

  /** The builder's invariant. */
  ghost predicate Valid(st: State)
  {
    && NoDuplicates(st.vocab)
    && (forall i :: 0 <= i < |st.hints| ==> |st.hints[i]| > 0)
    && (forall i, j :: 0 <= i < |st.hints| && 0 <= j < |st.hints[i]| ==> PatchOk(st.hints[i][j], |st.vocab|))
    && (forall j :: 0 <= j < |st.current| ==> PatchOk(st.current[j], |st.vocab|))
  }

  /** Position of the first occurrence of `s`, as `std::find` yields it. */
  function IndexOf(vocab: seq<string>, s: string): (i: nat)
    requires s in vocab
    ensures i < |vocab| && vocab[i] == s && forall j :: 0 <= j < i ==> vocab[j] != s
  {
    if vocab[0] == s then 0 else 1 + IndexOf(vocab[1..], s)
  }

  /**
   * LookupOrCreateVocabId: the id of a known string is its index; an unknown
   * one is appended and gets the new last index. Ids never change.
   */
  function Intern(vocab: seq<string>, s: string): (r: (seq<string>, nat))
    ensures r.1 < |r.0| && r.0[r.1] == s
    ensures vocab <= r.0
    ensures s in vocab ==> r.0 == vocab
    ensures s !in vocab ==> r.0 == vocab + [s] && r.1 == |vocab|
    ensures NoDuplicates(vocab) ==> NoDuplicates(r.0)
  {
    if s in vocab then (vocab, IndexOf(vocab, s)) else (vocab + [s], |vocab|)
  }

  /** AddPatch(L, Len, Replacement) on the builder state; `offset` is the file offset of L. */
  function PatchAdded(st: State, offset: nat, len: int, replacement: string): State
  {
    if len <= 0 then st
    else if replacement == "" then
      State(st.vocab, st.hints, st.current + [JPatch(offset, offset + len, None)])
    else
      var (vocab', id) := Intern(st.vocab, replacement);
      State(vocab', st.hints, st.current + [JPatch(offset, offset + len, Some(id))])
  }

  /**
   * A patch of positive length is appended to the current hint, covering
   * the requested range and naming the replacement exactly when it is
   * non-empty; a non-positive length changes nothing. The invariant holds.
   */
  lemma PatchAddedSpec(st: State, offset: nat, len: int, replacement: string)
    ensures var r := PatchAdded(st, offset, len, replacement);
      && (len <= 0 ==> r == st)
      && (len > 0 ==>
            && r.hints == st.hints
            && st.vocab <= r.vocab
            && |r.current| == |st.current| + 1
            && r.current[..|st.current|] == st.current
            && var p := r.current[|st.current|];
               && p.l == offset && p.r == offset + len
               && (p.v.Some? <==> replacement != "")
               && (p.v.Some? ==> p.v.value < |r.vocab| && r.vocab[p.v.value] == replacement)
               && (replacement == "" ==> r.vocab == st.vocab))
      && (Valid(st) ==> Valid(r))
  {
    var r := PatchAdded(st, offset, len, replacement);
    if len > 0 && replacement != "" && Valid(st) {
      assert forall i, j :: 0 <= i < |r.hints| && 0 <= j < |r.hints[i]| ==> PatchOk(r.hints[i][j], |st.vocab|);
    }
  }

  /** FinishCurrentHint: commits the current hint unless it is empty, and starts a new one. */
  function HintFinished(st: State): (r: State)
    ensures |st.current| == 0 ==> r == st
    ensures |st.current| > 0 ==> r == State(st.vocab, st.hints + [st.current], [])
  {
    if |st.current| == 0 then st else State(st.vocab, st.hints + [st.current], [])
  }

  lemma HintFinishedValid(st: State)
    requires Valid(st)
    ensures Valid(HintFinished(st))
  {
  }

  function Reversed<T>(s: seq<T>): (r: seq<T>)
    ensures |r| == |s| && forall i :: 0 <= i < |s| ==> r[i] == s[|s| - 1 - i]
  {
    if |s| == 0 then [] else [s[|s| - 1]] + Reversed(s[..|s| - 1])
  }

  /** A relation that pairs `xs` with `ys` reversed pairs `xs` reversed with `ys`. */
  lemma ReversedPairs<A, B>(xs: seq<A>, ys: seq<B>, rel: (A, B) -> bool)
    requires |xs| == |ys| && forall j :: 0 <= j < |xs| ==> rel(xs[j], Reversed(ys)[j])
    ensures forall j :: 0 <= j < |xs| ==> rel(Reversed(xs)[j], ys[j])
  {
    forall j | 0 <= j < |xs|
      ensures rel(Reversed(xs)[j], ys[j])
    {
      var k := |xs| - 1 - j;
      assert rel(xs[k], Reversed(ys)[k]);
    }
  }

  /** ReverseOrder twice restores the original order of the hints. */
  lemma ReversedTwice<T>(s: seq<T>)
    ensures Reversed(Reversed(s)) == s
  {
    var r := Reversed(Reversed(s));
    assert forall i :: 0 <= i < |s| ==> r[i] == s[i];
  }

  lemma ReverseKeepsValid(st: State)
    requires Valid(st)
    ensures Valid(State(st.vocab, Reversed(st.hints), st.current))
  {
    var r := State(st.vocab, Reversed(st.hints), st.current);
    forall i, j | 0 <= i < |r.hints| && 0 <= j < |r.hints[i]|
      ensures PatchOk(r.hints[i][j], |r.vocab|)
    {
      assert r.hints[i] == st.hints[|st.hints| - 1 - i];
    }
  }

  /** One edit requested inside a hint scope: a start offset, a length and a replacement. */
  datatype Edit = Edit(offset: nat, len: int, replacement: string)

  function AddPatches(st: State, edits: seq<Edit>): State
  {
    if |edits| == 0 then st
    else
      var e := edits[|edits| - 1];
      PatchAdded(AddPatches(st, edits[..|edits| - 1]), e.offset, e.len, e.replacement)
  }

  /** The edits that survive `AddPatch`: those with a positive length. */
  function Positive(edits: seq<Edit>): (r: seq<Edit>)
    ensures |r| <= |edits|
  {
    if |edits| == 0 then []
    else
      var e := edits[|edits| - 1];
      Positive(edits[..|edits| - 1]) + (if e.len > 0 then [e] else [])
  }

  /** A hint scope: the edits it receives, then `FinishCurrentHint` when it closes. */
  function Scope(st: State, edits: seq<Edit>): State
  {
    HintFinished(AddPatches(st, edits))
  }

  /**
   * Adding patches keeps the hints and the order of the edits: patch k
   * covers the k-th positive-length edit, and its value names the edit's
   * replacement exactly when that replacement is non-empty.
   */
  lemma {:induction false} AddPatchesSpec(st: State, edits: seq<Edit>)
    ensures var r := AddPatches(st, edits);
      && r.hints == st.hints
      && st.vocab <= r.vocab
      && |r.current| == |st.current| + |Positive(edits)|
      && r.current[..|st.current|] == st.current
      && forall k :: 0 <= k < |Positive(edits)| ==>
           var p := r.current[|st.current| + k];
           var e := Positive(edits)[k];
           && p.l == e.offset && p.r == e.offset + e.len
           && (p.v.Some? <==> e.replacement != "")
           && (p.v.Some? ==> p.v.value < |r.vocab| && r.vocab[p.v.value] == e.replacement)
    ensures Valid(st) ==> Valid(AddPatches(st, edits))
  {
    if |edits| > 0 {
      var pre := edits[..|edits| - 1];
      var e := edits[|edits| - 1];
      var mid := AddPatches(st, pre);
      AddPatchesSpec(st, pre);
      var r := PatchAdded(mid, e.offset, e.len, e.replacement);
      PatchAddedSpec(mid, e.offset, e.len, e.replacement);
      assert r == AddPatches(st, edits);
      assert |mid.current| == |st.current| + |Positive(pre)|;
      if e.len > 0 {
        forall k | 0 <= k < |Positive(edits)|
          ensures var p := r.current[|st.current| + k];
                  var e' := Positive(edits)[k];
                  && p.l == e'.offset && p.r == e'.offset + e'.len
                  && (p.v.Some? <==> e'.replacement != "")
                  && (p.v.Some? ==> p.v.value < |r.vocab| && r.vocab[p.v.value] == e'.replacement)
        {
          if k < |Positive(pre)| {
            assert r.current[|st.current| + k] == mid.current[|st.current| + k];
            var p := mid.current[|st.current| + k];
            assert p.v.Some? ==> p.v.value < |mid.vocab| && mid.vocab[p.v.value] == r.vocab[p.v.value];
          }
        }
        assert r.current[..|st.current|] == mid.current[..|st.current|];
      }
    }
  }

  /**
   * Closing a scope that received no positive-length edit commits nothing;
   * otherwise it commits exactly one hint, one patch per such edit, and
   * leaves the current hint empty.
   */
  lemma ScopeSpec(st: State, edits: seq<Edit>)
    requires st.current == []
    ensures var r := Scope(st, edits);
      && r.current == []
      && st.vocab <= r.vocab
      && (|Positive(edits)| == 0 ==> r.hints == st.hints)
      && (|Positive(edits)| > 0 ==>
            && |r.hints| == |st.hints| + 1
            && r.hints[..|st.hints|] == st.hints
            && |r.hints[|st.hints|]| == |Positive(edits)|)
    ensures Valid(st) ==> Valid(Scope(st, edits))
  {
    AddPatchesSpec(st, edits);
    if Valid(st) {
      HintFinishedValid(AddPatches(st, edits));
    }
  }

  /** The JSON line of one committed hint. */
  function HintLine(h: seq<JPatch>): string
  {
    RenderHint(JHint(None, h))
  }

  /** Each line of GetHintJsons reads back as the committed hint, in order. */
  lemma HintLinesParse(st: State)
    ensures forall i :: 0 <= i < |st.hints| ==> ParseHint(HintLine(st.hints[i])) == Some(JHint(None, st.hints[i]))
  {
    forall i | 0 <= i < |st.hints|
      ensures ParseHint(HintLine(st.hints[i])) == Some(JHint(None, st.hints[i]))
    {
      ParseHintRender(JHint(None, st.hints[i]));
    }
  }

  class Builder {
    var vocab: seq<string>
    var hints: seq<seq<JPatch>>
    var current: seq<JPatch>

    function Abs(): State
      reads this
    {
      State(vocab, hints, current)
    }

    constructor()
      ensures Abs() == State([], [], []) && Valid(Abs())
    {
      vocab := [];
      hints := [];
      current := [];
    }

    /** Linear search of the vocabulary; appends the string when it is absent. */
    method LookupOrCreateVocabId(s: string) returns (id: nat)
      modifies this
      ensures (vocab, id) == Intern(old(vocab), s)
      ensures hints == old(hints) && current == old(current)
    {
      var i := 0;
      while i < |vocab| && vocab[i] != s
        invariant 0 <= i <= |vocab|
        invariant forall j :: 0 <= j < i ==> vocab[j] != s
      {
        i := i + 1;
      }
      if i < |vocab| {
        id := i;
      } else {
        vocab := vocab + [s];
        id := |vocab| - 1;
      }
    }

    method AddPatch(offset: nat, len: int, replacement: string)
      modifies this
      ensures Abs() == PatchAdded(old(Abs()), offset, len, replacement)
    {
      if len <= 0 {
        return;
      }
      var v: Option<nat> := None;
      if replacement != "" {
        var id := LookupOrCreateVocabId(replacement);
        v := Some(id);
      }
      current := current + [JPatch(offset, offset + len, v)];
    }

    method FinishCurrentHint()
      modifies this
      ensures Abs() == HintFinished(old(Abs()))
    {
      if |current| == 0 {
        return;
      }
      hints := hints + [current];
      current := [];
    }

    method ReverseOrder()
      modifies this
      ensures Abs() == State(old(vocab), Reversed(old(hints)), old(current))
    {
      hints := Reversed(hints);
    }

    /** A hint scope: the patches added while it is open, then FinishCurrentHint. */
    method AddScopedHint(edits: seq<Edit>)
      modifies this
      ensures Abs() == Scope(old(Abs()), edits)
    {
      var i := 0;
      while i < |edits|
        invariant 0 <= i <= |edits|
        invariant Abs() == AddPatches(old(Abs()), edits[..i])
      {
        assert edits[..i + 1][..i] == edits[..i];
        AddPatch(edits[i].offset, edits[i].len, edits[i].replacement);
        i := i + 1;
      }
      assert edits[..i] == edits;
      FinishCurrentHint();
    }

    method GetVocabularyJson() returns (json: string)
      ensures json == RenderVocab(vocab)
    {
      var text := "";
      var i := 0;
      while i < |vocab|
        invariant 0 <= i <= |vocab|
        invariant text == JoinComma(QuoteAll(vocab[..i]))
        invariant i == 0 <==> text == ""
      {
        assert vocab[..i + 1] == vocab[..i] + [vocab[i]];
        QuoteAllSnoc(vocab[..i], vocab[i]);
        JoinCommaSnoc(QuoteAll(vocab[..i]), Quote(vocab[i]));
        if text != "" {
          text := text + ",";
        }
        text := text + Quote(vocab[i]);
        i := i + 1;
      }
      assert vocab[..i] == vocab;
      json := "[" + text + "]";
    }

    method GetHintJsons() returns (jsons: seq<string>)
      ensures |jsons| == |hints| && forall i :: 0 <= i < |hints| ==> jsons[i] == HintLine(hints[i])
    {
      jsons := [];
      var h := 0;
      while h < |hints|
        invariant 0 <= h <= |hints|
        invariant |jsons| == h && forall i :: 0 <= i < h ==> jsons[i] == HintLine(hints[i])
      {
        var line := HintJsonOf(hints[h]);
        jsons := jsons + [line];
        h := h + 1;
      }
    }
  }

  /** The members of a rendered patch, without the braces. */
  function PatchFields(p: JPatch): string
  {
    "\"l\":" + Decimal(p.l) + ",\"r\":" + Decimal(p.r) + RenderValue(p.v)
  }

  lemma RenderPatchFields(p: JPatch)
    ensures RenderPatch(p) == "{" + PatchFields(p) + "}"
  {
    assert "{\"l\":" == "{" + "\"l\":";
  }

  /** One patch object as GetHintJsons writes it: `formatv` of the fields, then the braces. */
  method PatchJson(p: JPatch) returns (text: string)
    ensures text == RenderPatch(p)
  {
    var fields := "\"l\":" + Decimal(p.l) + ",\"r\":" + Decimal(p.r);
    if p.v.Some? {
      fields := fields + ",\"v\":" + Decimal(p.v.value);
    }
    assert fields == PatchFields(p);
    RenderPatchFields(p);
    text := "{" + fields + "}";
  }

  /** The body of GetHintJsons' outer loop: one hint's patches joined by commas. */
  method HintJsonOf(patches: seq<JPatch>) returns (line: string)
    ensures line == HintLine(patches)
  {
    var text := "";
    var k := 0;
    while k < |patches|
      invariant 0 <= k <= |patches|
      invariant text == JoinComma(RenderPatches(patches[..k]))
      invariant k == 0 <==> text == ""
    {
      var item := PatchJson(patches[k]);
      ghost var done := RenderPatches(patches[..k]);
      assert patches[..k + 1] == patches[..k] + [patches[k]];
      RenderPatchesSnoc(patches[..k], patches[k]);
      assert item[0] == '{';
      JoinCommaSnoc(done, item);
      if text != "" {
        text := text + ",";
      }
      text := text + item;
      k := k + 1;
    }
    assert patches[..k] == patches;
    RenderUntypedHint(patches);
    line := "{\"p\":[" + (text + "]}");
  }
}
