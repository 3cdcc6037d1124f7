/**
 * treesitter_delta's function-definition-to-declaration hint generator.
 * Each query match becomes an instance (a byte range to delete or to replace
 * by ";"); a later instance evicts the overlapping instances before it, and
 * the survivors are printed as hint lines.
 */
module TsReplaceFunctionDef {
  import opened Common
  import opened HintJson

  datatype Instance = Instance(startByte: nat, endByte: nat, isTemplate: bool, writeSemicolon: bool)

  /**
   * The captures of one query match, reduced to what the generator reads:
   * whether the `constexpr` qualifier, the qualified name and the initializer
   * list were captured, the node offsets, and the start of the outermost
   * enclosing template declaration, if any.
   */
  datatype Match = Match(
    isConstexpr: bool,
    hasQualifiedName: bool,
    initListStart: Option<nat>,
    bodyStart: nat,
    bodyEnd: nat,
    funcDefStart: nat,
    templateStart: Option<nat>)

  /** The hint vocabulary; hint types 1 and 2 and value 0 index into it. */
  const Vocabulary: seq<string> := [";", "regular", "template-function"]

  /**
   * Two ranges overlap when the later start lies before the earlier end,
   * that is, when both are non-empty and each starts before the other ends.
   */
  function Overlaps(a: Instance, b: Instance): (r: bool)
    ensures r <==> && a.startByte < a.endByte && b.startByte < b.endByte
                   && a.startByte < b.endByte && b.startByte < a.endByte
  {
    Max(a.startByte, b.startByte) < Min(a.endByte, b.endByte)
  }

  function Max(x: nat, y: nat): nat { if x < y then y else x }

  function Min(x: nat, y: nat): nat { if x < y then x else y }

  lemma OverlapsSymmetric(a: Instance, b: Instance)
    ensures Overlaps(a, b) <==> Overlaps(b, a)
  {
  }

  /** Ranges that merely touch, or are disjoint, do not overlap. */
  lemma TouchingDoNotOverlap(a: Instance, b: Instance)
    requires a.endByte <= b.startByte
    ensures !Overlaps(a, b) && !Overlaps(b, a)
  {
  }

  /**
   * The instance a match yields: none for a constexpr function; the whole
   * definition (from its template, if any) without a semicolon for an
   * out-of-line member; the initializer list and body for a constructor;
   * the body otherwise, to be replaced by ";".
   */
  function MakeInstance(m: Match): (r: Option<Instance>)
    ensures r.None? <==> m.isConstexpr
    ensures r.Some? ==>
      && r.value.endByte == m.bodyEnd
      && r.value.isTemplate == m.templateStart.Some?
      && r.value.writeSemicolon == !m.hasQualifiedName
      && r.value.startByte == (
           if m.hasQualifiedName then (if m.templateStart.Some? then m.templateStart.value else m.funcDefStart)
           else if m.initListStart.Some? then m.initListStart.value
           else m.bodyStart)
  {
    if m.isConstexpr then None
    else
      var inst := Instance(m.bodyStart, m.bodyEnd, m.templateStart.Some?, true);
      if m.hasQualifiedName then
        Some(inst.(startByte := if inst.isTemplate then m.templateStart.value else m.funcDefStart,
                   writeSemicolon := false))
      else if m.initListStart.Some? then
        Some(inst.(startByte := m.initListStart.value))
      else
        Some(inst)
  }

  /** The assertion `Inst.StartByte < Inst.EndByte` holds for the match. */
  predicate NonEmpty(m: Match)
  {
    MakeInstance(m).None? || MakeInstance(m).value.startByte < MakeInstance(m).value.endByte
  }

  /** The instances of the matches, in match order. */
  function Instances(ms: seq<Match>): (r: seq<Instance>)
    ensures (forall i :: 0 <= i < |ms| ==> NonEmpty(ms[i])) ==>
              forall j :: 0 <= j < |r| ==> r[j].startByte < r[j].endByte
  {
    if |ms| == 0 then []
    else
      var last := MakeInstance(ms[|ms| - 1]);
      Instances(ms[..|ms| - 1]) + (if last.Some? then [last.value] else [])
  }

  /** Pops every trailing entry that overlaps `inst`. */
  function DropOverlapping(kept: seq<Instance>, inst: Instance): (r: seq<Instance>)
    ensures r <= kept
    ensures |r| > 0 ==> !Overlaps(r[|r| - 1], inst)
  {
    if |kept| > 0 && Overlaps(kept[|kept| - 1], inst) then DropOverlapping(kept[..|kept| - 1], inst)
    else kept
  }

  /** The list after processing each instance in turn: the newest always survives. */
  function Resolve(insts: seq<Instance>): seq<Instance>
  {
    if |insts| == 0 then []
    else
      var last := insts[|insts| - 1];
      DropOverlapping(Resolve(insts[..|insts| - 1]), last) + [last]
  }

  /**
   * The resolved list keeps only given instances, ends with the newest one,
   * and no two neighbours in it overlap.
   */
  lemma {:induction false} ResolveSpec(insts: seq<Instance>)
    ensures var r := Resolve(insts);
      && |r| <= |insts|
      && (forall x :: x in r ==> x in insts)
      && (|insts| > 0 ==> |r| > 0 && r[|r| - 1] == insts[|insts| - 1])
      && forall i :: 0 <= i < |r| - 1 ==> !Overlaps(r[i], r[i + 1])
  {
    if |insts| > 0 {
      var pre := insts[..|insts| - 1];
      var last := insts[|insts| - 1];
      ResolveSpec(pre);
      var kept := DropOverlapping(Resolve(pre), last);
      var r := kept + [last];
      assert r == Resolve(insts);
      forall x | x in r
        ensures x in insts
      {
        if x != last {
          assert x in Resolve(pre);
          assert x in pre;
        }
      }
      forall i | 0 <= i < |r| - 1
        ensures !Overlaps(r[i], r[i + 1])
      {
        if i + 1 < |kept| {
          assert r[i] == Resolve(pre)[i] && r[i + 1] == Resolve(pre)[i + 1];
        }
      }
    }
  }

  /** A body inside a class body is evicted by the later, more detailed match. */
  lemma ResolveExample()
    ensures Resolve([Instance(0, 10, false, true), Instance(2, 8, false, true), Instance(20, 30, true, false)])
         == [Instance(2, 8, false, true), Instance(20, 30, true, false)]
  {
    var a := Instance(0, 10, false, true);
    var b := Instance(2, 8, false, true);
    var c := Instance(20, 30, true, false);
    assert [a, b, c][..2] == [a, b];
    assert [a, b][..1] == [a];
    assert [a][..0] == [];
    assert Resolve([a]) == [a];
    assert DropOverlapping([a], b) == [];
    assert Resolve([a, b]) == [b];
    assert DropOverlapping([b], c) == [b];
  }

  /** The JSON form of an instance: type 2 for templates, 1 otherwise; value 0 (";") iff a semicolon is written. */
  function AsHint(inst: Instance): JHint
  {
    JHint(Some(if inst.isTemplate then 2 else 1),
          [JPatch(inst.startByte, inst.endByte, if inst.writeSemicolon then Some(0) else None)])
  }

  /** printAsHint. */
  function PrintAsHint(inst: Instance): string
  {
    RenderHint(AsHint(inst)) + "\n"
  }

  /**
   * A printed hint reads back with the instance's range, a type naming
   * "template-function" or "regular", and the value ";" exactly when a
   * semicolon replaces the range.
   */
  lemma PrintAsHintMeaning(inst: Instance)
    ensures var line := PrintAsHint(inst);
      && line[|line| - 1] == '\n'
      && ParseHint(line[..|line| - 1]) == Some(AsHint(inst))
      && AsHint(inst).t.value < |Vocabulary|
      && (Vocabulary[AsHint(inst).t.value] == "template-function" <==> inst.isTemplate)
      && var p := AsHint(inst).patches[0];
         && p.l == inst.startByte && p.r == inst.endByte
         && (p.v.Some? <==> inst.writeSemicolon)
         && (p.v.Some? ==> Vocabulary[p.v.value] == ";")
  {
    var line := PrintAsHint(inst);
    assert line[..|line| - 1] == RenderHint(AsHint(inst));
    ParseHintRender(AsHint(inst));
  }

  /** The vocabulary line printed when the generator starts: `[";","regular","template-function"]`. */
  function VocabularyLine(): string
  {
    RenderVocab(Vocabulary) + "\n"
  }

  lemma VocabularyLineParses()
    ensures ParseVocab(VocabularyLine()[..|VocabularyLine()| - 1]) == Some(Vocabulary)
  {
    assert VocabularyLine()[..|VocabularyLine()| - 1] == RenderVocab(Vocabulary);
    ParseVocabRender(Vocabulary);
  }

  function PrintAll(insts: seq<Instance>): (lines: seq<string>)
    ensures |lines| == |insts| && forall i :: 0 <= i < |insts| ==> lines[i] == PrintAsHint(insts[i])
  {
    if |insts| == 0 then [] else PrintAll(insts[..|insts| - 1]) + [PrintAsHint(insts[|insts| - 1])]
  }

  /** The instance `processFile` builds for a match that is not constexpr. */
  method BuildInstance(m: Match) returns (inst: Instance)
    requires !m.isConstexpr
    ensures MakeInstance(m) == Some(inst)
  {
    inst := Instance(m.bodyStart, m.bodyEnd, m.templateStart.Some?, true);
    if m.hasQualifiedName {
      inst := inst.(startByte := if inst.isTemplate then m.templateStart.value else m.funcDefStart,
                    writeSemicolon := false);
    } else if m.initListStart.Some? {
      inst := inst.(startByte := m.initListStart.value);
    }
  }

  /** The loop that pops the trailing instances overlapping `inst`. */
  method PopOverlapping(allInst0: seq<Instance>, inst: Instance) returns (allInst: seq<Instance>)
    ensures allInst == DropOverlapping(allInst0, inst)
  {
    allInst := allInst0;
    while |allInst| > 0 && Overlaps(allInst[|allInst| - 1], inst)
      invariant DropOverlapping(allInst, inst) == DropOverlapping(allInst0, inst)
    {
      allInst := allInst[..|allInst| - 1];
    }
  }

  /** One more match adds its instance, if any, at the end. */
  lemma InstancesSnoc(matches: seq<Match>, i: nat)
    requires i < |matches|
    ensures MakeInstance(matches[i]).None? ==> Instances(matches[..i + 1]) == Instances(matches[..i])
    ensures MakeInstance(matches[i]).Some? ==>
      Instances(matches[..i + 1]) == Instances(matches[..i]) + [MakeInstance(matches[i]).value]
  {
    assert matches[..i + 1][..i] == matches[..i];
    assert Instances(matches[..i]) + [] == Instances(matches[..i]);
  }

  /** One more instance evicts the overlapping tail and is appended. */
  lemma ResolveSnoc(insts: seq<Instance>, inst: Instance)
    ensures Resolve(insts + [inst]) == DropOverlapping(Resolve(insts), inst) + [inst]
  {
    assert (insts + [inst])[..|insts|] == insts;
  }

  /** processFile: the hint lines printed for the matches of one file. */
  method ProcessFile(matches: seq<Match>) returns (lines: seq<string>)
    requires forall i :: 0 <= i < |matches| ==> NonEmpty(matches[i])
    ensures lines == PrintAll(Resolve(Instances(matches)))
  {
    var allInst: seq<Instance> := [];
    for i := 0 to |matches|
      invariant allInst == Resolve(Instances(matches[..i]))
    {
      InstancesSnoc(matches, i);
      var m := matches[i];
      if m.isConstexpr {
        continue;
      }
      var inst := BuildInstance(m);
      ResolveSnoc(Instances(matches[..i]), inst);
      allInst := PopOverlapping(allInst, inst);
      allInst := allInst + [inst];
    }
    assert matches[..|matches|] == matches;
    lines := PrintInstances(allInst);
  }

  /** The loop printing each surviving instance as a hint line. */
  method PrintInstances(allInst: seq<Instance>) returns (lines: seq<string>)
    ensures lines == PrintAll(allInst)
  {
    lines := [];
    for i := 0 to |allInst|
      invariant lines == PrintAll(allInst[..i])
    {
      assert allInst[..i + 1][..i] == allInst[..i];
      lines := lines + [PrintAsHint(allInst[i])];
    }
    assert allInst[..|allInst|] == allInst;
  }
}
