/**
 * treesitter_delta's function-removal hint generator: the instances of each
 * function name are grouped, names are ordered by their instance vectors,
 * and each name becomes one hint deleting all its instances.
 */
module TsRemoveFunction {
  import opened Common
  import opened Ordering
  import opened HintJson

  datatype Instance = Instance(startByte: nat, endByte: nat)

  /**
   * One query match: the captured name text, whether it was the destructor
   * capture, the function's range and the range of its enclosing template
   * declaration, if any.
   */
  datatype Match = Match(nameText: string, isDestructor: bool, func: Instance, template: Option<Instance>)

  /** Instances compare as the pair (StartByte, EndByte). */
  function InstanceKey(i: Instance): Key
  {
    Tup([Int(i.startByte), Int(i.endByte)])
  }

  /** `operator<` on Instance: lexicographic on (StartByte, EndByte). */
  lemma InstanceOrder(a: Instance, b: Instance)
    ensures Less(InstanceKey(a), InstanceKey(b)) <==>
              a.startByte < b.startByte || (a.startByte == b.startByte && a.endByte < b.endByte)
  {
    var xs := [Int(a.startByte), Int(a.endByte)];
    var ys := [Int(b.startByte), Int(b.endByte)];
    assert xs[1..] == [Int(a.endByte)] && ys[1..] == [Int(b.endByte)];
    assert xs[1..][1..] == [] && ys[1..][1..] == [];
    assert !LexLess(xs[1..][1..], ys[1..][1..]);
    assert LexLess(xs[1..], ys[1..]) <==> a.endByte < b.endByte;
    assert LexLess(xs, ys) <==> Less(xs[0], ys[0]) || (xs[0] == ys[0] && LexLess(xs[1..], ys[1..]));
  }

  function InstanceKeys(v: seq<Instance>): (r: seq<Key>)
    ensures |r| == |v| && forall i :: 0 <= i < |v| ==> r[i] == InstanceKey(v[i])
  {
    if |v| == 0 then [] else [InstanceKey(v[0])] + InstanceKeys(v[1..])
  }

  /** `std::vector<Instance>` comparison: lexicographic over the instances. */
  function VectorKey(v: seq<Instance>): Key
  {
    Tup(InstanceKeys(v))
  }

  /** `std::string` comparison: lexicographic over the characters. */
  function StringKey(s: string): Key
  {
    Tup(CharKeys(s))
  }

  function CharKeys(s: string): (r: seq<Key>)
    ensures |r| == |s| && forall i :: 0 <= i < |s| ==> r[i] == Int(s[i] as int)
  {
    if |s| == 0 then [] else [Int(s[0] as int)] + CharKeys(s[1..])
  }

  /** The group name of a match: a destructor's name gets a "~" prefix. */
  function MatchName(m: Match): (name: string)
    ensures m.isDestructor <==> name == "~" + m.nameText
  {
    if m.isDestructor then "~" + m.nameText else m.nameText
  }

  /** Removal starts from the "template <" node when there is one. */
  function MatchInstance(m: Match): Instance
  {
    if m.template.Some? then m.template.value else m.func
  }

  /** A destructor and a function with the same identifier land in different groups. */
  lemma DestructorGroupsApart(d: Match, f: Match)
    requires d.isDestructor && !f.isDestructor && d.nameText == f.nameText
    requires |f.nameText| == 0 || f.nameText[0] != '~'
    ensures MatchName(d) != MatchName(f)
  {
    assert MatchName(d)[0] == '~';
  }

  /** The instances of the matches named `name`, in match order. */
  function InstancesNamed(ms: seq<Match>, name: string): seq<Instance>
  {
    if |ms| == 0 then []
    else
      var m := ms[|ms| - 1];
      InstancesNamed(ms[..|ms| - 1], name) + (if MatchName(m) == name then [MatchInstance(m)] else [])
  }

  /** The name of every match, duplicates included. */
  function MatchNames(ms: seq<Match>): (r: seq<string>)
    ensures |r| == |ms| && forall i :: 0 <= i < |ms| ==> r[i] == MatchName(ms[i])
  {
    if |ms| == 0 then [] else MatchNames(ms[..|ms| - 1]) + [MatchName(ms[|ms| - 1])]
  }

  /** Distinct names in order of first occurrence. */
  function NamesOf(ms: seq<Match>): (r: seq<string>)
    ensures NoDuplicates(r)
    ensures forall n :: n in r <==> n in MatchNames(ms)
  {
    if |ms| == 0 then []
    else
      var pre := NamesOf(ms[..|ms| - 1]);
      var n := MatchName(ms[|ms| - 1]);
      assert MatchNames(ms) == MatchNames(ms[..|ms| - 1]) + [n];
      if n in pre then pre else pre + [n]
  }

  lemma {:induction false} InstancesOfUnseenName(ms: seq<Match>, n: string)
    requires n !in NamesOf(ms)
    ensures InstancesNamed(ms, n) == []
  {
    if |ms| > 0 {
      assert MatchNames(ms) == MatchNames(ms[..|ms| - 1]) + [MatchName(ms[|ms| - 1])];
      InstancesOfUnseenName(ms[..|ms| - 1], n);
    }
  }

  /** `InstancesByName`: each name seen maps to its instances. */
  function Group(ms: seq<Match>): (g: map<string, seq<Instance>>)
    ensures forall n :: n in g <==> n in NamesOf(ms)
    ensures forall n :: n in g ==> g[n] == InstancesNamed(ms, n)
  {
    if |ms| == 0 then map[]
    else
      var m := ms[|ms| - 1];
      var pre := Group(ms[..|ms| - 1]);
      var n := MatchName(m);
      var g := pre[n := (if n in pre then pre[n] else []) + [MatchInstance(m)]];
      assert forall x :: x in g ==> g[x] == InstancesNamed(ms, x) by {
        forall x | x in g
          ensures g[x] == InstancesNamed(ms, x)
        {
          if x == n && n !in pre {
            InstancesOfUnseenName(ms[..|ms| - 1], n);
          }
        }
      }
      g
  }

  /**
   * The emitted name order: the map's names in string order, then sorted by
   * their instance vectors.
   */
  function NameOrder(ms: seq<Match>): seq<string>
  {
    var byString := SortBy(NamesOf(ms), StringKey);
    SortBy(byString, (n: string) => VectorKey(InstancesNamed(ms, n)))
  }

  /** The hint for a group: one pure deletion per instance, in instance order. */
  function GroupHint(v: seq<Instance>): (h: JHint)
    ensures h.t.None? && |h.patches| == |v|
    ensures forall i :: 0 <= i < |v| ==> h.patches[i] == JPatch(v[i].startByte, v[i].endByte, None)
  {
    JHint(None, Deletions(v))
  }

  function Deletions(v: seq<Instance>): (r: seq<JPatch>)
    ensures |r| == |v| && forall i :: 0 <= i < |v| ==> r[i] == JPatch(v[i].startByte, v[i].endByte, None)
  {
    if |v| == 0 then [] else [JPatch(v[0].startByte, v[0].endByte, None)] + Deletions(v[1..])
  }

  lemma DeletionsSnoc(v: seq<Instance>, i: nat)
    requires i < |v|
    ensures Deletions(v[..i + 1]) == Deletions(v[..i]) + [JPatch(v[i].startByte, v[i].endByte, None)]
  {
    assert |Deletions(v[..i + 1])| == i + 1;
  }

  /** The line printed for the group of `name`. */
  function GroupLine(ms: seq<Match>, name: string): string
  {
    RenderHint(GroupHint(InstancesNamed(ms, name))) + "\n"
  }

  /** `f` applied to each element, in order. */
  function MapSeq<T, U>(f: T -> U, s: seq<T>): (r: seq<U>)
    ensures |r| == |s| && forall i :: 0 <= i < |s| ==> r[i] == f(s[i])
  {
    if |s| == 0 then [] else MapSeq(f, s[..|s| - 1]) + [f(s[|s| - 1])]
  }

  /** The line of each name, in order. */
  function GroupLines(ms: seq<Match>, names: seq<string>): seq<string>
  {
    MapSeq((n: string) => GroupLine(ms, n), names)
  }

  /** The lines processFile prints. */
  function Output(ms: seq<Match>): seq<string>
  {
    GroupLines(ms, NameOrder(ms))
  }

  /** The emitted names are exactly the distinct names, each once. */
  lemma NameOrderSpec(ms: seq<Match>)
    ensures var names := NameOrder(ms);
      && multiset(names) == multiset(NamesOf(ms))
      && NoDuplicates(names)
      && (forall n :: n in names <==> n in MatchNames(ms))
      && SortedBy(names, (n: string) => VectorKey(InstancesNamed(ms, n)))
  {
    var names := NameOrder(ms);
    forall n
      ensures n in names <==> n in NamesOf(ms)
    {
      assert n in names <==> n in multiset(names);
      assert n in NamesOf(ms) <==> n in multiset(NamesOf(ms));
    }
    PermutationDistinct(NamesOf(ms), names);
    SortBySortsBy(SortBy(NamesOf(ms), StringKey), (n: string) => VectorKey(InstancesNamed(ms, n)));
  }

  /**
   * Each distinct name yields exactly one line; the line reads back as a
   * hint with one deletion per instance of that name; and the lines follow
   * the order of the names' instance vectors.
   */
  lemma OutputSpec(ms: seq<Match>)
    ensures var names := NameOrder(ms);
      && |Output(ms)| == |names|
      && (forall k :: 0 <= k < |names| ==>
            var line := Output(ms)[k];
            |line| > 0 && ParseHint(line[..|line| - 1]) == Some(GroupHint(InstancesNamed(ms, names[k]))))
      && forall j, k :: 0 <= j < k < |names| ==>
           !Less(VectorKey(InstancesNamed(ms, names[k])), VectorKey(InstancesNamed(ms, names[j])))
  {
    var names := NameOrder(ms);
    NameOrderSpec(ms);
    forall k | 0 <= k < |names|
      ensures var line := Output(ms)[k];
              |line| > 0 && ParseHint(line[..|line| - 1]) == Some(GroupHint(InstancesNamed(ms, names[k])))
    {
      var h := GroupHint(InstancesNamed(ms, names[k]));
      var line := Output(ms)[k];
      assert line == RenderHint(h) + "\n";
      assert line[..|line| - 1] == RenderHint(h);
      ParseHintRender(h);
    }
  }

  /** The vocabulary line: the empty JSON array, so no patch can carry a value. */
  lemma EmptyVocabulary()
    ensures RenderVocab([]) == "[]"
  {
  }

  /** The line printed for one name: `{"p":[` then the instances, comma-separated, then `]}`. */
  method PrintGroup(instances: seq<Instance>) returns (line: string)
    ensures line == RenderHint(GroupHint(instances)) + "\n"
  {
    var text := "";
    for i := 0 to |instances|
      invariant text == JoinComma(RenderPatches(Deletions(instances[..i])))
    {
      var start := instances[i].startByte;
      var end := instances[i].endByte;
      ghost var p := JPatch(start, end, None);
      ghost var done := RenderPatches(Deletions(instances[..i]));
      DeletionsSnoc(instances, i);
      RenderPatchesSnoc(Deletions(instances[..i]), p);
      JoinCommaSnoc(done, RenderPatch(p));
      RenderDeletion(start, end);
      var item := "{\"l\":" + Decimal(start) + ",\"r\":" + Decimal(end) + "}";
      assert item == RenderPatch(p);
      if i > 0 {
        text := text + ",";
      }
      text := text + item;
    }
    assert instances[..|instances|] == instances;
    RenderUntypedHint(Deletions(instances));
    line := "{\"p\":[" + (text + "]}") + "\n";
  }

  /** The grouping loop of processFile: `InstancesByName[Name].push_back(...)`. */
  method GroupByName(matches: seq<Match>) returns (instancesByName: map<string, seq<Instance>>, seen: seq<string>)
    ensures instancesByName == Group(matches) && seen == NamesOf(matches)
  {
    instancesByName := map[];
    seen := [];
    for i := 0 to |matches|
      invariant instancesByName == Group(matches[..i])
      invariant seen == NamesOf(matches[..i])
    {
      var m := matches[i];
      var name := if m.isDestructor then "~" + m.nameText else m.nameText;
      var toRemove := if m.template.Some? then m.template.value else m.func;
      GroupStep(matches, i);
      var existing := if name in instancesByName then instancesByName[name] else [];
      instancesByName := instancesByName[name := existing + [toRemove]];
      if name !in seen {
        seen := seen + [name];
      }
    }
    assert matches[..|matches|] == matches;
  }

  lemma GroupStep(ms: seq<Match>, i: nat)
    requires i < |ms|
    ensures var g := Group(ms[..i]);
            var n := MatchName(ms[i]);
            && Group(ms[..i + 1]) == g[n := (if n in g then g[n] else []) + [MatchInstance(ms[i])]]
            && NamesOf(ms[..i + 1]) == NamesOf(ms[..i]) + (if n in NamesOf(ms[..i]) then [] else [n])
  {
    assert ms[..i + 1][..i] == ms[..i];
  }

  /**
   * The names of the map, in the map's (string) order, then `std::sort`ed by
   * their instance vectors.
   */
  method OrderNames(ghost matches: seq<Match>, instancesByName: map<string, seq<Instance>>, seen: seq<string>)
    returns (names: seq<string>)
    requires instancesByName == Group(matches) && seen == NamesOf(matches)
    ensures names == NameOrder(matches)
    ensures multiset(names) == multiset(NamesOf(matches))
  {
    var byString := SortBy(seen, StringKey);
    NamesInGroup(matches, byString, instancesByName);
    ghost var vectorOrder := (n: string) => VectorKey(InstancesNamed(matches, n));
    var byVector := (n: string) => VectorKey(if n in instancesByName then instancesByName[n] else []);
    assert forall n :: n in byString ==> byVector(n) == vectorOrder(n);
    SortByAgrees(byString, byVector, vectorOrder);
    names := SortBy(byString, byVector);
  }

  /** The printing loop of processFile: one line per name, in the given order. */
  method PrintGroups(ghost matches: seq<Match>, instancesByName: map<string, seq<Instance>>, names: seq<string>)
    returns (lines: seq<string>)
    requires forall n :: n in names ==> n in instancesByName && instancesByName[n] == InstancesNamed(matches, n)
    ensures lines == GroupLines(matches, names)
  {
    lines := [];
    for k := 0 to |names|
      invariant lines == GroupLines(matches, names[..k])
    {
      var line := PrintGroup(instancesByName[names[k]]);
      assert names[..k + 1][..k] == names[..k];
      lines := lines + [line];
    }
    assert names[..|names|] == names;
  }

  /** processFile: groups the instances by name, orders the names and prints one hint each. */
  method ProcessFile(matches: seq<Match>) returns (lines: seq<string>)
    ensures lines == Output(matches)
  {
    var instancesByName, seen := GroupByName(matches);
    var names := OrderNames(matches, instancesByName, seen);
    NamesInGroup(matches, names, instancesByName);
    lines := PrintGroups(matches, instancesByName, names);
  }

  lemma NamesInGroup(ms: seq<Match>, sorted: seq<string>, g: map<string, seq<Instance>>)
    requires g == Group(ms) && multiset(sorted) == multiset(NamesOf(ms))
    ensures forall n :: n in sorted ==> n in g && g[n] == InstancesNamed(ms, n)
  {
    forall n | n in sorted
      ensures n in g && g[n] == InstancesNamed(ms, n)
    {
      assert n in multiset(sorted);
      assert n in NamesOf(ms);
    }
  }

  /** Sorting by two key functions that agree on every element gives the same result. */
  lemma {:induction false} SortByAgrees<T>(s: seq<T>, k1: T -> Key, k2: T -> Key)
    requires forall x :: x in s ==> k1(x) == k2(x)
    ensures SortBy(s, k1) == SortBy(s, k2)
  {
    if |s| > 0 {
      var pre := s[..|s| - 1];
      assert forall x :: x in pre ==> x in s;
      SortByAgrees(pre, k1, k2);
      assert forall y :: y in SortBy(pre, k1) ==> y in pre by {
        assert forall y :: y in SortBy(pre, k1) ==> y in multiset(pre);
      }
      InsertAgrees(SortBy(pre, k1), s[|s| - 1], k1, k2);
    }
  }

  lemma {:induction false} InsertAgrees<T>(s: seq<T>, x: T, k1: T -> Key, k2: T -> Key)
    requires forall y :: y in s ==> k1(y) == k2(y)
    requires k1(x) == k2(x)
    ensures Insert(s, x, k1) == Insert(s, x, k2)
  {
    if |s| > 0 {
      assert forall y :: y in s[1..] ==> y in s;
      InsertAgrees(s[1..], x, k1, k2);
    }
  }
}
