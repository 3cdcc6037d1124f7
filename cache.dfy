/**
 * The results cache of `cvise/utils/cache.py`: for each group of passes,
 * up to `MAX_ITEMS_PER_PASS_GROUP` test cases that a pass group turned a
 * test case with a given hash into, each copied into a temporary
 * directory of its own.
 *
 * A group is a Python dict, whose iteration order is insertion order: it
 * is a sequence of (hash, item) pairs. The temporary directory manager
 * hands out fresh directory numbers; `dirs` is the set of directories the
 * cache has created and not yet deleted, each with the entry it belongs to.
 */
module PassCache {
  import opened Common

  /** `Cache.MAX_ITEMS_PER_PASS_GROUP`. */
  const MAX_ITEMS_PER_PASS_GROUP: nat := 3

  /** A group key: the `repr` of each pass of the list. */
  type PassList = seq<string>

  /** The hash of a test case before the passes ran. */
  type Hash = Bytes

  /** `tmp_dir / path_after`. */
  datatype CachedPath = CachedPath(dir: nat, relative: string)

  /** `_Item`, with the test case contents `copy_test_case` wrote into its directory. */
  datatype Item = Item(tmpDir: nat, path: CachedPath, contents: Bytes)

  /** One pass group's dict, in insertion order. */
  type Group = seq<(Hash, Item)>

  function Hashes(g: Group): (r: seq<Hash>)
    ensures |r| == |g| && forall i :: 0 <= i < |g| ==> r[i] == g[i].0
  {
    seq(|g|, i requires 0 <= i < |g| => g[i].0)
  }

  /** A well-formed group: no hash twice, and no more entries than the bound. */
  ghost predicate GroupOk(g: Group)
  {
    NoDuplicates(Hashes(g)) && |g| <= MAX_ITEMS_PER_PASS_GROUP
  }

  /** `mapping.get(hash)`. */
  function Find(g: Group, h: Hash): (r: Option<Item>)
    ensures r.None? <==> h !in Hashes(g)
  {
    if |g| == 0 then None
    else if g[0].0 == h then Some(g[0].1)
    else
      assert Hashes(g) == [g[0].0] + Hashes(g[1..]);
      Find(g[1..], h)
  }

  /** What `Find` returns is an entry of the group. */
  lemma {:induction false} FindIn(g: Group, h: Hash)
    requires Find(g, h).Some?
    ensures (h, Find(g, h).value) in g
  {
    if g[0].0 != h {
      FindIn(g[1..], h);
    }
  }

  /** With no hash twice, the entry at `i` is the one found for its hash. */
  lemma {:induction false} FindAt(g: Group, i: nat)
    requires NoDuplicates(Hashes(g)) && i < |g|
    ensures Find(g, g[i].0) == Some(g[i].1)
  {
    if i > 0 {
      assert Hashes(g)[0] != Hashes(g)[i];
      assert NoDuplicates(Hashes(g[1..])) by {
        forall a, b | 0 <= a < b < |g| - 1
          ensures Hashes(g[1..])[a] != Hashes(g[1..])[b]
        {
          assert Hashes(g)[a + 1] != Hashes(g)[b + 1];
        }
      }
      FindAt(g[1..], i - 1);
    }
  }

  /** `del mapping[h]`: the group without the entry for `h`. */
  function Without(g: Group, h: Hash): (r: Group)
    ensures |r| <= |g|
    ensures h !in Hashes(r)
    ensures forall x :: x in Hashes(r) <==> x in Hashes(g) && x != h
  {
    if |g| == 0 then []
    else
      var rest := Without(g[1..], h);
      assert Hashes(g) == [g[0].0] + Hashes(g[1..]);
      if g[0].0 == h then rest
      else
        assert Hashes([g[0]] + rest) == [g[0].0] + Hashes(rest);
        [g[0]] + rest
  }

  /** Removing the first entry of a group without repeated hashes drops exactly that entry. */
  lemma WithoutFirst(g: Group)
    requires |g| > 0 && NoDuplicates(Hashes(g))
    ensures Without(g, g[0].0) == g[1..]
  {
    WithoutAbsent(g[1..], g[0].0);
  }

  lemma {:induction false} WithoutAbsent(g: Group, h: Hash)
    requires h !in Hashes(g)
    ensures Without(g, h) == g
  {
    if |g| > 0 {
      assert Hashes(g) == [g[0].0] + Hashes(g[1..]);
      WithoutAbsent(g[1..], h);
    }
  }

  /** Removing a hash keeps the other entries, in order; the count drops by one when the hash was there. */
  lemma {:induction false} WithoutSpec(g: Group, h: Hash)
    requires NoDuplicates(Hashes(g))
    ensures NoDuplicates(Hashes(Without(g, h)))
    ensures |Without(g, h)| == if h in Hashes(g) then |g| - 1 else |g|
    ensures forall x :: x != h ==> Find(Without(g, h), x) == Find(g, x)
  {
    if |g| > 0 {
      NoDuplicatesTail(g);
      WithoutSpec(g[1..], h);
      var rest := Without(g[1..], h);
      assert Hashes(g) == [g[0].0] + Hashes(g[1..]);
      if g[0].0 == h {
        WithoutAbsent(g[1..], h);
      } else {
        NoDuplicatesCons(g[0], rest);
        assert ([g[0]] + rest)[1..] == rest;
      }
    }
  }

  /** Without repeated hashes, the tail has none either, and does not hold the first hash. */
  lemma NoDuplicatesTail(g: Group)
    requires NoDuplicates(Hashes(g)) && |g| > 0
    ensures NoDuplicates(Hashes(g[1..])) && g[0].0 !in Hashes(g[1..])
  {
    forall a, b | 0 <= a < b < |g| - 1
      ensures Hashes(g[1..])[a] != Hashes(g[1..])[b]
    {
      assert Hashes(g)[a + 1] != Hashes(g)[b + 1];
    }
    forall j | 0 <= j < |g| - 1
      ensures Hashes(g[1..])[j] != g[0].0
    {
      assert Hashes(g)[0] != Hashes(g)[j + 1];
    }
  }

  /** An entry whose hash the rest lacks adds no repeated hash in front of it. */
  lemma NoDuplicatesCons(e: (Hash, Item), rest: Group)
    requires NoDuplicates(Hashes(rest)) && e.0 !in Hashes(rest)
    ensures NoDuplicates(Hashes([e] + rest))
  {
    var r := [e] + rest;
    forall a, b | 0 <= a < b < |r|
      ensures Hashes(r)[a] != Hashes(r)[b]
    {
      assert Hashes(r)[b] == Hashes(rest)[b - 1];
      if a == 0 {
        assert Hashes(rest)[b - 1] in Hashes(rest);
      } else {
        assert Hashes(r)[a] == Hashes(rest)[a - 1];
      }
    }
  }

  /**
   * The hash `add` evicts: the one being added when it is already there,
   * otherwise the oldest entry of a full group, otherwise none.
   */
  function Evicted(g: Group, h: Hash): (r: Option<Hash>)
    ensures r.Some? ==> r.value in Hashes(g)
    ensures r.None? <==> h !in Hashes(g) && |g| < MAX_ITEMS_PER_PASS_GROUP
  {
    if h in Hashes(g) then Some(h)
    else if |g| >= MAX_ITEMS_PER_PASS_GROUP then Some(g[0].0)
    else None
  }

  /** `add` on one group: evict, then insert the new entry last. */
  function GroupAdded(g: Group, h: Hash, it: Item): Group
  {
    var e := Evicted(g, h);
    (if e.Some? then Without(g, e.value) else g) + [(h, it)]
  }

  /**
   * Adding keeps a group well formed; afterwards the new item is found for
   * its hash, and every other hash finds what it found before unless it
   * was the evicted one.
   */
  lemma GroupAddedSpec(g: Group, h: Hash, it: Item)
    requires GroupOk(g)
    ensures var r := GroupAdded(g, h, it);
      && GroupOk(r)
      && Find(r, h) == Some(it)
      && forall x :: x != h ==> Find(r, x) == (if Evicted(g, h) == Some(x) then None else Find(g, x))
  {
    var e := Evicted(g, h);
    var kept := if e.Some? then Without(g, e.value) else g;
    if e.Some? {
      WithoutSpec(g, e.value);
    }
    assert h !in Hashes(kept);
    var r := kept + [(h, it)];
    assert Hashes(r) == Hashes(kept) + [h];
    assert NoDuplicates(Hashes(r));
    FindAt(r, |kept|);
    forall x | x != h
      ensures Find(r, x) == (if e == Some(x) then None else Find(g, x))
    {
      FindSnoc(kept, h, it, x);
    }
  }

  /** Appending an entry for another hash does not change what `x` finds. */
  lemma {:induction false} FindSnoc(g: Group, h: Hash, it: Item, x: Hash)
    requires x != h
    ensures Find(g + [(h, it)], x) == Find(g, x)
  {
    if |g| > 0 {
      assert (g + [(h, it)])[1..] == g[1..] + [(h, it)];
      FindSnoc(g[1..], h, it, x);
    }
  }

  /** Adding a hash already in the group replaces its entry: the group keeps its size and its hashes. */
  lemma GroupAddedReplaces(g: Group, h: Hash, it: Item)
    requires GroupOk(g) && h in Hashes(g)
    ensures |GroupAdded(g, h, it)| == |g|
    ensures forall x :: x in Hashes(GroupAdded(g, h, it)) <==> x in Hashes(g)
  {
    WithoutSpec(g, h);
    var r := GroupAdded(g, h, it);
    assert Hashes(r) == Hashes(Without(g, h)) + [h];
  }

  /** Adding a new hash to a full group evicts its oldest entry. */
  lemma GroupAddedEvictsOldest(g: Group, h: Hash, it: Item)
    requires GroupOk(g) && h !in Hashes(g) && |g| == MAX_ITEMS_PER_PASS_GROUP
    ensures GroupAdded(g, h, it) == g[1..] + [(h, it)]
  {
    WithoutFirst(g);
  }

  /** The group of a pass list; `setdefault` makes a missing one empty. */
  function GroupOf(items: map<PassList, Group>, key: PassList): (g: Group)
    ensures key !in items ==> g == []
  {
    if key in items then items[key] else []
  }

  /** `lookup`: the item for the hash in the pass list's group, if any. */
  function LookupIn(items: map<PassList, Group>, key: PassList, h: Hash): (r: Option<Item>)
    ensures key !in items ==> r == None
    ensures r.None? <==> h !in Hashes(GroupOf(items, key))
  {
    Find(GroupOf(items, key), h)
  }

  /** `add` on the whole cache. */
  function ItemsAdded(items: map<PassList, Group>, key: PassList, h: Hash, it: Item): map<PassList, Group>
  {
    items[key := GroupAdded(GroupOf(items, key), h, it)]
  }

  /**
   * After `add`, `lookup` with the same passes and hash gives the new item,
   * replacing any earlier one; other pass groups see no change.
   */
  lemma AddedLookup(items: map<PassList, Group>, key: PassList, h: Hash, it: Item, key': PassList, h': Hash)
    requires key in items ==> GroupOk(items[key])
    ensures LookupIn(ItemsAdded(items, key, h, it), key, h) == Some(it)
    ensures key' != key ==> LookupIn(ItemsAdded(items, key, h, it), key', h') == LookupIn(items, key', h')
  {
    GroupAddedSpec(GroupOf(items, key), h, it);
  }

  /** The directory of every item. */
  ghost function ItemDirs(items: map<PassList, Group>): set<nat>
  {
    set k, i | k in items && 0 <= i < |items[k]| :: items[k][i].1.tmpDir
  }

  /**
   * The cache's invariant: every group is well formed; every item's path
   * lies in its own directory, which is live and recorded as belonging to
   * that entry; every live directory belongs to an entry whose item it is.
   */
  ghost predicate Consistent(items: map<PassList, Group>, dirs: map<nat, (PassList, Hash)>, nextDir: nat)
  {
    GroupsOk(items) && EntriesLive(items, dirs) && DirsOwned(items, dirs, nextDir)
  }

  ghost predicate GroupsOk(items: map<PassList, Group>)
  {
    forall k :: k in items ==> GroupOk(items[k])
  }

  /** Every item's path lies in its own directory, live and recorded as the entry's. */
  ghost predicate EntriesLive(items: map<PassList, Group>, dirs: map<nat, (PassList, Hash)>)
  {
    forall k, i :: k in items && 0 <= i < |items[k]| ==>
      var e := items[k][i];
      e.1.path.dir == e.1.tmpDir && e.1.tmpDir in dirs && dirs[e.1.tmpDir] == (k, e.0)
  }

  /** Every live directory was handed out, and is the directory of the entry it is recorded for. */
  ghost predicate DirsOwned(items: map<PassList, Group>, dirs: map<nat, (PassList, Hash)>, nextDir: nat)
  {
    forall d :: d in dirs ==>
      d < nextDir &&
      var (k, h) := dirs[d];
      k in items && Find(items[k], h).Some? && Find(items[k], h).value.tmpDir == d
  }

  /** With a single pass group, no more directories are live than the bound. */
  lemma SingleGroupDirs(items: map<PassList, Group>, dirs: map<nat, (PassList, Hash)>, nextDir: nat, key: PassList)
    requires Consistent(items, dirs, nextDir) && items.Keys <= {key}
    ensures |dirs| <= MAX_ITEMS_PER_PASS_GROUP
  {
    var g := GroupOf(items, key);
    var ds := set i | 0 <= i < |g| :: g[i].1.tmpDir;
    forall d | d in dirs
      ensures d in ds
    {
      var (k, h) := dirs[d];
      FindIn(items[k], h);
      assert k == key;
    }
    assert dirs.Keys <= ds;
    CardMapped(g);
    SetCardLe(dirs.Keys, ds);
  }

  lemma {:induction false} CardMapped(g: Group)
    ensures |set i | 0 <= i < |g| :: g[i].1.tmpDir| <= |g|
  {
    if |g| > 0 {
      var pre := g[..|g| - 1];
      CardMapped(pre);
      var s := set i | 0 <= i < |g| :: g[i].1.tmpDir;
      var t := set i | 0 <= i < |pre| :: pre[i].1.tmpDir;
      assert s == t + {g[|g| - 1].1.tmpDir} by {
        forall d | d in s
          ensures d in t + {g[|g| - 1].1.tmpDir}
        {
          var i :| 0 <= i < |g| && g[i].1.tmpDir == d;
          if i < |g| - 1 {
            assert pre[i] == g[i];
          }
        }
        forall d | d in t
          ensures d in s
        {
          var i :| 0 <= i < |pre| && pre[i].1.tmpDir == d;
          assert g[i] == pre[i];
        }
      }
    }
  }

  lemma SetCardLe(a: set<nat>, b: set<nat>)
    requires a <= b
    ensures |a| <= |b|
  {
    assert b == a + (b - a);
  }

  /** `Cache`: the groups and the temporary directories it owns. */
  class Cache {
    var items: map<PassList, Group>
    /** The live directories the cache created, each with the entry it holds. */
    var dirs: map<nat, (PassList, Hash)>
    /** The next directory the temporary directory manager hands out. */
    var nextDir: nat

    ghost predicate Valid()
      reads this
    {
      Consistent(items, dirs, nextDir)
    }

    /** `__init__`: no groups and no directories. */
    constructor(firstDir: nat)
      ensures Valid() && items == map[] && dirs == map[] && nextDir == firstDir
    {
      items := map[];
      dirs := map[];
      nextDir := firstDir;
    }

    /** `lookup`: the cached test case's path, if the group holds the hash. */
    method Lookup(passes: PassList, h: Hash) returns (path: Option<CachedPath>)
      ensures path.None? <==> LookupIn(items, passes, h).None?
      ensures path.Some? ==> path.value == LookupIn(items, passes, h).value.path
      ensures passes !in items ==> path == None
    {
      var mapping := if passes in items then items[passes] else [];
      var item := Find(mapping, h);
      path := if item.Some? then Some(item.value.path) else None;
    }

    /**
     * `add`: evict the hash itself or, in a full group, the oldest entry,
     * deleting its directory; then copy the test case into a fresh
     * directory and record it last.
     */
    method Add(passes: PassList, h: Hash, pathAfter: string, contents: Bytes)
      requires Valid()
      modifies this
      ensures Valid()
      ensures nextDir == old(nextDir) + 1
      ensures items == ItemsAdded(old(items), passes, h, Item(old(nextDir), CachedPath(old(nextDir), pathAfter), contents))
      ensures var e := Evicted(GroupOf(old(items), passes), h);
        dirs == (if e.Some? then old(dirs) - {Find(GroupOf(old(items), passes), e.value).value.tmpDir} else old(dirs))
                [old(nextDir) := (passes, h)]
    {
      var mapping := if passes in items then items[passes] else [];
      var evictHash: Option<Hash> := None;
      if h in Hashes(mapping) {
        evictHash := Some(h);
      } else if |mapping| >= MAX_ITEMS_PER_PASS_GROUP {
        evictHash := Some(mapping[0].0);
      }
      ghost var dirs0 := dirs;
      if evictHash.Some? {
        var evicted := Find(mapping, evictHash.value).value;
        dirs := dirs - {evicted.tmpDir};
        mapping := Without(mapping, evictHash.value);
      }
      var tmpDir := nextDir;
      nextDir := nextDir + 1;
      var it := Item(tmpDir, CachedPath(tmpDir, pathAfter), contents);
      mapping := mapping + [(h, it)];
      items := items[passes := mapping];
      dirs := dirs[tmpDir := (passes, h)];
      AddedConsistent(old(items), dirs0, tmpDir, passes, h, it);
    }

    /** `__exit__`: delete every item's directory, then forget every group. */
    method Exit()
      requires Valid()
      modifies this
      ensures Valid() && items == map[] && dirs == map[] && nextDir == old(nextDir)
    {
      LiveDirsAreItemDirs(items, dirs, nextDir);
      dirs := DeleteDirs(dirs, ItemDirSet(items));
      items := map[];
      assert Consistent(map[], map[], nextDir);
    }
  }

  /**
   * The loop of `__exit__`: `delete_dir` on each item's directory, one at a
   * time; when those are all the live directories, none is left.
   */
  method DeleteDirs(live: map<nat, (PassList, Hash)>, todo: set<nat>) returns (rest: map<nat, (PassList, Hash)>)
    ensures rest.Keys == live.Keys - todo
    ensures forall x :: x in rest ==> rest[x] == live[x]
  {
    rest := live;
    var left := todo;
    while left != {}
      invariant left <= todo
      invariant rest.Keys == live.Keys - (todo - left)
      invariant forall x :: x in rest ==> rest[x] == live[x]
      decreases left
    {
      var d :| d in left;
      rest := rest - {d};
      left := left - {d};
    }
  }

  /** The directories of the items, as the loop of `__exit__` visits them. */
  function ItemDirSet(items: map<PassList, Group>): (r: set<nat>)
    ensures r == ItemDirs(items)
  {
    set k, i | k in items && 0 <= i < |items[k]| :: items[k][i].1.tmpDir
  }

  /** The live directories are exactly the items' directories. */
  lemma LiveDirsAreItemDirs(items: map<PassList, Group>, dirs: map<nat, (PassList, Hash)>, nextDir: nat)
    requires Consistent(items, dirs, nextDir)
    ensures dirs.Keys == ItemDirs(items)
  {
    forall d | d in dirs
      ensures d in ItemDirs(items)
    {
      var (k, h) := dirs[d];
      FindIn(items[k], h);
      var i :| 0 <= i < |items[k]| && items[k][i] == (h, Find(items[k], h).value);
    }
  }

  /** `add` keeps the cache consistent, given a directory it has never handed out. */
  lemma AddedConsistent(items: map<PassList, Group>, dirs: map<nat, (PassList, Hash)>, d: nat,
                        key: PassList, h: Hash, it: Item)
    requires Consistent(items, dirs, d)
    requires it.tmpDir == d && it.path.dir == d
    ensures var g := GroupOf(items, key);
      var e := Evicted(g, h);
      var dirs' := (if e.Some? then dirs - {Find(g, e.value).value.tmpDir} else dirs)[d := (key, h)];
      Consistent(ItemsAdded(items, key, h, it), dirs', d + 1)
  {
    var g := GroupOf(items, key);
    var e := Evicted(g, h);
    var gone := if e.Some? then {Find(g, e.value).value.tmpDir} else {};
    var dirs' := (dirs - gone)[d := (key, h)];
    assert dirs' == (if e.Some? then dirs - {Find(g, e.value).value.tmpDir} else dirs)[d := (key, h)];
    var kept := if e.Some? then Without(g, e.value) else g;
    var items' := ItemsAdded(items, key, h, it);
    assert GroupOk(g);
    GroupAddedSpec(g, h, it);
    AddedEntriesLive(items, dirs, d, key, h, it, e, gone, kept, items', dirs');
    AddedDirsOwned(items, dirs, d, key, h, it, g, e, gone, items', dirs');
  }

  lemma AddedEntriesLive(items: map<PassList, Group>, dirs: map<nat, (PassList, Hash)>, d: nat,
                         key: PassList, h: Hash, it: Item, e: Option<Hash>, gone: set<nat>, kept: Group,
                         items': map<PassList, Group>, dirs': map<nat, (PassList, Hash)>)
    requires Consistent(items, dirs, d)
    requires it.tmpDir == d && it.path.dir == d
    requires e == Evicted(GroupOf(items, key), h)
    requires gone == if e.Some? then {Find(GroupOf(items, key), e.value).value.tmpDir} else {}
    requires kept == if e.Some? then Without(GroupOf(items, key), e.value) else GroupOf(items, key)
    requires items' == items[key := kept + [(h, it)]]
    requires dirs' == (dirs - gone)[d := (key, h)]
    ensures EntriesLive(items', dirs')
  {
    assert forall x :: x in gone ==> x in dirs && dirs[x].0 == key;
    forall k, i | k in items' && 0 <= i < |items'[k]|
      ensures var en: (Hash, Item) := items'[k][i];
        en.1.path.dir == en.1.tmpDir && en.1.tmpDir in dirs' && dirs'[en.1.tmpDir] == (k, en.0)
    {
      AddedEntryLive(items, dirs, d, key, h, it, e, gone, kept, items', dirs', k, i);
    }
  }

  /** One entry after `add`: the new one, a kept one of the same group, or one of another group. */
  lemma AddedEntryLive(items: map<PassList, Group>, dirs: map<nat, (PassList, Hash)>, d: nat,
                       key: PassList, h: Hash, it: Item, e: Option<Hash>, gone: set<nat>, kept: Group,
                       items': map<PassList, Group>, dirs': map<nat, (PassList, Hash)>, k: PassList, i: nat)
    requires Consistent(items, dirs, d)
    requires it.tmpDir == d && it.path.dir == d
    requires e == Evicted(GroupOf(items, key), h)
    requires gone == if e.Some? then {Find(GroupOf(items, key), e.value).value.tmpDir} else {}
    requires forall x :: x in gone ==> x in dirs && dirs[x].0 == key
    requires kept == if e.Some? then Without(GroupOf(items, key), e.value) else GroupOf(items, key)
    requires items' == items[key := kept + [(h, it)]]
    requires dirs' == (dirs - gone)[d := (key, h)]
    requires k in items' && i < |items'[k]|
    ensures var en: (Hash, Item) := items'[k][i];
      en.1.path.dir == en.1.tmpDir && en.1.tmpDir in dirs' && dirs'[en.1.tmpDir] == (k, en.0)
  {
    if k == key && i == |kept| {
      assert items'[k][i] == (h, it);
    } else if k == key {
      assert items'[k][i] == kept[i];
      KeptEntry(items, dirs, d, key, h, e, kept, i);
    } else {
      assert items'[k][i] == items[k][i];
      OtherEntryLive(items, dirs, d, key, k, i, gone);
    }
  }

  /**
   * An entry of another pass group keeps its directory: it is live, below
   * the next directory, and not the evicted entry's, which belongs to `key`.
   */
  lemma OtherEntryLive(items: map<PassList, Group>, dirs: map<nat, (PassList, Hash)>, d: nat,
                       key: PassList, k: PassList, i: nat, gone: set<nat>)
    requires Consistent(items, dirs, d)
    requires k in items && k != key && i < |items[k]|
    requires forall x :: x in gone ==> x in dirs && dirs[x].0 == key
    ensures var en := items[k][i];
      en.1.path.dir == en.1.tmpDir && en.1.tmpDir in (dirs - gone)
      && (dirs - gone)[en.1.tmpDir] == (k, en.0) && en.1.tmpDir < d
  {
    var en := items[k][i];
    assert en.1.tmpDir in dirs && dirs[en.1.tmpDir] == (k, en.0);
  }

  lemma AddedDirsOwned(items: map<PassList, Group>, dirs: map<nat, (PassList, Hash)>, d: nat,
                       key: PassList, h: Hash, it: Item, g: Group, e: Option<Hash>, gone: set<nat>,
                       items': map<PassList, Group>, dirs': map<nat, (PassList, Hash)>)
    requires Consistent(items, dirs, d)
    requires it.tmpDir == d
    requires g == GroupOf(items, key) && e == Evicted(g, h)
    requires gone == if e.Some? then {Find(g, e.value).value.tmpDir} else {}
    requires items' == ItemsAdded(items, key, h, it)
    requires dirs' == (dirs - gone)[d := (key, h)]
    requires GroupOk(GroupAdded(g, h, it)) && Find(GroupAdded(g, h, it), h) == Some(it)
    requires forall x :: x != h ==> Find(GroupAdded(g, h, it), x) == (if e == Some(x) then None else Find(g, x))
    ensures GroupsOk(items') && DirsOwned(items', dirs', d + 1)
  {
    forall x | x in dirs'
      ensures x < d + 1 &&
        var (k, hx) := dirs'[x];
        k in items' && Find(items'[k], hx).Some? && Find(items'[k], hx).value.tmpDir == x
    {
      if x != d {
        var (k, hx) := dirs[x];
        assert dirs'[x] == (k, hx);
        if k == key {
          assert x !in gone;
          assert Find(g, hx).Some?;
          assert hx != h;
          assert e != Some(hx);
        }
      }
    }
  }

  /** An entry that survives the eviction keeps a live directory recorded for it. */
  lemma KeptEntry(items: map<PassList, Group>, dirs: map<nat, (PassList, Hash)>, d: nat,
                  key: PassList, h: Hash, e: Option<Hash>, kept: Group, i: nat)
    requires Consistent(items, dirs, d)
    requires e == Evicted(GroupOf(items, key), h)
    requires kept == if e.Some? then Without(GroupOf(items, key), e.value) else GroupOf(items, key)
    requires i < |kept|
    ensures var en := kept[i];
      var gone := if e.Some? then {Find(GroupOf(items, key), e.value).value.tmpDir} else {};
      en.1.path.dir == en.1.tmpDir && en.1.tmpDir in dirs - gone && dirs[en.1.tmpDir] == (key, en.0) &&
      en.1.tmpDir != d
  {
    var g := GroupOf(items, key);
    var en := kept[i];
    assert en in g by {
      KeptIsIn(g, e, kept, i);
    }
    assert key in items;
    assert en.1.tmpDir in dirs && dirs[en.1.tmpDir] == (key, en.0);
    if e.Some? {
      var ev := Find(g, e.value).value;
      FindIn(g, e.value);
      assert en.0 in Hashes(kept);
      assert en.0 != e.value;
      assert dirs[ev.tmpDir] == (key, e.value);
      assert ev.tmpDir != en.1.tmpDir;
    }
  }

  lemma KeptIsIn(g: Group, e: Option<Hash>, kept: Group, i: nat)
    requires kept == if e.Some? then Without(g, e.value) else g
    requires i < |kept|
    ensures kept[i] in g
  {
    if e.Some? {
      WithoutSubset(g, e.value);
    }
  }

  lemma {:induction false} WithoutSubset(g: Group, h: Hash)
    ensures forall x :: x in Without(g, h) ==> x in g
  {
    if |g| > 0 {
      WithoutSubset(g[1..], h);
    }
  }
}
