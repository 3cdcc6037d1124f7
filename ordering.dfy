/**
 * Comparison keys with the ordering of Python tuples and C++ `std::tie` /
 * `std::vector` comparison, and the stable sort that Python's `sorted` and
 * `list.sort` perform.
 */
module Ordering {

  /**
   * A comparison key: `NegInf` is Python's `-math.inf`, `Int` an integer and
   * `Tup` a tuple (or vector) compared lexicographically.
   */
  datatype Key = NegInf | Int(i: int) | Tup(elems: seq<Key>)

  /** Strict order on keys: `-inf` below every integer, integers below tuples. */
  function Less(a: Key, b: Key): bool
  {
    match a
    case NegInf => !b.NegInf?
    case Int(x) => (b.Int? && x < b.i) || b.Tup?
    case Tup(xs) => b.Tup? && LexLess(xs, b.elems)
  }

  /** Lexicographic order: the first differing element decides; a proper prefix is smaller. */
  function LexLess(xs: seq<Key>, ys: seq<Key>): bool
  {
    if |xs| == 0 then |ys| > 0
    else if |ys| == 0 then false
    else if Less(xs[0], ys[0]) then true
    else xs[0] == ys[0] && LexLess(xs[1..], ys[1..])
  }

  function LessOrEqual(a: Key, b: Key): bool
  {
    !Less(b, a)
  }

  lemma {:induction false} LessIrreflexive(a: Key)
    ensures !Less(a, a)
  {
    match a
    case NegInf =>
    case Int(_) =>
    case Tup(xs) => LexIrreflexive(xs);
  }

  lemma {:induction false} LexIrreflexive(xs: seq<Key>)
    ensures !LexLess(xs, xs)
  {
    if |xs| > 0 {
      LessIrreflexive(xs[0]);
      LexIrreflexive(xs[1..]);
    }
  }

  lemma {:induction false} LessTransitive(a: Key, b: Key, c: Key)
    requires Less(a, b) && Less(b, c)
    ensures Less(a, c)
  {
    match a
    case NegInf =>
    case Int(_) =>
    case Tup(xs) => LexTransitive(xs, b.elems, c.elems);
  }

  lemma {:induction false} LexTransitive(xs: seq<Key>, ys: seq<Key>, zs: seq<Key>)
    requires LexLess(xs, ys) && LexLess(ys, zs)
    ensures LexLess(xs, zs)
  {
    if |xs| > 0 && |zs| > 0 {
      if Less(xs[0], ys[0]) && Less(ys[0], zs[0]) {
        LessTransitive(xs[0], ys[0], zs[0]);
      } else if !Less(xs[0], ys[0]) && !Less(ys[0], zs[0]) {
        LexTransitive(xs[1..], ys[1..], zs[1..]);
      }
    }
  }

  lemma {:induction false} LessTotal(a: Key, b: Key)
    ensures Less(a, b) || a == b || Less(b, a)
  {
    match a
    case NegInf =>
    case Int(_) =>
    case Tup(xs) =>
      if b.Tup? {
        LexTotal(xs, b.elems);
      }
  }

  lemma {:induction false} LexTotal(xs: seq<Key>, ys: seq<Key>)
    ensures LexLess(xs, ys) || xs == ys || LexLess(ys, xs)
  {
    if |xs| > 0 && |ys| > 0 {
      LessTotal(xs[0], ys[0]);
      if xs[0] == ys[0] {
        LexTotal(xs[1..], ys[1..]);
        if xs[1..] == ys[1..] {
          assert xs == [xs[0]] + xs[1..];
          assert ys == [ys[0]] + ys[1..];
        }
      }
    }
  }

  /** The elements of `s` are in non-decreasing key order. */
  ghost predicate SortedBy<T>(s: seq<T>, key: T -> Key)
  {
    forall i, j :: 0 <= i < j < |s| ==> LessOrEqual(key(s[i]), key(s[j]))
  }

  /** Inserts `x` after every element whose key is not greater than its own. */
  function Insert<T>(s: seq<T>, x: T, key: T -> Key): (r: seq<T>)
    ensures multiset(r) == multiset(s) + multiset{x} && |r| == |s| + 1
  {
    if |s| == 0 then [x]
    else if Less(key(x), key(s[0])) then [x] + s
    else
      assert s == [s[0]] + s[1..];
      [s[0]] + Insert(s[1..], x, key)
  }

  /** Inserting into a sorted sequence keeps it sorted. */
  lemma {:induction false} InsertSorted<T>(s: seq<T>, x: T, key: T -> Key)
    requires SortedBy(s, key)
    ensures SortedBy(Insert(s, x, key), key)
  {
    InsertAdjacent(s, x, key);
    AdjacentSorted(Insert(s, x, key), key);
  }

  /** Inserting into a sorted sequence leaves no neighbours out of order. */
  lemma {:induction false} InsertAdjacent<T>(s: seq<T>, x: T, key: T -> Key)
    requires SortedBy(s, key)
    ensures forall i :: 0 < i < |Insert(s, x, key)| ==>
              LessOrEqual(key(Insert(s, x, key)[i - 1]), key(Insert(s, x, key)[i]))
  {
    if |s| == 0 {
    } else if Less(key(x), key(s[0])) {
      if Less(key(s[0]), key(x)) {
        LessTransitive(key(x), key(s[0]), key(x));
        LessIrreflexive(key(x));
      }
    } else {
      var tail := s[1..];
      SortedSuffix(s, key);
      InsertAdjacent(tail, x, key);
      var rest := Insert(tail, x, key);
      assert rest[0] == x || rest[0] == s[1];
      assert Insert(s, x, key) == [s[0]] + rest;
    }
  }

  /** Dropping the first element of a sorted sequence leaves it sorted. */
  lemma {:induction false} SortedSuffix<T>(s: seq<T>, key: T -> Key)
    requires SortedBy(s, key) && |s| > 0
    ensures SortedBy(s[1..], key)
  {
    forall i, j | 0 <= i < j < |s| - 1
      ensures LessOrEqual(key(s[1..][i]), key(s[1..][j]))
    {
      assert s[1..][i] == s[i + 1] && s[1..][j] == s[j + 1];
    }
  }

  /** Dropping the last element of a sorted sequence leaves it sorted, and that element is a maximum. */
  lemma {:induction false} SortedPrefix<T>(s: seq<T>, key: T -> Key)
    requires SortedBy(s, key) && |s| > 0
    ensures SortedBy(s[..|s| - 1], key)
    ensures forall i :: 0 <= i < |s| - 1 ==> LessOrEqual(key(s[i]), key(s[|s| - 1]))
  {
    var pre := s[..|s| - 1];
    forall i, j | 0 <= i < j < |pre|
      ensures LessOrEqual(key(pre[i]), key(pre[j]))
    {
      assert pre[i] == s[i] && pre[j] == s[j];
    }
  }

  /** Stable insertion sort by key: Python's `sorted(s, key=key)`. */
  function SortBy<T>(s: seq<T>, key: T -> Key): (r: seq<T>)
    ensures multiset(r) == multiset(s) && |r| == |s|
  {
    if |s| == 0 then []
    else
      assert s == s[..|s| - 1] + [s[|s| - 1]];
      Insert(SortBy(s[..|s| - 1], key), s[|s| - 1], key)
  }

  /** The sort's result is in key order. */
  lemma {:induction false} SortBySortsBy<T>(s: seq<T>, key: T -> Key)
    ensures SortedBy(SortBy(s, key), key)
  {
    if |s| > 0 {
      SortBySortsBy(s[..|s| - 1], key);
      InsertSorted(SortBy(s[..|s| - 1], key), s[|s| - 1], key);
    }
  }

  lemma LessOrEqualTransitive(a: Key, b: Key, c: Key)
    requires LessOrEqual(a, b) && LessOrEqual(b, c)
    ensures LessOrEqual(a, c)
  {
    if Less(c, a) {
      LessTotal(a, b);
      if Less(a, b) {
        LessTransitive(c, a, b);
      }
    }
  }

  /** Checking neighbours is enough: a sequence whose adjacent keys never decrease is sorted. */
  lemma {:induction false} AdjacentSorted<T>(s: seq<T>, key: T -> Key)
    requires forall i :: 0 < i < |s| ==> LessOrEqual(key(s[i - 1]), key(s[i]))
    ensures SortedBy(s, key)
  {
    if |s| > 1 {
      var pre := s[..|s| - 1];
      AdjacentSorted(pre, key);
      forall i | 0 <= i < |s| - 1
        ensures LessOrEqual(key(s[i]), key(s[|s| - 1]))
      {
        if i < |s| - 2 {
          assert LessOrEqual(key(pre[i]), key(pre[|s| - 2]));
          LessOrEqualTransitive(key(s[i]), key(s[|s| - 2]), key(s[|s| - 1]));
        }
      }
    }
  }

  /** Inserting an element no smaller than any other appends it. */
  lemma {:induction false} InsertLast<T>(s: seq<T>, x: T, key: T -> Key)
    requires forall i :: 0 <= i < |s| ==> LessOrEqual(key(s[i]), key(x))
    ensures Insert(s, x, key) == s + [x]
  {
    if |s| > 0 {
      InsertLast(s[1..], x, key);
      assert s == [s[0]] + s[1..];
    }
  }

  /** Sorting an already sorted sequence returns it unchanged (the sort is stable). */
  lemma {:induction false} SortBySorted<T>(s: seq<T>, key: T -> Key)
    requires SortedBy(s, key)
    ensures SortBy(s, key) == s
  {
    if |s| > 0 {
      SortedPrefix(s, key);
      SortBySorted(s[..|s| - 1], key);
      InsertMaximalLast(s, key);
      SortByLast(s, key);
    }
  }

  /** Inserting the last element, when it is maximal, into the rest puts it back at the end. */
  lemma {:induction false} InsertMaximalLast<T>(s: seq<T>, key: T -> Key)
    requires |s| > 0
    requires forall i :: 0 <= i < |s| - 1 ==> LessOrEqual(key(s[i]), key(s[|s| - 1]))
    ensures Insert(s[..|s| - 1], s[|s| - 1], key) == s[..|s| - 1] + [s[|s| - 1]]
  {
    var pre, last := s[..|s| - 1], s[|s| - 1];
    forall i | 0 <= i < |pre|
      ensures LessOrEqual(key(pre[i]), key(last))
    {
      assert pre[i] == s[i];
    }
    InsertLast(pre, last, key);
  }

  /** Sorting returns `s` when sorting all but its last element does, and inserting that element puts it at the end. */
  lemma {:induction false} SortByLast<T>(s: seq<T>, key: T -> Key)
    requires |s| > 0 && SortBy(s[..|s| - 1], key) == s[..|s| - 1]
    requires Insert(s[..|s| - 1], s[|s| - 1], key) == s[..|s| - 1] + [s[|s| - 1]]
    ensures SortBy(s, key) == s
  {
    var pre, last := s[..|s| - 1], s[|s| - 1];
    assert s == pre + [last];
  }
}
