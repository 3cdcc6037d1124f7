/**
 * The vocabulary table that the Python passes build with `_get_vocab_id`:
 * a list of strings that hints refer to by index, and the index already
 * given to each path. Paths are compared as bytes.
 */
module VocabTables {
  import opened Common

  /** The table as a value: the vocabulary list and the index of each path already in it. */
  datatype Vocabulary = Vocabulary(words: seq<Bytes>, ids: map<Bytes, nat>)

  /** Every recorded path sits at its recorded index. */
  ghost predicate Valid(v: Vocabulary)
  {
    forall p :: p in v.ids ==> v.ids[p] < |v.words| && v.words[v.ids[p]] == p
  }

  /** `w` is `v` with possibly more words at the end. */
  predicate Extends(v: Vocabulary, w: Vocabulary)
  {
    |v.words| <= |w.words| && w.words[..|v.words|] == v.words
  }

  lemma ExtendsTransitive(u: Vocabulary, v: Vocabulary, w: Vocabulary)
    requires Extends(u, v) && Extends(v, w)
    ensures Extends(u, w)
  {
    assert w.words[..|u.words|] == w.words[..|v.words|][..|u.words|];
  }

  /**
   * `_get_vocab_id`: a known path keeps its id and the table is unchanged;
   * a new one is appended and gets the last index. Either way the id's
   * entry is the path, and the list only grows at its end.
   */
  function Intern(v: Vocabulary, path: Bytes): (r: (Vocabulary, nat))
    requires Valid(v)
    ensures Valid(r.0) && r.1 < |r.0.words| && r.0.words[r.1] == path
    ensures path in r.0.ids && r.0.ids[path] == r.1
    ensures Extends(v, r.0)
    ensures path in v.ids ==> r == (v, v.ids[path])
    ensures path !in v.ids ==> r.1 == |v.words| && r.0 == Vocabulary(v.words + [path], v.ids[path := r.1])
  {
    if path in v.ids then (v, v.ids[path])
    else (Vocabulary(v.words + [path], v.ids[path := |v.words|]), |v.words|)
  }

  /** The table the passes thread through their hint generators, updated in place. */
  class VocabTable {
    var vocab: seq<Bytes>
    var pathToVocab: map<Bytes, nat>

    function Snapshot(): Vocabulary
      reads this
    {
      Vocabulary(vocab, pathToVocab)
    }

    constructor(initial: seq<Bytes>)
      ensures vocab == initial && pathToVocab == map[] && Valid(Snapshot())
    {
      vocab := initial;
      pathToVocab := map[];
    }

    /** `_get_vocab_id`, on the table in place. */
    method GetVocabId(path: Bytes) returns (id: nat)
      requires Valid(Snapshot())
      modifies this
      ensures (Snapshot(), id) == Intern(old(Snapshot()), path)
      ensures Valid(Snapshot()) && id < |vocab| && vocab[id] == path
    {
      if path in pathToVocab {
        return pathToVocab[path];
      }
      vocab := vocab + [path];
      id := |vocab| - 1;
      pathToVocab := pathToVocab[path := id];
    }
  }
}
