/**
 * The token-list driver of the `clex` lexer tool (`clex/driver.c`): the
 * growing token array, the identifier-renaming helpers (name successor,
 * unused-name search, the renaming test and the identifier index), and the
 * `rm-toks` and `hints-rm-toks` modes.
 */
module ClexDriver {
  import opened Common
  import opened HintsBuilder

  /** Exit codes of the tool. */
  const OK := 51
  const STOP := 71

  datatype TokKind = Keyword | Op | Ident | Other | Number | Ws | Newline | StringLit | Unknown

  /** `struct tok_t`: the text, kind, rename id (-1 until indexed), length and start offset. */
  datatype Token = Token(str: string, kind: TokKind, id: int, len: int, startPos: int)

  /** Whitespace and newline tokens, which the token-removal modes skip. */
  predicate Blank(t: Token)
  {
    t.kind == Ws || t.kind == Newline
  }

  // ---------------------------------------------------------------- names

  predicate Lower(c: char)
  {
    'a' <= c <= 'z'
  }

  predicate AllLower(s: string)
  {
    forall i :: 0 <= i < |s| ==> Lower(s[i])
  }

  /**
   * The rank of a lowercase name in the enumeration "a", ..., "z", "aa",
   * "ab", ...: the name read as a bijective base-26 numeral.
   */
  function Rank(s: string): (r: nat)
    requires AllLower(s)
    ensures r > 0 <==> |s| > 0
  {
    if |s| == 0 then 0 else 26 * Rank(s[..|s| - 1]) + (s[|s| - 1] as int - 'a' as int + 1)
  }

  /** A name whose prefix ranks lower ranks lower. */
  lemma RankStep(s: string, t: string)
    requires AllLower(s) && AllLower(t) && |s| > 0 && |t| > 0
    ensures Rank(s[..|s| - 1]) < Rank(t[..|t| - 1]) ==> Rank(s) < Rank(t)
  {
  }

  /** Different names have different ranks. */
  lemma {:induction false} RankInjective(s: string, t: string)
    requires AllLower(s) && AllLower(t) && Rank(s) == Rank(t)
    ensures s == t
  {
    if |s| > 0 && |t| > 0 {
      var ps, pt := s[..|s| - 1], t[..|t| - 1];
      RankStep(s, t);
      RankStep(t, s);
      RankInjective(ps, pt);
      assert s == ps + [s[|s| - 1]] && t == pt + [t[|t| - 1]];
    }
  }

  /** `next_char`: the next letter, and whether it wrapped from 'z' to 'a'. */
  function NextChar(c: char): (r: (char, bool))
    requires Lower(c)
    ensures Lower(r.0) && (r.1 <==> c == 'z')
    ensures r.0 as int - 'a' as int == (c as int - 'a' as int + 1) % 26
  {
    if c == 'z' then ('a', true) else ((c as int + 1) as char, false)
  }

  /** The name that follows `s` in the enumeration. */
  function Successor(s: string): (r: string)
    requires AllLower(s)
    ensures AllLower(r) && |r| > 0
  {
    if |s| == 0 then "a"
    else
      var init := s[..|s| - 1];
      var last := s[|s| - 1];
      if last == 'z' then Successor(init) + ['a']
      else init + [NextChar(last).0]
  }

  /** The successor ranks one higher. */
  lemma {:induction false} SuccessorRank(s: string)
    requires AllLower(s)
    ensures Rank(Successor(s)) == Rank(s) + 1
  {
    if |s| > 0 {
      var init := s[..|s| - 1];
      var r := Successor(s);
      assert r[..|r| - 1] == (if s[|s| - 1] == 'z' then Successor(init) else init);
      if s[|s| - 1] == 'z' {
        SuccessorRank(init);
      }
    }
  }

  function Zs(k: nat): (r: string)
    ensures |r| == k && AllLower(r) && forall i :: 0 <= i < k ==> r[i] == 'z'
  {
    if k == 0 then [] else Zs(k - 1) + ['z']
  }

  function As(k: nat): (r: string)
    ensures |r| == k && AllLower(r) && forall i :: 0 <= i < k ==> r[i] == 'a'
  {
    if k == 0 then [] else As(k - 1) + ['a']
  }

  /** Trailing 'z's roll over to 'a's while the character before them is bumped. */
  lemma {:induction false} SuccessorOfZs(s: string, k: nat)
    requires AllLower(s)
    ensures var t := s + Zs(k);
      AllLower(t) && Successor(t) == Successor(s) + As(k)
  {
    var t := s + Zs(k);
    if k > 0 {
      var t' := s + Zs(k - 1);
      assert t == t' + ['z'];
      SuccessorOfZs(s, k - 1);
      SuccessorSnocZ(t');
      assert (Successor(s) + As(k - 1)) + ['a'] == Successor(s) + As(k);
    } else {
      assert t == s;
    }
  }

  lemma SuccessorSnocZ(u: string)
    requires AllLower(u)
    ensures AllLower(u + ['z']) && Successor(u + ['z']) == Successor(u) + ['a']
  {
    assert (u + ['z'])[..|u|] == u;
  }

  /** The successor of a name ending in `k` 'z's, with `c` before them, bumps `c` and rolls the 'z's over. */
  lemma NextNameBump(name: string, pos: nat)
    requires AllLower(name) && pos < |name| && name[pos] != 'z'
    requires forall j :: pos < j < |name| ==> name[j] == 'z'
    ensures name[..pos] + [NextChar(name[pos]).0] + As(|name| - pos - 1) == Successor(name)
  {
    var k := |name| - pos - 1;
    assert name == name[..pos + 1] + Zs(k);
    SuccessorOfZs(name[..pos + 1], k);
    assert name[..pos + 1][..pos] == name[..pos];
  }

  /** A name of `k` 'z's is followed by `k + 1` 'a's. */
  lemma NextNameAllZ(name: string)
    requires forall j :: 0 <= j < |name| ==> name[j] == 'z'
    ensures AllLower(name) && Successor(name) == ['a'] + As(|name|)
  {
    assert name == [] + Zs(|name|);
    SuccessorOfZs([], |name|);
    assert As(1) == ['a'];
  }

  lemma NextNameRoll(name: string, r: string, pos: nat)
    requires 0 < pos < |name| == |r| && r == name[..pos + 1] + As(|name| - pos - 1)
    ensures r[pos := 'a'] == name[..pos] + As(|name| - pos)
  {
    var k := |name| - pos;
    var tail := ['a'] + As(k - 1);
    forall i | 0 <= i < k
      ensures As(k)[i] == tail[i]
    {
      if i > 0 {
        assert tail[i] == As(k - 1)[i - 1];
      }
    }
    assert As(k) == tail;
    assert name[..pos + 1] == name[..pos] + [name[pos]];
  }

  /**
   * `next_name`: the base-26 successor over a..z, worked right to left in
   * the name buffer, prepending an 'a' when every letter wrapped.
   */
  method NextName(name: string) returns (r: string)
    requires |name| > 0 && AllLower(name)
    ensures r == Successor(name)
  {
    r := name;
    var pos := |name| - 1;
    while true
      invariant 0 <= pos < |r| == |name|
      invariant r == name[..pos + 1] + As(|name| - pos - 1)
      invariant forall j :: pos < j < |name| ==> name[j] == 'z'
      decreases pos
    {
      var next := NextChar(r[pos]);
      var wrapped := next.1;
      if !wrapped {
        NextNameBump(name, pos);
        r := r[pos := next.0];
        return;
      }
      if pos == 0 {
        NextNameAllZ(name);
        r := ['a'] + r[pos := next.0];
        return;
      }
      NextNameRoll(name, r, pos);
      r := r[pos := next.0];
      pos := pos - 1;
    }
  }

  /** `strcmp(a, b) < 0`: lexicographic order on character codes, a proper prefix first. */
  predicate StrLess(a: string, b: string)
  {
    if |a| == 0 then |b| > 0
    else if |b| == 0 then false
    else a[0] < b[0] || (a[0] == b[0] && StrLess(a[1..], b[1..]))
  }

  /**
   * `should_be_renamed`: any character outside a..z forces a rename; otherwise
   * a longer new name never replaces, and one no longer replaces only when it
   * compares below the old name.
   */
  predicate ShouldRename(name: string, newname: string)
  {
    !AllLower(name) || (|newname| <= |name| && StrLess(newname, name))
  }

  method ShouldBeRenamed(name: string, newname: string) returns (r: bool)
    ensures r == ShouldRename(name, newname)
  {
    for i := 0 to |name|
      invariant forall j :: 0 <= j < i ==> Lower(name[j])
    {
      if name[i] < 'a' || name[i] > 'z' {
        return true;
      }
    }
    if |newname| > |name| {
      return false;
    }
    return StrLess(newname, name);
  }

  /** For strings of one length, `strcmp` order can be read from the last character back. */
  lemma {:induction false} StrLessSnoc(a: string, b: string)
    requires |a| == |b| > 0
    ensures var n := |a|;
      StrLess(a, b) <==> StrLess(a[..n - 1], b[..n - 1]) || (a[..n - 1] == b[..n - 1] && a[n - 1] < b[n - 1])
  {
    var n := |a|;
    if n == 1 {
      assert a[..0] == [] && b[..0] == [] && a[1..] == [] && b[1..] == [];
    } else {
      StrLessSnoc(a[1..], b[1..]);
      assert a[..n - 1][1..] == a[1..][..n - 2] && b[..n - 1][1..] == b[1..][..n - 2];
      assert a[..n - 1] == [a[0]] + a[1..][..n - 2] && b[..n - 1] == [b[0]] + b[1..][..n - 2];
      assert a[..n - 1] == b[..n - 1] <==> a[0] == b[0] && a[1..][..n - 2] == b[1..][..n - 2];
    }
  }

  /** Between names of one length, `strcmp` order is enumeration order. */
  lemma {:induction false} SameLengthOrder(a: string, b: string)
    requires AllLower(a) && AllLower(b) && |a| == |b|
    ensures StrLess(a, b) <==> Rank(a) < Rank(b)
  {
    var n := |a|;
    if n > 0 {
      var ia, ib := a[..n - 1], b[..n - 1];
      SameLengthOrder(ia, ib);
      StrLessSnoc(a, b);
      if Rank(ia) == Rank(ib) {
        RankInjective(ia, ib);
      }
    }
  }

  /** A shorter new name is not always taken: "ab" stays, although "b" is unused and shorter. */
  lemma ShorterNameMayNotReplace()
    ensures !ShouldRename("ab", "b") && Rank("b") < Rank("ab")
  {
    assert StrLess("ab", "b");
    assert "b"[1..] == [] && "ab"[1..] == "b";
  }

  // ---------------------------------------------------------------- token list

  /** The token texts. */
  function Strs(ts: seq<Token>): set<string>
  {
    set i | 0 <= i < |ts| :: ts[i].str
  }

  /** The token texts that are lowercase names ranked at or after `name`. */
  function Pending(ts: seq<Token>, name: string): set<string>
    requires AllLower(name)
  {
    set s | s in Strs(ts) && AllLower(s) && Rank(s) >= Rank(name)
  }

  /** Moving past a used name keeps every earlier name used and leaves fewer used names ahead. */
  lemma SkipUsedName(ts: seq<Token>, before: string, name: string)
    requires AllLower(before) && |before| > 0 && before in Strs(ts)
    requires AllLower(name) && Rank(name) == Rank(before) + 1
    requires forall s :: AllLower(s) && 0 < |s| && Rank(s) < Rank(before) ==> s in Strs(ts)
    ensures |Pending(ts, name)| < |Pending(ts, before)|
    ensures forall s :: AllLower(s) && 0 < |s| && Rank(s) < Rank(name) ==> s in Strs(ts)
  {
    forall s | AllLower(s) && 0 < |s| && Rank(s) < Rank(name)
      ensures s in Strs(ts)
    {
      if Rank(s) == Rank(before) {
        RankInjective(s, before);
      }
    }
    assert Pending(ts, name) <= Pending(ts, before) - {before};
    SubsetSmaller(Pending(ts, name), Pending(ts, before), before);
  }

  lemma {:induction false} SubsetSmaller<T>(a: set<T>, b: set<T>, x: T)
    requires a <= b - {x} && x in b
    ensures |a| < |b|
  {
    if a != {} {
      var y :| y in a;
      SubsetSmaller(a - {y}, b - {y}, x);
    }
  }

  /** The identifier texts that `index_toks` interns, in token order. */
  function RenamableStrs(ts: seq<Token>, newname: string): seq<string>
  {
    if |ts| == 0 then []
    else
      var t := ts[|ts| - 1];
      RenamableStrs(ts[..|ts| - 1], newname) + (if Renamable(t, newname) then [t.str] else [])
  }

  /** The identifier index: each text interned once, in order of first occurrence. */
  function Interned(ss: seq<string>): (r: seq<string>)
    ensures NoDuplicates(r)
    ensures forall s :: s in r <==> s in ss
  {
    if |ss| == 0 then []
    else
      var r := Interned(ss[..|ss| - 1]);
      assert ss == ss[..|ss| - 1] + [ss[|ss| - 1]];
      Intern(r, ss[|ss| - 1]).0
  }

  lemma InternedSnoc(ss: seq<string>, s: string)
    ensures Interned(ss + [s]) == Intern(Interned(ss), s).0
  {
    assert (ss + [s])[..|ss|] == ss;
  }

  /** The index after one more token. */
  lemma IndexStep(ts: seq<Token>, i: nat, newname: string)
    requires i < |ts|
    ensures var before := Interned(RenamableStrs(ts[..i], newname));
      Interned(RenamableStrs(ts[..i + 1], newname))
        == if Renamable(ts[i], newname) then Intern(before, ts[i].str).0 else before
  {
    var r := RenamableStrs(ts[..i], newname);
    assert ts[..i + 1][..i] == ts[..i];
    if Renamable(ts[i], newname) {
      assert RenamableStrs(ts[..i + 1], newname) == r + [ts[i].str];
      InternedSnoc(r, ts[i].str);
    } else {
      assert RenamableStrs(ts[..i + 1], newname) == r;
    }
  }

  lemma IndexOfSnoc(ss: seq<string>, y: string, x: string)
    requires x in ss
    ensures IndexOf(ss + [y], x) == IndexOf(ss, x)
  {
    var i := IndexOf(ss, x);
    var j := IndexOf(ss + [y], x);
    assert (ss + [y])[i] == x;
  }

  /** The texts of `r` occur in `ss`, and in the order of their first occurrences there. */
  ghost predicate InFirstOccurrenceOrder(r: seq<string>, ss: seq<string>)
  {
    (forall x :: x in r ==> x in ss)
    && forall i, j :: 0 <= i < j < |r| ==> IndexOf(ss, r[i]) < IndexOf(ss, r[j])
  }

  /** The index lists the texts in the order in which they first occur. */
  lemma {:induction false} InternedFirstOccurrence(ss: seq<string>)
    ensures InFirstOccurrenceOrder(Interned(ss), ss)
  {
    if |ss| > 0 {
      var pre := ss[..|ss| - 1];
      var y := ss[|ss| - 1];
      assert ss == pre + [y];
      InternedFirstOccurrence(pre);
      var r := Interned(ss);
      var rp := Interned(pre);
      forall x | x in rp
        ensures IndexOf(ss, x) == IndexOf(pre, x)
      {
        IndexOfSnoc(pre, y, x);
      }
      var last := if y in rp then [] else [y];
      assert r == rp + last;
      assert y !in rp ==> IndexOf(ss, y) == |pre|;
      forall i, j | 0 <= i < j < |r|
        ensures IndexOf(ss, r[i]) < IndexOf(ss, r[j])
      {
        assert r[i] == rp[i] && rp[i] in rp;
        assert IndexOf(ss, r[i]) == IndexOf(pre, rp[i]);
        if j < |rp| {
          assert r[j] == rp[j] && rp[j] in rp;
          assert IndexOf(ss, r[j]) == IndexOf(pre, rp[j]);
          assert IndexOf(pre, rp[i]) < IndexOf(pre, rp[j]);
        } else {
          assert r[j] == y && y !in rp;
          assert IndexOf(pre, rp[i]) < |pre|;
        }
      }
    }
  }

  /** The global token array `tok_list`, its size `max_toks` and its count `toks`. */
  class TokenList {
    var list: array<Token>
    var toks: nat

    ghost predicate Valid()
      reads this
    {
      1 <= list.Length && toks <= list.Length
    }

    /** The tokens lexed so far. */
    function Tokens(): seq<Token>
      reads this, list
      requires Valid()
    {
      list[..toks]
    }

    /** The array starts with room for one token. */
    constructor ()
      ensures Valid() && Tokens() == [] && list.Length == 1 && fresh(list)
    {
      list := new Token[1];
      toks := 0;
    }

    /**
     * `add_tok`: appends a token whose text is `str` and which ends at
     * `tokEndPos`, doubling the array when it is full; returns its index.
     */
    method AddTok(str: string, kind: TokKind, yyleng: int, tokEndPos: int) returns (idx: nat)
      requires Valid()
      modifies this, list
      ensures Valid()
      ensures Tokens() == old(Tokens()) + [Token(str, kind, -1, yyleng, tokEndPos - yyleng)]
      ensures idx == old(toks) && Tokens()[idx].startPos + Tokens()[idx].len == tokEndPos
      ensures old(toks) >= old(list.Length) ==> fresh(list) && list.Length == 2 * old(list.Length)
      ensures old(toks) < old(list.Length) ==> list == old(list)
    {
      if toks >= list.Length {
        var bigger := new Token[2 * list.Length];
        forall i | 0 <= i < toks {
          bigger[i] := list[i];
        }
        list := bigger;
      }
      list[toks] := Token(str, kind, -1, yyleng, tokEndPos - yyleng);
      idx := toks;
      toks := toks + 1;
    }

    /** The inner scan of `find_unused_name`: does some token have this text? */
    method Clashes(name: string) returns (found: bool)
      requires Valid()
      ensures found <==> name in Strs(Tokens())
    {
      for i := 0 to toks
        invariant forall k :: 0 <= k < i ==> list[k].str != name
      {
        if list[i].str == name {
          assert Tokens()[i].str == name;
          return true;
        }
      }
      return false;
    }

    /**
     * `find_unused_name`: starting from "a", moves to the next name while
     * some token has the current name's text. The result is the first name
     * in the enumeration that no token uses.
     */
    method FindUnusedName() returns (name: string)
      requires Valid()
      ensures AllLower(name) && |name| > 0 && name !in Strs(Tokens())
      ensures forall s :: AllLower(s) && 0 < |s| && Rank(s) < Rank(name) ==> s in Strs(Tokens())
    {
      ghost var ts := Tokens();
      name := "a";
      var clash := true;
      while clash
        invariant AllLower(name) && |name| > 0
        invariant forall s :: AllLower(s) && 0 < |s| && Rank(s) < Rank(name) ==> s in Strs(ts)
        invariant !clash ==> name !in Strs(ts)
        decreases |Pending(ts, name)| + (if clash then 1 else 0)
      {
        clash := Clashes(name);
        if clash {
          ghost var before := name;
          name := NextName(name);
          SuccessorRank(before);
          SkipUsedName(ts, before, name);
        }
      }
    }

    /**
     * `index_toks`: every identifier token that should be renamed gets the
     * id of its text in the index, a text new to the index being appended.
     * Other tokens keep their ids.
     */
    method IndexToks(newname: string) returns (index: seq<string>)
      requires Valid()
      modifies list
      ensures Valid() && |Tokens()| == |old(Tokens())|
      ensures index == Interned(RenamableStrs(old(Tokens()), newname))
      ensures forall k :: 0 <= k < toks ==> Renamable(old(list[k]), newname) ==> old(list[k]).str in index
      ensures forall k :: 0 <= k < toks ==> list[k] == Indexed(old(list[k]), index, newname)
    {
      ghost var ts := Tokens();
      index := [];
      for i := 0 to toks
        invariant index == Interned(RenamableStrs(ts[..i], newname))
        invariant forall k :: i <= k < toks ==> list[k] == ts[k]
        invariant forall k :: 0 <= k < i ==> list[k] == Indexed(ts[k], index, newname)
      {
        index := IndexNext(ts, i, newname, index);
      }
      assert ts[..toks] == ts;
      forall k | 0 <= k < toks && Renamable(ts[k], newname)
        ensures ts[k].str in index
      {
        RenamableContains(ts, newname, k);
      }
    }

    /** The loop body of `index_toks` on token `i`, which keeps the loop's invariant. */
    method IndexNext(ghost ts: seq<Token>, i: nat, newname: string, index: seq<string>) returns (index': seq<string>)
      requires Valid() && i < toks == |ts|
      requires index == Interned(RenamableStrs(ts[..i], newname))
      requires forall k :: i <= k < toks ==> list[k] == ts[k]
      requires forall k :: 0 <= k < i ==> list[k] == Indexed(ts[k], index, newname)
      modifies list
      ensures index' == Interned(RenamableStrs(ts[..i + 1], newname))
      ensures forall k :: i + 1 <= k < toks ==> list[k] == ts[k]
      ensures forall k :: 0 <= k < i + 1 ==> list[k] == Indexed(ts[k], index', newname)
    {
      IndexStep(ts, i, newname);
      index' := IndexOne(i, newname, index);
      if index' != index {
        IndexedPrefixStable(ts, i, newname, ts[i].str);
      }
    }

    /** One step of `index_toks`: token `i` gets its id, its text being interned if it is new. */
    method IndexOne(i: nat, newname: string, index: seq<string>) returns (index': seq<string>)
      requires Valid() && i < toks && NoDuplicates(index)
      modifies list
      ensures index' == if Renamable(old(list[i]), newname) then Intern(index, old(list[i]).str).0 else index
      ensures list[i] == Indexed(old(list[i]), index', newname)
      ensures forall k :: 0 <= k < list.Length && k != i ==> list[k] == old(list[k])
    {
      index' := index;
      var t := list[i];
      if t.kind != Ident {
        return;
      }
      var rename := ShouldBeRenamed(t.str, newname);
      if !rename {
        return;
      }
      var j := Lookup(index, t.str);
      if j >= 0 {
        list[i] := t.(id := j);
      } else {
        list[i] := t.(id := |index|);
        index' := index + [t.str];
      }
    }

    /**
     * `rm_toks`: prints every token except those from the `idx`-th
     * non-blank token up to the `idx + n`-th one (the blanks after the last
     * removed token included), and exits with OK only if the `idx`-th
     * non-blank token exists.
     */
    method RmToks(idx: int, n: int) returns (out: string, code: int)
      requires Valid() && n > 0
      ensures out == RmToksOutput(Tokens(), |Tokens()|, idx, n)
      ensures code == OK <==> 0 <= idx < NonBlankCount(Tokens(), |Tokens()|)
      ensures code == OK || code == STOP
    {
      ghost var ts := Tokens();
      out := "";
      var matched := false;
      var which := 0;
      var started := false;
      for i := 0 to toks
        invariant which == NonBlankCount(ts, i)
        invariant started <==> 0 <= idx < which
        invariant matched == started
        invariant out == RmToksOutput(ts, i, idx, n)
      {
        if !Blank(list[i]) {
          if which == idx {
            started := true;
            matched := true;
          }
          which := which + 1;
        }
        if !started || which > idx + n {
          out := out + list[i].str;
        }
      }
      code := if matched then OK else STOP;
    }

    /**
     * `hints_rm_toks`: for every run of `n` consecutive non-blank tokens,
     * the byte range from the start of the first to the end of the last.
     * The start offsets of the last `n` non-blank tokens are kept in a ring
     * buffer.
     */
    method HintsRmToks(n: int) returns (cuts: seq<(int, int)>)
      requires Valid() && n > 0
      ensures var nb := NonBlank(Tokens());
        |cuts| == (if |nb| >= n then |nb| - n + 1 else 0)
        && forall k :: 0 <= k < |cuts| ==> cuts[k] == Cut(nb, k, n)
    {
      ghost var ts := Tokens();
      var window := new int[n];
      ghost var nb: seq<Token> := [];
      cuts := [];
      var which := 0;
      for i := 0 to toks
        invariant nb == NonBlank(ts[..i]) && |nb| == which
        invariant Ring(window[..], nb, n)
        invariant |cuts| == (if which >= n then which - n + 1 else 0)
        invariant forall k :: 0 <= k < |cuts| ==> k + n - 1 < |nb| && cuts[k] == Cut(nb, k, n)
      {
        NonBlankSnoc(ts, i);
        var t := list[i];
        if Blank(t) {
          continue;
        }
        cuts := PushStart(window, nb, which, t, n, cuts);
        nb := nb + [t];
        which := which + 1;
      }
      assert ts[..toks] == ts;
    }

    /** The index of `s` in `index`, or -1: the inner search loop of `index_toks`. */
    static method Lookup(index: seq<string>, s: string) returns (j: int)
      requires NoDuplicates(index)
      ensures s in index ==> 0 <= j < |index| && j == IndexOf(index, s)
      ensures s !in index ==> j == -1
    {
      for k := 0 to |index|
        invariant s !in index[..k]
      {
        if index[k] == s {
          return k;
        }
      }
      assert index[..|index|] == index;
      return -1;
    }
  }

  /** `index_toks` considers identifiers that `should_be_renamed` accepts. */
  predicate Renamable(t: Token, newname: string)
  {
    t.kind == Ident && ShouldRename(t.str, newname)
  }

  /** A token as `index_toks` leaves it: a renamable identifier carries the position of its text in the index. */
  function Indexed(t: Token, index: seq<string>, newname: string): Token
  {
    if Renamable(t, newname) && t.str in index then t.(id := IndexOf(index, t.str)) else t
  }

  /** Appending to the index does not change the ids of texts already in it. */
  lemma IndexedSnoc(t: Token, index: seq<string>, s: string, newname: string)
    requires Renamable(t, newname) ==> t.str in index
    ensures Indexed(t, index + [s], newname) == Indexed(t, index, newname)
  {
    if Renamable(t, newname) {
      IndexOfSnoc(index, s, t.str);
    }
  }

  /** Growing the index leaves the ids of the tokens already indexed alone. */
  lemma IndexedPrefixStable(ts: seq<Token>, i: nat, newname: string, s: string)
    requires i <= |ts|
    ensures var index := Interned(RenamableStrs(ts[..i], newname));
      forall k :: 0 <= k < i ==> Indexed(ts[k], index + [s], newname) == Indexed(ts[k], index, newname)
  {
    var index := Interned(RenamableStrs(ts[..i], newname));
    forall k | 0 <= k < i
      ensures Indexed(ts[k], index + [s], newname) == Indexed(ts[k], index, newname)
    {
      if Renamable(ts[k], newname) {
        assert ts[..i][k] == ts[k];
        RenamableContains(ts[..i], newname, k);
      }
      IndexedSnoc(ts[k], index, s, newname);
    }
  }

  lemma {:induction false} RenamableContains(ts: seq<Token>, newname: string, k: nat)
    requires k < |ts| && ts[k].kind == Ident && ShouldRename(ts[k].str, newname)
    ensures ts[k].str in RenamableStrs(ts, newname)
  {
    var pre := ts[..|ts| - 1];
    if k < |ts| - 1 {
      assert pre[k] == ts[k];
      RenamableContains(pre, newname, k);
    }
  }

  lemma {:induction false} MulMonotone(a: int, b: int, n: nat)
    ensures a <= b ==> a * n <= b * n
    decreases if a <= b then b - a else 0
  {
    if a < b {
      MulMonotone(a, b - 1, n);
      assert (b - 1) * n + n == b * n;
    }
  }

  /** The quotient and remainder of `x` by `n` are the unique pair with `0 <= r < n`. */
  lemma ModUnique(x: int, n: int, q: int, r: int)
    requires n > 0 && 0 <= r < n && x == q * n + r
    ensures x % n == r
  {
    var q', r' := x / n, x % n;
    assert x == q' * n + r';
    MulMonotone(q' + 1, q, n);
    MulMonotone(q + 1, q', n);
    assert (q' + 1) * n == q' * n + n;
    assert (q + 1) * n == q * n + n;
  }

  /**
   * The body of `hints_rm_toks` for a non-blank token `t`: its start enters
   * the ring buffer, and once `n` non-blank tokens have been seen the range
   * of the last `n` is emitted.
   */
  method PushStart(window: array<int>, ghost nb: seq<Token>, which: int, t: Token, n: int, cuts: seq<(int, int)>)
    returns (cuts': seq<(int, int)>)
    requires which == |nb| && Ring(window[..], nb, n)
    requires |cuts| == (if |nb| >= n then |nb| - n + 1 else 0)
    requires forall k :: 0 <= k < |cuts| ==> k + n - 1 < |nb| && cuts[k] == Cut(nb, k, n)
    modifies window
    ensures Ring(window[..], nb + [t], n)
    ensures |cuts'| == (if |nb| + 1 >= n then |nb| + 1 - n + 1 else 0)
    ensures forall k :: 0 <= k < |cuts'| ==> k + n - 1 < |nb| + 1 && cuts'[k] == Cut(nb + [t], k, n)
  {
    RingPush(window[..], nb, t, n);
    window[which % n] := t.startPos;
    cuts' := cuts;
    if which + 1 >= n {
      RingOldest(window[..], nb + [t], n);
      var cutStart := window[(which + 1) % n];
      cuts' := cuts + [(cutStart, t.startPos + t.len)];
    }
    forall k | 0 <= k < |cuts'|
      ensures k + n - 1 < |nb| + 1 && cuts'[k] == Cut(nb + [t], k, n)
    {
      if k < |cuts| {
        assert (nb + [t])[k] == nb[k] && (nb + [t])[k + n - 1] == nb[k + n - 1];
      }
    }
  }

  /** One more token adds itself to the non-blank ones unless it is blank. */
  lemma NonBlankSnoc(ts: seq<Token>, i: nat)
    requires i < |ts|
    ensures NonBlank(ts[..i + 1]) == NonBlank(ts[..i]) + (if Blank(ts[i]) then [] else [ts[i]])
  {
    assert ts[..i + 1][..i] == ts[..i];
  }

  /** The cut of `hints_rm_toks` for the `n` non-blank tokens starting at the `k`-th. */
  function Cut(nb: seq<Token>, k: nat, n: int): (int, int)
    requires n > 0 && k + n - 1 < |nb|
  {
    (nb[k].startPos, nb[k + n - 1].startPos + nb[k + n - 1].len)
  }

  /** The ring buffer holds the start offsets of the last `n` non-blank tokens, at their position modulo `n`. */
  ghost predicate Ring(w: seq<int>, nb: seq<Token>, n: int)
  {
    n > 0 && |w| == n && forall j :: 0 <= j < |nb| && |nb| - n <= j ==> w[j % n] == nb[j].startPos
  }

  lemma RingPush(w: seq<int>, nb: seq<Token>, t: Token, n: int)
    requires Ring(w, nb, n)
    ensures Ring(w[|nb| % n := t.startPos], nb + [t], n)
  {
    var w', nb' := w[|nb| % n := t.startPos], nb + [t];
    forall j | 0 <= j < |nb'| && |nb'| - n <= j
      ensures w'[j % n] == nb'[j].startPos
    {
      if j < |nb| {
        ModDistinct(j, |nb|, n);
      }
    }
  }

  lemma RingOldest(w: seq<int>, nb: seq<Token>, n: int)
    requires Ring(w, nb, n) && |nb| >= n
    ensures w[|nb| % n] == nb[|nb| - n].startPos
  {
    ModShift(|nb| - n, n);
  }

  lemma ModShift(x: nat, n: int)
    requires n > 0
    ensures (x + n) % n == x % n
  {
    var q, r := x / n, x % n;
    assert x == q * n + r;
    assert x + n == (q + 1) * n + r;
    ModUnique(x + n, n, q + 1, r);
  }

  lemma ModDistinct(j: nat, w: nat, n: int)
    requires n > 0 && j < w < j + n
    ensures j % n != w % n
  {
    var q, r := j / n, j % n;
    assert j == q * n + r;
    if r + (w - j) < n {
      ModUnique(w, n, q, r + (w - j));
    } else {
      assert w == (q + 1) * n + (r + (w - j) - n);
      ModUnique(w, n, q + 1, r + (w - j) - n);
    }
  }

  // ---------------------------------------------------------------- rm-toks

  /** The number of non-blank tokens among the first `i`. */
  function NonBlankCount(ts: seq<Token>, i: nat): nat
    requires i <= |ts|
  {
    if i == 0 then 0 else NonBlankCount(ts, i - 1) + (if Blank(ts[i - 1]) then 0 else 1)
  }

  /** The non-blank tokens, in order. */
  function NonBlank(ts: seq<Token>): (r: seq<Token>)
    ensures |r| == NonBlankCount(ts, |ts|)
  {
    if |ts| == 0 then []
    else
      var pre := ts[..|ts| - 1];
      NonBlankCountPrefix(ts, |ts| - 1);
      NonBlank(pre) + (if Blank(ts[|ts| - 1]) then [] else [ts[|ts| - 1]])
  }

  lemma {:induction false} NonBlankCountPrefix(ts: seq<Token>, i: nat)
    requires i <= |ts|
    ensures NonBlankCount(ts[..i], i) == NonBlankCount(ts, i)
    decreases i
  {
    if i > 0 {
      NonBlankCountPrefix(ts, i - 1);
      assert ts[..i][..i - 1] == ts[..i - 1];
      NonBlankCountPrefix(ts[..i], i - 1);
    }
  }

  /** Whether `rm_toks` prints token `i`: the non-blank count through it says where it lies. */
  predicate Printed(ts: seq<Token>, i: nat, idx: int, n: int)
    requires i < |ts|
  {
    var w := NonBlankCount(ts, i + 1);
    !(0 <= idx < w) || w > idx + n
  }

  /** The text `rm_toks` prints for the first `i` tokens. */
  function RmToksOutput(ts: seq<Token>, i: nat, idx: int, n: int): string
    requires i <= |ts|
  {
    if i == 0 then ""
    else RmToksOutput(ts, i - 1, idx, n) + (if Printed(ts, i - 1, idx, n) then ts[i - 1].str else "")
  }

  /** All token texts concatenated. */
  function Concat(ts: seq<Token>): string
  {
    if |ts| == 0 then "" else Concat(ts[..|ts| - 1]) + ts[|ts| - 1].str
  }

  lemma {:induction false} NonBlankCountMonotone(ts: seq<Token>, i: nat, j: nat)
    requires i <= j <= |ts|
    ensures NonBlankCount(ts, i) <= NonBlankCount(ts, j)
  {
    if i < j {
      NonBlankCountMonotone(ts, i, j - 1);
    }
  }

  /**
   * Where the `k`-th non-blank token stands (or `|ts|` if there are not that
   * many): the tokens before `Locate(k)` hold at most `k` non-blank tokens
   * and every later one is counted past `k`.
   */
  predicate Locates(ts: seq<Token>, k: int, a: nat)
  {
    a <= |ts| && forall i :: 0 < i <= |ts| ==> (i <= a <==> NonBlankCount(ts, i) <= k)
  }

  lemma LocatesOrdered(ts: seq<Token>, idx: int, n: int, a: nat, b: nat)
    requires n > 0 && Locates(ts, idx, a) && Locates(ts, idx + n, b)
    ensures a <= b
  {
    if a > 0 {
      assert NonBlankCount(ts, a) <= idx;
    }
  }

  /** Before the window every token is printed. */
  lemma {:induction false} RmToksBefore(ts: seq<Token>, idx: int, n: int, a: nat, i: nat)
    requires Locates(ts, idx, a) && i <= a
    ensures RmToksOutput(ts, i, idx, n) == Concat(ts[..i])
  {
    if i > 0 {
      RmToksBefore(ts, idx, n, a, i - 1);
      assert NonBlankCount(ts, i) <= idx;
      assert ts[..i][..i - 1] == ts[..i - 1];
    }
  }

  /** Inside the window nothing is printed. */
  lemma {:induction false} RmToksInside(ts: seq<Token>, idx: int, n: int, a: nat, b: nat, i: nat)
    requires idx >= 0 && Locates(ts, idx, a) && Locates(ts, idx + n, b) && a <= i <= b
    ensures RmToksOutput(ts, i, idx, n) == Concat(ts[..a])
  {
    if i == a {
      RmToksBefore(ts, idx, n, a, a);
    } else {
      RmToksInside(ts, idx, n, a, b, i - 1);
      assert idx < NonBlankCount(ts, i) <= idx + n;
    }
  }

  /** After the window every token is printed again. */
  lemma {:induction false} RmToksAfter(ts: seq<Token>, idx: int, n: int, a: nat, b: nat, i: nat)
    requires idx >= 0 && Locates(ts, idx, a) && Locates(ts, idx + n, b) && a <= b <= i <= |ts|
    ensures RmToksOutput(ts, i, idx, n) == Concat(ts[..a]) + Concat(ts[b..i])
  {
    if i == b {
      RmToksInside(ts, idx, n, a, b, b);
      assert ts[b..i] == [];
    } else {
      RmToksAfter(ts, idx, n, a, b, i - 1);
      PastLocation(ts, idx + n, b, i);
      ConcatSnoc(ts, b, i);
    }
  }

  lemma ConcatSnoc(ts: seq<Token>, b: nat, i: nat)
    requires b < i <= |ts|
    ensures Concat(ts[b..i]) == Concat(ts[b..i - 1]) + ts[i - 1].str
  {
    assert ts[b..i][..i - 1 - b] == ts[b..i - 1];
  }

  lemma PastLocation(ts: seq<Token>, k: int, b: nat, i: nat)
    requires Locates(ts, k, b) && b < i <= |ts|
    ensures NonBlankCount(ts, i) > k
  {
  }

  /** `rm_toks` removes exactly the tokens from position `a` up to position `b`. */
  lemma RmToksRemovesWindow(ts: seq<Token>, idx: int, n: int, a: nat, b: nat)
    requires idx >= 0 && n > 0 && Locates(ts, idx, a) && Locates(ts, idx + n, b)
    ensures a <= b && RmToksOutput(ts, |ts|, idx, n) == Concat(ts[..a]) + Concat(ts[b..])
  {
    LocatesOrdered(ts, idx, n, a, b);
    RmToksAfter(ts, idx, n, a, b, |ts|);
    assert ts[b..|ts|] == ts[b..];
  }

  /** With no valid starting token, nothing is removed. */
  lemma {:induction false} RmToksNothing(ts: seq<Token>, i: nat, idx: int, n: int)
    requires i <= |ts| && n > 0 && (idx < 0 || idx >= NonBlankCount(ts, |ts|))
    ensures RmToksOutput(ts, i, idx, n) == Concat(ts[..i])
  {
    if i > 0 {
      RmToksNothing(ts, i - 1, idx, n);
      assert ts[..i][..i - 1] == ts[..i - 1];
      NonBlankCountMonotone(ts, i, |ts|);
    }
  }
}
