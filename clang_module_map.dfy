/**
 * The module map pass of `cvise/passes/clangmodulemap.py`: a line-based
 * reader of Clang module map files that recognises module declarations,
 * `header` and `use` declarations and closing braces, keeping a stack of
 * the modules still open, and the hints it derives from the resulting
 * module tree. The regular expressions of the pass are written out as
 * predicates over bytes; `\s` is ASCII whitespace, `\b` is the edge of an
 * ASCII word and `.` is any byte but a newline.
 */
module ClangModuleMap {
  import opened Common
  import opened ByteLines
  import opened HintModel

  /** The pass's fixed vocabulary, in index order. */
  const VOCAB: seq<string> := ["@fileref", "make-header-non-modular", "delete-use-decl",
                               "delete-empty-submodule", "inline-submodule-contents", "delete-line"]
  const FILEREF_TYPE: nat := 0
  const MAKE_HEADER_NON_MODULAR_TYPE: nat := 1
  const DELETE_USE_DECL_TYPE: nat := 2
  const DELETE_EMPTY_SUBMODULE_TYPE: nat := 3
  const INLINE_SUBMODULE_CONTENTS_TYPE: nat := 4
  const DELETE_LINE_TYPE: nat := 5

  const DOUBLE_QUOTE: Byte := 34
  const CLOSE_BRACE: Byte := 125
  const OPEN_BRACE: Byte := 123

  /** A half-open byte range `[begin, end)` of the module map file. */
  datatype SourceLoc = SourceLoc(begin: nat, end: nat)

  datatype HeaderDecl = HeaderDecl(loc: SourceLoc, filePath: Bytes)

  datatype UseDecl = UseDecl(loc: SourceLoc)

  /**
   * A module: `loc` runs from its title line to its closing-brace line,
   * `titleLoc` is the title line, and `closeBraceLoc` is the closing-brace
   * line, or the title line while no closing brace has been seen.
   */
  datatype ModuleDecl = ModuleDecl(loc: SourceLoc, titleLoc: SourceLoc, closeBraceLoc: SourceLoc,
                                   headers: seq<HeaderDecl>, uses: seq<UseDecl>, submodules: seq<ModuleDecl>)

  datatype ModuleMapFile = ModuleMapFile(modules: seq<ModuleDecl>, unclassifiedLines: seq<SourceLoc>)

  // The line patterns.

  predicate IsWordByte(b: Byte)
  {
    48 <= b <= 57 || 65 <= b <= 90 || 97 <= b <= 122 || b == 95
  }

  predicate NoNewlineIn(v: Bytes, a: nat, b: nat)
    requires a <= b <= |v|
  {
    forall k :: a <= k < b ==> v[k] != NEWLINE
  }

  predicate AllSpaces(v: Bytes, a: nat, b: nat)
    requires a <= b <= |v|
  {
    forall k :: a <= k < b ==> IsAsciiSpace(v[k])
  }

  /** `.*\bw` matches `v[..i + |w|]`: the keyword `w` starts at `i`, after no newline and no word byte. */
  predicate KeywordAt(v: Bytes, i: nat, w: string)
  {
    i + |w| <= |v| && NoNewlineIn(v, 0, i) && (forall k :: 0 <= k < |w| ==> v[i + k] == w[k] as int)
    && (i == 0 || !IsWordByte(v[i - 1]))
  }

  /**
   * `.*\bmodule\s+(\S+).*{\s*` matches the start of `line` with the keyword
   * at `i`: whitespace, a non-whitespace byte at `j`, and a `{` later on the
   * same line.
   */
  predicate ModuleAt(line: Bytes, i: nat)
  {
    KeywordAt(line, i, "module")
    && exists j, p :: i + 6 < j < p < |line| && AllSpaces(line, i + 6, j) && !IsAsciiSpace(line[j])
                      && NoNewlineIn(line, j + 1, p) && line[p] == OPEN_BRACE
  }

  predicate IsModuleDecl(line: Bytes)
  {
    exists i :: 0 <= i < |line| && ModuleAt(line, i)
  }

  /** `.*\buse\s+(\S+).*` matches the start of `line` with the keyword at `i`. */
  predicate UseAt(line: Bytes, i: nat)
  {
    KeywordAt(line, i, "use")
    && exists j :: i + 3 < j < |line| && AllSpaces(line, i + 3, j) && !IsAsciiSpace(line[j])
  }

  predicate IsUseDecl(line: Bytes)
  {
    exists i :: 0 <= i < |line| && UseAt(line, i)
  }

  /** `line.strip() == b'}'`: a closing brace with nothing but whitespace around it. */
  predicate IsCloseBrace(line: Bytes)
  {
    exists p :: 0 <= p < |line| && line[p] == CLOSE_BRACE
                && forall k :: 0 <= k < |line| && k != p ==> IsAsciiSpace(line[k])
  }

  /**
   * `.*\bheader\s+"([^\s"]+)".*` matches the start of `line` with the keyword
   * at `i`, the opening quote at `j` and the closing quote at `e`.
   */
  predicate HeaderAt(line: Bytes, i: nat, j: nat, e: nat)
  {
    KeywordAt(line, i, "header") && i + 6 < j && j + 1 < e < |line|
    && AllSpaces(line, i + 6, j) && line[j] == DOUBLE_QUOTE
    && (forall k :: j < k < e ==> !IsAsciiSpace(line[k]) && line[k] != DOUBLE_QUOTE)
    && line[e] == DOUBLE_QUOTE
  }

  /** The first position at or after `i` holding whitespace or a double quote. */
  function SkipPathBytes(v: Bytes, i: nat): (j: nat)
    requires i <= |v|
    ensures i <= j <= |v|
    ensures forall k :: i <= k < j ==> !IsAsciiSpace(v[k]) && v[k] != DOUBLE_QUOTE
    ensures j < |v| ==> IsAsciiSpace(v[j]) || v[j] == DOUBLE_QUOTE
    decreases |v| - i
  {
    if i == |v| || IsAsciiSpace(v[i]) || v[i] == DOUBLE_QUOTE then i else SkipPathBytes(v, i + 1)
  }

  /** The quoted path of a header declaration whose keyword is at `i`, if the pattern matches there. */
  function HeaderPathAt(line: Bytes, i: nat): Option<Bytes>
  {
    if KeywordAt(line, i, "header") then
      var j := SkipSpaces(line, i + 6);
      if j > i + 6 && j < |line| && line[j] == DOUBLE_QUOTE then
        var e := SkipPathBytes(line, j + 1);
        if e > j + 1 && e < |line| && line[e] == DOUBLE_QUOTE then
          Some(line[j + 1..e])
        else None
      else None
    else None
  }

  /** The header pattern matches with the keyword at `i` exactly when `HeaderPathAt` finds a path, and the path is the group. */
  lemma HeaderPathAtSpec(line: Bytes, i: nat)
    ensures HeaderPathAt(line, i).Some? <==> exists j: nat, e: nat :: HeaderAt(line, i, j, e)
    ensures forall j: nat, e: nat :: HeaderAt(line, i, j, e) ==> HeaderPathAt(line, i) == Some(line[j + 1..e])
  {
    if HeaderPathAt(line, i).Some? {
      var j := SkipSpaces(line, i + 6);
      var e := SkipPathBytes(line, j + 1);
      assert HeaderAt(line, i, j, e);
    }
    forall j: nat, e: nat | HeaderAt(line, i, j, e)
      ensures HeaderPathAt(line, i) == Some(line[j + 1..e])
    {
      assert SkipSpaces(line, i + 6) == j;
      assert SkipPathBytes(line, j + 1) == e;
    }
  }

  /** No keyword position after `i` and before `n` matches the header pattern. */
  predicate LastMatch(line: Bytes, i: nat, n: nat)
  {
    forall i': nat :: i < i' < n ==> HeaderPathAt(line, i').None?
  }

  /**
   * The group of the header pattern: the greedy leading `.*` makes the
   * match with the keyword furthest right win. Positions from `n` on are
   * not considered.
   */
  function LastHeaderPath(line: Bytes, n: nat): (r: Option<Bytes>)
    requires n <= |line|
    ensures r.None? ==> forall i: nat :: i < n ==> HeaderPathAt(line, i).None?
    ensures r.Some? ==> exists i: nat :: i < n && HeaderPathAt(line, i) == r && LastMatch(line, i, n)
  {
    if n == 0 then None
    else if HeaderPathAt(line, n - 1).Some? then
      assert LastMatch(line, n - 1, n);
      HeaderPathAt(line, n - 1)
    else
      var r := LastHeaderPath(line, n - 1);
      if r.Some? then
        var i: nat :| i < n - 1 && HeaderPathAt(line, i) == r && LastMatch(line, i, n - 1);
        assert LastMatch(line, i, n);
        r
      else r
  }

  function HeaderPath(line: Bytes): Option<Bytes>
  {
    LastHeaderPath(line, |line|)
  }

  // The reader.

  /** What a line is, given whether a module is open; a module declaration is recognised first. */
  datatype LineKind = ModuleLine | HeaderLine(path: Bytes) | UseLine | CloseLine | OtherLine

  function KindOf(line: Bytes, open: bool): (k: LineKind)
    ensures !open ==> k == ModuleLine || k == OtherLine
    ensures k == ModuleLine <==> IsModuleDecl(line)
    ensures k.HeaderLine? ==> !IsModuleDecl(line) && HeaderPath(line) == Some(k.path)
    ensures k == CloseLine ==> IsCloseBrace(line) && !IsModuleDecl(line)
    ensures k == OtherLine ==> !IsModuleDecl(line) && (open ==> HeaderPath(line).None? && !IsUseDecl(line) && !IsCloseBrace(line))
  {
    if IsModuleDecl(line) then ModuleLine
    else if open && HeaderPath(line).Some? then HeaderLine(HeaderPath(line).value)
    else if open && IsUseDecl(line) then UseLine
    else if open && IsCloseBrace(line) then CloseLine
    else OtherLine
  }

  /**
   * The reader's state: the finished top-level modules, the unclassified
   * lines, the stack of open modules (each holding its finished
   * submodules) and the position of the next line.
   */
  datatype Parser = Parser(modules: seq<ModuleDecl>, unclassifiedLines: seq<SourceLoc>, stack: seq<ModuleDecl>, filePos: nat)

  const START: Parser := Parser([], [], [], 0)

  /** Every open module extended to end at `end`. */
  function ExtendOpen(stack: seq<ModuleDecl>, end: nat): (r: seq<ModuleDecl>)
    ensures |r| == |stack|
  {
    if |stack| == 0 then []
    else
      var m := stack[|stack| - 1];
      ExtendOpen(stack[..|stack| - 1], end) + [m.(loc := SourceLoc(m.loc.begin, end))]
  }

  /** The innermost open module replaced by `m`. */
  function WithTop(stack: seq<ModuleDecl>, m: ModuleDecl): seq<ModuleDecl>
    requires |stack| > 0
  {
    stack[..|stack| - 1] + [m]
  }

  /** Pops the innermost open module and appends it to the submodules of its parent, or to the file's modules. */
  function PopModule(p: Parser): (r: Parser)
    requires |p.stack| > 0
    ensures |r.stack| == |p.stack| - 1
  {
    var m := p.stack[|p.stack| - 1];
    var rest := p.stack[..|p.stack| - 1];
    if |rest| == 0 then p.(modules := p.modules + [m], stack := [])
    else
      var parent := rest[|rest| - 1];
      p.(stack := WithTop(rest, parent.(submodules := parent.submodules + [m])))
  }

  /** One iteration of the loop over the lines. */
  function Step(p: Parser, line: Bytes): (r: Parser)
    ensures r.filePos == p.filePos + |line|
  {
    var loc := SourceLoc(p.filePos, p.filePos + |line|);
    var stack := ExtendOpen(p.stack, loc.end);
    var q := p.(stack := stack, filePos := loc.end);
    match KindOf(line, |p.stack| > 0)
    case ModuleLine => q.(stack := stack + [ModuleDecl(loc, loc, loc, [], [], [])])
    case HeaderLine(path) =>
      var top := stack[|stack| - 1];
      q.(stack := WithTop(stack, top.(headers := top.headers + [HeaderDecl(loc, path)])))
    case UseLine =>
      var top := stack[|stack| - 1];
      q.(stack := WithTop(stack, top.(uses := top.uses + [UseDecl(loc)])))
    case CloseLine =>
      var top := stack[|stack| - 1];
      PopModule(q.(stack := WithTop(stack, top.(closeBraceLoc := loc))))
    case OtherLine => q.(unclassifiedLines := p.unclassifiedLines + [loc])
  }

  function ParseLines(lines: seq<Bytes>): Parser
  {
    if |lines| == 0 then START else Step(ParseLines(lines[..|lines| - 1]), lines[|lines| - 1])
  }

  /** The modules still open at the end of the file, each appended to its parent. */
  function Finish(p: Parser): ModuleMapFile
    decreases |p.stack|
  {
    if |p.stack| == 0 then ModuleMapFile(p.modules, p.unclassifiedLines) else Finish(PopModule(p))
  }

  /** The module map file `_parse_file` reads from `contents`. */
  function ParseModuleMap(contents: Bytes): ModuleMapFile
  {
    Finish(ParseLines(ReadLines(contents)))
  }

  /** The loop extending every open module to the end of the current line. */
  method ExtendOpenModules(stackIn: seq<ModuleDecl>, end: nat) returns (stack: seq<ModuleDecl>)
    ensures stack == ExtendOpen(stackIn, end)
  {
    stack := [];
    for k := 0 to |stackIn|
      invariant stack == ExtendOpen(stackIn[..k], end)
    {
      assert stackIn[..k + 1][..k] == stackIn[..k];
      var ancestor := stackIn[k];
      stack := stack + [ancestor.(loc := SourceLoc(ancestor.loc.begin, end))];
    }
    assert stackIn[..|stackIn|] == stackIn;
  }

  /** The body of the loop over the lines: the reader's state after `line`. */
  method ParseLine(p: Parser, line: Bytes) returns (q: Parser)
    ensures q == Step(p, line)
  {
    var modules, unclassifiedLines, stack := p.modules, p.unclassifiedLines, p.stack;
    var loc := SourceLoc(p.filePos, p.filePos + |line|);
    var filePos := loc.end;
    var open := |stack| > 0;
    stack := ExtendOpenModules(stack, loc.end);
    var kind := KindOf(line, open);
    if kind == ModuleLine {
      stack := stack + [ModuleDecl(loc, loc, loc, [], [], [])];
    } else if kind.HeaderLine? {
      var top := stack[|stack| - 1];
      stack := stack[..|stack| - 1] + [top.(headers := top.headers + [HeaderDecl(loc, kind.path)])];
    } else if kind == UseLine {
      var top := stack[|stack| - 1];
      stack := stack[..|stack| - 1] + [top.(uses := top.uses + [UseDecl(loc)])];
    } else if kind == CloseLine {
      var top := stack[|stack| - 1];
      var closed := top.(closeBraceLoc := loc);
      stack := stack[..|stack| - 1];
      if |stack| == 0 {
        modules := modules + [closed];
      } else {
        var parent := stack[|stack| - 1];
        stack := stack[..|stack| - 1] + [parent.(submodules := parent.submodules + [closed])];
      }
    } else {
      unclassifiedLines := unclassifiedLines + [loc];
    }
    q := Parser(modules, unclassifiedLines, stack, filePos);
  }

  /**
   * `_parse_file` on the file's bytes. The modules still open at the end
   * are appended to their parents once the lines are read.
   */
  method ParseFile(contents: Bytes) returns (file: ModuleMapFile)
    ensures file == ParseModuleMap(contents)
  {
    var lines := ReadLines(contents);
    var p := START;
    for i := 0 to |lines|
      invariant p == ParseLines(lines[..i])
    {
      assert lines[..i + 1][..i] == lines[..i];
      p := ParseLine(p, lines[i]);
    }
    assert lines[..|lines|] == lines;
    while |p.stack| > 0
      invariant Finish(p) == ParseModuleMap(contents)
      decreases |p.stack|
    {
      p := PopModule(p);
    }
    file := ModuleMapFile(p.modules, p.unclassifiedLines);
  }

  // What the reader guarantees about the module tree.

  ghost predicate Within(l: SourceLoc, lo: int, hi: int)
  {
    lo <= l.begin <= l.end <= hi
  }

  ghost predicate InOrder(ms: seq<ModuleDecl>)
  {
    forall i, j :: 0 <= i < j < |ms| ==> ms[i].loc.end <= ms[j].loc.begin
  }

  /** The headers, uses and submodules of `m` lie in `[lo, hi)`, the submodules one after another. */
  ghost predicate ContentsIn(m: ModuleDecl, lo: int, hi: int)
  {
    (forall h :: h in m.headers ==> Within(h.loc, lo, hi))
    && (forall u :: u in m.uses ==> Within(u.loc, lo, hi))
    && (forall k :: 0 <= k < |m.submodules| ==> Within(m.submodules[k].loc, lo, hi))
    && InOrder(m.submodules)
  }

  /** A module has seen its closing brace when that is no longer its title line. */
  predicate IsClosed(m: ModuleDecl)
  {
    m.closeBraceLoc != m.titleLoc
  }

  /**
   * A well-formed module: it starts with its title line and, once closed,
   * ends with its closing-brace line; everything in it lies between the
   * two (or after the title up to its end while it is open), and so on
   * for each submodule.
   */
  ghost predicate Nested(m: ModuleDecl)
    decreases m
  {
    m.loc.begin == m.titleLoc.begin && m.titleLoc.begin < m.titleLoc.end <= m.loc.end
    && (IsClosed(m) ==> m.titleLoc.end <= m.closeBraceLoc.begin < m.closeBraceLoc.end == m.loc.end)
    && ContentsIn(m, m.titleLoc.end, if IsClosed(m) then m.closeBraceLoc.begin else m.loc.end)
    && forall k :: 0 <= k < |m.submodules| ==> Nested(m.submodules[k])
  }

  /** An open module on the stack while the reader is at `pos`. */
  ghost predicate OpenAt(m: ModuleDecl, pos: int)
  {
    m.loc.begin == m.titleLoc.begin && m.titleLoc.begin < m.titleLoc.end <= pos && m.loc.end == pos
    && !IsClosed(m) && ContentsIn(m, m.titleLoc.end, pos)
    && forall k :: 0 <= k < |m.submodules| ==> Nested(m.submodules[k])
  }

  /**
   * The reader's invariant: the open modules end at the current position,
   * and each one's finished contents come before the title of every module
   * opened inside it; the finished top-level modules are well formed, in
   * order, and before every open module.
   */
  ghost predicate StackOpen(stack: seq<ModuleDecl>, pos: int)
  {
    forall k :: 0 <= k < |stack| ==> OpenAt(stack[k], pos)
  }

  /** Each open module's finished contents come before the title of every module opened inside it. */
  ghost predicate StackNested(stack: seq<ModuleDecl>)
  {
    forall i, j :: 0 <= i < j < |stack| ==>
      stack[i].titleLoc.end <= stack[j].titleLoc.begin
      && ContentsIn(stack[i], stack[i].titleLoc.end, stack[j].titleLoc.begin)
  }

  ghost predicate Good(p: Parser)
  {
    StackOpen(p.stack, p.filePos)
    && StackNested(p.stack)
    && (forall k :: 0 <= k < |p.modules| ==> Nested(p.modules[k]) && Within(p.modules[k].loc, 0, p.filePos))
    && (forall k, j :: 0 <= k < |p.modules| && 0 <= j < |p.stack| ==> p.modules[k].loc.end <= p.stack[j].titleLoc.begin)
    && InOrder(p.modules)
    && (forall l :: l in p.unclassifiedLines ==> Within(l, 0, p.filePos))
  }

  lemma ContentsInWiden(m: ModuleDecl, lo: int, hi: int, hi': int)
    requires ContentsIn(m, lo, hi) && hi <= hi'
    ensures ContentsIn(m, lo, hi')
  {
  }

  lemma ExtendOpenGood(p: Parser, end: nat)
    requires Good(p) && p.filePos <= end
    ensures Good(p.(stack := ExtendOpen(p.stack, end), filePos := end))
  {
    ExtendStackOpen(p.stack, p.filePos, end);
    ExtendStackNested(p.stack, end);
    ExtendOpenSpec(p.stack, end);
  }

  lemma ExtendStackOpen(stack: seq<ModuleDecl>, pos: int, end: nat)
    requires StackOpen(stack, pos) && pos <= end
    ensures StackOpen(ExtendOpen(stack, end), end)
  {
    var stack' := ExtendOpen(stack, end);
    ExtendOpenSpec(stack, end);
    forall k | 0 <= k < |stack'|
      ensures OpenAt(stack'[k], end)
    {
      assert OpenAt(stack[k], pos);
      ContentsInWiden(stack[k], stack[k].titleLoc.end, pos, end);
      ContentsInLoc(stack[k], stack'[k], stack[k].titleLoc.end, end);
    }
  }

  lemma ExtendStackNested(stack: seq<ModuleDecl>, end: nat)
    requires StackNested(stack)
    ensures StackNested(ExtendOpen(stack, end))
  {
    var stack' := ExtendOpen(stack, end);
    ExtendOpenSpec(stack, end);
    forall i, j | 0 <= i < j < |stack'|
      ensures stack'[i].titleLoc.end <= stack'[j].titleLoc.begin
      ensures ContentsIn(stack'[i], stack'[i].titleLoc.end, stack'[j].titleLoc.begin)
    {
      ContentsInLoc(stack[i], stack'[i], stack[i].titleLoc.end, stack[j].titleLoc.begin);
    }
  }

  /** Where a module's contents lie does not depend on its own extent. */
  lemma ContentsInLoc(m: ModuleDecl, m': ModuleDecl, lo: int, hi: int)
    requires ContentsIn(m, lo, hi)
    requires m'.headers == m.headers && m'.uses == m.uses && m'.submodules == m.submodules
    ensures ContentsIn(m', lo, hi)
  {
  }

  lemma {:induction false} ExtendOpenSpec(stack: seq<ModuleDecl>, end: nat)
    ensures forall k :: 0 <= k < |stack| ==> ExtendOpen(stack, end)[k] == stack[k].(loc := SourceLoc(stack[k].loc.begin, end))
  {
    if |stack| > 0 {
      ExtendOpenSpec(stack[..|stack| - 1], end);
    }
  }

  /** Appending a well-formed `m` that starts after a parent's finished contents keeps the parent open at `pos`. */
  lemma AttachOpen(parent: ModuleDecl, m: ModuleDecl, pos: int)
    requires OpenAt(parent, pos) && Nested(m) && m.loc.end == pos
    requires parent.titleLoc.end <= m.loc.begin && ContentsIn(parent, parent.titleLoc.end, m.loc.begin)
    ensures OpenAt(parent.(submodules := parent.submodules + [m]), pos)
  {
    var parent' := parent.(submodules := parent.submodules + [m]);
    forall k | 0 <= k < |parent'.submodules|
      ensures Within(parent'.submodules[k].loc, parent.titleLoc.end, pos) && Nested(parent'.submodules[k])
    {
      if k < |parent.submodules| {
        assert parent'.submodules[k] == parent.submodules[k];
      }
    }
    forall i, j | 0 <= i < j < |parent'.submodules|
      ensures parent'.submodules[i].loc.end <= parent'.submodules[j].loc.begin
    {
      assert parent'.submodules[i] == parent.submodules[i];
    }
  }

  /** Popping the only open module makes it the last top-level module. */
  lemma PopLastGood(p: Parser, m: ModuleDecl)
    requires Good(p) && |p.stack| == 1
    requires Nested(m) && m.loc.end == p.filePos && m.loc.begin == p.stack[0].titleLoc.begin
    ensures Good(p.(modules := p.modules + [m], stack := []))
  {
    var r := p.(modules := p.modules + [m], stack := []);
    forall k | 0 <= k < |r.modules|
      ensures Nested(r.modules[k]) && Within(r.modules[k].loc, 0, r.filePos)
    {
      if k < |p.modules| {
        assert r.modules[k] == p.modules[k];
      }
    }
    forall i, j | 0 <= i < j < |r.modules|
      ensures r.modules[i].loc.end <= r.modules[j].loc.begin
    {
      assert r.modules[i] == p.modules[i];
    }
  }

  /** Popping an inner open module makes it the last submodule of the module around it. */
  lemma PopInnerGood(p: Parser, m: ModuleDecl)
    requires Good(p) && |p.stack| > 1
    requires Nested(m) && m.loc.end == p.filePos && m.loc.begin == p.stack[|p.stack| - 1].titleLoc.begin
    ensures
      var n := |p.stack| - 1;
      var parent := p.stack[n - 1];
      Good(p.(stack := p.stack[..n - 1] + [parent.(submodules := parent.submodules + [m])]))
  {
    var n := |p.stack| - 1;
    var parent := p.stack[n - 1];
    var r := p.(stack := p.stack[..n - 1] + [parent.(submodules := parent.submodules + [m])]);
    AttachOpen(parent, m, p.filePos);
    forall k | 0 <= k < |r.stack|
      ensures OpenAt(r.stack[k], r.filePos)
    {
      if k < n - 1 {
        assert r.stack[k] == p.stack[k];
      }
    }
    forall i, j | 0 <= i < j < |r.stack|
      ensures r.stack[i].titleLoc.end <= r.stack[j].titleLoc.begin
      ensures ContentsIn(r.stack[i], r.stack[i].titleLoc.end, r.stack[j].titleLoc.begin)
    {
      assert r.stack[i] == p.stack[i];
      assert r.stack[j].titleLoc == p.stack[j].titleLoc;
    }
    forall k, j | 0 <= k < |r.modules| && 0 <= j < |r.stack|
      ensures r.modules[k].loc.end <= r.stack[j].titleLoc.begin
    {
      assert r.stack[j].titleLoc == p.stack[j].titleLoc;
    }
  }

  /**
   * Replacing the innermost open module by a well-formed `m` with the same
   * title and start that ends at the current position, and then popping
   * it, keeps the invariant.
   */
  lemma PopModuleGood(p: Parser, m: ModuleDecl)
    requires Good(p) && |p.stack| > 0
    requires Nested(m) && m.loc.end == p.filePos
    requires m.titleLoc == p.stack[|p.stack| - 1].titleLoc && m.loc.begin == p.stack[|p.stack| - 1].loc.begin
    ensures Good(PopModule(p.(stack := WithTop(p.stack, m))))
  {
    PopShape(p, m);
    if |p.stack| == 1 {
      PopLastGood(p, m);
    } else {
      PopInnerGood(p, m);
    }
  }

  /** Popping a replaced innermost module: to the finished modules, or into its parent. */
  lemma PopShape(p: Parser, m: ModuleDecl)
    requires |p.stack| > 0
    ensures
      var n := |p.stack| - 1;
      var r := PopModule(p.(stack := WithTop(p.stack, m)));
      (n == 0 ==> r == p.(modules := p.modules + [m], stack := []))
      && (n > 0 ==>
            var parent := p.stack[n - 1];
            r == p.(stack := p.stack[..n - 1] + [parent.(submodules := parent.submodules + [m])]))
  {
    var n := |p.stack| - 1;
    var stack := WithTop(p.stack, m);
    assert stack[..n] == p.stack[..n];
  }

  /** Replacing the innermost open module by another with the same title that is also open keeps the invariant. */
  lemma ReplaceTopGood(q: Parser, t: ModuleDecl)
    requires Good(q) && |q.stack| > 0
    requires OpenAt(t, q.filePos) && t.titleLoc == q.stack[|q.stack| - 1].titleLoc
    ensures Good(q.(stack := WithTop(q.stack, t)))
  {
    var n := |q.stack| - 1;
    var r := q.(stack := WithTop(q.stack, t));
    forall k | 0 <= k < |r.stack|
      ensures OpenAt(r.stack[k], r.filePos)
    {
      if k < n {
        assert r.stack[k] == q.stack[k];
      }
    }
    forall i, j | 0 <= i < j < |r.stack|
      ensures r.stack[i].titleLoc.end <= r.stack[j].titleLoc.begin
      ensures ContentsIn(r.stack[i], r.stack[i].titleLoc.end, r.stack[j].titleLoc.begin)
    {
      assert r.stack[i] == q.stack[i];
      assert r.stack[j].titleLoc == q.stack[j].titleLoc;
    }
    forall k, j | 0 <= k < |r.modules| && 0 <= j < |r.stack|
      ensures r.modules[k].loc.end <= r.stack[j].titleLoc.begin
    {
      assert r.stack[j].titleLoc == q.stack[j].titleLoc;
    }
  }

  lemma AddHeaderGood(q: Parser, h: HeaderDecl)
    requires Good(q) && |q.stack| > 0
    requires Within(h.loc, q.stack[|q.stack| - 1].titleLoc.end, q.filePos)
    ensures
      var top := q.stack[|q.stack| - 1];
      Good(q.(stack := WithTop(q.stack, top.(headers := top.headers + [h]))))
  {
    var top := q.stack[|q.stack| - 1];
    var t := top.(headers := top.headers + [h]);
    assert OpenAt(top, q.filePos);
    assert OpenAt(t, q.filePos);
    ReplaceTopGood(q, t);
  }

  lemma AddUseGood(q: Parser, u: UseDecl)
    requires Good(q) && |q.stack| > 0
    requires Within(u.loc, q.stack[|q.stack| - 1].titleLoc.end, q.filePos)
    ensures
      var top := q.stack[|q.stack| - 1];
      Good(q.(stack := WithTop(q.stack, top.(uses := top.uses + [u]))))
  {
    var top := q.stack[|q.stack| - 1];
    var t := top.(uses := top.uses + [u]);
    assert OpenAt(top, q.filePos);
    assert OpenAt(t, q.filePos);
    ReplaceTopGood(q, t);
  }

  /** Closing the innermost open module at the line `loc`, which follows its contents, keeps the invariant. */
  lemma CloseModuleGood(q: Parser, loc: SourceLoc)
    requires Good(q) && |q.stack| > 0
    requires loc.end == q.filePos && q.stack[|q.stack| - 1].titleLoc.end <= loc.begin < loc.end
    requires ContentsIn(q.stack[|q.stack| - 1], q.stack[|q.stack| - 1].titleLoc.end, loc.begin)
    ensures
      var top := q.stack[|q.stack| - 1];
      Good(PopModule(q.(stack := WithTop(q.stack, top.(closeBraceLoc := loc)))))
  {
    var top := q.stack[|q.stack| - 1];
    var closed := top.(closeBraceLoc := loc);
    assert OpenAt(top, q.filePos);
    assert Nested(closed);
    PopModuleGood(q, closed);
  }

  /** The reader's state once the open modules have been extended over the line `line`. */
  function Extended(p: Parser, line: Bytes): Parser
  {
    p.(stack := ExtendOpen(p.stack, p.filePos + |line|), filePos := p.filePos + |line|)
  }

  /** Extending the open modules keeps the invariant, and the innermost one still lies before the line. */
  lemma ExtendedGood(p: Parser, line: Bytes)
    requires Good(p)
    ensures Good(Extended(p, line))
    ensures |Extended(p, line).stack| == |p.stack|
    ensures Before(Extended(p, line), p.filePos)
  {
    var end := p.filePos + |line|;
    var q := Extended(p, line);
    ExtendOpenGood(p, end);
    ExtendOpenSpec(p.stack, end);
    forall k | 0 <= k < |q.stack|
      ensures q.stack[k].titleLoc.end <= p.filePos && ContentsIn(q.stack[k], q.stack[k].titleLoc.end, p.filePos)
    {
      assert OpenAt(p.stack[k], p.filePos);
      ContentsInLoc(p.stack[k], q.stack[k], p.stack[k].titleLoc.end, p.filePos);
    }
  }

  /** Everything the reader has finished lies before `pos`. */
  ghost predicate Before(q: Parser, pos: int)
  {
    (forall k :: 0 <= k < |q.stack| ==>
       q.stack[k].titleLoc.end <= pos && ContentsIn(q.stack[k], q.stack[k].titleLoc.end, pos))
    && (forall k :: 0 <= k < |q.modules| ==> q.modules[k].loc.end <= pos)
  }

  /** Opening a module on the line `loc`, after everything finished so far, keeps the invariant. */
  lemma PushModuleGood(q: Parser, loc: SourceLoc)
    requires Good(q) && Before(q, loc.begin) && loc.begin < loc.end == q.filePos
    ensures Good(q.(stack := q.stack + [ModuleDecl(loc, loc, loc, [], [], [])]))
  {
    var m := ModuleDecl(loc, loc, loc, [], [], []);
    var r := q.(stack := q.stack + [m]);
    forall k | 0 <= k < |r.stack|
      ensures OpenAt(r.stack[k], r.filePos)
    {
      if k < |q.stack| {
        assert r.stack[k] == q.stack[k];
      }
    }
    forall i, j | 0 <= i < j < |r.stack|
      ensures r.stack[i].titleLoc.end <= r.stack[j].titleLoc.begin
      ensures ContentsIn(r.stack[i], r.stack[i].titleLoc.end, r.stack[j].titleLoc.begin)
    {
      assert r.stack[i] == q.stack[i];
      if j < |q.stack| {
        assert r.stack[j] == q.stack[j];
      }
    }
    forall k, j | 0 <= k < |r.modules| && 0 <= j < |r.stack|
      ensures r.modules[k].loc.end <= r.stack[j].titleLoc.begin
    {
      if j < |q.stack| {
        assert r.stack[j] == q.stack[j];
      }
    }
  }

  lemma StepModuleGood(p: Parser, line: Bytes)
    requires Good(p) && KindOf(line, |p.stack| > 0) == ModuleLine
    ensures Good(Step(p, line))
  {
    assert |line| > 0;
    ExtendedGood(p, line);
    PushModuleGood(Extended(p, line), SourceLoc(p.filePos, p.filePos + |line|));
    StepShape(p, line);
  }

  /** What one step of the reader does to the extended state, line kind by line kind. */
  lemma StepShape(p: Parser, line: Bytes)
    ensures |Extended(p, line).stack| == |p.stack|
    ensures
      var q := Extended(p, line);
      var loc := SourceLoc(p.filePos, p.filePos + |line|);
      match KindOf(line, |p.stack| > 0)
      case ModuleLine => Step(p, line) == q.(stack := q.stack + [ModuleDecl(loc, loc, loc, [], [], [])])
      case HeaderLine(path) =>
        var top := q.stack[|q.stack| - 1];
        Step(p, line) == q.(stack := WithTop(q.stack, top.(headers := top.headers + [HeaderDecl(loc, path)])))
      case UseLine =>
        var top := q.stack[|q.stack| - 1];
        Step(p, line) == q.(stack := WithTop(q.stack, top.(uses := top.uses + [UseDecl(loc)])))
      case CloseLine =>
        var top := q.stack[|q.stack| - 1];
        Step(p, line) == PopModule(q.(stack := WithTop(q.stack, top.(closeBraceLoc := loc))))
      case OtherLine => Step(p, line) == q.(unclassifiedLines := q.unclassifiedLines + [loc])
  {
    ExtendOpenSpec(p.stack, p.filePos + |line|);
  }

  lemma StepHeaderGood(p: Parser, line: Bytes, path: Bytes)
    requires Good(p) && KindOf(line, |p.stack| > 0) == HeaderLine(path)
    ensures Good(Step(p, line))
  {
    var q := Extended(p, line);
    var top := q.stack[|q.stack| - 1];
    var h := HeaderDecl(SourceLoc(p.filePos, p.filePos + |line|), path);
    ExtendedGood(p, line);
    AddHeaderGood(q, h);
    StepShape(p, line);
  }

  lemma StepUseGood(p: Parser, line: Bytes)
    requires Good(p) && KindOf(line, |p.stack| > 0) == UseLine
    ensures Good(Step(p, line))
  {
    var q := Extended(p, line);
    var top := q.stack[|q.stack| - 1];
    var u := UseDecl(SourceLoc(p.filePos, p.filePos + |line|));
    ExtendedGood(p, line);
    AddUseGood(q, u);
    StepShape(p, line);
  }

  lemma StepCloseGood(p: Parser, line: Bytes)
    requires Good(p) && KindOf(line, |p.stack| > 0) == CloseLine
    ensures Good(Step(p, line))
  {
    var q := Extended(p, line);
    var top := q.stack[|q.stack| - 1];
    var loc := SourceLoc(p.filePos, p.filePos + |line|);
    ExtendedGood(p, line);
    CloseModuleGood(q, loc);
    StepShape(p, line);
  }

  lemma StepOtherGood(p: Parser, line: Bytes)
    requires Good(p) && KindOf(line, |p.stack| > 0) == OtherLine
    ensures Good(Step(p, line))
  {
    var q := Extended(p, line);
    var loc := SourceLoc(p.filePos, p.filePos + |line|);
    ExtendedGood(p, line);
    UnclassifiedGood(q, loc);
    StepShape(p, line);
  }

  lemma UnclassifiedGood(q: Parser, loc: SourceLoc)
    requires Good(q) && Within(loc, 0, q.filePos)
    ensures Good(q.(unclassifiedLines := q.unclassifiedLines + [loc]))
  {
  }

  /** One step of the reader keeps the invariant. */
  lemma StepGood(p: Parser, line: Bytes)
    requires Good(p)
    ensures Good(Step(p, line))
  {
    match KindOf(line, |p.stack| > 0)
    case ModuleLine => StepModuleGood(p, line);
    case HeaderLine(path) => StepHeaderGood(p, line, path);
    case UseLine => StepUseGood(p, line);
    case CloseLine => StepCloseGood(p, line);
    case OtherLine => StepOtherGood(p, line);
  }

  /** After any sequence of lines the reader's state is well formed, at the end of what it has read. */
  lemma {:induction false} ParseLinesGood(lines: seq<Bytes>)
    ensures Good(ParseLines(lines)) && ParseLines(lines).filePos == |Concat(lines)|
  {
    if |lines| > 0 {
      ParseLinesGood(lines[..|lines| - 1]);
      StepGood(ParseLines(lines[..|lines| - 1]), lines[|lines| - 1]);
    }
  }

  /** The file's modules, once every open module is attached, are well formed and in order. */
  lemma {:induction false} FinishGood(p: Parser)
    requires Good(p)
    ensures var file := Finish(p);
      (forall k :: 0 <= k < |file.modules| ==> Nested(file.modules[k]) && Within(file.modules[k].loc, 0, p.filePos))
      && InOrder(file.modules)
      && (forall l :: l in file.unclassifiedLines ==> Within(l, 0, p.filePos))
    decreases |p.stack|
  {
    if |p.stack| > 0 {
      var top := p.stack[|p.stack| - 1];
      assert OpenAt(top, p.filePos);
      assert Nested(top);
      assert WithTop(p.stack, top) == p.stack;
      PopModuleGood(p, top);
      FinishGood(PopModule(p));
    }
  }

  /**
   * Every module `_parse_file` returns starts at its title line, ends at its
   * closing brace (or at the end of the file when it has none), holds its
   * headers, uses and submodules in between, in file order, and lies inside
   * the file, one module after another; so does every unclassified line.
   */
  lemma ParseModuleMapWellFormed(contents: Bytes)
    ensures var file := ParseModuleMap(contents);
      (forall k :: 0 <= k < |file.modules| ==> Nested(file.modules[k]) && Within(file.modules[k].loc, 0, |contents|))
      && InOrder(file.modules)
      && (forall l :: l in file.unclassifiedLines ==> Within(l, 0, |contents|))
  {
    ReadLinesConcat(contents);
    ParseLinesGood(ReadLines(contents));
    FinishGood(ParseLines(ReadLines(contents)));
  }
}
