/**
 * The JSON line format in which the hint generators print hints and
 * vocabularies, together with a parser for exactly that format: every
 * rendered hint parses back to itself.
 */
module HintJson {
  import opened Common

  /** A patch as serialised: `"l"`/`"r"` byte offsets and an optional vocabulary index `"v"`. */
  datatype JPatch = JPatch(l: nat, r: nat, v: Option<nat>)

  /** A hint as serialised: an optional type index `"t"` and its patches `"p"`. */
  datatype JHint = JHint(t: Option<nat>, patches: seq<JPatch>)

  // ---------------------------------------------------------------- numbers

  predicate IsDigit(c: char)
  {
    '0' <= c <= '9'
  }

  function DigitChar(d: nat): (c: char)
    requires d < 10
    ensures IsDigit(c)
  {
    "0123456789"[d]
  }

  function DigitValue(c: char): (d: nat)
    requires IsDigit(c)
    ensures d < 10 && DigitChar(d) == c
  {
    (c as int) - ('0' as int)
  }

  /** Decimal notation of `n` without leading zeros, as `std::ostream` and `llvm::formatv` print it. */
  function Decimal(n: nat): (s: string)
    ensures |s| > 0 && forall i :: 0 <= i < |s| ==> IsDigit(s[i])
    ensures n < 10 <==> |s| == 1
  {
    if n < 10 then [DigitChar(n)] else Decimal(n / 10) + [DigitChar(n % 10)]
  }

  /** The number a string of digits denotes (most significant digit first). */
  function DigitsValue(s: string): nat
    requires forall i :: 0 <= i < |s| ==> IsDigit(s[i])
  {
    if |s| == 0 then 0 else DigitsValue(s[..|s| - 1]) * 10 + DigitValue(s[|s| - 1])
  }

  lemma {:induction false} DecimalValue(n: nat)
    ensures DigitsValue(Decimal(n)) == n
  {
    if n >= 10 {
      var s := Decimal(n);
      assert s[..|s| - 1] == Decimal(n / 10);
      DecimalValue(n / 10);
    }
  }

  /** Length of the longest prefix of `s` made of digits. */
  function DigitRun(s: string): (k: nat)
    ensures k <= |s| && forall i :: 0 <= i < k ==> IsDigit(s[i])
    ensures k < |s| ==> !IsDigit(s[k])
  {
    if |s| > 0 && IsDigit(s[0]) then 1 + DigitRun(s[1..]) else 0
  }

  lemma {:induction false} DigitRunOfDigits(ds: string, rest: string)
    requires forall i :: 0 <= i < |ds| ==> IsDigit(ds[i])
    requires |rest| == 0 || !IsDigit(rest[0])
    ensures DigitRun(ds + rest) == |ds|
  {
    if |ds| > 0 {
      assert (ds + rest)[1..] == ds[1..] + rest;
      DigitRunOfDigits(ds[1..], rest);
    }
  }

  // ---------------------------------------------------------------- joining

  /** Items separated by commas: the `if (!Array.empty()) Array += ","` pattern. */
  function JoinComma(items: seq<string>): string
  {
    if |items| == 0 then ""
    else if |items| == 1 then items[0]
    else items[0] + "," + JoinComma(items[1..])
  }

  lemma {:induction false} JoinCommaSnoc(items: seq<string>, x: string)
    ensures JoinComma(items + [x]) == if |items| == 0 then x else JoinComma(items) + "," + x
  {
    if |items| > 1 {
      assert (items + [x])[1..] == items[1..] + [x];
      JoinCommaSnoc(items[1..], x);
    } else if |items| == 1 {
      assert (items + [x])[1..] == [x];
    }
  }

  // ---------------------------------------------------------------- rendering

  /** The optional `,"v":V` member of a patch. */
  function RenderValue(v: Option<nat>): string
  {
    if v.Some? then ",\"v\":" + Decimal(v.value) else ""
  }

  /** `{"l":L,"r":R}` or `{"l":L,"r":R,"v":V}`. */
  function RenderPatch(p: JPatch): string
  {
    "{\"l\":" + Decimal(p.l) + ",\"r\":" + Decimal(p.r) + RenderValue(p.v) + "}"
  }

  function RenderPatches(ps: seq<JPatch>): (r: seq<string>)
    ensures |r| == |ps| && forall i :: 0 <= i < |ps| ==> r[i] == RenderPatch(ps[i])
  {
    if |ps| == 0 then [] else [RenderPatch(ps[0])] + RenderPatches(ps[1..])
  }

  /** One hint line without its newline: `{"t":T,"p":[...]}`, the `"t"` member only when present. */
  function RenderHint(h: JHint): string
  {
    "{" + (RenderType(h.t) + ("\"p\":[" + (JoinComma(RenderPatches(h.patches)) + "]}")))
  }

  /** The optional `"t":T,` member of a hint. */
  function RenderType(t: Option<nat>): string
  {
    if t.Some? then "\"t\":" + Decimal(t.value) + "," else ""
  }

  function Quote(s: string): string
  {
    "\"" + s + "\""
  }

  function QuoteAll(ss: seq<string>): (r: seq<string>)
    ensures |r| == |ss| && forall i :: 0 <= i < |ss| ==> r[i] == Quote(ss[i])
  {
    if |ss| == 0 then [] else [Quote(ss[0])] + QuoteAll(ss[1..])
  }

  /** The vocabulary line: a JSON array of strings, written without any escaping. */
  function RenderVocab(vocab: seq<string>): string
  {
    "[" + JoinComma(QuoteAll(vocab)) + "]"
  }

  // ---------------------------------------------------------------- parsing

  /** Consumes the literal `lit` at the front of `s`. */
  function Lit(s: string, lit: string): (r: Option<string>)
    ensures r.Some? ==> |r.value| == |s| - |lit|
  {
    if |lit| <= |s| && s[..|lit|] == lit then Some(s[|lit|..]) else None
  }

  /** Consumes a non-empty run of digits. */
  function ParseNat(s: string): (r: Option<(nat, string)>)
    ensures r.Some? ==> |r.value.1| < |s|
  {
    var k := DigitRun(s);
    if k == 0 then None else Some((DigitsValue(s[..k]), s[k..]))
  }

  /** A member name followed by a number, such as `,"r":17`. */
  function ParseField(s: string, name: string): (r: Option<(nat, string)>)
    ensures r.Some? ==> |r.value.1| < |s|
  {
    var s1 :- Lit(s, name);
    ParseNat(s1)
  }

  function ParseValue(s: string): (r: Option<(Option<nat>, string)>)
    ensures r.Some? ==> |r.value.1| <= |s|
  {
    if |s| > 0 && s[0] == ',' then
      var v :- ParseField(s, ",\"v\":");
      Some((Some(v.0), v.1))
    else
      Some((None, s))
  }

  function ParsePatch(s: string): (r: Option<(JPatch, string)>)
    ensures r.Some? ==> |r.value.1| < |s|
  {
    var left :- ParseField(s, "{\"l\":");
    var right :- ParseField(left.1, ",\"r\":");
    var value :- ParseValue(right.1);
    var s1 :- Lit(value.1, "}");
    Some((JPatch(left.0, right.0, value.0), s1))
  }

  /** One or more comma-separated patches. */
  function ParsePatchItems(s: string): (r: Option<(seq<JPatch>, string)>)
    ensures r.Some? ==> |r.value.1| < |s|
    decreases |s|
  {
    var first :- ParsePatch(s);
    if |first.1| > 0 && first.1[0] == ',' then
      var more :- ParsePatchItems(first.1[1..]);
      Some(([first.0] + more.0, more.1))
    else
      Some(([first.0], first.1))
  }

  function ParsePatchList(s: string): Option<(seq<JPatch>, string)>
  {
    if |s| > 0 && s[0] == ']' then Some(([], s)) else ParsePatchItems(s)
  }

  function ParseType(s: string): Option<(Option<nat>, string)>
  {
    if Lit(s, "\"t\":").Some? then
      var t :- ParseField(s, "\"t\":");
      var rest :- Lit(t.1, ",");
      Some((Some(t.0), rest))
    else
      Some((None, s))
  }

  /** Reads back exactly the text `RenderHint` produces. */
  function ParseHint(s: string): Option<JHint>
  {
    var s1 :- Lit(s, "{");
    ParseHintBody(s1)
  }

  /** A hint after its opening brace: the optional type, then the patches. */
  function ParseHintBody(s: string): Option<JHint>
  {
    var head :- ParseType(s);
    ParseHintPatches(head.1, head.0)
  }

  /** The `"p":[...]}` that ends a hint of type `t`, with nothing after it. */
  function ParseHintPatches(s: string, t: Option<nat>): Option<JHint>
  {
    var s2 :- Lit(s, "\"p\":[");
    var ps :- ParsePatchList(s2);
    var s3 :- Lit(ps.1, "]}");
    if s3 == "" then Some(JHint(t, ps.0)) else None
  }

  /** A quoted string containing no quote character. */
  function ParseQuoted(s: string): (r: Option<(string, string)>)
    ensures r.Some? ==> |r.value.1| < |s|
  {
    var s1 :- Lit(s, "\"");
    var k := QuoteFree(s1);
    if k < |s1| then Some((s1[..k], s1[k + 1..])) else None
  }

  /** Length of the prefix of `s` before the first quote character. */
  function QuoteFree(s: string): (k: nat)
    ensures k <= |s| && (forall i :: 0 <= i < k ==> s[i] != '"')
    ensures k < |s| ==> s[k] == '"'
  {
    if |s| > 0 && s[0] != '"' then 1 + QuoteFree(s[1..]) else 0
  }

  function ParseQuotedItems(s: string): (r: Option<(seq<string>, string)>)
    ensures r.Some? ==> |r.value.1| < |s|
    decreases |s|
  {
    var first :- ParseQuoted(s);
    if |first.1| > 0 && first.1[0] == ',' then
      var more :- ParseQuotedItems(first.1[1..]);
      Some(([first.0] + more.0, more.1))
    else
      Some(([first.0], first.1))
  }

  /** Reads back exactly the text `RenderVocab` produces. */
  function ParseVocab(s: string): Option<seq<string>>
  {
    var s1 :- Lit(s, "[");
    var items :- if |s1| > 0 && s1[0] == ']' then Some(([], s1)) else ParseQuotedItems(s1);
    var s2 :- Lit(items.1, "]");
    if s2 == "" then Some(items.0) else None
  }

  // ---------------------------------------------------------------- round trips

  lemma LitPrefix(lit: string, rest: string)
    ensures Lit(lit + rest, lit) == Some(rest)
  {
    assert (lit + rest)[..|lit|] == lit;
    assert (lit + rest)[|lit|..] == rest;
  }

  lemma {:induction false} ParseNatDecimal(n: nat, rest: string)
    requires |rest| == 0 || !IsDigit(rest[0])
    ensures ParseNat(Decimal(n) + rest) == Some((n, rest))
  {
    var d := Decimal(n);
    DigitRunOfDigits(d, rest);
    assert (d + rest)[..|d|] == d;
    assert (d + rest)[|d|..] == rest;
    DecimalValue(n);
  }

  lemma ParseFieldRender(name: string, n: nat, rest: string)
    requires |rest| == 0 || !IsDigit(rest[0])
    ensures ParseField(name + Decimal(n) + rest, name) == Some((n, rest))
  {
    assert name + Decimal(n) + rest == name + (Decimal(n) + rest);
    LitPrefix(name, Decimal(n) + rest);
    ParseNatDecimal(n, rest);
  }

  lemma ParseValueRender(v: Option<nat>, rest: string)
    requires |rest| > 0 && rest[0] == '}'
    ensures ParseValue(RenderValue(v) + rest) == Some((v, rest))
  {
    if v.Some? {
      assert RenderValue(v) + rest == ",\"v\":" + Decimal(v.value) + rest;
      ParseFieldRender(",\"v\":", v.value, rest);
      assert (RenderValue(v) + rest)[0] == ',';
    } else {
      assert RenderValue(v) + rest == rest;
    }
  }

  lemma ParsePatchRender(p: JPatch, rest: string)
    requires |rest| > 0 && (rest[0] == ',' || rest[0] == ']')
    ensures ParsePatch(RenderPatch(p) + rest) == Some((p, rest))
  {
    var t4 := "}" + rest;
    var t3 := RenderValue(p.v) + t4;
    var t2 := ",\"r\":" + Decimal(p.r) + t3;
    assert RenderPatch(p) + rest == "{\"l\":" + Decimal(p.l) + t2;
    ParseFieldRender("{\"l\":", p.l, t2);
    ParseFieldRender(",\"r\":", p.r, t3);
    ParseValueRender(p.v, t4);
    LitPrefix("}", rest);
  }

  lemma {:induction false} ParsePatchItemsRender(ps: seq<JPatch>, rest: string)
    requires |ps| > 0 && |rest| > 0 && rest[0] == ']'
    ensures ParsePatchItems(JoinComma(RenderPatches(ps)) + rest) == Some((ps, rest))
  {
    if |ps| == 1 {
      ParsePatchRender(ps[0], rest);
      ParsePatchItemsLast(RenderPatch(ps[0]) + rest, ps[0], rest);
      assert [ps[0]] == ps;
    } else {
      var tail := JoinComma(RenderPatches(ps[1..])) + rest;
      JoinCommaCons(RenderPatches(ps), rest);
      assert RenderPatches(ps)[1..] == RenderPatches(ps[1..]);
      ParsePatchRender(ps[0], "," + tail);
      ParsePatchItemsRender(ps[1..], rest);
      ParsePatchItemsCons(RenderPatch(ps[0]) + ("," + tail), ps[0], tail, ps[1..], rest);
      assert [ps[0]] + ps[1..] == ps;
    }
  }

  /** A list of two or more items followed by `rest` is the first, a comma, and the others. */
  lemma JoinCommaCons(items: seq<string>, rest: string)
    requires |items| > 1
    ensures JoinComma(items) + rest == items[0] + ("," + (JoinComma(items[1..]) + rest))
  {
  }

  lemma ParsePatchItemsLast(s: string, p: JPatch, rest: string)
    requires ParsePatch(s) == Some((p, rest)) && |rest| > 0 && rest[0] == ']'
    ensures ParsePatchItems(s) == Some(([p], rest))
  {
  }

  lemma ParsePatchItemsCons(s: string, p: JPatch, tail: string, more: seq<JPatch>, rest: string)
    requires ParsePatch(s) == Some((p, "," + tail)) && ParsePatchItems(tail) == Some((more, rest))
    ensures ParsePatchItems(s) == Some(([p] + more, rest))
  {
    assert ("," + tail)[1..] == tail;
  }

  lemma ParseTypeRender(t: Option<nat>, rest: string)
    requires |rest| > 1 && rest[1] == 'p'
    ensures ParseType(RenderType(t) + rest) == Some((t, rest))
  {
    if t.Some? {
      var tail := "," + rest;
      RegroupTypeField(Decimal(t.value), rest);
      ParseFieldRender("\"t\":", t.value, tail);
      ParseTypeField(RenderType(t) + rest, t.value, rest);
    } else {
      assert RenderType(t) + rest == rest;
    }
  }

  lemma RegroupTypeField(d: string, rest: string)
    ensures "\"t\":" + d + "," + rest == "\"t\":" + d + ("," + rest)
  {
  }

  lemma ParseTypeField(s: string, n: nat, rest: string)
    requires ParseField(s, "\"t\":") == Some((n, "," + rest))
    ensures ParseType(s) == Some((Some(n), rest))
  {
    LitPrefix(",", rest);
  }

  lemma ParsePatchListRender(ps: seq<JPatch>, rest: string)
    requires |rest| > 0 && rest[0] == ']'
    ensures ParsePatchList(JoinComma(RenderPatches(ps)) + rest) == Some((ps, rest))
  {
    if |ps| == 0 {
      assert JoinComma(RenderPatches(ps)) + rest == rest;
    } else {
      ParsePatchItemsRender(ps, rest);
      assert RenderPatches(ps)[0] == RenderPatch(ps[0]);
      assert (JoinComma(RenderPatches(ps)) + rest)[0] == '{';
    }
  }

  /** Every rendered hint line parses back to the hint it was rendered from. */
  lemma ParseHintRender(h: JHint)
    ensures ParseHint(RenderHint(h)) == Some(h)
  {
    var afterType := "\"p\":[" + (JoinComma(RenderPatches(h.patches)) + "]}");
    LitPrefix("{", RenderType(h.t) + afterType);
    ParseHintBodyRender(h, afterType);
  }

  lemma ParseHintBodyRender(h: JHint, afterType: string)
    requires afterType == "\"p\":[" + (JoinComma(RenderPatches(h.patches)) + "]}")
    ensures ParseHintBody(RenderType(h.t) + afterType) == Some(h)
  {
    ParseTypeRender(h.t, afterType);
    ParseHintPatchesRender(h.t, h.patches);
  }

  lemma ParseHintPatchesRender(t: Option<nat>, ps: seq<JPatch>)
    ensures ParseHintPatches("\"p\":[" + (JoinComma(RenderPatches(ps)) + "]}"), t) == Some(JHint(t, ps))
  {
    var body := JoinComma(RenderPatches(ps)) + "]}";
    LitPrefix("\"p\":[", body);
    ParsePatchListRender(ps, "]}");
    LitPrefix("]}", "");
  }

  lemma ParseQuotedRender(s: string, rest: string)
    requires forall k :: 0 <= k < |s| ==> s[k] != '"'
    ensures ParseQuoted(Quote(s) + rest) == Some((s, rest))
  {
    assert Quote(s) + rest == "\"" + (s + ("\"" + rest));
    LitPrefix("\"", s + ("\"" + rest));
    QuoteFreePrefix(s, "\"" + rest);
    assert (s + ("\"" + rest))[..|s|] == s;
    assert (s + ("\"" + rest))[|s| + 1..] == rest;
  }

  lemma {:induction false} ParseQuotedItemsRender(ss: seq<string>, rest: string)
    requires |ss| > 0 && |rest| > 0 && rest[0] == ']'
    requires forall i, k :: 0 <= i < |ss| && 0 <= k < |ss[i]| ==> ss[i][k] != '"'
    ensures ParseQuotedItems(JoinComma(QuoteAll(ss)) + rest) == Some((ss, rest))
  {
    if |ss| == 1 {
      ParseQuotedRender(ss[0], rest);
      ParseQuotedItemsLast(Quote(ss[0]) + rest, ss[0], rest);
      assert [ss[0]] == ss;
    } else {
      var tail := JoinComma(QuoteAll(ss[1..])) + rest;
      JoinCommaCons(QuoteAll(ss), rest);
      assert QuoteAll(ss)[1..] == QuoteAll(ss[1..]);
      ParseQuotedRender(ss[0], "," + tail);
      ParseQuotedItemsRender(ss[1..], rest);
      ParseQuotedItemsCons(Quote(ss[0]) + ("," + tail), ss[0], tail, ss[1..], rest);
      assert [ss[0]] + ss[1..] == ss;
    }
  }

  lemma ParseQuotedItemsLast(s: string, w: string, rest: string)
    requires ParseQuoted(s) == Some((w, rest)) && |rest| > 0 && rest[0] == ']'
    ensures ParseQuotedItems(s) == Some(([w], rest))
  {
  }

  lemma ParseQuotedItemsCons(s: string, w: string, tail: string, more: seq<string>, rest: string)
    requires ParseQuoted(s) == Some((w, "," + tail)) && ParseQuotedItems(tail) == Some((more, rest))
    ensures ParseQuotedItems(s) == Some(([w] + more, rest))
  {
    assert ("," + tail)[1..] == tail;
  }

  lemma {:induction false} QuoteFreePrefix(s: string, rest: string)
    requires forall k :: 0 <= k < |s| ==> s[k] != '"'
    requires |rest| > 0 && rest[0] == '"'
    ensures QuoteFree(s + rest) == |s|
  {
    if |s| > 0 {
      assert (s + rest)[1..] == s[1..] + rest;
      QuoteFreePrefix(s[1..], rest);
    }
  }

  /**
   * The vocabulary line parses back to the vocabulary when no string contains
   * a quote character (the printers write strings without escaping).
   */
  lemma {:induction false} ParseVocabRender(vocab: seq<string>)
    requires forall i, k :: 0 <= i < |vocab| && 0 <= k < |vocab[i]| ==> vocab[i][k] != '"'
    ensures ParseVocab(RenderVocab(vocab)) == Some(vocab)
  {
    var body := JoinComma(QuoteAll(vocab)) + "]";
    assert RenderVocab(vocab) == "[" + body;
    LitPrefix("[", body);
    if |vocab| == 0 {
      assert body == "]";
    } else {
      ParseQuotedItemsRender(vocab, "]");
      assert body[0] == '"';
    }
    LitPrefix("]", "");
  }

  lemma RenderPatchesSnoc(ps: seq<JPatch>, p: JPatch)
    ensures RenderPatches(ps + [p]) == RenderPatches(ps) + [RenderPatch(p)]
  {
    assert |RenderPatches(ps + [p])| == |ps| + 1;
  }

  lemma QuoteAllSnoc(ss: seq<string>, s: string)
    ensures QuoteAll(ss + [s]) == QuoteAll(ss) + [Quote(s)]
  {
    assert |QuoteAll(ss + [s])| == |ss| + 1;
  }

  /** A hint without a type renders as `{"p":[...]}`. */
  lemma RenderUntypedHint(ps: seq<JPatch>)
    ensures RenderHint(JHint(None, ps)) == "{\"p\":[" + (JoinComma(RenderPatches(ps)) + "]}")
  {
    assert RenderType(None) == "";
    assert "{\"p\":[" == "{" + "\"p\":[";
  }

  /** A patch without a value renders as `{"l":L,"r":R}`. */
  lemma RenderDeletion(l: nat, r: nat)
    ensures RenderPatch(JPatch(l, r, None)) == "{\"l\":" + Decimal(l) + ",\"r\":" + Decimal(r) + "}"
  {
    assert RenderValue(None) == "";
  }
}
