/**
 * Reading a binary file line by line, as Python's iteration over a file
 * opened in binary mode does, and the ASCII whitespace of `bytes` methods
 * and byte regular expressions.
 */
module ByteLines {
  import opened Common

  const NEWLINE: Byte := 10

  /** `bytes.isspace()` for one byte: the ASCII whitespace `bytes.split()` splits on. */
  predicate IsAsciiSpace(b: Byte)
  {
    9 <= b <= 13 || b == 32
  }

  /** The first position at or after `i` that is not ASCII whitespace. */
  function SkipSpaces(v: Bytes, i: nat): (j: nat)
    requires i <= |v|
    ensures i <= j <= |v|
    ensures forall k :: i <= k < j ==> IsAsciiSpace(v[k])
    ensures j < |v| ==> !IsAsciiSpace(v[j])
    decreases |v| - i
  {
    if i == |v| || !IsAsciiSpace(v[i]) then i else SkipSpaces(v, i + 1)
  }

  /** The concatenation of the lines. */
  function Concat(lines: seq<Bytes>): (r: Bytes)
  {
    if |lines| == 0 then [] else Concat(lines[..|lines| - 1]) + lines[|lines| - 1]
  }

  lemma {:induction false} ConcatCons(x: Bytes, rest: seq<Bytes>)
    ensures Concat([x] + rest) == x + Concat(rest)
    decreases |rest|
  {
    if |rest| > 0 {
      var all := [x] + rest;
      assert all[..|all| - 1] == [x] + rest[..|rest| - 1];
      ConcatCons(x, rest[..|rest| - 1]);
    } else {
      assert [x] + rest == [x];
      assert [x][..0] == [];
    }
  }

  /** The length of the first line of `c`: up to and including the first newline, or all of `c`. */
  function FirstLineLength(c: Bytes): (k: nat)
    requires |c| > 0
    ensures 1 <= k <= |c|
    ensures forall i :: 0 <= i < k - 1 ==> c[i] != NEWLINE
    ensures k < |c| ==> c[k - 1] == NEWLINE
  {
    if c[0] == NEWLINE || |c| == 1 then 1 else 1 + FirstLineLength(c[1..])
  }

  /** The lines iterating over a binary file yields: each ends with its newline, the last one possibly without. */
  function ReadLines(c: Bytes): seq<Bytes>
    decreases |c|
  {
    if |c| == 0 then []
    else
      var k := FirstLineLength(c);
      [c[..k]] + ReadLines(c[k..])
  }

  /** The lines put back together are the file. */
  lemma {:induction false} ReadLinesConcat(c: Bytes)
    ensures Concat(ReadLines(c)) == c
    decreases |c|
  {
    if |c| > 0 {
      var k := FirstLineLength(c);
      var rest := ReadLines(c[k..]);
      ReadLinesConcat(c[k..]);
      ConcatCons(c[..k], rest);
      calc {
        Concat(ReadLines(c));
        Concat([c[..k]] + rest);
        c[..k] + Concat(rest);
        c[..k] + c[k..];
        { assert c[..k] + c[k..] == c; }
        c;
      }
    }
  }

  /** A line read from a file: not empty, a newline only at its end, and one there unless it is the last line. */
  ghost predicate LineShaped(line: Bytes, last: bool)
  {
    |line| > 0
    && (forall i :: 0 <= i < |line| - 1 ==> line[i] != NEWLINE)
    && (!last ==> line[|line| - 1] == NEWLINE)
  }

  /** No line is empty; a newline only ends a line, and every line but the last ends with one. */
  lemma {:induction false} ReadLinesShape(c: Bytes)
    ensures forall n :: 0 <= n < |ReadLines(c)| ==> LineShaped(ReadLines(c)[n], n == |ReadLines(c)| - 1)
    decreases |c|
  {
    if |c| > 0 {
      var k := FirstLineLength(c);
      ReadLinesShape(c[k..]);
      var rest := ReadLines(c[k..]);
      var ls := [c[..k]] + rest;
      assert ReadLines(c) == ls;
      forall j | 0 <= j < |ls|
        ensures LineShaped(ls[j], j == |ls| - 1)
      {
        if j == 0 {
          assert ls[0] == c[..k];
          forall i | 0 <= i < k - 1
            ensures c[..k][i] != NEWLINE
          {
            assert c[..k][i] == c[i];
          }
          if 0 < |ls| - 1 {
            assert |c[k..]| > 0;
            assert c[..k][k - 1] == c[k - 1];
          }
        } else {
          assert ls[j] == rest[j - 1];
        }
      }
    }
  }

  /** The bytes of an ASCII string literal, as Python's `b'...'` spells them. */
  function AsciiBytes(s: string): (r: Bytes)
    ensures |r| == |s|
  {
    if |s| == 0 then [] else [(s[0] as int) % 256] + AsciiBytes(s[1..])
  }
}
