/** The string operations the scripts rely on: ASCII `lower()`,
    `startswith`, the `in` substring test, Python's ordering of strings,
    and `join` with the inverse of `";".join`. */
module Text {

  /** `c.lower()` restricted to ASCII letters. */
  function LowerChar(c: char): char
  {
    if 'A' <= c <= 'Z' then (c as int + 32) as char else c
  }

  /** `s.lower()` restricted to ASCII letters: same length, letter by letter. */
  function Lower(s: string): (r: string)
    ensures |r| == |s|
    ensures forall i :: 0 <= i < |s| ==> r[i] == LowerChar(s[i])
  {
    seq(|s|, i requires 0 <= i < |s| => LowerChar(s[i]))
  }

  /** A lowered text holds no ASCII capital, so lowering it again changes
      nothing: comparisons made after `lower()` ignore case exactly once. */
  lemma LowerIdempotent(s: string)
    ensures forall i :: 0 <= i < |Lower(s)| ==> !('A' <= Lower(s)[i] <= 'Z')
    ensures Lower(Lower(s)) == Lower(s)
  {
    assert forall i :: 0 <= i < |s| ==> LowerChar(LowerChar(s[i])) == LowerChar(s[i]);
  }

  /** `s.startswith(p)`. */
  predicate StartsWith(s: string, p: string)
  {
    |p| <= |s| && s[..|p|] == p
  }

  /** `needle` occurs in `hay` starting at position `i`. */
  predicate OccursAt(hay: string, needle: string, i: int)
  {
    0 <= i && i + |needle| <= |hay| && hay[i..i + |needle|] == needle
  }

  /** `needle in hay`: needle is a contiguous substring of hay. */
  predicate Contains(hay: string, needle: string)
  {
    exists i | 0 <= i <= |hay| :: OccursAt(hay, needle, i)
  }

  /** Python's `a <= b` on strings: lexicographic by code point, a proper
      prefix before the longer string. */
  predicate LexLe(a: string, b: string)
  {
    if a == [] then true
    else if b == [] then false
    else if a[0] != b[0] then a[0] < b[0]
    else LexLe(a[1..], b[1..])
  }

  /** Python's `a < b` on strings. */
  predicate LexLess(a: string, b: string)
  {
    LexLe(a, b) && a != b
  }

  lemma {:induction false} LexLeTotal(a: string, b: string)
    ensures LexLe(a, b) || LexLe(b, a)
  {
    if a != [] && b != [] && a[0] == b[0] {
      LexLeTotal(a[1..], b[1..]);
    }
  }

  lemma {:induction false} LexLeAntisymmetric(a: string, b: string)
    requires LexLe(a, b) && LexLe(b, a)
    ensures a == b
  {
    if a != [] && b != [] {
      LexLeAntisymmetric(a[1..], b[1..]);
      assert a == [a[0]] + a[1..] && b == [b[0]] + b[1..];
    }
  }

  lemma {:induction false} LexLeTransitive(a: string, b: string, c: string)
    requires LexLe(a, b) && LexLe(b, c)
    ensures LexLe(a, c)
  {
    if a != [] && b != [] && c != [] && a[0] == b[0] && b[0] == c[0] {
      LexLeTransitive(a[1..], b[1..], c[1..]);
    }
  }

  /** `sep.join(items)`. */
  function JoinWith(sep: string, items: seq<string>): string
  {
    if items == [] then ""
    else if |items| == 1 then items[0]
    else items[0] + sep + JoinWith(sep, items[1..])
  }

  /** `s.split(";")`: the pieces between separators, always at least one. */
  function Split(s: string): (r: seq<string>)
    ensures |r| >= 1
  {
    if s == [] then [""]
    else
      var rest := Split(s[1..]);
      if s[0] == ';' then [""] + rest
      else [[s[0]] + rest[0]] + rest[1..]
  }

  lemma {:induction false} SplitPlain(a: string)
    requires ';' !in a
    ensures Split(a) == [a]
  {
    if a != [] {
      assert a[0] != ';' && ';' !in a[1..];
      SplitPlain(a[1..]);
      assert [a[0]] + a[1..] == a;
    }
  }

  lemma {:induction false} SplitAfterPiece(a: string, rest: string)
    requires ';' !in a
    ensures Split(a + ";" + rest) == [a] + Split(rest)
  {
    if a == [] {
      assert a + ";" + rest == [';'] + rest;
      assert ([';'] + rest)[1..] == rest;
    } else {
      var s := a + ";" + rest;
      assert s[0] == a[0] && s[1..] == a[1..] + ";" + rest;
      assert ';' !in a[1..];
      SplitAfterPiece(a[1..], rest);
      assert [a[0]] + a[1..] == a;
    }
  }

  /** Joining at least one piece, none of which holds the separator, and
      splitting again gives the pieces back: the joined text keeps one
      piece per item, in order. */
  lemma {:induction false} SplitJoin(items: seq<string>)
    requires |items| >= 1
    requires forall i :: 0 <= i < |items| ==> ';' !in items[i]
    ensures Split(JoinWith(";", items)) == items
  {
    if |items| == 1 {
      SplitPlain(items[0]);
    } else {
      SplitAfterPiece(items[0], JoinWith(";", items[1..]));
      SplitJoin(items[1..]);
      assert [items[0]] + items[1..] == items;
    }
  }
}
