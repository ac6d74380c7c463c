/**
 * Character and string helpers that stand for the Python `str` methods the
 * parser and the registry use: `strip`, `lower`, `split(sep, maxsplit=1)`.
 * All of them are restricted to ASCII.
 */
module Text {
  import opened Wrappers

  /** `str.isspace` on the ASCII range: space, \t, \n, \v, \f, \r and the separators 0x1C..0x1F. */
  predicate IsSpace(c: char) {
    c == ' ' || ('\t' <= c <= '\r') || ('\U{1C}' <= c <= '\U{1F}')
  }

  predicate AllSpace(s: string) {
    forall i :: 0 <= i < |s| ==> IsSpace(s[i])
  }

  /** Neither end of `s` is whitespace (so stripping leaves `s` alone). */
  predicate Unpadded(s: string) {
    s == [] || (!IsSpace(s[0]) && !IsSpace(s[|s| - 1]))
  }

  /** How many whitespace characters `s` starts with. */
  function LeadingSpace(s: string): (n: nat)
    ensures n <= |s|
    ensures forall i :: 0 <= i < n ==> IsSpace(s[i])
    ensures n < |s| ==> !IsSpace(s[n])
  {
    if s != [] && IsSpace(s[0]) then 1 + LeadingSpace(s[1..]) else 0
  }

  /** How many whitespace characters `s` ends with. */
  function TrailingSpace(s: string): (n: nat)
    ensures n <= |s|
    ensures forall i :: |s| - n <= i < |s| ==> IsSpace(s[i])
    ensures n < |s| ==> !IsSpace(s[|s| - 1 - n])
  {
    if s != [] && IsSpace(s[|s| - 1]) then 1 + TrailingSpace(s[..|s| - 1]) else 0
  }

  /** `str.strip()`: drops the leading and the trailing whitespace and nothing else. */
  function Strip(s: string): string {
    var t := s[LeadingSpace(s)..];
    t[..|t| - TrailingSpace(t)]
  }

  /** Stripping removes exactly the whitespace padding around an unpadded core. */
  lemma StripPadded(pre: string, t: string, post: string)
    requires AllSpace(pre) && AllSpace(post) && Unpadded(t)
    ensures Strip(pre + t + post) == t
  {
    var s := pre + t + post;
    if t == [] {
      assert s == pre + post;
      assert LeadingSpace(s) == |s|;
    } else {
      assert s[|pre|] == t[0];
      assert LeadingSpace(s) == |pre|;
      var u := s[|pre|..];
      assert u == t + post;
      assert u[|t| - 1] == t[|t| - 1];
      assert TrailingSpace(u) == |post|;
      assert u[..|t|] == t;
    }
  }

  /** A string whose ends are not whitespace is its own strip. */
  lemma StripUnpadded(t: string)
    requires Unpadded(t)
    ensures Strip(t) == t
  {
    StripPadded([], t, []);
    assert [] + t + [] == t;
  }

  /** Whatever `Strip` returns has no whitespace at either end. */
  lemma StripIsUnpadded(s: string)
    ensures Unpadded(Strip(s))
  {
  }

  function LowerChar(c: char): char {
    if 'A' <= c <= 'Z' then (c as int + 32) as char else c
  }

  /** `str.lower()` on ASCII letters; every other character is kept. */
  function Lower(s: string): (r: string)
    ensures |r| == |s| && forall i :: 0 <= i < |s| ==> r[i] == LowerChar(s[i])
  {
    seq(|s|, i requires 0 <= i < |s| => LowerChar(s[i]))
  }

  /**
   * `s.split(sep, maxsplit=1)`: the text before the first `sep` and the text after it,
   * or None when `sep` does not occur (the one-part case).
   */
  function SplitFirst(s: string, sep: char): (r: Option<(string, string)>)
    ensures r.None? <==> sep !in s
    ensures r.Some? ==> s == r.value.0 + [sep] + r.value.1 && sep !in r.value.0
  {
    if s == [] then None
    else if s[0] == sep then Some(([], s[1..]))
    else
      match SplitFirst(s[1..], sep)
      case None => None
      case Some(parts) => Some(([s[0]] + parts.0, parts.1))
  }

  /** Splitting at the first separator is the inverse of joining around it. */
  lemma {:induction false} SplitFirstJoin(a: string, sep: char, b: string)
    requires sep !in a
    ensures SplitFirst(a + [sep] + b, sep) == Some((a, b))
  {
    var s := a + [sep] + b;
    if a == [] {
      assert s[1..] == b;
    } else {
      assert s[1..] == a[1..] + [sep] + b;
      SplitFirstJoin(a[1..], sep, b);
      assert [a[0]] + a[1..] == a;
    }
  }

  /** The number of occurrences of `c` in `s`. */
  function Count(s: string, c: char): nat {
    if s == [] then 0 else (if s[0] == c then 1 else 0) + Count(s[1..], c)
  }

  lemma {:induction false} CountZero(s: string, c: char)
    ensures Count(s, c) == 0 <==> c !in s
  {
    if s != [] {
      CountZero(s[1..], c);
      assert c in s <==> s[0] == c || c in s[1..];
    }
  }

  lemma {:induction false} CountAppend(a: string, b: string, c: char)
    ensures Count(a + b, c) == Count(a, c) + Count(b, c)
  {
    if a == [] {
      assert a + b == b;
    } else {
      assert (a + b)[1..] == a[1..] + b;
      CountAppend(a[1..], b, c);
    }
  }
}
