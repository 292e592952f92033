/**
 * The parts of PCRE, as PHP's preg_* functions apply it, that the package
 * specifier patterns rely on: the classes `\w` and `\d` (with the default,
 * locale-independent character tables), the dot (which never matches a
 * newline), and the `$` anchor without the D modifier (which closes a match at
 * the end of the subject or just before one newline that ends it).
 */
module Pcre {
  import opened Wrappers

  /** `\w`: an ASCII letter, an ASCII digit or the underscore. */
  predicate IsWordChar(c: char) {
    'a' <= c <= 'z' || 'A' <= c <= 'Z' || '0' <= c <= '9' || c == '_'
  }

  /** `\d`: an ASCII digit. */
  predicate IsDigit(c: char) {
    '0' <= c <= '9'
  }

  /** `\w+` matches all of `s`. */
  predicate IsWord(s: string) {
    |s| > 0 && forall i :: 0 <= i < |s| ==> IsWordChar(s[i])
  }

  /** `\d+` matches all of `s`. */
  predicate IsDigits(s: string) {
    |s| > 0 && forall i :: 0 <= i < |s| ==> IsDigit(s[i])
  }

  /** `.*` can cover all of `s`: the dot matches anything but a newline. */
  predicate NoNewline(s: string) {
    '\n' !in s
  }

  predicate StartsWith(s: string, prefix: string) {
    |prefix| <= |s| && s[..|prefix|] == prefix
  }

  /** The length of the run a greedy `\w+` takes from the start of `s` (0 when it cannot start). */
  /** A string is what lies before a position followed by what lies after it. */
  lemma SplitAt(s: string, n: nat)
    requires n <= |s|
    ensures s == s[..n] + s[n..]
  {
  }

  /** The two halves of a concatenation. */
  lemma HalvesOf(a: string, b: string)
    ensures (a + b)[..|a|] == a && (a + b)[|a|..] == b
  {
  }

  lemma Regroup(a: string, b: string, c: string)
    ensures a + (b + c) == (a + b) + c
  {
  }

  lemma DropAfter(a: string, b: string, k: nat)
    requires |a| <= k <= |a| + |b|
    ensures (a + b)[k..] == b[k - |a|..]
  {
  }

  lemma DropWithin(a: string, b: string, j: nat)
    requires j <= |a|
    ensures (a + b)[j..] == a[j..] + b
  {
  }

  function WordPrefixLen(s: string): (n: nat)
    ensures n <= |s|
    ensures forall i :: 0 <= i < n ==> IsWordChar(s[i])
    ensures n < |s| ==> !IsWordChar(s[n])
  {
    if |s| > 0 && IsWordChar(s[0]) then 1 + WordPrefixLen(s[1..]) else 0
  }

  /** A word run followed by a non-word character (or by nothing) is exactly what `\w+` takes. */
  lemma {:induction false} WordPrefixOfConcat(w: string, r: string)
    requires forall i :: 0 <= i < |w| ==> IsWordChar(w[i])
    requires r == [] || !IsWordChar(r[0])
    ensures WordPrefixLen(w + r) == |w|
  {
    var n := WordPrefixLen(w + r);
    assert forall i :: 0 <= i < |w| ==> (w + r)[i] == w[i];
    assert r != [] ==> (w + r)[|w|] == r[0];
  }

  /** The newline, if any, that `$` may leave outside a match: the last character of `s` when it is one. */
  function LineEnd(s: string): (e: string)
    ensures e == "" || e == "\n"
    ensures e == "\n" <==> |s| > 0 && s[|s| - 1] == '\n'
  {
    if |s| > 0 && s[|s| - 1] == '\n' then "\n" else ""
  }

  /** The text a pattern anchored with `^` and `$` has to cover: `s` without the newline `$` may skip. */
  function Line(s: string): (t: string)
    ensures s == t + LineEnd(s)
  {
    if |s| > 0 && s[|s| - 1] == '\n' then s[..|s| - 1] else s
  }

  /** A string whose last character is not a newline is its own line. */
  lemma LineOfLine(t: string, e: string)
    requires |t| > 0 ==> t[|t| - 1] != '\n'
    requires e == "" || e == "\n"
    ensures Line(t + e) == t && LineEnd(t + e) == e
  {
    if e == "\n" {
      assert (t + e)[..|t + e| - 1] == t;
    }
  }

  /** The first position of `c` in `s`. */
  function FirstIndex(s: string, c: char): (r: Option<nat>)
    ensures r.None? <==> c !in s
    ensures r.Some? ==> r.value < |s| && s[r.value] == c && c !in s[..r.value]
  {
    if |s| == 0 then None
    else if s[0] == c then Some(0)
    else match FirstIndex(s[1..], c)
      case None => None
      case Some(i) => (assert s[..i + 1] == [s[0]] + s[1..][..i]; Some(i + 1))
  }

  /** Where the last line of `t` starts: just after its last newline, or 0. */
  function LineStart(t: string): (k: nat)
    ensures k <= |t|
    ensures '\n' !in t[k..]
    ensures k == 0 || t[k - 1] == '\n'
  {
    if |t| == 0 then 0
    else if t[|t| - 1] == '\n' then |t|
    else
      var k := LineStart(t[..|t| - 1]);
      assert t[k..] == t[..|t| - 1][k..] + [t[|t| - 1]];
      k
  }
}
