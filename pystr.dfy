/** The few Python `str` operations the CSV normaliser relies on:
    `str.isspace`, `str.replace` with one-character arguments, `str.strip()`
    with no argument, `str.join`, the `in` substring test and `s or d`. */
module PyStr {

  /** Python's `str.isspace` on one code point (bidirectional class WS, B or S,
      or general category Zs). */
  predicate IsSpace(c: char) {
    ('\t' <= c <= '\r') || ('\U{1C}' <= c <= '\U{1F}') || c == ' '
    || c == '\U{85}' || c == '\U{A0}' || c == '\U{1680}'
    || ('\U{2000}' <= c <= '\U{200A}') || c == '\U{2028}' || c == '\U{2029}'
    || c == '\U{202F}' || c == '\U{205F}' || c == '\U{3000}'
  }

  /** `s.replace(pat, sub)` for single characters. */
  function Replace(s: string, pat: char, sub: char): string {
    if s == [] then [] else [if s[0] == pat then sub else s[0]] + Replace(s[1..], pat, sub)
  }

  /** Replacement keeps the length and changes exactly the occurrences of `pat`. */
  lemma {:induction false} ReplaceSpec(s: string, pat: char, sub: char)
    ensures |Replace(s, pat, sub)| == |s|
    ensures forall k :: 0 <= k < |s| ==> Replace(s, pat, sub)[k] == (if s[k] == pat then sub else s[k])
  {
    if s != [] {
      ReplaceSpec(s[1..], pat, sub);
    }
  }

  /** Leading whitespace removed. */
  function LStrip(s: string): string {
    if s != [] && IsSpace(s[0]) then LStrip(s[1..]) else s
  }

  /** What is left is a suffix of `s`, everything dropped is whitespace, and
      what is left does not start with whitespace. */
  lemma {:induction false} LStripSpec(s: string)
    ensures |LStrip(s)| <= |s| && LStrip(s) == s[|s| - |LStrip(s)|..]
    ensures forall k :: 0 <= k < |s| - |LStrip(s)| ==> IsSpace(s[k])
    ensures LStrip(s) == [] || !IsSpace(LStrip(s)[0])
  {
    if s != [] && IsSpace(s[0]) {
      LStripSpec(s[1..]);
      assert forall k :: 1 <= k < |s| ==> s[k] == s[1..][k - 1];
    }
  }

  /** Trailing whitespace removed. */
  function RStrip(s: string): string {
    if s != [] && IsSpace(s[|s| - 1]) then RStrip(s[..|s| - 1]) else s
  }

  /** What is left is a prefix of `s`, everything dropped is whitespace, and
      what is left does not end with whitespace. */
  lemma {:induction false} RStripSpec(s: string)
    ensures |RStrip(s)| <= |s| && RStrip(s) == s[..|RStrip(s)|]
    ensures forall k :: |RStrip(s)| <= k < |s| ==> IsSpace(s[k])
    ensures RStrip(s) == [] || !IsSpace(RStrip(s)[|RStrip(s)| - 1])
  {
    if s != [] && IsSpace(s[|s| - 1]) {
      RStripSpec(s[..|s| - 1]);
    }
  }

  /** `s.strip()`. */
  function Strip(s: string): string {
    LStrip(RStrip(s))
  }

  /** The stripped text is a slice of `s` with only whitespace outside it. */
  lemma StripSpec(s: string) returns (a: nat)
    ensures StrippedAt(s, Strip(s), a)
  {
    var t := RStrip(s);
    RStripSpec(s);
    LStripSpec(t);
    a := |t| - |LStrip(t)|;
    SliceWithin(s, t, LStrip(t), a);
  }

  /** Cutting whitespace off the end of `s` to get `t`, then off the start of
      `t` to get `r`, leaves `r` in `s` at offset `a` with whitespace around it. */
  lemma SliceWithin(s: string, t: string, r: string, a: int)
    requires |t| <= |s| && t == s[..|t|]
    requires forall k :: |t| <= k < |s| ==> IsSpace(s[k])
    requires 0 <= a && a + |r| == |t| && r == t[a..]
    requires forall k :: 0 <= k < a ==> IsSpace(t[k])
    ensures StrippedAt(s, r, a)
  {
    assert r == s[a..a + |r|] by {
      SliceOfSlice(s, 0, |t|, a, |t|);
    }
    forall k | 0 <= k < a
      ensures IsSpace(s[k])
    {
      assert s[k] == t[k];
    }
  }

  /** The stripped text neither starts nor ends with whitespace. */
  lemma StripEdges(s: string)
    ensures Strip(s) == [] || (!IsSpace(Strip(s)[0]) && !IsSpace(Strip(s)[|Strip(s)| - 1]))
  {
    var t := RStrip(s);
    var r := LStrip(t);
    RStripSpec(s);
    LStripSpec(t);
    if r != [] {
      assert r[|r| - 1] == t[|t| - 1];
    }
  }

  /** `r` sits in `s` at offset `a` with whitespace only on either side. */
  predicate StrippedAt(s: string, r: string, a: int) {
    0 <= a && a + |r| <= |s| && s[a..a + |r|] == r
    && (forall k :: 0 <= k < a ==> IsSpace(s[k]))
    && (forall k :: a + |r| <= k < |s| ==> IsSpace(s[k]))
  }

  /** `p` occurs in `s` starting at index `k`. */
  predicate OccursAt(s: string, p: string, k: int) {
    0 <= k && k + |p| <= |s| && s[k..k + |p|] == p
  }

  /** Python's `p in s` on strings. */
  predicate Contains(s: string, p: string) {
    exists k :: 0 <= k <= |s| - |p| && OccursAt(s, p, k)
  }

  /** `sep.join(xs)`. */
  function Join(sep: string, xs: seq<string>): string
    decreases |xs|
  {
    if |xs| == 0 then "" else if |xs| == 1 then xs[0] else xs[0] + sep + Join(sep, xs[1..])
  }

  /** Python's `s or d` for a string `s`: the empty string is falsy. */
  function Or(s: string, d: string): (r: string)
    ensures s != "" ==> r == s
    ensures s == "" ==> r == d
  {
    if s == "" then d else s
  }

  /** Joining two non-empty lists puts one separator between their joins:
      the elements appear in list order. */
  lemma {:induction false} JoinAppend(sep: string, xs: seq<string>, ys: seq<string>)
    requires xs != [] && ys != []
    ensures Join(sep, xs + ys) == Join(sep, xs) + sep + Join(sep, ys)
    decreases |xs|
  {
    if |xs| == 1 {
      assert xs + ys == [xs[0]] + ys;
      assert (xs + ys)[1..] == ys;
    } else {
      assert (xs + ys)[1..] == xs[1..] + ys;
      JoinAppend(sep, xs[1..], ys);
    }
  }

  /** With a non-empty separator the join is empty exactly when there is
      nothing to join or a single empty string. */
  lemma JoinEmpty(sep: string, xs: seq<string>)
    requires sep != ""
    ensures Join(sep, xs) == "" <==> (xs == [] || xs == [""])
  {
    if |xs| >= 2 {
      assert |Join(sep, xs)| >= |sep|;
    }
  }

  /** A join of non-empty strings is empty only when there is nothing to join. */
  lemma JoinNonEmpty(sep: string, xs: seq<string>)
    requires forall k :: 0 <= k < |xs| ==> xs[k] != ""
    ensures Join(sep, xs) == "" <==> xs == []
  {
    if |xs| >= 2 {
      assert |Join(sep, xs)| >= |xs[0]|;
    }
  }

  /** Replacing a character that does not occur is the identity. */
  lemma ReplaceAbsent(s: string, pat: char, sub: char)
    requires pat !in s
    ensures Replace(s, pat, sub) == s
  {
    ReplaceSpec(s, pat, sub);
  }

  lemma SliceOfSlice(s: string, a: int, b: int, i: int, j: int)
    requires 0 <= a <= b <= |s| && 0 <= i <= j <= b - a
    ensures s[a..b][i..j] == s[a + i..a + j]
  {
    assert |s[a..b][i..j]| == j - i == |s[a + i..a + j]|;
    forall n | 0 <= n < j - i
      ensures s[a..b][i..j][n] == s[a + i..a + j][n]
    {
      assert s[a..b][i..j][n] == s[a..b][i + n] == s[a + i + n];
    }
  }

  /** An occurrence inside the stripped text is an occurrence in `s`. */
  lemma StrippedOccurrence(s: string, r: string, a: int, p: string, k: int)
    requires StrippedAt(s, r, a) && OccursAt(r, p, k)
    ensures OccursAt(s, p, a + k)
  {
    SliceOfSlice(s, a, a + |r|, k, k + |p|);
  }

  /** An occurrence in `s` of a non-empty pattern without whitespace lies
      inside the stripped text. */
  lemma OccurrenceStripped(s: string, r: string, a: int, p: string, k: int)
    requires StrippedAt(s, r, a) && OccursAt(s, p, k)
    requires p != [] && forall j :: 0 <= j < |p| ==> !IsSpace(p[j])
    ensures OccursAt(r, p, k - a)
  {
    assert s[k] == s[k..k + |p|][0] == p[0];
    assert s[k + |p| - 1] == s[k..k + |p|][|p| - 1] == p[|p| - 1];
    assert a <= k && k + |p| <= a + |r|;
    SliceOfSlice(s, a, a + |r|, k - a, k - a + |p|);
  }

  /** Stripping neither removes nor creates an occurrence of a non-empty
      pattern without whitespace. */
  lemma StripKeeps(s: string, p: string)
    requires p != [] && forall j :: 0 <= j < |p| ==> !IsSpace(p[j])
    ensures Contains(Strip(s), p) <==> Contains(s, p)
  {
    var r := Strip(s);
    var a := StripSpec(s);
    if Contains(r, p) {
      var k :| 0 <= k <= |r| - |p| && OccursAt(r, p, k);
      StrippedOccurrence(s, r, a, p, k);
    }
    if Contains(s, p) {
      var k :| 0 <= k <= |s| - |p| && OccursAt(s, p, k);
      OccurrenceStripped(s, r, a, p, k);
    }
  }
}
