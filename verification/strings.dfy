/** Character classes and string helpers that the caption rewriter's regular
    expressions and `str.strip()` rely on, restricted to ASCII. */
module Strings {

  /** `\s` of Python's `re` on `str` patterns, and the characters `str.strip()`
      removes: space, tab, line feed, vertical tab, form feed, carriage return
      and the four information separators U+001C..U+001F. */
  predicate IsWhitespace(c: char) {
    c == ' ' || ('\t' <= c <= '\r') || ('\U{1C}' <= c <= '\U{1F}')
  }

  /** `\w`: ASCII letters, digits and the underscore. */
  predicate IsWordChar(c: char) {
    ('a' <= c <= 'z') || ('A' <= c <= 'Z') || ('0' <= c <= '9') || c == '_'
  }

  predicate AllWhitespace(s: string) {
    forall k :: 0 <= k < |s| ==> IsWhitespace(s[k])
  }

  /** The pattern `p` occurs in `s` starting at index `i`. */
  predicate HasAt(s: string, i: nat, p: string) {
    i + |p| <= |s| && forall k :: 0 <= k < |p| ==> s[i + k] == p[k]
  }

  /** Where `p` occurs, its `k`-th character is that of `s`. */
  lemma HasAtChar(s: string, i: nat, p: string, k: nat)
    requires k < |p|
    ensures HasAt(s, i, p) ==> i + k < |s| && s[i + k] == p[k]
  {
  }

  /** A pattern that is a concatenation matches piece by piece. */
  lemma HasAtConcat(s: string, i: nat, p: string, q: string)
    ensures HasAt(s, i, p + q) <==> HasAt(s, i, p) && HasAt(s, i + |p|, q)
  {
    if HasAt(s, i, p) && HasAt(s, i + |p|, q) {
      forall k | 0 <= k < |p + q| ensures s[i + k] == (p + q)[k] {
        if k >= |p| { assert s[i + |p| + (k - |p|)] == q[k - |p|]; }
      }
    }
    if HasAt(s, i, p + q) {
      forall k | 0 <= k < |p| ensures s[i + k] == p[k] {
        assert s[i + k] == (p + q)[k];
      }
      forall k | 0 <= k < |q| ensures s[i + |p| + k] == q[k] {
        assert s[i + (|p| + k)] == (p + q)[|p| + k];
      }
    }
  }

  /** Three patterns side by side match as their concatenation. */
  lemma HasAtConcat3(s: string, i: nat, p: string, q: string, r: string)
    ensures HasAt(s, i, p + q + r)
        <==> HasAt(s, i, p) && HasAt(s, i + |p|, q) && HasAt(s, i + |p| + |q|, r)
  {
    HasAtConcat(s, i, p + q, r);
    HasAtConcat(s, i, p, q);
  }

  /** Prepending the character at `k` extends a slice starting at `k + 1`. */
  lemma ConsSlice(s: string, k: nat, i: nat, tail: string)
    requires k < i <= |s|
    ensures [s[k]] + (s[k + 1..i] + tail) == s[k..i] + tail
  {
    assert s[k..i] == [s[k]] + s[k + 1..i];
  }

  /** `\b`: exactly one of the characters around position `i` is a word
      character (the string's ends count as non-word characters). */
  predicate IsWordBoundary(s: string, i: nat)
    requires i <= |s|
  {
    (0 < i && IsWordChar(s[i - 1])) != (i < |s| && IsWordChar(s[i]))
  }

  /** Every character of `s` from index `lo` up to, not including, `hi` is
      whitespace. */
  predicate WhitespaceIn(s: string, lo: nat, hi: nat) {
    lo <= hi <= |s| && forall k :: lo <= k < hi ==> IsWhitespace(s[k])
  }

  /** Length of the run of whitespace starting at index `j`, as a greedy `\s+`
      or `\s*` consumes it. */
  function WhitespaceRun(s: string, j: nat): (n: nat)
    requires j <= |s|
    ensures WhitespaceIn(s, j, j + n)
    ensures j + n == |s| || !IsWhitespace(s[j + n])
    decreases |s| - j
  {
    if j < |s| && IsWhitespace(s[j]) then 1 + WhitespaceRun(s, j + 1) else 0
  }

  /** A whitespace run that ends at a non-whitespace character, or at the end
      of the string, is the run a greedy `\s+` consumes. */
  lemma WhitespaceRunExact(s: string, j: nat, m: nat)
    requires WhitespaceIn(s, j, j + m)
    requires j + m == |s| || !IsWhitespace(s[j + m])
    ensures WhitespaceRun(s, j) == m
  {
  }

  /** Removes leading whitespace. */
  function TrimStart(s: string): (r: string)
    ensures |r| <= |s| && r == s[|s| - |r|..]
    ensures WhitespaceIn(s, 0, |s| - |r|)
    ensures r == [] || !IsWhitespace(r[0])
  {
    if s != [] && IsWhitespace(s[0]) then
      var r := TrimStart(s[1..]);
      WhitespaceInDrop(s, |s| - |r|);
      r
    else s
  }

  /** Removes trailing whitespace. */
  function TrimEnd(s: string): (r: string)
    ensures |r| <= |s| && r == s[..|r|]
    ensures WhitespaceIn(s, |r|, |s|)
    ensures r == [] || !IsWhitespace(r[|r| - 1])
  {
    if s != [] && IsWhitespace(s[|s| - 1]) then
      var r := TrimEnd(s[..|s| - 1]);
      WhitespaceInTake(s, |r|);
      r
    else s
  }

  /** `str.strip()` with no argument: the text between the leading and the
      trailing whitespace. */
  function Strip(s: string): (r: string)
    ensures r == [] || (!IsWhitespace(r[0]) && !IsWhitespace(r[|r| - 1]))
    ensures exists i :: IsStripSplit(s, i, r)
  {
    var t := TrimStart(s);
    var r := TrimEnd(t);
    StripSplitOf(s, t, r);
    r
  }

  /** Leading whitespace of `s` is one character, then that of `s[1..]`. */
  lemma WhitespaceInDrop(s: string, n: nat)
    requires 0 < n <= |s| && IsWhitespace(s[0]) && WhitespaceIn(s[1..], 0, n - 1)
    ensures WhitespaceIn(s, 0, n) && s[1..][n - 1..] == s[n..]
  {
    forall k | 0 < k < n ensures IsWhitespace(s[k]) {
      assert s[k] == s[1..][k - 1];
    }
  }

  /** Trailing whitespace of `s` is that of `s` without its last character,
      then that character. */
  lemma WhitespaceInTake(s: string, n: nat)
    requires n < |s| && IsWhitespace(s[|s| - 1]) && WhitespaceIn(s[..|s| - 1], n, |s| - 1)
    ensures WhitespaceIn(s, n, |s|) && s[..|s| - 1][..n] == s[..n]
  {
    forall k | n <= k < |s| - 1 ensures IsWhitespace(s[k]) {
      assert s[k] == s[..|s| - 1][k];
    }
  }

  /** Whitespace, then `r`, then whitespace, when `t` is `s` without its
      leading whitespace and `r` is `t` without its trailing whitespace. */
  lemma StripSplitOf(s: string, t: string, r: string)
    requires |t| <= |s| && t == s[|s| - |t|..] && WhitespaceIn(s, 0, |s| - |t|)
    requires |r| <= |t| && r == t[..|r|] && WhitespaceIn(t, |r|, |t|)
    ensures IsStripSplit(s, |s| - |t|, r)
    ensures r != [] ==> r[0] == t[0]
  {
    var i := |s| - |t|;
    assert s[i..i + |r|] == t[..|r|];
    forall k | i + |r| <= k < |s| ensures IsWhitespace(s[k]) {
      assert s[k] == t[k - i];
    }
  }

  /** `s` is whitespace, then `m` starting at index `i`, then whitespace. */
  predicate IsStripSplit(s: string, i: nat, m: string) {
    i + |m| <= |s| && s[i..i + |m|] == m
    && WhitespaceIn(s, 0, i) && WhitespaceIn(s, i + |m|, |s|)
  }

  lemma {:induction false} TrimStartExact(w: string, m: string)
    requires AllWhitespace(w)
    requires m == [] || !IsWhitespace(m[0])
    ensures TrimStart(w + m) == m
  {
    if w != [] {
      assert (w + m)[1..] == w[1..] + m;
      TrimStartExact(w[1..], m);
    } else {
      assert w + m == m;
    }
  }

  lemma {:induction false} TrimEndExact(m: string, w: string)
    requires AllWhitespace(w)
    requires m == [] || !IsWhitespace(m[|m| - 1])
    ensures TrimEnd(m + w) == m
  {
    if w != [] {
      assert (m + w)[..|m + w| - 1] == m + w[..|w| - 1];
      TrimEndExact(m, w[..|w| - 1]);
    } else {
      assert m + w == m;
    }
  }

  /** `strip()` returns exactly the part between whitespace margins, whatever
      those margins are; with `Strip`'s own postcondition this characterises
      it completely. */
  lemma {:induction false} StripExact(before: string, m: string, after: string)
    requires AllWhitespace(before) && AllWhitespace(after)
    requires m == [] || (!IsWhitespace(m[0]) && !IsWhitespace(m[|m| - 1]))
    ensures Strip(before + m + after) == m
  {
    if m == [] {
      assert before + m + after == before + after;
      assert AllWhitespace(before + after);
      TrimStartExact(before + after, []);
      assert before + after + [] == before + after;
      TrimEndExact([], []);
    } else {
      assert before + m + after == before + (m + after);
      TrimStartExact(before, m + after);
      TrimEndExact(m, after);
    }
  }
}
