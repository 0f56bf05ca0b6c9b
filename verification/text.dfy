/** The JavaScript string primitives the panels rely on: which characters end a
    line for a regular expression's `.`, which characters `String.prototype.trim`
    strips, and substring search. Characters are Unicode scalar values. */
module Text {
  import opened Wrappers

  /** ECMAScript LineTerminator: LF, CR, LINE SEPARATOR and PARAGRAPH SEPARATOR,
      the characters a regular-expression `.` refuses to match. */
  predicate IsLineTerminator(c: char) {
    c == '\n' || c == '\r' || c == '\U{2028}' || c == '\U{2029}'
  }

  /** ECMAScript WhiteSpace (TAB, VT, FF, SPACE, NO-BREAK SPACE, ZERO WIDTH NO-BREAK
      SPACE and the other space separators of category Zs) together with the line
      terminators: exactly the set `String.prototype.trim` strips from both ends. */
  predicate IsWhitespace(c: char) {
    || IsLineTerminator(c)
    || c == '\t' || c == '\U{B}' || c == '\U{C}' || c == ' '
    || c == '\U{A0}' || c == '\U{FEFF}' || c == '\U{1680}'
    || ('\U{2000}' <= c <= '\U{200A}')
    || c == '\U{202F}' || c == '\U{205F}' || c == '\U{3000}'
  }

  /** No character of `s` ends a line. */
  predicate SingleLine(s: string) {
    forall k :: 0 <= k < |s| ==> !IsLineTerminator(s[k])
  }

  /** Joining single-line texts gives a single-line text. */
  lemma SingleLineConcat(a: string, b: string)
    requires SingleLine(a) && SingleLine(b)
    ensures SingleLine(a + b)
  {
    forall k | 0 <= k < |a + b| ensures !IsLineTerminator((a + b)[k]) {
      if k >= |a| {
        assert (a + b)[k] == b[k - |a|];
      }
    }
  }

  /** No character of `s[lo..hi]` ends a line. */
  predicate LineFree(s: string, lo: int, hi: int) {
    && 0 <= lo <= hi <= |s|
    && forall k :: lo <= k < hi ==> !IsLineTerminator(s[k])
  }

  /** Every character of `s` is whitespace (so the empty string is blank). */
  predicate Blank(s: string) {
    forall k :: 0 <= k < |s| ==> IsWhitespace(s[k])
  }

  /** `pat` occurs in `s` starting at index `i`. */
  predicate OccursAt(s: string, i: int, pat: string) {
    && 0 <= i
    && i + |pat| <= |s|
    && forall k :: 0 <= k < |pat| ==> s[i + k] == pat[k]
  }

  /** `pat` occurs somewhere in `s`. */
  predicate Contains(s: string, pat: string) {
    exists i :: 0 <= i <= |s| - |pat| && OccursAt(s, i, pat)
  }

  /** Number of whitespace characters `trim` removes from the front of `s`. */
  function LeadingWhitespace(s: string): (n: nat)
    ensures n <= |s|
    ensures forall k :: 0 <= k < n ==> IsWhitespace(s[k])
    ensures n < |s| ==> !IsWhitespace(s[n])
  {
    if |s| == 0 || !IsWhitespace(s[0]) then 0 else 1 + LeadingWhitespace(s[1..])
  }

  /** Index at which the whitespace `trim` removes from the back of `s` begins. */
  function TrailingWhitespaceStart(s: string): (m: nat)
    ensures m <= |s|
    ensures forall k :: m <= k < |s| ==> IsWhitespace(s[k])
    ensures 0 < m ==> !IsWhitespace(s[m - 1])
  {
    if |s| == 0 || !IsWhitespace(s[|s| - 1]) then |s|
    else TrailingWhitespaceStart(s[..|s| - 1])
  }

  /** `String.prototype.trim`: `s` without its leading and trailing whitespace;
      empty exactly when `s` is blank, and otherwise starting and ending with a
      character that is not whitespace. */
  function Trim(s: string): (r: string)
    ensures |r| == 0 <==> Blank(s)
    ensures |r| > 0 ==> !IsWhitespace(r[0]) && !IsWhitespace(r[|r| - 1])
  {
    var a := LeadingWhitespace(s);
    if a == |s| then "" else s[a..TrailingWhitespaceStart(s)]
  }

  /** What `trim` keeps is a contiguous piece of `s`, and all it cuts away is whitespace. */
  lemma TrimCutsOnlyWhitespace(s: string)
    ensures exists a, b :: 0 <= a <= b <= |s| && Trim(s) == s[a..b] && Blank(s[..a]) && Blank(s[b..])
  {
    var a := LeadingWhitespace(s);
    if a == |s| {
      assert Trim(s) == s[0..0] && Blank(s[..0]) && Blank(s[0..]);
    } else {
      var b := TrailingWhitespaceStart(s);
      assert Trim(s) == s[a..b] && Blank(s[..a]) && Blank(s[b..]);
    }
  }

  /** First index at or after `from` where `pat` occurs, as `indexOf` finds it. */
  function IndexOf(s: string, pat: string, from: nat): (r: Option<nat>)
    ensures r.Some? ==> && from <= r.value && OccursAt(s, r.value, pat)
                        && forall k :: from <= k < r.value ==> !OccursAt(s, k, pat)
    ensures r.None? ==> forall k :: from <= k ==> !OccursAt(s, k, pat)
    decreases |s| - from
  {
    if from + |pat| > |s| then None
    else if OccursAt(s, from, pat) then Some(from)
    else IndexOf(s, pat, from + 1)
  }

  /** Last index `k` with `lo <= k` at which `pat` occurs wholly inside `s[..hi]`. */
  function LastIndexIn(s: string, pat: string, lo: nat, hi: nat): (r: Option<nat>)
    requires lo <= hi <= |s|
    ensures r.Some? ==> && lo <= r.value && r.value + |pat| <= hi && OccursAt(s, r.value, pat)
                        && forall k :: r.value < k && k + |pat| <= hi ==> !OccursAt(s, k, pat)
    ensures r.None? ==> forall k :: lo <= k && k + |pat| <= hi ==> !OccursAt(s, k, pat)
    decreases hi - lo
  {
    if hi - lo < |pat| then None
    else if OccursAt(s, hi - |pat|, pat) then Some(hi - |pat|)
    else LastIndexIn(s, pat, lo, hi - 1)
  }

  /** End of the line that contains index `from`: the first line terminator at or
      after `from`, or the end of `s`. */
  function LineEnd(s: string, from: nat): (e: nat)
    requires from <= |s|
    ensures from <= e <= |s|
    ensures LineFree(s, from, e)
    ensures e < |s| ==> IsLineTerminator(s[e])
    decreases |s| - from
  {
    if from == |s| || IsLineTerminator(s[from]) then from else LineEnd(s, from + 1)
  }

  /** An occurrence that lies inside the prefix `x` of `z` is an occurrence in `x`. */
  lemma OccursInPrefix(x: string, z: string, i: int, pat: string)
    requires |x| <= |z| && x == z[..|x|]
    requires i + |pat| <= |x|
    ensures OccursAt(z, i, pat) <==> OccursAt(x, i, pat)
  {
    if 0 <= i {
      forall j | i <= j < i + |pat| ensures z[j] == x[j] {
        assert x[j] == z[..|x|][j];
      }
    }
  }

  /** An occurrence in `x + y` that starts inside `y` is an occurrence in `y`. */
  lemma OccursInSuffix(x: string, y: string, i: int, pat: string)
    requires OccursAt(x + y, |x| + i, pat) && 0 <= i
    ensures OccursAt(y, i, pat)
  {
    forall k | 0 <= k < |pat| ensures y[i + k] == pat[k] {
      assert (x + y)[|x| + i + k] == pat[k];
    }
  }

  /** Nothing starting inside `y` is an occurrence in `x + y` when `y` lacks `pat`. */
  lemma NoOccurrenceInSuffix(x: string, y: string, k: int, pat: string)
    requires !Contains(y, pat) && |x| <= k
    ensures !OccursAt(x + y, k, pat)
  {
    if OccursAt(x + y, k, pat) {
      OccursInSuffix(x, y, k - |x|, pat);
    }
  }

  /** An occurrence inside the slice `s[a..b]` is an occurrence in `s`, shifted by `a`. */
  lemma OccursInSlice(s: string, a: nat, b: nat, i: int, pat: string)
    requires a <= b <= |s|
    requires OccursAt(s[a..b], i, pat)
    ensures OccursAt(s, a + i, pat) && a + i + |pat| <= b
  {
    forall k | 0 <= k < |pat| ensures s[a + i + k] == pat[k] {
      assert s[a..b][i + k] == pat[k];
    }
  }

  /** A single-line slice is a line-free stretch of the whole. */
  lemma SingleLineSlice(s: string, lo: nat, hi: nat)
    requires lo <= hi <= |s| && SingleLine(s[lo..hi])
    ensures LineFree(s, lo, hi)
  {
    forall k | lo <= k < hi ensures !IsLineTerminator(s[k]) {
      assert s[k] == s[lo..hi][k - lo];
    }
  }

  /** An occurrence with none before it (from `from` on) is what `IndexOf` finds. */
  lemma IndexOfFindsFirst(s: string, pat: string, from: nat, p: nat)
    requires from <= p && OccursAt(s, p, pat)
    requires forall k :: from <= k < p ==> !OccursAt(s, k, pat)
    ensures IndexOf(s, pat, from) == Some(p)
  {
  }
}
