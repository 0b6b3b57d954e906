/**
 * The Python `str` operations that the cleaning, key-handling and file-naming code relies on:
 * `isspace` (the character class of `\s` and of `strip()`), `lower()`, `strip()`,
 * `startswith`/`endswith`, `' '.join`, `split(' ')` and `replace(old, "")`.
 */
module PyStr {

  // ---------------------------------------------------------------------------
  // Character classes
  // ---------------------------------------------------------------------------

  /**
   * Python's `str.isspace()`, which is also the class matched by `\s` in a `str` pattern:
   * the ASCII controls TAB..CR and FS..US, SPACE, NEL, NO-BREAK SPACE and the Unicode
   * space separators and line/paragraph separators.
   */
  predicate IsWhitespace(c: char) {
    ('\t' <= c <= '\r') || ('\U{1C}' <= c <= ' ') || c == '\U{85}' || c == '\U{A0}'
    || c == '\U{1680}' || ('\U{2000}' <= c <= '\U{200A}') || c == '\U{2028}' || c == '\U{2029}'
    || c == '\U{202F}' || c == '\U{205F}' || c == '\U{3000}'
  }

  predicate IsAsciiUpper(c: char) { 'A' <= c <= 'Z' }

  predicate IsAsciiLetter(c: char) { 'a' <= c <= 'z' || 'A' <= c <= 'Z' }

  predicate IsAsciiDigit(c: char) { '0' <= c <= '9' }

  /** `lower()` of one character, over the ASCII alphabet: other characters are left as they are. */
  function ToLower(c: char): (r: char)
    ensures !IsAsciiUpper(r)
    ensures IsAsciiUpper(c) ==> r as int == c as int + 32
    ensures !IsAsciiUpper(c) ==> r == c
  {
    if IsAsciiUpper(c) then (c as int + 32) as char else c
  }

  // ---------------------------------------------------------------------------
  // Properties of whole strings
  // ---------------------------------------------------------------------------

  ghost predicate NoUpper(s: string) {
    forall i :: 0 <= i < |s| ==> !IsAsciiUpper(s[i])
  }

  ghost predicate AllWhitespace(s: string) {
    forall i :: 0 <= i < |s| ==> IsWhitespace(s[i])
  }

  /** Neither the first nor the last character is whitespace. */
  ghost predicate NoEdgeWhitespace(s: string) {
    s == [] || (!IsWhitespace(s[0]) && !IsWhitespace(s[|s| - 1]))
  }

  /** A concatenation is all whitespace exactly when both parts are. */
  lemma AllWhitespaceConcat(a: string, b: string)
    ensures AllWhitespace(a + b) <==> AllWhitespace(a) && AllWhitespace(b)
  {
    if AllWhitespace(a) && AllWhitespace(b) {
      forall i | 0 <= i < |a + b| ensures IsWhitespace((a + b)[i]) {
        if i >= |a| { assert (a + b)[i] == b[i - |a|]; }
      }
    }
    if AllWhitespace(a + b) {
      forall i | 0 <= i < |a| ensures IsWhitespace(a[i]) { assert (a + b)[i] == a[i]; }
      forall i | 0 <= i < |b| ensures IsWhitespace(b[i]) { assert (a + b)[i + |a|] == b[i]; }
    }
  }

  // ---------------------------------------------------------------------------
  // lower()
  // ---------------------------------------------------------------------------

  /** `s.lower()`, character by character. */
  function Lower(s: string): (r: string)
    ensures |r| == |s| && NoUpper(r)
    ensures forall i :: 0 <= i < |s| ==> (IsWhitespace(r[i]) <==> IsWhitespace(s[i]))
    ensures forall i :: 0 <= i < |s| && !IsAsciiUpper(s[i]) ==> r[i] == s[i]
  {
    seq(|s|, i requires 0 <= i < |s| => ToLower(s[i]))
  }

  /** A string without upper-case letters is its own lower-case form, and only such a string is. */
  lemma LowerFixpoint(s: string)
    ensures Lower(s) == s <==> NoUpper(s)
  {
    if NoUpper(s) {
      assert forall i :: 0 <= i < |s| ==> Lower(s)[i] == s[i];
    }
  }

  // ---------------------------------------------------------------------------
  // strip()
  // ---------------------------------------------------------------------------

  /** Index of the first character that is not whitespace, or `|s|` when there is none. */
  function FirstNonSpace(s: string): (i: nat)
    ensures i <= |s| && AllWhitespace(s[..i])
    ensures i < |s| ==> !IsWhitespace(s[i])
  {
    if s == [] || !IsWhitespace(s[0]) then 0 else 1 + FirstNonSpace(s[1..])
  }

  /** One past the index of the last character that is not whitespace, or 0 when there is none. */
  function EndNonSpace(s: string): (j: nat)
    ensures j <= |s| && AllWhitespace(s[j..])
    ensures j > 0 ==> !IsWhitespace(s[j - 1])
  {
    if s == [] || !IsWhitespace(s[|s| - 1]) then |s|
    else
      var init := s[..|s| - 1];
      var j := EndNonSpace(init);
      assert s[j..] == init[j..] + [s[|s| - 1]];
      AllWhitespaceConcat(init[j..], [s[|s| - 1]]);
      j
  }

  /**
   * `s.strip()`: the slice between the first and the last non-whitespace character.
   * Only whitespace is removed, and only at the two ends.
   */
  function Strip(s: string): (r: string)
    ensures NoEdgeWhitespace(r)
    ensures FirstNonSpace(s) + |r| <= |s|
    ensures r == s[FirstNonSpace(s)..FirstNonSpace(s) + |r|]
    ensures AllWhitespace(s[FirstNonSpace(s) + |r|..])
    ensures r == [] <==> AllWhitespace(s)
  {
    var i, j := FirstNonSpace(s), EndNonSpace(s);
    if i < j then s[i..j]
    else
      assert AllWhitespace(s) by {
        forall k | 0 <= k < |s| ensures IsWhitespace(s[k]) {
          if k < i { assert s[..i][k] == s[k]; }
        }
      }
      []
  }

  /** Behind a whitespace prefix, the first non-whitespace character is where the rest begins. */
  lemma {:induction false} FirstNonSpaceAfter(p: string, t: string)
    requires AllWhitespace(p) && t != [] && !IsWhitespace(t[0])
    ensures FirstNonSpace(p + t) == |p|
  {
    if p != [] {
      assert (p + t)[0] == p[0];
      assert AllWhitespace(p[1..]) by { assert forall k :: 0 <= k < |p[1..]| ==> p[1..][k] == p[k + 1]; }
      assert (p + t)[1..] == p[1..] + t;
      FirstNonSpaceAfter(p[1..], t);
    } else {
      assert p + t == t;
    }
  }

  /** Before a whitespace suffix, the last non-whitespace character is where the text ends. */
  lemma {:induction false} EndNonSpaceBefore(t: string, q: string)
    requires AllWhitespace(q) && t != [] && !IsWhitespace(t[|t| - 1])
    ensures EndNonSpace(t + q) == |t|
    decreases |q|
  {
    if q != [] {
      var s := t + q;
      assert s[|s| - 1] == q[|q| - 1];
      var init := q[..|q| - 1];
      assert AllWhitespace(init) by { assert forall k :: 0 <= k < |init| ==> init[k] == q[k]; }
      assert s[..|s| - 1] == t + init;
      EndNonSpaceBefore(t, init);
    } else {
      assert t + q == t;
    }
  }

  /** `strip()` changes a string exactly when it has whitespace at an end. */
  lemma StripFixpoint(s: string)
    ensures Strip(s) == s <==> NoEdgeWhitespace(s)
  {
    if NoEdgeWhitespace(s) && s != [] {
      assert FirstNonSpace(s) == 0;
      assert EndNonSpace(s) == |s|;
    }
  }

  /** `strip()` is idempotent. */
  lemma StripIdempotent(s: string)
    ensures Strip(Strip(s)) == Strip(s)
  {
    StripFixpoint(Strip(s));
  }

  // ---------------------------------------------------------------------------
  // startswith / endswith
  // ---------------------------------------------------------------------------

  predicate StartsWith(s: string, prefix: string) {
    |prefix| <= |s| && s[..|prefix|] == prefix
  }

  predicate EndsWith(s: string, suffix: string) {
    |suffix| <= |s| && s[|s| - |suffix|..] == suffix
  }

  /** `s.endswith(tuple)`: true when `s` ends with one of the suffixes. */
  predicate EndsWithAny(s: string, suffixes: seq<string>) {
    exists k :: 0 <= k < |suffixes| && EndsWith(s, suffixes[k])
  }

  // ---------------------------------------------------------------------------
  // ' '.join(xs) and s.split(' ')
  // ---------------------------------------------------------------------------

  /** `' '.join(xs)`. */
  function JoinSpace(xs: seq<string>): string
  {
    if |xs| == 0 then ""
    else if |xs| == 1 then xs[0]
    else xs[0] + " " + JoinSpace(xs[1..])
  }

  /**
   * `s.split(' ')`: the fields between single spaces; never empty. Read left to right, a space
   * opens a new field and any other character extends the current one.
   */
  function SplitSpace(s: string): (r: seq<string>)
    ensures |r| > 0
  {
    if s == [] then [""]
    else
      var rest := SplitSpace(s[1..]);
      if s[0] == ' ' then [""] + rest else [[s[0]] + rest[0]] + rest[1..]
  }

  /** A string without spaces is one field. */
  lemma {:induction false} SplitWord(a: string)
    requires ' ' !in a
    ensures SplitSpace(a) == [a]
  {
    if a != [] {
      assert ' ' !in a[1..] by { assert forall k :: 0 <= k < |a[1..]| ==> a[1..][k] == a[k + 1]; }
      SplitWord(a[1..]);
      assert [a[0]] + a[1..] == a;
    }
  }

  /** A space-free field followed by a space is split off as the first field. */
  lemma {:induction false} SplitAfterWord(a: string, rest: string)
    requires ' ' !in a
    ensures SplitSpace(a + " " + rest) == [a] + SplitSpace(rest)
  {
    var s := a + " " + rest;
    if a == [] {
      assert s[1..] == rest;
    } else {
      assert ' ' !in a[1..] by { assert forall k :: 0 <= k < |a[1..]| ==> a[1..][k] == a[k + 1]; }
      assert s[1..] == a[1..] + " " + rest;
      SplitAfterWord(a[1..], rest);
      assert [a[0]] + a[1..] == a;
    }
  }

  /** Splitting a joined list gives the list back when no item holds a space. */
  lemma {:induction false} SplitJoin(xs: seq<string>)
    requires |xs| > 0
    requires forall k :: 0 <= k < |xs| ==> ' ' !in xs[k]
    ensures SplitSpace(JoinSpace(xs)) == xs
  {
    if |xs| == 1 {
      SplitWord(xs[0]);
    } else {
      JoinSpaceCons(xs[0], xs[1..]);
      assert [xs[0]] + xs[1..] == xs;
      SplitAfterWord(xs[0], JoinSpace(xs[1..]));
      SplitJoin(xs[1..]);
    }
  }

  /** Joining the fields of a split gives the string back, for every string. */
  lemma {:induction false} JoinSplit(s: string)
    ensures JoinSpace(SplitSpace(s)) == s
  {
    if s != [] {
      var rest := SplitSpace(s[1..]);
      JoinSplit(s[1..]);
      if s[0] == ' ' {
        JoinSpaceCons("", rest);
      } else {
        JoinSpaceExtendFirst(s[0], rest);
      }
      assert [s[0]] + s[1..] == s;
    }
  }

  /** Joining an item in front of a non-empty list puts one space between them. */
  lemma JoinSpaceCons(x: string, xs: seq<string>)
    requires xs != []
    ensures JoinSpace([x] + xs) == x + " " + JoinSpace(xs)
  {
    assert ([x] + xs)[1..] == xs;
  }

  /** Extending the first item by a character extends the join by that character. */
  lemma JoinSpaceExtendFirst(c: char, xs: seq<string>)
    requires xs != []
    ensures JoinSpace([[c] + xs[0]] + xs[1..]) == [c] + JoinSpace(xs)
  {
    if |xs| == 1 {
      assert [[c] + xs[0]] + xs[1..] == [[c] + xs[0]];
    } else {
      JoinSpaceExtendFirstOfMany(c, xs[0], xs[1..]);
      assert [xs[0]] + xs[1..] == xs;
    }
  }

  lemma JoinSpaceExtendFirstOfMany(c: char, x: string, tail: seq<string>)
    requires tail != []
    ensures JoinSpace([[c] + x] + tail) == [c] + JoinSpace([x] + tail)
  {
    var j := JoinSpace(tail);
    JoinSpaceCons([c] + x, tail);
    JoinSpaceCons(x, tail);
    assert [c] + x + " " + j == [c] + (x + " " + j);
  }

  // ---------------------------------------------------------------------------
  // s.replace(pattern, "")
  // ---------------------------------------------------------------------------

  ghost predicate OccursAt(s: string, pattern: string, i: nat) {
    i + |pattern| <= |s| && s[i..i + |pattern|] == pattern
  }

  ghost predicate Contains(s: string, pattern: string) {
    exists i: nat :: OccursAt(s, pattern, i)
  }

  /**
   * `s.replace(pattern, "")`: a single left-to-right scan that deletes every non-overlapping
   * occurrence of `pattern`. Occurrences formed by the deletion itself are not deleted.
   */
  function RemoveAll(s: string, pattern: string): (r: string)
    requires |pattern| > 0
    ensures |r| <= |s|
    decreases |s|
  {
    if |s| < |pattern| then s
    else if s[..|pattern|] == pattern then RemoveAll(s[|pattern|..], pattern)
    else [s[0]] + RemoveAll(s[1..], pattern)
  }

  /** An occurrence in the tail of `s` is an occurrence in `s`, one place further on. */
  lemma OccursAtTail(s: string, pattern: string, i: nat)
    requires s != []
    ensures OccursAt(s[1..], pattern, i) <==> OccursAt(s, pattern, i + 1)
  {
    if i + 1 + |pattern| <= |s| {
      assert s[1..][i..i + |pattern|] == s[i + 1..i + 1 + |pattern|];
    }
  }

  /** A string in which the pattern does not occur is left unchanged. */
  lemma {:induction false} RemoveAllAbsent(s: string, pattern: string)
    requires |pattern| > 0 && !Contains(s, pattern)
    ensures RemoveAll(s, pattern) == s
    decreases |s|
  {
    if |s| >= |pattern| {
      assert !OccursAt(s, pattern, 0);
      assert s[..|pattern|] != pattern;
      forall i: nat | OccursAt(s[1..], pattern, i) ensures false {
        assert s[1..][i..i + |pattern|] == s[i + 1..i + 1 + |pattern|];
        assert OccursAt(s, pattern, i + 1);
      }
      RemoveAllAbsent(s[1..], pattern);
    }
  }

  /** Where the pattern does not start at the front, the first character is kept and the scan moves on. */
  lemma RemoveAllSkip(s: string, pattern: string)
    requires |pattern| > 0 && s != [] && !OccursAt(s, pattern, 0)
    ensures RemoveAll(s, pattern) == [s[0]] + RemoveAll(s[1..], pattern)
  {
    if |s| < |pattern| {
      assert RemoveAll(s[1..], pattern) == s[1..];
      assert s == [s[0]] + s[1..];
    }
  }

  /**
   * The first occurrence is deleted wherever it is: with no occurrence starting inside `a`, the
   * text before the pattern is kept and the scan continues after it.
   */
  lemma {:induction false} RemoveAllAfter(a: string, pattern: string, b: string)
    requires |pattern| > 0
    requires forall i :: 0 <= i < |a| ==> !OccursAt(a + pattern + b, pattern, i)
    ensures RemoveAll(a + pattern + b, pattern) == a + RemoveAll(b, pattern)
    decreases |a|
  {
    var s := a + pattern + b;
    if a == [] {
      assert s == pattern + b;
      RemoveAllLeading(pattern, b);
    } else {
      assert !OccursAt(s, pattern, 0);
      RemoveAllSkip(s, pattern);
      var t := a[1..] + pattern + b;
      assert s[1..] == t;
      forall i | 0 <= i < |a[1..]| ensures !OccursAt(t, pattern, i) {
        OccursAtTail(s, pattern, i);
      }
      RemoveAllAfter(a[1..], pattern, b);
      assert [a[0]] + a[1..] == a;
    }
  }

  /** A leading occurrence is deleted and the scan continues after it. */
  lemma RemoveAllLeading(pattern: string, rest: string)
    requires |pattern| > 0
    ensures RemoveAll(pattern + rest, pattern) == RemoveAll(rest, pattern)
  {
    assert (pattern + rest)[..|pattern|] == pattern;
    assert (pattern + rest)[|pattern|..] == rest;
  }
}
