/**
 * Text cleaning for claims: lower-casing and whitespace normalisation, removal of special
 * characters, stop-word removal, and their composition. The HTML stripper, the tokenizer and
 * the stop-word list come from libraries and are parameters here.
 */
module TextCleaning {
  import opened PyStr
  import opened Seqs

  // ---------------------------------------------------------------------------
  // normalize
  // ---------------------------------------------------------------------------

  /** Every whitespace character is a plain space, and no two whitespace characters are adjacent. */
  ghost predicate SingleSpaced(s: string) {
    && (forall i :: 0 <= i < |s| && IsWhitespace(s[i]) ==> s[i] == ' ')
    && (forall i :: 0 < i < |s| && IsWhitespace(s[i - 1]) ==> !IsWhitespace(s[i]))
  }

  /** What `normalize` promises of its result. */
  ghost predicate IsNormalized(s: string) {
    NoUpper(s) && SingleSpaced(s) && NoEdgeWhitespace(s)
  }

  /**
   * `re.sub(r'\s+', ' ', s)`: every maximal run of whitespace becomes one space. A whitespace
   * character followed by more whitespace is dropped; the last one of a run becomes `' '`.
   */
  function CollapseWhitespace(s: string): (r: string)
    ensures |r| <= |s| && (r == [] <==> s == [])
    ensures s != [] ==> (IsWhitespace(r[0]) <==> IsWhitespace(s[0]))
  {
    if s == [] then []
    else if IsWhitespace(s[0]) && |s| > 1 && IsWhitespace(s[1]) then CollapseWhitespace(s[1..])
    else [if IsWhitespace(s[0]) then ' ' else s[0]] + CollapseWhitespace(s[1..])
  }

  /** After the collapse every whitespace character is a lone `' '`, and no capital has appeared. */
  lemma {:induction false} CollapseIsSingleSpaced(s: string)
    ensures SingleSpaced(CollapseWhitespace(s))
    ensures NoUpper(s) ==> NoUpper(CollapseWhitespace(s))
  {
    if s != [] {
      var t := s[1..];
      CollapseIsSingleSpaced(t);
      assert NoUpper(s) ==> NoUpper(t) by {
        assert forall i :: 0 <= i < |t| ==> t[i] == s[i + 1];
      }
      if !(IsWhitespace(s[0]) && |s| > 1 && IsWhitespace(s[1])) {
        var rest := CollapseWhitespace(t);
        var r := [if IsWhitespace(s[0]) then ' ' else s[0]] + rest;
        assert forall i :: 0 < i < |r| ==> r[i] == rest[i - 1];
        assert |r| > 1 ==> (IsWhitespace(r[1]) <==> IsWhitespace(s[1]));
      }
    }
  }

  /** `normalize(text)`: lower-case, collapse whitespace runs to one space, strip. */
  function Normalize(text: string): (r: string)
    ensures IsNormalized(r)
    ensures |r| <= |text|
  {
    var c := CollapseWhitespace(Lower(text));
    CollapseIsSingleSpaced(Lower(text));
    var r := Strip(c);
    var lo := FirstNonSpace(c);
    assert forall k :: 0 <= k < |r| ==> r[k] == c[lo + k];
    r
  }

  /** A single-spaced string is its own collapse. */
  lemma {:induction false} CollapseFixpoint(s: string)
    requires SingleSpaced(s)
    ensures CollapseWhitespace(s) == s
  {
    if s != [] {
      assert SingleSpaced(s[1..]) by {
        assert forall i :: 0 <= i < |s[1..]| ==> s[1..][i] == s[i + 1];
      }
      CollapseFixpoint(s[1..]);
      if IsWhitespace(s[0]) && |s| > 1 {
        assert !IsWhitespace(s[1]);
      }
    }
  }

  /** `normalize` leaves a string unchanged exactly when the string is already normalized. */
  lemma NormalizeFixpoint(s: string)
    ensures Normalize(s) == s <==> IsNormalized(s)
  {
    if IsNormalized(s) {
      LowerFixpoint(s);
      CollapseFixpoint(s);
      StripFixpoint(s);
    }
  }

  /** `normalize` is idempotent. */
  lemma NormalizeIdempotent(text: string)
    ensures Normalize(Normalize(text)) == Normalize(text)
  {
    NormalizeFixpoint(Normalize(text));
  }

  // ---------------------------------------------------------------------------
  // normalize keeps the words: only whitespace is touched
  // ---------------------------------------------------------------------------

  predicate IsNotWhitespace(c: char) { !IsWhitespace(c) }

  /** The non-whitespace characters of `s`, in order. */
  function NonWhitespace(s: string): string {
    Filter(IsNotWhitespace, s)
  }

  lemma {:induction false} CollapseKeepsText(s: string)
    ensures NonWhitespace(CollapseWhitespace(s)) == NonWhitespace(s)
  {
    if s != [] {
      CollapseKeepsText(s[1..]);
      assert s == [s[0]] + s[1..];
      FilterAppend(IsNotWhitespace, [s[0]], s[1..]);
      if !(IsWhitespace(s[0]) && |s| > 1 && IsWhitespace(s[1])) {
        var c := if IsWhitespace(s[0]) then ' ' else s[0];
        FilterAppend(IsNotWhitespace, [c], CollapseWhitespace(s[1..]));
      }
    }
  }

  lemma StripKeepsText(s: string)
    ensures NonWhitespace(Strip(s)) == NonWhitespace(s)
  {
    var r, lo := Strip(s), FirstNonSpace(s);
    var before, after := s[..lo], s[lo + |r|..];
    assert s == before + r + after;
    assert NonWhitespace(before) == [] by { FilterNone(IsNotWhitespace, before); }
    assert NonWhitespace(after) == [] by { FilterNone(IsNotWhitespace, after); }
    FilterAppend(IsNotWhitespace, before + r, after);
    FilterAppend(IsNotWhitespace, before, r);
  }

  /** `normalize` changes nothing but case and whitespace: the other characters survive in order. */
  lemma NormalizeKeepsText(text: string)
    ensures NonWhitespace(Normalize(text)) == NonWhitespace(Lower(text))
  {
    StripKeepsText(CollapseWhitespace(Lower(text)));
    CollapseKeepsText(Lower(text));
  }

  // ---------------------------------------------------------------------------
  // normalize as ' '.join(text.lower().split())
  // ---------------------------------------------------------------------------

  /** A word: a non-empty run of non-whitespace characters. */
  ghost predicate IsWord(w: string) {
    w != [] && forall i :: 0 <= i < |w| ==> !IsWhitespace(w[i])
  }

  /**
   * `s.split()` with no separator: the maximal runs of non-whitespace characters, in order.
   * A character is glued to the front of the next word when no whitespace separates them.
   */
  function SplitWords(s: string): (words: seq<string>)
    ensures s != [] && !IsWhitespace(s[0]) ==> words != []
  {
    if s == [] then []
    else if IsWhitespace(s[0]) then SplitWords(s[1..])
    else
      var rest := SplitWords(s[1..]);
      if |s| > 1 && !IsWhitespace(s[1]) then
        assert s[1..][0] == s[1];
        [[s[0]] + rest[0]] + rest[1..]
      else [[s[0]]] + rest
  }

  /** The words are non-empty and whitespace-free, and there are none exactly when `s` is all whitespace. */
  lemma {:induction false} SplitWordsAreWords(s: string)
    ensures forall k :: 0 <= k < |SplitWords(s)| ==> IsWord(SplitWords(s)[k])
    ensures SplitWords(s) == [] <==> AllWhitespace(s)
  {
    if s != [] {
      var t := s[1..];
      SplitWordsAreWords(t);
      assert AllWhitespace(s) <==> IsWhitespace(s[0]) && AllWhitespace(t) by {
        assert forall i :: 0 < i < |s| ==> s[i] == t[i - 1];
      }
      if !IsWhitespace(s[0]) && |s| > 1 && !IsWhitespace(s[1]) {
        assert t[0] == s[1];
        WordsGlued(s[0], SplitWords(t));
      } else if !IsWhitespace(s[0]) {
        WordsConsed(s[0], SplitWords(t));
      }
    }
  }

  /** A non-whitespace character glued to the front of the first word leaves every item a word. */
  lemma WordsGlued(c: char, rest: seq<string>)
    requires !IsWhitespace(c) && rest != [] && forall k :: 0 <= k < |rest| ==> IsWord(rest[k])
    ensures var words := [[c] + rest[0]] + rest[1..];
      forall k :: 0 <= k < |words| ==> IsWord(words[k])
  {
    var first := [c] + rest[0];
    assert IsWord(first) by {
      assert IsWord(rest[0]);
      assert forall i :: 0 < i < |first| ==> first[i] == rest[0][i - 1];
    }
    var words := [first] + rest[1..];
    assert forall k :: 1 <= k < |words| ==> words[k] == rest[k];
  }

  /** A non-whitespace character put in front as a word of its own leaves every item a word. */
  lemma WordsConsed(c: char, rest: seq<string>)
    requires !IsWhitespace(c) && forall k :: 0 <= k < |rest| ==> IsWord(rest[k])
    ensures var words := [[c]] + rest;
      forall k :: 0 <= k < |words| ==> IsWord(words[k])
  {
    var words := [[c]] + rest;
    assert forall k :: 1 <= k < |words| ==> words[k] == rest[k - 1];
  }

  /** The space `re.sub` leaves at the front of a collapsed string. */
  function LeadingSpace(s: string): string {
    if s != [] && IsWhitespace(s[0]) then " " else ""
  }

  /** The space `re.sub` leaves at the end of a collapsed string that holds a word. */
  function TrailingSpace(s: string): string {
    if SplitWords(s) != [] && IsWhitespace(s[|s| - 1]) then " " else ""
  }

  /** A collapsed string is the words joined by single spaces, with at most one space at each end. */
  lemma {:induction false} CollapseIsJoin(s: string)
    ensures CollapseWhitespace(s) == LeadingSpace(s) + JoinSpace(SplitWords(s)) + TrailingSpace(s)
  {
    if s != [] {
      CollapseIsJoin(s[1..]);
      if IsWhitespace(s[0]) {
        CollapseIsJoinFromSpace(s);
      } else {
        CollapseIsJoinFromWord(s);
      }
    }
  }

  lemma CollapseIsJoinFromSpace(s: string)
    requires s != [] && IsWhitespace(s[0])
    requires var t := s[1..];
      CollapseWhitespace(t) == LeadingSpace(t) + JoinSpace(SplitWords(t)) + TrailingSpace(t)
    ensures CollapseWhitespace(s) == LeadingSpace(s) + JoinSpace(SplitWords(s)) + TrailingSpace(s)
  {
    SkipSpace(s);
    if |s| == 1 {
      assert CollapseWhitespace(s) == " ";
    } else if IsWhitespace(s[1]) {
      CollapseIsJoinSpaceRun(s);
    } else {
      CollapseIsJoinSpaceWord(s);
    }
  }

  lemma CollapseIsJoinSpaceRun(s: string)
    requires |s| > 1 && IsWhitespace(s[0]) && IsWhitespace(s[1])
    requires var t := s[1..];
      CollapseWhitespace(t) == LeadingSpace(t) + JoinSpace(SplitWords(t)) + TrailingSpace(t)
    requires SplitWords(s) == SplitWords(s[1..]) && TrailingSpace(s) == TrailingSpace(s[1..])
    ensures CollapseWhitespace(s) == LeadingSpace(s) + JoinSpace(SplitWords(s)) + TrailingSpace(s)
  {
    var t := s[1..];
    assert LeadingSpace(t) == " " by { assert t[0] == s[1]; }
  }

  lemma CollapseIsJoinSpaceWord(s: string)
    requires |s| > 1 && IsWhitespace(s[0]) && !IsWhitespace(s[1])
    requires var t := s[1..];
      CollapseWhitespace(t) == LeadingSpace(t) + JoinSpace(SplitWords(t)) + TrailingSpace(t)
    requires SplitWords(s) == SplitWords(s[1..]) && TrailingSpace(s) == TrailingSpace(s[1..])
    ensures CollapseWhitespace(s) == LeadingSpace(s) + JoinSpace(SplitWords(s)) + TrailingSpace(s)
  {
    var t := s[1..];
    var c, ct := CollapseWhitespace(s), CollapseWhitespace(t);
    assert LeadingSpace(t) == "" by { assert t[0] == s[1]; }
    assert LeadingSpace(s) == " ";
    assert c == [' '] + ct;
    ConcatShape(c, " ", JoinSpace(SplitWords(s)), TrailingSpace(s),
                " ", ct, "", JoinSpace(SplitWords(t)), TrailingSpace(t));
  }

  /** A leading whitespace character starts no word and does not change the trailing space. */
  lemma SkipSpace(s: string)
    requires s != [] && IsWhitespace(s[0])
    ensures SplitWords(s) == SplitWords(s[1..])
    ensures |s| > 1 ==> TrailingSpace(s) == TrailingSpace(s[1..])
  {
    var t := s[1..];
    if |s| > 1 {
      assert s[|s| - 1] == t[|t| - 1];
    }
  }

  lemma CollapseIsJoinFromWord(s: string)
    requires s != [] && !IsWhitespace(s[0])
    requires var t := s[1..];
      CollapseWhitespace(t) == LeadingSpace(t) + JoinSpace(SplitWords(t)) + TrailingSpace(t)
    ensures CollapseWhitespace(s) == LeadingSpace(s) + JoinSpace(SplitWords(s)) + TrailingSpace(s)
  {
    var t := s[1..];
    assert CollapseWhitespace(s) == [s[0]] + CollapseWhitespace(t);
    if t == [] {
      assert SplitWords(s) == [[s[0]]];
    } else if !IsWhitespace(t[0]) {
      CollapseIsJoinGlued(s);
    } else {
      CollapseIsJoinSeparated(s);
    }
  }

  lemma CollapseIsJoinGlued(s: string)
    requires |s| > 1 && !IsWhitespace(s[0]) && !IsWhitespace(s[1])
    requires var t := s[1..];
      CollapseWhitespace(t) == LeadingSpace(t) + JoinSpace(SplitWords(t)) + TrailingSpace(t)
    ensures CollapseWhitespace(s) == LeadingSpace(s) + JoinSpace(SplitWords(s)) + TrailingSpace(s)
  {
    var t := s[1..];
    var words := SplitWords(t);
    assert LeadingSpace(t) == "" by { assert t[0] == s[1]; }
    assert TrailingSpace(s) == TrailingSpace(t) by { assert s[|s| - 1] == t[|t| - 1]; }
    assert JoinSpace(SplitWords(s)) == [s[0]] + JoinSpace(words) by {
      assert SplitWords(s) == [[s[0]] + words[0]] + words[1..];
      JoinSpaceExtendFirst(s[0], words);
    }
    assert CollapseWhitespace(s) == [s[0]] + CollapseWhitespace(t);
    ConcatShape(CollapseWhitespace(s), LeadingSpace(s), JoinSpace(SplitWords(s)), TrailingSpace(s),
                [s[0]], CollapseWhitespace(t), "", JoinSpace(words), TrailingSpace(t));
  }

  lemma CollapseIsJoinSeparated(s: string)
    requires |s| > 1 && !IsWhitespace(s[0]) && IsWhitespace(s[1])
    requires var t := s[1..];
      CollapseWhitespace(t) == LeadingSpace(t) + JoinSpace(SplitWords(t)) + TrailingSpace(t)
    ensures CollapseWhitespace(s) == LeadingSpace(s) + JoinSpace(SplitWords(s)) + TrailingSpace(s)
  {
    var t := s[1..];
    var words := SplitWords(t);
    assert LeadingSpace(t) == " " by { assert t[0] == s[1]; }
    assert SplitWords(s) == [[s[0]]] + words;
    assert CollapseWhitespace(s) == [s[0]] + CollapseWhitespace(t);
    if words == [] {
      CollapseIsJoinSeparatedLast(s);
    } else {
      assert TrailingSpace(s) == TrailingSpace(t) by { assert s[|s| - 1] == t[|t| - 1]; }
      assert JoinSpace(SplitWords(s)) == [s[0]] + " " + JoinSpace(words);
      ConcatShape(CollapseWhitespace(s), LeadingSpace(s), JoinSpace(SplitWords(s)), TrailingSpace(s),
                  [s[0]], CollapseWhitespace(t), LeadingSpace(t), JoinSpace(words), TrailingSpace(t));
    }
  }

  /** The case of a single character followed by whitespace only. */
  lemma CollapseIsJoinSeparatedLast(s: string)
    requires |s| > 1 && !IsWhitespace(s[0]) && IsWhitespace(s[1]) && SplitWords(s[1..]) == []
    requires var t := s[1..];
      CollapseWhitespace(t) == LeadingSpace(t) + JoinSpace(SplitWords(t)) + TrailingSpace(t)
    ensures CollapseWhitespace(s) == LeadingSpace(s) + JoinSpace(SplitWords(s)) + TrailingSpace(s)
  {
    var t := s[1..];
    assert LeadingSpace(t) == " " by { assert t[0] == s[1]; }
    assert SplitWords(s) == [[s[0]]];
    assert CollapseWhitespace(s) == [s[0]] + CollapseWhitespace(t);
    assert TrailingSpace(s) == " " by {
      SplitWordsAreWords(t);
      assert s[|s| - 1] == t[|t| - 1];
    }
    assert CollapseWhitespace(t) == " ";
    assert [s[0]] + " " == "" + [s[0]] + " ";
  }

  /** Sequence bookkeeping for the two cases above, stated over plain strings. */
  lemma ConcatShape(c: string, lead: string, j: string, tr: string,
                    x: string, ct: string, leadT: string, jt: string, trT: string)
    requires c == x + ct && ct == leadT + jt + trT
    requires lead + j == x + leadT + jt && tr == trT
    ensures c == lead + j + tr
  {
    assert x + (leadT + jt + trT) == (x + leadT + jt) + trT;
  }

  lemma {:induction false} JoinWordsHasNoEdgeWhitespace(words: seq<string>)
    requires forall k :: 0 <= k < |words| ==> IsWord(words[k])
    ensures NoEdgeWhitespace(JoinSpace(words))
    ensures words != [] ==> JoinSpace(words) != []
  {
    if |words| > 1 {
      JoinWordsHasNoEdgeWhitespace(words[1..]);
    }
  }

  lemma StripSurrounded(p: string, j: string, q: string)
    requires AllWhitespace(p) && AllWhitespace(q) && NoEdgeWhitespace(j)
    ensures Strip(p + j + q) == j
  {
    var s := p + j + q;
    if j == [] {
      assert s == p + q;
      AllWhitespaceConcat(p, q);
    } else {
      assert s == p + (j + q);
      FirstNonSpaceAfter(p, j + q);
      assert (p + j)[|p + j| - 1] == j[|j| - 1];
      EndNonSpaceBefore(p + j, q);
      assert s[|p|..|p| + |j|] == j;
    }
  }

  /** `normalize(text)` is `' '.join(text.lower().split())`: the lower-cased words joined by single spaces. */
  lemma NormalizeIsJoinOfWords(text: string)
    ensures Normalize(text) == JoinSpace(SplitWords(Lower(text)))
  {
    var l := Lower(text);
    CollapseIsJoin(l);
    SplitWordsAreWords(l);
    JoinWordsHasNoEdgeWhitespace(SplitWords(l));
    StripSurrounded(LeadingSpace(l), JoinSpace(SplitWords(l)), TrailingSpace(l));
  }

  // ---------------------------------------------------------------------------
  // remove_special_chars
  // ---------------------------------------------------------------------------

  /** The complement of `[^a-zA-Z0-9\s]`: the characters `remove_special_chars` keeps. */
  predicate IsKeptChar(c: char) {
    IsAsciiLetter(c) || IsAsciiDigit(c) || IsWhitespace(c)
  }

  /**
   * `re.sub(r'[^a-zA-Z0-9\s]', '', text)`: deletes every other character. Each kept character
   * occurs as often as in the input, and nothing else occurs.
   */
  function RemoveSpecialChars(text: string): (r: string)
    ensures |r| <= |text|
    ensures forall i :: 0 <= i < |r| ==> IsKeptChar(r[i])
    ensures forall c :: multiset(r)[c] == if IsKeptChar(c) then multiset(text)[c] else 0
  {
    FilterCounts(IsKeptChar, text);
    Filter(IsKeptChar, text)
  }

  /** The kept characters stay in their input order. */
  lemma RemoveSpecialCharsIsSubsequence(text: string)
    ensures IsSubsequence(RemoveSpecialChars(text), text)
  {
    FilterIsSubsequence(IsKeptChar, text);
  }

  /** `remove_special_chars` is idempotent, and a text is unchanged exactly when it has no special character. */
  lemma RemoveSpecialCharsFixpoint(text: string)
    ensures RemoveSpecialChars(RemoveSpecialChars(text)) == RemoveSpecialChars(text)
    ensures RemoveSpecialChars(text) == text <==> forall i :: 0 <= i < |text| ==> IsKeptChar(text[i])
  {
    FilterIdempotent(IsKeptChar, text);
    FilterFixpoint(IsKeptChar, text);
  }

  // ---------------------------------------------------------------------------
  // remove_stopwords
  // ---------------------------------------------------------------------------

  /** The test of the list comprehension: the lower-cased token is not a stop word. */
  function NotStopword(stopWords: set<string>): string -> bool {
    (token: string) => Lower(token) !in stopWords
  }

  /**
   * `remove_stopwords(text)`: tokenize, keep the tokens whose lower-cased form is not a stop word,
   * join them with single spaces.
   */
  function RemoveStopwords(text: string, tokenize: string -> seq<string>, stopWords: set<string>): string {
    JoinSpace(Filter(NotStopword(stopWords), tokenize(text)))
  }

  /**
   * When no token holds a space, the space-separated fields of the result are exactly the
   * tokens that are not stop words: in token order and with their multiplicity. When every
   * token is a stop word the result is the empty string.
   */
  lemma RemoveStopwordsFields(text: string, tokenize: string -> seq<string>, stopWords: set<string>)
    requires forall k :: 0 <= k < |tokenize(text)| ==> ' ' !in tokenize(text)[k]
    ensures var tokens, r := tokenize(text), RemoveStopwords(text, tokenize, stopWords);
      if forall k :: 0 <= k < |tokens| ==> Lower(tokens[k]) in stopWords then r == ""
      else
        var fields := SplitSpace(r);
        && IsSubsequence(fields, tokens)
        && (forall k :: 0 <= k < |fields| ==> Lower(fields[k]) !in stopWords)
        && (forall t :: multiset(fields)[t] == if Lower(t) in stopWords then 0 else multiset(tokens)[t])
  {
    var tokens := tokenize(text);
    var p := NotStopword(stopWords);
    var kept := Filter(p, tokens);
    FilterCounts(p, tokens);
    if forall k :: 0 <= k < |tokens| ==> Lower(tokens[k]) in stopWords {
      FilterNone(p, tokens);
    } else {
      var k :| 0 <= k < |tokens| && Lower(tokens[k]) !in stopWords;
      assert multiset(tokens)[tokens[k]] > 0;
      assert multiset(kept)[tokens[k]] > 0;
      forall j | 0 <= j < |kept| ensures ' ' !in kept[j] {
        assert multiset(kept)[kept[j]] > 0;
        var m :| 0 <= m < |tokens| && tokens[m] == kept[j];
      }
      SplitJoin(kept);
      FilterIsSubsequence(p, tokens);
    }
  }

  // ---------------------------------------------------------------------------
  // preprocess_text
  // ---------------------------------------------------------------------------

  /** The characters that can reach the tokenizer: lower-case ASCII letters, digits and the space. */
  predicate IsCleanChar(c: char) {
    'a' <= c <= 'z' || IsAsciiDigit(c) || c == ' '
  }

  /**
   * `preprocess_text(raw_html)`: strip HTML, normalize, remove special characters, remove stop
   * words, in that order. The text handed to the tokenizer consists of lower-case ASCII letters,
   * digits and spaces only.
   */
  function PreprocessText(rawHtml: string, removeHtmlTags: string -> string,
                          tokenize: string -> seq<string>, stopWords: set<string>): (r: string)
    ensures var cleaned := RemoveSpecialChars(Normalize(removeHtmlTags(rawHtml)));
      && (forall i :: 0 <= i < |cleaned| ==> IsCleanChar(cleaned[i]))
      && r == RemoveStopwords(cleaned, tokenize, stopWords)
  {
    var text := removeHtmlTags(rawHtml);
    var normalized := Normalize(text);
    var cleaned := RemoveSpecialChars(normalized);
    assert forall i :: 0 <= i < |cleaned| ==> IsCleanChar(cleaned[i]) by {
      forall i | 0 <= i < |cleaned| ensures IsCleanChar(cleaned[i]) {
        assert multiset(cleaned)[cleaned[i]] > 0;
        var m :| 0 <= m < |normalized| && normalized[m] == cleaned[i];
      }
    }
    RemoveStopwords(cleaned, tokenize, stopWords)
  }
}
