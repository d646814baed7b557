/**
 * The French-text normaliser of src/lib/textUtils.ts.
 *
 * `preprocessFrenchText` runs two global, case-insensitive, whole-word
 * regular-expression replacements, first `/\bbienvenu\b/gi` and then
 * `/\bbienvenue\b/gi`, each replacing a match by "bonne arrivée" in a casing
 * chosen from the match alone. `isFrenchSource` compares a language code
 * with "fra_Latn".
 *
 * The regular expressions are modelled with JavaScript's semantics without
 * the `u` flag: `\b` is a boundary between an ASCII word character
 * [A-Za-z0-9_] and anything else (or an end of the text), and the `i` flag
 * folds ASCII letters only, as ECMAScript's Canonicalize does for these
 * ASCII patterns.
 */
module TextUtils {

  // ---------------------------------------------------------------------
  // Characters
  // ---------------------------------------------------------------------

  /** A character of `\w`, the class that `\b` tests. */
  predicate IsWordChar(c: char) {
    ('a' <= c <= 'z') || ('A' <= c <= 'Z') || ('0' <= c <= '9') || c == '_'
  }

  predicate IsAsciiUpper(c: char) { 'A' <= c <= 'Z' }

  predicate IsAsciiLower(c: char) { 'a' <= c <= 'z' }

  /** `toUpperCase` on one character; only ASCII letters ever reach it here. */
  function ToUpper(c: char): char {
    if IsAsciiLower(c) then (c as int - 32) as char else c
  }

  /** `m === m.toUpperCase()`: upper-casing changes no character of m. */
  predicate IsUpperCase(m: string) {
    forall k :: 0 <= k < |m| ==> ToUpper(m[k]) == m[k]
  }

  /** Equality under the regular expression's `i` flag. */
  predicate SameIgnoringCase(a: string, b: string) {
    |a| == |b| && forall k :: 0 <= k < |a| ==> ToUpper(a[k]) == ToUpper(b[k])
  }

  /** The body of a pattern `\b<w>\b`: lower-case ASCII letters. */
  predicate IsWordPattern(w: string) {
    |w| > 0 && forall k :: 0 <= k < |w| ==> IsAsciiLower(w[k])
  }

  // ---------------------------------------------------------------------
  // The constants of the source
  // ---------------------------------------------------------------------

  const Bienvenu: string := "bienvenu"
  const Bienvenue: string := "bienvenue"

  const UpperPhrase: string := "BONNE ARRIV\U{C9}E"
  const TitlePhrase: string := "Bonne arriv\U{E9}e"
  const LowerPhrase: string := "bonne arriv\U{E9}e"

  const FrenchSource: string := "fra_Latn"

  // ---------------------------------------------------------------------
  // The two replacement passes, as the regular-expression engine runs them
  // ---------------------------------------------------------------------

  /**
   * The callback given to both `replace` calls: the casing of the phrase
   * follows the match, and the capitals phrase is chosen exactly for a match
   * in capitals.
   */
  function ReplacementFor(m: string): (r: string)
    ensures r == UpperPhrase || r == TitlePhrase || r == LowerPhrase
    ensures r == UpperPhrase <==> IsUpperCase(m)
  {
    assert UpperPhrase[1] != TitlePhrase[1] && UpperPhrase[1] != LowerPhrase[1];
    if IsUpperCase(m) then UpperPhrase
    else if m[0] == ToUpper(m[0]) then TitlePhrase
    else LowerPhrase
  }

  /** Index i holds a word character (false outside the text). */
  predicate IsWordAt(s: string, i: int) {
    0 <= i < |s| && IsWordChar(s[i])
  }

  /** `\b` at index i: exactly one of the characters around i is a word character. */
  predicate IsBoundary(s: string, i: int) {
    IsWordAt(s, i - 1) != IsWordAt(s, i)
  }

  /** `/\b<w>\b/i` matches s at index i. */
  predicate MatchesAt(w: string, s: string, i: nat) {
    && i + |w| <= |s|
    && IsBoundary(s, i)
    && SameIgnoringCase(s[i..i + |w|], w)
    && IsBoundary(s, i + |w|)
  }

  /**
   * `s.replace(/\b<w>\b/gi, ReplacementFor)` from index i on: the expression
   * is tried at each index from left to right; a match is replaced and the
   * search resumes after it, any other character is copied. When the
   * expression matches nowhere from i on, the rest of the text comes back
   * unchanged.
   */
  function ReplaceFrom(w: string, s: string, i: nat): (r: string)
    requires |w| > 0 && i <= |s|
    ensures (forall j :: i <= j < |s| ==> !MatchesAt(w, s, j)) ==> r == s[i..]
    decreases |s| - i
  {
    if i == |s| then []
    else if MatchesAt(w, s, i) then ReplacementFor(s[i..i + |w|]) + ReplaceFrom(w, s, i + |w|)
    else
      assert s[i..] == [s[i]] + s[i + 1..];
      [s[i]] + ReplaceFrom(w, s, i + 1)
  }

  /** One global whole-word replacement pass; it agrees with the word-by-word reference `Rewrite`. */
  function ReplaceWord(w: string, s: string): (r: string)
    requires |w| > 0
    ensures IsWordPattern(w) ==> r == Rewrite(w, s)
  {
    if IsWordPattern(w) then ReplaceFromIsRewrite(w, s, 0); ReplaceFrom(w, s, 0)
    else ReplaceFrom(w, s, 0)
  }

  /**
   * `preprocessFrenchText`: the empty text is returned as it is; any other
   * text goes through the `bienvenu` pass and then the `bienvenue` pass.
   */
  function PreprocessFrenchText(text: string): (r: string)
    ensures r == Rewrite(Bienvenue, Rewrite(Bienvenu, text))
  {
    TargetsArePatterns();
    if text == [] then text
    else ReplaceWord(Bienvenue, ReplaceWord(Bienvenu, text))
  }

  /**
   * `isFrenchSource`: true for the one code `fra_Latn`, French (ISO 639-3
   * `fra`) in Latin script, and for no other code.
   */
  function IsFrenchSource(srcLang: string): (r: bool)
    ensures r <==> srcLang == FrenchSource
  {
    srcLang == FrenchSource
  }

  // ---------------------------------------------------------------------
  // Reference: the text as a sequence of words and other characters
  // ---------------------------------------------------------------------

  /** Length of the run of word characters that starts s. */
  function WordLen(s: string): (n: nat)
    ensures n <= |s|
    ensures forall k :: 0 <= k < n ==> IsWordChar(s[k])
    ensures n == |s| || !IsWordChar(s[n])
  {
    if s == [] || !IsWordChar(s[0]) then 0 else 1 + WordLen(s[1..])
  }

  /** A whole word of the text after rewriting: replaced when it is w up to case. */
  function RewriteToken(w: string, word: string): string {
    if SameIgnoringCase(word, w) then ReplacementFor(word) else word
  }

  /**
   * Reference meaning of one pass: cut s into maximal runs of word
   * characters and single other characters, rewrite each run that equals w
   * ignoring case, and keep everything else.
   */
  function Rewrite(w: string, s: string): (r: string)
    decreases |s|
  {
    if s == [] then []
    else if !IsWordChar(s[0]) then [s[0]] + Rewrite(w, s[1..])
    else
      var n := WordLen(s);
      RewriteToken(w, s[..n]) + Rewrite(w, s[n..])
  }

  /** No whole word of s equals w ignoring case. */
  predicate Free(w: string, s: string)
    decreases |s|
  {
    if s == [] then true
    else if !IsWordChar(s[0]) then Free(w, s[1..])
    else
      var n := WordLen(s);
      !SameIgnoringCase(s[..n], w) && Free(w, s[n..])
  }

  /** w occurs in s as a substring, ignoring case (whole word or not). */
  ghost predicate ContainsIgnoringCase(s: string, w: string) {
    exists i :: 0 <= i && OccursAt(w, s, i)
  }

  /** w occurs in s at index i, ignoring case. */
  predicate OccursAt(w: string, s: string, i: nat) {
    i + |w| <= |s| && SameIgnoringCase(s[i..i + |w|], w)
  }

  /** Nothing joins across the seam of a + b: one side is empty or ends/starts in a non-word character. */
  predicate Separated(a: string, b: string) {
    a == [] || b == [] || !IsWordChar(a[|a| - 1]) || !IsWordChar(b[0])
  }

  /** A non-empty run of word characters. */
  predicate IsWord(u: string) {
    |u| > 0 && forall k :: 0 <= k < |u| ==> IsWordChar(u[k])
  }

  // ---------------------------------------------------------------------
  // Helper facts
  // ---------------------------------------------------------------------

  lemma WordLenIs(s: string, m: nat)
    requires m <= |s|
    requires forall k :: 0 <= k < m ==> IsWordChar(s[k])
    requires m == |s| || !IsWordChar(s[m])
    ensures WordLen(s) == m
  {
  }

  /** Both targets are lower-case ASCII words. */
  lemma TargetsArePatterns()
    ensures IsWordPattern(Bienvenu) && IsWordPattern(Bienvenue)
  {
    // One case per letter: the solver does not expand a quantifier over a
    // string literal's indices by itself.
    forall k | 0 <= k < |Bienvenue| ensures IsAsciiLower(Bienvenue[k]) {
      if k == 0 {} else if k == 1 {} else if k == 2 {} else if k == 3 {}
      else if k == 4 {} else if k == 5 {} else if k == 6 {} else if k == 7 {} else {}
    }
    forall k | 0 <= k < |Bienvenu| ensures IsAsciiLower(Bienvenu[k]) {
      assert Bienvenu[k] == Bienvenue[k];
    }
  }

  /** A text equal to a word pattern up to case consists of ASCII letters. */
  lemma SameAsPatternIsWord(m: string, w: string)
    requires IsWordPattern(w) && SameIgnoringCase(m, w)
    ensures IsWord(m)
    ensures forall k :: 0 <= k < |m| ==> IsAsciiUpper(m[k]) || IsAsciiLower(m[k])
  {
    forall k | 0 <= k < |m|
      ensures IsAsciiUpper(m[k]) || IsAsciiLower(m[k])
    {
      assert ToUpper(m[k]) == ToUpper(w[k]);
    }
  }

  lemma SeqAssoc(x: string, y: string, z: string)
    ensures x + (y + z) == (x + y) + z
  {
  }

  /** One step of the scan where the expression does not match: the character is copied. */
  lemma ScanCopies(w: string, s: string, i: nat)
    requires |w| > 0 && i < |s| && !MatchesAt(w, s, i)
    ensures ReplaceFrom(w, s, i) == [s[i]] + ReplaceFrom(w, s, i + 1)
  {
  }

  /** Inside a word no match can start, so the scan copies up to the word's end. */
  lemma {:induction false} ScanCopiesInsideWord(w: string, s: string, k: nat, j: nat)
    requires |w| > 0 && 0 < k <= j <= |s|
    requires forall t :: k - 1 <= t < j ==> IsWordChar(s[t])
    ensures ReplaceFrom(w, s, k) == s[k..j] + ReplaceFrom(w, s, j)
    decreases j - k
  {
    if k == j {
      assert s[k..j] == [];
    } else {
      var rest := ReplaceFrom(w, s, j);
      assert !IsBoundary(s, k) by {
        assert IsWordChar(s[k - 1]) && IsWordChar(s[k]);
      }
      calc {
        ReplaceFrom(w, s, k);
        { ScanCopies(w, s, k); }
        [s[k]] + ReplaceFrom(w, s, k + 1);
        { ScanCopiesInsideWord(w, s, k + 1, j); }
        [s[k]] + (s[k + 1..j] + rest);
        { SeqAssoc([s[k]], s[k + 1..j], rest); }
        ([s[k]] + s[k + 1..j]) + rest;
        { assert s[k..j] == [s[k]] + s[k + 1..j]; }
        s[k..j] + rest;
      }
    }
  }

  /** Rewrite of a single whole word is that word's rewritten token. */
  lemma RewriteWord(w: string, u: string)
    requires IsWord(u)
    ensures Rewrite(w, u) == RewriteToken(w, u)
  {
    WordLenIs(u, |u|);
    assert u[..|u|] == u;
  }

  /** Free of a single whole word: that word is not w. */
  lemma FreeWord(w: string, u: string)
    requires IsWord(u)
    ensures Free(w, u) <==> !SameIgnoringCase(u, w)
  {
    WordLenIs(u, |u|);
    assert u[..|u|] == u;
  }

  /** Rewrite starts with the same non-word character as its input. */
  lemma RewriteKeepsHead(w: string, s: string)
    requires s != [] && !IsWordChar(s[0])
    ensures Rewrite(w, s) != [] && Rewrite(w, s)[0] == s[0]
  {
  }

  // ---------------------------------------------------------------------
  // The scan and the reference agree
  // ---------------------------------------------------------------------

  /** Where s[i..] starts with a word, the reference rewrites that word and then the rest. */
  lemma RewriteAtWord(w: string, s: string, i: nat, j: nat)
    requires i < j <= |s|
    requires forall t :: i <= t < j ==> IsWordChar(s[t])
    requires j == |s| || !IsWordChar(s[j])
    ensures Rewrite(w, s[i..]) == RewriteToken(w, s[i..j]) + Rewrite(w, s[j..])
  {
    var t := s[i..];
    forall k | 0 <= k < j - i ensures IsWordChar(t[k]) {
      assert t[k] == s[i + k];
    }
    WordLenIs(t, j - i);
    SuffixSlices(s, i, j);
  }

  lemma SuffixSlices(s: string, i: nat, j: nat)
    requires i <= j <= |s|
    ensures s[i..][..j - i] == s[i..j] && s[i..][j - i..] == s[j..]
  {
  }

  /**
   * One step of the agreement: at the start of a word ending at j, the scan
   * either replaces the whole word or copies it, exactly as the reference
   * does with that word.
   */
  lemma ScanAtWordStart(w: string, s: string, i: nat, j: nat)
    requires IsWordPattern(w) && i < j <= |s|
    requires !IsWordAt(s, i - 1)
    requires forall t :: i <= t < j ==> IsWordChar(s[t])
    requires j == |s| || !IsWordChar(s[j])
    ensures ReplaceFrom(w, s, i) == RewriteToken(w, s[i..j]) + ReplaceFrom(w, s, j)
  {
    MatchAtWordStart(w, s, i, j);
    if MatchesAt(w, s, i) {
      ScanMatches(w, s, i);
      SameEnd(w, s, i, i + |w|, j);
    } else {
      ScanSkipsWholeWord(w, s, i, j);
    }
  }

  /** Two runs of word characters from i, each ended by a non-word character or the end, have the same end. */
  lemma RunEndIsUnique(s: string, i: nat, j: nat, k: nat)
    requires i <= j <= |s| && i <= k <= |s|
    requires forall t :: i <= t < j ==> IsWordChar(s[t])
    requires forall t :: i <= t < k ==> IsWordChar(s[t])
    requires j == |s| || !IsWordChar(s[j])
    requires k == |s| || !IsWordChar(s[k])
    ensures j == k
  {
  }

  /**
   * At the start of a word, the expression matches exactly when the whole
   * word is w up to case: `\b` rules out a match of a prefix of a longer word.
   */
  lemma MatchAtWordStart(w: string, s: string, i: nat, j: nat)
    requires IsWordPattern(w) && i < j <= |s|
    requires !IsWordAt(s, i - 1)
    requires forall t :: i <= t < j ==> IsWordChar(s[t])
    requires j == |s| || !IsWordChar(s[j])
    ensures MatchesAt(w, s, i) <==> SameIgnoringCase(s[i..j], w)
  {
    if MatchesAt(w, s, i) {
      var m := s[i..i + |w|];
      SameAsPatternIsWord(m, w);
      assert IsWordAt(s, i + |w| - 1) by {
        assert m[|w| - 1] == s[i + |w| - 1];
      }
      assert !IsWordAt(s, i + |w|);
      forall t | i <= t < i + |w| ensures IsWordChar(s[t]) {
        assert m[t - i] == s[t];
      }
      RunEndIsUnique(s, i, j, i + |w|);
    }
    if SameIgnoringCase(s[i..j], w) {
      assert IsBoundary(s, i) && IsBoundary(s, j);
    }
  }

  /** The rewritten word and the scan after it depend on the end index only through its value. */
  lemma SameEnd(w: string, s: string, i: nat, k: nat, j: nat)
    requires |w| > 0 && i <= k <= |s| && k == j
    ensures RewriteToken(w, s[i..k]) + ReplaceFrom(w, s, k) == RewriteToken(w, s[i..j]) + ReplaceFrom(w, s, j)
  {
  }

  /** Where the expression matches, the scan replaces the match and resumes after it. */
  lemma ScanMatches(w: string, s: string, i: nat)
    requires |w| > 0 && i <= |s| && MatchesAt(w, s, i)
    ensures ReplaceFrom(w, s, i) == RewriteToken(w, s[i..i + |w|]) + ReplaceFrom(w, s, i + |w|)
  {
  }

  /** Where the word at i is not w up to case, the scan copies all of it. */
  lemma ScanSkipsWholeWord(w: string, s: string, i: nat, j: nat)
    requires IsWordPattern(w) && i < j <= |s|
    requires !IsWordAt(s, i - 1)
    requires forall t :: i <= t < j ==> IsWordChar(s[t])
    requires j == |s| || !IsWordChar(s[j])
    requires !SameIgnoringCase(s[i..j], w)
    ensures ReplaceFrom(w, s, i) == RewriteToken(w, s[i..j]) + ReplaceFrom(w, s, j)
  {
    var word, rest := s[i..j], ReplaceFrom(w, s, j);
    MatchAtWordStart(w, s, i, j);
    calc {
      ReplaceFrom(w, s, i);
      { ScanCopies(w, s, i); }
      [s[i]] + ReplaceFrom(w, s, i + 1);
      { ScanCopiesInsideWord(w, s, i + 1, j); }
      [s[i]] + (s[i + 1..j] + rest);
      { SeqAssoc([s[i]], s[i + 1..j], rest); }
      ([s[i]] + s[i + 1..j]) + rest;
      { assert word == [s[i]] + s[i + 1..j]; }
      word + rest;
    }
  }

  /**
   * From any index that is not strictly inside a word, the regular-expression
   * scan produces what the word-by-word reference produces.
   */
  lemma {:induction false} ReplaceFromIsRewrite(w: string, s: string, i: nat)
    requires IsWordPattern(w) && i <= |s|
    requires !IsWordAt(s, i - 1) || !IsWordAt(s, i)
    ensures ReplaceFrom(w, s, i) == Rewrite(w, s[i..])
    decreases |s| - i
  {
    if i == |s| {
      assert s[i..] == [];
    } else if !IsWordChar(s[i]) {
      if MatchesAt(w, s, i) {
        SameAsPatternIsWord(s[i..i + |w|], w);
        assert false;
      }
      ScanCopies(w, s, i);
      ReplaceFromIsRewrite(w, s, i + 1);
      assert s[i..][1..] == s[i + 1..];
    } else {
      var n := WordLen(s[i..]);
      var j := i + n;
      forall t | i <= t < j ensures IsWordChar(s[t]) {
        assert s[i..][t - i] == s[t];
      }
      assert j < |s| ==> !IsWordChar(s[j]) by {
        if j < |s| { assert s[i..][n] == s[j]; }
      }
      ReplaceFromIsRewrite(w, s, j);
      ScanAtWordStart(w, s, i, j);
      RewriteAtWord(w, s, i, j);
    }
  }

  // ---------------------------------------------------------------------
  // Properties of one pass
  // ---------------------------------------------------------------------

  /** The first word of a + b is the first word of a when no word crosses the seam. */
  lemma WordLenConcat(a: string, b: string)
    requires Separated(a, b) && a != [] && IsWordChar(a[0])
    ensures WordLen(a + b) == WordLen(a)
    ensures (a + b)[..WordLen(a)] == a[..WordLen(a)]
    ensures (a + b)[WordLen(a)..] == a[WordLen(a)..] + b
    ensures Separated(a[WordLen(a)..], b)
  {
    var n := WordLen(a);
    WordLenIs(a + b, n);
  }

  /** A pass works word by word: it distributes over a seam no word crosses. */
  lemma {:induction false} RewriteConcat(w: string, a: string, b: string)
    requires Separated(a, b)
    ensures Rewrite(w, a + b) == Rewrite(w, a) + Rewrite(w, b)
    decreases |a|
  {
    if a == [] {
      assert a + b == b;
    } else if !IsWordChar(a[0]) {
      assert (a + b)[1..] == a[1..] + b;
      RewriteConcat(w, a[1..], b);
      SeqAssoc([a[0]], Rewrite(w, a[1..]), Rewrite(w, b));
    } else {
      var n := WordLen(a);
      WordLenConcat(a, b);
      var tok := RewriteToken(w, a[..n]);
      calc {
        Rewrite(w, a + b);
        tok + Rewrite(w, a[n..] + b);
        { RewriteConcat(w, a[n..], b); }
        tok + (Rewrite(w, a[n..]) + Rewrite(w, b));
        { SeqAssoc(tok, Rewrite(w, a[n..]), Rewrite(w, b)); }
        (tok + Rewrite(w, a[n..])) + Rewrite(w, b);
        Rewrite(w, a) + Rewrite(w, b);
      }
    }
  }

  /** Freedom from w is kept by joining two free texts at a seam no word crosses. */
  lemma {:induction false} FreeConcat(w: string, a: string, b: string)
    requires Separated(a, b) && Free(w, a) && Free(w, b)
    ensures Free(w, a + b)
    decreases |a|
  {
    if a == [] {
      assert a + b == b;
    } else if !IsWordChar(a[0]) {
      assert (a + b)[1..] == a[1..] + b;
      FreeConcat(w, a[1..], b);
    } else {
      var n := WordLen(a);
      WordLenConcat(a, b);
      FreeConcat(w, a[n..], b);
    }
  }

  /** A text with no word equal to w is left unchanged by the w pass. */
  lemma {:induction false} FreeIsFixpoint(w: string, s: string)
    requires Free(w, s)
    ensures Rewrite(w, s) == s
    decreases |s|
  {
    if s == [] {
    } else if !IsWordChar(s[0]) {
      FreeIsFixpoint(w, s[1..]);
      assert s == [s[0]] + s[1..];
    } else {
      var n := WordLen(s);
      FreeIsFixpoint(w, s[n..]);
      assert s == s[..n] + s[n..];
    }
  }

  /** The three phrases contain neither "bienvenu" nor "bienvenue" as a word. */
  lemma PhrasesFree(w: string)
    requires w == Bienvenu || w == Bienvenue
    ensures Free(w, UpperPhrase) && Free(w, TitlePhrase) && Free(w, LowerPhrase)
  {
    UpperPhraseFree(w);
    TitlePhraseFree(w);
    LowerPhraseFree(w);
  }

  lemma UpperPhraseFree(w: string)
    requires w == Bienvenu || w == Bienvenue
    ensures Free(w, UpperPhrase)
  {
    assert UpperPhrase == "BONNE" + [' '] + "ARRIV" + ['\U{C9}'] + "E";
    PhraseFree(w, "BONNE", "ARRIV", '\U{C9}', "E");
  }

  lemma TitlePhraseFree(w: string)
    requires w == Bienvenu || w == Bienvenue
    ensures Free(w, TitlePhrase)
  {
    assert TitlePhrase == "Bonne" + [' '] + "arriv" + ['\U{E9}'] + "e";
    PhraseFree(w, "Bonne", "arriv", '\U{E9}', "e");
  }

  lemma LowerPhraseFree(w: string)
    requires w == Bienvenu || w == Bienvenue
    ensures Free(w, LowerPhrase)
  {
    assert LowerPhrase == "bonne" + [' '] + "arriv" + ['\U{E9}'] + "e";
    PhraseFree(w, "bonne", "arriv", '\U{E9}', "e");
  }

  /** A word shorter than w is not w. */
  lemma ShortWordFree(w: string, u: string)
    requires IsWord(u) && |u| < |w|
    ensures Free(w, u)
  {
    FreeWord(w, u);
  }

  /** A non-word character on its own holds no word. */
  lemma SeparatorFree(w: string, c: char)
    requires !IsWordChar(c)
    ensures Free(w, [c])
  {
    assert [c][1..] == [];
  }

  /** A phrase made of three words shorter than w, separated by non-word characters, is free of w. */
  lemma PhraseFree(w: string, first: string, second: string, accent: char, last: string)
    requires IsWord(first) && IsWord(second) && IsWord(last) && !IsWordChar(accent)
    requires |first| < |w| && |second| < |w| && |last| < |w|
    ensures Free(w, first + [' '] + second + [accent] + last)
  {
    var tail := [accent] + last;
    assert Free(w, tail) by {
      ShortWordFree(w, last);
      SeparatorFree(w, accent);
      FreeConcat(w, [accent], last);
    }
    var mid := second + tail;
    assert Free(w, mid) by {
      ShortWordFree(w, second);
      FreeConcat(w, second, tail);
    }
    var spaced := [' '] + mid;
    assert Free(w, spaced) by {
      SeparatorFree(w, ' ');
      FreeConcat(w, [' '], mid);
    }
    assert Free(w, first + spaced) by {
      ShortWordFree(w, first);
      FreeConcat(w, first, spaced);
    }
    calc {
      first + [' '] + second + [accent] + last;
      { SeqAssoc(first + [' '] + second, [accent], last); }
      first + [' '] + second + tail;
      { SeqAssoc(first + [' '], second, tail); }
      first + [' '] + mid;
      { SeqAssoc(first, [' '], mid); }
      first + spaced;
    }
  }

  /** A rewritten word holds no v: it became a phrase, or it was kept and was not v. */
  lemma TokenFree(w: string, v: string, tok: string)
    requires w == Bienvenu || w == Bienvenue
    requires v == Bienvenu || v == Bienvenue
    requires IsWord(tok)
    requires v == w || !SameIgnoringCase(tok, v)
    ensures Free(v, RewriteToken(w, tok))
  {
    if SameIgnoringCase(tok, w) {
      PhrasesFree(v);
    } else {
      FreeWord(v, tok);
    }
  }

  /**
   * After the w pass, no word equals w; and a text free of the other target
   * stays free of it, because the phrases contain neither target.
   */
  lemma {:induction false} RewriteLeavesFree(w: string, v: string, s: string)
    requires w == Bienvenu || w == Bienvenue
    requires v == Bienvenu || v == Bienvenue
    requires v == w || Free(v, s)
    ensures Free(v, Rewrite(w, s))
    decreases |s|
  {
    if s == [] {
    } else if !IsWordChar(s[0]) {
      RewriteLeavesFree(w, v, s[1..]);
      var rest := Rewrite(w, s[1..]);
      assert Rewrite(w, s) == [s[0]] + rest;
      SeparatorFree(v, s[0]);
      FreeConcat(v, [s[0]], rest);
    } else {
      var n := WordLen(s);
      var tok, after := s[..n], s[n..];
      assert IsWord(tok);
      assert v == w || (!SameIgnoringCase(tok, v) && Free(v, after));
      RewriteLeavesFree(w, v, after);
      TokenFree(w, v, tok);
      var rest := Rewrite(w, after);
      assert Rewrite(w, s) == RewriteToken(w, tok) + rest;
      assert Separated(RewriteToken(w, tok), rest) by {
        if after != [] {
          RewriteKeepsHead(w, after);
        }
      }
      FreeConcat(v, RewriteToken(w, tok), rest);
    }
  }

  // ---------------------------------------------------------------------
  // Properties of preprocessFrenchText
  // ---------------------------------------------------------------------

  /** Text with no case-insensitive "bienvenu" anywhere in it is returned unchanged. */
  lemma UnchangedWithoutBienvenu(s: string)
    requires !ContainsIgnoringCase(s, Bienvenu)
    ensures PreprocessFrenchText(s) == s
  {
    if s != [] {
      forall j | 0 <= j < |s| ensures !MatchesAt(Bienvenu, s, j) {
        assert !OccursAt(Bienvenu, s, j);
      }
      forall j | 0 <= j < |s| ensures !MatchesAt(Bienvenue, s, j) {
        if MatchesAt(Bienvenue, s, j) {
          var m := s[j..j + |Bienvenue|];
          forall k | 0 <= k < |Bienvenu|
            ensures ToUpper(s[j..j + |Bienvenu|][k]) == ToUpper(Bienvenu[k])
          {
            assert m[k] == s[j..j + |Bienvenu|][k];
            assert Bienvenue[k] == Bienvenu[k];
          }
          assert OccursAt(Bienvenu, s, j);
          assert false;
        }
      }
      assert s[0..] == s;
    }
  }

  /** Applying the normaliser twice gives what applying it once gives. */
  lemma Idempotent(s: string)
    ensures PreprocessFrenchText(PreprocessFrenchText(s)) == PreprocessFrenchText(s)
  {
    var once := Rewrite(Bienvenu, s);
    var t := Rewrite(Bienvenue, once);
    RewriteLeavesFree(Bienvenu, Bienvenu, s);
    RewriteLeavesFree(Bienvenue, Bienvenu, once);
    RewriteLeavesFree(Bienvenue, Bienvenue, once);
    FreeIsFixpoint(Bienvenu, t);
    FreeIsFixpoint(Bienvenue, t);
  }

  /** The normaliser works across a non-word character independently on each side. */
  lemma SplitsAtNonWord(a: string, x: char, b: string)
    requires !IsWordChar(x)
    ensures PreprocessFrenchText(a + [x] + b) == PreprocessFrenchText(a) + [x] + PreprocessFrenchText(b)
  {
    assert a + [x] + b == a + ([x] + b);
    RewriteConcat(Bienvenu, a, [x] + b);
    assert ([x] + b)[1..] == b;
    var a1 := Rewrite(Bienvenu, a);
    var b1 := Rewrite(Bienvenu, b);
    assert Rewrite(Bienvenu, [x] + b) == [x] + b1;
    RewriteConcat(Bienvenue, a1, [x] + b1);
    assert ([x] + b1)[1..] == b1;
    assert Rewrite(Bienvenue, [x] + b1) == [x] + Rewrite(Bienvenue, b1);
  }

  /** A lone "bienvenu" or "bienvenue", in any casing, becomes the phrase its casing selects. */
  lemma TargetWord(m: string)
    requires SameIgnoringCase(m, Bienvenu) || SameIgnoringCase(m, Bienvenue)
    ensures PreprocessFrenchText(m) == ReplacementFor(m)
  {
    if SameIgnoringCase(m, Bienvenu) {
      TargetsArePatterns();
      SameAsPatternIsWord(m, Bienvenu);
      RewriteWord(Bienvenu, m);
      PhrasesFree(Bienvenue);
      FreeIsFixpoint(Bienvenue, ReplacementFor(m));
    } else {
      TargetsArePatterns();
      SameAsPatternIsWord(m, Bienvenue);
      RewriteWord(Bienvenu, m);
      RewriteWord(Bienvenue, m);
    }
  }

  /**
   * The casing rules, stated on the letters of the match: all capitals give
   * "BONNE ARRIVÉE", a capital B with some lower-case letter gives
   * "Bonne arrivée", a lower-case b gives "bonne arrivée". The two forms
   * get the same phrase: there is no gender agreement.
   */
  lemma CasingRules(m: string)
    requires SameIgnoringCase(m, Bienvenu) || SameIgnoringCase(m, Bienvenue)
    ensures (forall k :: 0 <= k < |m| ==> IsAsciiUpper(m[k])) ==> PreprocessFrenchText(m) == UpperPhrase
    ensures m[0] == 'B' && (exists k :: 0 <= k < |m| && IsAsciiLower(m[k])) ==> PreprocessFrenchText(m) == TitlePhrase
    ensures m[0] == 'b' ==> PreprocessFrenchText(m) == LowerPhrase
    ensures m[0] == 'b' || m[0] == 'B'
  {
    TargetWord(m);
    var w := if SameIgnoringCase(m, Bienvenu) then Bienvenu else Bienvenue;
    TargetsArePatterns();
    SameAsPatternIsWord(m, w);
    ReplacementCasing(m);
    assert ToUpper(m[0]) == ToUpper(w[0]);
  }

  /** The callback's choice on a run of ASCII letters, by the case of its letters. */
  lemma ReplacementCasing(m: string)
    requires |m| > 0
    requires forall k :: 0 <= k < |m| ==> IsAsciiUpper(m[k]) || IsAsciiLower(m[k])
    ensures (forall k :: 0 <= k < |m| ==> IsAsciiUpper(m[k])) ==> ReplacementFor(m) == UpperPhrase
    ensures IsAsciiUpper(m[0]) && (exists k :: 0 <= k < |m| && IsAsciiLower(m[k])) ==> ReplacementFor(m) == TitlePhrase
    ensures IsAsciiLower(m[0]) ==> ReplacementFor(m) == LowerPhrase
  {
    if exists k :: 0 <= k < |m| && IsAsciiLower(m[k]) {
      var k :| 0 <= k < |m| && IsAsciiLower(m[k]);
      assert ToUpper(m[k]) != m[k];
      assert !IsUpperCase(m);
    } else {
      assert IsUpperCase(m);
    }
  }

  /**
   * A match is rewritten from its own letters whatever surrounds it, and the
   * text on either side is normalised on its own and kept in place.
   */
  lemma TargetInContext(a: string, x: char, m: string, y: char, b: string)
    requires !IsWordChar(x) && !IsWordChar(y)
    requires SameIgnoringCase(m, Bienvenu) || SameIgnoringCase(m, Bienvenue)
    ensures PreprocessFrenchText(a + [x] + m + [y] + b)
         == PreprocessFrenchText(a) + [x] + ReplacementFor(m) + [y] + PreprocessFrenchText(b)
  {
    var B := m + [y] + b;
    calc {
      PreprocessFrenchText(a + [x] + m + [y] + b);
      { Regroup(a, [x], m, [y], b); }
      PreprocessFrenchText(a + [x] + B);
      { SplitsAtNonWord(a, x, B); }
      PreprocessFrenchText(a) + [x] + PreprocessFrenchText(B);
      { SplitsAtNonWord(m, y, b); TargetWord(m); }
      PreprocessFrenchText(a) + [x] + (ReplacementFor(m) + [y] + PreprocessFrenchText(b));
      { Regroup(PreprocessFrenchText(a), [x], ReplacementFor(m), [y], PreprocessFrenchText(b)); }
      PreprocessFrenchText(a) + [x] + ReplacementFor(m) + [y] + PreprocessFrenchText(b);
    }
  }

  lemma Regroup(p: string, q: string, r: string, t: string, u: string)
    ensures p + q + r + t + u == p + q + (r + t + u)
  {
    SeqAssoc(p + q + r, t, u);
    SeqAssoc(p + q, r, t + u);
    SeqAssoc(r, t, u);
  }

  /** Only whole words are rewritten: any other word, such as "bienvenus" or "_bienvenu", is kept. */
  lemma OtherWordKept(u: string)
    requires IsWord(u)
    requires !SameIgnoringCase(u, Bienvenu) && !SameIgnoringCase(u, Bienvenue)
    ensures PreprocessFrenchText(u) == u
  {
    RewriteWord(Bienvenu, u);
    RewriteWord(Bienvenue, u);
  }

  // Worked cases of the rules above, one per lemma.

  lemma ExampleLower()
    ensures PreprocessFrenchText("bienvenu") == LowerPhrase
  {
    CasingRules("bienvenu");
  }

  lemma ExampleFeminine()
    ensures PreprocessFrenchText("bienvenue") == LowerPhrase
  {
    CasingRules("bienvenue");
  }

  lemma ExampleLowerFirstLetter()
    ensures PreprocessFrenchText("bIENVENU") == LowerPhrase
  {
    CasingRules("bIENVENU");
  }

  lemma ExampleTitle()
    ensures PreprocessFrenchText("Bienvenu") == TitlePhrase
  {
    assert IsAsciiLower("Bienvenu"[1]);
    CasingRules("Bienvenu");
  }

  lemma ExampleCapitalFirstLetter()
    ensures PreprocessFrenchText("BienVENU") == TitlePhrase
  {
    assert IsAsciiLower("BienVENU"[1]);
    CasingRules("BienVENU");
  }

  lemma ExampleUpper()
    ensures PreprocessFrenchText("BIENVENU") == UpperPhrase
  {
    var m := "BIENVENU";
    assert IsUpperCase(m) by {
      forall k | 0 <= k < |m| ensures ToUpper(m[k]) == m[k] {
        // Name each index of the literal, so that each letter is looked at.
        assert k == 0 || k == 1 || k == 2 || k == 3 || k == 4 || k == 5 || k == 6 || k == 7;
      }
    }
    assert SameIgnoringCase(m, Bienvenu);
    TargetWord(m);
  }

  lemma ExampleInsideWord()
    ensures PreprocessFrenchText("abienvenuz") == "abienvenuz"
  {
    OtherWordKept("abienvenuz");
  }

  lemma ExampleLongerWord()
    ensures PreprocessFrenchText("bienvenus") == "bienvenus"
  {
    assert ToUpper("bienvenus"[8]) != ToUpper(Bienvenue[8]);
    OtherWordKept("bienvenus");
  }

  lemma ExampleUnderscore()
    ensures PreprocessFrenchText("_bienvenu") == "_bienvenu"
  {
    assert ToUpper("_bienvenu"[0]) != ToUpper(Bienvenue[0]);
    OtherWordKept("_bienvenu");
  }

  /**
   * `\b` looks at ASCII word characters only, so a target after an accented
   * letter is still a whole word: "\U{E9}bienvenu" becomes "\U{E9}bonne arriv\U{E9}e".
   */
  lemma ExampleAccentedNeighbour()
    ensures PreprocessFrenchText(['\U{E9}'] + Bienvenu) == ['\U{E9}'] + LowerPhrase
  {
    SplitsAtNonWord([], '\U{E9}', Bienvenu);
    ExampleLower();
    assert [] + ['\U{E9}'] + Bienvenu == ['\U{E9}'] + Bienvenu;
  }
}
