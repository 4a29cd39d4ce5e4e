/**
 * Whole-word substitution as `re.sub(r'\b' + re.escape(key) + r'\b', value, text)`
 * performs it, and the `re.search` test that precedes it.
 *
 * `re.escape` makes the key match literally, and the value contains no
 * backslash, so the replacement is literal too. `\b` holds at index i when
 * exactly one of text[i-1], text[i] is a word character (a missing
 * character counts as non-word).
 */
module WholeWord {
  import opened Chars
  import opened Seqs
  import opened Words

  /** text[i] exists and is a word character. */
  predicate WordAt(s: string, i: int) {
    0 <= i < |s| && IsWordChar(s[i])
  }

  /** `\b` at index i. */
  predicate Boundary(s: string, i: int) {
    WordAt(s, i - 1) != WordAt(s, i)
  }

  /** `\bk\b` matches s at index i. */
  predicate MatchAt(s: string, k: string, i: int) {
    0 <= i && i + |k| <= |s| && Boundary(s, i) && s[i..i + |k|] == k && Boundary(s, i + |k|)
  }

  /** Some match of `\bk\b` exists in s. */
  ghost predicate HasMatch(s: string, k: string) {
    exists i :: MatchAt(s, k, i)
  }

  /** The `re.sub` scan from index i: replace a match and resume after it, or copy one character. */
  function ReplaceFrom(s: string, k: string, v: string, i: nat): string
    requires |k| > 0 && i <= |s|
    decreases |s| - i
  {
    if i == |s| then []
    else if MatchAt(s, k, i) then v + ReplaceFrom(s, k, v, i + |k|)
    else [s[i]] + ReplaceFrom(s, k, v, i + 1)
  }

  /** `re.sub(r'\bk\b', v, s)`. */
  function ReplaceWholeWord(s: string, k: string, v: string): string
    requires |k| > 0
  {
    ReplaceFrom(s, k, v, 0)
  }

  /** The `re.search` scan from index i. */
  function SearchFrom(s: string, k: string, i: nat): (found: bool)
    requires |k| > 0 && i <= |s|
    ensures found <==> exists j :: i <= j && MatchAt(s, k, j)
    decreases |s| - i
  {
    if i == |s| then false else MatchAt(s, k, i) || SearchFrom(s, k, i + 1)
  }

  /** `re.search(r'\bk\b', s) is not None`. */
  function Search(s: string, k: string): (found: bool)
    requires |k| > 0
    ensures found <==> HasMatch(s, k)
  {
    SearchFrom(s, k, 0)
  }

  /** Renaming one word: k becomes v, every other word stays. */
  function Swap(k: string, v: string): (f: string -> string)
    ensures forall w :: f(w) == (if w == k then v else w)
  {
    w => if w == k then v else w
  }

  // ---------------------------------------------------------------------
  // Bridge between the regex scan and the word view.
  // ---------------------------------------------------------------------

  /** Index i is where a word or a non-word character begins. */
  predicate TokenStart(s: string, i: nat) {
    i == 0 || i >= |s| || !IsWordChar(s[i - 1]) || !IsWordChar(s[i])
  }

  /** What a match of a key made of word characters looks like. */
  lemma MatchShape(s: string, k: string, j: int)
    requires IsIdentifier(k)
    ensures MatchAt(s, k, j) ==>
      && 0 <= j && j + |k| <= |s|
      && IsWordChar(s[j]) && (j == 0 || !IsWordChar(s[j - 1]))
      && (j + |k| == |s| || !IsWordChar(s[j + |k|]))
      && s[j..j + |k|] == k
      && forall m :: 0 <= m < |k| ==> s[j + m] == k[m]
  {
    if MatchAt(s, k, j) {
      forall m | 0 <= m < |k|
        ensures s[j + m] == k[m]
      {
        assert s[j + m] == s[j..j + |k|][m];
      }
      assert s[j] == k[0];
      assert s[j + |k| - 1] == k[|k| - 1];
    }
  }

  /** Inside or at the start of a word different from k, `\bk\b` cannot match. */
  lemma NoMatchInsideOtherWord(s: string, k: string, i: nat, j: nat)
    requires IsIdentifier(k) && i < |s| && TokenStart(s, i) && IsWordChar(s[i])
    requires i <= j < i + RunLen(s[i..])
    requires s[i..i + RunLen(s[i..])] != k
    ensures !MatchAt(s, k, j)
  {
    var n := RunLen(s[i..]);
    var e := i + n;
    assert s[i..e] == s[i..][..n];
    MatchShape(s, k, j);
    if j > i {
      assert s[j - 1] == s[i..][j - 1 - i];
      assert IsWordChar(s[j - 1]);
    } else if |k| < n {
      assert s[i + |k|] == s[i..][|k|];
      assert IsWordChar(s[i + |k|]);
    } else if |k| > n {
      assert IsWordChar(k[n]);
      if e < |s| {
        assert s[e] == s[i..][n];
        assert !IsWordChar(s[e]);
      }
    }
  }

  /** At the start of a word equal to k, `\bk\b` matches. */
  lemma MatchAtWord(s: string, k: string, i: nat)
    requires IsIdentifier(k) && i < |s| && TokenStart(s, i) && IsWordChar(s[i])
    requires s[i..i + RunLen(s[i..])] == k
    ensures MatchAt(s, k, i)
  {
    var n := RunLen(s[i..]);
    assert s[i..i + n] == s[i..][..n];
    if i + n < |s| {
      assert s[i + n] == s[i..][n];
    }
  }

  /** Copying across a stretch without matches. */
  lemma {:induction false} CopyWithoutMatch(s: string, k: string, v: string, i: nat, e: nat)
    requires |k| > 0 && i <= e <= |s|
    requires forall j :: i <= j < e ==> !MatchAt(s, k, j)
    ensures ReplaceFrom(s, k, v, i) == s[i..e] + ReplaceFrom(s, k, v, e)
    decreases e - i
  {
    if i < e {
      CopyWithoutMatch(s, k, v, i + 1, e);
      var rest := ReplaceFrom(s, k, v, e);
      assert ReplaceFrom(s, k, v, i) == [s[i]] + ReplaceFrom(s, k, v, i + 1);
      assert s[i..e] == [s[i]] + s[i + 1..e];
      ConcatAssoc([s[i]], s[i + 1..e], rest);
    }
  }

  /** From a token start, the regex scan is the word renaming Swap(k, v). */
  lemma {:induction false} ReplaceFromIsMapWords(s: string, k: string, v: string, i: nat)
    requires IsIdentifier(k) && i <= |s| && TokenStart(s, i)
    ensures ReplaceFrom(s, k, v, i) == MapWords(s[i..], Swap(k, v))
    decreases |s| - i
  {
    if i == |s| {
    } else if !IsWordChar(s[i]) {
      ReplaceFromIsMapWords(s, k, v, i + 1);
      ReplaceAtNonWord(s, k, v, i);
    } else {
      var e := i + RunLen(s[i..]);
      WordEnd(s, i);
      ReplaceFromIsMapWords(s, k, v, e);
      ReplaceAtWord(s, k, v, i, e);
    }
  }

  /** The end of the word starting at i is again a token start. */
  lemma WordEnd(s: string, i: nat)
    requires i < |s| && IsWordChar(s[i])
    ensures var e := i + RunLen(s[i..]);
      && i < e <= |s| && TokenStart(s, e)
      && s[i..][..RunLen(s[i..])] == s[i..e] && s[i..][RunLen(s[i..])..] == s[e..]
  {
    var n := RunLen(s[i..]);
    if i + n < |s| {
      assert s[i + n] == s[i..][n];
    }
  }

  lemma ReplaceAtNonWord(s: string, k: string, v: string, i: nat)
    requires IsIdentifier(k) && i < |s| && !IsWordChar(s[i])
    requires ReplaceFrom(s, k, v, i + 1) == MapWords(s[i + 1..], Swap(k, v))
    ensures ReplaceFrom(s, k, v, i) == MapWords(s[i..], Swap(k, v))
  {
    MatchShape(s, k, i);
    assert s[i..][1..] == s[i + 1..];
  }

  lemma ReplaceAtWord(s: string, k: string, v: string, i: nat, e: nat)
    requires IsIdentifier(k) && i < |s| && IsWordChar(s[i]) && TokenStart(s, i)
    requires e == i + RunLen(s[i..]) && e <= |s|
    requires ReplaceFrom(s, k, v, e) == MapWords(s[e..], Swap(k, v))
    ensures ReplaceFrom(s, k, v, i) == MapWords(s[i..], Swap(k, v))
  {
    MapWordsOfWordAt(s, i, e, Swap(k, v));
    ReplaceWord(s, k, v, i, e);
  }

  /** At the start of a word the scan emits the word's renaming and resumes after it. */
  lemma ReplaceWord(s: string, k: string, v: string, i: nat, e: nat)
    requires IsIdentifier(k) && i < |s| && IsWordChar(s[i]) && TokenStart(s, i)
    requires e == i + RunLen(s[i..]) && e <= |s|
    ensures ReplaceFrom(s, k, v, i) == Swap(k, v)(s[i..e]) + ReplaceFrom(s, k, v, e)
  {
    var w := s[i..e];
    if w == k {
      ReplaceAtKey(s, k, v, i, e);
    } else {
      ReplaceAcrossOtherWord(s, k, v, i, e);
    }
  }

  lemma ReplaceAtKey(s: string, k: string, v: string, i: nat, e: nat)
    requires IsIdentifier(k) && i < |s| && IsWordChar(s[i]) && TokenStart(s, i)
    requires e == i + RunLen(s[i..]) && e <= |s| && s[i..e] == k
    ensures ReplaceFrom(s, k, v, i) == v + ReplaceFrom(s, k, v, e)
  {
    MatchAtWord(s, k, i);
    ReplaceAtMatch(s, k, v, i);
  }

  lemma MapWordsOfWordAt(s: string, i: nat, e: nat, f: string -> string)
    requires i < |s| && IsWordChar(s[i])
    requires e == i + RunLen(s[i..]) && e <= |s|
    ensures MapWords(s[i..], f) == f(s[i..e]) + MapWords(s[e..], f)
    ensures WordsOf(s[i..]) == [s[i..e]] + WordsOf(s[e..])
  {
    WordEnd(s, i);
    MapWordsAtWord(s[i..], f);
  }

  /** The scan replaces a match and resumes after it. */
  lemma ReplaceAtMatch(s: string, k: string, v: string, i: nat)
    requires |k| > 0 && i < |s| && MatchAt(s, k, i)
    ensures ReplaceFrom(s, k, v, i) == v + ReplaceFrom(s, k, v, i + |k|)
  {
  }

  lemma ReplaceAcrossOtherWord(s: string, k: string, v: string, i: nat, e: nat)
    requires IsIdentifier(k) && i < |s| && IsWordChar(s[i]) && TokenStart(s, i)
    requires e == i + RunLen(s[i..]) && e <= |s|
    requires s[i..e] != k
    ensures ReplaceFrom(s, k, v, i) == s[i..e] + ReplaceFrom(s, k, v, e)
  {
    forall j | i <= j < e
      ensures !MatchAt(s, k, j)
    {
      NoMatchInsideOtherWord(s, k, i, j);
    }
    CopyWithoutMatch(s, k, v, i, e);
  }

  /** From a token start, the regex search finds k exactly when k is one of the words. */
  lemma {:induction false} SearchFromIsWordMembership(s: string, k: string, i: nat)
    requires IsIdentifier(k) && i <= |s| && TokenStart(s, i)
    ensures SearchFrom(s, k, i) <==> k in WordsOf(s[i..])
    decreases |s| - i
  {
    if i == |s| {
    } else if !IsWordChar(s[i]) {
      MatchShape(s, k, i);
      SearchFromIsWordMembership(s, k, i + 1);
      assert s[i..][1..] == s[i + 1..];
    } else {
      var n := RunLen(s[i..]);
      var e := i + n;
      var w := s[i..e];
      assert w == s[i..][..n];
      assert s[i..][n..] == s[e..];
      assert e < |s| ==> s[e] == s[i..][n];
      SearchFromIsWordMembership(s, k, e);
      assert WordsOf(s[i..]) == [w] + WordsOf(s[e..]);
      if w == k {
        MatchAtWord(s, k, i);
      } else {
        forall j | i <= j < e
          ensures !MatchAt(s, k, j)
        {
          NoMatchInsideOtherWord(s, k, i, j);
        }
        assert SearchFrom(s, k, i) == SearchFrom(s, k, e) by {
          SkipWithoutMatch(s, k, i, e);
        }
      }
    }
  }

  lemma {:induction false} SkipWithoutMatch(s: string, k: string, i: nat, e: nat)
    requires |k| > 0 && i <= e <= |s|
    requires forall j :: i <= j < e ==> !MatchAt(s, k, j)
    ensures SearchFrom(s, k, i) == SearchFrom(s, k, e)
    decreases e - i
  {
    if i < e {
      SkipWithoutMatch(s, k, i + 1, e);
    }
  }

  // ---------------------------------------------------------------------
  // What one substitution promises.
  // ---------------------------------------------------------------------

  /**
   * Substituting a key that is a word replaces exactly the whole words
   * equal to it, and copies every other character unchanged.
   */
  lemma ReplaceWholeWordIsMapWords(s: string, k: string, v: string)
    requires IsIdentifier(k)
    ensures ReplaceWholeWord(s, k, v) == MapWords(s, Swap(k, v))
  {
    ReplaceFromIsMapWords(s, k, v, 0);
    assert s[0..] == s;
  }

  /** The regex search for a key that is a word succeeds exactly when the key is one of the text's words. */
  lemma SearchIsWordMembership(s: string, k: string)
    requires IsIdentifier(k)
    ensures Search(s, k) <==> k in WordsOf(s)
  {
    SearchFromIsWordMembership(s, k, 0);
    assert s[0..] == s;
  }

  /** Swapping in an identifier keeps identifiers. */
  lemma SwapKeepsIdentifiers(k: string, v: string)
    requires IsIdentifier(v)
    ensures KeepsIdentifiers(Swap(k, v))
  {
  }

  /** After the substitution no whole-word occurrence of the key is left. */
  lemma NoOccurrenceLeft(s: string, k: string, v: string)
    requires IsIdentifier(k) && IsIdentifier(v) && v != k
    ensures !Search(ReplaceWholeWord(s, k, v), k)
  {
    ReplaceWholeWordIsMapWords(s, k, v);
    SwapKeepsIdentifiers(k, v);
    WordsOfMapWords(s, Swap(k, v));
    SearchIsWordMembership(ReplaceWholeWord(s, k, v), k);
  }

  /** Without a whole-word occurrence, the substitution changes nothing. */
  lemma NoMatchNoChange(s: string, k: string, v: string)
    requires IsIdentifier(k) && !Search(s, k)
    ensures ReplaceWholeWord(s, k, v) == s
  {
    ReplaceWholeWordIsMapWords(s, k, v);
    SearchIsWordMembership(s, k);
    MapWordsIdentity(s, Swap(k, v));
  }
}
