/**
 * A text seen as whole words: maximal runs of word characters (`\w+`)
 * separated by non-word characters. This is the reference view against
 * which the regex-based substitution is proved: `\bkey\b` for a key made of
 * word characters matches exactly the maximal runs equal to the key.
 */
module Words {
  import opened Chars

  /** A non-empty string of word characters: a key or value of the column table. */
  predicate IsIdentifier(w: string) {
    |w| > 0 && forall i :: 0 <= i < |w| ==> IsWordChar(w[i])
  }

  /** Length of the maximal run of word characters at the start of t. */
  function RunLen(t: string): (n: nat)
    ensures n <= |t|
    ensures forall i :: 0 <= i < n ==> IsWordChar(t[i])
    ensures n == |t| || !IsWordChar(t[n])
  {
    if |t| > 0 && IsWordChar(t[0]) then 1 + RunLen(t[1..]) else 0
  }

  /** Replace every whole word w of t by f(w), keeping every other character. */
  function MapWords(t: string, f: string -> string): string
    decreases |t|
  {
    if |t| == 0 then []
    else if !IsWordChar(t[0]) then [t[0]] + MapWords(t[1..], f)
    else
      var n := RunLen(t);
      f(t[..n]) + MapWords(t[n..], f)
  }

  /** The whole words of t, in order. */
  function WordsOf(t: string): (ws: seq<string>)
    ensures forall j :: 0 <= j < |ws| ==> IsIdentifier(ws[j])
    decreases |t|
  {
    if |t| == 0 then []
    else if !IsWordChar(t[0]) then WordsOf(t[1..])
    else
      var n := RunLen(t);
      [t[..n]] + WordsOf(t[n..])
  }

  /** f applied to every element of ws. */
  function MapAll(f: string -> string, ws: seq<string>): (r: seq<string>)
    ensures |r| == |ws|
    ensures forall j :: 0 <= j < |ws| ==> r[j] == f(ws[j])
  {
    if |ws| == 0 then [] else [f(ws[0])] + MapAll(f, ws[1..])
  }

  /** f sends identifiers to identifiers. */
  ghost predicate KeepsIdentifiers(f: string -> string) {
    forall w {:trigger f(w)} :: IsIdentifier(w) ==> IsIdentifier(f(w))
  }

  /** A run of word characters followed by a non-word character (or nothing) is one word. */
  lemma {:induction false} RunLenOfWord(w: string, rest: string)
    requires IsIdentifier(w)
    requires |rest| == 0 || !IsWordChar(rest[0])
    ensures RunLen(w + rest) == |w|
    ensures (w + rest)[..|w|] == w && (w + rest)[|w|..] == rest
    decreases |w|
  {
    assert (w + rest)[0] == w[0];
    assert (w + rest)[1..] == w[1..] + rest;
    if |w| > 1 {
      RunLenOfWord(w[1..], rest);
    } else {
      assert w[1..] + rest == rest;
    }
  }

  /** MapWords at the start of a word: the renamed word, then the rest. */
  lemma MapWordsAtWord(t: string, f: string -> string)
    requires |t| > 0 && IsWordChar(t[0])
    ensures MapWords(t, f) == f(t[..RunLen(t)]) + MapWords(t[RunLen(t)..], f)
    ensures WordsOf(t) == [t[..RunLen(t)]] + WordsOf(t[RunLen(t)..])
  {
  }

  /** MapWords only ever puts f's results where whole words were. */
  lemma MapWordsHead(t: string, f: string -> string)
    requires |t| > 0 && !IsWordChar(t[0])
    ensures |MapWords(t, f)| > 0 && MapWords(t, f)[0] == t[0]
  {
  }

  /** Renaming with a function that fixes every word of t leaves t alone. */
  lemma {:induction false} MapWordsIdentity(t: string, f: string -> string)
    requires forall j :: 0 <= j < |WordsOf(t)| ==> f(WordsOf(t)[j]) == WordsOf(t)[j]
    ensures MapWords(t, f) == t
    decreases |t|
  {
    if |t| == 0 {
    } else if !IsWordChar(t[0]) {
      assert WordsOf(t) == WordsOf(t[1..]);
      MapWordsIdentity(t[1..], f);
      assert t == [t[0]] + t[1..];
    } else {
      var n := RunLen(t);
      assert WordsOf(t) == [t[..n]] + WordsOf(t[n..]);
      assert f(t[..n]) == t[..n] by {
        assert WordsOf(t)[0] == t[..n];
      }
      forall j | 0 <= j < |WordsOf(t[n..])|
        ensures f(WordsOf(t[n..])[j]) == WordsOf(t[n..])[j]
      {
        assert WordsOf(t[n..])[j] == WordsOf(t)[j + 1];
      }
      MapWordsIdentity(t[n..], f);
      assert t == t[..n] + t[n..];
    }
  }

  /** Renaming depends only on what the function does to the words present. */
  lemma {:induction false} MapWordsCongruent(t: string, f: string -> string, g: string -> string)
    requires forall w :: IsIdentifier(w) ==> f(w) == g(w)
    ensures MapWords(t, f) == MapWords(t, g)
    decreases |t|
  {
    if |t| == 0 {
    } else if !IsWordChar(t[0]) {
      MapWordsCongruent(t[1..], f, g);
    } else {
      var n := RunLen(t);
      assert IsIdentifier(t[..n]);
      MapWordsCongruent(t[n..], f, g);
    }
  }

  /**
   * Renaming twice is renaming once with any h that agrees with the
   * composition on identifiers, when the first renaming keeps identifiers.
   */
  lemma {:induction false} MapWordsCompose(t: string, f: string -> string, g: string -> string, h: string -> string)
    requires KeepsIdentifiers(f)
    requires forall w :: IsIdentifier(w) ==> h(w) == g(f(w))
    ensures MapWords(MapWords(t, f), g) == MapWords(t, h)
    decreases |t|
  {
    if |t| == 0 {
    } else if !IsWordChar(t[0]) {
      MapWordsCompose(t[1..], f, g, h);
      var u := MapWords(t[1..], f);
      assert MapWords(t, f) == [t[0]] + u;
      assert ([t[0]] + u)[1..] == u;
    } else {
      var n := RunLen(t);
      var w := t[..n];
      assert IsIdentifier(w);
      var u := MapWords(t[n..], f);
      MapWordsCompose(t[n..], f, g, h);
      if n < |t| { MapWordsHead(t[n..], f); }
      RunLenOfWord(f(w), u);
      assert MapWords(t, f) == f(w) + u;
    }
  }

  /** The words of a renamed text are the renamed words. */
  lemma {:induction false} WordsOfMapWords(t: string, f: string -> string)
    requires KeepsIdentifiers(f)
    ensures WordsOf(MapWords(t, f)) == MapAll(f, WordsOf(t))
    decreases |t|
  {
    if |t| == 0 {
    } else if !IsWordChar(t[0]) {
      WordsOfMapWords(t[1..], f);
      var u := MapWords(t[1..], f);
      assert MapWords(t, f) == [t[0]] + u;
      assert ([t[0]] + u)[1..] == u;
    } else {
      var n := RunLen(t);
      var w := t[..n];
      assert IsIdentifier(w);
      var u := MapWords(t[n..], f);
      WordsOfMapWords(t[n..], f);
      if n < |t| { MapWordsHead(t[n..], f); }
      RunLenOfWord(f(w), u);
      assert MapWords(t, f) == f(w) + u;
      assert MapAll(f, WordsOf(t)) == [f(w)] + MapAll(f, WordsOf(t[n..]));
    }
  }

  /** Every word of t replaced by the one-letter word "w": what lies between and around the words. */
  function Skeleton(t: string): string {
    MapWords(t, w => "w")
  }

  /** A renaming that keeps identifiers leaves everything outside the words as it was. */
  lemma MapWordsKeepsSkeleton(t: string, f: string -> string)
    requires KeepsIdentifiers(f)
    ensures Skeleton(MapWords(t, f)) == Skeleton(t)
  {
    var blank: string -> string := w => "w";
    MapWordsCompose(t, f, blank, blank);
  }
}
