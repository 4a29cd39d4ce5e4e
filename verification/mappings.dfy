/**
 * The replacement loop of the column renamer: an ordered fold of
 * whole-word substitutions over the file content, recording each pair
 * whose key was found at its turn.
 */
module Mappings {
  import opened Words
  import opened WholeWord

  /** An ordered table of (camelCase key, snake_case value) pairs. */
  type Table = seq<(string, string)>

  /** The converted content and the pairs recorded as replacements, in table order. */
  datatype Conversion = Conversion(content: string, recorded: Table) {
    /** The number the source returns: recorded pairs, not occurrences. */
    function Count(): nat { |recorded| }
  }

  /** Every key has at least one character (each `\bkey\b` match is non-empty). */
  predicate KeysNonEmpty(table: Table) {
    forall j :: 0 <= j < |table| ==> |table[j].0| > 0
  }

  /** a is b with some elements left out, order kept. */
  predicate IsSubsequence<T(==)>(a: seq<T>, b: seq<T>)
    decreases |b|
  {
    || |a| == 0
    || (&& |b| > 0
        && ((a[0] == b[0] && IsSubsequence(a[1..], b[1..])) || IsSubsequence(a, b[1..])))
  }

  lemma {:induction false} SubsequenceShorter<T>(a: seq<T>, b: seq<T>)
    requires IsSubsequence(a, b)
    ensures |a| <= |b|
    decreases |b|
  {
    if |a| > 0 {
      if a[0] == b[0] && IsSubsequence(a[1..], b[1..]) {
        SubsequenceShorter(a[1..], b[1..]);
      } else {
        SubsequenceShorter(a, b[1..]);
      }
    }
  }

  /**
   * The loop of the renamer: for each pair in order, if `\bkey\b` is found
   * in the content as it stands, substitute every occurrence and record the pair.
   */
  function ApplyMappings(content: string, table: Table): (r: Conversion)
    requires KeysNonEmpty(table)
    ensures IsSubsequence(r.recorded, table)
    ensures r.Count() <= |table|
    decreases |table|
  {
    if |table| == 0 then Conversion(content, [])
    else
      var key := table[0].0;
      var value := table[0].1;
      var rest := table[1..];
      assert KeysNonEmpty(rest) by {
        forall j | 0 <= j < |rest| ensures |rest[j].0| > 0 { assert rest[j] == table[j + 1]; }
      }
      if Search(content, key) then
        var r := ApplyMappings(ReplaceWholeWord(content, key, value), rest);
        SubsequenceShorter(r.recorded, rest);
        Conversion(r.content, [table[0]] + r.recorded)
      else
        var r := ApplyMappings(content, rest);
        SubsequenceShorter(r.recorded, rest);
        r
  }

  // ---------------------------------------------------------------------
  // Reference definitions.
  // ---------------------------------------------------------------------

  /** Keys and values are identifiers. */
  predicate IdentifierPairs(table: Table) {
    forall j :: 0 <= j < |table| ==> IsIdentifier(table[j].0) && IsIdentifier(table[j].1)
  }

  /** No value of the table is also one of its keys. */
  predicate NoValueIsKey(table: Table) {
    forall j, m :: 0 <= j < |table| && 0 <= m < |table| ==> table[j].1 != table[m].0
  }

  /** No key appears twice. */
  predicate DistinctKeys(table: Table) {
    forall j, m :: 0 <= j < m < |table| ==> table[j].0 != table[m].0
  }

  /** The table shape the renamer's substitution relies on. */
  predicate WellFormed(table: Table) {
    IdentifierPairs(table) && NoValueIsKey(table) && DistinctKeys(table)
  }

  /** w after the renamings of the table, applied one after another. */
  function Chain(table: Table, w: string): string
  {
    if |table| == 0 then w
    else Chain(table[1..], if w == table[0].0 then table[0].1 else w)
  }

  /** Chain as a renaming. */
  function Sequential(table: Table): (f: string -> string)
    ensures forall w :: f(w) == Chain(table, w)
  {
    w => Chain(table, w)
  }

  /** The value of the first pair whose key is w, or w itself. */
  function Lookup(table: Table, w: string): string
  {
    if |table| == 0 then w
    else if table[0].0 == w then table[0].1
    else Lookup(table[1..], w)
  }

  /** Lookup as a renaming. */
  function LookupIn(table: Table): (f: string -> string)
    ensures forall w :: f(w) == Lookup(table, w)
  {
    w => Lookup(table, w)
  }

  /** The pairs of the table whose key is among ws, in table order. */
  function Present(table: Table, ws: seq<string>): (r: Table)
    ensures |r| <= |table|
  {
    if |table| == 0 then []
    else (if table[0].0 in ws then [table[0]] else []) + Present(table[1..], ws)
  }

  /** With distinct keys, pair j is present exactly when its key is among ws. */
  lemma {:induction false} PresentMembership(table: Table, ws: seq<string>, j: nat)
    requires DistinctKeys(table) && j < |table|
    ensures table[j] in Present(table, ws) <==> table[j].0 in ws
    decreases |table|
  {
    if j > 0 {
      TailWellFormed(table);
      PresentMembership(table[1..], ws, j - 1);
      assert table[1..][j - 1] == table[j];
      assert table[0] != table[j];
    } else {
      PresentKeysFromTail(table[1..], ws, table[0].0);
    }
  }

  /** Every pair of Present(table, ws) is a pair of table. */
  lemma {:induction false} PresentKeysFromTail(table: Table, ws: seq<string>, k: string)
    requires forall j :: 0 <= j < |table| ==> table[j].0 != k
    ensures forall p :: p in Present(table, ws) ==> p.0 != k
    decreases |table|
  {
    if |table| > 0 {
      PresentKeysFromTail(table[1..], ws, k);
      assert table[0].0 != k;
    }
  }

  // ---------------------------------------------------------------------
  // Table lemmas.
  // ---------------------------------------------------------------------

  lemma TailWellFormed(table: Table)
    requires |table| > 0
    ensures IdentifierPairs(table) ==> IdentifierPairs(table[1..])
    ensures NoValueIsKey(table) ==> NoValueIsKey(table[1..])
    ensures DistinctKeys(table) ==> DistinctKeys(table[1..])
    ensures IdentifierPairs(table) ==> KeysNonEmpty(table) && KeysNonEmpty(table[1..])
  {
    var rest := table[1..];
    assert forall j :: 0 <= j < |rest| ==> rest[j] == table[j + 1];
  }

  /** Lookup gives back w or one of the values. */
  lemma {:induction false} LookupIsSelfOrValue(table: Table, w: string)
    ensures Lookup(table, w) == w || exists j :: 0 <= j < |table| && Lookup(table, w) == table[j].1
    decreases |table|
  {
    if |table| > 0 && table[0].0 != w {
      LookupIsSelfOrValue(table[1..], w);
      if Lookup(table, w) != w {
        var j :| 0 <= j < |table[1..]| && Lookup(table[1..], w) == table[1..][j].1;
        assert Lookup(table, w) == table[j + 1].1;
      }
    }
  }

  /** Lookup of a word that is no key gives it back. */
  lemma {:induction false} LookupOfNonKey(table: Table, w: string)
    requires forall j :: 0 <= j < |table| ==> table[j].0 != w
    ensures Lookup(table, w) == w
    decreases |table|
  {
    if |table| > 0 {
      assert table[0].0 != w;
      LookupOfNonKey(table[1..], w);
    }
  }

  /** When no value is a key, the result of a lookup is never a key. */
  lemma {:induction false} LookupNeverKey(table: Table, w: string, m: nat)
    requires NoValueIsKey(table) && m < |table|
    ensures Lookup(table, w) != table[m].0
    decreases |table|
  {
    if table[0].0 == w {
    } else {
      if m > 0 {
        TailWellFormed(table);
        LookupNeverKey(table[1..], w, m - 1);
      } else {
        LookupIsSelfOrValue(table[1..], w);
        if Lookup(table, w) != w {
          var j :| 0 <= j < |table[1..]| && Lookup(table[1..], w) == table[1..][j].1;
          assert table[1..][j] == table[j + 1];
        }
      }
    }
  }

  /** Applying the renamings one after another is the same as one lookup, when no value is a key. */
  lemma {:induction false} ChainIsLookup(table: Table, w: string)
    requires NoValueIsKey(table)
    ensures Chain(table, w) == Lookup(table, w)
    decreases |table|
  {
    if |table| > 0 {
      var k := table[0].0;
      var v := table[0].1;
      var rest := table[1..];
      TailWellFormed(table);
      if w == k {
        ChainIsLookup(rest, v);
        forall j | 0 <= j < |rest| ensures rest[j].0 != v {
          assert rest[j] == table[j + 1];
        }
        LookupOfNonKey(rest, v);
      } else {
        ChainIsLookup(rest, w);
      }
    }
  }

  /** Lookup keeps identifiers when every value is one. */
  lemma {:induction false} LookupKeepsIdentifier(table: Table, w: string)
    requires IdentifierPairs(table) && IsIdentifier(w)
    ensures IsIdentifier(Lookup(table, w))
    decreases |table|
  {
    if |table| > 0 && table[0].0 != w {
      TailWellFormed(table);
      LookupKeepsIdentifier(table[1..], w);
    }
  }

  lemma LookupInKeepsIdentifiers(table: Table)
    requires IdentifierPairs(table)
    ensures KeepsIdentifiers(LookupIn(table))
  {
    forall w | IsIdentifier(w) ensures IsIdentifier(LookupIn(table)(w)) {
      LookupKeepsIdentifier(table, w);
    }
  }

  // ---------------------------------------------------------------------
  // What the replacement loop promises.
  // ---------------------------------------------------------------------

  /** One turn of the loop renames the whole words equal to the key, whether or not the search found one. */
  lemma TurnIsSwap(content: string, k: string, v: string)
    requires IsIdentifier(k)
    ensures (if Search(content, k) then ReplaceWholeWord(content, k, v) else content)
         == MapWords(content, Swap(k, v))
  {
    ReplaceWholeWordIsMapWords(content, k, v);
    if !Search(content, k) {
      NoMatchNoChange(content, k, v);
    }
  }

  lemma SequentialStep(table: Table, w: string)
    requires |table| > 0
    ensures Sequential(table)(w) == Sequential(table[1..])(Swap(table[0].0, table[0].1)(w))
  {
  }

  /** The fold is the sequential composition of the single renamings, applied word by word. */
  lemma {:induction false} ApplyMappingsIsSequential(content: string, table: Table)
    requires IdentifierPairs(table)
    ensures KeysNonEmpty(table)
    ensures ApplyMappings(content, table).content == MapWords(content, Sequential(table))
    decreases |table|
  {
    if |table| == 0 {
      MapWordsIdentity(content, Sequential(table));
    } else {
      var k := table[0].0;
      var v := table[0].1;
      var rest := table[1..];
      TailWellFormed(table);
      var next := if Search(content, k) then ReplaceWholeWord(content, k, v) else content;
      TurnIsSwap(content, k, v);
      ApplyMappingsIsSequential(next, rest);
      SwapKeepsIdentifiers(k, v);
      forall w | IsIdentifier(w) ensures Sequential(table)(w) == Sequential(rest)(Swap(k, v)(w)) {
        SequentialStep(table, w);
      }
      MapWordsCompose(content, Swap(k, v), Sequential(rest), Sequential(table));
    }
  }

  /**
   * For a well-formed table the ordered fold equals one pass that replaces
   * each whole word by its table value.
   */
  lemma ApplyMappingsIsSinglePass(content: string, table: Table)
    requires WellFormed(table)
    ensures KeysNonEmpty(table)
    ensures ApplyMappings(content, table).content == MapWords(content, LookupIn(table))
  {
    ApplyMappingsIsSequential(content, table);
    forall w | IsIdentifier(w) ensures Sequential(table)(w) == LookupIn(table)(w) {
      ChainIsLookup(table, w);
    }
    MapWordsCongruent(content, Sequential(table), LookupIn(table));
  }

  /** x occurs in the renamed words exactly when some word renames to it. */
  lemma InMapAll(f: string -> string, ws: seq<string>, x: string)
    ensures x in MapAll(f, ws) <==> exists j :: 0 <= j < |ws| && f(ws[j]) == x
  {
    if x in MapAll(f, ws) {
      var j :| 0 <= j < |ws| && MapAll(f, ws)[j] == x;
    }
  }

  /** Renaming k to v does not change which other keys are present. */
  lemma {:induction false} PresentAfterSwap(table: Table, ws: seq<string>, k: string, v: string)
    requires forall j :: 0 <= j < |table| ==> table[j].0 != k && table[j].0 != v
    ensures Present(table, MapAll(Swap(k, v), ws)) == Present(table, ws)
    decreases |table|
  {
    if |table| > 0 {
      var x := table[0].0;
      InMapAll(Swap(k, v), ws, x);
      if x in ws {
        var j :| 0 <= j < |ws| && ws[j] == x;
        assert Swap(k, v)(ws[j]) == x;
      }
      PresentAfterSwap(table[1..], ws, k, v);
    }
  }

  /**
   * A pair is recorded exactly when its key is a whole word of the
   * original content, for a well-formed table.
   */
  lemma {:induction false} RecordedArePresentKeys(content: string, table: Table)
    requires WellFormed(table)
    ensures KeysNonEmpty(table)
    ensures ApplyMappings(content, table).recorded == Present(table, WordsOf(content))
    decreases |table|
  {
    if |table| > 0 {
      var k := table[0].0;
      var v := table[0].1;
      var rest := table[1..];
      TailWellFormed(table);
      SearchIsWordMembership(content, k);
      if Search(content, k) {
        var next := ReplaceWholeWord(content, k, v);
        RecordedArePresentKeys(next, rest);
        ReplaceWholeWordIsMapWords(content, k, v);
        SwapKeepsIdentifiers(k, v);
        WordsOfMapWords(content, Swap(k, v));
        forall j | 0 <= j < |rest| ensures rest[j].0 != k && rest[j].0 != v {
          assert rest[j] == table[j + 1];
        }
        PresentAfterSwap(rest, WordsOf(content), k, v);
      } else {
        RecordedArePresentKeys(content, rest);
      }
    }
  }

  /** When no key is a whole word of the content, nothing changes and nothing is recorded. */
  lemma {:induction false} NoKeyNoChange(content: string, table: Table)
    requires IdentifierPairs(table)
    requires forall j :: 0 <= j < |table| ==> table[j].0 !in WordsOf(content)
    ensures KeysNonEmpty(table)
    ensures ApplyMappings(content, table) == Conversion(content, [])
    decreases |table|
  {
    if |table| > 0 {
      TailWellFormed(table);
      SearchIsWordMembership(content, table[0].0);
      forall j | 0 <= j < |table[1..]| ensures table[1..][j].0 !in WordsOf(content) {
        assert table[1..][j] == table[j + 1];
      }
      NoKeyNoChange(content, table[1..]);
    }
  }

  /** After the fold no key of a well-formed table is left as a whole word. */
  lemma NoKeyLeft(content: string, table: Table)
    requires WellFormed(table)
    ensures KeysNonEmpty(table)
    ensures forall m :: 0 <= m < |table| ==> table[m].0 !in WordsOf(ApplyMappings(content, table).content)
  {
    ApplyMappingsIsSinglePass(content, table);
    LookupInKeepsIdentifiers(table);
    WordsOfMapWords(content, LookupIn(table));
    forall m | 0 <= m < |table|
      ensures table[m].0 !in WordsOf(ApplyMappings(content, table).content)
    {
      forall j | 0 <= j < |WordsOf(content)|
        ensures LookupIn(table)(WordsOf(content)[j]) != table[m].0
      {
        LookupNeverKey(table, WordsOf(content)[j], m);
      }
      InMapAll(LookupIn(table), WordsOf(content), table[m].0);
    }
  }

  /** Running the fold on its own output changes nothing and records nothing. */
  lemma ApplyMappingsIdempotent(content: string, table: Table)
    requires WellFormed(table)
    ensures KeysNonEmpty(table)
    ensures var once := ApplyMappings(content, table).content;
      ApplyMappings(once, table) == Conversion(once, [])
  {
    NoKeyLeft(content, table);
    NoKeyNoChange(ApplyMappings(content, table).content, table);
  }

  /**
   * When a value is also a later key the fold chains the renamings: the
   * reason the table must keep values and keys apart.
   */
  lemma ChainedRenaming()
    ensures ApplyMappings("x", [("x", "y"), ("y", "z")]) == Conversion("z", [("x", "y"), ("y", "z")])
  {
  }
}
