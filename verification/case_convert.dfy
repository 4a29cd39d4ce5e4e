/**
 * The identifier case converter `camel_to_snake`: two left-to-right
 * regular-expression rewrites followed by lower-casing.
 *
 *   pass 1: `(.)([A-Z][a-z]+)`  ->  `\1_\2`
 *   pass 2: `([a-z0-9])([A-Z])` ->  `\1_\2`
 *   then `.lower()`
 *
 * Each pass is modelled as the scan `re.sub` performs: try to match at the
 * current position; on a match emit the replacement and resume after the
 * match, otherwise copy one character and move on.
 */
module CaseConvert {
  import opened Chars
  import opened Seqs

  /** End of the greedy `[a-z]+` run that starts at index i (i itself if none). */
  function LowerRunEnd(x: string, i: nat): (e: nat)
    requires i <= |x|
    ensures i <= e <= |x|
    ensures forall j :: i <= j < e ==> IsLower(x[j])
    ensures e == |x| || !IsLower(x[e])
    decreases |x| - i
  {
    if i < |x| && IsLower(x[i]) then LowerRunEnd(x, i + 1) else i
  }

  /** Pass 1 can match at index i: any character but a newline, a capital, a small letter. */
  predicate Pass1MatchesAt(x: string, i: nat) {
    i + 2 < |x| && x[i] != '\n' && IsUpper(x[i + 1]) && IsLower(x[i + 2])
  }

  /** `re.sub('(.)([A-Z][a-z]+)', r'\1_\2', x)`, scanning from index i. */
  function Pass1From(x: string, i: nat): string
    requires i <= |x|
    decreases |x| - i
  {
    if i == |x| then []
    else if Pass1MatchesAt(x, i) then
      var e := LowerRunEnd(x, i + 2);
      [x[i], '_'] + x[i + 1..e] + Pass1From(x, e)
    else [x[i]] + Pass1From(x, i + 1)
  }

  /** `re.sub('([a-z0-9])([A-Z])', r'\1_\2', t)`. */
  function Pass2(t: string): string
  {
    if |t| == 0 then []
    else if |t| >= 2 && IsLowerOrDigit(t[0]) && IsUpper(t[1]) then [t[0], '_', t[1]] + Pass2(t[2..])
    else [t[0]] + Pass2(t[1..])
  }

  /** `camel_to_snake(name)`. */
  function CamelToSnake(name: string): (r: string)
    ensures NoUpper(r)
    ensures |r| >= |name|
  {
    CamelToSnakeIsSpaced(name);
    Lower(Pass2(Pass1From(name, 0)))
  }

  /** Pass 1 resumes after its match, so the capital right after a match's run is not split by it. */
  lemma Pass1ResumesAfterMatch()
    ensures Pass1From("aBcDe", 0) == "a_BcDe"
  {
  }

  // ---------------------------------------------------------------------
  // Reference definition: where the underscores go, position by position.
  // ---------------------------------------------------------------------

  /**
   * An underscore ends up between x[i-1] and x[i]: x[i] is a capital, and
   * either x[i-1] is a small letter or digit (pass 2), or x[i-1] is not a
   * newline and x[i+1] is a small letter (pass 1).
   */
  predicate GapBefore(x: string, i: nat) {
    0 < i < |x| && IsUpper(x[i]) &&
    (IsLowerOrDigit(x[i - 1]) || (x[i - 1] != '\n' && i + 1 < |x| && IsLower(x[i + 1])))
  }

  /** x[i..] with an underscore written into every gap after x[i]. */
  function Spaced(x: string, i: nat): (r: string)
    requires i <= |x|
    ensures |r| >= |x| - i
    decreases |x| - i
  {
    if i == |x| then []
    else [x[i]] + (if GapBefore(x, i + 1) then "_" else "") + Spaced(x, i + 1)
  }

  /** Position of x[i] in Spaced(x, 0): i plus the gaps at indices 1..i. */
  function Pos(x: string, i: nat): (p: nat)
    requires i < |x|
    ensures p >= i
  {
    if i == 0 then 0 else Pos(x, i - 1) + 1 + (if GapBefore(x, i) then 1 else 0)
  }

  // ---------------------------------------------------------------------
  // Pass 2 over a concatenation.
  // ---------------------------------------------------------------------

  /** The underscore pass 2 writes at the seam of a ++ b, if any. */
  function Seam(a: string, b: string): string {
    if |a| > 0 && |b| > 0 && IsLowerOrDigit(a[|a| - 1]) && IsUpper(b[0]) then "_" else ""
  }

  /** Pass 2 inserts an underscore at the seam of a ++ b exactly when the seam is a `[a-z0-9][A-Z]` pair. */
  lemma {:induction false} Pass2Append(a: string, b: string)
    ensures Pass2(a + b) == Pass2(a) + Seam(a, b) + Pass2(b)
    decreases |a|
  {
    if |a| == 0 {
      Pass2AppendEmpty(a, b);
    } else if |a| == 1 {
      Pass2Single(a[0], b);
      SingleSeq(a);
    } else {
      var n := if IsLowerOrDigit(a[0]) && IsUpper(a[1]) then 2 else 1;
      var head := if n == 2 then [a[0], '_', a[1]] else [a[0]];
      Pass2Step(a, b, n, head);
      Pass2Append(a[n..], b);
      SeamAfterDrop(a, b, n);
      ConcatAssoc4(head, Pass2(a[n..]), Seam(a, b), Pass2(b));
    }
  }

  lemma Pass2AppendEmpty(a: string, b: string)
    requires |a| == 0
    ensures Pass2(a + b) == Pass2(a) + Seam(a, b) + Pass2(b)
  {
    assert a + b == b;
    assert Pass2(a) + Seam(a, b) == [];
  }

  lemma SeamAfterDrop(a: string, b: string, n: nat)
    requires |a| >= 2
    requires n == if IsLowerOrDigit(a[0]) && IsUpper(a[1]) then 2 else 1
    ensures Seam(a[n..], b) == Seam(a, b)
  {
    if n < |a| {
      assert a[n..][|a[n..]| - 1] == a[|a| - 1];
    }
  }

  /** One step of pass 2 on a ++ b when a has at least two characters. */
  lemma Pass2Step(a: string, b: string, n: nat, head: string)
    requires |a| >= 2
    requires n == if IsLowerOrDigit(a[0]) && IsUpper(a[1]) then 2 else 1
    requires head == if n == 2 then [a[0], '_', a[1]] else [a[0]]
    ensures Pass2(a) == head + Pass2(a[n..])
    ensures Pass2(a + b) == head + Pass2(a[n..] + b)
  {
    var ab := a + b;
    assert ab[0] == a[0] && ab[1] == a[1];
    assert ab[n..] == a[n..] + b;
  }

  /** Pass 2 on one character followed by b. */
  lemma Pass2Single(c: char, b: string)
    ensures Pass2([c] + b) == [c] + Seam([c], b) + Pass2(b)
  {
    var cb := [c] + b;
    if |b| > 0 && IsLowerOrDigit(c) && IsUpper(b[0]) {
      assert cb[2..] == b[1..];
      assert Pass2(cb) == [c, '_', b[0]] + Pass2(b[1..]);
      assert Pass2(b) == [b[0]] + Pass2(b[1..]);
    } else {
      assert cb[1..] == b;
    }
  }

  /** Pass 2 leaves a string without any `[a-z0-9][A-Z]` pair alone. */
  lemma {:induction false} Pass2NoPairs(t: string)
    requires forall j :: 0 <= j < |t| - 1 ==> !(IsLowerOrDigit(t[j]) && IsUpper(t[j + 1]))
    ensures Pass2(t) == t
    decreases |t|
  {
    if |t| > 0 {
      Pass2NoPairs(t[1..]);
    }
  }

  /** Pass 1 output from index i starts with x[i]. */
  lemma Pass1FromHead(x: string, i: nat)
    requires i < |x|
    ensures |Pass1From(x, i)| > 0 && Pass1From(x, i)[0] == x[i]
  {
  }

  /** Spaced across a run of small letters: no gap inside it. */
  lemma {:induction false} SpacedLowerRun(x: string, j: nat, e: nat)
    requires j < e <= |x|
    requires forall m :: j < m < e ==> IsLower(x[m])
    ensures Spaced(x, j) == x[j..e] + (if GapBefore(x, e) then "_" else "") + Spaced(x, e)
    decreases e - j
  {
    if j + 1 < e {
      SpacedLowerRun(x, j + 1, e);
      SpacedNoGap(x, j);
      SliceCons(x, j, e);
      ConcatAssoc4([x[j]], x[j + 1..e], if GapBefore(x, e) then "_" else "", Spaced(x, e));
    } else {
      assert x[j..e] == [x[j]];
    }
  }

  lemma SpacedNoGap(x: string, j: nat)
    requires j + 1 < |x| && !GapBefore(x, j + 1)
    ensures Spaced(x, j) == [x[j]] + Spaced(x, j + 1)
  {
    assert [x[j]] + "" == [x[j]];
  }

  /** The two passes together put an underscore exactly into every gap. */
  lemma {:induction false} TwoPassesAreSpaced(x: string, i: nat)
    requires i <= |x|
    ensures Pass2(Pass1From(x, i)) == Spaced(x, i)
    decreases |x| - i
  {
    if i == |x| {
    } else if Pass1MatchesAt(x, i) {
      var e := LowerRunEnd(x, i + 2);
      TwoPassesAreSpaced(x, e);
      Pass1MatchStep(x, i, e);
    } else {
      TwoPassesAreSpaced(x, i + 1);
      Pass1CopyStep(x, i);
    }
  }

  /** The seam pass 2 sees after a pass-1 prefix ending in c, before the pass-1 output from e. */
  lemma SeamBeforePass1(x: string, e: nat, a: string)
    requires 0 < e <= |x| && |a| > 0 && a[|a| - 1] == x[e - 1]
    requires IsLowerOrDigit(x[e - 1]) || !(e < |x| && IsUpper(x[e]) && x[e - 1] != '\n' && e + 1 < |x| && IsLower(x[e + 1]))
    ensures Seam(a, Pass1From(x, e)) == if GapBefore(x, e) then "_" else ""
  {
    if e < |x| { Pass1FromHead(x, e); }
  }

  /** The text pass 1 moves behind its underscore: a capital, then small letters only. */
  lemma CapitalisedWord(x: string, i: nat, e: nat)
    requires Pass1MatchesAt(x, i) && e == LowerRunEnd(x, i + 2)
    ensures var seg := x[i + 1..e];
      && |seg| >= 2 && IsUpper(seg[0]) && seg[|seg| - 1] == x[e - 1] && IsLower(x[e - 1])
      && forall j :: 0 <= j < |seg| - 1 ==> !(IsLowerOrDigit(seg[j]) && IsUpper(seg[j + 1]))
  {
    var seg := x[i + 1..e];
    forall j | 0 <= j < |seg| - 1
      ensures !(IsLowerOrDigit(seg[j]) && IsUpper(seg[j + 1]))
    {
      assert seg[j + 1] == x[i + 2 + j];
      assert IsLower(x[i + 2 + j]);
    }
  }

  /** Pass 2 over a capitalised word moved by pass 1, followed by the rest of pass 1's output. */
  lemma Pass2AfterCapitalisedWord(x: string, i: nat, e: nat)
    requires Pass1MatchesAt(x, i) && e == LowerRunEnd(x, i + 2)
    ensures Pass2(x[i + 1..e] + Pass1From(x, e))
         == x[i + 1..e] + (if GapBefore(x, e) then "_" else "") + Pass2(Pass1From(x, e))
  {
    var seg := x[i + 1..e];
    var rest := Pass1From(x, e);
    CapitalisedWord(x, i, e);
    Pass2NoPairs(seg);
    Pass2Append(seg, rest);
    SeamBeforePass1(x, e, seg);
  }

  /** Pass 2 copies a character followed by an underscore. */
  lemma Pass2UnderscoreJoin(c: char, t: string)
    ensures Pass2([c, '_'] + t) == [c, '_'] + Pass2(t)
  {
    var ct := [c, '_'] + t;
    assert ct[1..] == ['_'] + t;
    assert (['_'] + t)[1..] == t;
  }

  /** Pass 1 matched at i, up to the end e of the small-letter run. */
  lemma Pass1MatchStep(x: string, i: nat, e: nat)
    requires Pass1MatchesAt(x, i) && e == LowerRunEnd(x, i + 2)
    requires Pass2(Pass1From(x, e)) == Spaced(x, e)
    ensures Pass2(Pass1From(x, i)) == Spaced(x, i)
  {
    var seg := x[i + 1..e];
    var rest := Pass1From(x, e);
    Pass1FromAtMatch(x, i, e);
    Pass2UnderscoreJoin(x[i], seg + rest);
    Pass2AfterCapitalisedWord(x, i, e);
    SpacedLowerRun(x, i + 1, e);
    SpacedAtMatch(x, i);
  }

  lemma Pass1FromAtMatch(x: string, i: nat, e: nat)
    requires Pass1MatchesAt(x, i) && e == LowerRunEnd(x, i + 2)
    ensures Pass1From(x, i) == [x[i], '_'] + (x[i + 1..e] + Pass1From(x, e))
  {
    ConcatAssoc([x[i], '_'], x[i + 1..e], Pass1From(x, e));
  }

  /** Where pass 1 matches, the reference puts an underscore after the character. */
  lemma SpacedAtMatch(x: string, i: nat)
    requires Pass1MatchesAt(x, i)
    ensures Spaced(x, i) == [x[i], '_'] + Spaced(x, i + 1)
  {
    assert GapBefore(x, i + 1);
    assert [x[i]] + "_" == [x[i], '_'];
  }

  /** Pass 1 did not match at i and copied x[i]. */
  lemma Pass1CopyStep(x: string, i: nat)
    requires i < |x| && !Pass1MatchesAt(x, i)
    requires Pass2(Pass1From(x, i + 1)) == Spaced(x, i + 1)
    ensures Pass2(Pass1From(x, i)) == Spaced(x, i)
  {
    var rest := Pass1From(x, i + 1);
    assert Pass1From(x, i) == [x[i]] + rest;
    assert Pass2([x[i]]) == [x[i]];
    Pass2Append([x[i]], rest);
    var g := if GapBefore(x, i + 1) then "_" else "";
    assert Seam([x[i]], rest) == g by {
      if i + 1 < |x| {
        SeamBeforePass1(x, i + 1, [x[i]]);
      }
    }
    assert Spaced(x, i) == [x[i]] + g + Spaced(x, i + 1);
  }

  /** camel_to_snake equals the lower-cased input with underscores in exactly the gaps. */
  lemma CamelToSnakeIsSpaced(x: string)
    ensures Pass2(Pass1From(x, 0)) == Spaced(x, 0)
    ensures Lower(Pass2(Pass1From(x, 0))) == Lower(Spaced(x, 0))
  {
    TwoPassesAreSpaced(x, 0);
  }

  // ---------------------------------------------------------------------
  // What camel_to_snake promises.
  // ---------------------------------------------------------------------

  /** o is s with zero or more '_' characters inserted. */
  predicate UnderscoresInserted(o: string, s: string)
    decreases |o|
  {
    if |o| == 0 then |s| == 0
    else
      || (|s| > 0 && o[0] == s[0] && UnderscoresInserted(o[1..], s[1..]))
      || (o[0] == '_' && UnderscoresInserted(o[1..], s))
  }

  lemma {:induction false} SpacedInsertsUnderscores(x: string, i: nat)
    requires i <= |x|
    ensures UnderscoresInserted(Spaced(x, i), x[i..])
    decreases |x| - i
  {
    if i < |x| {
      SpacedInsertsUnderscores(x, i + 1);
      var o := Spaced(x, i);
      var t := Spaced(x, i + 1);
      assert x[i..][1..] == x[i + 1..];
      if GapBefore(x, i + 1) {
        assert o == [x[i]] + (['_'] + t);
        assert o[1..] == ['_'] + t;
        assert o[1..][1..] == t;
      } else {
        assert o == [x[i]] + t;
        assert o[1..] == t;
      }
    }
  }

  lemma {:induction false} LowerKeepsInsertion(o: string, s: string)
    requires UnderscoresInserted(o, s)
    ensures UnderscoresInserted(Lower(o), Lower(s))
    decreases |o|
  {
    if |o| > 0 {
      assert Lower(o)[1..] == Lower(o[1..]);
      if |s| > 0 && o[0] == s[0] && UnderscoresInserted(o[1..], s[1..]) {
        LowerKeepsInsertion(o[1..], s[1..]);
        assert Lower(s)[1..] == Lower(s[1..]);
      } else {
        LowerKeepsInsertion(o[1..], s);
      }
    }
  }

  /** The output is the lower-cased input with only underscores inserted. */
  lemma CamelToSnakeOnlyInsertsUnderscores(x: string)
    ensures UnderscoresInserted(CamelToSnake(x), Lower(x))
  {
    CamelToSnakeIsSpaced(x);
    SpacedInsertsUnderscores(x, 0);
    assert x[0..] == x;
    LowerKeepsInsertion(Spaced(x, 0), x);
  }

  lemma {:induction false} SpacedOfNoUpper(x: string, i: nat)
    requires i <= |x| && NoUpper(x)
    ensures Spaced(x, i) == x[i..]
    decreases |x| - i
  {
    if i < |x| {
      SpacedOfNoUpper(x, i + 1);
      assert x[i..] == [x[i]] + x[i + 1..];
    }
  }

  /** An input without capitals comes back unchanged. */
  lemma CamelToSnakeOfNoUpper(x: string)
    requires NoUpper(x)
    ensures CamelToSnake(x) == x
  {
    CamelToSnakeIsSpaced(x);
    SpacedOfNoUpper(x, 0);
    assert x[0..] == x;
    LowerOfNoUpper(x);
  }

  /** camel_to_snake is idempotent. */
  lemma CamelToSnakeIdempotent(x: string)
    ensures CamelToSnake(CamelToSnake(x)) == CamelToSnake(x)
  {
    CamelToSnakeOfNoUpper(CamelToSnake(x));
  }

  /** Spaced(x, j) holds x[k] at offset Pos(x, k) - Pos(x, j), preceded by '_' when there is a gap before k. */
  lemma {:induction false} SpacedAt(x: string, j: nat, k: nat)
    requires j <= k < |x|
    ensures Pos(x, k) - Pos(x, j) >= k - j
    ensures Pos(x, k) - Pos(x, j) < |Spaced(x, j)|
    ensures Spaced(x, j)[Pos(x, k) - Pos(x, j)] == x[k]
    ensures j < k && GapBefore(x, k) ==> Spaced(x, j)[Pos(x, k) - Pos(x, j) - 1] == '_'
    decreases k - j
  {
    if j < k {
      SpacedAt(x, j + 1, k);
      var g := if GapBefore(x, j + 1) then "_" else "";
      var head := [x[j]] + g;
      assert Spaced(x, j) == head + Spaced(x, j + 1);
      assert Pos(x, j + 1) - Pos(x, j) == |head|;
    }
  }

  /** camel_to_snake is the reference spacing, lower-cased. */
  lemma CamelToSnakeIsLowerSpaced(x: string)
    ensures CamelToSnake(x) == Lower(Spaced(x, 0))
  {
    CamelToSnakeIsSpaced(x);
  }

  /** x[i] lands, lower-cased, at index Pos(x, i) of the output. */
  lemma CamelToSnakeKeepsOrder(x: string, i: nat)
    requires i < |x|
    ensures Pos(x, i) < |CamelToSnake(x)|
    ensures CamelToSnake(x)[Pos(x, i)] == ToLower(x[i])
    ensures GapBefore(x, i) ==> Pos(x, i) > 0 && CamelToSnake(x)[Pos(x, i) - 1] == '_'
  {
    CamelToSnakeIsLowerSpaced(x);
    LowerSpacedAt(x, i);
  }

  lemma LowerSpacedAt(x: string, i: nat)
    requires i < |x|
    ensures Pos(x, i) < |Lower(Spaced(x, 0))|
    ensures Lower(Spaced(x, 0))[Pos(x, i)] == ToLower(x[i])
    ensures GapBefore(x, i) ==> Pos(x, i) > 0 && Lower(Spaced(x, 0))[Pos(x, i) - 1] == '_'
  {
    var s := Spaced(x, 0);
    SpacedAt(x, 0, i);
    assert Pos(x, 0) == 0;
    assert Lower(s)[Pos(x, i)] == ToLower(s[Pos(x, i)]);
    if GapBefore(x, i) {
      assert Lower(s)[Pos(x, i) - 1] == ToLower(s[Pos(x, i) - 1]);
    }
  }

  lemma UnderscoreBetweenSmallAndCapital(x: string, i: nat)
    requires 0 < i < |x| && IsLowerOrDigit(x[i - 1]) && IsUpper(x[i])
    ensures Pos(x, i) == Pos(x, i - 1) + 2 && Pos(x, i) < |CamelToSnake(x)|
    ensures CamelToSnake(x)[Pos(x, i - 1)] == x[i - 1]
    ensures CamelToSnake(x)[Pos(x, i - 1) + 1] == '_'
    ensures CamelToSnake(x)[Pos(x, i)] == ToLower(x[i])
  {
    CamelToSnakeKeepsOrder(x, i - 1);
    CamelToSnakeKeepsOrder(x, i);
  }

  // ---------------------------------------------------------------------
  // The plain camelCase shape: every capital follows a small letter or digit.
  // ---------------------------------------------------------------------

  /**
   * v[j..] is k[i..] lower-cased with an underscore before each capital,
   * and every capital of k[i..] follows a small letter or digit.
   * Written index by index so that it can be checked on literal strings.
   */
  predicate SplitAtCapitals(k: string, v: string, i: nat, j: nat)
    requires i <= |k| && j <= |v|
    decreases |k| - i
  {
    if i == |k| then j == |v|
    else if IsUpper(k[i]) then
      && 0 < i && IsLowerOrDigit(k[i - 1])
      && j + 2 <= |v| && v[j] == '_' && v[j + 1] == ToLower(k[i])
      && SplitAtCapitals(k, v, i + 1, j + 2)
    else j + 1 <= |v| && v[j] == k[i] && SplitAtCapitals(k, v, i + 1, j + 1)
  }

  /** Spaced output from the gap before k[i] onwards. */
  function SpacedTail(k: string, i: nat): string
    requires 0 < i <= |k|
  {
    if i == |k| then [] else (if GapBefore(k, i) then "_" else "") + Spaced(k, i)
  }

  lemma {:induction false} SplitAtCapitalsIsSpacedTail(k: string, v: string, i: nat, j: nat)
    requires 0 < i <= |k| && j <= |v|
    requires SplitAtCapitals(k, v, i, j)
    ensures Lower(SpacedTail(k, i)) == v[j..]
    decreases |k| - i
  {
    if i < |k| {
      var n, head := SplitHead(k, v, i, j);
      SplitAtCapitalsIsSpacedTail(k, v, i + 1, j + n);
      SpacedTailStep(k, i);
      LowerAppend(head, SpacedTail(k, i + 1));
      SliceSplit(v, j, j + n);
    }
  }

  /** The part of v that k[i] accounts for. */
  lemma SplitHead(k: string, v: string, i: nat, j: nat) returns (n: nat, head: string)
    requires 0 < i < |k| && j <= |v|
    requires SplitAtCapitals(k, v, i, j)
    ensures j + n <= |v| && SplitAtCapitals(k, v, i + 1, j + n)
    ensures head == (if IsUpper(k[i]) then ['_', k[i]] else [k[i]])
    ensures Lower(head) == v[j..j + n]
    ensures IsUpper(k[i]) ==> IsLowerOrDigit(k[i - 1])
  {
    n := if IsUpper(k[i]) then 2 else 1;
    head := if IsUpper(k[i]) then ['_', k[i]] else [k[i]];
    assert Lower(head)[0] == v[j];
  }

  /** One step of SpacedTail when a capital is preceded by a small letter or digit, or there is no capital. */
  lemma SpacedTailStep(k: string, i: nat)
    requires 0 < i < |k|
    requires IsUpper(k[i]) ==> IsLowerOrDigit(k[i - 1])
    ensures SpacedTail(k, i) == (if IsUpper(k[i]) then ['_', k[i]] else [k[i]]) + SpacedTail(k, i + 1)
  {
    SpacedStep(k, i);
    if IsUpper(k[i]) {
      SpacedTailAtGap(k, i);
    } else {
      SpacedTailNoGap(k, i);
    }
  }

  lemma SpacedTailAtGap(k: string, i: nat)
    requires 0 < i < |k| && GapBefore(k, i)
    requires Spaced(k, i) == [k[i]] + SpacedTail(k, i + 1)
    ensures SpacedTail(k, i) == ['_', k[i]] + SpacedTail(k, i + 1)
  {
    var rest := SpacedTail(k, i + 1);
    assert SpacedTail(k, i) == "_" + Spaced(k, i);
    UnderscoreCons(k[i], rest);
  }

  lemma UnderscoreCons(c: char, rest: string)
    ensures "_" + ([c] + rest) == ['_', c] + rest
  {
    assert "_" + [c] == ['_', c];
  }

  lemma SpacedTailNoGap(k: string, i: nat)
    requires 0 < i < |k| && !GapBefore(k, i)
    requires Spaced(k, i) == [k[i]] + SpacedTail(k, i + 1)
    ensures SpacedTail(k, i) == [k[i]] + SpacedTail(k, i + 1)
  {
    assert "" + Spaced(k, i) == Spaced(k, i);
  }

  /** Spaced output is the character, then the gap and the rest. */
  lemma SpacedStep(k: string, i: nat)
    requires i < |k|
    ensures Spaced(k, i) == [k[i]] + SpacedTail(k, i + 1)
  {
    if i + 1 < |k| {
      SpacedInner(k, i);
    }
  }

  lemma SpacedInner(k: string, i: nat)
    requires i + 1 < |k|
    ensures Spaced(k, i) == [k[i]] + SpacedTail(k, i + 1)
  {
    var g := if GapBefore(k, i + 1) then "_" else "";
    var s := Spaced(k, i + 1);
    assert SpacedTail(k, i + 1) == g + s;
    assert Spaced(k, i) == [k[i]] + g + s;
    ConcatAssoc([k[i]], g, s);
  }

  lemma LowerAppend(a: string, b: string)
    ensures Lower(a + b) == Lower(a) + Lower(b)
  {
  }

  /**
   * For an identifier whose every capital follows a small letter or digit,
   * camel_to_snake puts an underscore before each capital and lower-cases.
   */
  lemma CamelToSnakeSplitsAtCapitals(k: string, v: string)
    requires SplitAtCapitals(k, v, 0, 0)
    ensures CamelToSnake(k) == v
  {
    CamelToSnakeIsLowerSpaced(k);
    LowerSpacedSplitsAtCapitals(k, v);
  }

  lemma LowerSpacedSplitsAtCapitals(k: string, v: string)
    requires SplitAtCapitals(k, v, 0, 0)
    ensures Lower(Spaced(k, 0)) == v
  {
    if |k| > 0 {
      SplitStart(k, v);
      SplitAtCapitalsIsSpacedTail(k, v, 1, 1);
      SpacedStep(k, 0);
      LowerAppend([k[0]], SpacedTail(k, 1));
      SliceCons(v, 0, |v|);
    }
  }

  /** The first character of a split name is copied as it is. */
  lemma SplitStart(k: string, v: string)
    requires |k| > 0 && SplitAtCapitals(k, v, 0, 0)
    ensures |v| > 0 && v[0] == k[0] && !IsUpper(k[0]) && SplitAtCapitals(k, v, 1, 1)
  {
  }
}
