/**
 * The record a fuzzy search reports for one stored string (TrieSearchResult.kt), and the order in
 * which results are ranked (TrieSearchResultComparator.kt): a chain of key comparators, each one
 * consulted only when every comparator before it ties.
 *
 * Comparators are modelled as they are written, as first-class functions composed with `compareBy`,
 * `reversed` and `thenComparing`; `Keys` and `LexCompare` give an independent, lexicographic
 * reading of the same order, and the lemmas prove the two agree and that the order is a total
 * preorder.
 */
module TrieSearchResults {

  datatype TrieSearchResult<V> = TrieSearchResult(
    str: string,              // the stored string (not the keyword)
    value: V,                 // the value stored with it
    matchedSubstring: string, // the part of `str` the keyword matched, errors in between included
    matchedWord: string,      // the whole word of `str` in which the match was found
    numberOfMatches: int,     // characters that matched
    numberOfErrors: int,      // misspellings, missing letters and swaps
    prefixDistance: int,      // from the start of the word to the start of the match
    matchedWholeString: bool,
    matchedWholeWord: bool)

  /** A `java.util.Comparator`: negative, zero or positive as `a` sorts before, with or after `b`. */
  type Comparator<!T> = (T, T) -> int

  /** `Integer.compare`. */
  function CompareInts(x: int, y: int): int {
    if x < y then -1 else if x == y then 0 else 1
  }

  /** `Boolean.compare`: false sorts before true. */
  function CompareBools(x: bool, y: bool): int {
    if x == y then 0 else if x then 1 else -1
  }

  /** Kotlin's `compareBy(selector)` for an `Int` selector. */
  function CompareBy<T>(key: T -> int): Comparator<T> {
    (a, b) => CompareInts(key(a), key(b))
  }

  /** Kotlin's `compareBy(selector)` for a `Boolean` selector. */
  function CompareByFlag<T>(key: T -> bool): Comparator<T> {
    (a, b) => CompareBools(key(a), key(b))
  }

  /** `Comparator.reversed()`. */
  function Reversed<T>(c: Comparator<T>): Comparator<T> {
    (a, b) => c(b, a)
  }

  /** `Comparator.thenComparing(other)`: `second` decides only when `first` ties. */
  function ThenComparing<T>(first: Comparator<T>, second: Comparator<T>): Comparator<T> {
    (a, b) => if first(a, b) != 0 then first(a, b) else second(a, b)
  }

  function ByNumberOfMatchesMoreFirst<V>(): Comparator<TrieSearchResult<V>> {
    Reversed(CompareBy((r: TrieSearchResult<V>) => r.numberOfMatches))
  }

  function ByLengthOfStringShortestFirst<V>(): Comparator<TrieSearchResult<V>> {
    CompareBy((r: TrieSearchResult<V>) => |r.str|)
  }

  /** Despite its name, this key reads `matchedWholeWord`, exactly like the next one. */
  function ByMatchedSequenceTrueFirst<V>(): Comparator<TrieSearchResult<V>> {
    Reversed(CompareByFlag((r: TrieSearchResult<V>) => r.matchedWholeWord))
  }

  function ByPrefixDistanceShortestFirst<V>(): Comparator<TrieSearchResult<V>> {
    CompareBy((r: TrieSearchResult<V>) => r.prefixDistance)
  }

  function ByWordLengthShortestFirst<V>(): Comparator<TrieSearchResult<V>> {
    CompareBy((r: TrieSearchResult<V>) => |r.matchedWord|)
  }

  function ByMatchedWholeWordTrueFirst<V>(): Comparator<TrieSearchResult<V>> {
    Reversed(CompareByFlag((r: TrieSearchResult<V>) => r.matchedWholeWord))
  }

  function ByNumberOfErrorsLessFirst<V>(): Comparator<TrieSearchResult<V>> {
    CompareBy((r: TrieSearchResult<V>) => r.numberOfErrors)
  }

  /** `byBestMatchFirst`: the ranking of fuzzy search results. */
  function ByBestMatchFirst<V>(): Comparator<TrieSearchResult<V>> {
    ThenComparing(
      ThenComparing(
        ThenComparing(
          ThenComparing(
            ThenComparing(
              ThenComparing(ByPrefixDistanceShortestFirst(), ByNumberOfMatchesMoreFirst()),
              ByWordLengthShortestFirst()),
            ByMatchedSequenceTrueFirst()),
          ByMatchedWholeWordTrueFirst()),
        ByLengthOfStringShortestFirst()),
      ByNumberOfErrorsLessFirst())
  }

  /** The sort keys of a result, in the order `byBestMatchFirst` consults them, smaller first. */
  function Keys<V>(r: TrieSearchResult<V>): seq<int> {
    [ r.prefixDistance,
      -r.numberOfMatches,
      |r.matchedWord|,
      if r.matchedWholeWord then 0 else 1,
      if r.matchedWholeWord then 0 else 1,
      |r.str|,
      r.numberOfErrors ]
  }

  /** Lexicographic comparison of two key sequences of the same length. */
  function LexCompare(x: seq<int>, y: seq<int>): int
    requires |x| == |y|
  {
    if x == [] then 0
    else if x[0] != y[0] then CompareInts(x[0], y[0])
    else LexCompare(x[1..], y[1..])
  }

  /**
   * The order results are ranked in: the lexicographic comparison of their keys, which
   * `BestMatchIsLexicographic` proves is what `byBestMatchFirst.compare(a, b)` answers.
   */
  function CompareResults<V>(a: TrieSearchResult<V>, b: TrieSearchResult<V>): int {
    LexCompare(Keys(a), Keys(b))
  }

  lemma LexStep(x: seq<int>, y: seq<int>, k: int)
    requires |x| == |y| && 0 <= k < |x|
    ensures LexCompare(x[k..], y[k..])
         == if x[k] != y[k] then CompareInts(x[k], y[k]) else LexCompare(x[k + 1..], y[k + 1..])
  {
    assert x[k..][1..] == x[k + 1..] && y[k..][1..] == y[k + 1..];
  }

  /** Composing the seven key comparators from the left asks them in order until one breaks the tie. */
  lemma BestMatchIsLexicographic<V>(a: TrieSearchResult<V>, b: TrieSearchResult<V>)
    ensures ByBestMatchFirst<V>()(a, b) == CompareResults(a, b)
  {
    var ka, kb := Keys(a), Keys(b);
    var c0 := ByPrefixDistanceShortestFirst<V>();
    var c1 := ByNumberOfMatchesMoreFirst<V>();
    var c2 := ByWordLengthShortestFirst<V>();
    var c3 := ByMatchedSequenceTrueFirst<V>();
    var c4 := ByMatchedWholeWordTrueFirst<V>();
    var c5 := ByLengthOfStringShortestFirst<V>();
    var c6 := ByNumberOfErrorsLessFirst<V>();
    assert c0(a, b) == CompareInts(ka[0], kb[0]);
    assert c1(a, b) == CompareInts(b.numberOfMatches, a.numberOfMatches) == CompareInts(ka[1], kb[1]);
    assert c2(a, b) == CompareInts(ka[2], kb[2]);
    assert c3(a, b) == CompareBools(b.matchedWholeWord, a.matchedWholeWord) == CompareInts(ka[3], kb[3]);
    assert c4(a, b) == CompareBools(b.matchedWholeWord, a.matchedWholeWord) == CompareInts(ka[4], kb[4]);
    assert c5(a, b) == CompareInts(ka[5], kb[5]);
    assert c6(a, b) == CompareInts(ka[6], kb[6]);
    var t1 := ThenComparing(c0, c1);
    var t2 := ThenComparing(t1, c2);
    var t3 := ThenComparing(t2, c3);
    var t4 := ThenComparing(t3, c4);
    var t5 := ThenComparing(t4, c5);
    var t6 := ThenComparing(t5, c6);
    assert t1(a, b) == if c0(a, b) != 0 then c0(a, b) else c1(a, b);
    assert t2(a, b) == if t1(a, b) != 0 then t1(a, b) else c2(a, b);
    assert t3(a, b) == if t2(a, b) != 0 then t2(a, b) else c3(a, b);
    assert t4(a, b) == if t3(a, b) != 0 then t3(a, b) else c4(a, b);
    assert t5(a, b) == if t4(a, b) != 0 then t4(a, b) else c5(a, b);
    assert t6(a, b) == if t5(a, b) != 0 then t5(a, b) else c6(a, b);
    assert ByBestMatchFirst<V>() == t6;
    FirstDifference(ka, kb);
  }

  /** On seven keys, the lexicographic comparison is decided by the first key that differs. */
  lemma FirstDifference(x: seq<int>, y: seq<int>)
    requires |x| == |y| == 7
    ensures LexCompare(x, y)
         == if x[0] != y[0] then CompareInts(x[0], y[0])
            else if x[1] != y[1] then CompareInts(x[1], y[1])
            else if x[2] != y[2] then CompareInts(x[2], y[2])
            else if x[3] != y[3] then CompareInts(x[3], y[3])
            else if x[4] != y[4] then CompareInts(x[4], y[4])
            else if x[5] != y[5] then CompareInts(x[5], y[5])
            else CompareInts(x[6], y[6])
  {
    LexStep(x, y, 6);
    LexStep(x, y, 5);
    LexStep(x, y, 4);
    LexStep(x, y, 3);
    LexStep(x, y, 2);
    LexStep(x, y, 1);
    LexStep(x, y, 0);
    assert x[7..] == [] && x[0..] == x && y[0..] == y;
  }

  lemma {:induction false} LexRange(x: seq<int>, y: seq<int>)
    requires |x| == |y|
    ensures LexCompare(x, y) in {-1, 0, 1}
    ensures LexCompare(x, y) == 0 <==> x == y
  {
    if x != [] && x[0] == y[0] {
      LexRange(x[1..], y[1..]);
      assert x == [x[0]] + x[1..] && y == [y[0]] + y[1..];
    }
  }

  lemma {:induction false} LexAntisymmetric(x: seq<int>, y: seq<int>)
    requires |x| == |y|
    ensures LexCompare(x, y) == -LexCompare(y, x)
  {
    if x != [] && x[0] == y[0] {
      LexAntisymmetric(x[1..], y[1..]);
    }
  }

  lemma {:induction false} LexTransitive(x: seq<int>, y: seq<int>, z: seq<int>)
    requires |x| == |y| == |z|
    requires LexCompare(x, y) <= 0 && LexCompare(y, z) <= 0
    ensures LexCompare(x, z) <= 0
    ensures LexCompare(x, y) < 0 || LexCompare(y, z) < 0 ==> LexCompare(x, z) < 0
  {
    if x != [] && x[0] == y[0] && y[0] == z[0] {
      LexTransitive(x[1..], y[1..], z[1..]);
    }
  }

  /** The comparator only ever answers -1, 0 or 1, and 0 exactly when all seven keys agree. */
  lemma CompareRange<V>(a: TrieSearchResult<V>, b: TrieSearchResult<V>)
    ensures CompareResults(a, b) in {-1, 0, 1}
    ensures CompareResults(a, b) == 0 <==> Keys(a) == Keys(b)
  {
    LexRange(Keys(a), Keys(b));
  }

  /** Swapping the arguments negates the answer. */
  lemma CompareAntisymmetric<V>(a: TrieSearchResult<V>, b: TrieSearchResult<V>)
    ensures CompareResults(a, b) == -CompareResults(b, a)
  {
    LexAntisymmetric(Keys(a), Keys(b));
  }

  /** The order is transitive, and strictly so when either step is strict. */
  lemma CompareTransitive<V>(a: TrieSearchResult<V>, b: TrieSearchResult<V>, c: TrieSearchResult<V>)
    requires CompareResults(a, b) <= 0 && CompareResults(b, c) <= 0
    ensures CompareResults(a, c) <= 0
    ensures CompareResults(a, b) < 0 || CompareResults(b, c) < 0 ==> CompareResults(a, c) < 0
  {
    LexTransitive(Keys(a), Keys(b), Keys(c));
  }

  /** Any two results are comparable one way or the other. */
  lemma CompareTotal<V>(a: TrieSearchResult<V>, b: TrieSearchResult<V>)
    ensures CompareResults(a, b) <= 0 || CompareResults(b, a) <= 0
  {
    CompareAntisymmetric(a, b);
  }

  /**
   * The precedence of the keys: a shorter prefix distance wins outright; on a tie, more matches;
   * then a shorter matched word; then a whole-word match; then a shorter string; then fewer errors.
   */
  lemma ComparePrecedence<V>(a: TrieSearchResult<V>, b: TrieSearchResult<V>)
    ensures a.prefixDistance < b.prefixDistance ==> CompareResults(a, b) == -1
    ensures a.prefixDistance == b.prefixDistance && a.numberOfMatches > b.numberOfMatches
      ==> CompareResults(a, b) == -1
    ensures && a.prefixDistance == b.prefixDistance && a.numberOfMatches == b.numberOfMatches
            && |a.matchedWord| < |b.matchedWord|
      ==> CompareResults(a, b) == -1
    ensures && a.prefixDistance == b.prefixDistance && a.numberOfMatches == b.numberOfMatches
            && |a.matchedWord| == |b.matchedWord| && a.matchedWholeWord && !b.matchedWholeWord
      ==> CompareResults(a, b) == -1
    ensures && a.prefixDistance == b.prefixDistance && a.numberOfMatches == b.numberOfMatches
            && |a.matchedWord| == |b.matchedWord| && a.matchedWholeWord == b.matchedWholeWord
            && |a.str| < |b.str|
      ==> CompareResults(a, b) == -1
    ensures && a.prefixDistance == b.prefixDistance && a.numberOfMatches == b.numberOfMatches
            && |a.matchedWord| == |b.matchedWord| && a.matchedWholeWord == b.matchedWholeWord
            && |a.str| == |b.str| && a.numberOfErrors < b.numberOfErrors
      ==> CompareResults(a, b) == -1
  {
    FirstDifference(Keys(a), Keys(b));
  }

  /** `matchedWholeString`, `matchedSubstring` and the value are never consulted. */
  lemma CompareIgnores<V>(a: TrieSearchResult<V>, b: TrieSearchResult<V>, whole: bool, sub: string, v: V)
    ensures CompareResults(a.(matchedWholeString := whole, matchedSubstring := sub, value := v), b)
         == CompareResults(a, b)
  {
  }

  /** The ranking the "returns results sorted by best match" scenario expects for "manual". */
  function ManualRanking(): seq<TrieSearchResult<()>> {
    [ TrieSearchResult("manual", (), "manual", "manual", 6, 0, 0, true, true),
      TrieSearchResult("linux manual", (), "manual", "manual", 6, 0, 0, false, true),
      TrieSearchResult("manuals", (), "manual", "manuals", 6, 0, 0, false, false),
      TrieSearchResult("manually", (), "manual", "manually", 6, 0, 0, false, false),
      TrieSearchResult("manuel", (), "manuel", "manuel", 5, 1, 0, false, false),
      TrieSearchResult("manuem", (), "manu", "manuem", 4, 2, 0, false, false),
      TrieSearchResult("emanuel", (), "manuel", "emanuel", 5, 1, 1, false, false),
      TrieSearchResult("lemanuel", (), "manuel", "lemanuel", 5, 1, 2, false, false),
      TrieSearchResult("lemanuell", (), "manuel", "lemanuell", 5, 1, 2, false, false) ]
  }

  /** Each result of the scenario ranks strictly ahead of every later one. */
  lemma ManualScenarioRanked()
    ensures forall i, j | 0 <= i < j < |ManualRanking()| :: CompareResults(ManualRanking()[i], ManualRanking()[j]) == -1
  {
    var s := ManualRanking();
    FirstDifference(Keys(s[0]), Keys(s[1]));
    assert CompareResults(s[0], s[1]) == -1;
    FirstDifference(Keys(s[1]), Keys(s[2]));
    assert CompareResults(s[1], s[2]) == -1;
    FirstDifference(Keys(s[2]), Keys(s[3]));
    assert CompareResults(s[2], s[3]) == -1;
    FirstDifference(Keys(s[3]), Keys(s[4]));
    assert CompareResults(s[3], s[4]) == -1;
    FirstDifference(Keys(s[4]), Keys(s[5]));
    assert CompareResults(s[4], s[5]) == -1;
    FirstDifference(Keys(s[5]), Keys(s[6]));
    assert CompareResults(s[5], s[6]) == -1;
    FirstDifference(Keys(s[6]), Keys(s[7]));
    assert CompareResults(s[6], s[7]) == -1;
    FirstDifference(Keys(s[7]), Keys(s[8]));
    assert CompareResults(s[7], s[8]) == -1;
    forall k | 0 <= k < |s| - 1 ensures CompareResults(s[k], s[k + 1]) == -1 {
      if k == 0 {} else if k == 1 {} else if k == 2 {} else if k == 3 {}
      else if k == 4 {} else if k == 5 {} else if k == 6 {} else {}
    }
    forall i, j | 0 <= i < j < |s| ensures CompareResults(s[i], s[j]) == -1 {
      var k := i;
      while k < j - 1
        invariant i <= k < j && CompareResults(s[i], s[k + 1]) == -1
      {
        assert CompareResults(s[k + 1], s[k + 2]) == -1;
        CompareTransitive(s[i], s[k + 1], s[k + 2]);
        CompareRange(s[i], s[k + 2]);
        k := k + 1;
      }
    }
  }
}
