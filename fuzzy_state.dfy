/**
 * One state of the fuzzy search (FuzzySearchState.kt): where in the trie the search stands, which
 * string the path down to it spells, and how far the keyword has been matched. A state is an
 * immutable value; `NextStates` derives the states one step further down the trie, trying for each
 * child, in this order, a continue, a match, an error, a reset and finally a gather step.
 *
 * The search runs over the node table of the Kotlin trie: a state holds the id of its node.
 * The word-separator class `[\s\p{P}]` and `lowercase()` are modelled on ASCII.
 */
module FuzzySearch {
  import opened Wrappers
  import opened TrieNodes
  import opened TrieSearchResults

  /** FuzzyMatchingStrategy.kt. */
  datatype Strategy =
    | Liberal          // errors anywhere in the match
    | Wildcard         // like Liberal, and `*` in the keyword matches any character
    | ExactPrefix      // the match starts at the beginning of a word
    | FuzzyPrefix      // like ExactPrefix, with errors allowed
    | FuzzyPostfix     // like ExactPrefix, with errors only at the end
    | AdjacentSwap     // only errors from swapping adjacent letters
    | SymmetricalSwap  // only errors from swapping letters anywhere
    | Acronym          // the keyword spells the initials of consecutive words

  /** What never changes during one search. */
  datatype SearchRequest = SearchRequest(
    strategy: Strategy,
    keyword: string,
    predeterminedErrors: int, // errors charged up front by dropping leading keyword characters
    errorTolerance: int,
    caseInsensitive: bool)

  /** A pending swap: the keyword character skipped, and the data character taken in its place. */
  datatype SwapChars = SwapChars(fromSource: string, fromTarget: string)

  /** How far the keyword has been matched. */
  datatype Coordinates = Coordinates(
    keywordIndex: int,
    matches: int,
    errors: int,
    startMatchIndex: Option<int>,
    endMatchIndex: Option<int>,
    swapChars: Option<seq<SwapChars>>)

  datatype FuzzyState = FuzzyState(
    request: SearchRequest,
    node: NodeId,
    sequence: string,     // the string spelled from the root down to `node`
    isGatherState: bool,  // the match is over; only the rest of the string is being read
    coords: Coordinates)

  // ---------------------------------------------------------------------------------------------
  // Word separators and case

  /**
   * `[\s\p{P}]` on one character, restricted to ASCII: the white space characters tab to carriage
   * return and space, and the punctuation characters !"#%&'()*,-./:;?@[\]_{}.
   */
  predicate IsSeparatorChar(c: char) {
    || '\t' <= c <= '\r'
    || ' ' <= c <= '#'
    || '%' <= c <= '*'
    || ',' <= c <= '/'
    || c == ':' || c == ';' || c == '?' || c == '@'
    || '[' <= c <= ']'
    || c == '_' || c == '{' || c == '}'
  }

  /** `String.isWordSeparator()`: the root's empty string, or one separator character. */
  predicate IsWordSeparator(s: string) {
    s == [] || (|s| == 1 && IsSeparatorChar(s[0]))
  }

  /** `String.isWordSeparatorAt(index)`: positions outside the string count as separators. */
  predicate IsWordSeparatorAt(s: string, i: int) {
    i < 0 || i >= |s| || IsSeparatorChar(s[i])
  }

  /** `indexOfLastWordSeparator(endIndex)`: the last separator at or before `end`. */
  function LastSeparator(s: string, end: int): (r: Option<int>)
    requires end < |s|
    ensures r.Some? ==> 0 <= r.value <= end && IsSeparatorChar(s[r.value])
    ensures r.Some? ==> forall j | r.value < j <= end :: !IsSeparatorChar(s[j])
    ensures r.None? ==> forall j | 0 <= j <= end :: !IsSeparatorChar(s[j])
    decreases end + 1
  {
    if end < 0 then None
    else if IsSeparatorChar(s[end]) then Some(end)
    else LastSeparator(s, end - 1)
  }

  /** `indexOfFirstWordSeparator(startIndex)`: the first separator at or after `start`. */
  function FirstSeparator(s: string, start: nat): (r: Option<int>)
    ensures r.Some? ==> start <= r.value < |s| && IsSeparatorChar(s[r.value])
    ensures r.Some? ==> forall j | start <= j < r.value :: !IsSeparatorChar(s[j])
    ensures r.None? ==> forall j | start <= j < |s| :: !IsSeparatorChar(s[j])
    decreases |s| - start
  {
    if start >= |s| then None
    else if IsSeparatorChar(s[start]) then Some(start)
    else FirstSeparator(s, start + 1)
  }

  /** `Char.lowercase()` on ASCII letters; other characters are left as they are. */
  function Lower(c: char): char {
    if 'A' <= c <= 'Z' then (c as int - 'A' as int + 'a' as int) as char else c
  }

  /** `casedForMatching()`. */
  function Cased(req: SearchRequest, s: string): (r: string)
    ensures |r| == |s|
  {
    if req.caseInsensitive then seq(|s|, i requires 0 <= i < |s| => Lower(s[i])) else s
  }

  // ---------------------------------------------------------------------------------------------
  // Shapes every state keeps

  /** The counters stay in range and the match indices point into the sequence, start before end. */
  predicate CoordinatesOk(st: FuzzyState) {
    var c := st.coords;
    && 0 <= c.matches <= c.keywordIndex <= |st.request.keyword|
    && 0 <= c.errors
    && (c.startMatchIndex.Some? ==> 0 <= c.startMatchIndex.value < |st.sequence|)
    && (c.endMatchIndex.Some? ==>
          c.startMatchIndex.Some? && c.startMatchIndex.value <= c.endMatchIndex.value < |st.sequence|)
  }

  /** The node of `st` is in the table, and so are its children, each with a non-empty string. */
  predicate Linked<V>(g: Graph<V>, n: NodeId) {
    n in g && forall c | c in g[n].next :: c in g && g[c].str != []
  }

  /** The state sits at the node its sequence names in the trie `paths`. */
  ghost predicate Located(paths: map<string, NodeId>, st: FuzzyState) {
    st.sequence in paths && paths[st.sequence] == st.node
  }

  function OrElse(o: Option<int>, d: int): int {
    if o.Some? then o.value else d
  }

  // ---------------------------------------------------------------------------------------------
  // Queries on a state

  function KeywordIndex(st: FuzzyState): int { st.coords.keywordIndex }

  /** `hasMinimumNumberOfMatches()`. */
  predicate HasMinimumMatches(st: FuzzyState) {
    st.coords.matches >= |st.request.keyword| - st.request.errorTolerance
  }

  /**
   * `getNumberOfErrorsIncludingMissingCharacters()`: the errors so far plus the keyword characters
   * not reached. The source asserts the second term is never negative; `CoordinatesOk` says so.
   */
  function ErrorsIncludingMissing(st: FuzzyState): (r: int)
    requires KeywordIndex(st) <= |st.request.keyword|
    ensures r >= st.coords.errors
  {
    st.coords.errors + (|st.request.keyword| - st.coords.keywordIndex)
  }

  predicate NoPendingSwaps(st: FuzzyState) {
    st.coords.swapChars.None? || st.coords.swapChars.value == []
  }

  /** `matches()`: the state describes a match within the tolerance. */
  predicate Matches(st: FuzzyState)
    requires KeywordIndex(st) <= |st.request.keyword|
  {
    && st.coords.startMatchIndex.Some?
    && st.coords.endMatchIndex.Some?
    && HasMinimumMatches(st)
    && ErrorsIncludingMissing(st) <= st.request.errorTolerance
    && NoPendingSwaps(st)
  }

  /** `hasSearchResult()`. */
  predicate HasSearchResult<V>(g: Graph<V>, st: FuzzyState)
    requires st.node in g && KeywordIndex(st) <= |st.request.keyword|
  {
    g[st.node].Completes() && Matches(st)
  }

  /** `distanceToStartWordSeparatorIsPermissible()`. */
  predicate DistanceToWordStartPermissible(st: FuzzyState) {
    var last := LastSeparator(st.sequence, |st.sequence| - 1);
    |st.sequence| - OrElse(last, -1) - 2 <= st.coords.errors
  }

  /** `buildSearchResult()`: the result a state describes, or IllegalStateException without one. */
  function BuildSearchResult<V>(g: Graph<V>, st: FuzzyState): (r: Result<TrieSearchResult<V>>)
    requires st.node in g && CoordinatesOk(st)
    ensures r.Ok? <==> HasSearchResult(g, st)
    ensures r.Err? ==> r.error == IllegalState
    ensures r.Ok? ==> && r.value.str == st.sequence
                      && Some(r.value.value) == g[st.node].value
                      && r.value.numberOfMatches == st.coords.matches
                      && r.value.numberOfErrors
                         == st.coords.errors + (|st.request.keyword| - KeywordIndex(st))
                            + st.request.predeterminedErrors
    ensures r.Ok? && (r.value.matchedWholeString || r.value.matchedWholeWord) ==> r.value.numberOfErrors == 0
  {
    if !HasSearchResult(g, st) then Err(IllegalState)
    else
      var s := st.sequence;
      var actualErrors := ErrorsIncludingMissing(st) + st.request.predeterminedErrors;
      var start := st.coords.startMatchIndex.value;
      var end := st.coords.endMatchIndex.value;
      var wholeSequence := actualErrors == 0 && start == 0 && end >= |s| - 1;
      var wholeWord := actualErrors == 0 && IsWordSeparatorAt(s, start - 1) && IsWordSeparatorAt(s, end + 1);
      var before := OrElse(LastSeparator(s, start), -1);
      var after := OrElse(FirstSeparator(s, end + 1), |s|);
      var substringEnd := if st.request.strategy == Acronym then after else end + 1;
      Ok(TrieSearchResult(
        s,
        g[st.node].value.value,
        s[start..substringEnd],
        s[before + 1..after],
        st.coords.matches,
        actualErrors,
        start - before - 1,
        wholeSequence,
        wholeWord))
  }

  /** The matched substring starts at the first match and runs at least to the last one. */
  lemma MatchedSubstringShape<V>(g: Graph<V>, st: FuzzyState)
    requires st.node in g && CoordinatesOk(st) && HasSearchResult(g, st)
    ensures var r := BuildSearchResult(g, st).value;
            var start := st.coords.startMatchIndex.value;
            var end := st.coords.endMatchIndex.value;
            && r.matchedSubstring <= st.sequence[start..]
            && |r.matchedSubstring| >= end + 1 - start
  {
    var s := st.sequence;
    var start := st.coords.startMatchIndex.value;
    var end := st.coords.endMatchIndex.value;
    var after := OrElse(FirstSeparator(s, end + 1), |s|);
    var substringEnd := if st.request.strategy == Acronym then after else end + 1;
    assert BuildSearchResult(g, st).value.matchedSubstring == s[start..substringEnd];
    SliceIsPrefix(s, start, substringEnd);
  }

  /**
   * `matchedWholeWord` means that the matched substring is the whole matched word, with no
   * errors; for a match that does not start on a separator, and for every strategy but Acronym
   * (whose matched substring runs on to the end of the word), the converse holds too.
   */
  lemma WholeWordShape<V>(g: Graph<V>, st: FuzzyState)
    requires st.node in g && CoordinatesOk(st) && HasSearchResult(g, st)
    requires !IsSeparatorChar(st.sequence[st.coords.startMatchIndex.value])
    ensures var r := BuildSearchResult(g, st).value;
            r.matchedWholeWord ==> r.numberOfErrors == 0 && r.matchedSubstring == r.matchedWord
    ensures var r := BuildSearchResult(g, st).value;
            st.request.strategy != Acronym ==>
              (r.matchedWholeWord <==> r.numberOfErrors == 0 && r.matchedSubstring == r.matchedWord)
  {
    var r := BuildSearchResult(g, st).value;
    var s := st.sequence;
    var start := st.coords.startMatchIndex.value;
    var end := st.coords.endMatchIndex.value;
    var after := OrElse(FirstSeparator(s, end + 1), |s|);
    var substringEnd := if st.request.strategy == Acronym then after else end + 1;
    assert r.matchedSubstring == s[start..substringEnd];
    assert r.matchedWord == s[OrElse(LastSeparator(s, start), -1) + 1..after];
    WordBounds(s, start, end);
  }

  /**
   * Around a match `s[start..end + 1]` that starts on a word character, the word runs exactly
   * over the match when, and only when, the match is bounded by separators or string edges.
   */
  lemma WordBounds(s: string, start: nat, end: nat)
    requires start <= end < |s| && !IsSeparatorChar(s[start])
    ensures var before := OrElse(LastSeparator(s, start), -1);
            var after := OrElse(FirstSeparator(s, end + 1), |s|);
            && (IsWordSeparatorAt(s, start - 1) && IsWordSeparatorAt(s, end + 1) ==>
                  before == start - 1 && after == end + 1)
            && (s[start..end + 1] == s[before + 1..after] ==>
                  IsWordSeparatorAt(s, start - 1) && IsWordSeparatorAt(s, end + 1))
  {
    var before := OrElse(LastSeparator(s, start), -1);
    var after := OrElse(FirstSeparator(s, end + 1), |s|);
    assert before < start && end + 1 <= after;
    if s[start..end + 1] == s[before + 1..after] {
      assert |s[start..end + 1]| == |s[before + 1..after]|;
    }
  }

  /**
   * A match that starts on a separator can be a whole word whose matched word is not its matched
   * substring: keyword " ab" against the term " ab", the matched word "ab" leaves the separator out.
   */
  lemma WholeWordAtSeparator()
    ensures var g: Graph<int> := map[0 := TrieNode("", None, 3, {1}, None),
                                     1 := TrieNode(" ", None, 3, {2}, Some(0)),
                                     2 := TrieNode("a", None, 2, {3}, Some(1)),
                                     3 := TrieNode("b", Some(1), 1, {}, Some(2))];
            var st := FuzzyState(SearchRequest(Liberal, " ab", 0, 0, true), 3, " ab", false,
                                 Coordinates(3, 3, 0, Some(0), Some(2), None));
            && CoordinatesOk(st) && HasSearchResult(g, st)
            && BuildSearchResult(g, st).value.matchedWholeWord
            && BuildSearchResult(g, st).value.matchedSubstring == " ab"
            && BuildSearchResult(g, st).value.matchedWord == "ab"
  {
    var s := " ab";
    assert IsSeparatorChar(s[0]) && !IsSeparatorChar(s[1]) && !IsSeparatorChar(s[2]);
    assert LastSeparator(s, 0) == Some(0);
    assert FirstSeparator(s, 3) == None;
    assert s[0..3] == " ab" && s[1..3] == "ab";
  }

  /**
   * `matchedWholeString` means that the matched substring is the whole string, with no errors;
   * for every strategy but Acronym the converse holds too.
   */
  lemma WholeStringShape<V>(g: Graph<V>, st: FuzzyState)
    requires st.node in g && CoordinatesOk(st) && HasSearchResult(g, st)
    ensures var r := BuildSearchResult(g, st).value;
            r.matchedWholeString ==> r.numberOfErrors == 0 && r.matchedSubstring == r.str
    ensures var r := BuildSearchResult(g, st).value;
            st.request.strategy != Acronym ==>
              (r.matchedWholeString <==> r.numberOfErrors == 0 && r.matchedSubstring == r.str)
  {
    var r := BuildSearchResult(g, st).value;
    var s := st.sequence;
    var start := st.coords.startMatchIndex.value;
    var end := st.coords.endMatchIndex.value;
    var after := OrElse(FirstSeparator(s, end + 1), |s|);
    var substringEnd := if st.request.strategy == Acronym then after else end + 1;
    assert r.matchedSubstring == s[start..substringEnd] && r.str == s;
    if r.matchedWholeString {
      assert start == 0 && end == |s| - 1 && after == |s|;
      assert s[0..|s|] == s;
    }
    if st.request.strategy != Acronym && r.numberOfErrors == 0 && r.matchedSubstring == r.str {
      assert |s[start..end + 1]| == |s|;
    }
  }

  /**
   * The matched word starts `prefixDistance` characters before the match, with no separator in
   * between (the distance is -1 when the match itself starts on a separator).
   */
  lemma MatchedWordShape<V>(g: Graph<V>, st: FuzzyState)
    requires st.node in g && CoordinatesOk(st) && HasSearchResult(g, st)
    ensures var r := BuildSearchResult(g, st).value;
            var start := st.coords.startMatchIndex.value;
            && -1 <= r.prefixDistance <= start
            && r.matchedWord <= st.sequence[start - r.prefixDistance..]
            && (forall j | start - r.prefixDistance <= j < start :: !IsSeparatorChar(st.sequence[j]))
  {
    var r := BuildSearchResult(g, st).value;
    var s := st.sequence;
    var start := st.coords.startMatchIndex.value;
    var end := st.coords.endMatchIndex.value;
    var before := OrElse(LastSeparator(s, start), -1);
    var after := OrElse(FirstSeparator(s, end + 1), |s|);
    assert r.matchedWord == s[before + 1..after] && start - r.prefixDistance == before + 1;
    SliceIsPrefix(s, before + 1, after);
  }

  /** A slice of a sequence is a prefix of the suffix starting where it does. */
  lemma SliceIsPrefix<T>(s: seq<T>, i: int, j: int)
    requires 0 <= i <= j <= |s|
    ensures s[i..j] <= s[i..]
  {
    assert s[i..][..j - i] == s[i..j];
  }

  // ---------------------------------------------------------------------------------------------
  // Transitions

  /** `shouldCull(nextNode)`: the subtree below `c` is too shallow to hold the matches still needed. */
  predicate ShouldCull<V>(g: Graph<V>, st: FuzzyState, c: NodeId)
    requires c in g
  {
    g[c].depth < |st.request.keyword| - st.coords.matches - st.request.errorTolerance
  }

  /** `st` moved onto the child `c`, with new coordinates. */
  function Onto<V>(g: Graph<V>, st: FuzzyState, c: NodeId, gather: bool, coords: Coordinates): FuzzyState
    requires c in g
  {
    FuzzyState(st.request, c, st.sequence + g[c].str, gather, coords)
  }

  /** `buildContinueState`: Acronym reads on, unchanged, through the letters after a word start. */
  function ContinueState<V>(g: Graph<V>, st: FuzzyState, c: NodeId): Option<seq<FuzzyState>>
    requires st.node in g && c in g
  {
    if st.request.strategy == Acronym && !IsWordSeparator(g[st.node].str) then
      Some([Onto(g, st, c, false, st.coords)])
    else None
  }

  /** The strategy-specific precondition of a match in `nextNodeMatches`. */
  predicate MatchingPreconditions<V>(g: Graph<V>, st: FuzzyState)
    requires st.node in g
  {
    match st.request.strategy
    case Acronym => IsWordSeparator(g[st.node].str)
    case FuzzyPrefix => st.coords.matches > 0 || DistanceToWordStartPermissible(st)
    case ExactPrefix => st.coords.matches > 0 || IsWordSeparator(g[st.node].str)
    case FuzzyPostfix => st.coords.matches > 0 || IsWordSeparator(g[st.node].str)
    case _ => true
  }

  /**
   * `nextNodeMatches(nextNode)`, with the keyword index checked before the keyword is read. The
   * source reads it first when the strategy is Wildcard; `NextNodeMatchesAsWritten` models that.
   */
  predicate NextNodeMatches<V>(g: Graph<V>, st: FuzzyState, c: NodeId)
    requires st.node in g && c in g && KeywordIndex(st) >= 0
    ensures NextNodeMatches(g, st, c) ==> KeywordIndex(st) < |st.request.keyword|
    ensures && st.request.strategy == Wildcard && KeywordIndex(st) < |st.request.keyword|
            && st.request.keyword[KeywordIndex(st)] == '*'
            ==> NextNodeMatches(g, st, c)
  {
    var kw := st.request.keyword;
    var i := KeywordIndex(st);
    if st.request.strategy == Wildcard && i < |kw| && kw[i] == '*' then true
    else
      && MatchingPreconditions(g, st)
      && i < |kw|
      && Cased(st.request, g[c].str) == Cased(st.request, [kw[i]])
  }

  /**
   * `nextNodeMatches(nextNode)` as written: with the Wildcard strategy, `currentSearchCharacter()`
   * reads `keyword[keywordIndex]` before `keywordIndex < keyword.length` is checked, and throws
   * once the whole keyword has been matched.
   */
  function NextNodeMatchesAsWritten<V>(g: Graph<V>, st: FuzzyState, c: NodeId): (r: Result<bool>)
    requires st.node in g && c in g && KeywordIndex(st) >= 0
    ensures r.Err? <==> st.request.strategy == Wildcard && KeywordIndex(st) >= |st.request.keyword|
    ensures r.Ok? ==> r.value == NextNodeMatches(g, st, c)
  {
    var kw := st.request.keyword;
    var i := KeywordIndex(st);
    var rest := MatchingPreconditions(g, st) && i < |kw|
                && Cased(st.request, g[c].str) == Cased(st.request, [kw[i]]);
    if st.request.strategy == Wildcard then
      if i >= |kw| then Err(IndexOutOfBounds)
      else if kw[i] == '*' then Ok(true)
      else Ok(rest)
    else Ok(rest)
  }

  /** `buildMatchState`: the child matches the current keyword character. */
  function MatchState<V>(g: Graph<V>, st: FuzzyState, c: NodeId): Option<seq<FuzzyState>>
    requires st.node in g && c in g && KeywordIndex(st) >= 0
  {
    if st.isGatherState then None
    else if NextNodeMatches(g, st, c) then
      var k := st.coords;
      Some([Onto(g, st, c, false,
                 Coordinates(k.keywordIndex + 1, k.matches + 1, k.errors,
                             Some(OrElse(k.startMatchIndex, |st.sequence|)), Some(|st.sequence|),
                             k.swapChars))])
    else None
  }

  /** The first pending swap taken from `source` in the keyword and `target` in the data. */
  function FirstSwap(req: SearchRequest, swaps: seq<SwapChars>, source: string, target: string): (r: Option<SwapChars>)
    ensures r.Some? ==> && r.value in swaps
                        && Cased(req, r.value.fromSource) == source && Cased(req, r.value.fromTarget) == target
    ensures r.None? ==> forall w | w in swaps :: Cased(req, w.fromSource) != source || Cased(req, w.fromTarget) != target
  {
    if swaps == [] then None
    else if Cased(req, swaps[0].fromSource) == source && Cased(req, swaps[0].fromTarget) == target then Some(swaps[0])
    else FirstSwap(req, swaps[1..], source, target)
  }

  /**
   * `getMatching(nextNode)`: the pending swap that the child completes. Once the keyword is used
   * up no swap can be completed; `GetMatchingAsWritten` models what the source does instead.
   */
  function GetMatching<V>(g: Graph<V>, st: FuzzyState, c: NodeId): (r: Option<SwapChars>)
    requires c in g && KeywordIndex(st) >= 0
    ensures r.Some? ==> && KeywordIndex(st) < |st.request.keyword|
                        && st.coords.swapChars.Some? && r.value in st.coords.swapChars.value
                        && Cased(st.request, r.value.fromSource) == Cased(st.request, g[c].str)
                        && Cased(st.request, r.value.fromTarget)
                           == Cased(st.request, [st.request.keyword[KeywordIndex(st)]])
    ensures r.None? && st.coords.swapChars.Some? && KeywordIndex(st) < |st.request.keyword|
            ==> forall w | w in st.coords.swapChars.value
                  :: || Cased(st.request, w.fromSource) != Cased(st.request, g[c].str)
                     || Cased(st.request, w.fromTarget) != Cased(st.request, [st.request.keyword[KeywordIndex(st)]])
  {
    var kw := st.request.keyword;
    var i := KeywordIndex(st);
    if st.coords.swapChars.None? || i >= |kw| then None
    else FirstSwap(st.request, st.coords.swapChars.value, Cased(st.request, g[c].str), Cased(st.request, [kw[i]]))
  }

  /**
   * `getMatching(nextNode)` as written: for each pending swap whose source character is the
   * child's, `currentSearchCharacter()` reads `keyword[keywordIndex]`, and throws once the whole
   * keyword has been matched.
   */
  function GetMatchingAsWritten<V>(g: Graph<V>, st: FuzzyState, c: NodeId): (r: Result<Option<SwapChars>>)
    requires c in g && KeywordIndex(st) >= 0
    ensures r.Err? <==> && KeywordIndex(st) >= |st.request.keyword| && st.coords.swapChars.Some?
                        && exists w | w in st.coords.swapChars.value
                             :: Cased(st.request, w.fromSource) == Cased(st.request, g[c].str)
    ensures r.Ok? ==> r.value == GetMatching(g, st, c)
  {
    var kw := st.request.keyword;
    var i := KeywordIndex(st);
    if st.coords.swapChars.None? then Ok(None)
    else if i < |kw| then Ok(GetMatching(g, st, c))
    else if exists w | w in st.coords.swapChars.value
              :: Cased(st.request, w.fromSource) == Cased(st.request, g[c].str) then Err(IndexOutOfBounds)
    else Ok(None)
  }

  /** `filter { it != swap }`. */
  function Without(swaps: seq<SwapChars>, swap: SwapChars): (r: seq<SwapChars>)
    ensures forall w :: w in r <==> w in swaps && w != swap
  {
    if swaps == [] then []
    else (if swaps[0] == swap then [] else [swaps[0]]) + Without(swaps[1..], swap)
  }

  /** `shouldProduceErrorStates()`. */
  predicate ShouldProduceErrorStates(st: FuzzyState) {
    && KeywordIndex(st) + 1 < |st.request.keyword|
    && st.coords.errors < st.request.errorTolerance
    && match st.request.strategy
       case SymmetricalSwap => true
       case AdjacentSwap => NoPendingSwaps(st)
       case FuzzyPostfix => HasMinimumMatches(st)
       case FuzzyPrefix => st.coords.matches > 0 || DistanceToWordStartPermissible(st)
       case _ => st.coords.matches > 0
  }

  predicate IsSwapStrategy(s: Strategy) {
    s == AdjacentSwap || s == SymmetricalSwap
  }

  /**
   * `getErrorStrategies(nextNode)` turned into states: one swap for the swap strategies, otherwise
   * a misspelling, a letter missing from the data and a letter missing from the keyword.
   */
  function ErrorStates<V>(g: Graph<V>, st: FuzzyState, c: NodeId): seq<FuzzyState>
    requires st.node in g && c in g && 0 <= KeywordIndex(st) && ShouldProduceErrorStates(st)
  {
    var k := st.coords;
    var i := k.keywordIndex;
    if IsSwapStrategy(st.request.strategy) then
      var swap := SwapChars([st.request.keyword[i]], g[c].str);
      var pending := if k.swapChars.Some? then k.swapChars.value else [];
      [Onto(g, st, c, false,
            Coordinates(i + 1, k.matches, k.errors + 1, Some(OrElse(k.startMatchIndex, |st.sequence|)),
                        k.endMatchIndex, Some(pending + [swap])))]
    else
      [ Onto(g, st, c, false, Coordinates(i + 1, k.matches, k.errors + 1, k.startMatchIndex, k.endMatchIndex, None)),
        FuzzyState(st.request, st.node, st.sequence, false,
                   Coordinates(i + 1, k.matches, k.errors + 1, k.startMatchIndex, k.endMatchIndex, None)),
        Onto(g, st, c, false, Coordinates(i, k.matches, k.errors + 1, k.startMatchIndex, k.endMatchIndex, None)) ]
  }

  /** `buildErrorState`: complete a pending swap, or else branch into error states. */
  function ErrorState<V>(g: Graph<V>, st: FuzzyState, c: NodeId): Option<seq<FuzzyState>>
    requires st.node in g && c in g && 0 <= KeywordIndex(st)
  {
    if st.isGatherState then None
    else
      var satisfied := GetMatching(g, st, c);
      var k := st.coords;
      if satisfied.Some? then
        Some([Onto(g, st, c, false,
                   Coordinates(k.keywordIndex + 1, k.matches, k.errors + 1,
                               Some(OrElse(k.startMatchIndex, |st.sequence|)), Some(|st.sequence|),
                               Some(Without(k.swapChars.value, satisfied.value))))])
      else if ShouldProduceErrorStates(st) then Some(ErrorStates(g, st, c))
      else None
  }

  /** The state with every coordinate cleared, on the child `c`. */
  function Reset<V>(g: Graph<V>, st: FuzzyState, c: NodeId): FuzzyState
    requires c in g
  {
    Onto(g, st, c, false, Coordinates(0, 0, 0, None, None, None))
  }

  /** `buildResetState(nextNode)`: start over when the current attempt is not a match. */
  function ResetState<V>(g: Graph<V>, st: FuzzyState, c: NodeId): Option<seq<FuzzyState>>
    requires c in g && KeywordIndex(st) <= |st.request.keyword|
  {
    if !st.isGatherState && !Matches(st) then Some([Reset(g, st, c)]) else None
  }

  /**
   * `buildGatherState(nextNode)`: keep the match and read on; on first entry into gathering, and
   * unless every keyword character matched, also start over in case a better match follows.
   */
  function GatherStates<V>(g: Graph<V>, st: FuzzyState, c: NodeId): seq<FuzzyState>
    requires c in g
  {
    [Onto(g, st, c, true, st.coords)]
      + (if !st.isGatherState && |st.request.keyword| != st.coords.matches then [Reset(g, st, c)] else [])
  }

  /** `nextStates(nextNode)`: nothing for a culled child, else the first step that applies. */
  function NextStatesFor<V>(g: Graph<V>, st: FuzzyState, c: NodeId): (r: Option<seq<FuzzyState>>)
    requires st.node in g && c in g && CoordinatesOk(st)
    ensures r.None? <==> ShouldCull(g, st, c)
    ensures r.Some? ==> r.value != []
  {
    if ShouldCull(g, st, c) then None
    else
      var continued := ContinueState(g, st, c);
      if continued.Some? then continued
      else
        var matched := MatchState(g, st, c);
        if matched.Some? then matched
        else
          var erred := ErrorState(g, st, c);
          if erred.Some? then erred
          else
            var reset := ResetState(g, st, c);
            if reset.Some? then reset
            else Some(GatherStates(g, st, c))
  }

  /** The children of a node, in the order a traversal visits them (ascending node id here). */
  function Children<V>(g: Graph<V>, n: NodeId): (r: seq<NodeId>)
    requires n in g
    ensures forall i | 0 <= i < |r| :: r[i] in g[n].next
  {
    Ascending(g[n].next)
  }

  /** `nextStates()`: the successors through every child, concatenated in traversal order. */
  function NextStates<V>(g: Graph<V>, st: FuzzyState): seq<FuzzyState>
    requires Linked(g, st.node) && CoordinatesOk(st)
  {
    Successors(g, st, Children(g, st.node))
  }

  function Successors<V>(g: Graph<V>, st: FuzzyState, cs: seq<NodeId>): seq<FuzzyState>
    requires Linked(g, st.node) && CoordinatesOk(st)
    requires forall i | 0 <= i < |cs| :: cs[i] in g[st.node].next
  {
    if cs == [] then []
    else
      var here := NextStatesFor(g, st, cs[0]);
      (if here.Some? then here.value else []) + Successors(g, st, cs[1..])
  }

  // ---------------------------------------------------------------------------------------------
  // Every step goes down the trie or further along the keyword

  /** `st` sits in the trie `paths` with coordinates in range. */
  ghost predicate InTrie(paths: map<string, NodeId>, st: FuzzyState) {
    Located(paths, st) && CoordinatesOk(st)
  }

  /** `x` searches for the same thing as `st` and is further: down the trie, or along the keyword. */
  ghost predicate Below(st: FuzzyState, x: FuzzyState) {
    && x.request == st.request
    && (|| st.sequence < x.sequence
        || (x.sequence == st.sequence && KeywordIndex(st) < KeywordIndex(x)))
  }

  /** A located state's node is linked to its children. */
  lemma LinkedInTree<V>(g: Graph<V>, paths: map<string, NodeId>, st: FuzzyState)
    requires Tree(g, paths) && Located(paths, st)
    ensures Linked(g, st.node)
  {
    forall c | c in g[st.node].next
      ensures c in g && g[c].str != []
    {
      assert c in g[paths[st.sequence]].next;
    }
  }

  /** The states derived through one child are in the trie and further than `st`. */
  lemma StepBelow<V>(g: Graph<V>, paths: map<string, NodeId>, st: FuzzyState, c: NodeId)
    requires Tree(g, paths) && InTrie(paths, st) && c in g[st.node].next
    ensures c in g
    ensures var r := NextStatesFor(g, st, c);
            r.Some? ==> forall x | x in r.value :: InTrie(paths, x) && Below(st, x)
  {
    assert c in g[paths[st.sequence]].next;
    var s' := st.sequence + g[c].str;
    assert s' in paths && paths[s'] == c && |g[c].str| == 1;
    assert st.sequence < s' by { assert s'[..|st.sequence|] == st.sequence; }
    StepShapes(g, st, c);
  }

  /**
   * `x` is a successor of `st` through `c` as far as shape goes: the same request, coordinates in
   * range, and either on `c` one character further or on the same node further along the keyword.
   */
  predicate StepShape<V>(g: Graph<V>, st: FuzzyState, c: NodeId, x: FuzzyState)
    requires c in g
  {
    && x.request == st.request && CoordinatesOk(x)
    && (|| (x.node == c && x.sequence == st.sequence + g[c].str)
        || (x.node == st.node && x.sequence == st.sequence && KeywordIndex(st) < KeywordIndex(x)))
  }

  /** Every successor through a child has the shape of a step. */
  lemma StepShapes<V>(g: Graph<V>, st: FuzzyState, c: NodeId)
    requires st.node in g && c in g && CoordinatesOk(st) && g[c].str != []
    ensures var r := NextStatesFor(g, st, c);
            r.Some? ==> forall x | x in r.value :: StepShape(g, st, c, x)
  {
    if !ShouldCull(g, st, c) {
      ContinueShape(g, st, c);
      MatchShape(g, st, c);
      ErrorShape(g, st, c);
      ResetShape(g, st, c);
      GatherShape(g, st, c);
    }
  }

  lemma ContinueShape<V>(g: Graph<V>, st: FuzzyState, c: NodeId)
    requires st.node in g && c in g && CoordinatesOk(st) && g[c].str != []
    ensures var r := ContinueState(g, st, c);
            r.Some? ==> forall x | x in r.value :: StepShape(g, st, c, x)
  {
  }

  lemma MatchShape<V>(g: Graph<V>, st: FuzzyState, c: NodeId)
    requires st.node in g && c in g && CoordinatesOk(st) && g[c].str != []
    ensures var r := MatchState(g, st, c);
            r.Some? ==> forall x | x in r.value :: StepShape(g, st, c, x)
  {
  }

  lemma ErrorShape<V>(g: Graph<V>, st: FuzzyState, c: NodeId)
    requires st.node in g && c in g && CoordinatesOk(st) && g[c].str != []
    ensures var r := ErrorState(g, st, c);
            r.Some? ==> forall x | x in r.value :: StepShape(g, st, c, x)
  {
  }

  lemma ResetShape<V>(g: Graph<V>, st: FuzzyState, c: NodeId)
    requires st.node in g && c in g && CoordinatesOk(st) && g[c].str != []
    ensures var r := ResetState(g, st, c);
            r.Some? ==> forall x | x in r.value :: StepShape(g, st, c, x)
  {
  }

  lemma GatherShape<V>(g: Graph<V>, st: FuzzyState, c: NodeId)
    requires st.node in g && c in g && CoordinatesOk(st) && g[c].str != []
    ensures forall x | x in GatherStates(g, st, c) :: StepShape(g, st, c, x)
  {
  }

  /** The coordinates of a search that starts over. */
  predicate IsReset(k: Coordinates) {
    k == Coordinates(0, 0, 0, None, None, None)
  }

  /**
   * Every step either starts over, or keeps the counts of matches and errors from going down and
   * keeps the start of a match once there is one.
   */
  lemma StepProgress<V>(g: Graph<V>, st: FuzzyState, c: NodeId)
    requires st.node in g && c in g && CoordinatesOk(st)
    ensures var r := NextStatesFor(g, st, c);
            r.Some? ==> forall x | x in r.value ::
                          || IsReset(x.coords)
                          || (&& x.coords.matches >= st.coords.matches
                              && x.coords.errors >= st.coords.errors
                              && (st.coords.startMatchIndex.Some? ==>
                                    x.coords.startMatchIndex == st.coords.startMatchIndex))
  {
  }

  /**
   * Outside Acronym, a state gathering the rest of a string after a match moves down every child
   * that is not culled as one gathering state with the same coordinates.
   */
  lemma GatherKeepsMatch<V>(g: Graph<V>, st: FuzzyState, c: NodeId)
    requires st.node in g && c in g && CoordinatesOk(st)
    requires st.isGatherState && st.request.strategy != Acronym && !ShouldCull(g, st, c)
    ensures NextStatesFor(g, st, c) == Some([Onto(g, st, c, true, st.coords)])
  {
    var x := Onto(g, st, c, true, st.coords);
    assert GatherStates(g, st, c) == [x] + [] == [x];
  }

  /**
   * A step that matches the keyword character moves onto the child with one more match, and
   * leaves the errors alone; the match ends at the child's position in the sequence.
   */
  lemma MatchStep<V>(g: Graph<V>, st: FuzzyState, c: NodeId)
    requires st.node in g && c in g && CoordinatesOk(st) && !ShouldCull(g, st, c)
    requires ContinueState(g, st, c).None? && !st.isGatherState && NextNodeMatches(g, st, c)
    ensures var r := NextStatesFor(g, st, c).value;
            && |r| == 1 && r[0].node == c && r[0].sequence == st.sequence + g[c].str
            && KeywordIndex(r[0]) == KeywordIndex(st) + 1 <= |st.request.keyword|
            && r[0].coords.matches == st.coords.matches + 1 && r[0].coords.errors == st.coords.errors
            && r[0].coords.endMatchIndex == Some(|st.sequence|)
  {
  }

  /**
   * A step that neither continues nor matches, outside gathering, charges exactly one error to
   * every state it derives: one state when it completes or starts a swap, three otherwise.
   */
  lemma ErrorStep<V>(g: Graph<V>, st: FuzzyState, c: NodeId)
    requires st.node in g && c in g && CoordinatesOk(st) && !ShouldCull(g, st, c)
    requires ContinueState(g, st, c).None? && !st.isGatherState && !NextNodeMatches(g, st, c)
    requires GetMatching(g, st, c).Some? || ShouldProduceErrorStates(st)
    ensures var r := NextStatesFor(g, st, c).value;
            && |r| == (if GetMatching(g, st, c).Some? || IsSwapStrategy(st.request.strategy) then 1 else 3)
            && forall x | x in r :: x.coords.errors == st.coords.errors + 1 && !x.isGatherState
  {
  }

  /** Every successor of a located state is in the trie and further than it. */
  lemma {:induction false} SuccessorsBelow<V>(g: Graph<V>, paths: map<string, NodeId>, st: FuzzyState,
                                               cs: seq<NodeId>)
    requires Tree(g, paths) && InTrie(paths, st) && Linked(g, st.node)
    requires forall i | 0 <= i < |cs| :: cs[i] in g[st.node].next
    ensures forall x | x in Successors(g, st, cs) :: InTrie(paths, x) && Below(st, x)
  {
    if cs != [] {
      StepBelow(g, paths, st, cs[0]);
      SuccessorsBelow(g, paths, st, cs[1..]);
    }
  }

  // ---------------------------------------------------------------------------------------------
  // Initial states

  /** The private `invoke` constructor: a state at the root with nothing matched. */
  function InitialState(root: NodeId, req: SearchRequest): FuzzyState {
    FuzzyState(req, root, [], false, Coordinates(0, 0, 0, None, None, None))
  }

  /**
   * `getInitialStates`: the root state for the whole keyword and, for Liberal only, one more root
   * state per i in 1..errorTolerance that drops the first i keyword characters as i errors.
   */
  function GetInitialStates<V>(g: Graph<V>, root: NodeId, keyword: string, errorTolerance: int,
                               strategy: Strategy, caseInsensitive: bool): (r: Result<seq<FuzzyState>>)
    requires root in g
    ensures !g[root].IsRoot() ==> r == Err(IllegalArgument)
    ensures g[root].IsRoot() && strategy == Liberal && errorTolerance > |keyword| ==> r == Err(IndexOutOfBounds)
    ensures r.Ok? ==> && g[root].IsRoot()
                      && |r.value| == 1 + (if strategy == Liberal && errorTolerance > 0 then errorTolerance else 0)
                      && r.value[0] == InitialState(root, SearchRequest(strategy, keyword, 0, errorTolerance, caseInsensitive))
                      && forall i | 1 <= i < |r.value| ::
                           && i <= |keyword|
                           && r.value[i] == InitialState(root, SearchRequest(strategy, keyword[i..], i, errorTolerance - i, caseInsensitive))
  {
    if !g[root].IsRoot() then Err(IllegalArgument)
    else if strategy == Liberal && errorTolerance > |keyword| then Err(IndexOutOfBounds)
    else
      var extra := if strategy == Liberal && errorTolerance > 0 then errorTolerance else 0;
      Ok([InitialState(root, SearchRequest(strategy, keyword, 0, errorTolerance, caseInsensitive))]
         + seq(extra, j requires 0 <= j < extra =>
                 InitialState(root, SearchRequest(strategy, keyword[j + 1..], j + 1, errorTolerance - (j + 1), caseInsensitive))))
  }

  // ---------------------------------------------------------------------------------------------
  // Helpers on node sets

  /** The smallest element of a non-empty set of ids. */
  ghost function MinOf(s: set<nat>): (m: nat)
    requires s != {}
    ensures m in s && forall y | y in s :: m <= y
  {
    var x :| x in s;
    if s == {x} then x
    else
      var r := MinOf(s - {x});
      assert forall y | y in s && y != x :: y in s - {x};
      if x < r then x else r
  }

  /** `m` is the smallest element of `s`. */
  predicate IsMin(s: set<nat>, m: nat) {
    m in s && forall y | y in s :: m <= y
  }

  lemma MinUnique(s: set<nat>)
    ensures forall a, b | IsMin(s, a) && IsMin(s, b) :: a == b
  {
  }

  /** The elements of a set of ids, smallest first. */
  function Ascending(s: set<nat>): (r: seq<nat>)
    ensures |r| == |s|
    ensures forall i | 0 <= i < |r| :: r[i] in s
    ensures forall x | x in s :: x in r
    decreases s
  {
    if s == {} then []
    else
      assert IsMin(s, MinOf(s));
      MinUnique(s);
      var m :| IsMin(s, m);
      var rest := Ascending(s - {m});
      PlaceMin(s, m, rest);
      [m] + rest
  }

  /** The smallest element followed by the others, smallest first, lists the whole set. */
  lemma PlaceMin(s: set<nat>, m: nat, rest: seq<nat>)
    requires m in s && |rest| == |s - {m}|
    requires forall i | 0 <= i < |rest| :: rest[i] in s - {m}
    requires forall x | x in s - {m} :: x in rest
    ensures |[m] + rest| == |s|
    ensures forall i | 0 <= i < |[m] + rest| :: ([m] + rest)[i] in s
    ensures forall x | x in s :: x in [m] + rest
  {
    forall x | x in s
      ensures x in [m] + rest
    {
      if x != m {
        assert x in s - {m};
      }
    }
  }
}
