/**
 * Two inputs on which `FuzzySearchState.kt` reads the keyword past its end. Both arise once every
 * keyword character has been consumed while the trie still goes on below the state: the Wildcard
 * strategy then reads the current keyword character before checking the index, and a pending swap
 * whose source character is the next child's makes `getMatching` read it too. The searches below
 * are ones a user can issue; in the source each one ends in an IndexOutOfBoundsException, while
 * the corrected transitions carry on.
 */
module FuzzyFindings {
  import opened Wrappers
  import opened TrieNodes
  import opened FuzzySearch

  /** The trie holding only "ab" (value 1): root 0, node 1 for 'a', node 2 for 'b'. */
  function TrieAb(): Graph<int> {
    map[0 := TrieNode("", None, 2, {1}, None),
        1 := TrieNode("a", None, 2, {2}, Some(0)),
        2 := TrieNode("b", Some(1), 1, {}, Some(1))]
  }

  /** `search("a", 0, WILDCARD)`. */
  function WildcardA(): SearchRequest {
    SearchRequest(Wildcard, "a", 0, 0, true)
  }

  /** The state below the root after "a" matched the whole keyword. */
  function MatchedA(): FuzzyState {
    FuzzyState(WildcardA(), 1, "a", false, Coordinates(1, 1, 0, Some(0), Some(0), None))
  }

  /**
   * Over "ab", the Wildcard search for "a" matches the whole keyword at 'a'; at the child 'b' the
   * source reads the keyword at index 1 and throws. The corrected transition gathers "ab" instead,
   * and the gathered state yields the error-free result for "ab".
   */
  lemma WildcardOverrun()
    ensures NextStatesFor(TrieAb(), InitialState(0, WildcardA()), 1) == Some([MatchedA()])
    ensures NextNodeMatchesAsWritten(TrieAb(), MatchedA(), 2) == Err(IndexOutOfBounds)
    ensures !NextNodeMatches(TrieAb(), MatchedA(), 2)
    ensures var gathered := FuzzyState(WildcardA(), 2, "ab", true, MatchedA().coords);
            && NextStatesFor(TrieAb(), MatchedA(), 2) == Some([gathered])
            && HasSearchResult(TrieAb(), gathered)
            && BuildSearchResult(TrieAb(), gathered).value.str == "ab"
            && BuildSearchResult(TrieAb(), gathered).value.numberOfErrors == 0
  {
    var g, init := TrieAb(), InitialState(0, WildcardA());
    assert Cased(WildcardA(), "a") == "a";
    assert Cased(WildcardA(), [WildcardA().keyword[0]]) == "a";
    assert init.sequence + g[1].str == "a";
    assert MatchState(g, init, 1) == Some([MatchedA()]);
    var gathered := FuzzyState(WildcardA(), 2, "ab", true, MatchedA().coords);
    assert MatchedA().sequence + g[2].str == "ab";
    assert GatherStates(g, MatchedA(), 2) == [gathered] + [] == [gathered];
  }

  /** The trie holding only "bba" (value 1): root 0, then nodes 1, 2 and 3 for 'b', 'b' and 'a'. */
  function TrieBba(): Graph<int> {
    map[0 := TrieNode("", None, 3, {1}, None),
        1 := TrieNode("b", None, 3, {2}, Some(0)),
        2 := TrieNode("b", None, 2, {3}, Some(1)),
        3 := TrieNode("a", Some(1), 1, {}, Some(2))]
  }

  /** `search("ab", 1, ADJACENT_SWAP)`. */
  function SwapAb(): SearchRequest {
    SearchRequest(AdjacentSwap, "ab", 0, 1, true)
  }

  /** After "b": the keyword's 'a' is taken as swapped with the data's 'b'. */
  function Swapped(): FuzzyState {
    FuzzyState(SwapAb(), 1, "b", false, Coordinates(1, 0, 1, Some(0), None, Some([SwapChars("a", "b")])))
  }

  /** After "bb": the keyword's 'b' matched, the swap is still pending, the keyword is used up. */
  function SwapPending(): FuzzyState {
    FuzzyState(SwapAb(), 2, "bb", false, Coordinates(2, 1, 1, Some(0), Some(1), Some([SwapChars("a", "b")])))
  }

  /**
   * Over "bba", the AdjacentSwap search for "ab" swaps at the first 'b' and matches at the
   * second; at the child 'a' the pending swap's source character is the child's, and the source
   * reads the keyword at index 2 and throws. The corrected transition starts over at 'a'.
   */
  lemma SwapOverrun()
    ensures NextStatesFor(TrieBba(), InitialState(0, SwapAb()), 1) == Some([Swapped()])
    ensures NextStatesFor(TrieBba(), Swapped(), 2) == Some([SwapPending()])
    ensures GetMatchingAsWritten(TrieBba(), SwapPending(), 3) == Err(IndexOutOfBounds)
    ensures GetMatching(TrieBba(), SwapPending(), 3).None?
    ensures NextStatesFor(TrieBba(), SwapPending(), 3) == Some([Reset(TrieBba(), SwapPending(), 3)])
  {
    var g, init := TrieBba(), InitialState(0, SwapAb());
    assert Cased(SwapAb(), "a") == "a";
    assert Cased(SwapAb(), "b") == "b";
    assert Cased(SwapAb(), [SwapAb().keyword[0]]) == "a";
    assert Cased(SwapAb(), [SwapAb().keyword[1]]) == "b";
    assert !NextNodeMatches(g, init, 1);
    assert [SwapAb().keyword[0]] == "a";
    assert init.sequence + g[1].str == "b";
    assert [] + [SwapChars("a", "b")] == [SwapChars("a", "b")];
    assert ErrorStates(g, init, 1) == [Swapped()];
    assert Swapped().sequence + g[2].str == "bb";
    assert MatchState(g, Swapped(), 2) == Some([SwapPending()]);
    assert SwapChars("a", "b") in SwapPending().coords.swapChars.value;
  }
}
