# Verified model of the stock-app tries

The stock application keeps stock symbols and company names searchable through prefix trees. This
project is a Dafny model of that core, with proofs. It covers these pieces:

- **The legacy Java trie** (`utils/Trie.java`). It offers put, remove, exact lookup, prefix match,
  and a substring search. The substring search runs a small counting automaton down every path.
  Module `LegacyTries` holds the tree and its updates; `LegacySearch` holds the substring search;
  `StockTrie` holds the class and its contracts.
- **The Kotlin trie `tapestrie`** (`Trie.kt`, `TrieNode.kt`, `TrieIterator.kt`). Each node carries a
  depth: its own string's length plus the largest depth among its children, so the length of the
  longest path down from it, counting its own character. At the root that is the length of the
  longest term. It has a breadth-first iterator.
  Modules: `TrieNodes`, `Tapestrie`, `TrieIterators`.
- **The Kotlin fuzzy search.** `FuzzySearchState.kt` is a state machine over trie nodes, with eight
  matching strategies. `FuzzySearcher.kt` runs that machine from every top-level state, keeps the
  best result per string, and sorts the results with the comparator of
  `TrieSearchResultComparator.kt`. Modules: `FuzzySearch`, `FuzzySearcher`, `TrieSearchResults`,
  `Sorting`, plus `Walks`, the exploration order used for termination.
- **`SearchableMap.java`.** A key/value map. Every search term of a value is indexed in a Kotlin
  trie, mapping the term to the set of keys whose values have it. Module: `SearchableMaps`.
- **`WebSocketSessionRegistry.java`.** Maps web-socket sessions to the stock they follow. Module:
  `SessionRegistry`.

Both tries are modelled as node tables (`map<NodeId, node>`) and not as heap objects. A node's
reference is its id. Each table carries a ghost map from paths to nodes, plus a ghost `Contents`
map from terms to values. The class invariants tie the three together:

- the table is a tree;
- every path names exactly one node;
- a node completes exactly when its path is a term of `Contents`.

Every operation is proved against `Contents`. Code that changes state step by step is written as
methods with loops or step methods: put, remove, the climb, the iterator, the substring search,
the search job and the sorts. Code that only computes is written as functions and lemmas:
comparators, state transitions and result building.

The model follows the code. These behaviours of the code are easy to miss:

- Java `put("")` does nothing, because its loop never runs. Kotlin `put("")` is an IllegalArgument error.
- Java `put` keeps the old value of a term that is already complete. Kotlin `put` overwrites it.
- Java `matchByPrefix` includes the prefix's own term. Kotlin `matchByPrefix` starts its
  iterators at the prefix node's children, so it gives only strict extensions.
- Both `remove`s unlink the subtree below the deepest ancestor still used by other strings. The
  removed term and every term that extends it go together.
- Kotlin `remove` decrements the size by one, even when extensions go too. So the size
  invariant proved is `size >= |Contents|`, not equality.
- A fuzzy match that starts on a separator character can be flagged `matchedWholeWord` although
  its matched word, which never starts with a separator, differs from its matched substring
  (`FuzzySearch.WholeWordAtSeparator`). The documented meaning of the flag holds for matches
  that start on a word character (`FuzzySearch.WholeWordShape`).
- `SearchableMap` offers `searchBySubstringFuzzy` (the Kotlin LIBERAL search). It does not offer a
  plain substring search.

## Model

| member | source | states |
|---|---|---|
| TrieNodes.GetNextNode | back/trie/src/main/kotlin/com/rcs/trie/TrieNode.kt:19-23 | a node returned is a child carrying the string; none is returned only when no child carries it |
| TrieNodes.AddNextNode | back/trie/src/main/kotlin/com/rcs/trie/TrieNode.kt:25-29 | the child set grows by exactly the given node; the node's other fields and every other node stay as they were |
| TrieNodes.RemoveNextNode | back/trie/src/main/kotlin/com/rcs/trie/TrieNode.kt:31-35 | a child is dropped exactly when it carries the string; no child is added; nothing else changes |
| TrieNodes.IsRootOnlyAtRoot | back/trie/src/main/kotlin/com/rcs/trie/TrieNode.kt:11-13 | in a well-formed trie, `isRoot` holds at a node exactly when its path is empty |
| TrieNodes.ChildrenUniqueByString | back/trie/src/main/kotlin/com/rcs/trie/TrieNode.kt:19-23 | two children of a node that carry the same string are the same node, so the first match of `getNextNode` is the only one |
| TrieNodes.PrefixClosed | back/tapestrie/src/main/kotlin/com/rcs/trie/Trie.kt:57-88 | every prefix of a path in the trie is a path too, because put creates every intermediate node |
| TrieNodes.Injective | back/tapestrie/src/main/kotlin/com/rcs/trie/Trie.kt:167-177 | two paths that lead to the same node are equal |
| TrieNodes.DepthBound | back/tapestrie/src/main/kotlin/com/rcs/trie/Trie.kt:190-196 | with consistent depths, a node's depth is at least its string length plus the length of any path below it |
| TrieNodes.DepthWitness | back/tapestrie/src/main/kotlin/com/rcs/trie/Trie.kt:190-196 | the depth of a non-root or non-leaf node is reached by some complete term below it |
| TrieNodes.RootOnly | back/tapestrie/src/main/kotlin/com/rcs/trie/Trie.kt:27-30 | a lone root with no value, depth 0 and no children is a well-formed trie with no terms |
| Tapestrie.MaxByDepth | back/tapestrie/src/main/kotlin/com/rcs/trie/Trie.kt:90 | a child of greatest depth is found exactly when there is any child |
| Tapestrie.MaxDepthExcluding | back/tapestrie/src/main/kotlin/com/rcs/trie/Trie.kt:192 | the result is the greatest depth among the children other than the excluded one, or 0 when there is none |
| Tapestrie.UpdateDepths | back/tapestrie/src/main/kotlin/com/rcs/trie/Trie.kt:190-196 | the climb from a node to the root changes only depths and leaves every node's depth consistent with its children |
| Tapestrie.Trie.constructor | back/tapestrie/src/main/kotlin/com/rcs/trie/Trie.kt:23-25 | a new trie is valid, empty, and has size 0 |
| Tapestrie.Trie.Clear | back/tapestrie/src/main/kotlin/com/rcs/trie/Trie.kt:27-30 | after clear the trie is valid and empty, with size 0 |
| Tapestrie.Trie.Depth | back/tapestrie/src/main/kotlin/com/rcs/trie/Trie.kt:32-34 | the root depth bounds the length of every term and is the length of some term, or 0 for an empty trie |
| Tapestrie.Trie.IsEmpty | back/tapestrie/src/main/kotlin/com/rcs/trie/Trie.kt:36-38 | the root having no children means exactly that there are no terms |
| Tapestrie.Trie.Iterator | back/tapestrie/src/main/kotlin/com/rcs/trie/Trie.kt:40-42 | a fresh iterator over the current table that will yield exactly the terms, each with its value |
| Tapestrie.Trie.Put | back/tapestrie/src/main/kotlin/com/rcs/trie/Trie.kt:47-98 | an empty input is IllegalArgument and changes nothing; otherwise the term maps to the new value, the old value (or none) is returned, and the size grows only for a new term |
| Tapestrie.PutInto | back/tapestrie/src/main/kotlin/com/rcs/trie/Trie.kt:47-98 | put on the trie's state: the invariant holds afterwards, with the same error case, contents and size as `Trie.Put` |
| Tapestrie.PutTerm | back/tapestrie/src/main/kotlin/com/rcs/trie/Trie.kt:52-97 | the walk-and-create loop of put for a non-empty input: contents updated with the new value, the previous value returned, size counted |
| Tapestrie.Trie.Remove | back/tapestrie/src/main/kotlin/com/rcs/trie/Trie.kt:103-139 | the old value (or none) is returned; an absent term changes nothing; otherwise the size drops by one and the term goes, together with every term that extends it |
| Tapestrie.RemoveFrom | back/tapestrie/src/main/kotlin/com/rcs/trie/Trie.kt:103-139 | remove on the trie's state: the invariant holds and the size still bounds the number of terms, with the same result and contents as `Trie.Remove` |
| Tapestrie.Pruned | back/tapestrie/src/main/kotlin/com/rcs/trie/Trie.kt:115-132 | dropping a present term and its extensions leaves strictly fewer terms |
| Tapestrie.ClimbToUsed | back/tapestrie/src/main/kotlin/com/rcs/trie/Trie.kt:118-123 | the climb stops at the deepest proper prefix of the input whose node is used for other strings; every node strictly between is bare |
| Tapestrie.ExtendsInput | back/tapestrie/src/main/kotlin/com/rcs/trie/Trie.kt:118-127 | a complete term that passes through the unlinked child extends the removed input, so only extensions are lost |
| Tapestrie.Trie.GetExactly | back/tapestrie/src/main/kotlin/com/rcs/trie/Trie.kt:141-143 | the value stored under the term, or none when the term is absent |
| Tapestrie.Trie.ContainsExactly | back/tapestrie/src/main/kotlin/com/rcs/trie/Trie.kt:145-147 | true exactly for stored terms |
| Tapestrie.Trie.MatchByPrefix | back/tapestrie/src/main/kotlin/com/rcs/trie/Trie.kt:149-153 | exactly the terms that strictly extend the prefix, each with its value |
| Tapestrie.GatherAll | back/tapestrie/src/main/kotlin/com/rcs/trie/Trie.kt:179-188 | the terms below the start node's children, with their values |
| Tapestrie.Drain | back/tapestrie/src/main/kotlin/com/rcs/trie/Trie.kt:182-186 | draining one child's iterator adds exactly the terms below that child |
| Tapestrie.Trie.PrefixMatchUpTo | back/tapestrie/src/main/kotlin/com/rcs/trie/Trie.kt:167-177 | a node is found exactly when the string is a path, and it is that path's node |
| Tapestrie.FindNode | back/tapestrie/src/main/kotlin/com/rcs/trie/Trie.kt:167-177 | the walk of `prefixMatchUpTo` over a table: found exactly for paths, and the node is the path's node |
| Tapestrie.Trie.MatchBySubstring | back/tapestrie/src/main/kotlin/com/rcs/trie/Trie.kt:155-157 | an empty search is IllegalArgument; otherwise the results are those of the LIBERAL fuzzy search with tolerance 0: sorted best match first, one per term, the best result per term over that search's space, each a stored term with its value, zero errors and at least as many matches as the search has characters |
| Tapestrie.Trie.MatchBySubstringFuzzy | back/tapestrie/src/main/kotlin/com/rcs/trie/Trie.kt:159-165 | IllegalArgument exactly for an empty search or a tolerance outside 0..length; otherwise sorted best first, one result per string, the best of everything the search reaches, each a stored term within the tolerance |
| TrieIterators.TrieIterator.constructor | back/trie/src/main/kotlin/com/rcs/trie/TrieIterator.kt:8-11 | a new iterator is valid over the given subtree and has yielded nothing |
| TrieIterators.TrieIterator.HasNext | back/trie/src/main/kotlin/com/rcs/trie/TrieIterator.kt:13-15 | true exactly when some term of the subtree has not yet been yielded |
| TrieIterators.TrieIterator.Next | back/trie/src/main/kotlin/com/rcs/trie/TrieIterator.kt:17-21 | when exhausted, a null-pointer error and nothing yielded; otherwise a term not yielded before, no shorter than any earlier one, with its key and value |
| TrieIterators.NextFrom | back/trie/src/main/kotlin/com/rcs/trie/TrieIterator.kt:17-21 | next on the iterator's state: the invariant is kept, with the same error case and hand-out as `TrieIterator.Next` |
| TrieIterators.SetNext | back/trie/src/main/kotlin/com/rcs/trie/TrieIterator.kt:23-36 | the breadth-first advance leaves a state where the prepared entry is the shortest unyielded term, or none when every term was yielded |
| TrieIterators.Exhausted | back/trie/src/main/kotlin/com/rcs/trie/TrieIterator.kt:13-15 | under the iterator invariant, an entry is prepared exactly when an unyielded term remains |
| TrieIterators.KeyInjective | back/trie/src/main/kotlin/com/rcs/trie/TrieIterator.kt:23-36 | the key built from the start node's string and the child strings determines the term, and has the expected length |
| FuzzySearch.LastSeparator | back/tapestrie/src/main/kotlin/com/rcs/trie/FuzzySearchState.kt:445-449 | the last separator at or before a position, or none when there is none |
| FuzzySearch.FirstSeparator | back/tapestrie/src/main/kotlin/com/rcs/trie/FuzzySearchState.kt:451-455 | the first separator at or after a position, or none when there is none |
| FuzzySearch.Cased | back/tapestrie/src/main/kotlin/com/rcs/trie/FuzzySearchState.kt:464-470 | casing for matching keeps the length of the string |
| FuzzySearch.ErrorsIncludingMissing | back/tapestrie/src/main/kotlin/com/rcs/trie/FuzzySearchState.kt:413-420 | the error count including the keyword characters not yet reached is never below the errors so far |
| FuzzySearch.BuildSearchResult | back/tapestrie/src/main/kotlin/com/rcs/trie/FuzzySearchState.kt:76-127 | a result is built exactly when the state has one, and otherwise an IllegalState error; it carries the state's string and node value, its matches, and errors plus unmatched characters plus predetermined errors; a whole-string or whole-word match has no errors |
| FuzzySearch.MatchedSubstringShape | back/tapestrie/src/main/kotlin/com/rcs/trie/FuzzySearchState.kt:102-111 | the matched substring starts at the first matched character and covers the match up to its end |
| FuzzySearch.WholeWordShape | back/tapestrie/src/main/kotlin/com/rcs/trie/FuzzySearchState.kt:91-92 | for a match starting on a word character, a whole-word match has no errors and its matched substring is its matched word; outside the ACRONYM strategy, no errors and that equality also make it a whole-word match |
| FuzzySearch.WholeWordAtSeparator | back/tapestrie/src/main/kotlin/com/rcs/trie/FuzzySearchState.kt:91-92 | keyword " ab" over the term " ab" gives a whole-word match whose matched substring " ab" differs from its matched word "ab" |
| FuzzySearch.WholeStringShape | back/tapestrie/src/main/kotlin/com/rcs/trie/FuzzySearchState.kt:88-89 | a whole-string match has no errors and its matched substring is the whole string; outside the ACRONYM strategy, no errors and that equality also make it a whole-string match |
| FuzzySearch.MatchedWordShape | back/tapestrie/src/main/kotlin/com/rcs/trie/FuzzySearchState.kt:94-114 | the matched word starts the prefix distance before the match, with no separator in between |
| FuzzySearch.NextNodeMatches | back/tapestrie/src/main/kotlin/com/rcs/trie/FuzzySearchState.kt:212-233 | a match needs an unconsumed keyword character; under WILDCARD a `*` matches any node |
| FuzzySearch.NextNodeMatchesAsWritten | back/tapestrie/src/main/kotlin/com/rcs/trie/FuzzySearchState.kt:212-233 | the code as written fails exactly under WILDCARD once the keyword is consumed; otherwise it agrees with `NextNodeMatches` |
| FuzzySearch.FirstSwap | back/tapestrie/src/main/kotlin/com/rcs/trie/FuzzySearchState.kt:457-462 | the first pending swap whose cased characters match, or none when no swap matches |
| FuzzySearch.GetMatching | back/tapestrie/src/main/kotlin/com/rcs/trie/FuzzySearchState.kt:457-462 | a pending swap is returned only when the keyword has a current character and the swap pairs it with the node's string; none means no pending swap matches |
| FuzzySearch.GetMatchingAsWritten | back/tapestrie/src/main/kotlin/com/rcs/trie/FuzzySearchState.kt:457-462 | the code as written fails exactly when the keyword is consumed and some pending swap matches the node's string; otherwise it agrees with `GetMatching` |
| FuzzySearch.NextStatesFor | back/tapestrie/src/main/kotlin/com/rcs/trie/FuzzySearchState.kt:142-152 | a child is culled exactly when `shouldCull` holds; otherwise it yields at least one successor state |
| FuzzySearch.Children | back/tapestrie/src/main/kotlin/com/rcs/trie/FuzzySearchState.kt:64-70 | the children visited are children of the node |
| FuzzySearch.StepBelow | back/tapestrie/src/main/kotlin/com/rcs/trie/FuzzySearchState.kt:142-152 | every successor state sits on the child's path and strictly below its parent state |
| FuzzySearch.StepShapes | back/tapestrie/src/main/kotlin/com/rcs/trie/FuzzySearchState.kt:162-407 | every successor is one of continue, match, error, reset or gather, moved onto the child |
| FuzzySearch.StepProgress | back/tapestrie/src/main/kotlin/com/rcs/trie/FuzzySearchState.kt:162-407 | unless it resets, a successor keeps or grows matches and errors and keeps the match start |
| FuzzySearch.GatherKeepsMatch | back/tapestrie/src/main/kotlin/com/rcs/trie/FuzzySearchState.kt:384-407 | a gather state moves onto the child with its coordinates unchanged |
| FuzzySearch.MatchStep | back/tapestrie/src/main/kotlin/com/rcs/trie/FuzzySearchState.kt:182-210 | a matching child gives one successor that consumes one keyword character, adds one match and ends the match at the child |
| FuzzySearch.ErrorStep | back/tapestrie/src/main/kotlin/com/rcs/trie/FuzzySearchState.kt:235-352 | an error step gives one successor for a swap strategy or a pending swap, else three, each adding exactly one error |
| FuzzySearch.SuccessorsBelow | back/tapestrie/src/main/kotlin/com/rcs/trie/FuzzySearchState.kt:64-70 | all successors over all children lie on paths of the trie, strictly below the state |
| FuzzySearch.GetInitialStates | back/tapestrie/src/main/kotlin/com/rcs/trie/FuzzySearchState.kt:474-505 | IllegalArgument for a non-root node; IndexOutOfBounds for LIBERAL with a tolerance longer than the keyword; otherwise the root state, plus, for LIBERAL, one state per skipped prefix with that many predetermined errors |
| FuzzySearcher.PutOnlyNewOrBetter | back/tapestrie/src/main/kotlin/com/rcs/trie/FuzzySearcher.kt:65-79 | the string's entry becomes the new result when it is new or strictly better, and stays otherwise; the entry is never worse than either; other strings are untouched |
| FuzzySearcher.PutKeepsBest | back/tapestrie/src/main/kotlin/com/rcs/trie/FuzzySearcher.kt:65-79 | if the map held the best result per string of a set, it holds the best of that set plus the new result |
| FuzzySearcher.StoreStep | back/tapestrie/src/main/kotlin/com/rcs/trie/FuzzySearcher.kt:56-59 | storing a state's result (when it has one) extends the best-of invariant to that state |
| FuzzySearcher.JobStep | back/tapestrie/src/main/kotlin/com/rcs/trie/FuzzySearcher.kt:53-62 | one iteration of the job keeps the job invariant and shrinks the set of pending states |
| FuzzySearcher.SearchJob | back/tapestrie/src/main/kotlin/com/rcs/trie/FuzzySearcher.kt:46-63 | after the job the map holds the best result per string over everything explored from the initial state |
| FuzzySearcher.TopLevelStates | back/tapestrie/src/main/kotlin/com/rcs/trie/FuzzySearcher.kt:28-30 | the top-level states are the successors of every initial state, in order |
| FuzzySearcher.InitialStatesOk | back/tapestrie/src/main/kotlin/com/rcs/trie/FuzzySearcher.kt:18-23 | once the arguments pass the check, the initial states exist, lie in the trie and carry the search's request |
| FuzzySearcher.TopLevelOk | back/tapestrie/src/main/kotlin/com/rcs/trie/FuzzySearcher.kt:28-30 | the top-level states lie in the trie and keep the search's request |
| FuzzySearcher.RunJobs | back/tapestrie/src/main/kotlin/com/rcs/trie/FuzzySearcher.kt:32-38 | after all jobs the map holds the best result per string over everything explored from all top-level states |
| FuzzySearcher.SortByBestMatch | back/tapestrie/src/main/kotlin/com/rcs/trie/FuzzySearcher.kt:43 | the sorted list is ordered best first, has one result per string, and holds exactly the map's results |
| FuzzySearcher.ResultsPreordered | back/tapestrie/src/main/kotlin/com/rcs/trie/TrieSearchResultComparator.kt:28-35 | the best-match comparator is a total preorder, so sorting by it is well defined |
| FuzzySearcher.SearchSpaceResults | back/tapestrie/src/main/kotlin/com/rcs/trie/FuzzySearchState.kt:72-127 | every result the search can find is a stored term with its value, errors within the tolerance, and at least length minus tolerance matches |
| FuzzySearcher.SearchSpaceBounds | back/tapestrie/src/main/kotlin/com/rcs/trie/FuzzySearcher.kt:11-44 | the same bounds for every result found anywhere in the search space |
| FuzzySearcher.ReportedFound | back/tapestrie/src/main/kotlin/com/rcs/trie/FuzzySearcher.kt:43 | every result reported was found by some job |
| FuzzySearcher.Search | back/tapestrie/src/main/kotlin/com/rcs/trie/FuzzySearcher.kt:11-44 | IllegalArgument exactly for an empty search or a tolerance outside 0..length; otherwise the results are sorted best first, one per string, and are the best found over the whole search space |
| TrieSearchResults.BestMatchIsLexicographic | back/tapestrie/src/main/kotlin/com/rcs/trie/TrieSearchResultComparator.kt:28-35 | the chained comparator equals a lexicographic comparison of seven keys |
| TrieSearchResults.FirstDifference | back/tapestrie/src/main/kotlin/com/rcs/trie/TrieSearchResultComparator.kt:28-35 | the lexicographic comparison is decided by the first key that differs |
| TrieSearchResults.CompareRange | back/tapestrie/src/main/kotlin/com/rcs/trie/TrieSearchResultComparator.kt:7-35 | the comparator answers -1, 0 or 1, and 0 exactly when all keys agree |
| TrieSearchResults.CompareAntisymmetric | back/tapestrie/src/main/kotlin/com/rcs/trie/TrieSearchResultComparator.kt:7-35 | swapping the arguments negates the answer |
| TrieSearchResults.CompareTransitive | back/tapestrie/src/main/kotlin/com/rcs/trie/TrieSearchResultComparator.kt:7-35 | "no worse than" is transitive, and strict when either step is strict |
| TrieSearchResults.CompareTotal | back/tapestrie/src/main/kotlin/com/rcs/trie/TrieSearchResultComparator.kt:7-35 | any two results are comparable |
| TrieSearchResults.ComparePrecedence | back/tapestrie/src/main/kotlin/com/rcs/trie/TrieSearchResultComparator.kt:28-35 | the ranking order: smaller prefix distance, then more matches, then shorter matched word, then whole word, then shorter string, then fewer errors |
| TrieSearchResults.CompareIgnores | back/tapestrie/src/main/kotlin/com/rcs/trie/TrieSearchResultComparator.kt:28-35 | the whole-string flag, the matched substring and the value never affect the ranking |
| TrieSearchResults.ManualScenarioRanked | back/tapestrie/src/test/kotlin/com/rcs/trie/TrieFuzzySearchTest.kt:305-334 | the nine expected results of the "manual" scenario are strictly ranked in the listed order |
| Sorting.Insert | back/tapestrie/src/main/kotlin/com/rcs/trie/FuzzySearcher.kt:43 | inserting into a sorted list keeps it sorted and adds exactly one element |
| LegacyTries.FindAnyChild | back/stock-service/src/main/java/rcs/stock/utils/Trie.java:52-56 | a child found carries the character; none is found only when no child carries it |
| LegacyTries.PrefixMatchUpTo | back/stock-service/src/main/java/rcs/stock/utils/Trie.java:173-196 | a node is found exactly when the string is a path, and it is that path's node |
| LegacyTries.PrefixClosed | back/stock-service/src/main/java/rcs/stock/utils/Trie.java:46-79 | every prefix of a path is a path |
| LegacyTries.ChildrenUniqueByString | back/stock-service/src/main/java/rcs/stock/utils/Trie.java:52-56 | two children with the same string are the same node, so `findAny` has one candidate |
| LegacyTries.RootOnly | back/stock-service/src/main/java/rcs/stock/utils/Trie.java:39-41 | the lone root is a valid trie with no terms |
| LegacyTries.PutInto | back/stock-service/src/main/java/rcs/stock/utils/Trie.java:43-81 | put keeps the invariant, and the contents become those of `PutContents`: unchanged for an empty input or a present term, extended with the new term otherwise |
| LegacyTries.PutStep | back/stock-service/src/main/java/rcs/stock/utils/Trie.java:47-79 | one iteration of put reaches the node of the next prefix, and completes the term at the last character |
| LegacyTries.PutLink | back/stock-service/src/main/java/rcs/stock/utils/Trie.java:60-63 | a missing child is created, carrying the value only at the end of the input |
| LegacyTries.PutSwap | back/stock-service/src/main/java/rcs/stock/utils/Trie.java:69-72 | an existing incomplete last node is replaced by a completed copy sharing its children, so no term below is lost |
| LegacyTries.RemoveFrom | back/stock-service/src/main/java/rcs/stock/utils/Trie.java:83-123 | remove keeps the invariant; an absent term changes nothing; otherwise the term and every term that extends it go and every other term keeps its value |
| LegacyTries.WalkPath | back/stock-service/src/main/java/rcs/stock/utils/Trie.java:84-108 | the deque holds the node of every prefix of the input exactly when the input is a path; otherwise the walk gives up |
| LegacyTries.ClimbToUsed | back/stock-service/src/main/java/rcs/stock/utils/Trie.java:114-118 | the climb stops at the deepest proper prefix used for other strings; the nodes strictly between are bare |
| LegacyTries.CollectTerms | back/stock-service/src/main/java/rcs/stock/utils/Trie.java:308-315 | the accumulation gains exactly the terms at or below the node, with their values |
| LegacyTries.TermsFromStored | back/stock-service/src/main/java/rcs/stock/utils/Trie.java:125-133 | the terms collected from a path are exactly the stored terms it prefixes; a missing path prefixes none |
| LegacySearch.ScanOf | back/stock-service/src/main/java/rcs/stock/utils/Trie.java:198-243 | the counting automaton along a path either still seeks, with fewer than `minLength` characters matched, or has started a match that fits in the path |
| LegacySearch.RunLength | back/stock-service/src/main/java/rcs/stock/utils/Trie.java:283-305 | the match is extended as far as the search and the path agree, and stops at the first disagreement |
| LegacySearch.ResultFor | back/stock-service/src/main/java/rcs/stock/utils/Trie.java:255-273 | a record carries the term and its value, with a match length between `minLength` and the search length |
| LegacySearch.ResultSound | back/stock-service/src/main/java/rcs/stock/utils/Trie.java:198-306 | a recorded match is a real occurrence of the search prefix in the term, maximal, and whole-word exactly when bounded by non-word characters or the term's ends |
| LegacySearch.ResultRun | back/stock-service/src/main/java/rcs/stock/utils/Trie.java:245-306 | the recorded length is the longest common run of search and term from the match start |
| LegacySearch.ResultWord | back/stock-service/src/main/java/rcs/stock/utils/Trie.java:259-262 | the whole-word flag holds exactly when both sides of the match are a term end or a non-word character |
| LegacySearch.PrefixStarts | back/stock-service/src/main/java/rcs/stock/utils/Trie.java:198-243 | a term that begins with the first `minLength` search characters is matched at position 0 |
| LegacySearch.MissedAfterReset | back/stock-service/src/main/java/rcs/stock/utils/Trie.java:229-237 | after a mismatch the count restarts without retrying overlaps, so "aab" is not found in "aaab" |
| LegacySearch.ExactSubstringAtEnd | back/stock-service/src/test/java/rcs/stock/utils/TrieTest.java:100-125 | "def" in "abcdef" starts at 3 and gives a 3-character, not-whole-word record |
| LegacySearch.ExactSubstringAtStart | back/stock-service/src/test/java/rcs/stock/utils/TrieTest.java:100-125 | "def" in "defghi" starts at 0 and gives a 3-character record |
| LegacySearch.ExactSubstringMissing | back/stock-service/src/test/java/rcs/stock/utils/TrieTest.java:100-125 | "def" is not found in "deghij" |
| LegacySearch.ExactSubstringWholeWord | back/stock-service/src/test/java/rcs/stock/utils/TrieTest.java:100-134 | "jklmno" matches the whole of "jklmno" as a whole word |
| LegacySearch.StartingAt | back/stock-service/src/main/java/rcs/stock/utils/Trie.java:245-306 | continuing a started match records exactly the hits among the terms below the node |
| LegacySearch.RecordIfComplete | back/stock-service/src/main/java/rcs/stock/utils/Trie.java:255-273 | a complete node on a started path is recorded once; nothing else is |
| LegacySearch.StartingAtChild | back/stock-service/src/main/java/rcs/stock/utils/Trie.java:283-305 | each child visit adds exactly the hits through that child |
| LegacySearch.BySubstring | back/stock-service/src/main/java/rcs/stock/utils/Trie.java:198-243 | the counting traversal records exactly the hits among the terms below the node |
| LegacySearch.BySubstringChild | back/stock-service/src/main/java/rcs/stock/utils/Trie.java:229-242 | each child visit of the counting phase adds exactly the hits through that child |
| LegacySearch.FindBySubstring | back/stock-service/src/main/java/rcs/stock/utils/Trie.java:143-154 | the records are correct, one per term, and name exactly the terms the automaton accepts |
| LegacySearch.BestMatchFirstOrder | back/stock-service/src/main/java/rcs/stock/utils/Trie.java:12-21 | a record goes first when its match is longer, or equally long and whole-word when the other is not; the comparator is antisymmetric |
| LegacySearch.BestMatchFirstTotal | back/stock-service/src/main/java/rcs/stock/utils/Trie.java:12-21 | the best-match comparator is a total preorder |
| LegacySearch.SortByBestMatch | back/stock-service/src/main/java/rcs/stock/utils/Trie.java:156-159 | the sorted records are ordered best first and are a permutation of the matches |
| StockTrie.FoundStored | back/stock-service/src/main/java/rcs/stock/utils/Trie.java:138-160 | the records name exactly the stored terms accepted by the automaton, each with its stored value |
| StockTrie.PutStores | back/stock-service/src/main/java/rcs/stock/utils/Trie.java:43-81 | after put a non-empty input is present; old values are kept; a new term gets the value; no other term appears |
| StockTrie.RemoveDrops | back/stock-service/src/main/java/rcs/stock/utils/Trie.java:83-123 | a term survives remove exactly when it was stored and does not extend a present input; survivors keep their values |
| StockTrie.AddShorterAfter | back/stock-service/src/test/java/rcs/stock/utils/TrieTest.java:35-49 | putting "123456", "12345", "1234" in turn stores all three |
| StockTrie.RemoveOneOfTwo | back/stock-service/src/test/java/rcs/stock/utils/TrieTest.java:51-65 | removing "Hello, Nomads!" leaves only "Hello, World!" |
| StockTrie.Trie.constructor | back/stock-service/src/main/java/rcs/stock/utils/Trie.java:39-41 | a new trie is valid and empty |
| StockTrie.Trie.Put | back/stock-service/src/main/java/rcs/stock/utils/Trie.java:43-81 | the contents become `PutContents`: first value wins, and an empty input changes nothing |
| StockTrie.Trie.Remove | back/stock-service/src/main/java/rcs/stock/utils/Trie.java:83-123 | the contents lose the term and its extensions when the term is present, and are unchanged otherwise |
| StockTrie.Trie.GetExactly | back/stock-service/src/main/java/rcs/stock/utils/Trie.java:163-167 | the stored value, or empty exactly when the term is absent |
| StockTrie.Trie.ContainsExactly | back/stock-service/src/main/java/rcs/stock/utils/Trie.java:169-171 | true exactly for stored terms |
| StockTrie.Trie.MatchByPrefix | back/stock-service/src/main/java/rcs/stock/utils/Trie.java:125-133 | exactly the stored terms the prefix begins, the prefix's own term included, with their values |
| StockTrie.Trie.MatchBySubstring | back/stock-service/src/main/java/rcs/stock/utils/Trie.java:138-160 | IllegalArgument exactly for an empty search or a `minLength` outside 1..length; otherwise the records are sorted best first, one per term, correct, and name exactly the accepted stored terms |
| StockTrie.Trie.MatchByExactSubstring | back/stock-service/src/main/java/rcs/stock/utils/Trie.java:135-137 | the same with `minLength` equal to the search length, sorted best match first: every record matches the whole search, and every term that begins with the search is reported |
| SearchableMaps.FirstEmpty | back/stock-service/src/main/java/rcs/stock/utils/SearchableMap.java:52-58 | the position of the first empty term, where the trie throws, or the length when there is none |
| SearchableMaps.StopsAtFirstEmpty | back/stock-service/src/main/java/rcs/stock/utils/SearchableMap.java:52-58 | the terms before that position are indexed and the one at it is the empty one |
| SearchableMaps.IndexedMerges | back/stock-service/src/main/java/rcs/stock/utils/SearchableMap.java:51-59 | after indexing, every term holds the key, keys already there stay, and nothing but the key is added |
| SearchableMaps.UnindexedDrops | back/stock-service/src/main/java/rcs/stock/utils/SearchableMap.java:45-49 | after removal no term of the old value remains; survivors keep their key sets; a term that extends none of them survives |
| SearchableMaps.FirstValueReplaced | back/stock-service/src/test/java/rcs/stock/utils/SearchableMapTest.java:30-31 | indexing "abc" and "ghi" under key 1 and then removing them empties the index |
| SearchableMaps.SecondAndThirdValues | back/stock-service/src/test/java/rcs/stock/utils/SearchableMapTest.java:31-32 | the second and third puts index "abc" under keys 1 and 2, "mno" under 1 and "abz" under 2 |
| SearchableMaps.RepeatedPuts | back/stock-service/src/test/java/rcs/stock/utils/SearchableMapTest.java:30-32 | the three puts of the test give exactly that index |
| SearchableMaps.TwoKeys | back/stock-service/src/main/java/rcs/stock/utils/SearchableMap.java:51-59 | indexing two single-term values merges the second key into the first index |
| SearchableMaps.XyzAlone | back/stock-service/src/main/java/rcs/stock/utils/SearchableMap.java:51-59 | indexing "xyz" under key 1 in an empty index gives just that entry |
| SearchableMaps.LostAbc | back/stock-service/src/main/java/rcs/stock/utils/SearchableMap.java:25-29 | an index holding only "xyz" does not cover an entry whose value has "abc" |
| SearchableMaps.SharedTerm | back/stock-service/src/main/java/rcs/stock/utils/SearchableMap.java:45-59 | two keys share "abc", and removing "abc" for one of them drops it for both |
| SearchableMaps.ExtendedTerm | back/stock-service/src/main/java/rcs/stock/utils/SearchableMap.java:45-59 | removing "ab" for one key also drops "abc" of another key |
| SearchableMaps.RemoveIndexDropsOtherKeys | back/stock-service/src/main/java/rcs/stock/utils/SearchableMap.java:25-29 | re-putting key 1 when key 2 shares its term leaves key 2's value no longer findable |
| SearchableMaps.RemoveIndexDropsExtensions | back/stock-service/src/main/java/rcs/stock/utils/SearchableMap.java:25-29 | re-putting key 1 with term "ab" leaves key 2's term "abc" no longer indexed |
| SearchableMaps.UnindexKeyKeeps | back/stock-service/src/main/java/rcs/stock/utils/SearchableMap.java:45-49 | removing only the key from its terms' key sets keeps every term and every other key |
| SearchableMaps.ReindexKeepsCovered | back/stock-service/src/main/java/rcs/stock/utils/SearchableMap.java:25-29 | with key-only removal, put keeps every term of every entry indexed under its key |
| SearchableMaps.Union | back/stock-service/src/main/java/rcs/stock/utils/SearchableMap.java:38-39 | the union holds every key of every set and nothing else |
| SearchableMaps.FirstSet | back/stock-service/src/main/java/rcs/stock/utils/SearchableMap.java:39-40 | the first set that holds the key |
| SearchableMaps.KeySets | back/stock-service/src/main/java/rcs/stock/utils/SearchableMap.java:38 | the key sets of the results, in result order |
| SearchableMaps.FlattenDistinct | back/stock-service/src/main/java/rcs/stock/utils/SearchableMap.java:39-40 | flattening with `distinct` lists every key of every set exactly once, keys of earlier sets before keys of later ones |
| SearchableMaps.ValuesOf | back/stock-service/src/main/java/rcs/stock/utils/SearchableMap.java:41 | each listed key is mapped to its value, in order |
| SearchableMaps.FoundKeysKnown | back/stock-service/src/main/java/rcs/stock/utils/SearchableMap.java:41 | every key found in the index has an entry, so `map::get` never gives null |
| SearchableMaps.SearchableMap.constructor | back/stock-service/src/main/java/rcs/stock/utils/SearchableMap.java:21-23 | no entries, an empty trie, and the given extractor |
| SearchableMaps.SearchableMap.Put | back/stock-service/src/main/java/rcs/stock/utils/SearchableMap.java:25-29 | the entry is set; the old value's terms are removed outright; the new terms are indexed up to the first empty one, which is IllegalArgument |
| SearchableMaps.SearchableMap.Get | back/stock-service/src/main/java/rcs/stock/utils/SearchableMap.java:31-33 | the value stored under the key, or none exactly when the key is absent |
| SearchableMaps.SearchableMap.RemoveIndex | back/stock-service/src/main/java/rcs/stock/utils/SearchableMap.java:45-49 | nothing for an absent value; otherwise every term of the value is removed from the trie |
| SearchableMaps.SearchableMap.AddIndex | back/stock-service/src/main/java/rcs/stock/utils/SearchableMap.java:51-59 | the key is merged into every term up to the first empty one, which is IllegalArgument |
| SearchableMaps.SearchableMap.IndexTerm | back/stock-service/src/main/java/rcs/stock/utils/SearchableMap.java:53-57 | an empty term is IllegalArgument and changes nothing; otherwise the key joins the term's key set, which starts empty when the term is new |
| SearchableMaps.SearchableMap.SearchBySubstringFuzzy | back/stock-service/src/main/java/rcs/stock/utils/SearchableMap.java:35-43 | IllegalArgument exactly for an empty search or a tolerance outside 0..length; otherwise the values of the keys found by the LIBERAL fuzzy search (the best result per term over its search space, one per term, sorted best first), each key once, in the order of those results |
| SessionRegistry.HoldersGrow | back/stock-service/src/main/java/rcs/stock/websockets/WebSocketSessionRegistry.java:19-21 | counting one more session adds one holder exactly when it follows the stock |
| SessionRegistry.WebSocketSessionRegistry.constructor | back/stock-service/src/main/java/rcs/stock/websockets/WebSocketSessionRegistry.java:9 | the registry starts empty |
| SessionRegistry.WebSocketSessionRegistry.Put | back/stock-service/src/main/java/rcs/stock/websockets/WebSocketSessionRegistry.java:11-13 | the session now follows the stock; other sessions are unchanged |
| SessionRegistry.WebSocketSessionRegistry.Remove | back/stock-service/src/main/java/rcs/stock/websockets/WebSocketSessionRegistry.java:15-17 | the session is gone; other sessions are unchanged |
| SessionRegistry.WebSocketSessionRegistry.GetStocksWithSubscribers | back/stock-service/src/main/java/rcs/stock/websockets/WebSocketSessionRegistry.java:19-21 | one stock per session, and each stock appears as many times as sessions follow it |
| SessionRegistry.PutPutRemove | back/stock-service/src/test/java/rcs/stock/websockets/WebSocketSessionRegistryTest.java:15-37 | two sessions give "abc" and "def"; removing "123" leaves only "def" |
| FuzzyFindings.WildcardOverrun | back/tapestrie/src/main/kotlin/com/rcs/trie/FuzzySearchState.kt:212-233 | WILDCARD "a" over "ab": after matching "a", the code as written reads past the keyword, while the corrected transition gathers "ab" with no errors |
| FuzzyFindings.SwapOverrun | back/tapestrie/src/main/kotlin/com/rcs/trie/FuzzySearchState.kt:457-462 | ADJACENT_SWAP "ab" with tolerance 1 over "bba": the code as written reads past the keyword in `getMatching`, while the corrected transition resets |

## Left out

- Concurrency is left out: the `synchronized` blocks, the depth-update lock, the coroutines of `FuzzySearcher.search`, and the concurrent map writes they guard. Every operation is modelled as running alone, and the jobs run one after another.
- `System.gc()` in `FuzzySearcher.search` is left out; it has no observable effect on the result.
- Children are sets in the model, visited in ascending node id. For the Kotlin tries that is exactly the order of the code: `mutableSetOf` iterates in insertion order, node ids are handed out in creation order, and a node joins its parent's set when it is created. The Java `HashSet` and `HashMap` orders are arbitrary, and ascending id is only one of them. Results from the Java structures are specified up to that order, except where a sort fixes it.
- Characters are UTF-16 code units in the source: `charAt`, `length()` and Kotlin's `s[i]` count them, so a supplementary character becomes two trie nodes, each holding a lone surrogate. A Dafny `char` stands for one code unit of the Basic Multilingual Plane. Surrogate pairs are not modelled, and neither are the lengths, depths and match counts they would give.
- Live views are modelled as snapshots. The Kotlin iterator (`Trie.iterator`) walks live node references, while `TrieIterators` walks a copy of the node table taken when the iterator is made, so changes to the trie during iteration are not modelled. `getStocksWithSubscribers` returns the live `values()` view of the session map, while the model returns a sequence of the values at the time of the call.
- The separator class `[\s\p{P}]` of the fuzzy search and Kotlin's `lowercase()` are modelled on ASCII: whitespace and ASCII punctuation, and ASCII upper-to-lower. Unicode categories and case mappings are not modelled.
- The Java whole-word separator `[^a-zA-Z\d:]` is modelled exactly, on ASCII letters and digits.
- Heap nodes are node tables. Aliasing between nodes is not modelled; each node is reachable from exactly one parent.
- The Java completion branch's new node shares the old node's child set. In the table both refer to the same set of child ids, and the old node is dropped.
- `SearchableMaps.SearchableMap.Put`: the trie's key sets are values in the model. The code mutates the set it got from `getExactly` before putting it back, which has the same result here because the trie holds that set alone.
- The search-term extractor of `SearchableMap` is a function parameter. The Finnhub-backed extractor of the stock service is not part of this model.
- `Tapestrie.Trie.Remove`: proves `size >= |Contents|`, not `size == |Contents|`. The code decrements the size by one even when extensions are dropped with the term, so equality does not hold.
- The vetoable size setter of `Trie.kt` never fires. Its `IllegalStateException` path is not modelled because the size never goes below 0.
- `TrieNode.isRoot` and `TrieNode.completes` are predicates of the node datatype without contracts of their own. `TrieNodes.IsRootOnlyAtRoot` states what `isRoot` means in a well-formed trie, and `completes` is the `value.Some?` test used by `Represents`.
- `LegacySearch.ScanOf`: the Java substring search is incomplete by design. After a mismatch it restarts counting without retrying overlapping starts (`LegacySearch.MissedAfterReset`). Its soundness and exact result set are proved against this automaton, not against "every substring occurrence".
- The fuzzy search's out-of-range keyword reads (see Findings) are modelled corrected everywhere; the as-written members exist only to exhibit the failure.
- Integer widths are unbounded. String lengths, sizes and depths in the source are 32-bit, but no operation here gets near the bound.

## Findings

| source | as written | input that shows it | evidently intended | confidence | as-written member | corrected member |
|---|---|---|---|---|---|---|
| back/tapestrie/src/main/kotlin/com/rcs/trie/FuzzySearchState.kt:212-233 | under WILDCARD, `nextNodeMatches` reads the current keyword character before checking that one remains, so a state that has consumed the whole keyword throws when it meets a child | WILDCARD search "a" over a trie holding "ab": after "a" matches, the child "b" is tested at keyword index 1 | a consumed keyword matches nothing, and the search goes on gathering "ab" as a zero-error result | not executed | FuzzyFindings.WildcardOverrun | FuzzySearch.NextNodeMatches |
| back/stock-service/src/main/java/rcs/stock/utils/SearchableMap.java:45-49 | `removeIndex` calls `trie.remove` on every term of the old value. That drops the term's whole key set, whatever other keys it holds, and the Kotlin remove drops every extension of the term too | key 1 with term "abc" and key 2 with term "abc"; putting key 1 again leaves key 2 unfindable. With key 1's term "ab" and key 2's term "abc", re-putting key 1 loses "abc" too (`SearchableMaps.RemoveIndexDropsExtensions`). `SearchableMaps.SearchableMap.Put` keeps the behaviour as written | only the key leaves each term's key set, and every term of every other entry stays indexed | not executed | SearchableMaps.RemoveIndexDropsOtherKeys | SearchableMaps.ReindexKeepsCovered |
| back/tapestrie/src/main/kotlin/com/rcs/trie/FuzzySearchState.kt:457-462 | `getMatching` compares a pending swap with the current keyword character even when the keyword is consumed, and throws | ADJACENT_SWAP search "ab" with tolerance 1 over a trie holding "bba": after the swap is opened, the third character meets a pending swap with no keyword left | a consumed keyword matches no pending swap, and the state resets | not executed | FuzzyFindings.SwapOverrun | FuzzySearch.GetMatching |
