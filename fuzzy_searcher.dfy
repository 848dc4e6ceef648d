/**
 * The fuzzy search driver (FuzzySearcher.kt): it derives the states below the root for every
 * initial state, runs one breadth-first job per such state, keeps the best result per string in a
 * shared map, and returns the map's values sorted best match first.
 *
 * What a job explores is pinned down by `Walk`: the states grown from its first state by
 * `NextStates`, listed depth first. A job's queue holds states in another order, but it processes
 * exactly the states of the walk, and that is all the results depend on. The jobs run one after the
 * other here; in the source they run concurrently and take a lock around each update of the map.
 */
module FuzzySearcher {
  import opened Wrappers
  import opened TrieNodes
  import opened TrieSearchResults
  import opened FuzzySearch
  import opened Walks
  import Sorting

  // ---------------------------------------------------------------------------------------------
  // The states a job explores

  /** The states the jobs started from the states of `q` explore. */
  ghost function Explored<V>(g: Graph<V>, paths: map<string, NodeId>, q: seq<FuzzyState>): set<FuzzyState>
    requires Tree(g, paths) && AllInTrie(paths, q)
  {
    Elems(WalkQ(g, paths, q))
  }

  /** The search results the states of `explored` describe. */
  ghost function Found<V>(g: Graph<V>, explored: set<FuzzyState>): set<TrieSearchResult<V>> {
    set x | x in explored && x.node in g && CoordinatesOk(x) && HasSearchResult(g, x)
      :: BuildSearchResult(g, x).value
  }

  lemma FoundUnion<V>(g: Graph<V>, a: set<FuzzyState>, b: set<FuzzyState>)
    ensures Found(g, a + b) == Found(g, a) + Found(g, b)
  {
  }

  // ---------------------------------------------------------------------------------------------
  // The shared map of results

  /**
   * `results` keeps, for each string, one best result found for it: every stored result is in
   * `found` under its own string, and no found result beats the one stored for its string.
   */
  ghost predicate BestOf<V>(results: map<string, TrieSearchResult<V>>, found: set<TrieSearchResult<V>>) {
    && (forall k | k in results :: results[k] in found && results[k].str == k)
    && (forall f | f in found :: f.str in results && CompareResults(results[f.str], f) <= 0)
  }

  /**
   * `putOnlyNewOrBetter`: store `m` under its string unless the result already there is at least
   * as good; the comparator answers -1 exactly when `m` is strictly better.
   */
  function PutOnlyNewOrBetter<V>(results: map<string, TrieSearchResult<V>>, m: TrieSearchResult<V>)
    : (r: map<string, TrieSearchResult<V>>)
    ensures r.Keys == results.Keys + {m.str}
    ensures forall k | k in results && k != m.str :: r[k] == results[k]
    ensures r[m.str] == m || (m.str in results && r[m.str] == results[m.str])
    ensures m.str !in results ==> r[m.str] == m
    ensures CompareResults(r[m.str], m) <= 0
    ensures m.str in results ==> CompareResults(r[m.str], results[m.str]) <= 0
  {
    var k := m.str;
    CompareRange(m, m);
    if k !in results then results[k := m]
    else
      var existing := results[k];
      CompareRange(m, existing);
      CompareRange(existing, existing);
      CompareAntisymmetric(m, existing);
      results[k := if CompareResults(m, existing) == -1 then m else existing]
  }

  /** Storing a found result keeps the map the best of everything found so far. */
  lemma PutKeepsBest<V>(results: map<string, TrieSearchResult<V>>, found: set<TrieSearchResult<V>>,
                        m: TrieSearchResult<V>)
    requires BestOf(results, found)
    ensures BestOf(PutOnlyNewOrBetter(results, m), found + {m})
  {
    var r := PutOnlyNewOrBetter(results, m);
    forall f | f in found + {m}
      ensures f.str in r && CompareResults(r[f.str], f) <= 0
    {
      if f != m && f.str == m.str {
        CompareTransitive(r[m.str], results[m.str], f);
      }
    }
  }

  // ---------------------------------------------------------------------------------------------
  // One job

  /** The states a queue has still to explore. */
  ghost function Pending<V>(g: Graph<V>, paths: map<string, NodeId>, q: seq<FuzzyState>): seq<FuzzyState>
    requires Tree(g, paths) && AllInTrie(paths, q)
  {
    WalkQ(g, paths, q)
  }

  /**
   * The invariant of a job from `initial`: the states `seen` so far and those the queue has still
   * to explore make up what the walk from `initial` explores, and `results` is the best of what
   * the states seen describe, on top of the results `found` before the job.
   */
  ghost predicate JobInv<V>(g: Graph<V>, paths: map<string, NodeId>, initial: FuzzyState, queue: seq<FuzzyState>,
                            seen: set<FuzzyState>, results: map<string, TrieSearchResult<V>>,
                            found: set<TrieSearchResult<V>>)
  {
    && Tree(g, paths) && InTrie(paths, initial)
    && AllInTrie(paths, [initial]) && AllInTrie(paths, queue)
    && seen + Elems(Pending(g, paths, queue)) == Explored(g, paths, [initial])
    && BestOf(results, found + Found(g, seen))
  }

  /** The front of the queue of a job is in the trie. */
  lemma FrontInTrie<V>(g: Graph<V>, paths: map<string, NodeId>, queue: seq<FuzzyState>)
    requires Tree(g, paths) && AllInTrie(paths, queue) && queue != []
    ensures InTrie(paths, queue[0]) && Linked(g, queue[0].node)
  {
    assert queue[0] in queue;
    LinkedInTree(g, paths, queue[0]);
  }

  /** Taking the front state off a queue and appending its successors leaves exactly the rest to explore. */
  lemma QueueStep<V>(g: Graph<V>, paths: map<string, NodeId>, queue: seq<FuzzyState>)
    requires Tree(g, paths) && AllInTrie(paths, queue) && queue != []
    requires InTrie(paths, queue[0]) && Linked(g, queue[0].node)
    ensures AllInTrie(paths, queue[1..] + NextStates(g, queue[0]))
    ensures Elems(Pending(g, paths, queue))
            == {queue[0]} + Elems(Pending(g, paths, queue[1..] + NextStates(g, queue[0])))
    ensures |Pending(g, paths, queue[1..] + NextStates(g, queue[0]))| < |Pending(g, paths, queue)|
  {
    WalkQStep(g, paths, queue);
    assert Succ(g, queue[0]) == NextStates(g, queue[0]);
  }

  /** Storing the result of one more state keeps the map the best of what the states seen describe. */
  lemma StoreStep<V>(g: Graph<V>, st: FuzzyState, seen: set<FuzzyState>,
                     results: map<string, TrieSearchResult<V>>, found: set<TrieSearchResult<V>>,
                     results': map<string, TrieSearchResult<V>>)
    requires st.node in g && CoordinatesOk(st)
    requires BestOf(results, found + Found(g, seen))
    requires results' == if HasSearchResult(g, st)
                         then PutOnlyNewOrBetter(results, BuildSearchResult(g, st).value)
                         else results
    ensures BestOf(results', found + Found(g, seen + {st}))
  {
    FoundUnion(g, seen, {st});
    FoundOne(g, st);
    if HasSearchResult(g, st) {
      var m := BuildSearchResult(g, st).value;
      PutKeepsBest(results, found + Found(g, seen), m);
      UnionOne(found, Found(g, seen), Found(g, seen + {st}), m);
    } else {
      UnionNone(found, Found(g, seen), Found(g, seen + {st}));
    }
  }

  lemma UnionOne<T>(a: set<T>, b: set<T>, c: set<T>, m: T)
    requires c == b + {m}
    ensures a + c == (a + b) + {m}
  {
  }

  lemma UnionNone<T>(a: set<T>, b: set<T>, c: set<T>)
    requires c == b + {}
    ensures a + c == a + b
  {
  }

  /** One state describes its own result, if it has one, and nothing else. */
  lemma FoundOne<V>(g: Graph<V>, st: FuzzyState)
    requires st.node in g && CoordinatesOk(st)
    ensures Found(g, {st}) == if HasSearchResult(g, st) then {BuildSearchResult(g, st).value} else {}
  {
  }

  /** Processing the front state of the queue keeps the invariant and leaves less to explore. */
  lemma JobStep<V>(g: Graph<V>, paths: map<string, NodeId>, initial: FuzzyState, queue: seq<FuzzyState>,
                   seen: set<FuzzyState>, results: map<string, TrieSearchResult<V>>,
                   found: set<TrieSearchResult<V>>, results': map<string, TrieSearchResult<V>>)
    requires JobInv(g, paths, initial, queue, seen, results, found) && queue != []
    requires InTrie(paths, queue[0]) && Linked(g, queue[0].node)
    requires results' == if HasSearchResult(g, queue[0])
                         then PutOnlyNewOrBetter(results, BuildSearchResult(g, queue[0]).value)
                         else results
    ensures AllInTrie(paths, queue[1..] + NextStates(g, queue[0]))
    ensures JobInv(g, paths, initial, queue[1..] + NextStates(g, queue[0]), seen + {queue[0]}, results', found)
    ensures |Pending(g, paths, queue[1..] + NextStates(g, queue[0]))| < |Pending(g, paths, queue)|
  {
    QueueStep(g, paths, queue);
    StoreStep(g, queue[0], seen, results, found, results');
  }

  /**
   * `searchJob`: process a queue that starts with `initial`, storing the result of every state
   * that has one; the states processed are exactly those the walk from `initial` explores.
   */
  method SearchJob<V>(g: Graph<V>, ghost paths: map<string, NodeId>, initial: FuzzyState,
                      results: map<string, TrieSearchResult<V>>, ghost found: set<TrieSearchResult<V>>)
    returns (results': map<string, TrieSearchResult<V>>)
    requires Tree(g, paths) && InTrie(paths, initial)
    requires BestOf(results, found)
    ensures AllInTrie(paths, [initial])
    ensures BestOf(results', found + Found(g, Explored(g, paths, [initial])))
  {
    var queue := [initial];
    ghost var seen: set<FuzzyState> := {};
    results' := results;
    assert JobInv(g, paths, initial, queue, seen, results', found);
    while queue != []
      invariant JobInv(g, paths, initial, queue, seen, results', found)
      decreases |Pending(g, paths, queue)|
    {
      var st := queue[0];
      FrontInTrie(g, paths, queue);
      var stored := results';
      if HasSearchResult(g, st) {
        stored := PutOnlyNewOrBetter(results', BuildSearchResult(g, st).value);
      }
      JobStep(g, paths, initial, queue, seen, results', found, stored);
      queue, seen, results' := queue[1..] + NextStates(g, st), seen + {st}, stored;
    }
  }

  // ---------------------------------------------------------------------------------------------
  // Sorting best match first

  /** The results of a sequence, each under its string. */
  ghost function ByString<V>(s: seq<TrieSearchResult<V>>): map<string, TrieSearchResult<V>>
    requires Sorting.DistinctKeys(StrOf, s)
  {
    OneEachString(s);
    map e | e in s :: e.str := e
  }

  /** With distinct strings, a result is determined by its string. */
  lemma OneEachString<V>(s: seq<TrieSearchResult<V>>)
    requires Sorting.DistinctKeys(StrOf, s)
    ensures forall a, b | a in s && b in s && a.str == b.str :: a == b
  {
    forall a, b | a in s && b in s && a.str == b.str
      ensures a == b
    {
      var i :| 0 <= i < |s| && s[i] == a;
      var j :| 0 <= j < |s| && s[j] == b;
      assert StrOf(s[i]) == StrOf(s[j]);
    }
  }

  /** The string a result is for: no two sorted results share one. */
  function StrOf<V>(e: TrieSearchResult<V>): string {
    e.str
  }

  /** The best-match-first comparator orders results totally and transitively. */
  lemma ResultsPreordered<V(!new)>()
    ensures Sorting.TotalPreorder(CompareResults<V>)
  {
    forall a: TrieSearchResult<V>, b: TrieSearchResult<V>
      ensures CompareResults(a, b) <= 0 || CompareResults(b, a) <= 0
    {
      CompareTotal(a, b);
    }
    forall a: TrieSearchResult<V>, b: TrieSearchResult<V>, c: TrieSearchResult<V>
      | CompareResults(a, b) <= 0 && CompareResults(b, c) <= 0
      ensures CompareResults(a, c) <= 0
    {
      CompareTransitive(a, b, c);
    }
  }

  /** Sorting so far: the results of the keys no longer in `rest`, each once, best match first. */
  ghost predicate SortInv<V(!new)>(results: map<string, TrieSearchResult<V>>, rest: set<string>,
                                   sorted: seq<TrieSearchResult<V>>) {
    && rest <= results.Keys
    && Sorting.Sorted(CompareResults, sorted) && Sorting.DistinctKeys(StrOf, sorted)
    && (forall e | e in sorted :: e.str in results && e.str !in rest && results[e.str] == e)
    && (forall k | k in results && k !in rest :: results[k] in sorted)
  }

  /** Inserting the result of one more key keeps `SortInv`. */
  lemma SortStep<V(!new)>(results: map<string, TrieSearchResult<V>>, rest: set<string>,
                          sorted: seq<TrieSearchResult<V>>, k: string)
    requires forall k | k in results :: results[k].str == k
    requires SortInv(results, rest, sorted) && k in rest
    ensures Sorting.TotalPreorder(CompareResults<V>) && Sorting.Sorted(CompareResults, sorted)
    ensures SortInv(results, rest - {k}, Sorting.Insert(CompareResults, sorted, results[k]))
  {
    ResultsPreordered<V>();
    var x := results[k];
    var next := Sorting.Insert(CompareResults, sorted, x);
    Sorting.InsertDistinct(CompareResults, StrOf, sorted, x);
    Sorting.InsertElems(CompareResults, sorted, x);
  }

  /**
   * `results.values.sortedWith(byBestMatchFirst)`: every stored result once, best match first.
   * The values of a map come in no particular order; the loop takes the keys in any order.
   */
  method SortByBestMatch<V(!new)>(results: map<string, TrieSearchResult<V>>) returns (sorted: seq<TrieSearchResult<V>>)
    requires forall k | k in results :: results[k].str == k
    ensures Sorting.Sorted(CompareResults, sorted) && Sorting.DistinctKeys(StrOf, sorted)
    ensures forall e | e in sorted :: e.str in results && results[e.str] == e
    ensures forall k | k in results :: results[k] in sorted
    ensures ByString(sorted) == results
  {
    sorted := [];
    var rest := results.Keys;
    while rest != {}
      invariant SortInv(results, rest, sorted)
      decreases |rest|
    {
      var k :| k in rest;
      SortStep(results, rest, sorted, k);
      sorted := Sorting.Insert(CompareResults, sorted, results[k]);
      rest := rest - {k};
    }
    assert ByString(sorted) == results;
  }

  // ---------------------------------------------------------------------------------------------
  // The whole search

  /** `initialStates.map { it.nextStates() }.flatten()`: the states one step below the root. */
  function TopLevel<V>(g: Graph<V>, inits: seq<FuzzyState>): seq<FuzzyState> {
    if inits == [] then [] else TopLevel(g, inits[..|inits| - 1]) + Succ(g, inits[|inits| - 1])
  }

  /**
   * A request that searches for `search` within `tolerance` once its first `predeterminedErrors`
   * characters are dropped, each counted as an error.
   */
  predicate InitRequest(search: string, tolerance: int, req: SearchRequest) {
    && 0 <= req.predeterminedErrors <= tolerance
    && req.predeterminedErrors <= |search|
    && req.keyword == search[req.predeterminedErrors..]
    && req.errorTolerance == tolerance - req.predeterminedErrors
  }

  /** The initial states of a search with valid arguments sit at the root, with such requests. */
  lemma InitialStatesOk<V>(g: Graph<V>, paths: map<string, NodeId>, search: string, tolerance: int,
                           strategy: Strategy)
    requires Tree(g, paths) && search != [] && 0 <= tolerance <= |search|
    ensures GetInitialStates(g, paths[""], search, tolerance, strategy, true).Ok?
    ensures var inits := GetInitialStates(g, paths[""], search, tolerance, strategy, true).value;
            && AllInTrie(paths, inits)
            && forall x | x in inits :: InitRequest(search, tolerance, x.request)
  {
    var inits := GetInitialStates(g, paths[""], search, tolerance, strategy, true).value;
    forall x | x in inits
      ensures InTrie(paths, x) && InitRequest(search, tolerance, x.request)
    {
      var i :| 0 <= i < |inits| && inits[i] == x;
      RootStateOk(paths, search, tolerance, strategy, i);
    }
  }

  /** The root state that drops the first `p` characters of `search` is in the trie, with such a request. */
  lemma RootStateOk(paths: map<string, NodeId>, search: string, tolerance: int, strategy: Strategy, p: int)
    requires "" in paths && 0 <= p <= tolerance && p <= |search|
    ensures var req := SearchRequest(strategy, search[p..], p, tolerance - p, true);
            InTrie(paths, InitialState(paths[""], req)) && InitRequest(search, tolerance, req)
  {
    assert search[0..] == search;
  }

  /** The top-level states are in the trie and keep the requests of the initial states. */
  lemma {:induction false} TopLevelOk<V>(g: Graph<V>, paths: map<string, NodeId>, search: string, tolerance: int,
                                         inits: seq<FuzzyState>)
    requires Tree(g, paths) && AllInTrie(paths, inits)
    requires forall x | x in inits :: InitRequest(search, tolerance, x.request)
    ensures AllInTrie(paths, TopLevel(g, inits))
    ensures forall y | y in TopLevel(g, inits) :: InitRequest(search, tolerance, y.request)
  {
    if inits != [] {
      var front, last := inits[..|inits| - 1], inits[|inits| - 1];
      assert forall x | x in front :: x in inits;
      TopLevelOk(g, paths, search, tolerance, front);
      assert last in inits;
      forall y | y in Succ(g, last)
        ensures InTrie(paths, y) && InitRequest(search, tolerance, y.request)
      {
        SuccBelow(g, paths, last, y);
      }
    }
  }

  /** The states a search explores: everything the jobs from the top-level states explore. */
  ghost function SearchSpace<V>(g: Graph<V>, paths: map<string, NodeId>, search: string, tolerance: int,
                                strategy: Strategy): set<FuzzyState>
    requires Tree(g, paths) && search != [] && 0 <= tolerance <= |search|
  {
    InitialStatesOk(g, paths, search, tolerance, strategy);
    var inits := GetInitialStates(g, paths[""], search, tolerance, strategy, true).value;
    TopLevelOk(g, paths, search, tolerance, inits);
    Explored(g, paths, TopLevel(g, inits))
  }

  /** What the jobs of the first `a` and then of `b` explore is what the jobs of `a + b` explore. */
  lemma ExploredAppend<V>(g: Graph<V>, paths: map<string, NodeId>, a: seq<FuzzyState>, b: seq<FuzzyState>)
    requires Tree(g, paths) && AllInTrie(paths, a) && AllInTrie(paths, b)
    ensures AllInTrie(paths, a + b)
    ensures Explored(g, paths, a + b) == Explored(g, paths, a) + Explored(g, paths, b)
  {
    WalkQAppend(g, paths, a, b);
  }

  /**
   * Every result a search can report is for a stored string and carries its value, has at most
   * `errorTolerance` errors, and matches at least `|search| - errorTolerance` characters.
   */
  lemma SearchSpaceResults<V>(g: Graph<V>, paths: map<string, NodeId>, contents: map<string, V>,
                              search: string, tolerance: int, strategy: Strategy, f: TrieSearchResult<V>)
    requires Tree(g, paths) && Represents(g, paths, contents)
    requires search != [] && 0 <= tolerance <= |search|
    requires f in Found(g, SearchSpace(g, paths, search, tolerance, strategy))
    ensures f.str in contents && f.value == contents[f.str]
    ensures 0 <= f.numberOfErrors <= tolerance
    ensures f.numberOfMatches >= |search| - tolerance
  {
    InitialStatesOk(g, paths, search, tolerance, strategy);
    var inits := GetInitialStates(g, paths[""], search, tolerance, strategy, true).value;
    TopLevelOk(g, paths, search, tolerance, inits);
    var top := TopLevel(g, inits);
    var x :| x in SearchSpace(g, paths, search, tolerance, strategy) && x.node in g && CoordinatesOk(x)
             && HasSearchResult(g, x) && BuildSearchResult(g, x).value == f;
    assert x in WalkQ(g, paths, top);
    WalkQKeepsRequest(g, paths, top, x);
  }

  /** The search space is what the jobs from the top-level states explore. */
  lemma SearchSpaceIs<V>(g: Graph<V>, paths: map<string, NodeId>, search: string, tolerance: int,
                         strategy: Strategy, top: seq<FuzzyState>)
    requires Tree(g, paths) && search != [] && 0 <= tolerance <= |search|
    requires GetInitialStates(g, paths[""], search, tolerance, strategy, true).Ok?
    requires top == TopLevel(g, GetInitialStates(g, paths[""], search, tolerance, strategy, true).value)
    requires AllInTrie(paths, top)
    ensures SearchSpace(g, paths, search, tolerance, strategy) == Explored(g, paths, top)
  {
  }

  /** The top-level states, derived initial state by initial state. */
  method TopLevelStates<V>(g: Graph<V>, ghost paths: map<string, NodeId>, inits: seq<FuzzyState>)
    returns (top: seq<FuzzyState>)
    requires Tree(g, paths) && AllInTrie(paths, inits)
    ensures top == TopLevel(g, inits)
  {
    top := [];
    for i := 0 to |inits|
      invariant top == TopLevel(g, inits[..i])
    {
      assert inits[i] in inits;
      LinkedInTree(g, paths, inits[i]);
      assert inits[..i + 1][..i] == inits[..i];
      top := top + NextStates(g, inits[i]);
    }
    assert inits[..|inits|] == inits;
  }

  /** One job per top-level state, each storing into the map the jobs before it filled. */
  method RunJobs<V>(g: Graph<V>, ghost paths: map<string, NodeId>, top: seq<FuzzyState>)
    returns (results: map<string, TrieSearchResult<V>>)
    requires Tree(g, paths) && AllInTrie(paths, top)
    ensures BestOf(results, Found(g, Explored(g, paths, top)))
  {
    results := map[];
    for j := 0 to |top|
      invariant AllInTrie(paths, top[..j])
      invariant BestOf(results, Found(g, Explored(g, paths, top[..j])))
    {
      assert top[j] in top;
      results := SearchJob(g, paths, top[j], results, Found(g, Explored(g, paths, top[..j])));
      FoundOneMore(g, paths, top, j);
    }
    assert top[..|top|] == top;
  }

  /** What the jobs of `top[..j + 1]` find: what those before found, and what the job of `top[j]` finds. */
  lemma FoundOneMore<V>(g: Graph<V>, paths: map<string, NodeId>, top: seq<FuzzyState>, j: int)
    requires Tree(g, paths) && 0 <= j < |top| && AllInTrie(paths, top[..j]) && AllInTrie(paths, [top[j]])
    ensures AllInTrie(paths, top[..j + 1])
    ensures Found(g, Explored(g, paths, top[..j + 1]))
         == Found(g, Explored(g, paths, top[..j])) + Found(g, Explored(g, paths, [top[j]]))
  {
    assert top[..j + 1] == top[..j] + [top[j]];
    ExploredAppend(g, paths, top[..j], [top[j]]);
    FoundUnion(g, Explored(g, paths, top[..j]), Explored(g, paths, [top[j]]));
  }

  /** A sequence whose map by string is the best of `found` holds only results from `found`. */
  lemma ReportedFound<V>(rs: seq<TrieSearchResult<V>>, found: set<TrieSearchResult<V>>)
    requires Sorting.DistinctKeys(StrOf, rs) && BestOf(ByString(rs), found)
    ensures forall e | e in rs :: e in found
  {
    forall e | e in rs
      ensures e in found
    {
      assert ByString(rs)[e.str] == e;
    }
  }

  /** `SearchSpaceResults` for every result of the search space at once. */
  lemma SearchSpaceBounds<V>(g: Graph<V>, paths: map<string, NodeId>, contents: map<string, V>,
                             search: string, tolerance: int, strategy: Strategy)
    requires Tree(g, paths) && Represents(g, paths, contents)
    requires search != [] && 0 <= tolerance <= |search|
    ensures forall f | f in Found(g, SearchSpace(g, paths, search, tolerance, strategy)) ::
              && f.str in contents && f.value == contents[f.str]
              && 0 <= f.numberOfErrors <= tolerance
              && f.numberOfMatches >= |search| - tolerance
  {
    forall f | f in Found(g, SearchSpace(g, paths, search, tolerance, strategy))
      ensures && f.str in contents && f.value == contents[f.str]
              && 0 <= f.numberOfErrors <= tolerance
              && f.numberOfMatches >= |search| - tolerance
    {
      SearchSpaceResults(g, paths, contents, search, tolerance, strategy, f);
    }
  }

  /**
   * `search`: IllegalArgumentException for an empty keyword or a tolerance outside 0..|search|;
   * otherwise one result per string found, the best found for it, sorted best match first.
   */
  method Search<V(!new)>(g: Graph<V>, ghost paths: map<string, NodeId>, root: NodeId, search: string,
                         errorTolerance: int, strategy: Strategy)
    returns (r: Result<seq<TrieSearchResult<V>>>)
    requires Tree(g, paths) && root == paths[""]
    ensures r.Err? <==> search == [] || errorTolerance < 0 || errorTolerance > |search|
    ensures r.Err? ==> r.error == IllegalArgument
    ensures r.Ok? ==> && Sorting.Sorted(CompareResults, r.value)
                      && Sorting.DistinctKeys(StrOf, r.value)
                      && BestOf(ByString(r.value), Found(g, SearchSpace(g, paths, search, errorTolerance, strategy)))
  {
    if search == [] || errorTolerance < 0 || errorTolerance > |search| {
      return Err(IllegalArgument);
    }
    InitialStatesOk(g, paths, search, errorTolerance, strategy);
    var inits := GetInitialStates(g, root, search, errorTolerance, strategy, true).value;
    TopLevelOk(g, paths, search, errorTolerance, inits);
    var top := TopLevelStates(g, paths, inits);
    var results := RunJobs(g, paths, top);
    var sorted := SortByBestMatch(results);
    SearchSpaceIs(g, paths, search, errorTolerance, strategy, top);
    r := Ok(sorted);
  }
}
