/**
 * The Kotlin trie of the tapestrie library (Trie.kt): a mutable tree of nodes under a root with an
 * empty string, a size counter, and per-node depths that are recomputed up the parent chain after
 * every insertion and removal.
 *
 * The nodes live in the table `graph` (see TrieNodes); `nextId` hands out references for new
 * nodes. The ghost field `paths` names every node of the trie by its path from the root, and the
 * ghost field `Contents` is the map of stored terms the trie represents. The mutating methods work
 * on a local copy of the table and store it back once at the end.
 */
module Tapestrie {
  import opened Wrappers
  import opened TrieNodes
  import opened TrieIterators
  import TrieSearchResults
  import FuzzySearch
  import FuzzySearcher
  import Sorting

  /** `maxByOrNull { it.depth }`: some child of largest depth, or None when there is none. */
  method MaxByDepth<V>(g: Graph<V>, children: set<NodeId>) returns (r: Option<NodeId>)
    requires children <= g.Keys
    ensures r.None? <==> children == {}
    ensures r.Some? ==> r.value in children && forall c | c in children :: g[c].depth <= g[r.value].depth
  {
    r := None;
    var rest := children;
    while rest != {}
      invariant rest <= children
      invariant r.None? <==> rest == children
      invariant r.Some? ==> r.value in children && forall c | c in children - rest :: g[c].depth <= g[r.value].depth
      decreases |rest|
    {
      var c :| c in rest;
      if r.None? || g[c].depth > g[r.value].depth {
        r := Some(c);
      }
      rest := rest - {c};
    }
  }

  /** `filter { it != excluded }.maxOfOrNull { it.depth } ?: 0` */
  method MaxDepthExcluding<V>(g: Graph<V>, children: set<NodeId>, excluded: Option<NodeId>) returns (m: int)
    requires children <= g.Keys
    ensures forall c | c in children && Some(c) != excluded :: g[c].depth <= m
    ensures (exists c | c in children && Some(c) != excluded :: g[c].depth == m)
         || (m == 0 && forall c | c in children :: Some(c) == excluded)
  {
    var best: Option<int> := None;
    var rest := children;
    ghost var seen: set<NodeId> := {};
    ghost var argmax: NodeId := 0;
    while rest != {}
      invariant rest <= children && seen == children - rest
      invariant best.None? ==> forall c | c in seen :: Some(c) == excluded
      invariant best.Some? ==> argmax in seen && Some(argmax) != excluded && g[argmax].depth == best.value
      invariant best.Some? ==> forall c | c in seen && Some(c) != excluded :: g[c].depth <= best.value
      decreases |rest|
    {
      var c :| c in rest;
      if Some(c) != excluded && (best.None? || g[c].depth > best.value) {
        best := Some(g[c].depth);
        argmax := c;
      }
      rest := rest - {c};
      seen := seen + {c};
    }
    assert seen == children;
    m := if best.Some? then best.value else 0;
  }

  function Max(a: int, b: int): int {
    if a < b then b else a
  }

  /** Extending a prefix of `input` by the next character of `input`. */
  lemma PrefixStep(input: string, cur: string)
    requires cur <= input && |cur| < |input|
    ensures input[..|cur| + 1] == cur + [input[|cur|]]
    ensures |cur| + 1 == |input| ==> input == cur + [input[|cur|]]
  {
    assert input[..|cur| + 1] == input[..|cur|] + [input[|cur|]];
  }

  /** The children of every node of the tree are in the table. */
  lemma ChildrenInTable<V>(g: Graph<V>, ps: map<string, NodeId>, s: string)
    requires Tree(g, ps) && s in ps
    ensures ps[s] in g && g[ps[s]].next <= g.Keys
  {
    forall c | c in g[ps[s]].next
      ensures c in g
    {
    }
  }

  /**
   * `updateDepths(current, next)`: recomputes the depth of `current` from its children, reading
   * the depth of `next` in place of its own child entry, and then does the same for every ancestor
   * with the node just updated as `next`. Given that every node off the path `p` of `current`
   * already has the right depth, afterwards every node of the tree has; nothing but depths changes.
   */
  method UpdateDepths<V>(g: Graph<V>, ghost ps: map<string, NodeId>, current: Option<NodeId>, next: Option<NodeId>, ghost p: string)
    returns (g': Graph<V>)
    requires Tree(g, ps)
    requires current.Some? ==> p in ps && ps[p] == current.value
    requires current.Some? ==> next.None? || next.value in g[current.value].next
    requires current.Some? ==>
      forall s {:trigger DepthOk(g, ps[s])} | s in ps && ps[s] !in Chain(ps, p) :: DepthOk(g, ps[s])
    requires current.None? ==> DepthsOk(g, ps)
    ensures SameShape(g, g')
    ensures DepthsOk(g', ps)
    decreases current.Some?, |p|
  {
    if current.None? {
      return g;
    }
    var n := current.value;
    ChildrenBelow(g, ps, p);
    var maxDepth := MaxDepthExcluding(g, g[n].next, next);
    var nextDepth := if next.None? then 0 else g[next.value].depth;
    var m := Max(nextDepth, maxDepth);
    var g1 := g[n := g[n].(depth := m + |g[n].str|)];
    DepthFixed(g, ps, p, m, g1);
    ClimbReady(g, ps, p, g1);
    ghost var q := if p == [] then [] else Parent(p);
    g' := UpdateDepths(g1, ps, g[n].previous, current, q);
  }

  /** Every node off the way down to `p` has the right depth. */
  ghost predicate DepthsOkOff<V>(g: Graph<V>, ps: map<string, NodeId>, p: string) {
    forall s {:trigger DepthOk(g, ps[s])} | s in ps && ps[s] !in Chain(ps, p) :: ps[s] in g && DepthOk(g, ps[s])
  }

  /**
   * Once the node at `p` has the right depth, as every node off the way down to it has, the
   * climb can go on from its parent, or every depth is right when `p` is the root.
   */
  lemma ClimbReady<V>(g: Graph<V>, ps: map<string, NodeId>, p: string, g1: Graph<V>)
    requires Tree(g, ps) && p in ps && SameShape(g, g1) && Tree(g1, ps)
    requires forall s {:trigger DepthOk(g1, ps[s])} | s in ps && (s == p || ps[s] !in Chain(ps, p)) :: DepthOk(g1, ps[s])
    ensures p == [] ==> g[ps[p]].previous == None && DepthsOk(g1, ps)
    ensures p != [] ==>
      && Parent(p) in ps && g[ps[p]].previous == Some(ps[Parent(p)]) && ps[p] in g1[ps[Parent(p)]].next
      && forall s {:trigger DepthOk(g1, ps[s])} | s in ps && ps[s] !in Chain(ps, Parent(p)) :: DepthOk(g1, ps[s])
  {
    ParentLink(g1, ps, p);
    assert DepthOk(g1, ps[p]);
    forall s | s in ps
      ensures ps[s] in g1
    {
    }
  }

  /**
   * Setting the depth of the node at `p` to its length plus `m`, the largest depth among its
   * children, makes its depth invariant hold and keeps that of every node off the way down to it.
   */
  lemma DepthFixed<V>(g: Graph<V>, ps: map<string, NodeId>, p: string, m: int, g1: Graph<V>)
    requires Tree(g, ps) && p in ps
    requires DepthsOkOff(g, ps, p)
    requires (forall c | c in g[ps[p]].next :: c in g && g[c].depth <= m)
    requires (exists c | c in g[ps[p]].next :: c in g && g[c].depth == m) || m == 0
    requires g1 == g[ps[p] := g[ps[p]].(depth := m + |g[ps[p]].str|)]
    ensures SameShape(g, g1) && Tree(g1, ps)
    ensures forall s {:trigger DepthOk(g1, ps[s])} | s in ps && (s == p || ps[s] !in Chain(ps, p)) :: DepthOk(g1, ps[s])
  {
    assert SameShape(g, g1);
    OffChainKept(g, ps, p, g1);
    NewDepthOk(g, ps, p, m, g1);
    ShapeKeepsTree(g, g1, ps);
  }

  /** Changing the depth of the node at `p` keeps the depth invariant of every node off the way down to it. */
  lemma OffChainKept<V>(g: Graph<V>, ps: map<string, NodeId>, p: string, g1: Graph<V>)
    requires Tree(g, ps) && p in ps
    requires DepthsOkOff(g, ps, p)
    requires SameShape(g, g1) && forall x | x in g && x != ps[p] :: g1[x] == g[x]
    ensures forall s {:trigger DepthOk(g1, ps[s])} | s in ps && ps[s] !in Chain(ps, p) :: ps[s] in g1 && DepthOk(g1, ps[s])
  {
    forall s | s in ps && ps[s] !in Chain(ps, p)
      ensures ps[s] in g1 && DepthOk(g1, ps[s])
    {
      OffChain(g, ps, s, p);
      DepthOkFrame(g, g1, ps[s]);
    }
  }

  /** The depth set by `DepthFixed` is right for the node at `p`, whose children keep theirs. */
  lemma NewDepthOk<V>(g: Graph<V>, ps: map<string, NodeId>, p: string, m: int, g1: Graph<V>)
    requires Tree(g, ps) && p in ps
    requires DepthsOkOff(g, ps, p)
    requires (forall c | c in g[ps[p]].next :: c in g && g[c].depth <= m)
    requires (exists c | c in g[ps[p]].next :: c in g && g[c].depth == m) || m == 0
    requires g1 == g[ps[p] := g[ps[p]].(depth := m + |g[ps[p]].str|)]
    ensures ps[p] in g1 && DepthOk(g1, ps[p])
  {
    var n := ps[p];
    ChildrenBelow(g, ps, p);
    assert n in Chain(ps, p);
    forall c | c in g[n].next
      ensures g[c].depth >= 0
    {
      assert p + g[c].str in ps && ps[p + g[c].str] == c;
      assert DepthOk(g, ps[p + g[c].str]);
    }
  }

  class Trie<V(!new)> {
    var graph: Graph<V>
    var root: NodeId
    var size: int
    var nextId: NodeId
    ghost var paths: map<string, NodeId>
    ghost var Contents: map<string, V>

    /**
     * The trie is a well-formed tree rooted at `root`, whose completing nodes are exactly the
     * terms of `Contents`; the root never completes, every reference in use is below `nextId`,
     * and `size` never falls below the number of stored terms (so it is never negative and the
     * vetoing setter never fires).
     */
    ghost predicate Valid()
      reads this
    {
      Inv(graph, paths, root, nextId, Contents) && |Contents| <= size
    }

    /** Valid() from the state invariant of the table. */
    lemma ValidFrom()
      requires Inv(graph, paths, root, nextId, Contents) && |Contents| <= size
      ensures Valid()
    {
    }

    /** `init { clear() }` */
    constructor ()
      ensures Valid() && Contents == map[] && size == 0
    {
      new;
      Clear();
    }

    /**
     * Forgets every term: a fresh root and a zero size. The old nodes are unreachable from then
     * on, so the table starts over with the root alone.
     */
    method Clear()
      modifies this
      ensures Valid() && Contents == map[] && size == 0
    {
      var g := map[0 := TrieNode("", None, 0, {}, None)];
      RootOnly(g, 0);
      assert Inv(g, map["" := 0], 0, 1, map[]);
      graph, root, nextId, size, paths, Contents := g, 0, 1, 0, map["" := 0], map[];
    }

    /** The length of the longest stored term, 0 when there is none. */
    method Depth() returns (d: int)
      requires Valid()
      ensures forall t | t in Contents :: |t| <= d
      ensures d == 0 || exists t | t in Contents :: |t| == d
      ensures Contents == map[] ==> d == 0
    {
      d := graph[root].depth;
      forall t | t in Contents
        ensures |t| <= d
      {
        DepthBound(graph, paths, "", t);
      }
      assert DepthOk(graph, paths[""]);
      if graph[root].next != {} {
        DepthWitness(graph, paths, "");
      }
    }

    /** The trie is empty exactly when no term is stored. */
    method IsEmpty() returns (b: bool)
      requires Valid()
      ensures b <==> Contents == map[]
    {
      b := graph[root].next == {};
      if !b {
        DepthWitness(graph, paths, "");
      } else if t :| t in Contents {
        ChildOnPath(graph, paths, "", t);
      }
    }

    /** The node at path `s`, or None when no stored term runs through `s`. */
    method PrefixMatchUpTo(s: string) returns (r: Option<NodeId>)
      requires Valid()
      ensures r.Some? <==> s in paths
      ensures r.Some? ==> r.value == paths[s]
    {
      r := FindNode(graph, paths, root, s);
    }

    /** The value stored under `s`, if any. */
    method GetExactly(s: string) returns (r: Option<V>)
      requires Valid()
      ensures r == if s in Contents then Some(Contents[s]) else None
    {
      var n := PrefixMatchUpTo(s);
      r := if n.None? then None else graph[n.value].value;
    }

    method ContainsExactly(s: string) returns (b: bool)
      requires Valid()
      ensures b <==> s in Contents
    {
      var r := GetExactly(s);
      b := r != None;
    }

    /**
     * `iterator()`: a breadth-first iterator from the root over the table as it stands; it walks
     * exactly the stored terms and hands out each with its stored value.
     */
    method Iterator() returns (it: TrieIterator<V>)
      requires Valid()
      ensures fresh(it) && it.Valid() && it.Yielded() == [] && it.table == graph
      ensures it.Terms() == Contents.Keys
      ensures forall t | t in Contents :: EntryAt(it.table, it.paths, it.base, t) == TrieEntry(t, Contents[t])
    {
      it := new TrieIterator(graph, paths, "", root);
      assert TermsBelow(graph, paths, "") == Contents.Keys;
    }

    /**
     * Maps every stored term that strictly extends `prefix` to its value; a stored term equal to
     * `prefix` is not included, since the walk starts at the children of the node for `prefix`.
     */
    method MatchByPrefix(prefix: string) returns (m: map<string, V>)
      requires Valid()
      ensures m == map t | t in Contents && prefix < t :: Contents[t]
    {
      var n := PrefixMatchUpTo(prefix);
      if n.None? {
        forall t | t in Contents && prefix < t
          ensures false
        {
          PrefixClosed(graph, paths, t, prefix);
        }
        m := map[];
      } else {
        m := GatherAll(graph, paths, n.value, prefix, prefix);
        PrefixMatches(graph, paths, root, nextId, Contents, prefix);
      }
    }

    /**
     * `matchBySubstring`: the fuzzy search with no errors allowed and the Liberal strategy, so its
     * results are exactly those of `MatchBySubstringFuzzy(search, 0, Liberal)`: the best result per
     * stored term over that search's space, sorted best match first, all of them error-free.
     */
    method MatchBySubstring(search: string) returns (r: Result<seq<TrieSearchResults.TrieSearchResult<V>>>)
      requires Valid()
      ensures r.Err? <==> search == []
      ensures r.Err? ==> r.error == IllegalArgument
      ensures r.Ok? ==> && Sorting.Sorted(TrieSearchResults.CompareResults, r.value)
                        && Sorting.DistinctKeys(FuzzySearcher.StrOf, r.value)
                        && FuzzySearcher.BestOf(FuzzySearcher.ByString(r.value),
                             FuzzySearcher.Found(graph, FuzzySearcher.SearchSpace(graph, paths, search, 0, FuzzySearch.Liberal)))
      ensures r.Ok? ==> forall e | e in r.value ::
                          && e.str in Contents && e.value == Contents[e.str]
                          && e.numberOfErrors == 0 && e.numberOfMatches >= |search|
    {
      r := MatchBySubstringFuzzy(search, 0, FuzzySearch.Liberal);
    }

    /**
     * `matchBySubstringFuzzy`: the fuzzy search from the root. IllegalArgumentException for an
     * empty keyword or a tolerance outside 0..|search|; otherwise every result is for a stored
     * term and carries its value, has at most `errorTolerance` errors and matches at least
     * `|search| - errorTolerance` characters, one result per term, sorted best match first.
     */
    method MatchBySubstringFuzzy(search: string, errorTolerance: int, strategy: FuzzySearch.Strategy)
      returns (r: Result<seq<TrieSearchResults.TrieSearchResult<V>>>)
      requires Valid()
      ensures r.Err? <==> search == [] || errorTolerance < 0 || errorTolerance > |search|
      ensures r.Err? ==> r.error == IllegalArgument
      ensures r.Ok? ==> && Sorting.Sorted(TrieSearchResults.CompareResults, r.value)
                        && Sorting.DistinctKeys(FuzzySearcher.StrOf, r.value)
                        && FuzzySearcher.BestOf(FuzzySearcher.ByString(r.value),
                             FuzzySearcher.Found(graph, FuzzySearcher.SearchSpace(graph, paths, search, errorTolerance, strategy)))
      ensures r.Ok? ==> forall e | e in r.value ::
                          && e.str in Contents && e.value == Contents[e.str]
                          && 0 <= e.numberOfErrors <= errorTolerance
                          && e.numberOfMatches >= |search| - errorTolerance
    {
      r := FuzzySearcher.Search(graph, paths, root, search, errorTolerance, strategy);
      if r.Ok? {
        ghost var found := FuzzySearcher.Found(graph, FuzzySearcher.SearchSpace(graph, paths, search, errorTolerance, strategy));
        FuzzySearcher.ReportedFound(r.value, found);
        FuzzySearcher.SearchSpaceBounds(graph, paths, Contents, search, errorTolerance, strategy);
      }
    }

    /**
     * Stores `value` under `input` and returns the value stored there before (None when `input`
     * was not a term); the empty string is refused with IllegalArgument and changes nothing.
     */
    method Put(input: string, value: V) returns (r: Result<Option<V>>)
      requires Valid()
      modifies this
      ensures Valid()
      ensures input == [] ==> r == Err(IllegalArgument) && Contents == old(Contents) && size == old(size)
      ensures input != [] ==> r == Ok(if input in old(Contents) then Some(old(Contents)[input]) else None)
      ensures input != [] ==> Contents == old(Contents)[input := value]
      ensures input != [] ==> size == old(size) + if input in old(Contents) then 0 else 1
    {
      var g, nid, size';
      ghost var ps, contents;
      g, ps, nid, size', contents, r := PutInto(graph, paths, root, nextId, size, input, value, Contents);
      graph, paths, nextId, size, Contents := g, ps, nid, size', contents;
      ValidFrom();
    }

    /**
     * Removes `input` and returns the value it had. When the path of `input` is missing or does
     * not complete, nothing changes and None is returned. Otherwise the climb from the node of
     * `input` stops at the first ancestor that is the root, completes or branches, and the child
     * of that ancestor towards `input` is unlinked: `input` and every term extending it are gone,
     * every other term keeps its value, and the size drops by exactly one.
     */
    method Remove(input: string) returns (r: Option<V>)
      requires Valid()
      modifies this
      ensures Valid()
      ensures r == if input in old(Contents) then Some(old(Contents)[input]) else None
      ensures input !in old(Contents) ==> Contents == old(Contents) && size == old(size)
      ensures input in old(Contents) ==> size == old(size) - 1
      ensures input in old(Contents) ==> Contents == Pruned(old(Contents), input)
    {
      var g, size';
      ghost var ps, contents;
      g, ps, size', contents, r := RemoveFrom(graph, paths, root, nextId, size, input, Contents);
      graph, paths, size, Contents := g, ps, size', contents;
    }
  }

  /** The terms of `contents` other than `input` and its extensions, with their values. */
  ghost function Pruned<V>(contents: map<string, V>, input: string): (r: map<string, V>)
    ensures input in contents ==> |r| < |contents|
  {
    var r := map t | t in contents && !(input <= t) :: contents[t];
    assert input in contents ==> |r| < |contents| by {
      if input in contents {
        SubsetCard(r.Keys, contents.Keys - {input});
      }
    }
    r
  }

  /**
   * The state of a trie: a well-formed tree rooted at `root` whose completing nodes are exactly
   * the terms of `contents`, a root that never completes, and every reference in use below `nid`.
   */
  ghost predicate Inv<V>(g: Graph<V>, ps: map<string, NodeId>, root: NodeId, nid: NodeId, contents: map<string, V>)
  {
    && WellFormed(g, ps)
    && ps[""] == root && g[root].value == None
    && Represents(g, ps, contents)
    && (forall n | n in g :: n < nid)
  }

  /**
   * The walk of `prefixMatchUpTo` (and the identical one at the start of `remove`): follows the
   * characters of `s` from the root and gives the node at path `s`, or None when it is missing.
   */
  method FindNode<V>(g: Graph<V>, ghost ps: map<string, NodeId>, root: NodeId, s: string) returns (r: Option<NodeId>)
    requires Tree(g, ps) && ps[""] == root
    ensures r.Some? <==> s in ps
    ensures r.Some? ==> r.value == ps[s]
  {
    var current := root;
    ghost var path: string := [];
    for i := 0 to |s|
      invariant path == s[..i] && path in ps && ps[path] == current
    {
      ChildrenInTable(g, ps, path);
      var nx := GetNextNode(g, current, [s[i]]);
      if nx.None? {
        if s in ps {
          ChildOnPath(g, ps, path, s);
        }
        return None;
      }
      PrefixStep(s, path);
      path := path + [s[i]];
      current := nx.value;
    }
    assert s[..|s|] == s;
    r := Some(current);
  }

  /** The values stored at the paths `ts`. */
  ghost function ValuesAt<V>(g: Graph<V>, ps: map<string, NodeId>, ts: set<string>): map<string, V>
    requires forall t | t in ts :: t in ps && ps[t] in g && g[ps[t]].value.Some?
  {
    map t | t in ts :: g[ps[t]].value.value
  }

  /** The terms strictly below the path `p` that run through one of the children `kids` of its node. */
  ghost function Through<V>(g: Graph<V>, ps: map<string, NodeId>, p: string, kids: set<NodeId>): set<string>
  {
    set t | t in TermsBelow(g, ps, p) && |t| > |p| && t[..|p| + 1] in ps && ps[t[..|p| + 1]] in kids
  }

  /** The paths handed out so far, as a set. */
  ghost function Elems(s: seq<string>): set<string>
  {
    set t | t in s
  }

  /**
   * `gatherAll`: drains an iterator from every child of `start` (the node at path `p`) and maps
   * `startSequence` followed by each key to its value; with `startSequence` equal to `p`, the
   * result maps every term strictly below `p` to its value.
   */
  method GatherAll<V(!new)>(g: Graph<V>, ghost ps: map<string, NodeId>, start: NodeId, startSequence: string, ghost p: string)
    returns (m: map<string, V>)
    requires Tree(g, ps) && p in ps && ps[p] == start && startSequence == p
    ensures m == ValuesAt(g, ps, Through(g, ps, p, g[start].next))
  {
    m := map[];
    var rest := g[start].next;
    while rest != {}
      invariant rest <= g[start].next
      invariant m == ValuesAt(g, ps, Through(g, ps, p, g[start].next - rest))
      decreases |rest|
    {
      var c :| c in rest;
      ghost var kids := g[start].next - rest;
      assert c in g[ps[p]].next;
      ghost var b := p + g[c].str;
      var it := new TrieIterator(g, ps, b, c);
      m := Drain(g, ps, p, b, it, m, startSequence);
      ChildTerms(g, ps, p, kids, c);
      ValuesAtUnion(g, ps, Through(g, ps, p, kids), TermsBelow(g, ps, b));
      rest := rest - {c};
      assert g[start].next - rest == kids + {c};
    }
  }

  /**
   * `TrieIterator(it).asSequence()` folded into `m`: adds to `m0`, under `startSequence` followed
   * by its key, the entry of every term below the child path `b` of `p`.
   */
  method Drain<V(!new)>(g: Graph<V>, ghost ps: map<string, NodeId>, ghost p: string, ghost b: string,
                        it: TrieIterator<V>, m0: map<string, V>, startSequence: string)
    returns (m: map<string, V>)
    requires |b| == |p| + 1 && p <= b && startSequence == p
    requires it.Valid() && it.table == g && it.paths == ps && it.base == b && it.Yielded() == []
    modifies it
    ensures m == m0 + ValuesAt(g, ps, TermsBelow(g, ps, b))
  {
    var more := it.HasNext();
    assert Elems(it.Yielded()) * it.Terms() == {};
    m := DrainRest(g, ps, p, b, it, m0, m0, startSequence, more);
  }

  /** The rest of the drain, from the terms handed out so far. */
  method DrainRest<V(!new)>(g: Graph<V>, ghost ps: map<string, NodeId>, ghost p: string, ghost b: string,
                            it: TrieIterator<V>, ghost m0: map<string, V>, m1: map<string, V>, startSequence: string,
                            more: bool)
    returns (m: map<string, V>)
    requires |b| == |p| + 1 && p <= b && startSequence == p
    requires it.Valid() && it.table == g && it.paths == ps && it.base == b && more == it.Remaining()
    requires m1 == m0 + ValuesAt(g, ps, Elems(it.Yielded()) * it.Terms())
    modifies it
    ensures m == m0 + ValuesAt(g, ps, TermsBelow(g, ps, b))
    decreases |it.Terms() - Elems(it.Yielded())|
  {
    if !more {
      assert it.Terms() <= Elems(it.Yielded());
      assert Elems(it.Yielded()) * it.Terms() == it.Terms();
      return m1;
    }
    var m2, more2 := DrainStep(g, ps, p, b, it, m0, m1, startSequence);
    m := DrainRest(g, ps, p, b, it, m0, m2, startSequence, more2);
  }

  /** One round of the drain: `next`, the entry into the map, then `hasNext`. */
  method DrainStep<V(!new)>(g: Graph<V>, ghost ps: map<string, NodeId>, ghost p: string, ghost b: string,
                            it: TrieIterator<V>, ghost m0: map<string, V>, m1: map<string, V>, startSequence: string)
    returns (m: map<string, V>, more: bool)
    requires |b| == |p| + 1 && p <= b && startSequence == p
    requires it.Valid() && it.table == g && it.paths == ps && it.base == b && it.Remaining()
    requires m1 == m0 + ValuesAt(g, ps, Elems(it.Yielded()) * it.Terms())
    modifies it
    ensures it.Valid() && more == it.Remaining()
    ensures m == m0 + ValuesAt(g, ps, Elems(it.Yielded()) * it.Terms())
    ensures |it.Terms() - Elems(it.Yielded())| < |it.Terms() - Elems(old(it.Yielded()))|
  {
    ghost var y0 := it.Yielded();
    var e := it.Next();
    Drained(g, ps, p, b, y0, it.Yielded(), e, m0, m1, startSequence);
    m := m1[startSequence + e.value.key := e.value.value];
    more := it.HasNext();
  }

  /**
   * One `next` of the iterator below the child path `b` of `p`: the entry handed out is keyed,
   * after `p`, by the path of its term, so adding it to the map keeps the map equal to the
   * values of the terms handed out so far; and the iterator's remaining terms shrink by one.
   */
  lemma Drained<V>(g: Graph<V>, ps: map<string, NodeId>, p: string, b: string, y0: seq<string>, y: seq<string>,
                   e: Result<TrieEntry<V>>, m0: map<string, V>, m: map<string, V>, startSequence: string)
    requires |b| == |p| + 1 && p <= b && startSequence == p
    requires HandedOut(g, ps, b, y0, y, e)
    requires m == m0 + ValuesAt(g, ps, Elems(y0) * TermsBelow(g, ps, b))
    ensures e.Ok?
    ensures m[startSequence + e.value.key := e.value.value] == m0 + ValuesAt(g, ps, Elems(y) * TermsBelow(g, ps, b))
    ensures |TermsBelow(g, ps, b) - Elems(y)| < |TermsBelow(g, ps, b) - Elems(y0)|
  {
    var t :| t in TermsBelow(g, ps, b) && t !in y0 && y == y0 + [t] && e == Ok(EntryAt(g, ps, b, t))
             && forall u | u in y0 :: |u| <= |t|;
    var terms := TermsBelow(g, ps, b);
    assert Elems(y) == Elems(y0) + {t};
    assert Elems(y) * terms == Elems(y0) * terms + {t};
    assert t == p + t[|p|..];
    ValuesAtAdd(g, ps, Elems(y0) * terms, t);
    UnionUpdate(m0, ValuesAt(g, ps, Elems(y0) * terms), t, g[ps[t]].value.value);
    assert terms - Elems(y) == (terms - Elems(y0)) - {t};
  }

  /** Adding a path to a set adds its value to the values of the set. */
  lemma ValuesAtAdd<V>(g: Graph<V>, ps: map<string, NodeId>, ts: set<string>, t: string)
    requires forall u | u in ts + {t} :: u in ps && ps[u] in g && g[ps[u]].value.Some?
    ensures ValuesAt(g, ps, ts + {t}) == ValuesAt(g, ps, ts)[t := g[ps[t]].value.value]
  {
  }

  /** The terms through the children of the node at `p` are the stored terms strictly below `p`. */
  lemma PrefixMatches<V>(g: Graph<V>, ps: map<string, NodeId>, root: NodeId, nid: NodeId, contents: map<string, V>,
                         p: string)
    requires Inv(g, ps, root, nid, contents) && p in ps
    ensures ValuesAt(g, ps, Through(g, ps, p, g[ps[p]].next)) == map t | t in contents && p < t :: contents[t]
  {
    forall t | t in contents && p < t
      ensures t in Through(g, ps, p, g[ps[p]].next)
    {
      ChildOnPath(g, ps, p, t);
    }
  }

  /** The values of a union of path sets are the union of their values. */
  lemma ValuesAtUnion<V>(g: Graph<V>, ps: map<string, NodeId>, ts: set<string>, us: set<string>)
    requires forall u | u in ts + us :: u in ps && ps[u] in g && g[ps[u]].value.Some?
    ensures ValuesAt(g, ps, ts) + ValuesAt(g, ps, us) == ValuesAt(g, ps, ts + us)
  {
  }

  /** Updating the right operand of a map union updates the union. */
  lemma UnionUpdate<K, V>(m0: map<K, V>, m1: map<K, V>, k: K, v: V)
    ensures (m0 + m1)[k := v] == m0 + m1[k := v]
  {
  }

  /** The terms through the child `c` of the node at `p` are the terms below the child's path. */
  lemma ChildTerms<V>(g: Graph<V>, ps: map<string, NodeId>, p: string, kids: set<NodeId>, c: NodeId)
    requires Tree(g, ps) && p in ps && c in g[ps[p]].next
    ensures Through(g, ps, p, kids + {c}) == Through(g, ps, p, kids) + TermsBelow(g, ps, p + g[c].str)
  {
    var b := p + g[c].str;
    forall t | t in TermsBelow(g, ps, b)
      ensures t in Through(g, ps, p, kids + {c})
    {
      assert t[..|p| + 1] == b;
    }
    forall t | t in Through(g, ps, p, kids + {c}) && t !in Through(g, ps, p, kids)
      ensures t in TermsBelow(g, ps, b)
    {
      Injective(g, ps, t[..|p| + 1], b);
      assert t[..|p| + 1] == b;
    }
  }

  /** `put` on the table of a trie: the empty input is refused, and nothing changes then. */
  method PutInto<V>(g0: Graph<V>, ghost ps0: map<string, NodeId>, root: NodeId, nid0: NodeId, size0: int,
                    input: string, value: V, ghost contents0: map<string, V>)
    returns (g: Graph<V>, ghost ps: map<string, NodeId>, nid: NodeId, size: int, ghost contents: map<string, V>,
             r: Result<Option<V>>)
    requires Inv(g0, ps0, root, nid0, contents0) && |contents0| <= size0
    ensures Inv(g, ps, root, nid, contents) && |contents| <= size
    ensures input == [] ==> r == Err(IllegalArgument) && contents == contents0 && size == size0
    ensures input != [] ==> r == Ok(if input in contents0 then Some(contents0[input]) else None)
    ensures input != [] ==> contents == contents0[input := value]
    ensures input != [] ==> size == size0 + if input in contents0 then 0 else 1
  {
    if input == [] {
      return g0, ps0, nid0, size0, contents0, Err(IllegalArgument);
    }
    var previousValue;
    g, ps, nid, size, contents, previousValue := PutTerm(g0, ps0, root, nid0, size0, input, value, contents0);
    r := Ok(previousValue);
  }

  /** `put` of a non-empty input: the walk that stores it, then the depth updates above it. */
  method PutTerm<V>(g0: Graph<V>, ghost ps0: map<string, NodeId>, root: NodeId, nid0: NodeId, size0: int,
                    input: string, value: V, ghost contents0: map<string, V>)
    returns (g: Graph<V>, ghost ps: map<string, NodeId>, nid: NodeId, size: int, ghost contents: map<string, V>,
             previousValue: Option<V>)
    requires Inv(g0, ps0, root, nid0, contents0) && |contents0| <= size0 && input != []
    ensures Inv(g, ps, root, nid, contents) && |contents| <= size
    ensures previousValue == if input in contents0 then Some(contents0[input]) else None
    ensures contents == contents0[input := value]
    ensures size == size0 + if input in contents0 then 0 else 1
  {
    var current;
    ghost var cur;
    g, ps, nid, current, cur, previousValue := PutWalk(g0, ps0, root, nid0, input, value, contents0);
    ChildrenInTable(g, ps, cur);
    var argmax := MaxByDepth(g, g[current].next);
    var g' := UpdateDepths(g, ps, Some(current), argmax, cur);
    ShapeKeepsTree(g, g', ps);
    g := g';
    if previousValue == None {
      size := size0 + 1;
    } else {
      size := size0;
    }
    contents := contents0[input := value];
  }

  /**
   * `remove` on the table of a trie: None and nothing changed when `input` is not a term;
   * otherwise its value, with `input` and every term extending it unlinked.
   */
  method RemoveFrom<V>(g0: Graph<V>, ghost ps0: map<string, NodeId>, root: NodeId, nid: NodeId, size0: int,
                       input: string, ghost contents0: map<string, V>)
    returns (g: Graph<V>, ghost ps: map<string, NodeId>, size: int, ghost contents: map<string, V>, r: Option<V>)
    requires Inv(g0, ps0, root, nid, contents0) && |contents0| <= size0
    ensures Inv(g, ps, root, nid, contents) && |contents| <= size
    ensures r == if input in contents0 then Some(contents0[input]) else None
    ensures input !in contents0 ==> contents == contents0 && size == size0
    ensures input in contents0 ==> contents == Pruned(contents0, input) && size == size0 - 1
  {
    g, ps, size, contents := g0, ps0, size0, contents0;
    var found := FindNode(g0, ps0, root, input);
    if found.None? {
      return g, ps, size, contents, None;
    }
    var nodeToRemove := found.value;
    if !g0[nodeToRemove].Completes() {
      return g, ps, size, contents, None;
    }
    IsRootOnlyAtRoot(g0, ps0, input);
    var last, j := ClimbToUsed(g0, ps0, root, input, nodeToRemove);
    ChildrenInTable(g0, ps0, input[..j]);
    g := RemoveNextNode(g0, last, [input[j]]);
    ps := Pruned(ps0, input[..j + 1]);
    contents := Pruned(contents0, input);
    Unlink(g0, ps0, root, contents0, input, j, g, ps, contents);
    ChildrenInTable(g, ps, input[..j]);
    var argmax := MaxByDepth(g, g[last].next);
    var g' := UpdateDepths(g, ps, Some(last), argmax, input[..j]);
    ShapeKeepsTree(g, g', ps);
    r := g'[nodeToRemove].value;
    g := g';
    size := size0 - 1;
  }

  /** `this === root || this.completes() || this.next.size > 1` */
  predicate IsUsedForOtherStrings<V>(g: Graph<V>, root: NodeId, n: NodeId)
    requires n in g
  {
    n == root || g[n].Completes() || |g[n].next| > 1
  }

  /** The node at `s` neither completes nor branches. */
  ghost predicate Bare<V>(g: Graph<V>, ps: map<string, NodeId>, s: string)
  {
    s in ps && ps[s] in g && g[ps[s]].value.None? && |g[ps[s]].next| <= 1
  }

  /**
   * The do-while loop of `remove`: from the completing node of `input`, climbs to the first
   * ancestor that is used for other strings; it is at `input[..j]`, and every node strictly
   * between the two is bare.
   */
  method ClimbToUsed<V>(g: Graph<V>, ghost ps: map<string, NodeId>, root: NodeId, input: string, nodeToRemove: NodeId)
    returns (last: NodeId, j: int)
    requires Tree(g, ps) && ps[""] == root && input in ps && ps[input] == nodeToRemove && input != []
    ensures 0 <= j < |input| && input[..j] in ps && ps[input[..j]] == last
    ensures IsUsedForOtherStrings(g, root, last)
    ensures forall k | j < k < |input| :: Bare(g, ps, input[..k])
  {
    assert input[..|input|] == input;
    PrefixClosed(g, ps, input, input[..|input| - 1]);
    PrefixStep(input, input[..|input| - 1]);
    j := |input| - 1;
    last := g[nodeToRemove].previous.value;
    while !IsUsedForOtherStrings(g, root, last)
      invariant 0 <= j < |input| && input[..j] in ps && ps[input[..j]] == last
      invariant forall k | j < k < |input| :: Bare(g, ps, input[..k])
      decreases j
    {
      ChildrenInTable(g, ps, input[..j]);
      IsRootOnlyAtRoot(g, ps, input[..j]);
      assert j > 0;
      PrefixClosed(g, ps, input, input[..j - 1]);
      PrefixStep(input[..j], input[..j - 1]);
      assert input[..j][..j - 1] == input[..j - 1];
      last := g[last].previous.value;
      j := j - 1;
    }
  }

  /** A set with at most one element holds no two different ones. */
  lemma AtMostOne<T>(s: set<T>, a: T, b: T)
    requires |s| <= 1 && a in s && b in s
    ensures a == b
  {
    if a != b {
      SubsetCard({a, b}, s);
    }
  }

  /**
   * A term at or below `input[..k]` extends `input` when every node from `input[..k]` down to,
   * but excluding, `input` is bare: it cannot stop at a node that does not complete, and it cannot
   * leave the path at a node with a single child.
   */
  lemma {:induction false} ExtendsInput<V>(g: Graph<V>, ps: map<string, NodeId>, input: string, j: int, k: int, t: string)
    requires Tree(g, ps) && input in ps && t in ps && g[ps[t]].value.Some?
    requires 0 <= j < k <= |input| && input[..k] <= t
    requires forall i | j < i < |input| :: Bare(g, ps, input[..i])
    ensures input <= t
    decreases |input| - k
  {
    if k == |input| {
      assert input[..k] == input;
    } else {
      assert Bare(g, ps, input[..k]);
      assert t != input[..k];
      ChildOnPath(g, ps, input[..k], t);
      ChildOnPath(g, ps, input[..k], input);
      assert input[..k + 1] == input[..k] + [input[k]];
      assert t[..k + 1] == input[..k] + [t[k]];
      AtMostOne(g[ps[input[..k]]].next, ps[t[..k + 1]], ps[input[..k + 1]]);
      Injective(g, ps, t[..k + 1], input[..k + 1]);
      ExtendsInput(g, ps, input, j, k + 1, t);
    }
  }

  /**
   * `g` and `ps` are what unlinking the child at `input[..j + 1]` from the node at `input[..j]`
   * makes of the tree `ps0` of `g0`: the child is dropped from its parent's children, and the
   * paths that run through it are dropped from the tree.
   */
  ghost predicate Unlinked<V>(g0: Graph<V>, ps0: map<string, NodeId>, input: string, j: int,
                              g: Graph<V>, ps: map<string, NodeId>)
  {
    && Tree(g0, ps0) && input in ps0 && 0 <= j < |input| && input[..j] in ps0
    && g0[ps0[input[..j]]].next <= g0.Keys
    && g == RemoveNextNode(g0, ps0[input[..j]], [input[j]])
    && ps == Pruned(ps0, input[..j + 1])
  }

  /**
   * Unlinking, as `remove` does it, leaves the tree of the paths that do not run through the
   * unlinked child; its parent loses that child and no other.
   */
  lemma UnlinkTree<V>(g0: Graph<V>, ps0: map<string, NodeId>, input: string, j: int, g: Graph<V>, ps: map<string, NodeId>)
    requires Unlinked(g0, ps0, input, j, g, ps)
    ensures Tree(g, ps) && input[..j] in ps && ps[input[..j]] == ps0[input[..j]] && ps[""] == ps0[""]
    ensures input[..j + 1] in ps0 && g[ps0[input[..j]]].next == g0[ps0[input[..j]]].next - {ps0[input[..j + 1]]}
  {
    UnlinkParent(g0, ps0, input, j, g, ps);
    assert !(input[..j + 1] <= input[..j]) && !(input[..j + 1] <= []);
    UnlinkUp(g0, ps0, input, j, g, ps);
    UnlinkDown(g0, ps0, input, j, g, ps);
  }

  /** The parent of the unlinked child loses that child and keeps every other. */
  lemma UnlinkParent<V>(g0: Graph<V>, ps0: map<string, NodeId>, input: string, j: int, g: Graph<V>, ps: map<string, NodeId>)
    requires Unlinked(g0, ps0, input, j, g, ps)
    ensures input[..j + 1] == input[..j] + [input[j]] && input[..j + 1] in ps0
    ensures ps0[input[..j + 1]] in g0[ps0[input[..j]]].next
    ensures g[ps0[input[..j]]].next == g0[ps0[input[..j]]].next - {ps0[input[..j + 1]]}
  {
    var cut := input[..j + 1];
    var last := ps0[input[..j]];
    PrefixClosed(g0, ps0, input, cut);
    PrefixStep(input, input[..j]);
    var child := ps0[cut];
    assert child in g0[last].next && g0[child].str == [input[j]];
    forall c | c in g0[last].next
      ensures c in g[last].next <==> c != child
    {
      if g0[c].str == [input[j]] {
        ChildrenUniqueByString(g0, ps0, input[..j], c, child);
      }
    }
  }

  /** After unlinking, every path of the tree still hangs from its parent path. */
  lemma UnlinkUp<V>(g0: Graph<V>, ps0: map<string, NodeId>, input: string, j: int, g: Graph<V>, ps: map<string, NodeId>)
    requires Unlinked(g0, ps0, input, j, g, ps)
    requires input[..j + 1] == input[..j] + [input[j]] && input[..j + 1] in ps0
    requires g[ps0[input[..j]]].next == g0[ps0[input[..j]]].next - {ps0[input[..j + 1]]}
    ensures forall s | s in ps :: ps[s] in g
    ensures forall s, x {:trigger s + [x] in ps} | s + [x] in ps :: s in ps && Linked(g, ps, s, x)
  {
    var cut := input[..j + 1];
    var last := ps0[input[..j]];
    var child := ps0[cut];
    forall s, x | s + [x] in ps
      ensures s in ps && Linked(g, ps, s, x)
    {
      assert s + [x] in ps0;
      assert (s + [x])[..|s|] == s;
      if ps0[s] == last && ps0[s + [x]] == child {
        Injective(g0, ps0, s, input[..j]);
        Injective(g0, ps0, s + [x], cut);
      }
    }
  }

  /** After unlinking, every child link left leads to a path of the tree. */
  lemma UnlinkDown<V>(g0: Graph<V>, ps0: map<string, NodeId>, input: string, j: int, g: Graph<V>, ps: map<string, NodeId>)
    requires Unlinked(g0, ps0, input, j, g, ps)
    requires input[..j + 1] == input[..j] + [input[j]] && input[..j + 1] in ps0
    requires g[ps0[input[..j]]].next == g0[ps0[input[..j]]].next - {ps0[input[..j + 1]]}
    ensures forall s, c {:trigger c in g[ps[s]].next} | s in ps && c in g[ps[s]].next ::
              c in g && |g[c].str| == 1 && s + g[c].str in ps && ps[s + g[c].str] == c
  {
    var cut := input[..j + 1];
    forall s, c | s in ps && c in g[ps[s]].next
      ensures c in g && |g[c].str| == 1 && s + g[c].str in ps && ps[s + g[c].str] == c
    {
      assert c in g0[ps0[s]].next;
      assert s + g0[c].str in ps0;
      NotThroughCut(g0, ps0, input, j, g, ps, s, c);
    }
  }

  /** A child link left after unlinking never leads into the unlinked part. */
  lemma NotThroughCut<V>(g0: Graph<V>, ps0: map<string, NodeId>, input: string, j: int, g: Graph<V>, ps: map<string, NodeId>,
                         s: string, c: NodeId)
    requires Unlinked(g0, ps0, input, j, g, ps)
    requires input[..j + 1] == input[..j] + [input[j]] && input[..j + 1] in ps0
    requires g[ps0[input[..j]]].next == g0[ps0[input[..j]]].next - {ps0[input[..j + 1]]}
    requires s in ps && c in g[ps[s]].next
    ensures c in g0[ps0[s]].next && s + g0[c].str in ps0 && !(input[..j + 1] <= s + g0[c].str)
  {
    var cut := input[..j + 1];
    assert c in g0[ps0[s]].next;
    var t := s + g0[c].str;
    assert t in ps0 && |t| == |s| + 1;
    if |s| >= |cut| {
      assert !(cut <= s);
      assert t[..|cut|] == s[..|cut|];
    } else if s == input[..j] {
      assert c != ps0[cut];
      assert ps0[t] == c;
    }
  }

  /** Unlinking changes no depth, so nodes off the way down to the parent keep their invariant. */
  lemma UnlinkDepths<V>(g0: Graph<V>, ps0: map<string, NodeId>, input: string, j: int, g: Graph<V>, ps: map<string, NodeId>)
    requires Unlinked(g0, ps0, input, j, g, ps) && DepthsOk(g0, ps0)
    requires Tree(g, ps) && input[..j] in ps && ps[input[..j]] == ps0[input[..j]]
    ensures forall s {:trigger DepthOk(g, ps[s])} | s in ps && ps[s] !in Chain(ps, input[..j]) :: DepthOk(g, ps[s])
  {
    ChainStable(g, ps, ps0, input[..j]);
    forall s | s in ps && ps[s] !in Chain(ps, input[..j])
      ensures DepthOk(g, ps[s])
    {
      assert ps[s] == ps0[s] && DepthOk(g0, ps0[s]);
      DepthOkFrame(g0, g, ps0[s]);
    }
  }

  /**
   * Unlinking below a node that is the root, completes or branches leaves no incomplete leaf: a
   * branching parent keeps another child.
   */
  lemma UnlinkLeaves<V>(g0: Graph<V>, ps0: map<string, NodeId>, root: NodeId, input: string, j: int,
                        g: Graph<V>, ps: map<string, NodeId>)
    requires Unlinked(g0, ps0, input, j, g, ps) && LeavesComplete(g0, ps0) && ps0[""] == root
    requires IsUsedForOtherStrings(g0, root, ps0[input[..j]])
    requires Tree(g, ps) && input[..j + 1] in ps0
    requires g[ps0[input[..j]]].next == g0[ps0[input[..j]]].next - {ps0[input[..j + 1]]}
    ensures LeavesComplete(g, ps)
  {
    var last := ps0[input[..j]];
    forall s | s in ps && s != [] && g[ps[s]].next == {}
      ensures g[ps[s]].value.Some?
    {
      assert ps[s] == ps0[s];
      if ps[s] == last && g0[last].value.None? {
        IsRootOnlyAtRoot(g0, ps0, s);
        assert |g0[last].next| > 1;
        SubsetCard(g0[last].next, {ps0[input[..j + 1]]});
      }
    }
  }

  /**
   * When every node from `input[..j + 1]` down to, but excluding, `input` is bare, unlinking
   * drops exactly `input` and the terms that extend it; the others keep their values.
   */
  lemma UnlinkContents<V>(g0: Graph<V>, ps0: map<string, NodeId>, contents0: map<string, V>, input: string, j: int,
                          g: Graph<V>, ps: map<string, NodeId>, contents: map<string, V>)
    requires Unlinked(g0, ps0, input, j, g, ps) && Represents(g0, ps0, contents0)
    requires forall k | j < k < |input| :: Bare(g0, ps0, input[..k])
    requires contents == Pruned(contents0, input)
    ensures Represents(g, ps, contents)
    ensures forall n | n in g :: n in g0 && g[n].value == g0[n].value
  {
    assert input[..j + 1] <= input;
    forall t | t in contents0 && input[..j + 1] <= t
      ensures input <= t
    {
      ExtendsInput(g0, ps0, input, j, j + 1, t);
    }
  }

  /**
   * Unlinking the child at `input[..j + 1]` from the node at `input[..j]`, found by the climb of
   * `remove`, leaves the tree of the paths that do not run through that child; it represents the
   * old terms except `input` and its extensions, and only depths on the way up to the parent may
   * be wrong.
   */
  lemma Unlink<V>(g0: Graph<V>, ps0: map<string, NodeId>, root: NodeId, contents0: map<string, V>,
                  input: string, j: int, g: Graph<V>, ps: map<string, NodeId>, contents: map<string, V>)
    requires WellFormed(g0, ps0) && ps0[""] == root && Represents(g0, ps0, contents0) && input in ps0
    requires 0 <= j < |input| && input[..j] in ps0 && IsUsedForOtherStrings(g0, root, ps0[input[..j]])
    requires forall k | j < k < |input| :: Bare(g0, ps0, input[..k])
    requires g0[ps0[input[..j]]].next <= g0.Keys && g == RemoveNextNode(g0, ps0[input[..j]], [input[j]])
    requires ps == Pruned(ps0, input[..j + 1])
    requires contents == Pruned(contents0, input)
    ensures Tree(g, ps) && input[..j] in ps && ps[input[..j]] == ps0[input[..j]] && ps[""] == root
    ensures forall s {:trigger DepthOk(g, ps[s])} | s in ps && ps[s] !in Chain(ps, input[..j]) :: DepthOk(g, ps[s])
    ensures LeavesComplete(g, ps) && Represents(g, ps, contents)
    ensures forall n | n in g :: n in g0 && g[n].value == g0[n].value
  {
    assert Unlinked(g0, ps0, input, j, g, ps);
    UnlinkTree(g0, ps0, input, j, g, ps);
    UnlinkDepths(g0, ps0, input, j, g, ps);
    UnlinkLeaves(g0, ps0, root, input, j, g, ps);
    UnlinkContents(g0, ps0, contents0, input, j, g, ps, contents);
  }

  /** The link between the node at `s + [x]` and its parent, as the tree invariant states it. */
  ghost predicate Linked<V>(g: Graph<V>, ps: map<string, NodeId>, s: string, x: char)
    requires s in ps && s + [x] in ps && ps[s] in g && ps[s + [x]] in g
  {
    && g[ps[s + [x]]].str == [x]
    && g[ps[s + [x]]].previous == Some(ps[s])
    && ps[s + [x]] in g[ps[s]].next
  }

  /**
   * What holds after `i` characters of `input` have been walked by `put`: `cur` is the path of
   * `current`, the paths of the old trie keep their nodes, every node added lies on the walked
   * path and has a fresh reference, values agree with `contents0` except that `input` completes
   * with `value` once reached, and the depth invariant and the leaf invariant hold off the path.
   */
  ghost predicate Descending<V>(input: string, value: V, i: int, g: Graph<V>, ps: map<string, NodeId>, nid: NodeId,
                                cur: string, current: NodeId, previousValue: Option<V>,
                                root: NodeId, ps0: map<string, NodeId>, contents0: map<string, V>)
  {
    && DescShape(input, i, g, ps, nid, cur, current, root, ps0)
    && DescTerm(input, value, i, g, ps, nid, cur, current, previousValue, root, ps0, contents0)
    && DescOthers(input, i, g, ps, nid, cur, current, root, ps0, contents0)
    && DescDepths(g, ps, cur)
  }

  /** The shape part of the walk invariant of `put`: the tree grows only along the walked path. */
  ghost predicate DescShape<V>(input: string, i: int, g: Graph<V>, ps: map<string, NodeId>, nid: NodeId,
                               cur: string, current: NodeId, root: NodeId, ps0: map<string, NodeId>)
  {
    && 0 <= i <= |input| && input != []
    && cur <= input && cur in ps && ps[cur] == current
    && (i < |input| ==> |cur| == i)
    && Tree(g, ps)
    && (forall n | n in g :: n < nid)
    && (forall s | s in ps0 :: s in ps && ps[s] == ps0[s])
    && (forall s | s in ps && s !in ps0 :: s != [] && ps[s] in Chain(ps, cur))
    && ps[""] == root
  }

  /** The part of the walk invariant of `put` about `input` itself and the value it had. */
  ghost predicate DescTerm<V>(input: string, value: V, i: int, g: Graph<V>, ps: map<string, NodeId>, nid: NodeId,
                              cur: string, current: NodeId, previousValue: Option<V>,
                              root: NodeId, ps0: map<string, NodeId>, contents0: map<string, V>)
    requires DescShape(input, i, g, ps, nid, cur, current, root, ps0)
  {
    && (i == |input| ==>
        || (cur == input && g[ps[input]].value == Some(value))
        || (cur == input[..|input| - 1] && input in ps && g[ps[input]].value == Some(value) && g[current].next != {}))
    && (i < |input| && input in ps ==> g[ps[input]].value == if input in contents0 then Some(contents0[input]) else None)
    && previousValue == (if i == |input| && input in contents0 then Some(contents0[input]) else None)
  }

  /** The part of the walk invariant of `put` about every other path: old values, and the leaf invariant off the walked node. */
  ghost predicate DescOthers<V>(input: string, i: int, g: Graph<V>, ps: map<string, NodeId>, nid: NodeId,
                                cur: string, current: NodeId, root: NodeId, ps0: map<string, NodeId>, contents0: map<string, V>)
    requires DescShape(input, i, g, ps, nid, cur, current, root, ps0)
  {
    && (forall s | s in contents0 :: s in ps0)
    && g[root].value == None
    && (forall s | s in ps && s != input :: g[ps[s]].value == if s in contents0 then Some(contents0[s]) else None)
    && (forall s | s in ps && s != [] && s != cur && g[ps[s]].next == {} :: g[ps[s]].value.Some?)
  }

  /** The depth part of the walk invariant of `put`: depths are right off the way down to `cur`. */
  ghost predicate DescDepths<V>(g: Graph<V>, ps: map<string, NodeId>, cur: string)
    requires Tree(g, ps)
  {
    forall s {:trigger DepthOk(g, ps[s])} | s in ps && ps[s] !in Chain(ps, cur) :: DepthOk(g, ps[s])
  }

  /**
   * The loop of `put`: walks down `input`, creating the nodes that are missing and storing
   * `value` at its end; only the depths along the walked path are left to repair.
   */
  method PutWalk<V>(g0: Graph<V>, ghost ps0: map<string, NodeId>, root: NodeId, nid0: NodeId,
                    input: string, value: V, ghost contents0: map<string, V>)
    returns (g: Graph<V>, ghost ps: map<string, NodeId>, nid: NodeId, current: NodeId, ghost cur: string,
             previousValue: Option<V>)
    requires WellFormed(g0, ps0) && ps0[""] == root && g0[root].value == None
    requires Represents(g0, ps0, contents0) && (forall n | n in g0 :: n < nid0) && input != []
    ensures Tree(g, ps) && ps[""] == root && g[root].value == None && (forall n | n in g :: n < nid)
    ensures cur in ps && ps[cur] == current
    ensures forall s {:trigger DepthOk(g, ps[s])} | s in ps && ps[s] !in Chain(ps, cur) :: DepthOk(g, ps[s])
    ensures LeavesComplete(g, ps) && Represents(g, ps, contents0[input := value])
    ensures previousValue == if input in contents0 then Some(contents0[input]) else None
  {
    g, ps, nid, current, cur, previousValue := g0, ps0, nid0, root, [], None;
    assert forall s {:trigger DepthOk(g, ps[s])} | s in ps :: DepthOk(g, ps[s]);
    for i := 0 to |input|
      invariant Descending(input, value, i, g, ps, nid, cur, current, previousValue, root, ps0, contents0)
    {
      g, ps, nid, current, cur, previousValue :=
        PutStep(input, value, i, g, ps, nid, cur, current, previousValue, root, ps0, contents0);
    }
    PutComplete(input, value, g, ps, nid, cur, current, previousValue, root, ps0, contents0);
  }

  /** One turn of the loop of `put`: follow or create the child for `input[i]`. */
  method PutStep<V>(input: string, value: V, i: int, g: Graph<V>, ghost ps: map<string, NodeId>, nid: NodeId,
                    ghost cur: string, current: NodeId, previousValue: Option<V>,
                    ghost root: NodeId, ghost ps0: map<string, NodeId>, ghost contents0: map<string, V>)
    returns (g': Graph<V>, ghost ps': map<string, NodeId>, nid': NodeId, current': NodeId, ghost cur': string,
             previousValue': Option<V>)
    requires i < |input|
    requires Descending(input, value, i, g, ps, nid, cur, current, previousValue, root, ps0, contents0)
    ensures Descending(input, value, i + 1, g', ps', nid', cur', current', previousValue', root, ps0, contents0)
  {
    var currentCharacter := [input[i]];
    ChildrenInTable(g, ps, cur);
    var nextMatchingNode := GetNextNode(g, current, currentCharacter);
    g', ps', nid', current', cur', previousValue' := g, ps, nid, current, cur, previousValue;
    if nextMatchingNode.None? {
      g', ps', nid', current', cur' := PutGrow(input, value, i, g, ps, nid, cur, current, previousValue, root, ps0, contents0);
    } else if i == |input| - 1 {
      g', previousValue' := PutFinish(input, value, g, ps, nid, cur, current, nextMatchingNode.value, root, ps0, contents0);
    } else {
      PrefixStep(input, cur);
      assert cur + currentCharacter in ps && ps[cur + currentCharacter] == nextMatchingNode.value;
      assert Chain(ps, cur + currentCharacter) == {nextMatchingNode.value} + Chain(ps, cur);
      current' := nextMatchingNode.value;
      cur' := cur + currentCharacter;
    }
  }

  /** The turn of `put` that finds no child for `input[i]` and links a new one. */
  method PutGrow<V>(input: string, value: V, i: int, g: Graph<V>, ghost ps: map<string, NodeId>, nid: NodeId,
                    ghost cur: string, current: NodeId, previousValue: Option<V>,
                    ghost root: NodeId, ghost ps0: map<string, NodeId>, ghost contents0: map<string, V>)
    returns (g': Graph<V>, ghost ps': map<string, NodeId>, nid': NodeId, current': NodeId, ghost cur': string)
    requires i < |input|
    requires Descending(input, value, i, g, ps, nid, cur, current, previousValue, root, ps0, contents0)
    requires forall c | c in g[current].next :: g[c].str != [input[i]]
    ensures Descending(input, value, i + 1, g', ps', nid', cur', current', previousValue, root, ps0, contents0)
  {
    var currentCharacter := [input[i]];
    PrefixStep(input, cur);
    var valueToInsert := if i == |input| - 1 then Some(value) else None;
    var nextNode := TrieNode(currentCharacter, valueToInsert, |input| - i - 1, {}, Some(current));
    g' := AddNextNode(g, current, nid)[nid := nextNode];
    ps' := ps[cur + currentCharacter := nid];
    LinkLeaf(g, ps, cur, nid, nextNode, g', ps');
    GrowDepths(g, ps, cur, nid, nextNode, g', ps');
    GrowShape(input, i, g, ps, nid, cur, current, root, ps0, nextNode, g', ps');
    GrowTerm(input, value, i, g, ps, nid, cur, current, previousValue, root, ps0, contents0, nextNode, g', ps');
    GrowOthers(input, value, i, g, ps, nid, cur, current, root, ps0, contents0, nextNode, g', ps');
    nid' := nid + 1;
    current' := nid;
    cur' := cur + currentCharacter;
  }

  /** Linking the new node for `input[i]` extends the walked path by that node. */
  lemma GrowShape<V>(input: string, i: int, g: Graph<V>, ps: map<string, NodeId>, nid: NodeId,
                     cur: string, current: NodeId, root: NodeId, ps0: map<string, NodeId>,
                     node: TrieNode<V>, g': Graph<V>, ps': map<string, NodeId>)
    requires i < |input| && DescShape(input, i, g, ps, nid, cur, current, root, ps0)
    requires node.str == [input[i]] && g' == AddNextNode(g, current, nid)[nid := node] && ps' == ps[cur + node.str := nid]
    requires Tree(g', ps') && cur + node.str !in ps
    requires Chain(ps', cur + node.str) == {nid} + Chain(ps, cur)
    ensures DescShape(input, i + 1, g', ps', nid + 1, cur + node.str, nid, root, ps0)
  {
    PrefixStep(input, cur);
    forall s | s in ps' && s !in ps0
      ensures s != [] && ps'[s] in Chain(ps', cur + node.str)
    {
      if s in ps {
        assert ps'[s] == ps[s];
      }
    }
  }

  /** The new node for `input[i]` completes `input` with `value` when it is last, and nothing was stored before. */
  lemma GrowTerm<V>(input: string, value: V, i: int, g: Graph<V>, ps: map<string, NodeId>, nid: NodeId,
                    cur: string, current: NodeId, previousValue: Option<V>,
                    root: NodeId, ps0: map<string, NodeId>, contents0: map<string, V>,
                    node: TrieNode<V>, g': Graph<V>, ps': map<string, NodeId>)
    requires i < |input| && DescShape(input, i, g, ps, nid, cur, current, root, ps0)
    requires DescTerm(input, value, i, g, ps, nid, cur, current, previousValue, root, ps0, contents0)
    requires forall s | s in contents0 :: s in ps0
    requires node == TrieNode([input[i]], if i == |input| - 1 then Some(value) else None, |input| - i - 1, {}, Some(current))
    requires g' == AddNextNode(g, current, nid)[nid := node] && ps' == ps[cur + node.str := nid]
    requires cur + node.str !in ps
    requires DescShape(input, i + 1, g', ps', nid + 1, cur + node.str, nid, root, ps0)
    ensures DescTerm(input, value, i + 1, g', ps', nid + 1, cur + node.str, nid, previousValue, root, ps0, contents0)
  {
    PrefixStep(input, cur);
    assert cur + node.str !in contents0;
  }

  /** Linking the new node for `input[i]` keeps the values of all other paths, and the leaf invariant. */
  lemma GrowOthers<V>(input: string, value: V, i: int, g: Graph<V>, ps: map<string, NodeId>, nid: NodeId,
                      cur: string, current: NodeId, root: NodeId, ps0: map<string, NodeId>, contents0: map<string, V>,
                      node: TrieNode<V>, g': Graph<V>, ps': map<string, NodeId>)
    requires i < |input| && DescShape(input, i, g, ps, nid, cur, current, root, ps0)
    requires DescOthers(input, i, g, ps, nid, cur, current, root, ps0, contents0)
    requires node == TrieNode([input[i]], if i == |input| - 1 then Some(value) else None, |input| - i - 1, {}, Some(current))
    requires g' == AddNextNode(g, current, nid)[nid := node] && ps' == ps[cur + node.str := nid]
    requires cur + node.str !in ps
    requires DescShape(input, i + 1, g', ps', nid + 1, cur + node.str, nid, root, ps0)
    ensures DescOthers(input, i + 1, g', ps', nid + 1, cur + node.str, nid, root, ps0, contents0)
  {
    GrowOldValues(input, value, i, g, ps, nid, cur, current, root, ps0, contents0, node, g', ps');
    GrowLeaves(input, value, i, g, ps, nid, cur, current, root, ps0, contents0, node, g', ps');
  }

  /** A node that gains a child is no leaf any more, and the new leaf is the walked node. */
  lemma GrowLeaves<V>(input: string, value: V, i: int, g: Graph<V>, ps: map<string, NodeId>, nid: NodeId,
                      cur: string, current: NodeId, root: NodeId, ps0: map<string, NodeId>, contents0: map<string, V>,
                      node: TrieNode<V>, g': Graph<V>, ps': map<string, NodeId>)
    requires i < |input| && DescShape(input, i, g, ps, nid, cur, current, root, ps0)
    requires DescOthers(input, i, g, ps, nid, cur, current, root, ps0, contents0)
    requires node == TrieNode([input[i]], if i == |input| - 1 then Some(value) else None, |input| - i - 1, {}, Some(current))
    requires g' == AddNextNode(g, current, nid)[nid := node] && ps' == ps[cur + node.str := nid]
    requires cur + node.str !in ps
    ensures forall s | s in ps' && s != [] && s != cur + node.str && ps'[s] in g' && g'[ps'[s]].next == {} :: g'[ps'[s]].value.Some?
  {
    assert nid in g'[current].next;
    forall s | s in ps' && s != [] && s != cur + node.str && ps'[s] in g' && g'[ps'[s]].next == {}
      ensures g'[ps'[s]].value.Some?
    {
      assert s in ps && ps'[s] == ps[s];
    }
  }

  /** The new node completes no path but `input`, so every other path keeps its value. */
  lemma GrowOldValues<V>(input: string, value: V, i: int, g: Graph<V>, ps: map<string, NodeId>, nid: NodeId,
                         cur: string, current: NodeId, root: NodeId, ps0: map<string, NodeId>, contents0: map<string, V>,
                         node: TrieNode<V>, g': Graph<V>, ps': map<string, NodeId>)
    requires i < |input| && DescShape(input, i, g, ps, nid, cur, current, root, ps0)
    requires DescOthers(input, i, g, ps, nid, cur, current, root, ps0, contents0)
    requires node == TrieNode([input[i]], if i == |input| - 1 then Some(value) else None, |input| - i - 1, {}, Some(current))
    requires g' == AddNextNode(g, current, nid)[nid := node] && ps' == ps[cur + node.str := nid]
    requires cur + node.str !in ps
    ensures forall s | s in ps' && s != input && ps'[s] in g' :: g'[ps'[s]].value == if s in contents0 then Some(contents0[s]) else None
  {
    PrefixStep(input, cur);
    forall s | s in ps' && s != input && ps'[s] in g'
      ensures g'[ps'[s]].value == if s in contents0 then Some(contents0[s]) else None
    {
      if s in ps {
        assert ps'[s] == ps[s];
      }
    }
  }

  /** Linking a fresh leaf below the node at `p` keeps the depth invariant off the way down to the leaf. */
  lemma GrowDepths<V>(g: Graph<V>, ps: map<string, NodeId>, p: string, n: NodeId, node: TrieNode<V>,
                      g': Graph<V>, ps': map<string, NodeId>)
    requires Tree(g, ps) && p in ps && n !in g && |node.str| == 1 && p + node.str !in ps
    requires forall s | s in ps && s != p :: ps[s] != ps[p]
    requires g' == AddNextNode(g, ps[p], n)[n := node] && ps' == ps[p + node.str := n]
    requires forall s {:trigger DepthOk(g, ps[s])} | s in ps && ps[s] !in Chain(ps, p) :: DepthOk(g, ps[s])
    ensures Chain(ps', p + node.str) == {n} + Chain(ps, p)
    ensures forall s {:trigger DepthOk(g', ps'[s])} | s in ps' && ps'[s] !in Chain(ps', p + node.str) :: DepthOk(g', ps'[s])
  {
    var t := p + node.str;
    ChainStable(g, ps, ps', p);
    assert Parent(t) == p by {
      assert t[..|t| - 1] == p;
    }
    assert Chain(ps', t) == {n} + Chain(ps, p);
    forall s | s in ps' && ps'[s] !in Chain(ps', t)
      ensures DepthOk(g', ps'[s])
    {
      var x := ps[s];
      assert s in ps && x != ps[p] && x in g && ps'[s] == x;
      assert DepthOk(g, x);
      forall c | c in g[x].next
        ensures c in g' && g'[c].depth == g[c].depth
      {
        assert c in g;
      }
      DepthOkFrame(g, g', x);
    }
  }

  /**
   * Links the fresh leaf `node`, under the reference `n`, below the node at path `p`, where no
   * child carries its character yet: the tree grows by the path `p + node.str`.
   */
  lemma LinkLeaf<V>(g: Graph<V>, ps: map<string, NodeId>, p: string, n: NodeId, node: TrieNode<V>,
                    g': Graph<V>, ps': map<string, NodeId>)
    requires Linking(g, ps, p, n, node, g', ps')
    ensures Tree(g', ps') && p + node.str !in ps
    ensures forall s | s in ps && s != p :: ps[s] != ps[p]
  {
    LinkLeafUp(g, ps, p, n, node, g', ps');
    LinkLeafDown(g, ps, p, n, node, g', ps');
  }

  /** The situation of `LinkLeaf`. */
  ghost predicate Linking<V>(g: Graph<V>, ps: map<string, NodeId>, p: string, n: NodeId, node: TrieNode<V>,
                             g': Graph<V>, ps': map<string, NodeId>)
  {
    && Tree(g, ps) && p in ps && n !in g
    && node.previous == Some(ps[p]) && |node.str| == 1 && node.next == {}
    && (forall c | c in g[ps[p]].next :: g[c].str != node.str)
    && g' == AddNextNode(g, ps[p], n)[n := node] && ps' == ps[p + node.str := n]
  }

  /** After linking, every path hangs from its parent path. */
  lemma LinkLeafUp<V>(g: Graph<V>, ps: map<string, NodeId>, p: string, n: NodeId, node: TrieNode<V>,
                      g': Graph<V>, ps': map<string, NodeId>)
    requires Linking(g, ps, p, n, node, g', ps')
    ensures forall s, y {:trigger s + [y] in ps'} | s + [y] in ps' :: s in ps' && Linked(g', ps', s, y)
  {
    var x := node.str[0];
    assert node.str == [x];
    forall s, y | s + [y] in ps'
      ensures s in ps' && Linked(g', ps', s, y)
    {
      if s + [y] == p + node.str {
        assert s == (s + [y])[..|s|];
        assert p == (p + node.str)[..|p|];
      }
    }
  }

  /** After linking, every child link leads to a path of the tree, and the new path was not one. */
  lemma LinkLeafDown<V>(g: Graph<V>, ps: map<string, NodeId>, p: string, n: NodeId, node: TrieNode<V>,
                        g': Graph<V>, ps': map<string, NodeId>)
    requires Linking(g, ps, p, n, node, g', ps')
    ensures p + node.str !in ps
    ensures forall s | s in ps && s != p :: ps[s] != ps[p]
    ensures forall s, c {:trigger c in g'[ps'[s]].next} | s in ps' && c in g'[ps'[s]].next ::
              c in g' && |g'[c].str| == 1 && s + g'[c].str in ps' && ps'[s + g'[c].str] == c
  {
    var x := node.str[0];
    assert node.str == [x];
    forall s | s in ps && s != p
      ensures ps[s] != ps[p]
    {
      if ps[s] == ps[p] {
        Injective(g, ps, s, p);
      }
    }
    forall s, c | s in ps' && c in g'[ps'[s]].next
      ensures c in g' && |g'[c].str| == 1 && s + g'[c].str in ps' && ps'[s + g'[c].str] == c
    {
      if s != p + node.str && c != n {
        assert c in g[ps[s]].next;
      }
    }
  }

  /** The last turn of `put` when the node for `input` exists already: it takes `value`. */
  method PutFinish<V>(input: string, value: V, g: Graph<V>, ghost ps: map<string, NodeId>, nid: NodeId,
                      ghost cur: string, current: NodeId, nextMatchingNode: NodeId,
                      ghost root: NodeId, ghost ps0: map<string, NodeId>, ghost contents0: map<string, V>)
    returns (g': Graph<V>, previousValue': Option<V>)
    requires input != [] && Descending(input, value, |input| - 1, g, ps, nid, cur, current, None, root, ps0, contents0)
    requires nextMatchingNode in g[current].next && g[nextMatchingNode].str == [input[|input| - 1]]
    ensures Descending(input, value, |input|, g', ps, nid, cur, current, previousValue', root, ps0, contents0)
  {
    PrefixStep(input, cur);
    assert ps[input] == nextMatchingNode;
    previousValue' := g[nextMatchingNode].value;
    g' := g[nextMatchingNode := g[nextMatchingNode].(value := Some(value))];
    assert SameShapeButValues(g, g');
    TreeKeepsAcrossValues(g, g', ps);
    FinishDepths(g, g', ps, cur);
    FinishValues(input, value, g, ps, nid, cur, current, root, ps0, contents0, g');
  }

  /** Storing a value changes no depth. */
  lemma FinishDepths<V>(g: Graph<V>, g': Graph<V>, ps: map<string, NodeId>, cur: string)
    requires SameShapeButValues(g, g') && Tree(g, ps) && Tree(g', ps) && DescDepths(g, ps, cur)
    ensures DescDepths(g', ps, cur)
  {
    forall s | s in ps && ps[s] !in Chain(ps, cur)
      ensures DepthOk(g', ps[s])
    {
      assert DepthOk(g, ps[s]);
    }
  }

  /** Storing `value` at the node of `input` binds `input` to `value` and leaves every other value. */
  lemma FinishValues<V>(input: string, value: V, g: Graph<V>, ps: map<string, NodeId>, nid: NodeId,
                        cur: string, current: NodeId, root: NodeId, ps0: map<string, NodeId>, contents0: map<string, V>,
                        g': Graph<V>)
    requires input != [] && DescShape(input, |input| - 1, g, ps, nid, cur, current, root, ps0)
    requires DescTerm(input, value, |input| - 1, g, ps, nid, cur, current, None, root, ps0, contents0)
    requires DescOthers(input, |input| - 1, g, ps, nid, cur, current, root, ps0, contents0)
    requires input == cur + [input[|input| - 1]] && input in ps && ps[input] in g[current].next
    requires g' == g[ps[input] := g[ps[input]].(value := Some(value))]
    requires DescShape(input, |input|, g', ps, nid, cur, current, root, ps0)
    ensures DescTerm(input, value, |input|, g', ps, nid, cur, current, g[ps[input]].value, root, ps0, contents0)
    ensures DescOthers(input, |input|, g', ps, nid, cur, current, root, ps0, contents0)
  {
    forall s | s in ps && s != input
      ensures ps[s] != ps[input]
    {
      if ps[s] == ps[input] {
        Injective(g, ps, s, input);
      }
    }
  }

  /** `g'` differs from `g` at most in the values of nodes. */
  ghost predicate SameShapeButValues<V>(g: Graph<V>, g': Graph<V>)
  {
    && g'.Keys == g.Keys
    && forall n | n in g :: g'[n] == g[n].(value := g'[n].value)
  }

  /** The tree and the depths do not depend on values. */
  lemma TreeKeepsAcrossValues<V>(g: Graph<V>, g': Graph<V>, ps: map<string, NodeId>)
    requires SameShapeButValues(g, g') && Tree(g, ps)
    ensures Tree(g', ps)
  {
    forall s, x | s + [x] in ps
      ensures Linked(g', ps, s, x)
    {
      assert Linked(g, ps, s, x);
    }
  }

  /**
   * At the end of the walk of `put` the leaves all complete and the trie represents the old
   * contents with `input` bound to `value`.
   */
  lemma PutComplete<V>(input: string, value: V, g: Graph<V>, ps: map<string, NodeId>, nid: NodeId,
                       cur: string, current: NodeId, previousValue: Option<V>,
                       root: NodeId, ps0: map<string, NodeId>, contents0: map<string, V>)
    requires Descending(input, value, |input|, g, ps, nid, cur, current, previousValue, root, ps0, contents0)
    ensures LeavesComplete(g, ps)
    ensures Represents(g, ps, contents0[input := value])
  {
  }
}
