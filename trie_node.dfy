/**
 * The node of the Kotlin trie library (TrieNode.kt) and the shape every trie built from such nodes
 * keeps: a tree addressed by paths, children unique by character, every leaf completing a term, and
 * each node's `depth` equal to the length of the longest path below it.
 *
 * Nodes are mutable objects that point at their children and at their parent. They are modelled as
 * records in a table `Graph` indexed by `NodeId`: an id plays the part of an object reference, and
 * writing a field of a node replaces its record in the table. A ghost map `paths` names each node of
 * a trie by the string spelled from the root down to it; the predicates below relate the two.
 */
module TrieNodes {
  import opened Wrappers

  /** A reference to a node. */
  type NodeId = nat

  datatype TrieNode<V> = TrieNode(
    str: string,              // "" for the root, one character otherwise
    value: Option<V>,         // present iff the node completes a term
    depth: int,               // |str| + the largest depth among the children (0 if none)
    next: set<NodeId>,        // the children
    previous: Option<NodeId>) // the parent, None for the root
  {
    predicate IsRoot() {
      str == "" && previous == None
    }

    predicate Completes() {
      value.Some?
    }
  }

  /** The nodes reachable from some trie, by reference. */
  type Graph<V> = map<NodeId, TrieNode<V>>

  /** `next.firstOrNull { it.string == string }`: some child of `n` carrying `s`, if there is one. */
  method GetNextNode<V>(g: Graph<V>, n: NodeId, s: string) returns (r: Option<NodeId>)
    requires n in g && g[n].next <= g.Keys
    ensures r.Some? ==> r.value in g[n].next && g[r.value].str == s
    ensures r.None? ==> forall c | c in g[n].next :: g[c].str != s
  {
    if c :| c in g[n].next && g[c].str == s {
      r := Some(c);
    } else {
      r := None;
    }
  }

  /** `next.add(node)` on the node `n`: nothing else in the graph changes. */
  function AddNextNode<V>(g: Graph<V>, n: NodeId, node: NodeId): (g': Graph<V>)
    requires n in g
    ensures g'.Keys == g.Keys
    ensures g'[n].next == g[n].next + {node}
    ensures g'[n] == g[n].(next := g'[n].next)
    ensures forall m | m in g && m != n :: g'[m] == g[m]
  {
    g[n := g[n].(next := g[n].next + {node})]
  }

  /** `next.removeIf { it.string == string }` on the node `n`: nothing else in the graph changes. */
  function RemoveNextNode<V>(g: Graph<V>, n: NodeId, s: string): (g': Graph<V>)
    requires n in g && g[n].next <= g.Keys
    ensures g'.Keys == g.Keys
    ensures forall c | c in g[n].next :: c in g'[n].next <==> g[c].str != s
    ensures g'[n].next <= g[n].next
    ensures g'[n] == g[n].(next := g'[n].next)
    ensures forall m | m in g && m != n :: g'[m] == g[m]
  {
    g[n := g[n].(next := set c | c in g[n].next && g[c].str != s)]
  }

  /** The path of the parent of the node at path `s`. */
  function Parent(s: string): string
    requires s != []
  {
    s[..|s| - 1]
  }

  /**
   * `paths` addresses a tree in `g`: the root is at "", every other node is a child of the node at
   * its parent path and carries the last character of its path, and every child of a node sits at
   * the node's path extended by the child's string.
   */
  ghost predicate Tree<V>(g: Graph<V>, paths: map<string, NodeId>)
  {
    && "" in paths
    && (forall s | s in paths :: paths[s] in g)
    && g[paths[""]].str == "" && g[paths[""]].previous == None
    && (forall s, x {:trigger s + [x] in paths} | s + [x] in paths ::
          && s in paths
          && g[paths[s + [x]]].str == [x]
          && g[paths[s + [x]]].previous == Some(paths[s])
          && paths[s + [x]] in g[paths[s]].next)
    && (forall s, c {:trigger c in g[paths[s]].next} | s in paths && c in g[paths[s]].next ::
          c in g && |g[c].str| == 1 && s + g[c].str in paths && paths[s + g[c].str] == c)
  }

  /** `m` is what `maxOfOrNull { it.depth } ?: 0` gives over `children`, floored at 0. */
  ghost predicate IsMaxDepth<V>(g: Graph<V>, children: set<NodeId>, m: int)
  {
    && m >= 0
    && (forall c | c in children :: c in g && g[c].depth <= m)
    && (m > 0 ==> exists c | c in children :: c in g && g[c].depth == m)
  }

  /** The depth of `n` is its own length plus the largest depth among its children. */
  ghost predicate DepthOk<V>(g: Graph<V>, n: NodeId)
    requires n in g
  {
    IsMaxDepth(g, g[n].next, g[n].depth - |g[n].str|)
  }

  ghost predicate DepthsOk<V>(g: Graph<V>, paths: map<string, NodeId>)
  {
    forall s {:trigger DepthOk(g, paths[s])} | s in paths :: paths[s] in g && DepthOk(g, paths[s])
  }

  /** Every node other than the root either completes a term or has a child. */
  ghost predicate LeavesComplete<V>(g: Graph<V>, paths: map<string, NodeId>)
  {
    forall s | s in paths && s != [] && paths[s] in g && g[paths[s]].next == {} :: g[paths[s]].value.Some?
  }

  /** The shape every Kotlin trie keeps between operations. */
  ghost predicate WellFormed<V>(g: Graph<V>, paths: map<string, NodeId>)
  {
    Tree(g, paths) && DepthsOk(g, paths) && LeavesComplete(g, paths)
  }

  /** `contents` is the map of terms stored in the tree `paths` of `g`. */
  ghost predicate Represents<V>(g: Graph<V>, paths: map<string, NodeId>, contents: map<string, V>)
  {
    && (forall s | s in contents :: s in paths && paths[s] in g && g[paths[s]].value == Some(contents[s]))
    && (forall s | s in paths && paths[s] in g && g[paths[s]].value.Some? :: s in contents)
  }

  /** `g'` differs from `g` at most in the depths of nodes. */
  ghost predicate SameShape<V>(g: Graph<V>, g': Graph<V>)
  {
    && g'.Keys == g.Keys
    && forall n | n in g :: g'[n] == g[n].(depth := g'[n].depth)
  }

  /** A lone root with no children is a well-formed tree that stores nothing. */
  lemma RootOnly<V>(g: Graph<V>, r: NodeId)
    requires r in g && g[r] == TrieNode("", None, 0, {}, None)
    ensures WellFormed(g, map["" := r]) && Represents(g, map["" := r], map[])
  {
    assert DepthOk(g, r);
  }

  /** The tree, its leaves and the terms it stores do not depend on depths. */
  lemma ShapeKeepsTree<V>(g: Graph<V>, g': Graph<V>, paths: map<string, NodeId>)
    requires SameShape(g, g') && Tree(g, paths)
    ensures Tree(g', paths)
    ensures LeavesComplete(g, paths) ==> LeavesComplete(g', paths)
    ensures forall contents | Represents(g, paths, contents) :: Represents(g', paths, contents)
  {
    ShapeKeepsLinks(g, g', paths);
    ShapeKeepsTerms(g, g', paths);
  }

  /** The links between paths do not depend on depths. */
  lemma ShapeKeepsLinks<V>(g: Graph<V>, g': Graph<V>, paths: map<string, NodeId>)
    requires SameShape(g, g') && Tree(g, paths)
    ensures Tree(g', paths)
  {
    forall s, x | s + [x] in paths
      ensures paths[s + [x]] in g'[paths[s]].next
    {
      assert paths[s + [x]] in g[paths[s]].next;
    }
  }

  /** Which paths complete, and with which values, does not depend on depths. */
  lemma ShapeKeepsTerms<V>(g: Graph<V>, g': Graph<V>, paths: map<string, NodeId>)
    requires SameShape(g, g') && Tree(g, paths)
    ensures LeavesComplete(g, paths) ==> LeavesComplete(g', paths)
    ensures forall contents | Represents(g, paths, contents) :: Represents(g', paths, contents)
  {
  }

  /**
   * The depth invariant of `x` survives a change of the table that leaves `x` and the depths of
   * its children alone.
   */
  lemma DepthOkFrame<V>(g: Graph<V>, g': Graph<V>, x: NodeId)
    requires x in g && x in g' && g'[x] == g[x] && DepthOk(g, x)
    requires forall c | c in g[x].next :: c in g' && g'[c].depth == g[c].depth
    ensures DepthOk(g', x)
  {
    var m := g[x].depth - |g[x].str|;
    if m > 0 {
      var c :| c in g[x].next && c in g && g[c].depth == m;
      assert c in g' && g'[c].depth == m;
    }
  }

  /** The node at `p` and the one above it, as the tree links them. */
  lemma ParentLink<V>(g: Graph<V>, paths: map<string, NodeId>, p: string)
    requires Tree(g, paths) && p in paths
    ensures p == [] ==> g[paths[p]].previous == None
    ensures p != [] ==> && Parent(p) in paths && g[paths[p]].previous == Some(paths[Parent(p)])
                        && paths[p] in g[paths[Parent(p)]].next
                        && Chain(paths, p) == {paths[p]} + Chain(paths, Parent(p))
  {
    if p != [] {
      assert p == Parent(p) + [p[|p| - 1]];
    }
  }

  /** The children of the node at `p` are in the table, and lie below it, off the way down to it. */
  lemma ChildrenBelow<V>(g: Graph<V>, paths: map<string, NodeId>, p: string)
    requires Tree(g, paths) && p in paths
    ensures g[paths[p]].next <= g.Keys
    ensures forall c | c in g[paths[p]].next :: c !in Chain(paths, p)
  {
    forall c | c in g[paths[p]].next
      ensures c in g && c !in Chain(paths, p)
    {
      assert p + g[c].str in paths && paths[p + g[c].str] == c;
      ChainShorter(g, paths, p, p + g[c].str);
    }
  }

  /** Every prefix of a path in the tree is a path in the tree. */
  lemma {:induction false} PrefixClosed<V>(g: Graph<V>, paths: map<string, NodeId>, t: string, u: string)
    requires Tree(g, paths) && t in paths && u <= t
    ensures u in paths
    decreases |t|
  {
    if |u| < |t| {
      assert t == Parent(t) + [t[|t| - 1]];
      assert Parent(t) in paths;
      assert u <= Parent(t);
      PrefixClosed(g, paths, Parent(t), u);
    } else {
      assert u == t;
    }
  }

  /** No node of a tree sits at two paths: its string and its parent chain spell its path. */
  lemma {:induction false} Injective<V>(g: Graph<V>, paths: map<string, NodeId>, s: string, t: string)
    requires Tree(g, paths) && s in paths && t in paths && paths[s] == paths[t]
    ensures s == t
    decreases |s|
  {
    if s != [] {
      assert s == Parent(s) + [s[|s| - 1]];
    }
    if t != [] {
      assert t == Parent(t) + [t[|t| - 1]];
    }
    if s != [] && t != [] {
      Injective(g, paths, Parent(s), Parent(t));
    }
  }

  /** A node off the parent of `p` is neither the node at `p` nor its parent. */
  lemma OffPath<V>(g: Graph<V>, paths: map<string, NodeId>, s: string, p: string)
    requires Tree(g, paths) && s in paths && p in paths && s != p && (p == [] || s != Parent(p))
    ensures paths[s] != paths[p] && paths[p] !in g[paths[s]].next
  {
    if paths[s] == paths[p] {
      Injective(g, paths, s, p);
    }
    if paths[p] in g[paths[s]].next {
      var c := paths[p];
      assert paths[s + g[c].str] == c;
      Injective(g, paths, s + g[c].str, p);
    }
  }

  /** The parent of the node at `p` lies on the way down to `p`. */
  lemma ParentInChain<V>(g: Graph<V>, paths: map<string, NodeId>, s: string, p: string)
    requires Tree(g, paths) && s in paths && p in paths && paths[p] in g[paths[s]].next
    ensures paths[s] in Chain(paths, p)
  {
    var c := paths[p];
    assert paths[s + g[c].str] == c;
    Injective(g, paths, s + g[c].str, p);
    assert p == s + g[c].str && Parent(p) == s;
    ParentLink(g, paths, p);
  }

  /** A node off the way down to `p` is not the parent of the node at `p`. */
  lemma OffChain<V>(g: Graph<V>, paths: map<string, NodeId>, s: string, p: string)
    requires Tree(g, paths) && s in paths && p in paths && paths[s] !in Chain(paths, p)
    ensures paths[p] !in g[paths[s]].next
  {
    if paths[p] in g[paths[s]].next {
      ParentInChain(g, paths, s, p);
    }
  }

  /** In a tree a node is the root exactly when it sits at the empty path. */
  lemma IsRootOnlyAtRoot<V>(g: Graph<V>, paths: map<string, NodeId>, s: string)
    requires Tree(g, paths) && s in paths
    ensures g[paths[s]].IsRoot() <==> s == []
  {
    if s != [] {
      assert s == Parent(s) + [s[|s| - 1]];
    }
  }

  /** Children of one node have pairwise different strings. */
  lemma ChildrenUniqueByString<V>(g: Graph<V>, paths: map<string, NodeId>, s: string, c: NodeId, d: NodeId)
    requires Tree(g, paths) && s in paths && c in g[paths[s]].next && d in g[paths[s]].next
    requires g[c].str == g[d].str
    ensures c == d
  {
    assert paths[s + g[c].str] == c && paths[s + g[d].str] == d;
  }

  /**
   * A node of a well-formed tree lies strictly deeper than each of its children, except the root,
   * which is at least as deep: the measure the searches use to terminate.
   */
  lemma ChildRankBelow<V>(g: Graph<V>, paths: map<string, NodeId>, s: string, c: NodeId)
    requires Tree(g, paths) && DepthsOk(g, paths) && s in paths && c in g[paths[s]].next
    ensures c in g && 2 * g[c].depth + 1 - |g[c].str| < 2 * g[paths[s]].depth + 1 - |g[paths[s]].str|
    ensures g[c].depth >= 1
  {
    assert DepthOk(g, paths[s]);
    assert s + g[c].str in paths && paths[s + g[c].str] == c;
    assert DepthOk(g, paths[s + g[c].str]);
  }

  /** The child of the node at `s` on the way down to the node at `t`. */
  lemma ChildOnPath<V>(g: Graph<V>, paths: map<string, NodeId>, s: string, t: string)
    requires Tree(g, paths) && t in paths && s < t
    ensures s in paths && t[..|s| + 1] in paths
    ensures paths[t[..|s| + 1]] in g[paths[s]].next && g[paths[t[..|s| + 1]]].str == [t[|s|]]
  {
    PrefixClosed(g, paths, t, t[..|s| + 1]);
    assert t[..|s| + 1] == s + [t[|s|]];
  }

  /** No path below a node is longer than its depth allows. */
  lemma {:induction false} DepthBound<V>(g: Graph<V>, paths: map<string, NodeId>, s: string, t: string)
    requires Tree(g, paths) && DepthsOk(g, paths) && s in paths && t in paths && s <= t
    ensures |t| - |s| + |g[paths[s]].str| <= g[paths[s]].depth
    decreases |t| - |s|
  {
    assert DepthOk(g, paths[s]);
    if s != t {
      ChildOnPath(g, paths, s, t);
      DepthBound(g, paths, t[..|s| + 1], t);
    }
  }

  /**
   * Some completing path below a node is exactly as long as its depth says (for the root this
   * needs a child): depths measure real terms, because every leaf completes.
   */
  lemma {:induction false} DepthWitness<V>(g: Graph<V>, paths: map<string, NodeId>, s: string)
    requires WellFormed(g, paths) && s in paths && (s != [] || g[paths[s]].next != {})
    ensures exists t | t in paths && s <= t :: g[paths[t]].value.Some? && |t| - |s| + |g[paths[s]].str| == g[paths[s]].depth
    decreases g[paths[s]].depth - |g[paths[s]].str|
  {
    var n := g[paths[s]];
    assert DepthOk(g, paths[s]);
    if n.depth - |n.str| == 0 {
      if c :| c in n.next {
        ChildRankBelow(g, paths, s, c);
        assert false;
      }
      assert g[paths[s]].value.Some?;
    } else {
      var c :| c in n.next && c in g && g[c].depth == n.depth - |n.str|;
      ChildRankBelow(g, paths, s, c);
      var u := s + g[c].str;
      assert u in paths && paths[u] == c && u != [];
      DepthWitness(g, paths, u);
      var t :| t in paths && u <= t && g[paths[t]].value.Some? && |t| - |u| + |g[c].str| == g[c].depth;
      assert s <= t;
    }
  }

  /** The nodes on the way from the root down to the node at `p`, both ends included. */
  ghost function Chain(paths: map<string, NodeId>, p: string): set<NodeId>
    decreases |p|
  {
    (if p in paths then {paths[p]} else {}) + (if p == [] then {} else Chain(paths, Parent(p)))
  }

  /** A node deeper than `p` is not on the way down to `p`. */
  lemma {:induction false} ChainShorter<V>(g: Graph<V>, paths: map<string, NodeId>, p: string, s: string)
    requires Tree(g, paths) && p in paths && s in paths && |s| > |p|
    ensures paths[s] !in Chain(paths, p)
    decreases |p|
  {
    if paths[s] == paths[p] {
      Injective(g, paths, s, p);
    }
    if p != [] {
      assert p == Parent(p) + [p[|p| - 1]];
      ChainShorter(g, paths, Parent(p), s);
    }
  }

  /** Growing the tree elsewhere leaves the way down to `p` as it was. */
  lemma {:induction false} ChainStable<V>(g: Graph<V>, paths: map<string, NodeId>, paths': map<string, NodeId>, p: string)
    requires Tree(g, paths) && p in paths
    requires forall t | t in paths :: t in paths' && paths'[t] == paths[t]
    ensures Chain(paths', p) == Chain(paths, p)
    decreases |p|
  {
    if p != [] {
      assert p == Parent(p) + [p[|p| - 1]];
      ChainStable(g, paths, paths', Parent(p));
    }
  }

  /** A subset of a finite set is no larger. */
  lemma {:induction false} SubsetCard<T>(a: set<T>, b: set<T>)
    requires a <= b
    ensures |a| <= |b|
    decreases |b|
  {
    if x :| x in b {
      SubsetCard(a - {x}, b - {x});
    }
  }
}
