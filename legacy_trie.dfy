/**
 * The older Java trie of the stock service (Trie.java): nodes are records holding a one-character
 * string, a value (null unless the node completes a term) and a mutable set of children. Insertion
 * keeps the value of a term stored before; removal unlinks the subtree below the deepest ancestor
 * still used by other terms; searches enumerate the terms below a prefix, or rank the terms that
 * contain a leading part of a query.
 *
 * As for the Kotlin trie, nodes live in a table indexed by `NodeId`, an id standing for an object
 * reference. The ghost map `paths` names each node of the trie by the string spelled from the
 * root down to it, and the ghost map `names` gives each node back its path: a Java node has no
 * parent pointer, and `names` is what records that no node hangs at two places.
 */
module LegacyTries {
  import opened Wrappers
  import TrieNodes
  import Walks
  import Tapestrie
  import Sorting

  type NodeId = TrieNodes.NodeId

  /** `record Node<T>(String string, T value, Set<Node<T>> next)`; only the set `next` ever changes. */
  datatype Node<V> = Node(
    str: string,        // "" for the root, one character otherwise
    value: Option<V>,   // present iff the node completes a term
    next: set<NodeId>)  // the children
  {
    predicate Completes() {
      value.Some?
    }
  }

  /** The nodes reachable from some trie, by reference. */
  type Table<V> = map<NodeId, Node<V>>

  /**
   * `paths` addresses a tree in `g`: the root is at "", every other node is a child of the node at
   * its parent path and carries the last character of its path, every child of a node sits at the
   * node's path extended by the child's string, and `names` maps each node back to its path.
   */
  ghost predicate Tree<V>(g: Table<V>, ps: map<string, NodeId>, names: map<NodeId, string>)
  {
    && "" in ps
    && (forall s | s in ps :: ps[s] in g && ps[s] in names && names[ps[s]] == s)
    && g[ps[""]].str == ""
    && (forall s, x {:trigger s + [x] in ps} | s + [x] in ps ::
          s in ps && g[ps[s + [x]]].str == [x] && ps[s + [x]] in g[ps[s]].next)
    && (forall s, c {:trigger c in g[ps[s]].next} | s in ps && c in g[ps[s]].next ::
          c in g && |g[c].str| == 1 && s + g[c].str in ps && ps[s + g[c].str] == c)
  }

  /** `contents` is the map of terms stored in the tree `ps` of `g`. */
  ghost predicate Stores<V>(g: Table<V>, ps: map<string, NodeId>, contents: map<string, V>)
  {
    && (forall s | s in contents :: s in ps && ps[s] in g && g[ps[s]].value == Some(contents[s]))
    && (forall s | s in ps && ps[s] in g && g[ps[s]].value.Some? :: s in contents)
  }

  /**
   * The state of a trie: a tree rooted at `root` whose completing nodes are exactly the terms of
   * `contents`, a root that never completes, and every reference in use below `nid`.
   */
  ghost predicate Inv<V>(g: Table<V>, ps: map<string, NodeId>, names: map<NodeId, string>, root: NodeId,
                         nid: NodeId, contents: map<string, V>)
  {
    && Tree(g, ps, names)
    && ps[""] == root && g[root].value == None
    && Stores(g, ps, contents)
    && (forall n | n in g :: n < nid)
  }

  /** A lone root with no children is a tree that stores nothing. */
  lemma RootOnly<V>(g: Table<V>, root: NodeId)
    requires g == map[root := Node("", None, {})]
    ensures Inv(g, map["" := root], map[root := ""], root, root + 1, map[])
  {
  }

  // ---------------------------------------------------------------------------------------------
  // Facts about trees

  /** The children of every node of the tree are in the table. */
  lemma ChildrenInTable<V>(g: Table<V>, ps: map<string, NodeId>, names: map<NodeId, string>, s: string)
    requires Tree(g, ps, names) && s in ps
    ensures ps[s] in g && g[ps[s]].next <= g.Keys
  {
    forall c | c in g[ps[s]].next
      ensures c in g
    {
    }
  }

  /** Every prefix of a path in the tree is a path in the tree. */
  lemma {:induction false} PrefixClosed<V>(g: Table<V>, ps: map<string, NodeId>, names: map<NodeId, string>,
                                           t: string, u: string)
    requires Tree(g, ps, names) && t in ps && u <= t
    ensures u in ps
    decreases |t|
  {
    if |u| < |t| {
      var p := t[..|t| - 1];
      assert t == p + [t[|t| - 1]];
      assert u <= p;
      PrefixClosed(g, ps, names, p, u);
    } else {
      assert u == t;
    }
  }

  /** The child of the node at `s` on the way down to the node at `t`. */
  lemma ChildOnPath<V>(g: Table<V>, ps: map<string, NodeId>, names: map<NodeId, string>, s: string, t: string)
    requires Tree(g, ps, names) && t in ps && s < t
    ensures s in ps && t[..|s| + 1] in ps
    ensures ps[t[..|s| + 1]] in g[ps[s]].next && g[ps[t[..|s| + 1]]].str == [t[|s|]]
  {
    PrefixClosed(g, ps, names, t, t[..|s| + 1]);
    assert t[..|s| + 1] == s + [t[|s|]];
  }

  /** Children of one node have pairwise different strings. */
  lemma ChildrenUniqueByString<V>(g: Table<V>, ps: map<string, NodeId>, names: map<NodeId, string>, s: string,
                                  c: NodeId, d: NodeId)
    requires Tree(g, ps, names) && s in ps && c in g[ps[s]].next && d in g[ps[s]].next
    requires g[c].str == g[d].str
    ensures c == d
  {
    assert ps[s + g[c].str] == c && ps[s + g[d].str] == d;
  }

  /** Two paths one character longer than `s` and `p` are equal only if they extend equal paths by equal characters. */
  lemma LastStep(s: string, y: char, p: string, x: char)
    requires s + [y] == p + [x]
    ensures s == p && y == x
  {
    assert s == (s + [y])[..|s|] && p == (p + [x])[..|p|];
  }

  /** When no child of the node at `p` carries `x`, no path of the tree extends `p` by `x`. */
  lemma MissingChild<V>(g: Table<V>, ps: map<string, NodeId>, names: map<NodeId, string>, p: string, x: char)
    requires Tree(g, ps, names) && p in ps
    requires forall c | c in g[ps[p]].next :: g[c].str != [x]
    ensures p + [x] !in ps
  {
  }

  /** A child carrying `x` of the node at `p` is the node at `p + [x]`. */
  lemma FoundChild<V>(g: Table<V>, ps: map<string, NodeId>, names: map<NodeId, string>, p: string, x: char,
                      c: NodeId)
    requires Tree(g, ps, names) && p in ps && c in g[ps[p]].next && g[c].str == [x]
    ensures p + [x] in ps && ps[p + [x]] == c
  {
    assert p + g[c].str in ps && ps[p + g[c].str] == c;
  }

  // ---------------------------------------------------------------------------------------------
  // Lookup

  /** `next().stream().filter(node -> node.string().equals(s)).findAny()` on the node `n`. */
  method FindAnyChild<V>(g: Table<V>, n: NodeId, s: string) returns (r: Option<NodeId>)
    requires n in g && g[n].next <= g.Keys
    ensures r.Some? ==> r.value in g[n].next && g[r.value].str == s
    ensures r.None? ==> forall c | c in g[n].next :: g[c].str != s
  {
    if c :| c in g[n].next && g[c].str == s {
      r := Some(c);
    } else {
      r := None;
    }
  }

  /**
   * `prefixMatchUpTo`: follows the characters of `s` from the root and gives the node at path
   * `s`, or None when it is missing.
   */
  method PrefixMatchUpTo<V>(g: Table<V>, ghost ps: map<string, NodeId>, ghost names: map<NodeId, string>,
                            root: NodeId, s: string) returns (r: Option<NodeId>)
    requires Tree(g, ps, names) && ps[""] == root
    ensures r.Some? <==> s in ps
    ensures r.Some? ==> r.value == ps[s]
  {
    var current := root;
    for i := 0 to |s|
      invariant s[..i] in ps && ps[s[..i]] == current
    {
      ChildrenInTable(g, ps, names, s[..i]);
      var nx := FindAnyChild(g, current, [s[i]]);
      Tapestrie.PrefixStep(s, s[..i]);
      if nx.None? {
        MissingChild(g, ps, names, s[..i], s[i]);
        NotBelowMissing(g, ps, names, s, i + 1);
        return None;
      }
      FoundChild(g, ps, names, s[..i], s[i], nx.value);
      current := nx.value;
    }
    assert s[..|s|] == s;
    r := Some(current);
  }

  /** A path whose prefix of length `k` is missing is missing itself. */
  lemma NotBelowMissing<V>(g: Table<V>, ps: map<string, NodeId>, names: map<NodeId, string>, s: string, k: int)
    requires Tree(g, ps, names) && 0 <= k <= |s| && s[..k] !in ps
    ensures s !in ps
  {
    if s in ps {
      PrefixClosed(g, ps, names, s, s[..k]);
    }
  }

  // ---------------------------------------------------------------------------------------------
  // Insertion

  /**
   * What `put(input, value)` makes of the stored terms: the empty input and a term stored before
   * leave them as they were; otherwise `input` is added with `value`.
   */
  ghost function PutContents<V>(contents: map<string, V>, input: string, value: V): map<string, V>
  {
    if input == [] || input in contents then contents else contents[input := value]
  }

  /**
   * `put`: walks `input` from the root one character at a time, creating the missing nodes, and
   * completes the last one with `value` unless it completes already.
   */
  method PutInto<V>(g0: Table<V>, ghost ps0: map<string, NodeId>, ghost names0: map<NodeId, string>, root: NodeId,
                    nid0: NodeId, ghost contents0: map<string, V>, input: string, value: V)
    returns (g: Table<V>, ghost ps: map<string, NodeId>, ghost names: map<NodeId, string>, nid: NodeId,
             ghost contents: map<string, V>)
    requires Inv(g0, ps0, names0, root, nid0, contents0)
    ensures Inv(g, ps, names, root, nid, contents)
    ensures contents == PutContents(contents0, input, value)
  {
    g, ps, names, nid, contents := g0, ps0, names0, nid0, contents0;
    var current := root;
    for i := 0 to |input|
      invariant Inv(g, ps, names, root, nid, contents)
      invariant input[..i] in ps && ps[input[..i]] == current
      invariant contents == if i < |input| then contents0 else PutContents(contents0, input, value)
    {
      g, ps, names, nid, contents, current := PutStep(input, value, i, g, ps, names, root, nid, contents, current);
    }
  }

  /**
   * One turn of the loop of `put`, for `input[i]`: a missing child is created (completing with
   * `value` when it is the last character); an existing last node that does not complete is
   * replaced by a completing copy that shares its children; otherwise the walk moves on.
   */
  method PutStep<V>(input: string, value: V, i: int, g: Table<V>, ghost ps: map<string, NodeId>,
                    ghost names: map<NodeId, string>, root: NodeId, nid: NodeId, ghost contents: map<string, V>,
                    current: NodeId)
    returns (g': Table<V>, ghost ps': map<string, NodeId>, ghost names': map<NodeId, string>, nid': NodeId,
             ghost contents': map<string, V>, current': NodeId)
    requires Inv(g, ps, names, root, nid, contents)
    requires 0 <= i < |input| && input[..i] in ps && ps[input[..i]] == current
    ensures Inv(g', ps', names', root, nid', contents')
    ensures input[..i + 1] in ps' && ps'[input[..i + 1]] == current'
    ensures contents' == if i + 1 < |input| then contents else PutContents(contents, input, value)
  {
    ghost var p := input[..i];
    var x := input[i];
    var reachedEndOfInput := i == |input| - 1;
    Tapestrie.PrefixStep(input, p);
    ChildrenInTable(g, ps, names, p);
    var nextMatchingNode := FindAnyChild(g, current, [x]);
    if nextMatchingNode.None? {
      MissingChild(g, ps, names, p, x);
      g', ps', names', nid', contents', current' := PutLink(input, value, i, g, ps, names, root, nid, contents, current);
    } else {
      var m := nextMatchingNode.value;
      FoundChild(g, ps, names, p, x, m);
      if reachedEndOfInput && g[m].value == None {
        g', ps', names', nid', contents', current' := PutSwap(input, value, i, g, ps, names, root, nid, contents, current, m);
      } else {
        g', ps', names', nid', contents', current' := g, ps, names, nid, contents, m;
      }
    }
  }

  /** `put` finds no child for `input[i]`: a new leaf for it, completing with `value` at the end of `input`. */
  method PutLink<V>(input: string, value: V, i: int, g: Table<V>, ghost ps: map<string, NodeId>,
                    ghost names: map<NodeId, string>, root: NodeId, nid: NodeId, ghost contents: map<string, V>,
                    current: NodeId)
    returns (g': Table<V>, ghost ps': map<string, NodeId>, ghost names': map<NodeId, string>, nid': NodeId,
             ghost contents': map<string, V>, current': NodeId)
    requires Inv(g, ps, names, root, nid, contents)
    requires 0 <= i < |input| && input[..i] in ps && ps[input[..i]] == current && input[..i + 1] !in ps
    requires input[..i + 1] == input[..i] + [input[i]] && (i + 1 == |input| ==> input == input[..i + 1])
    ensures Inv(g', ps', names', root, nid', contents')
    ensures input[..i + 1] in ps' && ps'[input[..i + 1]] == current'
    ensures contents' == if i + 1 < |input| then contents else PutContents(contents, input, value)
  {
    ghost var p := input[..i];
    var x := input[i];
    var reachedEndOfInput := i == |input| - 1;
    var node := Node([x], if reachedEndOfInput then Some(value) else None, {});
    g' := g[current := g[current].(next := g[current].next + {nid})][nid := node];
    ps', names', nid' := ps[p + [x] := nid], names[nid := p + [x]], nid + 1;
    contents' := if reachedEndOfInput then contents[input := value] else contents;
    current' := nid;
    LinkTree(g, ps, names, nid, p, x, node, g', ps', names');
    LinkStores(g, ps, names, nid, contents, p, x, node, g', ps', contents');
  }

  /**
   * `put` reaches the last character of `input` at the node `m`, which does not complete: a
   * completing copy of `m` that shares its children takes its place.
   */
  method PutSwap<V>(input: string, value: V, i: int, g: Table<V>, ghost ps: map<string, NodeId>,
                    ghost names: map<NodeId, string>, root: NodeId, nid: NodeId, ghost contents: map<string, V>,
                    current: NodeId, m: NodeId)
    returns (g': Table<V>, ghost ps': map<string, NodeId>, ghost names': map<NodeId, string>, nid': NodeId,
             ghost contents': map<string, V>, current': NodeId)
    requires Inv(g, ps, names, root, nid, contents)
    requires i == |input| - 1 && 0 <= i && input[..i] in ps && ps[input[..i]] == current
    requires input == input[..i] + [input[i]]
    requires m in g[current].next && g[m].str == [input[i]] && input in ps && ps[input] == m && g[m].value == None
    ensures Inv(g', ps', names', root, nid', contents')
    ensures input[..i + 1] in ps' && ps'[input[..i + 1]] == current'
    ensures contents' == PutContents(contents, input, value)
  {
    ghost var p := input[..i];
    var x := input[i];
    var completed := Node(g[m].str, Some(value), g[m].next);
    var kept := set c | c in g[current].next && g[c].str != g[m].str;
    g' := g[current := g[current].(next := kept + {nid})][nid := completed];
    ps', names', nid' := ps[input := nid], names[nid := input], nid + 1;
    contents' := contents[input := value];
    current' := nid;
    SwapTree(g, ps, names, nid, p, x, completed, g', ps', names');
    SwapStores(g, ps, names, nid, contents, p, x, completed, g', ps', contents');
    assert input[..i + 1] == input;
  }

  /** Linking a fresh leaf for `x` below the node at `p` extends the tree by the path `p + [x]`. */
  lemma LinkTree<V>(g: Table<V>, ps: map<string, NodeId>, names: map<NodeId, string>, nid: NodeId,
                    p: string, x: char, node: Node<V>, g': Table<V>, ps': map<string, NodeId>,
                    names': map<NodeId, string>)
    requires Tree(g, ps, names) && (forall n | n in g :: n < nid) && p in ps && p + [x] !in ps
    requires node.str == [x] && node.next == {}
    requires g' == g[ps[p] := g[ps[p]].(next := g[ps[p]].next + {nid})][nid := node]
    requires ps' == ps[p + [x] := nid] && names' == names[nid := p + [x]]
    ensures Tree(g', ps', names') && ps'[""] == ps[""] && g'[ps[""]].value == g[ps[""]].value
    ensures forall n | n in g' :: n < nid + 1
  {
    forall s | s in ps
      ensures ps'[s] == ps[s] && ps[s] != nid && (ps[s] == ps[p] ==> s == p)
    {
    }
    LinkUp(g, ps, names, nid, p, x, node, g', ps');
    LinkDown(g, ps, names, nid, p, x, node, g', ps');
  }

  /** After linking the leaf, every path of the tree still hangs from its parent path. */
  lemma LinkUp<V>(g: Table<V>, ps: map<string, NodeId>, names: map<NodeId, string>, nid: NodeId,
                  p: string, x: char, node: Node<V>, g': Table<V>, ps': map<string, NodeId>)
    requires Tree(g, ps, names) && p in ps && p + [x] !in ps && node.str == [x]
    requires g' == g[ps[p] := g[ps[p]].(next := g[ps[p]].next + {nid})][nid := node]
    requires ps' == ps[p + [x] := nid]
    requires forall s | s in ps :: ps[s] != nid
    ensures forall s, y {:trigger s + [y] in ps'} | s + [y] in ps' ::
              s in ps' && g'[ps'[s + [y]]].str == [y] && ps'[s + [y]] in g'[ps'[s]].next
  {
    forall s, y | s + [y] in ps'
      ensures s in ps' && g'[ps'[s + [y]]].str == [y] && ps'[s + [y]] in g'[ps'[s]].next
    {
      if s + [y] != p + [x] {
        assert s + [y] in ps && s in ps;
      } else {
        LastStep(s, y, p, x);
      }
    }
  }

  /** After linking the leaf, every child link leads to a path of the tree. */
  lemma LinkDown<V>(g: Table<V>, ps: map<string, NodeId>, names: map<NodeId, string>, nid: NodeId,
                    p: string, x: char, node: Node<V>, g': Table<V>, ps': map<string, NodeId>)
    requires Tree(g, ps, names) && p in ps && p + [x] !in ps && node.str == [x] && node.next == {}
    requires g' == g[ps[p] := g[ps[p]].(next := g[ps[p]].next + {nid})][nid := node]
    requires ps' == ps[p + [x] := nid]
    requires forall s | s in ps :: ps[s] != nid && (ps[s] == ps[p] ==> s == p)
    ensures forall s, c {:trigger c in g'[ps'[s]].next} | s in ps' && c in g'[ps'[s]].next ::
              c in g' && |g'[c].str| == 1 && s + g'[c].str in ps' && ps'[s + g'[c].str] == c
  {
    forall s, c | s in ps' && c in g'[ps'[s]].next
      ensures c in g' && |g'[c].str| == 1 && s + g'[c].str in ps' && ps'[s + g'[c].str] == c
    {
      if c != nid {
        assert s in ps && c in g[ps[s]].next;
      } else {
        assert s == p;
      }
    }
  }

  /** The fresh leaf completes `p + [x]` when it holds a value, and every other path keeps its value. */
  lemma LinkStores<V>(g: Table<V>, ps: map<string, NodeId>, names: map<NodeId, string>, nid: NodeId,
                      contents: map<string, V>, p: string, x: char, node: Node<V>, g': Table<V>,
                      ps': map<string, NodeId>, contents': map<string, V>)
    requires Tree(g, ps, names) && Stores(g, ps, contents) && (forall n | n in g :: n < nid)
    requires p in ps && p + [x] !in ps
    requires g' == g[ps[p] := g[ps[p]].(next := g[ps[p]].next + {nid})][nid := node]
    requires ps' == ps[p + [x] := nid]
    requires contents' == if node.value.Some? then contents[p + [x] := node.value.value] else contents
    ensures Stores(g', ps', contents')
  {
  }

  /**
   * Replacing the child `x` of the node at `p` by the fresh node `completed`, which keeps the old
   * child's string and children, moves the path `p + [x]` to it and leaves the tree otherwise.
   */
  lemma SwapTree<V>(g: Table<V>, ps: map<string, NodeId>, names: map<NodeId, string>, nid: NodeId,
                    p: string, x: char, completed: Node<V>, g': Table<V>, ps': map<string, NodeId>,
                    names': map<NodeId, string>)
    requires Tree(g, ps, names) && (forall n | n in g :: n < nid) && p + [x] in ps
    requires completed.str == [x] && completed.next == g[ps[p + [x]]].next
    requires g' == g[ps[p] := g[ps[p]].(next := (set c | c in g[ps[p]].next && g[c].str != [x]) + {nid})]
                    [nid := completed]
    requires ps' == ps[p + [x] := nid] && names' == names[nid := p + [x]]
    ensures Tree(g', ps', names') && ps'[""] == ps[""] && g'[ps[""]].value == g[ps[""]].value
    ensures forall n | n in g' :: n < nid + 1
  {
    var cur, m, input := ps[p], ps[p + [x]], p + [x];
    assert p in ps;
    forall s | s in ps
      ensures ps[s] != nid && (ps[s] == cur ==> s == p) && (ps[s] == m ==> s == input)
    {
    }
    SwapUp(g, ps, names, nid, p, x, completed, g', ps');
    SwapDown(g, ps, names, nid, p, x, completed, g', ps');
  }

  /** After the swap, every path of the tree still hangs from its parent path. */
  lemma SwapUp<V>(g: Table<V>, ps: map<string, NodeId>, names: map<NodeId, string>, nid: NodeId,
                  p: string, x: char, completed: Node<V>, g': Table<V>, ps': map<string, NodeId>)
    requires Tree(g, ps, names) && (forall n | n in g :: n < nid) && p + [x] in ps
    requires completed.str == [x] && completed.next == g[ps[p + [x]]].next
    requires g' == g[ps[p] := g[ps[p]].(next := (set c | c in g[ps[p]].next && g[c].str != [x]) + {nid})]
                    [nid := completed]
    requires ps' == ps[p + [x] := nid]
    requires forall s | s in ps :: ps[s] != nid && (ps[s] == ps[p] ==> s == p)
    ensures forall s, y {:trigger s + [y] in ps'} | s + [y] in ps' ::
              s in ps' && g'[ps'[s + [y]]].str == [y] && ps'[s + [y]] in g'[ps'[s]].next
  {
    forall s, y | s + [y] in ps'
      ensures s in ps' && g'[ps'[s + [y]]].str == [y] && ps'[s + [y]] in g'[ps'[s]].next
    {
      assert s + [y] in ps && s in ps;
      if s + [y] == p + [x] {
        LastStep(s, y, p, x);
      } else if s == p + [x] {
        assert ps[s + [y]] in g[ps[p + [x]]].next;
      } else if s == p {
        assert y != x;
      }
    }
  }

  /** After the swap, every child link leads to a path of the tree. */
  lemma SwapDown<V>(g: Table<V>, ps: map<string, NodeId>, names: map<NodeId, string>, nid: NodeId,
                    p: string, x: char, completed: Node<V>, g': Table<V>, ps': map<string, NodeId>)
    requires Tree(g, ps, names) && (forall n | n in g :: n < nid) && p + [x] in ps
    requires completed.str == [x] && completed.next == g[ps[p + [x]]].next
    requires g' == g[ps[p] := g[ps[p]].(next := (set c | c in g[ps[p]].next && g[c].str != [x]) + {nid})]
                    [nid := completed]
    requires ps' == ps[p + [x] := nid]
    requires forall s | s in ps :: ps[s] != nid && (ps[s] == ps[p] ==> s == p) && (ps[s] == ps[p + [x]] ==> s == p + [x])
    ensures forall s, c {:trigger c in g'[ps'[s]].next} | s in ps' && c in g'[ps'[s]].next ::
              c in g' && |g'[c].str| == 1 && s + g'[c].str in ps' && ps'[s + g'[c].str] == c
  {
    forall s, c | s in ps' && c in g'[ps'[s]].next
      ensures c in g' && |g'[c].str| == 1 && s + g'[c].str in ps' && ps'[s + g'[c].str] == c
    {
      if s == p + [x] {
        assert c in g[ps[p + [x]]].next;
      } else if c != nid {
        assert c in g[ps[s]].next;
        if s + g[c].str == p + [x] {
          assert g[c].str == [g[c].str[0]];
          LastStep(s, g[c].str[0], p, x);
        }
      }
    }
  }

  /** After the swap, `p + [x]` completes with the value of `completed`, and every other path keeps its value. */
  lemma SwapStores<V>(g: Table<V>, ps: map<string, NodeId>, names: map<NodeId, string>, nid: NodeId,
                      contents: map<string, V>, p: string, x: char, completed: Node<V>, g': Table<V>,
                      ps': map<string, NodeId>, contents': map<string, V>)
    requires Tree(g, ps, names) && Stores(g, ps, contents) && (forall n | n in g :: n < nid) && p + [x] in ps
    requires completed.value.Some?
    requires g' == g[ps[p] := g[ps[p]].(next := (set c | c in g[ps[p]].next && g[c].str != [x]) + {nid})]
                    [nid := completed]
    requires ps' == ps[p + [x] := nid] && contents' == contents[p + [x] := completed.value.value]
    ensures Stores(g', ps', contents')
  {
  }

  // ---------------------------------------------------------------------------------------------
  // Removal

  /** `isUsedForOtherStrings`: `node == root || node.completes() || node.next().size() > 1`. */
  predicate IsUsedForOtherStrings<V>(g: Table<V>, root: NodeId, n: NodeId)
    requires n in g
  {
    n == root || g[n].Completes() || |g[n].next| > 1
  }

  /** The node at `s` neither completes nor branches. */
  ghost predicate Bare<V>(g: Table<V>, ps: map<string, NodeId>, s: string)
  {
    s in ps && ps[s] in g && g[ps[s]].value.None? && |g[ps[s]].next| <= 1
  }

  /** What `remove(input)` makes of the stored terms. */
  ghost function RemoveContents<V>(contents: map<string, V>, input: string): map<string, V>
  {
    if input in contents then Tapestrie.Pruned(contents, input) else contents
  }

  /**
   * `remove`: walks `input` from the root, keeping the nodes passed in a deque, and gives up when
   * a character has no node. When the last node completes, the climb pops the deque up to the
   * first ancestor used for other strings and unlinks from it the child towards `input`: `input`
   * and every term that extends it are gone and every other term keeps its value. When the path
   * is missing or its last node does not complete, nothing changes.
   */
  method RemoveFrom<V>(g0: Table<V>, ghost ps0: map<string, NodeId>, ghost names: map<NodeId, string>,
                       root: NodeId, ghost nid: NodeId, ghost contents0: map<string, V>, input: string)
    returns (g: Table<V>, ghost ps: map<string, NodeId>, ghost contents: map<string, V>)
    requires Inv(g0, ps0, names, root, nid, contents0)
    ensures Inv(g, ps, names, root, nid, contents)
    ensures contents == RemoveContents(contents0, input)
  {
    g, ps, contents := g0, ps0, contents0;
    var walked := WalkPath(g0, ps0, names, root, input);
    if walked.None? {
      return;
    }
    var deque := walked.value;
    var last := deque[|deque| - 1];
    assert last == ps0[input] by {
      assert input[..|input|] == input;
    }
    deque := deque[..|deque| - 1];
    if g0[last].Completes() {
      assert input in contents0;
      assert input != [] by {
        assert input[..0] == [];
      }
      var j;
      j, last := ClimbToUsed(g0, ps0, names, root, input, deque);
      var charToUnlink := [input[j]];
      ChildrenInTable(g0, ps0, names, input[..j]);
      g := g0[last := g0[last].(next := set c | c in g0[last].next && g0[c].str != charToUnlink)];
      ps := Tapestrie.Pruned(ps0, input[..j + 1]);
      contents := Tapestrie.Pruned(contents0, input);
      Unlink(g0, ps0, names, contents0, input, j, g, ps, contents);
    } else {
      assert input !in contents0;
    }
  }

  /**
   * The walk of `remove`: the nodes from the root along `input`, one per prefix, or nothing when
   * some character of `input` has no node.
   */
  method WalkPath<V>(g: Table<V>, ghost ps: map<string, NodeId>, ghost names: map<NodeId, string>,
                     root: NodeId, input: string)
    returns (r: Option<seq<NodeId>>)
    requires Tree(g, ps, names) && ps[""] == root
    ensures r.Some? <==> input in ps
    ensures r.Some? ==> |r.value| == |input| + 1
                        && forall k | 0 <= k <= |input| :: input[..k] in ps && r.value[k] == ps[input[..k]]
  {
    var current := root;
    var deque := [root];
    for i := 0 to |input|
      invariant input[..i] in ps && ps[input[..i]] == current
      invariant |deque| == i + 1 && forall k | 0 <= k <= i :: input[..k] in ps && deque[k] == ps[input[..k]]
    {
      ChildrenInTable(g, ps, names, input[..i]);
      var nextMatchingNode := FindAnyChild(g, current, [input[i]]);
      Tapestrie.PrefixStep(input, input[..i]);
      if nextMatchingNode.None? {
        MissingChild(g, ps, names, input[..i], input[i]);
        NotBelowMissing(g, ps, names, input, i + 1);
        return None;
      }
      FoundChild(g, ps, names, input[..i], input[i], nextMatchingNode.value);
      current := nextMatchingNode.value;
      deque := deque + [current];
    }
    assert input[..|input|] == input;
    return Some(deque);
  }

  /**
   * The climb of `remove`, from the completing node at `input`: pops the deque of its ancestors
   * until a node used for other strings, and gives its depth `j` and the node; every node strictly
   * between it and `input` is bare.
   */
  method ClimbToUsed<V>(g: Table<V>, ghost ps: map<string, NodeId>, ghost names: map<NodeId, string>,
                        root: NodeId, input: string, deque0: seq<NodeId>)
    returns (j: int, last: NodeId)
    requires Tree(g, ps, names) && ps[""] == root && input in ps && 0 < |input| == |deque0|
    requires forall k | 0 <= k < |input| :: input[..k] in ps && deque0[k] == ps[input[..k]]
    ensures 0 <= j < |input| && input[..j] in ps && ps[input[..j]] == last
    ensures IsUsedForOtherStrings(g, root, last)
    ensures forall k | j < k < |input| :: Bare(g, ps, input[..k])
  {
    j := |input| - 1;
    last := deque0[|deque0| - 1];
    var deque := deque0[..|deque0| - 1];
    while !IsUsedForOtherStrings(g, root, last)
      invariant 0 <= j < |input| && |deque| == j && input[..j] in ps && ps[input[..j]] == last
      invariant forall k | 0 <= k < j :: input[..k] in ps && deque[k] == ps[input[..k]]
      invariant forall k | j < k < |input| :: Bare(g, ps, input[..k])
      decreases j
    {
      ChildrenInTable(g, ps, names, input[..j]);
      assert j != 0;
      j := j - 1;
      last := deque[|deque| - 1];
      deque := deque[..|deque| - 1];
    }
  }

  /** A set with at most one element holds no two different ones. */
  lemma AtMostOne<T>(s: set<T>, a: T, b: T)
    requires |s| <= 1 && a in s && b in s
    ensures a == b
  {
    if a != b {
      TrieNodes.SubsetCard({a, b}, s);
    }
  }

  /**
   * A term at or below `input[..k]` extends `input` when every node from `input[..k]` down to,
   * but excluding, `input` is bare: it cannot stop at a node that does not complete, and it cannot
   * leave the path at a node with a single child.
   */
  lemma {:induction false} ExtendsInput<V>(g: Table<V>, ps: map<string, NodeId>, names: map<NodeId, string>,
                                           input: string, j: int, k: int, t: string)
    requires Tree(g, ps, names) && input in ps && t in ps && g[ps[t]].value.Some?
    requires 0 <= j < k <= |input| && input[..k] <= t
    requires forall i | j < i < |input| :: Bare(g, ps, input[..i])
    ensures input <= t
    decreases |input| - k
  {
    if k == |input| {
      assert input[..k] == input;
    } else {
      assert Bare(g, ps, input[..k]);
      assert t != input[..k];
      ChildOnPath(g, ps, names, input[..k], t);
      ChildOnPath(g, ps, names, input[..k], input);
      assert input[..k + 1] == input[..k] + [input[k]];
      assert t[..k + 1] == input[..k] + [t[k]];
      AtMostOne(g[ps[input[..k]]].next, ps[t[..k + 1]], ps[input[..k + 1]]);
      assert names[ps[t[..k + 1]]] == t[..k + 1] && names[ps[input[..k + 1]]] == input[..k + 1];
      ExtendsInput(g, ps, names, input, j, k + 1, t);
    }
  }

  /**
   * `g` and `ps` are what unlinking the child at `input[..j + 1]` from the node at `input[..j]`
   * makes of the tree `ps0` of `g0`: the child is dropped from its parent's children, and the
   * paths that run through it are dropped from the tree.
   */
  ghost predicate Unlinked<V>(g0: Table<V>, ps0: map<string, NodeId>, names: map<NodeId, string>, input: string,
                              j: int, g: Table<V>, ps: map<string, NodeId>)
  {
    && Tree(g0, ps0, names) && input in ps0 && 0 <= j < |input| && input[..j] in ps0
    && g == g0[ps0[input[..j]] := g0[ps0[input[..j]]].(next := set c | c in g0[ps0[input[..j]]].next
                                                                  && g0[c].str != [input[j]])]
    && ps == Tapestrie.Pruned(ps0, input[..j + 1])
  }

  /** The parent of the unlinked child loses that child and keeps every other. */
  lemma UnlinkParent<V>(g0: Table<V>, ps0: map<string, NodeId>, names: map<NodeId, string>, input: string, j: int,
                        g: Table<V>, ps: map<string, NodeId>)
    requires Unlinked(g0, ps0, names, input, j, g, ps)
    ensures input[..j + 1] == input[..j] + [input[j]] && input[..j + 1] in ps0
    ensures ps0[input[..j + 1]] in g0[ps0[input[..j]]].next
    ensures g[ps0[input[..j]]].next == g0[ps0[input[..j]]].next - {ps0[input[..j + 1]]}
  {
    var cut := input[..j + 1];
    var last := ps0[input[..j]];
    PrefixClosed(g0, ps0, names, input, cut);
    Tapestrie.PrefixStep(input, input[..j]);
    var child := ps0[cut];
    assert child in g0[last].next && g0[child].str == [input[j]];
    forall c | c in g0[last].next
      ensures c in g[last].next <==> c != child
    {
      if g0[c].str == [input[j]] {
        ChildrenUniqueByString(g0, ps0, names, input[..j], c, child);
      }
    }
  }

  /** After unlinking, every path of the tree still hangs from its parent path. */
  lemma UnlinkUp<V>(g0: Table<V>, ps0: map<string, NodeId>, names: map<NodeId, string>, input: string, j: int,
                    g: Table<V>, ps: map<string, NodeId>)
    requires Unlinked(g0, ps0, names, input, j, g, ps)
    requires input[..j + 1] == input[..j] + [input[j]] && input[..j + 1] in ps0
    requires g[ps0[input[..j]]].next == g0[ps0[input[..j]]].next - {ps0[input[..j + 1]]}
    ensures forall s, x {:trigger s + [x] in ps} | s + [x] in ps ::
              s in ps && g[ps[s + [x]]].str == [x] && ps[s + [x]] in g[ps[s]].next
  {
    var cut := input[..j + 1];
    var last := ps0[input[..j]];
    var child := ps0[cut];
    forall s, x | s + [x] in ps
      ensures s in ps && g[ps[s + [x]]].str == [x] && ps[s + [x]] in g[ps[s]].next
    {
      assert s + [x] in ps0;
      assert (s + [x])[..|s|] == s;
      assert names[ps0[s]] == s && names[ps0[s + [x]]] == s + [x];
    }
  }

  /** After unlinking, every child link left leads to a path of the tree. */
  lemma UnlinkDown<V>(g0: Table<V>, ps0: map<string, NodeId>, names: map<NodeId, string>, input: string, j: int,
                      g: Table<V>, ps: map<string, NodeId>)
    requires Unlinked(g0, ps0, names, input, j, g, ps)
    requires input[..j + 1] == input[..j] + [input[j]] && input[..j + 1] in ps0
    requires g[ps0[input[..j]]].next == g0[ps0[input[..j]]].next - {ps0[input[..j + 1]]}
    ensures forall s, c {:trigger c in g[ps[s]].next} | s in ps && c in g[ps[s]].next ::
              c in g && |g[c].str| == 1 && s + g[c].str in ps && ps[s + g[c].str] == c
  {
    forall s, c | s in ps && c in g[ps[s]].next
      ensures c in g && |g[c].str| == 1 && s + g[c].str in ps && ps[s + g[c].str] == c
    {
      assert c in g0[ps0[s]].next;
      assert s + g0[c].str in ps0;
      NotThroughCut(g0, ps0, names, input, j, g, ps, s, c);
    }
  }

  /** A child link left after unlinking never leads into the unlinked part. */
  lemma NotThroughCut<V>(g0: Table<V>, ps0: map<string, NodeId>, names: map<NodeId, string>, input: string, j: int,
                         g: Table<V>, ps: map<string, NodeId>, s: string, c: NodeId)
    requires Unlinked(g0, ps0, names, input, j, g, ps)
    requires input[..j + 1] == input[..j] + [input[j]] && input[..j + 1] in ps0
    requires g[ps0[input[..j]]].next == g0[ps0[input[..j]]].next - {ps0[input[..j + 1]]}
    requires s in ps && c in g[ps[s]].next
    ensures c in g0[ps0[s]].next && s + g0[c].str in ps0 && !(input[..j + 1] <= s + g0[c].str)
  {
    var cut := input[..j + 1];
    assert c in g0[ps0[s]].next;
    var t := s + g0[c].str;
    assert t in ps0 && |t| == |s| + 1;
    if |s| >= |cut| {
      assert !(cut <= s);
      assert t[..|cut|] == s[..|cut|];
    } else if s == input[..j] {
      assert c != ps0[cut];
      assert ps0[t] == c;
    }
  }

  /**
   * When every node from `input[..j + 1]` down to, but excluding, `input` is bare, unlinking
   * drops exactly `input` and the terms that extend it; the others keep their values.
   */
  lemma UnlinkStores<V>(g0: Table<V>, ps0: map<string, NodeId>, names: map<NodeId, string>,
                        contents0: map<string, V>, input: string, j: int, g: Table<V>, ps: map<string, NodeId>,
                        contents: map<string, V>)
    requires Unlinked(g0, ps0, names, input, j, g, ps) && Stores(g0, ps0, contents0)
    requires forall k | j < k < |input| :: Bare(g0, ps0, input[..k])
    requires contents == Tapestrie.Pruned(contents0, input)
    ensures Stores(g, ps, contents)
  {
    assert input[..j + 1] <= input;
    forall t | t in contents0 && input[..j + 1] <= t
      ensures input <= t
    {
      ExtendsInput(g0, ps0, names, input, j, j + 1, t);
    }
  }

  /**
   * Unlinking the child at `input[..j + 1]` from the node at `input[..j]`, found by the climb of
   * `remove`, leaves the tree of the paths that do not run through that child, and it stores the
   * old terms except `input` and its extensions.
   */
  lemma Unlink<V>(g0: Table<V>, ps0: map<string, NodeId>, names: map<NodeId, string>, contents0: map<string, V>,
                  input: string, j: int, g: Table<V>, ps: map<string, NodeId>, contents: map<string, V>)
    requires Tree(g0, ps0, names) && Stores(g0, ps0, contents0) && input in ps0
    requires 0 <= j < |input| && input[..j] in ps0
    requires forall k | j < k < |input| :: Bare(g0, ps0, input[..k])
    requires g == g0[ps0[input[..j]] := g0[ps0[input[..j]]].(next := set c | c in g0[ps0[input[..j]]].next
                                                                         && g0[c].str != [input[j]])]
    requires ps == Tapestrie.Pruned(ps0, input[..j + 1])
    requires contents == Tapestrie.Pruned(contents0, input)
    ensures Tree(g, ps, names) && ps[""] == ps0[""] && g.Keys == g0.Keys
    ensures forall n | n in g :: g[n].value == g0[n].value
    ensures Stores(g, ps, contents)
  {
    UnlinkTree(g0, ps0, names, input, j, g, ps);
    UnlinkStores(g0, ps0, names, contents0, input, j, g, ps, contents);
  }

  /** Unlinking leaves a tree with the same root, the same references and the same values. */
  lemma UnlinkTree<V>(g0: Table<V>, ps0: map<string, NodeId>, names: map<NodeId, string>, input: string, j: int,
                      g: Table<V>, ps: map<string, NodeId>)
    requires Unlinked(g0, ps0, names, input, j, g, ps)
    ensures Tree(g, ps, names) && ps[""] == ps0[""] && g.Keys == g0.Keys
    ensures forall n | n in g :: g[n].value == g0[n].value
  {
    UnlinkParent(g0, ps0, names, input, j, g, ps);
    assert !(input[..j + 1] <= []);
    UnlinkUp(g0, ps0, names, input, j, g, ps);
    UnlinkDown(g0, ps0, names, input, j, g, ps);
  }

  // ---------------------------------------------------------------------------------------------
  // Prefix enumeration

  /** The values of the terms at or below the path `p`. */
  ghost function TermsFrom<V>(g: Table<V>, ps: map<string, NodeId>, p: string): map<string, V>
  {
    map t | t in ps && p <= t && ps[t] in g && g[ps[t]].value.Some? :: g[ps[t]].value.value
  }

  /** The values of the terms strictly below the path `p` that run through one of the nodes `kids`. */
  ghost function TermsThrough<V>(g: Table<V>, ps: map<string, NodeId>, p: string, kids: set<NodeId>): map<string, V>
  {
    map t | t in ps && p < t && t[..|p| + 1] in ps && ps[t[..|p| + 1]] in kids && ps[t] in g && g[ps[t]].value.Some?
      :: g[ps[t]].value.value
  }

  /**
   * The private `findCompleteStringsStartingAt(current, matchUpToHere, accumulation)`: puts into
   * `acc` every term at or below the node at path `matchUpToHere`, with its value.
   */
  method CollectTerms<V>(g: Table<V>, ghost ps: map<string, NodeId>, ghost names: map<NodeId, string>,
                         current: NodeId, matchUpToHere: string, acc: map<string, V>)
    returns (r: map<string, V>)
    requires Tree(g, ps, names) && matchUpToHere in ps && ps[matchUpToHere] == current
    ensures r == acc + TermsFrom(g, ps, matchUpToHere)
    decreases |Walks.Extensions(ps, matchUpToHere)|, 1
  {
    r := acc;
    if g[current].Completes() {
      r := r[matchUpToHere := g[current].value.value];
    }
    ghost var own := r;
    ChildrenInTable(g, ps, names, matchUpToHere);
    var rest := g[current].next;
    NoneThrough(g, ps, matchUpToHere, rest, own);
    while rest != {}
      invariant rest <= g[current].next
      invariant r == own + TermsThrough(g, ps, matchUpToHere, g[current].next - rest)
      decreases |rest|
    {
      r, rest := CollectChild(g, ps, names, current, matchUpToHere, own, rest, r);
    }
    assert g[current].next - rest == g[current].next;
    AllChildren(g, ps, names, matchUpToHere, acc, own);
  }

  /**
   * One turn of the loop of `CollectTerms`: some child `next` not visited yet, and the terms below
   * it put into `r`.
   */
  method CollectChild<V>(g: Table<V>, ghost ps: map<string, NodeId>, ghost names: map<NodeId, string>,
                         current: NodeId, matchUpToHere: string, ghost own: map<string, V>, rest: set<NodeId>,
                         r0: map<string, V>)
    returns (r: map<string, V>, rest': set<NodeId>)
    requires Tree(g, ps, names) && matchUpToHere in ps && ps[matchUpToHere] == current
    requires rest != {} && rest <= g[current].next
    requires r0 == own + TermsThrough(g, ps, matchUpToHere, g[current].next - rest)
    ensures rest' < rest && |rest'| < |rest|
    ensures r == own + TermsThrough(g, ps, matchUpToHere, g[current].next - rest')
    decreases |Walks.Extensions(ps, matchUpToHere)|, 0
  {
    var next :| next in rest;
    var q := matchUpToHere + g[next].str;
    assert q in ps && ps[q] == next && matchUpToHere < q;
    Walks.ExtensionsShrink(ps, matchUpToHere, q);
    r := CollectTerms(g, ps, names, next, q, r0);
    ghost var kids := g[current].next - rest;
    ThroughChild(g, ps, names, matchUpToHere, kids, next);
    MapUnionAssoc(own, TermsThrough(g, ps, matchUpToHere, kids), TermsFrom(g, ps, q));
    rest' := rest - {next};
    assert g[current].next - rest' == kids + {next};
  }

  /** No term runs through no child. */
  lemma NoneThrough<V>(g: Table<V>, ps: map<string, NodeId>, p: string, kids: set<NodeId>, own: map<string, V>)
    ensures own + TermsThrough(g, ps, p, kids - kids) == own
  {
    assert kids - kids == {};
    assert TermsThrough(g, ps, p, {}) == map[];
  }

  lemma MapUnionAssoc<K, V>(a: map<K, V>, b: map<K, V>, c: map<K, V>)
    ensures (a + b) + c == a + (b + c)
  {
  }

  /** The terms through one more child `c` of the node at `p` are those at or below the child's path. */
  lemma ThroughChild<V>(g: Table<V>, ps: map<string, NodeId>, names: map<NodeId, string>, p: string,
                        kids: set<NodeId>, c: NodeId)
    requires Tree(g, ps, names) && p in ps && c in g[ps[p]].next
    ensures TermsThrough(g, ps, p, kids + {c}) == TermsThrough(g, ps, p, kids) + TermsFrom(g, ps, p + g[c].str)
  {
    var q := p + g[c].str;
    assert q in ps && ps[q] == c && |q| == |p| + 1;
    var lhs, rhs := TermsThrough(g, ps, p, kids + {c}), TermsThrough(g, ps, p, kids) + TermsFrom(g, ps, q);
    forall t | t in ps
      ensures t in lhs <==> t in rhs
    {
      if p < t && t[..|p| + 1] in ps {
        assert names[ps[t[..|p| + 1]]] == t[..|p| + 1] && names[c] == q;
        assert q <= t ==> t[..|p| + 1] == q;
        assert t[..|p| + 1] <= t;
      }
      if q <= t {
        assert t[..|p| + 1] == q;
      }
    }
    assert forall t | t in lhs :: lhs[t] == rhs[t];
  }

  /** The own term of the node at `p` and the terms through all its children are the terms from `p`. */
  lemma AllChildren<V>(g: Table<V>, ps: map<string, NodeId>, names: map<NodeId, string>, p: string,
                       acc: map<string, V>, own: map<string, V>)
    requires Tree(g, ps, names) && p in ps
    requires own == if g[ps[p]].value.Some? then acc[p := g[ps[p]].value.value] else acc
    ensures own + TermsThrough(g, ps, p, g[ps[p]].next) == acc + TermsFrom(g, ps, p)
  {
    var lhs, rhs := own + TermsThrough(g, ps, p, g[ps[p]].next), acc + TermsFrom(g, ps, p);
    forall t
      ensures t in lhs <==> t in rhs
      ensures t in lhs ==> lhs[t] == rhs[t]
    {
      AllChildrenAt(g, ps, names, p, acc, own, t);
    }
  }

  /** One term at a time: on either side of `AllChildren`, with the same value. */
  lemma AllChildrenAt<V>(g: Table<V>, ps: map<string, NodeId>, names: map<NodeId, string>, p: string,
                         acc: map<string, V>, own: map<string, V>, t: string)
    requires Tree(g, ps, names) && p in ps
    requires own == if g[ps[p]].value.Some? then acc[p := g[ps[p]].value.value] else acc
    ensures var lhs, rhs := own + TermsThrough(g, ps, p, g[ps[p]].next), acc + TermsFrom(g, ps, p);
            && (t in lhs <==> t in rhs)
            && (t in lhs ==> lhs[t] == rhs[t])
  {
    var through, from := TermsThrough(g, ps, p, g[ps[p]].next), TermsFrom(g, ps, p);
    if t in from && t != p {
      ChildOnPath(g, ps, names, p, t);
      assert t in through;
    }
  }

  /** The terms from the path `p` are the stored terms that start with `p`; none when `p` is not a path. */
  lemma TermsFromStored<V>(g: Table<V>, ps: map<string, NodeId>, names: map<NodeId, string>,
                           contents: map<string, V>, p: string)
    requires Tree(g, ps, names) && Stores(g, ps, contents)
    ensures TermsFrom(g, ps, p) == map t | t in contents && p <= t :: contents[t]
    ensures p !in ps ==> forall t | t in contents :: !(p <= t)
  {
    forall t | t in contents && p <= t
      ensures p in ps
    {
      PrefixClosed(g, ps, names, t, p);
    }
  }
}
