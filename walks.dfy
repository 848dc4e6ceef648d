/**
 * What one search job explores. A job starts from one state, takes states off the front of its
 * queue and appends their successors (`nextStates()` in FuzzySearchState.kt). Every step goes down
 * the trie or further along the keyword, so the exploration ends. `Walk` lists, depth first, every
 * state grown from one state by repeated steps; a queue processes the same states, in its own
 * order, and the length of the walk from the queue measures the work left.
 */
module Walks {
  import opened TrieNodes
  import opened FuzzySearch

  /** `nextStates()` for a state whose coordinates are in range; no successors for any other. */
  function Succ<V>(g: Graph<V>, st: FuzzyState): seq<FuzzyState> {
    if Linked(g, st.node) && CoordinatesOk(st) then NextStates(g, st) else []
  }

  /** The paths of the trie strictly below `s`. */
  ghost function Extensions(paths: map<string, NodeId>, s: string): set<string> {
    set t | t in paths && s < t
  }

  /** Going down the trie leaves fewer paths below. */
  lemma ExtensionsShrink(paths: map<string, NodeId>, s: string, t: string)
    requires s < t && t in paths
    ensures |Extensions(paths, t)| < |Extensions(paths, s)|
  {
    var a, b := Extensions(paths, t), Extensions(paths, s);
    assert a <= b - {t};
    SubsetCard(a, b - {t});
  }

  /** The paths still below a state, then the keyword characters it has still to read. */
  ghost function Rank(paths: map<string, NodeId>, st: FuzzyState): nat {
    var k := |st.request.keyword|;
    var left := k - KeywordIndex(st);
    |Extensions(paths, st.sequence)| * (k + 1) + (if 0 <= left <= k then left else 0)
  }

  lemma MulLess(a: nat, b: nat, k: nat)
    requires a < b
    ensures a * (k + 1) + k < b * (k + 1)
  {
    assert b * (k + 1) == (b - 1) * (k + 1) + (k + 1);
    assert a * (k + 1) <= (b - 1) * (k + 1);
  }

  /** A step from a state in the trie leads to a state in the trie, further on and of smaller rank. */
  lemma SuccBelow<V>(g: Graph<V>, paths: map<string, NodeId>, x: FuzzyState, y: FuzzyState)
    requires Tree(g, paths) && InTrie(paths, x) && y in Succ(g, x)
    ensures InTrie(paths, y) && Below(x, y) && Rank(paths, y) < Rank(paths, x)
  {
    LinkedInTree(g, paths, x);
    SuccessorsBelow(g, paths, x, Children(g, x.node));
    if x.sequence < y.sequence {
      ExtensionsShrink(paths, x.sequence, y.sequence);
      MulLess(|Extensions(paths, y.sequence)|, |Extensions(paths, x.sequence)|, |x.request.keyword|);
    }
  }

  /** `SuccBelow` for all the successors of `x` at once. */
  lemma SuccsBelow<V>(g: Graph<V>, paths: map<string, NodeId>, x: FuzzyState)
    requires Tree(g, paths) && InTrie(paths, x)
    ensures forall y | y in Succ(g, x) :: InTrie(paths, y) && Rank(paths, y) < Rank(paths, x)
  {
    forall y | y in Succ(g, x)
      ensures InTrie(paths, y) && Rank(paths, y) < Rank(paths, x)
    {
      SuccBelow(g, paths, x, y);
    }
  }

  ghost predicate AllInTrie(paths: map<string, NodeId>, q: seq<FuzzyState>) {
    forall x | x in q :: InTrie(paths, x)
  }

  ghost function Elems(s: seq<FuzzyState>): set<FuzzyState> {
    set x | x in s
  }

  /** Every state grown from `x` by repeated steps, depth first, `x` itself first. */
  ghost function Walk<V>(g: Graph<V>, paths: map<string, NodeId>, x: FuzzyState): (r: seq<FuzzyState>)
    requires Tree(g, paths) && InTrie(paths, x)
    ensures r != [] && r[0] == x && AllInTrie(paths, r)
    decreases Rank(paths, x), 1, 0
  {
    SuccsBelow(g, paths, x);
    [x] + WalkAll(g, paths, x, Succ(g, x))
  }

  /** The walks from the states `xs`, all of smaller rank than `parent`, one after the other. */
  ghost function WalkAll<V>(g: Graph<V>, paths: map<string, NodeId>, parent: FuzzyState, xs: seq<FuzzyState>)
    : (r: seq<FuzzyState>)
    requires Tree(g, paths) && InTrie(paths, parent)
    requires forall y | y in xs :: InTrie(paths, y) && Rank(paths, y) < Rank(paths, parent)
    ensures AllInTrie(paths, r)
    decreases Rank(paths, parent), 0, |xs|
  {
    if xs == [] then []
    else Walk(g, paths, xs[0]) + WalkAll(g, paths, parent, xs[1..])
  }

  /** The walks from the states of a queue, one after the other. */
  ghost function WalkQ<V>(g: Graph<V>, paths: map<string, NodeId>, q: seq<FuzzyState>): (r: seq<FuzzyState>)
    requires Tree(g, paths) && AllInTrie(paths, q)
    ensures |r| >= |q| && AllInTrie(paths, r)
  {
    if q == [] then [] else Walk(g, paths, q[0]) + WalkQ(g, paths, q[1..])
  }

  lemma {:induction false} WalkAllIsWalkQ<V>(g: Graph<V>, paths: map<string, NodeId>, parent: FuzzyState,
                                             xs: seq<FuzzyState>)
    requires Tree(g, paths) && InTrie(paths, parent)
    requires forall y | y in xs :: InTrie(paths, y) && Rank(paths, y) < Rank(paths, parent)
    ensures WalkAll(g, paths, parent, xs) == WalkQ(g, paths, xs)
  {
    if xs != [] {
      WalkAllIsWalkQ(g, paths, parent, xs[1..]);
    }
  }

  /** The walk from a queue is the walk from its front followed by the walk from its back. */
  lemma {:induction false} WalkQAppend<V>(g: Graph<V>, paths: map<string, NodeId>, a: seq<FuzzyState>,
                                          b: seq<FuzzyState>)
    requires Tree(g, paths) && AllInTrie(paths, a) && AllInTrie(paths, b)
    ensures AllInTrie(paths, a + b)
    ensures WalkQ(g, paths, a + b) == WalkQ(g, paths, a) + WalkQ(g, paths, b)
  {
    if a != [] {
      ConsAppend(a, b);
      assert AllInTrie(paths, a[1..]);
      WalkQAppend(g, paths, a[1..], b);
      AppendAssoc(Walk(g, paths, a[0]), WalkQ(g, paths, a[1..]), WalkQ(g, paths, b));
    } else {
      assert a + b == b;
    }
  }

  lemma ConsAppend<T>(a: seq<T>, b: seq<T>)
    requires a != []
    ensures (a + b)[0] == a[0] && (a + b)[1..] == a[1..] + b
  {
  }

  lemma AppendAssoc<T>(x: seq<T>, y: seq<T>, z: seq<T>)
    ensures (x + y) + z == x + (y + z)
  {
  }

  /**
   * Taking the front state off a queue and appending its successors leaves exactly the rest of
   * the walk, in another order: the queue is breadth first where the walk is depth first.
   */
  lemma WalkQStep<V>(g: Graph<V>, paths: map<string, NodeId>, q: seq<FuzzyState>)
    requires Tree(g, paths) && q != [] && AllInTrie(paths, q)
    ensures InTrie(paths, q[0]) && AllInTrie(paths, q[1..] + Succ(g, q[0]))
    ensures |WalkQ(g, paths, q)| == 1 + |WalkQ(g, paths, q[1..] + Succ(g, q[0]))|
    ensures Elems(WalkQ(g, paths, q)) == {q[0]} + Elems(WalkQ(g, paths, q[1..] + Succ(g, q[0])))
  {
    var x, rest := q[0], q[1..];
    assert x in q;
    assert AllInTrie(paths, rest);
    var next := Succ(g, x);
    SuccsBelow(g, paths, x);
    WalkAllIsWalkQ(g, paths, x, next);
    WalkQAppend(g, paths, rest, next);
    var w1, w2 := WalkQ(g, paths, next), WalkQ(g, paths, rest);
    assert WalkQ(g, paths, q) == [x] + w1 + w2;
    ElemsShuffle([x], w1, w2);
  }

  /** The elements of `a + b + c` are those of `a + (c + b)`. */
  lemma ElemsShuffle(a: seq<FuzzyState>, b: seq<FuzzyState>, c: seq<FuzzyState>)
    ensures |a + b + c| == |a| + |c + b|
    ensures Elems(a + b + c) == Elems(a) + Elems(c + b)
  {
  }

  /** Every state of the walk from `x` searches with the request of `x`. */
  lemma {:induction false} WalkKeepsRequest<V>(g: Graph<V>, paths: map<string, NodeId>, x: FuzzyState)
    requires Tree(g, paths) && InTrie(paths, x)
    ensures forall y | y in Walk(g, paths, x) :: y.request == x.request
    decreases Rank(paths, x), 1, 0
  {
    forall y | y in Succ(g, x)
      ensures InTrie(paths, y) && Rank(paths, y) < Rank(paths, x) && y.request == x.request
    {
      SuccBelow(g, paths, x, y);
    }
    WalkAllKeepsRequest(g, paths, x, Succ(g, x));
  }

  lemma {:induction false} WalkAllKeepsRequest<V>(g: Graph<V>, paths: map<string, NodeId>, parent: FuzzyState,
                                                  xs: seq<FuzzyState>)
    requires Tree(g, paths) && InTrie(paths, parent)
    requires forall y | y in xs :: InTrie(paths, y) && Rank(paths, y) < Rank(paths, parent)
    requires forall y | y in xs :: y.request == parent.request
    ensures forall y | y in WalkAll(g, paths, parent, xs) :: y.request == parent.request
    decreases Rank(paths, parent), 0, |xs|
  {
    if xs != [] {
      assert xs[0] in xs;
      WalkKeepsRequest(g, paths, xs[0]);
      WalkAllKeepsRequest(g, paths, parent, xs[1..]);
    }
  }

  /** Every state of the walk from a queue searches with the request of some state of the queue. */
  lemma {:induction false} WalkQKeepsRequest<V>(g: Graph<V>, paths: map<string, NodeId>, q: seq<FuzzyState>,
                                                y: FuzzyState)
    requires Tree(g, paths) && AllInTrie(paths, q) && y in WalkQ(g, paths, q)
    ensures exists x | x in q :: y.request == x.request
  {
    assert q != [] && q[0] in q;
    if y in Walk(g, paths, q[0]) {
      WalkKeepsRequest(g, paths, q[0]);
    } else {
      WalkQKeepsRequest(g, paths, q[1..], y);
      var x :| x in q[1..] && y.request == x.request;
      assert x in q;
    }
  }
}
