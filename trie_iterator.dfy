/**
 * The breadth-first iterator of the Kotlin trie library (TrieIterator.kt): a queue of nodes, each
 * paired with the key spelled from the start node down to it, and the entry to hand out next.
 *
 * The iterator walks the table of a trie (see TrieNodes) as it stood when the iterator was made.
 * Its ghost state names nodes by their paths in that trie: `Queued` runs alongside the queue,
 * `Visited` holds the paths taken off the queue, `Yielded` those whose entries `Next` has handed
 * out, and `Pending` the one whose entry is held for the next call.
 */
module TrieIterators {
  import opened Wrappers
  import opened TrieNodes

  /** `TrieEntry(string, value)`: a key and the value stored under it. */
  datatype TrieEntry<V> = TrieEntry(key: string, value: V)

  /**
   * The key that an iterator started at the node of path `base` gives the node at path `t`: the
   * string of the start node (its last character, or "" at the root) followed by the rest of `t`.
   */
  function Key(base: string, t: string): string
    requires base <= t
  {
    if base == [] then t else t[|base| - 1..]
  }

  /** The key of a child extends the key of its parent by the child's string. */
  lemma KeyAppend(base: string, t: string, s: string)
    requires base <= t
    ensures base <= t + s && Key(base, t + s) == Key(base, t) + s
  {
    if base != [] {
      assert (t + s)[|base| - 1..] == t[|base| - 1..] + s;
    }
  }

  /** Keys below the same start tell their paths apart, and are as long as the path below it. */
  lemma KeyInjective(base: string, t: string, u: string)
    requires base <= t && base <= u
    ensures |Key(base, t)| == |t| - |base| + (if base == [] then 0 else 1)
    ensures Key(base, t) == Key(base, u) ==> t == u
  {
    if base != [] && Key(base, t) == Key(base, u) {
      assert t == base[..|base| - 1] + Key(base, t);
      assert u == base[..|base| - 1] + Key(base, u);
    }
  }

  /** The paths at or below `base`. */
  ghost function Under(ps: map<string, NodeId>, base: string): set<string>
  {
    set t | t in ps && base <= t
  }

  /** The paths at or below `base` whose nodes complete a term. */
  ghost function TermsBelow<V>(g: Graph<V>, ps: map<string, NodeId>, base: string): set<string>
  {
    set t | t in ps && base <= t && ps[t] in g && g[ps[t]].value.Some?
  }

  /** The entry handed out for the completing node at path `t`. */
  ghost function EntryAt<V>(g: Graph<V>, ps: map<string, NodeId>, base: string, t: string): TrieEntry<V>
    requires t in TermsBelow(g, ps, base)
  {
    TrieEntry(Key(base, t), g[ps[t]].value.value)
  }

  /**
   * The queue holds the nodes of the distinct paths `q`, each with its key, in breadth-first
   * order: lengths never drop along the queue and differ by at most one.
   */
  ghost predicate QueueOk(ps: map<string, NodeId>, base: string, queue: seq<(NodeId, string)>, q: seq<string>)
  {
    && |queue| == |q|
    && (forall k | 0 <= k < |q| :: q[k] in ps && base <= q[k] && queue[k] == (ps[q[k]], Key(base, q[k])))
    && (forall k, l | 0 <= k < l < |q| :: q[k] != q[l])
    && (forall k, l | 0 <= k < l < |q| :: |q[k]| <= |q[l]| <= |q[k]| + 1)
  }

  /** `u` lies at or below `base` and has not been visited yet. */
  ghost predicate Unvisited(ps: map<string, NodeId>, base: string, done: set<string>, u: string)
  {
    u in ps && base <= u && u !in done
  }

  /**
   * The visited paths lie below `base`, include the parent of every visited or queued path below
   * `base`, are no longer than any queued path, and every path below `base` not visited yet lies
   * below a queued one.
   */
  ghost predicate VisitOk(ps: map<string, NodeId>, base: string, q: seq<string>, done: set<string>)
  {
    && (forall d | d in done :: d in ps && base <= d)
    && (forall k | 0 <= k < |q| :: q[k] !in done)
    && (forall d {:trigger Parent(d)} | d in done && |d| > |base| :: Parent(d) in done)
    && (forall k | 0 <= k < |q| && |q[k]| > |base| :: Parent(q[k]) in done)
    && (forall d, k | d in done && 0 <= k < |q| :: |d| <= |q[k]|)
    && (forall u | Unvisited(ps, base, done, u) :: exists k | 0 <= k < |q| :: q[k] <= u)
  }

  /**
   * The paths handed out so far are distinct visited terms in order of length; every visited term
   * was handed out or is the pending one, which is the longest, and `next` holds its entry.
   */
  ghost predicate YieldOk<V>(g: Graph<V>, ps: map<string, NodeId>, base: string, done: set<string>,
                             out: seq<string>, pend: Option<string>, next: Option<TrieEntry<V>>)
  {
    && (forall k | 0 <= k < |out| :: out[k] in done && out[k] in TermsBelow(g, ps, base))
    && (forall k, l | 0 <= k < l < |out| :: out[k] != out[l] && |out[k]| <= |out[l]|)
    && (forall d | d in done && d in TermsBelow(g, ps, base) :: d in out || pend == Some(d))
    && (pend.Some? ==>
          && pend.value in done && pend.value in TermsBelow(g, ps, base) && pend.value !in out
          && forall k | 0 <= k < |out| :: |out[k]| <= |pend.value|)
    && next == if pend.Some? then Some(EntryAt(g, ps, base, pend.value)) else None
  }

  /** The state of an iterator over the tree `ps` of `g` started at the node of path `base`. */
  ghost predicate IterInv<V>(g: Graph<V>, ps: map<string, NodeId>, base: string, queue: seq<(NodeId, string)>,
                             q: seq<string>, done: set<string>, out: seq<string>, pend: Option<string>,
                             next: Option<TrieEntry<V>>)
  {
    && Tree(g, ps) && base in ps
    && QueueOk(ps, base, queue, q)
    && VisitOk(ps, base, q, done)
    && YieldOk(g, ps, base, done, out, pend, next)
    && (next.None? ==> queue == [])
  }

  /** The state `init` starts `setNext` from: the start node alone in the queue. */
  lemma InitOk<V>(g: Graph<V>, ps: map<string, NodeId>, base: string)
    requires Tree(g, ps) && base in ps
    ensures QueueOk(ps, base, [(ps[base], g[ps[base]].str)], [base])
    ensures VisitOk(ps, base, [base], {})
    ensures YieldOk(g, ps, base, {}, [], None, None)
  {
    if base != [] {
      assert base == Parent(base) + [base[|base| - 1]];
      assert g[ps[base]].str == [base[|base| - 1]];
    }
    assert Key(base, base) == g[ps[base]].str;
    forall u | Unvisited(ps, base, {}, u)
      ensures exists k | 0 <= k < 1 :: [base][k] <= u
    {
      assert [base][0] <= u;
    }
  }

  /**
   * `queue`/`q` extend `queue0`/`q0` by the children of the node at path `t`, each with its key,
   * each once, and all of them.
   */
  ghost predicate Appended(ps: map<string, NodeId>, base: string, t: string, queue0: seq<(NodeId, string)>,
                           q0: seq<string>, queue: seq<(NodeId, string)>, q: seq<string>)
  {
    && |queue| == |q| && |q| >= |q0| && queue[..|q0|] == queue0 && q[..|q0|] == q0
    && (forall k | |q0| <= k < |q| ::
          q[k] in ps && |q[k]| == |t| + 1 && t <= q[k] && Parent(q[k]) == t && base <= q[k]
          && queue[k] == (ps[q[k]], Key(base, q[k])))
    && (forall k, l | |q0| <= k < l < |q| :: q[k] != q[l])
    && (forall u | u in ps && |u| == |t| + 1 && t <= u :: u in q[|q0|..])
  }

  /**
   * `for (next in node.next) queue.add(Pair(next, sequence + next.string))`: appends every child
   * of the node at path `t`, in some order, each with its key.
   */
  method Enqueue<V>(g: Graph<V>, ghost ps: map<string, NodeId>, ghost base: string,
                    queue0: seq<(NodeId, string)>, ghost q0: seq<string>, node: NodeId, sequence: string, ghost t: string)
    returns (queue: seq<(NodeId, string)>, ghost q: seq<string>)
    requires Tree(g, ps) && t in ps && ps[t] == node && base <= t && sequence == Key(base, t)
    requires |queue0| == |q0|
    ensures Appended(ps, base, t, queue0, q0, queue, q)
  {
    queue, q := queue0, q0;
    var rest := g[node].next;
    while rest != {}
      invariant rest <= g[node].next
      invariant |queue| == |q| && |q| >= |q0| && queue[..|q0|] == queue0 && q[..|q0|] == q0
      invariant forall k | |q0| <= k < |q| ::
                  q[k] in ps && |q[k]| == |t| + 1 && t <= q[k] && Parent(q[k]) == t && base <= q[k]
                  && queue[k] == (ps[q[k]], Key(base, q[k])) && ps[q[k]] !in rest
      invariant forall k, l | |q0| <= k < l < |q| :: q[k] != q[l]
      invariant forall c | c in g[node].next - rest :: t + g[c].str in q[|q0|..]
      decreases |rest|
    {
      var c :| c in rest;
      ChildPath(g, ps, base, t, c);
      assert (q + [t + g[c].str])[|q0|..] == q[|q0|..] + [t + g[c].str];
      queue := queue + [(c, sequence + g[c].str)];
      q := q + [t + g[c].str];
      rest := rest - {c};
    }
    forall u | u in ps && |u| == |t| + 1 && t <= u
      ensures u in q[|q0|..]
    {
      ChildBack(g, ps, t, u);
    }
  }

  /** The path through child `c` of the node at path `t`, and its key. */
  lemma ChildPath<V>(g: Graph<V>, ps: map<string, NodeId>, base: string, t: string, c: NodeId)
    requires Tree(g, ps) && t in ps && base <= t && c in g[ps[t]].next
    ensures t + g[c].str in ps && ps[t + g[c].str] == c && |t + g[c].str| == |t| + 1
    ensures t <= t + g[c].str && Parent(t + g[c].str) == t && base <= t + g[c].str
    ensures Key(base, t + g[c].str) == Key(base, t) + g[c].str
  {
    KeyAppend(base, t, g[c].str);
    assert Parent(t + g[c].str) == t;
  }

  /** Every path one longer than `t` and below it runs through a child of the node at `t`. */
  lemma ChildBack<V>(g: Graph<V>, ps: map<string, NodeId>, t: string, u: string)
    requires Tree(g, ps) && t in ps && u in ps && |u| == |t| + 1 && t <= u
    ensures ps[u] in g[ps[t]].next && u == t + g[ps[u]].str
  {
    ChildOnPath(g, ps, t, u);
    assert u[..|t| + 1] == u;
  }

  /**
   * `setNext`: takes nodes off the front of the queue, appending their children, until one that
   * completes is found; its entry becomes the next one, or there is none once the queue is empty.
   */
  method SetNext<V>(g: Graph<V>, ghost ps: map<string, NodeId>, ghost base: string,
                    queue0: seq<(NodeId, string)>, ghost q0: seq<string>, ghost done0: set<string>, ghost out: seq<string>)
    returns (queue: seq<(NodeId, string)>, ghost q: seq<string>, ghost done: set<string>,
             next: Option<TrieEntry<V>>, ghost pend: Option<string>)
    requires Tree(g, ps) && base in ps
    requires QueueOk(ps, base, queue0, q0) && VisitOk(ps, base, q0, done0) && YieldOk(g, ps, base, done0, out, None, None)
    ensures IterInv(g, ps, base, queue, q, done, out, pend, next)
  {
    queue, q, done := queue0, q0, done0;
    while queue != []
      invariant QueueOk(ps, base, queue, q) && VisitOk(ps, base, q, done) && YieldOk(g, ps, base, done, out, None, None)
      decreases |Under(ps, base) - done|
    {
      var (node, sequence) := queue[0];
      ghost var t := q[0];
      ghost var q1 := q[1..];
      var queue1;
      ghost var queue0, q0 := queue, q;
      queue1, q := Enqueue(g, ps, base, queue[1..], q1, node, sequence, t);
      queue := queue1;
      Step(g, ps, base, queue0, q0, queue, q, done, out);
      if g[node].Completes() {
        done := done + {t};
        next := Some(TrieEntry(sequence, g[node].value.value));
        pend := Some(t);
        return;
      }
      done := done + {t};
    }
    next := None;
    pend := None;
  }

  /**
   * One round of `setNext`: taking the front path `t` off the queue, appending its children and
   * marking `t` visited keeps the queue and the visited set in shape, brings the walk one path
   * closer to its end, and makes `t` the pending entry exactly when its node completes.
   */
  lemma Step<V>(g: Graph<V>, ps: map<string, NodeId>, base: string, queue0: seq<(NodeId, string)>, q0: seq<string>,
                queue: seq<(NodeId, string)>, q: seq<string>, done: set<string>, out: seq<string>)
    requires Tree(g, ps) && QueueOk(ps, base, queue0, q0) && VisitOk(ps, base, q0, done)
    requires YieldOk(g, ps, base, done, out, None, None) && q0 != []
    requires Appended(ps, base, q0[0], queue0[1..], q0[1..], queue, q)
    ensures QueueOk(ps, base, queue, q) && VisitOk(ps, base, q, done + {q0[0]})
    ensures |Under(ps, base) - (done + {q0[0]})| < |Under(ps, base) - done|
    ensures g[queue0[0].0].Completes() ==>
      YieldOk(g, ps, base, done + {q0[0]}, out, Some(q0[0]),
              Some(TrieEntry(queue0[0].1, g[queue0[0].0].value.value)))
    ensures !g[queue0[0].0].Completes() ==> YieldOk(g, ps, base, done + {q0[0]}, out, None, None)
  {
    var t := q0[0];
    StepShape(g, ps, base, queue0, q0, queue, q, done);
    assert queue0[0] == (ps[t], Key(base, t)) && t in ps && base <= t && t !in done;
    assert forall d | d in done :: |d| <= |t|;
    Shrinks(ps, base, done, t);
    StepYield(g, ps, base, t, done, out, g[ps[t]].value.Some?);
  }

  /** The queue and visited set stay in shape, and one more path below `base` is visited. */
  lemma StepShape<V>(g: Graph<V>, ps: map<string, NodeId>, base: string, queue0: seq<(NodeId, string)>, q0: seq<string>,
                     queue: seq<(NodeId, string)>, q: seq<string>, done: set<string>)
    requires Tree(g, ps) && QueueOk(ps, base, queue0, q0) && VisitOk(ps, base, q0, done) && q0 != []
    requires Appended(ps, base, q0[0], queue0[1..], q0[1..], queue, q)
    ensures QueueOk(ps, base, queue, q) && VisitOk(ps, base, q, done + {q0[0]})
  {
    StepQueue(ps, base, queue0, q0, queue, q, done);
    StepVisit(g, ps, base, queue0, q0, queue, q, done);
  }

  /** Visiting an unvisited path below `base` leaves one fewer to visit. */
  lemma Shrinks(ps: map<string, NodeId>, base: string, done: set<string>, t: string)
    requires t in ps && base <= t && t !in done
    ensures |Under(ps, base) - (done + {t})| < |Under(ps, base) - done|
  {
    assert Under(ps, base) - (done + {t}) == (Under(ps, base) - done) - {t};
    assert t in Under(ps, base) - done;
  }

  /** Taking the front path off the queue and appending its children keeps the queue breadth-first. */
  lemma StepQueue(ps: map<string, NodeId>, base: string, queue0: seq<(NodeId, string)>, q0: seq<string>,
                  queue: seq<(NodeId, string)>, q: seq<string>, done: set<string>)
    requires QueueOk(ps, base, queue0, q0) && VisitOk(ps, base, q0, done) && q0 != []
    requires Appended(ps, base, q0[0], queue0[1..], q0[1..], queue, q)
    ensures QueueOk(ps, base, queue, q)
  {
    var t := q0[0];
    var n := |q0| - 1;
    assert t !in done;
    forall k | 0 <= k < |q|
      ensures q[k] in ps && base <= q[k] && queue[k] == (ps[q[k]], Key(base, q[k]))
    {
      if k < n {
        assert q[k] == q0[k + 1] && queue[k] == queue0[k + 1];
      } else {
        assert q[k][..|base|] == t[..|base|];
      }
    }
    forall k, l | 0 <= k < l < |q|
      ensures q[k] != q[l] && |q[k]| <= |q[l]| <= |q[k]| + 1
    {
      if k < n {
        assert q[k] == q0[k + 1];
        assert |t| <= |q[k]| <= |t| + 1;
        if l < n {
          assert q[l] == q0[l + 1];
        } else {
          if |q[k]| > |base| {
            assert Parent(q[k]) in done;
          }
        }
      }
    }
  }

  /** Taking the front path off the queue, appending its children and marking it visited keeps VisitOk. */
  lemma StepVisit<V>(g: Graph<V>, ps: map<string, NodeId>, base: string, queue0: seq<(NodeId, string)>, q0: seq<string>,
                     queue: seq<(NodeId, string)>, q: seq<string>, done: set<string>)
    requires Tree(g, ps) && QueueOk(ps, base, queue0, q0) && VisitOk(ps, base, q0, done) && q0 != []
    requires Appended(ps, base, q0[0], queue0[1..], q0[1..], queue, q)
    ensures VisitOk(ps, base, q, done + {q0[0]})
  {
    var t := q0[0];
    forall k | 0 < k < |q0|
      ensures q0[k] != t && |t| <= |q0[k]|
    {
      assert 0 < k;
    }
    assert forall d | d in done :: |d| <= |t|;
    StepDone(ps, base, q0, done);
    StepFresh(base, q0, q, done);
    StepLengths(q0, q, done);
    StepCover(g, ps, base, queue0, q0, queue, q, done);
  }

  /** The front path joins the visited ones: they stay below `base` and closed under parents. */
  lemma StepDone(ps: map<string, NodeId>, base: string, q0: seq<string>, done: set<string>)
    requires VisitOk(ps, base, q0, done) && q0 != []
    requires q0[0] in ps && base <= q0[0]
    ensures forall d | d in done + {q0[0]} :: d in ps && base <= d
    ensures forall d {:trigger Parent(d)} | d in done + {q0[0]} && |d| > |base| :: Parent(d) in done + {q0[0]}
  {
  }

  /**
   * No queued path is visited once the front one `q0[0]` is, and each has its parent visited: the
   * paths queued before are fresh and distinct from the front one, and the children appended are
   * longer than any path visited.
   */
  lemma StepFresh(base: string, q0: seq<string>, q: seq<string>, done: set<string>)
    requires q0 != [] && |q| >= |q0| - 1 && q[..|q0| - 1] == q0[1..]
    requires forall k | 0 <= k < |q0| :: q0[k] !in done
    requires forall k | 0 < k < |q0| :: q0[k] != q0[0]
    requires forall k | 0 <= k < |q0| && |q0[k]| > |base| :: Parent(q0[k]) in done
    requires forall d | d in done :: |d| <= |q0[0]|
    requires forall k | |q0| - 1 <= k < |q| :: |q[k]| == |q0[0]| + 1 && Parent(q[k]) == q0[0]
    ensures forall k | 0 <= k < |q| :: q[k] !in done + {q0[0]}
    ensures forall k | 0 <= k < |q| && |q[k]| > |base| :: Parent(q[k]) in done + {q0[0]}
  {
    forall k | 0 <= k < |q|
      ensures q[k] !in done + {q0[0]} && (|q[k]| > |base| ==> Parent(q[k]) in done + {q0[0]})
    {
      if k < |q0| - 1 {
        assert q[k] == q0[k + 1];
      }
    }
  }

  /** The visited paths, the front one included, are no longer than any queued path. */
  lemma StepLengths(q0: seq<string>, q: seq<string>, done: set<string>)
    requires q0 != [] && |q| >= |q0| - 1 && q[..|q0| - 1] == q0[1..]
    requires forall d, k | d in done && 0 <= k < |q0| :: |d| <= |q0[k]|
    requires forall k | 0 < k < |q0| :: |q0[0]| <= |q0[k]|
    requires forall k | |q0| - 1 <= k < |q| :: |q[k]| == |q0[0]| + 1
    ensures forall d, k | d in done + {q0[0]} && 0 <= k < |q| :: |d| <= |q[k]|
  {
    forall d, k | d in done + {q0[0]} && 0 <= k < |q|
      ensures |d| <= |q[k]|
    {
      if k < |q0| - 1 {
        assert q[k] == q0[k + 1];
      }
    }
  }

  /** Every unvisited path below `base` still lies below a queued path once the front one is visited. */
  lemma StepCover<V>(g: Graph<V>, ps: map<string, NodeId>, base: string, queue0: seq<(NodeId, string)>, q0: seq<string>,
                     queue: seq<(NodeId, string)>, q: seq<string>, done: set<string>)
    requires Tree(g, ps) && QueueOk(ps, base, queue0, q0) && VisitOk(ps, base, q0, done) && q0 != []
    requires Appended(ps, base, q0[0], queue0[1..], q0[1..], queue, q)
    ensures forall u | Unvisited(ps, base, done + {q0[0]}, u) :: exists k | 0 <= k < |q| :: q[k] <= u
  {
    forall u | Unvisited(ps, base, done + {q0[0]}, u)
      ensures exists k | 0 <= k < |q| :: q[k] <= u
    {
      assert Unvisited(ps, base, done, u);
      CoverOne(g, ps, q0, q, u);
    }
  }

  /**
   * A path `u` other than the front `q0[0]` that lies below a path of `q0` lies below a path of
   * `q`, the rest of `q0` followed by every child of the front.
   */
  lemma CoverOne<V>(g: Graph<V>, ps: map<string, NodeId>, q0: seq<string>, q: seq<string>, u: string)
    requires Tree(g, ps) && q0 != [] && |q| >= |q0| - 1 && q[..|q0| - 1] == q0[1..]
    requires forall v | v in ps && |v| == |q0[0]| + 1 && q0[0] <= v :: v in q[|q0| - 1..]
    requires u in ps && u != q0[0] && exists k | 0 <= k < |q0| :: q0[k] <= u
    ensures exists k | 0 <= k < |q| :: q[k] <= u
  {
    var t := q0[0];
    var n := |q0| - 1;
    var k0 :| 0 <= k0 < |q0| && q0[k0] <= u;
    if k0 > 0 {
      assert q[k0 - 1] == q0[k0];
    } else {
      StrictPrefix(t, u);
      var j := BelowChild(g, ps, t, q[n..], u);
      assert q[n + j] <= u;
    }
  }

  /** A path strictly below `t` lies below one of the children of `t`, all of which are in `children`. */
  lemma BelowChild<V>(g: Graph<V>, ps: map<string, NodeId>, t: string, children: seq<string>, u: string)
    returns (j: int)
    requires Tree(g, ps) && u in ps && t <= u && |t| < |u|
    requires forall v | v in ps && |v| == |t| + 1 && t <= v :: v in children
    ensures 0 <= j < |children| && children[j] <= u
  {
    var w := u[..|t| + 1];
    PrefixClosed(g, ps, u, w);
    assert w in children;
    j :| 0 <= j < |children| && children[j] == w;
  }

  /** A proper prefix is shorter. */
  lemma StrictPrefix(t: string, u: string)
    requires t <= u && t != u
    ensures |t| < |u|
  {
  }

  /** Marking `t` visited: it becomes the pending entry when it completes. */
  lemma StepYield<V>(g: Graph<V>, ps: map<string, NodeId>, base: string, t: string, done: set<string>,
                     out: seq<string>, completes: bool)
    requires YieldOk(g, ps, base, done, out, None, None)
    requires t in ps && base <= t && ps[t] in g && t !in done && (forall d | d in done :: |d| <= |t|)
    requires completes == g[ps[t]].value.Some?
    ensures completes ==>
      YieldOk(g, ps, base, done + {t}, out, Some(t), Some(TrieEntry(Key(base, t), g[ps[t]].value.value)))
    ensures !completes ==> YieldOk(g, ps, base, done + {t}, out, None, None)
  {
  }

  /** Handing out the pending entry: its path joins the paths handed out, and nothing is pending. */
  lemma HandOut<V>(g: Graph<V>, ps: map<string, NodeId>, base: string, done: set<string>,
                   out: seq<string>, pend: Option<string>, next: Option<TrieEntry<V>>)
    requires YieldOk(g, ps, base, done, out, pend, next)
    ensures YieldOk(g, ps, base, done, if pend.Some? then out + [pend.value] else out, None, None)
  {
    var out' := if pend.Some? then out + [pend.value] else out;
    forall k | 0 <= k < |out'|
      ensures out'[k] in done && out'[k] in TermsBelow(g, ps, base)
    {
      if k < |out| {
        assert out'[k] == out[k];
      }
    }
    forall k, l | 0 <= k < l < |out'|
      ensures out'[k] != out'[l] && |out'[k]| <= |out'[l]|
    {
      assert out'[k] == out[k];
      if l < |out| {
        assert out'[l] == out[l];
      }
    }
  }

  /** An entry is held for the next call exactly when some term below `base` has not been handed out. */
  lemma Exhausted<V>(g: Graph<V>, ps: map<string, NodeId>, base: string, queue: seq<(NodeId, string)>,
                     q: seq<string>, done: set<string>, out: seq<string>, pend: Option<string>,
                     next: Option<TrieEntry<V>>)
    requires IterInv(g, ps, base, queue, q, done, out, pend, next)
    ensures next.Some? <==> exists t | t in TermsBelow(g, ps, base) :: t !in out
  {
    if next.None? {
      forall t | t in TermsBelow(g, ps, base)
        ensures t in out
      {
        assert !Unvisited(ps, base, done, t);
      }
    } else {
      assert pend.value in TermsBelow(g, ps, base);
    }
  }

  /**
   * `out` is `out0` followed by one more term below `base`, not handed out before and no shorter
   * than any that was, and `r` carries its entry.
   */
  ghost predicate HandedOut<V>(g: Graph<V>, ps: map<string, NodeId>, base: string, out0: seq<string>,
                               out: seq<string>, r: Result<TrieEntry<V>>)
  {
    exists t | t in TermsBelow(g, ps, base) && t !in out0 ::
      && out == out0 + [t]
      && r == Ok(EntryAt(g, ps, base, t))
      && forall u | u in out0 :: |u| <= |t|
  }

  /** `next` on the state of an iterator: see `TrieIterator.Next`. */
  method NextFrom<V>(g: Graph<V>, ghost ps: map<string, NodeId>, ghost base: string, queue0: seq<(NodeId, string)>,
                     ghost q0: seq<string>, ghost done0: set<string>, ghost out0: seq<string>,
                     ghost pend0: Option<string>, next0: Option<TrieEntry<V>>)
    returns (queue: seq<(NodeId, string)>, ghost q: seq<string>, ghost done: set<string>, ghost out: seq<string>,
             next: Option<TrieEntry<V>>, ghost pend: Option<string>, r: Result<TrieEntry<V>>)
    requires IterInv(g, ps, base, queue0, q0, done0, out0, pend0, next0)
    ensures IterInv(g, ps, base, queue, q, done, out, pend, next)
    ensures next0.None? ==> r == Err(NullPointer) && out == out0
    ensures next0.Some? ==> HandedOut(g, ps, base, out0, out, r)
  {
    var toReturn := next0;
    HandOut(g, ps, base, done0, out0, pend0, next0);
    out := if pend0.Some? then out0 + [pend0.value] else out0;
    queue, q, done, next, pend := SetNext(g, ps, base, queue0, q0, done0, out);
    if toReturn.None? {
      r := Err(NullPointer);
    } else {
      r := Ok(toReturn.value);
      assert pend0.value in TermsBelow(g, ps, base) && pend0.value !in out0;
    }
  }

  /** The ghost state of an iterator: the queued, visited and handed-out paths and the pending one. */
  datatype Walk = Walk(queued: seq<string>, visited: set<string>, yielded: seq<string>, pending: Option<string>)

  /**
   * `TrieIterator`: hands out the entries of the terms at or below its start node, shortest key
   * first. `table` is the table of the trie as it stood when the iterator was made, `paths` its
   * paths and `base` the path of the start node; `walk` is the ghost state of the walk.
   */
  class TrieIterator<V(!new)> {
    const table: Graph<V>
    ghost const paths: map<string, NodeId>
    ghost const base: string
    var queue: seq<(NodeId, string)>
    var next: Option<TrieEntry<V>>
    ghost var walk: Walk

    ghost predicate Valid()
      reads this
    {
      IterInv(table, paths, base, queue, walk.queued, walk.visited, walk.yielded, walk.pending, next)
    }

    /** `Valid()` is the invariant on the fields as they stand. */
    lemma ValidFrom(queue': seq<(NodeId, string)>, next': Option<TrieEntry<V>>, w: Walk)
      requires IterInv(table, paths, base, queue', w.queued, w.visited, w.yielded, w.pending, next')
      requires queue == queue' && next == next' && walk == w
      ensures Valid()
    {
    }

    /** The paths of the terms the iterator walks over. */
    ghost function Terms(): set<string>
    {
      TermsBelow(table, paths, base)
    }

    /** Some term below the start has not been handed out yet. */
    ghost predicate Remaining()
      reads this
    {
      exists t | t in Terms() :: t !in walk.yielded
    }

    /** The paths whose entries have been handed out, in order. */
    ghost function Yielded(): seq<string>
      reads this
    {
      walk.yielded
    }

    /** `init`: the start node alone in the queue, then `setNext`; nothing has been handed out. */
    constructor (g: Graph<V>, ghost ps: map<string, NodeId>, ghost b: string, start: NodeId)
      requires Tree(g, ps) && b in ps && ps[b] == start
      ensures Valid() && table == g && paths == ps && base == b && Yielded() == []
    {
      InitOk(g, ps, b);
      var queue', q, done, next', pend := SetNext(g, ps, b, [(start, g[start].str)], [b], {}, []);
      table, paths, base := g, ps, b;
      queue, next, walk := queue', next', Walk(q, done, [], pend);
    }

    /** `hasNext`: whether some term below the start has not been handed out yet. */
    method HasNext() returns (b: bool)
      requires Valid()
      ensures b == Remaining()
    {
      b := next.Some?;
      Exhausted(table, paths, base, queue, walk.queued, walk.visited, walk.yielded, walk.pending, next);
    }

    /**
     * `next`: hands out the entry of a term not handed out before, no shorter than any earlier
     * one, and moves on with `setNext`; once every term has been handed out, `toReturn!!` throws.
     */
    method Next() returns (r: Result<TrieEntry<V>>)
      requires Valid()
      modifies this
      ensures Valid()
      ensures !old(Remaining()) ==> r == Err(NullPointer) && Yielded() == old(Yielded())
      ensures old(Remaining()) ==> HandedOut(table, paths, base, old(Yielded()), Yielded(), r)
    {
      Exhausted(table, paths, base, queue, walk.queued, walk.visited, walk.yielded, walk.pending, next);
      var queue', next';
      ghost var q, done, out, pend;
      queue', q, done, out, next', pend, r :=
        NextFrom(table, paths, base, queue, walk.queued, walk.visited, walk.yielded, walk.pending, next);
      ghost var w := Walk(q, done, out, pend);
      queue, next, walk := queue', next', w;
      ValidFrom(queue', next', w);
    }
  }
}
