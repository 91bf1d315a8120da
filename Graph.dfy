/** Kahn's topological sort over the dependency graph of the regular
    samples (Experiment.py, `update_all_concentrations`).

    Nodes are the positions 0..n-1 of the scheduled samples; `preds[i]`
    is the set of positions of the samples that sample `i` is made from.
    The adjacency lists `adj[j]` (who consumes `j`) and the in-degrees are
    built from the same edges. */
module Graph {

  /** The elements of a sequence. */
  function Elems(s: seq<int>): set<int>
  {
    set x | x in s
  }

  /** No element occurs twice. */
  predicate Distinct(s: seq<int>)
  {
    forall p, q :: 0 <= p < q < |s| ==> s[p] != s[q]
  }

  /** Every element is a position below `n`. */
  predicate Below(s: seq<int>, n: int)
  {
    forall p :: 0 <= p < |s| ==> 0 <= s[p] < n
  }

  /** All predecessor positions are nodes of the graph. */
  predicate WellFormed(preds: seq<set<int>>)
  {
    forall i :: 0 <= i < |preds| ==> forall j :: j in preds[i] ==> 0 <= j < |preds|
  }

  /** The positions 0..n-1. */
  function Nodes(n: int): (r: set<int>)
    ensures forall i :: i in r <==> 0 <= i < n
    decreases n
  {
    if n <= 0 then {} else Nodes(n - 1) + {n - 1}
  }

  /** A non-empty set of nodes in which every node has a predecessor
      inside the set: following predecessors inside it never ends, so the
      graph has a cycle through it. */
  ghost predicate Knot(preds: seq<set<int>>, s: set<int>)
  {
    s != {} && (forall i :: i in s ==> 0 <= i < |preds|) &&
    forall i {:trigger preds[i]} :: i in s ==> exists j :: j in preds[i] && j in s
  }

  /** The dependency graph has no cycle: no knot. */
  ghost predicate Acyclic(preds: seq<set<int>>)
  {
    forall s :: !Knot(preds, s)
  }

  /** Every node of `order` comes after all its predecessors. */
  predicate Topological(preds: seq<set<int>>, order: seq<int>)
  {
    Below(order, |preds|) &&
    (forall p, j :: 0 <= p < |order| && j in preds[order[p]] ==> j in order) &&
    (forall p, q :: 0 <= p < |order| && 0 <= q < |order| && order[q] in preds[order[p]] ==> q < p)
  }

  /** The adjacency lists describe the edges in `preds`: `i` is listed
      under `j` exactly when `j` is a predecessor of `i`. */
  predicate AdjacencyOf(preds: seq<set<int>>, adj: seq<seq<int>>)
  {
    |adj| == |preds| &&
    (forall j :: 0 <= j < |adj| ==> Distinct(adj[j]) && Below(adj[j], |preds|)) &&
    (forall i, j :: 0 <= i < |preds| && 0 <= j < |preds| ==> (i in adj[j] <==> j in preds[i]))
  }

  /** The in-degrees count the predecessors. */
  predicate InDegreesOf(preds: seq<set<int>>, indeg: seq<int>)
  {
    |indeg| == |preds| && forall i :: 0 <= i < |preds| ==> indeg[i] == |preds[i]|
  }

  /** A complete topological order rules out a knot: the earliest node
      of a knot in the order would need an earlier predecessor in it. */
  lemma OrderedIsAcyclic(preds: seq<set<int>>, order: seq<int>)
    requires Topological(preds, order) && Nodes(|preds|) <= Elems(order)
    ensures Acyclic(preds)
  {
    forall s | Knot(preds, s)
      ensures false
    {
      var x :| x in s;
      assert x in Elems(order);
      var p :| 0 <= p < |order| && order[p] == x;
      NoEarliest(preds, order, s, p);
    }
  }

  /** No node of a knot can be placed in a topological order: its
      predecessor in the knot would come earlier, and so on forever. */
  lemma {:induction false} NoEarliest(preds: seq<set<int>>, order: seq<int>, s: set<int>, p: int)
    requires Topological(preds, order) && Knot(preds, s)
    requires 0 <= p < |order| && order[p] in s
    ensures false
    decreases p
  {
    var x := order[p];
    var j :| j in preds[x] && j in s;
    assert j in order;
    var q :| 0 <= q < |order| && order[q] == j;
    NoEarliest(preds, order, s, q);
  }

  /** The nodes Kahn's algorithm never reaches form a knot: each has a
      predecessor outside the order, and that predecessor is unreached
      too. */
  lemma UnreachedIsKnot(preds: seq<set<int>>, order: seq<int>)
    requires WellFormed(preds)
    requires forall i :: 0 <= i < |preds| && i !in order ==> !(preds[i] <= Elems(order))
    requires !(Nodes(|preds|) <= Elems(order))
    ensures Knot(preds, Nodes(|preds|) - Elems(order))
  {
    var r := Nodes(|preds|) - Elems(order);
    forall i | i in r
      ensures exists j :: j in preds[i] && j in r
    {
      var j :| j in preds[i] && j !in Elems(order);
      assert j in r;
    }
  }

  /** The consumers in `succ` whose in-degree is exactly one, in order:
      those a release brings to zero. */
  function Reached(succ: seq<int>, indeg: seq<int>): seq<int>
    requires Below(succ, |indeg|)
  {
    if succ == [] then []
    else (if indeg[succ[0]] == 1 then [succ[0]] else []) + Reached(succ[1..], indeg)
  }

  lemma {:induction false} ReachedSnoc(succ: seq<int>, i: int, indeg: seq<int>)
    requires Below(succ, |indeg|) && 0 <= i < |indeg|
    ensures Below(succ + [i], |indeg|)
    ensures Reached(succ + [i], indeg) == Reached(succ, indeg) + (if indeg[i] == 1 then [i] else [])
    decreases |succ|
  {
    BelowSnoc(succ, i, |indeg|);
    var t := succ + [i];
    var last := if indeg[i] == 1 then [i] else [];
    if succ == [] {
      assert t == [i];
    } else {
      var head := if indeg[succ[0]] == 1 then [succ[0]] else [];
      assert t[0] == succ[0] && t[1..] == succ[1..] + [i];
      BelowSnoc(succ[1..], i, |indeg|);
      ReachedSnoc(succ[1..], i, indeg);
      calc {
        Reached(t, indeg);
        head + Reached(succ[1..] + [i], indeg);
        head + (Reached(succ[1..], indeg) + last);
        { assert head + (Reached(succ[1..], indeg) + last) == (head + Reached(succ[1..], indeg)) + last; }
        Reached(succ, indeg) + last;
      }
    }
  }

  lemma BelowSnoc(succ: seq<int>, i: int, n: int)
    requires Below(succ, n) && 0 <= i < n
    ensures Below(succ + [i], n)
  {
    var t := succ + [i];
    forall p | 0 <= p < |t| ensures 0 <= t[p] < n {
      if p < |succ| {
        assert t[p] == succ[p];
      }
    }
  }

  lemma {:induction false} ReachedMembers(succ: seq<int>, indeg: seq<int>)
    requires Below(succ, |indeg|)
    ensures forall x :: x in Reached(succ, indeg) <==> x in succ && indeg[x] == 1
    decreases |succ|
  {
    if succ != [] {
      ReachedMembers(succ[1..], indeg);
      assert forall x :: x in succ <==> x == succ[0] || x in succ[1..];
    }
  }

  lemma {:induction false} ReachedDistinct(succ: seq<int>, indeg: seq<int>)
    requires Below(succ, |indeg|) && Distinct(succ)
    ensures Distinct(Reached(succ, indeg))
    decreases |succ|
  {
    if succ != [] {
      var rest := succ[1..];
      ReachedDistinct(rest, indeg);
      ReachedMembers(rest, indeg);
      assert succ[0] !in rest by {
        forall p | 0 <= p < |rest| ensures rest[p] != succ[0] {
          assert rest[p] == succ[p + 1];
        }
      }
    }
  }

  /** The inner loop of Kahn's algorithm: every consumer of the node just
      sorted loses one in-degree, and those that reach zero join the
      queue in adjacency order. */
  method Release(succ: seq<int>, indeg: seq<int>, queue: seq<int>) returns (indeg': seq<int>, queue': seq<int>)
    requires Distinct(succ) && Below(succ, |indeg|)
    ensures |indeg'| == |indeg|
    ensures forall i :: 0 <= i < |indeg| ==> indeg'[i] == if i in succ then indeg[i] - 1 else indeg[i]
    ensures queue' == queue + Reached(succ, indeg)
  {
    indeg' := indeg;
    queue' := queue;
    var k := 0;
    while k < |succ|
      invariant 0 <= k <= |succ| && |indeg'| == |indeg|
      invariant forall i :: 0 <= i < |indeg| ==> indeg'[i] == if i in succ[..k] then indeg[i] - 1 else indeg[i]
      invariant queue' == queue + Reached(succ[..k], indeg)
    {
      var i := succ[k];
      PrefixStep(succ, k);
      ReachedSnoc(succ[..k], i, indeg);
      indeg' := indeg'[i := indeg'[i] - 1];
      if indeg'[i] == 0 {
        queue' := queue' + [i];
      }
      k := k + 1;
    }
    assert succ[..k] == succ;
  }

  /** One more element of a list without repeats: the prefix grows by a
      new element. */
  lemma PrefixStep(succ: seq<int>, k: int)
    requires Distinct(succ) && 0 <= k < |succ|
    ensures succ[..k + 1] == succ[..k] + [succ[k]] && succ[k] !in succ[..k]
    ensures forall x :: x in succ[..k + 1] <==> x in succ[..k] || x == succ[k]
  {
    assert succ[..k + 1] == succ[..k] + [succ[k]];
    forall p | 0 <= p < k ensures succ[..k][p] != succ[k] {
      assert succ[..k][p] == succ[p];
    }
  }

  /** The positions whose in-degree is zero, in increasing order: the
      initial queue. */
  function Sources(indeg: seq<int>): (r: seq<int>)
    ensures Below(r, |indeg|) && Distinct(r)
    ensures forall x :: x in r <==> 0 <= x < |indeg| && indeg[x] == 0
  {
    if indeg == [] then []
    else
      var last := |indeg| - 1;
      var rest := Sources(indeg[..last]);
      assert forall x :: x in rest ==> x < last;
      rest + (if indeg[last] == 0 then [last] else [])
  }

  /** `update_all_concentrations`, topological-sort part: repeatedly takes
      the head of the queue, appends it to the order and releases its
      consumers.  The result is a topological order of the nodes it
      reaches; it reaches them all exactly when the graph is acyclic, and
      every node left out keeps a positive in-degree. */
  method Kahn(ghost preds: seq<set<int>>, adj: seq<seq<int>>, indeg0: seq<int>) returns (sorted: seq<int>, indeg: seq<int>)
    requires WellFormed(preds) && AdjacencyOf(preds, adj) && InDegreesOf(preds, indeg0)
    ensures Distinct(sorted) && Topological(preds, sorted)
    ensures |indeg| == |preds|
    ensures forall i :: 0 <= i < |preds| ==> indeg[i] == |preds[i] - Elems(sorted)|
    ensures forall i :: 0 <= i < |preds| && i !in sorted ==> indeg[i] > 0
    ensures Nodes(|preds|) <= Elems(sorted) <==> Acyclic(preds)
  {
    indeg := indeg0;
    var queue := Sources(indeg0);
    sorted := [];
    KahnStart(preds, indeg0, queue);
    while queue != []
      invariant KahnInvariant(preds, indeg, sorted, queue)
      decreases Nodes(|preds|) - Elems(sorted)
    {
      var cur := queue[0];
      KahnPrepare(preds, adj, indeg, sorted, queue);
      var indeg', queue' := Release(adj[cur], indeg, queue[1..]);
      KahnStep(preds, adj, indeg, sorted, queue, indeg', queue');
      sorted := sorted + [cur];
      indeg, queue := indeg', queue';
    }
    KahnEnd(preds, indeg, sorted);
  }

  /** What holds between the steps of Kahn's algorithm: the order is
      topological, every in-degree counts the predecessors not yet
      sorted, and a node is sorted or queued exactly when all its
      predecessors are sorted. */
  ghost predicate KahnInvariant(preds: seq<set<int>>, indeg: seq<int>, sorted: seq<int>, queue: seq<int>)
  {
    |indeg| == |preds| &&
    Distinct(sorted) && Distinct(queue) && Elems(sorted) !! Elems(queue) &&
    Below(queue, |preds|) && Topological(preds, sorted) &&
    (forall i :: 0 <= i < |preds| ==> indeg[i] == |preds[i] - Elems(sorted)|) &&
    (forall i :: 0 <= i < |preds| ==> ((i in sorted || i in queue) <==> preds[i] <= Elems(sorted)))
  }

  lemma KahnStart(preds: seq<set<int>>, indeg0: seq<int>, queue: seq<int>)
    requires InDegreesOf(preds, indeg0) && queue == Sources(indeg0)
    ensures KahnInvariant(preds, indeg0, [], queue)
  {
    assert Elems([]) == {};
    forall i | 0 <= i < |preds|
      ensures indeg0[i] == |preds[i] - Elems([])|
    {
      assert preds[i] - Elems([]) == preds[i];
    }
  }

  /** Before a release: each consumer of the head of the queue still
      waits for it. */
  lemma KahnPrepare(preds: seq<set<int>>, adj: seq<seq<int>>, indeg: seq<int>, sorted: seq<int>, queue: seq<int>)
    requires WellFormed(preds) && AdjacencyOf(preds, adj)
    requires KahnInvariant(preds, indeg, sorted, queue) && queue != []
    ensures 0 <= queue[0] < |adj| && Distinct(adj[queue[0]]) && Below(adj[queue[0]], |indeg|)
    ensures forall x :: x in adj[queue[0]] ==> indeg[x] > 0
  {
    var cur := queue[0];
    assert cur !in Elems(sorted);
    forall x | x in adj[cur]
      ensures indeg[x] > 0
    {
      var p :| 0 <= p < |adj[cur]| && adj[cur][p] == x;
      assert cur in preds[x] - Elems(sorted);
    }
  }

  /** The invariant survives one step of Kahn's algorithm, and the set of
      sorted nodes grows. */
  lemma KahnStep(preds: seq<set<int>>, adj: seq<seq<int>>, indeg: seq<int>, sorted: seq<int>, queue: seq<int>,
                 indeg': seq<int>, queue': seq<int>)
    requires WellFormed(preds) && AdjacencyOf(preds, adj)
    requires KahnInvariant(preds, indeg, sorted, queue) && queue != []
    requires forall x :: x in adj[queue[0]] ==> indeg[x] > 0
    requires |indeg'| == |indeg|
    requires forall i :: 0 <= i < |indeg| ==> indeg'[i] == if i in adj[queue[0]] then indeg[i] - 1 else indeg[i]
    requires queue' == queue[1..] + Reached(adj[queue[0]], indeg)
    ensures KahnInvariant(preds, indeg', sorted + [queue[0]], queue')
    ensures Elems(sorted + [queue[0]]) == Elems(sorted) + {queue[0]} && queue[0] !in Elems(sorted)
    ensures 0 <= queue[0] < |preds|
  {
    var cur := queue[0];
    assert Elems(sorted + [cur]) == Elems(sorted) + {cur};
    assert cur !in Elems(sorted);
    StepCounts(preds, adj, indeg, sorted, cur, indeg');
    StepMembers(preds, adj, indeg, sorted, queue, queue');
    StepDistinct(preds, adj, indeg, sorted, queue, queue');
    assert cur in queue;
    StepOrder(preds, sorted, queue);
  }

  lemma StepCounts(preds: seq<set<int>>, adj: seq<seq<int>>, indeg: seq<int>, sorted: seq<int>, cur: int, indeg': seq<int>)
    requires AdjacencyOf(preds, adj) && |indeg| == |preds|
    requires 0 <= cur < |preds| && cur !in Elems(sorted)
    requires forall i :: 0 <= i < |preds| ==> indeg[i] == |preds[i] - Elems(sorted)|
    requires |indeg'| == |indeg|
    requires forall i :: 0 <= i < |indeg| ==> indeg'[i] == if i in adj[cur] then indeg[i] - 1 else indeg[i]
    ensures forall i :: 0 <= i < |preds| ==> indeg'[i] == |preds[i] - Elems(sorted + [cur])|
  {
    assert Elems(sorted + [cur]) == Elems(sorted) + {cur};
    forall i | 0 <= i < |preds|
      ensures indeg'[i] == |preds[i] - Elems(sorted + [cur])|
    {
      if cur in preds[i] {
        assert preds[i] - Elems(sorted) == (preds[i] - Elems(sorted + [cur])) + {cur};
      } else {
        assert preds[i] - Elems(sorted) == preds[i] - Elems(sorted + [cur]);
      }
    }
  }

  lemma StepMembers(preds: seq<set<int>>, adj: seq<seq<int>>, indeg: seq<int>, sorted: seq<int>, queue: seq<int>, queue': seq<int>)
    requires AdjacencyOf(preds, adj)
    requires KahnInvariant(preds, indeg, sorted, queue) && queue != []
    requires queue' == queue[1..] + Reached(adj[queue[0]], indeg)
    ensures forall i :: 0 <= i < |preds| ==>
      ((i in sorted + [queue[0]] || i in queue') <==> preds[i] <= Elems(sorted + [queue[0]]))
  {
    forall i | 0 <= i < |preds|
      ensures (i in sorted + [queue[0]] || i in queue') <==> preds[i] <= Elems(sorted + [queue[0]])
    {
      assert queue[0] in Elems(queue);
      StepMember(preds, adj, indeg, sorted, queue, queue', i);
    }
  }

  /** Node `i` is sorted or queued after the step exactly when all its
      predecessors are sorted. */
  lemma StepMember(preds: seq<set<int>>, adj: seq<seq<int>>, indeg: seq<int>, sorted: seq<int>, queue: seq<int>,
                   queue': seq<int>, i: int)
    requires queue != [] && 0 <= queue[0] < |adj| == |preds| == |indeg| && Below(adj[queue[0]], |indeg|)
    requires 0 <= i < |preds| && (i in adj[queue[0]] <==> queue[0] in preds[i])
    requires queue[0] !in Elems(sorted) && preds[queue[0]] <= Elems(sorted)
    requires indeg[i] == |preds[i] - Elems(sorted)|
    requires (i in sorted || i in queue) <==> preds[i] <= Elems(sorted)
    requires queue' == queue[1..] + Reached(adj[queue[0]], indeg)
    ensures (i in sorted + [queue[0]] || i in queue') <==> preds[i] <= Elems(sorted + [queue[0]])
  {
    var cur := queue[0];
    var next := sorted + [cur];
    var joined := Reached(adj[cur], indeg);
    assert Elems(next) == Elems(sorted) + {cur};
    ReachedMembers(adj[cur], indeg);
    assert i in queue <==> i == cur || i in queue[1..];
    assert i in next <==> i in sorted || i == cur;
    if cur in preds[i] {
      assert i in adj[cur];
      assert !(preds[i] <= Elems(sorted));
      if |preds[i] - Elems(sorted)| == 1 {
        CardOne(preds[i] - Elems(sorted), cur);
      }
      assert i in joined <==> preds[i] - Elems(sorted) == {cur};
    } else {
      assert i !in adj[cur];
    }
  }

  /** The queue without its head is distinct and does not hold the head. */
  lemma QueueTail(queue: seq<int>)
    requires Distinct(queue) && queue != []
    ensures Distinct(queue[1..]) && queue[0] !in queue[1..]
  {
    var waiting := queue[1..];
    forall p, q | 0 <= p < q < |waiting| ensures waiting[p] != waiting[q] {
      assert waiting[p] == queue[p + 1] && waiting[q] == queue[q + 1];
    }
    forall p | 0 <= p < |waiting| ensures waiting[p] != queue[0] {
      assert waiting[p] == queue[p + 1];
    }
  }

  /** A node released by the head was neither sorted nor queued. */
  lemma JoinedFresh(preds: seq<set<int>>, adj: seq<seq<int>>, indeg: seq<int>, sorted: seq<int>, queue: seq<int>)
    requires AdjacencyOf(preds, adj)
    requires KahnInvariant(preds, indeg, sorted, queue) && queue != []
    ensures Below(adj[queue[0]], |indeg|)
    ensures forall x :: x in Reached(adj[queue[0]], indeg) ==>
      0 <= x < |preds| && x !in queue && x !in sorted
  {
    var cur := queue[0];
    assert cur in Elems(queue);
    assert cur !in Elems(sorted);
    ReachedMembers(adj[cur], indeg);
    forall x | x in Reached(adj[cur], indeg)
      ensures 0 <= x < |preds| && x !in queue && x !in sorted
    {
      assert cur in preds[x];
    }
  }

  lemma StepDistinct(preds: seq<set<int>>, adj: seq<seq<int>>, indeg: seq<int>, sorted: seq<int>, queue: seq<int>, queue': seq<int>)
    requires AdjacencyOf(preds, adj)
    requires KahnInvariant(preds, indeg, sorted, queue) && queue != []
    requires queue' == queue[1..] + Reached(adj[queue[0]], indeg)
    ensures Distinct(sorted + [queue[0]]) && Distinct(queue') && Elems(sorted + [queue[0]]) !! Elems(queue')
    ensures Below(queue', |preds|)
  {
    var cur, waiting := queue[0], queue[1..];
    var joined := Reached(adj[cur], indeg);
    JoinedFresh(preds, adj, indeg, sorted, queue);
    ReachedDistinct(adj[cur], indeg);
    QueueTail(queue);
    DistinctAppend(waiting, joined);
    assert cur in Elems(queue);
    DistinctAppend(sorted, [cur]);
    DisjointStep(sorted, queue, joined);
    BelowStep(queue, joined, |preds|);
  }

  /** The head moves from the queue to the order, and only fresh nodes
      join the queue: the two stay disjoint. */
  lemma DisjointStep(sorted: seq<int>, queue: seq<int>, joined: seq<int>)
    requires Elems(sorted) !! Elems(queue) && queue != [] && queue[0] !in queue[1..]
    requires forall x :: x in joined ==> x !in queue && x !in sorted
    ensures Elems(sorted + [queue[0]]) !! Elems(queue[1..] + joined)
  {
    var cur := queue[0];
    assert Elems(sorted + [cur]) == Elems(sorted) + {cur};
    forall x | x in Elems(queue[1..] + joined)
      ensures x !in Elems(sorted) + {cur}
    {
      if x in queue[1..] {
        assert x in Elems(queue);
      }
    }
  }

  /** The queue after a step holds positions of nodes only. */
  lemma BelowStep(queue: seq<int>, joined: seq<int>, n: int)
    requires Below(queue, n) && queue != []
    requires forall x :: x in joined ==> 0 <= x < n
    ensures Below(queue[1..] + joined, n)
  {
    var waiting, next := queue[1..], queue[1..] + joined;
    forall p | 0 <= p < |next| ensures 0 <= next[p] < n {
      if p < |waiting| {
        assert next[p] == queue[p + 1];
      } else {
        assert next[p] in joined;
      }
    }
  }

  lemma StepOrder(preds: seq<set<int>>, sorted: seq<int>, queue: seq<int>)
    requires Topological(preds, sorted) && queue != [] && Below(queue, |preds|)
    requires preds[queue[0]] <= Elems(sorted) && queue[0] !in sorted
    ensures Topological(preds, sorted + [queue[0]])
  {
    var cur := queue[0];
    var next := sorted + [cur];
    forall p, j | 0 <= p < |next| && j in preds[next[p]]
      ensures j in next
    {
      if p < |sorted| {
        assert next[p] == sorted[p];
      }
    }
    forall p, q | 0 <= p < |next| && 0 <= q < |next| && next[q] in preds[next[p]]
      ensures q < p
    {
      if p < |sorted| && q < |sorted| {
        assert next[p] == sorted[p] && next[q] == sorted[q];
      }
    }
  }

  /** At the end the queue is empty: each unsorted node keeps a positive
      in-degree, and the order is complete exactly when there is no
      cycle. */
  lemma KahnEnd(preds: seq<set<int>>, indeg: seq<int>, sorted: seq<int>)
    requires WellFormed(preds) && KahnInvariant(preds, indeg, sorted, [])
    ensures forall i :: 0 <= i < |preds| && i !in sorted ==> indeg[i] > 0
    ensures Nodes(|preds|) <= Elems(sorted) <==> Acyclic(preds)
  {
    assert forall i :: 0 <= i < |preds| && i !in sorted ==> !(preds[i] <= Elems(sorted));
    UnsortedWaiting(preds, indeg, sorted);
    if Nodes(|preds|) <= Elems(sorted) {
      OrderedIsAcyclic(preds, sorted);
    } else {
      CycleLeftOut(preds, sorted);
    }
  }

  /** When some node stays unsorted, the graph has a cycle. */
  lemma CycleLeftOut(preds: seq<set<int>>, order: seq<int>)
    requires WellFormed(preds)
    requires forall i :: 0 <= i < |preds| && i !in order ==> !(preds[i] <= Elems(order))
    requires !(Nodes(|preds|) <= Elems(order))
    ensures !Acyclic(preds)
  {
    UnreachedIsKnot(preds, order);
    var r := Nodes(|preds|) - Elems(order);
    assert Knot(preds, r);
  }

  lemma UnsortedWaiting(preds: seq<set<int>>, indeg: seq<int>, sorted: seq<int>)
    requires |indeg| == |preds|
    requires forall i :: 0 <= i < |preds| ==> indeg[i] == |preds[i] - Elems(sorted)|
    requires forall i :: 0 <= i < |preds| && i !in sorted ==> !(preds[i] <= Elems(sorted))
    ensures forall i :: 0 <= i < |preds| && i !in sorted ==> indeg[i] > 0
  {
    forall i | 0 <= i < |preds| && i !in sorted
      ensures indeg[i] > 0
    {
      NotSubset(preds[i], Elems(sorted));
    }
  }

  /** A set not contained in another keeps an element outside it. */
  lemma NotSubset(a: set<int>, b: set<int>)
    requires !(a <= b)
    ensures |a - b| > 0
  {
    if |a - b| == 0 {
      EmptyDifference(a, b);
    }
  }

  lemma EmptyDifference(a: set<int>, b: set<int>)
    requires |a - b| == 0
    ensures a <= b
  {
    forall x | x in a ensures x in b {
      assert x !in a - b;
    }
  }

  /** A one-element set holding `x` is `{x}`. */
  lemma CardOne(s: set<int>, x: int)
    requires |s| == 1 && x in s
    ensures s == {x}
  {
    var rest := s - {x};
    assert |rest| == 0;
  }

  /** Joining two sequences without common or repeated elements. */
  lemma DistinctAppend(a: seq<int>, b: seq<int>)
    requires Distinct(a) && Distinct(b) && forall x :: x in b ==> x !in a
    ensures Distinct(a + b)
  {
    var c := a + b;
    forall p, q | 0 <= p < q < |c| ensures c[p] != c[q] {
      if p < |a| && q >= |a| {
        assert c[p] in a && c[q] == b[q - |a|];
      } else if p >= |a| {
        assert c[p] == b[p - |a|] && c[q] == b[q - |a|];
      }
    }
  }
}
