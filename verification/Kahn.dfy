/** The in-degree bookkeeping both Kahn loops of the back end share. */
module Kahn {
  import opened Orders
  import opened Digraphs

  type EdgeList<T> = seq<(T, T)>

  /** How many listed edges still point at `d` from a node that is not done. */
  function CountInto<T(==)>(L: EdgeList<T>, d: T, done: set<T>): nat {
    if L == [] then 0
    else CountInto(L[..|L| - 1], d, done) +
         (if L[|L| - 1].1 == d && L[|L| - 1].0 !in done then 1 else 0)
  }

  /** The adjacency list of `s`: targets with multiplicity, in edge order. */
  function Targets<T(==)>(L: EdgeList<T>, s: T): seq<T> {
    if L == [] then []
    else Targets(L[..|L| - 1], s) + (if L[|L| - 1].0 == s then [L[|L| - 1].1] else [])
  }

  lemma CountAppend<T>(L: EdgeList<T>, e: (T, T), b: T)
    ensures CountInto(L + [e], b, {}) == CountInto(L, b, {}) + (if e.1 == b then 1 else 0)
    ensures Targets(L + [e], b) == Targets(L, b) + (if e.0 == b then [e.1] else [])
  {
    assert (L + [e])[..|L|] == L;
  }

  /** Finishing `n` lowers the count of `d` by the number of listed edges from `n` to `d`. */
  lemma {:induction false} CountDrops<T>(L: EdgeList<T>, d: T, done: set<T>, n: T)
    requires n !in done
    ensures CountInto(L, d, done) == CountInto(L, d, done + {n}) + multiset(Targets(L, n))[d]
  {
    if L != [] {
      CountDrops(L[..|L| - 1], d, done, n);
    }
  }

  lemma {:induction false} CountZero<T(!new)>(L: EdgeList<T>, d: T, done: set<T>)
    ensures CountInto(L, d, done) == 0 <==> Preds(Elements(L), d) <= done
  {
    if L != [] {
      var last, rest := L[|L| - 1], L[..|L| - 1];
      CountZero(rest, d, done);
      assert L == rest + [last];
      PredsAppend(rest, last, d);
    }
  }

  lemma PredsAppend<T(!new)>(L: EdgeList<T>, e: (T, T), d: T)
    ensures Preds(Elements(L + [e]), d) == Preds(Elements(L), d) + (if e.1 == d then {e.0} else {})
  {
    ElementsAppend(L, e);
    forall p ensures p in Preds(Elements(L + [e]), d) <==> (p, d) in Elements(L + [e]) {}
    forall p ensures p in Preds(Elements(L), d) <==> (p, d) in Elements(L) {}
  }

  lemma {:induction false} TargetsMembers<T>(L: EdgeList<T>, s: T)
    ensures forall t :: t in Targets(L, s) <==> (s, t) in L
  {
    if L != [] {
      TargetsMembers(L[..|L| - 1], s);
      assert L == L[..|L| - 1] + [L[|L| - 1]];
    }
  }

  lemma {:induction false} TargetsDistinct<T>(L: EdgeList<T>, s: T)
    requires Distinct(L)
    ensures Distinct(Targets(L, s))
  {
    if L != [] {
      TargetsDistinct(L[..|L| - 1], s);
      TargetsMembers(L[..|L| - 1], s);
    }
  }

  // ---------- the state between two pops ----------

  ghost predicate Degrees<T(!new)>(N: set<T>, L: EdgeList<T>, done: set<T>, inDegree: map<T, int>) {
    N <= inDegree.Keys && forall d :: d in N ==> inDegree[d] == CountInto(L, d, done)
  }

  ghost predicate Queued<T(!new)>(N: set<T>, done: set<T>, inDegree: map<T, int>, queue: seq<T>)
    requires N <= inDegree.Keys
  {
    Distinct(queue) && forall d :: d in queue <==> d in N && d !in done && inDegree[d] == 0
  }

  lemma QueueIsReady<T(!new)>(N: set<T>, E: Edges<T>, L: EdgeList<T>, done: set<T>, queue: seq<T>, inDegree: map<T, int>)
    requires Degrees(N, L, done, inDegree) && Elements(L) == E && Queued(N, done, inDegree, queue)
    ensures Elements(queue) == Ready(N, E, done)
  {
    forall d ensures d in Elements(queue) <==> d in Ready(N, E, done) {
      CountZero(L, d, done);
    }
  }

  lemma SortKeepsState<T(!new)>(less: (T, T) -> bool, N: set<T>, E: Edges<T>, order: seq<T>, queue: seq<T>)
    requires TotalOrder(less) && KahnState(less, N, E, order, queue)
    ensures KahnState(less, N, E, order, Sort(less, queue)) && Sorted(less, Sort(less, queue))
    ensures queue != [] ==> Sort(less, queue) != []
  {
    SortSorted(less, queue);
    SameMultisetSameElements(queue, Sort(less, queue));
  }

  lemma DonePreds<T(!new)>(E: Edges<T>, order: seq<T>)
    requires RespectsEdges(E, order)
    ensures forall d :: d in Elements(order) ==> Preds(E, d) <= Elements(order)
  {
    forall d | d in Elements(order) ensures Preds(E, d) <= Elements(order) {
      var i :| 0 <= i < |order| && order[i] == d;
      assert Preds(E, order[i]) <= Elements(order[..i]);
    }
  }

  // ---------- lowering the in-degrees of a popped node's targets ----------

  ghost predicate Lowered<T(!new)>(N: set<T>, left: map<T, int>, rest: seq<T>, inDegree: map<T, int>) {
    N <= inDegree.Keys && N <= left.Keys && forall d :: d in N ==> inDegree[d] == left[d] + multiset(rest)[d]
  }

  /** What the in-degrees will be once `node` is done: a fixed table the loop approaches. */
  lemma StartLowering<T(!new)>(N: set<T>, L: EdgeList<T>, done: set<T>, node: T, inDegree: map<T, int>) returns (left: map<T, int>)
    requires node in N && node !in done && Preds(Elements(L), node) <= done
    requires forall d :: d in done ==> Preds(Elements(L), d) <= done
    requires Degrees(N, L, done, inDegree)
    ensures left == map d | d in N :: CountInto(L, d, done + {node}) as int
    ensures Lowered(N, left, Targets(L, node), inDegree)
    ensures forall d :: d in Targets(L, node) ==> d !in done + {node}
  {
    left := map d | d in N :: CountInto(L, d, done + {node}) as int;
    forall d | d in N ensures inDegree[d] == left[d] + multiset(Targets(L, node))[d] {
      CountDrops(L, d, done, node);
    }
    TargetsMembers(L, node);
    forall d | d in Targets(L, node) ensures d !in done + {node} {
      assert (node, d) in Elements(L);
      assert node in Preds(Elements(L), d);
    }
  }

  lemma LowerStep<T(!new)>(N: set<T>, done: set<T>, left: map<T, int>, rest: seq<T>, inDegree: map<T, int>, queue: seq<T>)
    requires Lowered(N, left, rest, inDegree) && Queued(N, done, inDegree, queue)
    requires rest != [] && rest[0] in N && rest[0] !in done && left[rest[0]] >= 0
    ensures var x, inDegree' := rest[0], inDegree[rest[0] := inDegree[rest[0]] - 1];
            && Lowered(N, left, rest[1..], inDegree')
            && Queued(N, done, inDegree', if inDegree'[x] == 0 then queue + [x] else queue)
  {
    assert rest == [rest[0]] + rest[1..];
    assert inDegree[rest[0]] != 0 && rest[0] !in queue;
  }

  /** The same targets in another order lower the same table. */
  lemma LoweredSameBag<T(!new)>(N: set<T>, left: map<T, int>, a: seq<T>, b: seq<T>, inDegree: map<T, int>)
    requires Lowered(N, left, a, inDegree) && multiset(a) == multiset(b)
    ensures Lowered(N, left, b, inDegree)
  {
  }

  // ---------- one round of the loop ----------

  /** The in-degrees a round ends with. */
  ghost predicate Goal<T(!new)>(N: set<T>, L: EdgeList<T>, done: set<T>, left: map<T, int>) {
    left.Keys == N && forall d :: d in N ==> left[d] == CountInto(L, d, done)
  }

  lemma QueueTail<T(!new)>(N: set<T>, E: Edges<T>, L: EdgeList<T>, done: set<T>, queue: seq<T>, inDegree: map<T, int>)
    requires Degrees(N, L, done, inDegree) && Elements(L) == E
    requires queue != [] && Distinct(queue) && Elements(queue) == Ready(N, E, done)
    ensures queue[0] in N && queue[0] !in done && Preds(E, queue[0]) <= done
    ensures Queued(N, done + {queue[0]}, inDegree, queue[1..])
  {
    assert queue[0] in Elements(queue);
    forall d ensures d in queue[1..] <==> d in N && d !in done + {queue[0]} && inDegree[d] == 0 {
      CountZero(L, d, done);
      assert queue == [queue[0]] + queue[1..];
      assert d in queue <==> d in Elements(queue);
    }
  }

  /** Popping the head of the sorted queue: what the lowering loop may then rely on. */
  lemma PopStep<T(!new)>(less: (T, T) -> bool, N: set<T>, L: EdgeList<T>, order: seq<T>, queue: seq<T>, inDegree: map<T, int>)
      returns (left: map<T, int>)
    requires TotalOrder(less) && Degrees(N, L, Elements(order), inDegree)
    requires KahnState(less, N, Elements(L), order, queue) && queue != [] && Sorted(less, queue)
    ensures queue[0] in N && queue[0] !in Elements(order)
    ensures var order' := order + [queue[0]];
            && Elements(order') == Elements(order) + {queue[0]}
            && Emitted(less, N, Elements(L), order')
            && Goal(N, L, Elements(order'), left)
            && Queued(N, Elements(order'), inDegree, queue[1..])
            && forall d :: d in Targets(L, queue[0]) ==> d !in Elements(order')
    ensures Lowered(N, left, Targets(L, queue[0]), inDegree)
    ensures Sorted(less, queue[1..])
  {
    KahnPop(less, N, Elements(L), order, queue);
    QueueTail(N, Elements(L), L, Elements(order), queue, inDegree);
    DonePreds(Elements(L), order);
    left := StartLowering(N, L, Elements(order), queue[0], inDegree);
  }

  lemma PushStep<T(!new)>(less: (T, T) -> bool, N: set<T>, L: EdgeList<T>, order: seq<T>, queue: seq<T>,
                          left: map<T, int>, inDegree: map<T, int>)
    requires Emitted(less, N, Elements(L), order) && Goal(N, L, Elements(order), left)
    requires Lowered(N, left, [], inDegree) && Queued(N, Elements(order), inDegree, queue)
    ensures Degrees(N, L, Elements(order), inDegree) && KahnState(less, N, Elements(L), order, queue)
  {
    QueueIsReady(N, Elements(L), L, Elements(order), queue, inDegree);
  }
}
