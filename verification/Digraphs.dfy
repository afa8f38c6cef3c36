/** Finite directed graphs: cycles, dependency orders, and the greedy order of Kahn's algorithm. */
module Digraphs {
  import opened Orders

  type Edges<T(==)> = set<(T, T)>

  ghost function Preds<T(!new)>(E: Edges<T>, n: T): set<T> {
    set e | e in E && e.1 == n :: e.0
  }

  ghost predicate IsPath<T>(E: Edges<T>, p: seq<T>) {
    forall i :: 0 <= i < |p| - 1 ==> (p[i], p[i + 1]) in E
  }

  ghost predicate IsCycle<T>(E: Edges<T>, p: seq<T>) {
    |p| >= 2 && p[0] == p[|p| - 1] && IsPath(E, p)
  }

  ghost predicate HasCycle<T(!new)>(E: Edges<T>) {
    exists p :: IsCycle(E, p)
  }

  /** Every node of `N` once, each after all its predecessors (which therefore lie in `N`). */
  ghost predicate IsTopo<T(!new)>(N: set<T>, E: Edges<T>, order: seq<T>) {
    && Elements(order) == N
    && Distinct(order)
    && RespectsEdges(E, order)
  }

  ghost predicate RespectsEdges<T(!new)>(E: Edges<T>, order: seq<T>) {
    forall i :: 0 <= i < |order| ==> Preds(E, order[i]) <= Elements(order[..i])
  }

  ghost function Ready<T(!new)>(N: set<T>, E: Edges<T>, done: set<T>): set<T> {
    set n | n in N && n !in done && Preds(E, n) <= done
  }

  // ---------- cycles against orders ----------

  /** Along a path of edges the position in a dependency order strictly grows. */
  lemma {:induction false} PathAdvances<T(!new)>(E: Edges<T>, order: seq<T>, p: seq<T>, k: nat) returns (i: nat, j: nat)
    requires RespectsEdges(E, order) && Distinct(order)
    requires IsPath(E, p) && 1 <= k < |p| && p[|p| - 1] in order
    ensures i < j < |order| && order[i] == p[|p| - 1 - k] && order[j] == p[|p| - 1]
  {
    var last := |p| - 1 - k;
    if k == 1 {
      j :| 0 <= j < |order| && order[j] == p[|p| - 1];
    } else {
      i, j := PathAdvances(E, order, p, k - 1);
      i, j := i, j;
    }
    ghost var hi := if k == 1 then j else i;
    assert (p[last], order[hi]) in E;
    assert (p[last], order[hi]).0 in Preds(E, order[hi]);
    assert p[last] in order[..hi];
    i :| 0 <= i < hi && order[i] == p[last];
  }

  lemma TopoHasNoCycle<T(!new)>(N: set<T>, E: Edges<T>, order: seq<T>)
    requires IsTopo(N, E, order) && forall e :: e in E ==> e.1 in N
    ensures !HasCycle(E)
  {
    forall p | IsCycle(E, p) ensures false {
      assert (p[|p| - 2], p[|p| - 1]) in E;
      assert p[|p| - 1] in Elements(order);
      var i, j := PathAdvances(E, order, p, |p| - 1);
    }
  }

  /** Walking predecessors inside `S` for `k` steps: a path of `k + 1` nodes of `S`. */
  lemma {:induction false} BackwardWalk<T(!new)>(S: set<T>, E: Edges<T>, k: nat) returns (p: seq<T>)
    requires S != {} && forall n :: n in S ==> Preds(E, n) * S != {}
    ensures |p| == k + 1 && IsPath(E, p) && Elements(p) <= S
  {
    if k == 0 {
      var n :| n in S;
      p := [n];
    } else {
      var q := BackwardWalk(S, E, k - 1);
      var first := q[0];
      assert first in Elements(q);
      var m :| m in Preds(E, first) * S;
      PrependStep(E, m, q);
      p := [m] + q;
      assert Elements(p) <= S by {
        forall x | x in p ensures x in S { assert x == m || x in Elements(q); }
      }
    }
  }

  lemma PrependStep<T(!new)>(E: Edges<T>, m: T, q: seq<T>)
    requires q != [] && IsPath(E, q) && m in Preds(E, q[0])
    ensures IsPath(E, [m] + q)
  {
    var p := [m] + q;
    forall i | 0 <= i < |p| - 1 ensures (p[i], p[i + 1]) in E {
      if i > 0 { assert (q[i - 1], q[i]) in E; }
    }
  }

  /** If every node of a non-empty set has a predecessor in the set, the graph has a cycle. */
  lemma StuckSetHasCycle<T(!new)>(S: set<T>, E: Edges<T>)
    requires S != {} && forall n :: n in S ==> Preds(E, n) * S != {}
    ensures HasCycle(E)
  {
    var p := BackwardWalk(S, E, |S|);
    Pigeonhole(p, S);
    var i, j :| 0 <= i < j < |p| && p[i] == p[j];
    var c := p[i..j + 1];
    forall k | 0 <= k < |c| - 1 ensures (c[k], c[k + 1]) in E {
      assert (p[i + k], p[i + k + 1]) in E;
    }
    assert IsCycle(E, c);
  }

  // ---------- the greedy order ----------

  /** At every position the chosen node is the least of those that were ready. */
  ghost predicate Greedy<T(!new)>(less: (T, T) -> bool, N: set<T>, E: Edges<T>, order: seq<T>) {
    forall i, x :: 0 <= i < |order| && x in Ready(N, E, Elements(order[..i])) ==> !less(x, order[i])
  }

  /** What a Kahn loop has emitted so far. */
  ghost predicate Emitted<T(!new)>(less: (T, T) -> bool, N: set<T>, E: Edges<T>, order: seq<T>) {
    && Elements(order) <= N
    && Distinct(order)
    && RespectsEdges(E, order)
    && Greedy(less, N, E, order)
  }

  /** The invariant of both Kahn loops: what has been emitted, and what the queue holds. */
  ghost predicate KahnState<T(!new)>(less: (T, T) -> bool, N: set<T>, E: Edges<T>, order: seq<T>, queue: seq<T>) {
    && Emitted(less, N, E, order)
    && Distinct(queue)
    && Elements(queue) == Ready(N, E, Elements(order))
  }

  /** Taking the head of a sorted queue keeps everything but the queue's contents. */
  lemma KahnPop<T(!new)>(less: (T, T) -> bool, N: set<T>, E: Edges<T>, order: seq<T>, queue: seq<T>)
    requires TotalOrder(less) && KahnState(less, N, E, order, queue)
    requires queue != [] && Sorted(less, queue)
    ensures var order' := order + [queue[0]];
            && Elements(order') == Elements(order) + {queue[0]}
            && Emitted(less, N, E, order')
            && queue[0] in N && queue[0] !in Elements(order)
  {
    var n, order' := queue[0], order + [queue[0]];
    assert n in Elements(queue);
    forall i | 0 <= i < |order'| ensures Preds(E, order'[i]) <= Elements(order'[..i]) {
      if i < |order| {
        assert order'[..i] == order[..i];
      } else {
        assert order'[..i] == order;
      }
    }
    forall i, x | 0 <= i < |order'| && x in Ready(N, E, Elements(order'[..i])) ensures !less(x, order'[i]) {
      if i < |order| {
        assert order'[..i] == order[..i];
      } else {
        assert order'[..i] == order;
        assert x in Elements(queue);
      }
    }
    assert n !in Elements(order);
  }

  /** Nodes that are never ready rule out every dependency order, and hide a cycle. */
  lemma StuckExcludesTopo<T(!new)>(N: set<T>, E: Edges<T>, done: set<T>)
    requires done < N && Ready(N, E, done) == {}
    ensures forall o :: !IsTopo(N, E, o)
    ensures (forall e :: e in E ==> e.0 in N) ==> HasCycle(E)
  {
    var S := N - done;
    var stuck :| stuck in N && stuck !in done;
    assert stuck in S;
    forall n | n in S ensures !(Preds(E, n) <= done) {
      assert n !in Ready(N, E, done);
    }
    forall o ensures !IsTopo(N, E, o) {
      if IsTopo(N, E, o) {
        var k := FirstOutside(o, done, S);
      }
    }
    if forall e :: e in E ==> e.0 in N {
      forall n | n in S ensures Preds(E, n) * S != {} {
        var m :| m in Preds(E, n) && m !in done;
        assert (m, n) in E;
        assert m in Preds(E, n) * S;
      }
      StuckSetHasCycle(S, E);
    }
  }

  /** When the queue is empty, either the order is complete or a set of nodes waits on itself. */
  lemma KahnFinish<T(!new)>(less: (T, T) -> bool, N: set<T>, E: Edges<T>, order: seq<T>)
    requires KahnState(less, N, E, order, [])
    ensures |order| <= |N|
    ensures |order| == |N| <==> IsTopo(N, E, order)
    ensures |order| != |N| ==> forall o :: !IsTopo(N, E, o)
    ensures |order| != |N| && (forall e :: e in E ==> e.0 in N) ==> HasCycle(E)
  {
    DistinctCardinality(order);
    SubsetCardinality(Elements(order), N);
    assert Ready(N, E, Elements(order)) == Elements<T>([]) == {};
    if |order| != |N| {
      assert Elements(order) != N;
      assert Ready(N, E, Elements(order)) == {};
      StuckExcludesTopo(N, E, Elements(order));
    }
  }

  lemma FirstOutside<T(!new)>(o: seq<T>, done: set<T>, S: set<T>) returns (k: nat)
    requires S != {} && S <= Elements(o) && S !! done && Elements(o) <= S + done
    ensures k < |o| && o[k] !in done && Elements(o[..k]) <= done
  {
    var n :| n in S;
    assert n in Elements(o) && n !in done;
    var at :| 0 <= at < |o| && o[at] == n;
    k := 0;
    while o[k] in done
      invariant k <= at && Elements(o[..k]) <= done
      decreases at - k
    {
      assert o[..k + 1] == o[..k] + [o[k]];
      k := k + 1;
    }
  }

  /** A greedy dependency order is lexicographically least among all dependency orders. */
  lemma GreedyIsLeast<T(!new)>(less: (T, T) -> bool, N: set<T>, E: Edges<T>, order: seq<T>, other: seq<T>)
    requires TotalOrder(less) && IsTopo(N, E, order) && Greedy(less, N, E, order) && IsTopo(N, E, other)
    ensures LexLe(less, order, other)
  {
    DistinctCardinality(order);
    DistinctCardinality(other);
    if order != other {
      var i := FirstDifference(order, other);
      assert Preds(E, other[i]) <= Elements(other[..i]);
      assert other[i] in Elements(other);
      assert forall k | 0 <= k < i :: other[k] == other[..i][k] && other[k] != other[i];
      assert other[i] in Ready(N, E, Elements(order[..i]));
    }
  }

  /** Lexicographically least: the specification both Kahn loops meet. */
  ghost predicate IsLeastTopo<T(!new)>(less: (T, T) -> bool, N: set<T>, E: Edges<T>, order: seq<T>) {
    IsTopo(N, E, order) && forall o :: IsTopo(N, E, o) ==> LexLe(less, order, o)
  }

  /** At most one order is least, so the node and edge sets determine it. */
  lemma LeastTopoUnique<T(!new)>(less: (T, T) -> bool, N: set<T>, E: Edges<T>, a: seq<T>, b: seq<T>)
    requires TotalOrder(less) && IsLeastTopo(less, N, E, a) && IsLeastTopo(less, N, E, b)
    ensures a == b
  {
    DistinctCardinality(a);
    DistinctCardinality(b);
    assert LexLe(less, a, b) && LexLe(less, b, a);
    LexLeAntisymmetric(less, a, b);
  }

  /** The verdict of a Kahn loop whose edges stay within its nodes. */
  lemma KahnVerdict<T(!new)>(less: (T, T) -> bool, N: set<T>, E: Edges<T>, order: seq<T>)
    requires TotalOrder(less) && KahnState(less, N, E, order, [])
    requires forall e :: e in E ==> e.1 in N
    ensures |order| <= |N|
    ensures |order| == |N| ==> IsLeastTopo(less, N, E, order) && !HasCycle(E)
    ensures |order| != |N| ==> (forall o :: !IsTopo(N, E, o)) && ((forall e :: e in E ==> e.0 in N) ==> HasCycle(E))
  {
    KahnFinish(less, N, E, order);
    if |order| == |N| {
      TopoHasNoCycle(N, E, order);
      forall o | IsTopo(N, E, o) ensures LexLe(less, order, o) {
        GreedyIsLeast(less, N, E, order, o);
      }
    }
  }
}
