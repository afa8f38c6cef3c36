/** What a depth-first search knows from its stack and its finishing order. */
module DepthFirst {
  import opened Orders
  import opened Digraphs

  /** Every successor of a finished node finished before it. */
  ghost predicate SuccessorsFirst(E: Edges<string>, post: seq<string>) {
    forall i, m :: 0 <= i < |post| && (post[i], m) in E ==> m in post[..i]
  }

  /** An edge from the top of the stack back into it closes a ring of stacked nodes. */
  lemma BackEdgeRing(E: Edges<string>, path: seq<string>, k: nat)
    requires IsPath(E, path) && k < |path| && (path[|path| - 1], path[k]) in E
    ensures IsCycle(E, path[k..] + [path[k]])
  {
    var ring := path[k..] + [path[k]];
    forall i | 0 <= i < |ring| - 1 ensures (ring[i], ring[i + 1]) in E {
      if i < |ring| - 2 { assert (path[k + i], path[k + i + 1]) in E; }
    }
  }

  lemma BackEdgeCloses(E: Edges<string>, path: seq<string>, target: string)
    requires IsPath(E, path) && target in path && (path[|path| - 1], target) in E
    ensures HasCycle(E)
  {
    var k :| 0 <= k < |path| && path[k] == target;
    BackEdgeRing(E, path, k);
  }

  /** Popping a node whose successors are all finished extends the finishing order. */
  lemma FinishNode(E: Edges<string>, post: seq<string>, node: string)
    requires SuccessorsFirst(E, post) && forall m :: (node, m) in E ==> m in post
    ensures SuccessorsFirst(E, post + [node])
  {
    forall i, m | 0 <= i < |post + [node]| && ((post + [node])[i], m) in E ensures m in (post + [node])[..i] {
      assert (post + [node])[..i] == post[..i];
      if i == |post| {
        assert post[..i] == post;
      }
    }
  }

  lemma PopNode(E: Edges<string>, outer: seq<string>, post: seq<string>, node: string)
    requires IsPath(E, outer + [node]) && Distinct(outer + [node]) && Distinct(post)
    requires Elements(outer + [node]) !! Elements(post)
    ensures IsPath(E, outer) && Distinct(outer) && Elements(outer + [node]) == Elements(outer) + {node}
    ensures Elements(post + [node]) == Elements(post) + {node} && Distinct(post + [node]) && node !in outer
    ensures Elements(outer) !! Elements(post + [node])
  {
    ElementsAppend(outer, node);
    assert node in Elements(outer + [node]);
    ElementsAppend(post, node);
    forall i | 0 <= i < |outer| - 1 ensures (outer[i], outer[i + 1]) in E {
      assert ((outer + [node])[i], (outer + [node])[i + 1]) in E;
    }
    assert forall i | 0 <= i < |outer| :: outer[i] == (outer + [node])[i] && (outer + [node])[i] != (outer + [node])[|outer|];
  }

  lemma PushNode(E: Edges<string>, outer: seq<string>, post: seq<string>, node: string)
    requires IsPath(E, outer) && Distinct(outer) && Elements(outer) !! Elements(post)
    requires node !in outer && node !in post && (outer != [] ==> (outer[|outer| - 1], node) in E)
    ensures IsPath(E, outer + [node]) && Distinct(outer + [node])
    ensures Elements(outer + [node]) == Elements(outer) + {node}
    ensures Elements(outer + [node]) !! Elements(post)
  {
    ElementsAppend(outer, node);
  }

  /** A finishing order with every successor first, read backwards, is a dependency order. */
  lemma FinishedHasNoCycle(nodes: set<string>, E: Edges<string>, post: seq<string>)
    requires SuccessorsFirst(E, post) && Distinct(post) && Elements(post) == nodes
    requires forall e :: e in E ==> e.0 in nodes && e.1 in nodes
    ensures !HasCycle(E)
  {
    var n := |post|;
    var order := seq(n, i requires 0 <= i < n => post[n - 1 - i]);
    forall x ensures x in order <==> x in post {
      if x in post {
        var k :| 0 <= k < n && post[k] == x;
        assert order[n - 1 - k] == x;
      }
    }
    forall i, m | 0 <= i < n && m in Preds(E, order[i]) ensures m in order[..i] {
      assert (m, order[i]) in E && m in Elements(post);
      var k :| 0 <= k < n && post[k] == m;
      assert order[i] in post[..k];
      assert order[n - 1 - k] == m;
      assert n - 1 - k < i;
    }
    assert IsTopo(nodes, E, order);
    TopoHasNoCycle(nodes, E, order);
  }
}
