/** `_execution_order`: blocks and page variables in one dependency order. */
module ExecutionOrder {
  import opened Orders
  import opened Digraphs
  import opened Kahn
  import opened Charts
  import opened Results

  /** A tuple `("block", id)` or `("var", name)`. */
  datatype Node = BlockNode(id: string) | VarNode(name: string)

  /** Python's order on those tuples: the tag first, so blocks come before variables. */
  predicate NodeLess(a: Node, b: Node) {
    match (a, b)
    case (BlockNode(x), BlockNode(y)) => StrLess(x, y)
    case (VarNode(x), VarNode(y)) => StrLess(x, y)
    case (BlockNode(_), VarNode(_)) => true
    case (VarNode(_), BlockNode(_)) => false
  }

  lemma NodeLessTotal()
    ensures TotalOrder(NodeLess)
  {
    StrLessTotal();
    forall a: Node ensures !NodeLess(a, a) {
      if a.BlockNode? { StrLessIrreflexive(a.id); } else { StrLessIrreflexive(a.name); }
    }
    forall a: Node, b: Node ensures NodeLess(a, b) || NodeLess(b, a) || a == b {
      match (a, b)
      case (BlockNode(x), BlockNode(y)) => StrLessTrichotomy(x, y);
      case (VarNode(x), VarNode(y)) => StrLessTrichotomy(x, y);
      case _ =>
    }
    forall a: Node, b: Node, c: Node | NodeLess(a, b) && NodeLess(b, c) ensures NodeLess(a, c) {
      match (a, b, c)
      case (BlockNode(x), BlockNode(y), BlockNode(z)) => StrLessTransitive(x, y, z);
      case (VarNode(x), VarNode(y), VarNode(z)) => StrLessTransitive(x, y, z);
      case _ =>
    }
  }

  function NodeOf(blocks: set<string>, internal: set<string>, e: Endpoint): Option<Node> {
    if e.block in blocks then Some(BlockNode(e.block))
    else if e.block == INTERFACE && e.port in internal then Some(VarNode(e.port))
    else None
  }

  function NodeSet(blocks: set<string>, writes: set<string>): set<Node> {
    (set b | b in blocks :: BlockNode(b)) + (set v | v in writes :: VarNode(v))
  }

  predicate IsEdge(blocks: set<string>, internal: set<string>, nodes: set<Node>, c: Connection) {
    var src, dst := NodeOf(blocks, internal, c.src), NodeOf(blocks, internal, c.dst);
    src.Some? && dst.Some? && src != dst && dst.value in nodes
  }

  function EdgeOf(blocks: set<string>, internal: set<string>, nodes: set<Node>, c: Connection): (Node, Node)
    requires IsEdge(blocks, internal, nodes, c)
  {
    (NodeOf(blocks, internal, c.src).value, NodeOf(blocks, internal, c.dst).value)
  }

  /** The dependencies the wires draw; a wire from a node to itself is not one. */
  ghost function NodeEdges(blocks: set<string>, internal: set<string>, nodes: set<Node>, connections: seq<Connection>): Edges<Node> {
    set c | c in connections && IsEdge(blocks, internal, nodes, c) :: EdgeOf(blocks, internal, nodes, c)
  }

  lemma NodeEdgesAppend(blocks: set<string>, internal: set<string>, nodes: set<Node>, connections: seq<Connection>, c: Connection)
    ensures NodeEdges(blocks, internal, nodes, connections + [c]) ==
            NodeEdges(blocks, internal, nodes, connections) +
            (if IsEdge(blocks, internal, nodes, c) then {EdgeOf(blocks, internal, nodes, c)} else {})
  {
    var E, E' := NodeEdges(blocks, internal, nodes, connections), NodeEdges(blocks, internal, nodes, connections + [c]);
    forall e | e in E ensures e in E' {
      var w :| w in connections && IsEdge(blocks, internal, nodes, w) && e == EdgeOf(blocks, internal, nodes, w);
      assert w in connections + [c];
    }
    if IsEdge(blocks, internal, nodes, c) {
      assert c in connections + [c];
    }
  }

  // ---------- the tables ----------

  /** The edges in the order the wire loop meets them, each once: what `edges` and `indegree` count. */
  ghost predicate Tables(N: set<Node>, L: EdgeList<Node>, edges: map<Node, set<Node>>, indegree: map<Node, int>) {
    && Distinct(L)
    && (forall n, m :: n in edges && m in edges[n] ==> (n, m) in L)
    && (forall e :: e in L ==> e.0 in edges && e.1 in edges[e.0] && e.1 in N)
    && indegree.Keys == N
    && Degrees(N, L, {}, indegree)
  }

  lemma DegreesAppend(N: set<Node>, L: EdgeList<Node>, indegree: map<Node, int>, e: (Node, Node))
    requires N == indegree.Keys && Degrees(N, L, {}, indegree) && e.1 in N
    ensures Degrees(N, L + [e], {}, indegree[e.1 := indegree[e.1] + 1])
  {
    forall d | d in N ensures indegree[e.1 := indegree[e.1] + 1][d] == CountInto(L + [e], d, {}) {
      CountAppend(L, e, d);
    }
  }

  lemma TablesNamed(N: set<Node>, L: EdgeList<Node>, edges: map<Node, set<Node>>, indegree: map<Node, int>, s: Node)
    requires Tables(N, L, edges, indegree) && s !in edges
    ensures Tables(N, L, edges[s := {}], indegree)
  {
    hide Degrees;
  }

  lemma TablesAppend(N: set<Node>, L: EdgeList<Node>, edges: map<Node, set<Node>>, indegree: map<Node, int>, s: Node, d: Node)
    requires Tables(N, L, edges, indegree) && s in edges && d !in edges[s] && d in N
    ensures indegree.Keys == N && Tables(N, L + [(s, d)], edges[s := edges[s] + {d}], indegree[d := indegree[d] + 1])
  {
    hide Degrees;
    DegreesAppend(N, L, indegree, (s, d));
    assert (s, d) !in L;
    forall e | e in L + [(s, d)] ensures e in L || e == (s, d) {
    }
  }

  lemma TablesListed(N: set<Node>, L: EdgeList<Node>, edges: map<Node, set<Node>>, indegree: map<Node, int>, s: Node, d: Node)
    requires Tables(N, L, edges, indegree) && s in edges && d in edges[s]
    ensures (s, d) in L && Elements(L) + {(s, d)} == Elements(L)
  {
    hide Degrees;
  }

  /** One pass of the wire loop for a wire that is an edge. */
  method AddEdge(N: set<Node>, ghost L: EdgeList<Node>, edges0: map<Node, set<Node>>, indegree0: map<Node, int>, s: Node, d: Node)
      returns (edges: map<Node, set<Node>>, indegree: map<Node, int>, ghost L': EdgeList<Node>)
    requires Tables(N, L, edges0, indegree0) && d in N
    ensures Tables(N, L', edges, indegree) && Elements(L') == Elements(L) + {(s, d)}
  {
    hide *;
    edges, indegree, L' := edges0, indegree0, L;
    if s !in edges {
      TablesNamed(N, L, edges, indegree, s);
      edges := edges[s := {}];
    }
    if d !in edges[s] {
      TablesAppend(N, L, edges, indegree, s, d);
      edges := edges[s := edges[s] + {d}];
      indegree := indegree[d := indegree[d] + 1];
      L' := L + [(s, d)];
      ElementsAppend(L, (s, d));
    } else {
      TablesListed(N, L, edges, indegree, s, d);
    }
  }

  method BuildEdges(blocks: set<string>, internal: set<string>, N: set<Node>, connections: seq<Connection>)
      returns (edges: map<Node, set<Node>>, indegree: map<Node, int>, ghost L: EdgeList<Node>)
    ensures Tables(N, L, edges, indegree)
    ensures Elements(L) == NodeEdges(blocks, internal, N, connections)
  {
    edges := map[];
    indegree := map n | n in N :: 0;
    L := [];
    for i := 0 to |connections|
      invariant Elements(L) == NodeEdges(blocks, internal, N, connections[..i])
      invariant Tables(N, L, edges, indegree)
    {
      var c := connections[i];
      assert connections[..i + 1] == connections[..i] + [c];
      NodeEdgesAppend(blocks, internal, N, connections[..i], c);
      var src, dst := NodeOf(blocks, internal, c.src), NodeOf(blocks, internal, c.dst);
      if src.None? || dst.None? || src == dst || dst.value !in N { continue; }
      edges, indegree, L := AddEdge(N, L, edges, indegree, src.value, dst.value);
    }
    assert connections[..|connections|] == connections;
  }

  // ---------- the loop ----------

  /** The inner `for nxt in sorted(edges.get(node, ()))` loop. */
  method Release(N: set<Node>, ghost done: set<Node>, ghost left: map<Node, int>, next: seq<Node>,
                 queue0: seq<Node>, indegree0: map<Node, int>)
      returns (queue: seq<Node>, indegree: map<Node, int>)
    requires forall i :: 0 <= i < |next| ==> next[i] in N && next[i] !in done
    requires (forall d :: d in left ==> left[d] >= 0) && left.Keys == N
    requires N <= indegree0.Keys && Lowered(N, left, next, indegree0)
    requires Queued(N, done, indegree0, queue0) && Sorted(NodeLess, queue0)
    ensures Lowered(N, left, [], indegree) && Queued(N, done, indegree, queue)
    ensures Sorted(NodeLess, queue)
  {
    NodeLessTotal();
    hide *;
    queue, indegree := queue0, indegree0;
    ghost var rest := next;
    for j := 0 to |next|
      invariant rest == next[j..] && N <= indegree.Keys
      invariant Lowered(N, left, rest, indegree)
      invariant Queued(N, done, indegree, queue) && Sorted(NodeLess, queue)
    {
      var nxt := next[j];
      LowerStep(N, done, left, rest, indegree, queue);
      rest := rest[1..];
      indegree := indegree[nxt := indegree[nxt] - 1];
      if indegree[nxt] == 0 {
        ghost var longer := queue + [nxt];
        queue := Sort(NodeLess, queue + [nxt]);
        SortSorted(NodeLess, longer);
        SameQueue(N, done, indegree, longer, queue);
      }
    }
  }

  lemma SameQueue(N: set<Node>, done: set<Node>, indegree: map<Node, int>, a: seq<Node>, b: seq<Node>)
    requires N <= indegree.Keys && Queued(N, done, indegree, a) && multiset(a) == multiset(b)
    ensures Queued(N, done, indegree, b)
  {
    SameMultisetSameElements(a, b);
    assert forall d :: d in b <==> d in Elements(b);
  }

  /** The sorted successor set of a node is its adjacency list, in another order. */
  lemma NextAreTargets(N: set<Node>, L: EdgeList<Node>, edges: map<Node, set<Node>>, indegree: map<Node, int>, node: Node, next: seq<Node>)
    requires Tables(N, L, edges, indegree) && Distinct(next)
    requires Elements(next) == if node in edges then edges[node] else {}
    ensures multiset(next) == multiset(Targets(L, node))
    ensures forall d :: d in next ==> d in N && d in Targets(L, node)
  {
    TargetsMembers(L, node);
    TargetsDistinct(L, node);
    assert forall d :: d in next <==> d in Elements(next);
    OnceEach(next);
    OnceEach(Targets(L, node));
  }

  method Drain(N: set<Node>, ghost L: EdgeList<Node>, edges: map<Node, set<Node>>, queue0: seq<Node>, indegree0: map<Node, int>)
      returns (order: seq<Node>)
    requires Tables(N, L, edges, indegree0) && Queued(N, {}, indegree0, queue0)
    requires Sorted(NodeLess, queue0)
    ensures KahnState(NodeLess, N, Elements(L), order, [])
  {
    NodeLessTotal();
    var queue, indegree := queue0, indegree0;
    order := [];
    assert Elements(order) == {};
    QueueIsReady(N, Elements(L), L, {}, queue, indegree);
    while queue != []
      invariant Degrees(N, L, Elements(order), indegree)
      invariant Sorted(NodeLess, queue) && KahnState(NodeLess, N, Elements(L), order, queue)
      decreases N - Elements(order)
    {
      hide *;
      ghost var left := PopStep(NodeLess, N, L, order, queue, indegree);
      var node := queue[0];
      queue := queue[1..];
      order := order + [node];
      var next := SortedSet(NodeLess, if node in edges then edges[node] else {});
      NextAreTargets(N, L, edges, indegree0, node, next);
      LoweredSameBag(N, left, Targets(L, node), next, indegree);
      queue, indegree := Release(N, Elements(order), left, next, queue, indegree);
      PushStep(NodeLess, N, L, order, queue, left, indegree);
    }
  }

  method SortedKeysAtZero(indegree: map<Node, int>) returns (queue: seq<Node>)
    ensures Queued(indegree.Keys, {}, indegree, queue) && Sorted(NodeLess, queue)
  {
    NodeLessTotal();
    var keys := SortedSet(NodeLess, indegree.Keys);
    assert forall k :: k in keys <==> k in Elements(keys);
    queue := [];
    for i := 0 to |keys|
      invariant Distinct(queue) && Sorted(NodeLess, queue)
      invariant forall d :: d in queue <==> d in keys[..i] && indegree[d] == 0
    {
      assert keys[..i + 1] == keys[..i] + [keys[i]];
      forall j | 0 <= j < |queue| ensures !NodeLess(keys[i], queue[j]) && queue[j] != keys[i] {
        assert queue[j] in keys[..i];
      }
      if indegree[keys[i]] == 0 {
        queue := queue + [keys[i]];
      }
    }
    assert keys[..|keys|] == keys;
  }

  /**
   * The execution order: the least dependency order of blocks and written page variables. It is
   * refused exactly when some wire reads a page variable nothing writes, or the wires form a cycle.
   */
  method Order(blocks: set<string>, internal: set<string>, writes: set<string>, connections: seq<Connection>)
      returns (r: Result<seq<Node>, string>)
    ensures var N := NodeSet(blocks, writes);
            var E := NodeEdges(blocks, internal, N, connections);
            && (r.Ok? ==> IsLeastTopo(NodeLess, N, E, r.value))
            && (r.Err? <==> HasCycle(E) || exists e :: e in E && e.0 !in N)
  {
    var N := NodeSet(blocks, writes);
    ghost var E := NodeEdges(blocks, internal, N, connections);
    var edges, indegree, L := BuildEdges(blocks, internal, N, connections);
    var queue := SortedKeysAtZero(indegree);
    var order := Drain(N, L, edges, queue, indegree);
    NodeLessTotal();
    KahnVerdict(NodeLess, N, E, order);
    if |order| != |indegree| {
      assert |indegree| == |indegree.Keys|;
      return Err("Cycle detected: no execution order");
    }
    assert |indegree| == |indegree.Keys|;
    forall e | e in E ensures e.0 in N {
      UnwrittenBlocksOrder(N, E, order, e);
    }
    return Ok(order);
  }

  lemma UnwrittenBlocksOrder(N: set<Node>, E: Edges<Node>, order: seq<Node>, e: (Node, Node))
    requires IsTopo(N, E, order) && e in E && e.1 in N
    ensures e.0 in N
  {
    assert e.1 in Elements(order);
    var i :| 0 <= i < |order| && order[i] == e.1;
    assert e.0 in Preds(E, order[i]) && Preds(E, order[i]) <= Elements(order[..i]);
    assert e.0 in order;
  }
}
