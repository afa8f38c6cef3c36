/** The two cycle checks of the chart validator: a depth-first search and a Kahn loop. */
module Validator {
  import opened Orders
  import opened Digraphs
  import opened Kahn
  import opened Charts
  import opened DepthFirst

  // ---------- check_no_cycles ----------

  /** The variables the nested `dfs` shares with its caller. */
  class CycleSearch {
    const nodes: set<string>
    const adj: map<string, set<string>>
    var visited: set<string>
    var recStack: set<string>
    ghost const E: Edges<string>
    ghost var path: seq<string>   // the recursion stack, outermost call first
    ghost var post: seq<string>   // finished nodes, in finishing order

    ghost predicate Static() {
      && adj.Keys == nodes
      && (forall n, m :: n in adj && m in adj[n] ==> m in nodes && (n, m) in E)
      && (forall e :: e in E ==> e.0 in nodes && e.1 in adj[e.0])
    }

    ghost predicate Valid()
      reads this
    {
      && Static()
      && visited == Elements(path) + Elements(post) <= nodes
      && recStack == Elements(path)
      && Distinct(path) && Distinct(post) && Elements(path) !! Elements(post)
      && IsPath(E, path)
      && SuccessorsFirst(E, post)
    }

    constructor (nodes: set<string>, adj: map<string, set<string>>, ghost E: Edges<string>)
      requires adj.Keys == nodes
      requires forall n, m :: n in adj && m in adj[n] ==> m in nodes && (n, m) in E
      requires forall e :: e in E ==> e.0 in nodes && e.1 in adj[e.0]
      ensures Valid() && visited == {} && path == [] && this.nodes == nodes && this.E == E
    {
      this.nodes, this.adj, this.E := nodes, adj, E;
      visited, recStack, path, post := {}, {}, [], [];
    }

    method Dfs(node: string) returns (found: bool)
      requires Valid() && node in nodes && node !in visited
      requires path != [] ==> (path[|path| - 1], node) in E
      modifies this
      ensures found ==> HasCycle(E)
      ensures !found ==> Valid() && path == old(path) && old(visited) + {node} <= visited
      ensures !found ==> node in post && old(post) <= post
      decreases nodes - visited
    {
      ghost var outer := path;
      visited := visited + {node};
      recStack := recStack + {node};
      path := path + [node];
      ElementsAppend(outer, node);
      var rest: set<string> := adj[node];
      while rest != {}
        invariant Valid() && path == outer + [node] && old(visited) + {node} <= visited && old(post) <= post
        invariant rest <= adj[node] && forall m :: m in adj[node] - rest ==> m in post
        decreases rest
      {
        var neighbor :| neighbor in rest;
        rest := rest - {neighbor};
        if neighbor !in visited {
          ghost var finished := post;
          var deeper := Dfs(neighbor);
          if deeper { return true; }
          assert forall m :: m in finished ==> m in post;
        } else if neighbor in recStack {
          BackEdgeCloses(E, path, neighbor);
          return true;
        }
      }
      recStack := recStack - {node};
      FinishNode(E, post, node);
      PopNode(E, outer, post, node);
      path := outer;
      post := post + [node];
      return false;
    }
  }

  /** `check_no_cycles`: an error exactly when the wires between blocks contain a directed cycle. */
  method CheckNoCycles(blockIds: seq<string>, connections: seq<Connection>) returns (errors: seq<string>)
    ensures errors == [] <==> !HasCycle(BlockEdges(Elements(blockIds), connections))
  {
    var blocks: set<string> := set b | b in blockIds;
    var adj: map<string, set<string>> := map b | b in blocks :: {};
    ghost var E: Edges<string> := BlockEdges(blocks, []);
    for i := 0 to |connections|
      invariant adj.Keys == blocks && E == BlockEdges(blocks, connections[..i])
      invariant forall n, m :: n in adj && m in adj[n] ==> m in blocks && (n, m) in E
      invariant forall e :: e in E ==> e.0 in blocks && e.1 in adj[e.0]
    {
      var c := connections[i];
      BlockEdgesAppend(blocks, connections[..i], c);
      assert connections[..i + 1] == connections[..i] + [c];
      E := BlockEdges(blocks, connections[..i + 1]);
      if c.src.block in blocks && c.dst.block in blocks {
        adj := adj[c.src.block := adj[c.src.block] + {c.dst.block}];
      }
    }
    assert connections[..|connections|] == connections;
    var search := new CycleSearch(blocks, adj, E);
    var rest: set<string> := blocks;
    while rest != {}
      invariant search.Valid() && search.path == [] && search.nodes == blocks && search.E == E
      invariant rest <= blocks && blocks - rest <= search.visited
      decreases rest
    {
      var block :| block in rest;
      rest := rest - {block};
      if block !in search.visited {
        var found := search.Dfs(block);
        if found { return ["Cycle detected in block connections"]; }
      }
    }
    FinishedHasNoCycle(blocks, E, search.post);
    errors := [];
  }

  // ---------- topological_sort ----------

  /** The list of wires `topological_sort` keeps: both ends are blocks, neither is the sentinel. */
  function KeptEdges(N: set<string>, connections: seq<Connection>): EdgeList<string> {
    if connections == [] then []
    else
      var c := connections[|connections| - 1];
      KeptEdges(N, connections[..|connections| - 1]) +
      (if c.src.block in N && c.dst.block in N then [(c.src.block, c.dst.block)] else [])
  }

  lemma {:induction false} KeptAreEdges(N: set<string>, connections: seq<Connection>)
    ensures Elements(KeptEdges(N, connections)) == BlockEdges(N, connections)
  {
    if connections != [] {
      var rest, c := connections[..|connections| - 1], connections[|connections| - 1];
      KeptAreEdges(N, rest);
      BlockEdgesAppend(N, rest, c);
      assert connections == rest + [c];
    }
  }

  lemma KeptStep(N: set<string>, connections: seq<Connection>, i: nat)
    requires i < |connections|
    ensures var src, dst := connections[i].src.block, connections[i].dst.block;
            KeptEdges(N, connections[..i + 1]) ==
            KeptEdges(N, connections[..i]) + (if src in N && dst in N then [(src, dst)] else [])
  {
    assert connections[..i + 1][..i] == connections[..i];
  }

  ghost predicate Tables(keys: set<string>, L: EdgeList<string>, inDegree: map<string, int>, adj: map<string, seq<string>>) {
    && inDegree.Keys == adj.Keys == keys
    && forall b :: b in keys ==> inDegree[b] == CountInto(L, b, {}) && adj[b] == Targets(L, b)
  }

  lemma TablesStep(keys: set<string>, L: EdgeList<string>, inDegree: map<string, int>, adj: map<string, seq<string>>,
                   e: (string, string), L': EdgeList<string>, inDegree': map<string, int>, adj': map<string, seq<string>>)
    requires Tables(keys, L, inDegree, adj) && e.0 in keys && e.1 in keys && L' == L + [e]
    requires inDegree' == inDegree[e.1 := inDegree[e.1] + 1] && adj' == adj[e.0 := adj[e.0] + [e.1]]
    ensures Tables(keys, L', inDegree', adj')
  {
    forall b | b in keys ensures inDegree'[b] == CountInto(L', b, {}) && adj'[b] == Targets(L', b) {
      CountAppend(L, e, b);
      assert inDegree'[b] == inDegree[b] + (if e.1 == b then 1 else 0);
      assert adj'[b] == adj[b] + (if e.0 == b then [e.1] else []);
    }
  }

  lemma TablesAppend(keys: set<string>, L: EdgeList<string>, inDegree: map<string, int>, adj: map<string, seq<string>>, src: string, dst: string)
    requires Tables(keys, L, inDegree, adj) && src in keys && dst in keys
    ensures Tables(keys, L + [(src, dst)], inDegree[dst := inDegree[dst] + 1], adj[src := adj[src] + [dst]])
  {
    TablesStep(keys, L, inDegree, adj, (src, dst), L + [(src, dst)],
               inDegree[dst := inDegree[dst] + 1], adj[src := adj[src] + [dst]]);
  }

  method BuildDegrees(keys: set<string>, connections: seq<Connection>)
      returns (inDegree: map<string, int>, adj: map<string, seq<string>>)
    ensures Tables(keys, KeptEdges(keys - {INTERFACE}, connections), inDegree, adj)
  {
    inDegree := map b | b in keys :: 0;
    adj := map b | b in keys :: [];
    ghost var N, L := keys - {INTERFACE}, [];
    for i := 0 to |connections|
      invariant L == KeptEdges(N, connections[..i])
      invariant Tables(keys, L, inDegree, adj)
    {
      var src, dst := connections[i].src.block, connections[i].dst.block;
      KeptStep(N, connections, i);
      if src !in keys || dst !in keys { continue; }
      if src == INTERFACE { continue; }
      if dst == INTERFACE { continue; }
      TablesAppend(keys, L, inDegree, adj, src, dst);
      L := L + [(src, dst)];
      adj := adj[src := adj[src] + [dst]];
      inDegree := inDegree[dst := inDegree[dst] + 1];
    }
    assert connections[..|connections|] == connections;
  }

  method InitialQueue(keys: set<string>, inDegree: map<string, int>) returns (queue: seq<string>)
    requires inDegree.Keys == keys
    ensures Queued(keys - {INTERFACE}, {}, inDegree, queue)
  {
    queue := [];
    var rest := keys;
    while rest != {}
      invariant rest <= keys && Distinct(queue)
      invariant forall b :: b in queue <==> b in keys - rest && inDegree[b] == 0 && b != INTERFACE
      decreases rest
    {
      var b :| b in rest;
      ElementsAppend(queue, b);
      rest := rest - {b};
      if inDegree[b] == 0 && b != INTERFACE {
        queue := queue + [b];
      }
    }
  }

  /** The `for neighbor in adj[node]` loop: lower the in-degrees, queue what reaches zero. */
  method Release(N: set<string>, ghost done: set<string>, ghost left: map<string, int>, neighbors: seq<string>,
                 queue0: seq<string>, inDegree0: map<string, int>)
      returns (queue: seq<string>, inDegree: map<string, int>)
    requires forall i :: 0 <= i < |neighbors| ==> neighbors[i] in N && neighbors[i] !in done
    requires (forall d :: d in left ==> left[d] >= 0) && left.Keys == N
    requires N <= inDegree0.Keys && Lowered(N, left, neighbors, inDegree0)
    requires Queued(N, done, inDegree0, queue0)
    ensures Lowered(N, left, [], inDegree) && Queued(N, done, inDegree, queue)
  {
    hide *;
    queue, inDegree := queue0, inDegree0;
    ghost var rest := neighbors;
    for j := 0 to |neighbors|
      invariant rest == neighbors[j..] && N <= inDegree.Keys
      invariant Lowered(N, left, rest, inDegree) && Queued(N, done, inDegree, queue)
    {
      var neighbor := neighbors[j];
      LowerStep(N, done, left, rest, inDegree, queue);
      rest := rest[1..];
      inDegree := inDegree[neighbor := inDegree[neighbor] - 1];
      if inDegree[neighbor] == 0 {
        queue := queue + [neighbor];
      }
    }
  }

  /** The `while queue` loop of Kahn's algorithm. */
  method Drain(N: set<string>, ghost L: EdgeList<string>, adj: map<string, seq<string>>, queue0: seq<string>, inDegree0: map<string, int>)
      returns (result: seq<string>)
    requires Degrees(N, L, {}, inDegree0)
    requires N <= adj.Keys && forall n :: n in N ==> adj[n] == Targets(L, n) && Elements(adj[n]) <= N
    requires KahnState(StrLess, N, Elements(L), [], queue0)
    ensures KahnState(StrLess, N, Elements(L), result, [])
  {
    StrLessTotal();
    var queue, inDegree := queue0, inDegree0;
    result := [];
    assert Elements(result) == {};
    while queue != []
      invariant Degrees(N, L, Elements(result), inDegree)
      invariant KahnState(StrLess, N, Elements(L), result, queue)
      decreases N - Elements(result)
    {
      hide *;
      SortKeepsState(StrLess, N, Elements(L), result, queue);
      queue := Sort(StrLess, queue);
      ghost var left := PopStep(StrLess, N, L, result, queue, inDegree);
      var node := queue[0];
      queue := queue[1..];
      result := result + [node];
      queue, inDegree := Release(N, Elements(result), left, adj[node], queue, inDegree);
      PushStep(StrLess, N, L, result, queue, left, inDegree);
    }
  }

  /**
   * `topological_sort`: succeeds exactly on charts with distinct block ids, none equal to the
   * sentinel, and no directed cycle; the result is then the least dependency order.
   */
  method TopologicalSort(blockIds: seq<string>, connections: seq<Connection>)
      returns (sorted: seq<string>, errors: seq<string>)
    ensures var N := Elements(blockIds);
            errors == [] <==> Distinct(blockIds) && INTERFACE !in blockIds && !HasCycle(BlockEdges(N, connections))
    ensures errors == [] ==> IsLeastTopo(StrLess, Elements(blockIds), BlockEdges(Elements(blockIds), connections), sorted)
    ensures errors != [] ==> sorted == []
  {
    var keys: set<string> := (set b | b in blockIds) + {INTERFACE};
    ghost var N := Elements(blockIds) - {INTERFACE};
    assert keys - {INTERFACE} == N;
    var inDegree, adj := BuildDegrees(keys, connections);
    var queue := InitialQueue(keys, inDegree);
    StartState(keys, N, connections, inDegree, adj, queue);
    var result := Drain(keys - {INTERFACE}, KeptEdges(N, connections), adj, queue, inDegree);
    KeptAreEdges(N, connections);
    SortVerdict(blockIds, connections, result);
    if |result| != |blockIds| {
      return [], ["Cycle detected: cannot topologically sort blocks"];
    }
    return result, [];
  }

  lemma StartState(keys: set<string>, N: set<string>, connections: seq<Connection>,
                   inDegree: map<string, int>, adj: map<string, seq<string>>, queue: seq<string>)
    requires N == keys - {INTERFACE} && Tables(keys, KeptEdges(N, connections), inDegree, adj)
    requires Queued(N, {}, inDegree, queue)
    ensures var L := KeptEdges(N, connections);
            && N <= adj.Keys && (forall n :: n in N ==> adj[n] == Targets(L, n) && Elements(adj[n]) <= N)
            && Degrees(N, L, {}, inDegree) && KahnState(StrLess, N, Elements(L), [], queue)
  {
    var L := KeptEdges(N, connections);
    KeptAreEdges(N, connections);
    forall n ensures Elements(Targets(L, n)) <= N {
      TargetsMembers(L, n);
      assert forall e :: e in L ==> e in Elements(L);
    }
    assert Elements<string>([]) == {};
    QueueIsReady(N, Elements(L), L, {}, queue, inDegree);
  }

  lemma SortVerdict(blockIds: seq<string>, connections: seq<Connection>, result: seq<string>)
    requires var N := Elements(blockIds) - {INTERFACE};
             KahnState(StrLess, N, BlockEdges(N, connections), result, [])
    ensures var N := Elements(blockIds);
            |result| == |blockIds| <==> Distinct(blockIds) && INTERFACE !in blockIds && !HasCycle(BlockEdges(N, connections))
    ensures |result| == |blockIds| ==>
            IsLeastTopo(StrLess, Elements(blockIds), BlockEdges(Elements(blockIds), connections), result)
  {
    var N := Elements(blockIds) - {INTERFACE};
    StrLessTotal();
    KahnVerdict(StrLess, N, BlockEdges(N, connections), result);
    DistinctCardinality(blockIds);
    SentinelCount(Elements(blockIds));
  }

  lemma SentinelCount(ids: set<string>)
    ensures INTERFACE !in ids ==> ids - {INTERFACE} == ids
    ensures INTERFACE in ids ==> |ids - {INTERFACE}| == |ids| - 1
  {
  }
}
