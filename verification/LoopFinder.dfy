/** `_check_cycles` as the checker runs it: shared variables updated by a recursive walk. */
module LoopFinder {
  import opened Orders
  import opened Digraphs
  import opened Charts
  import opened LoopChecker
  import opened LoopGraph

  /** The variables the nested functions share. */
  class Finder {
    ghost const nodes: set<string>
    const adj: Adjacency
    const delayed: set<string>
    var state: map<string, int>
    var stack: seq<string>
    var reported: set<set<string>>
    var findings: seq<Finding>

    constructor (ghost nodes: set<string>, adj: Adjacency, delayed: set<string>)
      ensures this.nodes == nodes && this.adj == adj && this.delayed == delayed && Abs() == START
    {
      this.nodes, this.adj, this.delayed := nodes, adj, delayed;
      state, stack, reported, findings := map[], [], {}, [];
    }

    ghost function Abs(): Walk
      reads this
    {
      Walk(state, stack, reported, findings)
    }

    method Meet(nxt: string, port: string)
      requires nxt in stack
      modifies this
      ensures Abs() == Report(delayed, nxt, port, old(Abs()))
    {
      var ring := stack[Index(stack, nxt)..];
      var members := set x | x in ring;
      if members in reported { return; }
      reported := reported + {members};
      findings := findings + [Finding(if members * delayed != {} then Info else Error, Rotate(ring), nxt, port)];
    }

    method VisitNode(node: string)
      requires Closed(nodes, adj) && node in nodes && node !in state && WalkOk(Abs())
      modifies this
      ensures Abs() == Visit(nodes, adj, delayed, node, old(Abs()))
      decreases nodes - state.Keys
    {
      hide VisitEach, Visit, Report, WalkOk, Closed;
      ghost var before := Abs();
      OpenOk(node, before);
      VisitIs(nodes, adj, delayed, node, before);
      state := state[node := 1];
      stack := stack + [node];
      assert Abs() == Open(node, before);
      var next := if node in adj then adj[node] else [];
      ghost var atOpen := Abs();
      NeighborsInside(nodes, adj, node);
      for i := 0 to |next|
        invariant WalkOk(Abs()) && atOpen.state.Keys <= state.Keys
        invariant VisitEach(nodes, adj, delayed, next[i..], Abs()) == VisitEach(nodes, adj, delayed, next, atOpen)
      {
        var (nxt, port) := next[i];
        EachStep(nodes, adj, delayed, next, i, Abs());
        OnStack(nxt, Abs());
        assert node in nodes - before.state.Keys && node in state;
        if nxt !in state {
          VisitNode(nxt);
        } else if state[nxt] == 1 {
          Meet(nxt, port);
        }
      }
      EachDone(nodes, adj, delayed, next, Abs());
      stack := stack[..|stack| - 1];
      state := state[node := 2];
    }
  }

  lemma OnStack(x: string, w: Walk)
    requires WalkOk(w)
    ensures x in w.state && w.state[x] == 1 ==> x in w.stack
  {
  }

  lemma NeighborsInside(nodes: set<string>, adj: Adjacency, node: string)
    requires Closed(nodes, adj)
    ensures forall k :: 0 <= k < |Neighbors(adj, node)| ==> Neighbors(adj, node)[k].0 in nodes
  {
  }

  lemma EachDone(nodes: set<string>, adj: Adjacency, delayed: set<string>, next: seq<(string, string)>, w: Walk)
    requires Closed(nodes, adj) && WalkOk(w)
    ensures next[|next|..] == [] && VisitEach(nodes, adj, delayed, [], w) == w
  {
  }

  /** One turn of the loop over a node's wires. */
  lemma EachStep(nodes: set<string>, adj: Adjacency, delayed: set<string>, next: seq<(string, string)>, i: nat, w: Walk)
    requires Closed(nodes, adj) && WalkOk(w) && i < |next|
    requires forall k :: 0 <= k < |next| ==> next[k].0 in nodes
    ensures next[i].0 !in w.state ==>
              var w' := Visit(nodes, adj, delayed, next[i].0, w);
              && WalkOk(w') && w.state.Keys <= w'.state.Keys
              && VisitEach(nodes, adj, delayed, next[i..], w) == VisitEach(nodes, adj, delayed, next[i + 1..], w')
    ensures next[i].0 in w.state && w.state[next[i].0] == 1 ==>
              var w' := Report(delayed, next[i].0, next[i].1, w);
              && WalkOk(w') && w.state.Keys <= w'.state.Keys
              && VisitEach(nodes, adj, delayed, next[i..], w) == VisitEach(nodes, adj, delayed, next[i + 1..], w')
    ensures next[i].0 in w.state && w.state[next[i].0] != 1 ==>
              VisitEach(nodes, adj, delayed, next[i..], w) == VisitEach(nodes, adj, delayed, next[i + 1..], w)
  {
    assert next[i..][0] == next[i] && next[i..][1..] == next[i + 1..];
  }

  /** The findings of a chart, its blocks taken in this order. */
  ghost function Checked(blocks: set<string>, connections: seq<Connection>, timeBased: set<string>, names: seq<string>): seq<Finding>
    requires Elements(names) == blocks
  {
    AdjacencyIs(blocks, connections);
    Findings(blocks, AdjacencyOf(blocks, connections), timeBased, names)
  }

  /**
   * `_check_cycles`: no finding exactly when direct wires and page ports together draw no cycle;
   * every cycle has a wire with both ends on a reported ring, and a loop that no delayed loop
   * overlaps leads to an error; every reported ring is a cycle of that graph, and no two findings
   * name the same blocks.
   */
  method CheckCycles(blocks: set<string>, connections: seq<Connection>, timeBased: set<string>) returns (findings: seq<Finding>)
    ensures forall names :: SortedNames(names, blocks) ==> findings == Checked(blocks, connections, timeBased, names)
    ensures findings == [] <==> !HasCycle(LoopEdges(blocks, connections))
    ensures !HasCycle(Unreported(LoopEdges(blocks, connections), findings))
    ensures forall p :: Undelayed(LoopEdges(blocks, connections), timeBased, p) ==> ErrorOn(findings, p)
    ensures forall f :: f in findings ==> RealRing(LoopEdges(blocks, connections), timeBased, f)
    ensures forall i, j :: 0 <= i < j < |findings| ==> Elements(findings[i].ring) != Elements(findings[j].ring)
  {
    var adj := Adjacencies(blocks, connections);
    var finder := new Finder(blocks, adj, timeBased);
    StrLessTotal();
    var names := SortedSet(StrLess, blocks);
    ghost var whole := VisitAll(blocks, adj, timeBased, names, START);
    assert names[0..] == names;
    for i := 0 to |names|
      invariant finder.nodes == blocks && finder.adj == adj && finder.delayed == timeBased
      invariant WalkOk(finder.Abs()) && Elements(names[i..]) <= blocks
      invariant VisitAll(blocks, adj, timeBased, names[i..], finder.Abs()) == whole
    {
      assert names[i..][0] == names[i] && names[i..][1..] == names[i + 1..];
      assert names[i] in Elements(names);
      if names[i] !in finder.state {
        finder.VisitNode(names[i]);
      }
    }
    LoopsFound(blocks, adj, timeBased, names);
    findings := finder.findings;
    forall p | Undelayed(LoopEdges(blocks, connections), timeBased, p) ensures ErrorOn(findings, p) {
      ErrorsComplete(LoopEdges(blocks, connections), timeBased, findings, p);
    }
    forall other | SortedNames(other, blocks) ensures other == names {
      SortedNamesUnique(other, names, blocks);
    }
  }
}
