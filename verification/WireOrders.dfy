/** Which loops the order of wires and blocks can hide from `_check_cycles`, and which it cannot. */
module WireOrders {
  import opened Orders
  import opened Digraphs
  import opened Charts
  import opened LoopChecker
  import opened LoopGraph
  import opened LoopFinder

  // ---------- what a part of the walk can report ----------

  /** A ring reported from `w` on meets no finished block, and reaches back to the bottom of the stack
      only with the whole stack on it. */
  ghost predicate FromHere(w: Walk, f: Finding) {
    && (forall x :: x in f.ring && x in w.state ==> x in w.stack)
    && (w.stack != [] && w.stack[0] in f.ring ==> forall y :: y in w.stack ==> y in f.ring)
  }

  ghost predicate AllNew(w: Walk, r: Walk) {
    w.findings <= r.findings && forall k :: |w.findings| <= k < |r.findings| ==> FromHere(w, r.findings[k])
  }

  lemma NewNone(w: Walk)
    ensures AllNew(w, w)
  {
  }

  lemma NewChain(w: Walk, w': Walk, r: Walk)
    requires AllNew(w, w') && AllNew(w', r) && w'.stack == w.stack && w.state.Keys <= w'.state.Keys
    ensures AllNew(w, r)
  {
    forall k | |w.findings| <= k < |r.findings| ensures FromHere(w, r.findings[k]) {
      if k < |w'.findings| {
        assert r.findings[k] == w'.findings[k];
      } else {
        assert FromHere(w', r.findings[k]);
      }
    }
  }

  lemma NewOpened(node: string, w: Walk, r: Walk, closed: Walk)
    requires node !in w.state && AllNew(Open(node, w), r) && closed.findings == r.findings
    ensures AllNew(w, closed)
  {
    var o := Open(node, w);
    forall k | |w.findings| <= k < |r.findings| ensures FromHere(w, r.findings[k]) {
      assert FromHere(o, r.findings[k]);
      forall x | x in r.findings[k].ring && x in w.state ensures x in w.stack {
        assert x in o.stack;
      }
      if w.stack != [] {
        assert o.stack[0] == w.stack[0];
        assert forall y :: y in w.stack ==> y in o.stack;
      }
    }
  }

  lemma RotateKeeps(ring: seq<string>)
    requires ring != []
    ensures forall x :: x in Rotate(ring) <==> x in ring
  {
    RotatedSame(ring, Index(ring, Min(ring)));
    hide Index, Min, Distinct;
    forall x ensures x in Rotate(ring) <==> x in ring {
      assert x in Rotate(ring) <==> x in Elements(Rotate(ring));
      assert x in ring <==> x in Elements(ring);
    }
  }

  lemma BottomOnRing(stack: seq<string>, at: nat)
    requires Distinct(stack) && at < |stack| && stack[0] in stack[at..]
    ensures stack[at..] == stack
  {
    var k :| 0 <= k < |stack[at..]| && stack[at..][k] == stack[0];
    assert stack[at + k] == stack[0];
    assert at == 0;
  }

  lemma ReportNew(delayed: set<string>, nxt: string, port: string, w: Walk)
    requires nxt in w.stack && Distinct(w.stack)
    ensures AllNew(w, Report(delayed, nxt, port, w))
  {
    hide Index, Rotate, Distinct;
    var ring := w.stack[Index(w.stack, nxt)..];
    RotateKeeps(ring);
    if w.stack[0] in ring { BottomOnRing(w.stack, Index(w.stack, nxt)); }
  }

  lemma OpenDistinct(node: string, w: Walk)
    requires WalkOk(w) && Distinct(w.stack) && node !in w.state
    ensures Distinct(Open(node, w).stack) && WalkOk(Open(node, w))
  {
    OpenOk(node, w);
  }

  lemma {:induction false} VisitNew(nodes: set<string>, adj: Adjacency, delayed: set<string>, node: string, w: Walk)
    requires Closed(nodes, adj) && node in nodes && node !in w.state && WalkOk(w) && Distinct(w.stack)
    ensures AllNew(w, Visit(nodes, adj, delayed, node, w))
    decreases nodes - w.state.Keys, 0
  {
    hide Closed, WalkOk, Distinct, AllNew, VisitEach;
    OpenDistinct(node, w);
    OpenLess(nodes, node, w);
    NeighborsInside(nodes, adj, node);
    VisitIs(nodes, adj, delayed, node, w);
    VisitEachNew(nodes, adj, delayed, Neighbors(adj, node), Open(node, w));
    var inner := VisitEach(nodes, adj, delayed, Neighbors(adj, node), Open(node, w));
    NewOpened(node, w, inner, Visit(nodes, adj, delayed, node, w));
  }

  lemma {:induction false} VisitEachNew(nodes: set<string>, adj: Adjacency, delayed: set<string>, next: seq<(string, string)>, w: Walk)
    requires Closed(nodes, adj) && (forall k :: 0 <= k < |next| ==> next[k].0 in nodes) && WalkOk(w) && Distinct(w.stack)
    ensures AllNew(w, VisitEach(nodes, adj, delayed, next, w))
    decreases nodes - w.state.Keys, 1 + |next|
  {
    hide Closed, WalkOk, Distinct, AllNew, Visit, Report, VisitEach;
    if next == [] {
      EachNone(nodes, adj, delayed, w);
      NewNone(w);
    } else {
      EachFirst(nodes, adj, delayed, next, w);
      var w' := Pass(nodes, adj, delayed, next[0].0, next[0].1, w);
      PassNew(nodes, adj, delayed, next[0].0, next[0].1, w);
      VisitEachNew(nodes, adj, delayed, next[1..], w');
      NewChain(w, w', VisitEach(nodes, adj, delayed, next, w));
    }
  }

  lemma {:induction false} PassNew(nodes: set<string>, adj: Adjacency, delayed: set<string>, nxt: string, port: string, w: Walk)
    requires Closed(nodes, adj) && nxt in nodes && WalkOk(w) && Distinct(w.stack)
    ensures AllNew(w, Pass(nodes, adj, delayed, nxt, port, w))
    decreases nodes - w.state.Keys, 1
  {
    hide Closed, Distinct, AllNew, Visit, Report;
    if nxt !in w.state {
      VisitNew(nodes, adj, delayed, nxt, w);
    } else if w.state[nxt] == 1 {
      ReportNew(delayed, nxt, port, w);
    } else {
      NewNone(w);
    }
  }

  lemma EachNone(nodes: set<string>, adj: Adjacency, delayed: set<string>, w: Walk)
    requires Closed(nodes, adj) && WalkOk(w)
    ensures VisitEach(nodes, adj, delayed, [], w) == w
  {
  }

  /** Following the first wire, and then the others. */
  lemma EachFirst(nodes: set<string>, adj: Adjacency, delayed: set<string>, next: seq<(string, string)>, w: Walk)
    requires Closed(nodes, adj) && (forall k :: 0 <= k < |next| ==> next[k].0 in nodes) && WalkOk(w) && next != []
    ensures var w' := Pass(nodes, adj, delayed, next[0].0, next[0].1, w);
            && WalkOk(w') && w'.stack == w.stack && w.state.Keys <= w'.state.Keys
            && VisitEach(nodes, adj, delayed, next, w) == VisitEach(nodes, adj, delayed, next[1..], w')
  {
    PassOk(nodes, adj, delayed, next[0].0, next[0].1, w);
  }

  lemma {:induction false} VisitAllNew(nodes: set<string>, adj: Adjacency, delayed: set<string>, names: seq<string>, w: Walk)
    requires Closed(nodes, adj) && Elements(names) <= nodes && WalkOk(w) && w.stack == []
    ensures AllNew(w, VisitAll(nodes, adj, delayed, names, w))
  {
    hide Closed, WalkOk, AllNew, Visit;
    if names == [] {
      NewNone(w);
    } else {
      assert names[0] in Elements(names);
      assert forall x :: x in names[1..] ==> x in Elements(names);
      var w' := if names[0] in w.state then w else Visit(nodes, adj, delayed, names[0], w);
      NewNone(w);
      if names[0] !in w.state { VisitNew(nodes, adj, delayed, names[0], w); }
      VisitAllNew(nodes, adj, delayed, names[1..], w');
      NewChain(w, w', VisitAll(nodes, adj, delayed, names, w));
    }
  }

  // ---------- a walk that follows a path first ----------

  /** Each block of the path feeds the next one with its first wire. */
  ghost predicate Leads(adj: Adjacency, path: seq<string>) {
    forall i :: 0 <= i < |path| - 1 ==> Neighbors(adj, path[i]) != [] && Neighbors(adj, path[i])[0].0 == path[i + 1]
  }

  /** A ring through both ends of the path goes through all of it. */
  ghost predicate Whole(path: seq<string>, f: Finding)
    requires path != []
  {
    path[0] in f.ring && path[|path| - 1] in f.ring ==> forall x :: x in path ==> x in f.ring
  }

  ghost predicate AllWhole(path: seq<string>, findings: seq<Finding>)
    requires path != []
  {
    forall f :: f in findings ==> Whole(path, f)
  }

  /** Beyond a walk in which the end of the path is finished, or which has the whole path on its stack. */
  lemma WholeMore(path: seq<string>, w: Walk, r: Walk)
    requires path != [] && AllNew(w, r) && AllWhole(path, w.findings)
    requires w.stack == path || (path[|path| - 1] in w.state && path[|path| - 1] !in w.stack)
    ensures AllWhole(path, r.findings)
  {
    forall f | f in r.findings ensures Whole(path, f) {
      var k :| 0 <= k < |r.findings| && r.findings[k] == f;
      if k < |w.findings| {
        assert w.findings[k] == f;
      } else {
        assert FromHere(w, f);
      }
    }
  }

  lemma {:induction false} ChainVisit(nodes: set<string>, adj: Adjacency, delayed: set<string>, path: seq<string>, k: nat, w: Walk)
    requires Closed(nodes, adj) && Leads(adj, path) && Distinct(path) && Elements(path) <= nodes && k < |path|
    requires WalkOk(w) && w.stack == path[..k] && w.state.Keys == Elements(path[..k]) && AllWhole(path, w.findings)
    ensures path[k] in nodes && path[k] !in w.state
    ensures var r := Visit(nodes, adj, delayed, path[k], w);
            AllWhole(path, r.findings) && path[|path| - 1] in r.state
    decreases |path| - k
  {
    hide *;
    OnPath(nodes, path, k, w);
    var o := Open(path[k], w);
    OpenDistinct(path[k], w);
    var next := Neighbors(adj, path[k]);
    NeighborsInside(nodes, adj, path[k]);
    VisitIs(nodes, adj, delayed, path[k], w);
    var inner := VisitEach(nodes, adj, delayed, next, o);
    Closes(path[k], inner);
    if k == |path| - 1 {
      VisitEachNew(nodes, adj, delayed, next, o);
      WholeMore(path, o, inner);
      EachKeeps(nodes, adj, delayed, next, o);
    } else {
      LeadsAt(adj, path, k);
      EachFirst(nodes, adj, delayed, next, o);
      OnPath(nodes, path, k + 1, o);
      ChainVisit(nodes, adj, delayed, path, k + 1, o);
      var w2 := Visit(nodes, adj, delayed, path[k + 1], o);
      PassVisits(nodes, adj, delayed, next[0].0, next[0].1, o);
      VisitEachNew(nodes, adj, delayed, next[1..], w2);
      WholeMore(path, w2, inner);
      EachKeeps(nodes, adj, delayed, next[1..], w2);
    }
  }

  lemma PassVisits(nodes: set<string>, adj: Adjacency, delayed: set<string>, nxt: string, port: string, w: Walk)
    requires Closed(nodes, adj) && nxt in nodes && WalkOk(w) && nxt !in w.state
    ensures Pass(nodes, adj, delayed, nxt, port, w) == Visit(nodes, adj, delayed, nxt, w)
  {
    hide Visit;
  }

  lemma Closes(node: string, w: Walk)
    requires w.stack != []
    ensures Close(node, w).findings == w.findings && w.state.Keys <= Close(node, w).state.Keys
  {
  }

  /** With the first `k` blocks of the path open and nothing else visited, the next one may be opened. */
  lemma OnPath(nodes: set<string>, path: seq<string>, k: nat, w: Walk)
    requires Distinct(path) && Elements(path) <= nodes && k < |path|
    requires w.stack == path[..k] && w.state.Keys == Elements(path[..k])
    ensures path[k] in nodes && path[k] !in w.state && Distinct(w.stack)
    ensures var o := Open(path[k], w);
            && o.stack == path[..k + 1] && o.state.Keys == Elements(path[..k + 1]) && o.findings == w.findings
            && path[k] in o.state && (k == |path| - 1 ==> o.stack == path) && path[|path| - 1] !in path[..k]
  {
    PathFacts(path, k);
    assert path[k] in Elements(path);
    ElementsAppend(path[..k], path[k]);
    assert path[..k + 1] == path[..k] + [path[k]];
  }

  lemma PathFacts(path: seq<string>, k: nat)
    requires Distinct(path) && k < |path|
    ensures path[k] !in Elements(path[..k]) && Distinct(path[..k]) && Distinct(path[..k + 1])
  {
  }

  lemma LeadsAt(adj: Adjacency, path: seq<string>, k: nat)
    requires Leads(adj, path) && k < |path| - 1
    ensures Neighbors(adj, path[k]) != [] && Neighbors(adj, path[k])[0].0 == path[k + 1]
  {
  }

  lemma EachKeeps(nodes: set<string>, adj: Adjacency, delayed: set<string>, next: seq<(string, string)>, w: Walk)
    requires Closed(nodes, adj) && (forall k :: 0 <= k < |next| ==> next[k].0 in nodes) && WalkOk(w)
    ensures w.state.Keys <= VisitEach(nodes, adj, delayed, next, w).state.Keys
  {
    hide *;
  }

  /** A walk that starts at the head of the path reports no ring through both its ends but along it. */
  lemma PathFirst(nodes: set<string>, adj: Adjacency, delayed: set<string>, path: seq<string>, names: seq<string>)
    requires Closed(nodes, adj) && Leads(adj, path) && Distinct(path) && path != [] && Elements(path) <= nodes
    requires Elements(names) == nodes && names != [] && names[0] == path[0]
    ensures AllWhole(path, Findings(nodes, adj, delayed, names))
  {
    hide Closed, AllNew, Visit, Leads, Distinct;
    var w := START;
    assert path[..0] == [] && Elements(path[..0]) == {};
    ChainVisit(nodes, adj, delayed, path, 0, w);
    var w1 := Visit(nodes, adj, delayed, path[0], w);
    assert names[0] in Elements(names);
    assert forall x :: x in names[1..] ==> x in Elements(names);
    assert VisitAll(nodes, adj, delayed, names, w) == VisitAll(nodes, adj, delayed, names[1..], w1);
    VisitAllNew(nodes, adj, delayed, names[1..], w1);
    WholeMore(path, w1, VisitAll(nodes, adj, delayed, names, w));
  }

  // ---------- wires in an order that follows the path ----------

  /** One wire for each edge, to a pin named after the block it comes from. */
  function WiresOf(edges: seq<(string, string)>): (wires: seq<Connection>)
    ensures |wires| == |edges| && forall i :: 0 <= i < |edges| ==>
              wires[i] == Connection(Endpoint(edges[i].0, "out"), Endpoint(edges[i].1, edges[i].0))
  {
    seq(|edges|, i requires 0 <= i < |edges| => Connection(Endpoint(edges[i].0, "out"), Endpoint(edges[i].1, edges[i].0)))
  }

  ghost predicate Within(nodes: set<string>, E: Edges<string>) {
    INTERFACE !in nodes && forall e :: e in E ==> e.0 in nodes && e.1 in nodes
  }

  lemma WiresDraw(nodes: set<string>, edges: seq<(string, string)>)
    requires Within(nodes, Elements(edges))
    ensures LoopEdges(nodes, WiresOf(edges)) == Elements(edges)
    ensures AdjacencyOf(nodes, WiresOf(edges)) == DirectAdj(nodes, WiresOf(edges))
  {
    var wires := WiresOf(edges);
    forall c | c in wires ensures c.dst.block in nodes && c.src.block in nodes {
      var i :| 0 <= i < |wires| && wires[i] == c;
      assert edges[i] in Elements(edges);
    }
    NoPorts(nodes, wires);
    forall e | e in Elements(edges) ensures e in BlockEdges(nodes, wires) {
      var i :| 0 <= i < |edges| && edges[i] == e;
      assert wires[i] in wires;
    }
    forall e | e in LoopEdges(nodes, wires) ensures e in Elements(edges) {
      assert e in BlockEdges(nodes, wires);
      var c :| c in wires && c.src.block in nodes && c.dst.block in nodes && e == (c.src.block, c.dst.block);
      var i :| 0 <= i < |wires| && wires[i] == c;
      assert edges[i] == e;
    }
  }

  /** The first wire out of a block stays its first. */
  lemma {:induction false} FirstWire(nodes: set<string>, wires: seq<Connection>, i: nat)
    requires i < |wires| && IsDirect(nodes, wires[i])
    requires forall j :: 0 <= j < i ==> wires[j].src.block != wires[i].src.block
    ensures var next := Neighbors(DirectAdj(nodes, wires), wires[i].src.block);
            next != [] && next[0].0 == wires[i].dst.block
  {
    var n := |wires| - 1;
    if i < n {
      FirstWire(nodes, wires[..n], i);
    } else {
      NoWire(nodes, wires[..n], wires[i].src.block);
    }
  }

  lemma {:induction false} NoWire(nodes: set<string>, wires: seq<Connection>, a: string)
    requires forall c :: c in wires ==> c.src.block != a
    ensures Neighbors(DirectAdj(nodes, wires), a) == []
  {
    if wires != [] { NoWire(nodes, wires[..|wires| - 1], a); }
  }

  function PathEdges(path: seq<string>): (edges: seq<(string, string)>)
    requires path != []
    ensures |edges| == |path| - 1 && forall i :: 0 <= i < |edges| ==> edges[i] == (path[i], path[i + 1])
  {
    seq(|path| - 1, i requires 0 <= i < |path| - 1 => (path[i], path[i + 1]))
  }

  /** The elements of a set in some order. */
  ghost function Listing<T(!new)>(pool: set<T>): (s: seq<T>)
    ensures Elements(s) == pool
  {
    if pool == {} then []
    else
      var x :| x in pool;
      var rest := Listing(pool - {x});
      assert forall y :: y in [x] + rest <==> y == x || y in Elements(rest);
      [x] + rest
  }

  /** The edges of the graph, those of the path first. */
  ghost function PathThenRest(E: Edges<string>, path: seq<string>): (edges: seq<(string, string)>)
    requires path != [] && IsPath(E, path)
    ensures Elements(edges) == E && PathEdges(path) <= edges
  {
    var first := PathEdges(path);
    var rest := Listing(E - Elements(first));
    assert Elements(first) <= E;
    assert forall e :: e in first + rest <==> e in Elements(first) || e in Elements(rest);
    first + rest
  }

  lemma PathLeads(nodes: set<string>, E: Edges<string>, path: seq<string>)
    requires Within(nodes, E) && path != [] && IsPath(E, path) && Distinct(path)
    ensures var wires := WiresOf(PathThenRest(E, path));
            LoopEdges(nodes, wires) == E && Leads(AdjacencyOf(nodes, wires), path)
  {
    var edges := PathThenRest(E, path);
    var wires := WiresOf(edges);
    WiresDraw(nodes, edges);
    forall i | 0 <= i < |path| - 1
      ensures Neighbors(AdjacencyOf(nodes, wires), path[i]) != [] && Neighbors(AdjacencyOf(nodes, wires), path[i])[0].0 == path[i + 1]
    {
      assert forall j :: 0 <= j <= i ==> edges[j] == PathEdges(path)[j];
      assert edges[i] in Elements(edges);
      FirstWire(nodes, wires, i);
    }
  }

  /** The blocks of one ring are never reported as an error together if a path with a delay on it
      leads from the one to the other, the wires come in this order, and the walk starts there. */
  lemma PathHides(nodes: set<string>, E: Edges<string>, delayed: set<string>, path: seq<string>, names: seq<string>)
    requires Within(nodes, E) && IsPath(E, path) && Distinct(path) && |path| > 1 && Elements(path) * delayed != {}
    requires Elements(path) <= nodes && Elements(names) == nodes && names != [] && names[0] == path[0]
    ensures LoopEdges(nodes, WiresOf(PathThenRest(E, path))) == E
    ensures forall f :: f in Checked(nodes, WiresOf(PathThenRest(E, path)), delayed, names) ==>
                          path[0] in f.ring && path[|path| - 1] in f.ring ==> f.severity == Info
  {
    hide IsPath, Distinct, Leads, PathThenRest, WiresOf, RealRing, Unreported;
    var wires := WiresOf(PathThenRest(E, path));
    PathLeads(nodes, E, path);
    AdjacencyIs(nodes, wires);
    var adj := AdjacencyOf(nodes, wires);
    PathFirst(nodes, adj, delayed, path, names);
    LoopsFound(nodes, adj, delayed, names);
    forall f | f in Checked(nodes, wires, delayed, names) && path[0] in f.ring && path[|path| - 1] in f.ring
      ensures f.severity == Info
    {
      assert Whole(path, f);
      var d :| d in Elements(path) * delayed;
      DelayedRing(AdjEdges(adj), delayed, f, d);
    }
  }

  lemma DelayedRing(E: Edges<string>, delayed: set<string>, f: Finding, d: string)
    requires RealRing(E, delayed, f) && d in f.ring && d in delayed
    ensures f.severity == Info
  {
    assert d in Elements(f.ring) * delayed;
  }

  // ---------- loops of two blocks ----------

  /** Wires that draw the graph, and an order of its blocks. */
  ghost predicate Draws(nodes: set<string>, E: Edges<string>, wires: seq<Connection>, names: seq<string>) {
    LoopEdges(nodes, wires) == E && Elements(names) == nodes
  }

  /** An error is reported on a ring through both blocks. */
  ghost predicate Caught(nodes: set<string>, wires: seq<Connection>, delayed: set<string>, names: seq<string>, u: string, v: string)
    requires Elements(names) == nodes
  {
    exists f :: f in Checked(nodes, wires, delayed, names) && f.severity == Error && u in f.ring && v in f.ring
  }

  /** Two blocks that feed each other, neither a delay: an error on them is certain, whatever the order
      of wires and blocks, exactly if no simple loop through a delay block goes through both. */
  lemma TwoBlockLoop(nodes: set<string>, E: Edges<string>, delayed: set<string>, u: string, v: string)
    requires Within(nodes, E) && u != v && (u, v) in E && (v, u) in E && u !in delayed && v !in delayed
    ensures (forall wires, names :: Draws(nodes, E, wires, names) ==> Caught(nodes, wires, delayed, names, u, v))
            <==> (forall q :: SimpleLoop(E, q) && u in q && v in q ==> Elements(q) * delayed == {})
  {
    hide SimpleLoop, Caught;
    if q :| SimpleLoop(E, q) && u in q && v in q && Elements(q) * delayed != {} {
      var wires, names := HidingOrder(nodes, E, delayed, q, u, v);
    } else {
      forall wires, names | Draws(nodes, E, wires, names) ensures Caught(nodes, wires, delayed, names, u, v) {
        AlwaysCaught(nodes, E, delayed, wires, names, u, v);
      }
    }
  }

  /** The order that hides the two blocks behind a delayed loop: along the loop, over the delay, first. */
  lemma HidingOrder(nodes: set<string>, E: Edges<string>, delayed: set<string>, q: seq<string>, u: string, v: string)
      returns (wires: seq<Connection>, names: seq<string>)
    requires Within(nodes, E) && u != v && u !in delayed && v !in delayed
    requires SimpleLoop(E, q) && u in q && v in q && Elements(q) * delayed != {}
    ensures Draws(nodes, E, wires, names) && !Caught(nodes, wires, delayed, names, u, v)
  {
    hide SimpleLoop, IsPath, Distinct, Checked, WiresOf, PathThenRest;
    var path := DelayedPath(E, delayed, q, u, v);
    PathInside(nodes, E, path);
    assert path[0] in Elements(path);
    names := [path[0]] + Listing(nodes - {path[0]});
    assert forall x :: x in names <==> x == path[0] || x in Elements(Listing(nodes - {path[0]}));
    PathHides(nodes, E, delayed, path, names);
    wires := WiresOf(PathThenRest(E, path));
  }

  lemma PathInside(nodes: set<string>, E: Edges<string>, path: seq<string>)
    requires Within(nodes, E) && IsPath(E, path) && |path| > 1
    ensures Elements(path) <= nodes
  {
    forall x | x in path ensures x in nodes {
      var i :| 0 <= i < |path| && path[i] == x;
      if i > 0 { assert (path[i - 1], path[i]) in E; } else { assert (path[0], path[1]) in E; }
    }
  }

  lemma AlwaysCaught(nodes: set<string>, E: Edges<string>, delayed: set<string>, wires: seq<Connection>, names: seq<string>,
                     u: string, v: string)
    requires (u, v) in E && (v, u) in E && Draws(nodes, E, wires, names)
    requires forall q :: SimpleLoop(E, q) && u in q && v in q ==> Elements(q) * delayed == {}
    ensures Caught(nodes, wires, delayed, names, u, v)
  {
    hide RealRing, Unreported, SimpleLoop;
    AdjacencyIs(nodes, wires);
    LoopsFound(nodes, AdjacencyOf(nodes, wires), delayed, names);
    var p := [u, v, u];
    assert IsCycle(E, p);
    forall q | SimpleLoop(E, q) && Overlap(p, q) ensures Elements(q) * delayed == {} {
      BothOn(u, v, q);
    }
    assert Undelayed(E, delayed, p);
    ErrorsComplete(E, delayed, Checked(nodes, wires, delayed, names), p);
    var f :| f in Checked(nodes, wires, delayed, names) && f.severity == Error && Overlap(p, f.ring);
    BothOn(u, v, f.ring);
  }

  lemma BothOn(u: string, v: string, q: seq<string>)
    requires Overlap([u, v, u], q)
    ensures u in q && v in q
  {
  }

  /** A simple loop with a delay block holds a simple path with that block from one of its blocks to another. */
  lemma DelayedPath(E: Edges<string>, delayed: set<string>, q: seq<string>, u: string, v: string) returns (path: seq<string>)
    requires SimpleLoop(E, q) && u in q && v in q && u != v && Elements(q) * delayed != {} && u !in delayed && v !in delayed
    ensures IsPath(E, path) && Distinct(path) && |path| > 1 && Elements(path) * delayed != {}
    ensures (path[0] == u && path[|path| - 1] == v) || (path[0] == v && path[|path| - 1] == u)
  {
    hide IsPath, IsCycle, SimpleLoop;
    var r := LoopFrom(E, q, u);
    var d :| d in Elements(q) * delayed;
    assert d in Elements(r) && v in Elements(r);
    var j :| 0 <= j < |r| && r[j] == v;
    var k :| 0 <= k < |r| && r[k] == d;
    if k < j {
      path := r[..j + 1];
      FrontPart(E, r, j, k);
    } else {
      path := r[j..] + [u];
      BackPart(E, r, j, k);
    }
    assert d in Elements(path) * delayed;
  }

  lemma FrontPart(E: Edges<string>, r: seq<string>, j: nat, k: nat)
    requires r != [] && Distinct(r) && IsCycle(E, r + [r[0]]) && k < j < |r|
    ensures IsPath(E, r[..j + 1]) && Distinct(r[..j + 1]) && r[k] in r[..j + 1] && r[..j + 1][j] == r[j]
  {
    hide IsPath, IsCycle;
    PartOfLoop(E, r, 0, j + 1);
    assert r[..j + 1] == r[0..j + 1];
    assert r[..j + 1][k] == r[k];
  }

  lemma BackPart(E: Edges<string>, r: seq<string>, j: nat, k: nat)
    requires r != [] && Distinct(r) && IsCycle(E, r + [r[0]]) && 0 < j <= k < |r|
    ensures IsPath(E, r[j..] + [r[0]]) && Distinct(r[j..] + [r[0]]) && r[k] in r[j..] + [r[0]]
  {
    hide IsPath, IsCycle;
    PartOfLoop(E, r, j, |r| + 1);
    assert (r + [r[0]])[j..|r| + 1] == r[j..] + [r[0]];
    assert (r[j..] + [r[0]])[k - j] == r[k];
  }

  /** Any part of the closed ring is a path. */
  lemma PartOfLoop(E: Edges<string>, r: seq<string>, a: nat, b: nat)
    requires r != [] && IsCycle(E, r + [r[0]]) && a < b <= |r| + 1
    ensures IsPath(E, (r + [r[0]])[a..b]) && (b <= |r| ==> (r + [r[0]])[a..b] == r[a..b])
  {
    var q := r + [r[0]];
    forall i | 0 <= i < |q[a..b]| - 1 ensures (q[a..b][i], q[a..b][i + 1]) in E {
      assert (q[a + i], q[a + i + 1]) in E;
    }
  }

  /** The blocks of a simple loop, in loop order from `u` on. */
  lemma LoopFrom(E: Edges<string>, q: seq<string>, u: string) returns (r: seq<string>)
    requires SimpleLoop(E, q) && u in q
    ensures r != [] && r[0] == u && Distinct(r) && Elements(r) == Elements(q) && IsCycle(E, r + [r[0]])
  {
    var ring := q[1..];
    assert q[0] == q[|q| - 1] && q == [q[0]] + ring;
    assert u in ring;
    LoopShift(E, q);
    var at :| 0 <= at < |ring| && ring[at] == u;
    RotateCycle(E, ring, at);
    r := ring[at..] + ring[..at];
    assert Elements(q) == Elements(ring);
  }

  lemma LoopShift(E: Edges<string>, q: seq<string>)
    requires IsCycle(E, q)
    ensures q[1..] != [] && IsCycle(E, q[1..] + [q[1]])
  {
    var ring := q[1..];
    forall i | 0 <= i < |ring| ensures ((ring + [q[1]])[i], (ring + [q[1]])[i + 1]) in E {
      if i + 1 < |ring| {
        assert (q[i + 1], q[i + 2]) in E;
      } else {
        assert (q[0], q[1]) in E;
      }
    }
  }

  // ---------- longer loops ----------

  /** `u` feeds `v`, `v` feeds `w`, `w` feeds both back; and from `v` the delay block `d` leads to `u`. */
  function Crossed(u: string, v: string, w: string, d: string): Edges<string> {
    {(u, v), (v, w), (w, u), (w, v), (v, d), (d, u)}
  }

  /** For a loop of three blocks an overlapping delayed loop is not enough: an error on two of its
      blocks is certain here in every order, because those two feed each other on their own. */
  lemma OverlapNotEnough(u: string, v: string, w: string, d: string)
    requires u != v && u != w && u != d && v != w && v != d && w != d && INTERFACE !in {u, v, w, d}
    ensures IsCycle(Crossed(u, v, w, d), [u, v, w, u]) && Elements([u, v, w, u]) * {d} == {}
    ensures SimpleLoop(Crossed(u, v, w, d), [u, v, d, u]) && Overlap([u, v, w, u], [u, v, d, u])
    ensures forall wires, names :: Draws({u, v, w, d}, Crossed(u, v, w, d), wires, names) ==>
              Caught({u, v, w, d}, wires, {d}, names, v, w)
  {
    var E := Crossed(u, v, w, d);
    forall q | SimpleLoop(E, q) && v in q && w in q ensures Elements(q) * {d} == {} {
      if d in q { NoLongWay(u, v, w, d, q); }
    }
    TwoBlockLoop({u, v, w, d}, E, {d}, v, w);
    var p := [u, v, w, u];
    assert p[0] in [u, v, d, u] && p[1] in [u, v, d, u];
    hide Draws, Caught;
  }

  lemma NoLongWay(u: string, v: string, w: string, d: string, q: seq<string>)
    requires u != v && u != w && u != d && v != w && v != d && w != d
    requires SimpleLoop(Crossed(u, v, w, d), q) && d in q
    ensures w !in q
  {
    var E := Crossed(u, v, w, d);
    var r := LoopFrom(E, q, d);
    var c := r + [r[0]];
    assert (c[0], c[1]) in E;
    assert (c[1], c[2]) in E;
    assert (c[|r| - 1], c[|r|]) in E;
    assert r[2] == v && r[|r| - 1] == v;
    assert |r| == 3;
    assert w !in Elements(r);
  }
}
