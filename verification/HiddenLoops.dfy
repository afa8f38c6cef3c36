/** Loops without a delay that `_check_cycles` does not report, and which ones it always reports. */
module HiddenLoops {
  import opened Orders
  import opened Digraphs
  import opened Charts
  import opened LoopChecker
  import opened LoopGraph
  import opened LoopFinder

  // ---------- a chart whose loop goes unreported ----------

  lemma EachReports(nodes: set<string>, adj: Adjacency, delayed: set<string>, nxt: string, port: string, w: Walk)
    requires Closed(nodes, adj) && nxt in nodes && WalkOk(w) && nxt in w.stack
    ensures VisitEach(nodes, adj, delayed, [(nxt, port)], w) == Report(delayed, nxt, port, w)
  {
    assert nxt in w.state && w.state[nxt] == 1;
    assert [(nxt, port)][1..] == [];
  }

  lemma EachSkips(nodes: set<string>, adj: Adjacency, delayed: set<string>, nxt: string, port: string, w: Walk)
    requires Closed(nodes, adj) && nxt in nodes && WalkOk(w) && nxt in w.state && w.state[nxt] == 2
    ensures VisitEach(nodes, adj, delayed, [(nxt, port)], w) == w
  {
    assert [(nxt, port)][1..] == [];
  }

  lemma EachVisits(nodes: set<string>, adj: Adjacency, delayed: set<string>, next: seq<(string, string)>, w: Walk)
    requires Closed(nodes, adj) && (forall k :: 0 <= k < |next| ==> next[k].0 in nodes) && WalkOk(w)
    requires next != [] && next[0].0 !in w.state
    ensures VisitEach(nodes, adj, delayed, next, w) ==
            VisitEach(nodes, adj, delayed, next[1..], Visit(nodes, adj, delayed, next[0].0, w))
    ensures |next| == 1 ==> VisitEach(nodes, adj, delayed, next, w) == Visit(nodes, adj, delayed, next[0].0, w)
  {
  }

  /** `a` feeds the delay block `d` first, then `b`; `d` feeds `b`; `b` feeds `a` back. */
  ghost predicate Hiding(nodes: set<string>, adj: Adjacency, a: string, b: string, d: string, pins: seq<string>) {
    && a != b && a != d && b != d && StrLess(a, b) && StrLess(a, d) && !StrLess(b, a) && !StrLess(d, a)
    && nodes == {a, b, d} && Closed(nodes, adj) && |pins| == 4
    && Neighbors(adj, a) == [(d, pins[0]), (b, pins[1])] && Neighbors(adj, d) == [(b, pins[2])]
    && Neighbors(adj, b) == [(a, pins[3])]
  }

  lemma HidingRing(a: string, b: string, d: string, p: string, w: Walk)
    requires a != b && a != d && b != d && StrLess(a, b) && StrLess(a, d) && !StrLess(b, a) && !StrLess(d, a)
    requires w.stack == [a, d, b] && w.reported == {} && w.findings == []
    ensures var r := Report({d}, a, p, w);
            r.state == w.state && r.stack == w.stack && r.findings == [Finding(Info, [a, d, b], a, p)]
  {
    hide StrLess;
    var ring := w.stack[Index(w.stack, a)..];
    assert w.stack[0] == a;
    assert ring == [a, d, b];
    MinIsLeast(ring);
    assert ring[0] == a && a in ring;
    assert Min(ring) == a && Index(ring, a) == 0 && Rotate(ring) == ring;
    assert d in (set x | x in ring) * {d};
  }

  lemma HidingWalkB(nodes: set<string>, adj: Adjacency, a: string, b: string, d: string, pins: seq<string>, w: Walk)
    requires Hiding(nodes, adj, a, b, d, pins) && WalkOk(w)
    requires w.stack == [a, d] && w.state == map[a := 1, d := 1] && w.reported == {} && w.findings == []
    ensures var r := Visit(nodes, adj, {d}, b, w);
            r.state == map[a := 1, d := 1, b := 2] && r.findings == [Finding(Info, [a, d, b], a, pins[3])]
  {
    hide StrLess, Closed, WalkOk, Visit, VisitEach, Report;
    var open := Open(b, w);
    assert b !in w.state;
    OpenOk(b, w);
    assert open.stack == [a, d, b];
    HidingRing(a, b, d, pins[3], open);
    EachReports(nodes, adj, {d}, a, pins[3], open);
    VisitIs(nodes, adj, {d}, b, w);
  }

  lemma HidingWalkD(nodes: set<string>, adj: Adjacency, a: string, b: string, d: string, pins: seq<string>, w: Walk)
    requires Hiding(nodes, adj, a, b, d, pins) && WalkOk(w)
    requires w.stack == [a] && w.state == map[a := 1] && w.reported == {} && w.findings == []
    ensures var r := Visit(nodes, adj, {d}, d, w);
            r.state == map[a := 1, d := 2, b := 2] && r.findings == [Finding(Info, [a, d, b], a, pins[3])]
  {
    hide StrLess, Closed, WalkOk, Visit, VisitEach;
    var open := Open(d, w);
    OpenOk(d, w);
    assert open.stack == [a, d];
    HidingWalkB(nodes, adj, a, b, d, pins, open);
    EachVisits(nodes, adj, {d}, [(b, pins[2])], open);
    VisitIs(nodes, adj, {d}, d, w);
  }

  lemma HidingWalkA(nodes: set<string>, adj: Adjacency, a: string, b: string, d: string, pins: seq<string>)
    requires Hiding(nodes, adj, a, b, d, pins)
    ensures var r := Visit(nodes, adj, {d}, a, START);
            r.state == map[a := 2, d := 2, b := 2] && r.findings == [Finding(Info, [a, d, b], a, pins[3])]
  {
    hide StrLess, Closed, Visit, VisitEach;
    var open := Open(a, START);
    OpenOk(a, START);
    assert open.stack == [a];
    HidingWalkD(nodes, adj, a, b, d, pins, open);
    var after := Visit(nodes, adj, {d}, d, open);
    var next := Neighbors(adj, a);
    assert next[1..] == [(b, pins[1])];
    EachVisits(nodes, adj, {d}, next, open);
    EachSkips(nodes, adj, {d}, b, pins[1], after);
    VisitIs(nodes, adj, {d}, a, START);
  }

  /** The walk from `a` reports only the ring through `d`, and the later ones find nothing. */
  lemma HidingFindings(nodes: set<string>, adj: Adjacency, a: string, b: string, d: string, pins: seq<string>)
    requires Hiding(nodes, adj, a, b, d, pins)
    ensures Elements([a, b, d]) == nodes && Findings(nodes, adj, {d}, [a, b, d]) == [Finding(Info, [a, d, b], a, pins[3])]
  {
    hide StrLess, Visit;
    HidingWalkA(nodes, adj, a, b, d, pins);
    var after := Visit(nodes, adj, {d}, a, START);
    var names := [a, b, d];
    assert Elements(names) == nodes;
    assert names[1..] == [b, d] && names[1..][1..] == [d] && names[1..][1..][1..] == [];
    assert VisitAll(nodes, adj, {d}, names[1..][1..], after) == after;
    assert VisitAll(nodes, adj, {d}, names[1..], after) == after;
    assert VisitAll(nodes, adj, {d}, names, START) == after;
  }

  const BLOCKS: set<string> := {"a", "b", "d"}

  function Wire(src: string, dst: string, pin: string): Connection {
    Connection(Endpoint(src, "q"), Endpoint(dst, pin))
  }

  /** Four wires, each to a pin of its own. */
  const WIRES: seq<Connection> := [Wire("a", "d", "p1"), Wire("a", "b", "p2"), Wire("d", "b", "p3"), Wire("b", "a", "p4")]

  lemma OneMoreWire(blocks: set<string>, connections: seq<Connection>, src: string, dst: string, pin: string)
    requires src in blocks && dst in blocks
    ensures DirectAdj(blocks, connections + [Wire(src, dst, pin)]) == Extend(DirectAdj(blocks, connections), src, (dst, pin))
  {
    assert (connections + [Wire(src, dst, pin)])[..|connections|] == connections;
  }

  lemma ChartLists()
    ensures AdjacencyOf(BLOCKS, WIRES) == map["a" := [("d", "p1"), ("b", "p2")], "d" := [("b", "p3")], "b" := [("a", "p4")]]
  {
    hide DirectAdj, Wire, PortNames, AdjacencyOf;
    NoWires();
    var w1 := [] + [Wire("a", "d", "p1")];
    var w2 := w1 + [Wire("a", "b", "p2")];
    var w3 := w2 + [Wire("d", "b", "p3")];
    OneMoreWire(BLOCKS, [], "a", "d", "p1");
    OneMoreWire(BLOCKS, w1, "a", "b", "p2");
    OneMoreWire(BLOCKS, w2, "d", "b", "p3");
    OneMoreWire(BLOCKS, w3, "b", "a", "p4");
    assert WIRES == w3 + [Wire("b", "a", "p4")];
    WiresDirect();
    ListsAre();
  }

  lemma ListsAre()
    ensures Extend(Extend(Extend(Extend(map[], "a", ("d", "p1")), "a", ("b", "p2")), "d", ("b", "p3")), "b", ("a", "p4"))
            == map["a" := [("d", "p1"), ("b", "p2")], "d" := [("b", "p3")], "b" := [("a", "p4")]]
  {
    var none: seq<(string, string)> := [];
    assert none + [("d", "p1")] == [("d", "p1")] && none + [("b", "p3")] == [("b", "p3")] && none + [("a", "p4")] == [("a", "p4")];
    assert [("d", "p1")] + [("b", "p2")] == [("d", "p1"), ("b", "p2")];
  }

  lemma WiresDirect()
    ensures AdjacencyOf(BLOCKS, WIRES) == DirectAdj(BLOCKS, WIRES)
  {
    NoPorts(BLOCKS, WIRES);
  }

  lemma NoWires()
    ensures DirectAdj(BLOCKS, []) == map[]
  {
  }

  lemma ChartNames()
    ensures SortedNames(["a", "b", "d"], BLOCKS)
    ensures StrLess("a", "b") && StrLess("a", "d") && !StrLess("b", "a") && !StrLess("d", "a")
  {
    assert StrLess("b", "d") && !StrLess("d", "b");
    forall i, j | 0 <= i < j < 3 ensures !StrLess(["a", "b", "d"][j], ["a", "b", "d"][i]) {
    }
  }

  lemma ChartHides(adj: Adjacency)
    requires adj == map["a" := [("d", "p1"), ("b", "p2")], "d" := [("b", "p3")], "b" := [("a", "p4")]]
    requires Closed(BLOCKS, adj)
    ensures Hiding(BLOCKS, adj, "a", "b", "d", ["p1", "p2", "p3", "p4"])
    ensures ("a", "b") in AdjEdges(adj) && ("b", "a") in AdjEdges(adj)
  {
    ChartNames();
    hide StrLess, Closed;
    assert adj["a"][1].0 == "b" && adj["b"][0].0 == "a";
  }

  /** The loop from `a` to `b` and back passes no delay block, and nothing but an information about the
      ring through the delay block `d` is reported. */
  lemma DelayHidesLoop()
    ensures IsCycle(LoopEdges(BLOCKS, WIRES), ["a", "b", "a"]) && Elements(["a", "b", "a"]) * {"d"} == {}
    ensures SortedNames(["a", "b", "d"], BLOCKS)
    ensures Checked(BLOCKS, WIRES, {"d"}, ["a", "b", "d"]) == [Finding(Info, ["a", "d", "b"], "a", "p4")]
  {
    hide AdjacencyOf, Closed, StrLess, Hiding, Findings, LoopEdges, AdjEdges;
    ChartLists();
    AdjacencyIs(BLOCKS, WIRES);
    ChartNames();
    ChartHides(AdjacencyOf(BLOCKS, WIRES));
    HidingFindings(BLOCKS, AdjacencyOf(BLOCKS, WIRES), "a", "b", "d", ["p1", "p2", "p3", "p4"]);
  }

  /** The checker on that chart. */
  method CheckHidingChart() returns (findings: seq<Finding>)
    ensures findings == [Finding(Info, ["a", "d", "b"], "a", "p4")]
  {
    DelayHidesLoop();
    findings := CheckCycles(BLOCKS, WIRES, {"d"});
  }
}
