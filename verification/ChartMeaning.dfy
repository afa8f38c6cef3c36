/** The generated body computes the unique solution of the chart's wire equations. */
module ChartMeaning {
  import opened Orders
  import opened Digraphs
  import opened Charts
  import opened Results
  import opened ExecutionOrder
  import opened StraightLine
  import opened Generator

  // ---------- the chart read as equations ----------

  /** A wire that drives a variable: a page variable or an output port. */
  predicate DrivesVar(w: Connection) {
    w.dst.block == INTERFACE && !IsSystem(w.dst.port)
  }

  function DrivenVar(c: Chart, w: Connection): string {
    if w.dst.port in Internal(c) then w.dst.port else OutputName(c, w)
  }

  function ReadName(c: Chart, port: string): string {
    if port in Bound(c) then Bound(c)[port] else port
  }

  /** The final values as the chart draws them, starting the cycle in `start`. */
  ghost predicate ChartSolution<V>(c: Chart, cycleMs: int, m: Machine<V>, start: Store<V>, end: Store<V>) {
    // every block ran once, from its old fields and its pins' final values
    && (forall id :: id in BlockSet(c) ==>
          && id in end.insts
          && end.insts[id] == m.run(id, Overlay(m, end, FieldsOf(start, id), CallOf(c, BlockMap(c.blocks)[id]).args)))
    // every wire into a variable carries its source's final value
    && (forall w :: w in c.connections && DrivesVar(w) ==>
          DrivenVar(c, w) in end.vars && end.vars[DrivenVar(c, w)] == Eval(m, end, Source(c, w.src)))
    && (forall s :: s in SystemOf(c, cycleMs) ==> Holds(m, start, end, s))
    // nothing else changed
    && (forall id :: id !in BlockSet(c) ==> Same(start, end, InstLoc(id)))
    && (forall x :: Undriven(c, cycleMs, x) ==> Same(start, end, VarLoc(x)))
  }

  ghost predicate Undriven(c: Chart, cycleMs: int, x: string) {
    && (forall w :: w in c.connections && DrivesVar(w) ==> DrivenVar(c, w) != x)
    && (forall s :: s in SystemOf(c, cycleMs) ==> Target(s) != VarLoc(x))
  }

  /** What the caller can check before generating: one driver per variable, no mixed-up names. */
  ghost predicate WellWired(c: Chart) {
    && SingleDrivers(c)
    && (forall w :: w in c.connections && w.src.block == INTERFACE && w.src.port in Internal(c) ==> w.src != w.dst)
    && (forall w :: w in c.connections && w.src.block == INTERFACE && w.src.port !in Internal(c) ==>
          ReadName(c, w.src.port) !in Internal(c))
    && (forall w :: w in c.connections && IsOutput(c, w) ==>
          OutputName(c, w) !in Internal(c) && !IsSystem(OutputName(c, w)))
    && (forall w, r :: w in c.connections && IsOutput(c, w) && r in c.connections && r.src.block == INTERFACE ==>
          ReadName(c, r.src.port) != OutputName(c, w))
  }

  ghost predicate SingleDrivers(c: Chart) {
    forall i, j :: 0 <= i < j < |c.connections| && DrivesVar(c.connections[i]) && DrivesVar(c.connections[j]) ==>
      DrivenVar(c, c.connections[i]) != DrivenVar(c, c.connections[j])
  }

  // ---------- which statements the pieces contain ----------

  function LocOf(n: Node): Loc {
    match n
    case BlockNode(id) => InstLoc(id)
    case VarNode(x) => VarLoc(x)
  }

  lemma {:induction false} WireArgsFrom(c: Chart, connections: seq<Connection>, b: string, i: nat)
    requires i < |WireArgs(c, connections, b)|
    ensures exists w :: w in connections && w.dst.block == b && WireArgs(c, connections, b)[i] == (w.dst.port, Source(c, w.src))
  {
    var n := |connections| - 1;
    if i < |WireArgs(c, connections[..n], b)| {
      WireArgsFrom(c, connections[..n], b, i);
      var w :| w in connections[..n] && w.dst.block == b && WireArgs(c, connections[..n], b)[i] == (w.dst.port, Source(c, w.src));
      assert w in connections;
    } else {
      assert connections[n] in connections;
    }
  }

  lemma {:induction false} ParameterArgsRead(parameters: seq<(string, Literal)>, i: nat)
    requires i < |ParameterArgs(parameters)|
    ensures ExprReads(ParameterArgs(parameters)[i].1) == {}
  {
    if i < |ParameterArgs(parameters[..|parameters| - 1])| {
      ParameterArgsRead(parameters[..|parameters| - 1], i);
    }
  }

  /** What a call reads comes over a wire into the block. */
  lemma CallReads(c: Chart, b: Block, l: Loc) returns (w: Connection)
    requires l in Reads(CallOf(c, b))
    ensures w in c.connections && w.dst.block == b.id && l in ExprReads(Source(c, w.src))
  {
    var wires, params := WireArgs(c, c.connections, b.id), ParameterArgs(b.parameters);
    var args := wires + params;
    var i :| 0 <= i < |args| && l in ExprReads(args[i].1);
    if i < |wires| {
      WireArgsFrom(c, c.connections, b.id, i);
      w :| w in c.connections && w.dst.block == b.id && wires[i] == (w.dst.port, Source(c, w.src));
    } else {
      ParameterArgsRead(b.parameters, i - |wires|);
      assert false;
    }
  }

  lemma {:induction false} WritesAre(c: Chart, connections: seq<Connection>, x: string)
    ensures forall s :: s in WritesOf(c, connections, x) <==>
              exists w :: w in connections && w.dst == Endpoint(INTERFACE, x) && s == Assign(x, Source(c, w.src))
  {
    if connections != [] {
      var rest, last := connections[..|connections| - 1], connections[|connections| - 1];
      WritesAre(c, rest, x);
      assert connections == rest + [last];
      forall s ensures s in WritesOf(c, connections, x) <==>
                 exists w :: w in connections && w.dst == Endpoint(INTERFACE, x) && s == Assign(x, Source(c, w.src)) {
        if s in WritesOf(c, rest, x) {
          var w :| w in rest && w.dst == Endpoint(INTERFACE, x) && s == Assign(x, Source(c, w.src));
          assert w in connections;
        } else if s in WritesOf(c, connections, x) {
          assert last in connections;
        }
      }
    }
  }

  lemma WrittenByWire(c: Chart, k: nat, x: string) returns (i: nat)
    requires k <= |c.connections| && x in Internal(c) && WritesOf(c, c.connections[..k], x) != []
    ensures i < k && DrivesVar(c.connections[i]) && DrivenVar(c, c.connections[i]) == x
  {
    WritesAre(c, c.connections[..k], x);
    var s := WritesOf(c, c.connections[..k], x)[0];
    assert s in WritesOf(c, c.connections[..k], x);
    var w :| w in c.connections[..k] && w.dst == Endpoint(INTERFACE, x) && s == Assign(x, Source(c, w.src));
    i :| 0 <= i < k && c.connections[i] == w;
  }

  /** With single drivers a page variable is assigned at most once. */
  lemma {:induction false} OneWrite(c: Chart, k: nat, x: string)
    requires SingleDrivers(c) && k <= |c.connections| && x in Internal(c)
    ensures |WritesOf(c, c.connections[..k], x)| <= 1
  {
    if k > 0 {
      OneWrite(c, k - 1, x);
      assert c.connections[..k][..k - 1] == c.connections[..k - 1];
      var last := c.connections[k - 1];
      assert last.dst == Endpoint(INTERFACE, x) ==> DrivesVar(last) && DrivenVar(c, last) == x;
      if WritesOf(c, c.connections[..k - 1], x) != [] {
        var i := WrittenByWire(c, k - 1, x);
      }
    }
  }

  lemma {:induction false} OutputsAre(c: Chart, connections: seq<Connection>)
    ensures forall s :: s in OutputsOf(c, connections) <==>
              exists w :: w in connections && IsOutput(c, w) && s == Assign(OutputName(c, w), Source(c, w.src))
  {
    if connections != [] {
      var rest, last := connections[..|connections| - 1], connections[|connections| - 1];
      OutputsAre(c, rest);
      assert connections == rest + [last];
      forall s ensures s in OutputsOf(c, connections) <==>
                 exists w :: w in connections && IsOutput(c, w) && s == Assign(OutputName(c, w), Source(c, w.src)) {
        if s in OutputsOf(c, rest) {
          var w :| w in rest && IsOutput(c, w) && s == Assign(OutputName(c, w), Source(c, w.src));
          assert w in connections;
        } else if s in OutputsOf(c, connections) {
          assert last in connections;
        }
      }
    }
  }

  lemma {:induction false} OutputsSingle(c: Chart, k: nat)
    requires SingleDrivers(c) && k <= |c.connections|
    ensures SingleAssignment(OutputsOf(c, c.connections[..k]))
  {
    if k > 0 {
      OutputsSingle(c, k - 1);
      assert c.connections[..k][..k - 1] == c.connections[..k - 1];
      var rest, last := OutputsOf(c, c.connections[..k - 1]), c.connections[k - 1];
      if IsOutput(c, last) {
        forall i | 0 <= i < |rest| ensures Target(rest[i]) != VarLoc(OutputName(c, last)) {
          OutputsAre(c, c.connections[..k - 1]);
          assert rest[i] in rest;
          var w :| w in c.connections[..k - 1] && IsOutput(c, w) && rest[i] == Assign(OutputName(c, w), Source(c, w.src));
          var j :| 0 <= j < k - 1 && c.connections[j] == w;
          assert DrivesVar(w) && DrivesVar(last);
        }
      }
    }
  }

  // ---------- reads of a node are its predecessors ----------

  lemma WireEdge(c: Chart, w: Connection, n: Node, n': Node)
    requires Generatable(c) && WellWired(c) && w in c.connections
    requires n in NodesOf(c) && n' in NodesOf(c)
    requires NodeOf(BlockSet(c), Internal(c), w.dst) == Some(n)
    requires LocOf(n') in ExprReads(Source(c, w.src))
    ensures (n', n) in EdgesOf(c)
  {
    hide Generatable, WellWired, BlockSet, Internal, NodesOf, Source, NodeOf;
    SourceNode(c, w, n');
    NotItself(c, w, n, n');
    assert IsEdge(BlockSet(c), Internal(c), NodesOf(c), w);
    assert EdgeOf(BlockSet(c), Internal(c), NodesOf(c), w) == (n', n);
  }

  /** What a wire's source reads: the pin's block, or the variable a port is read as. */
  lemma SourceReads(c: Chart, e: Endpoint)
    ensures ExprReads(Source(c, e)) <= {if e.block == INTERFACE then VarLoc(ReadName(c, e.port)) else InstLoc(e.block)}
  {
    hide Bound, ConstantMap;
  }

  lemma ReadInside(c: Chart, w: Connection, x: string)
    requires WellWired(c) && w in c.connections && w.src.block == INTERFACE
    requires ReadName(c, w.src.port) == x && x in Internal(c)
    ensures w.src.port == x
  {
    hide SingleDrivers, DrivenVar, OutputName;
    assert w.src.port in Internal(c);
  }

  /** The node a wire's source reads is the node the wire comes from. */
  lemma SourceNode(c: Chart, w: Connection, n': Node)
    requires Generatable(c) && WellWired(c) && w in c.connections && n' in NodesOf(c)
    requires LocOf(n') in ExprReads(Source(c, w.src))
    ensures NodeOf(BlockSet(c), Internal(c), w.src) == Some(n')
  {
    hide Generatable, WellWired, Source, Internal, ReadName, BlockSet;
    NoSentinelBlock(c);
    SourceReads(c, w.src);
    if n'.VarNode? { ReadInside(c, w, n'.name); }
  }

  lemma NotItself(c: Chart, w: Connection, n: Node, n': Node)
    requires Generatable(c) && WellWired(c) && w in c.connections
    requires NodeOf(BlockSet(c), Internal(c), w.dst) == Some(n)
    requires NodeOf(BlockSet(c), Internal(c), w.src) == Some(n')
    ensures n' != n
  {
    if n'.BlockNode? { SelfLoopIsCycle(c, w); }
  }

  lemma NoSentinelBlock(c: Chart)
    requires Generatable(c)
    ensures INTERFACE !in BlockSet(c) && BlockSet(c) == Elements(BlockIds(c.blocks))
  {
    forall id ensures id in BlockSet(c) <==> id in BlockIds(c.blocks) {
      if id in BlockSet(c) {
        var b :| b in c.blocks && b.id == id;
        var i :| 0 <= i < |c.blocks| && c.blocks[i] == b;
        assert BlockIds(c.blocks)[i] == id;
      }
    }
  }

  lemma SelfLoopIsCycle(c: Chart, w: Connection)
    requires Generatable(c) && w in c.connections && w.src.block in BlockSet(c)
    ensures w.dst.block != w.src.block
  {
    NoSentinelBlock(c);
    var b, E := w.src.block, BlockEdges(Elements(BlockIds(c.blocks)), c.connections);
    if w.dst.block == b {
      assert (b, b) in E;
      assert IsCycle(E, [b, b]);
    }
  }

  lemma NodeReads(c: Chart, n: Node, n': Node, s: Stmt)
    requires Generatable(c) && WellWired(c) && n in NodesOf(c) && n' in NodesOf(c)
    requires s in StmtsOf(c, n) && LocOf(n') in Reads(s)
    ensures n' in Preds(EdgesOf(c), n)
  {
    NoSentinelBlock(c);
    match n {
      case BlockNode(id) =>
        var w := CallReads(c, BlockMap(c.blocks)[id], LocOf(n'));
        WireEdge(c, w, n, n');
      case VarNode(x) =>
        WritesAre(c, c.connections, x);
        var w :| w in c.connections && w.dst == Endpoint(INTERFACE, x) && s == Assign(x, Source(c, w.src));
        WireEdge(c, w, n, n');
    }
  }

  /** Each node contributes exactly one statement, which writes the node's location. */
  lemma NodeStatement(c: Chart, n: Node)
    requires SingleDrivers(c) && n in NodesOf(c)
    ensures |StmtsOf(c, n)| == 1 && Target(StmtsOf(c, n)[0]) == LocOf(n)
  {
    if n.VarNode? {
      assert c.connections[..|c.connections|] == c.connections;
      OneWrite(c, |c.connections|, n.name);
      WritesAre(c, c.connections, n.name);
      var w :| w in c.connections && w.dst.block == INTERFACE && w.dst.port == n.name;
      assert w.dst == Endpoint(INTERFACE, n.name);
      assert Assign(n.name, Source(c, w.src)) in WritesOf(c, c.connections, n.name);
      assert WritesOf(c, c.connections, n.name)[0] in WritesOf(c, c.connections, n.name);
    }
  }

  lemma {:induction false} NodeBodyShape(c: Chart, order: seq<Node>, k: nat)
    requires SingleDrivers(c) && Elements(order) <= NodesOf(c) && k <= |order|
    ensures |NodeBody(c, order[..k])| == k
    ensures forall i :: 0 <= i < k ==> NodeBody(c, order[..k])[i] in StmtsOf(c, order[i])
    ensures forall i :: 0 <= i < k ==> Target(NodeBody(c, order[..k])[i]) == LocOf(order[i])
  {
    hide StmtsOf, NodesOf, SingleDrivers, LocOf;
    if k > 0 {
      NodeBodyShape(c, order, k - 1);
      assert order[..k][..k - 1] == order[..k - 1];
      assert order[k - 1] in Elements(order);
      NodeStatement(c, order[k - 1]);
    }
  }

  lemma NodeBodyOrdered(c: Chart, order: seq<Node>)
    requires Generatable(c) && WellWired(c) && IsTopo(NodesOf(c), EdgesOf(c), order)
    ensures SingleAssignment(NodeBody(c, order)) && DependencyOrdered(NodeBody(c, order))
  {
    var body := NodeBody(c, order);
    assert order[..|order|] == order;
    assert SingleDrivers(c);
    hide StmtsOf, NodesOf, EdgesOf, NodeBody, WellWired, Generatable, SingleDrivers;
    NodeBodyShape(c, order, |order|);
    forall i, j | 0 <= i < j < |body| ensures Target(body[i]) != Target(body[j]) {
      assert order[i] != order[j];
    }
    forall i, j | 0 <= i <= j < |body| ensures Target(body[j]) !in Reads(body[i]) {
      if LocOf(order[j]) in Reads(body[i]) {
        assert order[i] in Elements(order) && order[j] in Elements(order);
        NodeReads(c, order[i], order[j], body[i]);
      }
    }
  }

  // ---------- putting the three pieces together ----------

  lemma Concatenated(a: seq<Stmt>, b: seq<Stmt>)
    requires SingleAssignment(a) && SingleAssignment(b) && DependencyOrdered(a) && DependencyOrdered(b)
    requires forall s, t :: s in a && t in b ==> Target(s) != Target(t) && Target(t) !in Reads(s)
    ensures SingleAssignment(a + b) && DependencyOrdered(a + b)
  {
    var p := a + b;
    forall i, j | 0 <= i < j < |p| ensures Target(p[i]) != Target(p[j]) {
      if i < |a| <= j { assert p[i] in a && p[j] in b; }
    }
    forall i, j | 0 <= i <= j < |p| ensures Target(p[j]) !in Reads(p[i]) {
      if i < |a| <= j { assert p[i] in a && p[j] in b; }
    }
  }

  /** The statements of the body are exactly: system, one call per block, one assignment per wire. */
  lemma NodeBodyMembers(c: Chart, order: seq<Node>, s: Stmt)
    requires SingleDrivers(c) && Elements(order) == NodesOf(c)
    ensures s in NodeBody(c, order) <==> exists n :: n in NodesOf(c) && s in StmtsOf(c, n)
  {
    hide *;
    assert order[..|order|] == order;
    assert forall n :: n in order <==> n in Elements(order) by { InElements(order); }
    NodeBodyShape(c, order, |order|);
    if n :| n in NodesOf(c) && s in StmtsOf(c, n) {
      var i :| 0 <= i < |order| && order[i] == n;
      NodeStatement(c, n);
      assert NodeBody(c, order)[i] == s;
    }
    if s in NodeBody(c, order) {
      var i :| 0 <= i < |order| && NodeBody(c, order)[i] == s;
      assert order[i] in order && s in StmtsOf(c, order[i]);
    }
  }

  lemma InElements<T>(s: seq<T>)
    ensures forall x :: x in s <==> x in Elements(s)
  {
  }

  lemma SystemTargets(c: Chart, cycleMs: int)
    ensures SingleAssignment(SystemOf(c, cycleMs)) && DependencyOrdered(SystemOf(c, cycleMs))
    ensures forall s :: s in SystemOf(c, cycleMs) ==> Reads(s) == {} && Target(s).VarLoc? && IsSystem(Target(s).name)
  {
    assert Assign("CYCLE_TICK", Builtin("CycleCounter()")).target[6] == 'T';
    assert Assign("CYCLE_MS", Lit(StText.IntText(cycleMs))).target[6] == 'M';
  }

  lemma BodyOrdered(c: Chart, cycleMs: int, order: seq<Node>)
    requires Generatable(c) && WellWired(c) && IsTopo(NodesOf(c), EdgesOf(c), order)
    ensures SingleAssignment(Body(c, cycleMs, order)) && DependencyOrdered(Body(c, cycleMs, order))
  {
    var system, nodes, outputs := SystemOf(c, cycleMs), NodeBody(c, order), OutputsOf(c, c.connections);
    SystemTargets(c, cycleMs);
    NodeBodyOrdered(c, order);
    assert c.connections[..|c.connections|] == c.connections;
    OutputsSingle(c, |c.connections|);
    OutputsAre(c, c.connections);
    forall s, t | s in system && t in nodes ensures Target(s) != Target(t) && Target(t) !in Reads(s) {
      NodeBodyMembers(c, order, t);
      var n :| n in NodesOf(c) && t in StmtsOf(c, n);
      NodeStatement(c, n);
    }
    Concatenated(system, nodes);
    forall i, j | 0 <= i <= j < |outputs| ensures Target(outputs[j]) !in Reads(outputs[i]) {
      OutputReads(c, outputs[i], outputs[j]);
    }
    forall s, t | s in system + nodes && t in outputs ensures Target(s) != Target(t) && Target(t) !in Reads(s) {
      if s in nodes {
        NodeAgainstOutput(c, order, s, t);
      } else {
        assert s in system;
      }
    }
    Concatenated(system + nodes, outputs);
  }

  /** No wire source names an output variable. */
  lemma SourceAgainstOutput(c: Chart, w: Connection, t: Stmt)
    requires WellWired(c) && w in c.connections && t in OutputsOf(c, c.connections)
    ensures Target(t) !in ExprReads(Source(c, w.src))
  {
    OutputsAre(c, c.connections);
    var o :| o in c.connections && IsOutput(c, o) && t == Assign(OutputName(c, o), Source(c, o.src));
    if w.src.block == INTERFACE {
      assert ReadName(c, w.src.port) != OutputName(c, o);
    }
  }

  lemma OutputReads(c: Chart, s: Stmt, t: Stmt)
    requires WellWired(c) && s in OutputsOf(c, c.connections) && t in OutputsOf(c, c.connections)
    ensures Target(t) !in Reads(s)
  {
    OutputsAre(c, c.connections);
    var w :| w in c.connections && IsOutput(c, w) && s == Assign(OutputName(c, w), Source(c, w.src));
    SourceAgainstOutput(c, w, t);
  }

  /** What a node's statement reads comes over some wire. */
  lemma NodeReadsWire(c: Chart, n: Node, s: Stmt, l: Loc) returns (w: Connection)
    requires n in NodesOf(c) && s in StmtsOf(c, n) && l in Reads(s)
    ensures w in c.connections && l in ExprReads(Source(c, w.src))
  {
    match n {
      case BlockNode(id) =>
        w := CallReads(c, BlockMap(c.blocks)[id], l);
      case VarNode(x) =>
        WritesAre(c, c.connections, x);
        w :| w in c.connections && w.dst == Endpoint(INTERFACE, x) && s == Assign(x, Source(c, w.src));
    }
  }

  lemma OutputTarget(c: Chart, t: Stmt)
    requires WellWired(c) && t in OutputsOf(c, c.connections)
    ensures Target(t).VarLoc? && Target(t).name !in Internal(c) && !IsSystem(Target(t).name)
  {
    OutputsAre(c, c.connections);
  }

  lemma NodeLocInternal(c: Chart, n: Node)
    requires n in NodesOf(c) && n.VarNode?
    ensures n.name in Internal(c)
  {
  }

  lemma NodeAgainstOutput(c: Chart, order: seq<Node>, s: Stmt, t: Stmt)
    requires Generatable(c) && WellWired(c) && SingleDrivers(c) && Elements(order) == NodesOf(c)
    requires s in NodeBody(c, order) && t in OutputsOf(c, c.connections)
    ensures Target(s) != Target(t) && Target(t) !in Reads(s)
  {
    hide *;
    NodeBodyMembers(c, order, s);
    var n :| n in NodesOf(c) && s in StmtsOf(c, n);
    NodeStatement(c, n);
    OutputTarget(c, t);
    assert Target(s) != Target(t) by {
      LocOfIs(n);
      if n.VarNode? { NodeLocInternal(c, n); }
    }
    if Target(t) in Reads(s) {
      var w := NodeReadsWire(c, n, s, Target(t));
      SourceAgainstOutput(c, w, t);
    }
  }

  lemma LocOfIs(n: Node)
    ensures n.BlockNode? ==> LocOf(n) == InstLoc(n.id)
    ensures n.VarNode? ==> LocOf(n) == VarLoc(n.name)
  {
  }

  /** A statement of the body is a system assignment, a block's call, or a wire's assignment. */
  lemma BodyMembers(c: Chart, cycleMs: int, order: seq<Node>, s: Stmt)
    requires Generatable(c) && SingleDrivers(c) && Elements(order) == NodesOf(c)
    ensures s in Body(c, cycleMs, order) <==>
              || s in SystemOf(c, cycleMs)
              || (s.Call? && s.block in BlockSet(c) && s == CallOf(c, BlockMap(c.blocks)[s.block]))
              || (exists w :: w in c.connections && DrivesVar(w) && s == Assign(DrivenVar(c, w), Source(c, w.src)))
  {
    NodeBodyMembers(c, order, s);
    OutputsAre(c, c.connections);
    if s in NodeBody(c, order) {
      var n :| n in NodesOf(c) && s in StmtsOf(c, n);
      if n.VarNode? {
        WritesAre(c, c.connections, n.name);
        var w :| w in c.connections && w.dst == Endpoint(INTERFACE, n.name) && s == Assign(n.name, Source(c, w.src));
        assert DrivesVar(w) && DrivenVar(c, w) == n.name;
      }
    }
    if s in OutputsOf(c, c.connections) {
      var w :| w in c.connections && IsOutput(c, w) && s == Assign(OutputName(c, w), Source(c, w.src));
      assert DrivesVar(w) && DrivenVar(c, w) == OutputName(c, w);
    }
    if s.Call? && s.block in BlockSet(c) && s == CallOf(c, BlockMap(c.blocks)[s.block]) {
      assert s in StmtsOf(c, BlockNode(s.block));
    }
    if w :| w in c.connections && DrivesVar(w) && s == Assign(DrivenVar(c, w), Source(c, w.src)) {
      if w.dst.port in Internal(c) {
        WritesAre(c, c.connections, w.dst.port);
        assert w.dst == Endpoint(INTERFACE, w.dst.port);
        assert s in StmtsOf(c, VarNode(w.dst.port));
      }
    }
  }

  /** The chart's equations are the body's equations. */
  lemma SolutionIsSolves<V>(c: Chart, cycleMs: int, order: seq<Node>, m: Machine<V>, start: Store<V>, end: Store<V>)
    requires Generatable(c) && SingleDrivers(c) && Elements(order) == NodesOf(c)
    ensures ChartSolution(c, cycleMs, m, start, end) ==> Solves(m, start, end, Body(c, cycleMs, order))
    ensures Solves(m, start, end, Body(c, cycleMs, order)) ==> ChartSolution(c, cycleMs, m, start, end)
  {
    var prog := Body(c, cycleMs, order);
    if ChartSolution(c, cycleMs, m, start, end) {
      forall s | s in prog ensures Holds(m, start, end, s) {
        BodyMembers(c, cycleMs, order, s);
      }
      forall l | forall s :: s in prog ==> Target(s) != l ensures Same(start, end, l) {
        UnwrittenByBody(c, cycleMs, order, l);
        assert l.VarLoc? ==> Undriven(c, cycleMs, l.name);
      }
    }
    if Solves(m, start, end, prog) {
      forall id | id in BlockSet(c) ensures Holds(m, start, end, CallOf(c, BlockMap(c.blocks)[id])) {
        BodyMembers(c, cycleMs, order, CallOf(c, BlockMap(c.blocks)[id]));
      }
      forall w | w in c.connections && DrivesVar(w) ensures Holds(m, start, end, Assign(DrivenVar(c, w), Source(c, w.src))) {
        BodyMembers(c, cycleMs, order, Assign(DrivenVar(c, w), Source(c, w.src)));
      }
      forall s | s in SystemOf(c, cycleMs) ensures Holds(m, start, end, s) {
        BodyMembers(c, cycleMs, order, s);
      }
      forall id | id !in BlockSet(c) ensures Same(start, end, InstLoc(id)) {
        forall s | s in prog ensures Target(s) != InstLoc(id) {
          BodyMembers(c, cycleMs, order, s);
          SystemTargets(c, cycleMs);
        }
      }
      forall x | Undriven(c, cycleMs, x) ensures Same(start, end, VarLoc(x)) {
        forall s | s in prog ensures Target(s) != VarLoc(x) {
          BodyMembers(c, cycleMs, order, s);
        }
      }
    }
  }

  lemma UnwrittenByBody(c: Chart, cycleMs: int, order: seq<Node>, l: Loc)
    requires Generatable(c) && SingleDrivers(c) && Elements(order) == NodesOf(c)
    requires forall s :: s in Body(c, cycleMs, order) ==> Target(s) != l
    ensures l.InstLoc? ==> l.block !in BlockSet(c)
    ensures l.VarLoc? ==> forall w :: w in c.connections && DrivesVar(w) ==> DrivenVar(c, w) != l.name
    ensures forall s :: s in SystemOf(c, cycleMs) ==> Target(s) != l
  {
    if l.InstLoc? && l.block in BlockSet(c) {
      BodyMembers(c, cycleMs, order, CallOf(c, BlockMap(c.blocks)[l.block]));
    }
    if l.VarLoc? {
      forall w | w in c.connections && DrivesVar(w) ensures DrivenVar(c, w) != l.name {
        BodyMembers(c, cycleMs, order, Assign(DrivenVar(c, w), Source(c, w.src)));
      }
    }
  }

  /**
   * Meaning preservation: on a well-wired chart, running the generated statements once ends in the
   * one store that satisfies all the chart's equations, so every read sees this cycle's value.
   */
  lemma Meaning<V>(c: Chart, cycleMs: int, order: seq<Node>, m: Machine<V>, start: Store<V>, end: Store<V>)
    requires Generatable(c) && WellWired(c) && IsOrderOf(c, order)
    ensures ChartSolution(c, cycleMs, m, start, end) <==> end == ExecAll(m, start, Body(c, cycleMs, order))
  {
    BodyOrdered(c, cycleMs, order);
    UniqueSolution(m, start, Body(c, cycleMs, order), end);
    SolutionIsSolves(c, cycleMs, order, m, start, end);
  }

  /** Every block is called by exactly one statement of the body. */
  lemma CalledOnce(c: Chart, cycleMs: int, order: seq<Node>, id: string) returns (at: nat)
    requires Generatable(c) && WellWired(c) && IsOrderOf(c, order) && id in BlockSet(c)
    ensures var prog := Body(c, cycleMs, order);
            && at < |prog| && prog[at] == CallOf(c, BlockMap(c.blocks)[id])
            && forall i :: 0 <= i < |prog| && prog[i].Call? && prog[i].block == id ==> i == at
  {
    var prog := Body(c, cycleMs, order);
    BodyOrdered(c, cycleMs, order);
    BodyMembers(c, cycleMs, order, CallOf(c, BlockMap(c.blocks)[id]));
    at :| 0 <= at < |prog| && prog[at] == CallOf(c, BlockMap(c.blocks)[id]);
    forall i | 0 <= i < |prog| && prog[i].Call? && prog[i].block == id ensures i == at {
      assert Target(prog[i]) == InstLoc(id) == Target(prog[at]);
    }
  }

  lemma {:induction false} OverlayAt<V>(m: Machine<V>, st: Store<V>, fields: map<string, V>, args: seq<(string, Expr)>, pin: string, v: V)
    requires exists i :: 0 <= i < |args| && args[i].0 == pin
    requires forall i :: 0 <= i < |args| && args[i].0 == pin ==> Eval(m, st, args[i].1) == v
    ensures pin in Overlay(m, st, fields, args) && Overlay(m, st, fields, args)[pin] == v
  {
    var n := |args| - 1;
    if args[n].0 != pin {
      var i :| 0 <= i < |args| && args[i].0 == pin;
      assert args[..n][i].0 == pin;
      OverlayAt(m, st, fields, args[..n], pin, v);
    }
  }

  lemma {:induction false} WireArgsHas(c: Chart, connections: seq<Connection>, w: Connection)
    requires w in connections
    ensures (w.dst.port, Source(c, w.src)) in WireArgs(c, connections, w.dst.block)
  {
    var n := |connections| - 1;
    if w != connections[n] {
      assert connections == connections[..n] + [connections[n]];
      WireArgsHas(c, connections[..n], w);
    }
  }

  lemma {:induction false} ParameterArgsNames(parameters: seq<(string, Literal)>, i: nat)
    requires i < |ParameterArgs(parameters)|
    ensures exists p :: p in parameters && p.0 == ParameterArgs(parameters)[i].0
  {
    var n := |parameters| - 1;
    if i < |ParameterArgs(parameters[..n])| {
      ParameterArgsNames(parameters[..n], i);
      var p :| p in parameters[..n] && p.0 == ParameterArgs(parameters[..n])[i].0;
      assert p in parameters;
    } else {
      assert parameters[n] in parameters;
    }
  }

  /** A pin driven by one wire and not by a parameter is called with that wire's value. */
  lemma PinSeesWire<V>(c: Chart, m: Machine<V>, end: Store<V>, fields: map<string, V>, w: Connection)
    requires w in c.connections && w.dst.block in BlockSet(c)
    requires forall w' :: w' in c.connections && w'.dst == w.dst ==> w' == w
    requires forall p :: p in BlockMap(c.blocks)[w.dst.block].parameters ==> p.0 != w.dst.port
    ensures var passed := Overlay(m, end, fields, CallOf(c, BlockMap(c.blocks)[w.dst.block]).args);
            w.dst.port in passed && passed[w.dst.port] == Eval(m, end, Source(c, w.src))
  {
    var b := BlockMap(c.blocks)[w.dst.block];
    var wires, params := WireArgs(c, c.connections, b.id), ParameterArgs(b.parameters);
    WireArgsHas(c, c.connections, w);
    var k :| 0 <= k < |wires| && wires[k] == (w.dst.port, Source(c, w.src));
    assert (wires + params)[k].0 == w.dst.port;
    forall i | 0 <= i < |wires + params| && (wires + params)[i].0 == w.dst.port
      ensures Eval(m, end, (wires + params)[i].1) == Eval(m, end, Source(c, w.src))
    {
      if i < |wires| {
        WireArgsFrom(c, c.connections, b.id, i);
        var w' :| w' in c.connections && w'.dst.block == b.id && wires[i] == (w'.dst.port, Source(c, w'.src));
        assert w'.dst == w.dst;
      } else {
        ParameterArgsNames(b.parameters, i - |wires|);
      }
    }
    OverlayAt(m, end, fields, wires + params, w.dst.port, Eval(m, end, Source(c, w.src)));
  }

  /** The order depends on the sets of blocks, page variables and wires, never on list order. */
  lemma OrderIsCanonical(c: Chart, c': Chart, order: seq<Node>, order': seq<Node>)
    requires IsOrderOf(c, order) && IsOrderOf(c', order')
    requires BlockSet(c) == BlockSet(c') && Internal(c) == Internal(c')
    requires Elements(c.connections) == Elements(c'.connections)
    ensures order == order'
  {
    InElements(c.connections);
    InElements(c'.connections);
    forall v ensures v in WrittenVars(c) <==> v in WrittenVars(c') {}
    assert NodesOf(c) == NodesOf(c');
    forall e ensures e in EdgesOf(c) <==> e in EdgesOf(c') {}
    NodeLessTotal();
    LeastTopoUnique(NodeLess, NodesOf(c), EdgesOf(c), order, order');
  }
}
