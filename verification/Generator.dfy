/** `generate_st_from_fc`: a function chart becomes the lines of a structured-text program. */
module Generator {
  import opened Orders
  import opened Digraphs
  import opened Charts
  import opened Results
  import opened ExecutionOrder
  import opened StraightLine
  import opened StText
  import Validator

  // ---------- what the chart says, statement by statement ----------

  /** What a wire carries: a port name, a constant's literal, or a pin read. */
  function Source(c: Chart, e: Endpoint): Expr {
    var constants := ConstantMap(c.constants);
    if e.block == INTERFACE then
      var bound := Bound(c);
      Name(if e.port in bound then bound[e.port] else e.port)
    else if e.block in constants then Lit(LiteralText(constants[e.block].value, constants[e.block].typ))
    else Field(e.block, e.port)
  }

  /** The wires into a block become arguments, in wire order. */
  function WireArgs(c: Chart, connections: seq<Connection>, b: string): seq<(string, Expr)> {
    if connections == [] then []
    else
      var w := connections[|connections| - 1];
      WireArgs(c, connections[..|connections| - 1], b) +
      (if w.dst.block == b then [(w.dst.port, Source(c, w.src))] else [])
  }

  function ParameterArgs(parameters: seq<(string, Literal)>): seq<(string, Expr)> {
    if parameters == [] then []
    else ParameterArgs(parameters[..|parameters| - 1]) +
         [(parameters[|parameters| - 1].0, Lit(ParameterText(parameters[|parameters| - 1].1)))]
  }

  function CallOf(c: Chart, b: Block): Stmt {
    Call(b.id, WireArgs(c, c.connections, b.id) + ParameterArgs(b.parameters))
  }

  /** The assignments of a page variable, one for each wire into it. */
  function WritesOf(c: Chart, connections: seq<Connection>, x: string): seq<Stmt> {
    if connections == [] then []
    else
      var w := connections[|connections| - 1];
      WritesOf(c, connections[..|connections| - 1], x) +
      (if w.dst == Endpoint(INTERFACE, x) then [Assign(x, Source(c, w.src))] else [])
  }

  /** A wire that leaves the chart: to a port that is neither a page nor a system variable. */
  predicate IsOutput(c: Chart, w: Connection) {
    w.dst.block == INTERFACE && w.dst.port !in Internal(c) && !IsSystem(w.dst.port)
  }

  function OutputName(c: Chart, w: Connection): string {
    var bound := Bound(c);
    if w.dst.port in bound then bound[w.dst.port] else w.dst.port
  }

  function OutputsOf(c: Chart, connections: seq<Connection>): seq<Stmt> {
    if connections == [] then []
    else
      var w := connections[|connections| - 1];
      OutputsOf(c, connections[..|connections| - 1]) +
      (if IsOutput(c, w) then [Assign(OutputName(c, w), Source(c, w.src))] else [])
  }

  function SystemOf(c: Chart, cycleMs: int): seq<Stmt> {
    (if "CYCLE_TICK" in Ports(c) then [Assign("CYCLE_TICK", Builtin("CycleCounter()"))] else []) +
    (if "CYCLE_MS" in Ports(c) then [Assign("CYCLE_MS", Lit(IntText(cycleMs)))] else [])
  }

  function WrittenVars(c: Chart): set<string> {
    set w | w in c.connections && w.dst.block == INTERFACE && w.dst.port in Internal(c) :: w.dst.port
  }

  function BlockSet(c: Chart): set<string> {
    BlockMap(c.blocks).Keys
  }

  function NodesOf(c: Chart): set<Node> {
    NodeSet(BlockSet(c), WrittenVars(c))
  }

  ghost function EdgesOf(c: Chart): Edges<Node> {
    NodeEdges(BlockSet(c), Internal(c), NodesOf(c), c.connections)
  }

  function StmtsOf(c: Chart, node: Node): seq<Stmt> {
    match node
    case BlockNode(id) => if id in BlockMap(c.blocks) then [CallOf(c, BlockMap(c.blocks)[id])] else []
    case VarNode(x) => WritesOf(c, c.connections, x)
  }

  function NodeBody(c: Chart, order: seq<Node>): seq<Stmt> {
    if order == [] then []
    else NodeBody(c, order[..|order| - 1]) + StmtsOf(c, order[|order| - 1])
  }

  function Body(c: Chart, cycleMs: int, order: seq<Node>): seq<Stmt> {
    SystemOf(c, cycleMs) + NodeBody(c, order) + OutputsOf(c, c.connections)
  }

  // ---------- the declarations ----------

  function PortLines(c: Chart, ports: seq<Port>): seq<string> {
    if ports == [] then []
    else
      var p := ports[|ports| - 1];
      PortLines(c, ports[..|ports| - 1]) +
      (if p.bind.None? && p.name !in Internal(c) && !IsSystem(p.name) then [Declaration(p.name, p.typ)] else [])
  }

  function BlockLines(blocks: seq<Block>): seq<string> {
    if blocks == [] then []
    else BlockLines(blocks[..|blocks| - 1]) + [Declaration(blocks[|blocks| - 1].id, blocks[|blocks| - 1].typ)]
  }

  function VarLines(ports: map<string, Port>, names: seq<string>): seq<string>
    requires forall n :: n in names ==> n in ports
  {
    if names == [] then []
    else VarLines(ports, names[..|names| - 1]) +
         [Declaration(names[|names| - 1], ports[names[|names| - 1]].typ)]
  }

  function SystemLines(c: Chart): seq<string> {
    (if "CYCLE_TICK" in Ports(c) then [Declaration("CYCLE_TICK", "DINT")] else []) +
    (if "CYCLE_MS" in Ports(c) then [Declaration("CYCLE_MS", "DINT")] else [])
  }

  function Section(keyword: string, entries: seq<string>): seq<string> {
    if entries == [] then [] else [keyword] + entries + ["END_VAR"]
  }

  /** The comment naming the station variables the associated ports read. */
  function BoundComment(count: nat, variables: seq<string>): string {
    "(* " + IntText(count) + " port(s) read the station configuration variables declared by the device stage: " +
    Join(", ", variables) + " *)"
  }

  /** Everything before the body; `internal` and `variables` are sorted name lists. */
  function Header(c: Chart, instancesGlobal: bool, internal: seq<string>, variables: seq<string>): seq<string>
    requires Elements(internal) == Internal(c)
  {
    assert forall n :: n in internal ==> n in Elements(internal);
    ["PROGRAM " + c.name] +
    Section("VAR", if instancesGlobal then []
                   else BlockLines(c.blocks) + VarLines(Ports(c), internal) + SystemLines(c)) +
    Section("VAR_INPUT", PortLines(c, c.inputs)) +
    Section("VAR_OUTPUT", PortLines(c, c.outputs)) +
    Section("VAR_IN_OUT", PortLines(c, c.inOuts)) +
    (if |Bound(c)| > 0 then [BoundComment(|Bound(c)|, variables)] else []) +
    [""]
  }

  // ---------- the generator ----------

  /** The order `_execution_order` returns for the chart. */
  ghost predicate IsOrderOf(c: Chart, order: seq<Node>) {
    IsLeastTopo(NodeLess, NodesOf(c), EdgesOf(c), order)
  }

  /** The charts the generator accepts. */
  ghost predicate Generatable(c: Chart) {
    && Distinct(BlockIds(c.blocks)) && INTERFACE !in BlockIds(c.blocks)
    && !HasCycle(BlockEdges(Elements(BlockIds(c.blocks)), c.connections))
    && !HasCycle(EdgesOf(c))
    && forall e :: e in EdgesOf(c) ==> e.0 in NodesOf(c)
  }

  /** `lines` is the program text of the chart for the given order. */
  ghost predicate IsProgram(c: Chart, instancesGlobal: bool, cycleMs: int, order: seq<Node>, lines: seq<string>) {
    exists internal, variables ::
      && SortedNames(internal, Internal(c)) && SortedNames(variables, Bound(c).Values)
      && lines == Header(c, instancesGlobal, internal, variables) + RenderAll(Body(c, cycleMs, order)) + ["END_PROGRAM"]
  }

  /** `_source_text`. */
  method SourceText(c: Chart, e: Endpoint) returns (text: string)
    ensures text == RenderExpr(Source(c, e))
  {
    var constants, bound := ConstantMap(c.constants), Bound(c);
    if e.block == INTERFACE {
      return if e.port in bound then bound[e.port] else e.port;
    }
    if e.block in constants {
      return LiteralText(constants[e.block].value, constants[e.block].typ);
    }
    return e.block + "." + e.port;
  }

  method DeclareBlocks(blocks: seq<Block>) returns (lines: seq<string>)
    ensures lines == BlockLines(blocks)
  {
    lines := [];
    for i := 0 to |blocks|
      invariant lines == BlockLines(blocks[..i])
    {
      assert blocks[..i + 1][..i] == blocks[..i];
      lines := lines + ["    " + blocks[i].id + " : " + blocks[i].typ + ";"];
    }
    assert blocks[..|blocks|] == blocks;
  }

  method DeclareVars(ports: map<string, Port>, names: seq<string>) returns (lines: seq<string>)
    requires forall n :: n in names ==> n in ports
    ensures lines == VarLines(ports, names)
  {
    lines := [];
    for i := 0 to |names|
      invariant lines == VarLines(ports, names[..i])
    {
      assert names[..i + 1][..i] == names[..i];
      lines := lines + ["    " + names[i] + " : " + ports[names[i]].typ + ";"];
    }
    assert names[..|names|] == names;
  }

  method DeclarePorts(c: Chart, ports: seq<Port>, keyword: string) returns (lines: seq<string>)
    ensures lines == Section(keyword, PortLines(c, ports))
  {
    var entries: seq<string> := [];
    for i := 0 to |ports|
      invariant entries == PortLines(c, ports[..i])
    {
      assert ports[..i + 1][..i] == ports[..i];
      var p := ports[i];
      if p.bind.None? && p.name !in Internal(c) && !IsSystem(p.name) {
        entries := entries + ["    " + p.name + " : " + p.typ + ";"];
      }
    }
    assert ports[..|ports|] == ports;
    lines := [];
    if |entries| > 0 {
      lines := [keyword] + entries + ["END_VAR"];
    }
  }

  method DeclareSystem(c: Chart) returns (lines: seq<string>)
    ensures lines == SystemLines(c)
  {
    hide Declaration;
    SystemDeclarations();
    var ports := Ports(c);
    lines := [];
    if "CYCLE_TICK" in ports { lines := lines + ["    CYCLE_TICK : DINT;"]; }
    if "CYCLE_MS" in ports { lines := lines + ["    CYCLE_MS : DINT;"]; }
  }

  lemma SystemDeclarations()
    ensures Declaration("CYCLE_TICK", "DINT") == "    CYCLE_TICK : DINT;" && Declaration("CYCLE_MS", "DINT") == "    CYCLE_MS : DINT;"
  {
  }

  method DeclareInstances(c: Chart, instancesGlobal: bool, internal: seq<string>) returns (lines: seq<string>)
    requires Elements(internal) == Internal(c)
    ensures InPorts(c, internal)
    ensures lines == Section("VAR", if instancesGlobal then []
                                    else BlockLines(c.blocks) + VarLines(Ports(c), internal) + SystemLines(c))
  {
    hide PortMap, BlockLines, VarLines, SystemLines;
    InternalPorts(c, internal);
    var declarations: seq<string> := [];
    if !instancesGlobal {
      var blocks := DeclareBlocks(c.blocks);
      var vars := DeclareVars(Ports(c), internal);
      var system := DeclareSystem(c);
      declarations := blocks + vars + system;
    }
    lines := [];
    if declarations != [] { lines := ["VAR"] + declarations + ["END_VAR"]; }
  }

  ghost predicate InPorts(c: Chart, names: seq<string>) {
    forall n :: n in names ==> n in Ports(c)
  }

  lemma InternalPorts(c: Chart, internal: seq<string>)
    requires Elements(internal) == Internal(c)
    ensures InPorts(c, internal)
  {
    assert forall n :: n in internal ==> n in Elements(internal);
  }

  method CommentLine(c: Chart, variables: seq<string>) returns (lines: seq<string>)
    ensures lines == if |Bound(c)| > 0 then [BoundComment(|Bound(c)|, variables)] else []
  {
    hide IntText, Join, Bound;
    var bound := Bound(c);
    lines := [];
    if |bound| > 0 {
      lines := ["(* " + IntText(|bound|) +
                " port(s) read the station configuration variables declared by the device stage: " +
                Join(", ", variables) + " *)"];
    }
  }

  /** The lines before the body. */
  method HeaderLines(c: Chart, instancesGlobal: bool, internal: seq<string>, variables: seq<string>) returns (lines: seq<string>)
    requires Elements(internal) == Internal(c)
    ensures lines == Header(c, instancesGlobal, internal, variables)
  {
    hide Section, BoundComment, PortLines, BlockLines, VarLines, SystemLines, Bound, PortMap;
    var vars := DeclareInstances(c, instancesGlobal, internal);
    var inputs := DeclarePorts(c, c.inputs, "VAR_INPUT");
    var outputs := DeclarePorts(c, c.outputs, "VAR_OUTPUT");
    var inOuts := DeclarePorts(c, c.inOuts, "VAR_IN_OUT");
    var comment := CommentLine(c, variables);
    lines := ["PROGRAM " + c.name] + vars + inputs + outputs + inOuts + comment + [""];
  }

  lemma SystemRendered(cycleMs: int)
    ensures Render(Assign("CYCLE_TICK", Builtin("CycleCounter()"))) == "CYCLE_TICK := CycleCounter();"
    ensures Render(Assign("CYCLE_MS", Lit(IntText(cycleMs)))) == "CYCLE_MS := " + IntText(cycleMs) + ";"
  {
    hide IntText;
    assert "CYCLE_TICK" + " := " + "CycleCounter()" + ";" == "CYCLE_TICK := CycleCounter();";
    assert "CYCLE_MS" + " := " == "CYCLE_MS := ";
  }

  /** The assignments the system variables begin a cycle with. */
  method SystemText(c: Chart, cycleMs: int) returns (lines: seq<string>)
    ensures lines == RenderAll(SystemOf(c, cycleMs))
  {
    hide IntText, Render, PortMap;
    SystemRendered(cycleMs);
    var ports := Ports(c);
    lines := [];
    if "CYCLE_TICK" in ports { lines := lines + ["CYCLE_TICK := CycleCounter();"]; }
    if "CYCLE_MS" in ports { lines := lines + ["CYCLE_MS := " + IntText(cycleMs) + ";"]; }
  }

  method CallLine(c: Chart, b: Block) returns (line: string)
    ensures line == Render(CallOf(c, b))
  {
    var args: seq<string> := [];
    for i := 0 to |c.connections|
      invariant args == RenderArgs(WireArgs(c, c.connections[..i], b.id))
    {
      var w := c.connections[i];
      assert c.connections[..i + 1][..i] == c.connections[..i];
      if w.dst.block != b.id { continue; }
      RenderArgsAppend(WireArgs(c, c.connections[..i], b.id), (w.dst.port, Source(c, w.src)));
      var source := SourceText(c, w.src);
      args := args + [w.dst.port + " := " + source];
    }
    assert c.connections[..|c.connections|] == c.connections;
    ghost var wires := WireArgs(c, c.connections, b.id);
    for i := 0 to |b.parameters|
      invariant args == RenderArgs(wires + ParameterArgs(b.parameters[..i]))
    {
      var (name, value) := b.parameters[i];
      assert b.parameters[..i + 1][..i] == b.parameters[..i];
      ghost var before := wires + ParameterArgs(b.parameters[..i]);
      assert before + [(name, Lit(ParameterText(value)))] == wires + ParameterArgs(b.parameters[..i + 1]);
      RenderArgsAppend(before, (name, Lit(ParameterText(value))));
      args := args + [name + " := " + ParameterText(value)];
    }
    assert b.parameters[..|b.parameters|] == b.parameters;
    line := b.id + "(" + Join(", ", args) + ");";
  }

  method WriteLines(c: Chart, x: string) returns (lines: seq<string>)
    ensures lines == RenderAll(WritesOf(c, c.connections, x))
  {
    lines := [];
    for i := 0 to |c.connections|
      invariant lines == RenderAll(WritesOf(c, c.connections[..i], x))
    {
      var w := c.connections[i];
      assert c.connections[..i + 1][..i] == c.connections[..i];
      if w.dst == Endpoint(INTERFACE, x) {
        RenderAllAppend(WritesOf(c, c.connections[..i], x), Assign(x, Source(c, w.src)));
        var source := SourceText(c, w.src);
        lines := lines + [x + " := " + source + ";"];
      }
    }
    assert c.connections[..|c.connections|] == c.connections;
  }

  method OutputLines(c: Chart) returns (lines: seq<string>)
    ensures lines == RenderAll(OutputsOf(c, c.connections))
  {
    lines := [];
    for i := 0 to |c.connections|
      invariant lines == RenderAll(OutputsOf(c, c.connections[..i]))
    {
      var w := c.connections[i];
      assert c.connections[..i + 1][..i] == c.connections[..i];
      if w.dst.block != INTERFACE || w.dst.port in Internal(c) { continue; }
      if IsSystem(w.dst.port) { continue; }
      RenderAllAppend(OutputsOf(c, c.connections[..i]), Assign(OutputName(c, w), Source(c, w.src)));
      var bound, source := Bound(c), "";
      source := SourceText(c, w.src);
      lines := lines + [(if w.dst.port in bound then bound[w.dst.port] else w.dst.port) + " := " + source + ";"];
    }
    assert c.connections[..|c.connections|] == c.connections;
  }

  method NodeLines(c: Chart, node: Node) returns (lines: seq<string>)
    requires node in NodesOf(c)
    ensures lines == RenderAll(StmtsOf(c, node))
  {
    match node
    case BlockNode(id) =>
      var line := CallLine(c, BlockMap(c.blocks)[id]);
      RenderAllAppend([], CallOf(c, BlockMap(c.blocks)[id]));
      lines := [line];
    case VarNode(x) =>
      lines := WriteLines(c, x);
  }

  method BodyLines(c: Chart, cycleMs: int, order: seq<Node>) returns (lines: seq<string>)
    requires Elements(order) == NodesOf(c)
    ensures lines == RenderAll(Body(c, cycleMs, order))
  {
    hide SystemOf, StmtsOf, OutputsOf, RenderAll, NodesOf;
    ghost var prog := SystemOf(c, cycleMs);
    lines := SystemText(c, cycleMs);
    for i := 0 to |order|
      invariant prog == SystemOf(c, cycleMs) + NodeBody(c, order[..i]) && lines == RenderAll(prog)
    {
      assert order[..i + 1][..i] == order[..i];
      assert order[i] in Elements(order);
      RenderAllConcat(prog, StmtsOf(c, order[i]));
      prog := prog + StmtsOf(c, order[i]);
      var more := NodeLines(c, order[i]);
      lines := lines + more;
    }
    assert order[..|order|] == order;
    var outputs := OutputLines(c);
    RenderAllConcat(prog, OutputsOf(c, c.connections));
    lines := lines + outputs;
  }

  /** The two ordering passes; either may refuse the chart. */
  method PlanOrder(c: Chart) returns (r: Result<seq<Node>, string>)
    ensures r.Ok? <==> Generatable(c)
    ensures r.Ok? ==> IsOrderOf(c, r.value)
  {
    hide HasCycle, IsTopo, BlockEdges, NodeEdges, Distinct;
    var _, errors := Validator.TopologicalSort(BlockIds(c.blocks), c.connections);
    if errors != [] { return Err(errors[0]); }
    r := Order(BlockSet(c), Internal(c), WrittenVars(c), c.connections);
  }

  /** Refuses exactly the charts that have no execution order, and prints the others in it. */
  method GenerateSt(c: Chart, instancesGlobal: bool, cycleMs: int) returns (r: Result<string, string>)
    ensures r.Ok? <==> Generatable(c)
    ensures r.Ok? ==> exists order, lines ::
              IsOrderOf(c, order) && IsProgram(c, instancesGlobal, cycleMs, order, lines) && r.value == Join("\n", lines)
  {
    StrLessTotal();
    hide *;
    var internal := SortedSet(StrLess, Internal(c));
    var variables := SortedSet(StrLess, Bound(c).Values);
    var lines := HeaderLines(c, instancesGlobal, internal, variables);
    var plan := PlanOrder(c);
    match plan {
      case Err(e) => return Err(e);
      case Ok(order) =>
        LeastCovers(c, order);
        var body := BodyLines(c, cycleMs, order);
        ProgramIntro(c, instancesGlobal, cycleMs, order, internal, variables);
        lines := lines + body + ["END_PROGRAM"];
        return Ok(Join("\n", lines));
    }
  }

  lemma ProgramIntro(c: Chart, instancesGlobal: bool, cycleMs: int, order: seq<Node>,
                     internal: seq<string>, variables: seq<string>)
    requires Elements(internal) == Internal(c) && Distinct(internal) && Sorted(StrLess, internal)
    requires Elements(variables) == Bound(c).Values && Distinct(variables) && Sorted(StrLess, variables)
    ensures IsProgram(c, instancesGlobal, cycleMs, order,
                      Header(c, instancesGlobal, internal, variables) + RenderAll(Body(c, cycleMs, order)) + ["END_PROGRAM"])
  {
    assert SortedNames(internal, Internal(c)) && SortedNames(variables, Bound(c).Values);
  }

  lemma LeastCovers(c: Chart, order: seq<Node>)
    requires IsOrderOf(c, order)
    ensures Elements(order) == NodesOf(c)
  {
  }
}
