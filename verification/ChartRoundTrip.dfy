/** The round trip: a plain chart, its generated text, and the chart parsed from it are the same after normalisation. */
module ChartRoundTrip {
  import opened Orders
  import opened Digraphs
  import opened Charts
  import opened Results
  import opened ExecutionOrder
  import opened StraightLine
  import opened StText
  import opened Strings
  import opened StParser
  import opened TextRoundTrip
  import opened Generator

  // ---------- plain charts ----------

  predicate PlainPort(p: Port) {
    Ident(p.name) && Word(p.typ) && p.scope == "" && p.bind == None && !IsSystem(p.name)
  }

  predicate PlainParameter(p: (string, Literal)) {
    Word(p.0) && (p.1.IntLit? || p.1.BoolLit?)
  }

  predicate PlainBlock(b: Block) {
    Ident(b.id) && Word(b.typ) && forall p <- b.parameters :: PlainParameter(p)
  }

  predicate PlainSource(e: Endpoint) {
    if e.block == INTERFACE then Ident(e.port) else Ident(e.block) && Word(e.port)
  }

  predicate PlainTarget(e: Endpoint, ids: seq<string>) {
    if e.block == INTERFACE then Ident(e.port) && !IsSystem(e.port) else e.block in ids && Word(e.port)
  }

  predicate PlainWire(w: Connection, ids: seq<string>) {
    PlainSource(w.src) && PlainTarget(w.dst, ids)
  }

  /** Names that no reader takes for something else; ports with a name and a type only; whole or
      truth-valued parameters; no constants; every pin given once. */
  ghost predicate Plain(c: Chart) {
    && Word(c.name) && c.constants == []
    && (forall p <- c.inputs + c.outputs + c.inOuts :: PlainPort(p))
    && (forall b <- c.blocks :: PlainBlock(b) && DistinctKeys(CallPairs(c, b)))
    && (forall w <- c.connections :: PlainWire(w, BlockIds(c.blocks)))
    && Distinct(BlockIds(c.blocks)) && INTERFACE !in BlockIds(c.blocks)
  }

  // ---------- the text of a plain chart ----------

  function SourceText(e: Endpoint): string {
    if e.block == INTERFACE then e.port else e.block + "." + e.port
  }

  function WiresTo(connections: seq<Connection>, b: string): seq<Connection> {
    if connections == [] then []
    else
      var w := connections[|connections| - 1];
      WiresTo(connections[..|connections| - 1], b) + (if w.dst.block == b then [w] else [])
  }

  function WirePairs(wires: seq<Connection>): seq<(string, string)> {
    if wires == [] then []
    else WirePairs(wires[..|wires| - 1]) + [(wires[|wires| - 1].dst.port, SourceText(wires[|wires| - 1].src))]
  }

  function ParamPairs(ps: seq<(string, Literal)>): seq<(string, string)> {
    if ps == [] then [] else ParamPairs(ps[..|ps| - 1]) + [(ps[|ps| - 1].0, ParameterText(ps[|ps| - 1].1))]
  }

  function CallPairs(c: Chart, b: Block): seq<(string, string)> {
    WirePairs(WiresTo(c.connections, b.id)) + ParamPairs(b.parameters)
  }

  function PairTexts(args: seq<(string, Expr)>): (r: seq<(string, string)>)
    ensures |r| == |args| && forall i :: 0 <= i < |args| ==> r[i] == (args[i].0, RenderExpr(args[i].1))
  {
    seq(|args|, i requires 0 <= i < |args| => (args[i].0, RenderExpr(args[i].1)))
  }

  lemma PlainMaps(c: Chart)
    requires Plain(c)
    ensures Internal(c) == {} && Bound(c) == map[] && "CYCLE_TICK" !in Ports(c) && "CYCLE_MS" !in Ports(c)
  {
    PortMapIs(c.inputs + c.outputs + c.inOuts);
    var ports := Ports(c);
    forall n | n in ports ensures ports[n].scope == "" && ports[n].bind == None && !IsSystem(n) {
      assert PlainPort(ports[n]);
    }
    assert Bound(c) == map[];
  }

  lemma {:induction false} PortMapIs(ports: seq<Port>)
    ensures forall n :: n in PortMap(ports) ==> PortMap(ports)[n] in ports && PortMap(ports)[n].name == n
  {
    if ports != [] {
      PortMapIs(ports[..|ports| - 1]);
      assert ports == ports[..|ports| - 1] + [ports[|ports| - 1]];
    }
  }

  lemma PlainSourceText(c: Chart, e: Endpoint)
    requires Plain(c)
    ensures RenderExpr(Source(c, e)) == SourceText(e)
  {
    PlainMaps(c);
  }

  lemma PairTextsAppend(args: seq<(string, Expr)>, a: (string, Expr))
    ensures PairTexts(args + [a]) == PairTexts(args) + [(a.0, RenderExpr(a.1))]
    ensures PairTexts(args + []) == PairTexts(args)
  {
    assert args + [] == args;
  }

  lemma WirePairsAppend(wires: seq<Connection>, w: Connection)
    ensures WirePairs(wires + [w]) == WirePairs(wires) + [(w.dst.port, SourceText(w.src))]
    ensures WirePairs(wires + []) == WirePairs(wires)
  {
    assert (wires + [w])[..|wires|] == wires && wires + [] == wires;
  }

  lemma {:induction false} WireTexts(c: Chart, connections: seq<Connection>, b: string)
    requires Plain(c)
    ensures PairTexts(WireArgs(c, connections, b)) == WirePairs(WiresTo(connections, b))
  {
    hide Plain, Source, PairTexts, WirePairs, RenderExpr, SourceText;
    if connections != [] {
      var n := |connections| - 1;
      var w := connections[n];
      WireTexts(c, connections[..n], b);
      PlainSourceText(c, w.src);
      PairTextsAppend(WireArgs(c, connections[..n], b), (w.dst.port, Source(c, w.src)));
      WirePairsAppend(WiresTo(connections[..n], b), w);
    } else {
      EmptyPairs();
    }
  }

  lemma EmptyPairs()
    ensures PairTexts([]) == [] && WirePairs([]) == []
  {
  }

  lemma {:induction false} ParamTexts(ps: seq<(string, Literal)>)
    ensures PairTexts(ParameterArgs(ps)) == ParamPairs(ps)
  {
    if ps != [] { ParamTexts(ps[..|ps| - 1]); }
  }

  /** The line of a block's call. */
  lemma CallText(c: Chart, b: Block)
    requires Plain(c)
    ensures Render(CallOf(c, b)) == b.id + "(" + Join(", ", ArgTexts(CallPairs(c, b))) + ");"
  {
    hide Plain, WireArgs, ParameterArgs, WirePairs, ParamPairs, RenderExpr;
    WireTexts(c, c.connections, b.id);
    ParamTexts(b.parameters);
    var args := CallOf(c, b).args;
    assert PairTexts(args) == CallPairs(c, b);
    assert RenderArgs(args) == ArgTexts(CallPairs(c, b));
  }

  // ---------- what reading a call does ----------

  lemma SourceBack(e: Endpoint)
    requires PlainSource(e)
    ensures var t := SourceText(e); !IsLiteral(t) && ParseReference(t) == e && Plainly(t) && t != [] && Strip(t) == t
    ensures SourceIs(SourceText(e)) == e
  {
    hide IsLiteral, Lower, Strip, Find, ParseReference, Plainly, SourceIs;
    if e.block == INTERFACE { PortSourceBack(e); } else { PinSourceBack(e); }
  }

  lemma PortSourceBack(e: Endpoint)
    requires PlainSource(e) && e.block == INTERFACE
    ensures var t := SourceText(e); !IsLiteral(t) && ParseReference(t) == e && Plainly(t) && t != [] && Strip(t) == t
    ensures SourceIs(SourceText(e)) == e
  {
    hide IsLiteral, Lower, Strip, Find, ParseReference, Plainly;
    PortBack(e.port);
    NameNotLiteral(e.port, []);
    assert e.port + [] == e.port;
  }

  lemma PinSourceBack(e: Endpoint)
    requires PlainSource(e) && e.block != INTERFACE
    ensures var t := SourceText(e); !IsLiteral(t) && ParseReference(t) == e && Plainly(t) && t != [] && Strip(t) == t
    ensures SourceIs(SourceText(e)) == e
  {
    hide IsLiteral, Lower, Strip, Find, ParseReference, Plainly;
    ReferenceBack(e.block, e.port);
    var rest := "." + e.port;
    assert rest[1..] == e.port;
    NameNotLiteral(e.block, rest);
    assert e.block + rest == SourceText(e);
  }

  /** What `TakeAssign` makes of a source text. */
  function SourceIs(t: string): Endpoint {
    var i := Strings.Find(t, ".");
    if i >= 0 then Endpoint(t[..i], t[i + 1..]) else Endpoint(INTERFACE, t)
  }

  lemma ParameterBack(p: (string, Literal))
    requires PlainParameter(p)
    ensures var t := ParameterText(p.1); IsLiteral(t) && ParseLiteral(t) == p.1 && Plainly(t) && t != []
  {
    hide IsLiteral, ParseLiteral, IntText;
    match p.1
    case IntLit(n) => IntBack(n);
    case BoolLit(b) => BoolBack(b);
  }

  lemma {:induction false} WirePairsPlain(wires: seq<Connection>)
    requires forall w <- wires :: PlainSource(w.src) && Word(w.dst.port)
    ensures forall a <- WirePairs(wires) :: PlainArg(a)
  {
    hide PlainSource, SourceText;
    if wires != [] {
      WirePairsPlain(wires[..|wires| - 1]);
      assert wires[|wires| - 1] in wires;
      SourceBack(wires[|wires| - 1].src);
    }
  }

  lemma {:induction false} ParamPairsPlain(ps: seq<(string, Literal)>)
    requires forall p <- ps :: PlainParameter(p)
    ensures forall a <- ParamPairs(ps) :: PlainArg(a)
  {
    hide ParameterText;
    if ps != [] {
      ParamPairsPlain(ps[..|ps| - 1]);
      assert ps[|ps| - 1] in ps;
      ParameterBack(ps[|ps| - 1]);
    }
  }

  lemma {:induction false} TakeWires(st: Reading, b: string, wires: seq<Connection>)
    requires forall w <- wires :: PlainSource(w.src) && w.dst.block == b
    ensures TakeCall(st, b, WirePairs(wires)) == st.(connections := st.connections + wires)
  {
    hide PlainSource, SourceText, IsLiteral, ParseReference;
    if wires == [] {
      assert st.connections + wires == st.connections;
    } else {
      var n := |wires| - 1;
      var w := wires[n];
      assert w in wires;
      TakeWires(st, b, wires[..n]);
      SourceBack(w.src);
      var pairs := WirePairs(wires[..n]);
      assert (pairs + [(w.dst.port, SourceText(w.src))])[..|pairs|] == pairs;
      assert Endpoint(b, w.dst.port) == w.dst;
      assert st.connections + wires[..n] + [w] == st.connections + wires;
    }
  }

  function WithParameters(blocks: seq<PBlock>, id: string, ps: seq<(string, Literal)>): seq<PBlock> {
    if ps == [] then blocks
    else SetParameter(WithParameters(blocks, id, ps[..|ps| - 1]), id, ps[|ps| - 1].0, ps[|ps| - 1].1)
  }

  lemma {:induction false} TakeParameters(st: Reading, id: string, front: seq<(string, string)>, ps: seq<(string, Literal)>)
    requires forall p <- ps :: PlainParameter(p)
    ensures var t := TakeCall(st, id, front);
            TakeCall(st, id, front + ParamPairs(ps)) == t.(blocks := WithParameters(t.blocks, id, ps))
  {
    hide PlainParameter, ParameterText, IsLiteral, ParseLiteral;
    if ps == [] {
      assert front + [] == front;
    } else {
      var n := |ps| - 1;
      assert ps[n] in ps;
      ParameterBack(ps[n]);
      TakeParameters(st, id, front, ps[..n]);
      var pairs := front + ParamPairs(ps[..n]);
      assert front + ParamPairs(ps) == pairs + [(ps[n].0, ParameterText(ps[n].1))];
    }
  }

  /** A block's parameters as a dictionary. */
  function ParameterMap(ps: seq<(string, Literal)>): map<string, Literal> {
    if ps == [] then map[] else ParameterMap(ps[..|ps| - 1])[ps[|ps| - 1].0 := ps[|ps| - 1].1]
  }

  /** The declared blocks, with the parameters of those already called. */
  function BlocksRead(blocks: seq<Block>, called: set<string>): (r: seq<PBlock>)
    ensures |r| == |blocks| && forall i :: 0 <= i < |blocks| ==>
              r[i] == PBlock(blocks[i].id, blocks[i].typ, if blocks[i].id in called then ParameterMap(blocks[i].parameters) else map[])
  {
    seq(|blocks|, i requires 0 <= i < |blocks| =>
      PBlock(blocks[i].id, blocks[i].typ, if blocks[i].id in called then ParameterMap(blocks[i].parameters) else map[]))
  }

  lemma {:induction false} WithParametersAt(blocks: seq<PBlock>, j: nat, ps: seq<(string, Literal)>)
    requires j < |blocks| && blocks[j].parameters == map[] && forall i :: 0 <= i < j ==> blocks[i].id != blocks[j].id
    ensures WithParameters(blocks, blocks[j].id, ps) == blocks[j := blocks[j].(parameters := ParameterMap(ps))]
  {
    if ps == [] {
      assert blocks[j := blocks[j]] == blocks;
    } else {
      WithParametersAt(blocks, j, ps[..|ps| - 1]);
      var mid := blocks[j := blocks[j].(parameters := ParameterMap(ps[..|ps| - 1]))];
      SetParameterAt(mid, j, ps[|ps| - 1].0, ps[|ps| - 1].1);
    }
  }

  /** Reading the call of the `j`-th block. */
  lemma TakeWholeCall(c: Chart, st: Reading, j: nat, called: set<string>)
    requires Plain(c) && j < |c.blocks| && c.blocks[j].id !in called
    requires !st.done && st.section == Outside && st.blocks == BlocksRead(c.blocks, called)
    ensures var b := c.blocks[j];
            && Free(Render(CallOf(c, b)), '\n')
            && TakeLine(st, Render(CallOf(c, b))) ==
               st.(blocks := BlocksRead(c.blocks, called + {b.id}), connections := st.connections + WiresTo(c.connections, b.id))
  {
    hide Strip, Contains, MatchCall, ArgsOf, TakeCall, WirePairs, ParamPairs, PlainArg, IsLiteral, ArgTexts, CallOf, Render,
         PlainSource, PlainParameter, MatchAssign, MatchDeclaration, Ident, Lower, Join, WithParameters, ParameterMap;
    var b := c.blocks[j];
    assert b in c.blocks;
    var wires := WiresTo(c.connections, b.id);
    CallText(c, b);
    WiresPlain(c, b.id);
    WirePairsPlain(wires);
    ParamPairsPlain(b.parameters);
    ArgsBack(CallPairs(c, b));
    IdentWord(b.id);
    CallMatches(b.id, Join(", ", ArgTexts(CallPairs(c, b))));
    TakeWires(st, b.id, wires);
    TakeParameters(st, b.id, WirePairs(wires), b.parameters);
    IdsApart(c, j);
    WithParametersAt(st.blocks, j, b.parameters);
    assert st.blocks[j := st.blocks[j].(parameters := ParameterMap(b.parameters))] == BlocksRead(c.blocks, called + {b.id});
    FixedGoesOn(st, Render(CallOf(c, b)));
  }

  lemma IdentWord(s: string)
    requires Ident(s)
    ensures Word(s) && Free(s, '\n')
  {
  }

  lemma IdsApart(c: Chart, j: nat)
    requires Distinct(BlockIds(c.blocks)) && j < |c.blocks|
    ensures forall i :: 0 <= i < |c.blocks| && i != j ==> c.blocks[i].id != c.blocks[j].id
  {
    var ids := BlockIds(c.blocks);
    forall i | 0 <= i < |c.blocks| && i != j ensures c.blocks[i].id != c.blocks[j].id {
      assert if i < j then ids[i] != ids[j] else ids[j] != ids[i];
    }
  }

  lemma {:induction false} WiresToIn(connections: seq<Connection>, b: string)
    ensures forall w <- WiresTo(connections, b) :: w in connections && w.dst.block == b
  {
    if connections != [] {
      WiresToIn(connections[..|connections| - 1], b);
      assert connections == connections[..|connections| - 1] + [connections[|connections| - 1]];
    }
  }

  lemma WiresPlain(c: Chart, b: string)
    requires Plain(c) && b != INTERFACE
    ensures forall w <- WiresTo(c.connections, b) :: PlainSource(w.src) && Word(w.dst.port) && w.dst.block == b
  {
    WiresToIn(c.connections, b);
    forall w | w in WiresTo(c.connections, b) ensures PlainSource(w.src) && Word(w.dst.port) && w.dst.block == b {
      assert PlainWire(w, BlockIds(c.blocks));
    }
  }

  /** Outside the sections, a line that is none of the fixed ones is a call, an assignment or nothing. */
  lemma FixedGoesOn(st: Reading, line: string)
    requires st.section == Outside && NotFixed(line) && Strip(line) == line
    ensures Contains(line, "(") && Contains(line, ");") ==>
              TakeLine(st, line) == (match MatchCall(line) case None => st case Some((id, args)) => TakeCall(st, id, ArgsOf(args)))
    ensures !Contains(line, "(") && Contains(line, ":=") ==>
              TakeLine(st, line) == (match MatchAssign(line) case None => st case Some((x, e)) => TakeAssign(st, x, e))
  {
    hide Strip, Contains, MatchCall, ArgsOf, TakeCall, MatchAssign, TakeAssign;
  }

  // ---------- reading the declarations ----------

  function DeclarationLines(ds: seq<(string, string)>): (r: seq<string>)
    ensures |r| == |ds| && forall i :: 0 <= i < |ds| ==> r[i] == Declaration(ds[i].0, ds[i].1)
  {
    seq(|ds|, i requires 0 <= i < |ds| => Declaration(ds[i].0, ds[i].1))
  }

  predicate PlainDeclaration(d: (string, string)) {
    Ident(d.0) && Word(d.1)
  }

  function Declared(st: Reading, ds: seq<(string, string)>): Reading {
    match st.section
    case InVar => st.(blocks := st.blocks + FreshBlocks(ds))
    case InInput => st.(inputs := st.inputs + ds)
    case InOutput => st.(outputs := st.outputs + ds)
    case InInOut => st.(inOuts := st.inOuts + ds)
    case Outside => st
  }

  function FreshBlocks(ds: seq<(string, string)>): (r: seq<PBlock>)
    ensures |r| == |ds| && forall i :: 0 <= i < |ds| ==> r[i] == PBlock(ds[i].0, ds[i].1, map[])
  {
    seq(|ds|, i requires 0 <= i < |ds| => PBlock(ds[i].0, ds[i].1, map[]))
  }

  lemma TakeOneDeclaration(st: Reading, d: (string, string))
    requires st.section != Outside && PlainDeclaration(d)
    ensures TakeLine(st, Declaration(d.0, d.1)) == TakeDeclaration(st, d)
    ensures Free(Declaration(d.0, d.1), '\n')
  {
    hide Strip, Contains, MatchDeclaration, TakeDeclaration, Declaration, Lower;
    DeclarationMatches(d.0, d.1);
    DeclarationFree(d.0, d.1);
  }

  lemma DeclarationFree(name: string, typ: string)
    requires AllWord(name) && AllWord(typ)
    ensures Free(Declaration(name, typ), '\n')
  {
  }

  lemma TakeFirst(st: Reading, line: string, rest: seq<string>)
    requires !st.done
    ensures TakeLines(st, [line] + rest) == TakeLines(TakeLine(st, line), rest)
    ensures TakeLines(st, []) == st
  {
    hide TakeLine;
    assert ([line] + rest)[1..] == rest;
  }

  lemma DeclarationLinesStep(ds: seq<(string, string)>)
    requires ds != []
    ensures DeclarationLines(ds) == [Declaration(ds[0].0, ds[0].1)] + DeclarationLines(ds[1..])
  {
    hide Declaration;
  }

  lemma {:induction false} TakeDeclarations(st: Reading, ds: seq<(string, string)>)
    requires st.section != Outside && !st.done && forall d <- ds :: PlainDeclaration(d)
    ensures TakeLines(st, DeclarationLines(ds)) == Declared(st, ds)
    ensures forall l <- DeclarationLines(ds) :: Free(l, '\n')
    decreases |ds|
  {
    hide TakeLine, TakeLines, PlainDeclaration, Declaration, TakeDeclaration, Declared, Free;
    if ds == [] {
      DeclaredStep(st, ("", ""), []);
      TakeFirst(st, "", []);
    } else {
      var d, rest := ds[0], ds[1..];
      assert d in ds;
      TakeOneDeclaration(st, d);
      DeclaredStep(st, d, rest);
      TakeDeclarations(TakeDeclaration(st, d), rest);
      DeclarationLinesStep(ds);
      TakeFirst(st, Declaration(d.0, d.1), DeclarationLines(rest));
      assert ds == [d] + rest;
    }
  }

  lemma DeclaredStep(st: Reading, d: (string, string), rest: seq<(string, string)>)
    ensures Declared(TakeDeclaration(st, d), rest) == Declared(st, [d] + rest)
    ensures Declared(st, []) == st
    ensures TakeDeclaration(st, d).section == st.section && TakeDeclaration(st, d).done == st.done
  {
    assert st.inputs + [d] + rest == st.inputs + ([d] + rest) && st.inputs + [] == st.inputs;
    assert st.outputs + [d] + rest == st.outputs + ([d] + rest) && st.outputs + [] == st.outputs;
    assert st.inOuts + [d] + rest == st.inOuts + ([d] + rest) && st.inOuts + [] == st.inOuts;
    assert st.blocks + [PBlock(d.0, d.1, map[])] + FreshBlocks(rest) == st.blocks + FreshBlocks([d] + rest);
    assert st.blocks + FreshBlocks([]) == st.blocks;
  }

  lemma {:induction false} TakeLinesConcat(st: Reading, a: seq<string>, b: seq<string>)
    ensures TakeLines(st, a + b) == TakeLines(TakeLines(st, a), b)
    decreases |a|
  {
    hide TakeLine;
    if a == [] {
      assert a + b == b;
    } else if !st.done {
      assert (a + b)[1..] == a[1..] + b;
      TakeLinesConcat(TakeLine(st, a[0]), a[1..], b);
    }
  }

  lemma TakeOne(st: Reading, line: string)
    requires !st.done
    ensures TakeLines(st, [line]) == TakeLine(st, line)
  {
    hide TakeLine;
    assert [line][1..] == [];
  }

  /** The keyword lines. */
  lemma TakeKeywords(st: Reading)
    ensures TakeLine(st, "VAR") == st.(section := InVar) && TakeLine(st, "VAR_INPUT") == st.(section := InInput)
    ensures TakeLine(st, "VAR_OUTPUT") == st.(section := InOutput) && TakeLine(st, "VAR_IN_OUT") == st.(section := InInOut)
    ensures TakeLine(st, "END_VAR") == st.(section := Outside) && TakeLine(st, "END_PROGRAM") == st.(done := true)
    ensures st.section == Outside ==> TakeLine(st, "") == st
  {
    hide Contains, MatchCall, MatchAssign, MatchDeclaration, Rstrip, Lstrip, Strip;
    StripTight("VAR");
    StripTight("VAR_INPUT");
    StripTight("VAR_OUTPUT");
    StripTight("VAR_IN_OUT");
    StripTight("END_VAR");
    StripTight("END_PROGRAM");
    StripBlank("");
    NothingContained();
  }

  lemma NothingContained()
    ensures !Contains("", "(") && !Contains("", ":=")
  {
  }

  predicate IsKeyword(keyword: string, section: StParser.Section) {
    || (keyword == "VAR" && section == InVar) || (keyword == "VAR_INPUT" && section == InInput)
    || (keyword == "VAR_OUTPUT" && section == InOutput) || (keyword == "VAR_IN_OUT" && section == InInOut)
  }

  /** A whole section; an empty one is not written at all. */
  lemma TakeSection(st: Reading, keyword: string, section: StParser.Section, ds: seq<(string, string)>)
    requires st.section == Outside && !st.done && IsKeyword(keyword, section) && forall d <- ds :: PlainDeclaration(d)
    ensures TakeLines(st, Generator.Section(keyword, DeclarationLines(ds))) ==
            Declared(st.(section := section), ds).(section := Outside)
    ensures forall l <- Generator.Section(keyword, DeclarationLines(ds)) :: Free(l, '\n')
  {
    hide TakeLine, TakeLines, PlainDeclaration, Declaration;
    TakeKeywords(st);
    var inside := st.(section := section);
    TakeNothing(st);
    DeclaredStep(inside, ("", ""), []);
    if ds != [] {
      var lines := DeclarationLines(ds);
      TakeDeclarations(inside, ds);
      var after := Declared(inside, ds);
      TakeLinesConcat(st, [keyword], lines);
      TakeOne(st, keyword);
      TakeLinesConcat(st, [keyword] + lines, ["END_VAR"]);
      DeclaredOpen(inside, ds);
      TakeKeywords(after);
      TakeOne(after, "END_VAR");
    }
  }

  lemma TakeNothing(st: Reading)
    ensures TakeLines(st, []) == st
  {
  }

  lemma DeclaredOpen(st: Reading, ds: seq<(string, string)>)
    ensures Declared(st, ds).done == st.done && Declared(st, ds).section == st.section
  {
  }

  // ---------- the header ----------

  function PortPairs(ports: seq<Port>): (r: seq<(string, string)>)
    ensures |r| == |ports| && forall i :: 0 <= i < |ports| ==> r[i] == (ports[i].name, ports[i].typ)
  {
    seq(|ports|, i requires 0 <= i < |ports| => (ports[i].name, ports[i].typ))
  }

  function BlockPairs(blocks: seq<Block>): (r: seq<(string, string)>)
    ensures |r| == |blocks| && forall i :: 0 <= i < |blocks| ==> r[i] == (blocks[i].id, blocks[i].typ)
  {
    seq(|blocks|, i requires 0 <= i < |blocks| => (blocks[i].id, blocks[i].typ))
  }

  lemma {:induction false} PortLinesAre(c: Chart, ports: seq<Port>)
    requires Internal(c) == {} && forall p <- ports :: PlainPort(p)
    ensures PortLines(c, ports) == DeclarationLines(PortPairs(ports))
  {
    hide Internal, Declaration, Ident;
    if ports != [] {
      PortLinesAre(c, ports[..|ports| - 1]);
      assert PlainPort(ports[|ports| - 1]);
    }
  }

  lemma {:induction false} BlockLinesAre(blocks: seq<Block>)
    ensures BlockLines(blocks) == DeclarationLines(BlockPairs(blocks))
  {
    hide Declaration;
    if blocks != [] { BlockLinesAre(blocks[..|blocks| - 1]); }
  }

  /** What the declarations alone amount to. */
  function Begun(c: Chart): Reading {
    Reading(Some(c.name), Outside, PortPairs(c.inputs), PortPairs(c.outputs), PortPairs(c.inOuts),
            BlocksRead(c.blocks, {}), [], false)
  }

  lemma ProgramLine(name: string)
    requires Word(name)
    ensures Free("PROGRAM " + name, '\n') && Strip("PROGRAM " + name) == "PROGRAM " + name
    ensures TakeLine(NOTHING_READ, "PROGRAM " + name) == NOTHING_READ.(name := Some(name))
  {
    hide Strip, Token, Lstrip, Rstrip, Contains;
    var line := "PROGRAM " + name;
    assert line[8..] == name && "PROGRAM " <= line;
    assert Tight(line) && Tight(name) by { assert line[|line| - 1] == name[|name| - 1]; }
    StripTight(line);
    StripTight(name);
    TokenWord(name);
    WordPlainly(name);
    PlainlyFree(name);
  }

  lemma {:induction false} TokenWord(w: string)
    requires AllWord(w)
    ensures Token(w) == w
  {
    if w != [] { TokenWord(w[1..]); }
  }

  lemma HeaderIs(c: Chart, internal: seq<string>, variables: seq<string>)
    requires Plain(c) && Elements(internal) == Internal(c)
    ensures Header(c, false, internal, variables) ==
            ["PROGRAM " + c.name] + Generator.Section("VAR", DeclarationLines(BlockPairs(c.blocks)))
            + Generator.Section("VAR_INPUT", DeclarationLines(PortPairs(c.inputs)))
            + Generator.Section("VAR_OUTPUT", DeclarationLines(PortPairs(c.outputs)))
            + Generator.Section("VAR_IN_OUT", DeclarationLines(PortPairs(c.inOuts))) + [""]
  {
    hide Plain, Internal, Generator.Section, Declaration, PlainPort, PortLines, BlockLines;
    PlainMaps(c);
    PlainPorts(c);
    NoNames(internal);
    BlockLinesAre(c.blocks);
    PortLinesAre(c, c.inputs);
    PortLinesAre(c, c.outputs);
    PortLinesAre(c, c.inOuts);
    assert VarLines(Ports(c), internal) == [] && SystemLines(c) == [] && |Bound(c)| == 0;
    assert BlockLines(c.blocks) + [] + [] == BlockLines(c.blocks);
    assert Generator.Section("VAR_IN_OUT", PortLines(c, c.inOuts)) + [] == Generator.Section("VAR_IN_OUT", PortLines(c, c.inOuts));
    NoComment(["PROGRAM " + c.name] + Generator.Section("VAR", BlockLines(c.blocks))
              + Generator.Section("VAR_INPUT", PortLines(c, c.inputs)) + Generator.Section("VAR_OUTPUT", PortLines(c, c.outputs))
              + Generator.Section("VAR_IN_OUT", PortLines(c, c.inOuts)));
  }

  lemma NoComment(lines: seq<string>)
    ensures lines + [] + [""] == lines + [""]
  {
    assert lines + [] == lines;
  }

  lemma NoNames(names: seq<string>)
    requires Elements(names) == {}
    ensures names == []
  {
    if names != [] { SomeName(names); }
  }

  lemma SomeName(names: seq<string>)
    requires names != []
    ensures Elements(names) != {}
  {
    assert names[0] in Elements(names);
  }

  lemma PlainPorts(c: Chart)
    requires Plain(c)
    ensures Word(c.name)
    ensures (forall p <- c.inputs :: PlainPort(p)) && (forall p <- c.outputs :: PlainPort(p)) && (forall p <- c.inOuts :: PlainPort(p))
    ensures (forall d <- PortPairs(c.inputs) :: PlainDeclaration(d)) && (forall d <- PortPairs(c.outputs) :: PlainDeclaration(d))
    ensures (forall d <- PortPairs(c.inOuts) :: PlainDeclaration(d)) && (forall d <- BlockPairs(c.blocks) :: PlainDeclaration(d))
  {
    hide PlainPort, PlainDeclaration, PlainBlock;
    var all := c.inputs + c.outputs + c.inOuts;
    assert forall p <- c.inputs :: p in all;
    assert forall p <- c.outputs :: p in all;
    assert forall p <- c.inOuts :: p in all;
    PortsDeclare(c.inputs);
    PortsDeclare(c.outputs);
    PortsDeclare(c.inOuts);
    forall d | d in BlockPairs(c.blocks) ensures PlainDeclaration(d) {
      var i :| 0 <= i < |c.blocks| && BlockPairs(c.blocks)[i] == d;
      assert c.blocks[i] in c.blocks;
      BlockDeclares(c.blocks[i]);
    }
  }

  lemma PortsDeclare(ports: seq<Port>)
    requires forall p <- ports :: PlainPort(p)
    ensures forall d <- PortPairs(ports) :: PlainDeclaration(d)
  {
    hide Ident;
    forall d | d in PortPairs(ports) ensures PlainDeclaration(d) {
      var i :| 0 <= i < |ports| && PortPairs(ports)[i] == d;
      assert PlainPort(ports[i]);
    }
  }

  lemma BlockDeclares(b: Block)
    requires PlainBlock(b)
    ensures PlainDeclaration((b.id, b.typ))
  {
  }

  /** Reading the header. */
  lemma TakeHeader(c: Chart, internal: seq<string>, variables: seq<string>)
    requires Plain(c) && Elements(internal) == Internal(c)
    ensures TakeLines(NOTHING_READ, Header(c, false, internal, variables)) == Begun(c)
    ensures forall l <- Header(c, false, internal, variables) :: Free(l, '\n')
  {
    hide Plain, Internal, Generator.Section, Declaration, PlainPort, PlainDeclaration, TakeLine, TakeLines, Header, Word,
         BlocksRead, PortPairs, BlockPairs, DeclarationLines, FreshBlocks;
    HeaderIs(c, internal, variables);
    PlainPorts(c);
    ProgramLine(c.name);
    var l0 := ["PROGRAM " + c.name];
    var l1 := Generator.Section("VAR", DeclarationLines(BlockPairs(c.blocks)));
    var l2 := Generator.Section("VAR_INPUT", DeclarationLines(PortPairs(c.inputs)));
    var l3 := Generator.Section("VAR_OUTPUT", DeclarationLines(PortPairs(c.outputs)));
    var l4 := Generator.Section("VAR_IN_OUT", DeclarationLines(PortPairs(c.inOuts)));
    var s0 := NOTHING_READ.(name := Some(c.name));
    TakeOne(NOTHING_READ, "PROGRAM " + c.name);
    TakeSection(s0, "VAR", InVar, BlockPairs(c.blocks));
    FreshAre(c.blocks);
    var s1 := s0.(blocks := BlocksRead(c.blocks, {}));
    TakeLinesConcat(NOTHING_READ, l0, l1);
    TakeSection(s1, "VAR_INPUT", InInput, PortPairs(c.inputs));
    NoneBefore(PortPairs(c.inputs));
    var s2 := s1.(inputs := PortPairs(c.inputs));
    TakeLinesConcat(NOTHING_READ, l0 + l1, l2);
    TakeSection(s2, "VAR_OUTPUT", InOutput, PortPairs(c.outputs));
    NoneBefore(PortPairs(c.outputs));
    var s3 := s2.(outputs := PortPairs(c.outputs));
    TakeLinesConcat(NOTHING_READ, l0 + l1 + l2, l3);
    TakeSection(s3, "VAR_IN_OUT", InInOut, PortPairs(c.inOuts));
    NoneBefore(PortPairs(c.inOuts));
    TakeLinesConcat(NOTHING_READ, l0 + l1 + l2 + l3, l4);
    TakeKeywords(Begun(c));
    TakeOne(Begun(c), "");
    TakeLinesConcat(NOTHING_READ, l0 + l1 + l2 + l3 + l4, [""]);
  }

  lemma NoneBefore(ds: seq<(string, string)>)
    ensures [] + ds == ds
  {
  }

  lemma FreshAre(blocks: seq<Block>)
    ensures [] + FreshBlocks(BlockPairs(blocks)) == BlocksRead(blocks, {})
  {
  }

  // ---------- the body ----------

  function IdsOf(order: seq<Node>): seq<string> {
    if order == [] then []
    else IdsOf(order[..|order| - 1]) + (if order[|order| - 1].BlockNode? then [order[|order| - 1].id] else [])
  }

  /** The wires into these blocks, block by block. */
  function Gathered(connections: seq<Connection>, ids: seq<string>): seq<Connection> {
    if ids == [] then [] else Gathered(connections, ids[..|ids| - 1]) + WiresTo(connections, ids[|ids| - 1])
  }

  /** After the calls of these blocks. */
  function Called(c: Chart, ids: seq<string>): Reading {
    Begun(c).(blocks := BlocksRead(c.blocks, set id | id in ids), connections := Gathered(c.connections, ids))
  }

  /** A plain chart has no page variables: its order is its blocks, each once. */
  ghost predicate BlockOrder(c: Chart, order: seq<Node>) {
    && Distinct(order)
    && (forall i :: 0 <= i < |order| ==> order[i].BlockNode? && order[i].id in BlockIds(c.blocks))
    && (forall id <- BlockIds(c.blocks) :: BlockNode(id) in order)
  }

  lemma OrderIsBlocks(c: Chart, order: seq<Node>)
    requires Plain(c) && IsOrderOf(c, order)
    ensures BlockOrder(c, order)
  {
    hide Plain, IsLeastTopo, Distinct;
    PlainMaps(c);
    LeastCovers(c, order);
    OrderOnce(c, order);
    assert WrittenVars(c) == {};
    forall i | 0 <= i < |order| ensures order[i].BlockNode? && order[i].id in BlockIds(c.blocks) {
      assert order[i] in Elements(order);
      if order[i].BlockNode? {
        var b :| b in c.blocks && b.id == order[i].id;
        var k :| 0 <= k < |c.blocks| && c.blocks[k] == b;
        assert BlockIds(c.blocks)[k] == b.id;
      }
    }
    forall id | id in BlockIds(c.blocks) ensures BlockNode(id) in order {
      var k :| 0 <= k < |c.blocks| && BlockIds(c.blocks)[k] == id;
      assert c.blocks[k] in c.blocks && id in BlockSet(c);
      assert BlockNode(id) in Elements(order);
    }
  }

  lemma OrderOnce(c: Chart, order: seq<Node>)
    requires IsOrderOf(c, order)
    ensures Distinct(order)
  {
  }

  /** One more node of the order: one more call line. */
  lemma CallLineStep(c: Chart, order: seq<Node>, k: nat) returns (j: nat)
    requires Plain(c) && BlockOrder(c, order) && 0 < k <= |order|
    ensures j < |c.blocks| && order[k - 1] == BlockNode(c.blocks[j].id)
    ensures RenderAll(NodeBody(c, order[..k])) == RenderAll(NodeBody(c, order[..k - 1])) + [Render(CallOf(c, c.blocks[j]))]
    ensures IdsOf(order[..k]) == IdsOf(order[..k - 1]) + [c.blocks[j].id]
    ensures order[..k] == order[..k - 1] + [order[k - 1]]
  {
    hide Plain, CallOf, Render, RenderAll, Distinct;
    assert order[..k][..k - 1] == order[..k - 1];
    j := BlockOf(c, order[k - 1].id);
    ChosenBlock(c, j);
    RenderAllAppend(NodeBody(c, order[..k - 1]), CallOf(c, c.blocks[j]));
  }

  lemma {:induction false} CallsRead(c: Chart, order: seq<Node>, k: nat)
    requires Plain(c) && BlockOrder(c, order) && k <= |order|
    ensures TakeLines(Begun(c), RenderAll(NodeBody(c, order[..k]))) == Called(c, IdsOf(order[..k]))
    ensures forall l <- RenderAll(NodeBody(c, order[..k])) :: Free(l, '\n')
    ensures forall id <- IdsOf(order[..k]) :: BlockNode(id) in order[..k]
    decreases k
  {
    hide *;
    if k == 0 {
      NoCallsRead(c, order);
    } else {
      CallsRead(c, order, k - 1);
      var j := CallLineStep(c, order, k);
      CallRead(c, order, k, j);
    }
  }

  lemma NoCallsRead(c: Chart, order: seq<Node>)
    ensures TakeLines(Begun(c), RenderAll(NodeBody(c, order[..0]))) == Called(c, IdsOf(order[..0]))
    ensures RenderAll(NodeBody(c, order[..0])) == [] && IdsOf(order[..0]) == []
  {
    TakeNothing(Begun(c));
    NoneCalled(c);
  }

  lemma CallRead(c: Chart, order: seq<Node>, k: nat, j: nat)
    requires Plain(c) && BlockOrder(c, order) && 0 < k <= |order|
    requires TakeLines(Begun(c), RenderAll(NodeBody(c, order[..k - 1]))) == Called(c, IdsOf(order[..k - 1]))
    requires forall l <- RenderAll(NodeBody(c, order[..k - 1])) :: Free(l, '\n')
    requires forall id <- IdsOf(order[..k - 1]) :: BlockNode(id) in order[..k - 1]
    requires j < |c.blocks| && order[k - 1] == BlockNode(c.blocks[j].id)
    requires RenderAll(NodeBody(c, order[..k])) == RenderAll(NodeBody(c, order[..k - 1])) + [Render(CallOf(c, c.blocks[j]))]
    requires IdsOf(order[..k]) == IdsOf(order[..k - 1]) + [c.blocks[j].id] && order[..k] == order[..k - 1] + [order[k - 1]]
    ensures TakeLines(Begun(c), RenderAll(NodeBody(c, order[..k]))) == Called(c, IdsOf(order[..k]))
    ensures forall l <- RenderAll(NodeBody(c, order[..k])) :: Free(l, '\n')
    ensures forall id <- IdsOf(order[..k]) :: BlockNode(id) in order[..k]
  {
    hide Plain, TakeLine, TakeLines, Render, CallOf, Gathered, WiresTo, Begun, Distinct, IdsOf, RenderAll, NodeBody, BlocksRead;
    var (ids, line) := (IdsOf(order[..k - 1]), Render(CallOf(c, c.blocks[j])));
    NotYet(order, k);
    BegunOpen(c);
    TakeWholeCall(c, Called(c, ids), j, set id | id in ids);
    TakeLinesConcat(Begun(c), RenderAll(NodeBody(c, order[..k - 1])), [line]);
    TakeOne(Called(c, ids), line);
    CalledStep(c, ids, c.blocks[j].id);
  }

  lemma BegunOpen(c: Chart)
    ensures !Begun(c).done && Begun(c).section == Outside
  {
  }

  lemma NoneCalled(c: Chart)
    ensures Called(c, []) == Begun(c)
  {
    assert (set id: string | id in []) == {};
  }

  lemma BlockOf(c: Chart, id: string) returns (j: nat)
    requires id in BlockIds(c.blocks)
    ensures j < |c.blocks| && c.blocks[j].id == id
  {
    j :| 0 <= j < |c.blocks| && BlockIds(c.blocks)[j] == id;
  }

  /** The dictionary of blocks holds the block itself, ids being unique. */
  lemma ChosenBlock(c: Chart, j: nat)
    requires Plain(c) && j < |c.blocks|
    ensures c.blocks[j].id in BlockMap(c.blocks) && BlockMap(c.blocks)[c.blocks[j].id] == c.blocks[j]
  {
    var b := c.blocks[j];
    assert b in c.blocks;
    assert b.id in BlockMap(c.blocks).Keys;
    var m := BlockMap(c.blocks)[b.id];
    var i :| 0 <= i < |c.blocks| && c.blocks[i] == m;
    IdsApart(c, j);
  }

  lemma NotYet(order: seq<Node>, k: nat)
    requires Distinct(order) && 0 < k <= |order| && order[k - 1].BlockNode?
    requires forall id <- IdsOf(order[..k - 1]) :: BlockNode(id) in order[..k - 1]
    ensures order[k - 1].id !in IdsOf(order[..k - 1])
  {
    hide IdsOf;
    if order[k - 1].id in IdsOf(order[..k - 1]) { AppearsOnce(order, k, BlockNode(order[k - 1].id)); }
  }

  lemma AppearsOnce(order: seq<Node>, k: nat, x: Node)
    requires Distinct(order) && 0 < k <= |order| && x in order[..k - 1]
    ensures x != order[k - 1]
  {
    var i :| 0 <= i < k - 1 && order[..k - 1][i] == x;
    assert order[i] != order[k - 1];
  }

  lemma CalledStep(c: Chart, ids: seq<string>, id: string)
    ensures Called(c, ids + [id]) ==
            Called(c, ids).(blocks := BlocksRead(c.blocks, (set x | x in ids) + {id}),
                            connections := Called(c, ids).connections + WiresTo(c.connections, id))
  {
    hide WiresTo;
    assert (ids + [id])[..|ids|] == ids;
    assert (set x | x in ids + [id]) == (set x | x in ids) + {id};
  }

  // ---------- the assignments that leave the chart ----------

  function OutWires(connections: seq<Connection>): seq<Connection> {
    if connections == [] then []
    else
      var w := connections[|connections| - 1];
      OutWires(connections[..|connections| - 1]) + (if w.dst.block == INTERFACE then [w] else [])
  }

  lemma TakeOutput(c: Chart, st: Reading, w: Connection)
    requires Plain(c) && w in c.connections && w.dst.block == INTERFACE && st.section == Outside && !st.done
    ensures IsOutput(c, w)
    ensures var line := Render(Assign(OutputName(c, w), Source(c, w.src)));
            TakeLine(st, line) == st.(connections := st.connections + [w]) && Free(line, '\n')
  {
    hide Strip, Contains, MatchAssign, MatchCall, MatchDeclaration, Find, IsLiteral, Ident, PlainSource, SourceText, Lower,
         Plainly, Internal, Bound;
    PlainMaps(c);
    assert PlainWire(w, BlockIds(c.blocks));
    PlainSourceText(c, w.src);
    SourceBack(w.src);
    var t := SourceText(w.src);
    IdentWord(w.dst.port);
    PlainlyFree(t);
    AssignMatches(w.dst.port, t);
    assert OutputName(c, w) == w.dst.port;
    FixedGoesOn(st, w.dst.port + " := " + t + ";");
    assert Endpoint(INTERFACE, w.dst.port) == w.dst;
    AssignTaken(st, w, t);
    AssignFree(w.dst.port, t);
  }

  lemma AssignTaken(st: Reading, w: Connection, t: string)
    requires SourceIs(t) == w.src && w.dst == Endpoint(INTERFACE, w.dst.port)
    ensures TakeAssign(st, w.dst.port, t) == st.(connections := st.connections + [w])
  {
  }

  lemma AssignFree(a: string, b: string)
    requires Free(a, '\n') && Free(b, '\n')
    ensures Free(a + " := " + b + ";", '\n')
  {
  }

  lemma {:induction false} OutputsRead(c: Chart, st: Reading, k: nat)
    requires Plain(c) && k <= |c.connections| && st.section == Outside && !st.done
    ensures TakeLines(st, RenderAll(OutputsOf(c, c.connections[..k]))) ==
            st.(connections := st.connections + OutWires(c.connections[..k]))
    ensures forall l <- RenderAll(OutputsOf(c, c.connections[..k])) :: Free(l, '\n')
    decreases k
  {
    hide Plain, TakeLine, TakeLines, Render, IsOutput, OutputName, Source;
    if k == 0 {
      TakeNothing(st);
      assert c.connections[..0] == [] && RenderAll([]) == [];
      assert st.connections + [] == st.connections;
    } else {
      var front, w := c.connections[..k - 1], c.connections[k - 1];
      OutputsRead(c, st, k - 1);
      assert c.connections[..k][..k - 1] == front;
      var mid := st.(connections := st.connections + OutWires(front));
      if w.dst.block == INTERFACE {
        TakeOutput(c, mid, w);
        var s := Assign(OutputName(c, w), Source(c, w.src));
        RenderAllAppend(OutputsOf(c, front), s);
        TakeLinesConcat(st, RenderAll(OutputsOf(c, front)), [Render(s)]);
        TakeOne(mid, Render(s));
        assert st.connections + OutWires(front) + [w] == st.connections + (OutWires(front) + [w]);
      } else {
        InnerWire(c, w);
        assert OutputsOf(c, front) + [] == OutputsOf(c, front) && OutWires(front) + [] == OutWires(front);
      }
    }
  }

  lemma InnerWire(c: Chart, w: Connection)
    requires w.dst.block != INTERFACE
    ensures !IsOutput(c, w)
  {
  }

  // ---------- the whole text ----------

  function WholeReading(c: Chart, order: seq<Node>): Reading {
    var st := Called(c, IdsOf(order));
    st.(connections := st.connections + OutWires(c.connections), done := true)
  }

  lemma BodyIs(c: Chart, cycleMs: int, order: seq<Node>)
    requires Plain(c)
    ensures RenderAll(Body(c, cycleMs, order)) == RenderAll(NodeBody(c, order)) + RenderAll(OutputsOf(c, c.connections))
  {
    hide Plain, Internal, Bound, NodeBody, OutputsOf, Render;
    PlainMaps(c);
    assert SystemOf(c, cycleMs) == [];
    assert [] + NodeBody(c, order) == NodeBody(c, order);
    RenderAllConcat(NodeBody(c, order), OutputsOf(c, c.connections));
  }

  /** Reading the lines of the program, one after the other. */
  lemma LinesRead(c: Chart, cycleMs: int, order: seq<Node>, lines: seq<string>)
    requires Plain(c) && IsOrderOf(c, order) && IsProgram(c, false, cycleMs, order, lines)
    ensures TakeLines(NOTHING_READ, lines) == WholeReading(c, order)
    ensures (forall l <- lines :: Free(l, '\n')) && |lines| > 1
    ensures lines[0] == "PROGRAM " + c.name && lines[|lines| - 1] == "END_PROGRAM"
  {
    hide Plain, IsOrderOf, TakeLine, TakeLines, Header, Body, NodeBody, OutputsOf, Render, RenderAll, Called, Begun, Internal,
         Bound, Distinct, BlockOrder, OutWires, IdsOf;
    var internal, variables :|
      SortedNames(internal, Internal(c)) && SortedNames(variables, Bound(c).Values)
      && lines == Header(c, false, internal, variables) + RenderAll(Body(c, cycleMs, order)) + ["END_PROGRAM"];
    OrderIsBlocks(c, order);
    TakeHeader(c, internal, variables);
    HeaderStarts(c, internal, variables);
    BodyIs(c, cycleMs, order);
    CallsRead(c, order, |order|);
    assert order[..|order|] == order;
    var st := Called(c, IdsOf(order));
    CalledOpen(c, IdsOf(order));
    OutputsRead(c, st, |c.connections|);
    assert c.connections[..|c.connections|] == c.connections;
    var (h, n, o) := (Header(c, false, internal, variables), RenderAll(NodeBody(c, order)), RenderAll(OutputsOf(c, c.connections)));
    TakeLinesConcat(Begun(c), n, o);
    TakeLinesConcat(NOTHING_READ, h, n + o);
    var after := st.(connections := st.connections + OutWires(c.connections));
    TakeKeywords(after);
    TakeOne(after, "END_PROGRAM");
    TakeLinesConcat(NOTHING_READ, h + (n + o), ["END_PROGRAM"]);
  }

  lemma HeaderStarts(c: Chart, internal: seq<string>, variables: seq<string>)
    requires Elements(internal) == Internal(c)
    ensures Header(c, false, internal, variables) != [] && Header(c, false, internal, variables)[0] == "PROGRAM " + c.name
  {
    hide Internal, Bound, PortLines, BlockLines, VarLines, SystemLines, Generator.Section, BoundComment;
  }

  lemma CalledOpen(c: Chart, ids: seq<string>)
    ensures !Called(c, ids).done && Called(c, ids).section == Outside
  {
  }

  /** The text is cut back into exactly its lines. */
  lemma TextLines(lines: seq<string>, name: string)
    requires |lines| > 1 && lines[0] == "PROGRAM " + name && lines[|lines| - 1] == "END_PROGRAM"
    requires forall l <- lines :: Free(l, '\n')
    ensures Split(Strip(Join("\n", lines)), '\n') == lines
  {
    hide Join, Split, Strip, Free;
    var text := Join("\n", lines);
    JoinFirst("\n", lines);
    JoinLast("\n", lines);
    StripTight(text);
    SplitJoin(lines, '\n');
  }

  // ---------- nothing lost, nothing added ----------

  lemma {:induction false} GatheredStep(front: seq<Connection>, w: Connection, ids: seq<string>)
    requires Distinct(ids)
    ensures multiset(Gathered(front + [w], ids)) ==
            multiset(Gathered(front, ids)) + (if w.dst.block in ids then multiset{w} else multiset{})
  {
    if ids != [] {
      var (some, id) := (ids[..|ids| - 1], ids[|ids| - 1]);
      GatheredStep(front, w, some);
      assert (front + [w])[..|front|] == front;
      assert ids == some + [id];
      NotAgain(ids);
      if w.dst.block == id {
        assert WiresTo(front + [w], id) == WiresTo(front, id) + [w];
      } else {
        assert WiresTo(front + [w], id) == WiresTo(front, id) + [] == WiresTo(front, id);
      }
    }
  }

  lemma NotAgain(ids: seq<string>)
    requires Distinct(ids) && ids != []
    ensures ids[|ids| - 1] !in ids[..|ids| - 1]
  {
    forall i | 0 <= i < |ids| - 1 ensures ids[i] != ids[|ids| - 1] {}
  }

  lemma {:induction false} GatheredNone(ids: seq<string>)
    ensures Gathered([], ids) == []
  {
    if ids != [] { GatheredNone(ids[..|ids| - 1]); }
  }

  /** Gathering the wires block by block, and then the ones that leave, gives every wire once. */
  lemma {:induction false} AllWires(connections: seq<Connection>, ids: seq<string>)
    requires Distinct(ids) && INTERFACE !in ids && forall w <- connections :: w.dst.block == INTERFACE || w.dst.block in ids
    ensures multiset(Gathered(connections, ids) + OutWires(connections)) == multiset(connections)
    decreases |connections|
  {
    if connections == [] {
      GatheredNone(ids);
    } else {
      var (front, w) := (connections[..|connections| - 1], connections[|connections| - 1]);
      assert connections == front + [w] && w in connections;
      AllWires(front, ids);
      GatheredStep(front, w, ids);
    }
  }

  // ---------- normalisation ----------

  predicate PairLess(a: (string, string), b: (string, string)) {
    StrLess(a.0, b.0)
  }

  predicate BlockLess(a: PBlock, b: PBlock) {
    StrLess(a.id, b.id)
  }

  predicate EndLess(a: Endpoint, b: Endpoint) {
    StrLess(a.block, b.block) || (a.block == b.block && StrLess(a.port, b.port))
  }

  predicate WireLess(a: Connection, b: Connection) {
    EndLess(a.src, b.src) || (a.src == b.src && EndLess(a.dst, b.dst))
  }

  lemma EndLessTotal()
    ensures TotalOrder(EndLess)
  {
    StrLessTotal();
    hide StrLess;
  }

  lemma WireLessTotal()
    ensures TotalOrder(WireLess)
  {
    EndLessTotal();
    hide EndLess;
  }

  /** `normalize_graph_for_comparison`: everything sorted, positions dropped. */
  datatype Normal = Normal(name: string, inputs: seq<(string, string)>, outputs: seq<(string, string)>,
                           inOuts: seq<(string, string)>, blocks: seq<PBlock>, connections: seq<Connection>)

  function NormalOf(name: string, inputs: seq<(string, string)>, outputs: seq<(string, string)>,
                    inOuts: seq<(string, string)>, blocks: seq<PBlock>, connections: seq<Connection>): Normal {
    Normal(name, Sort(PairLess, inputs), Sort(PairLess, outputs), Sort(PairLess, inOuts), Sort(BlockLess, blocks),
           Sort(WireLess, connections))
  }

  function BlocksOf(blocks: seq<Block>): (r: seq<PBlock>)
    ensures |r| == |blocks|
  {
    seq(|blocks|, i requires 0 <= i < |blocks| => PBlock(blocks[i].id, blocks[i].typ, ParameterMap(blocks[i].parameters)))
  }

  function NormalChart(c: Chart): Normal {
    NormalOf(c.name, PortPairs(c.inputs), PortPairs(c.outputs), PortPairs(c.inOuts), BlocksOf(c.blocks), c.connections)
  }

  function NormalReading(st: Reading): Normal {
    NormalOf(ProgramName(st), st.inputs, st.outputs, st.inOuts, st.blocks, st.connections)
  }

  lemma {:induction false} IdsOnce(c: Chart, order: seq<Node>, k: nat)
    requires BlockOrder(c, order) && k <= |order|
    ensures Distinct(IdsOf(order[..k])) && forall id :: id in IdsOf(order[..k]) <==> BlockNode(id) in order[..k]
    decreases k
  {
    hide Distinct, IdsOf;
    IdsStep(order, k);
    if k > 0 {
      var front, node := order[..k - 1], order[k - 1];
      IdsOnce(c, order, k - 1);
      assert order[..k] == front + [node];
      NotYet(order, k);
      ElementsAppend(IdsOf(front), node.id);
      forall id ensures id in IdsOf(order[..k]) <==> BlockNode(id) in order[..k] {
        assert BlockNode(id) in front + [node] <==> BlockNode(id) in front || BlockNode(id) == node;
      }
    } else {
      NoneDistinct();
    }
  }

  lemma IdsStep(order: seq<Node>, k: nat)
    requires k <= |order| && forall i :: 0 <= i < |order| ==> order[i].BlockNode?
    ensures k > 0 ==> IdsOf(order[..k]) == IdsOf(order[..k - 1]) + [order[k - 1].id]
    ensures k == 0 ==> IdsOf(order[..k]) == [] && order[..k] == []
  {
    if k > 0 { assert order[..k][..k - 1] == order[..k - 1]; }
  }

  lemma NoneDistinct()
    ensures Distinct<string>([])
  {
  }

  /** Everything was read: each block with its parameters, each wire exactly once. */
  lemma WholeIsChart(c: Chart, order: seq<Node>)
    requires Plain(c) && BlockOrder(c, order)
    ensures NormalReading(WholeReading(c, order)) == NormalChart(c)
  {
    hide Gathered, OutWires, Sort, WireLess, IdsOf, PlainBlock, PlainPort, PlainWire, DistinctKeys, CallPairs, ParameterMap;
    IdsOnce(c, order, |order|);
    assert order[..|order|] == order;
    var ids := IdsOf(order);
    WiresPlaced(c, ids);
    AllWires(c.connections, ids);
    WireLessTotal();
    var st := WholeReading(c, order);
    assert [] + Gathered(c.connections, ids) == Gathered(c.connections, ids);
    SortSame(WireLess, st.connections, c.connections);
    forall i | 0 <= i < |c.blocks| ensures c.blocks[i].id in ids {
      assert BlockIds(c.blocks)[i] in BlockIds(c.blocks);
    }
    assert BlocksRead(c.blocks, set id | id in ids) == BlocksOf(c.blocks);
  }

  lemma WiresPlaced(c: Chart, ids: seq<string>)
    requires Plain(c) && (forall id <- BlockIds(c.blocks) :: id in ids)
    ensures forall w <- c.connections :: w.dst.block == INTERFACE || w.dst.block in ids
  {
    hide PlainSource, Ident;
    forall w | w in c.connections ensures w.dst.block == INTERFACE || w.dst.block in ids {
      assert PlainWire(w, BlockIds(c.blocks));
    }
  }

  /** Printing a plain chart and parsing the text gives the chart again, up to the order of lists. */
  lemma RoundTrip(c: Chart, cycleMs: int, order: seq<Node>, lines: seq<string>)
    requires Plain(c) && IsOrderOf(c, order) && IsProgram(c, false, cycleMs, order, lines)
    ensures NormalReading(TakeLines(NOTHING_READ, Split(Strip(Join("\n", lines)), '\n'))) == NormalChart(c)
  {
    hide *;
    LinesRead(c, cycleMs, order, lines);
    TextLines(lines, c.name);
    OrderIsBlocks(c, order);
    WholeIsChart(c, order);
  }

  /** Generator and parser back to back. */
  method PrintAndParse(c: Chart, cycleMs: int) returns (ok: bool, st: Reading)
    requires Plain(c)
    ensures ok <==> Generatable(c)
    ensures ok ==> NormalReading(st) == NormalChart(c)
  {
    hide *;
    var r := GenerateSt(c, false, cycleMs);
    if r.Err? { return false, NOTHING_READ; }
    ghost var order, lines :| IsOrderOf(c, order) && IsProgram(c, false, cycleMs, order, lines) && r.value == Join("\n", lines);
    RoundTrip(c, cycleMs, order, lines);
    st := ParseSt(r.value);
    return true, st;
  }
}
