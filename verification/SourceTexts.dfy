/** What ports, constants and parameters of a chart become in the text, and that the parser reads them as they were. */
module SourceTexts {
  import opened Charts
  import opened StraightLine
  import opened StText
  import opened Strings
  import opened StParser
  import opened TextRoundTrip
  import Generator
  import ChartMeaning

  // ---------- literals ----------

  /** The values whose text reads back: truth values, whole numbers outside a text type, every text, and
      decimals written with a point. */
  predicate Readable(v: Literal, typ: string) {
    match v
    case BoolLit(_) => true
    case StrLit(_) => true
    case IntLit(_) => typ != "STRING"
    case FloatLit(d) => typ != "STRING" && IsFloatText(d) && Contains(d, ".") && Tight(d) && d[0] != '\''
  }

  /** A constant's text is a literal and is read as the constant's value. */
  lemma LiteralBack(v: Literal, typ: string)
    requires Readable(v, typ)
    ensures IsLiteral(LiteralText(v, typ)) && ParseLiteral(LiteralText(v, typ)) == v
  {
    hide IsLiteral, ParseLiteral, IntText, Contains, IsFloatText;
    match v
    case BoolLit(b) => BoolBack(b);
    case IntLit(n) => IntBack(n);
    case StrLit(s) => QuotedBack(s);
    case FloatLit(d) => DecimalBack(d);
  }

  lemma QuotedBack(s: string)
    ensures IsLiteral(Quoted(s)) && ParseLiteral(Quoted(s)) == StrLit(s)
  {
    var v := Quoted(s);
    assert v[0] == '\'' && v[|v| - 1] == '\'' && |v| == |s| + 2;
    hide Contains, IsFloatText, IsIntText, IntValue;
    StripTight(v);
    assert v[1..|v| - 1] == s;
  }

  lemma DecimalBack(d: string)
    requires IsFloatText(d) && Contains(d, ".") && Tight(d) && d[0] != '\''
    ensures IsLiteral(d) && ParseLiteral(d) == FloatLit(d)
  {
    hide Contains, IsFloatText, IsIntText, IntValue;
    StripTight(d);
    NoDotInWord("TRUE");
    NoDotInWord("FALSE");
  }

  lemma NoDotInWord(w: string)
    requires w == "TRUE" || w == "FALSE"
    ensures !Contains(w, ".")
  {
    assert forall i :: 0 <= i < |w| ==> w[i] != '.';
    NoDot(w);
  }

  /** A whole number of a text type is printed as a text. */
  lemma NumberAsText(n: int)
    ensures ParseLiteral(LiteralText(IntLit(n), "STRING")) == StrLit(IntText(n))
  {
    hide ParseLiteral, IsLiteral, IntText;
    QuotedBack(IntText(n));
  }

  /** So is a parameter's. */
  lemma ParameterReads(v: Literal)
    requires Readable(v, "")
    ensures IsLiteral(ParameterText(v)) && ParseLiteral(ParameterText(v)) == v
  {
    hide IsLiteral, ParseLiteral, IntText, Contains, IsFloatText;
    LiteralBack(v, "");
  }

  // ---------- constants on pins ----------

  /** The last constant of its name. */
  ghost predicate ConstantOf(constants: seq<Constant>, k: Constant) {
    exists i :: 0 <= i < |constants| && constants[i] == k && forall j :: i < j < |constants| ==> constants[j].id != k.id
  }

  lemma {:induction false} ConstantFound(constants: seq<Constant>, k: Constant)
    requires ConstantOf(constants, k)
    ensures k.id in ConstantMap(constants) && ConstantMap(constants)[k.id] == k
  {
    var n := |constants| - 1;
    var i :| 0 <= i < |constants| && constants[i] == k && forall j :: i < j < |constants| ==> constants[j].id != k.id;
    if i < n {
      assert constants[..n][i] == k && constants[n].id != k.id;
      ConstantFound(constants[..n], k);
    }
  }

  /** A pin wired to a constant is called with a text that reads as the constant's value. */
  lemma ConstantOnPin(c: Chart, b: Block, w: Connection, k: Constant) returns (i: nat)
    requires w in c.connections && w.dst.block == b.id && w.src.block == k.id != INTERFACE
    requires ConstantOf(c.constants, k) && Readable(k.value, k.typ)
    ensures var args := Generator.CallOf(c, b).args;
            && i < |args| && args[i].0 == w.dst.port
            && IsLiteral(RenderExpr(args[i].1)) && ParseLiteral(RenderExpr(args[i].1)) == k.value
  {
    hide IsLiteral, ParseLiteral, LiteralText, Readable, Bound;
    ConstantFound(c.constants, k);
    LiteralBack(k.value, k.typ);
    ChartMeaning.WireArgsHas(c, c.connections, w);
    var wires := Generator.WireArgs(c, c.connections, b.id);
    i :| 0 <= i < |wires| && wires[i] == (w.dst.port, Generator.Source(c, w.src));
    assert Generator.CallOf(c, b).args[i] == wires[i];
  }

  // ---------- blocks ----------

  ghost predicate LastBlock(blocks: seq<Block>, b: Block) {
    exists i :: 0 <= i < |blocks| && blocks[i] == b && forall j :: i < j < |blocks| ==> blocks[j].id != b.id
  }

  lemma {:induction false} BlockFound(blocks: seq<Block>, b: Block)
    requires LastBlock(blocks, b)
    ensures b.id in BlockMap(blocks) && BlockMap(blocks)[b.id] == b
  {
    var n := |blocks| - 1;
    var i :| 0 <= i < |blocks| && blocks[i] == b && forall j :: i < j < |blocks| ==> blocks[j].id != b.id;
    if i < n {
      assert blocks[..n][i] == b && blocks[n].id != b.id;
      BlockFound(blocks[..n], b);
    }
  }

  // ---------- ports ----------

  ghost predicate LastNamed(ports: seq<Port>, p: Port) {
    exists i :: 0 <= i < |ports| && ports[i] == p && forall j :: i < j < |ports| ==> ports[j].name != p.name
  }

  lemma {:induction false} PortFound(ports: seq<Port>, p: Port)
    requires LastNamed(ports, p)
    ensures p.name in PortMap(ports) && PortMap(ports)[p.name] == p
  {
    var n := |ports| - 1;
    var i :| 0 <= i < |ports| && ports[i] == p && forall j :: i < j < |ports| ==> ports[j].name != p.name;
    if i < n {
      assert ports[..n][i] == p && ports[n].name != p.name;
      PortFound(ports[..n], p);
    }
  }

  /** The port that its name stands for: the last of that name. */
  ghost predicate PortOf(c: Chart, p: Port) {
    LastNamed(c.inputs + c.outputs + c.inOuts, p)
  }

  predicate Associated(p: Port) {
    p.bind.Some? && p.bind.value != ""
  }

  /** A page variable is an intermediate or local port that no station variable is associated with and
      the runtime does not supply. */
  lemma PageVariable(c: Chart, p: Port)
    requires PortOf(c, p)
    ensures p.name in Internal(c) <==>
              p.scope in ["intermediate", "local"] && !Associated(p) && p.name !in ["CYCLE_TICK", "CYCLE_MS"]
  {
    hide PortMap;
    PortFound(c.inputs + c.outputs + c.inOuts, p);
  }

  /** A read of a port names its station variable if it has one, and the port itself otherwise. */
  lemma PortRead(c: Chart, p: Port)
    requires PortOf(c, p)
    ensures Generator.Source(c, Endpoint(INTERFACE, p.name)) == Name(if Associated(p) then p.bind.value else p.name)
  {
    hide PortMap, ConstantMap;
    PortFound(c.inputs + c.outputs + c.inOuts, p);
  }

  /** A read of a block's pin is a field access, and is read as that pin again. */
  lemma PinRead(c: Chart, e: Endpoint)
    requires e.block != INTERFACE && (forall k :: k in c.constants ==> k.id != e.block) && Word(e.block) && Word(e.port)
    ensures Generator.Source(c, e) == Field(e.block, e.port)
    ensures ParseReference(RenderExpr(Generator.Source(c, e))) == e
  {
    hide ParseReference, Strip, Find, Bound;
    NoConstant(c.constants, e.block);
    ReferenceBack(e.block, e.port);
  }

  lemma {:induction false} NoConstant(constants: seq<Constant>, id: string)
    requires forall k :: k in constants ==> k.id != id
    ensures id !in ConstantMap(constants)
  {
    if constants != [] {
      NoConstant(constants[..|constants| - 1], id);
    }
  }
}
