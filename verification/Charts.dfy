/** The function-chart document the IDE back end works on, and the lookups it derives from one. */
module Charts {
  import opened Digraphs
  import opened Results

  /** Sentinel endpoint that addresses a page's interface port. */
  const INTERFACE := "__interface__"

  datatype Endpoint = Endpoint(block: string, port: string)

  datatype Connection = Connection(src: Endpoint, dst: Endpoint)

  /** A JSON scalar; a float is kept as the text `str` gives it. */
  datatype Literal = BoolLit(flag: bool) | IntLit(value: int) | StrLit(text: string) | FloatLit(digits: string)

  /** `bind` is the associated station variable; an empty name associates nothing. */
  datatype Port = Port(name: string, typ: string, scope: string, bind: Option<string>)

  datatype Block = Block(id: string, typ: string, parameters: seq<(string, Literal)>)

  datatype Constant = Constant(id: string, value: Literal, typ: string)

  datatype Chart = Chart(name: string, inputs: seq<Port>, outputs: seq<Port>, inOuts: seq<Port>,
                         blocks: seq<Block>, constants: seq<Constant>, connections: seq<Connection>)

  // ---------- dictionaries built from lists: the last entry of a key wins ----------

  function PortMap(ports: seq<Port>): map<string, Port> {
    if ports == [] then map[]
    else PortMap(ports[..|ports| - 1])[ports[|ports| - 1].name := ports[|ports| - 1]]
  }

  function BlockMap(blocks: seq<Block>): (m: map<string, Block>)
    ensures m.Keys == set b | b in blocks :: b.id
    ensures forall id :: id in m ==> m[id].id == id && m[id] in blocks
  {
    if blocks == [] then map[]
    else
      assert blocks == blocks[..|blocks| - 1] + [blocks[|blocks| - 1]];
      BlockMap(blocks[..|blocks| - 1])[blocks[|blocks| - 1].id := blocks[|blocks| - 1]]
  }

  function ConstantMap(constants: seq<Constant>): map<string, Constant> {
    if constants == [] then map[]
    else ConstantMap(constants[..|constants| - 1])[constants[|constants| - 1].id := constants[|constants| - 1]]
  }

  function BlockIds(blocks: seq<Block>): (ids: seq<string>)
    ensures |ids| == |blocks| && forall i :: 0 <= i < |ids| ==> ids[i] == blocks[i].id
  {
    seq(|blocks|, i requires 0 <= i < |blocks| => blocks[i].id)
  }

  function Ports(c: Chart): map<string, Port> {
    PortMap(c.inputs + c.outputs + c.inOuts)
  }

  /** `port -> station configuration variable`, for every associated port. */
  function Bound(c: Chart): map<string, string> {
    var ports := Ports(c);
    map n | n in ports && ports[n].bind.Some? && ports[n].bind.value != "" :: ports[n].bind.value
  }

  predicate IsSystem(name: string) {
    name == "CYCLE_TICK" || name == "CYCLE_MS"
  }

  /** Page variables: intermediate or local ports that no station owns. */
  function Internal(c: Chart): set<string> {
    var ports := Ports(c);
    set n | n in ports && ports[n].scope in ["intermediate", "local"] && n !in Bound(c) && !IsSystem(n)
  }

  // ---------- block wires ----------

  /** Edges between blocks of `N` drawn by the wires. */
  ghost function BlockEdges(N: set<string>, connections: seq<Connection>): Edges<string> {
    set c | c in connections && c.src.block in N && c.dst.block in N :: (c.src.block, c.dst.block)
  }

  lemma BlockEdgesAppend(N: set<string>, connections: seq<Connection>, c: Connection)
    ensures BlockEdges(N, connections + [c]) ==
            BlockEdges(N, connections) +
            (if c.src.block in N && c.dst.block in N then {(c.src.block, c.dst.block)} else {})
  {
    var E, E' := BlockEdges(N, connections), BlockEdges(N, connections + [c]);
    forall e ensures e in E' <==> e in E || (e == (c.src.block, c.dst.block) && e.0 in N && e.1 in N) {
      if e in E {
        var w :| w in connections && w.src.block in N && w.dst.block in N && e == (w.src.block, w.dst.block);
        assert w in connections + [c];
      }
    }
  }
}
