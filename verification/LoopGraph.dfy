/** The graph `_check_cycles` walks: its edges, and the adjacency lists in the order the code builds them. */
module LoopGraph {
  import opened Orders
  import opened Digraphs
  import opened Charts
  import opened LoopChecker

  /** Direct wires between blocks, and writer-to-reader pairs over one page port. */
  ghost function LoopEdges(blocks: set<string>, connections: seq<Connection>): Edges<string> {
    BlockEdges(blocks, connections) +
    (set w, r | w in connections && r in connections && ViaPort(blocks, w, r) :: (w.src.block, r.dst.block))
  }

  predicate ViaPort(blocks: set<string>, w: Connection, r: Connection) {
    && w.dst.block == INTERFACE && w.src.block in blocks
    && r.src.block == INTERFACE && r.dst.block in blocks
    && w.dst.port == r.src.port && w.src.block != r.dst.block
  }

  // ---------- the lists, entry by entry ----------

  /** `adjacency.setdefault(src, []).append(entry)`. */
  function Extend(adj: Adjacency, src: string, entry: (string, string)): Adjacency {
    adj[src := Neighbors(adj, src) + [entry]]
  }

  predicate IsDirect(blocks: set<string>, c: Connection) {
    c.src.block in blocks && c.dst.block in blocks
  }

  predicate Writes(blocks: set<string>, c: Connection) {
    c.dst.block == INTERFACE && c.src.block in blocks
  }

  predicate ReadsPort(blocks: set<string>, c: Connection) {
    c.src.block == INTERFACE && c.dst.block in blocks
  }

  function DirectAdj(blocks: set<string>, connections: seq<Connection>): Adjacency {
    if connections == [] then map[]
    else
      var c := connections[|connections| - 1];
      var adj := DirectAdj(blocks, connections[..|connections| - 1]);
      if IsDirect(blocks, c) then Extend(adj, c.src.block, (c.dst.block, c.dst.port)) else adj
  }

  /** The keys of `produced`, in the order they come up. */
  function PortNames(blocks: set<string>, connections: seq<Connection>): seq<string> {
    if connections == [] then []
    else
      var c := connections[|connections| - 1];
      var names := PortNames(blocks, connections[..|connections| - 1]);
      if Writes(blocks, c) && c.dst.port !in names then names + [c.dst.port] else names
  }

  function WritersOf(blocks: set<string>, connections: seq<Connection>, name: string): seq<string> {
    if connections == [] then []
    else
      var c := connections[|connections| - 1];
      WritersOf(blocks, connections[..|connections| - 1], name)
      + if Writes(blocks, c) && c.dst.port == name then [c.src.block] else []
  }

  function ReadersOf(blocks: set<string>, connections: seq<Connection>, name: string): seq<(string, string)> {
    if connections == [] then []
    else
      var c := connections[|connections| - 1];
      ReadersOf(blocks, connections[..|connections| - 1], name)
      + if ReadsPort(blocks, c) && c.src.port == name then [(c.dst.block, c.dst.port)] else []
  }

  function JoinWriters(adj: Adjacency, writers: seq<string>, reader: (string, string)): Adjacency {
    if writers == [] then adj
    else
      var before := JoinWriters(adj, writers[..|writers| - 1], reader);
      if writers[|writers| - 1] != reader.0 then Extend(before, writers[|writers| - 1], reader) else before
  }

  function JoinReaders(adj: Adjacency, writers: seq<string>, readers: seq<(string, string)>): Adjacency {
    if readers == [] then adj
    else JoinWriters(JoinReaders(adj, writers, readers[..|readers| - 1]), writers, readers[|readers| - 1])
  }

  function JoinPorts(blocks: set<string>, connections: seq<Connection>, adj: Adjacency, names: seq<string>): Adjacency {
    if names == [] then adj
    else
      var name := names[|names| - 1];
      JoinReaders(JoinPorts(blocks, connections, adj, names[..|names| - 1]),
                  WritersOf(blocks, connections, name), ReadersOf(blocks, connections, name))
  }

  /** The adjacency lists of a chart: its direct wires, then port by port every writer before each reader. */
  function AdjacencyOf(blocks: set<string>, connections: seq<Connection>): Adjacency {
    JoinPorts(blocks, connections, DirectAdj(blocks, connections), PortNames(blocks, connections))
  }

  /** Without wires to page ports the direct wires are all there is. */
  lemma {:induction false} NoPorts(blocks: set<string>, connections: seq<Connection>)
    requires forall c :: c in connections ==> c.dst.block != INTERFACE
    ensures PortNames(blocks, connections) == [] && AdjacencyOf(blocks, connections) == DirectAdj(blocks, connections)
  {
    if connections != [] { NoPorts(blocks, connections[..|connections| - 1]); }
  }

  // ---------- what the lists amount to ----------

  lemma ExtendEdges(adj0: Adjacency, src: string, entry: (string, string))
    ensures AdjEdges(Extend(adj0, src, entry)) == AdjEdges(adj0) + {(src, entry.0)}
  {
    var list := Neighbors(adj0, src);
    var adj := Extend(adj0, src, entry);
    forall e ensures e in AdjEdges(adj) <==> e in AdjEdges(adj0) || e == (src, entry.0) {
      if e in AdjEdges(adj0) {
        var a, k :| a in adj0 && 0 <= k < |adj0[a]| && e == (a, adj0[a][k].0);
        assert adj[a][k] == adj0[a][k];
      }
      if e == (src, entry.0) {
        assert adj[src][|list|] == entry;
      }
    }
  }

  lemma {:induction false} DirectEdges(blocks: set<string>, connections: seq<Connection>)
    ensures AdjEdges(DirectAdj(blocks, connections)) == BlockEdges(blocks, connections)
  {
    if connections != [] {
      var n := |connections| - 1;
      var c := connections[n];
      DirectEdges(blocks, connections[..n]);
      assert connections == connections[..n] + [c];
      BlockEdgesAppend(blocks, connections[..n], c);
      ExtendEdges(DirectAdj(blocks, connections[..n]), c.src.block, (c.dst.block, c.dst.port));
    }
  }

  lemma {:induction false} WritersAre(blocks: set<string>, connections: seq<Connection>, name: string)
    ensures forall b :: b in WritersOf(blocks, connections, name) <==>
              exists w :: w in connections && Writes(blocks, w) && w.dst.port == name && w.src.block == b
    ensures name in PortNames(blocks, connections) <==> WritersOf(blocks, connections, name) != []
  {
    if connections != [] {
      var n := |connections| - 1;
      WritersAre(blocks, connections[..n], name);
      assert connections == connections[..n] + [connections[n]];
    }
  }

  lemma {:induction false} ReadersAre(blocks: set<string>, connections: seq<Connection>, name: string)
    ensures forall b, pin :: (b, pin) in ReadersOf(blocks, connections, name) <==>
              exists r :: r in connections && ReadsPort(blocks, r) && r.src.port == name && r.dst == Endpoint(b, pin)
  {
    if connections != [] {
      var n := |connections| - 1;
      ReadersAre(blocks, connections[..n], name);
      assert connections == connections[..n] + [connections[n]];
    }
  }

  ghost function PortEdges(writers: seq<string>, readers: seq<(string, string)>): Edges<string> {
    set i, j | 0 <= i < |writers| && 0 <= j < |readers| && writers[i] != readers[j].0 :: (writers[i], readers[j].0)
  }

  lemma PortEdgesRow(writers: seq<string>, i: nat, reader: (string, string))
    requires i < |writers|
    ensures PortEdges(writers[..i + 1], [reader]) ==
            PortEdges(writers[..i], [reader]) + (if writers[i] != reader.0 then {(writers[i], reader.0)} else {})
  {
    var one := [reader];
    forall e ensures e in PortEdges(writers[..i + 1], one) <==>
               e in PortEdges(writers[..i], one) || (writers[i] != reader.0 && e == (writers[i], reader.0)) {
      if e in PortEdges(writers[..i], one) {
        var k, l :| 0 <= k < i && 0 <= l < 1 && writers[..i][k] != one[l].0 && e == (writers[..i][k], one[l].0);
        assert writers[..i + 1][k] == writers[..i][k];
      }
      if writers[i] != reader.0 && e == (writers[i], reader.0) {
        assert writers[..i + 1][i] == writers[i] && one[0] == reader;
      }
    }
  }

  lemma PortEdgesColumn(writers: seq<string>, readers: seq<(string, string)>, j: nat)
    requires j < |readers|
    ensures PortEdges(writers, readers[..j + 1]) == PortEdges(writers, readers[..j]) + PortEdges(writers, [readers[j]])
  {
    var one := [readers[j]];
    forall e ensures e in PortEdges(writers, readers[..j + 1]) <==> e in PortEdges(writers, readers[..j]) || e in PortEdges(writers, one) {
      if e in PortEdges(writers, readers[..j]) {
        var k, l :| 0 <= k < |writers| && 0 <= l < j && writers[k] != readers[..j][l].0 && e == (writers[k], readers[..j][l].0);
        assert readers[..j + 1][l] == readers[..j][l];
      }
      if e in PortEdges(writers, one) {
        var k, l :| 0 <= k < |writers| && 0 <= l < 1 && writers[k] != one[l].0 && e == (writers[k], one[l].0);
        assert readers[..j + 1][j] == one[0];
      }
      if e in PortEdges(writers, readers[..j + 1]) {
        var k, l :| 0 <= k < |writers| && 0 <= l < j + 1 && writers[k] != readers[..j + 1][l].0 && e == (writers[k], readers[..j + 1][l].0);
        if l < j {
          assert readers[..j][l] == readers[..j + 1][l];
        } else {
          assert one[0] == readers[..j + 1][l];
        }
      }
    }
  }

  lemma {:induction false} JoinWritersEdges(adj: Adjacency, writers: seq<string>, reader: (string, string))
    ensures AdjEdges(JoinWriters(adj, writers, reader)) == AdjEdges(adj) + PortEdges(writers, [reader])
  {
    if writers != [] {
      var n := |writers| - 1;
      JoinWritersEdges(adj, writers[..n], reader);
      PortEdgesRow(writers, n, reader);
      assert writers[..n + 1] == writers;
      ExtendEdges(JoinWriters(adj, writers[..n], reader), writers[n], reader);
    }
  }

  lemma {:induction false} JoinReadersEdges(adj: Adjacency, writers: seq<string>, readers: seq<(string, string)>)
    ensures AdjEdges(JoinReaders(adj, writers, readers)) == AdjEdges(adj) + PortEdges(writers, readers)
  {
    if readers != [] {
      var n := |readers| - 1;
      JoinReadersEdges(adj, writers, readers[..n]);
      PortEdgesColumn(writers, readers, n);
      assert readers[..n + 1] == readers;
      JoinWritersEdges(JoinReaders(adj, writers, readers[..n]), writers, readers[n]);
    }
  }

  /** The edges through these ports. */
  ghost function Joined(blocks: set<string>, connections: seq<Connection>, names: seq<string>): Edges<string> {
    set name, e | name in names && e in PortEdges(WritersOf(blocks, connections, name), ReadersOf(blocks, connections, name)) :: e
  }

  lemma JoinedMore(blocks: set<string>, connections: seq<Connection>, names: seq<string>, name: string)
    ensures Joined(blocks, connections, names + [name]) ==
            Joined(blocks, connections, names)
            + PortEdges(WritersOf(blocks, connections, name), ReadersOf(blocks, connections, name))
  {
    hide PortEdges, WritersOf, ReadersOf;
    assert forall x :: x in names + [name] <==> x in names || x == name;
  }

  lemma {:induction false} JoinPortsEdges(blocks: set<string>, connections: seq<Connection>, adj: Adjacency, names: seq<string>)
    ensures AdjEdges(JoinPorts(blocks, connections, adj, names)) == AdjEdges(adj) + Joined(blocks, connections, names)
  {
    hide Joined, PortEdges, WritersOf, ReadersOf, AdjEdges, JoinReaders;
    if names != [] {
      var n := |names| - 1;
      JoinPortsEdges(blocks, connections, adj, names[..n]);
      var name := names[n];
      JoinedMore(blocks, connections, names[..n], name);
      JoinReadersEdges(JoinPorts(blocks, connections, adj, names[..n]), WritersOf(blocks, connections, name),
                       ReadersOf(blocks, connections, name));
      assert names == names[..n] + [name];
    } else {
      NothingJoined(blocks, connections);
    }
  }

  lemma NothingJoined(blocks: set<string>, connections: seq<Connection>)
    ensures Joined(blocks, connections, []) == {}
  {
  }

  lemma AllJoined(blocks: set<string>, connections: seq<Connection>)
    ensures BlockEdges(blocks, connections) + Joined(blocks, connections, PortNames(blocks, connections))
            == LoopEdges(blocks, connections)
  {
    var names := PortNames(blocks, connections);
    var J := Joined(blocks, connections, names);
    forall w, r | w in connections && r in connections && ViaPort(blocks, w, r) ensures (w.src.block, r.dst.block) in J {
      var name := w.dst.port;
      WritersAre(blocks, connections, name);
      ReadersAre(blocks, connections, name);
      var writers, readers := WritersOf(blocks, connections, name), ReadersOf(blocks, connections, name);
      assert w.src.block in writers && r.dst == Endpoint(r.dst.block, r.dst.port);
      assert (r.dst.block, r.dst.port) in readers;
      var i :| 0 <= i < |writers| && writers[i] == w.src.block;
      var j :| 0 <= j < |readers| && readers[j] == (r.dst.block, r.dst.port);
      assert (writers[i], readers[j].0) in PortEdges(writers, readers);
    }
    forall e | e in J ensures e in LoopEdges(blocks, connections) {
      var name :| name in names && e in PortEdges(WritersOf(blocks, connections, name), ReadersOf(blocks, connections, name));
      JoinedIsVia(blocks, connections, name, e);
    }
  }

  lemma JoinedIsVia(blocks: set<string>, connections: seq<Connection>, name: string, e: (string, string))
    requires e in PortEdges(WritersOf(blocks, connections, name), ReadersOf(blocks, connections, name))
    ensures exists w, r :: w in connections && r in connections && ViaPort(blocks, w, r) && e == (w.src.block, r.dst.block)
  {
    WritersAre(blocks, connections, name);
    ReadersAre(blocks, connections, name);
    var writers, readers := WritersOf(blocks, connections, name), ReadersOf(blocks, connections, name);
    var i, j :| 0 <= i < |writers| && 0 <= j < |readers| && writers[i] != readers[j].0 && e == (writers[i], readers[j].0);
    assert writers[i] in writers && readers[j] in readers && readers[j] == (readers[j].0, readers[j].1);
    var w :| w in connections && Writes(blocks, w) && w.dst.port == name && w.src.block == writers[i];
    var r :| r in connections && ReadsPort(blocks, r) && r.src.port == name && r.dst == Endpoint(readers[j].0, readers[j].1);
    assert ViaPort(blocks, w, r);
  }

  /** Together the lists draw the graph, and stay within the blocks. */
  lemma AdjacencyIs(blocks: set<string>, connections: seq<Connection>)
    ensures AdjEdges(AdjacencyOf(blocks, connections)) == LoopEdges(blocks, connections)
    ensures Closed(blocks, AdjacencyOf(blocks, connections))
  {
    DirectEdges(blocks, connections);
    JoinPortsEdges(blocks, connections, DirectAdj(blocks, connections), PortNames(blocks, connections));
    AllJoined(blocks, connections);
    LoopEdgesClosed(blocks, connections, AdjacencyOf(blocks, connections));
  }

  lemma LoopEdgesClosed(blocks: set<string>, connections: seq<Connection>, adj: Adjacency)
    requires AdjEdges(adj) == LoopEdges(blocks, connections)
    ensures Closed(blocks, adj)
  {
    forall a, k | a in adj && 0 <= k < |adj[a]| ensures adj[a][k].0 in blocks && a in blocks {
      var e := (a, adj[a][k].0);
      assert e in AdjEdges(adj);
      if e in BlockEdges(blocks, connections) {
        var c :| c in connections && c.src.block in blocks && c.dst.block in blocks && e == (c.src.block, c.dst.block);
      } else {
        var w, r :| w in connections && r in connections && ViaPort(blocks, w, r) && e == (w.src.block, r.dst.block);
      }
    }
  }

  // ---------- the loops that build them ----------

  method DirectWires(blocks: set<string>, connections: seq<Connection>) returns (adj: Adjacency)
    ensures adj == DirectAdj(blocks, connections)
  {
    adj := map[];
    for i := 0 to |connections|
      invariant adj == DirectAdj(blocks, connections[..i])
    {
      var c := connections[i];
      assert connections[..i + 1][..i] == connections[..i];
      if c.src.block in blocks && c.dst.block in blocks {
        adj := Extend(adj, c.src.block, (c.dst.block, c.dst.port));
      }
    }
    assert connections[..|connections|] == connections;
  }

  /** `produced`, with its keys in insertion order. */
  method Producers(blocks: set<string>, connections: seq<Connection>) returns (produced: map<string, seq<string>>, names: seq<string>)
    ensures names == PortNames(blocks, connections) && produced.Keys == Elements(names)
    ensures forall name :: name in produced ==> produced[name] == WritersOf(blocks, connections, name)
  {
    produced, names := map[], [];
    for i := 0 to |connections|
      invariant names == PortNames(blocks, connections[..i]) && produced.Keys == Elements(names)
      invariant forall name :: name in produced ==> produced[name] == WritersOf(blocks, connections[..i], name)
    {
      var c := connections[i];
      assert connections[..i + 1][..i] == connections[..i];
      if c.dst.block == INTERFACE && c.src.block in blocks {
        WritersAre(blocks, connections[..i], c.dst.port);
        ElementsAppend(names, c.dst.port);
        var list := if c.dst.port in produced then produced[c.dst.port] else [];
        if c.dst.port !in produced { names := names + [c.dst.port]; }
        produced := produced[c.dst.port := list + [c.src.block]];
      }
    }
    assert connections[..|connections|] == connections;
  }

  method Consumers(blocks: set<string>, connections: seq<Connection>) returns (consumed: map<string, seq<(string, string)>>)
    ensures forall name :: (if name in consumed then consumed[name] else []) == ReadersOf(blocks, connections, name)
  {
    consumed := map[];
    for i := 0 to |connections|
      invariant forall name :: (if name in consumed then consumed[name] else []) == ReadersOf(blocks, connections[..i], name)
    {
      var c := connections[i];
      assert connections[..i + 1][..i] == connections[..i];
      if c.src.block == INTERFACE && c.dst.block in blocks {
        var list := if c.src.port in consumed then consumed[c.src.port] else [];
        consumed := consumed[c.src.port := list + [(c.dst.block, c.dst.port)]];
      }
    }
    assert connections[..|connections|] == connections;
  }

  /** The two inner loops: every writer of a port feeds every other block that reads it. */
  method JoinPort(adj0: Adjacency, writers: seq<string>, readers: seq<(string, string)>) returns (adj: Adjacency)
    ensures adj == JoinReaders(adj0, writers, readers)
  {
    adj := adj0;
    for j := 0 to |readers|
      invariant adj == JoinReaders(adj0, writers, readers[..j])
    {
      ghost var before := adj;
      assert readers[..j + 1][..j] == readers[..j];
      for i := 0 to |writers|
        invariant adj == JoinWriters(before, writers[..i], readers[j])
      {
        assert writers[..i + 1][..i] == writers[..i];
        if writers[i] != readers[j].0 {
          adj := Extend(adj, writers[i], readers[j]);
        }
      }
      assert writers[..|writers|] == writers;
    }
    assert readers[..|readers|] == readers;
  }

  method Adjacencies(blocks: set<string>, connections: seq<Connection>) returns (adj: Adjacency)
    ensures adj == AdjacencyOf(blocks, connections)
    ensures AdjEdges(adj) == LoopEdges(blocks, connections) && Closed(blocks, adj)
  {
    adj := DirectWires(blocks, connections);
    ghost var direct := adj;
    var produced, names := Producers(blocks, connections);
    var consumed := Consumers(blocks, connections);
    for i := 0 to |names|
      invariant adj == JoinPorts(blocks, connections, direct, names[..i])
    {
      assert names[..i + 1][..i] == names[..i];
      assert names[i] in Elements(names);
      var readers := if names[i] in consumed then consumed[names[i]] else [];
      adj := JoinPort(adj, produced[names[i]], readers);
    }
    assert names[..|names|] == names;
    AdjacencyIs(blocks, connections);
  }
}
