/** `_check_cycles`: the feedback-loop finder of the logic-graph checker, across pages. */
module LoopChecker {
  import opened Orders
  import opened Digraphs
  import opened DepthFirst

  datatype Severity = Info | Error

  /** One reported loop; `ring` starts with its alphabetically first block. */
  datatype Finding = Finding(severity: Severity, ring: seq<string>, block: string, port: string)

  /** For each block, what it feeds, with the pin at the far end of the wire. */
  type Adjacency = map<string, seq<(string, string)>>

  /** `state` maps an open block to 1 and a finished one to 2; unvisited blocks are absent. */
  datatype Walk = Walk(state: map<string, int>, stack: seq<string>, reported: set<set<string>>, findings: seq<Finding>)

  function Neighbors(adj: Adjacency, node: string): seq<(string, string)> {
    if node in adj then adj[node] else []
  }

  ghost function AdjEdges(adj: Adjacency): Edges<string> {
    set a, k | a in adj && 0 <= k < |adj[a]| :: (a, adj[a][k].0)
  }

  ghost predicate Closed(nodes: set<string>, adj: Adjacency) {
    forall a, k :: a in adj && 0 <= k < |adj[a]| ==> adj[a][k].0 in nodes && a in nodes
  }

  // ---------- list operations ----------

  /** `s.index(x)`. */
  function Index(s: seq<string>, x: string): (k: nat)
    requires x in s
    ensures k < |s| && s[k] == x && x !in s[..k]
  {
    if s[0] == x then 0 else
      assert s == [s[0]] + s[1..];
      assert forall j | 0 <= j < |s[1..]| :: s[1..][j] == s[j + 1];
      var k := Index(s[1..], x);
      assert s[..k + 1] == [s[0]] + s[1..][..k];
      k + 1
  }

  function Min(s: seq<string>): (x: string)
    requires s != []
    ensures x in s
  {
    if |s| == 1 then s[0]
    else
      var rest := Min(s[1..]);
      if StrLess(rest, s[0]) then rest else s[0]
  }

  lemma {:induction false} MinIsLeast(s: seq<string>)
    requires s != []
    ensures forall x :: x in s ==> !StrLess(x, Min(s))
  {
    StrLessTotal();
    if |s| > 1 {
      MinIsLeast(s[1..]);
      assert s == [s[0]] + s[1..];
    }
  }

  /** The ring as it is reported: rotated to its alphabetically first member. */
  function Rotate(ring: seq<string>): seq<string>
    requires ring != []
  {
    var start := Index(ring, Min(ring));
    ring[start..] + ring[..start]
  }

  // ---------- the walk as a function ----------

  ghost predicate WalkOk(w: Walk) {
    forall x :: x in w.stack <==> x in w.state && w.state[x] == 1
  }

  /** What happens when the walk meets a block that is still open. */
  function Report(delayed: set<string>, nxt: string, port: string, w: Walk): Walk
    requires nxt in w.stack
  {
    var ring := w.stack[Index(w.stack, nxt)..];
    var members := set x | x in ring;
    if members in w.reported then w
    else
      var severity := if members * delayed != {} then Info else Error;
      w.(reported := w.reported + {members}, findings := w.findings + [Finding(severity, Rotate(ring), nxt, port)])
  }

  function Open(node: string, w: Walk): Walk {
    w.(state := w.state[node := 1], stack := w.stack + [node])
  }

  function Close(node: string, w: Walk): Walk
    requires w.stack != []
  {
    w.(state := w.state[node := 2], stack := w.stack[..|w.stack| - 1])
  }

  lemma OpenOk(node: string, w: Walk)
    requires WalkOk(w) && node !in w.state
    ensures WalkOk(Open(node, w)) && node !in w.stack
  {
  }

  lemma CloseOk(node: string, outer: seq<string>, w: Walk)
    requires WalkOk(w) && w.stack == outer + [node] && node !in outer
    ensures WalkOk(Close(node, w)) && Close(node, w).stack == outer
  {
    assert (outer + [node])[..|outer|] == outer;
    assert node in outer + [node];
  }

  lemma OpenLess(nodes: set<string>, node: string, w: Walk)
    requires node in nodes && node !in w.state
    ensures nodes - Open(node, w).state.Keys < nodes - w.state.Keys
  {
    assert node in nodes - w.state.Keys && node !in nodes - Open(node, w).state.Keys;
  }

  ghost function Visit(nodes: set<string>, adj: Adjacency, delayed: set<string>, node: string, w: Walk): (r: Walk)
    requires Closed(nodes, adj) && node in nodes && node !in w.state && WalkOk(w)
    ensures w.state.Keys + {node} <= r.state.Keys && r.stack == w.stack && WalkOk(r)
    decreases nodes - w.state.Keys, 0
  {
    OpenOk(node, w);
    OpenLess(nodes, node, w);
    var inner := VisitEach(nodes, adj, delayed, Neighbors(adj, node), Open(node, w));
    CloseOk(node, w.stack, inner);
    Close(node, inner)
  }

  ghost function VisitEach(nodes: set<string>, adj: Adjacency, delayed: set<string>, next: seq<(string, string)>, w: Walk): (r: Walk)
    requires Closed(nodes, adj) && (forall k :: 0 <= k < |next| ==> next[k].0 in nodes) && WalkOk(w)
    ensures w.state.Keys <= r.state.Keys && r.stack == w.stack && WalkOk(r)
    decreases nodes - w.state.Keys, |next|
  {
    if next == [] then w
    else
      var (nxt, port) := next[0];
      var w' := if nxt !in w.state then Visit(nodes, adj, delayed, nxt, w)
                else if w.state[nxt] == 1 then Report(delayed, nxt, port, w)
                else w;
      VisitEach(nodes, adj, delayed, next[1..], w')
  }

  lemma VisitIs(nodes: set<string>, adj: Adjacency, delayed: set<string>, node: string, w: Walk)
    requires Closed(nodes, adj) && node in nodes && node !in w.state && WalkOk(w) && WalkOk(Open(node, w))
    ensures var inner := VisitEach(nodes, adj, delayed, Neighbors(adj, node), Open(node, w));
            inner.stack != [] && Visit(nodes, adj, delayed, node, w) == Close(node, inner)
  {
  }

  /** The top-level loop over the sorted block names. */
  ghost function VisitAll(nodes: set<string>, adj: Adjacency, delayed: set<string>, names: seq<string>, w: Walk): (r: Walk)
    requires Closed(nodes, adj) && Elements(names) <= nodes && WalkOk(w)
    ensures r.stack == w.stack && WalkOk(r)
  {
    if names == [] then w
    else
      assert names[0] in Elements(names);
      assert forall x :: x in names[1..] ==> x in Elements(names);
      VisitAll(nodes, adj, delayed, names[1..],
               if names[0] in w.state then w else Visit(nodes, adj, delayed, names[0], w))
  }

  const START := Walk(map[], [], {}, [])

  // ---------- what a walk has found ----------

  /** The reported ring is a real cycle, told apart by whether a delay block is on it. */
  ghost predicate RealRing(E: Edges<string>, delayed: set<string>, f: Finding) {
    && f.ring != [] && Distinct(f.ring)
    && IsCycle(E, f.ring + [f.ring[0]])
    && (forall x :: x in f.ring ==> !StrLess(x, f.ring[0]))
    && (f.severity == Info <==> Elements(f.ring) * delayed != {})
  }

  ghost predicate Reports(E: Edges<string>, delayed: set<string>, w: Walk) {
    && (forall f :: f in w.findings ==> RealRing(E, delayed, f))
    && (forall i :: 0 <= i < |w.findings| ==> Elements(w.findings[i].ring) in w.reported)
    && (forall i, j :: 0 <= i < j < |w.findings| ==> Elements(w.findings[i].ring) != Elements(w.findings[j].ring))
    && (forall members :: members in w.reported ==> exists f :: f in w.findings && Elements(f.ring) == members)
  }

  /** Both blocks lie on one reported ring. */
  ghost predicate Touched(findings: seq<Finding>, m: string, n: string) {
    exists f :: f in findings && m in f.ring && n in f.ring
  }

  /** The dependencies no reported ring accounts for. */
  ghost function Unreported(E: Edges<string>, findings: seq<Finding>): Edges<string> {
    set e | e in E && !Touched(findings, e.0, e.1)
  }

  lemma TouchedMore(findings: seq<Finding>, more: seq<Finding>, m: string, n: string)
    requires findings <= more && Touched(findings, m, n)
    ensures Touched(more, m, n)
  {
    var f :| f in findings && m in f.ring && n in f.ring;
    assert f in more;
  }

  lemma FirstMore(E: Edges<string>, findings: seq<Finding>, more: seq<Finding>, post: seq<string>)
    requires findings <= more && SuccessorsFirst(Unreported(E, findings), post)
    ensures SuccessorsFirst(Unreported(E, more), post)
  {
    forall e | e in Unreported(E, more) ensures e in Unreported(E, findings) {
      if Touched(findings, e.0, e.1) { TouchedMore(findings, more, e.0, e.1); }
    }
  }

  ghost predicate Explored(nodes: set<string>, E: Edges<string>, delayed: set<string>, w: Walk, post: seq<string>) {
    && WalkOk(w)
    && w.state.Keys == Elements(w.stack) + Elements(post) <= nodes
    && Distinct(w.stack) && Distinct(post) && Elements(w.stack) !! Elements(post)
    && IsPath(E, w.stack)
    && SuccessorsFirst(Unreported(E, w.findings), post)
    && Reports(E, delayed, w)
  }

  lemma RotatedAt(ring: seq<string>, start: nat, i: nat)
    requires start < |ring| && i < |ring|
    ensures (ring[start..] + ring[..start])[i] == ring[if start + i < |ring| then start + i else start + i - |ring|]
  {
  }

  lemma RotatedSame(ring: seq<string>, start: nat)
    requires start < |ring|
    ensures var r := ring[start..] + ring[..start];
            Elements(r) == Elements(ring) && (Distinct(ring) ==> Distinct(r))
  {
    assert ring == ring[..start] + ring[start..];
    assert multiset(ring) == multiset(ring[start..] + ring[..start]);
    hide *;
    SameMultisetSameElements(ring, ring[start..] + ring[..start]);
  }

  lemma RotateCycle(E: Edges<string>, ring: seq<string>, start: nat)
    requires ring != [] && IsCycle(E, ring + [ring[0]]) && start < |ring| && Distinct(ring)
    ensures var r := ring[start..] + ring[..start];
            Distinct(r) && Elements(r) == Elements(ring) && IsCycle(E, r + [r[0]])
  {
    hide Distinct, Elements;
    RotatedSame(ring, start);
    var r, n := ring[start..] + ring[..start], |ring|;
    RotatedAt(ring, start, 0);
    forall i | 0 <= i < n ensures ((r + [r[0]])[i], (r + [r[0]])[i + 1]) in E {
      var k := if start + i < n then start + i else start + i - n;
      RotatedAt(ring, start, i);
      if i + 1 < n { RotatedAt(ring, start, i + 1); }
      assert ((ring + [ring[0]])[k], (ring + [ring[0]])[k + 1]) in E;
    }
  }

  lemma ReportRing(E: Edges<string>, delayed: set<string>, stack: seq<string>, nxt: string, port: string)
    requires IsPath(E, stack) && Distinct(stack) && nxt in stack && (stack[|stack| - 1], nxt) in E
    ensures var ring := stack[Index(stack, nxt)..];
            && Elements(Rotate(ring)) == Elements(ring)
            && RealRing(E, delayed, Finding(if Elements(ring) * delayed != {} then Info else Error, Rotate(ring), nxt, port))
  {
    var k := Index(stack, nxt);
    var ring := stack[k..];
    BackEdgeRing(E, stack, k);
    RotateCycle(E, ring, Index(ring, Min(ring)));
    MinIsLeast(ring);
    forall x | x in Rotate(ring) ensures !StrLess(x, Min(ring)) {
      assert x in Elements(Rotate(ring)) && x in Elements(ring);
    }
  }

  lemma AddReport(E: Edges<string>, delayed: set<string>, w: Walk, f: Finding)
    requires Reports(E, delayed, w) && RealRing(E, delayed, f) && Elements(f.ring) !in w.reported
    ensures Reports(E, delayed, w.(reported := w.reported + {Elements(f.ring)}, findings := w.findings + [f]))
  {
    hide RealRing;
  }

  lemma ReportFacts(nodes: set<string>, E: Edges<string>, delayed: set<string>, nxt: string, port: string, w: Walk, post: seq<string>)
    requires Explored(nodes, E, delayed, w, post) && nxt in w.stack && (w.stack[|w.stack| - 1], nxt) in E
    ensures var r := Report(delayed, nxt, port, w);
            Explored(nodes, E, delayed, r, post) && w.findings <= r.findings && Touched(r.findings, w.stack[|w.stack| - 1], nxt)
  {
    hide *;
    StackFacts(nodes, E, delayed, w, post);
    FileRing(E, delayed, nxt, port, w);
    RingEnds(w.stack, nxt, w.stack[Index(w.stack, nxt)..], Report(delayed, nxt, port, w).findings);
    Refile(nodes, E, delayed, w, Report(delayed, nxt, port, w), post);
  }

  lemma StackFacts(nodes: set<string>, E: Edges<string>, delayed: set<string>, w: Walk, post: seq<string>)
    requires Explored(nodes, E, delayed, w, post)
    ensures IsPath(E, w.stack) && Distinct(w.stack) && Reports(E, delayed, w)
  {
    hide IsPath, Distinct, Reports, SuccessorsFirst, Unreported;
  }

  /** Afterwards the ring is among the findings, newly or as before. */
  lemma FileRing(E: Edges<string>, delayed: set<string>, nxt: string, port: string, w: Walk)
    requires IsPath(E, w.stack) && Distinct(w.stack) && Reports(E, delayed, w)
    requires nxt in w.stack && (w.stack[|w.stack| - 1], nxt) in E
    ensures var r, ring := Report(delayed, nxt, port, w), w.stack[Index(w.stack, nxt)..];
            && r.state == w.state && r.stack == w.stack && w.findings <= r.findings && Reports(E, delayed, r)
            && exists f :: f in r.findings && Elements(f.ring) == Elements(ring)
  {
    hide RealRing, Rotate, IsPath, Distinct;
    var ring := w.stack[Index(w.stack, nxt)..];
    assert (set x | x in ring) == Elements(ring);
    ReportRing(E, delayed, w.stack, nxt, port);
    if Elements(ring) !in w.reported {
      var f := Finding(if Elements(ring) * delayed != {} then Info else Error, Rotate(ring), nxt, port);
      AddReport(E, delayed, w, f);
      assert f in w.findings + [f];
    }
  }

  lemma Refile(nodes: set<string>, E: Edges<string>, delayed: set<string>, w: Walk, w': Walk, post: seq<string>)
    requires Explored(nodes, E, delayed, w, post) && Reports(E, delayed, w')
    requires w'.state == w.state && w'.stack == w.stack && w.findings <= w'.findings
    ensures Explored(nodes, E, delayed, w', post)
  {
    hide IsPath, Reports, SuccessorsFirst, Unreported;
    FirstMore(E, w.findings, w'.findings, post);
  }

  /** The two ends of the wire that closed the ring lie on it. */
  lemma RingEnds(stack: seq<string>, nxt: string, ring: seq<string>, findings: seq<Finding>)
    requires nxt in stack && ring == stack[Index(stack, nxt)..]
    requires exists f :: f in findings && Elements(f.ring) == Elements(ring)
    ensures Touched(findings, stack[|stack| - 1], nxt)
  {
    hide Index, Distinct;
    var f :| f in findings && Elements(f.ring) == Elements(ring);
    var (first, last) := (ring[0], ring[|ring| - 1]);
    assert first in ring && last in ring;
    assert first in Elements(f.ring) && last in Elements(f.ring);
    assert first == nxt && last == stack[|stack| - 1];
  }

  lemma AdjacentEdges(adj: Adjacency, node: string)
    ensures forall k :: 0 <= k < |Neighbors(adj, node)| ==> (node, Neighbors(adj, node)[k].0) in AdjEdges(adj)
    ensures forall m :: (node, m) in AdjEdges(adj) ==> exists k :: 0 <= k < |Neighbors(adj, node)| && Neighbors(adj, node)[k].0 == m
  {
    forall m | (node, m) in AdjEdges(adj)
      ensures exists k :: 0 <= k < |Neighbors(adj, node)| && Neighbors(adj, node)[k].0 == m
    {
      var a, k :| a in adj && 0 <= k < |adj[a]| && (a, adj[a][k].0) == (node, m);
      assert Neighbors(adj, node)[k].0 == m;
    }
  }

  lemma ExploredOk(nodes: set<string>, E: Edges<string>, delayed: set<string>, w: Walk, post: seq<string>)
    requires Explored(nodes, E, delayed, w, post)
    ensures WalkOk(w) && w.state.Keys <= nodes
    ensures forall x :: x in w.state ==> x in w.stack || x in post
  {
    forall x | x in w.state ensures x in w.stack || x in post {
      assert x in Elements(w.stack) + Elements(post);
    }
  }

  lemma OpenFacts(nodes: set<string>, E: Edges<string>, delayed: set<string>, node: string, w: Walk, post: seq<string>)
    requires Explored(nodes, E, delayed, w, post) && node in nodes && node !in w.state
    requires w.stack != [] ==> (w.stack[|w.stack| - 1], node) in E
    ensures Explored(nodes, E, delayed, Open(node, w), post)
  {
    assert node !in Elements(w.stack) && node !in Elements(post);
    PushNode(E, w.stack, post, node);
    hide IsPath, SuccessorsFirst, RealRing;
  }

  lemma CloseFacts(nodes: set<string>, E: Edges<string>, delayed: set<string>, node: string, outer: seq<string>, w: Walk, post: seq<string>)
    requires Explored(nodes, E, delayed, w, post) && w.stack == outer + [node]
    requires forall m :: (node, m) in E ==> m in post || Touched(w.findings, node, m)
    ensures Explored(nodes, E, delayed, Close(node, w), post + [node]) && Close(node, w).stack == outer
  {
    PopNode(E, outer, post, node);
    FinishNode(Unreported(E, w.findings), post, node);
    assert node in w.stack;
    assert w.stack[..|w.stack| - 1] == outer;
    hide IsPath, SuccessorsFirst, RealRing;
  }

  lemma {:induction false} VisitFacts(nodes: set<string>, adj: Adjacency, delayed: set<string>, node: string, w: Walk, post: seq<string>)
      returns (post': seq<string>)
    requires Closed(nodes, adj) && node in nodes && node !in w.state && WalkOk(w)
    requires Explored(nodes, AdjEdges(adj), delayed, w, post)
    requires w.stack != [] ==> (w.stack[|w.stack| - 1], node) in AdjEdges(adj)
    ensures var r := Visit(nodes, adj, delayed, node, w);
            Explored(nodes, AdjEdges(adj), delayed, r, post') && node in post' && post <= post' && w.findings <= r.findings
    decreases nodes - w.state.Keys, 0
  {
    var next := Neighbors(adj, node);
    OpenFacts(nodes, AdjEdges(adj), delayed, node, w, post);
    AdjacentEdges(adj, node);
    assert Leads(nodes, AdjEdges(adj), node, next);
    OpenOk(node, w);
    OpenLess(nodes, node, w);
    hide Explored, AdjEdges, Closed, WalkOk;
    var w1 := Open(node, w);
    assert w1.stack == w.stack + [node];
    var inner := VisitEach(nodes, adj, delayed, next, w1);
    var post1 := VisitEachFacts(nodes, adj, delayed, node, next, w1, post);
    CloseFacts(nodes, AdjEdges(adj), delayed, node, w.stack, inner, post1);
    post' := post1 + [node];
  }

  ghost predicate Leads(nodes: set<string>, E: Edges<string>, node: string, next: seq<(string, string)>) {
    forall k :: 0 <= k < |next| ==> next[k].0 in nodes && (node, next[k].0) in E
  }

  /** What one wire out of an open block does to the walk. */
  ghost function Pass(nodes: set<string>, adj: Adjacency, delayed: set<string>, nxt: string, port: string, w: Walk): Walk
    requires Closed(nodes, adj) && nxt in nodes && WalkOk(w)
  {
    if nxt !in w.state then Visit(nodes, adj, delayed, nxt, w)
    else if w.state[nxt] == 1 then Report(delayed, nxt, port, w) else w
  }

  lemma VisitEachStep(nodes: set<string>, adj: Adjacency, delayed: set<string>, node: string, next: seq<(string, string)>, w: Walk)
    requires Closed(nodes, adj) && WalkOk(w) && Leads(nodes, AdjEdges(adj), node, next)
    ensures next == [] ==> VisitEach(nodes, adj, delayed, next, w) == w
    ensures next != [] ==> var w' := Pass(nodes, adj, delayed, next[0].0, next[0].1, w);
                           WalkOk(w') && VisitEach(nodes, adj, delayed, next, w) == VisitEach(nodes, adj, delayed, next[1..], w')
  {
    hide AdjEdges, Visit;
    if next != [] { PassOk(nodes, adj, delayed, next[0].0, next[0].1, w); }
  }

  lemma PassOk(nodes: set<string>, adj: Adjacency, delayed: set<string>, nxt: string, port: string, w: Walk)
    requires Closed(nodes, adj) && nxt in nodes && WalkOk(w)
    ensures WalkOk(Pass(nodes, adj, delayed, nxt, port, w))
  {
    hide Visit;
  }

  /** The wires of `node` in `next` were followed: the walk went from `w` to `r`, and each of them
      ends in a closed block or lies on a reported ring. */
  ghost predicate Followed(nodes: set<string>, E: Edges<string>, delayed: set<string>, node: string, next: seq<(string, string)>,
                           w: Walk, r: Walk, post: seq<string>, post': seq<string>) {
    && Explored(nodes, E, delayed, r, post') && post <= post' && w.findings <= r.findings
    && (forall i :: 0 <= i < |next| ==> next[i].0 in post' || Touched(r.findings, node, next[i].0))
  }

  lemma FollowedStep(nodes: set<string>, E: Edges<string>, delayed: set<string>, node: string, next: seq<(string, string)>,
                     w: Walk, w': Walk, r: Walk, post: seq<string>, post1: seq<string>, post': seq<string>)
    requires next != [] && Followed(nodes, E, delayed, node, next[1..], w', r, post1, post')
    requires post <= post1 && w.findings <= w'.findings && (next[0].0 in post1 || Touched(w'.findings, node, next[0].0))
    ensures Followed(nodes, E, delayed, node, next, w, r, post, post')
  {
    hide Explored, Touched;
    if Touched(w'.findings, node, next[0].0) { TouchedMore(w'.findings, r.findings, node, next[0].0); }
    forall i | 0 <= i < |next| ensures next[i].0 in post' || Touched(r.findings, node, next[i].0) {
      if i > 0 { assert next[i] == next[1..][i - 1]; }
    }
  }

  lemma FollowedNone(nodes: set<string>, E: Edges<string>, delayed: set<string>, node: string, w: Walk, post: seq<string>)
    requires Explored(nodes, E, delayed, w, post)
    ensures Followed(nodes, E, delayed, node, [], w, w, post, post)
  {
    hide Explored;
  }

  lemma LeadsRest(nodes: set<string>, E: Edges<string>, node: string, next: seq<(string, string)>)
    requires Leads(nodes, E, node, next)
    ensures forall k :: 0 <= k < |next| ==> next[k].0 in nodes
    ensures next != [] ==> (node, next[0].0) in E && Leads(nodes, E, node, next[1..])
  {
  }

  lemma {:induction false} VisitEachFacts(nodes: set<string>, adj: Adjacency, delayed: set<string>, node: string,
                                          next: seq<(string, string)>, w: Walk, post: seq<string>)
      returns (post': seq<string>)
    requires Closed(nodes, adj) && WalkOk(w) && Leads(nodes, AdjEdges(adj), node, next)
    requires Explored(nodes, AdjEdges(adj), delayed, w, post)
    requires w.stack != [] && w.stack[|w.stack| - 1] == node
    ensures forall k :: 0 <= k < |next| ==> next[k].0 in nodes
    ensures Followed(nodes, AdjEdges(adj), delayed, node, next, w, VisitEach(nodes, adj, delayed, next, w), post, post')
    decreases nodes - w.state.Keys, 2 + |next|
  {
    hide *;
    LeadsRest(nodes, AdjEdges(adj), node, next);
    VisitEachStep(nodes, adj, delayed, node, next, w);
    if next == [] {
      post' := post;
      FollowedNone(nodes, AdjEdges(adj), delayed, node, w, post);
    } else {
      var post1 := StepFacts(nodes, adj, delayed, node, next[0].0, next[0].1, w, post);
      var w' := Pass(nodes, adj, delayed, next[0].0, next[0].1, w);
      post' := VisitEachFacts(nodes, adj, delayed, node, next[1..], w', post1);
      FollowedStep(nodes, AdjEdges(adj), delayed, node, next, w, w', VisitEach(nodes, adj, delayed, next, w), post, post1, post');
    }
  }

  /** One wire out of the open block `node`: visit, report, or pass. */
  lemma {:induction false} StepFacts(nodes: set<string>, adj: Adjacency, delayed: set<string>, node: string, nxt: string, port: string,
                                     w: Walk, post: seq<string>) returns (post': seq<string>)
    requires Closed(nodes, adj) && WalkOk(w) && nxt in nodes && (node, nxt) in AdjEdges(adj)
    requires Explored(nodes, AdjEdges(adj), delayed, w, post)
    requires w.stack != [] && w.stack[|w.stack| - 1] == node
    ensures var w' := Pass(nodes, adj, delayed, nxt, port, w);
            && Explored(nodes, AdjEdges(adj), delayed, w', post') && WalkOk(w')
            && w'.stack == w.stack && w.state.Keys <= w'.state.Keys
            && post <= post' && w.findings <= w'.findings && (nxt in post' || Touched(w'.findings, node, nxt))
    decreases nodes - w.state.Keys, 1
  {
    ExploredOk(nodes, AdjEdges(adj), delayed, w, post);
    post' := post;
    if nxt !in w.state {
      post' := VisitFacts(nodes, adj, delayed, nxt, w, post);
    } else if w.state[nxt] == 1 {
      ReportFacts(nodes, AdjEdges(adj), delayed, nxt, port, w, post);
    }
  }

  lemma {:induction false} VisitAllFacts(nodes: set<string>, adj: Adjacency, delayed: set<string>, names: seq<string>, w: Walk, post: seq<string>)
      returns (post': seq<string>)
    requires Closed(nodes, adj) && Elements(names) <= nodes
    requires Explored(nodes, AdjEdges(adj), delayed, w, post) && w.stack == []
    ensures var r := VisitAll(nodes, adj, delayed, names, w);
            Explored(nodes, AdjEdges(adj), delayed, r, post') && post <= post' && forall x :: x in names ==> x in post'
  {
    if names == [] {
      post' := post;
    } else {
      var n := names[0];
      assert n in Elements(names);
      assert forall x :: x in names[1..] ==> x in Elements(names);
      assert names == [n] + names[1..];
      ExploredOk(nodes, AdjEdges(adj), delayed, w, post);
      hide Explored, AdjEdges, Closed, WalkOk;
      var w', post1 := w, post;
      if n !in w.state {
        post1 := VisitFacts(nodes, adj, delayed, n, w, post);
        w' := Visit(nodes, adj, delayed, n, w);
      }
      assert n in post1;
      assert VisitAll(nodes, adj, delayed, names, w) == VisitAll(nodes, adj, delayed, names[1..], w');
      hide VisitAll, Visit;
      post' := VisitAllFacts(nodes, adj, delayed, names[1..], w', post1);
    }
  }

  /** The findings of a whole check. */
  ghost function Findings(nodes: set<string>, adj: Adjacency, delayed: set<string>, names: seq<string>): seq<Finding>
    requires Closed(nodes, adj) && Elements(names) <= nodes
  {
    VisitAll(nodes, adj, delayed, names, START).findings
  }

  /** No finding exactly when the graph is acyclic; every ring reported once, and real; and without
      the wires inside reported rings nothing cyclic is left. */
  lemma LoopsFound(nodes: set<string>, adj: Adjacency, delayed: set<string>, names: seq<string>)
    requires Closed(nodes, adj) && Elements(names) == nodes
    ensures var E, F := AdjEdges(adj), Findings(nodes, adj, delayed, names);
            && (F == [] <==> !HasCycle(E))
            && !HasCycle(Unreported(E, F))
            && (forall f :: f in F ==> RealRing(E, delayed, f))
            && (forall i, j :: 0 <= i < j < |F| ==> Elements(F[i].ring) != Elements(F[j].ring))
  {
    var E := AdjEdges(adj);
    assert Explored(nodes, E, delayed, START, []);
    var post := VisitAllFacts(nodes, adj, delayed, names, START, []);
    var F := Findings(nodes, adj, delayed, names);
    assert Elements(post) == nodes by {
      forall x | x in nodes ensures x in post { assert x in Elements(names); }
    }
    FinishedHasNoCycle(nodes, Unreported(E, F), post);
    if F == [] {
      assert Unreported(E, F) == E;
    } else {
      assert RealRing(E, delayed, F[0]);
    }
  }

  /** Two rings share the two ends of a wire of the first. */
  ghost predicate Overlap(p: seq<string>, ring: seq<string>) {
    exists i :: 0 <= i < |p| - 1 && p[i] in ring && p[i + 1] in ring
  }

  /** Whatever cycle there is, some reported ring overlaps it. */
  lemma EveryLoopTouched(E: Edges<string>, findings: seq<Finding>, p: seq<string>)
    requires !HasCycle(Unreported(E, findings)) && IsCycle(E, p)
    ensures exists f :: f in findings && Overlap(p, f.ring)
  {
    assert !IsCycle(Unreported(E, findings), p);
    var i :| 0 <= i < |p| - 1 && (p[i], p[i + 1]) !in Unreported(E, findings);
    assert (p[i], p[i + 1]) in E;
    var f :| f in findings && p[i] in f.ring && p[i + 1] in f.ring;
  }

  /** A loop that comes back to its start and meets no other block twice. */
  ghost predicate SimpleLoop(E: Edges<string>, q: seq<string>) {
    IsCycle(E, q) && Distinct(q[1..])
  }

  /** A loop that no simple loop through a delay block overlaps. */
  ghost predicate Undelayed(E: Edges<string>, delayed: set<string>, p: seq<string>) {
    IsCycle(E, p) && forall q :: SimpleLoop(E, q) && Overlap(p, q) ==> Elements(q) * delayed == {}
  }

  ghost predicate ErrorOn(findings: seq<Finding>, p: seq<string>) {
    exists f :: f in findings && f.severity == Error && Overlap(p, f.ring)
  }

  /** Such a loop leads to an error on a ring that overlaps it. */
  lemma ErrorsComplete(E: Edges<string>, delayed: set<string>, findings: seq<Finding>, p: seq<string>)
    requires !HasCycle(Unreported(E, findings)) && forall f :: f in findings ==> RealRing(E, delayed, f)
    requires Undelayed(E, delayed, p)
    ensures ErrorOn(findings, p)
  {
    hide *;
    UndelayedLoop(E, delayed, p, p);
    EveryLoopTouched(E, findings, p);
    var f :| f in findings && Overlap(p, f.ring);
    ClosedRing(E, delayed, f, p);
    UndelayedLoop(E, delayed, p, f.ring + [f.ring[0]]);
    ErrorFound(findings, f, p);
  }

  lemma ErrorFound(findings: seq<Finding>, f: Finding, p: seq<string>)
    requires f in findings && f.severity == Error && Overlap(p, f.ring)
    ensures ErrorOn(findings, p)
  {
  }

  lemma UndelayedLoop(E: Edges<string>, delayed: set<string>, p: seq<string>, q: seq<string>)
    requires Undelayed(E, delayed, p)
    ensures IsCycle(E, p) && (SimpleLoop(E, q) && Overlap(p, q) ==> Elements(q) * delayed == {})
  {
  }

  lemma ClosedRing(E: Edges<string>, delayed: set<string>, f: Finding, p: seq<string>)
    requires RealRing(E, delayed, f) && Overlap(p, f.ring)
    ensures f.ring != [] && SimpleLoop(E, f.ring + [f.ring[0]]) && Overlap(p, f.ring + [f.ring[0]])
    ensures Elements(f.ring + [f.ring[0]]) * delayed == {} ==> f.severity == Error
  {
    hide IsCycle;
    var q := f.ring + [f.ring[0]];
    var i :| 0 <= i < |p| - 1 && p[i] in f.ring && p[i + 1] in f.ring;
    assert p[i] in q && p[i + 1] in q;
    assert Elements(f.ring) <= Elements(q);
    assert q[1..] == f.ring[1..] + [f.ring[0]];
    forall j, k | 0 <= j < k < |q[1..]| ensures q[1..][j] != q[1..][k] {
      assert q[1..][j] == f.ring[j + 1];
    }
  }
}
