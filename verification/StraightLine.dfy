/**
 * The statements of a generated program body and what running them means. A body whose every
 * location is written once, and read only after that, computes the unique solution of its own
 * statements read as equations.
 */
module StraightLine {
  datatype Expr =
    | Name(name: string)                    // a variable
    | Lit(text: string)                     // a literal, as written
    | Builtin(text: string)                 // a builtin call such as CycleCounter()
    | Field(block: string, port: string)    // an output pin of an instance

  datatype Stmt =
    | Call(block: string, args: seq<(string, Expr)>)
    | Assign(target: string, value: Expr)

  /** Variables, and for every function-block instance its fields (pins and internal state). */
  datatype Store<V> = Store(vars: map<string, V>, insts: map<string, map<string, V>>)

  /** What the body does not fix: the block algorithms, literal values, builtins, unset reads. */
  datatype Machine<!V> = Machine(run: (string, map<string, V>) -> map<string, V>,
                                 lit: string -> V, builtin: string -> V, unset: V)

  datatype Loc = VarLoc(name: string) | InstLoc(block: string)

  function Eval<V>(m: Machine<V>, st: Store<V>, e: Expr): V {
    match e
    case Name(n) => if n in st.vars then st.vars[n] else m.unset
    case Lit(text) => m.lit(text)
    case Builtin(text) => m.builtin(text)
    case Field(b, p) => if b in st.insts && p in st.insts[b] then st.insts[b][p] else m.unset
  }

  /** Arguments are stored into the instance from left to right. */
  function Overlay<V>(m: Machine<V>, st: Store<V>, fields: map<string, V>, args: seq<(string, Expr)>): map<string, V> {
    if args == [] then fields
    else Overlay(m, st, fields, args[..|args| - 1])[args[|args| - 1].0 := Eval(m, st, args[|args| - 1].1)]
  }

  function FieldsOf<V>(st: Store<V>, b: string): map<string, V> {
    if b in st.insts then st.insts[b] else map[]
  }

  /** The fields a call leaves: old fields from `before`, arguments evaluated in `st`. */
  function CallResult<V>(m: Machine<V>, before: Store<V>, st: Store<V>, b: string, args: seq<(string, Expr)>): map<string, V> {
    m.run(b, Overlay(m, st, FieldsOf(before, b), args))
  }

  function Exec<V>(m: Machine<V>, st: Store<V>, s: Stmt): Store<V> {
    match s
    case Call(b, args) => st.(insts := st.insts[b := CallResult(m, st, st, b, args)])
    case Assign(x, e) => st.(vars := st.vars[x := Eval(m, st, e)])
  }

  function ExecAll<V>(m: Machine<V>, st: Store<V>, prog: seq<Stmt>): Store<V> {
    if prog == [] then st
    else Exec(m, ExecAll(m, st, prog[..|prog| - 1]), prog[|prog| - 1])
  }

  function Target(s: Stmt): Loc {
    match s
    case Call(b, _) => InstLoc(b)
    case Assign(x, _) => VarLoc(x)
  }

  function ExprReads(e: Expr): set<Loc> {
    match e
    case Name(n) => {VarLoc(n)}
    case Field(b, _) => {InstLoc(b)}
    case _ => {}
  }

  ghost function Reads(s: Stmt): set<Loc> {
    match s
    case Call(_, args) => set i, l | 0 <= i < |args| && l in ExprReads(args[i].1) :: l
    case Assign(_, e) => ExprReads(e)
  }

  ghost predicate SingleAssignment(prog: seq<Stmt>) {
    forall i, j :: 0 <= i < j < |prog| ==> Target(prog[i]) != Target(prog[j])
  }

  /** What a statement reads is not written by it or by any later statement. */
  ghost predicate DependencyOrdered(prog: seq<Stmt>) {
    forall i, j :: 0 <= i <= j < |prog| ==> Target(prog[j]) !in Reads(prog[i])
  }

  ghost predicate Same<V>(a: Store<V>, b: Store<V>, l: Loc) {
    match l
    case VarLoc(x) => (x in a.vars <==> x in b.vars) && (x in a.vars ==> a.vars[x] == b.vars[x])
    case InstLoc(x) => (x in a.insts <==> x in b.insts) && (x in a.insts ==> a.insts[x] == b.insts[x])
  }

  /** A statement read as an equation on the final store `end`. */
  ghost predicate Holds<V>(m: Machine<V>, start: Store<V>, end: Store<V>, s: Stmt) {
    match s
    case Call(b, args) => b in end.insts && end.insts[b] == CallResult(m, start, end, b, args)
    case Assign(x, e) => x in end.vars && end.vars[x] == Eval(m, end, e)
  }

  ghost predicate Solves<V>(m: Machine<V>, start: Store<V>, end: Store<V>, prog: seq<Stmt>) {
    && (forall s :: s in prog ==> Holds(m, start, end, s))
    && (forall l :: (forall s :: s in prog ==> Target(s) != l) ==> Same(start, end, l))
  }

  // ---------- framing ----------

  lemma SameEval<V>(m: Machine<V>, a: Store<V>, b: Store<V>, e: Expr)
    requires forall l :: l in ExprReads(e) ==> Same(a, b, l)
    ensures Eval(m, a, e) == Eval(m, b, e)
  {
    match e
    case Name(n) => assert VarLoc(n) in ExprReads(e);
    case Field(i, p) => assert InstLoc(i) in ExprReads(e);
    case _ =>
  }

  lemma {:induction false} SameOverlay<V>(m: Machine<V>, a: Store<V>, b: Store<V>, fields: map<string, V>, args: seq<(string, Expr)>)
    requires forall i, l :: 0 <= i < |args| && l in ExprReads(args[i].1) ==> Same(a, b, l)
    ensures Overlay(m, a, fields, args) == Overlay(m, b, fields, args)
  {
    if args != [] {
      SameOverlay(m, a, b, fields, args[..|args| - 1]);
      SameEval(m, a, b, args[|args| - 1].1);
    }
  }

  /** The equation of `s` looks at its reads, its target, and the target's start value only. */
  lemma HoldsDepends<V>(m: Machine<V>, start: Store<V>, a: Store<V>, b: Store<V>, s: Stmt)
    requires forall l :: l in Reads(s) ==> Same(a, b, l)
    requires Same(a, b, Target(s))
    ensures Holds(m, start, a, s) ==> Holds(m, start, b, s)
  {
    match s
    case Call(x, args) =>
      forall i, l | 0 <= i < |args| && l in ExprReads(args[i].1) ensures Same(a, b, l) {
        assert l in Reads(s);
      }
      SameOverlay(m, a, b, FieldsOf(start, x), args);
    case Assign(x, e) => SameEval(m, a, b, e);
  }

  lemma {:induction false} Unwritten<V>(m: Machine<V>, st: Store<V>, prog: seq<Stmt>, l: Loc)
    requires forall i :: 0 <= i < |prog| ==> Target(prog[i]) != l
    ensures Same(st, ExecAll(m, st, prog), l)
  {
    if prog != [] {
      Unwritten(m, st, prog[..|prog| - 1], l);
      assert Target(prog[|prog| - 1]) != l;
    }
  }

  /** Running one more statement satisfies its own equation. */
  lemma ExecHolds<V>(m: Machine<V>, start: Store<V>, st: Store<V>, s: Stmt)
    requires Target(s) !in Reads(s) && Same(start, st, Target(s))
    ensures Holds(m, start, Exec(m, st, s), s)
  {
    var st' := Exec(m, st, s);
    forall l | l in Reads(s) ensures Same(st, st', l) {}
    match s
    case Call(x, args) =>
      assert FieldsOf(start, x) == FieldsOf(st, x);
      forall i, l | 0 <= i < |args| && l in ExprReads(args[i].1) ensures Same(st, st', l) {
        assert l in Reads(s);
      }
      SameOverlay(m, st, st', FieldsOf(st, x), args);
    case Assign(x, e) => SameEval(m, st, st', e);
  }

  // ---------- the theorem ----------

  lemma {:induction false} ExecSolvesEach<V>(m: Machine<V>, start: Store<V>, prog: seq<Stmt>, i: nat)
    requires SingleAssignment(prog) && DependencyOrdered(prog) && i < |prog|
    ensures Holds(m, start, ExecAll(m, start, prog), prog[i])
  {
    var n := |prog| - 1;
    var st := ExecAll(m, start, prog[..n]);
    if i == n {
      Unwritten(m, start, prog[..n], Target(prog[n]));
      ExecHolds(m, start, st, prog[n]);
    } else {
      ExecSolvesEach(m, start, prog[..n], i);
      var end := ExecAll(m, start, prog);
      assert prog[..n][i] == prog[i];
      forall l | l in Reads(prog[i]) || l == Target(prog[i]) ensures Same(st, end, l) {
        assert Target(prog[n]) != l;
      }
      HoldsDepends(m, start, st, end, prog[i]);
    }
  }

  lemma ExecSolves<V>(m: Machine<V>, start: Store<V>, prog: seq<Stmt>)
    requires SingleAssignment(prog) && DependencyOrdered(prog)
    ensures Solves(m, start, ExecAll(m, start, prog), prog)
  {
    var end := ExecAll(m, start, prog);
    forall s | s in prog ensures Holds(m, start, end, s) {
      var i :| 0 <= i < |prog| && prog[i] == s;
      ExecSolvesEach(m, start, prog, i);
    }
    forall l | forall s :: s in prog ==> Target(s) != l ensures Same(start, end, l) {
      Unwritten(m, start, prog, l);
    }
  }

  /** Two solutions agree on every location the first `k` statements write. */
  lemma {:induction false} SolutionsAgree<V>(m: Machine<V>, start: Store<V>, a: Store<V>, b: Store<V>, prog: seq<Stmt>, k: nat)
    requires SingleAssignment(prog) && DependencyOrdered(prog) && k <= |prog|
    requires Solves(m, start, a, prog) && Solves(m, start, b, prog)
    ensures forall i :: 0 <= i < k ==> Same(a, b, Target(prog[i]))
  {
    if k > 0 {
      SolutionsAgree(m, start, a, b, prog, k - 1);
      var s := prog[k - 1];
      forall l | l in Reads(s) ensures Same(a, b, l) {
        ReadAgrees(m, start, a, b, prog, k - 1, l);
      }
      assert Holds(m, start, a, s) && Holds(m, start, b, s);
      match s
      case Call(x, args) =>
        forall i, l | 0 <= i < |args| && l in ExprReads(args[i].1) ensures Same(a, b, l) {
          assert l in Reads(s);
        }
        SameOverlay(m, a, b, FieldsOf(start, x), args);
      case Assign(x, e) => SameEval(m, a, b, e);
    }
  }

  /** A location statement `k` reads was written before, or is written nowhere. */
  lemma ReadAgrees<V>(m: Machine<V>, start: Store<V>, a: Store<V>, b: Store<V>, prog: seq<Stmt>, k: nat, l: Loc)
    requires DependencyOrdered(prog) && k < |prog| && l in Reads(prog[k])
    requires Solves(m, start, a, prog) && Solves(m, start, b, prog)
    requires forall i :: 0 <= i < k ==> Same(a, b, Target(prog[i]))
    ensures Same(a, b, l)
  {
    if s :| s in prog && Target(s) == l {
      var j :| 0 <= j < |prog| && prog[j] == s;
      assert j < k;
    } else {
      assert Same(start, a, l) && Same(start, b, l);
    }
  }

  lemma SameEverywhere<V>(a: Store<V>, b: Store<V>)
    requires forall l :: Same(a, b, l)
    ensures a == b
  {
    forall x ensures x in a.vars <==> x in b.vars { assert Same(a, b, VarLoc(x)); }
    forall x | x in a.vars ensures a.vars[x] == b.vars[x] { assert Same(a, b, VarLoc(x)); }
    forall x ensures x in a.insts <==> x in b.insts { assert Same(a, b, InstLoc(x)); }
    forall x | x in a.insts ensures a.insts[x] == b.insts[x] { assert Same(a, b, InstLoc(x)); }
    assert a.vars == b.vars && a.insts == b.insts;
  }

  /** Running the body gives the one and only store that satisfies all its equations. */
  lemma UniqueSolution<V>(m: Machine<V>, start: Store<V>, prog: seq<Stmt>, end: Store<V>)
    requires SingleAssignment(prog) && DependencyOrdered(prog)
    ensures Solves(m, start, end, prog) <==> end == ExecAll(m, start, prog)
  {
    var final := ExecAll(m, start, prog);
    ExecSolves(m, start, prog);
    if Solves(m, start, end, prog) {
      SolutionsAgree(m, start, end, final, prog, |prog|);
      forall l ensures Same(end, final, l) {
        if s :| s in prog && Target(s) == l {
          var j :| 0 <= j < |prog| && prog[j] == s;
        } else {
          assert Same(start, end, l) && Same(start, final, l);
        }
      }
      SameEverywhere(end, final);
    }
  }
}
