/** How the generator writes names, literals, expressions and statements. */
module StText {
  import opened Charts
  import opened StraightLine

  function Digit(d: nat): char
    requires d < 10
  {
    ['0', '1', '2', '3', '4', '5', '6', '7', '8', '9'][d]
  }

  function NatText(n: nat): string {
    if n < 10 then [Digit(n)] else NatText(n / 10) + [Digit(n % 10)]
  }

  /** `str` of an integer. */
  function IntText(n: int): string {
    if n < 0 then "-" + NatText(-n) else NatText(n)
  }

  function Quoted(s: string): string {
    "'" + s + "'"
  }

  /** `_literal`: a constant folded into the argument it is wired to. */
  function LiteralText(value: Literal, typ: string): string {
    match value
    case BoolLit(b) => if b then "TRUE" else "FALSE"
    case StrLit(s) => Quoted(s)
    case IntLit(n) => if typ == "STRING" then Quoted(IntText(n)) else IntText(n)
    case FloatLit(digits) => if typ == "STRING" then Quoted(digits) else digits
  }

  /** `_parameter_text`: a block parameter. */
  function ParameterText(value: Literal): string {
    match value
    case BoolLit(b) => if b then "TRUE" else "FALSE"
    case StrLit(s) => Quoted(s)
    case IntLit(n) => IntText(n)
    case FloatLit(digits) => digits
  }

  /** `sep.join(parts)`. */
  function Join(sep: string, parts: seq<string>): string {
    if parts == [] then ""
    else if |parts| == 1 then parts[0]
    else parts[0] + sep + Join(sep, parts[1..])
  }

  function Declaration(name: string, typ: string): string {
    "    " + name + " : " + typ + ";"
  }

  function RenderExpr(e: Expr): string {
    match e
    case Name(n) => n
    case Lit(text) => text
    case Builtin(text) => text
    case Field(b, p) => b + "." + p
  }

  function RenderArg(a: (string, Expr)): string {
    a.0 + " := " + RenderExpr(a.1)
  }

  function RenderArgs(args: seq<(string, Expr)>): seq<string> {
    seq(|args|, i requires 0 <= i < |args| => RenderArg(args[i]))
  }

  function Render(s: Stmt): string {
    match s
    case Call(b, args) => b + "(" + Join(", ", RenderArgs(args)) + ");"
    case Assign(x, e) => x + " := " + RenderExpr(e) + ";"
  }

  function RenderAll(prog: seq<Stmt>): seq<string> {
    seq(|prog|, i requires 0 <= i < |prog| => Render(prog[i]))
  }

  lemma RenderArgsAppend(args: seq<(string, Expr)>, a: (string, Expr))
    ensures RenderArgs(args + [a]) == RenderArgs(args) + [RenderArg(a)]
  {
  }

  lemma RenderAllAppend(prog: seq<Stmt>, s: Stmt)
    ensures RenderAll(prog + [s]) == RenderAll(prog) + [Render(s)]
  {
  }

  lemma RenderAllConcat(a: seq<Stmt>, b: seq<Stmt>)
    ensures RenderAll(a + b) == RenderAll(a) + RenderAll(b)
  {
  }
}
