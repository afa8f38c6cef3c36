/** `st_to_graph.py`: the text of a program read back, line by line, into a chart. */
module StParser {
  import opened Charts
  import opened Results
  import opened Strings

  datatype Section = Outside | InVar | InInput | InOutput | InInOut

  /** A block as the parser knows it: parameters are a dictionary. */
  datatype PBlock = PBlock(id: string, typ: string, parameters: map<string, Literal>)

  /** What has been read so far. `done` is set by END_PROGRAM. */
  datatype Reading = Reading(name: Option<string>, section: Section, inputs: seq<(string, string)>,
                             outputs: seq<(string, string)>, inOuts: seq<(string, string)>, blocks: seq<PBlock>,
                             connections: seq<Connection>, done: bool)

  const NOTHING_READ := Reading(None, Outside, [], [], [], [], [], false)

  // ---------- numbers ----------

  /** The longest run of digits at the front, single underscores allowed in between. */
  function DigitLen(s: string): (n: nat)
    ensures n <= |s|
  {
    if s == [] || !IsDigit(s[0]) then 0
    else if |s| > 1 && IsDigit(s[1]) then 1 + DigitLen(s[1..])
    else if |s| > 2 && s[1] == '_' && IsDigit(s[2]) then 2 + DigitLen(s[2..])
    else 1
  }

  predicate IsSign(c: char) {
    c == '+' || c == '-'
  }

  function Unsigned(s: string): string {
    if s != [] && IsSign(s[0]) then s[1..] else s
  }

  predicate IsExponent(s: string) {
    && s != [] && (s[0] == 'e' || s[0] == 'E')
    && var d := Unsigned(s[1..]); d != [] && DigitLen(d) == |d|
  }

  predicate IsDecimal(s: string) {
    var n := DigitLen(s);
    var r := s[n..];
    if r == [] then n > 0
    else if r[0] == '.' then
      var k := DigitLen(r[1..]);
      (n > 0 || k > 0) && (r[1 + k..] == [] || IsExponent(r[1 + k..]))
    else n > 0 && IsExponent(r)
  }

  function Lower(s: string): (r: string)
    ensures |r| == |s|
  {
    seq(|s|, i requires 0 <= i < |s| => if 'A' <= s[i] <= 'Z' then ((s[i] as int) + 32) as char else s[i])
  }

  /** The texts `float` accepts. */
  predicate IsFloatText(s: string) {
    var u := Unsigned(Strip(s));
    Lower(u) in ["inf", "infinity", "nan"] || IsDecimal(u)
  }

  /** The texts `int` accepts. */
  predicate IsIntText(s: string) {
    var u := Unsigned(Strip(s));
    u != [] && DigitLen(u) == |u|
  }

  function DigitsValue(s: string): nat {
    if s == [] then 0
    else if IsDigit(s[|s| - 1]) then 10 * DigitsValue(s[..|s| - 1]) + (s[|s| - 1] as int - '0' as int)
    else DigitsValue(s[..|s| - 1])
  }

  function IntValue(s: string): int {
    var t := Strip(s);
    if t != [] && t[0] == '-' then 0 - DigitsValue(t[1..]) else DigitsValue(Unsigned(t))
  }

  // ---------- literals and references ----------

  predicate IsQuoted(s: string) {
    s != [] && s[0] == '\'' && s[|s| - 1] == '\''
  }

  /** `_is_literal`. */
  predicate IsLiteral(value: string) {
    var v := Strip(value);
    IsQuoted(v) || v == "TRUE" || v == "FALSE" || IsFloatText(v)
  }

  /** `_parse_literal`. */
  function ParseLiteral(value: string): Literal {
    var v := Strip(value);
    if IsQuoted(v) then StrLit(if |v| < 2 then "" else v[1..|v| - 1])
    else if v == "TRUE" then BoolLit(true)
    else if v == "FALSE" then BoolLit(false)
    else if Contains(v, ".") then if IsFloatText(v) then FloatLit(v) else StrLit(v)
    else if IsIntText(v) then IntLit(IntValue(v))
    else StrLit(v)
  }

  /** `_parse_reference`. */
  function ParseReference(value: string): Endpoint {
    var v := Strip(value);
    var i := Strings.Find(v, ".");
    if i >= 0 then Endpoint(v[..i], v[i + 1..]) else Endpoint(INTERFACE, v)
  }

  // ---------- arguments ----------

  /** The arguments at bracket depth 0, each stripped; an empty last one is dropped. */
  function SplitTop(s: string, cur: string, depth: int): seq<string>
    decreases |s|
  {
    if s == [] then if Strip(cur) != [] then [Strip(cur)] else []
    else if s[0] == '(' then SplitTop(s[1..], cur + [s[0]], depth + 1)
    else if s[0] == ')' then SplitTop(s[1..], cur + [s[0]], depth - 1)
    else if s[0] == ',' && depth == 0 then [Strip(cur)] + SplitTop(s[1..], "", 0)
    else SplitTop(s[1..], cur + [s[0]], depth)
  }

  /** A dictionary entry, in insertion order. */
  function SetArg(args: seq<(string, string)>, k: string, v: string): seq<(string, string)> {
    if args == [] then [(k, v)]
    else if args[0].0 == k then [(k, v)] + args[1..]
    else [args[0]] + SetArg(args[1..], k, v)
  }

  function TakeArg(args: seq<(string, string)>, part: string): seq<(string, string)> {
    var i := Strings.Find(part, ":=");
    if i < 0 then args else SetArg(args, Strip(part[..i]), Strip(part[i + 2..]))
  }

  function TakeArgs(parts: seq<string>): seq<(string, string)> {
    if parts == [] then [] else TakeArg(TakeArgs(parts[..|parts| - 1]), parts[|parts| - 1])
  }

  /** `_parse_args`. */
  function ArgsOf(s: string): seq<(string, string)> {
    if Strip(s) == [] then [] else TakeArgs(SplitTop(s, "", 0))
  }

  // ---------- the three line patterns ----------

  /** `(\w+)\s*:\s*(\w+);` at the start of the line. */
  function MatchDeclaration(line: string): Option<(string, string)> {
    var n := WordLen(line);
    var r := Lstrip(line[n..]);
    if n == 0 || r == [] || r[0] != ':' then None
    else
      var t := Lstrip(r[1..]);
      var k := WordLen(t);
      if k == 0 || k == |t| || t[k] != ';' then None else Some((line[..n], t[..k]))
  }

  /** `(\w+)\((.*)\);` at the start of the line, the bracketed part as long as possible. */
  function MatchCall(line: string): Option<(string, string)> {
    var n := WordLen(line);
    if n == 0 || n == |line| || line[n] != '(' then None
    else
      var r := line[n + 1..];
      var i := FindLast(r, ");");
      if i < 0 then None else Some((line[..n], r[..i]))
  }

  /** `(\w+)\s*:=\s*(.+);` at the start of the line; the value is stripped. */
  function MatchAssign(line: string): Option<(string, string)> {
    var n := WordLen(line);
    var r := Lstrip(line[n..]);
    if n == 0 || |r| < 2 || r[..2] != ":=" then None
    else
      var i := FindLast(r[2..], ";");
      if i < 1 then None else Some((line[..n], Strip(r[2..][..i])))
  }

  // ---------- one line ----------

  function Token(s: string): string {
    if s == [] || IsSpace(s[0]) then [] else [s[0]] + Token(s[1..])
  }

  /** The parameter goes to the first block of that name, if there is one. */
  function SetParameter(blocks: seq<PBlock>, id: string, k: string, v: Literal): seq<PBlock> {
    if blocks == [] then []
    else if blocks[0].id == id then [blocks[0].(parameters := blocks[0].parameters[k := v])] + blocks[1..]
    else [blocks[0]] + SetParameter(blocks[1..], id, k, v)
  }

  function TakeCallArg(st: Reading, id: string, arg: (string, string)): Reading {
    if IsLiteral(arg.1) then st.(blocks := SetParameter(st.blocks, id, arg.0, ParseLiteral(arg.1)))
    else st.(connections := st.connections + [Connection(ParseReference(arg.1), Endpoint(id, arg.0))])
  }

  function TakeCall(st: Reading, id: string, args: seq<(string, string)>): Reading {
    if args == [] then st else TakeCallArg(TakeCall(st, id, args[..|args| - 1]), id, args[|args| - 1])
  }

  function TakeAssign(st: Reading, target: string, source: string): Reading {
    var i := Strings.Find(source, ".");
    var src := if i >= 0 then Endpoint(source[..i], source[i + 1..]) else Endpoint(INTERFACE, source);
    st.(connections := st.connections + [Connection(src, Endpoint(INTERFACE, target))])
  }

  function TakeDeclaration(st: Reading, d: (string, string)): Reading {
    match st.section
    case InVar => st.(blocks := st.blocks + [PBlock(d.0, d.1, map[])])
    case InInput => st.(inputs := st.inputs + [d])
    case InOutput => st.(outputs := st.outputs + [d])
    case InInOut => st.(inOuts := st.inOuts + [d])
    case Outside => st
  }

  function TakeLine(st: Reading, raw: string): Reading {
    var line := Strip(raw);
    if "PROGRAM " <= line then st.(name := Some(Token(Lstrip(line[8..]))), section := Outside)
    else if line == "VAR" then st.(section := InVar)
    else if line == "VAR_INPUT" then st.(section := InInput)
    else if line == "VAR_OUTPUT" then st.(section := InOutput)
    else if line == "VAR_IN_OUT" then st.(section := InInOut)
    else if line == "END_VAR" then st.(section := Outside)
    else if line == "END_PROGRAM" then st.(done := true)
    else if st.section != Outside && Contains(line, ":") then
      match MatchDeclaration(line)
      case None => st
      case Some(d) => TakeDeclaration(st, d)
    else if Contains(line, "(") && Contains(line, ");") && st.section == Outside then
      match MatchCall(line)
      case None => st
      case Some((id, args)) => TakeCall(st, id, ArgsOf(args))
    else if Contains(line, ":=") && st.section == Outside then
      match MatchAssign(line)
      case None => st
      case Some((target, source)) => TakeAssign(st, target, source)
    else st
  }

  function TakeLines(st: Reading, lines: seq<string>): Reading
    decreases |lines|
  {
    if lines == [] || st.done then st else TakeLines(TakeLine(st, lines[0]), lines[1..])
  }

  function ProgramName(st: Reading): string {
    if st.name == None then "UNKNOWN" else st.name.value
  }

  // ---------- the loops ----------

  /** The character loop of `_parse_args`: a comma outside all brackets ends an argument. */
  method SplitArgs(s: string) returns (parts: seq<string>)
    ensures parts == SplitTop(s, "", 0)
  {
    hide Strip;
    var current, depth: int := "", 0;
    parts := [];
    assert s[0..] == s;
    for i := 0 to |s|
      invariant parts + SplitTop(s[i..], current, depth) == SplitTop(s, "", 0)
    {
      assert s[i..][1..] == s[i + 1..];
      var c := s[i];
      if c == '(' {
        depth, current := depth + 1, current + [c];
      } else if c == ')' {
        depth, current := depth - 1, current + [c];
      } else if c == ',' && depth == 0 {
        parts, current := parts + [Strip(current)], "";
      } else {
        current := current + [c];
      }
    }
    assert s[|s|..] == [] && parts + [] == parts;
    if Strip(current) != [] { parts := parts + [Strip(current)]; }
  }

  /** `_parse_args`: the loop that fills the dictionary. */
  method ParseArgs(s: string) returns (args: seq<(string, string)>)
    ensures args == ArgsOf(s)
  {
    hide Strip, Find, SetArg, SplitTop;
    args := [];
    if Strip(s) == [] { return; }
    var parts := SplitArgs(s);
    for i := 0 to |parts|
      invariant args == TakeArgs(parts[..i])
    {
      assert parts[..i + 1][..i] == parts[..i];
      var at := Find(parts[i], ":=");
      if at >= 0 {
        args := Enter(args, Strip(parts[i][..at]), Strip(parts[i][at + 2..]));
      }
    }
    assert parts[..|parts|] == parts;
  }

  /** A dictionary entry: in place of the entry of the same key, or behind the others. */
  method Enter(args: seq<(string, string)>, k: string, v: string) returns (r: seq<(string, string)>)
    ensures r == SetArg(args, k, v)
  {
    for i := 0 to |args|
      invariant forall j :: 0 <= j < i ==> args[j].0 != k
    {
      if args[i].0 == k {
        SetArgAt(args, i, k, v);
        return args[i := (k, v)];
      }
    }
    SetArgNew(args, k, v);
    return args + [(k, v)];
  }

  lemma {:induction false} SetArgAt(args: seq<(string, string)>, i: nat, k: string, v: string)
    requires i < |args| && args[i].0 == k && forall j :: 0 <= j < i ==> args[j].0 != k
    ensures SetArg(args, k, v) == args[i := (k, v)]
  {
    if i > 0 {
      SetArgAt(args[1..], i - 1, k, v);
      assert args[i := (k, v)] == [args[0]] + args[1..][i - 1 := (k, v)];
    } else {
      assert args[0 := (k, v)] == [(k, v)] + args[1..];
    }
  }

  lemma {:induction false} SetArgNew(args: seq<(string, string)>, k: string, v: string)
    requires forall j :: 0 <= j < |args| ==> args[j].0 != k
    ensures SetArg(args, k, v) == args + [(k, v)]
  {
    if args != [] {
      SetArgNew(args[1..], k, v);
      assert args == [args[0]] + args[1..];
    }
  }

  /** `_is_literal`. */
  method HoldsLiteral(text: string) returns (yes: bool)
    ensures yes == IsLiteral(text)
  {
    hide Strip, IsFloatText;
    var value := Strip(text);
    if ['\''] <= value && value[|value| - 1] == '\'' { return true; }
    if value == "TRUE" || value == "FALSE" { return true; }
    return IsFloatText(value);
  }

  /** `_parse_literal`. */
  method LiteralOf(text: string) returns (l: Literal)
    ensures l == ParseLiteral(text)
  {
    hide Strip, IsFloatText, IsIntText, IntValue, Contains;
    var value := Strip(text);
    if ['\''] <= value && value[|value| - 1] == '\'' {
      if |value| == 1 { return StrLit(""); }
      return StrLit(value[1..|value| - 1]);
    }
    if value == "TRUE" { return BoolLit(true); }
    if value == "FALSE" { return BoolLit(false); }
    if Contains(value, ".") {
      if IsFloatText(value) { return FloatLit(value); }
      return StrLit(value);
    }
    if IsIntText(value) { return IntLit(IntValue(value)); }
    return StrLit(value);
  }

  /** A parsed call: literals become parameters of the block, the other arguments wires. */
  method ReadCall(st0: Reading, id: string, args: seq<(string, string)>) returns (st: Reading)
    ensures st == TakeCall(st0, id, args)
  {
    hide IsLiteral, ParseLiteral, ParseReference;
    st := st0;
    for i := 0 to |args|
      invariant st == TakeCall(st0, id, args[..i])
    {
      assert args[..i + 1][..i] == args[..i];
      var (name, value) := args[i];
      var literal := HoldsLiteral(value);
      if literal {
        var parsed := LiteralOf(value);
        var blocks := GiveParameter(st.blocks, id, name, parsed);
        st := st.(blocks := blocks);
      } else {
        var src := ParseReference(value);
        st := st.(connections := st.connections + [Connection(src, Endpoint(id, name))]);
      }
    }
    assert args[..|args|] == args;
  }

  /** `next((b for b in blocks if b["id"] == block_id), None)`, and the entry into its parameters. */
  method GiveParameter(blocks: seq<PBlock>, id: string, k: string, v: Literal) returns (r: seq<PBlock>)
    ensures r == SetParameter(blocks, id, k, v)
  {
    for i := 0 to |blocks|
      invariant forall j :: 0 <= j < i ==> blocks[j].id != id
    {
      if blocks[i].id == id {
        SetParameterAt(blocks, i, k, v);
        return blocks[i := blocks[i].(parameters := blocks[i].parameters[k := v])];
      }
    }
    SetParameterNone(blocks, id, k, v);
    return blocks;
  }

  lemma {:induction false} SetParameterAt(blocks: seq<PBlock>, j: nat, k: string, v: Literal)
    requires j < |blocks| && forall i :: 0 <= i < j ==> blocks[i].id != blocks[j].id
    ensures SetParameter(blocks, blocks[j].id, k, v) ==
            blocks[j := blocks[j].(parameters := blocks[j].parameters[k := v])]
    decreases j
  {
    if j > 0 {
      SetParameterAt(blocks[1..], j - 1, k, v);
      assert blocks == [blocks[0]] + blocks[1..];
    }
  }

  lemma {:induction false} SetParameterNone(blocks: seq<PBlock>, id: string, k: string, v: Literal)
    requires forall j :: 0 <= j < |blocks| ==> blocks[j].id != id
    ensures SetParameter(blocks, id, k, v) == blocks
  {
    if blocks != [] {
      SetParameterNone(blocks[1..], id, k, v);
      assert blocks == [blocks[0]] + blocks[1..];
    }
  }

  /** One turn of the line loop. */
  method ReadLine(st0: Reading, raw: string) returns (st: Reading)
    ensures st == TakeLine(st0, raw)
  {
    hide Strip, MatchCall, MatchAssign, MatchDeclaration, ArgsOf, Contains, TakeCall, Token, Lstrip, Find;
    st := st0;
    var line := Strip(raw);
    if |line| >= 8 && line[..8] == "PROGRAM " {
      st := st.(name := Some(Token(Lstrip(line[8..]))), section := Outside);
    } else if line == "VAR" {
      st := st.(section := InVar);
    } else if line == "VAR_INPUT" {
      st := st.(section := InInput);
    } else if line == "VAR_OUTPUT" {
      st := st.(section := InOutput);
    } else if line == "VAR_IN_OUT" {
      st := st.(section := InInOut);
    } else if line == "END_VAR" {
      st := st.(section := Outside);
    } else if line == "END_PROGRAM" {
      st := st.(done := true);
    } else if st.section == InVar && Contains(line, ":") {
      var d := MatchDeclaration(line);
      if d.Some? { st := st.(blocks := st.blocks + [PBlock(d.value.0, d.value.1, map[])]); }
    } else if st.section != Outside && Contains(line, ":") {
      var d := MatchDeclaration(line);
      if d.Some? {
        if st.section == InInput { st := st.(inputs := st.inputs + [d.value]); }
        else if st.section == InOutput { st := st.(outputs := st.outputs + [d.value]); }
        else { st := st.(inOuts := st.inOuts + [d.value]); }
      }
    } else if Contains(line, "(") && Contains(line, ");") && st.section == Outside {
      var d := MatchCall(line);
      if d.Some? {
        var args := ParseArgs(d.value.1);
        st := ReadCall(st, d.value.0, args);
      }
    } else if Contains(line, ":=") && st.section == Outside {
      var d := MatchAssign(line);
      if d.Some? {
        var (port, source) := d.value;
        var i := Strings.Find(source, ".");
        var src := Endpoint(INTERFACE, source);
        if i >= 0 { src := Endpoint(source[..i], source[i + 1..]); }
        st := st.(connections := st.connections + [Connection(src, Endpoint(INTERFACE, port))]);
      }
    }
  }

  /** `parse_st_to_graph`. */
  method ParseSt(code: string) returns (st: Reading)
    ensures st == TakeLines(NOTHING_READ, Split(Strip(code), '\n'))
  {
    hide Strip, Split, TakeLine;
    var lines := Split(Strip(code), '\n');
    st := NOTHING_READ;
    var i := 0;
    while i < |lines| && !st.done
      invariant i <= |lines| && TakeLines(st, lines[i..]) == TakeLines(NOTHING_READ, lines)
      decreases |lines| - i
    {
      assert lines[i..][1..] == lines[i + 1..];
      st := ReadLine(st, lines[i]);
      i := i + 1;
    }
  }
}
