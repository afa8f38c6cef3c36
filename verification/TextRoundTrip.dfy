/** Generated text read back: on plain charts the parser recovers the chart. */
module TextRoundTrip {
  import opened Charts
  import opened Results
  import opened StText
  import opened Strings
  import opened StParser

  // ---------- names and numbers as text ----------

  predicate Word(s: string) {
    s != [] && AllWord(s)
  }

  /** A word that no reader takes for a number, a truth value or the start of a program. */
  predicate Ident(s: string) {
    Word(s) && !IsDigit(s[0]) && Lower(s) !in ["inf", "infinity", "nan"] && s !in ["TRUE", "FALSE", "PROGRAM"]
  }

  /** None of the characters that lines and argument lists are cut at. */
  predicate Plainly(s: string) {
    forall c <- s :: IsWord(c) || c == '.' || c == '-'
  }

  lemma PlainlyFree(s: string)
    requires Plainly(s)
    ensures Free(s, '\n') && Free(s, '(') && Free(s, ')') && Free(s, ',') && Free(s, ':') && Free(s, ';') && Free(s, ' ')
    ensures s != [] ==> Tight(s)
  {
    if s != [] {
      assert s[0] in s && s[|s| - 1] in s;
    }
  }

  lemma WordPlainly(s: string)
    requires AllWord(s)
    ensures Plainly(s) && Free(s, '.')
  {
  }

  lemma {:induction false} DigitsText(n: nat)
    ensures var s := NatText(n);
            s != [] && (forall i :: 0 <= i < |s| ==> IsDigit(s[i])) && DigitsValue(s) == n
  {
    if n >= 10 {
      DigitsText(n / 10);
      assert NatText(n)[..|NatText(n)| - 1] == NatText(n / 10);
    }
  }

  lemma {:induction false} DigitLenAll(s: string)
    requires forall i :: 0 <= i < |s| ==> IsDigit(s[i])
    ensures DigitLen(s) == |s|
  {
    if |s| > 1 { DigitLenAll(s[1..]); }
  }

  lemma IntShape(n: int)
    ensures var t, d := IntText(n), NatText(if n < 0 then -n else n);
            && t != [] && Plainly(t) && Free(t, '.') && Unsigned(t) == d && d != [] && DigitLen(d) == |d|
            && DigitsValue(d) == (if n < 0 then -n else n) && (t[0] == '-' <==> n < 0) && (n < 0 ==> t[1..] == d)
            && t[0] != 'T' && t[0] != 'F' && t[0] != '\''
  {
    var m := if n < 0 then -n else n;
    var (t, d) := (IntText(n), NatText(m));
    DigitsText(m);
    DigitLenAll(d);
    assert n < 0 ==> t == ['-'] + d;
    forall c | c in t ensures (IsDigit(c) || c == '-') && c != '.' {
      if n < 0 { assert c == '-' || c in d; }
    }
  }

  /** An integer's text is a literal and reads back as that integer. */
  lemma IntBack(n: int)
    ensures Plainly(IntText(n)) && IntText(n) != [] && IsLiteral(IntText(n)) && ParseLiteral(IntText(n)) == IntLit(n)
  {
    hide Lower, NatText, DigitsValue, DigitLen, Plainly, Strip, IntText, Find, Contains, Unsigned;
    var t := IntText(n);
    IntShape(n);
    PlainlyFree(t);
    StripTight(t);
    NoDot(t);
    NumberIs(t, n);
    assert t != "TRUE" && t != "FALSE";
  }

  lemma NoDot(t: string)
    requires Free(t, '.')
    ensures !Contains(t, ".")
  {
    FindNone(t, ".");
  }

  lemma NumberIs(t: string, n: int)
    requires Strip(t) == t && t != []
    requires var d := Unsigned(t);
             d != [] && DigitLen(d) == |d| && DigitsValue(d) == (if n < 0 then -n else n)
             && (t[0] == '-' <==> n < 0) && (n < 0 ==> t[1..] == d)
    ensures IsFloatText(t) && IsIntText(t) && IntValue(t) == n
  {
    hide Lower, Strip, DigitLen, DigitsValue, Unsigned;
    var d := Unsigned(t);
    assert d[DigitLen(d)..] == [];
  }

  lemma BoolBack(b: bool)
    ensures var t := if b then "TRUE" else "FALSE"; Plainly(t) && IsLiteral(t) && ParseLiteral(t) == BoolLit(b)
  {
    StripTight("TRUE");
    StripTight("FALSE");
  }

  /** A name, alone or with a pin behind it, is not a literal. */
  lemma NameNotLiteral(s: string, rest: string)
    requires Ident(s) && (rest == [] || (rest[0] == '.' && Word(rest[1..])))
    ensures !IsLiteral(s + rest) && Strip(s + rest) == s + rest && Plainly(s + rest)
  {
    var t := s + rest;
    assert Plainly(t) && t != [];
    PlainlyFree(t);
    StripTight(t);
    assert t[0] == s[0];
    assert Unsigned(t) == t && DigitLen(t) == 0 && t[0..] == t;
    if rest == [] {
      assert t == s;
    } else {
      assert t[|s|] == '.';
      LowerDot(t, |s|);
    }
  }

  lemma LowerDot(t: string, i: nat)
    requires i < |t| && t[i] == '.'
    ensures Lower(t) !in ["inf", "infinity", "nan"]
  {
    assert Lower(t)[i] == '.';
  }

  /** References read back: a pin, or a port of the page. */
  lemma ReferenceBack(b: string, p: string)
    requires Word(b) && Word(p)
    ensures var t := b + "." + p;
            && Strip(t) == t && Strings.Find(t, ".") == |b| && t[..|b|] == b && t[|b| + 1..] == p
            && ParseReference(t) == Endpoint(b, p)
  {
    hide Find, Strip;
    WordPlainly(b);
    WordPlainly(p);
    var t := b + "." + p;
    assert Plainly(t);
    PlainlyFree(t);
    StripTight(t);
    assert t == b + ("." + p);
    FindAfter(b, ".", p);
  }

  lemma PortBack(p: string)
    requires Word(p)
    ensures Strip(p) == p && Strings.Find(p, ".") == -1 && ParseReference(p) == Endpoint(INTERFACE, p)
  {
    WordPlainly(p);
    PlainlyFree(p);
    StripTight(p);
    FindNone(p, ".");
  }

  // ---------- one line at a time ----------

  /** None of the fixed lines, nor the first line of a program. */
  predicate NotFixed(line: string) {
    !("PROGRAM " <= line)
    && line !in ["VAR", "VAR_INPUT", "VAR_OUTPUT", "VAR_IN_OUT", "END_VAR", "END_PROGRAM"]
  }

  /** Only the word PROGRAM with a blank behind it begins a program. */
  lemma ProgramPrefix(w: string, rest: string)
    requires AllWord(w) && rest != [] && !IsWord(rest[0])
    ensures "PROGRAM " <= w + rest ==> w == "PROGRAM" && rest[0] == ' '
  {
    var line := w + rest;
    assert line[|w|] == rest[0];
    if "PROGRAM " <= line {
      assert line[..8] == "PROGRAM ";
      assert line[0] == 'P' && line[1] == 'R' && line[2] == 'O' && line[3] == 'G' && line[4] == 'R' && line[5] == 'A'
             && line[6] == 'M' && line[7] == ' ';
      assert |w| == 7;
      assert w == line[..7] == "PROGRAM";
    }
  }

  lemma WordsOnly()
    ensures AllWord("VAR") && AllWord("VAR_INPUT") && AllWord("VAR_OUTPUT") && AllWord("VAR_IN_OUT")
    ensures AllWord("END_VAR") && AllWord("END_PROGRAM")
  {
  }

  /** A line that opens with a word and goes on with something else. */
  lemma OpensWithWord(w: string, rest: string)
    requires Word(w) && rest != [] && !IsWord(rest[0]) && (w != "PROGRAM" || rest[0] != ' ')
    ensures NotFixed(w + rest)
  {
    ProgramPrefix(w, rest);
    WordsOnly();
    assert (w + rest)[|w|] == rest[0];
    assert !AllWord(w + rest);
  }

  lemma DeclarationMatches(name: string, typ: string)
    requires Ident(name) && Word(typ)
    ensures var line := name + " : " + typ + ";";
            && Strip(Declaration(name, typ)) == line && NotFixed(line) && Contains(line, ":")
            && MatchDeclaration(line) == Some((name, typ))
  {
    hide Strip, Find, WordLen, Contains, Lower, Tight, Free, NotFixed, Lstrip, Rstrip, MatchDeclaration, Plainly;
    var line := name + " : " + typ + ";";
    var rest := " : " + typ + ";";
    assert line == name + rest && Declaration(name, typ) == "    " + line;
    WordPlainly(name);
    WordPlainly(typ);
    PlainlyFree(name);
    PlainlyFree(typ);
    TightLine(line, name, rest);
    StripIndent(line);
    OpensWithWord(name, rest);
    ColonAfter(name);
    FindAfterIs(line, name + " ", ":", " " + typ + ";");
    WordLenIs(name, rest);
    DeclarationType(line, name, typ);
  }

  lemma DeclarationType(line: string, name: string, typ: string)
    requires name != [] && Word(typ) && Tight(typ) && line == name + (" : " + typ + ";") && WordLen(line) == |name|
    ensures MatchDeclaration(line) == Some((name, typ))
  {
    hide Strip, WordLen, Lstrip, Tight;
    var tail := typ + ";";
    var r := ": " + tail;
    assert line[|name|..] == [' '] + r && line[..|name|] == name;
    TightTail(typ);
    StripSpace(r);
    assert r[1..] == [' '] + tail;
    StripSpace(tail);
    WordLenIs(typ, ";");
  }

  lemma TightTail(typ: string)
    requires Tight(typ)
    ensures Tight(": " + (typ + ";")) && Tight(typ + ";")
  {
    assert (typ + ";")[0] == typ[0];
  }

  lemma FindAfterIs(line: string, a: string, sub: string, rest: string)
    requires sub != [] && Free(a, sub[0]) && line == a + sub + rest
    ensures Find(line, sub) == |a| && Contains(line, sub)
  {
    assert a + sub + rest == a + (sub + rest);
    FindAfter(a, sub, rest);
  }

  lemma CallMatches(id: string, body: string)
    requires Word(id) && Free(body, ')')
    ensures var line := id + "(" + body + ");";
            && Strip(line) == line && NotFixed(line) && Contains(line, "(") && Contains(line, ");")
            && MatchCall(line) == Some((id, body))
  {
    hide Strip, Find, WordLen, Contains;
    var line := id + "(" + body + ");";
    var rest := "(" + body + ");";
    assert line == id + rest;
    StripTight(line);
    OpensWithWord(id, rest);
    WordPlainly(id);
    PlainlyFree(id);
    FindAfterIs(line, id, "(", body + ");");
    FindAfterIs(line, id + "(" + body, ");", "");
    WordLenIs(id, rest);
    assert line[|id|] == '(' && line[|id| + 1..] == body + ");";
    FindLastEnd(body, ");");
  }

  lemma AssignMatches(target: string, source: string)
    requires Ident(target) && Plainly(source) && source != []
    ensures var line := target + " := " + source + ";";
            && Strip(line) == line && NotFixed(line) && !Contains(line, "(") && Contains(line, ":=")
            && MatchAssign(line) == Some((target, source))
  {
    hide Strip, Find, WordLen, Contains, Lower, NotFixed, Lstrip, MatchAssign, Plainly, Tight, Free, Rstrip;
    var line := target + " := " + source + ";";
    var rest := " := " + source + ";";
    assert line == target + rest;
    WordPlainly(target);
    PlainlyFree(target);
    PlainlyFree(source);
    TightLine(line, target, rest);
    StripTight(line);
    OpensWithWord(target, rest);
    NoBracket(target, source);
    ColonAfter(target);
    FindAfterIs(line, target + " ", ":=", " " + source + ";");
    WordLenIs(target, rest);
    AssignValue(line, target, source);
  }

  lemma TightLine(line: string, w: string, rest: string)
    requires line == w + rest && Tight(w) && rest != [] && !IsSpace(rest[|rest| - 1])
    ensures Tight(line)
  {
    assert line[0] == w[0] && line[|line| - 1] == rest[|rest| - 1];
  }

  lemma ColonAfter(target: string)
    requires Free(target, ':')
    ensures Free(target + " ", ":="[0])
  {
  }

  lemma AssignValue(line: string, target: string, source: string)
    requires target != [] && Tight(source) && line == target + (" := " + source + ";")
    requires WordLen(line) == |target|
    ensures MatchAssign(line) == Some((target, source))
  {
    hide Strip, WordLen, Lstrip, Tight;
    var r := ":= " + source + ";";
    assert line[|target|..] == [' '] + r && line[..|target|] == target;
    TightAssign(source);
    StripSpace(r);
    assert r[..2] == ":=" && r[2..] == " " + source + ";";
    FindLastEnd(" " + source, ";");
    assert r[2..][..|source| + 1] == [' '] + source;
    StripSpace(source);
  }

  lemma TightAssign(source: string)
    ensures Tight(":= " + source + ";")
  {
  }

  lemma NoBracket(target: string, source: string)
    requires Free(target, '(') && Free(source, '(')
    ensures !Contains(target + " := " + source + ";", "(")
  {
    FindNone(target + " := " + source + ";", "(");
  }

  // ---------- arguments ----------

  /** An argument: a word and the plain text it is given. */
  predicate PlainArg(a: (string, string)) {
    Word(a.0) && Plainly(a.1) && a.1 != []
  }

  function ArgText(a: (string, string)): string {
    a.0 + " := " + a.1
  }

  function ArgTexts(args: seq<(string, string)>): (r: seq<string>)
    ensures |r| == |args| && forall i :: 0 <= i < |args| ==> r[i] == ArgText(args[i])
  {
    seq(|args|, i requires 0 <= i < |args| => ArgText(args[i]))
  }

  lemma ArgTextShape(a: (string, string))
    requires PlainArg(a)
    ensures var t := ArgText(a);
            && Free(t, '(') && Free(t, ')') && Free(t, ',') && Free(t, '\n') && Tight(t) && Strip(t) == t
            && Strings.Find(t, ":=") == |a.0| + 1 && Strip(t[..|a.0| + 1]) == a.0 && Strip(t[|a.0| + 3..]) == a.1
  {
    hide Strip, Find, Plainly, Tight, Contains, Free, Lstrip, Rstrip;
    var t := ArgText(a);
    WordPlainly(a.0);
    PlainlyFree(a.0);
    PlainlyFree(a.1);
    ArgFree(a.0, a.1);
    StripTight(t);
    ColonAfter(a.0);
    FindAfterIs(t, a.0 + " ", ":=", " " + a.1);
    assert t[..|a.0| + 1] == a.0 + [' '] && t[|a.0| + 3..] == [' '] + a.1;
    StripSpace(a.0);
    StripSpace(a.1);
  }

  lemma ArgFree(w: string, v: string)
    requires Free(w, '(') && Free(w, ')') && Free(w, ',') && Free(w, '\n') && Tight(w)
    requires Free(v, '(') && Free(v, ')') && Free(v, ',') && Free(v, '\n') && Tight(v)
    ensures var t := w + " := " + v; Free(t, '(') && Free(t, ')') && Free(t, ',') && Free(t, '\n') && Tight(t)
  {
    var t := w + " := " + v;
    assert t[0] == w[0] && t[|t| - 1] == v[|v| - 1];
  }

  /** Characters that neither open nor close nor separate just pile up. */
  lemma {:induction false} SplitTopPiece(p: string, rest: string, cur: string)
    requires Free(p, '(') && Free(p, ')') && Free(p, ',')
    ensures SplitTop(p + rest, cur, 0) == SplitTop(rest, cur + p, 0)
    decreases |p|
  {
    hide Strip;
    if p == [] {
      assert p + rest == rest && cur + p == cur;
    } else {
      assert (p + rest)[1..] == p[1..] + rest && (p + rest)[0] == p[0] && p[0] in p;
      SplitTopPiece(p[1..], rest, cur + [p[0]]);
      assert cur + [p[0]] + p[1..] == cur + p;
    }
  }

  lemma {:induction false} SplitTopJoin(args: seq<(string, string)>, cur: string)
    requires args != [] && (forall a <- args :: PlainArg(a)) && (cur == "" || cur == " ")
    ensures SplitTop(Join(", ", ArgTexts(args)), cur, 0) == ArgTexts(args)
    decreases |args|
  {
    hide Strip, ArgText, PlainArg;
    var t := ArgText(args[0]);
    assert PlainArg(args[0]);
    ArgTextShape(args[0]);
    CurStrip(cur, t);
    if |args| == 1 {
      assert t + [] == t;
      SplitTopPiece(t, [], cur);
    } else {
      var rest := Join(", ", ArgTexts(args[1..]));
      assert ArgTexts(args)[1..] == ArgTexts(args[1..]);
      assert Join(", ", ArgTexts(args)) == t + ([','] + ([' '] + rest));
      SplitTopPiece(t, [','] + ([' '] + rest), cur);
      assert ([','] + ([' '] + rest))[1..] == [' '] + rest && ([' '] + rest)[1..] == rest;
      assert "" + [' '] == " ";
      SplitTopJoin(args[1..], " ");
      assert ArgTexts(args) == [t] + ArgTexts(args[1..]);
    }
  }

  lemma CurStrip(cur: string, t: string)
    requires (cur == "" || cur == " ") && Tight(t)
    ensures Strip(cur + t) == t
  {
    hide Strip;
    StripTight(t);
    StripSpace(t);
    assert "" + t == t;
  }

  // ---------- a whole call ----------

  ghost predicate DistinctKeys(args: seq<(string, string)>) {
    forall i, j :: 0 <= i < j < |args| ==> args[i].0 != args[j].0
  }

  lemma {:induction false} TakeArgsBack(args: seq<(string, string)>)
    requires (forall a <- args :: PlainArg(a)) && DistinctKeys(args)
    ensures TakeArgs(ArgTexts(args)) == args
    decreases |args|
  {
    hide Strip, Find, PlainArg, ArgText;
    if args != [] {
      var n := |args| - 1;
      var (front, a) := (args[..n], args[n]);
      assert PlainArg(a);
      ArgTextShape(a);
      ArgTextParts(a);
      TakeArgsBack(front);
      assert ArgTexts(args)[..n] == ArgTexts(front);
      SetArgNew(front, a.0, a.1);
    }
  }

  lemma ArgTextParts(a: (string, string))
    ensures |ArgText(a)| >= |a.0| + 4
    ensures ArgText(a)[|a.0| + 1 + 2..] == ArgText(a)[|a.0| + 3..]
  {
  }

  lemma {:induction false} RstripKeepsFirst(s: string)
    requires s != [] && !IsSpace(s[0])
    ensures Rstrip(s) != []
    decreases |s|
  {
    if |s| > 1 { RstripKeepsFirst(s[..|s| - 1]); }
  }

  lemma StripBlank(s: string)
    ensures s == [] ==> Strip(s) == []
    ensures s != [] && !IsSpace(s[0]) ==> Strip(s) != []
  {
    if s != [] && !IsSpace(s[0]) { RstripKeepsFirst(s); }
  }

  lemma {:induction false} JoinFree(sep: string, parts: seq<string>, c: char)
    requires Free(sep, c) && forall p <- parts :: Free(p, c)
    ensures Free(Join(sep, parts), c)
    decreases |parts|
  {
    if parts != [] { assert parts[0] in parts; }
    if |parts| > 1 { JoinFree(sep, parts[1..], c); }
  }

  lemma JoinFirst(sep: string, parts: seq<string>)
    requires parts != [] && parts[0] != []
    ensures Join(sep, parts) != [] && Join(sep, parts)[0] == parts[0][0]
  {
  }

  lemma {:induction false} JoinLast(sep: string, parts: seq<string>)
    requires parts != [] && parts[|parts| - 1] != []
    ensures Join(sep, parts) != []
    ensures Join(sep, parts)[|Join(sep, parts)| - 1] == parts[|parts| - 1][|parts[|parts| - 1]| - 1]
    decreases |parts|
  {
    if |parts| > 1 { JoinLast(sep, parts[1..]); }
  }

  /** The argument list of a call reads back as it was written. */
  lemma ArgsBack(args: seq<(string, string)>)
    requires (forall a <- args :: PlainArg(a)) && DistinctKeys(args)
    ensures ArgsOf(Join(", ", ArgTexts(args))) == args && Free(Join(", ", ArgTexts(args)), ')')
    ensures Free(Join(", ", ArgTexts(args)), '\n')
  {
    hide PlainArg, ArgText, TakeArgs, SplitTop, Tight, Strip;
    var texts := ArgTexts(args);
    var body := Join(", ", texts);
    forall t | t in texts ensures Free(t, ')') && Free(t, '\n') && Tight(t) {
      var i :| 0 <= i < |texts| && texts[i] == t;
      assert PlainArg(args[i]);
      ArgTextShape(args[i]);
    }
    JoinFree(", ", texts, ')');
    JoinFree(", ", texts, '\n');
    if args != [] {
      SplitTopJoin(args, "");
      TakeArgsBack(args);
      assert texts[0] in texts;
      TightFirst(texts[0]);
      JoinFirst(", ", texts);
    }
    StripBlank(body);
  }

  lemma TightFirst(t: string)
    requires Tight(t)
    ensures t != [] && !IsSpace(t[0])
  {
  }
}
