/** What the text parser's patterns match, said without an algorithm: a line matches exactly if it can be
    taken apart in the pattern's way, and the parts are what the match returns. */
module LinePatterns {
  import opened Results
  import opened Strings
  import opened StParser
  import Charts

  predicate AllSpace(s: string) {
    forall i :: 0 <= i < |s| ==> IsSpace(s[i])
  }

  predicate Name(s: string) {
    s != [] && AllWord(s)
  }

  predicate OccursAt(s: string, sub: string, i: nat) {
    i + |sub| <= |s| && s[i..i + |sub|] == sub
  }

  // ---------- stripping and searching ----------

  lemma {:induction false} LstripParts(s: string) returns (k: nat)
    ensures k <= |s| && AllSpace(s[..k]) && Lstrip(s) == s[k..] && (k < |s| ==> !IsSpace(s[k]))
  {
    if s != [] && IsSpace(s[0]) {
      var j := LstripParts(s[1..]);
      k := j + 1;
      assert s[..k] == [s[0]] + s[1..][..j] && s[k..] == s[1..][j..];
    } else {
      k := 0;
      assert s[0..] == s;
    }
  }

  lemma {:induction false} LstripIs(a: string, t: string)
    requires AllSpace(a) && (t == [] || !IsSpace(t[0]))
    ensures Lstrip(a + t) == t
  {
    if a == [] {
      assert a + t == t;
    } else {
      assert (a + t)[1..] == a[1..] + t && (a + t)[0] == a[0];
      LstripIs(a[1..], t);
    }
  }

  lemma {:induction false} RstripParts(s: string) returns (k: nat)
    ensures k <= |s| && AllSpace(s[k..]) && Rstrip(s) == s[..k] && (k > 0 ==> !IsSpace(s[k - 1]))
  {
    if s != [] && IsSpace(s[|s| - 1]) {
      var t := s[..|s| - 1];
      k := RstripParts(t);
      assert s[k..] == t[k..] + [s[|s| - 1]] && s[..k] == t[..k];
      assert k > 0 ==> s[k - 1] == t[k - 1];
    } else {
      k := |s|;
      assert s[..k] == s;
    }
  }

  lemma {:induction false} RstripIs(t: string, b: string)
    requires AllSpace(b) && (t == [] || !IsSpace(t[|t| - 1]))
    ensures Rstrip(t + b) == t
  {
    var s := t + b;
    if b == [] {
      assert s == t;
    } else {
      assert s[..|s| - 1] == t + b[..|b| - 1] && s[|s| - 1] == b[|b| - 1];
      RstripIs(t, b[..|b| - 1]);
    }
  }

  ghost predicate StripShape(s: string, t: string) {
    (t == [] || Tight(t)) && exists a, b :: AllSpace(a) && AllSpace(b) && s == a + t + b
  }

  /** Stripping takes the space away at both ends, and nothing else. */
  lemma StripExactly(s: string, t: string)
    ensures Strip(s) == t <==> StripShape(s, t)
  {
    hide Strip, StripShape;
    StripTaken(s);
    if StripShape(s, t) { StripGiven(s, t); }
  }

  lemma StripTaken(s: string)
    ensures StripShape(s, Strip(s))
  {
    hide IsSpace, Lstrip, Rstrip, AllSpace;
    var k := LstripParts(s);
    var l := s[k..];
    var j := RstripParts(l);
    assert s == s[..k] + l[..j] + l[j..];
    assert j > 0 ==> l[..j][0] == s[k] && l[..j][j - 1] == l[j - 1];
  }

  lemma StripGiven(s: string, t: string)
    requires StripShape(s, t)
    ensures Strip(s) == t
  {
    hide Lstrip, Rstrip;
    var a, b :| AllSpace(a) && AllSpace(b) && s == a + t + b;
    if t == [] {
      assert s == (a + b) + [];
      LstripIs(a + b, []);
      RstripIs([], []);
      assert [] + [] == "";
    } else {
      assert s == a + (t + b) && (t + b)[0] == t[0];
      LstripIs(a, t + b);
      RstripIs(t, b);
    }
  }

  /** A search answers with the first place, or with -1 if there is none. */
  lemma {:induction false} FindExactly(s: string, sub: string, i: nat)
    ensures Find(s, sub) == i <==> OccursAt(s, sub, i) && forall j: nat :: j < i ==> !OccursAt(s, sub, j)
  {
    FirstPlace(s, sub);
    var f := Find(s, sub);
    if f >= 0 && f < i { assert OccursAt(s, sub, f); }
  }

  lemma {:induction false} FirstPlace(s: string, sub: string)
    ensures var f := Find(s, sub);
            && (f >= 0 ==> OccursAt(s, sub, f))
            && forall j: nat :: (f < 0 || j < f) ==> !OccursAt(s, sub, j)
  {
    if !(sub <= s) && s != [] {
      FirstPlace(s[1..], sub);
      forall j: nat | OccursAt(s, sub, j) ensures j > 0 && OccursAt(s[1..], sub, j - 1) {
        if j > 0 { assert s[1..][j - 1..j - 1 + |sub|] == s[j..j + |sub|]; }
      }
    }
  }

  lemma {:induction false} LastPlace(s: string, sub: string)
    requires sub != []
    ensures var f := FindLast(s, sub);
            && (f >= 0 ==> OccursAt(s, sub, f))
            && forall j: nat :: j > f ==> !OccursAt(s, sub, j)
  {
    hide OccursAt;
    AtTheEnd(s, sub);
    if |s| >= |sub| && s[|s| - |sub|..] != sub {
      LastPlace(s[..|s| - 1], sub);
      InFront(s, sub);
    }
  }

  lemma AtTheEnd(s: string, sub: string)
    requires sub != []
    ensures |s| >= |sub| ==> (OccursAt(s, sub, |s| - |sub|) <==> s[|s| - |sub|..] == sub)
    ensures forall j: nat :: j + |sub| > |s| ==> !OccursAt(s, sub, j)
  {
    if |s| >= |sub| { assert s[|s| - |sub|..|s|] == s[|s| - |sub|..]; }
  }

  lemma InFront(s: string, sub: string)
    requires |s| > 0
    ensures forall j: nat :: j + |sub| < |s| ==> (OccursAt(s, sub, j) <==> OccursAt(s[..|s| - 1], sub, j))
  {
    forall j: nat | j + |sub| < |s| ensures OccursAt(s, sub, j) <==> OccursAt(s[..|s| - 1], sub, j) {
      assert s[..|s| - 1][j..j + |sub|] == s[j..j + |sub|];
    }
  }

  /** A split gives the pieces between the separators: none contains one, and joined they are the text. */
  lemma SplitExactly(s: string, c: char, parts: seq<string>)
    ensures Split(s, c) == parts <==> parts != [] && (forall p <- parts :: Free(p, c)) && StText.Join([c], parts) == s
  {
    SplitParts(s, c, "");
    assert "" + s == s;
    if parts != [] && (forall p <- parts :: Free(p, c)) && StText.Join([c], parts) == s {
      SplitJoin(parts, c);
    }
  }

  lemma {:induction false} SplitParts(s: string, c: char, cur: string)
    requires Free(cur, c)
    ensures var parts := SplitFrom(s, c, cur);
            parts != [] && (forall p <- parts :: Free(p, c)) && StText.Join([c], parts) == cur + s
    decreases |s|
  {
    if s == [] {
      assert cur + s == cur;
    } else if s[0] == c {
      SplitParts(s[1..], c, "");
      var rest := SplitFrom(s[1..], c, "");
      assert ([cur] + rest)[1..] == rest;
      assert cur + s == cur + [c] + ("" + s[1..]);
    } else {
      SplitParts(s[1..], c, cur + [s[0]]);
      assert cur + s == cur + [s[0]] + s[1..];
    }
  }

  // ---------- the three patterns ----------

  lemma {:induction false} WordLenAll(s: string)
    ensures AllWord(s[..WordLen(s)]) && (WordLen(s) < |s| ==> !IsWord(s[WordLen(s)]))
  {
    if s != [] && IsWord(s[0]) {
      WordLenAll(s[1..]);
      var n := WordLen(s[1..]);
      assert s[..n + 1] == [s[0]] + s[1..][..n];
    }
  }

  ghost predicate DeclarationShape(line: string, name: string, typ: string) {
    && Name(name) && Name(typ)
    && exists a, b, rest :: AllSpace(a) && AllSpace(b) && line == name + (a + (":" + (b + (typ + (";" + rest)))))
  }

  /** `(\w+)\s*:\s*(\w+);` from the start of the line. */
  lemma DeclarationExactly(line: string, name: string, typ: string)
    ensures MatchDeclaration(line) == Some((name, typ)) <==> DeclarationShape(line, name, typ)
  {
    if MatchDeclaration(line) == Some((name, typ)) { DeclarationTaken(line, name, typ); }
    if DeclarationShape(line, name, typ) { DeclarationGiven(line, name, typ); }
  }

  lemma DeclarationGiven(line: string, name: string, typ: string)
    requires DeclarationShape(line, name, typ)
    ensures MatchDeclaration(line) == Some((name, typ))
  {
    hide IsWord, IsSpace, WordLen, Lstrip, AllWord, AllSpace;
    var a, b, rest :| AllSpace(a) && AllSpace(b) && line == name + (a + (":" + (b + (typ + (";" + rest)))));
    var t := typ + (";" + rest);
    AfterName(name, a, b + t);
    TypeGiven(b, typ, rest);
  }

  /** What stands behind the name: spaces, the colon, the rest. */
  lemma AfterName(name: string, a: string, rest: string)
    requires AllWord(name) && AllSpace(a)
    ensures var line := name + (a + (":" + rest));
            && WordLen(line) == |name| && line[..|name|] == name
            && var r := Lstrip(line[|name|..]); r != [] && r[0] == ':' && r[1..] == rest
  {
    var t := ":" + rest;
    FirstOf(a, t);
    WordLenIs(name, a + t);
    LstripIs(a, t);
    assert t[1..] == rest;
  }

  lemma TypeGiven(b: string, typ: string, rest: string)
    requires AllSpace(b) && Name(typ)
    ensures var t := Lstrip(b + (typ + (";" + rest)));
            WordLen(t) == |typ| < |t| && t[|typ|] == ';' && t[..|typ|] == typ
  {
    var t := typ + (";" + rest);
    assert t[0] == typ[0] && IsWord(typ[0]);
    LstripIs(b, t);
    WordLenIs(typ, ";" + rest);
  }

  /** What follows a name and spaces is not a word character, if the next thing is none. */
  lemma FirstOf(a: string, t: string)
    requires AllSpace(a)
    ensures a + t != [] ==> (a + t)[0] == if a == [] then t[0] else a[0]
    ensures a != [] ==> !IsWord(a[0])
  {
  }

  lemma Parted(s: string, i: nat)
    requires i <= |s|
    ensures s == s[..i] + s[i..]
  {
  }

  lemma Headed(s: string, sub: string, i: nat)
    requires OccursAt(s, sub, i)
    ensures s[i..] == sub + s[i + |sub|..] && s == s[..i] + (sub + s[i + |sub|..])
  {
    assert s[i..] == s[i..i + |sub|] + s[i + |sub|..];
  }

  /** The spaces that are skipped. */
  lemma Skipped(s: string) returns (a: string)
    ensures AllSpace(a) && s == a + Lstrip(s)
  {
    var k := LstripParts(s);
    a := s[..k];
  }

  lemma TypeTaken(s: string) returns (b: string, rest: string)
    requires var t := Lstrip(s); WordLen(t) < |t| && t[WordLen(t)] == ';'
    ensures var typ := Lstrip(s)[..WordLen(Lstrip(s))];
            AllWord(typ) && AllSpace(b) && s == b + (typ + (";" + rest))
  {
    hide IsWord, IsSpace, WordLen, Lstrip, AllWord, AllSpace;
    var t := Lstrip(s);
    b := Skipped(s);
    WordLenAll(t);
    Headed(t, ";", WordLen(t));
    rest := t[WordLen(t) + 1..];
  }

  lemma DeclarationTaken(line: string, name: string, typ: string)
    requires MatchDeclaration(line) == Some((name, typ))
    ensures DeclarationShape(line, name, typ)
  {
    hide IsWord, IsSpace, WordLen, Lstrip, AllWord, AllSpace;
    var n := WordLen(line);
    WordLenAll(line);
    Parted(line, n);
    var a := Skipped(line[n..]);
    var r := Lstrip(line[n..]);
    Headed(r, ":", 0);
    var b, rest := TypeTaken(r[1..]);
    DeclarationIntro(line, name, a, b, typ, rest);
  }

  lemma DeclarationIntro(line: string, name: string, a: string, b: string, typ: string, rest: string)
    requires Name(name) && Name(typ) && AllSpace(a) && AllSpace(b)
    requires line == name + (a + (":" + (b + (typ + (";" + rest)))))
    ensures DeclarationShape(line, name, typ)
  {
  }

  ghost predicate CallShape(line: string, name: string, args: string) {
    && Name(name)
    && (exists rest :: line == name + ("(" + (args + (");" + rest))))
    && forall j: nat :: j > |name| + 1 + |args| ==> !OccursAt(line, ");", j)
  }

  /** `(\w+)\((.*)\);` from the start of the line, the bracketed part as long as it can be. */
  lemma CallExactly(line: string, name: string, args: string)
    ensures MatchCall(line) == Some((name, args)) <==> CallShape(line, name, args)
  {
    if MatchCall(line) == Some((name, args)) { CallTaken(line, name, args); }
    if CallShape(line, name, args) { CallGiven(line, name, args); }
  }

  lemma CallGiven(line: string, name: string, args: string)
    requires CallShape(line, name, args)
    ensures MatchCall(line) == Some((name, args))
  {
    hide IsWord, WordLen, FindLast, OccursAt, AllWord;
    var rest :| line == name + ("(" + (args + (");" + rest)));
    var r := args + (");" + rest);
    NoWord("(" + r);
    WordLenIs(name, "(" + r);
    OpenBracket(line, name, r);
    LastPlace(r, ");");
    Occurs(args, ");", rest);
    Shifted(line, r, ");", |name| + 1, FindLast(r, ");"));
  }

  lemma NoWord(s: string)
    requires s != [] && s[0] == '('
    ensures !IsWord(s[0])
  {
  }

  lemma OpenBracket(line: string, name: string, r: string)
    requires line == name + ("(" + r)
    ensures |line| > |name| && line[|name|] == '(' && line[|name| + 1..] == r
  {
  }

  lemma Occurs(a: string, sub: string, rest: string)
    ensures OccursAt(a + (sub + rest), sub, |a|) && (a + (sub + rest))[..|a|] == a
  {
    assert (a + (sub + rest))[|a|..|a| + |sub|] == sub;
  }

  lemma Shifted(s: string, r: string, sub: string, at: nat, i: int)
    requires at <= |s| && r == s[at..]
    ensures i >= 0 ==> (OccursAt(r, sub, i) <==> OccursAt(s, sub, at + i))
  {
    if i >= 0 && at + i + |sub| <= |s| { assert r[i..i + |sub|] == s[at + i..at + i + |sub|]; }
  }

  lemma CallTaken(line: string, name: string, args: string)
    requires MatchCall(line) == Some((name, args))
    ensures CallShape(line, name, args)
  {
    hide IsWord, WordLen, FindLast, OccursAt, AllWord;
    var n := WordLen(line);
    WordLenAll(line);
    Bracketed(line, n);
    var r := line[n + 1..];
    LastPlace(r, ");");
    var i := FindLast(r, ");");
    Headed(r, ");", i);
    forall j: nat | j > |name| + 1 + |args| ensures !OccursAt(line, ");", j) {
      Shifted(line, r, ");", n + 1, j - n - 1);
    }
  }

  lemma Bracketed(line: string, n: nat)
    requires n < |line| && line[n] == '('
    ensures line == line[..n] + ("(" + line[n + 1..])
  {
    Headed(line, "(", n);
  }

  ghost predicate AssignShape(line: string, name: string, value: string) {
    && Name(name)
    && exists a, tail, rest :: AllSpace(a) && tail != [] && Free(rest, ';') && value == Strip(tail)
         && line == name + (a + (":=" + (tail + (";" + rest))))
  }

  /** `(\w+)\s*:=\s*(.+);` from the start of the line, up to the last semicolon; the value comes stripped. */
  lemma AssignExactly(line: string, name: string, value: string)
    ensures MatchAssign(line) == Some((name, value)) <==> AssignShape(line, name, value)
  {
    if MatchAssign(line) == Some((name, value)) { AssignTaken(line, name, value); }
    if AssignShape(line, name, value) {
      var a, tail, rest :| AllSpace(a) && tail != [] && Free(rest, ';') && value == Strip(tail)
                           && line == name + (a + (":=" + (tail + (";" + rest))));
      var t := ":=" + (tail + (";" + rest));
      FirstOf(a, t);
      WordLenIs(name, a + t);
      LstripIs(a, t);
      assert t[2..] == tail + (";" + rest);
      LastSemicolon(tail, rest);
    }
  }

  lemma LastSemicolon(tail: string, rest: string)
    requires Free(rest, ';')
    ensures FindLast(tail + (";" + rest), ";") == |tail| && (tail + (";" + rest))[..|tail|] == tail
  {
    hide FindLast, OccursAt;
    var s := tail + (";" + rest);
    LastPlace(s, ";");
    Occurs(tail, ";", rest);
    NoneBehind(tail, rest);
  }

  lemma NoneBehind(tail: string, rest: string)
    ensures Free(rest, ';') <==> forall j: nat :: j > |tail| ==> !OccursAt(tail + (";" + rest), ";", j)
  {
    var s := tail + (";" + rest);
    forall j: nat | j > |tail| ensures OccursAt(s, ";", j) <==> j < |s| && rest[j - |tail| - 1] == ';' {
      if j < |s| { assert s[j..j + 1] == [rest[j - |tail| - 1]]; }
    }
    if !Free(rest, ';') {
      var k :| 0 <= k < |rest| && rest[k] == ';';
      assert OccursAt(s, ";", k + |tail| + 1);
    }
  }

  lemma TailTaken(t: string) returns (tail: string, rest: string)
    requires FindLast(t, ";") >= 0
    ensures tail == t[..FindLast(t, ";")] && t == tail + (";" + rest) && Free(rest, ';')
  {
    hide FindLast, Free;
    LastPlace(t, ";");
    var i := FindLast(t, ";");
    Headed(t, ";", i);
    tail, rest := t[..i], t[i + 1..];
    NoneBehind(tail, rest);
  }

  lemma AssignTaken(line: string, name: string, value: string)
    requires MatchAssign(line) == Some((name, value))
    ensures AssignShape(line, name, value)
  {
    hide IsWord, IsSpace, WordLen, Lstrip, AllWord, AllSpace, Strip, FindLast, Free;
    var n := WordLen(line);
    WordLenAll(line);
    Parted(line, n);
    var a := Skipped(line[n..]);
    var r := Lstrip(line[n..]);
    Parted(r, 2);
    var tail, rest := TailTaken(r[2..]);
    AssignIntro(line, name, a, tail, rest);
  }

  lemma AssignIntro(line: string, name: string, a: string, tail: string, rest: string)
    requires Name(name) && AllSpace(a) && tail != [] && Free(rest, ';')
    requires line == name + (a + (":=" + (tail + (";" + rest))))
    ensures AssignShape(line, name, Strip(tail))
  {
  }

  ghost predicate TokenShape(s: string, t: string) {
    (forall i :: 0 <= i < |t| ==> !IsSpace(t[i])) && exists rest :: s == t + rest && (rest == [] || IsSpace(rest[0]))
  }

  /** The name of the program: what stands before the next space. */
  lemma TokenExactly(s: string, t: string)
    ensures Token(s) == t <==> TokenShape(s, t)
  {
    hide IsSpace, Token;
    var rest := TokenTaken(s);
    assert TokenShape(s, Token(s));
    if TokenShape(s, t) {
      var r :| s == t + r && (r == [] || IsSpace(r[0]));
      TokenIs(t, r);
    }
  }

  lemma {:induction false} TokenTaken(s: string) returns (rest: string)
    ensures (forall i :: 0 <= i < |Token(s)| ==> !IsSpace(Token(s)[i]))
    ensures s == Token(s) + rest && (rest == [] || IsSpace(rest[0]))
  {
    rest := s;
    if s != [] && !IsSpace(s[0]) { rest := TokenTaken(s[1..]); }
  }

  lemma {:induction false} TokenIs(t: string, rest: string)
    requires (forall i :: 0 <= i < |t| ==> !IsSpace(t[i])) && (rest == [] || IsSpace(rest[0]))
    ensures Token(t + rest) == t
  {
    if t == [] {
      assert t + rest == rest;
    } else {
      assert (t + rest)[0] == t[0] && (t + rest)[1..] == t[1..] + rest;
      TokenIs(t[1..], rest);
    }
  }

  // ---------- references and numbers ----------

  ghost predicate ReferenceShape(value: string, e: Charts.Endpoint) {
    var v := Strip(value);
    if Free(v, '.') then e == Charts.Endpoint(Charts.INTERFACE, v)
    else Free(e.block, '.') && v == e.block + ("." + e.port)
  }

  /** A reference is taken apart at its first dot; one without a dot names a port of the chart. */
  lemma ReferenceExactly(value: string, e: Charts.Endpoint)
    ensures ParseReference(value) == e <==> ReferenceShape(value, e)
  {
    hide Find, Free, Strip;
    var v := Strip(value);
    if Free(v, '.') {
      FindNone(v, ".");
    } else {
      DotSplit(v);
      if ReferenceShape(value, e) { FirstDot(v, e.block, e.port); }
    }
  }

  lemma FirstDot(v: string, a: string, b: string)
    requires Free(a, '.') && v == a + ("." + b)
    ensures Find(v, ".") == |a| && v[..|a|] == a && v[|a| + 1..] == b
  {
    hide Find;
    FindAfter(a, ".", b);
  }

  lemma DotSplit(v: string)
    requires !Free(v, '.')
    ensures var i := Find(v, "."); i >= 0 && Free(v[..i], '.') && v == v[..i] + ("." + v[i + 1..])
  {
    hide Find;
    FirstPlace(v, ".");
    var k :| 0 <= k < |v| && v[k] == '.';
    assert v[k..k + 1] == ".";
    assert OccursAt(v, ".", k);
    var i := Find(v, ".");
    NoDotBefore(v, i);
    Headed(v, ".", i);
  }

  lemma NoDotBefore(v: string, i: nat)
    requires i <= |v| && forall j: nat :: j < i ==> !OccursAt(v, ".", j)
    ensures Free(v[..i], '.')
  {
    forall j | 0 <= j < i ensures v[..i][j] != '.' {
      assert !OccursAt(v, ".", j);
      assert v[j..j + 1] == [v[j]];
    }
  }

  /** A digit, or an underscore between two digits. */
  predicate DigitAt(s: string, i: nat)
    requires i < |s|
  {
    IsDigit(s[i]) || (s[i] == '_' && 0 < i < |s| - 1 && IsDigit(s[i - 1]) && IsDigit(s[i + 1]))
  }

  /** Digits, with single underscores between them. */
  predicate Grouped(s: string) {
    s != [] && forall i :: 0 <= i < |s| ==> DigitAt(s, i)
  }

  lemma Member(s: string, i: nat)
    requires Grouped(s) && i < |s|
    ensures DigitAt(s, i) && IsDigit(s[0])
  {
    assert DigitAt(s, 0);
  }

  lemma {:induction false} LongestGroup(s: string)
    ensures var n := DigitLen(s); n > 0 ==> Grouped(s[..n])
    ensures forall j :: DigitLen(s) < j <= |s| ==> !Grouped(s[..j])
  {
    hide IsDigit, Grouped;
    if s != [] && IsDigit(s[0]) {
      if |s| > 1 && IsDigit(s[1]) {
        LongestGroup(s[1..]);
        Regroup(s, 1);
      } else if |s| > 2 && s[1] == '_' && IsDigit(s[2]) {
        LongestGroup(s[2..]);
        Regroup(s, 2);
      } else {
        OneDigit(s);
      }
    } else {
      forall j | 0 < j <= |s| ensures !Grouped(s[..j]) {
        if Grouped(s[..j]) { Member(s[..j], 0); }
      }
    }
  }

  lemma OneDigit(s: string)
    requires s != [] && IsDigit(s[0])
    requires |s| > 1 ==> !IsDigit(s[1]) && (|s| > 2 && s[1] == '_' ==> !IsDigit(s[2]))
    ensures Grouped(s[..1]) && forall j :: 1 < j <= |s| ==> !Grouped(s[..j])
  {
    forall j | 1 < j <= |s| ensures !Grouped(s[..j]) {
      if Grouped(s[..j]) { Member(s[..j], 1); }
    }
  }

  /** A group stays one without its first digit, or without its first digit and the underscore behind it. */
  lemma Regroup(s: string, k: nat)
    requires 1 <= k <= 2 && k < |s| && IsDigit(s[0]) && IsDigit(s[k]) && (k == 2 ==> s[1] == '_')
    ensures forall j :: k < j <= |s| ==> (Grouped(s[..j]) <==> Grouped(s[k..][..j - k]))
    ensures DigitLen(s[k..]) > 0 && DigitLen(s) > k
  {
    forall j | k < j <= |s| ensures Grouped(s[..j]) <==> Grouped(s[k..][..j - k]) {
      assert s[..j][k..] == s[k..][..j - k];
      if Grouped(s[..j]) { Shortened(s[..j], k); }
      if Grouped(s[..j][k..]) { Lengthened(s[..j], k); }
    }
  }

  lemma Shortened(t: string, k: nat)
    requires Grouped(t) && k < |t| && IsDigit(t[k])
    ensures Grouped(t[k..])
  {
    var u := t[k..];
    forall i | 0 <= i < |u| ensures DigitAt(u, i) {
      Member(t, i + k);
    }
  }

  lemma Lengthened(t: string, k: nat)
    requires 1 <= k <= 2 && k < |t| && Grouped(t[k..]) && IsDigit(t[0]) && (k == 2 ==> t[1] == '_')
    ensures Grouped(t)
  {
    var u := t[k..];
    Member(u, 0);
    forall i | 0 <= i < |t| ensures DigitAt(t, i) {
      if i >= k { Member(u, i - k); }
    }
  }

  /** In front of something else, the whole group is the run of digits. */
  lemma RunOf(a: string, t: string)
    requires (a == [] || Grouped(a)) && (t == [] || (!IsDigit(t[0]) && t[0] != '_'))
    ensures DigitLen(a + t) == |a|
  {
    hide DigitLen, IsDigit, Grouped;
    var s := a + t;
    LongestGroup(s);
    assert s[..|a|] == a;
    var n := DigitLen(s);
    if n > |a| {
      assert s[..n][|a|] == t[0];
      Member(s[..n], |a|);
    }
  }

  lemma WholeGroup(u: string)
    ensures u != [] && DigitLen(u) == |u| <==> Grouped(u)
  {
    hide DigitLen;
    LongestGroup(u);
    assert u[..|u|] == u;
  }

  predicate Signed(t: string, d: string) {
    t == d || t == "+" + d || t == "-" + d
  }

  ghost predicate IntShape(s: string) {
    exists d :: Signed(Strip(s), d) && Grouped(d)
  }

  /** The texts taken as whole numbers: an optional sign and grouped digits, space around them. */
  lemma IntTextExactly(s: string)
    ensures IsIntText(s) <==> IntShape(s)
  {
    hide DigitLen, Strip;
    var t := Strip(s);
    WholeGroup(Unsigned(t));
    SignTaken(t);
    if IntShape(s) {
      var d :| Signed(Strip(s), d) && Grouped(d);
      Member(d, 0);
      UnsignedIs(t, d);
    }
  }

  lemma SignTaken(t: string)
    ensures Signed(t, Unsigned(t))
  {
  }

  lemma UnsignedIs(t: string, d: string)
    requires Signed(t, d) && d != [] && !IsSign(d[0])
    ensures Unsigned(t) == d
  {
  }

  /** Nothing, or the letter e, an optional sign and grouped digits. */
  ghost predicate ExponentShape(e: string) {
    e == [] || ((e[0] == 'e' || e[0] == 'E') && exists d :: Signed(e[1..], d) && Grouped(d))
  }

  lemma ExponentExactly(e: string)
    ensures e == [] || IsExponent(e) <==> ExponentShape(e)
  {
    hide DigitLen;
    if e != [] {
      var t := e[1..];
      WholeGroup(Unsigned(t));
      SignTaken(t);
      if ExponentShape(e) {
        var d :| Signed(t, d) && Grouped(d);
        Member(d, 0);
        UnsignedIs(t, d);
      }
    }
  }

  predicate MaybeGrouped(a: string) {
    a == [] || Grouped(a)
  }

  ghost predicate WholeShape(s: string, a: string, e: string) {
    Grouped(a) && ExponentShape(e) && s == a + e
  }

  ghost predicate PointShape(s: string, a: string, b: string, e: string) {
    MaybeGrouped(a) && MaybeGrouped(b) && a + b != [] && ExponentShape(e) && s == a + ("." + (b + e))
  }

  /** The texts taken as decimals: grouped digits with an optional point before, between or behind them,
      and an optional exponent. */
  lemma DecimalExactly(s: string)
    ensures IsDecimal(s) <==> (exists a, e :: WholeShape(s, a, e)) || exists a, b, e :: PointShape(s, a, b, e)
  {
    hide WholeShape, PointShape, IsDecimal;
    if IsDecimal(s) { DecimalTaken(s); }
    forall a, e | WholeShape(s, a, e) ensures IsDecimal(s) {
      WholeGiven(s, a, e);
    }
    forall a, b, e | PointShape(s, a, b, e) ensures IsDecimal(s) {
      PointGiven(s, a, b, e);
    }
  }

  lemma DecimalTaken(s: string)
    requires IsDecimal(s)
    ensures (exists a, e :: WholeShape(s, a, e)) || exists a, b, e :: PointShape(s, a, b, e)
  {
    hide DigitLen, IsExponent, Grouped, ExponentShape, PointShape;
    var n := DigitLen(s);
    var a, r := s[..n], s[n..];
    LongestGroup(s);
    Parted(s, n);
    if r != [] && r[0] == '.' {
      var b, e := PointTaken(a, r);
      assert PointShape(s, a, b, e);
    } else {
      ExponentExactly(r);
      assert WholeShape(s, a, r);
    }
  }

  lemma PointTaken(a: string, r: string) returns (b: string, e: string)
    requires MaybeGrouped(a) && r != [] && r[0] == '.'
    requires var k := DigitLen(r[1..]); (a != [] || k > 0) && (r[1 + k..] == [] || IsExponent(r[1 + k..]))
    ensures PointShape(a + r, a, b, e)
  {
    hide DigitLen, IsExponent, Grouped, ExponentShape;
    var t := r[1..];
    var k := DigitLen(t);
    b, e := t[..k], t[k..];
    LongestGroup(t);
    assert r[1 + k..] == e;
    ExponentExactly(e);
    Headed(r, ".", 0);
    Parted(t, k);
  }

  lemma WholeGiven(s: string, a: string, e: string)
    requires WholeShape(s, a, e)
    ensures IsDecimal(s)
  {
    hide DigitLen, IsExponent, Grouped;
    RunOf(a, e);
    ExponentExactly(e);
    assert s[|a|..] == e && a != [] by { NotEmpty(a); }
  }

  lemma NotEmpty(a: string)
    requires Grouped(a)
    ensures a != []
  {
  }

  lemma PointGiven(s: string, a: string, b: string, e: string)
    requires PointShape(s, a, b, e)
    ensures IsDecimal(s)
  {
    hide DigitLen, IsExponent, Grouped;
    var r := "." + (b + e);
    RunOf(a, r);
    RunOf(b, e);
    ExponentExactly(e);
    assert s[|a|..] == r && r[1..] == b + e && r[1 + |b|..] == e;
  }
}
