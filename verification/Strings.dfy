/** The string operations the text parser leans on, as Python defines them for ASCII text. */
module Strings {
  import opened StText

  predicate IsDigit(c: char) {
    '0' <= c <= '9'
  }

  /** `\w`. */
  predicate IsWord(c: char) {
    'a' <= c <= 'z' || 'A' <= c <= 'Z' || IsDigit(c) || c == '_'
  }

  /** `\s`, and what `strip` removes. */
  predicate IsSpace(c: char) {
    c == ' ' || '\t' <= c <= '\r'
  }

  // ---------- stripping ----------

  function Lstrip(s: string): string {
    if s != [] && IsSpace(s[0]) then Lstrip(s[1..]) else s
  }

  function Rstrip(s: string): string {
    if s != [] && IsSpace(s[|s| - 1]) then Rstrip(s[..|s| - 1]) else s
  }

  function Strip(s: string): string {
    Rstrip(Lstrip(s))
  }

  /** Nothing to strip. */
  predicate Tight(s: string) {
    s != [] && !IsSpace(s[0]) && !IsSpace(s[|s| - 1])
  }

  lemma StripTight(s: string)
    requires Tight(s)
    ensures Strip(s) == s && Lstrip(s) == s
  {
  }

  lemma LstripSpace(s: string)
    ensures Lstrip([' '] + s) == Lstrip(s)
  {
    assert ([' '] + s)[1..] == s;
  }

  lemma RstripSpace(s: string)
    ensures Rstrip(s + [' ']) == Rstrip(s)
  {
    assert (s + [' '])[..|s|] == s;
  }

  lemma StripSpace(s: string)
    requires Tight(s)
    ensures Strip([' '] + s) == s && Strip(s + [' ']) == s && Lstrip([' '] + s) == s
  {
    LstripSpace(s);
    RstripSpace(s);
    assert Lstrip(s + [' ']) == s + [' '];
  }

  lemma StripIndent(s: string)
    requires Tight(s)
    ensures Strip("    " + s) == s
  {
    var a, b, c := [' '] + s, [' '] + ([' '] + s), [' '] + ([' '] + ([' '] + s));
    assert "    " + s == [' '] + c;
    LstripSpace(s);
    LstripSpace(a);
    LstripSpace(b);
    LstripSpace(c);
    StripTight(s);
  }

  // ---------- words ----------

  function WordLen(s: string): (n: nat)
    ensures n <= |s|
  {
    if s != [] && IsWord(s[0]) then 1 + WordLen(s[1..]) else 0
  }

  predicate AllWord(s: string) {
    forall i :: 0 <= i < |s| ==> IsWord(s[i])
  }

  lemma SplitAt(w: string, rest: string)
    ensures (w + rest)[..|w|] == w && (w + rest)[|w|..] == rest
    ensures w != [] ==> (w + rest)[0] == w[0] && (w + rest)[1..] == w[1..] + rest
  {
  }

  lemma {:induction false} WordLenIs(w: string, rest: string)
    requires AllWord(w) && (rest == [] || !IsWord(rest[0]))
    ensures WordLen(w + rest) == |w| && (w + rest)[..|w|] == w && (w + rest)[|w|..] == rest
  {
    if w == [] {
      assert w + rest == rest;
    } else {
      WordLenIs(w[1..], rest);
      SplitAt(w, rest);
      assert (w + rest)[1..] == w[1..] + rest;
    }
  }

  // ---------- looking for substrings ----------

  /** The first place `sub` occurs, or -1. */
  function Find(s: string, sub: string): (i: int)
    ensures -1 <= i <= |s|
    ensures i >= 0 ==> i + |sub| <= |s| && s[i..i + |sub|] == sub
  {
    if sub <= s then 0
    else if s == [] then -1
    else
      var i := Find(s[1..], sub);
      if i < 0 then -1 else i + 1
  }

  /** The last place `sub` occurs, or -1. */
  function FindLast(s: string, sub: string): (i: int)
    ensures -1 <= i <= |s|
    ensures i >= 0 ==> i + |sub| <= |s|
    decreases |s|
  {
    if |s| < |sub| then -1
    else if s[|s| - |sub|..] == sub then |s| - |sub|
    else if s == [] then -1
    else FindLast(s[..|s| - 1], sub)
  }

  predicate Contains(s: string, sub: string) {
    Find(s, sub) >= 0
  }

  /** No character of `s` is `c`. */
  predicate Free(s: string, c: char) {
    c !in s
  }

  /** Up to a text that does not contain its first character, `sub` is found at once. */
  lemma {:induction false} FindAfter(a: string, sub: string, rest: string)
    requires sub != [] && Free(a, sub[0])
    ensures Find(a + (sub + rest), sub) == |a|
  {
    if a == [] {
      assert a + (sub + rest) == sub + rest;
    } else {
      assert (a + (sub + rest))[1..] == a[1..] + (sub + rest);
      assert (a + (sub + rest))[0] == a[0];
      FindAfter(a[1..], sub, rest);
    }
  }

  lemma {:induction false} FindNone(s: string, sub: string)
    requires sub != [] && Free(s, sub[0])
    ensures Find(s, sub) == -1
  {
    if s != [] { FindNone(s[1..], sub); }
  }

  lemma FindLastEnd(s: string, sub: string)
    ensures FindLast(s + sub, sub) == |s|
  {
    assert (s + sub)[|s|..] == sub;
  }

  // ---------- splitting ----------

  /** `s.split(c)`, the piece before it so far being `cur`. */
  function SplitFrom(s: string, c: char, cur: string): seq<string>
    decreases |s|
  {
    if s == [] then [cur]
    else if s[0] == c then [cur] + SplitFrom(s[1..], c, "")
    else SplitFrom(s[1..], c, cur + [s[0]])
  }

  function Split(s: string, c: char): seq<string> {
    SplitFrom(s, c, "")
  }

  lemma {:induction false} SplitPiece(p: string, rest: string, c: char, cur: string)
    requires Free(p, c)
    ensures SplitFrom(p + rest, c, cur) == SplitFrom(rest, c, cur + p)
    decreases |p|
  {
    if p == [] {
      assert p + rest == rest && cur + p == cur;
    } else {
      assert (p + rest)[1..] == p[1..] + rest;
      SplitPiece(p[1..], rest, c, cur + [p[0]]);
      assert cur + [p[0]] + p[1..] == cur + p;
    }
  }

  /** Splitting undoes joining, when no piece contains the separator. */
  lemma {:induction false} SplitJoin(parts: seq<string>, c: char)
    requires parts != [] && forall p <- parts :: Free(p, c)
    ensures Split(Join([c], parts), c) == parts
    decreases |parts|
  {
    if |parts| == 1 {
      assert parts[0] + [] == parts[0];
      SplitPiece(parts[0], [], c, "");
      assert "" + parts[0] == parts[0];
    } else {
      var rest := Join([c], parts[1..]);
      assert Join([c], parts) == parts[0] + ([c] + rest);
      SplitPiece(parts[0], [c] + rest, c, "");
      assert ([c] + rest)[1..] == rest && "" + parts[0] == parts[0];
      SplitJoin(parts[1..], c);
      assert parts == [parts[0]] + parts[1..];
    }
  }
}
