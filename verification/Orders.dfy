/** Total orders and sorting, as Python's `sorted`, `list.sort` and `min` use them. */
module Orders {

  ghost predicate TotalOrder<T(!new)>(less: (T, T) -> bool) {
    && (forall x :: !less(x, x))
    && (forall x, y :: less(x, y) || less(y, x) || x == y)
    && (forall x, y, z :: less(x, y) && less(y, z) ==> less(x, z))
  }

  /** Python's `<` on strings: lexicographic by code point. */
  predicate StrLess(a: string, b: string) {
    if b == [] then false
    else if a == [] then true
    else a[0] < b[0] || (a[0] == b[0] && StrLess(a[1..], b[1..]))
  }

  lemma {:induction false} StrLessIrreflexive(a: string)
    ensures !StrLess(a, a)
  {
    if a != [] {
      StrLessIrreflexive(a[1..]);
    }
  }

  lemma {:induction false} StrLessTrichotomy(a: string, b: string)
    ensures StrLess(a, b) || StrLess(b, a) || a == b
  {
    if a != [] && b != [] {
      StrLessTrichotomy(a[1..], b[1..]);
      assert a == [a[0]] + a[1..] && b == [b[0]] + b[1..];
    }
  }

  lemma {:induction false} StrLessTransitive(a: string, b: string, c: string)
    requires StrLess(a, b) && StrLess(b, c)
    ensures StrLess(a, c)
  {
    if a != [] && a[0] == b[0] == c[0] {
      StrLessTransitive(a[1..], b[1..], c[1..]);
    }
  }

  lemma StrLessTotal()
    ensures TotalOrder(StrLess)
  {
    forall a: string, b: string
      ensures !StrLess(a, a) && (StrLess(a, b) || StrLess(b, a) || a == b)
    {
      StrLessIrreflexive(a);
      StrLessTrichotomy(a, b);
    }
    forall a: string, b: string, c: string | StrLess(a, b) && StrLess(b, c)
      ensures StrLess(a, c)
    {
      StrLessTransitive(a, b, c);
    }
  }

  // ---------- sequences as sets ----------

  ghost function Elements<T>(s: seq<T>): set<T> {
    set x | x in s
  }

  ghost predicate Distinct<T>(s: seq<T>) {
    forall i, j :: 0 <= i < j < |s| ==> s[i] != s[j]
  }

  lemma ElementsAppend<T>(s: seq<T>, x: T)
    ensures Elements(s + [x]) == Elements(s) + {x}
    ensures Distinct(s) && x !in s ==> Distinct(s + [x])
  {
  }

  lemma {:induction false} DistinctCardinality<T>(s: seq<T>)
    ensures |Elements(s)| <= |s|
    ensures Distinct(s) <==> |Elements(s)| == |s|
  {
    if s != [] {
      var last, rest := s[|s| - 1], s[..|s| - 1];
      DistinctCardinality(rest);
      assert s == rest + [last];
      assert Elements(s) == Elements(rest) + {last};
      if Distinct(s) {
        assert last !in rest;
      } else if last !in rest {
        assert Distinct(s) == Distinct(rest) by {
          assert forall i | 0 <= i < |rest| :: rest[i] in rest && rest[i] != last;
        }
      }
    }
  }

  /** A sequence longer than the set it draws from repeats an element. */
  lemma Pigeonhole<T>(s: seq<T>, pool: set<T>)
    requires Elements(s) <= pool && |s| > |pool|
    ensures !Distinct(s)
  {
    DistinctCardinality(s);
    SubsetCardinality(Elements(s), pool);
  }

  lemma {:induction false} SubsetCardinality<T>(small: set<T>, large: set<T>)
    requires small <= large
    ensures |small| <= |large|
    ensures |small| == |large| ==> small == large
  {
    assert large == small + (large - small);
  }

  /** The numbers below `n`. */
  ghost function UpTo(n: nat): set<int> {
    if n == 0 then {} else UpTo(n - 1) + {n - 1}
  }

  lemma {:induction false} UpToSize(n: nat)
    ensures |UpTo(n)| == n && forall p :: p in UpTo(n) <==> 0 <= p < n
  {
    if n > 0 { UpToSize(n - 1); }
  }

  // ---------- sorting ----------

  ghost predicate Sorted<T(!new)>(less: (T, T) -> bool, s: seq<T>) {
    forall i, j :: 0 <= i < j < |s| ==> !less(s[j], s[i])
  }

  function Insert<T(!new)>(less: (T, T) -> bool, s: seq<T>, x: T): (r: seq<T>)
    ensures multiset(r) == multiset(s) + multiset{x}
  {
    if s == [] then [x]
    else if less(x, s[0]) then [x] + s
    else
      assert s == [s[0]] + s[1..];
      [s[0]] + Insert(less, s[1..], x)
  }

  /** Equal elements may change places, other than with Python's `sorted`; the keys sorted here are distinct. */
  function Sort<T(!new)>(less: (T, T) -> bool, s: seq<T>): (r: seq<T>)
    ensures multiset(r) == multiset(s)
  {
    if s == [] then []
    else
      assert s == [s[0]] + s[1..];
      Insert(less, Sort(less, s[1..]), s[0])
  }

  lemma SameMultisetSameElements<T>(a: seq<T>, b: seq<T>)
    requires multiset(a) == multiset(b)
    ensures |a| == |b| && Elements(a) == Elements(b)
    ensures Distinct(a) <==> Distinct(b)
  {
    assert |multiset(a)| == |a| && |multiset(b)| == |b|;
    forall x ensures x in a <==> x in b {
      assert x in a <==> x in multiset(a);
      assert x in b <==> x in multiset(b);
    }
    DistinctCardinality(a);
    DistinctCardinality(b);
  }

  lemma {:induction false} InsertSorted<T(!new)>(less: (T, T) -> bool, s: seq<T>, x: T)
    requires TotalOrder(less) && Sorted(less, s)
    ensures Sorted(less, Insert(less, s, x))
  {
    if s == [] {
    } else if less(x, s[0]) {
      forall j | 0 <= j < |s| ensures !less(s[j], x) {}
    } else {
      InsertSorted(less, s[1..], x);
      var tail := Insert(less, s[1..], x);
      forall j | 0 <= j < |tail| ensures !less(tail[j], s[0]) {
        assert tail[j] in multiset(tail);
        assert tail[j] in s[1..] || tail[j] == x;
      }
    }
  }

  lemma {:induction false} SortSorted<T(!new)>(less: (T, T) -> bool, s: seq<T>)
    requires TotalOrder(less)
    ensures Sorted(less, Sort(less, s))
  {
    if s != [] {
      SortSorted(less, s[1..]);
      InsertSorted(less, Sort(less, s[1..]), s[0]);
    }
  }

  lemma SameFirst<T(!new)>(less: (T, T) -> bool, a: seq<T>, b: seq<T>)
    requires TotalOrder(less) && Sorted(less, a) && Sorted(less, b) && a != [] && b != []
    requires a[0] in b && b[0] in a
    ensures a[0] == b[0]
  {
    var i :| 0 <= i < |b| && b[i] == a[0];
    var j :| 0 <= j < |a| && a[j] == b[0];
    assert i == 0 || !less(b[i], b[0]);
    assert j == 0 || !less(a[j], a[0]);
  }

  lemma SameRest<T>(a: seq<T>, b: seq<T>)
    requires multiset(a) == multiset(b) && a != [] && b != [] && a[0] == b[0]
    ensures multiset(a[1..]) == multiset(b[1..])
  {
    assert a == [a[0]] + a[1..] && b == [b[0]] + b[1..];
    assert multiset(a[1..]) == multiset(a) - multiset{a[0]};
    assert multiset(b[1..]) == multiset(b) - multiset{b[0]};
  }

  /** There is one sorted arrangement of a bag. */
  lemma {:induction false} SortedSame<T(!new)>(less: (T, T) -> bool, a: seq<T>, b: seq<T>)
    requires TotalOrder(less) && Sorted(less, a) && Sorted(less, b) && multiset(a) == multiset(b)
    ensures a == b
    decreases |a|
  {
    hide TotalOrder;
    SameMultisetSameElements(a, b);
    if a != [] {
      assert a[0] in Elements(a) && b[0] in Elements(b);
      SameFirst(less, a, b);
      SameRest(a, b);
      SortedSame(less, a[1..], b[1..]);
      assert a == [a[0]] + a[1..] && b == [b[0]] + b[1..];
    }
  }

  lemma SortSame<T(!new)>(less: (T, T) -> bool, a: seq<T>, b: seq<T>)
    requires TotalOrder(less) && multiset(a) == multiset(b)
    ensures Sort(less, a) == Sort(less, b)
  {
    SortSorted(less, a);
    SortSorted(less, b);
    SortedSame(less, Sort(less, a), Sort(less, b));
  }

  /** `sorted` of these names. */
  ghost predicate SortedNames(names: seq<string>, pool: set<string>) {
    Elements(names) == pool && Distinct(names) && Sorted(StrLess, names)
  }

  lemma {:induction false} OnceEach<T>(s: seq<T>)
    requires Distinct(s)
    ensures forall x :: multiset(s)[x] == if x in s then 1 else 0
  {
    if s != [] {
      OnceEach(s[1..]);
      assert s == [s[0]] + s[1..];
    }
  }

  /** There is one sorted list of a set of names. */
  lemma SortedNamesUnique(a: seq<string>, b: seq<string>, pool: set<string>)
    requires SortedNames(a, pool) && SortedNames(b, pool)
    ensures a == b
  {
    StrLessTotal();
    OnceEach(a);
    OnceEach(b);
    forall x ensures multiset(a)[x] == multiset(b)[x] {
      assert x in a <==> x in Elements(a);
      assert x in b <==> x in Elements(b);
    }
    SortedSame(StrLess, a, b);
  }

  /** `sorted` of a Python set: whatever order the set is walked in, the result is the same. */
  method SortedSet<T(!new, ==)>(less: (T, T) -> bool, pool: set<T>) returns (r: seq<T>)
    requires TotalOrder(less)
    ensures Elements(r) == pool && Distinct(r) && Sorted(less, r)
  {
    var rest: set<T> := pool;
    var walk: seq<T> := [];
    while rest != {}
      invariant rest <= pool && Elements(walk) == pool - rest && Distinct(walk)
      decreases rest
    {
      var x :| x in rest;
      assert x !in Elements(walk);
      assert forall i | 0 <= i < |walk| :: walk[i] in Elements(walk);
      rest := rest - {x};
      ElementsAppend(walk, x);
      walk := walk + [x];
    }
    r := Sort(less, walk);
    SortSorted(less, walk);
    SameMultisetSameElements(r, walk);
  }

  // ---------- comparing sequences ----------

  /** Lexicographic comparison of sequences, the way Python compares lists. */
  ghost predicate LexLe<T(!new)>(less: (T, T) -> bool, a: seq<T>, b: seq<T>) {
    a <= b || exists i :: 0 <= i < |a| && i < |b| && a[..i] == b[..i] && less(a[i], b[i])
  }

  lemma {:induction false} FirstDifference<T>(a: seq<T>, b: seq<T>) returns (i: nat)
    requires |a| == |b| && a != b
    ensures i < |a| && a[..i] == b[..i] && a[i] != b[i]
  {
    var at :| 0 <= at < |a| && a[at] != b[at];
    i := 0;
    while a[i] == b[i]
      invariant i <= at && a[..i] == b[..i]
      decreases at - i
    {
      i := i + 1;
    }
  }

  lemma SamePrefix<T>(a: seq<T>, b: seq<T>, i: nat)
    requires i <= |a| && i <= |b| && a[..i] == b[..i]
    ensures forall k :: 0 <= k < i ==> a[k] == b[k]
  {
    forall k | 0 <= k < i ensures a[k] == b[k] {
      assert a[..i][k] == b[..i][k];
    }
  }

  lemma LexLeAntisymmetric<T(!new)>(less: (T, T) -> bool, a: seq<T>, b: seq<T>)
    requires TotalOrder(less) && |a| == |b| && LexLe(less, a, b) && LexLe(less, b, a)
    ensures a == b
  {
    if a != b {
      var i :| 0 <= i < |a| && a[..i] == b[..i] && less(a[i], b[i]);
      var j :| 0 <= j < |b| && b[..j] == a[..j] && less(b[j], a[j]);
      SamePrefix(a, b, i);
      SamePrefix(b, a, j);
    }
  }
}
