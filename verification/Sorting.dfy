/** Sorting by key in byte order, as `slices.SortFunc` with `bytes.Compare` does. */
module Sorting {

  predicate LexLe(a: string, b: string) {
    a == [] || (b != [] && (a[0] < b[0] || (a[0] == b[0] && LexLe(a[1..], b[1..]))))
  }

  lemma {:induction false} LexTotal(a: string, b: string)
    ensures LexLe(a, b) || LexLe(b, a)
  {
    if a != [] && b != [] && a[0] == b[0] { LexTotal(a[1..], b[1..]); }
  }

  /** Byte order: a prefix comes first, otherwise the first difference decides. */
  lemma {:induction false} LexMeans(a: string, b: string)
    ensures LexLe(a, b) <==> a <= b || exists i :: DiffersBelow(a, b, i)
  {
    if a != [] && b != [] && a[0] == b[0] {
      LexMeans(a[1..], b[1..]);
      assert a == [a[0]] + a[1..] && b == [b[0]] + b[1..];
      if i :| DiffersBelow(a[1..], b[1..], i) {
        assert a[..i + 1] == [a[0]] + a[1..][..i] && b[..i + 1] == [b[0]] + b[1..][..i];
        assert DiffersBelow(a, b, i + 1);
      }
      if i :| DiffersBelow(a, b, i) {
        assert i > 0 && a[1..][..i - 1] == a[..i][1..] && b[1..][..i - 1] == b[..i][1..];
        assert DiffersBelow(a[1..], b[1..], i - 1);
      }
    } else if a != [] && b != [] {
      assert a[0] < b[0] ==> DiffersBelow(a, b, 0);
      assert forall i | DiffersBelow(a, b, i) :: i == 0;
    }
  }

  ghost predicate DiffersBelow(a: string, b: string, i: int) {
    0 <= i < |a| && i < |b| && a[..i] == b[..i] && a[i] < b[i]
  }

  lemma {:induction false} LexAntisymmetric(a: string, b: string)
    requires LexLe(a, b) && LexLe(b, a)
    ensures a == b
  {
    if a != [] {
      LexAntisymmetric(a[1..], b[1..]);
      assert a == [a[0]] + a[1..] && b == [b[0]] + b[1..];
    }
  }

  lemma {:induction false} LexTransitive(a: string, b: string, c: string)
    requires LexLe(a, b) && LexLe(b, c)
    ensures LexLe(a, c)
  {
    if a != [] && a[0] == b[0] && b[0] == c[0] { LexTransitive(a[1..], b[1..], c[1..]); }
  }

  ghost predicate SortedBy<T>(key: T -> string, s: seq<T>) {
    forall i, j | 0 <= i < j < |s| :: LexLe(key(s[i]), key(s[j]))
  }

  ghost predicate DistinctKeys<T>(key: T -> string, s: seq<T>) {
    forall i, j | 0 <= i < j < |s| :: key(s[i]) != key(s[j])
  }

  function InsertByKey<T>(key: T -> string, x: T, s: seq<T>): (r: seq<T>)
    requires SortedBy(key, s)
    ensures SortedBy(key, r) && multiset(r) == multiset(s) + multiset{x}
  {
    if s == [] then [x]
    else if LexLe(key(x), key(s[0])) then
      BelowHead(key, x, s);
      SortedCons(key, x, s);
      [x] + s
    else
      var r := InsertByKey(key, x, s[1..]);
      assert s == [s[0]] + s[1..];
      HeadStays(key, x, s, r);
      SortedCons(key, s[0], r);
      [s[0]] + r
  }

  lemma SortedCons<T>(key: T -> string, x: T, s: seq<T>)
    requires SortedBy(key, s) && forall y | y in s :: LexLe(key(x), key(y))
    ensures SortedBy(key, [x] + s)
  {
    assert forall j | 1 <= j < |[x] + s| :: ([x] + s)[j] == s[j - 1] && s[j - 1] in s;
  }

  lemma BelowHead<T>(key: T -> string, x: T, s: seq<T>)
    requires SortedBy(key, s) && s != [] && LexLe(key(x), key(s[0]))
    ensures forall y | y in s :: LexLe(key(x), key(y))
  {
    forall y | y in s ensures LexLe(key(x), key(y)) {
      var j :| 0 <= j < |s| && s[j] == y;
      if j > 0 { LexTransitive(key(x), key(s[0]), key(s[j])); }
    }
  }

  lemma HeadStays<T>(key: T -> string, x: T, s: seq<T>, r: seq<T>)
    requires SortedBy(key, s) && s != [] && !LexLe(key(x), key(s[0]))
    requires multiset(r) == multiset(s[1..]) + multiset{x}
    ensures forall y | y in r :: LexLe(key(s[0]), key(y))
  {
    LexTotal(key(x), key(s[0]));
    forall y | y in r ensures LexLe(key(s[0]), key(y)) {
      assert y in multiset(r);
      if y != x {
        assert y in s[1..];
        var j :| 0 <= j < |s[1..]| && s[1..][j] == y;
        assert s[j + 1] == y;
      }
    }
  }

  function SortByKey<T>(key: T -> string, s: seq<T>): (r: seq<T>)
    ensures SortedBy(key, r) && multiset(r) == multiset(s)
  {
    if s == [] then []
    else
      assert s == s[..|s| - 1] + [s[|s| - 1]];
      InsertByKey(key, s[|s| - 1], SortByKey(key, s[..|s| - 1]))
  }

  lemma {:induction false} DistinctCount<T>(key: T -> string, s: seq<T>, i: nat)
    requires DistinctKeys(key, s) && i < |s|
    ensures multiset(s)[s[i]] == 1
  {
    assert s == s[..i] + [s[i]] + s[i + 1..];
    assert s[i] !in s[..i] && s[i] !in s[i + 1..];
  }

  /** Distinct keys stay distinct in any permutation. */
  lemma PermutationKeepsDistinct<T>(key: T -> string, a: seq<T>, b: seq<T>)
    requires DistinctKeys(key, a) && multiset(a) == multiset(b)
    ensures DistinctKeys(key, b)
  {
    forall i, j | 0 <= i < j < |b| ensures key(b[i]) != key(b[j]) {
      assert b[i] in multiset(b) && b[j] in multiset(b);
      var p :| 0 <= p < |a| && a[p] == b[i];
      var q :| 0 <= q < |a| && a[q] == b[j];
      DistinctCount(key, a, p);
      assert b == b[..j] + b[j..];
      assert multiset(b) == multiset(b[..j]) + multiset(b[j..]);
      assert b[i] in b[..j] && b[j] in b[j..];
    }
  }

  /** A list sorted by distinct keys is determined by its elements. */
  lemma {:induction false} SortedIsUnique<T>(key: T -> string, a: seq<T>, b: seq<T>)
    requires SortedBy(key, a) && SortedBy(key, b) && DistinctKeys(key, a) && DistinctKeys(key, b)
    requires forall x :: x in a <==> x in b
    ensures a == b
  {
    if a == [] {
      assert forall i | 0 <= i < |b| :: b[i] in a;
    } else {
      assert a[0] in a && b != [];
      assert b[0] in b;
      var i :| 0 <= i < |b| && b[i] == a[0];
      var j :| 0 <= j < |a| && a[j] == b[0];
      LexRefl(key(a[0]));
      LexAntisymmetric(key(a[0]), key(b[0]));
      assert a[0] == b[0];
      forall x ensures x in a[1..] <==> x in b[1..] {
        TailMembers(key, a, x);
        TailMembers(key, b, x);
      }
      SortedIsUnique(key, a[1..], b[1..]);
    }
  }

  lemma {:induction false} LexRefl(a: string)
    ensures LexLe(a, a)
  {
    if a != [] { LexRefl(a[1..]); }
  }

  lemma TailMembers<T>(key: T -> string, s: seq<T>, x: T)
    requires DistinctKeys(key, s) && s != []
    ensures x in s[1..] <==> x in s && x != s[0]
  {
    assert s == [s[0]] + s[1..];
  }
}
