/**
 * The PHP array built-ins that build the lists of sensitive files: array_unique(),
 * array_filter() without a callback, and sort() on strings.
 */
module PhpArrays {
  import opened PhpText

  predicate Distinct<T(==)>(s: seq<T>)
  {
    forall i, j :: 0 <= i < j < |s| ==> s[i] != s[j]
  }

  /** array_values(array_unique($s)): the first occurrence of every value, in order. */
  function Unique(s: seq<string>): (r: seq<string>)
    ensures Distinct(r)
    ensures forall x :: x in r <==> x in s
    ensures |r| <= |s|
  {
    if |s| == 0 then []
    else
      var u := Unique(s[..|s| - 1]);
      if s[|s| - 1] in u then u else u + [s[|s| - 1]]
  }

  /** array_values(array_filter($s)): the strings that are not falsy, in order. */
  function FilterTruthy(s: seq<string>): (r: seq<string>)
    ensures forall x :: x in r <==> x in s && !IsFalsyString(x)
    ensures |r| <= |s|
  {
    if |s| == 0 then []
    else (if IsFalsyString(s[0]) then [] else [s[0]]) + FilterTruthy(s[1..])
  }

  /** Byte-wise lexicographic order, the order strcmp() gives. */
  predicate StrLe(a: string, b: string)
    decreases |a|
  {
    |a| == 0 || (|b| > 0 && (a[0] < b[0] || (a[0] == b[0] && StrLe(a[1..], b[1..]))))
  }

  lemma StrLeTotal(a: string, b: string)
    ensures StrLe(a, b) || StrLe(b, a)
    decreases |a|
  {
    if |a| > 0 && |b| > 0 && a[0] == b[0] { StrLeTotal(a[1..], b[1..]); }
  }

  lemma StrLeTransitive(a: string, b: string, c: string)
    requires StrLe(a, b) && StrLe(b, c)
    ensures StrLe(a, c)
    decreases |a|
  {
    if |a| > 0 && a[0] == b[0] && b[0] == c[0] { StrLeTransitive(a[1..], b[1..], c[1..]); }
  }

  lemma StrLeAntisymmetric(a: string, b: string)
    requires StrLe(a, b) && StrLe(b, a)
    ensures a == b
    decreases |a|
  {
    if |a| > 0 {
      StrLeAntisymmetric(a[1..], b[1..]);
      assert a == [a[0]] + a[1..] && b == [b[0]] + b[1..];
    }
  }

  predicate Sorted(s: seq<string>)
  {
    forall i, j :: 0 <= i < j < |s| ==> StrLe(s[i], s[j])
  }

  function Insert(x: string, s: seq<string>): (r: seq<string>)
    requires Sorted(s)
    ensures Sorted(r)
    ensures multiset(r) == multiset(s) + multiset{x}
  {
    if |s| == 0 then [x]
    else if StrLe(x, s[0]) then
      BelowSortedHead(x, s);
      [x] + s
    else
      var t := Insert(x, s[1..]);
      StrLeTotal(x, s[0]);
      assert s == [s[0]] + s[1..];
      HeadBelowInserted(x, s, t);
      [s[0]] + t
  }

  /** Whatever is below the head of a sorted list is below all of it. */
  lemma BelowSortedHead(x: string, s: seq<string>)
    requires Sorted(s) && |s| > 0 && StrLe(x, s[0])
    ensures forall j :: 0 <= j < |s| ==> StrLe(x, s[j])
  {
    forall j | 0 <= j < |s| ensures StrLe(x, s[j]) {
      if j > 0 { StrLeTransitive(x, s[0], s[j]); }
    }
  }

  /** The head of a sorted list is below its tail with an element above the head added. */
  lemma HeadBelowInserted(x: string, s: seq<string>, t: seq<string>)
    requires Sorted(s) && |s| > 0 && StrLe(s[0], x)
    requires multiset(t) == multiset(s[1..]) + multiset{x}
    ensures forall j :: 0 <= j < |t| ==> StrLe(s[0], t[j])
  {
    forall j | 0 <= j < |t| ensures StrLe(s[0], t[j]) {
      var y := t[j];
      assert y in multiset(t);
      assert y == x || y in multiset(s[1..]);
      if y != x { var k :| 0 <= k < |s[1..]| && s[1..][k] == y; assert s[k + 1] == y; }
    }
  }

  /** PHP sort() on a list of strings: ascending, a permutation of the input. */
  function Sort(s: seq<string>): (r: seq<string>)
    ensures Sorted(r)
    ensures multiset(r) == multiset(s)
  {
    if |s| == 0 then []
    else
      assert s == s[..|s| - 1] + [s[|s| - 1]];
      Insert(s[|s| - 1], Sort(s[..|s| - 1]))
  }

  predicate StrictlySorted(s: seq<string>)
  {
    Sorted(s) && Distinct(s)
  }

  /**
   * array_values(array_unique($s)) followed by sort(): the list shape of every
   * wgNSFWFilesOnPage value the server emits.
   */
  function SortedUnique(s: seq<string>): (r: seq<string>)
    ensures StrictlySorted(r)
    ensures forall x :: x in r <==> x in s
  {
    var u := Unique(s);
    var r := Sort(u);
    assert forall x :: x in r <==> x in multiset(r);
    assert forall x :: x in u <==> x in multiset(u);
    DistinctPermutation(u, r);
    r
  }

  lemma DistinctPermutation(u: seq<string>, r: seq<string>)
    requires Distinct(u) && multiset(u) == multiset(r)
    ensures Distinct(r)
  {
    forall i, j | 0 <= i < j < |r| ensures r[i] != r[j] {
      DistinctCountsOnce(u, r[i]);
      if r[i] == r[j] { TwiceCounted(r, i, j); }
    }
  }

  lemma DistinctCountsOnce(u: seq<string>, x: string)
    requires Distinct(u)
    ensures multiset(u)[x] <= 1
  {
    if |u| > 0 {
      assert u == u[..|u| - 1] + [u[|u| - 1]];
      DistinctCountsOnce(u[..|u| - 1], x);
      if x == u[|u| - 1] { assert x !in u[..|u| - 1]; }
    }
  }

  lemma TwiceCounted(r: seq<string>, i: nat, j: nat)
    requires i < j < |r| && r[i] == r[j]
    ensures multiset(r)[r[i]] >= 2
  {
    assert r == r[..i] + [r[i]] + r[i + 1..j] + [r[j]] + r[j + 1..];
  }

  lemma StrLeReflexive(a: string)
    ensures StrLe(a, a)
  {
  }

  lemma SameMembersSameEmptiness(a: seq<string>, b: seq<string>)
    requires forall x :: x in a <==> x in b
    ensures |a| == 0 <==> |b| == 0
  {
    if |a| > 0 { assert a[0] in b; }
    if |b| > 0 { assert b[0] in a; }
  }

  /** Two strictly sorted lists with the same members are the same list. */
  lemma {:induction false} StrictlySortedDetermined(a: seq<string>, b: seq<string>)
    requires StrictlySorted(a) && StrictlySorted(b)
    requires forall x :: x in a <==> x in b
    ensures a == b
    decreases |a|
  {
    SameMembersSameEmptiness(a, b);
    if |a| > 0 && |b| > 0 {
      assert a[0] in b;
      var i :| 0 <= i < |b| && b[i] == a[0];
      assert b[0] in a;
      var j :| 0 <= j < |a| && a[j] == b[0];
      StrLeReflexive(a[0]);
      assert StrLe(b[0], a[0]) by { if i > 0 { assert StrLe(b[0], b[i]); } }
      assert StrLe(a[0], b[0]) by { if j > 0 { assert StrLe(a[0], a[j]); } }
      StrLeAntisymmetric(a[0], b[0]);
      forall x ensures x in a[1..] <==> x in b[1..] {
        if x in a[1..] {
          var k :| 1 <= k < |a| && a[k] == x;
          assert x != a[0];
        }
        if x in b[1..] {
          var k :| 1 <= k < |b| && b[k] == x;
          assert x != b[0];
        }
        assert x in a <==> x in b;
        assert a == [a[0]] + a[1..] && b == [b[0]] + b[1..];
      }
      StrictlySortedDetermined(a[1..], b[1..]);
      assert a == [a[0]] + a[1..] && b == [b[0]] + b[1..];
    }
  }

  /** sort(array_unique($a)) depends only on which strings occur in `a`. */
  lemma SortedUniqueDeterminedByMembers(a: seq<string>, b: seq<string>)
    requires forall x :: x in a <==> x in b
    ensures SortedUnique(a) == SortedUnique(b)
  {
    StrictlySortedDetermined(SortedUnique(a), SortedUnique(b));
  }
}
