/** Lexicographic order on strings and the sort that `Array.prototype.sort`
    performs on an array of strings when it is given no comparator. */
module StringOrder {

  /** `a` sorts no later than `b`: character by character, a proper prefix first. */
  predicate LexLe(a: string, b: string)
  {
    a == [] || (b != [] && (a[0] < b[0] || (a[0] == b[0] && LexLe(a[1..], b[1..]))))
  }

  lemma {:induction false} LexLeReflexive(a: string)
    ensures LexLe(a, a)
  {
    if a != [] { LexLeReflexive(a[1..]); }
  }

  lemma {:induction false} LexLeTotal(a: string, b: string)
    ensures LexLe(a, b) || LexLe(b, a)
  {
    if a != [] && b != [] && a[0] == b[0] { LexLeTotal(a[1..], b[1..]); }
  }

  lemma {:induction false} LexLeAntisymmetric(a: string, b: string)
    requires LexLe(a, b) && LexLe(b, a)
    ensures a == b
  {
    if a != [] && b != [] {
      LexLeAntisymmetric(a[1..], b[1..]);
      assert a == [a[0]] + a[1..] && b == [b[0]] + b[1..];
    }
  }

  lemma {:induction false} LexLeTransitive(a: string, b: string, c: string)
    requires LexLe(a, b) && LexLe(b, c)
    ensures LexLe(a, c)
  {
    if a != [] && a[0] == b[0] && b[0] == c[0] { LexLeTransitive(a[1..], b[1..], c[1..]); }
  }

  ghost predicate Sorted(s: seq<string>)
  {
    forall i, j :: 0 <= i < j < |s| ==> LexLe(s[i], s[j])
  }

  /** `x` inserted into the sorted sequence `s` before the first element it precedes. */
  function Insert(x: string, s: seq<string>): (r: seq<string>)
    requires Sorted(s)
    ensures multiset(r) == multiset(s) + multiset{x}
    ensures Sorted(r)
  {
    if s == [] then [x]
    else if LexLe(x, s[0]) then
      assert forall j | 0 <= j < |s| :: LexLe(x, s[j]) by {
        forall j | 0 <= j < |s| ensures LexLe(x, s[j]) {
          if j > 0 { LexLeTransitive(x, s[0], s[j]); }
        }
      }
      SortedCons(x, s);
      [x] + s
    else
      var t := Insert(x, s[1..]);
      LexLeTotal(x, s[0]);
      HeadBelowInserted(x, s, t);
      SortedCons(s[0], t);
      assert s == [s[0]] + s[1..];
      [s[0]] + t
  }

  /** A string that precedes every element of a sorted sequence can go in front of it. */
  lemma SortedCons(h: string, t: seq<string>)
    requires Sorted(t) && forall j | 0 <= j < |t| :: LexLe(h, t[j])
    ensures Sorted([h] + t)
  {
    var r := [h] + t;
    forall i, j | 0 <= i < j < |r| ensures LexLe(r[i], r[j]) {
      assert r[j] == t[j - 1];
      if i > 0 { assert r[i] == t[i - 1]; }
    }
  }

  /** The head of a sorted sequence precedes every element of its tail with
      an element it precedes inserted. */
  lemma HeadBelowInserted(x: string, s: seq<string>, t: seq<string>)
    requires Sorted(s) && s != [] && LexLe(s[0], x)
    requires multiset(t) == multiset(s[1..]) + multiset{x}
    ensures forall j | 0 <= j < |t| :: LexLe(s[0], t[j])
  {
    forall j | 0 <= j < |t| ensures LexLe(s[0], t[j]) {
      assert t[j] in multiset(t);
      if t[j] != x {
        assert t[j] in multiset(s[1..]);
        var i :| 0 <= i < |s[1..]| && s[1..][i] == t[j];
        assert s[i + 1] == t[j];
      }
    }
  }

  /** The strings of `s` in ascending order. */
  function Sort(s: seq<string>): (r: seq<string>)
    ensures multiset(r) == multiset(s)
    ensures Sorted(r)
  {
    if s == [] then [] else
      assert s == s[..|s| - 1] + [s[|s| - 1]];
      Insert(s[|s| - 1], Sort(s[..|s| - 1]))
  }

  /** Two sorted sequences with the same elements are the same sequence:
      the sorted order of a collection does not depend on the order it came in. */
  lemma {:induction false} SortedUnique(s: seq<string>, t: seq<string>)
    requires Sorted(s) && Sorted(t) && multiset(s) == multiset(t)
    ensures s == t
  {
    assert |s| == |multiset(s)| == |multiset(t)| == |t|;
    if s != [] {
      SameHead(s, t);
      TailMultiset(s);
      TailMultiset(t);
      SortedTail(s);
      SortedTail(t);
      SortedUnique(s[1..], t[1..]);
      assert s == [s[0]] + s[1..];
      assert t == [t[0]] + t[1..];
    }
  }

  /** Two non-empty sorted sequences with the same elements start alike. */
  lemma SameHead(s: seq<string>, t: seq<string>)
    requires Sorted(s) && Sorted(t) && multiset(s) == multiset(t) && s != [] && t != []
    ensures s[0] == t[0]
  {
    assert s[0] in multiset(t);
    assert t[0] in multiset(s);
    HeadIsLeast(s, t[0]);
    HeadIsLeast(t, s[0]);
    LexLeAntisymmetric(s[0], t[0]);
  }

  lemma HeadIsLeast(s: seq<string>, x: string)
    requires Sorted(s) && x in s
    ensures LexLe(s[0], x)
  {
    var i :| 0 <= i < |s| && s[i] == x;
    if i == 0 { LexLeReflexive(x); }
  }

  lemma TailMultiset(s: seq<string>)
    requires s != []
    ensures multiset(s[1..]) == multiset(s) - multiset{s[0]}
  {
    assert s == [s[0]] + s[1..];
  }

  lemma SortedTail(s: seq<string>)
    requires Sorted(s) && s != []
    ensures Sorted(s[1..])
  {
    var r := s[1..];
    forall i, j | 0 <= i < j < |r| ensures LexLe(r[i], r[j]) {
      assert r[i] == s[i + 1] && r[j] == s[j + 1];
    }
  }

  /** Sorting two orderings of the same strings gives one and the same result. */
  lemma SortIgnoresOrder(s: seq<string>, t: seq<string>)
    requires multiset(s) == multiset(t)
    ensures Sort(s) == Sort(t)
  {
    SortedUnique(Sort(s), Sort(t));
  }

  /** A sequence lists each element once. */
  predicate NoDuplicates(s: seq<string>)
  {
    forall i, j :: 0 <= i < j < |s| ==> s[i] != s[j]
  }

  /** Sorting a duplicate-free sequence keeps it duplicate-free and keeps its elements. */
  lemma SortKeepsDistinct(s: seq<string>)
    requires NoDuplicates(s)
    ensures NoDuplicates(Sort(s)) && |Sort(s)| == |s|
    ensures forall k :: k in Sort(s) <==> k in s
  {
    var r := Sort(s);
    assert |r| == |s| by { assert |multiset(r)| == |multiset(s)|; }
    forall k ensures k in r <==> k in s {
      assert k in r <==> k in multiset(r);
      assert k in s <==> k in multiset(s);
    }
    forall i, j | 0 <= i < j < |r| ensures r[i] != r[j] {
      if r[i] == r[j] {
        RepeatCountsTwo(r, i, j);
        DistinctCountsOne(s, r[i]);
      }
    }
  }

  /** An element at two positions occurs at least twice. */
  lemma RepeatCountsTwo(r: seq<string>, i: nat, j: nat)
    requires i < j < |r| && r[i] == r[j]
    ensures multiset(r)[r[i]] >= 2
  {
    var x := r[i];
    assert r == r[..i] + [x] + r[i+1..j] + [x] + r[j+1..];
    assert multiset(r) == multiset(r[..i]) + multiset{x} + multiset(r[i+1..j]) + multiset{x} + multiset(r[j+1..]);
  }

  /** Two duplicate-free sequences with the same elements are orderings of one collection. */
  lemma DistinctSameMultiset(s: seq<string>, t: seq<string>)
    requires NoDuplicates(s) && NoDuplicates(t)
    requires forall x :: x in s <==> x in t
    ensures multiset(s) == multiset(t)
  {
    forall x ensures multiset(s)[x] == multiset(t)[x] {
      DistinctCountsOne(s, x);
      DistinctCountsOne(t, x);
      assert x in s <==> x in multiset(s);
      assert x in t <==> x in multiset(t);
    }
  }

  /** Sorting a sorted sequence leaves it as it is. */
  lemma SortOfSorted(s: seq<string>)
    requires Sorted(s)
    ensures Sort(s) == s
  {
    SortedUnique(Sort(s), s);
  }

  lemma {:induction false} DistinctCountsOne(s: seq<string>, x: string)
    requires NoDuplicates(s)
    ensures multiset(s)[x] <= 1
  {
    if s != [] {
      assert s == [s[0]] + s[1..];
      DistinctCountsOne(s[1..], x);
      if s[0] == x { assert x !in s[1..]; }
    }
  }
}
