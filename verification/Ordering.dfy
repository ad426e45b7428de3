/** Orders and sorting: strings lexicographically, integers by insertion. */
module Ordering {

  predicate StringLeq(a: string, b: string) {
    if a == [] then true
    else if b == [] then false
    else if a[0] == b[0] then StringLeq(a[1..], b[1..])
    else a[0] < b[0]
  }

  lemma {:induction false} StringLeqReflexive(a: string)
    ensures StringLeq(a, a)
  {
    if a != [] { StringLeqReflexive(a[1..]); }
  }

  lemma {:induction false} StringLeqTotal(a: string, b: string)
    ensures StringLeq(a, b) || StringLeq(b, a)
    ensures StringLeq(a, b) && StringLeq(b, a) ==> a == b
  {
    if a != [] && b != [] && a[0] == b[0] {
      StringLeqTotal(a[1..], b[1..]);
      assert a == [a[0]] + a[1..] && b == [b[0]] + b[1..];
    }
  }

  lemma {:induction false} StringLeqTransitive(a: string, b: string, c: string)
    requires StringLeq(a, b) && StringLeq(b, c)
    ensures StringLeq(a, c)
  {
    if a != [] && b != [] && c != [] && a[0] == b[0] == c[0] {
      StringLeqTransitive(a[1..], b[1..], c[1..]);
    }
  }

  predicate Ascending(s: seq<int>) {
    forall i, j | 0 <= i < j < |s| :: s[i] <= s[j]
  }

  predicate StrictlyAscending(s: seq<int>) {
    forall i, j | 0 <= i < j < |s| :: s[i] < s[j]
  }

  predicate Distinct<T(==)>(s: seq<T>) {
    forall i, j | 0 <= i < j < |s| :: s[i] != s[j]
  }

  function InsertSorted(x: int, s: seq<int>): seq<int> {
    if s == [] then [x]
    else if x <= s[0] then [x] + s
    else [s[0]] + InsertSorted(x, s[1..])
  }

  /** The elements of s in ascending order. */
  function SortInts(s: seq<int>): seq<int> {
    if s == [] then [] else InsertSorted(s[0], SortInts(s[1..]))
  }

  lemma {:induction false} InsertPermutes(x: int, s: seq<int>)
    ensures multiset(InsertSorted(x, s)) == multiset(s) + multiset{x}
  {
    if s != [] {
      assert s == [s[0]] + s[1..];
      InsertPermutes(x, s[1..]);
    }
  }

  lemma {:induction false} InsertAscending(x: int, s: seq<int>)
    requires Ascending(s)
    ensures Ascending(InsertSorted(x, s))
    ensures InsertSorted(x, s)[0] == if s == [] || x <= s[0] then x else s[0]
    ensures StrictlyAscending(s) && x !in s ==> StrictlyAscending(InsertSorted(x, s))
  {
    if s == [] {
    } else if x <= s[0] {
      assert s[0] in s;
    } else {
      InsertAscending(x, s[1..]);
      Prepend(s[0], InsertSorted(x, s[1..]));
    }
  }

  lemma Prepend(h: int, t: seq<int>)
    ensures Ascending(t) && (t == [] || h <= t[0]) ==> Ascending([h] + t)
    ensures StrictlyAscending(t) && (t == [] || h < t[0]) ==> StrictlyAscending([h] + t)
  {
  }

  lemma {:induction false} SortPermutes(s: seq<int>)
    ensures multiset(SortInts(s)) == multiset(s)
    ensures forall x :: x in SortInts(s) <==> x in s
  {
    if s != [] {
      SortPermutes(s[1..]);
      InsertPermutes(s[0], SortInts(s[1..]));
      assert s == [s[0]] + s[1..];
    }
    forall x ensures x in SortInts(s) <==> x in s {
      assert x in multiset(SortInts(s)) <==> x in multiset(s);
    }
  }

  /** Sorting permutes the elements, and distinct elements come out strictly ascending. */
  lemma {:induction false} SortAscending(s: seq<int>)
    ensures multiset(SortInts(s)) == multiset(s)
    ensures forall x :: x in SortInts(s) <==> x in s
    ensures Ascending(SortInts(s))
    ensures Distinct(s) ==> StrictlyAscending(SortInts(s))
  {
    SortPermutes(s);
    if s != [] {
      SortAscending(s[1..]);
      InsertAscending(s[0], SortInts(s[1..]));
      if Distinct(s) { assert Distinct(s[1..]) && s[0] !in s[1..]; }
    }
  }

  lemma {:induction false} AscendingFixed(s: seq<int>)
    requires StrictlyAscending(s)
    ensures SortInts(s) == s
  {
    if s != [] {
      AscendingFixed(s[1..]);
      assert s == [s[0]] + s[1..];
    }
  }

  /** Two ascending sequences with the same elements are the same. */
  lemma {:induction false} AscendingUnique(s: seq<int>, t: seq<int>)
    requires Ascending(s) && Ascending(t) && multiset(s) == multiset(t)
    ensures s == t
  {
    if s == [] {
      assert |multiset(t)| == 0;
    } else {
      AscendingHeads(s, t);
      assert s == [s[0]] + s[1..] && t == [t[0]] + t[1..];
      assert multiset(s[1..]) == multiset(s) - multiset{s[0]} == multiset(t[1..]);
      AscendingUnique(s[1..], t[1..]);
    }
  }

  lemma AscendingHeads(s: seq<int>, t: seq<int>)
    requires Ascending(s) && Ascending(t) && multiset(s) == multiset(t) && s != []
    ensures t != [] && s[0] == t[0]
  {
    assert |multiset(s)| == |multiset(t)|;
    assert s[0] in multiset(t) && t[0] in multiset(s);
    assert s[0] in t && t[0] in s;
  }

  /** Two sequences sort to the same sequence exactly when they are permutations of each other. */
  lemma SortedEqualExactly(s: seq<int>, t: seq<int>)
    ensures SortInts(s) == SortInts(t) <==> multiset(s) == multiset(t)
  {
    SortAscending(s);
    SortAscending(t);
    if multiset(s) == multiset(t) { AscendingUnique(SortInts(s), SortInts(t)); }
  }
}
