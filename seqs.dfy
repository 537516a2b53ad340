/** Table scans: the derived repository queries are filters, lookups and sorts over a
    table's rows, taken in the table's (ascending id) order. */
module Seqs {
  import opened Results
  import opened Text

  /** The rows satisfying p, in their original order. */
  function Filter<T(!new)>(s: seq<T>, p: T -> bool): (r: seq<T>)
    ensures |r| <= |s|
    ensures forall x :: x in r <==> x in s && p(x)
    ensures multiset(r) <= multiset(s)
  {
    if s == [] then []
    else
      assert s == [s[0]] + s[1..];
      if p(s[0]) then [s[0]] + Filter(s[1..], p) else Filter(s[1..], p)
  }

  /** Filtering keeps every kept row as often as it occurs and drops every other. */
  lemma {:induction false} FilterMultiplicity<T(!new)>(s: seq<T>, p: T -> bool, x: T)
    ensures multiset(Filter(s, p))[x] == if p(x) then multiset(s)[x] else 0
  {
    if s != [] {
      FilterMultiplicity(s[1..], p, x);
      assert s == [s[0]] + s[1..];
      if p(s[0]) {
        assert Filter(s, p) == [s[0]] + Filter(s[1..], p);
      }
    }
  }

  /** r occurs in s at the strictly increasing positions f: r is a subsequence of s. */
  ghost predicate EmbedsAt<T>(r: seq<T>, s: seq<T>, f: seq<int>) {
    && |f| == |r|
    && (forall i :: 0 <= i < |f| ==> 0 <= f[i] < |s| && s[f[i]] == r[i])
    && (forall i, j :: 0 <= i < j < |f| ==> f[i] < f[j])
  }

  /** Every position moved one row further on. */
  function Shift(f: seq<int>): (g: seq<int>)
    ensures |g| == |f|
    ensures forall i :: 0 <= i < |g| ==> g[i] == f[i] + 1
  {
    seq(|f|, i requires 0 <= i < |f| => f[i] + 1)
  }

  /** The positions of the rows satisfying p, in increasing order. */
  function KeptPositions<T>(s: seq<T>, p: T -> bool): (f: seq<int>)
  {
    if s == [] then []
    else if p(s[0]) then [0] + Shift(KeptPositions(s[1..], p))
    else Shift(KeptPositions(s[1..], p))
  }

  /** An embedding into the tail of s is an embedding into s, one position further on. */
  lemma ShiftEmbeds<T>(r: seq<T>, s: seq<T>, f: seq<int>)
    requires s != [] && EmbedsAt(r, s[1..], f)
    ensures EmbedsAt(r, s, Shift(f))
  {
  }

  /** Putting the first row of s before an embedding into s's tail embeds at position 0. */
  lemma ConsEmbeds<T>(r: seq<T>, s: seq<T>, f: seq<int>)
    requires s != [] && EmbedsAt(r, s[1..], f)
    ensures EmbedsAt([s[0]] + r, s, [0] + Shift(f))
  {
    ShiftEmbeds(r, s, f);
    var g := [0] + Shift(f);
    assert forall i :: 1 <= i < |g| ==> g[i] == Shift(f)[i - 1];
  }

  /** Filtering keeps the order of the rows it keeps. */
  lemma {:induction false} FilterKeepsOrder<T(!new)>(s: seq<T>, p: T -> bool)
    ensures EmbedsAt(Filter(s, p), s, KeptPositions(s, p))
  {
    if s != [] {
      FilterKeepsOrder(s[1..], p);
      if p(s[0]) {
        ConsEmbeds(Filter(s[1..], p), s, KeptPositions(s[1..], p));
      } else {
        ShiftEmbeds(Filter(s[1..], p), s, KeptPositions(s[1..], p));
      }
    }
  }

  /** Two different rows of s satisfy p. */
  ghost predicate MatchesTwice<T>(s: seq<T>, p: T -> bool) {
    exists i, j :: 0 <= i < j < |s| && p(s[i]) && p(s[j])
  }

  /** Filtering keeps more than one row exactly when two different rows satisfy p. */
  lemma {:induction false} FilterKeepsTwo<T(!new)>(s: seq<T>, p: T -> bool)
    ensures |Filter(s, p)| > 1 <==> MatchesTwice(s, p)
  {
    var r := Filter(s, p);
    if |r| > 1 {
      FilterKeepsOrder(s, p);
      var f := KeptPositions(s, p);
      assert r[0] in r && r[1] in r;
      assert 0 <= f[0] < f[1] < |s| && s[f[0]] == r[0] && s[f[1]] == r[1];
    }
    if MatchesTwice(s, p) {
      var i, j :| 0 <= i < j < |s| && p(s[i]) && p(s[j]);
      assert s == s[..j] + s[j..];
      FilterAppend(s[..j], s[j..], p);
      assert s[i] in s[..j] && s[j] in s[j..];
      assert s[i] in Filter(s[..j], p) && s[j] in Filter(s[j..], p);
    }
  }

  /** When every row but the i-th satisfies p and that one does not, filtering drops exactly it. */
  lemma {:induction false} FilterDropsOne<T(!new)>(s: seq<T>, p: T -> bool, i: int)
    requires 0 <= i < |s| && !p(s[i])
    requires forall k :: 0 <= k < |s| && k != i ==> p(s[k])
    ensures Filter(s, p) == s[..i] + s[i + 1..]
  {
    assert s == s[..i] + ([s[i]] + s[i + 1..]);
    FilterAppend(s[..i], [s[i]] + s[i + 1..], p);
    FilterAppend([s[i]], s[i + 1..], p);
    FilterAll(s[..i], p);
    FilterAll(s[i + 1..], p);
    assert Filter([s[i]], p) == [];
  }

  /** The negation of a row predicate. */
  function Not<T>(p: T -> bool): T -> bool {
    x => !p(x)
  }

  /** Filtering keeps order: filtering a concatenation concatenates the filtered parts. */
  lemma {:induction false} FilterAppend<T(!new)>(a: seq<T>, b: seq<T>, p: T -> bool)
    ensures Filter(a + b, p) == Filter(a, p) + Filter(b, p)
  {
    if a != [] {
      assert (a + b)[0] == a[0];
      assert (a + b)[1..] == a[1..] + b;
      FilterAppend(a[1..], b, p);
    } else {
      assert a + b == b;
    }
  }

  lemma {:induction false} FilterAll<T(!new)>(s: seq<T>, p: T -> bool)
    requires forall x :: x in s ==> p(x)
    ensures Filter(s, p) == s
  {
    if s != [] {
      FilterAll(s[1..], p);
    }
  }

  /** The first row satisfying p, if any (an Optional-returning finder). */
  function Find<T(!new)>(s: seq<T>, p: T -> bool): (r: Option<T>)
    ensures r.Some? ==> r.value in s && p(r.value)
    ensures r.None? <==> forall x :: x in s ==> !p(x)
  {
    if s == [] then None
    else if p(s[0]) then Some(s[0])
    else Find(s[1..], p)
  }

  predicate Distinct<T(==)>(s: seq<T>) {
    forall i, j :: 0 <= i < j < |s| ==> s[i] != s[j]
  }

  /** A list without repetitions has as many distinct elements as positions. */
  lemma {:induction false} DistinctCount<T>(s: seq<T>)
    requires Distinct(s)
    ensures |set x | x in s| == |s|
  {
    if s != [] {
      DistinctCount(s[1..]);
      assert s == [s[0]] + s[1..];
      assert (set x | x in s) == {s[0]} + (set x | x in s[1..]);
    }
  }

  /** A proper part of a finite set is smaller. */
  lemma {:induction false} ProperSubsetSmaller<T>(a: set<T>, b: set<T>, y: T)
    requires a <= b && y in b && y !in a
    ensures |a| < |b|
  {
    assert a <= b - {y};
    SubsetNoLarger(a, b - {y});
  }

  lemma {:induction false} SubsetNoLarger<T>(a: set<T>, b: set<T>)
    requires a <= b
    ensures |a| <= |b|
    decreases |b|
  {
    if a != {} {
      var x :| x in a;
      SubsetNoLarger(a - {x}, b - {x});
    }
  }

  /** Each row's key is at most the next one's. */
  predicate SortedBy<T>(s: seq<T>, key: T -> string) {
    forall i :: 0 < i < |s| ==> NameLe(key(s[i - 1]), key(s[i]))
  }

  /** Adjacent order gives order between any two positions. */
  lemma {:induction false} SortedByPairwise<T>(s: seq<T>, key: T -> string, i: int, j: int)
    requires SortedBy(s, key)
    requires 0 <= i <= j < |s|
    ensures NameLe(key(s[i]), key(s[j]))
    decreases j - i
  {
    if i == j {
      NameLeTotal(key(s[i]), key(s[i]));
    } else {
      SortedByPairwise(s, key, i, j - 1);
      NameLeTransitive(key(s[i]), key(s[j - 1]), key(s[j]));
    }
  }

  function InsertBy<T>(x: T, s: seq<T>, key: T -> string): (r: seq<T>)
    requires SortedBy(s, key)
    ensures SortedBy(r, key)
    ensures multiset(r) == multiset(s) + multiset{x}
    ensures |r| == |s| + 1
    ensures r[0] == x || (s != [] && r[0] == s[0])
  {
    if s == [] || NameLe(key(x), key(s[0])) then
      [x] + s
    else
      NameLeTotal(key(x), key(s[0]));
      var rest := InsertBy(x, s[1..], key);
      assert s == [s[0]] + s[1..];
      [s[0]] + rest
  }

  /** Insertion sort by key: a permutation of the rows in key order. */
  function SortBy<T>(s: seq<T>, key: T -> string): (r: seq<T>)
    ensures SortedBy(r, key)
    ensures multiset(r) == multiset(s)
  {
    if s == [] then []
    else
      assert s == [s[0]] + s[1..];
      InsertBy(s[0], SortBy(s[1..], key), key)
  }

  /** The rows of a sorted permutation are exactly the original rows. */
  lemma SortByMembers<T>(s: seq<T>, key: T -> string, x: T)
    ensures x in SortBy(s, key) <==> x in s
  {
    assert x in multiset(SortBy(s, key)) <==> x in multiset(s);
  }
}
