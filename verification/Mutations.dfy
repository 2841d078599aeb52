/** Hide-and-seek mutations: the sorted adjacent overlap check and right-to-left splicing,
    against simultaneous substitution. */
module Mutations {
  import opened Common
  import opened Utf8

  datatype Mutation = Mutation(path: string, start: int, before: Bytes, after: Bytes)

  type Files = map<string, Bytes>

  function End(m: Mutation): int {
    m.start + |m.before|
  }

  // ------------------------------------------------------------------
  // Validity, without reference to any order
  // ------------------------------------------------------------------

  /** One mutation against its file; `editable` is the path policy. */
  predicate Fits(m: Mutation, files: Files, editable: string -> bool) {
    m.path in files && editable(m.path) &&
    0 <= m.start && 0 < |m.before| <= 16384 && |m.after| <= 16384 && End(m) <= |files[m.path]| &&
    Utf8.Valid(m.before) && Utf8.Valid(m.after) && m.before != m.after &&
    files[m.path][m.start..End(m)] == m.before
  }

  /** Different mutations of one file touch different bytes. */
  ghost predicate PairwiseDisjoint(ms: seq<Mutation>) {
    forall i, j :: 0 <= i < |ms| && 0 <= j < |ms| && i != j && ms[i].path == ms[j].path ==>
      End(ms[i]) <= ms[j].start || End(ms[j]) <= ms[i].start
  }

  ghost predicate IsValid(ms: seq<Mutation>, files: Files, editable: string -> bool) {
    1 <= |ms| <= 5 && (forall i :: 0 <= i < |ms| ==> Fits(ms[i], files, editable)) && PairwiseDisjoint(ms)
  }

  // ------------------------------------------------------------------
  // Validate: any list sorted by path and start, adjacent checks only
  // ------------------------------------------------------------------

  /** Go's byte-wise string order. */
  predicate PathLess(a: string, b: string) {
    if |b| == 0 then false
    else if |a| == 0 then true
    else a[0] < b[0] || (a[0] == b[0] && PathLess(a[1..], b[1..]))
  }

  predicate ComesBefore(a: Mutation, b: Mutation) {
    if a.path == b.path then a.start < b.start else PathLess(a.path, b.path)
  }

  /** What any sort by that comparison guarantees. */
  ghost predicate SortedByPath(ordered: seq<Mutation>) {
    forall i, j :: 0 <= i < j < |ordered| ==> !ComesBefore(ordered[j], ordered[i])
  }

  ghost predicate AdjacentOk(ordered: seq<Mutation>, n: nat)
    requires n <= |ordered|
  {
    forall i :: 0 <= i && i + 1 < n ==>
      !(ordered[i].path == ordered[i + 1].path && End(ordered[i]) > ordered[i + 1].start)
  }

  lemma {:induction false} PathLessTotal(a: string, b: string)
    ensures a != b ==> PathLess(a, b) || PathLess(b, a)
    decreases |a|
  {
    if |a| > 0 && |b| > 0 && a[0] == b[0] {
      PathLessTotal(a[1..], b[1..]);
      assert a == [a[0]] + a[1..] && b == [b[0]] + b[1..];
    }
  }

  lemma {:induction false} PathLessIrreflexive(a: string)
    ensures !PathLess(a, a)
    decreases |a|
  {
    if |a| > 0 {
      PathLessIrreflexive(a[1..]);
    }
  }

  /** Mutations of one file stand together in a sorted list. */
  lemma SamePathBetween(ordered: seq<Mutation>, i: nat, k: nat, j: nat)
    requires SortedByPath(ordered) && i <= k <= j < |ordered| && ordered[i].path == ordered[j].path
    ensures ordered[k].path == ordered[i].path
  {
    var a, b := ordered[i].path, ordered[k].path;
    if a != b {
      PathLessTotal(a, b);
      assert !ComesBefore(ordered[k], ordered[i]);
      assert !ComesBefore(ordered[j], ordered[k]);
      PathLessIrreflexive(a);
    }
  }

  /** In a sorted list, the adjacent check already separates every pair. */
  lemma {:induction false} AdjacentSeparates(ordered: seq<Mutation>, n: nat, i: nat, j: nat)
    requires SortedByPath(ordered) && i < j < n <= |ordered| && AdjacentOk(ordered, n)
    requires forall k :: 0 <= k < n ==> |ordered[k].before| > 0
    requires ordered[i].path == ordered[j].path
    ensures End(ordered[i]) <= ordered[j].start
    decreases j - i
  {
    if j == i + 1 {
      assert !(ordered[i].path == ordered[i + 1].path && End(ordered[i]) > ordered[i + 1].start);
    } else {
      SamePathBetween(ordered, i, j - 1, j);
      AdjacentSeparates(ordered, n, i, j - 1);
      assert !(ordered[j - 1].path == ordered[j - 1 + 1].path && End(ordered[j - 1]) > ordered[j - 1 + 1].start);
    }
  }

  /** Two lists with the same elements, counted with multiplicity. */
  ghost predicate SameElements(a: seq<Mutation>, b: seq<Mutation>) {
    multiset(a) == multiset(b)
  }

  lemma SameLength(a: seq<Mutation>, b: seq<Mutation>)
    requires SameElements(a, b)
    ensures |a| == |b| && (forall m :: m in a <==> m in b)
  {
    assert |multiset(a)| == |a| && |multiset(b)| == |b|;
    forall m ensures m in a <==> m in b {
      assert m in multiset(a) <==> m in a;
      assert m in multiset(b) <==> m in b;
    }
  }

  /** Disjointness of non-empty ranges is a property of the elements alone. */
  ghost predicate DisjointElements(ms: seq<Mutation>) {
    (forall m :: m in ms ==> multiset(ms)[m] == 1) &&
    (forall a, b :: a in ms && b in ms && a != b && a.path == b.path ==> End(a) <= b.start || End(b) <= a.start)
  }

  lemma CountsOnce(ms: seq<Mutation>, i: nat)
    requires i < |ms|
    ensures multiset(ms)[ms[i]] == 1 <==> (forall j :: 0 <= j < |ms| && j != i ==> ms[j] != ms[i])
  {
    assert ms == ms[..i] + [ms[i]] + ms[i + 1..];
    assert multiset(ms) == multiset(ms[..i]) + multiset{ms[i]} + multiset(ms[i + 1..]);
    if forall j :: 0 <= j < |ms| && j != i ==> ms[j] != ms[i] {
      assert ms[i] !in ms[..i] && ms[i] !in ms[i + 1..];
    } else {
      var j :| 0 <= j < |ms| && j != i && ms[j] == ms[i];
      if j < i {
        assert ms[..i][j] == ms[i];
        assert ms[i] in multiset(ms[..i]);
      } else {
        assert ms[i + 1..][j - i - 1] == ms[i];
        assert ms[i] in multiset(ms[i + 1..]);
      }
    }
  }

  lemma DisjointIsAboutElements(ms: seq<Mutation>)
    requires forall m :: m in ms ==> |m.before| > 0
    ensures PairwiseDisjoint(ms) <==> DisjointElements(ms)
  {
    if PairwiseDisjoint(ms) {
      forall m | m in ms ensures multiset(ms)[m] == 1 {
        var i :| 0 <= i < |ms| && ms[i] == m;
        CountsOnce(ms, i);
      }
    }
    if DisjointElements(ms) {
      forall i, j | 0 <= i < |ms| && 0 <= j < |ms| && i != j && ms[i].path == ms[j].path
        ensures End(ms[i]) <= ms[j].start || End(ms[j]) <= ms[i].start {
        CountsOnce(ms, i);
        assert ms[i] in ms && ms[j] in ms;
      }
    }
  }

  /** Validity does not depend on the order of the list. */
  lemma ValidityIgnoresOrder(a: seq<Mutation>, b: seq<Mutation>, files: Files, editable: string -> bool)
    requires SameElements(a, b)
    ensures IsValid(a, files, editable) <==> IsValid(b, files, editable)
  {
    SameLength(a, b);
    if IsValid(a, files, editable) {
      DisjointIsAboutElements(a);
      assert forall m :: m in b ==> m in a && Fits(m, files, editable);
      DisjointIsAboutElements(b);
    }
    if IsValid(b, files, editable) {
      DisjointIsAboutElements(b);
      assert forall m :: m in a ==> m in b && Fits(m, files, editable);
      DisjointIsAboutElements(a);
    }
  }

  /** `ordered` is whatever the sort produced from `mutations`. The adjacent-only check
      accepts exactly the lists that fit and are pairwise disjoint. */
  method Validate(mutations: seq<Mutation>, ordered: seq<Mutation>, files: Files, editable: string -> bool)
    returns (ok: bool)
    requires SameElements(mutations, ordered) && SortedByPath(ordered)
    ensures ok <==> IsValid(mutations, files, editable)
  {
    hide Fits; hide PairwiseDisjoint; hide SortedByPath; hide SameElements;
    ValidityIgnoresOrder(mutations, ordered, files, editable);
    SameLength(mutations, ordered);
    if |mutations| < 1 || |mutations| > 5 {
      return false;
    }
    var i := 0;
    while i < |ordered|
      invariant 0 <= i <= |ordered|
      invariant forall k :: 0 <= k < i ==> Fits(ordered[k], files, editable)
      invariant AdjacentOk(ordered, i)
    {
      var m := ordered[i];
      if !Fits(m, files, editable) {
        return false;
      }
      if i > 0 && ordered[i - 1].path == m.path && End(ordered[i - 1]) > m.start {
        FitsIsNonEmpty(m, files, editable);
        OverlapIsInvalid(ordered, i);
        return false;
      }
      i := i + 1;
    }
    AdjacentIsEnough(ordered, files, editable);
    return true;
  }

  lemma OverlapIsInvalid(ordered: seq<Mutation>, i: nat)
    requires SortedByPath(ordered) && 0 < i < |ordered| && ordered[i - 1].path == ordered[i].path
    requires End(ordered[i - 1]) > ordered[i].start && |ordered[i].before| > 0
    ensures !PairwiseDisjoint(ordered)
  {
    assert !ComesBefore(ordered[i], ordered[i - 1]);
  }

  lemma AdjacentIsEnough(ordered: seq<Mutation>, files: Files, editable: string -> bool)
    requires SortedByPath(ordered) && AdjacentOk(ordered, |ordered|)
    requires forall k :: 0 <= k < |ordered| ==> Fits(ordered[k], files, editable)
    ensures PairwiseDisjoint(ordered)
  {
    forall a, b | 0 <= a < |ordered| && 0 <= b < |ordered| && a != b && ordered[a].path == ordered[b].path
      ensures End(ordered[a]) <= ordered[b].start || End(ordered[b]) <= ordered[a].start {
      AdjacentSeparates(ordered, |ordered|, Min(a, b), Max(a, b));
    }
  }

  lemma FitsIsNonEmpty(m: Mutation, files: Files, editable: string -> bool)
    requires Fits(m, files, editable)
    ensures |m.before| > 0
  {
  }
}
