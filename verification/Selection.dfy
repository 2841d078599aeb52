/** The wheel of candidates and the uniform pick. */
module Selection {
  import opened Common

  datatype Candidate = Candidate(id: string, rank: int, lines: int, isTest: bool)

  // ------------------------------------------------------------------
  // Sorting
  // ------------------------------------------------------------------

  /** A stable sort; with a strict total order, any sort gives this list. */
  function Sort(s: seq<Candidate>, less: (Candidate, Candidate) -> bool): (r: seq<Candidate>)
    ensures multiset(r) == multiset(s) && |r| == |s|
  {
    if s == [] then []
    else
      assert s == s[..|s| - 1] + [s[|s| - 1]];
      Insert(Sort(s[..|s| - 1], less), s[|s| - 1], less)
  }

  function Insert(s: seq<Candidate>, c: Candidate, less: (Candidate, Candidate) -> bool): (r: seq<Candidate>)
    ensures multiset(r) == multiset(s) + multiset{c} && |r| == |s| + 1
  {
    if s == [] || !less(c, s[|s| - 1]) then s + [c]
    else
      assert s == s[..|s| - 1] + [s[|s| - 1]];
      Insert(s[..|s| - 1], c, less) + [s[|s| - 1]]
  }

  /** `less` is a strict total order on the elements of `s`. */
  ghost predicate Ordering(less: (Candidate, Candidate) -> bool, s: seq<Candidate>) {
    (forall a, b :: a in s && b in s ==> less(a, b) || less(b, a) || a == b) &&
    (forall a, b :: a in s && b in s ==> !(less(a, b) && less(b, a))) &&
    (forall a, b, c :: a in s && b in s && c in s && less(a, b) && less(b, c) ==> less(a, c))
  }

  ghost predicate Distinct(s: seq<Candidate>) {
    forall i, j :: 0 <= i < j < |s| ==> s[i] != s[j]
  }

  ghost predicate Ascending(s: seq<Candidate>, less: (Candidate, Candidate) -> bool) {
    forall i, j :: 0 <= i < j < |s| ==> less(s[i], s[j])
  }

  lemma SameMembers(s: seq<Candidate>, t: seq<Candidate>)
    requires multiset(s) == multiset(t)
    ensures |s| == |t| && forall c :: c in s <==> c in t
  {
    assert |multiset(s)| == |s| && |multiset(t)| == |t|;
    forall c ensures c in s <==> c in t {
      assert c in multiset(s) <==> c in s;
      assert c in multiset(t) <==> c in t;
    }
  }

  lemma {:induction false} InsertAscends(s: seq<Candidate>, c: Candidate, less: (Candidate, Candidate) -> bool)
    requires Ascending(s, less) && Ordering(less, s + [c]) && c !in s
    ensures Ascending(Insert(s, c, less), less)
  {
    hide Ordering;
    var n := |s| - 1;
    if s != [] && less(c, s[n]) {
      var rest := s[..n];
      SmallerOrdering(less, s, c);
      InsertAscends(rest, c, less);
      var r := Insert(rest, c, less);
      hide Insert;
      forall i | 0 <= i < |r| ensures less(r[i], s[n]) {
        assert r[i] in multiset(r);
        assert r[i] in rest || r[i] == c;
      }
    } else {
      AboveAll(s, c, less);
    }
  }

  lemma SmallerOrdering(less: (Candidate, Candidate) -> bool, s: seq<Candidate>, c: Candidate)
    requires Ordering(less, s + [c]) && s != []
    ensures Ordering(less, s[..|s| - 1] + [c])
  {
    var a, b := s[..|s| - 1] + [c], s + [c];
    assert forall x :: x in a ==> x in b;
  }

  lemma AboveAll(s: seq<Candidate>, c: Candidate, less: (Candidate, Candidate) -> bool)
    requires Ordering(less, s + [c]) && Ascending(s, less) && c !in s && (s == [] || !less(c, s[|s| - 1]))
    ensures forall i :: 0 <= i < |s| ==> less(s[i], c)
  {
    if s != [] {
      var n, all := |s| - 1, s + [c];
      assert c in all && forall x :: x in s ==> x in all;
      assert less(s[n], c);
      forall i | 0 <= i < |s| ensures less(s[i], c) {
        assert s[i] in all;
      }
    }
  }

  lemma {:induction false} SortAscends(s: seq<Candidate>, less: (Candidate, Candidate) -> bool)
    requires Ordering(less, s) && Distinct(s)
    ensures Ascending(Sort(s, less), less)
  {
    if s != [] {
      var n := |s| - 1;
      var rest, r := s[..n], Sort(s[..n], less);
      SortAscends(rest, less);
      SameMembers(r, rest);
      assert forall x :: x in r + [s[n]] ==> x in s;
      InsertAscends(r, s[n], less);
    }
  }

  lemma FirstAgrees(a: seq<Candidate>, b: seq<Candidate>, less: (Candidate, Candidate) -> bool)
    requires multiset(a) == multiset(b) && Ascending(a, less) && Ascending(b, less) && Ordering(less, a) && a != []
    ensures b != [] && a[0] == b[0]
  {
    SameMembers(a, b);
    var x, y := a[0], b[0];
    var k :| 0 <= k < |b| && b[k] == x;
    var j :| 0 <= j < |a| && a[j] == y;
    assert k > 0 ==> less(y, x);
    assert j > 0 ==> less(x, y);
    assert !(less(x, y) && less(y, x));
  }

  lemma TailElements(s: seq<Candidate>)
    requires s != []
    ensures multiset(s[1..]) == multiset(s) - multiset{s[0]}
  {
    assert s == [s[0]] + s[1..];
  }

  /** An ascending list is determined by its elements. */
  lemma {:induction false} AscendingUnique(a: seq<Candidate>, b: seq<Candidate>, less: (Candidate, Candidate) -> bool)
    requires multiset(a) == multiset(b) && Ascending(a, less) && Ascending(b, less) && Ordering(less, a)
    ensures a == b
  {
    if a == [] {
      SameMembers(a, b);
    } else {
      FirstAgrees(a, b, less);
      TailElements(a);
      TailElements(b);
      TailAscends(a, less);
      TailAscends(b, less);
      hide Ascending; hide Ordering;
      AscendingUnique(a[1..], b[1..], less);
      assert a == [a[0]] + a[1..] && b == [b[0]] + b[1..];
    }
  }

  lemma TailAscends(a: seq<Candidate>, less: (Candidate, Candidate) -> bool)
    requires Ascending(a, less) && a != []
    ensures Ascending(a[1..], less) && (Ordering(less, a) ==> Ordering(less, a[1..]))
  {
    assert forall x :: x in a[1..] ==> x in a;
  }

  /** Sorting forgets the order of its input. */
  lemma SortCanonical(s: seq<Candidate>, t: seq<Candidate>, less: (Candidate, Candidate) -> bool)
    requires multiset(s) == multiset(t) && Ordering(less, s) && Distinct(s) && Distinct(t)
    ensures Sort(s, less) == Sort(t, less)
  {
    hide Sort;
    SameMembers(s, t);
    SortAscends(s, less);
    SortAscends(t, less);
    SameMembers(Sort(s, less), s);
    AscendingUnique(Sort(s, less), Sort(t, less), less);
  }

  // ------------------------------------------------------------------
  // The wheel
  // ------------------------------------------------------------------

  predicate BySize(a: Candidate, b: Candidate) {
    a.lines > b.lines || (a.lines == b.lines && a.rank < b.rank)
  }

  /** The order of the seeded digests of identifiers. */
  function ByScore(score: string -> nat): (Candidate, Candidate) -> bool {
    (a: Candidate, b: Candidate) => score(a.id) < score(b.id)
  }

  /** How many of `count` entries are the largest; the others are drawn. */
  function LargestShare(count: nat): (n: nat)
    ensures n <= count
  {
    if count == 1 then 1 else count - (count + 1) / 3
  }

  function Mixed(pool: seq<Candidate>, count: int, draw: string -> nat): (r: Option<seq<Candidate>>) {
    if count < 0 || |pool| < count then None
    else
      var bySize, n := Sort(pool, BySize), LargestShare(count);
      Some(bySize[..n] + Sort(bySize[n..], ByScore(draw))[..count - n])
  }

  function Eligible(catalog: seq<Candidate>): (r: seq<Candidate>)
    ensures forall c :: c in r <==> c in catalog && !c.isTest
  {
    if catalog == [] then []
    else Eligible(catalog[..|catalog| - 1]) + (if catalog[|catalog| - 1].isTest then [] else [catalog[|catalog| - 1]])
  }

  function Find(catalog: seq<Candidate>, id: string): (r: Option<Candidate>)
    ensures r.Some? ==> r.value in catalog && r.value.id == id
    ensures r.None? ==> forall c :: c in catalog ==> c.id != id
  {
    if catalog == [] then None
    else if catalog[|catalog| - 1].id == id then Some(catalog[|catalog| - 1])
    else Find(catalog[..|catalog| - 1], id)
  }

  function Without(s: seq<Candidate>, id: string): (r: seq<Candidate>)
    ensures forall c :: c in r <==> c in s && c.id != id
  {
    if s == [] then []
    else Without(s[..|s| - 1], id) + (if s[|s| - 1].id == id then [] else [s[|s| - 1]])
  }

  datatype Wheel = Wheel(entries: seq<Candidate>, selected: Candidate)

  /** The candidates that fill the wheel, and how many of them are wanted. */
  function Pool(catalog: seq<Candidate>, manual: Option<string>): seq<Candidate> {
    if manual.Some? then Without(Eligible(catalog), manual.value) else Eligible(catalog)
  }

  function Wanted(manual: Option<string>, size: int): int {
    if manual.Some? then size - 1 else size
  }

  function WheelOf(catalog: seq<Candidate>, manual: Option<string>, draw: string -> nat, spin: string -> nat,
                   size: int): (r: Option<Wheel>)
    requires size >= 1
  {
    var mixed := Mixed(Pool(catalog, manual), Wanted(manual, size), draw);
    if manual.Some? then
      var chosen := Find(catalog, manual.value);
      if chosen.None? || mixed.None? then None
      else Some(Wheel(Sort(mixed.value + [chosen.value], ByScore(spin)), chosen.value))
    else if mixed.None? then None
    else
      var entries := Sort(mixed.value, ByScore(spin));
      Some(Wheel(entries, entries[0]))
  }

  // ------------------------------------------------------------------
  // Order does not matter
  // ------------------------------------------------------------------

  /** A catalogue as the database keeps it: identifiers and ranks are unique. */
  ghost predicate IsCatalogue(catalog: seq<Candidate>) {
    forall i, j :: 0 <= i < j < |catalog| ==> catalog[i].id != catalog[j].id && catalog[i].rank != catalog[j].rank
  }

  ghost predicate CountedOnce(s: seq<Candidate>) {
    forall c :: multiset(s)[c] <= 1
  }

  lemma {:induction false} DistinctCounts(s: seq<Candidate>)
    ensures Distinct(s) <==> CountedOnce(s)
  {
    if s != [] {
      var n := |s| - 1;
      var rest, last := s[..n], s[n];
      assert s == rest + [last];
      assert multiset(s) == multiset(rest) + multiset{last};
      DistinctCounts(rest);
      if Distinct(s) {
        assert last !in rest;
        assert multiset(rest)[last] == 0;
      }
      if CountedOnce(s) {
        assert forall c :: multiset(rest)[c] <= multiset(s)[c];
        assert multiset(s)[last] <= 1;
        assert last !in multiset(rest);
        assert forall i :: 0 <= i < n ==> rest[i] in multiset(rest);
      }
    }
  }

  lemma {:induction false} EligibleCounts(catalog: seq<Candidate>, c: Candidate)
    ensures multiset(Eligible(catalog))[c] == if c.isTest then 0 else multiset(catalog)[c]
  {
    if catalog != [] {
      var n := |catalog| - 1;
      assert catalog == catalog[..n] + [catalog[n]];
      EligibleCounts(catalog[..n], c);
    }
  }

  lemma {:induction false} WithoutCounts(s: seq<Candidate>, id: string, c: Candidate)
    ensures multiset(Without(s, id))[c] == if c.id == id then 0 else multiset(s)[c]
  {
    if s != [] {
      var n := |s| - 1;
      assert s == s[..n] + [s[n]];
      WithoutCounts(s[..n], id, c);
    }
  }

  lemma PoolCounts(catalog: seq<Candidate>, manual: Option<string>, c: Candidate)
    ensures multiset(Pool(catalog, manual))[c] == if c.isTest || manual == Some(c.id) then 0 else multiset(catalog)[c]
  {
    EligibleCounts(catalog, c);
    if manual.Some? {
      WithoutCounts(Eligible(catalog), manual.value, c);
    }
  }

  /** The pool has no repetitions, and size and rank order it totally. */
  lemma PoolIsOrdered(catalog: seq<Candidate>, manual: Option<string>)
    requires IsCatalogue(catalog)
    ensures Distinct(Pool(catalog, manual)) && Ordering(BySize, Pool(catalog, manual))
  {
    var pool := Pool(catalog, manual);
    DistinctCounts(catalog);
    forall c ensures multiset(pool)[c] <= 1 {
      PoolCounts(catalog, manual, c);
    }
    DistinctCounts(pool);
    forall a, b | a in pool && b in pool && a != b ensures a.rank != b.rank {
      DifferentMembers(catalog, a, b);
    }
  }

  lemma DifferentMembers(catalog: seq<Candidate>, a: Candidate, b: Candidate)
    requires IsCatalogue(catalog) && a in catalog && b in catalog && a != b
    ensures a.id != b.id && a.rank != b.rank
  {
    var i :| 0 <= i < |catalog| && catalog[i] == a;
    var j :| 0 <= j < |catalog| && catalog[j] == b;
    if j < i {
      assert catalog[j].id != catalog[i].id && catalog[j].rank != catalog[i].rank;
    }
  }

  lemma PoolsAgree(a: seq<Candidate>, b: seq<Candidate>, manual: Option<string>)
    requires multiset(a) == multiset(b)
    ensures multiset(Pool(a, manual)) == multiset(Pool(b, manual))
  {
    forall c ensures multiset(Pool(a, manual))[c] == multiset(Pool(b, manual))[c] {
      PoolCounts(a, manual, c);
      PoolCounts(b, manual, c);
    }
  }

  /** The wheel, its order and the selection do not depend on the catalogue's order. */
  lemma WheelIgnoresOrder(a: seq<Candidate>, b: seq<Candidate>, manual: Option<string>, draw: string -> nat,
                          spin: string -> nat, size: int)
    requires IsCatalogue(a) && IsCatalogue(b) && multiset(a) == multiset(b) && size >= 1
    ensures WheelOf(a, manual, draw, spin, size) == WheelOf(b, manual, draw, spin, size)
  {
    hide Sort; hide Pool;
    PoolsAgree(a, b, manual);
    SameMembers(Pool(a, manual), Pool(b, manual));
    PoolIsOrdered(a, manual);
    PoolIsOrdered(b, manual);
    SortCanonical(Pool(a, manual), Pool(b, manual), BySize);
    if manual.Some? {
      FindAgrees(a, b, manual.value);
    }
  }

  lemma FindAgrees(a: seq<Candidate>, b: seq<Candidate>, id: string)
    requires IsCatalogue(a) && multiset(a) == multiset(b)
    ensures Find(a, id) == Find(b, id)
  {
    SameMembers(a, b);
    var x, y := Find(a, id), Find(b, id);
    if x.Some? && y.Some? && x.value != y.value {
      DifferentMembers(a, x.value, y.value);
    }
  }

  // ------------------------------------------------------------------
  // What the wheel holds
  // ------------------------------------------------------------------

  /** `a` has more lines than `b`, or as many and a lower rank. */
  predicate Outranks(a: Candidate, b: Candidate) {
    a.lines > b.lines || (a.lines == b.lines && a.rank < b.rank)
  }

  /** `c` belongs to the largest share: fewer than `n` members of the pool outrank it. */
  ghost predicate AmongLargest(pool: seq<Candidate>, c: Candidate, n: nat) {
    c in pool && |set d | d in pool && Outranks(d, c)| < n
  }

  lemma MixedParts(pool: seq<Candidate>, count: int, draw: string -> nat)
    requires Distinct(pool) && Ordering(BySize, pool) && Mixed(pool, count, draw).Some?
    ensures var r := Mixed(pool, count, draw).value;
            |r| == count && Distinct(r) && (forall c :: c in r ==> c in pool) &&
            (forall c :: AmongLargest(pool, c, LargestShare(count)) ==> c in r)
  {
    hide Sort;
    var bySize, n := Sort(pool, BySize), LargestShare(count);
    var drawn := Sort(bySize[n..], ByScore(draw));
    var r := Mixed(pool, count, draw).value;
    SameMembers(bySize, pool);
    SameMembers(drawn, bySize[n..]);
    DistinctCounts(pool);
    DistinctCounts(bySize);
    DistinctCounts(bySize[n..]);
    assert Distinct(bySize[n..]);
    DistinctCounts(drawn);
    forall i, j | 0 <= i < n && 0 <= j < |drawn| ensures bySize[i] != drawn[j] {
      assert drawn[j] in bySize[n..];
    }
    assert forall c :: c in r ==> c in pool by {
      assert forall c :: c in drawn ==> c in bySize;
    }
    forall c | AmongLargest(pool, c, n) ensures c in r {
      LargestAreFirst(pool, c, n);
    }
  }

  /** The members with few predecessors stand at the front of the sorted pool. */
  lemma LargestAreFirst(pool: seq<Candidate>, c: Candidate, n: nat)
    requires Distinct(pool) && Ordering(BySize, pool) && AmongLargest(pool, c, n)
    ensures n <= |pool| ==> c in Sort(pool, BySize)[..n]
  {
    hide Sort;
    var s := Sort(pool, BySize);
    SortAscends(pool, BySize);
    SameMembers(s, pool);
    var k :| 0 <= k < |s| && s[k] == c;
    if n <= |pool| && k >= n {
      var before := set d | d in pool && Outranks(d, c);
      PrefixSize(s, k);
      assert (set i | 0 <= i < k :: s[i]) <= before;
      Subset((set i | 0 <= i < k :: s[i]), before);
    }
    assert n <= |pool| ==> k < n;
    if n <= |pool| {
      assert s[..n][k] == c;
    }
  }

  lemma Subset<T>(a: set<T>, b: set<T>)
    requires a <= b
    ensures |a| <= |b|
  {
    assert b == a + (b - a);
  }

  lemma {:induction false} PrefixSize(s: seq<Candidate>, k: nat)
    requires k <= |s| && Ascending(s, BySize)
    ensures |set i | 0 <= i < k :: s[i]| == k
  {
    if k > 0 {
      PrefixSize(s, k - 1);
      assert (set i | 0 <= i < k :: s[i]) == (set i | 0 <= i < k - 1 :: s[i]) + {s[k - 1]};
      assert forall i :: 0 <= i < k - 1 ==> BySize(s[i], s[k - 1]);
    }
  }

  /** There is a wheel exactly when the named candidate exists and the pool is large enough;
      it has `size` different entries, the selection among them, the whole largest share of the
      pool, and no test file other than a named one. */
  lemma WheelContents(catalog: seq<Candidate>, manual: Option<string>, draw: string -> nat, spin: string -> nat,
                      size: int)
    requires IsCatalogue(catalog) && size >= 1
    ensures var pool, count := Pool(catalog, manual), if manual.Some? then size - 1 else size;
            var n, r := if count == 1 then 1 else count - (count + 1) / 3, WheelOf(catalog, manual, draw, spin, size);
            (r.Some? <==> |pool| >= count && (manual.Some? ==> exists c :: c in catalog && c.id == manual.value)) &&
            (r.Some? ==>
               var w := r.value;
               |w.entries| == size && Distinct(w.entries) && w.selected in w.entries &&
               (manual.Some? ==> w.selected.id == manual.value) &&
               (forall c :: c in w.entries ==> c in catalog && (c.isTest ==> manual == Some(c.id))) &&
               (forall c :: AmongLargest(pool, c, n) ==> c in w.entries))
  {
    hide Sort; hide Mixed; hide Pool; hide AmongLargest; hide Distinct; hide Ordering;
    var pool, count := Pool(catalog, manual), Wanted(manual, size);
    PoolIsOrdered(catalog, manual);
    PoolMembers(catalog, manual);
    MixedSucceeds(pool, count, draw);
    var mixed := Mixed(pool, count, draw);
    if mixed.Some? {
      MixedParts(pool, count, draw);
      if manual.None? {
        SortedKeeps(mixed.value, ByScore(spin));
      } else if Find(catalog, manual.value).Some? {
        var chosen := Find(catalog, manual.value).value;
        DistinctAppend(mixed.value, chosen);
        SortedKeeps(mixed.value + [chosen], ByScore(spin));
      }
    }
  }

  lemma MixedSucceeds(pool: seq<Candidate>, count: int, draw: string -> nat)
    ensures Mixed(pool, count, draw).Some? <==> 0 <= count <= |pool|
  {
    hide Sort;
  }

  lemma PoolMembers(catalog: seq<Candidate>, manual: Option<string>)
    ensures forall c :: c in Pool(catalog, manual) <==> c in catalog && !c.isTest && manual != Some(c.id)
  {
  }

  lemma DistinctAppend(s: seq<Candidate>, c: Candidate)
    requires Distinct(s) && c !in s
    ensures Distinct(s + [c])
  {
  }

  lemma SortedKeeps(s: seq<Candidate>, less: (Candidate, Candidate) -> bool)
    requires Distinct(s)
    ensures Distinct(Sort(s, less)) && forall c :: c in Sort(s, less) <==> c in s
  {
    hide Sort;
    DistinctCounts(s);
    DistinctCounts(Sort(s, less));
    SameMembers(Sort(s, less), s);
  }

  // ------------------------------------------------------------------
  // In what order, and which are drawn
  // ------------------------------------------------------------------

  /** Different identifiers have different scores. */
  ghost predicate Separates(score: string -> nat, catalog: seq<Candidate>) {
    forall a, b :: a in catalog && b in catalog && a.id != b.id ==> score(a.id) != score(b.id)
  }

  lemma ScoresOrder(catalog: seq<Candidate>, score: string -> nat, s: seq<Candidate>)
    requires IsCatalogue(catalog) && Separates(score, catalog) && forall c :: c in s ==> c in catalog
    ensures Ordering(ByScore(score), s)
  {
    forall a, b | a in s && b in s && a != b ensures score(a.id) != score(b.id) {
      DifferentMembers(catalog, a, b);
    }
  }

  /** The first `n` of the sorted pool are among its largest. */
  lemma FirstAreLargest(pool: seq<Candidate>, n: nat, i: nat)
    requires Distinct(pool) && Ordering(BySize, pool) && i < n <= |pool|
    ensures AmongLargest(pool, Sort(pool, BySize)[i], n)
  {
    hide Sort; hide Distinct; hide Ordering; hide BySize;
    var s := Sort(pool, BySize);
    SortAscends(pool, BySize);
    SameMembers(s, pool);
    PrefixSize(s, i);
    Predecessors(s, pool, i);
    Subset((set d | d in pool && Outranks(d, s[i])), (set j | 0 <= j < i :: s[j]));
    assert s[i] in s;
  }

  lemma Predecessors(s: seq<Candidate>, pool: seq<Candidate>, i: nat)
    requires Ascending(s, BySize) && i < |s| && forall c :: c in s <==> c in pool
    ensures (set d | d in pool && Outranks(d, s[i])) <= (set j | 0 <= j < i :: s[j])
  {
    forall d | d in pool && Outranks(d, s[i]) ensures d in (set j | 0 <= j < i :: s[j]) {
      assert d in s;
      var j :| 0 <= j < |s| && s[j] == d;
      NotAfter(s, i, j);
    }
  }

  lemma NotAfter(s: seq<Candidate>, i: nat, j: nat)
    requires Ascending(s, BySize) && i < |s| && j < |s| && BySize(s[j], s[i])
    ensures j < i
  {
  }

  /** Those who are drawn have lower scores than those who are left out. */
  lemma DrawnAreLowest(pool: seq<Candidate>, count: int, draw: string -> nat, d: Candidate, c: Candidate)
    requires Distinct(pool) && Ordering(BySize, pool) && Ordering(ByScore(draw), pool) && Mixed(pool, count, draw).Some?
    requires d in Mixed(pool, count, draw).value && !AmongLargest(pool, d, LargestShare(count))
    requires c in pool && c !in Mixed(pool, count, draw).value
    ensures draw(d.id) < draw(c.id)
  {
    hide Sort; hide AmongLargest; hide Distinct; hide Ordering; hide BySize;
    var bySize, n := Sort(pool, BySize), LargestShare(count);
    var drawn := Sort(bySize[n..], ByScore(draw));
    DrawnAscend(pool, n, draw);
    SameMembers(bySize, pool);
    SameMembers(drawn, bySize[n..]);
    forall i | 0 <= i < n ensures bySize[i] != d {
      FirstAreLargest(pool, n, i);
    }
    assert d in drawn[..count - n];
    var j :| 0 <= j < count - n && drawn[j] == d;
    var m := LeftBehind(bySize, drawn, n, count - n, c);
    assert ByScore(draw)(drawn[j], drawn[m]);
  }

  /** Who is in neither part stands behind the first `k` of the second. */
  lemma LeftBehind(bySize: seq<Candidate>, drawn: seq<Candidate>, n: nat, k: nat, c: Candidate) returns (m: nat)
    requires n <= |bySize| && k <= |drawn| && c in bySize && c !in bySize[..n] + drawn[..k]
    requires forall x :: x in bySize[n..] ==> x in drawn
    ensures k <= m < |drawn| && drawn[m] == c
  {
    assert bySize == bySize[..n] + bySize[n..] && drawn == drawn[..k] + drawn[k..];
    assert c in bySize[n..] && c in drawn[k..];
    var i :| 0 <= i < |drawn| - k && drawn[k..][i] == c;
    m := k + i;
  }

  lemma DrawnAscend(pool: seq<Candidate>, n: nat, draw: string -> nat)
    requires Distinct(pool) && Ordering(ByScore(draw), pool) && n <= |pool|
    ensures Ascending(Sort(Sort(pool, BySize)[n..], ByScore(draw)), ByScore(draw))
  {
    hide Sort;
    var bySize := Sort(pool, BySize);
    SortedKeeps(pool, BySize);
    assert forall x :: x in bySize[n..] ==> x in bySize;
    SortAscends(bySize[n..], ByScore(draw));
  }

  /** The wheel stands in the order of its seeded scores, and an automatic selection is its first
      entry; of the pool, the largest share is in the wheel and the others in it score lower in
      the draw than everybody left out. */
  lemma WheelOrder(catalog: seq<Candidate>, manual: Option<string>, draw: string -> nat, spin: string -> nat, size: int)
    requires IsCatalogue(catalog) && size >= 1 && Separates(draw, catalog) && Separates(spin, catalog)
    requires WheelOf(catalog, manual, draw, spin, size).Some?
    ensures var pool, count := Pool(catalog, manual), if manual.Some? then size - 1 else size;
            var n, w := if count == 1 then 1 else count - (count + 1) / 3,
                        WheelOf(catalog, manual, draw, spin, size).value;
            (forall i, j :: 0 <= i < j < |w.entries| ==> spin(w.entries[i].id) < spin(w.entries[j].id)) &&
            (manual.None? ==> forall c :: c in w.entries && c != w.selected ==> spin(w.selected.id) < spin(c.id)) &&
            (forall c, d :: c in pool && c !in w.entries && d in pool && d in w.entries && !AmongLargest(pool, d, n) ==>
                              draw(d.id) < draw(c.id))
  {
    hide Sort; hide Mixed; hide Pool; hide AmongLargest; hide Ordering; hide Distinct;
    var pool, count := Pool(catalog, manual), Wanted(manual, size);
    var mixed, w := Mixed(pool, count, draw).value, WheelOf(catalog, manual, draw, spin, size).value;
    PoolIsOrdered(catalog, manual);
    PoolMembers(catalog, manual);
    MixedParts(pool, count, draw);
    ScoresOrder(catalog, draw, pool);
    var all := if manual.Some? then mixed + [Find(catalog, manual.value).value] else mixed;
    if manual.Some? {
      DistinctAppend(mixed, Find(catalog, manual.value).value);
    }
    ScoresOrder(catalog, spin, all);
    SortAscends(all, ByScore(spin));
    SortedKeeps(all, ByScore(spin));
    forall c, d | c in pool && c !in w.entries && d in pool && d in w.entries &&
    !AmongLargest(pool, d, LargestShare(count))
      ensures draw(d.id) < draw(c.id) {
      DrawnAreLowest(pool, count, draw, d, c);
    }
  }

  /** Whoever is left out of the wheel is outranked by a whole share of it: two thirds of the entries
      from the pool, rounded up as the wheel rounds, have more lines, or as many and a lower rank. */
  lemma LeftOutIsOutranked(catalog: seq<Candidate>, manual: Option<string>, draw: string -> nat, spin: string -> nat,
                           size: int, d: Candidate)
    requires IsCatalogue(catalog) && size >= 1 && WheelOf(catalog, manual, draw, spin, size).Some?
    requires var w := WheelOf(catalog, manual, draw, spin, size).value;
             d in catalog && !d.isTest && manual != Some(d.id) && d !in w.entries
    ensures var count, w := if manual.Some? then size - 1 else size, WheelOf(catalog, manual, draw, spin, size).value;
            |set e | e in w.entries && !e.isTest && manual != Some(e.id) &&
                     (e.lines > d.lines || (e.lines == d.lines && e.rank < d.rank))| >=
            if count == 1 then 1 else count - (count + 1) / 3
  {
    hide Pool; hide AmongLargest; hide Ordering; hide Distinct; hide WheelOf; hide BySize;
    var pool, count := Pool(catalog, manual), if manual.Some? then size - 1 else size;
    var n, w := if count == 1 then 1 else count - (count + 1) / 3, WheelOf(catalog, manual, draw, spin, size).value;
    PoolIsOrdered(catalog, manual);
    PoolMembers(catalog, manual);
    WheelContents(catalog, manual, draw, spin, size);
    var first := FirstOutrank(pool, n, w.entries, d);
    Subset(first, set e | e in w.entries && !e.isTest && manual != Some(e.id) &&
                          (e.lines > d.lines || (e.lines == d.lines && e.rank < d.rank)));
  }

  lemma FirstOutrank(pool: seq<Candidate>, n: nat, entries: seq<Candidate>, d: Candidate)
    returns (first: set<Candidate>)
    requires Distinct(pool) && Ordering(BySize, pool) && n <= |pool| && d in pool && d !in entries
    requires forall c :: AmongLargest(pool, c, n) ==> c in entries
    ensures |first| == n && forall e :: e in first ==> e in pool && e in entries && Outranks(e, d)
  {
    hide Sort; hide AmongLargest; hide Ordering; hide Distinct; hide Ascending; hide Outranks; hide BySize;
    var s := Sort(pool, BySize);
    SameMembers(s, pool);
    SortAscends(pool, BySize);
    var k :| 0 <= k < |s| && s[k] == d;
    forall i | 0 <= i < n ensures s[i] in entries {
      FirstAreLargest(pool, n, i);
    }
    assert n <= k;
    first := set i | 0 <= i < n :: s[i];
    PrefixSize(s, n);
    forall e | e in first ensures e in pool && e in entries && Outranks(e, d) {
      var i :| 0 <= i < n && e == s[i];
      EarlierOutranks(s, i, k);
    }
  }

  lemma EarlierOutranks(s: seq<Candidate>, i: nat, k: nat)
    requires Ascending(s, BySize) && i < k < |s|
    ensures Outranks(s[i], s[k])
  {
    assert BySize(s[i], s[k]);
  }

  // ------------------------------------------------------------------
  // The loops
  // ------------------------------------------------------------------

  method Classify(catalog: seq<Candidate>, id: string) returns (eligible: seq<Candidate>, chosen: Option<Candidate>)
    ensures eligible == Eligible(catalog) && chosen == Find(catalog, id)
  {
    eligible, chosen := [], None;
    var i := 0;
    while i < |catalog|
      invariant 0 <= i <= |catalog|
      invariant eligible == Eligible(catalog[..i]) && chosen == Find(catalog[..i], id)
    {
      assert catalog[..i + 1][..i] == catalog[..i];
      if catalog[i].id == id {
        chosen := Some(catalog[i]);
      }
      if !catalog[i].isTest {
        eligible := eligible + [catalog[i]];
      }
      i := i + 1;
    }
    assert catalog[..i] == catalog;
  }

  method LeaveOut(s: seq<Candidate>, id: string) returns (pool: seq<Candidate>)
    ensures pool == Without(s, id)
  {
    pool := [];
    var i := 0;
    while i < |s|
      invariant 0 <= i <= |s|
      invariant pool == Without(s[..i], id)
    {
      assert s[..i + 1][..i] == s[..i];
      if s[i].id != id {
        pool := pool + [s[i]];
      }
      i := i + 1;
    }
    assert s[..i] == s;
  }

  method BuildWheel(catalog: seq<Candidate>, manual: Option<string>, draw: string -> nat, spin: string -> nat,
                    size: int) returns (r: Option<Wheel>)
    requires size >= 1
    ensures r == WheelOf(catalog, manual, draw, spin, size)
  {
    hide Sort; hide Eligible; hide Find; hide Without;
    var eligible, chosen := Classify(catalog, if manual.Some? then manual.value else "");
    if manual.Some? {
      if chosen.None? {
        return None;
      }
      var pool := LeaveOut(eligible, chosen.value.id);
      var fillers := Mixed(pool, size - 1, draw);
      if fillers.None? {
        return None;
      }
      return Some(Wheel(Sort(fillers.value + [chosen.value], ByScore(spin)), chosen.value));
    }
    var mixed := Mixed(eligible, size, draw);
    if mixed.None? {
      return None;
    }
    var entries := Sort(mixed.value, ByScore(spin));
    return Some(Wheel(entries, entries[0]));
  }
}
