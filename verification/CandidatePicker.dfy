/** Picking candidates: the largest, some drawn ones, and one of them uniformly. */
module CandidatePicker {
  import opened Common
  import opened PriorityQueue

  // ------------------------------------------------------------------
  // Rejection sampling
  // ------------------------------------------------------------------

  const RANGE: nat := 0x1_0000_0000_0000_0000

  /** The smallest accepted value, computed as (0 - bound) mod bound in 64 bits. */
  function Threshold(bound: nat): (t: nat)
    requires 0 < bound <= RANGE
    ensures t < bound
  {
    (RANGE - bound) % bound
  }

  /** How many values from `lo` up to `hi` have remainder `r`. */
  function Residues(lo: nat, hi: nat, bound: nat, r: nat): nat
    requires bound > 0
    decreases hi - lo
  {
    if lo >= hi then 0
    else (if lo % bound == r then 1 else 0) + Residues(lo + 1, hi, bound, r)
  }

  lemma {:induction false} ResiduesSplit(lo: nat, mid: nat, hi: nat, bound: nat, r: nat)
    requires bound > 0 && lo <= mid <= hi
    ensures Residues(lo, hi, bound, r) == Residues(lo, mid, bound, r) + Residues(mid, hi, bound, r)
    decreases mid - lo
  {
    if lo < mid {
      ResiduesSplit(lo + 1, mid, hi, bound, r);
    }
  }

  /** Part of the first period, from remainder `k` on. */
  lemma {:induction false} ResiduesFrom(k: nat, bound: nat, r: nat)
    requires bound > 0 && k <= bound && r < bound
    ensures Residues(k, bound, bound, r) == if k <= r then 1 else 0
    decreases bound - k
  {
    if k < bound {
      ResiduesFrom(k + 1, bound, r);
    }
  }

  lemma Euclid(n: int, d: int, q: int, r: int)
    requires 0 <= r < d && n == q * d + r
    ensures n % d == r && n / d == q
  {
    var e := n / d - q;
    assert e * d == r - n % d by {
      assert n == (n / d) * d + n % d;
      assert e * d == (n / d) * d - q * d;
    }
    assert e >= 1 ==> e * d >= d;
    assert e <= -1 ==> e * d <= -d;
  }

  /** `bound` consecutive values have every remainder once, wherever they start. */
  lemma {:induction false} ResiduesInWindow(lo: nat, bound: nat, r: nat)
    requires bound > 0 && r < bound
    ensures Residues(lo, lo + bound, bound, r) == 1
    decreases lo
  {
    if lo == 0 {
      ResiduesFrom(0, bound, r);
    } else {
      var p := lo - 1;
      ResiduesInWindow(p, bound, r);
      ResiduesSplit(p, p + bound, lo + bound, bound, r);
      Euclid(p + bound, bound, p / bound + 1, p % bound);
      assert Residues(p + bound, lo + bound, bound, r) == if p % bound == r then 1 else 0;
    }
  }

  lemma {:induction false} ResiduesInWindows(lo: nat, n: nat, bound: nat, r: nat)
    requires bound > 0 && r < bound
    ensures Residues(lo, lo + n * bound, bound, r) == n
    decreases n
  {
    if n > 0 {
      assert lo + n * bound == (lo + bound) + (n - 1) * bound;
      assert (n - 1) * bound >= 0;
      ResiduesSplit(lo, lo + bound, lo + n * bound, bound, r);
      ResiduesInWindow(lo, bound, r);
      ResiduesInWindows(lo + bound, n - 1, bound, r);
    }
  }

  /** Among the accepted 64-bit values every remainder occurs equally often, and fewer than
      `bound` values are rejected. */
  lemma PickIsUniform(bound: nat, r: nat)
    requires 0 < bound <= RANGE && r < bound
    ensures Residues(Threshold(bound), RANGE, bound, r) == RANGE / bound
  {
    var t, n := Threshold(bound), RANGE / bound;
    var q := (RANGE - bound) / bound;
    assert RANGE - bound == q * bound + t;
    assert RANGE == (q + 1) * bound + t;
    Euclid(RANGE, bound, q + 1, t);
    ResiduesInWindows(t, n, bound, r);
  }

  // ------------------------------------------------------------------
  // Pick
  // ------------------------------------------------------------------

  datatype PickerError = InvalidCandidateCount | NoSuitableCandidates

  /** The candidates, and the index of the one drawn; none if the values ran out. */
  datatype Picked<T> = Picked(candidates: seq<T>, selected: Option<nat>)

  function Allowed<T(!new)>(entities: seq<T>, allowed: T -> bool): (r: seq<T>)
    ensures |r| <= |entities| && forall e :: e in r <==> e in entities && allowed(e)
  {
    if entities == [] then []
    else
      var last := entities[|entities| - 1];
      Allowed(entities[..|entities| - 1], allowed) + (if allowed(last) then [last] else [])
  }

  /** How many of `count` candidates are the largest ones. */
  function LargestCount(count: nat): (n: nat)
    requires count > 0
    ensures 0 < n <= count
  {
    count - (if count == 1 then 0 else (count + 1) / 3)
  }

  /** The first accepted value of a stream. */
  predicate FirstAccepted(draws: seq<nat>, k: nat, bound: nat)
    requires 0 < bound <= RANGE
  {
    k < |draws| && draws[k] >= Threshold(bound) && forall i :: 0 <= i < k ==> draws[i] < Threshold(bound)
  }

  method Filter<T(!new)>(entities: seq<T>, allowed: T -> bool) returns (eligible: seq<T>)
    ensures eligible == Allowed(entities, allowed)
  {
    eligible := [];
    var i := 0;
    while i < |entities|
      invariant 0 <= i <= |entities|
      invariant eligible == Allowed(entities[..i], allowed)
    {
      assert entities[..i + 1][..i] == entities[..i];
      if allowed(entities[i]) {
        eligible := eligible + [entities[i]];
      }
      i := i + 1;
    }
    assert entities[..i] == entities;
  }

  /** The rejection loop over the generator's values, which are taken to be a list; it may
      run out of them. */
  method DrawIndex(draws: seq<nat>, bound: nat) returns (k: nat, index: Option<nat>)
    requires 0 < bound <= RANGE
    ensures index.Some? <==> exists i :: 0 <= i < |draws| && draws[i] >= Threshold(bound)
    ensures index.Some? ==> FirstAccepted(draws, k, bound) && index.value == draws[k] % bound && index.value < bound
  {
    var threshold := Threshold(bound);
    k := 0;
    while k < |draws| && draws[k] < threshold
      invariant k <= |draws| && forall i :: 0 <= i < k ==> draws[i] < threshold
    {
      k := k + 1;
    }
    if k == |draws| {
      return k, None;
    }
    return k, Some(draws[k] % bound);
  }

  /** `sorted` is what the sort made of the eligible entities and `shuffled` what the shuffle made
      of those after the largest share. The queue takes exactly the largest and the first of the
      shuffled ones, and the selection is one of them. */
  method Pick<T(!new)>(entities: seq<T>, allowed: T -> bool, count: nat, better: (T, T) -> bool, sorted: seq<T>,
                       shuffled: seq<T>, draws: seq<nat>)
    returns (r: Result<Picked<T>, PickerError>)
    requires Ordering(better) && multiset(sorted) == multiset(Allowed(entities, allowed))
    requires forall i, j :: 0 <= i < j < |sorted| ==> !better(sorted[j], sorted[i])
    requires count > 0 && sorted != [] ==> multiset(shuffled) == multiset(sorted[LargestCount(Min(count, |sorted|))..])
    requires |sorted| <= RANGE
    ensures r.Err? && r.error.InvalidCandidateCount? <==> count == 0
    ensures r.Err? && r.error.NoSuitableCandidates? <==> count > 0 && Allowed(entities, allowed) == []
    ensures r.Ok? ==> HoldsShares(r.value.candidates, Min(count, |sorted|), better, sorted, shuffled)
    ensures r.Ok? && r.value.selected.Some? ==> Drawn(r.value.selected.value, Min(count, |sorted|), draws)
    ensures r.Ok? && r.value.selected.None? ==>
              forall i :: 0 <= i < |draws| ==> !Accepts(draws[i], Min(count, |sorted|))
  {
    hide Ordering;
    if count == 0 {
      return Err(InvalidCandidateCount);
    }
    var eligible := Filter(entities, allowed);
    SameSize(sorted, eligible);
    if eligible == [] {
      return Err(NoSuitableCandidates);
    }
    var actual := Min(count, |sorted|);
    var candidates := TakeShares(actual, better, sorted, shuffled);
    var k, index := DrawIndex(draws, actual);
    return Ok(Picked(candidates, index));
  }

  /** The candidates are the largest share and the first of the shuffled rest; whatever is
      better than a member of the largest share is a candidate too. */
  ghost predicate HoldsShares<T>(candidates: seq<T>, actual: nat, better: (T, T) -> bool, sorted: seq<T>,
                                 shuffled: seq<T>) {
    0 < actual <= |sorted| && |candidates| == actual &&
    var largest := if actual == 1 then 1 else actual - (actual + 1) / 3;
    actual - largest <= |shuffled| &&
    multiset(candidates) == multiset(sorted[..largest]) + multiset(shuffled[..actual - largest]) &&
    forall i, j :: 0 <= i < largest && 0 <= j < |sorted| && better(sorted[j], sorted[i]) ==> sorted[j] in candidates
  }

  predicate Accepts(value: nat, bound: nat) {
    0 < bound <= RANGE && value >= Threshold(bound)
  }

  /** `selected` comes from the first accepted value. */
  ghost predicate Drawn(selected: nat, bound: nat, draws: seq<nat>) {
    0 < bound <= RANGE && selected < bound &&
    exists k: nat :: FirstAccepted(draws, k, bound) && selected == draws[k] % bound
  }

  method TakeShares<T(!new)>(actual: nat, better: (T, T) -> bool, sorted: seq<T>, shuffled: seq<T>)
    returns (candidates: seq<T>)
    requires Ordering(better) && 0 < actual <= |sorted|
    requires forall i, j :: 0 <= i < j < |sorted| ==> !better(sorted[j], sorted[i])
    requires multiset(shuffled) == multiset(sorted[LargestCount(actual)..])
    ensures HoldsShares(candidates, actual, better, sorted, shuffled)
  {
    hide Ordering;
    var largest := LargestCount(actual);
    SameSize(shuffled, sorted[largest..]);
    var first, drawn := sorted[..largest], shuffled[..actual - largest];
    candidates := PushAll(first + drawn, actual, better);
    assert multiset(first + drawn) == multiset(first) + multiset(drawn);
    BetterAreTaken(first, largest, better, sorted);
    forall c | c in first ensures c in candidates {
      assert c in multiset(candidates);
    }
  }

  /** Whatever is better than one of the first is one of the first. */
  lemma BetterAreTaken<T(!new)>(first: seq<T>, largest: nat, better: (T, T) -> bool, sorted: seq<T>)
    requires Ordering(better) && largest <= |sorted| && first == sorted[..largest]
    requires forall i, j :: 0 <= i < j < |sorted| ==> !better(sorted[j], sorted[i])
    ensures forall i, j :: 0 <= i < largest && 0 <= j < |sorted| && better(sorted[j], sorted[i]) ==> sorted[j] in first
  {
    forall i, j | 0 <= i < largest && 0 <= j < |sorted| && better(sorted[j], sorted[i]) ensures sorted[j] in first {
      assert !better(sorted[i], sorted[i]);
      assert first[j] == sorted[j];
    }
  }

  lemma SameSize<T>(a: seq<T>, b: seq<T>)
    requires multiset(a) == multiset(b)
    ensures |a| == |b|
  {
    assert |multiset(a)| == |a| && |multiset(b)| == |b|;
  }

  /** A queue with room for everything keeps everything. */
  method PushAll<T(!new)>(values: seq<T>, capacity: nat, better: (T, T) -> bool) returns (data: seq<T>)
    requires Ordering(better) && |values| <= capacity
    ensures multiset(data) == multiset(values) && |data| == |values|
  {
    var queue := new FixedPriorityQueue(capacity, better);
    var i := 0;
    while i < |values|
      invariant 0 <= i <= |values| && fresh(queue) && queue.Valid() && queue.capacity == capacity
      invariant queue.pushed == multiset(values[..i])
    {
      assert values[..i + 1] == values[..i] + [values[i]];
      var _ := queue.Push(values[i]);
      i := i + 1;
    }
    assert values[..i] == values;
    AllKept(multiset(queue.data), queue.pushed, capacity, queue.better);
    SameSize(queue.data, values);
    return queue.data;
  }

  lemma AllKept<T>(kept: multiset<T>, all: multiset<T>, capacity: nat, better: (T, T) -> bool)
    requires Best(kept, all, capacity, better) && |all| <= capacity
    ensures kept == all
  {
    assert |all - kept| == |all| - |kept|;
    assert all - kept == multiset{};
  }
}
