/** The bounded priority queue: a binary heap whose front is the worst value kept. */
module PriorityQueue {
  import opened Common

  /** A strict weak ordering. */
  ghost predicate Ordering<T(!new)>(better: (T, T) -> bool) {
    (forall a, b :: better(a, b) ==> !better(b, a)) &&
    (forall a, b, c :: !better(a, b) && !better(b, c) ==> !better(a, c))
  }

  function Parent(i: nat): (p: nat)
    requires i > 0
    ensures p < i
  {
    (i - 1) / 2
  }

  /** No child is worse than its parent. */
  ghost predicate IsHeap<T>(s: seq<T>, better: (T, T) -> bool) {
    forall i :: 0 < i < |s| ==> !better(s[Parent(i)], s[i])
  }

  /** The front is not better than anything in the heap. */
  lemma {:induction false} FrontIsWorst<T(!new)>(s: seq<T>, better: (T, T) -> bool, i: nat)
    requires Ordering(better) && IsHeap(s, better) && i < |s|
    ensures !better(s[0], s[i])
  {
    if i > 0 {
      FrontIsWorst(s, better, Parent(i));
    }
  }

  function Swap<T>(s: seq<T>, i: nat, j: nat): (r: seq<T>)
    requires i < |s| && j < |s|
    ensures |r| == |s| && multiset(r) == multiset(s)
    ensures r[i] == s[j] && r[j] == s[i] && forall k :: 0 <= k < |s| && k != i && k != j ==> r[k] == s[k]
  {
    s[i := s[j]][j := s[i]]
  }

  // ------------------------------------------------------------------
  // Moving an element up
  // ------------------------------------------------------------------

  /** A heap but for the element at `hole`, which may be worse than its parent. */
  ghost predicate HeapExceptUp<T>(s: seq<T>, better: (T, T) -> bool, hole: nat) {
    hole < |s| &&
    (forall i :: 0 < i < |s| && i != hole ==> !better(s[Parent(i)], s[i])) &&
    (forall i :: 0 < i < |s| && hole > 0 && Parent(i) == hole ==> !better(s[Parent(hole)], s[i]))
  }

  lemma StepUp<T(!new)>(s: seq<T>, better: (T, T) -> bool, hole: nat)
    requires Ordering(better) && HeapExceptUp(s, better, hole) && hole > 0 && better(s[Parent(hole)], s[hole])
    ensures HeapExceptUp(Swap(s, Parent(hole), hole), better, Parent(hole))
  {
    var p := Parent(hole);
    var r := Swap(s, p, hole);
    forall i | 0 < i < |r| && i != p ensures !better(r[Parent(i)], r[i]) {
      UpChild(s, better, hole, i);
    }
    forall i | 0 < i < |r| && p > 0 && Parent(i) == p ensures !better(r[Parent(p)], r[i]) {
      assert !better(s[Parent(p)], s[p]);
      if i != hole {
        assert !better(s[Parent(i)], s[i]);
      }
    }
  }

  lemma UpChild<T(!new)>(s: seq<T>, better: (T, T) -> bool, hole: nat, i: nat)
    requires Ordering(better) && HeapExceptUp(s, better, hole) && hole > 0 && better(s[Parent(hole)], s[hole])
    requires 0 < i < |s| && i != Parent(hole)
    ensures var r := Swap(s, Parent(hole), hole); !better(r[Parent(i)], r[i])
  {
    var p := Parent(hole);
    if i != hole {
      assert !better(s[Parent(i)], s[i]);
      if Parent(i) == p {
        assert !better(s[hole], s[p]);
      }
    }
  }

  /** The last element joins the heap before it. */
  method PushHeap<T(!new)>(s: seq<T>, better: (T, T) -> bool) returns (r: seq<T>)
    requires Ordering(better) && s != [] && IsHeap(s[..|s| - 1], better)
    ensures IsHeap(r, better) && multiset(r) == multiset(s)
  {
    r := s;
    var hole: nat := |s| - 1;
    assert forall i :: 0 < i < hole ==> s[..hole][Parent(i)] == s[Parent(i)] && s[..hole][i] == s[i];
    while hole > 0 && better(r[Parent(hole)], r[hole])
      invariant |r| == |s| && multiset(r) == multiset(s) && HeapExceptUp(r, better, hole)
    {
      StepUp(r, better, hole);
      r := Swap(r, Parent(hole), hole);
      hole := Parent(hole);
    }
  }

  // ------------------------------------------------------------------
  // Moving an element down
  // ------------------------------------------------------------------

  /** A heap but for the element at `hole`, which may be better than its children. */
  ghost predicate HeapExceptDown<T>(s: seq<T>, better: (T, T) -> bool, hole: nat) {
    hole < |s| &&
    (forall i :: 0 < i < |s| && Parent(i) != hole ==> !better(s[Parent(i)], s[i])) &&
    (forall i :: 0 < i < |s| && hole > 0 && Parent(i) == hole ==> !better(s[Parent(hole)], s[i]))
  }

  /** `child` is the worst of the children of `hole`. */
  ghost predicate WorstChild<T>(s: seq<T>, better: (T, T) -> bool, hole: nat, child: nat) {
    0 < child < |s| && Parent(child) == hole &&
    forall i :: 0 < i < |s| && Parent(i) == hole ==> !better(s[child], s[i])
  }

  lemma StepDown<T(!new)>(s: seq<T>, better: (T, T) -> bool, hole: nat, child: nat)
    requires Ordering(better) && HeapExceptDown(s, better, hole) && WorstChild(s, better, hole, child) &&
             better(s[hole], s[child])
    ensures HeapExceptDown(Swap(s, hole, child), better, child)
  {
    var r := Swap(s, hole, child);
    forall i | 0 < i < |r| && Parent(i) != child ensures !better(r[Parent(i)], r[i]) {
      if Parent(i) == hole {
        assert i != child ==> !better(s[child], s[i]);
        assert !better(s[child], s[hole]);
      } else if i == hole {
        assert !better(s[Parent(hole)], s[child]);
      } else {
        assert !better(s[Parent(i)], s[i]);
      }
    }
    forall i | 0 < i < |r| && Parent(i) == child ensures !better(r[Parent(child)], r[i]) {
      assert !better(s[Parent(i)], s[i]);
    }
  }

  lemma DownDone<T>(s: seq<T>, better: (T, T) -> bool, hole: nat)
    requires HeapExceptDown(s, better, hole) && forall i :: 0 < i < |s| && Parent(i) == hole ==> !better(s[hole], s[i])
    ensures IsHeap(s, better)
  {
  }

  /** The front of a heap is taken out; the last element takes its place and moves down. */
  method PopHeap<T(!new)>(s: seq<T>, better: (T, T) -> bool) returns (r: seq<T>)
    requires Ordering(better) && s != [] && IsHeap(s, better)
    ensures IsHeap(r, better) && multiset(r) == multiset(s) - multiset{s[0]} && |r| == |s| - 1
  {
    var n := |s| - 1;
    var swapped := Swap(s, 0, n);
    r := swapped[..n];
    assert swapped == r + [s[0]];
    if n == 0 {
      return;
    }
    var hole: nat := 0;
    FrontReplaced(s, better);
    while true
      invariant |r| == n && multiset(r) == multiset(s) - multiset{s[0]} && HeapExceptDown(r, better, hole)
      decreases n - hole
    {
      var child := 2 * hole + 1;
      if child >= n {
        break;
      }
      if child + 1 < n && better(r[child], r[child + 1]) {
        child := child + 1;
      }
      ChildIsWorst(r, better, hole, child);
      if !better(r[hole], r[child]) {
        NotWorse(r, better, hole, child);
        break;
      }
      StepDown(r, better, hole, child);
      r := Swap(r, hole, child);
      hole := child;
    }
    DownDone(r, better, hole);
  }

  lemma FrontReplaced<T>(s: seq<T>, better: (T, T) -> bool)
    requires IsHeap(s, better) && |s| > 1
    ensures HeapExceptDown(Swap(s, 0, |s| - 1)[..|s| - 1], better, 0)
  {
    var r := Swap(s, 0, |s| - 1)[..|s| - 1];
    forall i | 0 < i < |r| && Parent(i) != 0 ensures !better(r[Parent(i)], r[i]) {
      assert !better(s[Parent(i)], s[i]);
    }
  }

  lemma ChildIsWorst<T(!new)>(r: seq<T>, better: (T, T) -> bool, hole: nat, child: nat)
    requires Ordering(better) && 2 * hole + 1 < |r|
    requires child == if 2 * hole + 2 < |r| &&
             better(r[2 * hole + 1], r[2 * hole + 2]) then 2 * hole + 2 else 2 * hole + 1
    ensures WorstChild(r, better, hole, child)
  {
    forall i | 0 < i < |r| && Parent(i) == hole ensures !better(r[child], r[i]) {
      assert i == 2 * hole + 1 || i == 2 * hole + 2;
      assert !better(r[child], r[child]);
    }
  }

  lemma NotWorse<T(!new)>(r: seq<T>, better: (T, T) -> bool, hole: nat, child: nat)
    requires Ordering(better) && hole < |r| && WorstChild(r, better, hole, child) && !better(r[hole], r[child])
    ensures forall i :: 0 < i < |r| && Parent(i) == hole ==> !better(r[hole], r[i])
  {
  }

  // ------------------------------------------------------------------
  // The queue
  // ------------------------------------------------------------------

  /** `kept` are the best `capacity` values of `all`: nothing left out is better than
      anything kept. */
  ghost predicate Best<T>(kept: multiset<T>, all: multiset<T>, capacity: nat, better: (T, T) -> bool) {
    kept <= all && |kept| == (if |all| <= capacity then |all| else capacity) &&
    forall x, y :: x in kept && y in all - kept ==> !better(y, x)
  }

  /** A value joins a queue that still has room. */
  lemma RoomLeft<T>(kept: multiset<T>, all: multiset<T>, capacity: nat, better: (T, T) -> bool, v: T)
    requires Best(kept, all, capacity, better) && |kept| < capacity
    ensures Best(kept + multiset{v}, all + multiset{v}, capacity, better)
  {
    assert |all - kept| == |all| - |kept|;
    assert all - kept == multiset{};
    assert all == kept;
  }

  /** A full queue turns away a value that is not better than its worst. */
  lemma TurnedAway<T(!new)>(kept: multiset<T>, all: multiset<T>, capacity: nat, better: (T, T) -> bool, v: T, worst: T)
    requires Ordering(better) && Best(kept, all, capacity, better) && |kept| == capacity
    requires worst in kept && (forall x :: x in kept ==> !better(worst, x)) && !better(v, worst)
    ensures Best(kept, all + multiset{v}, capacity, better)
  {
    forall x, y | x in kept && y in (all + multiset{v}) - kept ensures !better(y, x) {
      if y !in all - kept {
        assert y == v;
      }
    }
  }

  /** A full queue replaces its worst by a better value. */
  lemma Replaced<T(!new)>(kept: multiset<T>, all: multiset<T>, capacity: nat, better: (T, T) -> bool, v: T, worst: T)
    requires Ordering(better) && Best(kept, all, capacity, better) && |kept| == capacity
    requires worst in kept && (forall x :: x in kept ==> !better(worst, x)) && better(v, worst)
    ensures Best(kept - multiset{worst} + multiset{v}, all + multiset{v}, capacity, better)
  {
    var now, more := kept - multiset{worst} + multiset{v}, all + multiset{v};
    assert kept - multiset{worst} <= all;
    forall x, y | x in now && y in more - now ensures !better(y, x) {
      assert !better(worst, x) by {
        if x !in kept {
          assert x == v;
        }
      }
      if y in all - kept {
        assert !better(y, worst);
      } else {
        LeftOut(kept, all, v, worst, y);
      }
    }
  }

  lemma LeftOut<T>(kept: multiset<T>, all: multiset<T>, v: T, worst: T, y: T)
    requires kept <= all && worst in kept && y !in all - kept
    requires y in (all + multiset{v}) - (kept - multiset{worst} + multiset{v})
    ensures y == worst
  {
    assert all[y] <= kept[y];
  }

  class FixedPriorityQueue<T(!new)> {
    const capacity: nat
    const better: (T, T) -> bool
    var data: seq<T>
    /** Everything pushed since the queue was made or last popped, with what it held then. */
    ghost var pushed: multiset<T>

    ghost predicate Valid()
      reads this
    {
      Ordering(better) && IsHeap(data, better) && Best(multiset(data), pushed, capacity, better)
    }

    constructor (capacity: nat, better: (T, T) -> bool)
      requires Ordering(better)
      ensures Valid() && data == [] && pushed == multiset{} && this.capacity == capacity && this.better == better
    {
      this.capacity, this.better := capacity, better;
      data, pushed := [], multiset{};
    }

    method Push(value: T) returns (accepted: bool)
      requires Valid()
      modifies this
      ensures Valid() && pushed == old(pushed) + multiset{value}
      ensures accepted <==> capacity > 0 && (|old(data)| < capacity || better(value, old(data)[0]))
      ensures !accepted ==> data == old(data)
    {
      hide Ordering; hide IsHeap; hide Best;
      SizeFits();
      if capacity == 0 {
        NothingFits(value);
        pushed := pushed + multiset{value};
        return false;
      }
      if |data| < capacity {
        RoomLeft(multiset(data), pushed, capacity, better, value);
        assert (data + [value])[..|data|] == data;
        assert multiset(data + [value]) == multiset(data) + multiset{value};
        data := PushHeap(data + [value], better);
        pushed := pushed + multiset{value};
        return true;
      }
      Front();
      if !better(value, data[0]) {
        TurnedAway(multiset(data), pushed, capacity, better, value, data[0]);
        pushed := pushed + multiset{value};
        return false;
      }
      Replaced(multiset(data), pushed, capacity, better, value, data[0]);
      var rest := PopHeap(data, better);
      assert (rest + [value])[..|rest|] == rest;
      assert multiset(rest + [value]) == multiset(rest) + multiset{value};
      data := PushHeap(rest + [value], better);
      pushed := pushed + multiset{value};
      return true;
    }

    lemma SizeFits()
      requires Valid()
      ensures |data| <= capacity
    {
      assert |multiset(data)| == |data|;
    }

    lemma NothingFits(value: T)
      requires Valid() && capacity == 0
      ensures Best(multiset(data), pushed + multiset{value}, capacity, better)
    {
      assert |multiset(data)| == 0;
    }

    lemma Front()
      requires Valid() && data != []
      ensures data[0] in multiset(data) && forall x :: x in multiset(data) ==> !better(data[0], x)
    {
      forall x | x in multiset(data) ensures !better(data[0], x) {
        var i :| 0 <= i < |data| && data[i] == x;
        FrontIsWorst(data, better, i);
      }
    }

    /** The worst value kept; an empty queue has none. */
    method Top() returns (value: Option<T>)
      requires Valid()
      ensures value.Some? <==> data != []
      ensures value.Some? ==> value.value in data && forall x :: x in data ==> !better(value.value, x)
    {
      if data == [] {
        return None;
      }
      Front();
      return Some(data[0]);
    }

    /** The worst value kept is dropped; an empty queue refuses. */
    method Pop() returns (ok: bool)
      requires Valid()
      modifies this
      ensures Valid() && (ok <==> old(data) != [])
      ensures !ok ==> data == old(data) && pushed == old(pushed)
      ensures ok ==> multiset(data) == old(multiset(data)) - multiset{old(data)[0]} && pushed == multiset(data)
      ensures ok ==> forall x :: x in old(data) ==> !better(old(data)[0], x)
    {
      hide Ordering; hide IsHeap;
      if data == [] {
        return false;
      }
      SizeFits();
      Front();
      data := PopHeap(data, better);
      pushed := multiset(data);
      assert |pushed| == |data|;
      return true;
    }
  }
}
