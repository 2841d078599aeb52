/** Keeping the snapshot directory within its limits, oldest snapshots first. */
module SnapshotPruning {

  const COUNT_LIMIT: nat := 64
  const DEFAULT_BYTES: int := 0x8000_0000
  const DEFAULT_TTL: int := 86_400_000_000_000

  datatype Snapshot = Snapshot(key: string, size: nat, at: int)

  /** Total size of the snapshots that are not marked as gone; unmarked ones are kept. */
  function Cost(values: seq<Snapshot>, gone: seq<bool>): nat {
    if values == [] then 0
    else
      var n := |values| - 1;
      Cost(values[..n], gone) + (if n < |gone| && gone[n] then 0 else values[n].size)
  }

  function Kept(n: nat, gone: seq<bool>): nat {
    if n == 0 then 0 else Kept(n - 1, gone) + (if n - 1 < |gone| && gone[n - 1] then 0 else 1)
  }

  predicate Within(values: seq<Snapshot>, gone: seq<bool>, limit: int) {
    Cost(values, gone) <= limit && Kept(|values|, gone) <= COUNT_LIMIT
  }

  /** Marking one more as kept changes nothing; marking it as gone takes its size off. */
  lemma {:induction false} Marked(values: seq<Snapshot>, gone: seq<bool>, b: bool)
    ensures var k := |gone|;
            Cost(values, gone + [b]) == Cost(values, gone) - (if b && k < |values| then values[k].size else 0) &&
            Kept(|values|, gone + [b]) == Kept(|values|, gone) - (if b && k < |values| then 1 else 0)
  {
    if values != [] {
      Marked(values[..|values| - 1], gone, b);
    }
  }

  lemma {:induction false} NothingGone(values: seq<Snapshot>)
    ensures Kept(|values|, []) == |values|
  {
    if values != [] {
      NothingGone(values[..|values| - 1]);
    }
  }

  /** The first marks only: what was removed before index `i` was looked at. */
  lemma {:induction false} WithinGrows(values: seq<Snapshot>, gone: seq<bool>, i: nat)
    requires i <= |gone|
    ensures Cost(values, gone) <= Cost(values, gone[..i]) && Kept(|values|, gone) <= Kept(|values|, gone[..i])
    decreases |gone| - i
  {
    if i < |gone| {
      WithinGrows(values, gone, i + 1);
      assert gone[..i + 1] == gone[..i] + [gone[i]];
      Marked(values, gone[..i], gone[i]);
    } else {
      assert gone[..i] == gone;
    }
  }

  predicate Removable(v: Snapshot, keep: string, busy: set<string>) {
    v.key != keep && v.key !in busy
  }

  predicate Fresh(v: Snapshot, now: int, ttl: int) {
    now - v.at < ttl
  }

  /** `values` comes sorted by age, oldest first; `busy` are those that another job has locked.
      A removable snapshot goes exactly when it is too old or the limits are still exceeded by
      everything that is left at its turn, so afterwards the limits hold or nothing more could go. */
  method Prune(values: seq<Snapshot>, keep: string, busy: set<string>, bytes: int, age: int, now: int)
    returns (gone: seq<bool>)
    requires forall i, j :: 0 <= i < j < |values| ==> values[i].at <= values[j].at
    ensures |gone| == |values|
    ensures var limit, ttl := if bytes <= 0 then DEFAULT_BYTES else bytes, if age <= 0 then DEFAULT_TTL else age;
            Rule(values, gone, keep, busy, limit, now, ttl) &&
            (Within(values, gone, limit) || forall i :: 0 <= i < |values| ==>
                                                          gone[i] || !Removable(values[i], keep, busy)) &&
            (forall i, j :: 0 <= i < j < |values| && gone[j] && Removable(values[i], keep, busy) ==> gone[i]) &&
            (forall i :: 0 <= i < |values| && gone[i] ==> values[i].key != keep && values[i].key !in busy) &&
            (forall i :: 0 <= i < |values| && now - values[i].at >= ttl ==>
                           gone[i] || values[i].key == keep || values[i].key in busy) &&
            (Cost(values, []) <= limit && |values| <= 64 ==>
               forall i :: 0 <= i < |values| && gone[i] ==> now - values[i].at >= ttl)
  {
    hide Cost; hide Kept;
    var total := Sum(values);
    var count := |values|;
    NothingGone(values);
    var limit := if bytes <= 0 then DEFAULT_BYTES else bytes;
    var ttl := if age <= 0 then DEFAULT_TTL else age;
    gone := [];
    var n := 0;
    while n < |values|
      invariant 0 <= n <= |values| && |gone| == n
      invariant total == Cost(values, gone) && count == Kept(|values|, gone)
      invariant forall i :: 0 <= i < n ==>
                  (gone[i] <==> Removable(values[i], keep, busy) &&
                                !(Within(values, gone[..i], limit) && Fresh(values[i], now, ttl)))
    {
      var v := values[n];
      var drop := true;
      if v.key == keep || (total <= limit && count <= COUNT_LIMIT && now - v.at < ttl) {
        drop := false;
      } else if v.key in busy {
        drop := false;
      }
      Marked(values, gone, drop);
      if drop {
        total := total - v.size;
        count := count - 1;
      }
      ghost var before := gone;
      gone := gone + [drop];
      assert gone[..n] == before;
      assert forall i :: 0 <= i < n ==> gone[..i] == before[..i];
      n := n + 1;
    }
    Afterwards(values, gone, keep, busy, limit, now, ttl);
    forall i | 0 <= i < |values| && Cost(values, []) <= limit && |values| <= COUNT_LIMIT
      ensures Within(values, gone[..i], limit) {
      WithinGrows(values, gone[..i], 0);
      assert gone[..i][..0] == [];
    }
  }

  ghost predicate Rule(values: seq<Snapshot>, gone: seq<bool>, keep: string, busy: set<string>, limit: int, now: int,
                       ttl: int) {
    |gone| == |values| &&
    forall i :: 0 <= i < |values| ==>
      (gone[i] <==> Removable(values[i], keep, busy) &&
                    !(Within(values, gone[..i], limit) && Fresh(values[i], now, ttl)))
  }

  lemma Afterwards(values: seq<Snapshot>, gone: seq<bool>, keep: string, busy: set<string>, limit: int, now: int,
                   ttl: int)
    requires Rule(values, gone, keep, busy, limit, now, ttl)
    requires forall i, j :: 0 <= i < j < |values| ==> values[i].at <= values[j].at
    ensures Within(values, gone, limit) || forall i :: 0 <= i < |values| ==>
                                                         gone[i] || !Removable(values[i], keep, busy)
    ensures forall i, j :: 0 <= i < j < |values| && gone[j] && Removable(values[i], keep, busy) ==> gone[i]
  {
    hide Cost; hide Kept;
    forall i | 0 <= i < |values| && Removable(values[i], keep, busy) && !gone[i] ensures Within(values, gone, limit) {
      WithinGrows(values, gone, i);
    }
    forall i, j | 0 <= i < j < |values| && gone[j] && Removable(values[i], keep, busy) ensures gone[i] {
      WithinGrows(values, gone[..j], i);
      assert gone[..j][..i] == gone[..i];
    }
  }

  method Sum(values: seq<Snapshot>) returns (total: nat)
    ensures total == Cost(values, [])
  {
    total := 0;
    var i := 0;
    while i < |values|
      invariant 0 <= i <= |values| && total == Cost(values[..i], [])
    {
      assert values[..i + 1][..i] == values[..i];
      total := total + values[i].size;
      i := i + 1;
    }
    assert values[..i] == values;
  }
}
