/** The table of submission versions. Digests are taken to be collision free, so an archive
    stands for its digest. */
module Versions {

  datatype Version = Version(student: string, lab: string, number: int, key: string, archive: string)

  /** One project of an import, already uploaded under `key`. */
  datatype Item = Item(id: string, student: string, lab: string, key: string, archive: string)

  // ------------------------------------------------------------------
  // The version table
  // ------------------------------------------------------------------

  predicate Of(v: Version, student: string, lab: string) {
    v.student == student && v.lab == lab
  }

  /** How many versions a student has for a lab. */
  function Count(vs: seq<Version>, student: string, lab: string): (n: nat)
    ensures n <= |vs|
  {
    if vs == [] then 0
    else Count(vs[..|vs| - 1], student, lab) + (if Of(vs[|vs| - 1], student, lab) then 1 else 0)
  }

  /** The largest version number, 0 when there is none. */
  function MaxNumber(vs: seq<Version>, student: string, lab: string): int {
    if vs == [] then 0
    else
      var m, v := MaxNumber(vs[..|vs| - 1], student, lab), vs[|vs| - 1];
      if Of(v, student, lab) && v.number > m then v.number else m
  }

  predicate Known(vs: seq<Version>, student: string, lab: string, archive: string) {
    exists i :: 0 <= i < |vs| && Of(vs[i], student, lab) && vs[i].archive == archive
  }

  /** Every version got the number after those before it, and repeats none of them. */
  ghost predicate WellNumbered(vs: seq<Version>) {
    forall i :: 0 <= i < |vs| ==>
      vs[i].number == Count(vs[..i], vs[i].student, vs[i].lab) + 1 &&
      !Known(vs[..i], vs[i].student, vs[i].lab, vs[i].archive)
  }

  function KeysOf(vs: seq<Version>): set<string> {
    set i | 0 <= i < |vs| :: vs[i].key
  }

  ghost predicate DistinctKeys(vs: seq<Version>) {
    forall i, j :: 0 <= i < j < |vs| ==> vs[i].key != vs[j].key
  }

  lemma FrontWellNumbered(vs: seq<Version>)
    requires WellNumbered(vs) && vs != []
    ensures WellNumbered(vs[..|vs| - 1])
  {
    hide Known; hide Count;
    var n := |vs| - 1;
    assert forall i :: 0 <= i < n ==> vs[..n][i] == vs[i] && vs[..n][..i] == vs[..i];
  }

  lemma {:induction false} MaxIsCount(vs: seq<Version>, student: string, lab: string)
    requires WellNumbered(vs)
    ensures MaxNumber(vs, student, lab) == Count(vs, student, lab)
  {
    hide Known;
    if vs != [] {
      var n := |vs| - 1;
      FrontWellNumbered(vs);
      assert vs[n].number == Count(vs[..n], vs[n].student, vs[n].lab) + 1;
      hide WellNumbered;
      MaxIsCount(vs[..n], student, lab);
    }
  }

  lemma {:induction false} CountGrows(vs: seq<Version>, i: nat, j: nat, student: string, lab: string)
    requires i <= j <= |vs|
    ensures Count(vs[..i], student, lab) <= Count(vs[..j], student, lab)
    ensures i < j && Of(vs[i], student, lab) ==> Count(vs[..i], student, lab) < Count(vs[..j], student, lab)
    decreases j - i
  {
    if i < j {
      CountGrows(vs, i, j - 1, student, lab);
      assert vs[..j][..j - 1] == vs[..j - 1];
    }
  }

  lemma {:induction false} HasNumber(vs: seq<Version>, student: string, lab: string, n: nat, number: int)
    returns (i: nat)
    requires WellNumbered(vs) && n <= |vs| && 1 <= number <= Count(vs[..n], student, lab)
    ensures i < n && Of(vs[i], student, lab) && vs[i].number == number
  {
    assert vs[..n][..n - 1] == vs[..n - 1];
    if number <= Count(vs[..n - 1], student, lab) {
      i := HasNumber(vs, student, lab, n - 1, number);
    } else {
      i := n - 1;
    }
  }

  ghost predicate Numbered(vs: seq<Version>, student: string, lab: string, number: int) {
    exists i :: 0 <= i < |vs| && vs[i].student == student && vs[i].lab == lab && vs[i].number == number
  }

  /** Where the versions of one student for one lab stand. */
  ghost function Places(vs: seq<Version>, student: string, lab: string): set<int> {
    set i | 0 <= i < |vs| && vs[i].student == student && vs[i].lab == lab
  }

  lemma {:induction false} CountIsSize(vs: seq<Version>, student: string, lab: string)
    ensures Count(vs, student, lab) == |Places(vs, student, lab)|
  {
    if vs != [] {
      var n := |vs| - 1;
      CountIsSize(vs[..n], student, lab);
      assert Places(vs, student, lab) ==
             Places(vs[..n], student, lab) + if vs[n].student == student && vs[n].lab == lab then {n} else {};
    }
  }

  /** The numbers of one student and lab are exactly 1 up to their count, in order of creation. */
  lemma NumbersAreGapless(vs: seq<Version>, student: string, lab: string)
    requires WellNumbered(vs)
    ensures forall number :: Numbered(vs, student, lab, number) <==> 1 <= number <= |Places(vs, student, lab)|
    ensures forall i, j :: i in Places(vs, student, lab) && j in Places(vs, student, lab) && i < j ==>
                             vs[i].number < vs[j].number
  {
    CountIsSize(vs, student, lab);
    hide Known; hide Count;
    assert vs[..|vs|] == vs;
    forall i, j | i in Places(vs, student, lab) && j in Places(vs, student, lab) && i < j
      ensures vs[i].number < vs[j].number {
      CountGrows(vs, i, j, student, lab);
    }
    forall number ensures Numbered(vs, student, lab, number) <==> 1 <= number <= Count(vs, student, lab) {
      if Numbered(vs, student, lab, number) {
        var i :| 0 <= i < |vs| && vs[i].student == student && vs[i].lab == lab && vs[i].number == number;
        CountGrows(vs, i, |vs|, student, lab);
      }
      if 1 <= number <= Count(vs, student, lab) {
        var i := HasNumber(vs, student, lab, |vs|, number);
      }
    }
  }

  /** No student has the same archive twice for a lab. */
  lemma ArchivesAreDistinct(vs: seq<Version>, i: nat, j: nat)
    requires WellNumbered(vs) && i < j < |vs| && vs[i].student == vs[j].student && vs[i].lab == vs[j].lab
    ensures vs[i].archive != vs[j].archive
  {
    assert vs[..j][i] == vs[i];
    assert !Known(vs[..j], vs[j].student, vs[j].lab, vs[j].archive);
  }

  lemma AppendKeepsNumbers(vs: seq<Version>, v: Version)
    requires WellNumbered(vs) && v.number == MaxNumber(vs, v.student, v.lab) + 1 &&
             !Known(vs, v.student, v.lab, v.archive)
    ensures WellNumbered(vs + [v])
  {
    hide Known; hide Count; hide MaxNumber;
    MaxIsCount(vs, v.student, v.lab);
    assert (vs + [v])[..|vs|] == vs;
    assert forall i :: 0 <= i < |vs| ==> (vs + [v])[..i] == vs[..i];
  }

  lemma AppendKeys(vs: seq<Version>, v: Version)
    ensures KeysOf(vs + [v]) == KeysOf(vs) + {v.key}
    ensures DistinctKeys(vs) && v.key !in KeysOf(vs) ==> DistinctKeys(vs + [v])
  {
    var all := vs + [v];
    assert forall i :: 0 <= i < |vs| ==> all[i] == vs[i];
    assert all[|vs|] == v;
    forall k | k in KeysOf(vs) + {v.key} ensures k in KeysOf(all) {
      if k in KeysOf(vs) {
        var i :| 0 <= i < |vs| && vs[i].key == k;
        assert all[i].key == k;
      }
    }
    assert forall i :: 0 <= i < |vs| ==> vs[i].key in KeysOf(vs);
  }

  lemma AppendKnown(vs: seq<Version>, v: Version)
    ensures forall s, l, a :: Known(vs + [v], s, l, a) <==> Known(vs, s, l, a) || (Of(v, s, l) && v.archive == a)
  {
    var all := vs + [v];
    forall s, l, a ensures Known(all, s, l, a) <==> Known(vs, s, l, a) || (Of(v, s, l) && v.archive == a) {
      if Known(vs, s, l, a) {
        var i :| 0 <= i < |vs| && Of(vs[i], s, l) && vs[i].archive == a;
        assert all[i] == vs[i];
      }
      assert all[|vs|] == v;
    }
  }

  // ------------------------------------------------------------------
  // Adding items
  // ------------------------------------------------------------------

  /** What every operation keeps, however it ends. */
  ghost predicate WellKept(vs: seq<Version>) {
    WellNumbered(vs) && DistinctKeys(vs)
  }

  /** The table after an item: a new version if its archive is new. */
  function Added(vs: seq<Version>, item: Item): seq<Version> {
    if Known(vs, item.student, item.lab, item.archive) then vs
    else vs + [Version(item.student, item.lab, MaxNumber(vs, item.student, item.lab) + 1, item.key, item.archive)]
  }

  function AddedAll(vs: seq<Version>, items: seq<Item>): seq<Version> {
    if items == [] then vs else Added(AddedAll(vs, items[..|items| - 1]), items[|items| - 1])
  }

  function ItemKeys(items: seq<Item>): set<string> {
    set i | 0 <= i < |items| :: items[i].key
  }

  /** Keys are new: generated, never used before. */
  ghost predicate FreshItems(vs: seq<Version>, items: seq<Item>) {
    (forall i, j :: 0 <= i < j < |items| ==> items[i].key != items[j].key) &&
    (forall i :: 0 <= i < |items| ==> items[i].key !in KeysOf(vs))
  }

  /** Objects that are there hold the archives of their versions. */
  ghost predicate Matching(vs: seq<Version>, objects: map<string, string>) {
    forall i :: 0 <= i < |vs| && vs[i].key in objects ==> objects[vs[i].key] == vs[i].archive
  }

  /** `objects` holds every item's archive. */
  ghost predicate Uploaded(items: seq<Item>, objects: map<string, string>) {
    forall i :: 0 <= i < |items| ==> items[i].key in objects && objects[items[i].key] == items[i].archive
  }

  ghost predicate AllKnown(vs: seq<Version>, items: seq<Item>) {
    forall i :: 0 <= i < |items| ==> Known(vs, items[i].student, items[i].lab, items[i].archive)
  }

  lemma AddedOne(vs: seq<Version>, item: Item)
    requires WellKept(vs) && item.key !in KeysOf(vs)
    ensures WellKept(Added(vs, item))
    ensures KeysOf(vs) <= KeysOf(Added(vs, item)) <= KeysOf(vs) + {item.key}
    ensures item.key in KeysOf(Added(vs, item)) <==> !Known(vs, item.student, item.lab, item.archive)
    ensures Known(Added(vs, item), item.student, item.lab, item.archive)
    ensures forall s, l, a :: Known(vs, s, l, a) ==> Known(Added(vs, item), s, l, a)
    ensures forall objects :: Matching(vs, objects) && item.key in objects && objects[item.key] == item.archive ==>
              Matching(Added(vs, item), objects)
  {
    hide Known; hide WellNumbered; hide KeysOf; hide MaxNumber; hide DistinctKeys;
    if !Known(vs, item.student, item.lab, item.archive) {
      var number := MaxNumber(vs, item.student, item.lab) + 1;
      var v := Version(item.student, item.lab, number, item.key, item.archive);
      AppendKeepsNumbers(vs, v);
      AppendKeys(vs, v);
      AppendKnown(vs, v);
    }
  }

  /** An archive that the student has already handed in for the lab changes nothing; any other becomes
      one new version, numbered one past those of the same student and lab. */
  lemma AddedRow(vs: seq<Version>, item: Item)
    requires WellNumbered(vs)
    ensures var places := Places(vs, item.student, item.lab);
            if exists i :: i in places && vs[i].archive == item.archive then Added(vs, item) == vs
            else Added(vs, item) ==
                 vs + [Version(item.student, item.lab, |places| + 1, item.key, item.archive)]
  {
    hide MaxNumber; hide Count; hide WellNumbered;
    MaxIsCount(vs, item.student, item.lab);
    CountIsSize(vs, item.student, item.lab);
    if Known(vs, item.student, item.lab, item.archive) {
      var i :| 0 <= i < |vs| && Of(vs[i], item.student, item.lab) && vs[i].archive == item.archive;
      assert i in Places(vs, item.student, item.lab);
    }
  }

  lemma ItemKeysSplit(items: seq<Item>)
    requires items != []
    ensures ItemKeys(items) == ItemKeys(items[..|items| - 1]) + {items[|items| - 1].key}
  {
    var n := |items| - 1;
    assert forall i :: 0 <= i < n ==> items[..n][i] == items[i];
    forall k | k in ItemKeys(items) ensures k in ItemKeys(items[..n]) + {items[n].key} {
      var i :| 0 <= i < |items| && items[i].key == k;
      if i < n {
        assert items[..n][i].key == k;
      }
    }
    forall k | k in ItemKeys(items[..n]) ensures k in ItemKeys(items) {
      var i :| 0 <= i < n && items[..n][i].key == k;
      assert items[i].key == k;
    }
  }

  /** Adding items one after the other: numbering goes on, every archive is known afterwards,
      and the keys that entered the table are item keys. */
  lemma {:induction false} AddedEach(vs: seq<Version>, items: seq<Item>)
    requires WellKept(vs) && FreshItems(vs, items)
    ensures var r := AddedAll(vs, items);
            WellKept(r) && KeysOf(vs) <= KeysOf(r) <= KeysOf(vs) + ItemKeys(items) && AllKnown(r, items)
    ensures forall objects :: Matching(vs, objects) && Uploaded(items, objects) ==>
                                Matching(AddedAll(vs, items), objects)
  {
    hide Known; hide WellKept; hide KeysOf; hide ItemKeys; hide Added; hide Matching;
    if items != [] {
      var n := |items| - 1;
      var rest, last := items[..n], items[n];
      AddedEach(vs, rest);
      var r := AddedAll(vs, rest);
      ItemKeysSplit(items);
      LastIsFresh(vs, items);
      AddedOne(r, last);
      forall i | 0 <= i < |items| ensures Known(Added(r, last), items[i].student, items[i].lab, items[i].archive) {
        if i < n {
          assert rest[i] == items[i];
        }
      }
      forall objects | Matching(vs, objects) && Uploaded(items, objects) ensures Matching(Added(r, last), objects) {
        assert Uploaded(rest, objects);
      }
    }
  }

  lemma LastIsFresh(vs: seq<Version>, items: seq<Item>)
    requires FreshItems(vs, items) && items != []
    ensures items[|items| - 1].key !in KeysOf(vs)
    ensures items[|items| - 1].key !in ItemKeys(items[..|items| - 1])
  {
    hide KeysOf;
    var n := |items| - 1;
    var rest := items[..n];
    forall k | k in ItemKeys(rest) ensures k != items[n].key {
      var i :| 0 <= i < |rest| && rest[i].key == k;
      assert rest[i] == items[i];
    }
    assert items[n].key !in KeysOf(vs);
    assert items[n].key !in ItemKeys(rest);
  }

  lemma NoItemKeys(items: seq<Item>)
    ensures ItemKeys(items[..0]) == {} && forall vs :: AddedAll(vs, items[..0]) == vs
  {
  }

  /** One item more: the table grows by it, or its key joins those of the duplicates. */
  lemma TakeOne(vs: seq<Version>, items: seq<Item>, n: nat)
    requires WellKept(vs) && FreshItems(vs, items) && n < |items|
    ensures var r, item := AddedAll(vs, items[..n]), items[n];
            AddedAll(vs, items[..n + 1]) == Added(r, item) &&
            ItemKeys(items[..n + 1]) - KeysOf(Added(r, item)) ==
            (ItemKeys(items[..n]) - KeysOf(r)) +
              (if Known(r, item.student, item.lab, item.archive) then {item.key} else {})
  {
    hide Known; hide WellKept; hide KeysOf; hide ItemKeys; hide Added;
    var done, more := items[..n], items[..n + 1];
    assert more[..|more| - 1] == done && more[n] == items[n];
    assert FreshItems(vs, done) && FreshItems(vs, more);
    AddedEach(vs, done);
    ItemKeysSplit(more);
    LastIsFresh(vs, more);
    AddedOne(AddedAll(vs, done), items[n]);
  }

  // ------------------------------------------------------------------
  // The table against the objects
  // ------------------------------------------------------------------

  function Missing(vs: seq<Version>, objects: map<string, string>): set<string> {
    KeysOf(vs) - objects.Keys
  }

  function Orphans(vs: seq<Version>, objects: map<string, string>): set<string> {
    objects.Keys - KeysOf(vs)
  }

  lemma MatchingLess(vs: seq<Version>, more: map<string, string>, less: map<string, string>)
    requires Matching(vs, more)
    requires forall k :: k in less && k in KeysOf(vs) ==> k in more && less[k] == more[k]
    ensures Matching(vs, less)
  {
    assert forall i :: 0 <= i < |vs| ==> vs[i].key in KeysOf(vs);
  }

  /** The books after an operation that uploaded `keys`, of which `added` entered the table, and
      then deleted what it deletes, except what is stuck: all uploads if it failed, otherwise
      those that entered nothing. */
  lemma Booked(vs: seq<Version>, now: seq<Version>, before: map<string, string>, after: map<string, string>,
               keys: set<string>, added: set<string>, stuck: set<string>, failed: bool)
    requires KeysOf(now) == KeysOf(vs) + added && added <= keys && keys !! before.Keys && keys !! KeysOf(vs)
    requires after.Keys == before.Keys + keys - ((if failed then keys else keys - added) - stuck)
    ensures Missing(now, after) == Missing(vs, before) + (if failed then added - stuck else {})
    ensures Orphans(now, after) == Orphans(vs, before) + (keys - added) * stuck
  {
    hide KeysOf;
  }

  /** Nothing missing and nothing orphaned: the objects are exactly those of the versions. */
  lemma ExactBooks(vs: seq<Version>, objects: map<string, string>)
    ensures Missing(vs, objects) == {} && Orphans(vs, objects) == {} <==> objects.Keys == KeysOf(vs)
  {
    hide KeysOf;
    assert forall k :: k in objects.Keys ==> k in KeysOf(vs) || k in Orphans(vs, objects);
    assert forall k :: k in KeysOf(vs) ==> k in objects.Keys || k in Missing(vs, objects);
  }
}
