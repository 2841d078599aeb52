/** Storing submission versions and their archives: the operations over the version table and
    the object store, and every sequence of them. */
module SubmissionStore {
  import opened Common
  import opened Versions

  datatype ImportState = Approved | Applying | Completed | Failed

  /** How a transaction ends. `Unknown` took effect, but its answer was lost. */
  datatype Ending = Committed | RolledBack | Unknown

  /** The import item that a project belongs to. */
  datatype Target = Target(id: string, student: string, lab: string)

  /** One project of the archive under review, and whether uploading it works. */
  datatype Project = Project(target: Option<Target>, key: string, archive: string, uploads: bool)

  datatype Reply = Created(version: Version) | Duplicate(version: Version) | Refused

  // ------------------------------------------------------------------
  // What decides an import, known before the call
  // ------------------------------------------------------------------

  function ItemOf(p: Project): Item
    requires p.target.Some?
  {
    Item(p.target.value.id, p.target.value.student, p.target.value.lab, p.key, p.archive)
  }

  predicate AllUpload(projects: seq<Project>) {
    forall i :: 0 <= i < |projects| ==> projects[i].target.Some? && projects[i].uploads
  }

  function ItemsOf(projects: seq<Project>): (items: seq<Item>)
    requires AllUpload(projects)
    ensures |items| == |projects| && forall i :: 0 <= i < |items| ==> items[i] == ItemOf(projects[i])
  {
    seq(|projects|, i requires 0 <= i < |projects| => ItemOf(projects[i]))
  }

  /** Every item is attached for the first time. */
  predicate Unattached(items: seq<Item>, attached: set<string>) {
    (forall i :: 0 <= i < |items| ==> items[i].id !in attached) &&
    (forall i, j :: 0 <= i < j < |items| ==> items[i].id != items[j].id)
  }

  predicate Commits(imports: map<string, ImportState>, attached: set<string>, importId: string, items: seq<Item>,
                    manifest: bool) {
    importId in imports && imports[importId].Applying? && (manifest || items == []) && Unattached(items, attached)
  }

  predicate Applies(imports: map<string, ImportState>, attached: set<string>, importId: string, allowed: bool,
                    ready: bool,
                    projects: seq<Project>, manifest: bool) {
    allowed && ready && importId in imports && imports[importId].Approved? && AllUpload(projects) &&
    (manifest || projects == []) && Unattached(ItemsOf(projects), attached)
  }

  /** What the database holds. */
  datatype Records = Records(versions: seq<Version>, imports: map<string, ImportState>, attached: set<string>)

  /** The records after applying an import. */
  function Applied(r: Records, importId: string, allowed: bool, ready: bool, projects: seq<Project>, manifest: bool,
                   ending: Ending): Records {
    if !allowed || importId !in r.imports || !r.imports[importId].Approved? then r
    else if Applies(r.imports, r.attached, importId, allowed, ready, projects, manifest) && !ending.RolledBack? then
      Records(AddedAll(r.versions, ItemsOf(projects)), r.imports[importId := Completed],
              r.attached + ItemIds(ItemsOf(projects)))
    else r.(imports := r.imports[importId := Failed])
  }

  /** The versions after storing an item. */
  function StoredIn(vs: seq<Version>, item: Item, uploads: bool, manifest: bool, ending: Ending): seq<Version> {
    if uploads && manifest && !ending.RolledBack? then Added(vs, item) else vs
  }

  function ItemIds(items: seq<Item>): set<string> {
    set i | 0 <= i < |items| :: items[i].id
  }

  /** The keys uploaded before the first project without a target or with a failing upload. */
  function UploadedKeys(projects: seq<Project>): set<string> {
    set i | 0 <= i < |projects| && Reaches(projects, i) :: projects[i].key
  }

  /** Uploading goes well up to and including the project at `i`. */
  predicate Reaches(projects: seq<Project>, i: nat) {
    i < |projects| && AllUpload(projects[..i + 1])
  }

  /** The version that an item repeats still has its object. */
  ghost predicate HasObject(vs: seq<Version>, objects: map<string, string>, item: Item) {
    exists i :: 0 <= i < |vs| && Of(vs[i], item.student, item.lab) && vs[i].archive == item.archive &&
                vs[i].key in objects
  }

  ghost predicate FreshProjects(projects: seq<Project>, used: set<string>) {
    (forall i, j :: 0 <= i < j < |projects| ==> projects[i].key != projects[j].key) &&
    (forall i :: 0 <= i < |projects| ==> projects[i].key !in used)
  }

  // ------------------------------------------------------------------
  // The operations
  // ------------------------------------------------------------------

  class Submissions {
    var versions: seq<Version>
    var objects: map<string, string>
    var imports: map<string, ImportState>
    var attached: set<string>

    function Tables(): Records
      reads this
    {
      Records(versions, imports, attached)
    }

    /** What every operation keeps, however it ends. */
    ghost predicate Valid()
      reads this
    {
      WellKept(versions) && Matching(versions, objects)
    }

    constructor ()
      ensures versions == [] && objects == map[] && imports == map[] && attached == {} && Valid()
    {
      versions, objects, imports, attached := [], map[], map[], {};
    }

    /** An uploaded import has passed its review. */
    method Approve(importId: string)
      modifies this`imports
      ensures imports == if importId in old(imports) then old(imports) else old(imports)[importId := Approved]
    {
      if importId !in imports {
        imports := imports[importId := Approved];
      }
    }

    /** Deleting objects; those in `stuck` cannot be deleted. */
    method DeleteAll(keys: seq<string>, stuck: set<string>)
      modifies this`objects
      ensures objects == old(objects) - ((set k | k in keys) - stuck)
    {
      var i := 0;
      while i < |keys|
        invariant 0 <= i <= |keys|
        invariant objects == old(objects) - ((set k | k in keys[..i]) - stuck)
      {
        assert keys[..i + 1] == keys[..i] + [keys[i]];
        if keys[i] !in stuck {
          objects := objects - {keys[i]};
        }
        i := i + 1;
      }
      assert keys[..i] == keys;
    }

    /** The newest version with this archive. */
    method FindByDigest(student: string, lab: string, archive: string) returns (r: Option<Version>)
      ensures r.Some? <==> Known(versions, student, lab, archive)
      ensures r.Some? ==> r.value in versions && Of(r.value, student, lab) && r.value.archive == archive
    {
      var i := |versions|;
      while i > 0
        invariant 0 <= i <= |versions|
        invariant forall k :: i <= k < |versions| ==> !(Of(versions[k], student, lab) && versions[k].archive == archive)
      {
        i := i - 1;
        if Of(versions[i], student, lab) && versions[i].archive == archive {
          return Some(versions[i]);
        }
      }
      return None;
    }

    method CreateOrGetByDigest(item: Item, manifest: bool, ending: Ending) returns (r: Reply)
      modifies this`versions
      ensures versions == if manifest && !ending.RolledBack? then Added(old(versions), item) else old(versions)
      ensures !r.Refused? <==> manifest && ending.Committed?
      ensures r.Duplicate? ==> Known(old(versions), item.student, item.lab, item.archive)
      ensures r.Duplicate? ==> r.version in versions && Of(r.version, item.student, item.lab) &&
                               r.version.archive == item.archive
      ensures r.Created? ==> !Known(old(versions), item.student, item.lab, item.archive)
      ensures r.Created? ==> versions == old(versions) + [r.version] && r.version.key == item.key
    {
      hide MaxNumber;
      if !manifest {
        return Refused;
      }
      var existing := FindByDigest(item.student, item.lab, item.archive);
      if existing.Some? {
        return if ending.Committed? then Duplicate(existing.value) else Refused;
      }
      var number := MaxNumber(versions, item.student, item.lab) + 1;
      var v := Version(item.student, item.lab, number, item.key, item.archive);
      if ending.RolledBack? {
        return Refused;
      }
      versions := versions + [v];
      return if ending.Committed? then Created(v) else Refused;
    }

    /** Upload, record, and take the upload back unless it became a version. When the answer of
        the transaction is lost, a version that it recorded loses its object unless the delete
        is stuck. A duplicate is an error if the upload cannot be taken back or the object it repeats
        is gone. */
    method StoreVersion(item: Item, uploads: bool, manifest: bool, ending: Ending, stuck: set<string>)
      returns (r: Reply)
      requires Valid() && item.key !in objects && item.key !in KeysOf(versions)
      modifies this`versions, this`objects
      ensures Valid()
      ensures versions == StoredIn(old(versions), item, uploads, manifest, ending)
      ensures Missing(versions, objects) ==
              old(Missing(versions, objects)) +
                (if ending.Unknown? then KeysOf(versions) - old(KeysOf(versions)) - stuck else {})
      ensures Orphans(versions, objects) ==
              old(Orphans(versions, objects)) + (if uploads then ({item.key} - KeysOf(versions)) * stuck else {})
      ensures r.Created? <==>
                uploads && manifest && ending.Committed? && !Known(old(versions), item.student, item.lab, item.archive)
      ensures r.Duplicate? <==>
                uploads && manifest && ending.Committed? &&
                Known(old(versions), item.student, item.lab, item.archive) &&
                item.key !in stuck && old(HasObject(versions, objects, item))
      ensures objects.Keys <= old(objects).Keys + {item.key} && KeysOf(versions) <= old(KeysOf(versions)) + {item.key}
      ensures r.Created? ==> item.key in objects && objects[item.key] == item.archive
    {
      hide Known; hide WellKept; hide KeysOf; hide MaxNumber; hide Matching; hide Added;
      if !uploads {
        return Refused;
      }
      objects := objects[item.key := item.archive];
      ghost var full := objects;
      MatchingLess(versions, old(objects), full);
      AddedOne(versions, item);
      r := CreateOrGetByDigest(item, manifest, ending);
      ghost var added := KeysOf(versions) - old(KeysOf(versions));
      if r.Created? {
        CreatedKey(old(versions), versions, item);
        Booked(old(versions), versions, old(objects), objects, {item.key}, added, stuck, false);
        return;
      }
      DeleteAll([item.key], stuck);
      assert (set k | k in [item.key]) == {item.key};
      MatchingLess(versions, full, objects);
      Booked(old(versions), versions, old(objects), objects, {item.key}, added, stuck, true);
      if r.Duplicate? {
        KnownAddsNothing(old(versions), item);
        OneRepeats(versions, r.version, item);
        VersionHasKey(versions, r.version);
        if item.key in stuck || r.version.key !in objects {
          return Refused;
        }
      }
    }

    /** Record all items in one transaction; the reply lists the keys of the duplicates. */
    method CommitApply(importId: string, items: seq<Item>, manifest: bool, ending: Ending)
      returns (duplicates: Option<seq<string>>)
      requires WellKept(versions) && FreshItems(versions, items)
      modifies this`versions, this`imports, this`attached
      ensures var done := old(Commits(imports, attached, importId, items, manifest)) && !ending.RolledBack?;
              versions == (if done then AddedAll(old(versions), items) else old(versions)) &&
              imports == (if done then old(imports)[importId := Completed] else old(imports)) &&
              attached == (if done then old(attached) + ItemIds(items) else old(attached))
      ensures duplicates.Some? <==> old(Commits(imports, attached, importId, items, manifest)) && ending.Committed?
      ensures duplicates.Some? ==> (set k | k in duplicates.value) == ItemKeys(items) - KeysOf(versions)
    {
      hide Known; hide KeysOf; hide ItemKeys; hide MaxNumber; hide AddedAll; hide WellKept; hide FreshItems;
      if importId !in imports || !imports[importId].Applying? {
        return None;
      }
      var result, taken, skipped := versions, attached, [];
      var n := 0;
      NoItemKeys(items);
      while n < |items|
        invariant 0 <= n <= |items| && versions == old(versions) && imports == old(imports) && attached == old(attached)
        invariant n > 0 ==> manifest
        invariant Unattached(items[..n], attached)
        invariant taken == attached + (set i | 0 <= i < n :: items[i].id)
        invariant result == AddedAll(versions, items[..n])
        invariant (set k | k in skipped) == ItemKeys(items[..n]) - KeysOf(result)
      {
        var item := items[n];
        if !manifest {
          return None;
        }
        TakeOne(versions, items, n);
        assert (set k | k in skipped + [item.key]) == (set k | k in skipped) + {item.key};
        if Known(result, item.student, item.lab, item.archive) {
          skipped := skipped + [item.key];
        } else {
          var number := MaxNumber(result, item.student, item.lab) + 1;
          result := result + [Version(item.student, item.lab, number, item.key, item.archive)];
        }
        AttachOne(items, attached, n, taken);
        if item.id in taken {
          return None;
        }
        taken := taken + {item.id};
        n := n + 1;
      }
      assert items[..n] == items;
      if ending.RolledBack? {
        return None;
      }
      versions, attached, imports := result, taken, imports[importId := Completed];
      return if ending.Committed? then Some(skipped) else None;
    }

    /** Upload until the first project without a target or the first failing upload. */
    method Upload(projects: seq<Project>) returns (items: seq<Item>, keys: seq<string>, ok: bool)
      requires FreshProjects(projects, objects.Keys + KeysOf(versions))
      modifies this`objects
      ensures Uploaded(items, objects) && FreshItems(versions, items) && (set k | k in keys) == ItemKeys(items)
      ensures objects.Keys == old(objects).Keys + ItemKeys(items) && ItemKeys(items) !! old(objects).Keys
      ensures forall k :: k in old(objects) ==> k in objects && objects[k] == old(objects)[k]
      ensures ItemKeys(items) !! KeysOf(versions) && ItemKeys(items) <= ProjectKeys(projects)
      ensures ItemKeys(items) == UploadedKeys(projects)
      ensures ok <==> AllUpload(projects)
      ensures ok ==> items == ItemsOf(projects)
    {
      hide KeysOf;
      items, keys := [], [];
      var n := 0;
      while n < |projects|
        invariant 0 <= n <= |projects| && |items| == n && |keys| == n && AllUpload(projects[..n])
        invariant forall i :: 0 <= i < n ==>
                    projects[i].target.Some? && items[i] == ItemOf(projects[i]) && keys[i] == projects[i].key
        invariant Uploaded(items, objects)
        invariant forall k :: k in objects <==> k in old(objects) || k in keys
        invariant forall k :: k in old(objects) ==> k in objects && objects[k] == old(objects)[k]
      {
        var p := projects[n];
        if p.target.None? || !p.uploads {
          UploadedSoFar(items, keys, projects, n, old(objects), versions);
          UploadsEnd(items, projects, n);
          return items, keys, false;
        }
        items, keys := items + [ItemOf(p)], keys + [p.key];
        objects := objects[p.key := p.archive];
        n := n + 1;
      }
      assert projects[..n] == projects;
      UploadedSoFar(items, keys, projects, n, old(objects), versions);
      UploadsEnd(items, projects, n);
      return items, keys, true;
    }

    /** Apply an approved import: upload every project, record them all, then delete the
        uploads of duplicates, or all of them on failure. `ready` stands for reading and analysing
        the archive before the first upload. When the answer of the transaction is lost, exactly
        the versions it recorded lose their objects, except where the delete is stuck. */
    method Apply(importId: string, allowed: bool, ready: bool, projects: seq<Project>, manifest: bool, ending: Ending,
                 stuck: set<string>)
      returns (ok: bool)
      requires Valid() && FreshProjects(projects, objects.Keys + KeysOf(versions))
      modifies this
      ensures Valid()
      ensures Tables() == Applied(old(Tables()), importId, allowed, ready, projects, manifest, ending)
      ensures ok <==> old(Applies(imports, attached, importId, allowed, ready, projects, manifest)) && ending.Committed?
      ensures Missing(versions, objects) ==
              old(Missing(versions, objects)) +
                (if ending.Unknown? then KeysOf(versions) - old(KeysOf(versions)) - stuck else {})
      ensures Orphans(versions, objects) ==
              old(Orphans(versions, objects)) +
                (if allowed && ready && old(importId in imports && imports[importId].Approved?)
                 then (UploadedKeys(projects) - KeysOf(versions)) * stuck else {})
      ensures ok ==> importId in imports && imports[importId].Completed? && AllRecorded(versions, projects)
      ensures objects.Keys <= old(objects).Keys + ProjectKeys(projects)
      ensures KeysOf(versions) <= old(KeysOf(versions)) + ProjectKeys(projects)
    {
      hide Known; hide WellKept; hide KeysOf; hide MaxNumber; hide Matching; hide AddedAll; hide ItemKeys;
      hide FreshItems; hide Applied; hide Applies; hide Commits; hide UploadedKeys; hide ItemIds;
      AppliedCases(Tables(), importId, allowed, ready, projects, manifest, ending);
      if !allowed || importId !in imports || !imports[importId].Approved? {
        return false;
      }
      imports := imports[importId := Applying];
      if !ready {
        imports := imports[importId := Failed];
        return false;
      }
      ok := ApplyProjects(importId, projects, manifest, ending, stuck);
    }

    predicate CommitsAll(importId: string, projects: seq<Project>, manifest: bool)
      reads this
    {
      AllUpload(projects) && Commits(imports, attached, importId, ItemsOf(projects), manifest)
    }

    /** Uploading and recording the projects of an import that is being applied. */
    method ApplyProjects(importId: string, projects: seq<Project>, manifest: bool, ending: Ending, stuck: set<string>)
      returns (ok: bool)
      requires importId in imports && imports[importId].Applying?
      requires Valid() && FreshProjects(projects, objects.Keys + KeysOf(versions))
      modifies this
      ensures Valid()
      ensures old(CommitsAll(importId, projects, manifest)) && !ending.RolledBack? ==>
                versions == AddedAll(old(versions), ItemsOf(projects)) &&
                attached == old(attached) + ItemIds(ItemsOf(projects)) && imports == old(imports)[importId := Completed]
      ensures !(old(CommitsAll(importId, projects, manifest)) && !ending.RolledBack?) ==>
                versions == old(versions) && attached == old(attached) && imports == old(imports)[importId := Failed]
      ensures ok <==> old(CommitsAll(importId, projects, manifest)) && ending.Committed?
      ensures Missing(versions, objects) ==
              old(Missing(versions, objects)) +
                (if ending.Unknown? then KeysOf(versions) - old(KeysOf(versions)) - stuck else {})
      ensures Orphans(versions, objects) ==
              old(Orphans(versions, objects)) + (UploadedKeys(projects) - KeysOf(versions)) * stuck
      ensures ok ==> AllRecorded(versions, projects)
      ensures objects.Keys <= old(objects).Keys + ProjectKeys(projects)
      ensures KeysOf(versions) <= old(KeysOf(versions)) + ProjectKeys(projects)
    {
      hide Known; hide WellKept; hide KeysOf; hide MaxNumber; hide Matching; hide AddedAll; hide ItemKeys;
      hide FreshItems; hide Commits; hide UploadedKeys; hide ItemIds;
      var items, keys, uploaded := Upload(projects);
      ghost var full := objects;
      MatchingLess(versions, old(objects), full);
      if !uploaded {
        DeleteAll(keys, stuck);
        MatchingLess(versions, full, objects);
        Booked(old(versions), versions, old(objects), objects, ItemKeys(items), {}, stuck, true);
        imports := imports[importId := Failed];
        return false;
      }
      ok := RecordAll(importId, items, keys, manifest, ending, stuck, old(objects));
      if ok {
        ItemsKnown(versions, projects);
      }
    }

    /** The second half of applying: `before` are the objects from before the uploads. */
    method RecordAll(importId: string, items: seq<Item>, keys: seq<string>, manifest: bool, ending: Ending,
                     stuck: set<string>,
                     ghost before: map<string, string>)
      returns (ok: bool)
      requires importId in imports && imports[importId].Applying?
      requires Valid() && FreshItems(versions, items) && Uploaded(items, objects) &&
               (set k | k in keys) == ItemKeys(items)
      requires objects.Keys == before.Keys + ItemKeys(items)
      requires ItemKeys(items) !! before.Keys && ItemKeys(items) !! KeysOf(versions)
      modifies this
      ensures Valid()
      ensures var commits := old(Commits(imports, attached, importId, items, manifest));
              versions == (if commits && !ending.RolledBack? then AddedAll(old(versions), items) else old(versions)) &&
              attached == (if commits && !ending.RolledBack? then old(attached) + ItemIds(items) else old(attached)) &&
              imports == old(imports)[importId := if commits && !ending.RolledBack? then Completed else Failed] &&
              (ok <==> commits && ending.Committed?)
      ensures Missing(versions, objects) ==
              Missing(old(versions), before) +
                (if ending.Unknown? then KeysOf(versions) - old(KeysOf(versions)) - stuck else {})
      ensures Orphans(versions, objects) ==
              Orphans(old(versions), before) + (ItemKeys(items) - KeysOf(versions)) * stuck
      ensures objects.Keys <= old(objects).Keys && KeysOf(versions) <= old(KeysOf(versions)) + ItemKeys(items)
      ensures importId in imports && (ok ==> imports[importId].Completed? && AllKnown(versions, items))
    {
      hide Known; hide WellKept; hide KeysOf; hide MaxNumber; hide Matching; hide AddedAll; hide ItemKeys;
      hide FreshItems;
      hide Commits; hide AllKnown;
      ghost var full := objects;
      AddedEach(versions, items);
      var duplicates := CommitApply(importId, items, manifest, ending);
      ghost var added := KeysOf(versions) - old(KeysOf(versions));
      assert Matching(versions, full);
      if duplicates.None? {
        DeleteAll(keys, stuck);
        MatchingLess(versions, full, objects);
        Booked(old(versions), versions, before, objects, ItemKeys(items), added, stuck, true);
        if imports[importId].Applying? {
          imports := imports[importId := Failed];
        }
        return false;
      }
      DeleteAll(duplicates.value, stuck);
      MatchingLess(versions, full, objects);
      Booked(old(versions), versions, before, objects, ItemKeys(items), added, stuck, false);
      return true;
    }

    /** Compare the store with the table; an object with the wrong content stops it. */
    method Reconcile() returns (ok: bool, missing: seq<string>, orphaned: seq<string>)
      ensures ok <==> Matching(versions, objects)
      ensures ok ==> forall k :: k in missing <==> k in Missing(versions, objects)
      ensures ok ==> forall k :: k in orphaned <==> k in Orphans(versions, objects)
      ensures Valid() && objects.Keys == KeysOf(versions) ==> ok && missing == [] && orphaned == []
    {
      hide WellNumbered; hide DistinctKeys;
      missing, orphaned := [], [];
      var referenced: set<string> := {};
      var i := 0;
      while i < |versions|
        invariant 0 <= i <= |versions|
        invariant referenced == KeysOf(versions[..i])
        invariant forall k :: k in missing <==> k in referenced && k !in objects
        invariant forall j :: 0 <= j < i && versions[j].key in objects ==>
                                objects[versions[j].key] == versions[j].archive
      {
        AppendKeys(versions[..i], versions[i]);
        assert versions[..i + 1] == versions[..i] + [versions[i]];
        hide KeysOf;
        referenced := referenced + {versions[i].key};
        if versions[i].key !in objects {
          missing := missing + [versions[i].key];
        } else if objects[versions[i].key] != versions[i].archive {
          return false, [], [];
        }
        i := i + 1;
      }
      assert versions[..i] == versions;
      hide KeysOf;
      var listed := objects.Keys;
      while listed != {}
        invariant listed <= objects.Keys
        invariant forall k :: k in orphaned <==> k in objects && k !in listed && k !in referenced
        decreases |listed|
      {
        var k :| k in listed;
        if k !in referenced {
          orphaned := orphaned + [k];
        }
        listed := listed - {k};
      }
      NothingListed(missing);
      NothingListed(orphaned);
      return true, missing, orphaned;
    }
  }

  lemma NothingListed(a: seq<string>)
    ensures (forall k :: k !in a) <==> a == []
  {
    if a != [] {
      assert a[0] in a;
    }
  }

  /** How an application goes, step by step. */
  lemma AppliedCases(r: Records, importId: string, allowed: bool, ready: bool, projects: seq<Project>, manifest: bool,
                     ending: Ending)
    ensures var approved := allowed && importId in r.imports && r.imports[importId].Approved?;
            var applies := Applies(r.imports, r.attached, importId, allowed, ready, projects, manifest);
            var after := Applied(r, importId, allowed, ready, projects, manifest, ending);
            (!approved ==> !applies && after == r) &&
            (approved && !(ready && AllUpload(projects)) ==>
               !applies && after == r.(imports := r.imports[importId := Failed])) &&
            (approved && ready && AllUpload(projects) ==>
               var items := ItemsOf(projects);
               (applies <==> Commits(r.imports[importId := Applying], r.attached, importId, items, manifest)) &&
               after == if applies && !ending.RolledBack?
                        then Records(AddedAll(r.versions, items), r.imports[importId := Completed],
                                     r.attached + ItemIds(items))
                        else r.(imports := r.imports[importId := Failed]))
  {
    hide AddedAll; hide Unattached;
  }

  function ProjectKeys(projects: seq<Project>): set<string> {
    set i | 0 <= i < |projects| :: projects[i].key
  }

  /** Only one version repeats an item's archive. */
  lemma OneRepeats(vs: seq<Version>, v: Version, item: Item)
    requires WellKept(vs) && v in vs && Of(v, item.student, item.lab) && v.archive == item.archive
    ensures forall objects :: HasObject(vs, objects, item) <==> v.key in objects
  {
    hide WellNumbered;
    var k :| 0 <= k < |vs| && vs[k] == v;
    forall i | 0 <= i < |vs| && Of(vs[i], item.student, item.lab) && vs[i].archive == item.archive ensures i == k {
      if i < k {
        ArchivesAreDistinct(vs, i, k);
      } else if k < i {
        ArchivesAreDistinct(vs, k, i);
      }
    }
  }

  lemma KnownAddsNothing(vs: seq<Version>, item: Item)
    requires Known(vs, item.student, item.lab, item.archive)
    ensures Added(vs, item) == vs
  {
  }

  lemma VersionHasKey(vs: seq<Version>, v: Version)
    requires v in vs
    ensures v.key in KeysOf(vs)
  {
  }

  lemma CreatedKey(vs: seq<Version>, now: seq<Version>, item: Item)
    requires |now| == |vs| + 1 && now[|vs|].key == item.key
    ensures item.key in KeysOf(now)
  {
  }

  lemma AttachOne(items: seq<Item>, attached: set<string>, n: nat, taken: set<string>)
    requires n < |items| && Unattached(items[..n], attached) && taken == attached + (set i | 0 <= i < n :: items[i].id)
    ensures Unattached(items[..n + 1], attached) <==> items[n].id !in taken
    ensures items[n].id in taken ==> !Unattached(items, attached)
    ensures taken + {items[n].id} == attached + (set i | 0 <= i < n + 1 :: items[i].id)
  {
    var done, more := items[..n], items[..n + 1];
    assert forall i :: 0 <= i < n ==> done[i] == items[i] && more[i] == items[i];
    assert more[n] == items[n];
    if items[n].id in taken && items[n].id !in attached {
      var i :| 0 <= i < n && items[i].id == items[n].id;
      assert more[i].id == more[n].id;
    }
  }

  lemma UploadedSoFar(items: seq<Item>, keys: seq<string>, projects: seq<Project>, n: nat,
                      objects: map<string, string>, vs: seq<Version>)
    requires FreshProjects(projects, objects.Keys + KeysOf(vs)) && n <= |projects| && |items| == n && |keys| == n
    requires forall i :: 0 <= i < n ==>
               projects[i].target.Some? && items[i] == ItemOf(projects[i]) && keys[i] == projects[i].key
    ensures FreshItems(vs, items) && (set k | k in keys) == ItemKeys(items) && ItemKeys(items) !! objects.Keys
    ensures ItemKeys(items) !! KeysOf(vs) && ItemKeys(items) <= ProjectKeys(projects)
  {
    hide KeysOf;
    forall k | k in keys ensures k in ItemKeys(items) {
      var i :| 0 <= i < n && keys[i] == k;
      assert items[i].key == k;
    }
    forall k | k in ItemKeys(items)
      ensures k in keys && k !in objects && k !in KeysOf(vs) && k in ProjectKeys(projects) {
      var i :| 0 <= i < n && items[i].key == k;
      assert keys[i] == k && projects[i].key == k;
    }
  }

  lemma UploadsEnd(items: seq<Item>, projects: seq<Project>, n: nat)
    requires n <= |projects| && |items| == n && AllUpload(projects[..n])
    requires forall i :: 0 <= i < n ==> items[i].key == projects[i].key
    requires n < |projects| ==> projects[n].target.None? || !projects[n].uploads
    ensures ItemKeys(items) == UploadedKeys(projects)
  {
    forall i | 0 <= i < |projects| ensures Reaches(projects, i) <==> i < n {
      if i < n {
        assert forall j :: 0 <= j < i + 1 ==> projects[..i + 1][j] == projects[..n][j];
      } else {
        assert projects[..i + 1][n] == projects[n];
      }
    }
    forall k | k in UploadedKeys(projects) ensures k in ItemKeys(items) {
      var i :| 0 <= i < |projects| && Reaches(projects, i) && projects[i].key == k;
      assert items[i].key == k;
    }
    forall k | k in ItemKeys(items) ensures k in UploadedKeys(projects) {
      var i :| 0 <= i < |items| && items[i].key == k;
      assert Reaches(projects, i);
    }
  }

  /** Every project is a version of its student and lab. */
  ghost predicate AllRecorded(vs: seq<Version>, projects: seq<Project>) {
    forall i :: 0 <= i < |projects| ==> Recorded(vs, projects[i])
  }

  ghost predicate Recorded(vs: seq<Version>, p: Project) {
    p.target.Some? && Known(vs, p.target.value.student, p.target.value.lab, p.archive)
  }

  lemma ItemsKnown(vs: seq<Version>, projects: seq<Project>)
    requires AllUpload(projects) && AllKnown(vs, ItemsOf(projects))
    ensures AllRecorded(vs, projects)
  {
    hide Known;
    forall i | 0 <= i < |projects| ensures Recorded(vs, projects[i]) {
      assert ItemsOf(projects)[i] == ItemOf(projects[i]);
    }
  }

  // ------------------------------------------------------------------
  // Every sequence of operations
  // ------------------------------------------------------------------

  datatype Event =
    | Approval(importId: string)
    | Application(importId: string, allowed: bool, ready: bool, projects: seq<Project>, manifest: bool, ending: Ending,
                  stuck: set<string>)
    | Storing(item: Item, uploads: bool, manifest: bool, ending: Ending, stuck: set<string>)

  /** The keys that an event generates. */
  function EventKeys(e: Event): set<string> {
    match e
    case Approval(_) => {}
    case Application(_, _, _, projects, _, _, _) => ProjectKeys(projects)
    case Storing(item, _, _, _, _) => {item.key}
  }

  function KeysBefore(events: seq<Event>, n: nat): (keys: set<string>)
    requires n <= |events|
  {
    if n == 0 then {} else KeysBefore(events, n - 1) + EventKeys(events[n - 1])
  }

  /** Generated keys never repeat. */
  ghost predicate FreshKeys(events: seq<Event>) {
    forall n :: 0 <= n < |events| ==> FreshEvent(events[n], KeysBefore(events, n))
  }

  ghost predicate FreshEvent(e: Event, used: set<string>) {
    match e
    case Approval(_) => true
    case Application(_, _, _, projects, _, _, _) => FreshProjects(projects, used)
    case Storing(item, _, _, _, _) => item.key !in used
  }

  predicate AnswerLost(e: Event) {
    !e.Approval? && e.ending.Unknown?
  }

  function Stuck(e: Event): set<string> {
    if e.Approval? then {} else e.stuck
  }

  /** The records after an event. */
  function Performed(r: Records, e: Event): Records {
    match e
    case Approval(importId) =>
      if importId in r.imports then r else r.(imports := r.imports[importId := Approved])
    case Application(importId, allowed, ready, projects, manifest, ending, _) =>
      Applied(r, importId, allowed, ready, projects, manifest, ending)
    case Storing(item, uploads, manifest, ending, _) =>
      r.(versions := StoredIn(r.versions, item, uploads, manifest, ending))
  }

  /** The keys that an event uploads. */
  function EventUploads(r: Records, e: Event): set<string> {
    match e
    case Approval(_) => {}
    case Application(importId, allowed, ready, projects, _, _, _) =>
      if allowed && ready && importId in r.imports && r.imports[importId].Approved? then UploadedKeys(projects) else {}
    case Storing(item, uploads, _, _, _) => if uploads then {item.key} else {}
  }

  /** The keys that an event makes missing: recorded by a lost answer, and then deleted. */
  function Lost(r: Records, e: Event): set<string> {
    if AnswerLost(e) then KeysOf(Performed(r, e).versions) - KeysOf(r.versions) - Stuck(e) else {}
  }

  /** The keys that an event orphans: uploaded, not recorded, and stuck. */
  function Abandoned(r: Records, e: Event): set<string> {
    (EventUploads(r, e) - KeysOf(Performed(r, e).versions)) * Stuck(e)
  }

  function RecordsAfter(events: seq<Event>, n: nat): Records
    requires n <= |events|
  {
    if n == 0 then Records([], map[], {}) else Performed(RecordsAfter(events, n - 1), events[n - 1])
  }

  function MissingAfter(events: seq<Event>, n: nat): set<string>
    requires n <= |events|
  {
    if n == 0 then {} else MissingAfter(events, n - 1) + Lost(RecordsAfter(events, n - 1), events[n - 1])
  }

  function OrphansAfter(events: seq<Event>, n: nat): set<string>
    requires n <= |events|
  {
    if n == 0 then {} else OrphansAfter(events, n - 1) + Abandoned(RecordsAfter(events, n - 1), events[n - 1])
  }

  method Perform(s: Submissions, e: Event)
    requires s.Valid() && FreshEvent(e, s.objects.Keys + KeysOf(s.versions))
    modifies s
    ensures s.Valid()
    ensures s.objects.Keys + KeysOf(s.versions) <= old(s.objects.Keys + KeysOf(s.versions)) + EventKeys(e)
    ensures s.Tables() == Performed(old(s.Tables()), e)
    ensures Missing(s.versions, s.objects) == old(Missing(s.versions, s.objects)) + Lost(old(s.Tables()), e)
    ensures Orphans(s.versions, s.objects) == old(Orphans(s.versions, s.objects)) + Abandoned(old(s.Tables()), e)
  {
    hide KeysOf; hide WellKept; hide Matching; hide AddedAll; hide ItemKeys; hide Applied; hide StoredIn;
    hide UploadedKeys;
    hide Applies;
    match e {
      case Approval(importId) =>
        s.Approve(importId);
      case Application(importId, allowed, ready, projects, manifest, ending, stuck) =>
        var _ := s.Apply(importId, allowed, ready, projects, manifest, ending, stuck);
      case Storing(item, uploads, manifest, ending, stuck) =>
        var _ := s.StoreVersion(item, uploads, manifest, ending, stuck);
    }
  }

  /** The numbers of every student and lab are exactly 1 up to their count, in order, and no
      archive repeats. */
  ghost predicate Gapless(vs: seq<Version>) {
    (forall student, lab, number ::
       Numbered(vs, student, lab, number) <==> 1 <= number <= |Places(vs, student, lab)|) &&
    (forall i, j :: 0 <= i < j < |vs| && vs[i].student == vs[j].student && vs[i].lab == vs[j].lab ==>
       vs[i].number < vs[j].number && vs[i].archive != vs[j].archive)
  }

  lemma KeptIsGapless(vs: seq<Version>)
    requires WellKept(vs)
    ensures Gapless(vs)
  {
    hide Known; hide Numbered; hide WellNumbered;
    forall student, lab, number
      ensures Numbered(vs, student, lab, number) <==> 1 <= number <= |Places(vs, student, lab)| {
      NumbersAreGapless(vs, student, lab);
    }
    forall i, j | 0 <= i < j < |vs| && vs[i].student == vs[j].student && vs[i].lab == vs[j].lab
      ensures vs[i].number < vs[j].number && vs[i].archive != vs[j].archive {
      NumbersAreGapless(vs, vs[i].student, vs[i].lab);
      assert i in Places(vs, vs[i].student, vs[i].lab) && j in Places(vs, vs[i].student, vs[i].lab);
      ArchivesAreDistinct(vs, i, j);
    }
  }

  /** Every run from the empty store. Whatever answers are lost and whatever deletes are stuck:
      the records are those of the events, numbers are gapless with distinct archives, the missing
      keys are exactly those that lost answers recorded and then deleted, and the orphans exactly
      the stuck uploads that were not recorded. The objects are those of the versions if and only if
      there are neither, and reconciling then reports nothing. */
  method Replay(events: seq<Event>) returns (s: Submissions, missing: seq<string>, orphaned: seq<string>)
    requires FreshKeys(events)
    ensures s.Valid() && Gapless(s.versions)
    ensures s.Tables() == RecordsAfter(events, |events|)
    ensures Missing(s.versions, s.objects) == MissingAfter(events, |events|)
    ensures Orphans(s.versions, s.objects) == OrphansAfter(events, |events|)
    ensures s.objects.Keys == KeysOf(s.versions) <==>
              MissingAfter(events, |events|) == {} && OrphansAfter(events, |events|) == {}
    ensures s.objects.Keys == KeysOf(s.versions) ==> missing == [] && orphaned == []
  {
    hide KeysOf; hide WellKept; hide Matching; hide FreshEvent; hide Gapless; hide EventKeys; hide Performed;
    hide Lost; hide Abandoned;
    s := new Submissions();
    NothingKept(s.versions, s.objects);
    var n := 0;
    while n < |events|
      invariant 0 <= n <= |events| && s.Valid() && fresh(s)
      invariant s.objects.Keys + KeysOf(s.versions) <= KeysBefore(events, n)
      invariant s.Tables() == RecordsAfter(events, n)
      invariant Missing(s.versions, s.objects) == MissingAfter(events, n)
      invariant Orphans(s.versions, s.objects) == OrphansAfter(events, n)
    {
      FresherEvent(events[n], KeysBefore(events, n), s.objects.Keys + KeysOf(s.versions));
      Perform(s, events[n]);
      n := n + 1;
    }
    KeptIsGapless(s.versions);
    ExactBooks(s.versions, s.objects);
    var ok;
    ok, missing, orphaned := s.Reconcile();
  }

  /** Without a lost answer nothing is missing, and only stuck deletes leave orphans. */
  lemma {:induction false} OnlyLostAndStuck(events: seq<Event>, n: nat)
    requires n <= |events|
    ensures (forall i :: 0 <= i < n ==> !AnswerLost(events[i])) ==> MissingAfter(events, n) == {}
    ensures (forall i :: 0 <= i < n ==> Stuck(events[i]) == {}) ==> OrphansAfter(events, n) == {}
  {
    hide Performed; hide KeysOf; hide EventUploads; hide AnswerLost; hide Stuck;
    if n > 0 {
      OnlyLostAndStuck(events, n - 1);
    }
  }

  lemma NothingKept(vs: seq<Version>, objects: map<string, string>)
    requires vs == [] && objects == map[]
    ensures KeysOf(vs) == {}
  {
  }

  lemma FresherEvent(e: Event, used: set<string>, fewer: set<string>)
    requires FreshEvent(e, used) && fewer <= used
    ensures FreshEvent(e, fewer)
  {
  }

  /** The answer of the transaction is lost: the version is recorded, and its object is deleted. */
  method AnswerIsLost() returns (s: Submissions)
    ensures s.Valid() && Missing(s.versions, s.objects) == {"key"}
  {
    s := new Submissions();
    NothingKept(s.versions, s.objects);
    var item := Item("item", "student", "lab", "key", "archive");
    assert !Known([], item.student, item.lab, item.archive);
    AddedOne([], item);
    hide KeysOf; hide WellKept; hide Matching; hide Known; hide MaxNumber;
    var _ := s.StoreVersion(item, true, true, Unknown, {});
  }
}
