/** GroupServiceImpl: listing, finding, creating and deleting groups, with the "groups" cache region. */
module GroupService {
  import opened Results
  import opened Text
  import opened Seqs
  import opened Entities
  import opened Caching

  /** 'allGroups' + #namePattern + #sort */
  function ReadGroupsKey(namePattern: Option<string>, sort: Option<string>): Entry {
    Entry(GroupsRegion, StrKey("allGroups" + NullableString(namePattern) + NullableString(sort)))
  }

  /** #id */
  function GroupKey(id: int): Entry {
    Entry(GroupsRegion, IdKey(id))
  }

  /** 'name_' + #name */
  function NameKey(name: string): Entry {
    Entry(GroupsRegion, StrKey("name_" + name))
  }

  /** The key 'allGroups*', which the cache treats as one literal key. */
  const AllGroupsLiteral: Entry := Entry(GroupsRegion, StrKey("allGroups*"))

  /** The literal 'allGroups*' is the key of only two listings, readGroups("", "*") and
      readGroups("*", ""); every other listing survives its eviction. */
  lemma ListingMatchesLiteral(namePattern: Option<string>, sort: Option<string>)
    ensures ReadGroupsKey(namePattern, sort) == AllGroupsLiteral <==>
              (namePattern == Some("") && sort == Some("*")) || (namePattern == Some("*") && sort == Some(""))
  {
    var p, s := NullableString(namePattern), NullableString(sort);
    var text := "allGroups" + p + s;
    if text == "allGroups*" {
      assert |p + s| == 1;
      assert (p + s)[0] == text[9] == '*';
      if p == "" {
        assert s == "*";
        assert namePattern.Some? && sort.Some?;
      } else {
        assert p == "*" && s == "";
        assert namePattern.Some? && sort.Some?;
      }
    }
  }

  /** A key that some readGroups call fills: 'allGroups' followed by anything. */
  predicate IsListingKey(e: Entry) {
    e.region == GroupsRegion && e.key.StrKey? && IsPrefix("allGroups", e.key.text)
  }

  /** The eviction 'allGroups*' evidently stands for: every listing of the region. */
  function WithoutListings(m: Entries): (r: Entries)
    ensures forall x :: x in r <==> x in m && !IsListingKey(x)
    ensures forall x :: x in r ==> r[x] == m[x]
  {
    map x | x in m && !IsListingKey(x) :: m[x]
  }

  /** Every key readGroups fills is a listing key, and no key of a single group is. */
  lemma ListingKeys(namePattern: Option<string>, sort: Option<string>, id: int, name: string)
    ensures IsListingKey(ReadGroupsKey(namePattern, sort))
    ensures !IsListingKey(GroupKey(id)) && !IsListingKey(NameKey(name))
  {
    var text := "allGroups" + NullableString(namePattern) + NullableString(sort);
    assert text[..9] == "allGroups";
    assert ("name_" + name)[0] == 'n';
  }

  predicate NameContains(pattern: string, g: Group) {
    Contains(g.name, pattern)
  }

  /** What readGroups computes: a pattern filters by name and takes precedence over sort,
      "asc" in any case sorts by name, anything else lists the table as it is. */
  function QueryGroups(groups: seq<Group>, namePattern: Option<string>, sort: Option<string>): (r: seq<Group>)
    ensures namePattern.Some? ==> forall g :: g in r <==> g in groups && Contains(g.name, namePattern.value)
    ensures namePattern.None? && IsAscOption(sort) ==> SortedBy(r, GroupName) && multiset(r) == multiset(groups)
    ensures namePattern.None? && !IsAscOption(sort) ==> r == groups
  {
    if namePattern.Some? then Filter(groups, (g: Group) => NameContains(namePattern.value, g))
    else if IsAscOption(sort) then SortBy(groups, GroupName)
    else groups
  }

  /** studentRepository.findAllById: the stored students whose id is requested, each once. */
  function FoundStudents(students: seq<Student>, ids: seq<int>): (r: seq<Student>)
    ensures forall s :: s in r <==> s in students && s.id in ids
  {
    Filter(students, Requested(ids))
  }

  function Requested(ids: seq<int>): Student -> bool {
    (s: Student) => s.id in ids
  }

  /** The requested ids with no stored student, in request order. */
  function MissingIds(students: seq<Student>, ids: seq<int>): (r: seq<int>)
    ensures forall i :: i in r <==> i in ids && !HasStudent(students, i)
    ensures forall i :: multiset(r)[i] == if HasStudent(students, i) then 0 else multiset(ids)[i]
    ensures exists f :: EmbedsAt(r, ids, f)
    ensures |r| <= |ids|
  {
    FilterKeepsOrder(ids, Absent(students));
    MissingMultiplicity(students, ids);
    Filter(ids, Absent(students))
  }

  lemma MissingMultiplicity(students: seq<Student>, ids: seq<int>)
    ensures forall i :: multiset(Filter(ids, Absent(students)))[i] ==
                        if HasStudent(students, i) then 0 else multiset(ids)[i]
  {
    forall i {
      FilterMultiplicity(ids, Absent(students), i);
    }
  }

  /** The test selecting an id with no stored student. */
  function Absent(students: seq<Student>): int -> bool {
    (i: int) => !HasStudent(students, i)
  }

  /** The failure test of addGroup as written: some ids were given and the number of
      students found differs from the number of ids. */
  predicate AddGroupRejects(students: seq<Student>, ids: seq<int>) {
    ids != [] && |FoundStudents(students, ids)| != |ids|
  }

  /** The failure test evidently intended: some requested id is not stored. */
  predicate AddGroupRejectsIntended(students: seq<Student>, ids: seq<int>) {
    MissingIds(students, ids) != []
  }

  /** With ids unique in the table, the number of found students is the number of
      distinct requested ids that are stored. */
  lemma FoundCount(students: seq<Student>, ids: seq<int>)
    requires Increasing(students, StudentId)
    ensures |FoundStudents(students, ids)| == |set i | i in ids && HasStudent(students, i)|
  {
    var found := FoundStudents(students, ids);
    FilterKeepsIncreasing(students, StudentId, Requested(ids));
    IncreasingIdCount(found, StudentId);
    FoundIds(students, ids, found);
  }

  lemma FoundIds(students: seq<Student>, ids: seq<int>, found: seq<Student>)
    requires forall s :: s in found <==> s in students && s.id in ids
    ensures IdSet(found, StudentId) == set i | i in ids && HasStudent(students, i)
  {
    var present := set i | i in ids && HasStudent(students, i);
    forall i | i in present
      ensures i in IdSet(found, StudentId)
    {
      var s :| s in students && s.id == i;
      assert s in found && StudentId(s) == i;
    }
  }

  /** For a request without repeated ids the test as written is the intended one, in both
      directions: addGroup fails exactly when some id is not stored. */
  lemma RejectsAsIntendedOnDistinctIds(students: seq<Student>, ids: seq<int>)
    requires Increasing(students, StudentId)
    requires Distinct(ids)
    ensures AddGroupRejects(students, ids) <==> AddGroupRejectsIntended(students, ids)
  {
    FoundCount(students, ids);
    DistinctCount(ids);
    var present := set i | i in ids && HasStudent(students, i);
    var all := set i | i in ids;
    if MissingIds(students, ids) != [] {
      var m := MissingIds(students, ids)[0];
      assert m in MissingIds(students, ids);
      ProperSubsetSmaller(present, all, m);
    } else {
      assert present == all;
    }
  }

  /** A repeated id of a stored student makes the test as written fail with an empty list
      of missing ids. */
  lemma RepeatedIdRejected()
    ensures var students := [Student(1, "Ann", 20, None)];
            AddGroupRejects(students, [1, 1]) && MissingIds(students, [1, 1]) == []
            && !AddGroupRejectsIntended(students, [1, 1])
  {
    var students := [Student(1, "Ann", 20, None)];
    assert HasStudent(students, 1) by { assert students[0] in students; }
    var found := FoundStudents(students, [1, 1]);
    assert |found| <= 1;
    assert MissingIds(students, [1, 1]) == [];
  }

  /** The student table after the loop of addGroup: every requested student points to the
      new group. */
  function AssignGroup(students: seq<Student>, ids: seq<int>, groupId: int): (r: seq<Student>)
    ensures |r| == |students|
  {
    seq(|students|, k requires 0 <= k < |students| =>
      if students[k].id in ids then students[k].(group := Some(groupId)) else students[k])
  }

  /** Assigning a group keeps every id, name and age, and the ascending ids of the table. */
  lemma AssignGroupKeepsIds(students: seq<Student>, ids: seq<int>, groupId: int, next: int)
    requires IdsAscending(students, StudentId, next)
    ensures IdsAscending(AssignGroup(students, ids, groupId), StudentId, next)
    ensures forall k :: 0 <= k < |students| ==>
              var s := AssignGroup(students, ids, groupId)[k];
              s.id == students[k].id && s.name == students[k].name && s.age == students[k].age
  {
    SameIdsKeepIds(students, AssignGroup(students, ids, groupId), StudentId, next);
  }

  /** After the assignment the group's students are exactly the requested stored students,
      provided no student pointed to the new group before; an empty request assigns nobody. */
  lemma AssignGroupMembers(students: seq<Student>, ids: seq<int>, groupId: int)
    requires forall s :: s in students ==> s.group != Some(groupId)
    ensures forall k :: 0 <= k < |students| ==>
              (AssignGroup(students, ids, groupId)[k].group == Some(groupId) <==> students[k].id in ids)
    ensures ids == [] ==> AssignGroup(students, ids, groupId) == students
  {
    forall k | 0 <= k < |students|
      ensures AssignGroup(students, ids, groupId)[k].group == Some(groupId) <==> students[k].id in ids
    {
      assert students[k] in students;
    }
  }

  class GroupServiceImpl {
    const db: Database
    const cache: CacheStore

    constructor (db: Database, cache: CacheStore)
      ensures this.db == db && this.cache == cache
    {
      this.db := db;
      this.cache := cache;
    }

    /** @Cacheable under ReadGroupsKey, unless the list is empty. */
    method ReadGroups(namePattern: Option<string>, sort: Option<string>) returns (r: Result<seq<Group>>)
      modifies cache
      ensures var e := ReadGroupsKey(namePattern, sort);
              if e in old(cache.entries) then
                r == AsGroupList(old(cache.entries)[e]) && cache.entries == old(cache.entries)
              else
                && r == Ok(QueryGroups(db.groups, namePattern, sort))
                && cache.entries == if r.value != [] then old(cache.entries)[e := GroupList(r.value)]
                                    else old(cache.entries)
    {
      var e := ReadGroupsKey(namePattern, sort);
      var hit := cache.Get(e);
      if hit.Some? {
        r := AsGroupList(hit.value);
        return;
      }
      r := Ok(QueryGroups(db.groups, namePattern, sort));
      if r.value != [] {
        cache.Put(e, GroupList(r.value));
      }
    }

    /** @Cacheable under the id; a miss in the table is NotFound and is not cached. */
    method FindById(id: int) returns (r: Result<Group>)
      modifies cache
      ensures var e := GroupKey(id);
              if e in old(cache.entries) then
                r == AsGroup(old(cache.entries)[e]) && cache.entries == old(cache.entries)
              else
                && (r.Err? <==> !HasGroup(db.groups, id))
                && (r.Err? ==> r.error == NotFound("Group not found with id: " + IntToString(id))
                               && cache.entries == old(cache.entries))
                && (r.Ok? ==> r.value in db.groups && r.value.id == id
                              && cache.entries == old(cache.entries)[e := GroupValue(r.value)])
    {
      var e := GroupKey(id);
      var hit := cache.Get(e);
      if hit.Some? {
        r := AsGroup(hit.value);
        return;
      }
      var group := GroupById(db.groups, id);
      if group.None? {
        r := Err(NotFound("Group not found with id: " + IntToString(id)));
        return;
      }
      r := Ok(group.value);
      cache.Put(e, GroupValue(group.value));
    }

    /** @Cacheable under 'name_' + name; a name no group carries is NotFound, a name two
        groups carry makes the query throw, and neither is cached. */
    method FindByName(name: string) returns (r: Result<Group>)
      modifies cache
      ensures var e := NameKey(name);
              if e in old(cache.entries) then
                r == AsGroup(old(cache.entries)[e]) && cache.entries == old(cache.entries)
              else
                && (r.Err? <==> !HasGroupNamed(db.groups, name) || GroupNameShared(db.groups, name))
                && (!HasGroupNamed(db.groups, name) ==> r == Err(NotFound("Group not found with name: " + name)))
                && (GroupNameShared(db.groups, name) ==> r.Err? && r.error.NonUniqueResult?)
                && (r.Err? ==> cache.entries == old(cache.entries))
                && (r.Ok? ==> r.value in db.groups && r.value.name == name
                              && cache.entries == old(cache.entries)[e := GroupValue(r.value)])
    {
      var e := NameKey(name);
      var hit := cache.Get(e);
      if hit.Some? {
        r := AsGroup(hit.value);
        return;
      }
      var found := GroupByName(db.groups, name);
      if found.Err? {
        r := Err(found.error);
        return;
      }
      if found.value.None? {
        r := Err(NotFound("Group not found with name: " + name));
        return;
      }
      r := Ok(found.value.value);
      cache.Put(e, GroupValue(found.value.value));
    }

    /** The loop of addGroup: each found student is given the new group. */
    method AssignStudents(ids: seq<int>, groupId: int)
      modifies db`students
      ensures db.students == AssignGroup(old(db.students), ids, groupId)
    {
      ghost var before := db.students;
      var j := 0;
      while j < |db.students|
        invariant 0 <= j <= |db.students| == |before|
        invariant forall k :: 0 <= k < j ==> db.students[k] == AssignGroup(before, ids, groupId)[k]
        invariant forall k :: j <= k < |db.students| ==> db.students[k] == before[k]
      {
        if db.students[j].id in ids {
          db.students := db.students[j := db.students[j].(group := Some(groupId))];
        }
        j := j + 1;
      }
    }

    /** addGroup as written: the count test, then the assignment loop and the save; on
        success the group is put under its id and its name, and the literal key
        'allGroups*' is evicted. */
    method AddGroup(name: string, studentIds: seq<int>) returns (r: Result<Group>)
      requires db.Valid()
      modifies db`students, db`groups, db`nextGroupId, cache
      ensures db.Valid()
      ensures r.Err? <==> AddGroupRejects(old(db.students), studentIds)
      ensures r.Err? ==> && r.error == StudentsNotFound(MissingIds(old(db.students), studentIds))
                         && db.students == old(db.students) && db.groups == old(db.groups)
                         && db.nextGroupId == old(db.nextGroupId)
                         && cache.entries == old(cache.entries)
      ensures r.Ok? ==> && r.value == Group(old(db.nextGroupId), name)
                        && db.groups == old(db.groups) + [r.value]
                        && db.students == AssignGroup(old(db.students), studentIds, r.value.id)
                        && cache.entries == Without(old(cache.entries)[GroupKey(r.value.id) := GroupValue(r.value)]
                                                                      [NameKey(name) := GroupValue(r.value)],
                                                    AllGroupsLiteral)
    {
      if studentIds != [] {
        var found := FoundStudents(db.students, studentIds);
        if |found| != |studentIds| {
          r := Err(StudentsNotFound(MissingIds(db.students, studentIds)));
          return;
        }
      }
      var group := Group(db.nextGroupId, name);
      AssignGroupKeepsIds(db.students, studentIds, group.id, db.nextStudentId);
      AssignStudents(studentIds, group.id);
      AppendKeepsIds(db.groups, GroupId, db.nextGroupId, group);
      db.groups := db.groups + [group];
      db.nextGroupId := db.nextGroupId + 1;
      r := Ok(group);
      cache.Put(GroupKey(group.id), GroupValue(group));
      cache.Put(NameKey(name), GroupValue(group));
      cache.Evict(AllGroupsLiteral);
    }

    /** addGroup with the intended failure test and the intended eviction of every listing. */
    method AddGroupCorrected(name: string, studentIds: seq<int>) returns (r: Result<Group>)
      requires db.Valid()
      modifies db`students, db`groups, db`nextGroupId, cache
      ensures db.Valid()
      ensures r.Err? <==> AddGroupRejectsIntended(old(db.students), studentIds)
      ensures r.Err? ==> && r.error == StudentsNotFound(MissingIds(old(db.students), studentIds))
                         && db.students == old(db.students) && db.groups == old(db.groups)
                         && db.nextGroupId == old(db.nextGroupId)
                         && cache.entries == old(cache.entries)
      ensures r.Ok? ==> && r.value == Group(old(db.nextGroupId), name)
                        && db.groups == old(db.groups) + [r.value]
                        && db.students == AssignGroup(old(db.students), studentIds, r.value.id)
                        && cache.entries == WithoutListings(old(cache.entries)[GroupKey(r.value.id) := GroupValue(r.value)]
                                                                             [NameKey(name) := GroupValue(r.value)])
    {
      var missing := MissingIds(db.students, studentIds);
      if missing != [] {
        r := Err(StudentsNotFound(missing));
        return;
      }
      var group := Group(db.nextGroupId, name);
      AssignGroupKeepsIds(db.students, studentIds, group.id, db.nextStudentId);
      AssignStudents(studentIds, group.id);
      AppendKeepsIds(db.groups, GroupId, db.nextGroupId, group);
      db.groups := db.groups + [group];
      db.nextGroupId := db.nextGroupId + 1;
      r := Ok(group);
      cache.Put(GroupKey(group.id), GroupValue(group));
      cache.Put(NameKey(name), GroupValue(group));
      cache.entries := WithoutListings(cache.entries);
    }

    /** evictGroupCaches, as its annotations read when it is reached through the proxy:
        the id key, the name key and the literal 'allGroups*'. */
    method EvictGroupCaches(group: Group)
      modifies cache
      ensures cache.entries == Without(Without(Without(old(cache.entries), GroupKey(group.id)),
                                               NameKey(group.name)), AllGroupsLiteral)
      ensures GroupKey(group.id) !in cache.entries && NameKey(group.name) !in cache.entries
    {
      cache.Evict(GroupKey(group.id));
      cache.Evict(NameKey(group.name));
      cache.Evict(AllGroupsLiteral);
    }

    /** deleteGroup as written: the call of evictGroupCaches comes from inside the object,
        bypasses the caching proxy and evicts nothing, so the cache is left as it was. */
    method DeleteGroup(id: int) returns (r: Outcome)
      requires db.Valid()
      modifies db`groups
      ensures db.Valid()
      ensures r.Fail? <==> !HasGroup(old(db.groups), id)
      ensures r.Fail? ==> r.error == NotFound("Group with ID " + IntToString(id) + " not found")
                          && db.groups == old(db.groups)
      ensures r.Pass? ==> db.groups == Filter(old(db.groups), (g: Group) => g.id != id)
      ensures !HasGroup(db.groups, id)
      ensures forall g :: g in db.groups <==> g in old(db.groups) && g.id != id
    {
      var group := GroupById(db.groups, id);
      if group.None? {
        r := Fail(NotFound("Group with ID " + IntToString(id) + " not found"));
        return;
      }
      FilterKeepsIds(db.groups, GroupId, db.nextGroupId, (g: Group) => g.id != id);
      db.groups := Filter(db.groups, (g: Group) => g.id != id);
      r := Pass;
    }

    /** deleteGroup with the evictions evidently intended: the group's id and name keys and
        every listing are gone on success. */
    method DeleteGroupEvicting(id: int) returns (r: Outcome)
      requires db.Valid()
      modifies db`groups, cache
      ensures db.Valid()
      ensures r.Fail? <==> !HasGroup(old(db.groups), id)
      ensures r.Fail? ==> r.error == NotFound("Group with ID " + IntToString(id) + " not found")
                          && db.groups == old(db.groups) && cache.entries == old(cache.entries)
      ensures r.Pass? ==> && db.groups == Filter(old(db.groups), (g: Group) => g.id != id)
                          && cache.entries == WithoutListings(Without(Without(old(cache.entries), GroupKey(id)),
                                                                      NameKey(GroupById(old(db.groups), id).value.name)))
                          && GroupKey(id) !in cache.entries
                          && (forall e :: e in cache.entries ==> !IsListingKey(e))
                          && (forall g :: g in old(db.groups) && g.id == id ==> NameKey(g.name) !in cache.entries)
    {
      var group := GroupById(db.groups, id);
      if group.None? {
        r := Fail(NotFound("Group with ID " + IntToString(id) + " not found"));
        return;
      }
      IncreasingUnique(db.groups, GroupId, group.value, group.value);
      forall g | g in db.groups && g.id == id
        ensures g == group.value
      {
        IncreasingUnique(db.groups, GroupId, g, group.value);
      }
      cache.Evict(GroupKey(id));
      cache.Evict(NameKey(group.value.name));
      cache.entries := WithoutListings(cache.entries);
      FilterKeepsIds(db.groups, GroupId, db.nextGroupId, (g: Group) => g.id != id);
      db.groups := Filter(db.groups, (g: Group) => g.id != id);
      r := Pass;
    }

    /** deleteGroupByName as written: the group is looked up by name, which fails when no
        group or more than one group has the name; otherwise that one group is deleted and, as
        for deleteGroup, the cache is left as it was. */
    method DeleteGroupByName(name: string) returns (r: Outcome)
      requires db.Valid()
      modifies db`groups
      ensures db.Valid()
      ensures r.Fail? <==> !HasGroupNamed(old(db.groups), name) || GroupNameShared(old(db.groups), name)
      ensures !HasGroupNamed(old(db.groups), name) ==> r == Fail(NotFound("Group with name " + name + " not found"))
      ensures GroupNameShared(old(db.groups), name) ==> r.Fail? && r.error.NonUniqueResult?
      ensures r.Fail? ==> db.groups == old(db.groups)
      ensures r.Pass? ==> db.groups == Filter(old(db.groups), (g: Group) => g.name != name)
      ensures r.Pass? ==> exists i :: 0 <= i < |old(db.groups)| && old(db.groups)[i].name == name
                                      && db.groups == old(db.groups)[..i] + old(db.groups)[i + 1..]
      ensures r.Pass? ==> !HasGroupNamed(db.groups, name)
    {
      var found := GroupByName(db.groups, name);
      if found.Err? {
        r := Fail(found.error);
        return;
      }
      if found.value.None? {
        r := Fail(NotFound("Group with name " + name + " not found"));
        return;
      }
      RemoveOnlyNamed(name);
      r := Pass;
    }

    /** deleteGroupByName with the evictions evidently intended: the id and name keys of the
        group found and every listing are gone on success. */
    method DeleteGroupByNameEvicting(name: string) returns (r: Outcome)
      requires db.Valid()
      modifies db`groups, cache
      ensures db.Valid()
      ensures r.Fail? <==> !HasGroupNamed(old(db.groups), name) || GroupNameShared(old(db.groups), name)
      ensures !HasGroupNamed(old(db.groups), name) ==> r == Fail(NotFound("Group with name " + name + " not found"))
      ensures GroupNameShared(old(db.groups), name) ==> r.Fail? && r.error.NonUniqueResult?
      ensures r.Fail? ==> db.groups == old(db.groups) && cache.entries == old(cache.entries)
      ensures r.Pass? ==> && db.groups == Filter(old(db.groups), (g: Group) => g.name != name)
                          && (exists i :: 0 <= i < |old(db.groups)| && old(db.groups)[i].name == name
                                          && db.groups == old(db.groups)[..i] + old(db.groups)[i + 1..])
                          && cache.entries == WithoutListings(Without(Without(old(cache.entries),
                                                                              GroupKey(GroupByName(old(db.groups), name).value.value.id)),
                                                                      NameKey(name)))
                          && NameKey(name) !in cache.entries
                          && (forall e :: e in cache.entries ==> !IsListingKey(e))
                          && GroupKey(GroupByName(old(db.groups), name).value.value.id) !in cache.entries
    {
      var found := GroupByName(db.groups, name);
      if found.Err? {
        r := Fail(found.error);
        return;
      }
      if found.value.None? {
        r := Fail(NotFound("Group with name " + name + " not found"));
        return;
      }
      cache.Evict(GroupKey(found.value.value.id));
      cache.Evict(NameKey(found.value.value.name));
      cache.entries := WithoutListings(cache.entries);
      RemoveOnlyNamed(name);
      r := Pass;
    }

    /** groupRepository.deleteByName for a name exactly one group carries: that row goes. */
    method RemoveOnlyNamed(name: string)
      requires db.Valid()
      requires HasGroupNamed(db.groups, name) && !GroupNameShared(db.groups, name)
      modifies db`groups
      ensures db.Valid()
      ensures db.groups == Filter(old(db.groups), (g: Group) => g.name != name)
      ensures exists i :: 0 <= i < |old(db.groups)| && old(db.groups)[i].name == name
                          && db.groups == old(db.groups)[..i] + old(db.groups)[i + 1..]
      ensures !HasGroupNamed(db.groups, name)
    {
      ghost var i := OnlyGroupNamed(db.groups, name);
      FilterDropsOne(db.groups, (g: Group) => g.name != name, i);
      FilterKeepsIds(db.groups, GroupId, db.nextGroupId, (g: Group) => g.name != name);
      db.groups := Filter(db.groups, (g: Group) => g.name != name);
    }
  }

  /** A group read by id, then deleted, is still returned by the next read by id: the
      deletion evicted nothing. */
  method DeletedGroupStillFound(svc: GroupServiceImpl, id: int) returns (r: Result<Group>)
    requires svc.db.Valid()
    requires HasGroup(svc.db.groups, id)
    requires GroupKey(id) !in svc.cache.entries
    modifies svc.db, svc.cache
    ensures !HasGroup(svc.db.groups, id)
    ensures r.Ok? && r.value.id == id
  {
    var before := svc.FindById(id);
    var deleted := svc.DeleteGroup(id);
    r := svc.FindById(id);
  }

  /** With the intended evictions the same sequence reports the group as not found. */
  method DeletedGroupNotFound(svc: GroupServiceImpl, id: int) returns (r: Result<Group>)
    requires svc.db.Valid()
    requires HasGroup(svc.db.groups, id)
    modifies svc.db, svc.cache
    ensures !HasGroup(svc.db.groups, id)
    ensures r == Err(NotFound("Group not found with id: " + IntToString(id)))
  {
    var before := svc.FindById(id);
    var deleted := svc.DeleteGroupEvicting(id);
    r := svc.FindById(id);
  }

  /** A listing read before addGroup is served from the cache afterwards, without the new
      group: addGroup evicted only the literal 'allGroups*'. */
  method ListingStaleAfterAdd(svc: GroupServiceImpl, name: string) returns (before: Result<seq<Group>>, after: Result<seq<Group>>)
    requires svc.db.Valid()
    requires svc.db.groups != []
    requires ReadGroupsKey(None, None) !in svc.cache.entries
    modifies svc.db, svc.cache
    ensures before.Ok? && after == before
    ensures exists g :: g in svc.db.groups && g.name == name && g !in after.value
  {
    before := svc.ReadGroups(None, None);
    var added := svc.AddGroup(name, []);
    ListingMatchesLiteral(None, None);
    ListingKeys(None, None, 0, name);
    after := svc.ReadGroups(None, None);
    assert added.value in svc.db.groups;
    assert added.value !in before.value by {
      forall g | g in before.value ensures g.id < added.value.id { }
    }
  }

  /** With the intended eviction the listing read after addGroup includes the new group. */
  method ListingFreshAfterAdd(svc: GroupServiceImpl, name: string) returns (before: Result<seq<Group>>, after: Result<seq<Group>>)
    requires svc.db.Valid()
    modifies svc.db, svc.cache
    ensures after.Ok?
    ensures forall g :: g in svc.db.groups <==> g in after.value
  {
    before := svc.ReadGroups(None, None);
    var added := svc.AddGroupCorrected(name, []);
    ListingKeys(None, None, 0, "");
    after := svc.ReadGroups(None, None);
  }
}
