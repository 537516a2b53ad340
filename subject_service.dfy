/** SubjectServiceImpl: listing, finding, creating and deleting subjects, with the "subjects"
    cache region. */
module SubjectService {
  import opened Results
  import opened Text
  import opened Seqs
  import opened Entities
  import opened Caching

  const NotFoundPrefix := "Subject not found with id: "
  const NameNotFoundPrefix := "Subject not found with name: "

  /** #namePattern + '-' + (#sort != null ? #sort : 'default') */
  function ReadSubjectsKey(namePattern: Option<string>, sort: Option<string>): Entry {
    Entry(SubjectsRegion, StrKey(NullableString(namePattern) + "-" + (if sort.Some? then sort.value else "default")))
  }

  /** #id */
  function SubjectKey(id: int): Entry {
    Entry(SubjectsRegion, IdKey(id))
  }

  /** #name: the bare name. */
  function NameKey(name: string): Entry {
    Entry(SubjectsRegion, StrKey(name))
  }

  /** 'exists-' + #name */
  function ExistsKey(name: string): Entry {
    Entry(SubjectsRegion, StrKey("exists-" + name))
  }

  /** What readSubjects computes: a pattern filters by name and takes precedence, a
      null-safe "asc" in any case sorts by name, anything else lists the table as it is. */
  function QuerySubjects(subjects: seq<Subject>, namePattern: Option<string>, sort: Option<string>): (r: seq<Subject>)
    ensures namePattern.Some? ==> forall s :: s in r <==> s in subjects && Contains(s.name, namePattern.value)
    ensures namePattern.None? && IsAscOption(sort) ==> SortedBy(r, SubjectName) && multiset(r) == multiset(subjects)
    ensures namePattern.None? && !IsAscOption(sort) ==> r == subjects
  {
    if namePattern.Some? then Filter(subjects, (s: Subject) => Contains(s.name, namePattern.value))
    else if IsAscOption(sort) then SortBy(subjects, SubjectName)
    else subjects
  }

  /** The name key of a subject called 'exists-' + n is the key existsByName(n) uses. */
  lemma NameKeyMeetsExistsKey(name: string)
    ensures NameKey("exists-" + name) == ExistsKey(name)
    ensures NameKey("null-default") == ReadSubjectsKey(None, None)
  {
    assert "null" + "-" + "default" == "null-default";
  }

  /** The listing key of a pattern p and a sort s is p + '-' + s, so it meets the bare name
      key of a subject called p + '-' + s and the exists key of s under the pattern "exists";
      prefixing the name and exists keys alone does not keep listings apart from them. */
  lemma ListingKeyCollisions(p: string, s: string)
    ensures NameKey(p + "-" + s) == ReadSubjectsKey(Some(p), Some(s))
    ensures ExistsKey(s) == ReadSubjectsKey(Some("exists"), Some(s))
    ensures KeyedName(p + "-" + s) == ReadSubjectsKey(Some("name:" + p), Some(s))
    ensures KeyedExists(p + "-" + s) == ReadSubjectsKey(Some("exists:" + p), Some(s))
  {
    assert "exists-" + s == "exists" + "-" + s;
    assert "name:" + (p + "-" + s) == ("name:" + p) + "-" + s;
    assert "exists:" + (p + "-" + s) == ("exists:" + p) + "-" + s;
  }

  /** Keys with a distinct prefix per kind of entry (listing, name, existence), so that no
      two kinds can meet. */
  function KeyedListing(namePattern: Option<string>, sort: Option<string>): Entry {
    Entry(SubjectsRegion, StrKey("list:" + NullableString(namePattern) + "-" + (if sort.Some? then sort.value else "default")))
  }

  function KeyedName(name: string): Entry {
    Entry(SubjectsRegion, StrKey("name:" + name))
  }

  function KeyedExists(name: string): Entry {
    Entry(SubjectsRegion, StrKey("exists:" + name))
  }

  /** With the prefixed keys a name entry and an existence entry never share a key, and
      each kind stays injective. */
  lemma KeyedKeysDisjoint(a: string, b: string)
    ensures KeyedName(a) != KeyedExists(b)
    ensures KeyedName(a) == KeyedName(b) ==> a == b
    ensures KeyedExists(a) == KeyedExists(b) ==> a == b
  {
    assert KeyedName(a).key.text[0] == 'n';
    assert KeyedExists(b).key.text[0] == 'e';
    if KeyedName(a) == KeyedName(b) {
      assert a == ("name:" + a)[5..] == ("name:" + b)[5..] == b;
    }
    if KeyedExists(a) == KeyedExists(b) {
      assert a == ("exists:" + a)[7..] == ("exists:" + b)[7..] == b;
    }
  }

  /** A prefixed listing key never meets a prefixed name or existence key. */
  lemma KeyedListingDisjoint(namePattern: Option<string>, sort: Option<string>, name: string)
    ensures KeyedListing(namePattern, sort) != KeyedName(name)
    ensures KeyedListing(namePattern, sort) != KeyedExists(name)
  {
    assert KeyedListing(namePattern, sort).key.text[0] == 'l';
    assert KeyedName(name).key.text[0] == 'n';
    assert KeyedExists(name).key.text[0] == 'e';
  }

  class SubjectServiceImpl {
    const db: Database
    const cache: CacheStore

    constructor (db: Database, cache: CacheStore)
      ensures this.db == db && this.cache == cache
    {
      this.db := db;
      this.cache := cache;
    }

    /** @Cacheable under ReadSubjectsKey, unless the list is empty. */
    method ReadSubjects(namePattern: Option<string>, sort: Option<string>) returns (r: Result<seq<Subject>>)
      modifies cache
      ensures var e := ReadSubjectsKey(namePattern, sort);
              if e in old(cache.entries) then
                r == AsSubjectList(old(cache.entries)[e]) && cache.entries == old(cache.entries)
              else
                && r == Ok(QuerySubjects(db.subjects, namePattern, sort))
                && cache.entries == if r.value != [] then old(cache.entries)[e := SubjectList(r.value)]
                                    else old(cache.entries)
    {
      var e := ReadSubjectsKey(namePattern, sort);
      var hit := cache.Get(e);
      if hit.Some? {
        r := AsSubjectList(hit.value);
        return;
      }
      r := Ok(QuerySubjects(db.subjects, namePattern, sort));
      if r.value != [] {
        cache.Put(e, SubjectList(r.value));
      }
    }

    /** @Cacheable under the id; a miss in the table is NotFound and is not cached. */
    method FindById(id: int) returns (r: Result<Subject>)
      modifies cache
      ensures var e := SubjectKey(id);
              if e in old(cache.entries) then
                r == AsSubject(old(cache.entries)[e]) && cache.entries == old(cache.entries)
              else
                && (r.Err? <==> !HasSubject(db.subjects, id))
                && (r.Err? ==> r.error == NotFound(NotFoundPrefix + IntToString(id))
                               && cache.entries == old(cache.entries))
                && (r.Ok? ==> r.value in db.subjects && r.value.id == id
                              && cache.entries == old(cache.entries)[e := SubjectValue(r.value)])
    {
      var e := SubjectKey(id);
      var hit := cache.Get(e);
      if hit.Some? {
        r := AsSubject(hit.value);
        return;
      }
      var subject := SubjectById(db.subjects, id);
      if subject.None? {
        r := Err(NotFound(NotFoundPrefix + IntToString(id)));
        return;
      }
      r := Ok(subject.value);
      cache.Put(e, SubjectValue(subject.value));
    }

    /** @Cacheable under the bare name with no unless condition; a name no subject carries
        is NotFound and a name two subjects carry makes the query throw, so neither caches
        anything. */
    method FindByName(name: string) returns (r: Result<Subject>)
      modifies cache
      ensures var e := NameKey(name);
              if e in old(cache.entries) then
                r == AsSubject(old(cache.entries)[e]) && cache.entries == old(cache.entries)
              else
                && (r.Err? <==> !HasSubjectNamed(db.subjects, name) || SubjectNameShared(db.subjects, name))
                && (!HasSubjectNamed(db.subjects, name) ==> r == Err(NotFound(NameNotFoundPrefix + name)))
                && (SubjectNameShared(db.subjects, name) ==> r.Err? && r.error.NonUniqueResult?)
                && (r.Err? ==> cache.entries == old(cache.entries))
                && (r.Ok? ==> r.value in db.subjects && r.value.name == name
                              && cache.entries == old(cache.entries)[e := SubjectValue(r.value)])
    {
      var e := NameKey(name);
      var hit := cache.Get(e);
      if hit.Some? {
        r := AsSubject(hit.value);
        return;
      }
      var found := SubjectByName(db.subjects, name);
      if found.Err? {
        r := Err(found.error);
        return;
      }
      if found.value.None? {
        r := Err(NotFound(NameNotFoundPrefix + name));
        return;
      }
      r := Ok(found.value.value);
      cache.Put(e, SubjectValue(found.value.value));
    }

    /** addSubject: saves the subject, puts it under its id and its name, then evicts
        'exists-' + name. */
    method AddSubject(name: string) returns (saved: Subject)
      requires db.Valid()
      modifies db`subjects, db`nextSubjectId, cache
      ensures db.Valid()
      ensures saved == Subject(old(db.nextSubjectId), name)
      ensures db.subjects == old(db.subjects) + [saved]
      ensures cache.entries == Without(old(cache.entries)[SubjectKey(saved.id) := SubjectValue(saved)]
                                                         [NameKey(name) := SubjectValue(saved)],
                                       ExistsKey(name))
    {
      saved := Subject(db.nextSubjectId, name);
      AppendKeepsIds(db.subjects, SubjectId, db.nextSubjectId, saved);
      db.subjects := db.subjects + [saved];
      db.nextSubjectId := db.nextSubjectId + 1;
      cache.Put(SubjectKey(saved.id), SubjectValue(saved));
      cache.Put(NameKey(name), SubjectValue(saved));
      cache.Evict(ExistsKey(name));
    }

    /** deleteSubject: NotFound for a missing id; otherwise the row is deleted and only the
        id key is evicted. */
    method DeleteSubject(id: int) returns (r: Outcome)
      requires db.Valid()
      modifies db`subjects, cache
      ensures db.Valid()
      ensures r.Fail? <==> !HasSubject(old(db.subjects), id)
      ensures r.Fail? ==> && r.error == NotFound(NotFoundPrefix + IntToString(id))
                          && db.subjects == old(db.subjects) && cache.entries == old(cache.entries)
      ensures r.Pass? ==> && db.subjects == Filter(old(db.subjects), (s: Subject) => s.id != id)
                          && cache.entries == Without(old(cache.entries), SubjectKey(id))
      ensures !HasSubject(db.subjects, id)
    {
      if !HasSubject(db.subjects, id) {
        r := Fail(NotFound(NotFoundPrefix + IntToString(id)));
        return;
      }
      FilterKeepsIds(db.subjects, SubjectId, db.nextSubjectId, (s: Subject) => s.id != id);
      db.subjects := Filter(db.subjects, (s: Subject) => s.id != id);
      cache.Evict(SubjectKey(id));
      r := Pass;
    }

    /** deleteSubjectByName: NotFound when no subject has the name; otherwise every subject
        of that name is deleted and the name key and 'exists-' + name are evicted. */
    method DeleteSubjectByName(name: string) returns (r: Outcome)
      requires db.Valid()
      modifies db`subjects, cache
      ensures db.Valid()
      ensures r.Fail? <==> !HasSubjectNamed(old(db.subjects), name)
      ensures r.Fail? ==> && r.error == NotFound(NameNotFoundPrefix + name)
                          && db.subjects == old(db.subjects) && cache.entries == old(cache.entries)
      ensures r.Pass? ==> && db.subjects == Filter(old(db.subjects), (s: Subject) => s.name != name)
                          && cache.entries == Without(Without(old(cache.entries), NameKey(name)), ExistsKey(name))
      ensures !HasSubjectNamed(db.subjects, name)
    {
      if !HasSubjectNamed(db.subjects, name) {
        r := Fail(NotFound(NameNotFoundPrefix + name));
        return;
      }
      FilterKeepsIds(db.subjects, SubjectId, db.nextSubjectId, (s: Subject) => s.name != name);
      db.subjects := Filter(db.subjects, (s: Subject) => s.name != name);
      cache.Evict(NameKey(name));
      cache.Evict(ExistsKey(name));
      r := Pass;
    }

    /** @Cacheable under 'exists-' + name with no unless condition: the answer is always
        cached. */
    method ExistsByName(name: string) returns (r: Result<bool>)
      modifies cache
      ensures var e := ExistsKey(name);
              if e in old(cache.entries) then
                r == AsFlag(old(cache.entries)[e]) && cache.entries == old(cache.entries)
              else
                && r == Ok(HasSubjectNamed(db.subjects, name))
                && cache.entries == old(cache.entries)[e := Flag(r.value)]
    {
      var e := ExistsKey(name);
      var hit := cache.Get(e);
      if hit.Some? {
        r := AsFlag(hit.value);
        return;
      }
      r := Ok(HasSubjectNamed(db.subjects, name));
      cache.Put(e, Flag(r.value));
    }

    /** readSubjects under the prefixed listing key. */
    method ReadSubjectsKeyed(namePattern: Option<string>, sort: Option<string>) returns (r: Result<seq<Subject>>)
      modifies cache
      ensures var e := KeyedListing(namePattern, sort);
              if e in old(cache.entries) then
                r == AsSubjectList(old(cache.entries)[e]) && cache.entries == old(cache.entries)
              else
                && r == Ok(QuerySubjects(db.subjects, namePattern, sort))
                && cache.entries == if r.value != [] then old(cache.entries)[e := SubjectList(r.value)]
                                    else old(cache.entries)
    {
      var e := KeyedListing(namePattern, sort);
      var hit := cache.Get(e);
      if hit.Some? {
        r := AsSubjectList(hit.value);
        return;
      }
      r := Ok(QuerySubjects(db.subjects, namePattern, sort));
      if r.value != [] {
        cache.Put(e, SubjectList(r.value));
      }
    }

    /** findByName under the prefixed name key. */
    method FindByNameKeyed(name: string) returns (r: Result<Subject>)
      modifies cache
      ensures var e := KeyedName(name);
              if e in old(cache.entries) then
                r == AsSubject(old(cache.entries)[e]) && cache.entries == old(cache.entries)
              else
                && (r.Err? <==> !HasSubjectNamed(db.subjects, name) || SubjectNameShared(db.subjects, name))
                && (!HasSubjectNamed(db.subjects, name) ==> r == Err(NotFound(NameNotFoundPrefix + name)))
                && (SubjectNameShared(db.subjects, name) ==> r.Err? && r.error.NonUniqueResult?)
                && (r.Err? ==> cache.entries == old(cache.entries))
                && (r.Ok? ==> r.value in db.subjects && r.value.name == name
                              && cache.entries == old(cache.entries)[e := SubjectValue(r.value)])
    {
      var e := KeyedName(name);
      var hit := cache.Get(e);
      if hit.Some? {
        r := AsSubject(hit.value);
        return;
      }
      var found := SubjectByName(db.subjects, name);
      if found.Err? {
        r := Err(found.error);
        return;
      }
      if found.value.None? {
        r := Err(NotFound(NameNotFoundPrefix + name));
        return;
      }
      r := Ok(found.value.value);
      cache.Put(e, SubjectValue(found.value.value));
    }

    /** existsByName under the prefixed existence key. */
    method ExistsByNameKeyed(name: string) returns (r: Result<bool>)
      modifies cache
      ensures var e := KeyedExists(name);
              if e in old(cache.entries) then
                r == AsFlag(old(cache.entries)[e]) && cache.entries == old(cache.entries)
              else
                && r == Ok(HasSubjectNamed(db.subjects, name))
                && cache.entries == old(cache.entries)[e := Flag(r.value)]
    {
      var e := KeyedExists(name);
      var hit := cache.Get(e);
      if hit.Some? {
        r := AsFlag(hit.value);
        return;
      }
      r := Ok(HasSubjectNamed(db.subjects, name));
      cache.Put(e, Flag(r.value));
    }

    /** addSubject with the prefixed keys: the subject is put under its id and its
        prefixed name key, then its prefixed existence key is evicted. */
    method AddSubjectKeyed(name: string) returns (saved: Subject)
      requires db.Valid()
      modifies db`subjects, db`nextSubjectId, cache
      ensures db.Valid()
      ensures saved == Subject(old(db.nextSubjectId), name)
      ensures db.subjects == old(db.subjects) + [saved]
      ensures cache.entries == Without(old(cache.entries)[SubjectKey(saved.id) := SubjectValue(saved)]
                                                         [KeyedName(name) := SubjectValue(saved)],
                                       KeyedExists(name))
      ensures KeyedExists(name) !in cache.entries && HasSubjectNamed(db.subjects, name)
    {
      saved := Subject(db.nextSubjectId, name);
      AppendKeepsIds(db.subjects, SubjectId, db.nextSubjectId, saved);
      db.subjects := db.subjects + [saved];
      db.nextSubjectId := db.nextSubjectId + 1;
      cache.Put(SubjectKey(saved.id), SubjectValue(saved));
      cache.Put(KeyedName(name), SubjectValue(saved));
      cache.Evict(KeyedExists(name));
      assert saved in db.subjects;
    }

    /** deleteSubjectByName with the prefixed keys: the prefixed name and existence keys
        are evicted. */
    method DeleteSubjectByNameKeyed(name: string) returns (r: Outcome)
      requires db.Valid()
      modifies db`subjects, cache
      ensures db.Valid()
      ensures r.Fail? <==> !HasSubjectNamed(old(db.subjects), name)
      ensures r.Fail? ==> && r.error == NotFound(NameNotFoundPrefix + name)
                          && db.subjects == old(db.subjects) && cache.entries == old(cache.entries)
      ensures r.Pass? ==> && db.subjects == Filter(old(db.subjects), (s: Subject) => s.name != name)
                          && cache.entries == Without(Without(old(cache.entries), KeyedName(name)), KeyedExists(name))
      ensures !HasSubjectNamed(db.subjects, name)
    {
      if !HasSubjectNamed(db.subjects, name) {
        r := Fail(NotFound(NameNotFoundPrefix + name));
        return;
      }
      FilterKeepsIds(db.subjects, SubjectId, db.nextSubjectId, (s: Subject) => s.name != name);
      db.subjects := Filter(db.subjects, (s: Subject) => s.name != name);
      cache.Evict(KeyedName(name));
      cache.Evict(KeyedExists(name));
      r := Pass;
    }
  }

  /** After a successful deleteSubjectByName(n), existsByName(n) answers false: the
      deletion evicted 'exists-' + n, so the answer is computed afresh. */
  method ExistsAfterDeleteByName(svc: SubjectServiceImpl, name: string) returns (deleted: Outcome, r: Result<bool>)
    requires svc.db.Valid()
    modifies svc.db, svc.cache
    ensures deleted.Pass? ==> r == Ok(false)
  {
    deleted := svc.DeleteSubjectByName(name);
    r := svc.ExistsByName(name);
  }

  /** Looking up a subject named 'exists-' + n by name and then asking whether n exists
      makes the second call receive the cached subject, which is not a boolean. */
  method ExistsAfterFindByName(svc: SubjectServiceImpl, name: string) returns (found: Result<Subject>, r: Result<bool>)
    requires HasSubjectNamed(svc.db.subjects, "exists-" + name) && !SubjectNameShared(svc.db.subjects, "exists-" + name)
    requires NameKey("exists-" + name) !in svc.cache.entries
    modifies svc.cache
    ensures found.Ok? && found.value.name == "exists-" + name
    ensures r == Err(CachedValueOfOtherType)
  {
    found := svc.FindByName("exists-" + name);
    NameKeyMeetsExistsKey(name);
    r := svc.ExistsByName(name);
  }

  /** With the prefixed keys the same two calls answer the existence question. */
  method ExistsAfterFindByNameKeyed(svc: SubjectServiceImpl, name: string) returns (found: Result<Subject>, r: Result<bool>)
    requires HasSubjectNamed(svc.db.subjects, "exists-" + name) && !SubjectNameShared(svc.db.subjects, "exists-" + name)
    requires KeyedName("exists-" + name) !in svc.cache.entries
    requires KeyedExists(name) !in svc.cache.entries
    modifies svc.cache
    ensures found.Ok? && found.value.name == "exists-" + name
    ensures r == Ok(HasSubjectNamed(svc.db.subjects, name))
  {
    found := svc.FindByNameKeyed("exists-" + name);
    KeyedKeysDisjoint("exists-" + name, name);
    r := svc.ExistsByNameKeyed(name);
  }

  /** With the prefixed keys, existsByName(n) answers afresh after addSubject(n): a cached
      false does not survive the add. */
  method ExistsAfterAddKeyed(svc: SubjectServiceImpl, name: string) returns (before: Result<bool>, after: Result<bool>)
    requires svc.db.Valid()
    modifies svc.db, svc.cache
    ensures after == Ok(true)
  {
    before := svc.ExistsByNameKeyed(name);
    var saved := svc.AddSubjectKeyed(name);
    after := svc.ExistsByNameKeyed(name);
  }

  /** With the prefixed keys, after a successful delete by name existsByName answers false. */
  method ExistsAfterDeleteByNameKeyed(svc: SubjectServiceImpl, name: string) returns (deleted: Outcome, r: Result<bool>)
    requires svc.db.Valid()
    modifies svc.db, svc.cache
    ensures deleted.Pass? ==> r == Ok(false)
  {
    deleted := svc.DeleteSubjectByNameKeyed(name);
    r := svc.ExistsByNameKeyed(name);
  }

  /** Looking up a subject named p + '-' + s by name and then listing with pattern p and
      sort s makes the listing receive the cached subject, which is not a list. */
  method ListingAfterFindByName(svc: SubjectServiceImpl, p: string, s: string)
      returns (found: Result<Subject>, r: Result<seq<Subject>>)
    requires HasSubjectNamed(svc.db.subjects, p + "-" + s) && !SubjectNameShared(svc.db.subjects, p + "-" + s)
    requires NameKey(p + "-" + s) !in svc.cache.entries
    modifies svc.cache
    ensures found.Ok? && found.value.name == p + "-" + s
    ensures r == Err(CachedValueOfOtherType)
  {
    found := svc.FindByName(p + "-" + s);
    ListingKeyCollisions(p, s);
    r := svc.ReadSubjects(Some(p), Some(s));
  }

  /** With the prefixed keys the same two calls list the subjects the query selects. */
  method ListingAfterFindByNameKeyed(svc: SubjectServiceImpl, p: string, s: string)
      returns (found: Result<Subject>, r: Result<seq<Subject>>)
    requires HasSubjectNamed(svc.db.subjects, p + "-" + s) && !SubjectNameShared(svc.db.subjects, p + "-" + s)
    requires KeyedName(p + "-" + s) !in svc.cache.entries
    requires KeyedListing(Some(p), Some(s)) !in svc.cache.entries
    modifies svc.cache
    ensures found.Ok? && found.value.name == p + "-" + s
    ensures r == Ok(QuerySubjects(svc.db.subjects, Some(p), Some(s)))
  {
    found := svc.FindByNameKeyed(p + "-" + s);
    KeyedListingDisjoint(Some(p), Some(s), p + "-" + s);
    r := svc.ReadSubjectsKeyed(Some(p), Some(s));
  }
}
