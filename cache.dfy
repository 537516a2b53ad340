/** The cache manager behind Spring's cache annotations: one map from (region, key) to the
    cached return value. Regions are the cache names "students", "groups", "subjects",
    "marks" and "studentSubjects". */
module Caching {
  import opened Results
  import opened Entities

  datatype Region = StudentsRegion | GroupsRegion | SubjectsRegion | MarksRegion | StudentSubjectsRegion

  /** A key is a Long (a bare "#id" key expression) or a String (any concatenation). A
      Long key and a String key never coincide, whatever their text. */
  datatype Key = IdKey(id: int) | StrKey(text: string)

  datatype Entry = Entry(region: Region, key: Key)

  /** The return values the services cache. */
  datatype Value =
    | MarkList(marks: seq<Mark>)
    | Avg(average: Average)
    | StudentList(students: seq<Student>)
    | StudentValue(student: Student)
    | GroupList(groups: seq<Group>)
    | GroupValue(group: Group)
    | SubjectList(subjects: seq<Subject>)
    | SubjectValue(subject: Subject)
    | StudentWithSubjects(student: Student, subjects: seq<Subject>)
    | SubjectWithStudents(subject: Subject, students: seq<Student>)
    | Flag(flag: bool)

  type Entries = map<Entry, Value>

  /** A single-key @CacheEvict. */
  function Without(m: Entries, e: Entry): (r: Entries)
    ensures e !in r
    ensures forall x :: x != e ==> (x in r <==> x in m)
    ensures forall x :: x in r ==> r[x] == m[x]
  {
    m - {e}
  }

  /** An allEntries = true @CacheEvict: the region is emptied, the other regions are kept. */
  function WithoutRegion(m: Entries, region: Region): (r: Entries)
    ensures forall x :: x in r <==> x in m && x.region != region
    ensures forall x :: x in r ==> r[x] == m[x]
  {
    map x | x in m && x.region != region :: m[x]
  }

  /** Evicting one key of a region that is then cleared makes no difference. */
  lemma EvictThenClear(m: Entries, e: Entry, region: Region)
    requires e.region == region
    ensures WithoutRegion(Without(m, e), region) == WithoutRegion(m, region)
  {
    assert forall x :: x in WithoutRegion(Without(m, e), region) <==> x in WithoutRegion(m, region);
  }

  /** A cache hit hands the cached object to the caller, who casts it to the method's
      return type; an object of another type makes the call fail with a ClassCastException. */
  function AsMarkList(v: Value): (r: Result<seq<Mark>>)
    ensures r.Ok? <==> v.MarkList?
  {
    if v.MarkList? then Ok(v.marks) else Err(CachedValueOfOtherType)
  }

  function AsAverage(v: Value): (r: Result<Option<Average>>)
    ensures r.Ok? <==> v.Avg?
  {
    if v.Avg? then Ok(Some(v.average)) else Err(CachedValueOfOtherType)
  }

  function AsStudentList(v: Value): (r: Result<seq<Student>>)
    ensures r.Ok? <==> v.StudentList?
  {
    if v.StudentList? then Ok(v.students) else Err(CachedValueOfOtherType)
  }

  function AsStudent(v: Value): (r: Result<Student>)
    ensures r.Ok? <==> v.StudentValue?
  {
    if v.StudentValue? then Ok(v.student) else Err(CachedValueOfOtherType)
  }

  function AsGroupList(v: Value): (r: Result<seq<Group>>)
    ensures r.Ok? <==> v.GroupList?
  {
    if v.GroupList? then Ok(v.groups) else Err(CachedValueOfOtherType)
  }

  function AsGroup(v: Value): (r: Result<Group>)
    ensures r.Ok? <==> v.GroupValue?
  {
    if v.GroupValue? then Ok(v.group) else Err(CachedValueOfOtherType)
  }

  function AsSubjectList(v: Value): (r: Result<seq<Subject>>)
    ensures r.Ok? <==> v.SubjectList?
  {
    if v.SubjectList? then Ok(v.subjects) else Err(CachedValueOfOtherType)
  }

  function AsSubject(v: Value): (r: Result<Subject>)
    ensures r.Ok? <==> v.SubjectValue?
  {
    if v.SubjectValue? then Ok(v.subject) else Err(CachedValueOfOtherType)
  }

  function AsStudentWithSubjects(v: Value): (r: Result<(Student, seq<Subject>)>)
    ensures r.Ok? <==> v.StudentWithSubjects?
  {
    if v.StudentWithSubjects? then Ok((v.student, v.subjects)) else Err(CachedValueOfOtherType)
  }

  function AsSubjectWithStudents(v: Value): (r: Result<(Subject, seq<Student>)>)
    ensures r.Ok? <==> v.SubjectWithStudents?
  {
    if v.SubjectWithStudents? then Ok((v.subject, v.students)) else Err(CachedValueOfOtherType)
  }

  function AsFlag(v: Value): (r: Result<bool>)
    ensures r.Ok? <==> v.Flag?
  {
    if v.Flag? then Ok(v.flag) else Err(CachedValueOfOtherType)
  }

  /** The cache manager shared by all services. */
  class CacheStore {
    var entries: Entries

    constructor ()
      ensures entries == map[]
    {
      entries := map[];
    }

    method Get(e: Entry) returns (v: Option<Value>)
      ensures v.Some? <==> e in entries
      ensures v.Some? ==> v.value == entries[e]
    {
      v := if e in entries then Some(entries[e]) else None;
    }

    method Put(e: Entry, v: Value)
      modifies this
      ensures entries == old(entries)[e := v]
    {
      entries := entries[e := v];
    }

    method Evict(e: Entry)
      modifies this
      ensures entries == Without(old(entries), e)
    {
      entries := Without(entries, e);
    }

    method Clear(region: Region)
      modifies this
      ensures entries == WithoutRegion(old(entries), region)
    {
      entries := WithoutRegion(entries, region);
    }
  }
}
