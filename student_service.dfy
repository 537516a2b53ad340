/** StudentServiceImpl: listing, finding, creating, updating and deleting students, with the
    "students" cache region. */
module StudentService {
  import opened Results
  import opened Text
  import opened Seqs
  import opened Entities
  import opened Caching

  const NotFoundPrefix := "Student not found with id: "

  /** #age + '-' + #sort + '-' + #id */
  function ReadStudentsKey(age: Option<int>, sort: Option<string>, id: Option<int>): Entry {
    Entry(StudentsRegion, StrKey(NullableInt(age) + "-" + NullableString(sort) + "-" + NullableInt(id)))
  }

  /** 'group-' + #groupId */
  function GroupListKey(groupId: Option<int>): Entry {
    Entry(StudentsRegion, StrKey("group-" + NullableInt(groupId)))
  }

  /** #id */
  function StudentKey(id: int): Entry {
    Entry(StudentsRegion, IdKey(id))
  }

  /** A listing never shares its key with a group listing: the first starts with a digit,
      '-' or "null", the second with 'g'. */
  lemma ListingKeysDisjoint(age: Option<int>, sort: Option<string>, id: Option<int>, groupId: Option<int>)
    ensures ReadStudentsKey(age, sort, id) != GroupListKey(groupId)
  {
    var text := NullableInt(age) + "-" + NullableString(sort) + "-" + NullableInt(id);
    assert text[0] == NullableInt(age)[0];
    assert ("group-" + NullableInt(groupId))[0] == 'g';
  }

  /** Group listings of different groups have different keys. */
  lemma GroupListKeyInjective(a: Option<int>, b: Option<int>)
    requires GroupListKey(a) == GroupListKey(b)
    ensures a == b
  {
    var ta, tb := NullableInt(a), NullableInt(b);
    assert ta == ("group-" + ta)[6..] == ("group-" + tb)[6..] == tb;
    if a.Some? && b.Some? {
      IntToStringInjective(a.value, b.value);
    }
  }

  function OfAge(age: int): Student -> bool {
    (s: Student) => s.age == age
  }

  /** What readStudents computes: an id gives that one student or NotFound whatever the other
      arguments; otherwise age and sort, age alone, sort alone, or neither, in that order. */
  function QueryStudents(students: seq<Student>, age: Option<int>, sort: Option<string>, id: Option<int>): (r: Result<seq<Student>>)
    ensures id.Some? ==> (r.Err? <==> !HasStudent(students, id.value))
    ensures id.Some? && r.Err? ==> r.error == NotFound(NotFoundPrefix + IntToString(id.value))
    ensures id.Some? && r.Ok? ==> |r.value| == 1 && r.value[0] in students && r.value[0].id == id.value
    ensures id.None? ==> r.Ok?
    ensures id.None? && age.Some? ==> forall s :: s in r.value <==> s in students && s.age == age.value
    ensures id.None? && age.Some? && sort.Some? ==>
              SortedBy(r.value, StudentName) && multiset(r.value) == multiset(Filter(students, OfAge(age.value)))
    ensures id.None? && age.Some? && sort.None? ==> multiset(r.value) <= multiset(students)
    ensures id.None? && age.None? && sort.Some? ==>
              SortedBy(r.value, StudentName) && multiset(r.value) == multiset(students)
    ensures id.None? && age.None? && sort.None? ==> r.value == students
  {
    if id.Some? then
      match StudentById(students, id.value)
      case None => Err(NotFound(NotFoundPrefix + IntToString(id.value)))
      case Some(s) => Ok([s])
    else if age.Some? && sort.Some? then
      var rows := SortBy(Filter(students, OfAge(age.value)), StudentName);
      assert forall s :: s in rows <==> s in Filter(students, OfAge(age.value)) by {
        forall s ensures s in rows <==> s in Filter(students, OfAge(age.value)) {
          SortByMembers(Filter(students, OfAge(age.value)), StudentName, s);
        }
      }
      Ok(rows)
    else if age.Some? then
      Ok(Filter(students, OfAge(age.value)))
    else if sort.Some? then
      Ok(SortBy(students, StudentName))
    else
      Ok(students)
  }

  /** studentRepository.findByGroupId: the students of a group; a null group id selects the
      students without a group. */
  function StudentsOfGroup(students: seq<Student>, groupId: Option<int>): (r: seq<Student>)
    ensures forall s :: s in r <==> s in students && s.group == groupId
    ensures multiset(r) <= multiset(students)
  {
    Filter(students, (s: Student) => s.group == groupId)
  }

  /** A mark attached to a student that is being created. */
  datatype MarkForm = MarkForm(value: int, subject: int)

  /** The student handed to addStudent: its attached marks and the subjects it names, whose
      ids may be null. */
  datatype StudentForm = StudentForm(name: string, age: int, group: Option<int>,
                                     marks: seq<MarkForm>, subjects: seq<Option<int>>)

  /** The marks of the form bound to the saved student, numbered from the mark sequence. */
  function BoundMarks(forms: seq<MarkForm>, studentId: int, firstId: int): (r: seq<Mark>)
    ensures |r| == |forms|
    ensures forall m :: m in r ==> m.student == studentId
    ensures forall k :: 0 <= k < |r| ==>
              r[k].id == firstId + k && r[k].value == forms[k].value && r[k].subject == forms[k].subject
  {
    if forms == [] then []
    else [Mark(firstId, forms[0].value, studentId, forms[0].subject)] + BoundMarks(forms[1..], studentId, firstId + 1)
  }

  /** Saving the bound marks keeps the ids of the mark table ascending. */
  lemma {:induction false} AppendBoundKeepsIds(marks: seq<Mark>, forms: seq<MarkForm>, studentId: int, next: int)
    requires IdsAscending(marks, MarkId, next)
    ensures IdsAscending(marks + BoundMarks(forms, studentId, next), MarkId, next + |forms|)
    decreases |forms|
  {
    if forms != [] {
      var all := BoundMarks(forms, studentId, next);
      var rest := BoundMarks(forms[1..], studentId, next + 1);
      var first := all[0];
      assert first == Mark(next, forms[0].value, studentId, forms[0].subject);
      AppendKeepsIds(marks, MarkId, next, first);
      AppendBoundKeepsIds(marks + [first], forms[1..], studentId, next + 1);
      assert [first] + rest == all;
      assert marks + [first] + rest == marks + all;
    } else {
      assert marks + BoundMarks(forms, studentId, next) == marks;
    }
  }

  /** The distinct non-null subject ids of the form, in the order the collected set hands
      them out (here: first occurrence). */
  function SubjectIds(subjects: seq<Option<int>>): (r: seq<int>)
    ensures forall x :: x in r <==> Some(x) in subjects
    ensures Distinct(r)
  {
    if subjects == [] then []
    else
      var rest := SubjectIds(subjects[1..]);
      assert subjects == [subjects[0]] + subjects[1..];
      if subjects[0].Some? && subjects[0].value !in rest then [subjects[0].value] + rest else rest
  }

  /** The association pairs of one student with each of the given subject ids. */
  function PairsWith(studentId: int, subjectIds: seq<int>): (r: set<(int, int)>)
    ensures forall p :: p in r <==> p.0 == studentId && p.1 in subjectIds
  {
    if subjectIds == [] then {}
    else
      assert subjectIds == [subjectIds[0]] + subjectIds[1..];
      {(studentId, subjectIds[0])} + PairsWith(studentId, subjectIds[1..])
  }

  /** The association pairs addStudent creates for the saved id. */
  function Enrolled(studentId: int, subjects: seq<Option<int>>): (r: set<(int, int)>)
    ensures forall p :: p in r <==> p.0 == studentId && Some(p.1) in subjects
  {
    PairsWith(studentId, SubjectIds(subjects))
  }

  /** The repository update: the row with the id gets the new name and age; no row
      matching changes nothing. */
  function UpdateRow(students: seq<Student>, name: string, age: int, id: int): (r: seq<Student>)
    ensures |r| == |students|
    ensures forall k :: 0 <= k < |r| ==> r[k].id == students[k].id && r[k].group == students[k].group
    ensures forall k :: 0 <= k < |r| && students[k].id == id ==> r[k].name == name && r[k].age == age
    ensures forall k :: 0 <= k < |r| && students[k].id != id ==> r[k] == students[k]
    ensures !HasStudent(students, id) ==> r == students
  {
    seq(|students|, k requires 0 <= k < |students| =>
      if students[k].id == id then students[k].(name := name, age := age) else students[k])
  }

  /** After an update the student with the id carries the new name and age. */
  lemma UpdateRowFound(students: seq<Student>, name: string, age: int, id: int)
    requires HasStudent(students, id)
    ensures exists s :: s in UpdateRow(students, name, age, id) && s.id == id && s.name == name && s.age == age
  {
    var k :| 0 <= k < |students| && students[k].id == id;
    assert UpdateRow(students, name, age, id)[k] in UpdateRow(students, name, age, id);
  }

  /** The association pairs left once a student's subject set is cleared. */
  function WithoutStudent(enrolments: set<(int, int)>, studentId: int): (r: set<(int, int)>)
    ensures forall p :: p in r <==> p in enrolments && p.0 != studentId
  {
    set p | p in enrolments && p.0 != studentId
  }

  class StudentServiceImpl {
    const db: Database
    const cache: CacheStore

    constructor (db: Database, cache: CacheStore)
      ensures this.db == db && this.cache == cache
    {
      this.db := db;
      this.cache := cache;
    }

    /** @Cacheable under ReadStudentsKey, unless the list is empty. */
    method ReadStudents(age: Option<int>, sort: Option<string>, id: Option<int>) returns (r: Result<seq<Student>>)
      modifies cache
      ensures var e := ReadStudentsKey(age, sort, id);
              if e in old(cache.entries) then
                r == AsStudentList(old(cache.entries)[e]) && cache.entries == old(cache.entries)
              else
                && r == QueryStudents(db.students, age, sort, id)
                && cache.entries == if r.Ok? && r.value != [] then old(cache.entries)[e := StudentList(r.value)]
                                    else old(cache.entries)
    {
      var e := ReadStudentsKey(age, sort, id);
      var hit := cache.Get(e);
      if hit.Some? {
        r := AsStudentList(hit.value);
        return;
      }
      r := QueryStudents(db.students, age, sort, id);
      if r.Ok? && r.value != [] {
        cache.Put(e, StudentList(r.value));
      }
    }

    /** @Cacheable under 'group-' + groupId, unless the list is empty. */
    method FindByGroupId(groupId: Option<int>) returns (r: Result<seq<Student>>)
      modifies cache
      ensures var e := GroupListKey(groupId);
              if e in old(cache.entries) then
                r == AsStudentList(old(cache.entries)[e]) && cache.entries == old(cache.entries)
              else
                && r == Ok(StudentsOfGroup(db.students, groupId))
                && cache.entries == if r.value != [] then old(cache.entries)[e := StudentList(r.value)]
                                    else old(cache.entries)
    {
      var e := GroupListKey(groupId);
      var hit := cache.Get(e);
      if hit.Some? {
        r := AsStudentList(hit.value);
        return;
      }
      r := Ok(StudentsOfGroup(db.students, groupId));
      if r.value != [] {
        cache.Put(e, StudentList(r.value));
      }
    }

    /** @Cacheable under the id; a miss in the table is NotFound and is not cached. */
    method FindById(id: int) returns (r: Result<Student>)
      modifies cache
      ensures var e := StudentKey(id);
              if e in old(cache.entries) then
                r == AsStudent(old(cache.entries)[e]) && cache.entries == old(cache.entries)
              else
                && (r.Err? <==> !HasStudent(db.students, id))
                && (r.Err? ==> r.error == NotFound(NotFoundPrefix + IntToString(id))
                               && cache.entries == old(cache.entries))
                && (r.Ok? ==> r.value in db.students && r.value.id == id
                              && cache.entries == old(cache.entries)[e := StudentValue(r.value)])
    {
      var e := StudentKey(id);
      var hit := cache.Get(e);
      if hit.Some? {
        r := AsStudent(hit.value);
        return;
      }
      var student := StudentById(db.students, id);
      if student.None? {
        r := Err(NotFound(NotFoundPrefix + IntToString(id)));
        return;
      }
      r := Ok(student.value);
      cache.Put(e, StudentValue(student.value));
    }

    /** The first loop of addStudent: every attached mark is bound to the student about to
        be saved, numbered from the mark sequence. */
    method BindMarks(forms: seq<MarkForm>, studentId: int) returns (bound: seq<Mark>)
      ensures bound == BoundMarks(forms, studentId, db.nextMarkId)
    {
      bound := [];
      var k := 0;
      while k < |forms|
        invariant 0 <= k <= |forms|
        invariant bound == BoundMarks(forms[..k], studentId, db.nextMarkId)
      {
        bound := bound + [Mark(db.nextMarkId + k, forms[k].value, studentId, forms[k].subject)];
        k := k + 1;
      }
      assert forms[..k] == forms;
    }

    /** The second loop of addStudent: one association per subject id. */
    method EnrolAll(studentId: int, subjectIds: seq<int>)
      modifies db`enrolments
      ensures db.enrolments == old(db.enrolments) + PairsWith(studentId, subjectIds)
    {
      for i := 0 to |subjectIds|
        invariant db.enrolments == old(db.enrolments) + PairsWith(studentId, subjectIds[..i])
      {
        assert subjectIds[..i + 1] == subjectIds[..i] + [subjectIds[i]];
        assert PairsWith(studentId, subjectIds[..i + 1])
            == PairsWith(studentId, subjectIds[..i]) + {(studentId, subjectIds[i])};
        db.enrolments := db.enrolments + {(studentId, subjectIds[i])};
      }
      assert subjectIds[..|subjectIds|] == subjectIds;
    }

    /** addStudent: binds the attached marks to the student, saves it with no subjects, then
        associates every distinct non-null subject id; puts the student under its id and
        empties the "studentSubjects" and "marks" regions. */
    method AddStudent(form: StudentForm) returns (saved: Student)
      requires db.Valid()
      modifies db`students, db`nextStudentId, db`marks, db`nextMarkId, db`enrolments, cache
      ensures db.Valid()
      ensures saved == Student(old(db.nextStudentId), form.name, form.age, form.group)
      ensures db.students == old(db.students) + [saved]
      ensures db.marks == old(db.marks) + BoundMarks(form.marks, saved.id, old(db.nextMarkId))
      ensures db.enrolments == old(db.enrolments) + Enrolled(saved.id, form.subjects)
      ensures cache.entries == WithoutRegion(WithoutRegion(old(cache.entries)[StudentKey(saved.id) := StudentValue(saved)],
                                                           StudentSubjectsRegion), MarksRegion)
    {
      var subjectIds := SubjectIds(form.subjects);
      var studentId := db.nextStudentId;
      var bound := BindMarks(form.marks, studentId);

      saved := Student(studentId, form.name, form.age, form.group);
      AppendKeepsIds(db.students, StudentId, db.nextStudentId, saved);
      AppendBoundKeepsIds(db.marks, form.marks, studentId, db.nextMarkId);
      db.students := db.students + [saved];
      db.nextStudentId := db.nextStudentId + 1;
      db.marks := db.marks + bound;
      db.nextMarkId := db.nextMarkId + |bound|;

      EnrolAll(studentId, subjectIds);

      cache.Put(StudentKey(saved.id), StudentValue(saved));
      cache.Clear(StudentSubjectsRegion);
      cache.Clear(MarksRegion);
    }

    /** updateStudent as written: the row is updated and the keys id and 'group-' + id are
        evicted, where id is the student's id. */
    method UpdateStudent(name: string, age: int, id: int)
      requires db.Valid()
      modifies db`students, cache
      ensures db.Valid()
      ensures db.students == UpdateRow(old(db.students), name, age, id)
      ensures cache.entries == Without(Without(old(cache.entries), StudentKey(id)), GroupListKey(Some(id)))
    {
      SameIdsKeepIds(db.students, UpdateRow(db.students, name, age, id), StudentId, db.nextStudentId);
      db.students := UpdateRow(db.students, name, age, id);
      cache.Evict(StudentKey(id));
      cache.Evict(GroupListKey(Some(id)));
    }

    /** updateStudent evicting the listing of the student's own group, the key
        'group-' + id evidently stands for. */
    method UpdateStudentEvicting(name: string, age: int, id: int)
      requires db.Valid()
      modifies db`students, cache
      ensures db.Valid()
      ensures db.students == UpdateRow(old(db.students), name, age, id)
      ensures cache.entries == Without(if StudentById(old(db.students), id).Some?
                                       then Without(old(cache.entries), GroupListKey(StudentById(old(db.students), id).value.group))
                                       else old(cache.entries),
                                       StudentKey(id))
      ensures StudentKey(id) !in cache.entries
      ensures forall s :: s in old(db.students) && s.id == id ==> GroupListKey(s.group) !in cache.entries
      ensures forall e :: e in cache.entries ==> e in old(cache.entries) && cache.entries[e] == old(cache.entries)[e]
    {
      var student := StudentById(db.students, id);
      if student.Some? {
        forall s | s in db.students && s.id == id
          ensures s == student.value
        {
          IncreasingUnique(db.students, StudentId, s, student.value);
        }
        cache.Evict(GroupListKey(student.value.group));
      }
      SameIdsKeepIds(db.students, UpdateRow(db.students, name, age, id), StudentId, db.nextStudentId);
      db.students := UpdateRow(db.students, name, age, id);
      cache.Evict(StudentKey(id));
    }

    /** deleteStudent: NotFound for a missing id; otherwise the student's subject set is
        cleared before the row and its marks are removed; the id key is evicted and the
        "marks" and "studentSubjects" regions are emptied. */
    method DeleteStudent(id: int) returns (r: Outcome)
      requires db.Valid()
      modifies db`students, db`marks, db`enrolments, cache
      ensures db.Valid()
      ensures r.Fail? <==> !HasStudent(old(db.students), id)
      ensures r.Fail? ==> && r.error == NotFound(NotFoundPrefix + IntToString(id))
                          && db.students == old(db.students) && db.marks == old(db.marks)
                          && db.enrolments == old(db.enrolments) && cache.entries == old(cache.entries)
      ensures r.Pass? ==> && db.enrolments == WithoutStudent(old(db.enrolments), id)
                          && db.students == Filter(old(db.students), (s: Student) => s.id != id)
                          && db.marks == Filter(old(db.marks), (m: Mark) => m.student != id)
                          && cache.entries == WithoutRegion(WithoutRegion(Without(old(cache.entries), StudentKey(id)),
                                                                          MarksRegion), StudentSubjectsRegion)
      ensures r.Pass? ==> && !HasStudent(db.students, id)
                          && (forall p :: p in db.enrolments ==> p.0 != id)
                          && (forall m :: m in db.marks ==> m.student != id)
    {
      var student := StudentById(db.students, id);
      if student.None? {
        r := Fail(NotFound(NotFoundPrefix + IntToString(id)));
        return;
      }
      db.enrolments := WithoutStudent(db.enrolments, id);
      FilterKeepsIds(db.students, StudentId, db.nextStudentId, (s: Student) => s.id != id);
      FilterKeepsIds(db.marks, MarkId, db.nextMarkId, (m: Mark) => m.student != id);
      db.students := Filter(db.students, (s: Student) => s.id != id);
      db.marks := Filter(db.marks, (m: Mark) => m.student != id);
      cache.Evict(StudentKey(id));
      cache.Clear(MarksRegion);
      cache.Clear(StudentSubjectsRegion);
      r := Pass;
    }
  }

  /** A group listing read before an update of one of its students is served from the cache
      afterwards with the old row: the update evicted 'group-' + the student's id. */
  method GroupListingStaleAfterUpdate(svc: StudentServiceImpl, student: Student, name: string)
      returns (before: Result<seq<Student>>, after: Result<seq<Student>>)
    requires svc.db.Valid()
    requires student in svc.db.students && student.group.Some? && student.group != Some(student.id)
    requires GroupListKey(student.group) !in svc.cache.entries
    modifies svc.db, svc.cache
    ensures before.Ok? && after == before && student in after.value
    ensures forall s :: s in svc.db.students && s.id == student.id ==> s.name == name
  {
    before := svc.FindByGroupId(student.group);
    svc.UpdateStudent(name, student.age, student.id);
    if GroupListKey(student.group) == GroupListKey(Some(student.id)) {
      GroupListKeyInjective(student.group, Some(student.id));
    }
    after := svc.FindByGroupId(student.group);
    forall s | s in svc.db.students && s.id == student.id
      ensures s.name == name
    {
      var k :| 0 <= k < |svc.db.students| && svc.db.students[k] == s;
    }
  }

  /** With the intended eviction the listing read after the update has the new name. */
  method GroupListingFreshAfterUpdate(svc: StudentServiceImpl, student: Student, name: string)
      returns (before: Result<seq<Student>>, after: Result<seq<Student>>)
    requires svc.db.Valid()
    requires student in svc.db.students
    modifies svc.db, svc.cache
    ensures after.Ok? && student.id in set s | s in after.value :: s.id
    ensures forall s :: s in after.value && s.id == student.id ==> s.name == name
  {
    before := svc.FindByGroupId(student.group);
    svc.UpdateStudentEvicting(name, student.age, student.id);
    after := svc.FindByGroupId(student.group);
    ghost var k :| 0 <= k < |old(svc.db.students)| && old(svc.db.students)[k] == student;
    assert svc.db.students[k] in after.value;
    forall s | s in after.value && s.id == student.id
      ensures s.name == name
    {
      var j :| 0 <= j < |svc.db.students| && svc.db.students[j] == s;
    }
  }
}
