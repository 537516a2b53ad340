/** StudentSubjectServiceImpl: the student-subject association and the "studentSubjects"
    cache region. */
module StudentSubjectService {
  import opened Results
  import opened Text
  import opened Entities
  import opened Caching

  const StudentError := "Student not found"
  const SubjectError := "Subject not found"

  /** 'subjects-' + #studentId */
  function SubjectsKey(studentId: int): Entry {
    Entry(StudentSubjectsRegion, StrKey("subjects-" + IntToString(studentId)))
  }

  /** 'students-' + #subjectId */
  function StudentsKey(subjectId: int): Entry {
    Entry(StudentSubjectsRegion, StrKey("students-" + IntToString(subjectId)))
  }

  /** 'student-with-subjects-' + #studentId */
  function StudentWithSubjectsKey(studentId: int): Entry {
    Entry(StudentSubjectsRegion, StrKey("student-with-subjects-" + IntToString(studentId)))
  }

  /** 'subject-with-students-' + #subjectId */
  function SubjectWithStudentsKey(subjectId: int): Entry {
    Entry(StudentSubjectsRegion, StrKey("subject-with-students-" + IntToString(subjectId)))
  }

  /** The four reads never share a key, whatever the ids. */
  lemma RelationKeysDisjoint(a: int, b: int, c: int, d: int)
    ensures SubjectsKey(a) != StudentsKey(b)
    ensures SubjectsKey(a) != StudentWithSubjectsKey(c) && SubjectsKey(a) != SubjectWithStudentsKey(d)
    ensures StudentsKey(b) != StudentWithSubjectsKey(c) && StudentsKey(b) != SubjectWithStudentsKey(d)
    ensures StudentWithSubjectsKey(c) != SubjectWithStudentsKey(d)
  {
    assert SubjectsKey(a).key.text[3] == 'j';
    assert StudentsKey(b).key.text[3] == 'd';
    assert SubjectsKey(a).key.text[7] == 's';
    assert StudentsKey(b).key.text[7] == 's';
    assert StudentWithSubjectsKey(c).key.text[3] == 'd' && StudentWithSubjectsKey(c).key.text[7] == '-';
    assert SubjectWithStudentsKey(d).key.text[3] == 'j' && SubjectWithStudentsKey(d).key.text[7] == '-';
  }

  /** The error of a check of both ends of a pair: the student is checked first. */
  function PairError(students: seq<Student>, subjects: seq<Subject>, studentId: int, subjectId: int): (r: Option<Error>)
    ensures r.None? <==> HasStudent(students, studentId) && HasSubject(subjects, subjectId)
    ensures !HasStudent(students, studentId) ==> r == Some(NotFound(StudentError))
    ensures HasStudent(students, studentId) && !HasSubject(subjects, subjectId) ==> r == Some(NotFound(SubjectError))
  {
    if StudentById(students, studentId).None? then Some(NotFound(StudentError))
    else if SubjectById(subjects, subjectId).None? then Some(NotFound(SubjectError))
    else None
  }

  /** A new association shows up among the student's subjects, and nothing else changes
      there. */
  lemma SubjectsAfterAdd(subjects: seq<Subject>, enrolments: set<(int, int)>, studentId: int, subject: Subject)
    requires subject in subjects
    ensures subject in SubjectsOfStudent(subjects, enrolments + {(studentId, subject.id)}, studentId)
    ensures forall s :: s in SubjectsOfStudent(subjects, enrolments, studentId) ==>
              s in SubjectsOfStudent(subjects, enrolments + {(studentId, subject.id)}, studentId)
  {
  }

  /** A removed association is gone from the student's subjects, and no other subject goes. */
  lemma SubjectsAfterRemove(subjects: seq<Subject>, enrolments: set<(int, int)>, studentId: int, subjectId: int)
    ensures forall s :: s in SubjectsOfStudent(subjects, enrolments - {(studentId, subjectId)}, studentId) <==>
              s in SubjectsOfStudent(subjects, enrolments, studentId) && s.id != subjectId
  {
  }

  class StudentSubjectServiceImpl {
    const db: Database
    const cache: CacheStore

    constructor (db: Database, cache: CacheStore)
      ensures this.db == db && this.cache == cache
    {
      this.db := db;
      this.cache := cache;
    }

    /** addSubjectToStudent: both ends must exist, the student checked first; on success the
        pair is associated and the "studentSubjects" and "students" regions are emptied. */
    method AddSubjectToStudent(studentId: int, subjectId: int) returns (r: Outcome)
      modifies db`enrolments, cache
      ensures r.Fail? <==> PairError(db.students, db.subjects, studentId, subjectId).Some?
      ensures r.Fail? ==> && r.error == PairError(db.students, db.subjects, studentId, subjectId).value
                          && db.enrolments == old(db.enrolments) && cache.entries == old(cache.entries)
      ensures r.Pass? ==> && db.enrolments == old(db.enrolments) + {(studentId, subjectId)}
                          && cache.entries == WithoutRegion(WithoutRegion(old(cache.entries), StudentSubjectsRegion),
                                                            StudentsRegion)
    {
      var error := PairError(db.students, db.subjects, studentId, subjectId);
      if error.Some? {
        r := Fail(error.value);
        return;
      }
      db.enrolments := db.enrolments + {(studentId, subjectId)};
      cache.Clear(StudentSubjectsRegion);
      cache.Clear(StudentsRegion);
      r := Pass;
    }

    /** removeSubjectFromStudent: the same checks in the same order; on success the pair is
        no longer associated and the same two regions are emptied. */
    method RemoveSubjectFromStudent(studentId: int, subjectId: int) returns (r: Outcome)
      modifies db`enrolments, cache
      ensures r.Fail? <==> PairError(db.students, db.subjects, studentId, subjectId).Some?
      ensures r.Fail? ==> && r.error == PairError(db.students, db.subjects, studentId, subjectId).value
                          && db.enrolments == old(db.enrolments) && cache.entries == old(cache.entries)
      ensures r.Pass? ==> && db.enrolments == old(db.enrolments) - {(studentId, subjectId)}
                          && (studentId, subjectId) !in db.enrolments
                          && cache.entries == WithoutRegion(WithoutRegion(old(cache.entries), StudentSubjectsRegion),
                                                            StudentsRegion)
    {
      var error := PairError(db.students, db.subjects, studentId, subjectId);
      if error.Some? {
        r := Fail(error.value);
        return;
      }
      db.enrolments := db.enrolments - {(studentId, subjectId)};
      cache.Clear(StudentSubjectsRegion);
      cache.Clear(StudentsRegion);
      r := Pass;
    }

    /** @Cacheable under 'subjects-' + studentId, unless the list is empty; an unknown
        student has no subjects. */
    method GetSubjectsByStudent(studentId: int) returns (r: Result<seq<Subject>>)
      modifies cache
      ensures var e := SubjectsKey(studentId);
              if e in old(cache.entries) then
                r == AsSubjectList(old(cache.entries)[e]) && cache.entries == old(cache.entries)
              else
                && r == Ok(SubjectsOfStudent(db.subjects, db.enrolments, studentId))
                && cache.entries == if r.value != [] then old(cache.entries)[e := SubjectList(r.value)]
                                    else old(cache.entries)
    {
      var e := SubjectsKey(studentId);
      var hit := cache.Get(e);
      if hit.Some? {
        r := AsSubjectList(hit.value);
        return;
      }
      r := Ok(SubjectsOfStudent(db.subjects, db.enrolments, studentId));
      if r.value != [] {
        cache.Put(e, SubjectList(r.value));
      }
    }

    /** @Cacheable under 'students-' + subjectId, unless the collection is empty; an unknown
        subject is NotFound. */
    method GetStudentsBySubject(subjectId: int) returns (r: Result<seq<Student>>)
      modifies cache
      ensures var e := StudentsKey(subjectId);
              if e in old(cache.entries) then
                r == AsStudentList(old(cache.entries)[e]) && cache.entries == old(cache.entries)
              else
                && (r.Err? <==> !HasSubject(db.subjects, subjectId))
                && (r.Err? ==> r.error == NotFound(SubjectError) && cache.entries == old(cache.entries))
                && (r.Ok? ==> && (forall s :: s in r.value <==> s in db.students && (s.id, subjectId) in db.enrolments)
                              && cache.entries == if r.value != [] then old(cache.entries)[e := StudentList(r.value)]
                                                  else old(cache.entries))
    {
      var e := StudentsKey(subjectId);
      var hit := cache.Get(e);
      if hit.Some? {
        r := AsStudentList(hit.value);
        return;
      }
      var subject := SubjectById(db.subjects, subjectId);
      if subject.None? {
        r := Err(NotFound(SubjectError));
        return;
      }
      r := Ok(StudentsOfSubject(db.students, db.enrolments, subjectId));
      if r.value != [] {
        cache.Put(e, StudentList(r.value));
      }
    }

    /** @Cacheable under 'student-with-subjects-' + studentId, unless the student has no
        subjects; an unknown student is NotFound. */
    method FindStudentWithSubjects(studentId: int) returns (r: Result<(Student, seq<Subject>)>)
      modifies cache
      ensures var e := StudentWithSubjectsKey(studentId);
              if e in old(cache.entries) then
                r == AsStudentWithSubjects(old(cache.entries)[e]) && cache.entries == old(cache.entries)
              else
                && (r.Err? <==> !HasStudent(db.students, studentId))
                && (r.Err? ==> r.error == NotFound(StudentError) && cache.entries == old(cache.entries))
                && (r.Ok? ==> && r.value.0 in db.students && r.value.0.id == studentId
                              && r.value.1 == SubjectsOfStudent(db.subjects, db.enrolments, studentId)
                              && cache.entries == if r.value.1 != [] then old(cache.entries)[e := StudentWithSubjects(r.value.0, r.value.1)]
                                                  else old(cache.entries))
    {
      var e := StudentWithSubjectsKey(studentId);
      var hit := cache.Get(e);
      if hit.Some? {
        r := AsStudentWithSubjects(hit.value);
        return;
      }
      var student := StudentById(db.students, studentId);
      if student.None? {
        r := Err(NotFound(StudentError));
        return;
      }
      var subjects := SubjectsOfStudent(db.subjects, db.enrolments, studentId);
      r := Ok((student.value, subjects));
      if subjects != [] {
        cache.Put(e, StudentWithSubjects(student.value, subjects));
      }
    }

    /** @Cacheable under 'subject-with-students-' + subjectId, unless the subject has no
        students; an unknown subject is NotFound. */
    method FindSubjectWithStudents(subjectId: int) returns (r: Result<(Subject, seq<Student>)>)
      modifies cache
      ensures var e := SubjectWithStudentsKey(subjectId);
              if e in old(cache.entries) then
                r == AsSubjectWithStudents(old(cache.entries)[e]) && cache.entries == old(cache.entries)
              else
                && (r.Err? <==> !HasSubject(db.subjects, subjectId))
                && (r.Err? ==> r.error == NotFound(SubjectError) && cache.entries == old(cache.entries))
                && (r.Ok? ==> && r.value.0 in db.subjects && r.value.0.id == subjectId
                              && r.value.1 == StudentsOfSubject(db.students, db.enrolments, subjectId)
                              && cache.entries == if r.value.1 != [] then old(cache.entries)[e := SubjectWithStudents(r.value.0, r.value.1)]
                                                  else old(cache.entries))
    {
      var e := SubjectWithStudentsKey(subjectId);
      var hit := cache.Get(e);
      if hit.Some? {
        r := AsSubjectWithStudents(hit.value);
        return;
      }
      var subject := SubjectById(db.subjects, subjectId);
      if subject.None? {
        r := Err(NotFound(SubjectError));
        return;
      }
      var students := StudentsOfSubject(db.students, db.enrolments, subjectId);
      r := Ok((subject.value, students));
      if students != [] {
        cache.Put(e, SubjectWithStudents(subject.value, students));
      }
    }
  }

  /** After a successful add, the student's subject list includes the subject: the add
      emptied the region, so the list is read afresh. */
  method ListAfterAdd(svc: StudentSubjectServiceImpl, studentId: int, subject: Subject) returns (r: Result<seq<Subject>>)
    requires subject in svc.db.subjects
    modifies svc.db, svc.cache
    ensures HasStudent(svc.db.students, studentId) ==> r.Ok? && subject in r.value
  {
    var added := svc.AddSubjectToStudent(studentId, subject.id);
    r := svc.GetSubjectsByStudent(studentId);
  }

  /** After a successful remove, the student's subject list no longer has the subject. */
  method ListAfterRemove(svc: StudentSubjectServiceImpl, studentId: int, subjectId: int) returns (r: Result<seq<Subject>>)
    modifies svc.db, svc.cache
    ensures HasStudent(svc.db.students, studentId) && HasSubject(svc.db.subjects, subjectId) ==>
              r.Ok? && forall s :: s in r.value ==> s.id != subjectId
  {
    var removed := svc.RemoveSubjectFromStudent(studentId, subjectId);
    r := svc.GetSubjectsByStudent(studentId);
  }
}
