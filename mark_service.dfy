/** MarkServiceImpl: reading, averaging, adding and deleting marks, with the "marks" cache region. */
module MarkService {
  import opened Results
  import opened Text
  import opened Seqs
  import opened Entities
  import opened Caching

  function OrAll(id: Option<int>): string {
    if id.Some? then IntToString(id.value) else "all"
  }

  /** 'marks-' + (studentId or 'all') + '-' + (subjectId or 'all') */
  function ReadMarksKey(studentId: Option<int>, subjectId: Option<int>): Entry {
    Entry(MarksRegion, StrKey("marks-" + OrAll(studentId) + "-" + OrAll(subjectId)))
  }

  /** 'value-' + value */
  function ValueKey(value: int): Entry {
    Entry(MarksRegion, StrKey("value-" + IntToString(value)))
  }

  /** 'avg-student-' + studentId */
  function AvgStudentKey(studentId: int): Entry {
    Entry(MarksRegion, StrKey("avg-student-" + IntToString(studentId)))
  }

  /** 'avg-subject-' + subjectId */
  function AvgSubjectKey(subjectId: int): Entry {
    Entry(MarksRegion, StrKey("avg-subject-" + IntToString(subjectId)))
  }

  /** Distinct students have distinct average keys, so evicting one student's average
      leaves every other student's cached average in place. */
  lemma AvgStudentKeyInjective(a: int, b: int)
    requires AvgStudentKey(a) == AvgStudentKey(b)
    ensures a == b
  {
    PrefixedIntInjective("avg-student-", a, b);
  }

  /** Student and subject averages never share a key. */
  lemma AvgKeysDisjoint(studentId: int, subjectId: int)
    ensures AvgStudentKey(studentId) != AvgSubjectKey(subjectId)
  {
    assert AvgStudentKey(studentId).key.text[4] == 's';
    assert AvgSubjectKey(subjectId).key.text[5] == 'u';
  }

  predicate MarkFits(m: Mark, studentId: Option<int>, subjectId: Option<int>) {
    && (studentId.None? || m.student == studentId.value)
    && (subjectId.None? || m.subject == subjectId.value)
  }

  /** What readMarks computes on a cache miss: with both ids both entities must exist,
      otherwise each given id filters the mark table. */
  function QueryMarks(students: seq<Student>, subjects: seq<Subject>, marks: seq<Mark>,
                      studentId: Option<int>, subjectId: Option<int>): (r: Result<seq<Mark>>)
    ensures r.Err? <==> studentId.Some? && subjectId.Some?
                        && (!HasStudent(students, studentId.value) || !HasSubject(subjects, subjectId.value))
    ensures r.Err? && !HasStudent(students, studentId.value) ==>
              r.error == NotFound("Student not found with id: " + IntToString(studentId.value))
    ensures r.Err? && HasStudent(students, studentId.value) ==>
              r.error == NotFound("Subject not found with id: " + IntToString(subjectId.value))
    ensures r.Ok? ==> forall m :: m in r.value <==> m in marks && MarkFits(m, studentId, subjectId)
  {
    if studentId.Some? && subjectId.Some? then
      match StudentById(students, studentId.value)
      case None => Err(NotFound("Student not found with id: " + IntToString(studentId.value)))
      case Some(student) =>
        match SubjectById(subjects, subjectId.value)
        case None => Err(NotFound("Subject not found with id: " + IntToString(subjectId.value)))
        case Some(subject) =>
          Ok(Filter(marks, (m: Mark) => m.student == student.id && m.subject == subject.id))
    else if studentId.Some? then
      Ok(Filter(marks, (m: Mark) => m.student == studentId.value))
    else if subjectId.Some? then
      Ok(Filter(marks, (m: Mark) => m.subject == subjectId.value))
    else
      Ok(marks)
  }

  /** markRepository.findByValue */
  function MarksWithValue(marks: seq<Mark>, value: int): (r: seq<Mark>)
    ensures forall m :: m in r <==> m in marks && m.value == value
  {
    Filter(marks, (m: Mark) => m.value == value)
  }

  function SumOfValues(marks: seq<Mark>): int {
    if marks == [] then 0 else SumOfValues(marks[..|marks| - 1]) + marks[|marks| - 1].value
  }

  /** SQL AVG: null over no rows. */
  function AverageOf(marks: seq<Mark>): (a: Option<Average>)
    ensures a.None? <==> marks == []
    ensures a.Some? ==> a.value.count == |marks|
  {
    if marks == [] then None else Some(Average(SumOfValues(marks), |marks|))
  }

  function OfStudent(studentId: int): Mark -> bool {
    (m: Mark) => m.student == studentId
  }

  function OfSubject(subjectId: int): Mark -> bool {
    (m: Mark) => m.subject == subjectId
  }

  function MarksOfStudent(marks: seq<Mark>, studentId: int): seq<Mark> {
    Filter(marks, OfStudent(studentId))
  }

  function MarksOfSubject(marks: seq<Mark>, subjectId: int): seq<Mark> {
    Filter(marks, OfSubject(subjectId))
  }

  /** markRepository.getAverageMarkByStudentId */
  function StudentAverage(marks: seq<Mark>, studentId: int): Option<Average> {
    AverageOf(MarksOfStudent(marks, studentId))
  }

  /** markRepository.getAverageMarkBySubjectId */
  function SubjectAverage(marks: seq<Mark>, subjectId: int): Option<Average> {
    AverageOf(MarksOfSubject(marks, subjectId))
  }

  /** Appending one row to a selection adds its value to the sum. */
  lemma SumOfValuesSnoc(rows: seq<Mark>, m: Mark)
    ensures SumOfValues(rows + [m]) == SumOfValues(rows) + m.value
  {
    assert (rows + [m])[..|rows|] == rows;
  }

  /** A new mark moves its student's average by exactly that mark. */
  lemma StudentAverageAfterAdd(marks: seq<Mark>, m: Mark)
    ensures StudentAverage(marks + [m], m.student)
         == Some(Average(SumOfValues(MarksOfStudent(marks, m.student)) + m.value,
                         |MarksOfStudent(marks, m.student)| + 1))
  {
    var p := OfStudent(m.student);
    var before := MarksOfStudent(marks, m.student);
    assert Filter([m], p) == [m] by { assert [m][1..] == []; }
    calc {
      MarksOfStudent(marks + [m], m.student);
      Filter(marks + [m], p);
      { FilterAppend(marks, [m], p); }
      before + [m];
    }
    SumOfValuesSnoc(before, m);
  }

  /** A new mark moves its subject's average by exactly that mark. */
  lemma SubjectAverageAfterAdd(marks: seq<Mark>, m: Mark)
    ensures SubjectAverage(marks + [m], m.subject)
         == Some(Average(SumOfValues(MarksOfSubject(marks, m.subject)) + m.value,
                         |MarksOfSubject(marks, m.subject)| + 1))
  {
    var p := OfSubject(m.subject);
    var before := MarksOfSubject(marks, m.subject);
    assert Filter([m], p) == [m] by { assert [m][1..] == []; }
    calc {
      MarksOfSubject(marks + [m], m.subject);
      Filter(marks + [m], p);
      { FilterAppend(marks, [m], p); }
      before + [m];
    }
    SumOfValuesSnoc(before, m);
  }

  /** A mark of another student leaves a student's average as it was. */
  lemma StudentAverageUnrelatedAdd(marks: seq<Mark>, m: Mark, studentId: int)
    requires m.student != studentId
    ensures StudentAverage(marks + [m], studentId) == StudentAverage(marks, studentId)
  {
    var p := OfStudent(studentId);
    FilterAppend(marks, [m], p);
    assert Filter([m], p) == [] by { assert [m][1..] == []; }
    assert Filter(marks, p) + [] == Filter(marks, p);
  }

  /** The conditional delete deleteMarkByStudentIdSubjectNameValueAndOptionalId: the mark's
      student, the name of its subject, its value, and its id when one is given. */
  function Criteria(subjects: seq<Subject>, studentId: int, subjectName: string, value: int, id: Option<int>): Mark -> bool {
    (m: Mark) =>
      && m.student == studentId
      && (exists s :: s in subjects && s.id == m.subject && s.name == subjectName)
      && m.value == value
      && (id.None? || m.id == id.value)
  }

  class MarkServiceImpl {
    const db: Database
    const cache: CacheStore

    constructor (db: Database, cache: CacheStore)
      ensures this.db == db && this.cache == cache
    {
      this.db := db;
      this.cache := cache;
    }

    /** @Cacheable under ReadMarksKey, unless the list is empty. */
    method ReadMarks(studentId: Option<int>, subjectId: Option<int>) returns (r: Result<seq<Mark>>)
      modifies cache
      ensures var e := ReadMarksKey(studentId, subjectId);
              if e in old(cache.entries) then
                r == AsMarkList(old(cache.entries)[e]) && cache.entries == old(cache.entries)
              else
                && r == QueryMarks(db.students, db.subjects, db.marks, studentId, subjectId)
                && cache.entries == if r.Ok? && r.value != [] then old(cache.entries)[e := MarkList(r.value)]
                                    else old(cache.entries)
    {
      var e := ReadMarksKey(studentId, subjectId);
      var hit := cache.Get(e);
      if hit.Some? {
        r := AsMarkList(hit.value);
        return;
      }
      r := QueryMarks(db.students, db.subjects, db.marks, studentId, subjectId);
      if r.Ok? && r.value != [] {
        cache.Put(e, MarkList(r.value));
      }
    }

    /** @Cacheable under ValueKey, unless the list is empty. */
    method FindByValue(value: int) returns (r: Result<seq<Mark>>)
      modifies cache
      ensures var e := ValueKey(value);
              if e in old(cache.entries) then
                r == AsMarkList(old(cache.entries)[e]) && cache.entries == old(cache.entries)
              else
                && r == Ok(MarksWithValue(db.marks, value))
                && cache.entries == if r.value != [] then old(cache.entries)[e := MarkList(r.value)]
                                    else old(cache.entries)
    {
      var e := ValueKey(value);
      var hit := cache.Get(e);
      if hit.Some? {
        r := AsMarkList(hit.value);
        return;
      }
      r := Ok(MarksWithValue(db.marks, value));
      if r.value != [] {
        cache.Put(e, MarkList(r.value));
      }
    }

    /** @Cacheable under AvgStudentKey, unless the average is null. */
    method GetAverageMarkByStudentId(studentId: int) returns (r: Result<Option<Average>>)
      modifies cache
      ensures var e := AvgStudentKey(studentId);
              if e in old(cache.entries) then
                r == AsAverage(old(cache.entries)[e]) && cache.entries == old(cache.entries)
              else
                && r == Ok(StudentAverage(db.marks, studentId))
                && cache.entries == if r.value.Some? then old(cache.entries)[e := Avg(r.value.value)]
                                    else old(cache.entries)
    {
      var e := AvgStudentKey(studentId);
      var hit := cache.Get(e);
      if hit.Some? {
        r := AsAverage(hit.value);
        return;
      }
      r := Ok(StudentAverage(db.marks, studentId));
      if r.value.Some? {
        cache.Put(e, Avg(r.value.value));
      }
    }

    /** @Cacheable under AvgSubjectKey, unless the average is null. */
    method GetAverageMarkBySubjectId(subjectId: int) returns (r: Result<Option<Average>>)
      modifies cache
      ensures var e := AvgSubjectKey(subjectId);
              if e in old(cache.entries) then
                r == AsAverage(old(cache.entries)[e]) && cache.entries == old(cache.entries)
              else
                && r == Ok(SubjectAverage(db.marks, subjectId))
                && cache.entries == if r.value.Some? then old(cache.entries)[e := Avg(r.value.value)]
                                    else old(cache.entries)
    {
      var e := AvgSubjectKey(subjectId);
      var hit := cache.Get(e);
      if hit.Some? {
        r := AsAverage(hit.value);
        return;
      }
      r := Ok(SubjectAverage(db.marks, subjectId));
      if r.value.Some? {
        cache.Put(e, Avg(r.value.value));
      }
    }

    /** Saves a mark for an existing student and subject, provided the student already has
        that subject; on success evicts both averages and then the whole "marks" region. */
    method AddMark(studentId: int, subjectId: int, value: int) returns (r: Result<Mark>)
      requires db.Valid()
      modifies db`marks, db`nextMarkId, cache
      ensures db.Valid()
      ensures !HasStudent(db.students, studentId) ==>
                r == Err(NotFound("Student not found with id: " + IntToString(studentId)))
      ensures HasStudent(db.students, studentId) && !HasSubject(db.subjects, subjectId) ==>
                r == Err(NotFound("Subject not found with id: " + IntToString(subjectId)))
      ensures HasStudent(db.students, studentId) && HasSubject(db.subjects, subjectId)
              && (studentId, subjectId) !in db.enrolments ==>
                r == Err(SubjectNotAssigned(studentId, subjectId))
      ensures r.Ok? <==> HasStudent(db.students, studentId) && HasSubject(db.subjects, subjectId)
                         && (studentId, subjectId) in db.enrolments
      ensures r.Err? ==> db.marks == old(db.marks) && db.nextMarkId == old(db.nextMarkId)
                         && cache.entries == old(cache.entries)
      ensures r.Ok? ==> && r.value == Mark(old(db.nextMarkId), value, studentId, subjectId)
                        && db.marks == old(db.marks) + [r.value]
                        && (forall m :: m in old(db.marks) ==> m.id != r.value.id)
                        && cache.entries == WithoutRegion(old(cache.entries), MarksRegion)
                        && AvgStudentKey(studentId) !in cache.entries
                        && AvgSubjectKey(subjectId) !in cache.entries
    {
      var student := StudentById(db.students, studentId);
      if student.None? {
        r := Err(NotFound("Student not found with id: " + IntToString(studentId)));
        return;
      }
      var subject := SubjectById(db.subjects, subjectId);
      if subject.None? {
        r := Err(NotFound("Subject not found with id: " + IntToString(subjectId)));
        return;
      }
      if (student.value.id, subject.value.id) !in db.enrolments {
        r := Err(SubjectNotAssigned(studentId, subjectId));
        return;
      }
      var saved := Mark(db.nextMarkId, value, studentId, subjectId);
      assert forall m :: m in db.marks ==> m.id != saved.id by {
        assert forall m :: m in db.marks ==> MarkId(m) < db.nextMarkId;
      }
      AppendKeepsIds(db.marks, MarkId, db.nextMarkId, saved);
      db.marks := db.marks + [saved];
      db.nextMarkId := db.nextMarkId + 1;
      r := Ok(saved);
      ghost var before := cache.entries;
      cache.Evict(AvgStudentKey(studentId));
      cache.Evict(AvgSubjectKey(subjectId));
      cache.Clear(MarksRegion);
      EvictThenClear(Without(before, AvgStudentKey(studentId)), AvgSubjectKey(subjectId), MarksRegion);
      EvictThenClear(before, AvgStudentKey(studentId), MarksRegion);
    }

    /** The conditional delete; deleting no row is reported as NotFound. On success the whole
        "marks" region is evicted. */
    method DeleteMarkSpecific(studentId: int, subjectName: string, markValue: int, id: Option<int>) returns (r: Outcome)
      requires db.Valid()
      modifies db`marks, cache
      ensures db.Valid()
      ensures var criteria := Criteria(db.subjects, studentId, subjectName, markValue, id);
              r.Fail? <==> Filter(old(db.marks), criteria) == []
      ensures r.Fail? ==> && r.error == NotFound("Mark not found with the given criteria.")
                          && db.marks == old(db.marks) && cache.entries == old(cache.entries)
      ensures r.Pass? ==> && db.marks == Filter(old(db.marks), Not(Criteria(db.subjects, studentId, subjectName, markValue, id)))
                          && cache.entries == WithoutRegion(old(cache.entries), MarksRegion)
    {
      var criteria := Criteria(db.subjects, studentId, subjectName, markValue, id);
      var deletedCount := |Filter(db.marks, criteria)|;
      if deletedCount == 0 {
        r := Fail(NotFound("Mark not found with the given criteria."));
        return;
      }
      FilterKeepsIds(db.marks, MarkId, db.nextMarkId, Not(criteria));
      db.marks := Filter(db.marks, Not(criteria));
      cache.Clear(MarksRegion);
      r := Pass;
    }

    /** deleteById, which ignores an absent id, then evicts the whole "marks" region. */
    method DeleteMark(id: int)
      requires db.Valid()
      modifies db`marks, cache
      ensures db.Valid()
      ensures db.marks == Filter(old(db.marks), (m: Mark) => m.id != id)
      ensures forall m :: m in db.marks <==> m in old(db.marks) && m.id != id
      ensures cache.entries == WithoutRegion(old(cache.entries), MarksRegion)
    {
      var keep := (m: Mark) => m.id != id;
      FilterKeepsIds(db.marks, MarkId, db.nextMarkId, keep);
      db.marks := Filter(db.marks, keep);
      cache.Evict(Entry(MarksRegion, IdKey(id)));
      cache.Clear(MarksRegion);
      EvictThenClear(old(cache.entries), Entry(MarksRegion, IdKey(id)), MarksRegion);
    }
  }

  /** After a successful addMark the student's average is read afresh and moves by exactly
      the new mark: the add evicted the cached average. */
  method AverageAfterAddMark(svc: MarkServiceImpl, studentId: int, subjectId: int, value: int)
      returns (added: Result<Mark>, avg: Result<Option<Average>>)
    requires svc.db.Valid()
    modifies svc.db, svc.cache
    ensures added.Ok? ==>
              avg == Ok(Some(Average(SumOfValues(MarksOfStudent(old(svc.db.marks), studentId)) + value,
                                     |MarksOfStudent(old(svc.db.marks), studentId)| + 1)))
  {
    added := svc.AddMark(studentId, subjectId, value);
    avg := svc.GetAverageMarkByStudentId(studentId);
    if added.Ok? {
      StudentAverageAfterAdd(old(svc.db.marks), added.value);
    }
  }
}
