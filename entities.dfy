/** The four entities, as the rows the repositories hold, and the store they live in. */
module Entities {
  import opened Results
  import opened Seqs

  /** A student row. Its subjects live in the enrolment table and its marks in the mark table. */
  datatype Student = Student(id: int, name: string, age: int, group: Option<int>)

  /** A group row. Its students are the students whose group is this group's id. */
  datatype Group = Group(id: int, name: string)

  datatype Subject = Subject(id: int, name: string)

  /** A mark row, referring to its student and its subject by id. */
  datatype Mark = Mark(id: int, value: int, student: int, subject: int)

  /** AVG(value) over some marks, kept exact: the Double the database returns is sum / count. */
  datatype Average = Average(sum: int, count: nat)

  function StudentId(s: Student): int { s.id }
  function GroupId(g: Group): int { g.id }
  function SubjectId(s: Subject): int { s.id }
  function MarkId(m: Mark): int { m.id }
  function StudentName(s: Student): string { s.name }
  function GroupName(g: Group): string { g.name }
  function SubjectName(s: Subject): string { s.name }

  /** Each row's id is below the ids of all rows after it. */
  ghost predicate Increasing<T(!new)>(rows: seq<T>, idOf: T -> int) {
    rows == [] || ((forall x :: x in rows[1..] ==> idOf(rows[0]) < idOf(x)) && Increasing(rows[1..], idOf))
  }

  /** The ids a table holds are positive, below the next id its sequence will hand out, and
      strictly increasing, so that they are unique. */
  ghost predicate IdsAscending<T(!new)>(rows: seq<T>, idOf: T -> int, next: int) {
    && 0 < next
    && (forall x :: x in rows ==> 0 < idOf(x) < next)
    && Increasing(rows, idOf)
  }

  /** Two rows of a table with increasing ids that share an id are the same row. */
  lemma {:induction false} IncreasingUnique<T(!new)>(rows: seq<T>, idOf: T -> int, x: T, y: T)
    requires Increasing(rows, idOf)
    requires x in rows && y in rows && idOf(x) == idOf(y)
    ensures x == y
  {
    assert rows == [rows[0]] + rows[1..];
    if x != rows[0] && y != rows[0] {
      IncreasingUnique(rows[1..], idOf, x, y);
    }
  }

  /** Deleting rows keeps the table's ids in order. */
  lemma {:induction false} FilterKeepsIncreasing<T(!new)>(rows: seq<T>, idOf: T -> int, p: T -> bool)
    requires Increasing(rows, idOf)
    ensures Increasing(Filter(rows, p), idOf)
  {
    if rows != [] {
      FilterKeepsIncreasing(rows[1..], idOf, p);
      if p(rows[0]) {
        var r := Filter(rows, p);
        assert r[1..] == Filter(rows[1..], p);
      }
    }
  }

  lemma FilterKeepsIds<T(!new)>(rows: seq<T>, idOf: T -> int, next: int, p: T -> bool)
    requires IdsAscending(rows, idOf, next)
    ensures IdsAscending(Filter(rows, p), idOf, next)
  {
    FilterKeepsIncreasing(rows, idOf, p);
  }

  lemma {:induction false} AppendKeepsIncreasing<T(!new)>(rows: seq<T>, idOf: T -> int, x: T)
    requires Increasing(rows, idOf)
    requires forall y :: y in rows ==> idOf(y) < idOf(x)
    ensures Increasing(rows + [x], idOf)
  {
    if rows != [] {
      assert (rows + [x])[1..] == rows[1..] + [x];
      AppendKeepsIncreasing(rows[1..], idOf, x);
    } else {
      assert ([] + [x])[1..] == [];
    }
  }

  /** Saving a row under the sequence's next id keeps the table's ids in order. */
  lemma AppendKeepsIds<T(!new)>(rows: seq<T>, idOf: T -> int, next: int, x: T)
    requires IdsAscending(rows, idOf, next)
    requires idOf(x) == next
    ensures IdsAscending(rows + [x], idOf, next + 1)
  {
    AppendKeepsIncreasing(rows, idOf, x);
  }

  /** Rewriting rows in place without touching their ids keeps the table's id order. */
  lemma {:induction false} SameIdsKeepIncreasing<T(!new)>(a: seq<T>, b: seq<T>, idOf: T -> int)
    requires |a| == |b|
    requires forall k :: 0 <= k < |a| ==> idOf(a[k]) == idOf(b[k])
    requires Increasing(a, idOf)
    ensures Increasing(b, idOf)
  {
    if b != [] {
      forall x | x in b[1..]
        ensures idOf(b[0]) < idOf(x)
      {
        var k :| 0 <= k < |b[1..]| && b[1..][k] == x;
        assert idOf(x) == idOf(a[1..][k]);
        assert a[1..][k] in a[1..];
      }
      SameIdsKeepIncreasing(a[1..], b[1..], idOf);
    }
  }

  lemma SameIdsKeepIds<T(!new)>(a: seq<T>, b: seq<T>, idOf: T -> int, next: int)
    requires |a| == |b|
    requires forall k :: 0 <= k < |a| ==> idOf(a[k]) == idOf(b[k])
    requires IdsAscending(a, idOf, next)
    ensures IdsAscending(b, idOf, next)
  {
    SameIdsKeepIncreasing(a, b, idOf);
    forall x | x in b
      ensures 0 < idOf(x) < next
    {
      var k :| 0 <= k < |b| && b[k] == x;
      assert a[k] in a;
    }
  }

  /** The ids a table holds. */
  ghost function IdSet<T(!new)>(rows: seq<T>, idOf: T -> int): (r: set<int>)
    ensures forall x :: x in rows ==> idOf(x) in r
    ensures forall i :: i in r ==> exists x :: x in rows && idOf(x) == i
  {
    set x | x in rows :: idOf(x)
  }

  /** The ids of a table with increasing ids are as many as its rows. */
  lemma {:induction false} IncreasingIdCount<T(!new)>(rows: seq<T>, idOf: T -> int)
    requires Increasing(rows, idOf)
    ensures |IdSet(rows, idOf)| == |rows|
  {
    if rows != [] {
      IncreasingIdCount(rows[1..], idOf);
      var rest := IdSet(rows[1..], idOf);
      assert rows == [rows[0]] + rows[1..];
      assert IdSet(rows, idOf) == {idOf(rows[0])} + rest;
      assert idOf(rows[0]) !in rest;
    }
  }

  predicate HasStudent(students: seq<Student>, id: int) {
    exists s :: s in students && s.id == id
  }

  predicate HasGroup(groups: seq<Group>, id: int) {
    exists g :: g in groups && g.id == id
  }

  predicate HasSubject(subjects: seq<Subject>, id: int) {
    exists s :: s in subjects && s.id == id
  }

  predicate HasSubjectNamed(subjects: seq<Subject>, name: string) {
    exists s :: s in subjects && s.name == name
  }

  predicate HasGroupNamed(groups: seq<Group>, name: string) {
    exists g :: g in groups && g.name == name
  }

  /** Two different subjects carry the name. */
  ghost predicate SubjectNameShared(subjects: seq<Subject>, name: string) {
    exists i, j :: 0 <= i < j < |subjects| && subjects[i].name == name && subjects[j].name == name
  }

  /** Two different groups carry the name. */
  ghost predicate GroupNameShared(groups: seq<Group>, name: string) {
    exists i, j :: 0 <= i < j < |groups| && groups[i].name == name && groups[j].name == name
  }

  /** studentRepository.findById */
  function StudentById(students: seq<Student>, id: int): (r: Option<Student>)
    ensures r.Some? ==> r.value in students && r.value.id == id
    ensures r.None? <==> !HasStudent(students, id)
  {
    Find(students, (s: Student) => s.id == id)
  }

  /** groupRepository.findById */
  function GroupById(groups: seq<Group>, id: int): (r: Option<Group>)
    ensures r.Some? ==> r.value in groups && r.value.id == id
    ensures r.None? <==> !HasGroup(groups, id)
  {
    Find(groups, (g: Group) => g.id == id)
  }

  /** groupRepository.findByName, a derived query returning an Optional: empty when no group
      has the name, the group when one has it, and IncorrectResultSizeDataAccessException
      when two or more have it. */
  function GroupByName(groups: seq<Group>, name: string): (r: Result<Option<Group>>)
    ensures r.Err? <==> GroupNameShared(groups, name)
    ensures r.Err? ==> r.error.NonUniqueResult? && r.error.actual > 1
    ensures r == Ok(None) <==> !HasGroupNamed(groups, name)
    ensures r.Ok? && r.value.Some? ==> r.value.value in groups && r.value.value.name == name
  {
    var named := Filter(groups, (g: Group) => g.name == name);
    FilterKeepsTwo(groups, (g: Group) => g.name == name);
    if |named| > 1 then Err(NonUniqueResult(|named|))
    else if named == [] then Ok(None)
    else assert named[0] in named; Ok(Some(named[0]))
  }

  /** A name that one group carries and no other picks out one row of the table. */
  lemma OnlyGroupNamed(groups: seq<Group>, name: string) returns (i: int)
    requires HasGroupNamed(groups, name) && !GroupNameShared(groups, name)
    ensures 0 <= i < |groups| && groups[i].name == name
    ensures forall k :: 0 <= k < |groups| && k != i ==> groups[k].name != name
  {
    var g :| g in groups && g.name == name;
    i :| 0 <= i < |groups| && groups[i] == g;
  }

  /** subjectRepository.findById */
  function SubjectById(subjects: seq<Subject>, id: int): (r: Option<Subject>)
    ensures r.Some? ==> r.value in subjects && r.value.id == id
    ensures r.None? <==> !HasSubject(subjects, id)
  {
    Find(subjects, (s: Subject) => s.id == id)
  }

  /** subjectRepository.findByName, a derived query returning an Optional: empty when no
      subject has the name, the subject when one has it, and
      IncorrectResultSizeDataAccessException when two or more have it. */
  function SubjectByName(subjects: seq<Subject>, name: string): (r: Result<Option<Subject>>)
    ensures r.Err? <==> SubjectNameShared(subjects, name)
    ensures r.Err? ==> r.error.NonUniqueResult? && r.error.actual > 1
    ensures r == Ok(None) <==> !HasSubjectNamed(subjects, name)
    ensures r.Ok? && r.value.Some? ==> r.value.value in subjects && r.value.value.name == name
  {
    var named := Filter(subjects, (s: Subject) => s.name == name);
    FilterKeepsTwo(subjects, (s: Subject) => s.name == name);
    if |named| > 1 then Err(NonUniqueResult(|named|))
    else if named == [] then Ok(None)
    else assert named[0] in named; Ok(Some(named[0]))
  }

  /** The subjects of a student, in subject table order (the join through student_subjects). */
  function SubjectsOfStudent(subjects: seq<Subject>, enrolments: set<(int, int)>, studentId: int): (r: seq<Subject>)
    ensures forall s :: s in r <==> s in subjects && (studentId, s.id) in enrolments
  {
    Filter(subjects, (s: Subject) => (studentId, s.id) in enrolments)
  }

  /** The students of a subject, in student table order. */
  function StudentsOfSubject(students: seq<Student>, enrolments: set<(int, int)>, subjectId: int): (r: seq<Student>)
    ensures forall s :: s in r <==> s in students && (s.id, subjectId) in enrolments
  {
    Filter(students, (s: Student) => (s.id, subjectId) in enrolments)
  }

  /** The relational store behind the repositories: one table per entity, the
      student_subjects join table, and one id sequence per table. */
  class Database {
    var students: seq<Student>
    var groups: seq<Group>
    var subjects: seq<Subject>
    var marks: seq<Mark>
    /** student_subjects: a pair (student id, subject id) per association. */
    var enrolments: set<(int, int)>
    var nextStudentId: int
    var nextGroupId: int
    var nextSubjectId: int
    var nextMarkId: int

    ghost predicate Valid()
      reads this
    {
      && IdsAscending(students, StudentId, nextStudentId)
      && IdsAscending(groups, GroupId, nextGroupId)
      && IdsAscending(subjects, SubjectId, nextSubjectId)
      && IdsAscending(marks, MarkId, nextMarkId)
    }

    constructor ()
      ensures Valid()
      ensures students == [] && groups == [] && subjects == [] && marks == [] && enrolments == {}
    {
      students, groups, subjects, marks, enrolments := [], [], [], [], {};
      nextStudentId, nextGroupId, nextSubjectId, nextMarkId := 1, 1, 1, 1;
    }
  }
}
