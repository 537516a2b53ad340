# Student records service layer, modelled in Dafny

The system is a Spring Boot application that keeps students, groups, subjects and marks.
Students belong to groups, take subjects and receive marks. This project models its five
service classes: `MarkServiceImpl`, `GroupServiceImpl`, `StudentServiceImpl`,
`StudentSubjectServiceImpl` and `SubjectServiceImpl`. Each service reads and writes a
relational store and keeps results in a Spring cache.

The model has two stateful parts.

- **The store** (`Entities.Database`) holds one table per entity. Each table is a `seq` in
  ascending id order. The `student_subjects` join table is a `set<(int, int)>` of
  (student id, subject id) pairs. Fresh ids come from one counter per table.
  `Database.Valid` requires every id to be positive, below its counter and strictly ascending.
- **The cache** (`Caching.CacheStore`) is a map from (region, key) to a tagged value.
  - A region is one of the cache names `marks`, `groups`, `students`, `studentSubjects`
    and `subjects`.
  - A key is the value of the annotation's SpEL expression. SpEL renders a null operand
    as the text `null`, so optional arguments become `Option`s printed that way.

Each service is a class holding references to the store and the cache. Its methods carry
the annotation semantics explicitly.

- `@Cacheable`:
  - On a hit, the method returns the cached object. If the cached value is of another
    type, it fails with `CachedValueOfOtherType`, the `ClassCastException` the caller
    would see.
  - On a miss, the method computes the result and stores it unless the `unless`
    condition holds.
- `@CachePut` stores the result after a successful call.
- `@CacheEvict` runs after a successful call and removes one key, or the whole region
  with `allEntries`.
- A call that throws changes neither the store nor the cache.

Each repository query is modelled as a specification function over the tables
(`QueryMarks`, `QueryGroups`, `QueryStudents`, `QuerySubjects`, `SubjectsOfStudent`, …).
The lemmas state what these functions compute and how the operations change them.
Some of them combine several calls, for example "after `addMark` the average is read
afresh and includes the new mark".

Modules, one per file: `Results`, `Text` (SpEL rendering, name ordering), `Seqs`,
`Entities`, `Caching`, and one module per service.

## Model

All source paths below are under `src/main/java/idespring/lab4/service/`, written out in full in the table.

| member | source | states |
|---|---|---|
| Caching.Without | src/main/java/idespring/lab4/service/markservice/MarkServiceImpl.java:103-104 | the single-key `@CacheEvict` of every service, cited at its first use: removes exactly that key and keeps every other entry and its value |
| Caching.WithoutRegion | src/main/java/idespring/lab4/service/markservice/MarkServiceImpl.java:83 | the `allEntries = true` eviction of every service, cited at its first use: removes exactly the entries of that region, others keep their values |
| Caching.EvictThenClear | src/main/java/idespring/lab4/service/markservice/MarkServiceImpl.java:103-106 | a general law of the two eviction forms, cited where a method combines them: evicting a key of a region and then clearing that region is the same as clearing it |
| MarkService.AvgStudentKeyInjective | src/main/java/idespring/lab4/service/markservice/MarkServiceImpl.java:76 | distinct students never share an `'avg-student-'` key |
| MarkService.AvgKeysDisjoint | src/main/java/idespring/lab4/service/markservice/MarkServiceImpl.java:76-96 | a student average key never equals a subject average key |
| MarkService.QueryMarks | src/main/java/idespring/lab4/service/markservice/MarkServiceImpl.java:46-60 | with both ids it fails (student-not-found first, else subject-not-found); otherwise the result holds exactly the marks matching the given student and/or subject |
| MarkService.MarksWithValue | src/main/java/idespring/lab4/service/markservice/MarkServiceImpl.java:67-73 | exactly the marks whose value is the given one |
| MarkService.AverageOf | src/main/java/idespring/lab4/service/markservice/MarkServiceImpl.java:75-80 | the SQL average is null iff there are no rows, otherwise counts every row |
| MarkService.StudentAverageAfterAdd | src/main/java/idespring/lab4/service/markservice/MarkServiceImpl.java:75-134 | adding a mark makes the student's average the old sum plus its value over the old count plus one |
| MarkService.SubjectAverageAfterAdd | src/main/java/idespring/lab4/service/markservice/MarkServiceImpl.java:95-134 | the same for the subject's average |
| MarkService.StudentAverageUnrelatedAdd | src/main/java/idespring/lab4/service/markservice/MarkServiceImpl.java:75-80 | a mark of another student leaves a student's average unchanged |
| MarkService.MarkServiceImpl.ReadMarks | src/main/java/idespring/lab4/service/markservice/MarkServiceImpl.java:37-65 | a hit returns the cached list; a miss returns `QueryMarks` and caches it only when non-empty |
| MarkService.MarkServiceImpl.FindByValue | src/main/java/idespring/lab4/service/markservice/MarkServiceImpl.java:67-73 | cached read of `MarksWithValue` under `'value-'+value`, empty lists not cached |
| MarkService.MarkServiceImpl.GetAverageMarkByStudentId | src/main/java/idespring/lab4/service/markservice/MarkServiceImpl.java:75-80 | cached read of the student's average, a null average is not cached |
| MarkService.MarkServiceImpl.GetAverageMarkBySubjectId | src/main/java/idespring/lab4/service/markservice/MarkServiceImpl.java:95-100 | cached read of the subject's average, a null average is not cached |
| MarkService.MarkServiceImpl.AddMark | src/main/java/idespring/lab4/service/markservice/MarkServiceImpl.java:102-134 | fails, changing nothing, in this order: "Student not found with id: " for a missing student, "Subject not found with id: " for a missing subject, `SubjectNotAssigned` when the student is not enrolled in the subject; otherwise appends the mark under a fresh id, keeps the tables valid, clears the marks region, and so both average keys are gone |
| MarkService.MarkServiceImpl.DeleteMarkSpecific | src/main/java/idespring/lab4/service/markservice/MarkServiceImpl.java:82-93 | fails with "Mark not found with the given criteria." iff no mark matches; otherwise removes exactly the matching marks and clears the region |
| MarkService.MarkServiceImpl.DeleteMark | src/main/java/idespring/lab4/service/markservice/MarkServiceImpl.java:136-145 | removes exactly the mark with that id (none if absent) and clears the region |
| MarkService.AverageAfterAddMark | src/main/java/idespring/lab4/service/markservice/MarkServiceImpl.java:75-107 | after a successful addMark the student's average read is the old sum plus the value over the old count plus one, never a stale cached one |
| GroupService.ListingMatchesLiteral | src/main/java/idespring/lab4/service/groupservice/GroupServiceImpl.java:34-90 | the evicted key `'allGroups*'` equals a listing key only for the arguments ("", "*") and ("*", "") |
| GroupService.ListingKeys | src/main/java/idespring/lab4/service/groupservice/GroupServiceImpl.java:34-69 | listing keys start with `allGroups`; id and name keys do not |
| GroupService.WithoutListings | src/main/java/idespring/lab4/service/groupservice/GroupServiceImpl.java:90 | the intended eviction: removes exactly the listing keys, other entries keep their values |
| GroupService.QueryGroups | src/main/java/idespring/lab4/service/groupservice/GroupServiceImpl.java:40-47 | with a pattern: exactly the groups whose name contains it; with sort "asc": the groups sorted by name, a permutation; otherwise all groups |
| GroupService.FoundStudents | src/main/java/idespring/lab4/service/groupservice/GroupServiceImpl.java:102 | exactly the stored students whose id was requested |
| GroupService.MissingIds | src/main/java/idespring/lab4/service/groupservice/GroupServiceImpl.java:105-109 | exactly the requested ids that have no student, each as often as requested, in request order (a subsequence of the request) |
| GroupService.FoundCount | src/main/java/idespring/lab4/service/groupservice/GroupServiceImpl.java:102-104 | the number of students found is the number of distinct requested ids that exist |
| GroupService.RejectsAsIntendedOnDistinctIds | src/main/java/idespring/lab4/service/groupservice/GroupServiceImpl.java:104-112 | for requests without repeated ids the count test rejects iff some id is missing |
| GroupService.RepeatedIdRejected | src/main/java/idespring/lab4/service/groupservice/GroupServiceImpl.java:104-112 | with ids [1, 1] and student 1 stored, the count test rejects while no id is missing |
| GroupService.AssignGroupKeepsIds | src/main/java/idespring/lab4/service/groupservice/GroupServiceImpl.java:115-118 | assigning a group keeps the student ids, names and ages and the table valid |
| GroupService.AssignGroupMembers | src/main/java/idespring/lab4/service/groupservice/GroupServiceImpl.java:98-119 | after assignment a student is in the new group iff its id was requested |
| GroupService.GroupServiceImpl.ReadGroups | src/main/java/idespring/lab4/service/groupservice/GroupServiceImpl.java:33-52 | cached read of `QueryGroups`, empty listings not cached |
| GroupService.GroupServiceImpl.FindById | src/main/java/idespring/lab4/service/groupservice/GroupServiceImpl.java:54-66 | cached read by id; a missing group fails with "Group not found with id: " and caches nothing |
| Entities.GroupByName | src/main/java/idespring/lab4/service/groupservice/GroupServiceImpl.java:131-132 | the `Optional` finder: empty iff no group has the name, an `IncorrectResultSizeDataAccessException` (`NonUniqueResult`, more than one row) iff two groups share it, otherwise a group of that name |
| GroupService.GroupServiceImpl.FindByName | src/main/java/idespring/lab4/service/groupservice/GroupServiceImpl.java:68-81 | cached read under `'name_'+name`; a missing group fails with "Group not found with name: ", a name two groups share fails with `NonUniqueResult`; neither failure is cached |
| GroupService.GroupServiceImpl.AssignStudents | src/main/java/idespring/lab4/service/groupservice/GroupServiceImpl.java:115-118 | the loop leaves the student table equal to `AssignGroup` of the old one |
| GroupService.GroupServiceImpl.AddGroup | src/main/java/idespring/lab4/service/groupservice/GroupServiceImpl.java:83-125 | fails with the missing ids iff the count test rejects, changing nothing; otherwise saves the group under a fresh id, assigns the students, caches it by id and name and evicts only the literal `'allGroups*'` |
| GroupService.GroupServiceImpl.AddGroupCorrected | src/main/java/idespring/lab4/service/groupservice/GroupServiceImpl.java:83-125 | as AddGroup, but rejects iff some requested id is missing and evicts every listing |
| GroupService.GroupServiceImpl.EvictGroupCaches | src/main/java/idespring/lab4/service/groupservice/GroupServiceImpl.java:162-170 | removes the id key, the name key and the literal `'allGroups*'` key |
| GroupService.GroupServiceImpl.DeleteGroup | src/main/java/idespring/lab4/service/groupservice/GroupServiceImpl.java:135-147 | fails with "Group with ID … not found" iff absent; otherwise removes exactly that group; the cache is unchanged because the eviction is a self-call |
| GroupService.GroupServiceImpl.DeleteGroupEvicting | src/main/java/idespring/lab4/service/groupservice/GroupServiceImpl.java:135-170 | as DeleteGroup, and on success the cache is exactly the old one without the group's id key, its name key and every listing |
| GroupService.GroupServiceImpl.DeleteGroupByName | src/main/java/idespring/lab4/service/groupservice/GroupServiceImpl.java:149-160 | fails with "Group with name … not found" when no group has that name and with `NonUniqueResult` when two groups share it, changing nothing; otherwise removes exactly the one row of that name; cache unchanged |
| GroupService.GroupServiceImpl.DeleteGroupByNameEvicting | src/main/java/idespring/lab4/service/groupservice/GroupServiceImpl.java:149-170 | as DeleteGroupByName (both failures change neither store nor cache, success removes exactly one row), and on success the cache is exactly the old one without the found group's id key, the name key and every listing |
| GroupService.DeletedGroupStillFound | src/main/java/idespring/lab4/service/groupservice/GroupServiceImpl.java:54-147 | findById, deleteGroup, findById: the second lookup still returns the deleted group |
| GroupService.DeletedGroupNotFound | src/main/java/idespring/lab4/service/groupservice/GroupServiceImpl.java:54-147 | with the corrected delete the second lookup fails with "Group not found with id: " |
| GroupService.ListingStaleAfterAdd | src/main/java/idespring/lab4/service/groupservice/GroupServiceImpl.java:33-125 | readGroups, addGroup, readGroups: the second listing equals the first and lacks the new group |
| GroupService.ListingFreshAfterAdd | src/main/java/idespring/lab4/service/groupservice/GroupServiceImpl.java:33-125 | with the corrected add the second listing holds exactly the stored groups |
| StudentService.ListingKeysDisjoint | src/main/java/idespring/lab4/service/studservice/StudentServiceImpl.java:32-61 | a student listing key never equals a group listing key |
| StudentService.GroupListKeyInjective | src/main/java/idespring/lab4/service/studservice/StudentServiceImpl.java:61 | distinct group ids (or null) give distinct `'group-'` keys |
| StudentService.QueryStudents | src/main/java/idespring/lab4/service/studservice/StudentServiceImpl.java:40-53 | an id wins: that one student or "Student not found with id: "; else an age filters exactly the students of that age; a sort orders by name as a permutation; no argument gives all |
| StudentService.StudentsOfGroup | src/main/java/idespring/lab4/service/studservice/StudentServiceImpl.java:60-66 | exactly the students whose group is the given one (null selects those without group) |
| StudentService.BoundMarks | src/main/java/idespring/lab4/service/studservice/StudentServiceImpl.java:94-96 | one mark per submitted mark, in order: the k-th has id firstId + k, the k-th form's value and subject, and the new student |
| StudentService.AppendBoundKeepsIds | src/main/java/idespring/lab4/service/studservice/StudentServiceImpl.java:94-99 | appending the bound marks with fresh ids keeps the mark table valid |
| StudentService.SubjectIds | src/main/java/idespring/lab4/service/studservice/StudentServiceImpl.java:89-92 | the distinct non-null subject ids submitted |
| StudentService.PairsWith | src/main/java/idespring/lab4/service/studservice/StudentServiceImpl.java:101-103 | exactly the pairs of the student with each listed subject |
| StudentService.Enrolled | src/main/java/idespring/lab4/service/studservice/StudentServiceImpl.java:89-103 | exactly the pairs of the new student with each submitted subject id |
| StudentService.UpdateRow | src/main/java/idespring/lab4/service/studservice/StudentServiceImpl.java:117 | every row with the id gets the new name and age and keeps its id and group; every other row is unchanged |
| StudentService.UpdateRowFound | src/main/java/idespring/lab4/service/studservice/StudentServiceImpl.java:117 | when the id exists, its row carries the new name and age |
| StudentService.WithoutStudent | src/main/java/idespring/lab4/service/studservice/StudentServiceImpl.java:121-135 | exactly the enrolments of other students |
| StudentService.StudentServiceImpl.ReadStudents | src/main/java/idespring/lab4/service/studservice/StudentServiceImpl.java:31-58 | cached read of `QueryStudents` under `age-sort-id`, empty and failed results not cached |
| StudentService.StudentServiceImpl.FindByGroupId | src/main/java/idespring/lab4/service/studservice/StudentServiceImpl.java:60-66 | cached read of `StudentsOfGroup` under `'group-'+groupId`, empty lists not cached |
| StudentService.StudentServiceImpl.FindById | src/main/java/idespring/lab4/service/studservice/StudentServiceImpl.java:68-80 | cached read by id; a missing student fails with "Student not found with id: " and caches nothing |
| StudentService.StudentServiceImpl.BindMarks | src/main/java/idespring/lab4/service/studservice/StudentServiceImpl.java:94-96 | the loop produces `BoundMarks` |
| StudentService.StudentServiceImpl.EnrolAll | src/main/java/idespring/lab4/service/studservice/StudentServiceImpl.java:101-103 | the loop adds exactly `PairsWith` to the enrolments |
| StudentService.StudentServiceImpl.AddStudent | src/main/java/idespring/lab4/service/studservice/StudentServiceImpl.java:82-108 | appends the student under a fresh id with its marks and enrolments, keeps the tables valid, caches it by id and clears the studentSubjects and marks regions |
| StudentService.StudentServiceImpl.UpdateStudent | src/main/java/idespring/lab4/service/studservice/StudentServiceImpl.java:110-119 | updates name and age of that row only; evicts the id key and `'group-'+id` |
| StudentService.StudentServiceImpl.UpdateStudentEvicting | src/main/java/idespring/lab4/service/studservice/StudentServiceImpl.java:110-119 | as UpdateStudent, but the cache is exactly the old one without the id key and, when the student exists, the listing of its own group |
| StudentService.StudentServiceImpl.DeleteStudent | src/main/java/idespring/lab4/service/studservice/StudentServiceImpl.java:121-135 | fails with "Student not found with id: " iff absent; otherwise removes the student, its marks and its enrolments, evicts its id key and clears the marks and studentSubjects regions |
| StudentService.GroupListingStaleAfterUpdate | src/main/java/idespring/lab4/service/studservice/StudentServiceImpl.java:60-119 | findByGroupId, updateStudent, findByGroupId: the listing still shows the old row |
| StudentService.GroupListingFreshAfterUpdate | src/main/java/idespring/lab4/service/studservice/StudentServiceImpl.java:60-119 | with the corrected update the listing shows the new name |
| StudentSubjectService.RelationKeysDisjoint | src/main/java/idespring/lab4/service/studentsubjserv/StudentSubjectServiceImpl.java:66-110 | the four key families never collide |
| StudentSubjectService.PairError | src/main/java/idespring/lab4/service/studentsubjserv/StudentSubjectServiceImpl.java:37-43 | no error iff both exist; a missing student is reported before a missing subject |
| StudentSubjectService.SubjectsAfterAdd | src/main/java/idespring/lab4/service/studentsubjserv/StudentSubjectServiceImpl.java:33-77 | after enrolment the subject is among the student's subjects and none is lost |
| StudentSubjectService.SubjectsAfterRemove | src/main/java/idespring/lab4/service/studentsubjserv/StudentSubjectServiceImpl.java:49-77 | after removal the student's subjects are the old ones except that subject |
| StudentSubjectService.StudentSubjectServiceImpl.AddSubjectToStudent | src/main/java/idespring/lab4/service/studentsubjserv/StudentSubjectServiceImpl.java:33-47 | fails as `PairError` says, changing nothing; otherwise adds the pair and clears both regions |
| StudentSubjectService.StudentSubjectServiceImpl.RemoveSubjectFromStudent | src/main/java/idespring/lab4/service/studentsubjserv/StudentSubjectServiceImpl.java:49-63 | fails as `PairError` says; otherwise removes the pair and clears both regions |
| StudentSubjectService.StudentSubjectServiceImpl.GetSubjectsByStudent | src/main/java/idespring/lab4/service/studentsubjserv/StudentSubjectServiceImpl.java:65-77 | cached read of the student's subjects; never fails; an empty list is not cached |
| StudentSubjectService.StudentSubjectServiceImpl.GetStudentsBySubject | src/main/java/idespring/lab4/service/studentsubjserv/StudentSubjectServiceImpl.java:79-92 | cached read of the subject's students; a missing subject fails |
| StudentSubjectService.StudentSubjectServiceImpl.FindStudentWithSubjects | src/main/java/idespring/lab4/service/studentsubjserv/StudentSubjectServiceImpl.java:94-107 | cached read of the student together with its subjects |
| StudentSubjectService.StudentSubjectServiceImpl.FindSubjectWithStudents | src/main/java/idespring/lab4/service/studentsubjserv/StudentSubjectServiceImpl.java:109-122 | cached read of the subject together with its students |
| StudentSubjectService.ListAfterAdd | src/main/java/idespring/lab4/service/studentsubjserv/StudentSubjectServiceImpl.java:33-77 | after adding a subject the student's subject list read holds it |
| StudentSubjectService.ListAfterRemove | src/main/java/idespring/lab4/service/studentsubjserv/StudentSubjectServiceImpl.java:49-77 | after removing a subject the student's subject list read lacks it |
| SubjectService.QuerySubjects | src/main/java/idespring/lab4/service/subjectservice/SubjectServiceImpl.java:38-44 | with a pattern: exactly the subjects whose name contains it; with sort "asc": sorted by name, a permutation; otherwise all |
| SubjectService.NameKeyMeetsExistsKey | src/main/java/idespring/lab4/service/subjectservice/SubjectServiceImpl.java:29-131 | the name key of "exists-"+n is the exists key of n, and the name "null-default" is the unfiltered listing key |
| SubjectService.KeyedKeysDisjoint | src/main/java/idespring/lab4/service/subjectservice/SubjectServiceImpl.java:66-131 | prefixed name and exists keys never collide with each other and are injective |
| SubjectService.ListingKeyCollisions | src/main/java/idespring/lab4/service/subjectservice/SubjectServiceImpl.java:29-66 | a listing key p + "-" + s equals the name key of a subject called p + "-" + s, the exists key of s under pattern "exists", and also the prefixed name and exists keys for patterns starting "name:" or "exists:" |
| SubjectService.KeyedListingDisjoint | src/main/java/idespring/lab4/service/subjectservice/SubjectServiceImpl.java:29-131 | a listing key with its own prefix never meets a prefixed name or exists key |
| SubjectService.SubjectServiceImpl.ReadSubjects | src/main/java/idespring/lab4/service/subjectservice/SubjectServiceImpl.java:28-49 | cached read of `QuerySubjects`, empty listings not cached |
| SubjectService.SubjectServiceImpl.FindById | src/main/java/idespring/lab4/service/subjectservice/SubjectServiceImpl.java:51-63 | cached read by id; a missing subject fails with "Subject not found with id: " |
| Entities.SubjectByName | src/main/java/idespring/lab4/service/subjectservice/SubjectServiceImpl.java:71-73 | the `Optional` finder: empty iff no subject has the name, `NonUniqueResult` iff two subjects share it, otherwise a subject of that name |
| SubjectService.SubjectServiceImpl.FindByName | src/main/java/idespring/lab4/service/subjectservice/SubjectServiceImpl.java:65-78 | cached read under the bare name; a missing subject fails with "Subject not found with name: ", a name two subjects share fails with `NonUniqueResult`; neither failure is cached |
| SubjectService.SubjectServiceImpl.AddSubject | src/main/java/idespring/lab4/service/subjectservice/SubjectServiceImpl.java:80-99 | appends the subject under a fresh id, caches it by id and name and evicts its exists key |
| SubjectService.SubjectServiceImpl.DeleteSubject | src/main/java/idespring/lab4/service/subjectservice/SubjectServiceImpl.java:101-111 | fails with "Subject not found with id: " iff absent; otherwise removes it and evicts only its id key |
| SubjectService.SubjectServiceImpl.DeleteSubjectByName | src/main/java/idespring/lab4/service/subjectservice/SubjectServiceImpl.java:113-128 | fails with "Subject not found with name: " iff no subject has the name; otherwise removes them and evicts the name and exists keys |
| SubjectService.SubjectServiceImpl.ExistsByName | src/main/java/idespring/lab4/service/subjectservice/SubjectServiceImpl.java:130-135 | cached read of whether a subject has the name, always cached |
| SubjectService.SubjectServiceImpl.FindByNameKeyed | src/main/java/idespring/lab4/service/subjectservice/SubjectServiceImpl.java:65-78 | as FindByName under the prefixed key `name:` |
| SubjectService.SubjectServiceImpl.ExistsByNameKeyed | src/main/java/idespring/lab4/service/subjectservice/SubjectServiceImpl.java:130-135 | as ExistsByName under the prefixed key `exists:` |
| SubjectService.ExistsAfterDeleteByName | src/main/java/idespring/lab4/service/subjectservice/SubjectServiceImpl.java:113-135 | after a successful delete by name, existsByName answers false |
| SubjectService.ExistsAfterFindByName | src/main/java/idespring/lab4/service/subjectservice/SubjectServiceImpl.java:65-135 | findByName("exists-"+n) then existsByName(n) fails with a cached value of the wrong type |
| SubjectService.ExistsAfterFindByNameKeyed | src/main/java/idespring/lab4/service/subjectservice/SubjectServiceImpl.java:65-135 | with prefixed keys the same sequence answers whether a subject named n exists |
| SubjectService.SubjectServiceImpl.AddSubjectKeyed | src/main/java/idespring/lab4/service/subjectservice/SubjectServiceImpl.java:80-99 | as AddSubject with the prefixed keys: puts by id and prefixed name, evicts the prefixed exists key |
| SubjectService.SubjectServiceImpl.DeleteSubjectByNameKeyed | src/main/java/idespring/lab4/service/subjectservice/SubjectServiceImpl.java:113-128 | as DeleteSubjectByName with the prefixed keys: NotFound iff no such name; otherwise removes the rows and evicts the prefixed name and exists keys |
| SubjectService.ExistsAfterAddKeyed | src/main/java/idespring/lab4/service/subjectservice/SubjectServiceImpl.java:80-135 | with the prefixed keys, existsByName after addSubject answers true even when false was cached before |
| SubjectService.ExistsAfterDeleteByNameKeyed | src/main/java/idespring/lab4/service/subjectservice/SubjectServiceImpl.java:113-135 | with the prefixed keys, existsByName after a successful delete by name answers false |
| SubjectService.SubjectServiceImpl.ReadSubjectsKeyed | src/main/java/idespring/lab4/service/subjectservice/SubjectServiceImpl.java:28-49 | as ReadSubjects under the prefixed listing key `list:` |
| SubjectService.ListingAfterFindByName | src/main/java/idespring/lab4/service/subjectservice/SubjectServiceImpl.java:28-78 | findByName(p + "-" + s) then readSubjects(p, s) fails with a cached value of the wrong type |
| SubjectService.ListingAfterFindByNameKeyed | src/main/java/idespring/lab4/service/subjectservice/SubjectServiceImpl.java:28-78 | with prefixed listing and name keys the same calls return the query's listing |

## Left out

- Logging and the `System.nanoTime` timing in the service methods: these have no effect on state.
- The repository and Hibernate internals are not part of this model. The queries are
  modelled from their names and call sites:
  - The criteria of the specific mark delete are an equality match on student, subject
    name, value and, when given, id.
  - The "asc" sort is an ascending name order by code point.
  - The custom student sort is modelled as ascending by name; its real direction is not captured.
- Averages are exact sum/count pairs. The floating-point `Double` rounding is not modelled.
- Controllers, service interfaces, transactions, concurrency and the Spring proxy machinery
  are left out. Only their effect on which annotations apply is modelled.
- Null arguments are modelled only where the source handles them (optional query arguments,
  `findByGroupId(null)`). Other ids are plain integers. A null student id list in addGroup
  is treated as an empty one.
- GroupService.GroupServiceImpl.AddGroup: the error carries the list of missing ids. The Russian message text built around that list is not reproduced.
- Foreign-key and unique constraints are left out:
  - Deleting a group or subject leaves the rows that reference it.
  - Adding an existing enrolment is a set union.
- Persisting an entity that already carries an id (a merge) is not modelled. Saves always
  assign a fresh id.
- StudentService.StudentServiceImpl.AddStudent: assumes the cascade. Marks attached to the
  submitted student are persisted with it, and deleting a student removes its marks.
- StudentService.SubjectIds: a Java `HashSet` has no defined iteration order. The model
  keeps first-occurrence order, which only affects the order enrolments are added.
- Entities.GroupByName and Entities.SubjectByName: the `findByName` finders return an
  `Optional`, so a name two rows share makes them throw `IncorrectResultSizeDataAccessException`.
  The model carries the number of rows found in `NonUniqueResult`. The exception message is
  not reproduced.
- SubjectService.SubjectServiceImpl.ReadSubjects: the listing key `p-s` shares the subjects
  region with the name and exists keys. It meets the bare name key of any subject whose name
  contains '-' (`null-default` is one case), and the exists key of s under pattern "exists".
  SubjectService.ListingKeyCollisions states these equalities, and the last Findings row
  records the collision with a subject name. The listing/exists collision is stated, not
  exhibited by a scenario.
- SubjectService.SubjectServiceImpl.DeleteSubject evicts only the id key, as written. The
  name and exists entries of the deleted subject stay cached. This is stated in its
  contract, not corrected.

## Findings

| source | as written | input that shows it | evidently intended | confidence | as-written member | corrected member |
|---|---|---|---|---|---|---|
| src/main/java/idespring/lab4/service/groupservice/GroupServiceImpl.java:144 | deleteGroup and deleteGroupByName (line 157) call the annotated `evictGroupCaches` on `this`, so the proxy never sees the call and nothing is evicted | findById(1) caches group 1; deleteGroup(1); findById(1) still returns the deleted group | evict the group's id and name keys and the listings | not executed | GroupService.DeletedGroupStillFound | GroupService.GroupServiceImpl.DeleteGroupEvicting |
| src/main/java/idespring/lab4/service/groupservice/GroupServiceImpl.java:90 | `@CacheEvict(key = "'allGroups*'")` evicts one literal key; Spring cache keys have no wildcards | readGroups(null, null) caches a listing; addGroup("G", []); readGroups(null, null) returns the old listing without G | evict every `allGroups` listing | not executed | GroupService.ListingStaleAfterAdd | GroupService.ListingFreshAfterAdd |
| src/main/java/idespring/lab4/service/groupservice/GroupServiceImpl.java:104 | compares the number of students found with the number of ids, so a repeated id rejects a valid request | student 1 stored, addGroup("G", [1, 1]) fails with students-not-found listing no missing id | reject only when some requested id has no student | not executed | GroupService.RepeatedIdRejected | GroupService.GroupServiceImpl.AddGroupCorrected |
| src/main/java/idespring/lab4/service/studservice/StudentServiceImpl.java:113 | updateStudent evicts `'group-' + #id` with the student's id, not its group's id | student 1 in group 2; findByGroupId(2); updateStudent("New", 20, 1); findByGroupId(2) still shows the old name | evict the listing of the student's group | not executed | StudentService.GroupListingStaleAfterUpdate | StudentService.StudentServiceImpl.UpdateStudentEvicting |
| src/main/java/idespring/lab4/service/subjectservice/SubjectServiceImpl.java:66 | findByName caches under the bare name, in the same region as `'exists-' + #name` (line 131) | subject "exists-Math" stored; findByName("exists-Math"); existsByName("Math") reads a Subject where a Boolean is expected | keep the name keys and exists keys apart, in the reads and in the evictions of addSubject and deleteSubjectByName | not executed | SubjectService.ExistsAfterFindByName | SubjectService.ExistsAfterFindByNameKeyed |
| src/main/java/idespring/lab4/service/subjectservice/SubjectServiceImpl.java:29-30 | readSubjects caches under `#namePattern + '-' + sort` in the region where findByName caches under the bare name (line 66) | subject "Pre-Calculus" stored; findByName("Pre-Calculus"); readSubjects("Pre", "Calculus") reads a Subject where a List is expected | give listings their own key space | not executed | SubjectService.ListingAfterFindByName | SubjectService.ListingAfterFindByNameKeyed |
