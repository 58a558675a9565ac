/** The lecturer side (controllers/lecturerController.js): the catalog
    filter `getAssignedCourses`, result upload, score edits and the
    course-ownership check of `getCourseResults`. */
module LecturerController {
  import opened Wrappers
  import opened Seqs
  import opened Catalog
  import opened Records
  import opened StudentController
  import AdminController

  // Assigned courses (lines 8-13).

  function LecturerIs(name: string): Course -> bool { (c: Course) => c.lecturer == Some(name) }

  /** The catalog courses whose `lecturer` is the given name, department by
      department, level by level, semester by semester (see
      AssignedCoursesAsWritten for the code as it stands). */
  function AssignedCourses(cat: Catalog, name: string): (r: seq<Course>)
    ensures forall c :: c in r ==> c in AllCourses(cat) && c.lecturer == Some(name)
    ensures forall c :: c in AllCourses(cat) && c.lecturer == Some(name) ==> c in r
  {
    Filter(AllCourses(cat), LecturerIs(name))
  }

  /** Traversal order: the courses of earlier departments come first. */
  lemma AssignedCoursesAppend(a: Catalog, b: Catalog, name: string)
    ensures AssignedCourses(a + b, name) == AssignedCourses(a, name) + AssignedCourses(b, name)
  {
    SemesterListsAppend(a, b);
    FlattenAppend(SemesterLists(a), SemesterLists(b));
    FilterAppend(AllCourses(a), AllCourses(b), LecturerIs(name));
  }

  /** A semester list is an array: it has no `lecturer` property. */
  function ListLecturer(list: seq<Course>): Option<string> { None }

  function ListLecturerIs(name: string): seq<Course> -> bool
  {
    (list: seq<Course>) => ListLecturer(list) == Some(name)
  }

  /** `getAssignedCourses` as written: after two `flatMap`s over
      `Object.values` the elements are the semester arrays themselves, and
      the filter compares their (undefined) `lecturer` with the name. */
  function AssignedCoursesAsWritten(cat: Catalog, name: string): seq<seq<Course>>
  {
    Filter(SemesterLists(cat), ListLecturerIs(name))
  }

  /** As written, no lecturer with a name is taught anything. */
  lemma AssignedCoursesAsWrittenEmpty(cat: Catalog, name: string)
    ensures AssignedCoursesAsWritten(cat, name) == []
  {
    FilterNone(SemesterLists(cat), ListLecturerIs(name));
  }

  /** One catalog, one course taught by "Dr Bello": the code as written
      finds nothing, the intended filter finds that course. */
  lemma AssignedCoursesAsWrittenMisses()
    ensures var c := Course("CSC 101", "Intro", 3, Some("Dr Bello"), Some("c1"));
            var cat := [DepartmentEntry("CSC", [LevelEntry("100 Level", [SemesterEntry("First Semester", [c])])])];
            AssignedCoursesAsWritten(cat, "Dr Bello") == [] && AssignedCourses(cat, "Dr Bello") == [c]
  {
    var c := Course("CSC 101", "Intro", 3, Some("Dr Bello"), Some("c1"));
    var cat := [DepartmentEntry("CSC", [LevelEntry("100 Level", [SemesterEntry("First Semester", [c])])])];
    AssignedCoursesAsWrittenEmpty(cat, "Dr Bello");
    SingleSemesterCatalog("CSC", "100 Level", "First Semester", [c]);
    assert LecturerIs("Dr Bello")(c);
  }

  // Upload (lines 112-145).

  /** One element of `req.body.results`. */
  datatype UploadEntry = UploadEntry(studentId: string, courseCode: string, testScore: real, examScore: real, gpa: real)

  function EntryStudent(students: seq<Student>, e: UploadEntry): Option<Student>
  {
    Find(students, HasStudentId(e.studentId))
  }

  function EntryCourse(taught: seq<Course>, e: UploadEntry): Option<Course>
  {
    Find(taught, CodeIs(e.courseCode))
  }

  /** The entry names a known student and an taught course code. */
  predicate Accepted(students: seq<Student>, taught: seq<Course>, e: UploadEntry)
  {
    EntryStudent(students, e).Some? && EntryCourse(taught, e).Some?
  }

  function Accepts(students: seq<Student>, taught: seq<Course>): UploadEntry -> bool
  {
    (e: UploadEntry) => Accepted(students, taught, e)
  }

  /** Lines 129-137: scores and gpa from the entry, term from the student,
      course from the catalog entry; the flags start false and no
      `courseCode` is stored. */
  function MakeRecord(s: Student, c: Course, e: UploadEntry): ResultRecord
  {
    ResultRecord(e.studentId, c.id, None, e.testScore, e.examScore, e.gpa, s.currentSemester, s.currentLevel, false, false, false)
  }

  /** The record an accepted entry creates. */
  function RecordOf(students: seq<Student>, taught: seq<Course>, e: UploadEntry): ResultRecord
    requires Accepted(students, taught, e)
  {
    MakeRecord(EntryStudent(students, e).value, EntryCourse(taught, e).value, e)
  }

  /** One pass of the loop body: nothing for a skipped entry. */
  function EntryRecords(students: seq<Student>, taught: seq<Course>, e: UploadEntry): seq<ResultRecord>
  {
    match EntryStudent(students, e)
    case None => []
    case Some(s) =>
      match EntryCourse(taught, e)
      case None => []
      case Some(c) => [MakeRecord(s, c, e)]
  }

  /** The records the loop creates, in entry order. */
  function UploadedRecords(students: seq<Student>, taught: seq<Course>, entries: seq<UploadEntry>): seq<ResultRecord>
  {
    if entries == [] then []
    else UploadedRecords(students, taught, entries[..|entries| - 1])
         + EntryRecords(students, taught, entries[|entries| - 1])
  }

  lemma UploadedRecordsStep(students: seq<Student>, taught: seq<Course>, entries: seq<UploadEntry>, i: nat)
    requires i < |entries|
    ensures UploadedRecords(students, taught, entries[..i + 1])
            == UploadedRecords(students, taught, entries[..i]) + EntryRecords(students, taught, entries[i])
  {
    assert entries[..i + 1][..i] == entries[..i];
  }

  /** Exactly one record per accepted entry, in entry order: the n-th record
      is the one the n-th accepted entry describes. */
  lemma {:induction false} UploadedRecordsMatchEntries(students: seq<Student>, taught: seq<Course>, entries: seq<UploadEntry>)
    ensures var recs := UploadedRecords(students, taught, entries);
            var accepted := Filter(entries, Accepts(students, taught));
            |recs| == |accepted| &&
            forall n :: 0 <= n < |recs| ==> Accepted(students, taught, accepted[n]) && recs[n] == RecordOf(students, taught, accepted[n])
  {
    if entries != [] {
      var init, last := entries[..|entries| - 1], entries[|entries| - 1];
      assert entries == init + [last];
      UploadedRecordsMatchEntries(students, taught, init);
      FilterAppend(init, [last], Accepts(students, taught));
      var recs0, acc0 := UploadedRecords(students, taught, init), Filter(init, Accepts(students, taught));
      var recs1, acc1 := EntryRecords(students, taught, last), Filter([last], Accepts(students, taught));
      assert UploadedRecords(students, taught, entries) == recs0 + recs1;
      assert Filter(entries, Accepts(students, taught)) == acc0 + acc1;
      if Accepted(students, taught, last) {
        assert last in acc1;
        assert acc1 == [last];
        assert recs1 == [RecordOf(students, taught, last)];
      } else {
        FilterNone([last], Accepts(students, taught));
        assert recs1 == [];
      }
    }
  }

  /** No uploaded record is released or counted in a GPA yet. */
  lemma UploadedRecordsFresh(students: seq<Student>, taught: seq<Course>, entries: seq<UploadEntry>)
    ensures forall r :: r in UploadedRecords(students, taught, entries) ==>
              !r.released && !r.isReleased && !r.isGpaCalculated && r.courseCode.None?
  {
    UploadedRecordsMatchEntries(students, taught, entries);
  }

  /** Uploaded records carry no `courseCode`, so `getGPA` counts no units
      for them and their semester GPA is 0. */
  lemma UploadedRecordsGpaZero(students: seq<Student>, taught: seq<Course>, entries: seq<UploadEntry>,
                               cat: Catalog, department: string, level: string, semester: string)
    ensures SemesterGpa(UploadedRecords(students, taught, entries), cat, department, level, semester) == 0.0
  {
    UploadedRecordsFresh(students, taught, entries);
    NoCodeGpaZero(UploadedRecords(students, taught, entries), cat, department, level, semester);
  }

  /** What a created record holds: the entry's scores and gpa, the term the
      student is in, and the course's id. */
  lemma RecordOfFields(students: seq<Student>, taught: seq<Course>, e: UploadEntry)
    requires Accepted(students, taught, e)
    ensures var r := RecordOf(students, taught, e);
            var s := EntryStudent(students, e).value;
            && s.id == e.studentId && s in students
            && r.student == e.studentId && r.testScore == e.testScore && r.examScore == e.examScore && r.gpa == e.gpa
            && r.semester == s.currentSemester && r.level == s.currentLevel
            && r.course == EntryCourse(taught, e).value.id
            && EntryCourse(taught, e).value in taught && EntryCourse(taught, e).value.code == e.courseCode
  {
  }

  datatype UploadOutcome = UploadOutcome(reply: Outcome<()>, results: seq<ResultRecord>)

  /** `uploadCourseResults` for the lecturer with document id lecturerId. */
  function Upload(lecturers: seq<Lecturer>, students: seq<Student>, cat: Catalog, results: seq<ResultRecord>,
                  lecturerId: string, entries: seq<UploadEntry>): (r: UploadOutcome)
    ensures r.reply.Fail? ==> r.reply.error == NotFound && r.results == results
    ensures r.reply.Fail? <==>
              LecturerById(lecturers, lecturerId).None? ||
              AssignedCourses(cat, LecturerById(lecturers, lecturerId).value.fullName) == []
    ensures r.reply.Ok? ==>
              r.results == results + UploadedRecords(students, AssignedCourses(cat, LecturerById(lecturers, lecturerId).value.fullName), entries)
  {
    match LecturerById(lecturers, lecturerId)
    case None => UploadOutcome(Fail(NotFound), results)
    case Some(l) =>
      var taught := AssignedCourses(cat, l.fullName);
      if taught == [] then UploadOutcome(Fail(NotFound), results)
      else UploadOutcome(Ok(()), results + UploadedRecords(students, taught, entries))
  }

  /** The loop of lines 122-138: one new record per entry whose student and
      course are found, appended in entry order. */
  method CreateResults(students: seq<Student>, taught: seq<Course>, entries: seq<UploadEntry>, results: seq<ResultRecord>)
    returns (created: seq<ResultRecord>)
    ensures created == results + UploadedRecords(students, taught, entries)
  {
    created := results;
    for i := 0 to |entries|
      invariant created == results + UploadedRecords(students, taught, entries[..i])
    {
      UploadedRecordsStep(students, taught, entries, i);
      var entry := entries[i];
      var student := EntryStudent(students, entry);
      if student.None? {
        assert EntryRecords(students, taught, entry) == [];
        continue;
      }
      var course := EntryCourse(taught, entry);
      if course.None? {
        assert EntryRecords(students, taught, entry) == [];
        continue;
      }
      assert EntryRecords(students, taught, entry) == [MakeRecord(student.value, course.value, entry)];
      created := created + [MakeRecord(student.value, course.value, entry)];
    }
    assert entries[..|entries|] == entries;
  }

  /** `uploadCourseResults` on the store: one `Result.create` per accepted
      entry. */
  method UploadCourseResults(db: Database, cat: Catalog, lecturerId: string, entries: seq<UploadEntry>)
    returns (reply: Outcome<()>)
    modifies db
    ensures UploadOutcome(reply, db.results) == Upload(old(db.lecturers), old(db.students), cat, old(db.results), lecturerId, entries)
    ensures db.students == old(db.students) && db.courses == old(db.courses)
    ensures db.lecturers == old(db.lecturers) && db.admins == old(db.admins)
  {
    var lecturer := LecturerById(db.lecturers, lecturerId);
    if lecturer.None? {
      return Fail(NotFound);
    }
    var assignedCourses := AssignedCourses(cat, lecturer.value.fullName);
    if assignedCourses == [] {
      return Fail(NotFound);
    }
    db.results := CreateResults(db.students, assignedCourses, entries, db.results);
    reply := Ok(());
  }

  // Score edits (lines 147-171).

  datatype EditOutcome = EditOutcome(reply: Outcome<()>, results: seq<ResultRecord>)

  /** `Result.find({ student: studentId, course: course._id })`. */
  predicate Matching(r: ResultRecord, studentId: string, courseId: Option<string>)
  {
    r.student == studentId && r.course == courseId
  }

  function SetScores(studentId: string, courseId: Option<string>, testScore: real, examScore: real): ResultRecord -> ResultRecord
  {
    (r: ResultRecord) => if Matching(r, studentId, courseId) then r.(testScore := testScore, examScore := examScore) else r
  }

  /** The taught course the edit is about, after the lecturer and student
      checks of lines 152-158; None is a 404. */
  function EditTarget(lecturers: seq<Lecturer>, students: seq<Student>, cat: Catalog,
                      lecturerId: string, studentId: string, courseCode: string): (r: Option<Course>)
    ensures r.Some? <==>
              LecturerById(lecturers, lecturerId).Some? && StudentIndex(students, studentId).Some? &&
              exists c :: c in AssignedCourses(cat, LecturerById(lecturers, lecturerId).value.fullName) && c.code == courseCode
    ensures r.Some? ==> r.value in AssignedCourses(cat, LecturerById(lecturers, lecturerId).value.fullName) && r.value.code == courseCode
  {
    match LecturerById(lecturers, lecturerId)
    case None => None
    case Some(l) =>
      if StudentIndex(students, studentId).None? then None
      else
        var found := Find(AssignedCourses(cat, l.fullName), CodeIs(courseCode));
        if found.None? then
          assert forall c :: c in AssignedCourses(cat, l.fullName) ==> !CodeIs(courseCode)(c);
          None
        else found
  }

  /** `editCourseResults` as intended: the new scores on every matching
      record, saved. An empty match is still a success, since the array
      `Result.find` returns is never falsy. */
  function EditScores(lecturers: seq<Lecturer>, students: seq<Student>, cat: Catalog, results: seq<ResultRecord>,
                      lecturerId: string, studentId: string, courseCode: string, testScore: real, examScore: real): (r: EditOutcome)
    ensures r.reply.Fail? <==> EditTarget(lecturers, students, cat, lecturerId, studentId, courseCode).None?
    ensures r.reply.Fail? ==> r.reply.error == NotFound && r.results == results
    ensures |r.results| == |results|
    ensures r.reply.Ok? ==>
              var courseId := EditTarget(lecturers, students, cat, lecturerId, studentId, courseCode).value.id;
              forall i :: 0 <= i < |results| ==>
                r.results[i] == if Matching(results[i], studentId, courseId)
                                then results[i].(testScore := testScore, examScore := examScore) else results[i]
  {
    match EditTarget(lecturers, students, cat, lecturerId, studentId, courseCode)
    case None => EditOutcome(Fail(NotFound), results)
    case Some(c) => EditOutcome(Ok(()), MapSeq(results, SetScores(studentId, c.id, testScore, examScore)))
  }

  /** Repeating an edit changes nothing more. */
  lemma EditScoresIdempotent(lecturers: seq<Lecturer>, students: seq<Student>, cat: Catalog, results: seq<ResultRecord>,
                             lecturerId: string, studentId: string, courseCode: string, testScore: real, examScore: real)
    ensures var r1 := EditScores(lecturers, students, cat, results, lecturerId, studentId, courseCode, testScore, examScore);
            EditScores(lecturers, students, cat, r1.results, lecturerId, studentId, courseCode, testScore, examScore) == r1
  {
    var r1 := EditScores(lecturers, students, cat, results, lecturerId, studentId, courseCode, testScore, examScore);
    var r2 := EditScores(lecturers, students, cat, r1.results, lecturerId, studentId, courseCode, testScore, examScore);
    if r1.reply.Ok? {
      var courseId := EditTarget(lecturers, students, cat, lecturerId, studentId, courseCode).value.id;
      forall i | 0 <= i < |r1.results|
        ensures r2.results[i] == r1.results[i]
      {
        assert Matching(r1.results[i], studentId, courseId) == Matching(results[i], studentId, courseId);
      }
      assert r2.results == r1.results;
    }
  }

  /** Only scores change: student, course, term and flags of every record
      stay as they were, so an edit can change a GPA only through the
      totals. */
  lemma EditScoresKeepsRecords(lecturers: seq<Lecturer>, students: seq<Student>, cat: Catalog, results: seq<ResultRecord>,
                               lecturerId: string, studentId: string, courseCode: string, testScore: real, examScore: real)
    ensures var r := EditScores(lecturers, students, cat, results, lecturerId, studentId, courseCode, testScore, examScore);
            forall i :: 0 <= i < |results| ==>
              r.results[i].(testScore := results[i].testScore, examScore := results[i].examScore) == results[i]
  {
    var r := EditScores(lecturers, students, cat, results, lecturerId, studentId, courseCode, testScore, examScore);
    if r.reply.Ok? {
      var courseId := EditTarget(lecturers, students, cat, lecturerId, studentId, courseCode).value.id;
      forall i | 0 <= i < |results|
        ensures r.results[i].(testScore := results[i].testScore, examScore := results[i].examScore) == results[i]
      {
        if Matching(results[i], studentId, courseId) {
          assert r.results[i] == results[i].(testScore := testScore, examScore := examScore);
        }
      }
    }
  }

  /** `editCourseResults` as written: the scores are changed on the array in
      memory, then `results.save()` throws (an array has no `save`), so the
      reply is a 500 and nothing reaches the store. */
  function EditAsWritten(lecturers: seq<Lecturer>, students: seq<Student>, cat: Catalog, results: seq<ResultRecord>,
                         lecturerId: string, studentId: string, courseCode: string, testScore: real, examScore: real): (r: EditOutcome)
    ensures r.results == results
    ensures r.reply.Fail?
    ensures EditTarget(lecturers, students, cat, lecturerId, studentId, courseCode).Some? ==> r.reply.error == ServerError
  {
    match EditTarget(lecturers, students, cat, lecturerId, studentId, courseCode)
    case None => EditOutcome(Fail(NotFound), results)
    case Some(_) => EditOutcome(Fail(ServerError), results)
  }

  /** The lecturer "Dr Bello" (document l1) teaches CSC 101 of a one-course
      catalog, and student s1 exists. */
  lemma ExampleEditTarget(c: Course, cat: Catalog, l: Lecturer, s: Student)
    requires c == Course("CSC 101", "Intro", 3, Some("Dr Bello"), Some("c1"))
    requires cat == [DepartmentEntry("CSC", [LevelEntry("100 Level", [SemesterEntry("First Semester", [c])])])]
    requires l.id == "l1" && l.fullName == "Dr Bello" && s.id == "s1"
    ensures EditTarget([l], [s], cat, "l1", "s1", "CSC 101") == Some(c)
  {
    assert HasLecturerId("l1")([l][0]);
    assert LecturerById([l], "l1") == Some(l);
    assert HasStudentId("s1")([s][0]);
    assert StudentIndex([s], "s1").Some?;
    AssignedCoursesAsWrittenMisses();
    assert AssignedCourses(cat, "Dr Bello") == [c];
    assert CodeIs("CSC 101")([c][0]);
    assert Find([c], CodeIs("CSC 101")) == Some(c);
  }

  /** The discrepancy on one input: an assigned course with one matching
      result keeps its old scores as written, and gets the new ones as
      intended. */
  lemma EditAsWrittenLosesScores(l: Lecturer, s: Student)
    requires l.id == "l1" && l.fullName == "Dr Bello" && s.id == "s1"
    ensures var c := Course("CSC 101", "Intro", 3, Some("Dr Bello"), Some("c1"));
            var cat := [DepartmentEntry("CSC", [LevelEntry("100 Level", [SemesterEntry("First Semester", [c])])])];
            var rec := ResultRecord("s1", Some("c1"), None, 10.0, 20.0, 0.0, "First Semester", "100 Level", false, false, false);
            && EditAsWritten([l], [s], cat, [rec], "l1", "s1", "CSC 101", 30.0, 50.0) == EditOutcome(Fail(ServerError), [rec])
            && EditScores([l], [s], cat, [rec], "l1", "s1", "CSC 101", 30.0, 50.0) == EditOutcome(Ok(()), [rec.(testScore := 30.0, examScore := 50.0)])
  {
    var c := Course("CSC 101", "Intro", 3, Some("Dr Bello"), Some("c1"));
    var cat := [DepartmentEntry("CSC", [LevelEntry("100 Level", [SemesterEntry("First Semester", [c])])])];
    ExampleEditTarget(c, cat, l, s);
  }

  /** `editCourseResults` on the store, one matching record at a time. */
  method EditCourseResults(db: Database, cat: Catalog, lecturerId: string, studentId: string, courseCode: string,
                           testScore: real, examScore: real)
    returns (reply: Outcome<()>)
    modifies db
    ensures EditOutcome(reply, db.results) ==
            EditScores(old(db.lecturers), old(db.students), cat, old(db.results), lecturerId, studentId, courseCode, testScore, examScore)
    ensures db.students == old(db.students) && db.courses == old(db.courses)
    ensures db.lecturers == old(db.lecturers) && db.admins == old(db.admins)
  {
    var course := EditTarget(db.lecturers, db.students, cat, lecturerId, studentId, courseCode);
    if course.None? {
      return Fail(NotFound);
    }
    var courseId := course.value.id;
    var results := db.results;
    for i := 0 to |results|
      invariant |results| == |old(db.results)|
      invariant forall j :: 0 <= j < i ==> results[j] == SetScores(studentId, courseId, testScore, examScore)(old(db.results)[j])
      invariant forall j :: i <= j < |results| ==> results[j] == old(db.results)[j]
    {
      if Matching(results[i], studentId, courseId) {
        results := results[i := results[i].(testScore := testScore, examScore := examScore)];
      }
    }
    assert results == MapSeq(old(db.results), SetScores(studentId, courseId, testScore, examScore));
    db.results := results;
    reply := Ok(());
  }

  // Course results and ownership (lines 92-110).

  function ForCourse(courseId: string): ResultRecord -> bool
  {
    (r: ResultRecord) => r.course == Some(courseId)
  }

  /** `getCourseResults`: 404 for an unknown course, then for an unknown
      lecturer; a course with no lecturer makes `course.lecturer.equals`
      throw (500); another lecturer's course is 403. */
  function CourseResults(courses: seq<CourseDoc>, lecturers: seq<Lecturer>, results: seq<ResultRecord>,
                         courseId: string, lecturerId: string): (r: Outcome<seq<ResultRecord>>)
    ensures CourseById(courses, courseId).None? ==> r == Fail(NotFound)
    ensures r == Fail(NotFound) <==> CourseById(courses, courseId).None? || LecturerById(lecturers, lecturerId).None?
    ensures r == Fail(Forbidden) <==>
              && CourseById(courses, courseId).Some? && LecturerById(lecturers, lecturerId).Some?
              && CourseById(courses, courseId).value.lecturer.Some?
              && CourseById(courses, courseId).value.lecturer != Some(lecturerId)
    ensures r == Fail(ServerError) <==>
              CourseById(courses, courseId).Some? && LecturerById(lecturers, lecturerId).Some? &&
              CourseById(courses, courseId).value.lecturer.None?
    ensures r.Ok? ==> CourseById(courses, courseId).Some? && CourseById(courses, courseId).value.lecturer == Some(lecturerId)
    ensures r.Ok? ==> forall x :: x in r.value ==> x in results && x.course == Some(courseId)
    ensures r.Ok? ==> forall x :: x in results && x.course == Some(courseId) ==> x in r.value
  {
    match CourseById(courses, courseId)
    case None => Fail(NotFound)
    case Some(course) =>
      match LecturerById(lecturers, lecturerId)
      case None => Fail(NotFound)
      case Some(lecturer) =>
        match course.lecturer
        case None => Fail(ServerError)
        case Some(owner) =>
          if owner != lecturer.id then Fail(Forbidden)
          else Ok(Filter(results, ForCourse(courseId)))
  }

  /** Ownership set by `newLecturer` is the ownership `getCourseResults`
      checks: the new lecturer may read the results of every course it was
      created with. */
  lemma NewLecturerOwnsCourses(lecturers: seq<Lecturer>, courses: seq<CourseDoc>, info: AdminController.LecturerInfo,
                               newId: string, results: seq<ResultRecord>, courseId: string)
    requires AdminController.CreateLecturer(lecturers, courses, info, newId).reply.Ok?
    requires var r := AdminController.CreateLecturer(lecturers, courses, info, newId);
             CourseById(r.courses, courseId).Some? && CourseById(r.courses, courseId).value.courseCode in info.coursesTaking
    ensures var r := AdminController.CreateLecturer(lecturers, courses, info, newId);
            CourseResults(r.courses, r.lecturers, results, courseId, newId) == Ok(Filter(results, ForCourse(courseId)))
  {
    var r := AdminController.CreateLecturer(lecturers, courses, info, newId);
    var c := CourseById(r.courses, courseId).value;
    var i :| 0 <= i < |r.courses| && r.courses[i] == c;
    assert r.courses[i].(lecturer := courses[i].lecturer) == courses[i];
    assert c.lecturer == Some(newId);
    assert r.lecturers[|lecturers|].id == newId;
    assert LecturerById(r.lecturers, newId).Some?;
  }
}
