/** The student side (controllers/studentController.js): semester GPA and
    CGPA (`getGPA`), carry-over detection (`result`) and the registered-course
    lookup (`getRegisteredCourses`). */
module StudentController {
  import opened Wrappers
  import opened Seqs
  import opened Catalog
  import opened Records
  import opened Grading
  import opened Arithmetic

  function Total(r: ResultRecord): real { r.testScore + r.examScore }

  /** The record belongs to (student, semester, level). */
  predicate InTerm(r: ResultRecord, studentId: string, semester: string, level: string)
  {
    r.student == studentId && r.semester == semester && r.level == level
  }

  function ReleasedInTermTest(studentId: string, semester: string, level: string): ResultRecord -> bool
  {
    (r: ResultRecord) => InTerm(r, studentId, semester, level) && r.isReleased
  }

  /** `Result.find({ student, semester, level, isReleased: true })`. */
  function ReleasedInTerm(rs: seq<ResultRecord>, studentId: string, semester: string, level: string): (r: seq<ResultRecord>)
    ensures forall x :: x in r ==> x in rs && InTerm(x, studentId, semester, level) && x.isReleased
    ensures forall x :: x in rs && InTerm(x, studentId, semester, level) && x.isReleased ==> x in r
  {
    Filter(rs, ReleasedInTermTest(studentId, semester, level))
  }

  /** `Result.find({ student, semester, level, isGpaCalculated: true })` is non-empty. */
  predicate GpaAlreadyCalculated(rs: seq<ResultRecord>, studentId: string, semester: string, level: string)
  {
    exists i :: 0 <= i < |rs| && InTerm(rs[i], studentId, semester, level) && rs[i].isGpaCalculated
  }

  function HasCode(code: Option<string>): Course -> bool
  {
    (c: Course) => Some(c.code) == code
  }

  /** `coursesData[department]?.[level]?.[semester]?.find(c => c['Course-Code'] === courseCode)`,
      and its units. */
  function CourseUnits(cat: Catalog, department: string, level: string, semester: string, code: Option<string>): Option<nat>
  {
    match Lookup(cat, department, level, semester)
    case None => None
    case Some(courses) =>
      match Find(courses, HasCode(code))
      case None => None
      case Some(c) => Some(c.units)
  }

  /** gradePoint * units for a course the catalog knows, nothing otherwise. */
  function Contribution(r: ResultRecord, cat: Catalog, department: string, level: string, semester: string): nat
  {
    match CourseUnits(cat, department, level, semester, r.courseCode)
    case None => 0
    case Some(u) =>
      var g := GradePoint(Total(r));
      ProductNatural(g, u);
      g * u
  }

  function UnitsOf(r: ResultRecord, cat: Catalog, department: string, level: string, semester: string): nat
  {
    CourseUnits(cat, department, level, semester, r.courseCode).GetOr(0)
  }

  /** totalWeightedPoints after the loop has seen all of rs. */
  function WeightedPoints(rs: seq<ResultRecord>, cat: Catalog, department: string, level: string, semester: string): nat
  {
    if rs == [] then 0
    else WeightedPoints(rs[..|rs| - 1], cat, department, level, semester)
         + Contribution(rs[|rs| - 1], cat, department, level, semester)
  }

  /** totalUnits after the loop has seen all of rs. */
  function UnitsTotal(rs: seq<ResultRecord>, cat: Catalog, department: string, level: string, semester: string): nat
  {
    if rs == [] then 0
    else UnitsTotal(rs[..|rs| - 1], cat, department, level, semester)
         + UnitsOf(rs[|rs| - 1], cat, department, level, semester)
  }

  /** The semester GPA before `toFixed(2)`: the unit-weighted mean of the
      grade points, 0 when no units were counted. */
  function SemesterGpa(rs: seq<ResultRecord>, cat: Catalog, department: string, level: string, semester: string): real
  {
    var units := UnitsTotal(rs, cat, department, level, semester);
    if units > 0 then WeightedPoints(rs, cat, department, level, semester) as real / units as real else 0.0
  }

  /** One more result adds its contribution to both sums. */
  lemma SumsStep(rs: seq<ResultRecord>, i: nat, cat: Catalog, department: string, level: string, semester: string)
    requires i < |rs|
    ensures WeightedPoints(rs[..i + 1], cat, department, level, semester)
            == WeightedPoints(rs[..i], cat, department, level, semester) + Contribution(rs[i], cat, department, level, semester)
    ensures UnitsTotal(rs[..i + 1], cat, department, level, semester)
            == UnitsTotal(rs[..i], cat, department, level, semester) + UnitsOf(rs[i], cat, department, level, semester)
  {
    assert rs[..i + 1][..i] == rs[..i];
  }

  /** A result whose course the catalog lists with u units adds g * u
      points and u units, g being its grade point. */
  lemma ContributionOf(r: ResultRecord, cat: Catalog, department: string, level: string, semester: string, g: nat, u: nat)
    requires g == GradePoint(Total(r))
    requires CourseUnits(cat, department, level, semester, r.courseCode) == Some(u)
    ensures Contribution(r, cat, department, level, semester) == g * u
    ensures UnitsOf(r, cat, department, level, semester) == u
  {
  }

  /** The accumulation loop of getGPA (lines 149-176): results whose course
      the catalog does not list are skipped. */
  method AccumulateGpa(rs: seq<ResultRecord>, cat: Catalog, department: string, level: string, semester: string)
    returns (totalWeightedPoints: nat, totalUnits: nat)
    ensures totalWeightedPoints == WeightedPoints(rs, cat, department, level, semester)
    ensures totalUnits == UnitsTotal(rs, cat, department, level, semester)
  {
    totalWeightedPoints, totalUnits := 0, 0;
    for i := 0 to |rs|
      invariant totalWeightedPoints == WeightedPoints(rs[..i], cat, department, level, semester)
      invariant totalUnits == UnitsTotal(rs[..i], cat, department, level, semester)
    {
      SumsStep(rs, i, cat, department, level, semester);
      var result := rs[i];
      var gradePoint := GradePoint(Total(result));
      var courseUnits := CourseUnits(cat, department, level, semester, result.courseCode);
      if courseUnits.None? {
        continue;
      }
      ContributionOf(result, cat, department, level, semester, gradePoint, courseUnits.value);
      totalWeightedPoints := totalWeightedPoints + gradePoint * courseUnits.value;
      totalUnits := totalUnits + courseUnits.value;
    }
    assert rs[..|rs|] == rs;
  }

  /** One counted result contributes between lo and hi times its units. */
  lemma ContributionBetween(r: ResultRecord, cat: Catalog, department: string, level: string, semester: string, lo: nat, hi: nat)
    requires CourseUnits(cat, department, level, semester, r.courseCode).Some? ==> lo <= GradePoint(Total(r)) <= hi
    ensures lo * UnitsOf(r, cat, department, level, semester) <= Contribution(r, cat, department, level, semester)
    ensures Contribution(r, cat, department, level, semester) <= hi * UnitsOf(r, cat, department, level, semester)
  {
    match CourseUnits(cat, department, level, semester, r.courseCode)
    case None =>
    case Some(u) =>
      ScaleMonotone(lo, GradePoint(Total(r)), u);
      ScaleMonotone(GradePoint(Total(r)), hi, u);
  }

  /** If every counted grade point lies in [lo, hi], the weighted sum lies
      between lo and hi times the units. */
  lemma {:induction false} WeightedPointsBetween(rs: seq<ResultRecord>, cat: Catalog, department: string, level: string, semester: string, lo: nat, hi: nat)
    requires forall i :: 0 <= i < |rs| && CourseUnits(cat, department, level, semester, rs[i].courseCode).Some? ==>
               lo <= GradePoint(Total(rs[i])) <= hi
    ensures lo * UnitsTotal(rs, cat, department, level, semester) <= WeightedPoints(rs, cat, department, level, semester)
    ensures WeightedPoints(rs, cat, department, level, semester) <= hi * UnitsTotal(rs, cat, department, level, semester)
  {
    if rs != [] {
      var init, last := rs[..|rs| - 1], rs[|rs| - 1];
      assert forall i :: 0 <= i < |init| ==> init[i] == rs[i];
      WeightedPointsBetween(init, cat, department, level, semester, lo, hi);
      ContributionBetween(last, cat, department, level, semester, lo, hi);
      var u0, u := UnitsTotal(init, cat, department, level, semester), UnitsOf(last, cat, department, level, semester);
      var w0, c := WeightedPoints(init, cat, department, level, semester), Contribution(last, cat, department, level, semester);
      assert UnitsTotal(rs, cat, department, level, semester) == u0 + u;
      assert WeightedPoints(rs, cat, department, level, semester) == w0 + c;
      var total := UnitsTotal(rs, cat, department, level, semester);
      Distribute(lo, u0, u, total);
      Distribute(hi, u0, u, total);
    }
  }

  /** The semester GPA lies between the smallest and the largest grade point
      of the results that were counted. */
  lemma GpaBetween(rs: seq<ResultRecord>, cat: Catalog, department: string, level: string, semester: string, lo: nat, hi: nat)
    requires forall i :: 0 <= i < |rs| && CourseUnits(cat, department, level, semester, rs[i].courseCode).Some? ==>
               lo <= GradePoint(Total(rs[i])) <= hi
    requires UnitsTotal(rs, cat, department, level, semester) > 0
    ensures lo as real <= SemesterGpa(rs, cat, department, level, semester) <= hi as real
  {
    WeightedPointsBetween(rs, cat, department, level, semester, lo, hi);
    NatQuotientBetween(WeightedPoints(rs, cat, department, level, semester), UnitsTotal(rs, cat, department, level, semester), lo, hi);
  }

  /** The semester GPA is always within [0, 5], and 0 when no units count. */
  lemma GpaInRange(rs: seq<ResultRecord>, cat: Catalog, department: string, level: string, semester: string)
    ensures 0.0 <= SemesterGpa(rs, cat, department, level, semester) <= 5.0
    ensures UnitsTotal(rs, cat, department, level, semester) == 0 ==> SemesterGpa(rs, cat, department, level, semester) == 0.0
  {
    if UnitsTotal(rs, cat, department, level, semester) > 0 {
      GpaBetween(rs, cat, department, level, semester, 0, 5);
    }
  }

  /** Results with no `courseCode` match no catalog entry (line 165), so
      they count no units and the semester GPA is 0. */
  lemma {:induction false} NoCodeGpaZero(rs: seq<ResultRecord>, cat: Catalog, department: string, level: string, semester: string)
    requires forall r :: r in rs ==> r.courseCode.None?
    ensures UnitsTotal(rs, cat, department, level, semester) == 0
    ensures SemesterGpa(rs, cat, department, level, semester) == 0.0
  {
    if rs != [] {
      var last := rs[|rs| - 1];
      assert last in rs;
      assert forall r :: r in rs[..|rs| - 1] ==> r in rs;
      NoCodeGpaZero(rs[..|rs| - 1], cat, department, level, semester);
      assert CourseUnits(cat, department, level, semester, last.courseCode).None?;
    }
  }

  /** Line 188: the running CGPA after one more semester. */
  function FoldCgpa(cgpa: real, levelsCompleted: nat, gpa: real): real
  {
    (cgpa * levelsCompleted as real + gpa) / (levelsCompleted as real + 1.0)
  }

  /** The new CGPA lies between the old CGPA and the new GPA, so the range
      [0, 5] is preserved. */
  lemma FoldCgpaBetween(cgpa: real, levelsCompleted: nat, gpa: real, lo: real, hi: real)
    requires lo <= cgpa <= hi && lo <= gpa <= hi
    ensures lo <= FoldCgpa(cgpa, levelsCompleted, gpa) <= hi
  {
    var n := levelsCompleted as real;
    WeightedMeanBetween(cgpa, n, gpa, lo, hi);
    assert FoldCgpa(cgpa, levelsCompleted, gpa) == (cgpa * n + gpa) / (n + 1.0);
  }

  function Sum(gs: seq<real>): real
  {
    if gs == [] then 0.0 else Sum(gs[..|gs| - 1]) + gs[|gs| - 1]
  }

  function Mean(gs: seq<real>): real
  {
    if gs == [] then 0.0 else Sum(gs) / |gs| as real
  }

  /** Folding term by term keeps the CGPA equal to the plain mean of all
      semester GPAs, the count being levelsCompleted. */
  lemma FoldCgpaIsMean(gs: seq<real>, gpa: real)
    ensures FoldCgpa(Mean(gs), |gs|, gpa) == Mean(gs + [gpa])
  {
    var gs' := gs + [gpa];
    assert gs'[..|gs'| - 1] == gs;
    var n := |gs| as real;
    if gs != [] {
      assert Mean(gs) * n == Sum(gs);
    }
  }

  datatype GpaReply = GpaReply(gpa: real, cgpa: real)

  /** The reply and the new contents of the Student and Result collections. */
  datatype GpaOutcome = GpaOutcome(reply: Outcome<GpaReply>, students: seq<Student>, results: seq<ResultRecord>)

  function MarkTerm(studentId: string, semester: string, level: string): ResultRecord -> ResultRecord
  {
    (r: ResultRecord) => if InTerm(r, studentId, semester, level) then r.(isGpaCalculated := true) else r
  }

  /** `Result.updateMany({ student, semester, level }, { $set: { isGpaCalculated: true } })`:
      it flags every record of the term, released or not. */
  function MarkGpaCalculated(rs: seq<ResultRecord>, studentId: string, semester: string, level: string): seq<ResultRecord>
  {
    MapSeq(rs, MarkTerm(studentId, semester, level))
  }

  /** Lines 187-189. */
  function FoldGpa(s: Student, gpa: real): Student
  {
    s.(semesterGPA := gpa, cgpa := FoldCgpa(s.cgpa, s.levelsCompleted, gpa), levelsCompleted := s.levelsCompleted + 1)
  }

  /** getGPA(studentId, semester, level) on the two collections. */
  function ComputeGpa(students: seq<Student>, results: seq<ResultRecord>, cat: Catalog,
                      studentId: string, semester: string, level: string): (r: GpaOutcome)
    ensures StudentIndex(students, studentId).None? ==> r == GpaOutcome(Fail(NotFound), students, results)
    ensures GpaAlreadyCalculated(results, studentId, semester, level) ==> r.students == students && r.results == results
    ensures StudentIndex(students, studentId).Some? && GpaAlreadyCalculated(results, studentId, semester, level) ==>
              var s := students[StudentIndex(students, studentId).value];
              r.reply == Ok(GpaReply(s.semesterGPA, s.cgpa))
    ensures r.reply.Fail? ==> r.reply.error == NotFound && r.students == students && r.results == results
    ensures r.reply.Fail? <==>
              StudentIndex(students, studentId).None? ||
              (!GpaAlreadyCalculated(results, studentId, semester, level) &&
               ReleasedInTerm(results, studentId, semester, level) == [])
  {
    match StudentIndex(students, studentId)
    case None => GpaOutcome(Fail(NotFound), students, results)
    case Some(k) =>
      var s := students[k];
      if GpaAlreadyCalculated(results, studentId, semester, level) then
        GpaOutcome(Ok(GpaReply(s.semesterGPA, s.cgpa)), students, results)
      else
        var released := ReleasedInTerm(results, studentId, semester, level);
        if released == [] then GpaOutcome(Fail(NotFound), students, results)
        else
          var gpa := SemesterGpa(released, cat, s.department, level, semester);
          var s' := FoldGpa(s, gpa);
          GpaOutcome(Ok(GpaReply(gpa, s'.cgpa)), students[k := s'], MarkGpaCalculated(results, studentId, semester, level))
  }

  /** A fresh computation: the GPA of the released results, the CGPA folded
      in, levelsCompleted up by one, every record of the term flagged, and
      nothing else changed. */
  lemma ComputeGpaFresh(students: seq<Student>, results: seq<ResultRecord>, cat: Catalog,
                        studentId: string, semester: string, level: string)
    requires StudentIndex(students, studentId).Some?
    requires !GpaAlreadyCalculated(results, studentId, semester, level)
    requires ReleasedInTerm(results, studentId, semester, level) != []
    ensures var k := StudentIndex(students, studentId).value;
            var s := students[k];
            var gpa := SemesterGpa(ReleasedInTerm(results, studentId, semester, level), cat, s.department, level, semester);
            var r := ComputeGpa(students, results, cat, studentId, semester, level);
            && r.reply == Ok(GpaReply(gpa, FoldCgpa(s.cgpa, s.levelsCompleted, gpa)))
            && |r.students| == |students|
            && r.students[k].levelsCompleted == s.levelsCompleted + 1
            && r.students[k].cgpa == FoldCgpa(s.cgpa, s.levelsCompleted, gpa)
            && r.students[k].semesterGPA == gpa
            && r.students[k].(cgpa := s.cgpa, semesterGPA := s.semesterGPA, levelsCompleted := s.levelsCompleted) == s
            && (forall j :: 0 <= j < |students| && j != k ==> r.students[j] == students[j])
            && |r.results| == |results|
            && (forall i :: 0 <= i < |results| ==>
                  r.results[i] == results[i].(isGpaCalculated := results[i].isGpaCalculated || InTerm(results[i], studentId, semester, level)))
            && GpaAlreadyCalculated(r.results, studentId, semester, level)
  {
    var released := ReleasedInTerm(results, studentId, semester, level);
    assert released[0] in results;
    var i :| 0 <= i < |results| && results[i] == released[0];
    var r := ComputeGpa(students, results, cat, studentId, semester, level);
    assert r.results[i] == MarkTerm(studentId, semester, level)(results[i]);
  }

  /** Calling getGPA a second time changes nothing and answers as the first
      call did: the guard stops a result from being counted twice. */
  lemma ComputeGpaIdempotent(students: seq<Student>, results: seq<ResultRecord>, cat: Catalog,
                             studentId: string, semester: string, level: string)
    ensures var r1 := ComputeGpa(students, results, cat, studentId, semester, level);
            ComputeGpa(r1.students, r1.results, cat, studentId, semester, level) == r1
  {
    var r1 := ComputeGpa(students, results, cat, studentId, semester, level);
    if r1.reply.Ok? && !GpaAlreadyCalculated(results, studentId, semester, level) {
      ComputeGpaFresh(students, results, cat, studentId, semester, level);
      var k := StudentIndex(students, studentId).value;
      StudentIndexAfterUpdate(students, studentId, r1.students[k]);
      assert r1.students == students[k := r1.students[k]];
    }
  }

  /** A CGPA within [0, 5] stays within [0, 5], and a freshly computed GPA
      is within [0, 5]. */
  lemma ComputeGpaKeepsRange(students: seq<Student>, results: seq<ResultRecord>, cat: Catalog,
                             studentId: string, semester: string, level: string)
    requires StudentIndex(students, studentId).Some?
    requires 0.0 <= students[StudentIndex(students, studentId).value].cgpa <= 5.0
    ensures var k := StudentIndex(students, studentId).value;
            var r := ComputeGpa(students, results, cat, studentId, semester, level);
            && k < |r.students|
            && 0.0 <= r.students[k].cgpa <= 5.0
            && (r.reply.Ok? && !GpaAlreadyCalculated(results, studentId, semester, level) ==>
                  0.0 <= r.reply.value.gpa <= 5.0 && 0.0 <= r.reply.value.cgpa <= 5.0)
  {
    var k := StudentIndex(students, studentId).value;
    var s := students[k];
    var released := ReleasedInTerm(results, studentId, semester, level);
    if !GpaAlreadyCalculated(results, studentId, semester, level) && released != [] {
      var gpa := SemesterGpa(released, cat, s.department, level, semester);
      GpaInRange(released, cat, s.department, level, semester);
      FoldCgpaBetween(s.cgpa, s.levelsCompleted, gpa, 0.0, 5.0);
      ComputeGpaFresh(students, results, cat, studentId, semester, level);
    }
  }

  /** Line 181: the updateMany, one record at a time. */
  method MarkTermInPlace(db: Database, studentId: string, semester: string, level: string)
    modifies db
    ensures db.results == MarkGpaCalculated(old(db.results), studentId, semester, level)
    ensures db.students == old(db.students) && db.courses == old(db.courses)
    ensures db.lecturers == old(db.lecturers) && db.admins == old(db.admins)
  {
    var rs := db.results;
    for i := 0 to |rs|
      invariant |rs| == |old(db.results)|
      invariant forall j :: 0 <= j < i ==> rs[j] == MarkTerm(studentId, semester, level)(old(db.results)[j])
      invariant forall j :: i <= j < |rs| ==> rs[j] == old(db.results)[j]
    {
      if InTerm(rs[i], studentId, semester, level) {
        rs := rs[i := rs[i].(isGpaCalculated := true)];
      }
    }
    db.results := rs;
  }

  /** getGPA on the store: the same loop as the source, proved to compute
      ComputeGpa. */
  method GetGpa(db: Database, cat: Catalog, studentId: string, semester: string, level: string)
    returns (reply: Outcome<GpaReply>)
    modifies db
    ensures GpaOutcome(reply, db.students, db.results) ==
            ComputeGpa(old(db.students), old(db.results), cat, studentId, semester, level)
    ensures db.courses == old(db.courses) && db.lecturers == old(db.lecturers) && db.admins == old(db.admins)
  {
    var found := StudentIndex(db.students, studentId);
    if found.None? {
      return Fail(NotFound);
    }
    var k := found.value;
    var student := db.students[k];
    if GpaAlreadyCalculated(db.results, studentId, semester, level) {
      return Ok(GpaReply(student.semesterGPA, student.cgpa));
    }
    var released := ReleasedInTerm(db.results, studentId, semester, level);
    if released == [] {
      return Fail(NotFound);
    }
    var totalWeightedPoints, totalUnits := AccumulateGpa(released, cat, student.department, level, semester);
    var semesterGPA := if totalUnits > 0 then totalWeightedPoints as real / totalUnits as real else 0.0;
    MarkTermInPlace(db, studentId, semester, level);
    var updated := FoldGpa(student, semesterGPA);
    db.students := db.students[k := updated];
    reply := Ok(GpaReply(semesterGPA, updated.cgpa));
  }

  // Carry-over courses (`result`).

  predicate IsFailing(r: ResultRecord) { Total(r) < 45.0 }

  function CourseCodeOf(r: ResultRecord): Option<string> { r.courseCode }

  /** Lines 69-74: the course codes of the results with a total below 45. */
  function FailingCodes(rs: seq<ResultRecord>): seq<Option<string>>
  {
    MapSeq(Filter(rs, IsFailing), CourseCodeOf)
  }

  /** Line 75: `[...new Set([...student.carryOverCourses, ...carryOverCourses])]`. */
  function MergeCarryOver(previous: seq<Option<string>>, failing: seq<Option<string>>): seq<Option<string>>
  {
    Dedup(previous + failing)
  }

  /** The merged list holds exactly the previous entries and the failing codes. */
  lemma MergeCarryOverMembers(previous: seq<Option<string>>, failing: seq<Option<string>>, x: Option<string>)
    ensures x in MergeCarryOver(previous, failing) <==> x in previous || x in failing
  {
  }

  /** A carry-over course code is listed once. */
  lemma MergeCarryOverDistinct(previous: seq<Option<string>>, failing: seq<Option<string>>)
    ensures NoDuplicates(MergeCarryOver(previous, failing))
  {
    DedupNoDuplicates(previous + failing);
  }

  /** A duplicate-free carry-over list is kept as it was, at the front. */
  lemma MergeCarryOverKeepsOld(previous: seq<Option<string>>, failing: seq<Option<string>>)
    requires NoDuplicates(previous)
    ensures |previous| <= |MergeCarryOver(previous, failing)|
    ensures MergeCarryOver(previous, failing)[..|previous|] == previous
  {
    DedupDistinct(previous);
    DedupPrefix(previous, failing);
  }

  /** Merging the same failing codes again changes nothing. */
  lemma MergeCarryOverIdempotent(previous: seq<Option<string>>, failing: seq<Option<string>>)
    ensures MergeCarryOver(MergeCarryOver(previous, failing), failing) == MergeCarryOver(previous, failing)
  {
    var m := MergeCarryOver(previous, failing);
    forall i | 0 <= i < |failing| ensures failing[i] in m {
      MergeCarryOverMembers(previous, failing, failing[i]);
    }
    MergeCarryOverDistinct(previous, failing);
    DedupKnown(m, failing);
  }

  /** A result is a carry-over exactly when its total is below 45. */
  lemma FailingCodesMembers(rs: seq<ResultRecord>, r: ResultRecord)
    requires r in rs
    ensures Total(r) < 45.0 ==> r.courseCode in FailingCodes(rs)
    ensures r.courseCode !in FailingCodes(rs) ==> Total(r) >= 45.0
  {
    var failing := Filter(rs, IsFailing);
    if Total(r) < 45.0 {
      var i :| 0 <= i < |rs| && rs[i] == r;
      assert r in failing;
      var j :| 0 <= j < |failing| && failing[j] == r;
      assert FailingCodes(rs)[j] == r.courseCode;
    }
  }

  datatype ResultReply = ResultReply(results: seq<ResultRecord>, carryOverCourses: seq<Option<string>>)
  datatype ResultOutcome = ResultOutcome(reply: Outcome<ResultReply>, students: seq<Student>)

  /** `result(studentId, level, semester)` with the student id the handler
      was given (see ReportResultsAsWritten for the code as it stands). */
  function ReportResults(students: seq<Student>, results: seq<ResultRecord>,
                         studentId: string, level: string, semester: string): (r: ResultOutcome)
    ensures r.reply.Fail? <==>
              StudentIndex(students, studentId).None? || ReleasedInTerm(results, studentId, semester, level) == []
    ensures r.reply.Fail? ==> r.reply.error == NotFound && r.students == students
    ensures r.reply.Ok? ==>
              var k := StudentIndex(students, studentId).value;
              && r.reply.value.results == ReleasedInTerm(results, studentId, semester, level)
              && r.students == students[k := students[k].(carryOverCourses := r.reply.value.carryOverCourses)]
  {
    match StudentIndex(students, studentId)
    case None => ResultOutcome(Fail(NotFound), students)
    case Some(k) =>
      var released := ReleasedInTerm(results, studentId, semester, level);
      if released == [] then ResultOutcome(Fail(NotFound), students)
      else
        var merged := MergeCarryOver(students[k].carryOverCourses, FailingCodes(released));
        ResultOutcome(Ok(ResultReply(released, merged)), students[k := students[k].(carryOverCourses := merged)])
  }

  /** The Ok branch of ReportResults, spelled out. */
  lemma ReportResultsFound(students: seq<Student>, results: seq<ResultRecord>,
                           studentId: string, level: string, semester: string, k: nat, merged: seq<Option<string>>)
    requires StudentIndex(students, studentId) == Some(k)
    requires ReleasedInTerm(results, studentId, semester, level) != []
    requires merged == MergeCarryOver(students[k].carryOverCourses, FailingCodes(ReleasedInTerm(results, studentId, semester, level)))
    ensures ReportResults(students, results, studentId, level, semester)
            == ResultOutcome(Ok(ResultReply(ReleasedInTerm(results, studentId, semester, level), merged)),
                             students[k := students[k].(carryOverCourses := merged)])
  {
  }

  /** The second call on a found student with released results. */
  lemma ReportResultsAgain(students: seq<Student>, results: seq<ResultRecord>,
                           studentId: string, level: string, semester: string, k: nat)
    requires StudentIndex(students, studentId) == Some(k)
    requires ReleasedInTerm(results, studentId, semester, level) != []
    ensures var r1 := ReportResults(students, results, studentId, level, semester);
            ReportResults(r1.students, results, studentId, level, semester) == r1
  {
    var failing := FailingCodes(ReleasedInTerm(results, studentId, semester, level));
    var merged := MergeCarryOver(students[k].carryOverCourses, failing);
    var updated := students[k].(carryOverCourses := merged);
    ReportResultsFound(students, results, studentId, level, semester, k, merged);
    StudentIndexAfterUpdate(students, studentId, updated);
    MergeCarryOverIdempotent(students[k].carryOverCourses, failing);
    var students' := students[k := updated];
    assert students'[k] == updated;
    ReportResultsFound(students', results, studentId, level, semester, k, merged);
    assert students'[k := students'[k].(carryOverCourses := merged)] == students';
  }

  /** Asking for the results twice leaves the carry-over list as the first
      call left it and gives the same reply. */
  lemma ReportResultsIdempotent(students: seq<Student>, results: seq<ResultRecord>,
                                studentId: string, level: string, semester: string)
    ensures var r1 := ReportResults(students, results, studentId, level, semester);
            ReportResults(r1.students, results, studentId, level, semester) == r1
  {
    var found := StudentIndex(students, studentId);
    if found.Some? && ReleasedInTerm(results, studentId, semester, level) != [] {
      ReportResultsAgain(students, results, studentId, level, semester, found.value);
    }
  }

  /** `result` as written: line 67 filters on `student: id`, and no `id` is
      in scope, so the query throws a ReferenceError whenever the student
      exists; the handler answers 500 and saves nothing. */
  function ReportResultsAsWritten(students: seq<Student>, results: seq<ResultRecord>,
                                  studentId: string, level: string, semester: string): (r: ResultOutcome)
    ensures r.students == students
    ensures r.reply.Fail?
    ensures StudentIndex(students, studentId).Some? ==> r.reply.error == ServerError
  {
    match StudentIndex(students, studentId)
    case None => ResultOutcome(Fail(NotFound), students)
    case Some(_) => ResultOutcome(Fail(ServerError), students)
  }

  /** An input on which the two differ: one released result with a total of
      30 for a known student. */
  lemma ReportResultsAsWrittenLosesCarryOver()
    ensures var s := Student("s1", "CSC/20/0001", "Ada", "", "CSC", "100 Level", "First Semester", "2023 Session", 0.0, 0.0, 0, [], []);
            var rec := ResultRecord("s1", None, Some("CSC 101"), 10.0, 20.0, 0.0, "First Semester", "100 Level", false, true, false);
            && ReportResultsAsWritten([s], [rec], "s1", "100 Level", "First Semester").reply == Fail(ServerError)
            && ReportResults([s], [rec], "s1", "100 Level", "First Semester").students[0].carryOverCourses == [Some("CSC 101")]
  {
    var s := Student("s1", "CSC/20/0001", "Ada", "", "CSC", "100 Level", "First Semester", "2023 Session", 0.0, 0.0, 0, [], []);
    var rec := ResultRecord("s1", None, Some("CSC 101"), 10.0, 20.0, 0.0, "First Semester", "100 Level", false, true, false);
    assert HasStudentId("s1")([s][0]);
    assert ReleasedInTerm([rec], "s1", "First Semester", "100 Level") == [rec];
    assert Filter([rec], IsFailing) == [rec];
    assert FailingCodes([rec]) == [Some("CSC 101")];
    assert [] + [Some("CSC 101")] == [Some("CSC 101")];
  }

  /** `result` on the store. */
  method ReportResult(db: Database, studentId: string, level: string, semester: string)
    returns (reply: Outcome<ResultReply>)
    modifies db
    ensures ResultOutcome(reply, db.students) == ReportResults(old(db.students), old(db.results), studentId, level, semester)
    ensures db.results == old(db.results) && db.courses == old(db.courses)
    ensures db.lecturers == old(db.lecturers) && db.admins == old(db.admins)
  {
    var students := db.students;
    var found := StudentIndex(students, studentId);
    if found.None? {
      return Fail(NotFound);
    }
    var k := found.value;
    var results := ReleasedInTerm(db.results, studentId, semester, level);
    if results == [] {
      return Fail(NotFound);
    }
    var merged := MergeCarryOver(students[k].carryOverCourses, FailingCodes(results));
    db.students := students[k := students[k].(carryOverCourses := merged)];
    reply := Ok(ResultReply(results, merged));
  }

  // Registered courses (`getRegisteredCourses`).

  function CodeIs(code: string): Course -> bool { (c: Course) => c.code == code }

  function CodeOfCourse(c: Course): string { c.code }

  function KnownIn(all: seq<Course>): string -> bool
  {
    (code: string) => Find(all, CodeIs(code)).Some?
  }

  /** Lines 102-104: each registered code mapped to the first catalog entry
      with that code; codes with no entry are dropped. */
  function MatchRegistered(codes: seq<string>, all: seq<Course>): (r: seq<Course>)
    ensures forall x :: x in r ==> x in all
  {
    if codes == [] then []
    else
      (match Find(all, CodeIs(codes[0]))
       case None => []
       case Some(c) => [c])
      + MatchRegistered(codes[1..], all)
  }

  /** The courses returned are, in registration order, exactly the
      registered codes that the department's catalog lists. */
  lemma {:induction false} MatchRegisteredCodes(codes: seq<string>, all: seq<Course>)
    ensures MapSeq(MatchRegistered(codes, all), CodeOfCourse) == Filter(codes, KnownIn(all))
  {
    if codes != [] {
      MatchRegisteredCodes(codes[1..], all);
      var head := match Find(all, CodeIs(codes[0])) case None => [] case Some(c) => [c];
      MapAppend(head, MatchRegistered(codes[1..], all), CodeOfCourse);
    }
  }

  /** As with `.find`, each returned course is the first catalog entry with
      its code: every entry before it has another code. */
  lemma {:induction false} MatchRegisteredFirst(codes: seq<string>, all: seq<Course>)
    ensures forall x :: x in MatchRegistered(codes, all) ==>
              exists i :: 0 <= i < |all| && all[i] == x && forall j :: 0 <= j < i ==> all[j].code != x.code
  {
    if codes != [] {
      MatchRegisteredFirst(codes[1..], all);
      match FindIndex(all, CodeIs(codes[0]))
      case None =>
      case Some(i) =>
        assert Find(all, CodeIs(codes[0])) == Some(all[i]);
        assert all[i].code == codes[0];
        assert forall j :: 0 <= j < i ==> !CodeIs(codes[0])(all[j]);
    }
  }

  /** getRegisteredCourses(studentId). */
  function RegisteredCourses(students: seq<Student>, cat: Catalog, studentId: string): (r: Outcome<seq<Course>>)
    ensures r.Fail? ==> r.error == NotFound
    ensures r.Fail? <==>
              StudentIndex(students, studentId).None? ||
              DepartmentLevels(cat, students[StudentIndex(students, studentId).value].department).None?
    ensures r.Ok? ==>
              var s := students[StudentIndex(students, studentId).value];
              MapSeq(r.value, CodeOfCourse) ==
                Filter(s.registeredCourses, KnownIn(DepartmentCourseList(DepartmentLevels(cat, s.department).value)))
  {
    match StudentIndex(students, studentId)
    case None => Fail(NotFound)
    case Some(k) =>
      match DepartmentLevels(cat, students[k].department)
      case None => Fail(NotFound)
      case Some(levels) =>
        var all := DepartmentCourseList(levels);
        MatchRegisteredCodes(students[k].registeredCourses, all);
        Ok(MatchRegistered(students[k].registeredCourses, all))
  }
}
