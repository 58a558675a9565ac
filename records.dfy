/** The documents the controllers read and write, and the store that holds
    them. Each Mongoose collection is a sequence in the `Database` object;
    `findById` and `findOne` return the first matching document. */
module Records {
  import opened Wrappers
  import opened Seqs

  /** A student document, with the fields the controllers read or assign.
      Carry-over entries are `Option<string>` because the controller copies
      `result.courseCode`, which a record may not have. */
  datatype Student = Student(
    id: string,
    matricNo: string,
    fullName: string,
    email: string,
    department: string,
    currentLevel: string,
    currentSemester: string,
    currentSession: string,
    cgpa: real,
    semesterGPA: real,
    levelsCompleted: nat,
    registeredCourses: seq<string>,
    carryOverCourses: seq<Option<string>>)

  /** A result document. `released` is the flag the admin side sets;
      `isReleased` and `isGpaCalculated` are the flags the student side reads
      (a document that lacks them reads as false). */
  datatype ResultRecord = ResultRecord(
    student: string,
    course: Option<string>,
    courseCode: Option<string>,
    testScore: real,
    examScore: real,
    gpa: real,
    semester: string,
    level: string,
    released: bool,
    isReleased: bool,
    isGpaCalculated: bool)

  /** A document of the Course collection. */
  datatype CourseDoc = CourseDoc(id: string, courseCode: string, lecturer: Option<string>, submissionClosed: bool)

  datatype Lecturer = Lecturer(
    id: string,
    fullName: string,
    email: string,
    registrationId: string,
    department: string,
    coursesTaking: seq<string>)

  /** An admin document; `password` holds the hash, never the plain text. */
  datatype Admin = Admin(
    id: string,
    adminId: string,
    fullName: string,
    email: string,
    dateOfBirth: string,
    stateOfOrigin: string,
    phone: string,
    gender: string,
    profilePic: string,
    password: string)

  function HasStudentId(id: string): Student -> bool { (s: Student) => s.id == id }
  function HasLecturerId(id: string): Lecturer -> bool { (l: Lecturer) => l.id == id }
  function HasAdminId(id: string): Admin -> bool { (a: Admin) => a.id == id }
  function HasCourseId(id: string): CourseDoc -> bool { (c: CourseDoc) => c.id == id }

  /** Position of `Student.findById(id)`. */
  function StudentIndex(students: seq<Student>, id: string): (r: Option<nat>)
    ensures r.Some? ==> r.value < |students| && students[r.value].id == id
    ensures r.None? <==> forall j :: 0 <= j < |students| ==> students[j].id != id
  {
    FindIndex(students, HasStudentId(id))
  }

  /** Replacing the found student by one with the same id keeps it found at
      the same position. */
  lemma StudentIndexAfterUpdate(students: seq<Student>, id: string, s: Student)
    requires StudentIndex(students, id).Some?
    requires s.id == id
    ensures StudentIndex(students[StudentIndex(students, id).value := s], id) == StudentIndex(students, id)
  {
    var k := StudentIndex(students, id).value;
    var students' := students[k := s];
    assert forall j :: 0 <= j < k ==> !HasStudentId(id)(students'[j]);
    assert HasStudentId(id)(students'[k]);
  }

  function LecturerById(lecturers: seq<Lecturer>, id: string): (r: Option<Lecturer>)
    ensures r.Some? ==> r.value in lecturers && r.value.id == id
    ensures r.None? <==> forall j :: 0 <= j < |lecturers| ==> lecturers[j].id != id
  {
    Find(lecturers, HasLecturerId(id))
  }

  function CourseById(courses: seq<CourseDoc>, id: string): (r: Option<CourseDoc>)
    ensures r.Some? ==> r.value in courses && r.value.id == id
    ensures r.None? <==> forall j :: 0 <= j < |courses| ==> courses[j].id != id
  {
    Find(courses, HasCourseId(id))
  }

  /** The document store. */
  class Database {
    var students: seq<Student>
    var results: seq<ResultRecord>
    var courses: seq<CourseDoc>
    var lecturers: seq<Lecturer>
    var admins: seq<Admin>

    constructor (students: seq<Student>, results: seq<ResultRecord>, courses: seq<CourseDoc>,
                 lecturers: seq<Lecturer>, admins: seq<Admin>)
      ensures this.students == students && this.results == results && this.courses == courses
      ensures this.lecturers == lecturers && this.admins == admins
    {
      this.students := students;
      this.results := results;
      this.courses := courses;
      this.lecturers := lecturers;
      this.admins := admins;
    }
  }
}
