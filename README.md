# Result system back end: the result-and-progression engine

This project is a Dafny model of the result-and-progression logic in the
three controllers of a university result system built on Express and Mongoose.
Students, results, courses, lecturers and admins are documents in a
store, modelled as a `Database` class with one `seq` field per collection.
The course catalog (`courses.json`) is a read-only value. It is a list of
departments; each department holds levels, each level holds semesters, and
each semester holds a list of courses. Keeping it as a list preserves the
order in which `Object.values` walks it.

- **Student side** (`controllers/studentController.js`)
  - `getGPA`: grade points, the unit-weighted semester GPA, the running CGPA,
    and the guard that stops a term from being counted twice.
  - `result`: carry-over detection.
  - `getRegisteredCourses`: looks up registered course codes in the catalog.
- **Admin side** (`controllers/adminController.js`)
  - The three ID-format regexes, and `signIn`.
  - `generatePassword` and `editAdminProfile`.
  - Account creation: `newAdmin`, `newStudent`, `newLecturer`.
  - The result lifecycle: `closeResultSubmission` and `releaseResult`.
  - `registerCoursesForSemester` and `getCourseInfo`.
  - The term state machine `updateStudentSemesterLevel`. Its level and
    session labels are read with JavaScript's `parseInt` (section 19.2.5 of
    ECMA-262) and written with template literals.
- **Lecturer side** (`controllers/lecturerController.js`)
  - `getAssignedCourses`.
  - Result upload and score edits.
  - The ownership check of `getCourseResults`.

Each handler is a pure function from the old collections to a reply and
the new collections. The reply is `Ok` or `Fail` with `Invalid` (400),
`Unauthorized` (401), `Forbidden` (403), `NotFound` (404) or `ServerError`
(500). Where the source changes documents step by step, a method on
`Database` does the same loop. Its postcondition says the method computes
exactly the pure function.

Modules:
- `Wrappers`: `Option`, `Outcome`.
- `Seqs`: find, filter, map, flatten and dedup, with their lemmas.
- `Catalog`.
- `Records`: document datatypes and the store.
- `Grading`.
- `Arithmetic`: weighted-mean bounds.
- `Labels`: `parseInt` and number text.
- `StudentController`, `AdminController`, `LecturerController`.

The model follows the code in these details:
- A total of 44 earns grade point 1 (studentController.js:161).
- Scores are stored as given; no handler checks their range.
- `releaseResult` does not look at `submissionClosed`.
- `editCourseResults` does not look at the release flags.
- Uploaded results carry no `courseCode` (lecturerController.js:129-137),
  while `getGPA` looks courses up by it (studentController.js:153-165). So
  the GPA of uploaded results is 0 (`LecturerController.UploadedRecordsGpaZero`).
- A numbered level never becomes `"Final Year"`. Only a student whose
  label already is `"Final Year"` can graduate (`AdminController.AdvanceNeverReachesFinalYear`).

## Model

| member | source | states |
|---|---|---|
| Grading.GradePoint | controllers/studentController.js:155-162 | The grade point is at most 5. It is the highest bracket whose inclusive lower bound (40, 45, 50, 60, 70) the total reaches, and the total is below the next bound. |
| Grading.GradePointMonotone | controllers/studentController.js:157-162 | A higher total never earns a lower grade point. |
| Grading.GradePointUnique | controllers/studentController.js:157-162 | The bracket conditions determine the grade point: any g satisfying them is the grade point. |
| Grading.GradePointBoundaries | controllers/studentController.js:157-162 | 70→5, 69→4, 60→4, 50→3, 45→2, 44→1, 40→1 and 39→0. |
| Catalog.LookupComplete | controllers/studentController.js:164 | With unique JSON keys, the optional-chained lookup `cat[d]?.[l]?.[s]` succeeds exactly when the catalog holds that department, level and semester. |
| Catalog.LookupAt | controllers/adminController.js:316 | With unique keys, the lookup of a held path returns the course list stored at that path. |
| Catalog.LookupSound | controllers/adminController.js:358 | A successful lookup returns a list the catalog holds under those three keys. |
| Records.StudentIndex | controllers/studentController.js:128 | `findById`: a found index holds a student with that id, and None means no student has it. |
| StudentController.ReleasedInTerm | controllers/studentController.js:146 | Exactly the records of that student, semester and level whose `isReleased` is set, taken from the store. |
| StudentController.AccumulateGpa | controllers/studentController.js:149-176 | The loop's two totals are the weighted grade points and the units of the results recorded in the catalog under the student's department, level and semester. Results missing from the catalog add nothing. |
| StudentController.ContributionOf | controllers/studentController.js:164-175 | A result whose course is listed with u units adds gradePoint×u to the points and u to the units. |
| StudentController.WeightedPointsBetween | controllers/studentController.js:149-176 | If every counted grade point lies in [lo, hi], the weighted points lie between lo×units and hi×units. |
| StudentController.GpaBetween | controllers/studentController.js:178 | With positive units, the semester GPA lies between the smallest and the largest counted grade point. |
| StudentController.NoCodeGpaZero | controllers/studentController.js:164-178 | Results without a `courseCode` count no units, so the semester GPA is 0. |
| StudentController.GpaInRange | controllers/studentController.js:178 | The semester GPA is always within [0, 5], and it is 0 when no units are counted. |
| StudentController.FoldCgpaBetween | controllers/studentController.js:188 | The new CGPA lies between the old CGPA and the new GPA for any bounds containing both. |
| StudentController.FoldCgpaIsMean | controllers/studentController.js:188 | Folding term by term keeps the CGPA equal to the plain mean of all semester GPAs. |
| StudentController.ComputeGpa | controllers/studentController.js:123-201 | An unknown student is a 404 with no change. If the GPA was already computed, nothing changes and the reply is the student's stored `semesterGPA` and `cgpa`. With no released results it is a 404 with no change. Every failure is a 404 with no change. |
| StudentController.ComputeGpaFresh | controllers/studentController.js:146-190 | A fresh run replies with the GPA of the released results and the CGPA folded from it. It sets that student's `semesterGPA` and `cgpa` and raises `levelsCompleted` by one. It flags every record of the term `isGpaCalculated`. Nothing else changes. |
| StudentController.ComputeGpaIdempotent | controllers/studentController.js:131-144 | A second call takes the guard branch: same reply, no change. |
| StudentController.ComputeGpaKeepsRange | controllers/studentController.js:178-189 | A CGPA in [0, 5] stays in [0, 5], and a fresh GPA and CGPA are in [0, 5]. |
| StudentController.MarkTermInPlace | controllers/studentController.js:181-184 | Flags exactly the records of the term, one by one. No other collection changes. |
| StudentController.GetGpa | controllers/studentController.js:123-201 | The handler on the store, with the source's loop, computes exactly `ComputeGpa`. |
| StudentController.MergeCarryOverMembers | controllers/studentController.js:75 | A code is in the merged list iff it was in the old list or among the failing codes. |
| StudentController.MergeCarryOverDistinct | controllers/studentController.js:75 | The merged list has no duplicates. |
| StudentController.MergeCarryOverKeepsOld | controllers/studentController.js:75 | A duplicate-free old list survives unchanged at the front. |
| StudentController.MergeCarryOverIdempotent | controllers/studentController.js:75 | Merging the same failing codes again changes nothing. |
| StudentController.FailingCodesMembers | controllers/studentController.js:69-74 | A result with a total below 45 contributes its course code. A code that is absent means a total of at least 45. |
| StudentController.ReportResults | controllers/studentController.js:60-85 | It fails exactly when the student is unknown or has no released results for the term; a failure is a 404 with no change. On success the reply lists the released results of the term, and only that student's carry-over list changes, to the list in the reply. |
| StudentController.ReportResultsFound | controllers/studentController.js:65-76 | On success the reply holds the released results and the merged carry-over list, and the student gets that list. |
| StudentController.ReportResultsAgain | controllers/studentController.js:69-76 | For a found student with released results, a second call gives the same reply and the same carry-over list. |
| StudentController.ReportResultsIdempotent | controllers/studentController.js:69-76 | Asking twice leaves the carry-over list as the first call left it. |
| StudentController.ReportResultsAsWritten | controllers/studentController.js:67 | As written, `result` always fails and changes nothing. A known student gets a 500. |
| StudentController.ReportResultsAsWrittenLosesCarryOver | controllers/studentController.js:67 | On a concrete store with one failed released result, the code as written saves no carry-over, while the intended handler records it. |
| StudentController.ReportResult | controllers/studentController.js:60-85 | The handler on the store computes exactly `ReportResults`. |
| StudentController.MatchRegistered | controllers/studentController.js:102-104 | Every course returned is a catalog entry. |
| StudentController.MatchRegisteredFirst | controllers/studentController.js:102-104 | As `.find` does, each returned course is the first catalog entry with its code. |
| StudentController.MatchRegisteredCodes | controllers/studentController.js:102-104 | The codes of the returned courses are the registered codes the catalog knows, in registration order. |
| StudentController.RegisteredCourses | controllers/studentController.js:87-110 | An unknown student or department is a 404, exactly then. Otherwise the codes of the courses in the reply are the student's registered codes that the department's catalog knows, in registration order. |
| AdminController.Matches | controllers/adminController.js:17 | An anchored class pattern (no `m` flag) matches iff the lengths agree and every character is in its class. |
| AdminController.ValidAdminIdShape | controllers/adminController.js:17 | Admin ID: exactly 4 characters A-Z, '/', then 4 digits 0-9. |
| AdminController.ValidLecturerIdShape | controllers/adminController.js:168 | Registration ID: exactly 4 letters of either case, '/', then 4 digits. |
| AdminController.ValidMatricNoShape | controllers/adminController.js:135 | Matric number: exactly 3 letters, '/', 2 digits, '/', then 4 digits. |
| AdminController.AdminIdIsLecturerId | controllers/adminController.js:17 | Every admin ID also has the lecturer format. |
| AdminController.LowerCaseIdExample | controllers/adminController.js:168 | "abcd/1234" passes the lecturer check and fails the admin check. |
| AdminController.TrailingNewlineExample | controllers/adminController.js:97 | A trailing newline is rejected: `$` matches only at the end of the input. |
| AdminController.MatricNoExample | controllers/adminController.js:135 | "CSC/20/0001" is valid, and a four-digit year in the middle is not. |
| AdminController.AdminByAdminId | controllers/adminController.js:19 | `findOne({ adminId })`: a found admin has that ID, and None means no admin has it. |
| AdminController.SignIn | controllers/adminController.js:13-22 | A malformed ID is a 400 before any lookup. An unknown ID is a 404. A name or password mismatch is a 401. Success returns the stored admin with that ID, name and matching password. |
| AdminController.SignInAt | controllers/adminController.js:19-22 | With unique admin IDs, the admin at a position is the one found, and the reply depends on its name and password. |
| AdminController.GeneratePassword | controllers/adminController.js:101-107 | One character per byte; character i is `chars[b_i mod 70]`, so it comes from the 70-character alphabet. |
| AdminController.PasswordCharsReachable | controllers/adminController.js:102-104 | Every character of the alphabet is produced by some byte. |
| AdminController.PasswordByteBias | controllers/adminController.js:104 | The bytes mapping to character k are k, k+70, k+140, and k+210 when k < 46: the first 46 characters are more likely. |
| AdminController.ApplyEditFields | controllers/adminController.js:73-82 | Each truthy field replaces the stored one. A truthy password is stored hashed. The other fields, the document id and the admin ID stay as they were. |
| AdminController.ApplyEmptyEdit | controllers/adminController.js:73-82 | An edit with no truthy field changes nothing. |
| AdminController.ApplyEditIdempotent | controllers/adminController.js:73-82 | With a fixed hash, repeating an edit gives what the first one gave. |
| AdminController.AdminIndex | controllers/adminController.js:63 | `findById`: the found index holds that document id, and None means no admin has it. |
| AdminController.EditProfile | controllers/adminController.js:58-90 | An unknown admin is a 404 with no change. An email used by another admin is a 400, exactly then, with no change. On success only that admin changes, to the edited profile. |
| AdminController.EditProfileKeepsEmailsUnique | controllers/adminController.js:66-71 | If emails and document ids are unique before an edit, emails are unique after it. |
| AdminController.EditAdminProfile | controllers/adminController.js:58-90 | The handler on the store, assigning field by field, computes exactly `EditProfile` and touches no other collection. |
| AdminController.CreateAdmin | controllers/adminController.js:92-130 | A malformed or taken admin ID is a 400 with no change. Otherwise the admin is appended with the hashed generated password, and the reply carries the plain one, 8 characters long. |
| AdminController.CreateAdminKeepsAdminIdsUnique | controllers/adminController.js:99-100 | Admin IDs stay unique. |
| AdminController.CreateAdminThenSignIn | controllers/adminController.js:107-124 | The new admin can sign in with the given name and the returned plain password, when the password check accepts exactly the hash of the plain text. |
| AdminController.NewAdmin | controllers/adminController.js:92-130 | The handler on the store computes exactly `CreateAdmin`. |
| AdminController.CreateStudent | controllers/adminController.js:131-162 | A malformed or taken matric number is a 400 with no change. Otherwise the new student document is appended. |
| AdminController.NewStudentStartsClean | controllers/adminController.js:141-155 | A new student has CGPA 0, GPA 0, no levels completed, and no registered or carry-over courses. It is at the given level, semester and session. |
| AdminController.NewStudent | controllers/adminController.js:131-162 | The handler on the store computes exactly `CreateStudent`. |
| AdminController.CreateLecturer | controllers/adminController.js:164-198 | A malformed or taken registration ID is a 400 with no change. Otherwise the lecturer is appended. Exactly the courses whose code is in `coursesTaking` get the new lecturer, and no other field changes. |
| AdminController.NewLecturer | controllers/adminController.js:164-198 | The handler on the store, with the `updateMany` done course by course, computes exactly `CreateLecturer`. |
| AdminController.CloseAll | controllers/adminController.js:290 | Every course gets `submissionClosed`, and nothing else changes. |
| AdminController.CloseAllIdempotent | controllers/adminController.js:290 | Closing twice is closing once. |
| AdminController.CloseResultSubmission | controllers/adminController.js:288-296 | The handler on the store computes exactly `CloseAll`. |
| AdminController.ReleaseAsWritten | controllers/adminController.js:298-309 | As written: a 404 iff there are no results. Otherwise every result gets `released`, and every other field, `isReleased` included, is unchanged. |
| AdminController.ReleaseAsWrittenHidesResults | controllers/adminController.js:303 | After the release as written, the student side sees results of a term exactly when it saw them before. |
| AdminController.ReleaseAsWrittenLeavesGpaMissing | controllers/adminController.js:303 | On a concrete store, `getGPA` is still a 404 after the release as written, and succeeds after the intended release. |
| AdminController.ReleaseAll | controllers/adminController.js:298-309 | A 404 with no change iff there are no results. Otherwise every result gets both `released` and `isReleased`, and nothing else changes. |
| AdminController.ReleaseAllShowsTerm | controllers/adminController.js:298-309 | After the release, every record of a term reaches the student side. |
| AdminController.ReleaseResult | controllers/adminController.js:298-309 | The handler on the store computes exactly `ReleaseAll`. |
| AdminController.RegisterReplaces | controllers/adminController.js:316-317 | The new list does not depend on the old one (replace, not merge), and no other field changes. |
| AdminController.RegisterFromCatalog | controllers/adminController.js:316-317 | With unique keys, a student on a held path gets that list's course codes, in catalog order. |
| AdminController.RegisterMissingPath | controllers/adminController.js:316 | A missing department, level or semester gives an empty list. |
| AdminController.RegisterIdempotent | controllers/adminController.js:313-319 | Registering twice is registering once. |
| AdminController.RegisterAll | controllers/adminController.js:313-319 | Every student is registered on its own fields. |
| AdminController.RegisterCoursesForSemester | controllers/adminController.js:311-325 | The loop on the store computes exactly `RegisterAll`. |
| AdminController.AdvanceFirstSemester | controllers/adminController.js:342-343 | A student not graduated and not in the second semester moves to the second semester; level, session and `levelsCompleted` stay. |
| AdminController.AdvanceKeepsOtherFields | controllers/adminController.js:330-344 | Only level, semester, session and `levelsCompleted` can change. |
| AdminController.AdvanceGraduation | controllers/adminController.js:331-336 | `Graduated` is left unchanged. Final Year / Second Semester becomes Graduated in all three labels with one more level completed. Only that case leads into Graduated. |
| AdminController.AdvanceCountsLevels | controllers/adminController.js:336-343 | `levelsCompleted` rises by one exactly when a non-graduated student ends a Second Semester. |
| AdminController.AdvanceNextYear | controllers/adminController.js:337-341 | A numbered second semester moves to First Semester. The level reads back as the old level + 100 and the session as the old session + 1. |
| AdminController.AdvanceNaNLevel | controllers/adminController.js:338 | A level without a leading number becomes "NaN Level", which stays NaN. |
| AdminController.AdvanceNeverReachesFinalYear | controllers/adminController.js:337-344 | No transition produces the label "Final Year". |
| AdminController.AdvanceAll | controllers/adminController.js:329-346 | Each student's new state is the per-student step applied to its own fields. |
| AdminController.AdvanceTwice | controllers/adminController.js:337-343 | Two runs from a numbered first semester reach the next level's first semester and the next session, with one more level completed. |
| AdminController.AdvanceStep | controllers/adminController.js:332-344 | The loop body for a student not yet graduated computes exactly `Advance`. |
| AdminController.UpdateStudentSemesterLevel | controllers/adminController.js:327-352 | The loop on the store, `continue` included, computes exactly `AdvanceAll`. |
| AdminController.CourseInfo | controllers/adminController.js:354-366 | A missing path or an empty list is a 404. Otherwise the reply is the non-empty list found at the path. |
| AdminController.CourseInfoAgreesWithCatalog | controllers/adminController.js:358-361 | With unique keys, a path the catalog lacks is a 404, and a success lists the courses stored at a held path. |
| Labels.NumberTextRoundTrip | controllers/adminController.js:338-340 | `parseInt` of `${n}` followed by a word such as " Level" or " Session" gives n back. |
| Labels.NaNTextIsNaN | controllers/adminController.js:338-340 | `parseInt` of "NaN…" is NaN, so NaN survives every later step. |
| LecturerController.AssignedCourses | controllers/lecturerController.js:8-13 | Exactly the catalog courses whose `lecturer` is the given name. |
| LecturerController.AssignedCoursesAppend | controllers/lecturerController.js:8-13 | The order is catalog traversal order: earlier departments come first. |
| LecturerController.AssignedCoursesAsWrittenEmpty | controllers/lecturerController.js:9-12 | As written, the filter sees semester arrays, which have no `lecturer`, and so it always returns nothing. |
| LecturerController.AssignedCoursesAsWrittenMisses | controllers/lecturerController.js:8-13 | On a one-course catalog, the code as written finds nothing and the intended filter finds the course. |
| LecturerController.UploadedRecordsMatchEntries | controllers/lecturerController.js:122-138 | One record per entry whose student is found and whose code is assigned, in entry order. The n-th record is the one built from the n-th accepted entry. |
| LecturerController.UploadedRecordsFresh | controllers/lecturerController.js:129-137 | Uploaded records are neither `released` nor `isReleased` nor `isGpaCalculated`, and carry no stored `courseCode`. |
| LecturerController.UploadedRecordsGpaZero | controllers/lecturerController.js:129-137 | `getGPA` finds no units for uploaded records, so their semester GPA is 0. |
| LecturerController.RecordOfFields | controllers/lecturerController.js:129-137 | A record copies student id, scores and gpa from the entry. Semester and level come from the student's current ones, and the course id from the assigned catalog course with that code. |
| LecturerController.Upload | controllers/lecturerController.js:112-145 | An unknown lecturer or one with no assigned courses is a 404, exactly then, with no records created. Otherwise the uploaded records are appended. |
| LecturerController.CreateResults | controllers/lecturerController.js:122-138 | The loop with its two `continue`s appends exactly the uploaded records. |
| LecturerController.UploadCourseResults | controllers/lecturerController.js:112-145 | The handler on the store computes exactly `Upload` and touches only results. |
| LecturerController.EditTarget | controllers/lecturerController.js:152-158 | Finds a course exactly when the lecturer and the student exist and the code is among the lecturer's assigned courses. The course found is that one. |
| LecturerController.EditScores | controllers/lecturerController.js:147-171 | A failed check is a 404, exactly then, with no change. Otherwise the records matching (student, course id) get the new test and exam scores, and every other record is unchanged. |
| LecturerController.EditScoresIdempotent | controllers/lecturerController.js:159-164 | Repeating an edit gives what the first one gave. |
| LecturerController.EditScoresKeepsRecords | controllers/lecturerController.js:159-164 | Only the two score fields of any record change. |
| LecturerController.EditAsWritten | controllers/lecturerController.js:165 | As written, every edit fails, a 500 once the checks pass, and nothing is stored. |
| LecturerController.ExampleEditTarget | controllers/lecturerController.js:152-158 | On the concrete store, the lecturer, student and course checks pass and the target is CSC 101. |
| LecturerController.EditAsWrittenLosesScores | controllers/lecturerController.js:147-171 | On a concrete store, the code as written keeps the old scores, while the intended edit stores the new ones. |
| LecturerController.EditCourseResults | controllers/lecturerController.js:147-171 | The handler on the store, record by record, computes exactly `EditScores`. |
| LecturerController.CourseResults | controllers/lecturerController.js:92-110 | A missing course, then a missing lecturer, is a 404, exactly then. Another lecturer's course is a 403, exactly then. A course with no lecturer throws (500). Success means the requester owns the course, and the reply is exactly the results of that course. |
| LecturerController.NewLecturerOwnsCourses | controllers/lecturerController.js:100 | A lecturer created with a course code passes the ownership check for that course and gets its results. |

## Left out

- Tokens: JWT signing and verification, refresh-token cookies, `generateToken` and the auth middleware are token plumbing. The caller's id (`req.user.id`) is a parameter.
- bcrypt: `bcrypt.hash` and `bcrypt.compare` are foreign calls. They are the parameters `hash` and `passwordMatches`.
- Randomness: `crypto.randomFillSync` is a parameter (the bytes). Mongo's ObjectId generation is a parameter (`newId`).
- HTTP: status codes are the `Failure` kinds. Response bodies, routes and `server.js` are not modelled.
- Mongoose schemas are not modelled. This covers `required`, defaults and casts, the `CastError` of a malformed ObjectId, and `populate`. Documents are plain datatypes. A new student's unset numeric fields start at 0 and its lists start empty; in JavaScript they would be undefined.
- `editStudentInfo`, `editLecturerInfo` and the profile getters are not modelled, because they are plain reads and writes of a document. The same holds for `all*`, `logout` and the lecturer and student `signIn`.
- `searchStudent`, `searchLecturer` (`$regex` query semantics) and `resultPreview` are not modelled.
- Profile fields `newStudent` and `newLecturer` copy but nothing reads (date of birth, phone, state of origin and the like) are not in the documents.
- Request fields are modelled as strings or absent. JavaScript truthiness of non-string values is not modelled.
- StudentController.ComputeGpa: the GPA is the exact rational. `toFixed(2)` and `parseFloat` rounding is not modelled.
- The `else` branch of `getGPA` at studentController.js:191-195 cannot run, because the guard above returns first. It has no member.
- Labels.ParseInt: numbers beyond 2^53 lose precision in JavaScript, and large ones print with an exponent. The model uses unbounded integers.
- A lecturer document without `fullName` in `getAssignedCourses` (an `undefined` name matching courses without a lecturer) is not modelled.
- `Result.find({ course: undefined })` for a catalog entry without `_id` (Mongoose drops undefined filter keys) is not modelled. The model matches records whose course is also absent.
- `updateMany` is atomic per document only. The methods do it as one loop on one store; concurrency is not modelled.
- Errors thrown by the store (the generic 500 paths) are not modelled.
- The missing `courseCode` on uploaded results is not repaired. The Result schema has no such field. Either uploads would store it or `getGPA` would look the course up by `course`; the code does not say which. `LecturerController.UploadedRecordsGpaZero` states the consequence.

## Findings

| source | as written | input that shows it | evidently intended | confidence | as-written member | corrected member |
|---|---|---|---|---|---|---|
| controllers/studentController.js:67 | The query uses `student: id`, but no `id` is declared, so the handler throws a ReferenceError and replies 500. | A known student with one released result totalling 30 for the term. | Filter on `studentId` and save the merged carry-over list. | not executed | StudentController.ReportResultsAsWrittenLosesCarryOver | StudentController.ReportResults |
| controllers/lecturerController.js:9-12 | Two `flatMap`s over `Object.values` stop at the semester arrays. The filter then compares an array's missing `lecturer` with the name, so nothing is ever assigned and every upload and edit is a 404. | A catalog with one course, CSC 101, whose `lecturer` is "Dr Bello". | Flatten one level further and filter the courses. | not executed | LecturerController.AssignedCoursesAsWrittenMisses | LecturerController.AssignedCourses |
| controllers/lecturerController.js:165 | `results.save()` is called on the array `Result.find` returns. It throws a TypeError and replies 500, and the new scores are never stored. | Lecturer "Dr Bello" teaches CSC 101, and student s1 has one result for it. | Save each matching document. | not executed | LecturerController.EditAsWrittenLosesScores | LecturerController.EditScores |
| controllers/adminController.js:303 | The release sets `released`, but the student side reads `isReleased` (studentController.js:115, 146), so released results stay invisible. | One student and one unreleased result for the term: `getGPA` is still a 404 after the release. | Set `isReleased`. | not executed | AdminController.ReleaseAsWrittenLeavesGpaMissing | AdminController.ReleaseAll |

Upload and edit use the corrected `AssignedCourses`, `ReportResult` uses
`ReportResults`, `EditCourseResults` uses `EditScores`, and `ReleaseResult`
uses `ReleaseAll`.
