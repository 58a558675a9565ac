/** The admin side (controllers/adminController.js): the ID-format checks,
    sign-in, password generation, profile edits, account creation, the result
    lifecycle (closing submission, releasing results), course registration,
    term progression and the course-information lookup. */
module AdminController {
  import opened Wrappers
  import opened Seqs
  import opened Catalog
  import opened Records
  import opened Labels
  import opened StudentController

  // ID formats: `/^[A-Z]{4}\/\d{4}$/`, `/^[A-Za-z]{4}\/\d{4}$/` and
  // `/^[A-Za-z]{3}\/\d{2}\/\d{4}$/`. Without the `m` flag `$` matches only
  // at the very end of the input, and `\d` is an ASCII digit.

  /** The character classes the three patterns are made of. */
  datatype CharClass = Upper | Letter | Digit | Slash

  predicate InClass(c: char, k: CharClass)
  {
    match k
    case Upper => 'A' <= c <= 'Z'
    case Letter => 'A' <= c <= 'Z' || 'a' <= c <= 'z'
    case Digit => '0' <= c <= '9'
    case Slash => c == '/'
  }

  /** An anchored pattern without alternation or repetition: one class per
      position, and nothing before or after. */
  function Matches(s: string, pattern: seq<CharClass>): (r: bool)
    ensures r <==> |s| == |pattern| && forall i :: 0 <= i < |s| ==> InClass(s[i], pattern[i])
  {
    if pattern == [] then s == []
    else s != [] && InClass(s[0], pattern[0]) && Matches(s[1..], pattern[1..])
  }

  function Repeat(k: CharClass, n: nat): (r: seq<CharClass>)
    ensures |r| == n && forall i :: 0 <= i < n ==> r[i] == k
  {
    seq(n, _ => k)
  }

  /** `[A-Z]{4}\/\d{4}`. */
  function AdminIdPattern(): seq<CharClass>
  {
    Repeat(Upper, 4) + [Slash] + Repeat(Digit, 4)
  }

  /** `[A-Za-z]{4}\/\d{4}`. */
  function LecturerIdPattern(): seq<CharClass>
  {
    Repeat(Letter, 4) + [Slash] + Repeat(Digit, 4)
  }

  /** `[A-Za-z]{3}\/\d{2}\/\d{4}`. */
  function MatricNoPattern(): seq<CharClass>
  {
    Repeat(Letter, 3) + [Slash] + Repeat(Digit, 2) + [Slash] + Repeat(Digit, 4)
  }

  predicate ValidAdminId(s: string) { Matches(s, AdminIdPattern()) }
  predicate ValidLecturerId(s: string) { Matches(s, LecturerIdPattern()) }
  predicate ValidMatricNo(s: string) { Matches(s, MatricNoPattern()) }

  /** An admin ID is four capital letters, a slash and four digits. */
  lemma ValidAdminIdShape(s: string)
    ensures ValidAdminId(s) <==>
              |s| == 9 && (forall i :: 0 <= i < 4 ==> 'A' <= s[i] <= 'Z') && s[4] == '/' &&
              (forall i :: 5 <= i < 9 ==> '0' <= s[i] <= '9')
  {
    var p := AdminIdPattern();
    assert forall i :: 0 <= i < 4 ==> p[i] == Upper;
    assert forall i :: 5 <= i < 9 ==> p[i] == Digit;
  }

  /** A lecturer registration ID is four letters of either case, a slash and
      four digits. */
  lemma ValidLecturerIdShape(s: string)
    ensures ValidLecturerId(s) <==>
              |s| == 9 && (forall i :: 0 <= i < 4 ==> 'A' <= s[i] <= 'Z' || 'a' <= s[i] <= 'z') && s[4] == '/' &&
              (forall i :: 5 <= i < 9 ==> '0' <= s[i] <= '9')
  {
    var p := LecturerIdPattern();
    assert forall i :: 0 <= i < 4 ==> p[i] == Letter;
    assert forall i :: 5 <= i < 9 ==> p[i] == Digit;
  }

  /** A matric number is three letters, a slash, two digits, a slash and
      four digits. */
  lemma ValidMatricNoShape(s: string)
    ensures ValidMatricNo(s) <==>
              |s| == 11 && (forall i :: 0 <= i < 3 ==> 'A' <= s[i] <= 'Z' || 'a' <= s[i] <= 'z') && s[3] == '/' &&
              '0' <= s[4] <= '9' && '0' <= s[5] <= '9' && s[6] == '/' &&
              (forall i :: 7 <= i < 11 ==> '0' <= s[i] <= '9')
  {
    var p := MatricNoPattern();
    assert forall i :: 0 <= i < 3 ==> p[i] == Letter;
    assert p[4] == Digit && p[5] == Digit;
    assert forall i :: 7 <= i < 11 ==> p[i] == Digit;
  }

  /** Every admin ID also has the lecturer format; the converse fails on
      lower-case letters. */
  lemma AdminIdIsLecturerId(s: string)
    requires ValidAdminId(s)
    ensures ValidLecturerId(s)
  {
    ValidAdminIdShape(s);
    ValidLecturerIdShape(s);
  }

  /** A lower-case ID has the lecturer format but not the admin format. */
  lemma LowerCaseIdExample()
    ensures ValidLecturerId("abcd/1234") && !ValidAdminId("abcd/1234")
  {
    var s := "abcd/1234";
    var p := LecturerIdPattern();
    assert p == [Letter, Letter, Letter, Letter, Slash, Digit, Digit, Digit, Digit];
    assert forall i :: 0 <= i < 9 ==> InClass(s[i], p[i]);
    assert !InClass(s[0], AdminIdPattern()[0]);
  }

  /** `$` does not match before a final newline: a trailing line break
      makes the ID invalid. */
  lemma TrailingNewlineExample()
    ensures ValidAdminId("ABCD/1234") && !ValidAdminId("ABCD/1234\n")
  {
    var s := "ABCD/1234";
    var p := AdminIdPattern();
    assert p == [Upper, Upper, Upper, Upper, Slash, Digit, Digit, Digit, Digit];
    assert forall i :: 0 <= i < 9 ==> InClass(s[i], p[i]);
    assert |"ABCD/1234\n"| == 10;
  }

  lemma MatricNoExample()
    ensures ValidMatricNo("CSC/20/0001") && !ValidMatricNo("CSC/2020/0001")
  {
    var s := "CSC/20/0001";
    var p := MatricNoPattern();
    assert p == [Letter, Letter, Letter, Slash, Digit, Digit, Slash, Digit, Digit, Digit, Digit];
    assert forall i :: 0 <= i < 11 ==> InClass(s[i], p[i]);
    assert |"CSC/2020/0001"| == 13;
  }

  // Sign-in (lines 13-35).

  function AdminIdIs(adminId: string): Admin -> bool { (a: Admin) => a.adminId == adminId }

  /** `Admin.findOne({ adminId })`. */
  function AdminByAdminId(admins: seq<Admin>, adminId: string): (r: Option<Admin>)
    ensures r.Some? ==> r.value in admins && r.value.adminId == adminId
    ensures r.None? <==> forall j :: 0 <= j < |admins| ==> admins[j].adminId != adminId
  {
    Find(admins, AdminIdIs(adminId))
  }

  /** `signIn`: the format check comes before any lookup; then an unknown ID,
      a wrong name and a wrong password, in that order. `passwordMatches`
      stands for `bcrypt.compare` of the supplied password with a stored hash.
      The tokens and the cookie are not modelled. */
  function SignIn(admins: seq<Admin>, userId: string, fullName: string, passwordMatches: string -> bool): (r: Outcome<Admin>)
    ensures !ValidAdminId(userId) ==> r == Fail(Invalid)
    ensures r == Fail(NotFound) <==> ValidAdminId(userId) && forall j :: 0 <= j < |admins| ==> admins[j].adminId != userId
    ensures r.Ok? ==> ValidAdminId(userId) && r.value in admins && r.value.adminId == userId &&
                      r.value.fullName == fullName && passwordMatches(r.value.password)
    ensures r.Fail? ==> r.error == Invalid || r.error == NotFound || r.error == Unauthorized
  {
    if !ValidAdminId(userId) then Fail(Invalid)
    else
      match AdminByAdminId(admins, userId)
      case None => Fail(NotFound)
      case Some(a) =>
        if a.fullName != fullName then Fail(Unauthorized)
        else if !passwordMatches(a.password) then Fail(Unauthorized)
        else Ok(a)
  }

  /** No two admins share an admin ID (the schema declares it unique). */
  ghost predicate UniqueAdminIds(admins: seq<Admin>)
  {
    forall i, j :: 0 <= i < |admins| && 0 <= j < |admins| && admins[i].adminId == admins[j].adminId ==> i == j
  }

  /** With unique admin IDs, signing in as the admin at position i succeeds
      exactly when the name and the password match that admin. */
  lemma SignInAt(admins: seq<Admin>, i: nat, fullName: string, passwordMatches: string -> bool)
    requires UniqueAdminIds(admins)
    requires i < |admins| && ValidAdminId(admins[i].adminId)
    ensures SignIn(admins, admins[i].adminId, fullName, passwordMatches) ==
            if admins[i].fullName == fullName && passwordMatches(admins[i].password) then Ok(admins[i]) else Fail(Unauthorized)
  {
    FindOnly(admins, AdminIdIs(admins[i].adminId), i);
  }

  // Password generation (lines 101-107).

  newtype byte = x: int | 0 <= x < 256

  /** The 70 characters `generatePassword` draws from. */
  const PasswordChars: string := "ABCDEFGHIJKLMNOPQRSTUVWXYZabcdefghijklmnopqrstuvwxyz0123456789!@#$%^&*"

  /** `Array.from(bytes).map(x => chars[x % chars.length]).join('')`; the
      bytes stand for `crypto.randomFillSync(new Uint8Array(8))`. */
  function GeneratePassword(bytes: seq<byte>): (p: string)
    ensures |p| == |bytes|
    ensures forall i :: 0 <= i < |p| ==> p[i] == PasswordChars[bytes[i] as int % 70]
    ensures forall i :: 0 <= i < |p| ==> p[i] in PasswordChars
  {
    seq(|bytes|, i requires 0 <= i < |bytes| => PasswordChars[bytes[i] as int % |PasswordChars|])
  }

  /** Every character of the alphabet can occur. */
  lemma PasswordCharsReachable(c: char)
    requires c in PasswordChars
    ensures exists b: byte :: GeneratePassword([b]) == [c]
  {
    var k :| 0 <= k < |PasswordChars| && PasswordChars[k] == c;
    var b := k as byte;
    assert GeneratePassword([b])[0] == c;
  }

  /** The modulo bias: 256 = 3 * 70 + 46, so the first 46 characters are
      drawn by four byte values and the other 24 by three. */
  lemma PasswordByteBias(b: byte, k: nat)
    requires k < 70
    ensures b as int % 70 == k <==> b as int == k || b as int == k + 70 || b as int == k + 140 || (k < 46 && b as int == k + 210)
  {
  }

  // Profile edits (lines 58-90).

  /** The fields `editAdminProfile` reads from the body; None is a field the
      body leaves out. */
  datatype ProfileEdit = ProfileEdit(
    fullName: Option<string>,
    email: Option<string>,
    dateOfBirth: Option<string>,
    stateOfOrigin: Option<string>,
    phone: Option<string>,
    gender: Option<string>,
    profilePic: Option<string>,
    password: Option<string>)

  /** A supplied, non-empty string: JavaScript truthiness of a string field. */
  predicate Truthy(v: Option<string>) { v.Some? && v.value != "" }

  /** `if (v) field = v`: the field after the assignment. */
  function Pick(v: Option<string>, current: string): string
  {
    if Truthy(v) then v.value else current
  }

  /** Lines 73-82: each truthy field is assigned; the password is stored as
      `hash` of the new password (`bcrypt.hash`). */
  function ApplyEdit(a: Admin, e: ProfileEdit, hash: string -> string): Admin
  {
    a.(fullName := Pick(e.fullName, a.fullName),
       email := Pick(e.email, a.email),
       dateOfBirth := Pick(e.dateOfBirth, a.dateOfBirth),
       stateOfOrigin := Pick(e.stateOfOrigin, a.stateOfOrigin),
       phone := Pick(e.phone, a.phone),
       gender := Pick(e.gender, a.gender),
       profilePic := Pick(e.profilePic, a.profilePic),
       password := if Truthy(e.password) then hash(e.password.value) else a.password)
  }

  /** Only the supplied fields change; the document id and the admin ID
      never do. */
  lemma ApplyEditFields(a: Admin, e: ProfileEdit, hash: string -> string)
    ensures var b := ApplyEdit(a, e, hash);
            && b.id == a.id && b.adminId == a.adminId
            && (Truthy(e.fullName) ==> b.fullName == e.fullName.value) && (!Truthy(e.fullName) ==> b.fullName == a.fullName)
            && (Truthy(e.email) ==> b.email == e.email.value) && (!Truthy(e.email) ==> b.email == a.email)
            && (Truthy(e.dateOfBirth) ==> b.dateOfBirth == e.dateOfBirth.value) && (!Truthy(e.dateOfBirth) ==> b.dateOfBirth == a.dateOfBirth)
            && (Truthy(e.stateOfOrigin) ==> b.stateOfOrigin == e.stateOfOrigin.value) && (!Truthy(e.stateOfOrigin) ==> b.stateOfOrigin == a.stateOfOrigin)
            && (Truthy(e.phone) ==> b.phone == e.phone.value) && (!Truthy(e.phone) ==> b.phone == a.phone)
            && (Truthy(e.gender) ==> b.gender == e.gender.value) && (!Truthy(e.gender) ==> b.gender == a.gender)
            && (Truthy(e.profilePic) ==> b.profilePic == e.profilePic.value) && (!Truthy(e.profilePic) ==> b.profilePic == a.profilePic)
            && (Truthy(e.password) ==> b.password == hash(e.password.value)) && (!Truthy(e.password) ==> b.password == a.password)
  {
  }

  /** An edit that supplies no truthy field leaves the profile as it was. */
  lemma ApplyEmptyEdit(a: Admin, e: ProfileEdit, hash: string -> string)
    requires !Truthy(e.fullName) && !Truthy(e.email) && !Truthy(e.dateOfBirth) && !Truthy(e.stateOfOrigin)
    requires !Truthy(e.phone) && !Truthy(e.gender) && !Truthy(e.profilePic) && !Truthy(e.password)
    ensures ApplyEdit(a, e, hash) == a
  {
  }

  /** Sending the same edit twice gives the profile the first one gave. */
  lemma ApplyEditIdempotent(a: Admin, e: ProfileEdit, hash: string -> string)
    ensures ApplyEdit(ApplyEdit(a, e, hash), e, hash) == ApplyEdit(a, e, hash)
  {
  }

  function HasEmail(email: string): Admin -> bool { (a: Admin) => a.email == email }

  /** Lines 66-71: the email is supplied and `Admin.findOne({ email })` finds
      a document with another id. */
  predicate EmailTaken(admins: seq<Admin>, adminId: string, email: Option<string>)
  {
    Truthy(email) &&
    match Find(admins, HasEmail(email.value))
    case None => false
    case Some(other) => other.id != adminId
  }

  /** The reply and the new contents of the Admin collection. */
  datatype AdminsOutcome = AdminsOutcome(reply: Outcome<Admin>, admins: seq<Admin>)

  function AdminIndex(admins: seq<Admin>, id: string): (r: Option<nat>)
    ensures r.Some? ==> r.value < |admins| && admins[r.value].id == id
    ensures r.None? <==> forall j :: 0 <= j < |admins| ==> admins[j].id != id
  {
    FindIndex(admins, HasAdminId(id))
  }

  /** `editAdminProfile` for the admin whose document id the token carries. */
  function EditProfile(admins: seq<Admin>, adminId: string, e: ProfileEdit, hash: string -> string): (r: AdminsOutcome)
    ensures AdminIndex(admins, adminId).None? ==> r == AdminsOutcome(Fail(NotFound), admins)
    ensures r.reply.Fail? ==> r.admins == admins
    ensures r.reply == Fail(Invalid) <==> AdminIndex(admins, adminId).Some? && EmailTaken(admins, adminId, e.email)
    ensures r.reply.Ok? ==>
              var k := AdminIndex(admins, adminId).value;
              && !EmailTaken(admins, adminId, e.email)
              && r.reply.value == ApplyEdit(admins[k], e, hash)
              && r.admins == admins[k := r.reply.value]
  {
    match AdminIndex(admins, adminId)
    case None => AdminsOutcome(Fail(NotFound), admins)
    case Some(k) =>
      if EmailTaken(admins, adminId, e.email) then AdminsOutcome(Fail(Invalid), admins)
      else
        var updated := ApplyEdit(admins[k], e, hash);
        AdminsOutcome(Ok(updated), admins[k := updated])
  }

  /** No two admins share an email address. */
  ghost predicate UniqueEmails(admins: seq<Admin>)
  {
    forall i, j :: 0 <= i < |admins| && 0 <= j < |admins| && admins[i].email == admins[j].email ==> i == j
  }

  ghost predicate UniqueDocumentIds(admins: seq<Admin>)
  {
    forall i, j :: 0 <= i < |admins| && 0 <= j < |admins| && admins[i].id == admins[j].id ==> i == j
  }

  /** The email check keeps addresses unique: an edit can only take an
      address no other admin holds. */
  lemma EditProfileKeepsEmailsUnique(admins: seq<Admin>, adminId: string, e: ProfileEdit, hash: string -> string)
    requires UniqueEmails(admins) && UniqueDocumentIds(admins)
    ensures UniqueEmails(EditProfile(admins, adminId, e, hash).admins)
  {
    var r := EditProfile(admins, adminId, e, hash);
    if r.reply.Ok? {
      var k := AdminIndex(admins, adminId).value;
      var b := r.admins[k];
      ApplyEditFields(admins[k], e, hash);
      if Truthy(e.email) {
        var other := Find(admins, HasEmail(e.email.value));
        if other.Some? {
          var o :| 0 <= o < |admins| && admins[o] == other.value;
          assert o == k;
        }
        assert forall j :: 0 <= j < |admins| && j != k ==> admins[j].email != e.email.value;
      }
      forall i, j | 0 <= i < |r.admins| && 0 <= j < |r.admins| && r.admins[i].email == r.admins[j].email
        ensures i == j
      {
        if i != k && j != k {
          assert r.admins[i] == admins[i] && r.admins[j] == admins[j];
        }
      }
    }
  }

  /** `editAdminProfile` on the store: the fields are assigned one by one as
      in lines 73-82. */
  method EditAdminProfile(db: Database, adminId: string, e: ProfileEdit, hash: string -> string)
    returns (reply: Outcome<Admin>)
    modifies db
    ensures AdminsOutcome(reply, db.admins) == EditProfile(old(db.admins), adminId, e, hash)
    ensures db.students == old(db.students) && db.results == old(db.results)
    ensures db.courses == old(db.courses) && db.lecturers == old(db.lecturers)
  {
    var admins := db.admins;
    var found := AdminIndex(admins, adminId);
    if found.None? {
      return Fail(NotFound);
    }
    var k := found.value;
    if EmailTaken(admins, adminId, e.email) {
      return Fail(Invalid);
    }
    var admin := admins[k];
    admin := admin.(fullName := Pick(e.fullName, admin.fullName));
    admin := admin.(email := Pick(e.email, admin.email));
    admin := admin.(dateOfBirth := Pick(e.dateOfBirth, admin.dateOfBirth));
    admin := admin.(stateOfOrigin := Pick(e.stateOfOrigin, admin.stateOfOrigin));
    admin := admin.(phone := Pick(e.phone, admin.phone));
    admin := admin.(gender := Pick(e.gender, admin.gender));
    admin := admin.(profilePic := Pick(e.profilePic, admin.profilePic));
    if Truthy(e.password) {
      admin := admin.(password := hash(e.password.value));
    }
    assert admin == ApplyEdit(admins[k], e, hash);
    db.admins := admins[k := admin];
    reply := Ok(admin);
  }

  // Account creation (lines 92-198).

  datatype AdminInfo = AdminInfo(
    fullName: string, email: string, adminId: string, dateOfBirth: string,
    stateOfOrigin: string, phone: string, gender: string, profilePic: string)

  datatype NewAdminReply = NewAdminReply(admin: Admin, plainPassword: string)
  datatype CreateAdminOutcome = CreateAdminOutcome(reply: Outcome<NewAdminReply>, admins: seq<Admin>)

  /** `newAdmin`: `newId` is the ObjectId Mongo assigns, `bytes` the eight
      random bytes `generatePassword(8)` draws and `hash` stands for
      `bcrypt.hash`. */
  function CreateAdmin(admins: seq<Admin>, info: AdminInfo, newId: string, bytes: seq<byte>, hash: string -> string): (r: CreateAdminOutcome)
    requires |bytes| == 8
    ensures !ValidAdminId(info.adminId) ==> r == CreateAdminOutcome(Fail(Invalid), admins)
    ensures r.reply.Fail? ==> r.reply.error == Invalid && r.admins == admins
    ensures r.reply.Ok? <==> ValidAdminId(info.adminId) && forall j :: 0 <= j < |admins| ==> admins[j].adminId != info.adminId
    ensures r.reply.Ok? ==>
              var a := r.reply.value.admin;
              && r.admins == admins + [a]
              && r.reply.value.plainPassword == GeneratePassword(bytes)
              && |r.reply.value.plainPassword| == 8
              && a.password == hash(r.reply.value.plainPassword)
              && a == Admin(newId, info.adminId, info.fullName, info.email, info.dateOfBirth, info.stateOfOrigin,
                            info.phone, info.gender, info.profilePic, a.password)
  {
    if !ValidAdminId(info.adminId) then CreateAdminOutcome(Fail(Invalid), admins)
    else if AdminByAdminId(admins, info.adminId).Some? then CreateAdminOutcome(Fail(Invalid), admins)
    else
      var plain := GeneratePassword(bytes);
      var a := Admin(newId, info.adminId, info.fullName, info.email, info.dateOfBirth, info.stateOfOrigin,
                     info.phone, info.gender, info.profilePic, hash(plain));
      CreateAdminOutcome(Ok(NewAdminReply(a, plain)), admins + [a])
  }

  /** Admin IDs stay unique. */
  lemma CreateAdminKeepsAdminIdsUnique(admins: seq<Admin>, info: AdminInfo, newId: string, bytes: seq<byte>, hash: string -> string)
    requires |bytes| == 8
    requires UniqueAdminIds(admins)
    ensures UniqueAdminIds(CreateAdmin(admins, info, newId, bytes, hash).admins)
  {
    var r := CreateAdmin(admins, info, newId, bytes, hash);
    if r.reply.Ok? {
      var n := |admins|;
      forall i, j | 0 <= i < |r.admins| && 0 <= j < |r.admins| && r.admins[i].adminId == r.admins[j].adminId
        ensures i == j
      {
        if i < n && j < n {
          assert r.admins[i] == admins[i] && r.admins[j] == admins[j];
        }
      }
    }
  }

  /** A new admin can sign in with the name given and the generated
      password, once `compare` accepts the password against its own hash. */
  lemma CreateAdminThenSignIn(admins: seq<Admin>, info: AdminInfo, newId: string, bytes: seq<byte>, hash: string -> string)
    requires |bytes| == 8
    requires CreateAdmin(admins, info, newId, bytes, hash).reply.Ok?
    ensures var r := CreateAdmin(admins, info, newId, bytes, hash);
            var plain := r.reply.value.plainPassword;
            SignIn(r.admins, info.adminId, info.fullName, (stored: string) => stored == hash(plain)) == Ok(r.reply.value.admin)
  {
    var r := CreateAdmin(admins, info, newId, bytes, hash);
    FindOnly(r.admins, AdminIdIs(info.adminId), |admins|);
  }

  /** `newAdmin` on the store. */
  method NewAdmin(db: Database, info: AdminInfo, newId: string, bytes: seq<byte>, hash: string -> string)
    returns (reply: Outcome<NewAdminReply>)
    requires |bytes| == 8
    modifies db
    ensures CreateAdminOutcome(reply, db.admins) == CreateAdmin(old(db.admins), info, newId, bytes, hash)
    ensures db.students == old(db.students) && db.results == old(db.results)
    ensures db.courses == old(db.courses) && db.lecturers == old(db.lecturers)
  {
    if !ValidAdminId(info.adminId) {
      return Fail(Invalid);
    }
    if AdminByAdminId(db.admins, info.adminId).Some? {
      return Fail(Invalid);
    }
    var plainPassword := GeneratePassword(bytes);
    var a := Admin(newId, info.adminId, info.fullName, info.email, info.dateOfBirth, info.stateOfOrigin,
                   info.phone, info.gender, info.profilePic, hash(plainPassword));
    db.admins := db.admins + [a];
    reply := Ok(NewAdminReply(a, plainPassword));
  }

  /** The Student fields `newStudent` copies from the body. */
  datatype StudentInfo = StudentInfo(
    fullName: string, email: string, matricNo: string, currentLevel: string,
    currentSemester: string, currentSession: string, department: string)

  datatype StudentsOutcome = StudentsOutcome(reply: Outcome<Student>, students: seq<Student>)

  function MatricNoIs(matricNo: string): Student -> bool { (s: Student) => s.matricNo == matricNo }

  /** The new student document; the fields the body does not set start
      empty (see README). */
  function NewStudentDoc(info: StudentInfo, newId: string): Student
  {
    Student(newId, info.matricNo, info.fullName, info.email, info.department, info.currentLevel,
            info.currentSemester, info.currentSession, 0.0, 0.0, 0, [], [])
  }

  /** `newStudent`. */
  function CreateStudent(students: seq<Student>, info: StudentInfo, newId: string): (r: StudentsOutcome)
    ensures !ValidMatricNo(info.matricNo) ==> r == StudentsOutcome(Fail(Invalid), students)
    ensures r.reply.Fail? ==> r.reply.error == Invalid && r.students == students
    ensures r.reply.Ok? <==> ValidMatricNo(info.matricNo) && forall j :: 0 <= j < |students| ==> students[j].matricNo != info.matricNo
    ensures r.reply.Ok? ==> r.reply.value == NewStudentDoc(info, newId) && r.students == students + [r.reply.value]
  {
    if !ValidMatricNo(info.matricNo) then StudentsOutcome(Fail(Invalid), students)
    else if Find(students, MatricNoIs(info.matricNo)).Some? then StudentsOutcome(Fail(Invalid), students)
    else StudentsOutcome(Ok(NewStudentDoc(info, newId)), students + [NewStudentDoc(info, newId)])
  }

  /** A new student starts with no GPA history, courses or carry-overs, at
      the level, semester and session the admin gave. */
  lemma NewStudentStartsClean(info: StudentInfo, newId: string)
    ensures var s := NewStudentDoc(info, newId);
            && s.cgpa == 0.0 && s.semesterGPA == 0.0 && s.levelsCompleted == 0
            && s.registeredCourses == [] && s.carryOverCourses == []
            && s.matricNo == info.matricNo && s.currentLevel == info.currentLevel
            && s.currentSemester == info.currentSemester && s.currentSession == info.currentSession
  {
  }

  /** `newStudent` on the store. */
  method NewStudent(db: Database, info: StudentInfo, newId: string) returns (reply: Outcome<Student>)
    modifies db
    ensures StudentsOutcome(reply, db.students) == CreateStudent(old(db.students), info, newId)
    ensures db.results == old(db.results) && db.courses == old(db.courses)
    ensures db.lecturers == old(db.lecturers) && db.admins == old(db.admins)
  {
    if !ValidMatricNo(info.matricNo) {
      return Fail(Invalid);
    }
    if Find(db.students, MatricNoIs(info.matricNo)).Some? {
      return Fail(Invalid);
    }
    var s := NewStudentDoc(info, newId);
    db.students := db.students + [s];
    reply := Ok(s);
  }

  datatype LecturerInfo = LecturerInfo(
    fullName: string, email: string, registrationId: string, department: string, coursesTaking: seq<string>)

  datatype LecturerOutcome = LecturerOutcome(reply: Outcome<Lecturer>, lecturers: seq<Lecturer>, courses: seq<CourseDoc>)

  function RegistrationIdIs(registrationId: string): Lecturer -> bool
  {
    (l: Lecturer) => l.registrationId == registrationId
  }

  /** One document of `Course.updateMany({ courseCode: { $in: codes } },
      { $set: { lecturer } })`. */
  function AssignLecturer(lecturer: string, codes: seq<string>): CourseDoc -> CourseDoc
  {
    (c: CourseDoc) => if c.courseCode in codes then c.(lecturer := Some(lecturer)) else c
  }

  /** `newLecturer`: the lecturer is saved, then every course whose code is
      in `coursesTaking` is given the new lecturer. */
  function CreateLecturer(lecturers: seq<Lecturer>, courses: seq<CourseDoc>, info: LecturerInfo, newId: string): (r: LecturerOutcome)
    ensures !ValidLecturerId(info.registrationId) ==> r == LecturerOutcome(Fail(Invalid), lecturers, courses)
    ensures r.reply.Fail? ==> r.reply.error == Invalid && r.lecturers == lecturers && r.courses == courses
    ensures r.reply.Ok? <==>
              ValidLecturerId(info.registrationId) &&
              forall j :: 0 <= j < |lecturers| ==> lecturers[j].registrationId != info.registrationId
    ensures r.reply.Ok? ==>
              && r.reply.value == Lecturer(newId, info.fullName, info.email, info.registrationId, info.department, info.coursesTaking)
              && r.lecturers == lecturers + [r.reply.value]
              && |r.courses| == |courses|
              && (forall i :: 0 <= i < |courses| ==>
                    r.courses[i].lecturer == (if courses[i].courseCode in info.coursesTaking then Some(newId) else courses[i].lecturer))
              && (forall i :: 0 <= i < |courses| ==> r.courses[i].(lecturer := courses[i].lecturer) == courses[i])
  {
    if !ValidLecturerId(info.registrationId) then LecturerOutcome(Fail(Invalid), lecturers, courses)
    else if Find(lecturers, RegistrationIdIs(info.registrationId)).Some? then LecturerOutcome(Fail(Invalid), lecturers, courses)
    else
      var l := Lecturer(newId, info.fullName, info.email, info.registrationId, info.department, info.coursesTaking);
      LecturerOutcome(Ok(l), lecturers + [l], MapSeq(courses, AssignLecturer(newId, info.coursesTaking)))
  }

  /** `newLecturer` on the store, the updateMany one course at a time. */
  method NewLecturer(db: Database, info: LecturerInfo, newId: string) returns (reply: Outcome<Lecturer>)
    modifies db
    ensures LecturerOutcome(reply, db.lecturers, db.courses) == CreateLecturer(old(db.lecturers), old(db.courses), info, newId)
    ensures db.students == old(db.students) && db.results == old(db.results) && db.admins == old(db.admins)
  {
    if !ValidLecturerId(info.registrationId) {
      return Fail(Invalid);
    }
    if Find(db.lecturers, RegistrationIdIs(info.registrationId)).Some? {
      return Fail(Invalid);
    }
    var l := Lecturer(newId, info.fullName, info.email, info.registrationId, info.department, info.coursesTaking);
    db.lecturers := db.lecturers + [l];
    var courses := db.courses;
    for i := 0 to |courses|
      invariant |courses| == |old(db.courses)|
      invariant forall j :: 0 <= j < i ==> courses[j] == AssignLecturer(newId, info.coursesTaking)(old(db.courses)[j])
      invariant forall j :: i <= j < |courses| ==> courses[j] == old(db.courses)[j]
    {
      if courses[i].courseCode in info.coursesTaking {
        courses := courses[i := courses[i].(lecturer := Some(newId))];
      }
    }
    db.courses := courses;
    reply := Ok(l);
  }

  // Result lifecycle (lines 288-309).

  function Close(c: CourseDoc): CourseDoc { c.(submissionClosed := true) }

  /** `Course.updateMany({}, { $set: { submissionClosed: true } })`. */
  function CloseAll(courses: seq<CourseDoc>): (r: seq<CourseDoc>)
    ensures |r| == |courses|
    ensures forall i :: 0 <= i < |r| ==> r[i].submissionClosed
    ensures forall i :: 0 <= i < |r| ==> r[i].(submissionClosed := courses[i].submissionClosed) == courses[i]
  {
    MapSeq(courses, Close)
  }

  /** Closing twice is closing once. */
  lemma CloseAllIdempotent(courses: seq<CourseDoc>)
    ensures CloseAll(CloseAll(courses)) == CloseAll(courses)
  {
    var once := CloseAll(courses);
    assert forall i :: 0 <= i < |once| ==> CloseAll(once)[i] == once[i];
  }

  /** `closeResultSubmission` on the store, one course at a time. */
  method CloseResultSubmission(db: Database)
    modifies db
    ensures db.courses == CloseAll(old(db.courses))
    ensures db.students == old(db.students) && db.results == old(db.results)
    ensures db.lecturers == old(db.lecturers) && db.admins == old(db.admins)
  {
    var courses := db.courses;
    for i := 0 to |courses|
      invariant |courses| == |old(db.courses)|
      invariant forall j :: 0 <= j < i ==> courses[j] == Close(old(db.courses)[j])
      invariant forall j :: i <= j < |courses| ==> courses[j] == old(db.courses)[j]
    {
      courses := courses[i := courses[i].(submissionClosed := true)];
    }
    db.courses := courses;
  }

  datatype ReleaseOutcome = ReleaseOutcome(reply: Outcome<()>, results: seq<ResultRecord>)

  function SetReleased(r: ResultRecord): ResultRecord { r.(released := true) }

  /** `releaseResult` as written: line 303 sets `released`, a flag the
      student side never reads (it filters on `isReleased`). */
  function ReleaseAsWritten(results: seq<ResultRecord>): (r: ReleaseOutcome)
    ensures results == [] <==> r.reply == Fail(NotFound)
    ensures |r.results| == |results|
    ensures forall i :: 0 <= i < |results| ==> r.results[i].released && r.results[i].isReleased == results[i].isReleased
    ensures forall i :: 0 <= i < |results| ==> r.results[i].(released := results[i].released) == results[i]
  {
    if results == [] then ReleaseOutcome(Fail(NotFound), results)
    else ReleaseOutcome(Ok(()), MapSeq(results, SetReleased))
  }

  /** After the release as written the student side sees exactly the
      records it saw before: a term with nothing released stays empty. */
  lemma ReleaseAsWrittenHidesResults(results: seq<ResultRecord>, studentId: string, semester: string, level: string)
    ensures ReleasedInTerm(ReleaseAsWritten(results).results, studentId, semester, level) == [] <==>
            ReleasedInTerm(results, studentId, semester, level) == []
  {
    var after := ReleaseAsWritten(results).results;
    var before := ReleasedInTerm(results, studentId, semester, level);
    var seen := ReleasedInTerm(after, studentId, semester, level);
    if before != [] {
      var i :| 0 <= i < |results| && results[i] == before[0];
      assert after[i] in after;
    }
    if seen != [] {
      var i :| 0 <= i < |after| && after[i] == seen[0];
      assert results[i] in results;
    }
  }

  function Release(r: ResultRecord): ResultRecord { r.(released := true, isReleased := true) }

  /** `releaseResult` as intended: every result becomes visible to the
      student side, `released` being kept for the admin side. */
  function ReleaseAll(results: seq<ResultRecord>): (r: ReleaseOutcome)
    ensures results == [] <==> r.reply == Fail(NotFound)
    ensures r.reply.Fail? ==> r.results == results
    ensures |r.results| == |results|
    ensures forall i :: 0 <= i < |results| ==>
              r.results[i].released && r.results[i].isReleased &&
              r.results[i].(released := results[i].released, isReleased := results[i].isReleased) == results[i]
  {
    if results == [] then ReleaseOutcome(Fail(NotFound), results)
    else ReleaseOutcome(Ok(()), MapSeq(results, Release))
  }

  /** After the release every record of a term reaches the student side. */
  lemma ReleaseAllShowsTerm(results: seq<ResultRecord>, studentId: string, semester: string, level: string, i: nat)
    requires i < |results| && InTerm(results[i], studentId, semester, level)
    ensures Release(results[i]) in ReleasedInTerm(ReleaseAll(results).results, studentId, semester, level)
  {
    var after := ReleaseAll(results).results;
    assert after[i] == Release(results[i]);
    assert after[i] in after;
  }

  /** The discrepancy on one input: a student with one unreleased result
      still gets "no results" from getGPA after the release as written, and
      a GPA after the intended release. */
  lemma ReleaseAsWrittenLeavesGpaMissing()
    ensures var s := Student("s1", "CSC/20/0001", "Ada", "", "CSC", "100 Level", "First Semester", "2023 Session", 0.0, 0.0, 0, [], []);
            var rec := ResultRecord("s1", Some("c1"), Some("CSC 101"), 20.0, 50.0, 0.0, "First Semester", "100 Level", false, false, false);
            && ComputeGpa([s], ReleaseAsWritten([rec]).results, [], "s1", "First Semester", "100 Level").reply == Fail(NotFound)
            && ComputeGpa([s], ReleaseAll([rec]).results, [], "s1", "First Semester", "100 Level").reply.Ok?
  {
    var s := Student("s1", "CSC/20/0001", "Ada", "", "CSC", "100 Level", "First Semester", "2023 Session", 0.0, 0.0, 0, [], []);
    var rec := ResultRecord("s1", Some("c1"), Some("CSC 101"), 20.0, 50.0, 0.0, "First Semester", "100 Level", false, false, false);
    assert HasStudentId("s1")([s][0]);
    assert ReleasedInTerm([rec], "s1", "First Semester", "100 Level") == [];
    ReleaseAsWrittenHidesResults([rec], "s1", "First Semester", "100 Level");
    ReleaseAllShowsTerm([rec], "s1", "First Semester", "100 Level", 0);
  }

  /** `releaseResult` on the store, with the flag the student side reads. */
  method ReleaseResult(db: Database) returns (reply: Outcome<()>)
    modifies db
    ensures ReleaseOutcome(reply, db.results) == ReleaseAll(old(db.results))
    ensures db.students == old(db.students) && db.courses == old(db.courses)
    ensures db.lecturers == old(db.lecturers) && db.admins == old(db.admins)
  {
    var results := db.results;
    if |results| == 0 {
      return Fail(NotFound);
    }
    for i := 0 to |results|
      invariant |results| == |old(db.results)|
      invariant forall j :: 0 <= j < i ==> results[j] == Release(old(db.results)[j])
      invariant forall j :: i <= j < |results| ==> results[j] == old(db.results)[j]
    {
      results := results[i := results[i].(released := true, isReleased := true)];
    }
    db.results := results;
    reply := Ok(());
  }

  // Course registration (lines 311-325).

  /** `(coursesData[department]?.[currentLevel]?.[currentSemester] || []).map(c => c['Course-Code'])`. */
  function RegisteredCodes(cat: Catalog, s: Student): seq<string>
  {
    MapSeq(Lookup(cat, s.department, s.currentLevel, s.currentSemester).GetOr([]), CodeOfCourse)
  }

  function Register(cat: Catalog, s: Student): Student
  {
    s.(registeredCourses := RegisteredCodes(cat, s))
  }

  function RegisterWith(cat: Catalog): Student -> Student { (s: Student) => Register(cat, s) }

  /** The list is replaced, not merged: the old list plays no part, and no
      other field changes. */
  lemma RegisterReplaces(cat: Catalog, s: Student, old_courses: seq<string>)
    ensures Register(cat, s.(registeredCourses := old_courses)) == Register(cat, s)
    ensures Register(cat, s).(registeredCourses := s.registeredCourses) == s
  {
  }

  /** With unique catalog keys, a student on a path the catalog holds gets
      the course codes of that semester list, in catalog order. */
  lemma RegisterFromCatalog(cat: Catalog, s: Student, i: nat, j: nat, k: nat)
    requires UniqueKeys(cat)
    requires i < |cat| && cat[i].department == s.department
    requires j < |cat[i].levels| && cat[i].levels[j].level == s.currentLevel
    requires k < |cat[i].levels[j].semesters| && cat[i].levels[j].semesters[k].semester == s.currentSemester
    ensures var list := cat[i].levels[j].semesters[k].courses;
            var codes := Register(cat, s).registeredCourses;
            |codes| == |list| && forall n :: 0 <= n < |list| ==> codes[n] == list[n].code
  {
    LookupAt(cat, i, j, k, s.department, s.currentLevel, s.currentSemester);
  }

  /** A student whose department, level or semester the catalog lacks ends
      up with no registered courses. */
  lemma RegisterMissingPath(cat: Catalog, s: Student)
    requires UniqueKeys(cat)
    requires !HoldsPath(cat, s.department, s.currentLevel, s.currentSemester)
    ensures Register(cat, s).registeredCourses == []
  {
    LookupComplete(cat, s.department, s.currentLevel, s.currentSemester);
  }

  /** Registering twice is registering once. */
  lemma RegisterIdempotent(cat: Catalog, s: Student)
    ensures Register(cat, Register(cat, s)) == Register(cat, s)
  {
    RegisterReplaces(cat, s, RegisteredCodes(cat, s));
  }

  function RegisterAll(cat: Catalog, students: seq<Student>): (r: seq<Student>)
    ensures |r| == |students| && forall i :: 0 <= i < |r| ==> r[i] == Register(cat, students[i])
  {
    MapSeq(students, RegisterWith(cat))
  }

  /** `registerCoursesForSemester` on the store. */
  method RegisterCoursesForSemester(db: Database, cat: Catalog)
    modifies db
    ensures db.students == RegisterAll(cat, old(db.students))
    ensures db.results == old(db.results) && db.courses == old(db.courses)
    ensures db.lecturers == old(db.lecturers) && db.admins == old(db.admins)
  {
    var students := db.students;
    for i := 0 to |students|
      invariant |students| == |old(db.students)|
      invariant forall j :: 0 <= j < i ==> students[j] == Register(cat, old(db.students)[j])
      invariant forall j :: i <= j < |students| ==> students[j] == old(db.students)[j]
    {
      var student := students[i];
      var courses := Lookup(cat, student.department, student.currentLevel, student.currentSemester).GetOr([]);
      students := students[i := student.(registeredCourses := MapSeq(courses, CodeOfCourse))];
    }
    db.students := students;
  }

  // Term progression (lines 327-352).

  /** `parseInt(x) + k`: NaN stays NaN. */
  function AddTo(v: Option<int>, k: int): Option<int>
  {
    match v
    case None => None
    case Some(n) => Some(n + k)
  }

  /** `${parseInt(level) + 100} Level`. */
  function NextLevel(level: string): string
  {
    NumberText(AddTo(ParseInt(level), 100)) + " Level"
  }

  /** `${parseInt(session) + 1} Session`. */
  function NextSession(session: string): string
  {
    NumberText(AddTo(ParseInt(session), 1)) + " Session"
  }

  /** One student's step: graduated students stay; a final-year student in
      the second semester graduates; any other second semester moves to the
      first semester of the next level and session; a first semester moves
      to the second. */
  function Advance(s: Student): Student
  {
    if s.currentLevel == "Graduated" then s
    else if s.currentLevel == "Final Year" && s.currentSemester == "Second Semester" then
      s.(currentLevel := "Graduated", currentSemester := "Graduated", currentSession := "Graduated",
         levelsCompleted := s.levelsCompleted + 1)
    else if s.currentSemester == "Second Semester" && s.currentLevel != "Final Year" then
      s.(currentLevel := NextLevel(s.currentLevel), currentSemester := "First Semester",
         currentSession := NextSession(s.currentSession), levelsCompleted := s.levelsCompleted + 1)
    else s.(currentSemester := "Second Semester")
  }

  /** A first semester (or any semester label other than the second) of a
      student not yet graduated becomes the second semester; level, session
      and level count stay. */
  lemma AdvanceFirstSemester(s: Student)
    requires s.currentLevel != "Graduated" && s.currentSemester != "Second Semester"
    ensures Advance(s) == s.(currentSemester := "Second Semester")
  {
  }

  /** Only the level, semester, session and level count take part. */
  lemma AdvanceKeepsOtherFields(s: Student)
    ensures Advance(s).(currentLevel := s.currentLevel, currentSemester := s.currentSemester,
                        currentSession := s.currentSession, levelsCompleted := s.levelsCompleted) == s
  {
  }

  /** Graduated is terminal, and a final-year second semester leads to it. */
  lemma AdvanceGraduation(s: Student)
    ensures s.currentLevel == "Graduated" ==> Advance(s) == s
    ensures s.currentLevel == "Final Year" && s.currentSemester == "Second Semester" ==>
              Advance(s).currentLevel == "Graduated" && Advance(s).currentSemester == "Graduated" &&
              Advance(s).currentSession == "Graduated" && Advance(s).levelsCompleted == s.levelsCompleted + 1
    ensures Advance(s).currentLevel == "Graduated" ==>
              s.currentLevel == "Graduated" || (s.currentLevel == "Final Year" && s.currentSemester == "Second Semester")
  {
    if s.currentLevel != "Graduated" && !(s.currentLevel == "Final Year" && s.currentSemester == "Second Semester")
       && s.currentSemester == "Second Semester" {
      var t := NumberText(AddTo(ParseInt(s.currentLevel), 100));
      assert NextLevel(s.currentLevel)[|t|..] == " Level";
    }
  }

  /** The level count goes up by one exactly when a second semester ends. */
  lemma AdvanceCountsLevels(s: Student)
    ensures Advance(s).levelsCompleted ==
            if s.currentLevel != "Graduated" && s.currentSemester == "Second Semester" then s.levelsCompleted + 1
            else s.levelsCompleted
  {
  }

  /** A second semester below the final year moves to the first semester of
      the level 100 higher and the next session, as numbers. */
  lemma AdvanceNextYear(s: Student, level: int, session: int)
    requires s.currentLevel != "Graduated" && s.currentLevel != "Final Year" && s.currentSemester == "Second Semester"
    requires ParseInt(s.currentLevel) == Some(level) && ParseInt(s.currentSession) == Some(session)
    ensures Advance(s).currentSemester == "First Semester"
    ensures ParseInt(Advance(s).currentLevel) == Some(level + 100)
    ensures ParseInt(Advance(s).currentSession) == Some(session + 1)
  {
    NumberTextRoundTrip(level + 100, " Level");
    NumberTextRoundTrip(session + 1, " Session");
  }

  lemma NaNLevelText()
    ensures NumberText(None) + " Level" == "NaN Level"
  {
  }

  /** A level with no leading number becomes "NaN Level", which has none
      either: such a student never gets a numbered level again. */
  lemma AdvanceNaNLevel(s: Student)
    requires s.currentLevel != "Graduated" && s.currentLevel != "Final Year" && s.currentSemester == "Second Semester"
    requires ParseInt(s.currentLevel) == None
    ensures Advance(s).currentLevel == "NaN Level"
    ensures ParseInt(Advance(s).currentLevel) == None
  {
    assert Advance(s).currentLevel == NumberText(None) + " Level";
    NaNLevelText();
    NaNTextIsNaN(" Level");
  }

  /** A numbered level never becomes "Final Year", so only a student the
      admin placed in the final year can graduate. */
  lemma AdvanceNeverReachesFinalYear(s: Student)
    requires s.currentLevel != "Final Year"
    ensures Advance(s).currentLevel != "Final Year"
  {
    if s.currentLevel != "Graduated" && s.currentSemester == "Second Semester" {
      var t := NumberText(AddTo(ParseInt(s.currentLevel), 100));
      assert NextLevel(s.currentLevel)[|t|..] == " Level";
    }
  }

  /** `updateStudentSemesterLevel`: each student moves on its own. */
  function AdvanceAll(students: seq<Student>): (r: seq<Student>)
    ensures |r| == |students| && forall i :: 0 <= i < |r| ==> r[i] == Advance(students[i])
  {
    MapSeq(students, Advance)
  }

  /** Two runs from a numbered first semester reach the first semester of
      the next level. */
  lemma AdvanceTwice(s: Student, level: int, session: int)
    requires s.currentLevel != "Graduated" && s.currentLevel != "Final Year" && s.currentSemester == "First Semester"
    requires ParseInt(s.currentLevel) == Some(level) && ParseInt(s.currentSession) == Some(session)
    ensures Advance(Advance(s)).currentSemester == "First Semester"
    ensures ParseInt(Advance(Advance(s)).currentLevel) == Some(level + 100)
    ensures ParseInt(Advance(Advance(s)).currentSession) == Some(session + 1)
    ensures Advance(Advance(s)).levelsCompleted == s.levelsCompleted + 1
  {
    AdvanceNextYear(Advance(s), level, session);
  }

  /** The loop body of `updateStudentSemesterLevel` for a student not yet
      graduated (lines 331-343). */
  method AdvanceStep(student: Student) returns (t: Student)
    requires student.currentLevel != "Graduated"
    ensures t == Advance(student)
  {
    t := student;
    if student.currentLevel == "Final Year" && student.currentSemester == "Second Semester" {
      t := t.(currentLevel := "Graduated", currentSemester := "Graduated", currentSession := "Graduated",
              levelsCompleted := student.levelsCompleted + 1);
    } else if student.currentSemester == "Second Semester" && student.currentLevel != "Final Year" {
      t := t.(currentLevel := NextLevel(student.currentLevel), currentSemester := "First Semester",
              currentSession := NextSession(student.currentSession),
              levelsCompleted := student.levelsCompleted + 1);
    } else {
      t := t.(currentSemester := "Second Semester");
    }
  }

  /** `updateStudentSemesterLevel` on the store. */
  method UpdateStudentSemesterLevel(db: Database)
    modifies db
    ensures db.students == AdvanceAll(old(db.students))
    ensures db.results == old(db.results) && db.courses == old(db.courses)
    ensures db.lecturers == old(db.lecturers) && db.admins == old(db.admins)
  {
    var students := db.students;
    for i := 0 to |students|
      invariant |students| == |old(db.students)|
      invariant forall j :: 0 <= j < i ==> students[j] == Advance(old(db.students)[j])
      invariant forall j :: i <= j < |students| ==> students[j] == old(db.students)[j]
      invariant unchanged(db)
    {
      if students[i].currentLevel == "Graduated" {
        AdvanceGraduation(students[i]);
        continue;
      }
      var student := AdvanceStep(students[i]);
      students := students[i := student];
    }
    db.students := students;
  }

  // Course information (lines 354-366).

  /** `getCourseInfo`: a missing path and an empty list both give 404. */
  function CourseInfo(cat: Catalog, department: string, level: string, semester: string): (r: Outcome<seq<Course>>)
    ensures r.Fail? ==> r.error == NotFound
    ensures r.Fail? <==> Lookup(cat, department, level, semester).GetOr([]) == []
    ensures r.Ok? ==> r.value != [] && Lookup(cat, department, level, semester) == Some(r.value)
  {
    var courses := Lookup(cat, department, level, semester).GetOr([]);
    if courses == [] then Fail(NotFound) else Ok(courses)
  }

  /** With unique keys, the reply lists the courses stored at the path when
      there are any, and is 404 when the catalog lacks the path. */
  lemma CourseInfoAgreesWithCatalog(cat: Catalog, department: string, level: string, semester: string)
    requires UniqueKeys(cat)
    ensures !HoldsPath(cat, department, level, semester) ==> CourseInfo(cat, department, level, semester) == Fail(NotFound)
    ensures CourseInfo(cat, department, level, semester).Ok? ==>
              exists i, j, k ::
                0 <= i < |cat| && cat[i].department == department &&
                0 <= j < |cat[i].levels| && cat[i].levels[j].level == level &&
                0 <= k < |cat[i].levels[j].semesters| && cat[i].levels[j].semesters[k].semester == semester &&
                cat[i].levels[j].semesters[k].courses == CourseInfo(cat, department, level, semester).value
  {
    LookupComplete(cat, department, level, semester);
    if CourseInfo(cat, department, level, semester).Ok? {
      LookupSound(cat, department, level, semester);
    }
  }
}
