/** The course catalog (`courses.json`): department -> level -> semester ->
    list of courses. JSON objects are kept as lists of (key, value) entries so
    that the order `Object.values` walks them in is part of the model. */
module Catalog {
  import opened Wrappers
  import opened Seqs

  /** One entry of a semester list: "Course-Code", "Course-Title",
      "Course-Units" (a missing or zero value reads as 0), and the `lecturer`
      and `_id` properties the lecturer side reads. */
  datatype Course = Course(
    code: string,
    title: string,
    units: nat,
    lecturer: Option<string>,
    id: Option<string>)

  datatype SemesterEntry = SemesterEntry(semester: string, courses: seq<Course>)
  datatype LevelEntry = LevelEntry(level: string, semesters: seq<SemesterEntry>)
  datatype DepartmentEntry = DepartmentEntry(department: string, levels: seq<LevelEntry>)

  type Catalog = seq<DepartmentEntry>

  function DepartmentIs(department: string): DepartmentEntry -> bool
  {
    (e: DepartmentEntry) => e.department == department
  }

  function LevelIs(level: string): LevelEntry -> bool
  {
    (e: LevelEntry) => e.level == level
  }

  function SemesterIs(semester: string): SemesterEntry -> bool
  {
    (e: SemesterEntry) => e.semester == semester
  }

  /** `coursesData[department]`. */
  function DepartmentLevels(cat: Catalog, department: string): (r: Option<seq<LevelEntry>>)
    ensures r.None? <==> forall i :: 0 <= i < |cat| ==> cat[i].department != department
    ensures r.Some? ==> exists i :: 0 <= i < |cat| && cat[i].department == department && cat[i].levels == r.value
  {
    match Find(cat, DepartmentIs(department))
    case None => None
    case Some(e) => Some(e.levels)
  }

  /** `levels?.[level]`. */
  function LevelSemesters(levels: seq<LevelEntry>, level: string): (r: Option<seq<SemesterEntry>>)
    ensures r.None? <==> forall i :: 0 <= i < |levels| ==> levels[i].level != level
    ensures r.Some? ==> exists i :: 0 <= i < |levels| && levels[i].level == level && levels[i].semesters == r.value
  {
    match Find(levels, LevelIs(level))
    case None => None
    case Some(e) => Some(e.semesters)
  }

  /** `semesters?.[semester]`. */
  function SemesterList(semesters: seq<SemesterEntry>, semester: string): (r: Option<seq<Course>>)
    ensures r.None? <==> forall i :: 0 <= i < |semesters| ==> semesters[i].semester != semester
    ensures r.Some? ==> exists i :: 0 <= i < |semesters| && semesters[i].semester == semester && semesters[i].courses == r.value
  {
    match Find(semesters, SemesterIs(semester))
    case None => None
    case Some(e) => Some(e.courses)
  }

  /** `coursesData[department]?.[level]?.[semester]`: undefined as soon as
      one key is missing. */
  function Lookup(cat: Catalog, department: string, level: string, semester: string): Option<seq<Course>>
  {
    match DepartmentLevels(cat, department)
    case None => None
    case Some(levels) =>
      match LevelSemesters(levels, level)
      case None => None
      case Some(semesters) => SemesterList(semesters, semester)
  }

  /** A path the catalog holds: department i, level j, semester k. */
  ghost predicate HoldsPath(cat: Catalog, department: string, level: string, semester: string)
  {
    exists i, j, k ::
      0 <= i < |cat| && cat[i].department == department &&
      0 <= j < |cat[i].levels| && cat[i].levels[j].level == level &&
      0 <= k < |cat[i].levels[j].semesters| && cat[i].levels[j].semesters[k].semester == semester
  }

  /** The list a lookup returns is one the catalog holds under those keys. */
  lemma LookupSound(cat: Catalog, department: string, level: string, semester: string)
    requires Lookup(cat, department, level, semester).Some?
    ensures exists i, j, k ::
      0 <= i < |cat| && cat[i].department == department &&
      0 <= j < |cat[i].levels| && cat[i].levels[j].level == level &&
      0 <= k < |cat[i].levels[j].semesters| && cat[i].levels[j].semesters[k].semester == semester &&
      cat[i].levels[j].semesters[k].courses == Lookup(cat, department, level, semester).value
  {
    var i :| 0 <= i < |cat| && cat[i].department == department && cat[i].levels == DepartmentLevels(cat, department).value;
    var levels := cat[i].levels;
    var j :| 0 <= j < |levels| && levels[j].level == level && levels[j].semesters == LevelSemesters(levels, level).value;
    var semesters := levels[j].semesters;
    var k :| 0 <= k < |semesters| && semesters[k].semester == semester && semesters[k].courses == SemesterList(semesters, semester).value;
  }

  /** With unique keys, the lookup of a path the catalog holds returns the
      list stored at that path. */
  lemma LookupAt(cat: Catalog, i: nat, j: nat, k: nat, department: string, level: string, semester: string)
    requires UniqueKeys(cat)
    requires i < |cat| && cat[i].department == department
    requires j < |cat[i].levels| && cat[i].levels[j].level == level
    requires k < |cat[i].levels[j].semesters| && cat[i].levels[j].semesters[k].semester == semester
    ensures Lookup(cat, department, level, semester) == Some(cat[i].levels[j].semesters[k].courses)
  {
    FindOnly(cat, DepartmentIs(department), i);
    var levels := cat[i].levels;
    assert UniqueLevels(levels);
    FindOnly(levels, LevelIs(level), j);
    var semesters := levels[j].semesters;
    assert UniqueSemesters(semesters);
    FindOnly(semesters, SemesterIs(semester), k);
  }

  /** The lookup misses exactly when the catalog has no such path, provided
      each department, level and semester name occurs once, as JSON keys do. */
  lemma LookupComplete(cat: Catalog, department: string, level: string, semester: string)
    requires UniqueKeys(cat)
    ensures Lookup(cat, department, level, semester).Some? <==> HoldsPath(cat, department, level, semester)
  {
    if HoldsPath(cat, department, level, semester) {
      var i: nat, j: nat, k: nat :|
        i < |cat| && cat[i].department == department &&
        j < |cat[i].levels| && cat[i].levels[j].level == level &&
        k < |cat[i].levels[j].semesters| && cat[i].levels[j].semesters[k].semester == semester;
      LookupAt(cat, i, j, k, department, level, semester);
    }
    if Lookup(cat, department, level, semester).Some? {
      LookupSound(cat, department, level, semester);
    }
  }

  /** JSON object keys are unique at every level of the catalog. */
  ghost predicate UniqueKeys(cat: Catalog)
  {
    && (forall i, i' :: 0 <= i < |cat| && 0 <= i' < |cat| && cat[i].department == cat[i'].department ==> i == i')
    && (forall i :: 0 <= i < |cat| ==> UniqueLevels(cat[i].levels))
  }

  ghost predicate UniqueLevels(levels: seq<LevelEntry>)
  {
    && (forall j, j' :: 0 <= j < |levels| && 0 <= j' < |levels| && levels[j].level == levels[j'].level ==> j == j')
    && (forall j :: 0 <= j < |levels| ==> UniqueSemesters(levels[j].semesters))
  }

  ghost predicate UniqueSemesters(semesters: seq<SemesterEntry>)
  {
    forall k, k' :: 0 <= k < |semesters| && 0 <= k' < |semesters| && semesters[k].semester == semesters[k'].semester ==> k == k'
  }

  /** `Object.values(levels).flatMap(level => Object.values(level).flat())`:
      every course of one department, level by level, semester by semester. */
  function DepartmentCourseList(levels: seq<LevelEntry>): seq<Course>
  {
    if levels == [] then []
    else Flatten(MapSeq(levels[0].semesters, (e: SemesterEntry) => e.courses)) + DepartmentCourseList(levels[1..])
  }

  function SemesterCourses(e: SemesterEntry): seq<Course> { e.courses }

  /** The semester lists of one level. */
  function LevelLists(l: LevelEntry): seq<seq<Course>> { MapSeq(l.semesters, SemesterCourses) }

  /** Every semester list of the catalog, department by department. */
  function SemesterLists(cat: Catalog): seq<seq<Course>>
  {
    if cat == [] then []
    else Flatten(MapSeq(cat[0].levels, LevelLists)) + SemesterLists(cat[1..])
  }

  lemma {:induction false} SemesterListsAppend(a: Catalog, b: Catalog)
    ensures SemesterLists(a + b) == SemesterLists(a) + SemesterLists(b)
  {
    if a == [] {
      assert a + b == b;
    } else {
      assert (a + b)[1..] == a[1..] + b;
      SemesterListsAppend(a[1..], b);
    }
  }

  /** Every course of the catalog in traversal order. */
  function AllCourses(cat: Catalog): seq<Course>
  {
    Flatten(SemesterLists(cat))
  }

  /** A catalog with one department, one level and one semester holds
      exactly that semester's courses. */
  lemma SingleSemesterCatalog(d: string, l: string, s: string, courses: seq<Course>)
    ensures var cat := [DepartmentEntry(d, [LevelEntry(l, [SemesterEntry(s, courses)])])];
            SemesterLists(cat) == [courses] && AllCourses(cat) == courses
  {
    var sem := SemesterEntry(s, courses);
    var lvl := LevelEntry(l, [sem]);
    var cat := [DepartmentEntry(d, [lvl])];
    assert LevelLists(lvl) == [courses];
    assert MapSeq(cat[0].levels, LevelLists) == [[courses]];
    assert Flatten([[courses]]) == [courses];
    assert cat[1..] == [];
    assert Flatten([courses]) == courses;
  }
}
