/** The row check of the student bulk import (`StudentResource.
    before_import_row`, admin_app/admin.py): the duplicate-name check, the
    department and level checks, and the per-course checks that fill
    `courses_list`. The database is a catalogue of the existing students'
    names, the department names and the courses by their (unique) name. */
module StudentImport {
  import opened Text
  import opened Outcomes

  /** The cells `row.get(...)` reads; `None` is a missing column or an empty
      cell. */
  datatype Row = Row(
    firstName: Option<string>,
    lastName: Option<string>,
    department: Option<string>,
    level: Option<string>,
    courses: Option<string>)

  datatype CourseInfo = CourseInfo(level: int, departments: set<string>)

  datatype Catalog = Catalog(
    students: set<(string, string)>,
    departments: set<string>,
    courses: map<string, CourseInfo>)

  /** The `ValueError`s the check raises, in the order it can raise them. */
  datatype ImportError =
    | DuplicateStudent(first: string, last: string)
    | MissingDepartmentOrLevel
    | UnknownDepartment(department: string)
    | BadLevel
    | UnknownCourse(course: string)
    | CourseOutsideDepartment(course: string, department: string)
    | CourseLevelMismatch(course: string, level: string)
  {
    predicate IsCourseError() {
      UnknownCourse? || CourseOutsideDepartment? || CourseLevelMismatch?
    }
  }

  /** The text of each error. */
  function Message(e: ImportError): string {
    match e
    case DuplicateStudent(f, l) => "Student with the name '" + f + " " + l + "' already exists."
    case MissingDepartmentOrLevel => "Both 'department' and 'level' fields are required."
    case UnknownDepartment(d) => "Department '" + d + "' does not exist."
    case BadLevel => "The 'level' must be a number between 1 and 4."
    case UnknownCourse(c) => "Course '" + c + "' does not exist."
    case CourseOutsideDepartment(c, d) => "Course '" + c + "' does not belong to department '" + d + "'."
    case CourseLevelMismatch(c, l) => "Course '" + c + "' does not match the student's level '" + l + "'."
  }

  /** `level.isdigit() and 1 <= int(level) <= 4`. */
  predicate ValidLevel(level: string) {
    |level| > 0 && AllDigits(level) && 1 <= DigitsValue(level) <= 4
  }

  /** A course passes when it exists, lists the department and has the
      student's level. */
  predicate CourseFits(cat: Catalog, name: string, department: string, level: int) {
    name in cat.courses && department in cat.courses[name].departments && cat.courses[name].level == level
  }

  /** The loop over the course names: the first failing course raises its
      error; otherwise every name is kept, in order. */
  function ValidateCourses(cat: Catalog, names: seq<string>, department: string, levelText: string, level: int)
    : (r: Result<seq<string>, ImportError>)
    ensures r.Ok? <==> forall i :: 0 <= i < |names| ==> CourseFits(cat, names[i], department, level)
    ensures r.Ok? ==> r.value == names
    ensures r.Err? ==> r.error.IsCourseError() && r.error.course in names
    decreases |names|
  {
    if |names| == 0 then Ok([])
    else
      var c := names[0];
      if c !in cat.courses then Err(UnknownCourse(c))
      else if department !in cat.courses[c].departments then Err(CourseOutsideDepartment(c, department))
      else if cat.courses[c].level != level then Err(CourseLevelMismatch(c, levelText))
      else
        match ValidateCourses(cat, names[1..], department, levelText, level)
        case Ok(rest) => Ok([c] + rest)
        case Err(e) => Err(e)
  }

  /** The error of a single failing course. */
  function CourseError(cat: Catalog, name: string, department: string, levelText: string): ImportError {
    if name !in cat.courses then UnknownCourse(name)
    else if department !in cat.courses[name].departments then CourseOutsideDepartment(name, department)
    else CourseLevelMismatch(name, levelText)
  }

  /** The reported error is that of the first course that does not fit. */
  lemma {:induction false} FirstMisfitReported(
    cat: Catalog, names: seq<string>, department: string, levelText: string, level: int, i: nat)
    requires i < |names|
    requires forall j :: 0 <= j < i ==> CourseFits(cat, names[j], department, level)
    requires !CourseFits(cat, names[i], department, level)
    ensures ValidateCourses(cat, names, department, levelText, level)
      == Err(CourseError(cat, names[i], department, levelText))
    decreases i
  {
    if i > 0 {
      FirstMisfitReported(cat, names[1..], department, levelText, level, i - 1);
    }
  }

  /** `before_import_row`: the checks in the order the source makes them. On
      success the value is `courses_list`. */
  function BeforeImportRow(cat: Catalog, row: Row): (r: Result<seq<string>, ImportError>)
    ensures r.Ok? ==> Truthy(row.department) && Strip(row.department.value) in cat.departments
    ensures r.Ok? ==> Truthy(row.level) && ValidLevel(row.level.value)
    ensures r.Ok? ==> forall i :: 0 <= i < |r.value| ==>
      CourseFits(cat, r.value[i], row.department.value, DigitsValue(row.level.value))
  {
    if Truthy(row.firstName) && Truthy(row.lastName)
       && (Strip(row.firstName.value), Strip(row.lastName.value)) in cat.students then
      Err(DuplicateStudent(Strip(row.firstName.value), Strip(row.lastName.value)))
    else if !Truthy(row.department) || !Truthy(row.level) then
      Err(MissingDepartmentOrLevel)
    else if Strip(row.department.value) !in cat.departments then
      Err(UnknownDepartment(Strip(row.department.value)))
    else if !ValidLevel(row.level.value) then
      Err(BadLevel)
    else if Truthy(row.courses) then
      ValidateCourses(cat, SplitOn(row.courses.value, ','), row.department.value, row.level.value,
                      DigitsValue(row.level.value))
    else
      Ok([])
  }

  // ---------------------------------------------------------------------
  // A declarative reading of the check
  // ---------------------------------------------------------------------

  predicate IsDuplicate(cat: Catalog, row: Row) {
    Truthy(row.firstName) && Truthy(row.lastName)
    && (Strip(row.firstName.value), Strip(row.lastName.value)) in cat.students
  }

  /** The course names of a row: the cell split on ',' with no trimming, or
      none when the cell is empty. */
  function CourseNames(row: Row): seq<string> {
    if Truthy(row.courses) then SplitOn(row.courses.value, ',') else []
  }

  /** When a row is importable, stated without reference to the check's
      order. */
  predicate Importable(cat: Catalog, row: Row) {
    && !IsDuplicate(cat, row)
    && Truthy(row.department) && Truthy(row.level)
    && Strip(row.department.value) in cat.departments
    && ValidLevel(row.level.value)
    && forall c :: c in CourseNames(row) ==>
         CourseFits(cat, c, row.department.value, DigitsValue(row.level.value))
  }

  /** The check accepts exactly the importable rows, and then yields their
      course names in input order. */
  lemma BeforeImportRowAcceptsImportable(cat: Catalog, row: Row)
    ensures BeforeImportRow(cat, row).Ok? <==> Importable(cat, row)
    ensures BeforeImportRow(cat, row).Ok? ==> BeforeImportRow(cat, row).value == CourseNames(row)
  {
    if Truthy(row.department) && Truthy(row.level) && ValidLevel(row.level.value) {
      var names := CourseNames(row);
      var dep, lvl := row.department.value, DigitsValue(row.level.value);
      assert (forall c :: c in names ==> CourseFits(cat, c, dep, lvl))
         <==> (forall i :: 0 <= i < |names| ==> CourseFits(cat, names[i], dep, lvl));
    }
  }

  /** `courses_list` joined back with ',' is the cell as given. */
  lemma CoursesListRoundTrip(cat: Catalog, row: Row)
    requires BeforeImportRow(cat, row).Ok? && Truthy(row.courses)
    ensures Join(BeforeImportRow(cat, row).value, ',') == row.courses.value
  {
    BeforeImportRowAcceptsImportable(cat, row);
    JoinSplitOn(row.courses.value, ',');
  }

  /** The duplicate check runs first: a duplicate row is reported as such
      whatever its department, level and courses. */
  lemma DuplicateCheckedFirst(cat: Catalog, row: Row, department: Option<string>, level: Option<string>, courses: Option<string>)
    requires IsDuplicate(cat, row)
    ensures BeforeImportRow(cat, row.(department := department, level := level, courses := courses))
         == Err(DuplicateStudent(Strip(row.firstName.value), Strip(row.lastName.value)))
  {
  }

  /** A row without a department or a level is rejected before any lookup,
      whatever the catalogue holds, unless it is a duplicate. */
  lemma MissingFieldsRejected(cat: Catalog, cat2: Catalog, row: Row)
    requires !Truthy(row.department) || !Truthy(row.level)
    requires !IsDuplicate(cat, row) && !IsDuplicate(cat2, row)
    ensures BeforeImportRow(cat, row) == BeforeImportRow(cat2, row) == Err(MissingDepartmentOrLevel)
  {
  }

  /** The level must be written with digits and name 1 to 4: "0" and "5" are
      refused, a zero-padded "03" is taken as 3. */
  lemma LevelExamples()
    ensures !ValidLevel("0") && !ValidLevel("5") && !ValidLevel("") && !ValidLevel("+1")
    ensures ValidLevel("03") && DigitsValue("03") == 3
  {
    assert !IsAsciiDigit("+1"[0]);
  }

  /** The department is looked up stripped but the courses are matched
      against it as written: with department names stored stripped (as
      `ParentAll.clean` leaves them), a padded department passes the
      department check and then fails on its first course. */
  lemma PaddedDepartmentFailsOnCourses(cat: Catalog, row: Row)
    requires forall d :: d in cat.departments ==> Strip(d) == d
    requires forall c, d :: c in cat.courses && d in cat.courses[c].departments ==> d in cat.departments
    requires !IsDuplicate(cat, row)
    requires Truthy(row.department) && Strip(row.department.value) != row.department.value
    requires Strip(row.department.value) in cat.departments
    requires Truthy(row.level) && ValidLevel(row.level.value)
    requires Truthy(row.courses)
    ensures BeforeImportRow(cat, row).Err? && BeforeImportRow(cat, row).error.IsCourseError()
  {
    var names := SplitOn(row.courses.value, ',');
    assert !CourseFits(cat, names[0], row.department.value, DigitsValue(row.level.value));
  }
}
