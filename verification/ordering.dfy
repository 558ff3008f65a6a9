/** The `ordering` query parameter of the four list views in
    admin_app/views.py (library, students, instructors, departments): the
    requested field is normalised, and anything outside the view's whitelist
    is replaced by a fixed fallback field before the list is sorted. */
module Ordering {
  import opened Text
  import opened Outcomes

  datatype ListView = Library | Students | Instructors | Departments

  /** The ascending fields of each view's `valid_ordering_fields`, in their
      declared order. */
  function Fields(v: ListView): seq<string> {
    match v
    case Library => [
      "name", "course__name", "category", "type", "size", "upload_date", "upload_by__first_name"]
    case Students => [
      "user__id", "user__first_name", "user__email", "user__phone", "user__gender",
      "user__birth_date", "level", "department__name", "group__name"]
    case Instructors => ["user__id", "user__first_name", "user__email", "user__phone", "user__gender"]
    case Departments => ["id", "name"]
  }

  function Descending(fs: seq<string>): (ds: seq<string>)
    ensures |ds| == |fs|
  {
    seq(|fs|, i requires 0 <= i < |fs| => "-" + fs[i])
  }

  /** `valid_ordering_fields`: each view lists its fields ascending, then the
      same fields descending in the same order. */
  function Whitelist(v: ListView): seq<string> {
    Fields(v) + Descending(Fields(v))
  }

  /** The default of `request.GET.get('ordering', ...)`, used when the
      parameter is absent. */
  function RequestDefault(v: ListView): string {
    match v
    case Library => "name"
    case Students => "user__first_name"
    case Instructors => "user__first_name"
    case Departments => "name"
  }

  /** The field a non-whitelisted ordering is replaced by. */
  function Fallback(v: ListView): string {
    match v
    case Library => "name"
    case Students => "user__id"
    case Instructors => "user__id"
    case Departments => "name"
  }

  /** The library and student views strip and lower-case the parameter; the
      instructor and department views only strip it. */
  function Normalise(v: ListView, s: string): (r: string)
    ensures |r| == |Strip(s)| && Lower(r) == Lower(Strip(s))
    ensures |r| == 0 || (!IsSpace(r[0]) && !IsSpace(r[|r| - 1]))
    ensures v == Library || v == Students ==> forall i :: 0 <= i < |r| ==> !IsAsciiUpper(r[i])
    ensures v == Instructors || v == Departments ==> r == Strip(s)
  {
    LowerKeepsShape(Strip(s));
    LowerIdempotent(Strip(s));
    if v == Library || v == Students then Lower(Strip(s)) else Strip(s)
  }

  /** The ordering the view hands to `order_by`. */
  function AppliedOrdering(v: ListView, param: Option<string>): (r: string)
    ensures r in Whitelist(v)
    ensures param.Some? && Normalise(v, param.value) in Whitelist(v) ==> r == Normalise(v, param.value)
    ensures param.Some? && Normalise(v, param.value) !in Whitelist(v) ==> r == Fallback(v)
  {
    var requested := if param.Some? then param.value else RequestDefault(v);
    var ordering := Normalise(v, requested);
    if ordering in Whitelist(v) then ordering else Fallback(v)
  }

  // ---------------------------------------------------------------------
  // The shape of the whitelists
  // ---------------------------------------------------------------------

  predicate FieldChar(c: char) {
    IsAsciiLower(c) || c == '_' || c == '-'
  }

  /** A field name as the whitelists write it: non-empty, lower-case letters,
      '_' and '-' only. Such a name is its own normal form. */
  predicate Canonical(f: string) {
    |f| > 0 && forall i :: 0 <= i < |f| ==> FieldChar(f[i])
  }

  /** An ascending field: a lower-case letter, then lower-case letters and
      '_'. */
  predicate AscendingName(f: string) {
    |f| > 0 && IsAsciiLower(f[0]) && forall i :: 0 <= i < |f| ==> IsAsciiLower(f[i]) || f[i] == '_'
  }

  lemma CanonicalIsNormal(v: ListView, f: string)
    requires Canonical(f)
    ensures Normalise(v, f) == f
  {
    assert FieldChar(f[0]) && FieldChar(f[|f| - 1]);
    StripFacts(f);
    assert Strip(f) == f;
    forall i | 0 <= i < |f| ensures Lower(f)[i] == f[i] {
      assert FieldChar(f[i]);
    }
    assert Lower(f) == f;
  }

  lemma FieldsAscending(v: ListView)
    ensures forall i :: 0 <= i < |Fields(v)| ==> AscendingName(Fields(v)[i])
  {
    var fs := Fields(v);
    forall i | 0 <= i < |fs| ensures AscendingName(fs[i]) {
      var f := fs[i];
      forall j | 0 <= j < |f| ensures IsAsciiLower(f[j]) || f[j] == '_' {
        LiteralChars(v, i, j);
      }
    }
  }

  /** The field literals, checked character by character one view at a
      time. */
  lemma LiteralChars(v: ListView, i: nat, j: nat)
    requires i < |Fields(v)| && j < |Fields(v)[i]|
    ensures IsAsciiLower(Fields(v)[i][j]) || Fields(v)[i][j] == '_'
    ensures IsAsciiLower(Fields(v)[i][0])
  {
    match v
    case Library => LibraryChars(i, j);
    case Students => StudentsChars(i, j);
    case Instructors => InstructorsChars(i, j);
    case Departments => DepartmentsChars(i, j);
  }

  lemma LibraryChars(i: nat, j: nat)
    requires i < |Fields(Library)| && j < |Fields(Library)[i]|
    ensures IsAsciiLower(Fields(Library)[i][j]) || Fields(Library)[i][j] == '_'
    ensures IsAsciiLower(Fields(Library)[i][0])
  {
  }

  lemma StudentsChars(i: nat, j: nat)
    requires i < |Fields(Students)| && j < |Fields(Students)[i]|
    ensures IsAsciiLower(Fields(Students)[i][j]) || Fields(Students)[i][j] == '_'
    ensures IsAsciiLower(Fields(Students)[i][0])
  {
  }

  lemma InstructorsChars(i: nat, j: nat)
    requires i < |Fields(Instructors)| && j < |Fields(Instructors)[i]|
    ensures IsAsciiLower(Fields(Instructors)[i][j]) || Fields(Instructors)[i][j] == '_'
    ensures IsAsciiLower(Fields(Instructors)[i][0])
  {
  }

  lemma DepartmentsChars(i: nat, j: nat)
    requires i < |Fields(Departments)| && j < |Fields(Departments)[i]|
    ensures IsAsciiLower(Fields(Departments)[i][j]) || Fields(Departments)[i][j] == '_'
    ensures IsAsciiLower(Fields(Departments)[i][0])
  {
  }

  lemma WhitelistCanonical(v: ListView, f: string)
    requires f in Whitelist(v)
    ensures Canonical(f)
  {
    FieldsAscending(v);
    var fs := Fields(v);
    var i :| 0 <= i < |Whitelist(v)| && Whitelist(v)[i] == f;
    if i >= |fs| {
      var g := fs[i - |fs|];
      assert f == "-" + g;
      forall j | 0 <= j < |f| ensures FieldChar(f[j]) {
        if j > 0 { assert f[j] == g[j - 1]; }
      }
    }
  }

  /** The opposite direction of a field: `-f` for `f`, and `f` for `-f`. */
  function Reversed(f: string): string {
    if |f| > 0 && f[0] == '-' then f[1..] else "-" + f
  }

  /** Every whitelist offers each field in both directions. */
  lemma WhitelistClosedUnderReversal(v: ListView, f: string)
    requires f in Whitelist(v)
    ensures Reversed(f) in Whitelist(v)
    ensures Reversed(Reversed(f)) == f
  {
    FieldsAscending(v);
    BothDirectionsClosed(Fields(v), f);
  }

  /** Ascending names followed by their descending forms offer each name in
      both directions. */
  lemma BothDirectionsClosed(fs: seq<string>, f: string)
    requires forall i :: 0 <= i < |fs| ==> AscendingName(fs[i])
    requires f in fs + Descending(fs)
    ensures Reversed(f) in fs + Descending(fs)
    ensures Reversed(Reversed(f)) == f
  {
    var w := fs + Descending(fs);
    var i :| 0 <= i < |w| && w[i] == f;
    if i < |fs| {
      assert AscendingName(fs[i]) && f[0] != '-';
      assert Reversed(f) == w[i + |fs|];
      assert ("-" + f)[1..] == f;
    } else {
      assert f == "-" + fs[i - |fs|];
      assert Reversed(f) == fs[i - |fs|] == w[i - |fs|];
    }
  }

  // ---------------------------------------------------------------------
  // Properties of the applied ordering
  // ---------------------------------------------------------------------

  /** A whitelisted field is honoured as given. */
  lemma WhitelistedFieldKept(v: ListView, f: string)
    requires f in Whitelist(v)
    ensures AppliedOrdering(v, Some(f)) == f
  {
    WhitelistCanonical(v, f);
    CanonicalIsNormal(v, f);
  }

  /** Passing the applied ordering back in (as the pagination and sort links
      of the page do) changes nothing. */
  lemma AppliedOrderingIdempotent(v: ListView, param: Option<string>)
    ensures AppliedOrdering(v, Some(AppliedOrdering(v, param))) == AppliedOrdering(v, param)
  {
    WhitelistedFieldKept(v, AppliedOrdering(v, param));
  }

  /** Without the parameter the view sorts by its request default, which is
      whitelisted; for students and instructors that is the first name, not
      the fallback field. */
  lemma AbsentOrderingUsesRequestDefault(v: ListView)
    ensures RequestDefault(v) in Whitelist(v)
    ensures AppliedOrdering(v, None) == RequestDefault(v)
    ensures (v == Students || v == Instructors) <==> RequestDefault(v) != Fallback(v)
  {
    WhitelistedFieldKept(v, RequestDefault(v));
  }

  /** Only canonical names can be whitelisted. */
  lemma NonCanonicalNotWhitelisted(v: ListView, f: string)
    requires !Canonical(f)
    ensures f !in Whitelist(v)
  {
    if f in Whitelist(v) {
      WhitelistCanonical(v, f);
    }
  }

  /** Surrounding whitespace never matters: the applied ordering depends
      only on the stripped parameter. */
  lemma StrippedParameterSuffices(v: ListView, s: string)
    ensures AppliedOrdering(v, Some(s)) == AppliedOrdering(v, Some(Strip(s)))
  {
    StripIdempotent(s);
  }

  /** The library and student views ignore case: a parameter and its
      lower-cased form give the same ordering. */
  lemma LibraryAndStudentsIgnoreCase(v: ListView, s: string)
    requires v == Library || v == Students
    ensures AppliedOrdering(v, Some(s)) == AppliedOrdering(v, Some(Lower(s)))
  {
    StripOfLower(s);
    LowerIdempotent(Strip(s));
  }

  /** The instructor and department views compare case-sensitively: a
      parameter holding an upper-case letter after stripping always falls
      back. */
  lemma UpperCaseFallsBack(v: ListView, s: string, i: nat)
    requires v == Instructors || v == Departments
    requires i < |Strip(s)| && IsAsciiUpper(Strip(s)[i])
    ensures AppliedOrdering(v, Some(s)) == Fallback(v)
  {
    assert !FieldChar(Strip(s)[i]);
    NonCanonicalNotWhitelisted(v, Strip(s));
  }
}
