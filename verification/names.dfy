/** Name handling of the catalogue entities: the `clean` rules of
    Department, Course and Group (admin_app/models.py), and the initials the
    admin lists display for Course and Department (admin_app/admin.py). */
module Names {
  import opened Text
  import opened Outcomes

  datatype Entity = Department | Course | Group

  /** `[a-zA-Z0-9\s]` for departments and courses, `[a-zA-Z0-9\s-]` for
      groups. */
  predicate InNameClass(e: Entity, c: char) {
    IsAsciiLetter(c) || IsAsciiDigit(c) || IsSpace(c) || (e == Group && c == '-')
  }

  /** `re.match(r'^[...]*$', name)`: every character is in the class. A
      trailing newline needs no special case, being whitespace itself. */
  predicate AllInClass(e: Entity, s: string) {
    forall i :: 0 <= i < |s| ==> InNameClass(e, s[i])
  }

  function NameMessage(e: Entity): string {
    match e
    case Department => "Name can only contain letters and numbers."
    case Course => "Name can only contain letters and numbers."
    case Group => "Name can only contain letters, numbers and - ."
  }

  // ---------------------------------------------------------------------
  // str.title()
  // ---------------------------------------------------------------------

  /** `str.title()` from a given state: a letter following a letter is
      lower-cased, any other letter upper-cased; other characters are kept
      and end the current word. */
  function TitleFrom(s: string, afterLetter: bool): (r: string)
    ensures |r| == |s|
    ensures forall i :: 0 <= i < |s| ==> r[i] == ToUpper(s[i]) || r[i] == ToLower(s[i])
    decreases |s|
  {
    if |s| == 0 then ""
    else
      var c := s[0];
      [if afterLetter then ToLower(c) else ToUpper(c)] + TitleFrom(s[1..], IsAsciiLetter(c))
  }

  /** `str.title()`: the same letters up to case, and title-cased already. */
  function TitleCase(s: string): (r: string)
    ensures |r| == |s| && Lower(r) == Lower(s)
    ensures TitleFrom(r, false) == r
  {
    TitleSameLetters(s, false);
    TitleIdempotent(s, false);
    TitleFrom(s, false)
  }

  /** Title-casing changes case only, so it keeps every character's class. */
  lemma TitleKeepsClass(e: Entity, s: string)
    ensures AllInClass(e, TitleCase(s)) <==> AllInClass(e, s)
  {
    var r := TitleCase(s);
    forall i | 0 <= i < |s| ensures InNameClass(e, r[i]) <==> InNameClass(e, s[i]) {
      UpperCharFacts(s[i]);
      LowerCharFacts(s[i]);
    }
  }

  /** Title-casing keeps the name up to case. */
  lemma TitleSameLetters(s: string, b: bool)
    ensures Lower(TitleFrom(s, b)) == Lower(s)
  {
    var r := TitleFrom(s, b);
    forall i | 0 <= i < |s| ensures Lower(r)[i] == Lower(s)[i] {
      LowerCharFacts(s[i]);
      UpperCharFacts(s[i]);
    }
  }

  /** Title-casing an already title-cased string changes nothing. */
  lemma {:induction false} TitleIdempotent(s: string, b: bool)
    ensures TitleFrom(TitleFrom(s, b), b) == TitleFrom(s, b)
    decreases |s|
  {
    if |s| > 0 {
      var c := s[0];
      var d := if b then ToLower(c) else ToUpper(c);
      UpperCharFacts(c);
      LowerCharFacts(c);
      assert IsAsciiLetter(d) == IsAsciiLetter(c);
      assert TitleFrom(s, b)[1..] == TitleFrom(s[1..], IsAsciiLetter(c));
      TitleIdempotent(s[1..], IsAsciiLetter(c));
    }
  }

  /** The shape of a title-cased string: a letter is upper-case exactly when
      it does not follow another letter. */
  lemma {:induction false} TitleShape(s: string, b: bool)
    ensures forall i :: 0 <= i < |s| && IsAsciiLetter(s[i]) ==>
      (IsAsciiUpper(TitleFrom(s, b)[i]) <==> if i == 0 then !b else !IsAsciiLetter(s[i - 1]))
    decreases |s|
  {
    if |s| > 0 {
      TitleShape(s[1..], IsAsciiLetter(s[0]));
      var r := TitleFrom(s, b);
      forall i | 0 <= i < |s| && IsAsciiLetter(s[i])
        ensures IsAsciiUpper(r[i]) <==> if i == 0 then !b else !IsAsciiLetter(s[i - 1])
      {
        UpperCharFacts(s[i]);
        LowerCharFacts(s[i]);
        if i > 0 {
          assert r[i] == TitleFrom(s[1..], IsAsciiLetter(s[0]))[i - 1];
          assert s[1..][i - 1] == s[i];
          if i > 1 { assert s[1..][i - 2] == s[i - 1]; }
        }
      }
    }
  }

  // ---------------------------------------------------------------------
  // Department / Course / Group clean()
  // ---------------------------------------------------------------------

  /** `ParentAll.clean` (strip, then title) followed by the entity's own
      pattern check, which an empty name skips. */
  function CleanName(e: Entity, raw: string): (r: Result<string, string>)
    ensures r.Ok? <==> AllInClass(e, Strip(raw))
    ensures r.Err? ==> r.error == NameMessage(e)
    ensures r.Ok? ==> |r.value| == |Strip(raw)| && Lower(r.value) == Lower(Strip(raw))
    ensures r.Ok? ==> TitleCase(r.value) == r.value
  {
    var name := TitleCase(Strip(raw));
    TitleKeepsClass(e, Strip(raw));
    TitleSameLetters(Strip(raw), false);
    TitleIdempotent(Strip(raw), false);
    if name != "" && !AllInClass(e, name) then Err(NameMessage(e)) else Ok(name)
  }

  /** Department and course names obey one rule; a group name may also hold
      '-', and that is the only difference. */
  lemma GroupRuleExtendsDepartmentRule(s: string)
    ensures AllInClass(Department, s) == AllInClass(Course, s)
    ensures AllInClass(Department, s) <==> AllInClass(Group, s) && '-' !in s
  {
    if AllInClass(Group, s) && '-' !in s {
      forall i | 0 <= i < |s| ensures InNameClass(Department, s[i]) {
        assert s[i] != '-';
      }
    }
  }

  /** Title-casing a stripped name leaves it stripped. */
  lemma TitleKeepsStripped(t: string)
    requires Strip(t) == t
    ensures Strip(TitleCase(t)) == TitleCase(t)
  {
    var r := TitleCase(t);
    if |t| > 0 {
      UpperCharFacts(t[0]);
      LowerCharFacts(t[0]);
      UpperCharFacts(t[|t| - 1]);
      LowerCharFacts(t[|t| - 1]);
      assert !IsSpace(r[0]) && !IsSpace(r[|r| - 1]);
    }
    StripFacts(r);
  }

  /** Cleaning a cleaned name again gives it back unchanged. */
  lemma CleanNameIdempotent(e: Entity, raw: string)
    requires CleanName(e, raw).Ok?
    ensures CleanName(e, CleanName(e, raw).value) == CleanName(e, raw)
  {
    var t := Strip(raw);
    StripIdempotent(raw);
    TitleKeepsStripped(t);
    TitleKeepsClass(e, t);
  }

  // ---------------------------------------------------------------------
  // name_initials
  // ---------------------------------------------------------------------

  function InitialsOfWords(ws: seq<string>): (r: string)
    requires forall i :: 0 <= i < |ws| ==> |ws[i]| > 0
    ensures |r| == |ws|
    ensures forall i :: 0 <= i < |ws| ==> r[i] == ToUpper(ws[i][0])
  {
    if |ws| == 0 then "" else [ToUpper(ws[0][0])] + InitialsOfWords(ws[1..])
  }

  /** `''.join([word[0].upper() for word in name.split()])`. */
  function Initials(name: string): (r: string)
    ensures |r| == |Words(name)|
    ensures forall i :: 0 <= i < |r| ==> r[i] == ToUpper(Words(name)[i][0])
    ensures r == "" <==> forall i :: 0 <= i < |name| ==> IsSpace(name[i])
  {
    WordsEmptyIffBlank(name);
    InitialsOfWords(Words(name))
  }

  /** One upper-cased letter per word; a blank name gives "". */
  lemma InitialsLength(name: string)
    ensures |Initials(name)| == |Words(name)|
    ensures Initials(name) == "" <==> forall i :: 0 <= i < |name| ==> IsSpace(name[i])
    ensures forall i :: 0 <= i < |Initials(name)| ==> !IsAsciiLower(Initials(name)[i])
  {
    WordsEmptyIffBlank(name);
    var ws := Words(name);
    forall i | 0 <= i < |ws| ensures !IsAsciiLower(Initials(name)[i]) {
      UpperCharFacts(ws[i][0]);
    }
  }

  /** An independent reading of the initials: scan the name once and emit
      the upper-cased character at each position that begins a word, i.e.
      a non-space character after a space or at the start. */
  function ScanInitials(s: string, afterSpace: bool): string
    decreases |s|
  {
    if |s| == 0 then ""
    else
      (if afterSpace && !IsSpace(s[0]) then [ToUpper(s[0])] else "")
      + ScanInitials(s[1..], IsSpace(s[0]))
  }

  lemma {:induction false} ScanSkipsWord(t: string, m: nat)
    requires m <= |t|
    requires forall i :: 0 <= i < m ==> !IsSpace(t[i])
    ensures ScanInitials(t, false) == ScanInitials(t[m..], false)
    decreases m
  {
    if m > 0 {
      ScanSkipsWord(t[1..], m - 1);
      assert t[1..][m - 1..] == t[m..];
    }
  }

  /** At a word start, the word-by-word reading emits the word's first
      character and goes on after the word. */
  lemma InitialsAtWordStart(s: string)
    requires |s| > 0 && !IsSpace(s[0])
    ensures Initials(s) == [ToUpper(s[0])] + Initials(s[WordLength(s)..])
  {
    var n := WordLength(s);
    assert Words(s) == [s[..n]] + Words(s[n..]);
  }

  /** Whether or not the scan has just seen a space makes no difference
      where a space follows anyway. */
  lemma ScanBeforeSpace(t: string)
    requires |t| == 0 || IsSpace(t[0])
    ensures ScanInitials(t, false) == ScanInitials(t, true)
  {
  }

  /** At a word start, the scan emits the word's first character and goes
      on after the word. */
  lemma ScanAtWordStart(s: string)
    requires |s| > 0 && !IsSpace(s[0])
    ensures ScanInitials(s, true) == [ToUpper(s[0])] + ScanInitials(s[WordLength(s)..], true)
  {
    var n := WordLength(s);
    assert ScanInitials(s, true) == [ToUpper(s[0])] + ScanInitials(s[1..], false);
    ScanSkipsWord(s[1..], n - 1);
    assert s[1..][n - 1..] == s[n..];
    ScanBeforeSpace(s[n..]);
  }

  /** Reading initials word by word and scanning for word starts agree. */
  lemma {:induction false} InitialsByScan(s: string)
    ensures Initials(s) == ScanInitials(s, true)
    decreases |s|
  {
    if |s| > 0 {
      if IsSpace(s[0]) {
        InitialsByScan(s[1..]);
      } else {
        InitialsAtWordStart(s);
        ScanAtWordStart(s);
        InitialsByScan(s[WordLength(s)..]);
      }
    }
  }
}
