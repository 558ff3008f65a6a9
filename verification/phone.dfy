/** The two phone-number rules of the system: the string check applied to
    account requests (admin_app/views.py, `is_valid_phone_number`) and the
    integer range rule of `User.clean` (admin_app/models.py). */
module Phone {
  import opened Text
  import opened Outcomes

  // ---------------------------------------------------------------------
  // The account-request check on strings
  // ---------------------------------------------------------------------

  /** `(True, None)` or `(False, message)`. */
  datatype PhoneCheck = Accepted | Rejected(message: string)

  const PatternMessage: string := "Please enter a valid Yemeni phone number (e.g., 7xxxxxxxx)."
  const CompanyNumberMessage: string := "This phone number is not allowed (company number)."

  const YemeniPrefixes: set<string> := {"70", "71", "73", "77", "78"}

  /** `re.match(r'^(70|71|73|77|78)\d{7}$', s)`: one of the prefixes, seven
      digits, then the end of the string, or a single final newline, which
      Python's `$` also matches before. */
  predicate MatchesYemeniPattern(s: string) {
    && (|s| == 9 || (|s| == 10 && s[9] == '\n'))
    && s[..2] in YemeniPrefixes
    && AllDigits(s[2..9])
  }

  /** `all(digit == t[0] for digit in t)`. */
  predicate AllSame(t: string)
    requires |t| > 0
  {
    forall i :: 0 <= i < |t| ==> t[i] == t[0]
  }

  /** `is_valid_phone_number`: the pattern check, then the rule against
      numbers whose last seven characters are all the same. */
  function IsValidPhoneNumber(s: string): (r: PhoneCheck)
    ensures r.Rejected? ==> r.message != ""
    ensures !MatchesYemeniPattern(s) ==> r == Rejected(PatternMessage)
  {
    if !MatchesYemeniPattern(s) then Rejected(PatternMessage)
    else
      var lastSeven := s[2..];
      if AllSame(lastSeven) then Rejected(CompanyNumberMessage)
      else Accepted
  }

  // ---------------------------------------------------------------------
  // An arithmetic reading of the same rule
  // ---------------------------------------------------------------------

  const TenMillion: nat := 10000000
  const Repunit7: nat := 1111111

  /** The leading two digits of a nine-digit number, as the account-request
      check allows them. */
  predicate YemeniLeadingPair(n: nat) {
    n / TenMillion in {70, 71, 73, 77, 78}
  }

  /** The string check read as arithmetic: the first nine characters are
      digits whose number starts with an allowed pair, and (unless a final
      newline follows) the last seven digits are not a repdigit, i.e. not a
      multiple of 1111111. */
  predicate NumericPhoneRule(s: string) {
    && (|s| == 9 || (|s| == 10 && s[9] == '\n'))
    && AllDigits(s[..9])
    && YemeniLeadingPair(DigitsValue(s[..9]))
    && (|s| == 10 || DigitsValue(s[..9]) % TenMillion % Repunit7 != 0)
  }

  function RepunitOf(n: nat): nat {
    if n == 0 then 0 else RepunitOf(n - 1) * 10 + 1
  }

  /** A run of `n` equal digits `d` denotes `d` times the repunit 11...1. */
  lemma {:induction false} RepdigitValue(t: string, c: char)
    requires IsAsciiDigit(c)
    requires forall i :: 0 <= i < |t| ==> t[i] == c
    ensures AllDigits(t)
    ensures DigitsValue(t) == DigitValue(c) * RepunitOf(|t|)
    decreases |t|
  {
    if |t| > 0 {
      var init := t[..|t| - 1];
      RepdigitValue(init, c);
      assert DigitsValue(t) == DigitsValue(init) * 10 + DigitValue(c);
      RepunitStep(DigitValue(c), RepunitOf(|t| - 1));
    }
  }

  /** The one nonlinear step of `RepdigitValue`, kept apart so that the
      solver meets it without the rest of that proof's context. */
  lemma RepunitStep(d: int, r: int)
    ensures d * r * 10 + d == d * (r * 10 + 1)
  {
  }

  /** Seven digits are all the same exactly when their number is a multiple
      of 1111111. */
  lemma SevenSameIffRepunitMultiple(t: string)
    requires |t| == 7 && AllDigits(t)
    ensures AllSame(t) <==> DigitsValue(t) % Repunit7 == 0
  {
    assert RepunitOf(7) == Repunit7;
    if AllSame(t) {
      RepdigitValue(t, t[0]);
    }
    if DigitsValue(t) % Repunit7 == 0 {
      var k := DigitsValue(t) / Repunit7;
      assert DigitsValue(t) < Pow10(7);
      assert k < 10;
      var rep := seq(7, i => DigitChar(k));
      RepdigitValue(rep, DigitChar(k));
      DigitsValueInjective(t, rep);
    }
  }

  lemma PrefixValue(p: string)
    requires |p| == 2 && AllDigits(p)
    ensures p in YemeniPrefixes <==> DigitsValue(p) in {70, 71, 73, 77, 78}
    ensures p == "70" <==> DigitsValue(p) == 70
  {
    var a, b := DigitValue(p[0]), DigitValue(p[1]);
    assert p[..1][..0] == [];
    assert DigitsValue(p[..1]) == a;
    assert DigitsValue(p) == 10 * a + b;
    assert p == [p[0], p[1]];
  }

  /** The character-level check and its arithmetic reading agree on every
      string. */
  lemma SplitDigits(s: string)
    requires |s| >= 9
    ensures AllDigits(s[..9]) <==> AllDigits(s[..2]) && AllDigits(s[2..9])
    ensures s[..2] in YemeniPrefixes ==> AllDigits(s[..2])
  {
    assert forall i :: 0 <= i < 2 ==> s[..2][i] == s[..9][i];
    assert forall i :: 0 <= i < 7 ==> s[2..9][i] == s[..9][i + 2];
    if AllDigits(s[..2]) && AllDigits(s[2..9]) {
      forall i | 0 <= i < 9 ensures IsAsciiDigit(s[..9][i]) {
        if i < 2 { assert s[..9][i] == s[..2][i]; } else { assert s[..9][i] == s[2..9][i - 2]; }
      }
    }
  }

  /** A nine-digit number splits into its leading pair and its last seven
      digits by division by ten million. */
  lemma PairAndSeven(head: string, tail: string)
    requires |head| == 2 && |tail| == 7 && AllDigits(head) && AllDigits(tail)
    ensures AllDigits(head + tail)
    ensures DigitsValue(head + tail) / TenMillion == DigitsValue(head)
    ensures DigitsValue(head + tail) % TenMillion == DigitsValue(tail)
  {
    DigitsValueAppend(head, tail);
    assert Pow10(7) == TenMillion;
  }

  /** The character-level check and its arithmetic reading agree on every
      string. */
  lemma {:induction false} ValidPhoneNumberIsNumericRule(s: string)
    ensures IsValidPhoneNumber(s) == Accepted <==> NumericPhoneRule(s)
  {
    if |s| == 9 || (|s| == 10 && s[9] == '\n') {
      var head, tail := s[..2], s[2..9];
      assert s[..9] == head + tail;
      SplitDigits(s);
      if AllDigits(head) && AllDigits(tail) {
        PairAndSeven(head, tail);
        PrefixValue(head);
        CompanyRule(s);
      }
    }
  }

  /** The company-number rule on a well-shaped string fires exactly when no
      newline follows and the seven digits are a multiple of 1111111. */
  lemma CompanyRule(s: string)
    requires |s| == 9 || (|s| == 10 && s[9] == '\n')
    requires AllDigits(s[2..9])
    ensures AllSame(s[2..]) <==> |s| == 9 && DigitsValue(s[2..9]) % Repunit7 == 0
  {
    var tail := s[2..9];
    SevenSameIffRepunitMultiple(tail);
    if |s| == 9 {
      assert s[2..] == tail;
    } else {
      assert s[2..][7] == '\n' != s[2..][0];
    }
  }

  // ---------------------------------------------------------------------
  // The integer rule of User.clean
  // ---------------------------------------------------------------------

  const RangeMessage: string :=
    "Phone number must be in the allowed ranges: 77*******, 78*******, 71*******, or 73*******, and must not include restricted numbers like 777777777."

  const ExcludedNumbers: set<nat> := {777777777}

  predicate InAllowedRange(phone: nat) {
    || (770000000 <= phone <= 789999999)
    || (710000000 <= phone <= 719999999)
    || (730000000 <= phone <= 739999999)
  }

  /** `User.clean`'s phone rule: a zero phone is not checked; any other must
      lie in one of the ranges and not be excluded. `None` means no error. */
  function UserPhoneError(phone: nat): (r: Option<string>)
    ensures r.Some? ==> phone != 0 && r.value == RangeMessage
    ensures r.None? <==> phone == 0 || (phone / TenMillion in {71, 73, 77, 78} && phone < 1000000000 && phone != 777777777)
  {
    if phone != 0 && (!InAllowedRange(phone) || phone in ExcludedNumbers) then Some(RangeMessage)
    else None
  }

  /** The field validator `^\d{9}$`, which Django applies to `str(phone)`. */
  predicate NineDigitField(phone: nat) {
    |NatToString(phone)| == 9
  }

  /** Every number `User.clean` accepts (other than zero) also passes the
      nine-digit field validator. */
  lemma AcceptedPhoneHasNineDigits(phone: nat)
    requires phone != 0 && UserPhoneError(phone).None?
    ensures NineDigitField(phone)
  {
    NatToStringLength(phone, 9);
    NatToStringLength(phone, 8);
    assert Pow10(8) == 100000000;
  }

  // ---------------------------------------------------------------------
  // How the two rules relate
  // ---------------------------------------------------------------------

  /** A request number accepted by the view is accepted by the model once
      its prefix is not 70. */
  lemma {:induction false} ViewAcceptedImpliesModelAccepted(s: string)
    requires |s| == 9
    requires IsValidPhoneNumber(s) == Accepted
    requires s[..2] != "70"
    ensures AllDigits(s)
    ensures UserPhoneError(DigitsValue(s)).None?
  {
    ValidPhoneNumberIsNumericRule(s);
    assert s[..9] == s && s[2..9] == s[2..];
    SplitDigits(s);
    PairAndSeven(s[..2], s[2..]);
    assert s[..2] + s[2..] == s;
    PrefixValue(s[..2]);
    assert Pow10(9) == 1000000000;
    assert 777777777 % TenMillion % Repunit7 == 0;
  }

  /** A number the model accepts is accepted by the view as its decimal
      string unless its last seven digits are a repdigit. */
  lemma ModelAcceptedImpliesViewAccepted(phone: nat)
    requires phone != 0 && UserPhoneError(phone).None?
    requires phone % TenMillion % Repunit7 != 0
    ensures IsValidPhoneNumber(NatToString(phone)) == Accepted
  {
    var s := NatToString(phone);
    AcceptedPhoneHasNineDigits(phone);
    DigitsValueOfNatToString(phone);
    assert s[..9] == s;
    ValidPhoneNumberIsNumericRule(s);
  }

  /** The rules disagree in both directions: a 70-prefix number passes the
      view and fails the model, a repdigit-tail number the other way round. */
  lemma RulesDisagree()
    ensures IsValidPhoneNumber("701234567") == Accepted
    ensures UserPhoneError(701234567).Some?
    ensures IsValidPhoneNumber("711111111").Rejected?
    ensures UserPhoneError(711111111).None?
  {
    assert "701234567"[..2] == "70";
    assert "701234567"[2..][1] != "701234567"[2..][0];
  }

  /** Python's `$` accepts one trailing newline, and the company-number rule
      then never fires because the newline differs from the digits. */
  lemma TrailingNewlineAccepted()
    ensures IsValidPhoneNumber("711111111\n") == Accepted
    ensures IsValidPhoneNumber("711111111") == Rejected(CompanyNumberMessage)
  {
    assert "711111111\n"[..2] == "71";
    assert "711111111\n"[2..][7] == '\n';
    assert "711111111"[..2] == "71";
  }
}
