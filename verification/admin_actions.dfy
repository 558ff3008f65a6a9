/** The admin-site actions on accounts (admin_app/admin.py): what
    `UserAdmin.save_model` does to the role profiles, the staff flags and the
    password, and the guards and effects of the `approve_requests` and
    `reject_requests` actions on account requests. Users are kept by e-mail,
    which the user model declares unique; sending mail is an outcome given
    as a parameter, and the random temporary password is given as its eight
    drawn digits. */
module AdminActions {
  import opened Text
  import opened Outcomes

  datatype Role = AdminRole | InstructorRole | StudentRole

  /** A stored password: a raw value, or what `make_password` /
      `set_password` make of a value. */
  datatype Password = Raw(text: string) | HashOf(of: Password)

  datatype Account = Account(
    username: string,
    role: Role,
    isStaff: bool,
    isSuperuser: bool,
    password: Password)

  /** Which of the `Student`, `Instructor` and `Admin` rows point at the
      user. */
  datatype Profiles = Profiles(student: bool, instructor: bool, admin: bool)

  // ---------------------------------------------------------------------
  // UserAdmin.save_model
  // ---------------------------------------------------------------------

  /** Deleting the profile that belongs to a role. */
  function DropProfile(p: Profiles, role: Role): (q: Profiles)
    ensures role == StudentRole ==> q == p.(student := false)
    ensures role == InstructorRole ==> q == p.(instructor := false)
    ensures role == AdminRole ==> q == p.(admin := false)
  {
    match role
    case StudentRole => p.(student := false)
    case InstructorRole => p.(instructor := false)
    case AdminRole => p.(admin := false)
  }

  /** `save_model`. `stored` is the account as in the database when the
      form edits an existing user (`change`), `None` when it adds one; `obj`
      is the account as the form left it. */
  function SaveUser(stored: Option<Account>, profiles: Profiles, obj: Account, passwordChanged: bool)
    : (r: (Account, Profiles))
    ensures r.0.username == obj.username && r.0.role == obj.role
    ensures r.0.password == if passwordChanged then HashOf(obj.password) else obj.password
    ensures stored.Some? && stored.value.role == AdminRole && obj.role != AdminRole ==>
      !r.0.isStaff && !r.0.isSuperuser && !r.1.admin
    ensures stored.Some? && stored.value.role != obj.role ==> r.1 == DropProfile(profiles, stored.value.role)
    ensures stored.Some? && stored.value.role == obj.role ==>
      r.1 == profiles && r.0.isStaff == obj.isStaff && r.0.isSuperuser == obj.isSuperuser
    ensures stored.None? && obj.role != AdminRole ==> !r.0.isStaff && !r.0.isSuperuser && r.1 == profiles
    ensures stored.None? && obj.role == AdminRole ==> r.1 == profiles.(admin := true)
    ensures (stored.Some? ==> stored.value.role != AdminRole || obj.role == AdminRole) &&
            (stored.None? ==> obj.role == AdminRole) ==>
      r.0.isStaff == obj.isStaff && r.0.isSuperuser == obj.isSuperuser
  {
    var (acct, profs) :=
      if stored.Some? then
        if stored.value.role != obj.role then
          var dropped := DropProfile(profiles, stored.value.role);
          if stored.value.role == AdminRole then (obj.(isStaff := false, isSuperuser := false), dropped)
          else (obj, dropped)
        else (obj, profiles)
      else if obj.role == AdminRole then (obj, profiles.(admin := true))
      else (obj.(isStaff := false, isSuperuser := false), profiles);
    var pw := if passwordChanged then HashOf(acct.password) else acct.password;
    (acct.(password := pw), profs)
  }

  /** Saving the stored account again through an unchanged form changes
      nothing. */
  lemma ResaveChangesNothing(stored: Account, profiles: Profiles)
    ensures SaveUser(Some(stored), profiles, stored, false) == (stored, profiles)
  {
  }

  /** A role change deletes exactly the old role's profile: the profile of
      the new role is neither created nor touched, so editing a student into
      an admin leaves the user with no admin profile. */
  lemma RoleChangeCreatesNoProfile(stored: Account, profiles: Profiles, obj: Account, passwordChanged: bool)
    requires stored.role == StudentRole && obj.role == AdminRole
    requires !profiles.admin
    ensures !SaveUser(Some(stored), profiles, obj, passwordChanged).1.admin
    ensures !SaveUser(Some(stored), profiles, obj, passwordChanged).1.student
  {
  }

  // ---------------------------------------------------------------------
  // The temporary password of an approval
  // ---------------------------------------------------------------------

  const TempPasswordLength: nat := 8

  /** Eight draws of `random.choices('0123456789', k=8)`, each an index into
      the digit string. */
  predicate ValidDraws(draws: seq<nat>) {
    |draws| == TempPasswordLength && forall i :: 0 <= i < |draws| ==> draws[i] < 10
  }

  function TempPassword(draws: seq<nat>): (p: string)
    requires ValidDraws(draws)
    ensures |p| == TempPasswordLength && AllDigits(p)
  {
    seq(TempPasswordLength, i requires 0 <= i < TempPasswordLength => DigitChar(draws[i]))
  }

  /** The draws can be read back from the password, so distinct draws give
      distinct passwords. */
  lemma TempPasswordDecodes(draws: seq<nat>)
    requires ValidDraws(draws)
    ensures forall i :: 0 <= i < TempPasswordLength ==> DigitValue(TempPassword(draws)[i]) == draws[i]
  {
    forall i | 0 <= i < TempPasswordLength
      ensures DigitValue(TempPassword(draws)[i]) == draws[i]
    {
      DigitRoundTrip(draws[i]);
    }
  }

  lemma DigitRoundTrip(d: nat)
    requires d < 10
    ensures DigitValue(DigitChar(d)) == d
  {
  }

  lemma TempPasswordInjective(a: seq<nat>, b: seq<nat>)
    requires ValidDraws(a) && ValidDraws(b)
    requires TempPassword(a) == TempPassword(b)
    ensures a == b
  {
    TempPasswordDecodes(a);
    TempPasswordDecodes(b);
  }

  /** Every string of eight digits is the password of some draws, so with
      `TempPasswordInjective` the draws and the passwords correspond one to
      one. */
  lemma TempPasswordOnto(p: string)
    requires |p| == TempPasswordLength && AllDigits(p)
    ensures exists draws :: ValidDraws(draws) && TempPassword(draws) == p
  {
    var draws := seq(TempPasswordLength, i requires 0 <= i < TempPasswordLength => DigitValue(p[i]));
    assert TempPassword(draws) == p;
  }

  // ---------------------------------------------------------------------
  // approve_requests / reject_requests
  // ---------------------------------------------------------------------

  datatype RequestStatus = Pending | Approved | Rejected

  datatype AccountRequest = AccountRequest(
    fullName: string,
    email: string,
    isApproved: bool,
    status: RequestStatus)

  /** The admin message each request produces. */
  datatype Notice =
    | ApprovalSent
    | ApprovalMailFailed
    | InvalidRole(role: Role)
    | NoSuchUser
    | ApproveNeedsFlag
    | RejectionSent
    | RejectionMailFailed
    | UserExists
    | RejectNeedsNoFlag

  datatype Step = Step(request: AccountRequest, users: map<string, Account>, notice: Notice)

  /** One iteration of `approve_requests`. The password is set and saved
      before the mail goes out, so a failed mail leaves the new password in
      place and the request unchanged. */
  function ApproveOne(req: AccountRequest, users: map<string, Account>, draws: seq<nat>, mailOk: bool)
    : (s: Step)
    requires ValidDraws(draws)
    ensures s.notice == ApprovalSent <==>
      req.isApproved && req.email in users && users[req.email].role != AdminRole && mailOk
    ensures s.request != req ==> s.notice == ApprovalSent && s.request == req.(status := Approved)
    ensures s.users != users ==> req.isApproved && req.email in users && users[req.email].role != AdminRole
    ensures s.users.Keys == users.Keys
    ensures req.email in users ==>
      s.users[req.email] == users[req.email].(password := s.users[req.email].password)
    ensures s.users != users ==> s.users[req.email].password == HashOf(Raw(TempPassword(draws)))
    ensures req.isApproved && req.email in users && users[req.email].role != AdminRole ==>
      s.users[req.email].password == HashOf(Raw(TempPassword(draws)))
    ensures forall e :: e in users && e != req.email ==> s.users[e] == users[e]
    ensures forall e :: e in users ==> s.users[e].role == users[e].role
  {
    if !req.isApproved then Step(req, users, ApproveNeedsFlag)
    else if req.email !in users then Step(req, users, NoSuchUser)
    else
      var user := users[req.email];
      if user.role !in {StudentRole, InstructorRole} then
        assert user.role == AdminRole;
        Step(req, users, InvalidRole(user.role))
      else
        var temp := TempPassword(draws);
        var users' := users[req.email := user.(password := HashOf(Raw(temp)))];
        if mailOk then Step(req.(isApproved := true, status := Approved), users', ApprovalSent)
        else Step(req, users', ApprovalMailFailed)
  }

  /** An eligible approval sets the password to the hash of the eight-digit
      temporary password that the mail carries, whether or not the mail goes
      out. */
  lemma ApprovalSetsTempPassword(req: AccountRequest, users: map<string, Account>, draws: seq<nat>, mailOk: bool)
    requires ValidDraws(draws)
    requires req.isApproved && req.email in users && users[req.email].role != AdminRole
    ensures ApproveOne(req, users, draws, mailOk).users[req.email].password == HashOf(Raw(TempPassword(draws)))
    ensures mailOk <==> ApproveOne(req, users, draws, mailOk).notice == ApprovalSent
    ensures !mailOk ==> ApproveOne(req, users, draws, mailOk).request == req
  {
  }

  /** One iteration of `reject_requests`: only a request without the
      approval flag whose e-mail belongs to no user is rejected. */
  function RejectOne(req: AccountRequest, users: map<string, Account>, mailOk: bool): (s: Step)
    ensures s.users == users
    ensures s.notice == RejectionSent <==> !req.isApproved && req.email !in users && mailOk
    ensures s.request == if s.notice == RejectionSent then req.(status := Rejected) else req
  {
    if req.isApproved then Step(req, users, RejectNeedsNoFlag)
    else if req.email in users then Step(req, users, UserExists)
    else if mailOk then Step(req.(isApproved := false, status := Rejected), users, RejectionSent)
    else Step(req, users, RejectionMailFailed)
  }

  /** The two actions never both succeed on the same request and users:
      approval needs the flag and a user, rejection needs neither. */
  lemma ApproveAndRejectExclusive(
    req: AccountRequest, users: map<string, Account>, draws: seq<nat>, mailA: bool, mailR: bool)
    requires ValidDraws(draws)
    ensures !(ApproveOne(req, users, draws, mailA).notice == ApprovalSent
              && RejectOne(req, users, mailR).notice == RejectionSent)
  {
  }

  /** The outcome `approve_requests` gives request `i`. */
  predicate ApprovedAsExpected(reqs: seq<AccountRequest>, users: map<string, Account>, mail: seq<bool>,
                               reqs': seq<AccountRequest>, notices: seq<Notice>, i: nat)
    requires i < |reqs| && i < |mail| && i < |reqs'| && i < |notices|
  {
    && (notices[i] == ApprovalSent <==>
          reqs[i].isApproved && reqs[i].email in users && users[reqs[i].email].role != AdminRole && mail[i])
    && reqs'[i] == if notices[i] == ApprovalSent then reqs[i].(status := Approved) else reqs[i]
  }

  /** The first `k` requests have their expected outcome. */
  predicate ApprovedPrefix(reqs: seq<AccountRequest>, users: map<string, Account>, mail: seq<bool>,
                           reqs': seq<AccountRequest>, notices: seq<Notice>, k: nat)
    requires k <= |reqs| && k <= |mail| && k <= |reqs'| && k <= |notices|
  {
    forall i :: 0 <= i < k ==> ApprovedAsExpected(reqs, users, mail, reqs', notices, i)
  }

  lemma ApprovedPrefixExtend(reqs: seq<AccountRequest>, users: map<string, Account>, mail: seq<bool>,
                             reqs': seq<AccountRequest>, notices: seq<Notice>, r: AccountRequest, n: Notice)
    requires |reqs'| == |notices| < |reqs| && |reqs| <= |mail|
    requires ApprovedPrefix(reqs, users, mail, reqs', notices, |reqs'|)
    requires ApprovedAsExpected(reqs, users, mail, reqs' + [r], notices + [n], |reqs'|)
    ensures ApprovedPrefix(reqs, users, mail, reqs' + [r], notices + [n], |reqs'| + 1)
  {
    var k := |reqs'|;
    forall i | 0 <= i < k
      ensures ApprovedAsExpected(reqs, users, mail, reqs' + [r], notices + [n], i)
    {
      assert (reqs' + [r])[i] == reqs'[i] && (notices + [n])[i] == notices[i];
      assert ApprovedAsExpected(reqs, users, mail, reqs', notices, i);
    }
  }

  /** Among the first `k` requests, the last flagged one naming an eligible
      (non-admin) account has set that account's password to its hashed
      temporary password. */
  predicate LastApprovalsStored(reqs: seq<AccountRequest>, users: map<string, Account>, draws: seq<seq<nat>>,
                                users': map<string, Account>, k: nat)
    requires k <= |reqs| == |draws| && users'.Keys == users.Keys
    requires forall i :: 0 <= i < |draws| ==> ValidDraws(draws[i])
  {
    forall i :: 0 <= i < k ==>
      (reqs[i].isApproved && reqs[i].email in users && users[reqs[i].email].role != AdminRole
       && (forall j :: i < j < k ==> !(reqs[j].isApproved && reqs[j].email == reqs[i].email))) ==>
      users'[reqs[i].email].password == HashOf(Raw(TempPassword(draws[i])))
  }

  /** Handling request `k` keeps the property for the earlier requests it
      does not supersede, and establishes it for itself. */
  lemma LastApprovalsExtend(reqs: seq<AccountRequest>, users: map<string, Account>, draws: seq<seq<nat>>,
                            users': map<string, Account>, next: map<string, Account>, k: nat, mailOk: bool)
    requires k < |reqs| == |draws| && users'.Keys == users.Keys
    requires forall i :: 0 <= i < |draws| ==> ValidDraws(draws[i])
    requires forall e :: e in users ==> users'[e].role == users[e].role
    requires LastApprovalsStored(reqs, users, draws, users', k)
    requires next == ApproveOne(reqs[k], users', draws[k], mailOk).users
    ensures next.Keys == users.Keys
    ensures LastApprovalsStored(reqs, users, draws, next, k + 1)
  {
  }

  /** `approve_requests` over a selection, one request after the other. */
  method ApproveRequests(
    reqs: seq<AccountRequest>, users: map<string, Account>, draws: seq<seq<nat>>, mail: seq<bool>)
    returns (reqs': seq<AccountRequest>, users': map<string, Account>, notices: seq<Notice>)
    requires |draws| == |reqs| && |mail| == |reqs|
    requires forall i :: 0 <= i < |draws| ==> ValidDraws(draws[i])
    ensures |reqs'| == |reqs| && |notices| == |reqs|
    ensures users'.Keys == users.Keys
    ensures forall e :: e in users ==> users'[e].role == users[e].role
    ensures forall i :: 0 <= i < |reqs| ==>
      (notices[i] == ApprovalSent <==>
        reqs[i].isApproved && reqs[i].email in users && users[reqs[i].email].role != AdminRole && mail[i])
    ensures forall i :: 0 <= i < |reqs| ==>
      reqs'[i] == if notices[i] == ApprovalSent then reqs[i].(status := Approved) else reqs[i]
    ensures forall e :: e in users && users'[e] != users[e] ==>
      users[e].role != AdminRole &&
      exists i :: (0 <= i < |reqs| && reqs[i].email == e && reqs[i].isApproved
                   && users'[e] == users[e].(password := HashOf(Raw(TempPassword(draws[i])))))
    ensures forall i :: 0 <= i < |reqs| ==>
      (reqs[i].isApproved && reqs[i].email in users && users[reqs[i].email].role != AdminRole
       && (forall j :: i < j < |reqs| ==> !(reqs[j].isApproved && reqs[j].email == reqs[i].email))) ==>
      users'[reqs[i].email].password == HashOf(Raw(TempPassword(draws[i])))
  {
    reqs', users', notices := [], users, [];
    var k := 0;
    while k < |reqs|
      invariant 0 <= k <= |reqs|
      invariant |reqs'| == k && |notices| == k
      invariant users'.Keys == users.Keys
      invariant forall e :: e in users ==> users'[e].role == users[e].role
      invariant ApprovedPrefix(reqs, users, mail, reqs', notices, k)
      invariant forall e :: e in users && users'[e] != users[e] ==>
        users[e].role != AdminRole &&
        exists i :: (0 <= i < k && reqs[i].email == e && reqs[i].isApproved
                     && users'[e] == users[e].(password := HashOf(Raw(TempPassword(draws[i])))))
      invariant LastApprovalsStored(reqs, users, draws, users', k)
    {
      var s := ApproveOne(reqs[k], users', draws[k], mail[k]);
      if s.request != reqs[k] {
        assert s.request == reqs[k].(status := Approved);
      }
      forall e | e in users && s.users[e] != users[e]
        ensures users[e].role != AdminRole
        ensures exists i :: (0 <= i < k + 1 && reqs[i].email == e && reqs[i].isApproved
                             && s.users[e] == users[e].(password := HashOf(Raw(TempPassword(draws[i])))))
      {
        if e == reqs[k].email && s.users[e] != users'[e] {
          assert reqs[k].isApproved;
          assert s.users[e] == users[e].(password := HashOf(Raw(TempPassword(draws[k]))));
        } else {
          assert s.users[e] == users'[e];
        }
      }
      assert (reqs' + [s.request])[k] == s.request && (notices + [s.notice])[k] == s.notice;
      ApprovedPrefixExtend(reqs, users, mail, reqs', notices, s.request, s.notice);
      LastApprovalsExtend(reqs, users, draws, users', s.users, k, mail[k]);
      reqs' := reqs' + [s.request];
      notices := notices + [s.notice];
      users' := s.users;
      k := k + 1;
    }
    forall i | 0 <= i < |reqs|
      ensures notices[i] == ApprovalSent <==>
        reqs[i].isApproved && reqs[i].email in users && users[reqs[i].email].role != AdminRole && mail[i]
      ensures reqs'[i] == if notices[i] == ApprovalSent then reqs[i].(status := Approved) else reqs[i]
    {
      assert ApprovedAsExpected(reqs, users, mail, reqs', notices, i);
    }
  }
}
