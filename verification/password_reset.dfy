/** The one-time-password flow of admin_app/views.py as a state machine:
    `request_otp` and `resend_otp` issue a code, `verify_otp` checks it and
    marks the session, `reset_password` changes the password of the marked
    user. The state is the users (by username), the OTP rows in primary-key
    order and the three session keys the views use. The clock, the random
    code and the outcome of sending mail are inputs of each request. */
module PasswordReset {
  import opened Text
  import opened Outcomes
  import AdminActions

  type Username = string

  datatype User = User(email: string, password: AdminActions.Password)

  /** A row of the OTP table; `expiresAt` in microseconds. */
  datatype OtpRecord = OtpRecord(user: Username, code: string, expiresAt: int)

  /** `session['username']`, `session['otp_verified']`,
      `session['username_verified']`; `None` is an absent key. */
  datatype Session = Session(username: Option<string>, otpVerified: Option<bool>, usernameVerified: Option<string>)

  datatype World = World(users: map<Username, User>, otps: seq<OtpRecord>, session: Session)

  datatype Method = Get | Post

  /** What happens when the OTP mail is sent: delivered, refused by the
      mail server (`SMTPException`, which `send_otp_email` turns into
      `False`), no network (`socket.gaierror`), or any other exception. */
  datatype MailResult = Sent | Refused | Offline | Crashed

  const MicrosPerSecond: int := 1000000
  /** `timezone.timedelta(minutes=5)`. */
  const OtpLifetime: int := 5 * 60 * MicrosPerSecond
  const OtpLow: nat := 100000
  const OtpHigh: nat := 999999

  /** `str(random.randint(100000, 999999))` for the drawn number. */
  function GenerateOtp(draw: nat): (code: string)
    requires OtpLow <= draw <= OtpHigh
    ensures |code| == 6 && AllDigits(code) && code[0] != '0'
    ensures DigitsValue(code) == draw
  {
    NatToStringLength(draw, 6);
    NatToStringLength(draw, 5);
    assert Pow10(5) == 100000 && Pow10(6) == 1000000;
    DigitsValueOfNatToString(draw);
    NatToString(draw)
  }

  /** `int(delta.total_seconds())`: seconds, truncated toward zero. */
  function SecondsLeft(delta: int): (t: int)
    ensures delta >= 0 ==> t >= 0 && t * MicrosPerSecond <= delta < (t + 1) * MicrosPerSecond
    ensures delta < 0 ==> t <= 0 && (t - 1) * MicrosPerSecond < delta <= t * MicrosPerSecond
  {
    if delta >= 0 then delta / MicrosPerSecond else -((-delta) / MicrosPerSecond)
  }

  // ---------------------------------------------------------------------
  // The OTP table
  // ---------------------------------------------------------------------

  /** `OTP.objects.filter(user=user).delete()`. */
  function WithoutUser(otps: seq<OtpRecord>, u: Username): (r: seq<OtpRecord>)
    ensures forall i :: 0 <= i < |r| ==> r[i].user != u && r[i] in otps
    ensures forall x :: x in otps && x.user != u ==> x in r
  {
    if |otps| == 0 then []
    else if otps[0].user == u then WithoutUser(otps[1..], u)
    else [otps[0]] + WithoutUser(otps[1..], u)
  }

  /** Deleting the user's rows and creating one fresh row, which gets the
      highest primary key. */
  function IssueOtp(otps: seq<OtpRecord>, u: Username, code: string, expiresAt: int): (r: seq<OtpRecord>)
    ensures IssuedTo(otps, r, u, code, expiresAt)
  {
    IssueOtpIssues(otps, u, code, expiresAt);
    WithoutUser(otps, u) + [OtpRecord(u, code, expiresAt)]
  }

  /** `after` is `before` once `code` has been issued to `u`: the fresh row
      is the last one and the only row of `u`, and every row of another user
      is kept. */
  predicate IssuedTo(before: seq<OtpRecord>, after: seq<OtpRecord>, u: Username, code: string, expiresAt: int) {
    && |after| > 0 && after[|after| - 1] == OtpRecord(u, code, expiresAt)
    && (forall i :: 0 <= i < |after| - 1 ==> after[i].user != u && after[i] in before)
    && (forall x :: x in before && x.user != u ==> x in after)
  }

  /** Deleting the user's rows, then appending the fresh row, issues the
      code. */
  lemma IssueOtpIssues(otps: seq<OtpRecord>, u: Username, code: string, expiresAt: int)
    ensures IssuedTo(otps, WithoutUser(otps, u) + [OtpRecord(u, code, expiresAt)], u, code, expiresAt)
  {
    var w := WithoutUser(otps, u);
    var r := w + [OtpRecord(u, code, expiresAt)];
    forall i | 0 <= i < |r| - 1 ensures r[i].user != u && r[i] in otps {
      assert r[i] == w[i];
    }
    forall x | x in otps && x.user != u ensures x in r {
      assert x in w;
    }
  }

  /** `OTP.objects.filter(user__username=u).first()`: the index of the
      first row of `u`, or -1. */
  function FirstIndexFor(otps: seq<OtpRecord>, u: Username): (k: int)
    ensures -1 <= k < |otps|
    ensures k >= 0 ==> otps[k].user == u
    ensures forall i :: 0 <= i < |otps| && (k < 0 || i < k) ==> otps[i].user != u
  {
    if |otps| == 0 then -1
    else if otps[0].user == u then 0
    else
      var k := FirstIndexFor(otps[1..], u);
      if k < 0 then -1 else k + 1
  }

  /** `otp_record.delete()`. */
  function RemoveAt(otps: seq<OtpRecord>, k: nat): (r: seq<OtpRecord>)
    requires k < |otps|
    ensures |r| == |otps| - 1
    ensures forall i :: 0 <= i < |r| ==> r[i] == if i < k then otps[i] else otps[i + 1]
  {
    otps[..k] + otps[k + 1..]
  }

  /** No user has two OTP rows. */
  predicate OnePerUser(otps: seq<OtpRecord>) {
    forall i, j :: 0 <= i < j < |otps| ==> otps[i].user != otps[j].user
  }

  lemma {:induction false} WithoutUserKeepsOnePerUser(otps: seq<OtpRecord>, u: Username)
    requires OnePerUser(otps)
    ensures OnePerUser(WithoutUser(otps, u))
    decreases |otps|
  {
    if |otps| > 0 {
      var rest := otps[1..];
      OnePerUserSplit(otps);
      WithoutUserKeepsOnePerUser(rest, u);
      if otps[0].user != u {
        var tail := WithoutUser(rest, u);
        forall j | 0 <= j < |tail| ensures tail[j].user != otps[0].user {
          assert tail[j] in rest;
        }
        OnePerUserCons(otps[0], tail);
      }
    }
  }

  /** The first row's user has no other row, and the rest has one row per
      user. */
  lemma OnePerUserSplit(otps: seq<OtpRecord>)
    requires |otps| > 0 && OnePerUser(otps)
    ensures OnePerUser(otps[1..])
    ensures forall x :: x in otps[1..] ==> x.user != otps[0].user
  {
    var rest := otps[1..];
    forall i, j | 0 <= i < j < |rest| ensures rest[i].user != rest[j].user {
      assert rest[i] == otps[i + 1] && rest[j] == otps[j + 1];
    }
    forall x | x in rest ensures x.user != otps[0].user {
      var m :| 0 <= m < |rest| && rest[m] == x;
      assert rest[m] == otps[m + 1];
    }
  }

  lemma OnePerUserCons(x: OtpRecord, t: seq<OtpRecord>)
    requires OnePerUser(t)
    requires forall j :: 0 <= j < |t| ==> t[j].user != x.user
    ensures OnePerUser([x] + t)
  {
    var r := [x] + t;
    forall i, j | 0 <= i < j < |r| ensures r[i].user != r[j].user {
      assert r[j] == t[j - 1];
      if i > 0 { assert r[i] == t[i - 1]; }
    }
  }

  lemma IssueKeepsOnePerUser(otps: seq<OtpRecord>, u: Username, code: string, expiresAt: int)
    requires OnePerUser(otps)
    ensures OnePerUser(IssueOtp(otps, u, code, expiresAt))
  {
    WithoutUserKeepsOnePerUser(otps, u);
    IssueOtpIssues(otps, u, code, expiresAt);
  }

  /** Removing the row of a user who had only that row leaves the user
      without one. */
  lemma RemoveDropsUser(otps: seq<OtpRecord>, k: nat)
    requires k < |otps| && OnePerUser(otps)
    ensures forall i :: 0 <= i < |RemoveAt(otps, k)| ==> RemoveAt(otps, k)[i].user != otps[k].user
  {
    var r := RemoveAt(otps, k);
    forall i | 0 <= i < |r| ensures r[i].user != otps[k].user {
      if i < k { assert r[i] == otps[i]; } else { assert r[i] == otps[i + 1]; }
    }
  }

  /** Issuing a code to one of `users` keeps every row's user among them. */
  lemma IssueKeepsOwners(otps: seq<OtpRecord>, u: Username, code: string, expiresAt: int, users: map<Username, User>)
    requires u in users
    requires forall i :: 0 <= i < |otps| ==> otps[i].user in users
    ensures forall i :: 0 <= i < |IssueOtp(otps, u, code, expiresAt)| ==> IssueOtp(otps, u, code, expiresAt)[i].user in users
  {
    var o := IssueOtp(otps, u, code, expiresAt);
    IssueOtpIssues(otps, u, code, expiresAt);
    forall i | 0 <= i < |o| ensures o[i].user in users {
      if i < |o| - 1 {
        var j :| 0 <= j < |otps| && otps[j] == o[i];
      }
    }
  }

  /** Removing a row keeps every remaining row's user among `users`. */
  lemma RemoveKeepsOwners(otps: seq<OtpRecord>, k: nat, users: map<Username, User>)
    requires k < |otps|
    requires forall i :: 0 <= i < |otps| ==> otps[i].user in users
    ensures forall i :: 0 <= i < |RemoveAt(otps, k)| ==> RemoveAt(otps, k)[i].user in users
  {
    var r := RemoveAt(otps, k);
    forall i | 0 <= i < |r| ensures r[i].user in users {
      if i >= k { assert r[i] == otps[i + 1]; }
    }
  }

  lemma RemoveKeepsOnePerUser(otps: seq<OtpRecord>, k: nat)
    requires k < |otps| && OnePerUser(otps)
    ensures OnePerUser(RemoveAt(otps, k))
  {
    var r := RemoveAt(otps, k);
    forall i, j | 0 <= i < j < |r| ensures r[i].user != r[j].user {
      var i' := if i < k then i else i + 1;
      var j' := if j < k then j else j + 1;
      assert r[i] == otps[i'] && r[j] == otps[j'];
    }
  }

  // ---------------------------------------------------------------------
  // The views
  // ---------------------------------------------------------------------

  datatype Outcome =
    // request_otp
    | ShowRequestForm
    | UsernameRequired
    | UsernameNotFound
    | OtpSent
    | SendFailed
    | NoConnection
    | SendError
    // resend_otp
    | RedirectToRequest
    | ResendUnknownUser
    | ResendSent
    | ResendFailed
    // verify_otp
    | NoSessionUsername
    | ShowVerifyForm(timeLeft: int)
    | OtpRequired(timeLeft: int)
    | InvalidOtp
    | OtpExpired
    | OtpVerified(user: Username)
    // reset_password
    | MustVerifyFirst
    | ShowResetForm
    | PasswordRequired
    | ResetUserNotFound
    | PasswordReset
    // an exception the view does not catch: a 500 response, after which
    // the session is not saved but database writes stay
    | ServerError

  datatype Response = Response(world: World, outcome: Outcome)

  function OrEmpty(o: Option<string>): string {
    if o.Some? then o.value else ""
  }

  /** The outcomes of `request_otp` after a code has been stored. */
  predicate RequestIssued(o: Outcome) {
    o == OtpSent || o == SendFailed || o == NoConnection || o == SendError
  }

  /** `request_otp`. The fresh code is stored before the mail is tried, so
      it stays stored whatever the mail does; only a delivered mail puts the
      username into the session. */
  function RequestOtp(w: World, m: Method, username: Option<string>, now: int, draw: nat, mail: MailResult)
    : (r: Response)
    requires OtpLow <= draw <= OtpHigh
    ensures var name := Strip(OrEmpty(username));
      RequestIssued(r.outcome) <==> m.Post? && name != "" && name in w.users
    ensures var name := Strip(OrEmpty(username));
      RequestIssued(r.outcome) ==> IssuedTo(w.otps, r.world.otps, name, GenerateOtp(draw), now + OtpLifetime)
    ensures !RequestIssued(r.outcome) ==> r.world == w
    ensures r.world.users == w.users
    ensures r.outcome == OtpSent <==> RequestIssued(r.outcome) && mail.Sent?
    ensures r.world.session == if r.outcome == OtpSent
      then w.session.(username := Some(Strip(OrEmpty(username)))) else w.session
  {
    var name := Strip(OrEmpty(username));
    if m.Get? then Response(w, ShowRequestForm)
    else if name == "" then Response(w, UsernameRequired)
    else if name !in w.users then Response(w, UsernameNotFound)
    else
      var code := GenerateOtp(draw);
      IssueOtpIssues(w.otps, name, code, now + OtpLifetime);
      var w' := w.(otps := IssueOtp(w.otps, name, code, now + OtpLifetime));
      match mail
      case Sent => Response(w'.(session := w.session.(username := Some(name))), OtpSent)
      case Refused => Response(w', SendFailed)
      case Offline => Response(w', NoConnection)
      case Crashed => Response(w', SendError)
  }

  /** `resend_otp`. The username is taken as posted, without stripping, and
      the session is left alone. A failure of the mail other than a refusal
      escapes the view: the response is a server error, and the new code
      stays stored. */
  function ResendOtp(w: World, m: Method, username: Option<string>, now: int, draw: nat, mail: MailResult)
    : (r: Response)
    requires OtpLow <= draw <= OtpHigh
    ensures r.world.otps != w.otps ==> m.Post? && username.Some? && username.value in w.users
    ensures m.Post? && username.Some? && username.value in w.users ==>
      IssuedTo(w.otps, r.world.otps, username.value, GenerateOtp(draw), now + OtpLifetime)
    ensures r.world.users == w.users && r.world.session == w.session
    ensures r.outcome == ResendSent <==> m.Post? && username.Some? && username.value in w.users && mail.Sent?
    ensures r.outcome == ServerError <==> m.Post? && username.Some? && username.value in w.users
                                          && (mail.Offline? || mail.Crashed?)
  {
    if m.Get? then Response(w, RedirectToRequest)
    else if username.None? || username.value !in w.users then Response(w, ResendUnknownUser)
    else
      var code := GenerateOtp(draw);
      IssueOtpIssues(w.otps, username.value, code, now + OtpLifetime);
      var w' := w.(otps := IssueOtp(w.otps, username.value, code, now + OtpLifetime));
      match mail
      case Sent => Response(w', ResendSent)
      case Refused => Response(w', ResendFailed)
      case Offline => Response(w', ServerError)
      case Crashed => Response(w', ServerError)
  }

  /** `u` holds a stored code `c` that has not expired at `now`. */
  predicate Redeemable(otps: seq<OtpRecord>, u: Username, c: string, now: int) {
    exists i :: 0 <= i < |otps| && otps[i].user == u && otps[i].code == c && now <= otps[i].expiresAt
  }

  /** `verify_otp`. The user is the stripped session username; the code is
      compared with the first stored row of that user. A code is good up to
      and including its expiry instant. Only success changes anything: the
      row is deleted and the session is marked as verified for the user. */
  function VerifyOtp(w: World, m: Method, code: Option<string>, now: int): (r: Response)
    ensures r.world.users == w.users
    ensures !r.outcome.OtpVerified? ==> r.world == w
    ensures r.outcome.OtpVerified? ==>
      && m.Post?
      && r.outcome.user == Strip(OrEmpty(w.session.username)) != ""
      && r.world.session == w.session.(otpVerified := Some(true), usernameVerified := Some(r.outcome.user))
      && Strip(OrEmpty(code)) != ""
      && exists k :: 0 <= k < |w.otps| && w.otps[k].user == r.outcome.user
           && w.otps[k].code == Strip(OrEmpty(code)) && now <= w.otps[k].expiresAt
           && r.world.otps == RemoveAt(w.otps, k)
  {
    var name := Strip(OrEmpty(w.session.username));
    if name == "" then Response(w, NoSessionUsername)
    else
      var k := FirstIndexFor(w.otps, name);
      var timeLeft := if k >= 0 then SecondsLeft(w.otps[k].expiresAt - now) else 0;
      var c := Strip(OrEmpty(code));
      if m.Get? then Response(w, ShowVerifyForm(timeLeft))
      else if c == "" then Response(w, OtpRequired(timeLeft))
      else if k < 0 || w.otps[k].code != c then Response(w, InvalidOtp)
      else if now > w.otps[k].expiresAt then Response(w, OtpExpired)
      else
        var session := w.session.(otpVerified := Some(true), usernameVerified := Some(name));
        Response(w.(otps := RemoveAt(w.otps, k), session := session), OtpVerified(name))
  }

  /** The session may reset a password: `username_verified` is a non-empty
      string and `otp_verified` is true. */
  predicate MayReset(s: Session) {
    Truthy(s.usernameVerified) && s.otpVerified == Some(true)
  }

  /** `reset_password`. The new password is the stripped input, hashed. The
      password is saved before the session keys are deleted; when the
      session has lost `username` the deletion raises, the response is a
      server error, the session is not saved but the password stays
      changed. */
  function ResetPassword(w: World, m: Method, password: Option<string>): (r: Response)
    ensures r.world.otps == w.otps
    ensures r.world.users.Keys == w.users.Keys
    ensures forall u :: u in w.users && r.world.users[u] != w.users[u] ==>
      && MayReset(w.session) && m.Post? && w.session.usernameVerified == Some(u)
      && Strip(OrEmpty(password)) != ""
      && r.world.users[u] == w.users[u].(password := AdminActions.HashOf(AdminActions.Raw(Strip(OrEmpty(password)))))
    ensures r.outcome == PasswordReset <==>
      && MayReset(w.session) && m.Post? && Strip(OrEmpty(password)) != ""
      && w.session.usernameVerified.value in w.users && w.session.username.Some?
    ensures r.outcome == PasswordReset ==> r.world.session == Session(None, None, None)
    ensures r.outcome != PasswordReset ==> r.world.session == w.session
  {
    if !MayReset(w.session) then Response(w, MustVerifyFirst)
    else if m.Get? then Response(w, ShowResetForm)
    else
      var pw := Strip(OrEmpty(password));
      var u := w.session.usernameVerified.value;
      if pw == "" then Response(w, PasswordRequired)
      else if u !in w.users then Response(w, ResetUserNotFound)
      else
        var users := w.users[u := w.users[u].(password := AdminActions.HashOf(AdminActions.Raw(pw)))];
        assert forall v :: v in w.users && v != u ==> users[v] == w.users[v];
        if w.session.username.None? then Response(w.(users := users), ServerError)
        else Response(World(users, w.otps, Session(None, None, None)), PasswordReset)
  }

  // ---------------------------------------------------------------------
  // Sequences of requests
  // ---------------------------------------------------------------------

  /** A request with its form data and what the environment does: the drawn
      code and the fate of the mail. A GET carries no form data. */
  datatype Request =
    | RequestOtpReq(m: Method, username: Option<string>, draw: nat, mail: MailResult)
    | ResendOtpReq(m: Method, username: Option<string>, draw: nat, mail: MailResult)
    | VerifyOtpReq(m: Method, code: Option<string>)
    | ResetPasswordReq(m: Method, password: Option<string>)

  /** A request served at instant `now` (microseconds). */
  datatype Event = Event(now: int, req: Request)

  predicate ValidEvent(e: Event) {
    (e.req.RequestOtpReq? || e.req.ResendOtpReq?) ==> OtpLow <= e.req.draw <= OtpHigh
  }

  function Step(w: World, e: Event): (r: Response)
    requires ValidEvent(e)
    ensures r.world.users.Keys == w.users.Keys
    ensures forall u :: u in w.users && r.world.users[u] != w.users[u] ==>
      e.req.ResetPasswordReq? && MayReset(w.session) && w.session.usernameVerified == Some(u)
    ensures r.world.session.usernameVerified.Some? && r.world.session.usernameVerified != w.session.usernameVerified
      ==> r.outcome == OtpVerified(r.world.session.usernameVerified.value) && e.req.VerifyOtpReq?
  {
    match e.req
    case RequestOtpReq(m, username, draw, mail) => RequestOtp(w, m, username, e.now, draw, mail)
    case ResendOtpReq(m, username, draw, mail) => ResendOtp(w, m, username, e.now, draw, mail)
    case VerifyOtpReq(m, code) => VerifyOtp(w, m, code, e.now)
    case ResetPasswordReq(m, password) => ResetPassword(w, m, password)
  }

  predicate ValidEvents(evs: seq<Event>) {
    forall i :: 0 <= i < |evs| ==> ValidEvent(evs[i])
  }

  /** The worlds a sequence of requests passes through, starting with `w`. */
  function Run(w: World, evs: seq<Event>): (ws: seq<World>)
    requires ValidEvents(evs)
    ensures |ws| == |evs| + 1 && ws[0] == w
    ensures forall i :: 0 <= i < |evs| ==> ws[i + 1] == Step(ws[i], evs[i]).world
    decreases |evs|
  {
    if |evs| == 0 then [w]
    else
      var rest := Run(Step(w, evs[0]).world, evs[1..]);
      assert forall i :: 0 <= i < |evs| - 1 ==> evs[1..][i] == evs[i + 1];
      [w] + rest
  }

  // ---------------------------------------------------------------------
  // The invariant
  // ---------------------------------------------------------------------

  /** What every reachable world satisfies: at most one code per user, codes
      only for existing users, and the two verification keys set together,
      for an existing user, while `username` is still set. */
  predicate Inv(w: World) {
    && OnePerUser(w.otps)
    && (forall i :: 0 <= i < |w.otps| ==> w.otps[i].user in w.users)
    && (w.session.otpVerified.Some? <==> w.session.usernameVerified.Some?)
    && (w.session.usernameVerified.Some? ==>
          && w.session.otpVerified == Some(true)
          && w.session.username.Some?
          && w.session.usernameVerified.value != ""
          && w.session.usernameVerified.value in w.users)
  }

  /** A world with no session keys and codes only for existing users. */
  predicate Fresh(w: World) {
    && w.session == Session(None, None, None)
    && OnePerUser(w.otps)
    && (forall i :: 0 <= i < |w.otps| ==> w.otps[i].user in w.users)
  }

  lemma FreshSatisfiesInv(w: World)
    requires Fresh(w)
    ensures Inv(w)
  {
  }

  lemma RequestOtpPreservesInv(w: World, m: Method, username: Option<string>, now: int, draw: nat, mail: MailResult)
    requires OtpLow <= draw <= OtpHigh && Inv(w)
    ensures Inv(RequestOtp(w, m, username, now, draw, mail).world)
  {
    var r := RequestOtp(w, m, username, now, draw, mail);
    if RequestIssued(r.outcome) {
      var name := Strip(OrEmpty(username));
      IssueKeepsOnePerUser(w.otps, name, GenerateOtp(draw), now + OtpLifetime);
      IssueKeepsOwners(w.otps, name, GenerateOtp(draw), now + OtpLifetime, w.users);
    }
  }

  lemma ResendOtpPreservesInv(w: World, m: Method, username: Option<string>, now: int, draw: nat, mail: MailResult)
    requires OtpLow <= draw <= OtpHigh && Inv(w)
    ensures Inv(ResendOtp(w, m, username, now, draw, mail).world)
  {
    var r := ResendOtp(w, m, username, now, draw, mail);
    if m.Post? && username.Some? && username.value in w.users {
      IssueKeepsOnePerUser(w.otps, username.value, GenerateOtp(draw), now + OtpLifetime);
      IssueKeepsOwners(w.otps, username.value, GenerateOtp(draw), now + OtpLifetime, w.users);
    }
  }

  lemma VerifyOtpPreservesInv(w: World, m: Method, code: Option<string>, now: int)
    requires Inv(w)
    ensures Inv(VerifyOtp(w, m, code, now).world)
  {
    var r := VerifyOtp(w, m, code, now);
    if r.outcome.OtpVerified? {
      var k :| 0 <= k < |w.otps| && w.otps[k].user == r.outcome.user
           && w.otps[k].code == Strip(OrEmpty(code)) && now <= w.otps[k].expiresAt
           && r.world.otps == RemoveAt(w.otps, k);
      RemoveKeepsOnePerUser(w.otps, k);
      RemoveKeepsOwners(w.otps, k, w.users);
      assert w.otps[k].user in w.users;
      assert Strip(OrEmpty(None)) == "";
    }
  }

  lemma ResetPasswordPreservesInv(w: World, m: Method, password: Option<string>)
    requires Inv(w)
    ensures Inv(ResetPassword(w, m, password).world)
  {
  }

  lemma StepPreservesInv(w: World, e: Event)
    requires Inv(w) && ValidEvent(e)
    ensures Inv(Step(w, e).world)
  {
    match e.req
    case RequestOtpReq(m, username, draw, mail) => RequestOtpPreservesInv(w, m, username, e.now, draw, mail);
    case ResendOtpReq(m, username, draw, mail) => ResendOtpPreservesInv(w, m, username, e.now, draw, mail);
    case VerifyOtpReq(m, code) => VerifyOtpPreservesInv(w, m, code, e.now);
    case ResetPasswordReq(m, password) => ResetPasswordPreservesInv(w, m, password);
  }

  lemma {:induction false} RunPreservesInv(w: World, evs: seq<Event>)
    requires Inv(w) && ValidEvents(evs)
    ensures forall i :: 0 <= i < |Run(w, evs)| ==> Inv(Run(w, evs)[i])
  {
    var ws := Run(w, evs);
    forall i | 0 <= i < |ws| ensures Inv(ws[i]) {
      RunPrefixInv(w, evs, i);
    }
  }

  lemma {:induction false} RunPrefixInv(w: World, evs: seq<Event>, n: nat)
    requires Inv(w) && ValidEvents(evs) && n <= |evs|
    ensures Inv(Run(w, evs)[n])
    decreases n
  {
    if n > 0 {
      RunPrefixInv(w, evs, n - 1);
      StepPreservesInv(Run(w, evs)[n - 1], evs[n - 1]);
    }
  }

  /** In a reachable world a password reset never takes the two failure
      paths past the form check: the verified user exists, and `username`
      is still in the session when the keys are deleted. */
  lemma ResetAfterVerificationSucceeds(w: World, m: Method, password: Option<string>)
    requires Inv(w)
    ensures ResetPassword(w, m, password).outcome != ServerError
    ensures ResetPassword(w, m, password).outcome != ResetUserNotFound
    ensures MayReset(w.session) && m.Post? && Strip(OrEmpty(password)) != ""
      ==> ResetPassword(w, m, password).outcome == PasswordReset
  {
  }

  /** With at most one code per user, `verify_otp` accepts exactly a
      non-empty code that the session's user holds and that has not
      expired. */
  lemma VerifyOtpAcceptsExactly(w: World, m: Method, code: Option<string>, now: int)
    requires OnePerUser(w.otps)
    ensures var name := Strip(OrEmpty(w.session.username));
      var c := Strip(OrEmpty(code));
      VerifyOtp(w, m, code, now).outcome.OtpVerified? <==>
        m.Post? && name != "" && c != "" && Redeemable(w.otps, name, c, now)
  {
    var name := Strip(OrEmpty(w.session.username));
    var c := Strip(OrEmpty(code));
    if m.Post? && name != "" && c != "" && Redeemable(w.otps, name, c, now) {
      var i :| 0 <= i < |w.otps| && w.otps[i].user == name && w.otps[i].code == c && now <= w.otps[i].expiresAt;
      var k := FirstIndexFor(w.otps, name);
      assert k >= 0;
      assert k == i;
    }
  }

  /** Without a code for the session's user nothing verifies. */
  lemma NoCodeNoVerification(w: World, m: Method, code: Option<string>, now: int)
    requires forall i :: 0 <= i < |w.otps| ==> w.otps[i].user != Strip(OrEmpty(w.session.username))
    ensures !VerifyOtp(w, m, code, now).outcome.OtpVerified?
  {
  }

  /** After a successful verification the user holds no code. */
  lemma VerifiedCodeDeleted(w: World, m: Method, code: Option<string>, now: int)
    requires OnePerUser(w.otps)
    requires VerifyOtp(w, m, code, now).outcome.OtpVerified?
    ensures var r := VerifyOtp(w, m, code, now);
      forall i :: 0 <= i < |r.world.otps| ==> r.world.otps[i].user != Strip(OrEmpty(r.world.session.username))
  {
    var r := VerifyOtp(w, m, code, now);
    var k :| 0 <= k < |w.otps| && w.otps[k].user == r.outcome.user
         && w.otps[k].code == Strip(OrEmpty(code)) && now <= w.otps[k].expiresAt
         && r.world.otps == RemoveAt(w.otps, k);
    RemoveDropsUser(w.otps, k);
    assert r.world.session.username == w.session.username;
  }

  /** A code is used once: after a successful verification no further
      verification succeeds until a new code is issued. */
  lemma OtpSingleUse(w: World, m: Method, code: Option<string>, now: int,
                     m2: Method, code2: Option<string>, now2: int)
    requires OnePerUser(w.otps)
    requires VerifyOtp(w, m, code, now).outcome.OtpVerified?
    ensures !VerifyOtp(VerifyOtp(w, m, code, now).world, m2, code2, now2).outcome.OtpVerified?
  {
    VerifiedCodeDeleted(w, m, code, now);
    NoCodeNoVerification(VerifyOtp(w, m, code, now).world, m2, code2, now2);
  }

  // ---------------------------------------------------------------------
  // A fresh code
  // ---------------------------------------------------------------------

  lemma OtpIsStripped(draw: nat)
    requires OtpLow <= draw <= OtpHigh
    ensures Strip(GenerateOtp(draw)) == GenerateOtp(draw) != ""
  {
    var c := GenerateOtp(draw);
    assert IsAsciiDigit(c[0]) && IsAsciiDigit(c[5]);
    StripFacts(c);
  }

  /** A code sent by `request_otp` at `now` verifies exactly up to
      `now` plus five minutes, the bound included. */
  lemma SentCodeGoodForFiveMinutes(w: World, username: Option<string>, now: int, draw: nat, t: int)
    requires OtpLow <= draw <= OtpHigh && OnePerUser(w.otps)
    requires RequestOtp(w, Post, username, now, draw, Sent).outcome == OtpSent
    ensures var w' := RequestOtp(w, Post, username, now, draw, Sent).world;
      VerifyOtp(w', Post, Some(GenerateOtp(draw)), t).outcome.OtpVerified? <==> t <= now + OtpLifetime
  {
    var name := Strip(OrEmpty(username));
    var c := GenerateOtp(draw);
    var w' := RequestOtp(w, Post, username, now, draw, Sent).world;
    IssueKeepsOnePerUser(w.otps, name, c, now + OtpLifetime);
    StripIdempotent(OrEmpty(username));
    OtpIsStripped(draw);
    VerifyOtpAcceptsExactly(w', Post, Some(c), t);
    var n := |w'.otps| - 1;
    if Redeemable(w'.otps, name, c, t) {
      var i :| 0 <= i < |w'.otps| && w'.otps[i].user == name && w'.otps[i].code == c && t <= w'.otps[i].expiresAt;
      assert i == n;
    }
    if t <= now + OtpLifetime {
      assert w'.otps[n].user == name;
    }
  }

  /** The verification page shows the seconds left on the session user's
      first code. */
  lemma VerifyFormTimeLeft(w: World, t: int, k: nat)
    requires Strip(OrEmpty(w.session.username)) != ""
    requires FirstIndexFor(w.otps, Strip(OrEmpty(w.session.username))) == k
    ensures VerifyOtp(w, Get, None, t).outcome == ShowVerifyForm(SecondsLeft(w.otps[k].expiresAt - t))
  {
  }

  /** Right after the code is sent, the verification page counts down from
      300 seconds and stays within 0 to 300 until the code expires. */
  lemma SentCodeTimeLeft(w: World, username: Option<string>, now: int, draw: nat, t: int)
    requires OtpLow <= draw <= OtpHigh
    requires RequestOtp(w, Post, username, now, draw, Sent).outcome == OtpSent
    requires now <= t <= now + OtpLifetime
    ensures var w' := RequestOtp(w, Post, username, now, draw, Sent).world;
      var o := VerifyOtp(w', Get, None, t).outcome;
      && o.ShowVerifyForm? && 0 <= o.timeLeft <= 300
      && (t == now ==> o.timeLeft == 300)
  {
    var name := Strip(OrEmpty(username));
    var w' := RequestOtp(w, Post, username, now, draw, Sent).world;
    StripIdempotent(OrEmpty(username));
    assert w'.session.username == Some(name);
    var n := |w'.otps| - 1;
    assert w'.otps[n] == OtpRecord(name, GenerateOtp(draw), now + OtpLifetime);
    var k := FirstIndexFor(w'.otps, name);
    assert k == n;
    VerifyFormTimeLeft(w', t, n);
  }

  // ---------------------------------------------------------------------
  // Passwords change only after a verification
  // ---------------------------------------------------------------------

  lemma {:induction false} RunKeepsUsers(w: World, evs: seq<Event>, n: nat)
    requires ValidEvents(evs) && n <= |evs|
    ensures Run(w, evs)[n].users.Keys == w.users.Keys
    decreases n
  {
    if n > 0 {
      var ws := Run(w, evs);
      RunKeepsUsers(w, evs, n - 1);
      assert ws[n] == Step(ws[n - 1], evs[n - 1]).world;
    }
  }

  /** Request `i` of the run was a successful `verify_otp` for `u`, made
      with a code `u` held and that had not expired. */
  predicate VerifiedAt(w: World, evs: seq<Event>, u: Username, i: nat)
    requires ValidEvents(evs) && i < |evs|
  {
    var before := Run(w, evs)[i];
    && evs[i].req.VerifyOtpReq?
    && Step(before, evs[i]).outcome == OtpVerified(u)
    && Redeemable(before.otps, u, Strip(OrEmpty(evs[i].req.code)), evs[i].now)
  }

  lemma StepVerifiedAt(w: World, evs: seq<Event>, u: Username, i: nat)
    requires ValidEvents(evs) && i < |evs|
    requires evs[i].req.VerifyOtpReq? && Step(Run(w, evs)[i], evs[i]).outcome == OtpVerified(u)
    ensures VerifiedAt(w, evs, u, i)
  {
    var before := Run(w, evs)[i];
    var e := evs[i];
    var r := VerifyOtp(before, e.req.m, e.req.code, e.now);
    var k :| 0 <= k < |before.otps| && before.otps[k].user == u
         && before.otps[k].code == Strip(OrEmpty(e.req.code)) && e.now <= before.otps[k].expiresAt
         && r.world.otps == RemoveAt(before.otps, k);
  }

  lemma StepFacts(a: World, e: Event, u: Username)
    requires ValidEvent(e) && u in a.users
    ensures u in Step(a, e).world.users
    ensures Step(a, e).world.users[u] != a.users[u] ==> a.session.usernameVerified == Some(u)
    ensures Step(a, e).world.session.usernameVerified == Some(u) && a.session.usernameVerified != Some(u)
      ==> e.req.VerifyOtpReq? && Step(a, e).outcome == OtpVerified(u)
  {
  }

  lemma {:induction false} ChangeNeedsVerification(w: World, evs: seq<Event>, u: Username, n: nat)
    requires ValidEvents(evs) && n <= |evs|
    requires u in w.users && w.session.usernameVerified != Some(u)
    requires var x := Run(w, evs)[n];
      (u in x.users && x.users[u] != w.users[u]) || x.session.usernameVerified == Some(u)
    ensures exists i :: 0 <= i < n && VerifiedAt(w, evs, u, i)
    decreases n
  {
    if n > 0 {
      var ws := Run(w, evs);
      var a, b := ws[n - 1], ws[n];
      var e := evs[n - 1];
      assert b == Step(a, e).world;
      RunKeepsUsers(w, evs, n - 1);
      StepFacts(a, e, u);
      if b.session.usernameVerified == Some(u) && a.session.usernameVerified != Some(u) {
        StepVerifiedAt(w, evs, u, n - 1);
      } else {
        assert (a.users[u] != w.users[u]) || a.session.usernameVerified == Some(u);
        ChangeNeedsVerification(w, evs, u, n - 1);
        var i :| 0 <= i < n - 1 && VerifiedAt(w, evs, u, i);
      }
    }
  }

  /** Over any run that starts without `u` verified in the session, a
      changed password of `u` at the end was preceded by a successful
      `verify_otp` for `u` with a code `u` held and that had not expired. */
  lemma PasswordChangeNeedsVerification(w: World, evs: seq<Event>, u: Username)
    requires ValidEvents(evs)
    requires u in w.users && w.session.usernameVerified != Some(u)
    requires u in Run(w, evs)[|evs|].users && Run(w, evs)[|evs|].users[u] != w.users[u]
    ensures exists i :: 0 <= i < |evs| && VerifiedAt(w, evs, u, i)
  {
    ChangeNeedsVerification(w, evs, u, |evs|);
  }
}
