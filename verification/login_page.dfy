/** The sign-in screen (frontend/src/components/Login.jsx): the two-field form, its
    validation and the submit flow that hands a returned token to the session. */
module LoginPage {
  import opened Wrappers
  import Text
  import AuthRoutes
  import AuthContext

  datatype LoginField = Email | Password

  datatype LoginForm = LoginForm(email: string, password: string)

  /** The screen's state: the form, the error line ("" when there is none) and
      whether a request is in flight. */
  datatype Screen = Screen(form: LoginForm, error: string, loading: bool)

  const Initial := Screen(LoginForm("", ""), "", false)

  /** `handleChange`: the named field takes the typed value with surrounding white
      space removed; the other field stays. */
  function HandleChange(form: LoginForm, field: LoginField, value: string): (r: LoginForm)
    ensures field == Email ==> r.email == Text.Trim(value) && r.password == form.password
    ensures field == Password ==> r.password == Text.Trim(value) && r.email == form.email
    ensures Text.Tight(r.email) || r.email == form.email
  {
    match field
    case Email => form.(email := Text.Trim(value))
    case Password => form.(password := Text.Trim(value))
  }

  // ---------------------------------------------------------------------------
  // The email pattern /\S+@\S+\.\S+/

  predicate NonSpace(s: string) {
    forall m :: 0 <= m < |s| ==> !Text.IsSpace(s[m])
  }

  /** The regular expression, unanchored: somewhere in `s` there is a non-empty run of
      non-space characters, an "@", another non-empty non-space run, a ".", and a
      third non-empty non-space run. */
  ghost predicate EmailPattern(s: string) {
    exists i, j, k, l :: Shape(s, i, j, k, l)
  }

  /** `s[i..l]` is a match with its "@" at `j` and its "." at `k`. */
  ghost predicate Shape(s: string, i: int, j: int, k: int, l: int) {
    0 <= i < j && j + 1 < k && k + 1 < l <= |s|
    && NonSpace(s[i..j]) && s[j] == '@' && NonSpace(s[j + 1..k]) && s[k] == '.' && NonSpace(s[k + 1..l])
  }

  /** `s[j]` is an "@" that a match can use: a non-space character before it and no
      space from it up to (not including) `k`. */
  ghost predicate AtBefore(s: string, j: int, k: int) {
    0 < j < k <= |s| && s[j] == '@' && !Text.IsSpace(s[j - 1])
    && forall m :: j < m < k ==> !Text.IsSpace(s[m])
  }

  /** A match whose "@" is at `j` and whose "." is at `k`: the shortest runs suffice. */
  ghost predicate MatchAt(s: string, j: int, k: int) {
    AtBefore(s, j, k) && j + 1 < k && k + 1 < |s| && s[k] == '.' && !Text.IsSpace(s[k + 1])
  }

  lemma EmailPatternIffMatchAt(s: string)
    ensures EmailPattern(s) <==> exists j, k :: MatchAt(s, j, k)
  {
    if EmailPattern(s) {
      var i, j, k, l :| Shape(s, i, j, k, l);
      assert s[j - 1] == s[i..j][j - 1 - i];
      assert s[k + 1] == s[k + 1..l][0];
      forall m | j < m < k ensures !Text.IsSpace(s[m]) {
        assert s[m] == s[j + 1..k][m - j - 1];
      }
      assert MatchAt(s, j, k);
    }
    if exists j, k :: MatchAt(s, j, k) {
      var j, k :| MatchAt(s, j, k);
      assert NonSpace(s[j - 1..j]);
      assert NonSpace(s[k + 1..k + 2]);
      assert Shape(s, j - 1, j, k, k + 2);
    }
  }

  /** One left-to-right pass deciding the pattern. `at` is the leftmost usable "@"
      before position `k` (see `AtBefore`); a "." at `k` completes a match when that
      "@" is at least two places back and a non-space character follows. */
  function Scan(s: string, k: nat, at: Option<nat>): bool
    requires k <= |s|
    decreases |s| - k
  {
    if k == |s| then false
    else if s[k] == '.' && at.Some? && at.value + 1 < k && k + 1 < |s| && !Text.IsSpace(s[k + 1]) then true
    else
      var next :=
        if Text.IsSpace(s[k]) then None
        else if at.None? && s[k] == '@' && k > 0 && !Text.IsSpace(s[k - 1]) then Some(k)
        else at;
      Scan(s, k + 1, next)
  }

  /** `at` is the leftmost usable "@" before `k`, or there is none. */
  ghost predicate Leftmost(s: string, k: nat, at: Option<nat>) {
    && (at.Some? ==> AtBefore(s, at.value, k) && forall j :: 0 <= j < at.value ==> !AtBefore(s, j, k))
    && (at.None? ==> forall j :: !AtBefore(s, j, k))
  }

  lemma LeftmostStep(s: string, k: nat, at: Option<nat>)
    requires k < |s| && Leftmost(s, k, at)
    ensures Leftmost(s, k + 1,
      if Text.IsSpace(s[k]) then None
      else if at.None? && s[k] == '@' && k > 0 && !Text.IsSpace(s[k - 1]) then Some(k)
      else at)
  {
    assert !Text.IsSpace('@');
    forall j | AtBefore(s, j, k + 1) && j < k
      ensures AtBefore(s, j, k) && !Text.IsSpace(s[k])
    {
    }
    if !Text.IsSpace(s[k]) {
      var k1 := k + 1;
      forall j | AtBefore(s, j, k)
        ensures AtBefore(s, j, k1)
      {
      }
      if at.None? && s[k] == '@' && k > 0 && !Text.IsSpace(s[k - 1]) {
        assert AtBefore(s, k, k1);
        forall j | 0 <= j < k ensures !AtBefore(s, j, k1) {
          assert !AtBefore(s, j, k);
        }
      } else if at.None? {
        forall j ensures !AtBefore(s, j, k1) {
          if j < k {
            assert !AtBefore(s, j, k);
          }
        }
      } else {
        assert AtBefore(s, at.value, k1);
        forall j | 0 <= j < at.value ensures !AtBefore(s, j, k1) {
          assert !AtBefore(s, j, k);
        }
      }
    }
  }

  /** The pass decides the pattern: it finds a match at or after `k` exactly when one
      exists, given that `at` is right for `k`. */
  lemma {:induction false} ScanCorrect(s: string, k: nat, at: Option<nat>)
    requires k <= |s| && Leftmost(s, k, at)
    ensures Scan(s, k, at) <==> exists j, k' :: k <= k' && MatchAt(s, j, k')
    decreases |s| - k
  {
    if k < |s| {
      var next :=
        if Text.IsSpace(s[k]) then None
        else if at.None? && s[k] == '@' && k > 0 && !Text.IsSpace(s[k - 1]) then Some(k)
        else at;
      LeftmostStep(s, k, at);
      ScanCorrect(s, k + 1, next);
      if exists j :: MatchAt(s, j, k) {
        var j :| MatchAt(s, j, k);
        assert at.Some? && at.value <= j;
        assert MatchAt(s, at.value, k);
      }
      if Scan(s, k, at) && !Scan(s, k + 1, next) {
        assert MatchAt(s, at.value, k);
      }
      if exists j, k' :: k <= k' && MatchAt(s, j, k') {
        var j, k' :| k <= k' && MatchAt(s, j, k');
        if k' == k {
          assert at.Some? && at.value <= j;
          assert MatchAt(s, at.value, k);
        } else {
          assert k + 1 <= k';
        }
      }
    }
  }

  /** `/\S+@\S+\.\S+/.test(s)`. */
  predicate EmailLooksValid(s: string) {
    Scan(s, 0, None)
  }

  lemma EmailLooksValidIffPattern(s: string)
    ensures EmailLooksValid(s) <==> EmailPattern(s)
  {
    ScanCorrect(s, 0, None);
    EmailPatternIffMatchAt(s);
  }

  // ---------------------------------------------------------------------------
  // Validation and submit

  const EmailRequired := "Email is required"
  const PasswordRequired := "Password is required"
  const EmailInvalid := "Please enter a valid email address"
  const BadResponse := "Invalid response from server"
  const LoginFallback := "Login failed. Please try again."

  /** `validateForm`: the first failing check decides the message -- an empty email,
      then an empty password, then an email that does not fit the pattern. */
  function ValidateForm(form: LoginForm): (r: Option<string>)
    ensures r == Some(EmailRequired) <==> form.email == ""
    ensures r == Some(PasswordRequired) <==> form.email != "" && form.password == ""
    ensures r == Some(EmailInvalid) <==> form.email != "" && form.password != "" && !EmailPattern(form.email)
    ensures r.None? <==> form.email != "" && form.password != "" && EmailPattern(form.email)
  {
    EmailLooksValidIffPattern(form.email);
    if form.email == "" then Some(EmailRequired)
    else if form.password == "" then Some(PasswordRequired)
    else if !EmailLooksValid(form.email) then Some(EmailInvalid)
    else None
  }

  /** How POST /auth/login came back: a 2xx body with whatever `token` and `user` it
      held, or a failure with the error body's `message`, if any. */
  datatype LoginAnswer = Replied(token: Option<string>, user: Option<AuthRoutes.Profile>) | Refused(message: Option<string>)

  /** The outcome of one submit: the screen afterwards, the session afterwards,
      whether the request was sent, and whether the app moved to "/dashboard". */
  datatype Submitted = Submitted(screen: Screen, session: AuthContext.Session, sent: bool, navigated: bool)

  /** `handleSubmit`. A form that fails validation sends nothing and shows the
      message. Otherwise the request is sent: a body with a token signs in through the
      session's `login` and moves to the dashboard; a body without one shows "Invalid
      response from server"; a refused request shows the server's message or the
      fallback. When `login` throws (the body had no `user`), the fallback is shown
      too, as the exception has no server response. Loading ends on every path. */
  function HandleSubmit(sc: Screen, session: AuthContext.Session, answer: LoginAnswer,
                        serialize: AuthRoutes.Profile -> string, reason: string): (r: Submitted)
    ensures !r.screen.loading && r.screen.form == sc.form
    ensures r.sent <==> ValidateForm(sc.form).None?
    ensures !r.sent ==> r.screen.error == ValidateForm(sc.form).value && r.session == session && !r.navigated
    ensures r.navigated <==> r.sent && answer.Replied? && Truthy(answer.token) && answer.user.Some?
    ensures r.navigated ==>
      && r.screen.error == "" && r.session.user == answer.user
      && r.session.storage == AuthContext.Storage(answer.token, Some(serialize(answer.user.value)))
    ensures r.sent && answer.Replied? && !Truthy(answer.token) ==> r.screen.error == BadResponse && r.session == session
    ensures r.sent && answer.Refused? ==>
      r.screen.error == (if Truthy(answer.message) then answer.message.value else LoginFallback) && r.session == session
    ensures r.session.user != session.user ==> r.navigated
  {
    match ValidateForm(sc.form)
    case Some(m) => Submitted(Screen(sc.form, m, false), session, false, false)
    case None =>
      match answer
      case Refused(m) =>
        Submitted(Screen(sc.form, if Truthy(m) then m.value else LoginFallback, false), session, true, false)
      case Replied(token, user) =>
        if !Truthy(token) then Submitted(Screen(sc.form, BadResponse, false), session, true, false)
        else
          match AuthContext.Login(session, token.value, user, serialize, reason)
          case Success(s) => Submitted(Screen(sc.form, "", false), s, true, true)
          case Failure(e) => Submitted(Screen(sc.form, LoginFallback, false), AuthContext.LoginFailed(session, e), true, false)
  }

  /** Submitting what the server's login accepted signs the user in with the profile
      the server returned. */
  lemma SubmitAcceptedLogin(sc: Screen, session: AuthContext.Session, users: AuthRoutes.Users,
                            crypto: AuthRoutes.Crypto, secret: Option<string>,
                            serialize: AuthRoutes.Profile -> string, reason: string)
    requires ValidateForm(sc.form).None?
    requires var reply := AuthRoutes.Login(users, Some(sc.form.email), Some(sc.form.password), crypto, secret);
      reply.status == 200 && reply.body.token != ""
    ensures var reply := AuthRoutes.Login(users, Some(sc.form.email), Some(sc.form.password), crypto, secret);
      var r := HandleSubmit(sc, session, Replied(Some(reply.body.token), Some(reply.body.user)), serialize, reason);
      r.navigated && r.session.user == Some(reply.body.user)
  {
  }
}
