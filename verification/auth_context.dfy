/** The client's session (frontend/src/context/AuthContext.jsx): who is signed in,
    whether start-up is still running, the last error, and the two browser-storage
    entries "token" and "user" that outlive a page load. */
module AuthContext {
  import opened Wrappers
  import AuthRoutes

  type Profile = AuthRoutes.Profile

  /** The two storage keys; `None` is a key that is not stored. */
  datatype Storage = Storage(token: Option<string>, user: Option<string>)

  datatype Session = Session(user: Option<Profile>, loading: bool, error: Option<string>, storage: Storage)

  /** The provider's state when it mounts: no user, start-up running. */
  function Mounted(storage: Storage): Session {
    Session(None, true, None, storage)
  }

  /** Whether start-up asks the server to confirm the stored session: only when both
      keys hold something. */
  predicate Validates(storage: Storage) {
    Truthy(storage.token) && Truthy(storage.user)
  }

  /** `initializeAuth`. When both keys are stored the server is asked for the user;
      `check` is its answer (`None` when the request fails). A confirmed user is
      signed in; a failed check clears both keys; without both keys nobody is signed
      in and storage is left alone. Start-up ends on every path. */
  function Initialize(s: Session, check: Option<Profile>): (r: Session)
    ensures !r.loading && r.error == s.error
    ensures !Validates(s.storage) ==> r.user == None && r.storage == s.storage
    ensures Validates(s.storage) && check.Some? ==> r.user == check && r.storage == s.storage
    ensures Validates(s.storage) && check.None? ==> r.user == None && r.storage == Storage(None, None)
    ensures r.user.Some? ==> Validates(r.storage)
  {
    if Validates(s.storage) then
      match check
      case Some(u) => s.(user := Some(u), loading := false)
      case None => s.(user := None, loading := false, storage := Storage(None, None))
    else s.(user := None, loading := false)
  }

  /** The route start-up asks (GET /auth/user) is not defined by the server's auth
      routes, so the check always fails: reloading the page signs the user out and
      wipes a stored session. */
  lemma ReloadLosesSession(storage: Storage)
    ensures Initialize(Mounted(storage), None).user == None
    ensures Validates(storage) ==> Initialize(Mounted(storage), None).storage == Storage(None, None)
  {
  }

  /** `login(token, userData)`. With user data, the token and the serialised user are
      stored, the user is signed in and the error cleared. Without user data the
      first statement (`userData.email`) throws: nothing is stored, the error is the
      exception's message `reason`, and the exception propagates (`Failure`). */
  function Login(s: Session, token: string, userData: Option<Profile>, serialize: Profile -> string, reason: string): (r: Result<Session, string>)
    ensures userData.Some? <==> r.Success?
    ensures r.Success? ==>
      && r.value.user == userData && r.value.error == None && r.value.loading == s.loading
      && r.value.storage == Storage(Some(token), Some(serialize(userData.value)))
    ensures r.Failure? ==> r.error == reason
  {
    match userData
    case None => Failure(reason)
    case Some(u) => Success(s.(user := Some(u), error := None, storage := Storage(Some(token), Some(serialize(u)))))
  }

  /** The session a failed `login` leaves behind: the error recorded, nothing else. */
  function LoginFailed(s: Session, reason: string): (r: Session)
    ensures r.error == Some(reason) && r.user == s.user && r.storage == s.storage && r.loading == s.loading
  {
    s.(error := Some(reason))
  }

  /** `logout`: both keys removed, nobody signed in, no error. */
  function Logout(s: Session): (r: Session)
    ensures r.user == None && r.error == None && r.storage == Storage(None, None)
    ensures r.loading == s.loading
  {
    s.(user := None, error := None, storage := Storage(None, None))
  }

  lemma LogoutIdempotent(s: Session)
    ensures Logout(Logout(s)) == Logout(s)
  {
  }

  /** Logging in and then out leaves nothing of the session behind, whatever was
      there before. */
  lemma LoginThenLogout(s: Session, token: string, u: Profile, serialize: Profile -> string, reason: string)
    ensures Login(s, token, Some(u), serialize, reason).Success?
    ensures Logout(Login(s, token, Some(u), serialize, reason).value) == Logout(s)
  {
  }

  /** After a successful login, a page reload asks the server to confirm the session. */
  lemma LoginStoresValidatableSession(s: Session, token: string, u: Profile, serialize: Profile -> string, reason: string)
    requires token != "" && serialize(u) != ""
    ensures Validates(Login(s, token, Some(u), serialize, reason).value.storage)
  {
  }

  const OutsideProvider := "useAuth must be used within an AuthProvider"

  /** `useAuth`: the provider's session, or an exception when there is no provider. */
  function UseAuth(context: Option<Session>): (r: Result<Session, string>)
    ensures context.None? <==> r == Failure(OutsideProvider)
    ensures context.Some? ==> r == Success(context.value)
  {
    match context
    case None => Failure(OutsideProvider)
    case Some(s) => Success(s)
  }

  /** The provider renders its children only once start-up has finished. */
  predicate ShowsChildren(s: Session) {
    !s.loading
  }

  /** Start-up always ends, so the children appear once it has run. */
  lemma InitializeShowsChildren(storage: Storage, check: Option<Profile>)
    ensures !ShowsChildren(Mounted(storage))
    ensures ShowsChildren(Initialize(Mounted(storage), check))
  {
  }
}
