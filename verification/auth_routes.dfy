/** The signup and login handlers (backend/routes/auth.js) over an in-memory user
    collection. bcrypt and jsonwebtoken are foreign: they arrive as the functions of
    a `Crypto` value and the model assumes nothing about them. */
module AuthRoutes {
  import opened Wrappers
  import WorkoutModel

  type UserId = WorkoutModel.UserId

  /** A user document; `password` holds the bcrypt hash. */
  datatype User = User(id: UserId, name: string, email: string, password: string)

  type Users = seq<User>

  /** The user view sent to clients: no password field. */
  datatype Profile = Profile(id: UserId, name: string, email: string)

  function ProfileOf(u: User): Profile {
    Profile(u.id, u.name, u.email)
  }

  datatype UserRef = UserRef(id: UserId)

  /** The two fields of a token payload the server ever reads: the nested `user.id`
      and a top-level `id`. */
  datatype Claims = Claims(user: Option<UserRef>, id: Option<UserId>)

  /** The payload both handlers sign: `{ user: { id } }`. */
  function IssuedClaims(id: UserId): Claims {
    Claims(Some(UserRef(id)), None)
  }

  /** The `expiresIn` option both handlers pass to `sign`. */
  const TokenLifetime := "24h"

  /** bcrypt's `hash(password, salt)` and `compare(password, hash)`, and jsonwebtoken's
      `sign(payload, secret, { expiresIn })`, which yields `None` when signing fails. */
  datatype Crypto = Crypto(
    hash: (string, string) -> string,
    compare: (string, string) -> bool,
    sign: (Claims, Option<string>, string) -> Option<string>)

  datatype Body = Message(message: string) | Session(token: string, user: Profile)

  datatype Reply = Reply(status: int, body: Body)

  /** A signup reply together with the user collection afterwards. */
  datatype Registered = Registered(reply: Reply, users: Users)

  const FieldsMissing := Reply(400, Message("Please provide all required fields"))
  const AlreadyExists := Reply(400, Message("User already exists"))
  const CredentialsMissing := Reply(400, Message("Please provide email and password"))
  const InvalidCredentials := Reply(400, Message("Invalid credentials"))
  const TokenError := Reply(500, Message("Error creating token"))

  /** `User.findOne({ email })`: the first user with that email. */
  function FindByEmail(users: Users, email: string): (r: Option<nat>)
    ensures r.Some? ==> r.value < |users| && users[r.value].email == email
    ensures r.Some? ==> forall k :: 0 <= k < r.value ==> users[k].email != email
    ensures r.None? <==> forall k :: 0 <= k < |users| ==> users[k].email != email
  {
    if users == [] then None
    else if users[0].email == email then Some(0)
    else
      match FindByEmail(users[1..], email)
      case None => None
      case Some(k) => Some(k + 1)
  }

  /** POST /signup. Any falsy field gives 400 and no user; a registered email gives
      400 "User already exists" and no change; otherwise the user is stored with
      `hash(password, salt)` in place of the password, and a token binding the new id
      for 24 hours is signed. When signing fails the reply is 500 but the user stays
      stored. `salt` is what `genSalt(10)` returned and `newId` the id the store
      assigned. */
  function Signup(users: Users, name: Option<string>, email: Option<string>, password: Option<string>,
                  newId: UserId, salt: string, crypto: Crypto, secret: Option<string>): (r: Registered)
    ensures !(Truthy(name) && Truthy(email) && Truthy(password)) ==> r == Registered(FieldsMissing, users)
    ensures (Truthy(name) && Truthy(email) && Truthy(password) && exists u :: u in users && u.email == email.value)
            ==> r == Registered(AlreadyExists, users)
    ensures r.users != users ==>
      && Truthy(name) && Truthy(email) && Truthy(password)
      && (forall u :: u in users ==> u.email != email.value)
      && r.users == users + [User(newId, name.value, email.value, crypto.hash(password.value, salt))]
    ensures r.reply.status == 200 <==>
      && Truthy(name) && Truthy(email) && Truthy(password)
      && (forall u :: u in users ==> u.email != email.value)
      && crypto.sign(IssuedClaims(newId), secret, TokenLifetime).Some?
    ensures r.reply.status == 200 ==>
      && r.users != users
      && r.reply.body == Session(crypto.sign(IssuedClaims(newId), secret, TokenLifetime).value,
                                 Profile(newId, name.value, email.value))
    ensures r.reply.status == 500 ==> r.reply == TokenError && r.users != users
    ensures (&& Truthy(name) && Truthy(email) && Truthy(password)
             && forall u :: u in users ==> u.email != email.value)
            ==> r.users == users + [User(newId, name.value, email.value, crypto.hash(password.value, salt))]
    ensures (&& Truthy(name) && Truthy(email) && Truthy(password)
             && (forall u :: u in users ==> u.email != email.value)
             && crypto.sign(IssuedClaims(newId), secret, TokenLifetime).None?)
            ==> r.reply == TokenError
  {
    if !(Truthy(name) && Truthy(email) && Truthy(password)) then Registered(FieldsMissing, users)
    else if FindByEmail(users, email.value).Some? then Registered(AlreadyExists, users)
    else
      var user := User(newId, name.value, email.value, crypto.hash(password.value, salt));
      var users' := users + [user];
      assert users' != users by { assert |users'| != |users|; }
      match crypto.sign(IssuedClaims(user.id), secret, TokenLifetime)
      case None => Registered(TokenError, users')
      case Some(token) => Registered(Reply(200, Session(token, ProfileOf(user))), users')
  }

  /** POST /login. Falsy email or password gives 400; an unknown email and a wrong
      password both give the same 400 "Invalid credentials"; otherwise a token
      binding the user's id for 24 hours is signed. Login reads the collection and
      never changes it. */
  function Login(users: Users, email: Option<string>, password: Option<string>, crypto: Crypto, secret: Option<string>): (r: Reply)
    ensures !(Truthy(email) && Truthy(password)) ==> r == CredentialsMissing
    ensures (Truthy(email) && Truthy(password) && forall u :: u in users ==> u.email != email.value)
            ==> r == InvalidCredentials
    ensures r.status == 200 ==>
      && Truthy(email) && Truthy(password)
      && var i := FindByEmail(users, email.value).value;
      && crypto.compare(password.value, users[i].password)
      && crypto.sign(IssuedClaims(users[i].id), secret, TokenLifetime).Some?
      && r.body == Session(crypto.sign(IssuedClaims(users[i].id), secret, TokenLifetime).value, ProfileOf(users[i]))
    ensures r.status == 200 || r == CredentialsMissing || r == InvalidCredentials || r == TokenError
    ensures (Truthy(email) && Truthy(password) && FindByEmail(users, email.value).Some?) ==>
      var u := users[FindByEmail(users, email.value).value];
      && (r.status == 200 <==> crypto.compare(password.value, u.password) && crypto.sign(IssuedClaims(u.id), secret, TokenLifetime).Some?)
      && (!crypto.compare(password.value, u.password) ==> r == InvalidCredentials)
      && (crypto.compare(password.value, u.password) && crypto.sign(IssuedClaims(u.id), secret, TokenLifetime).None? ==> r == TokenError)
  {
    if !(Truthy(email) && Truthy(password)) then CredentialsMissing
    else
      match FindByEmail(users, email.value)
      case None => InvalidCredentials
      case Some(i) =>
        if !crypto.compare(password.value, users[i].password) then InvalidCredentials
        else
          match crypto.sign(IssuedClaims(users[i].id), secret, TokenLifetime)
          case None => TokenError
          case Some(token) => Reply(200, Session(token, ProfileOf(users[i])))
  }

  /** An unknown email and a wrong password for a known one get identical replies,
      so a client cannot tell which accounts exist. */
  lemma UnknownEmailLooksLikeWrongPassword(
    users: Users, email: string, password: string,
    users': Users, email': string, password': string, crypto: Crypto, secret: Option<string>)
    requires email != "" && password != "" && email' != "" && password' != ""
    requires forall u :: u in users ==> u.email != email
    requires FindByEmail(users', email').Some?
    requires !crypto.compare(password', users'[FindByEmail(users', email').value].password)
    ensures Login(users, Some(email), Some(password), crypto, secret)
         == Login(users', Some(email'), Some(password'), crypto, secret)
    ensures Login(users, Some(email), Some(password), crypto, secret) == InvalidCredentials
  {
  }

  /** Signing up and then logging in with the same credentials succeeds and yields the
      same profile, when bcrypt accepts its own hash and signing works. */
  lemma SignupThenLogin(users: Users, name: string, email: string, password: string,
                        newId: UserId, salt: string, crypto: Crypto, secret: Option<string>)
    requires name != "" && email != "" && password != ""
    requires forall u :: u in users ==> u.email != email
    requires crypto.compare(password, crypto.hash(password, salt))
    requires crypto.sign(IssuedClaims(newId), secret, TokenLifetime).Some?
    ensures var r := Signup(users, Some(name), Some(email), Some(password), newId, salt, crypto, secret);
      && r.reply.status == 200
      && Login(r.users, Some(email), Some(password), crypto, secret) == r.reply
  {
    var r := Signup(users, Some(name), Some(email), Some(password), newId, salt, crypto, secret);
    var u := User(newId, name, email, crypto.hash(password, salt));
    assert r.users == users + [u];
    FindByEmailAppended(users, u);
  }

  /** Appending a user with a fresh email makes that user the one `findOne` returns. */
  lemma {:induction false} FindByEmailAppended(users: Users, u: User)
    requires forall v :: v in users ==> v.email != u.email
    ensures FindByEmail(users + [u], u.email) == Some(|users|)
  {
    if users != [] {
      assert users[0] in users;
      assert (users + [u])[1..] == users[1..] + [u];
      assert forall v :: v in users[1..] ==> v in users;
      FindByEmailAppended(users[1..], u);
    }
  }

  /** A refused duplicate signup leaves every later login answering as before. */
  lemma DuplicateSignupKeepsLogin(users: Users, name: string, email: string, password: string,
                                  newId: UserId, salt: string, crypto: Crypto, secret: Option<string>,
                                  loginPassword: Option<string>)
    requires name != "" && email != "" && password != ""
    requires exists u :: u in users && u.email == email
    ensures var r := Signup(users, Some(name), Some(email), Some(password), newId, salt, crypto, secret);
      && r.reply == AlreadyExists
      && Login(r.users, Some(email), loginPassword, crypto, secret) == Login(users, Some(email), loginPassword, crypto, secret)
  {
  }
}
