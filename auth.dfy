/** The `/login` handler of backend/src/routes/authRoutes.js: a required-field check, then
    the first entry of the in-memory user table whose username and password both match.
    `jwt.sign` is an opaque constructor of a token for the username. */
module Auth {
  import opened JsValues

  datatype UserRecord = UserRecord(username: JsString, password: JsString, email: JsString)

  /** The `user` object of the answer: it has no password field. */
  datatype PublicUser = PublicUser(username: JsString, email: JsString)

  /** `jwt.sign({ username }, secret, { expiresIn: '24h' })`. */
  datatype Token = SignedToken(username: JsString)

  datatype LoginResponse =
    | LoginBadRequest(error: JsString)
    | LoginUnauthorized(error: JsString)
    | LoginOk(message: JsString, user: PublicUser, token: Token)
  {
    function Status(): int {
      match this
      case LoginBadRequest(_) => 400
      case LoginUnauthorized(_) => 401
      case LoginOk(_, _, _) => 200
    }
  }

  const RequiredError: JsString := Literal("Usuário e senha são obrigatórios")
  const InvalidCredentialsError: JsString := Literal("Credenciais inválidas")
  const SuccessMessage: JsString := Literal("Login realizado com sucesso!")

  const Admin: JsString := Literal("admin")
  const User1: JsString := Literal("user1")
  const User2: JsString := Literal("user2")
  const SharedPassword: JsString := Literal("123")

  /** The table the route is written with. */
  const Users: seq<UserRecord> := [
    UserRecord(Admin, SharedPassword, Literal("admin@pi8.com")),
    UserRecord(User1, SharedPassword, Literal("user1@pi8.com")),
    UserRecord(User2, SharedPassword, Literal("user2@pi8.com"))
  ]

  /** `u.username === username && u.password === password`. */
  predicate Matches(u: UserRecord, username: JsString, password: JsString) {
    u.username == username && u.password == password
  }

  /** `users.find(...)`, as the position of the entry found: the first entry from `from` on
      that matches, or none when no entry from there matches. */
  function FindFrom(users: seq<UserRecord>, username: JsString, password: JsString, from: nat): (r: Option<nat>)
    requires from <= |users|
    ensures r.Some? ==> from <= r.value < |users| && Matches(users[r.value], username, password)
                        && forall j :: from <= j < r.value ==> !Matches(users[j], username, password)
    ensures r.None? ==> forall j :: from <= j < |users| ==> !Matches(users[j], username, password)
    decreases |users| - from
  {
    if from == |users| then None
    else if Matches(users[from], username, password) then Some(from)
    else FindFrom(users, username, password, from + 1)
  }

  /** The handler. `username` and `password` are the body fields, `None` when absent. */
  function Login(users: seq<UserRecord>, username: Option<JsString>, password: Option<JsString>): (r: LoginResponse)
    ensures r.LoginBadRequest? <==> !Truthy(username) || !Truthy(password)
    ensures r.LoginBadRequest? ==> r.error == RequiredError
    ensures r.LoginOk? <==> Truthy(username) && Truthy(password)
                            && exists i :: 0 <= i < |users| && Matches(users[i], username.value, password.value)
    ensures r.LoginOk? ==> exists i :: 0 <= i < |users| && Matches(users[i], username.value, password.value)
                             && (forall j :: 0 <= j < i ==> !Matches(users[j], username.value, password.value))
                             && r == LoginOk(SuccessMessage, PublicUser(users[i].username, users[i].email),
                                             SignedToken(users[i].username))
    ensures r.LoginUnauthorized? ==> r.error == InvalidCredentialsError
  {
    if !Truthy(username) || !Truthy(password) then
      LoginBadRequest(RequiredError)
    else
      match FindFrom(users, username.value, password.value, 0)
      case Some(i) =>
        LoginOk(SuccessMessage, PublicUser(users[i].username, users[i].email), SignedToken(users[i].username))
      case None => LoginUnauthorized(InvalidCredentialsError)
  }

  /** The answer of a successful login names the user who logged in, and its token is
      signed for that same username. */
  lemma LoginOkNamesCaller(users: seq<UserRecord>, username: Option<JsString>, password: Option<JsString>)
    requires Login(users, username, password).LoginOk?
    ensures Login(users, username, password).user.username == username.value
    ensures Login(users, username, password).token == SignedToken(username.value)
  {
  }

  /** When two entries share a username and password, the earlier one answers. */
  lemma FirstMatchAnswers(users: seq<UserRecord>, i: nat, j: nat)
    requires i < j < |users|
    requires Matches(users[i], users[j].username, users[j].password)
    requires forall k :: 0 <= k < i ==> !Matches(users[k], users[j].username, users[j].password)
    requires users[j].username != [] && users[j].password != []
    ensures Login(users, Some(users[j].username), Some(users[j].password)).user.email == users[i].email
  {
    var r := Login(users, Some(users[j].username), Some(users[j].password));
    var m :| 0 <= m < |users| && Matches(users[m], users[j].username, users[j].password)
             && (forall k :: 0 <= k < m ==> !Matches(users[k], users[j].username, users[j].password))
             && r == LoginOk(SuccessMessage, PublicUser(users[m].username, users[m].email),
                             SignedToken(users[m].username));
    assert m == i;
  }

  lemma UsernamesDistinct()
    ensures Admin != User1 && Admin != User2 && User1 != User2
  {
    assert Admin[0] != User1[0] && Admin[0] != User2[0] && User1[4] != User2[4];
  }

  /** With the shipped table, a login succeeds exactly for the three usernames with the
      password 123. */
  lemma UsersTableLogins(username: JsString, password: JsString)
    ensures Login(Users, Some(username), Some(password)).LoginOk? <==>
              (username == Admin || username == User1 || username == User2) && password == SharedPassword
  {
    assert Admin != [] && SharedPassword != [];
    if (username == Admin || username == User1 || username == User2) && password == SharedPassword {
      var i := if username == Admin then 0 else if username == User1 then 1 else 2;
      assert Matches(Users[i], username, password);
    }
  }

  /** The administrator logs in and receives its public record. */
  lemma AdminLogin()
    ensures Login(Users, Some(Admin), Some(SharedPassword))
         == LoginOk(SuccessMessage, PublicUser(Admin, Literal("admin@pi8.com")), SignedToken(Admin))
  {
    assert Admin != [] && SharedPassword != [];
    assert Matches(Users[0], Admin, SharedPassword);
  }

  /** An empty password is a missing field, so the table is not consulted. */
  lemma EmptyPasswordRejected(users: seq<UserRecord>, username: Option<JsString>)
    ensures Login(users, username, Some([])).Status() == 400
  {
  }
}
