/**
 * POST /api/auth/login (app/api/auth/login/route.ts). The mock accepts any
 * non-empty password for a user that has one stored; the token is built from
 * the user's id and the clock reading, which arrives as a parameter.
 */
module LoginRoute {
  import opened Options
  import opened Text
  import opened Types
  import opened Validation
  import opened MockData
  import opened UsersRoute

  const MissingMessage := "Email e senha são obrigatórios"
  const InvalidMessage := "Credenciais inválidas"
  const LoggedInMessage := "Login realizado com sucesso"
  const TokenPrefix := "mock-jwt-token-"

  /** The `data` of a successful login. */
  datatype Session = Session(user: User, token: string)

  /** A JavaScript string field is truthy when present and non-empty. */
  predicate Given(field: Option<string>)
  {
    field.Some? && field.value != []
  }

  /** `mock-jwt-token-<id>-<now>`. */
  function Token(id: int, now: nat): (r: string)
    ensures |r| > |TokenPrefix| && r[..|TokenPrefix|] == TokenPrefix
    ensures ParseInt(r[|TokenPrefix|..]) == Some(id)
    ensures var clock := |TokenPrefix| + |IntToString(id)|;
      && clock < |r| && r[clock] == '-'
      && r[clock + 1..] == IntToString(now)
      && ParseInt(r[clock + 1..]) == Some(now)
  {
    var rest := "-" + IntToString(now);
    ParseIntOfRendered(id, rest);
    ParseIntOfRendered(now, []);
    assert IntToString(now) + [] == IntToString(now);
    TokenLayout(TokenPrefix, IntToString(id), IntToString(now));
    TokenPrefix + (IntToString(id) + rest)
  }

  /** Where the pieces of `<prefix><id>-<clock>` sit. */
  lemma TokenLayout(prefix: string, id: string, clock: string)
    ensures var r := prefix + (id + ("-" + clock));
      && r[..|prefix|] == prefix
      && r[|prefix|..] == id + ("-" + clock)
      && r[|prefix| + |id|] == '-'
      && r[|prefix| + |id| + 1..] == clock
  {
  }

  /**
   * 400 unless both fields are given; 401 unless the lower-cased, trimmed
   * e-mail finds a user with a non-empty stored password; otherwise 200 with
   * that user, without its password, and a token naming it.
   */
  function Login(users: seq<User>, body: LoginBody, now: nat): (r: Reply<Session>)
    ensures r.Err? && r.status == 400 <==> !Given(body.email) || !Given(body.password)
    ensures r.Ok? <==>
      && Given(body.email) && Given(body.password)
      && FindUserByEmail(users, NormaliseEmail(body.email.value)).Some?
      && Given(FindUserByEmail(users, NormaliseEmail(body.email.value)).value.password)
    ensures r.Ok? ==> r.status == 200 && r.message == LoggedInMessage
    ensures r.Ok? ==> r.data.user == Strip(FindUserByEmail(users, NormaliseEmail(body.email.value)).value)
    ensures r.Ok? ==> r.data.user.email == NormaliseEmail(body.email.value) && r.data.user.password.None?
    ensures r.Ok? ==> r.data.token == Token(r.data.user.id, now)
    ensures r.Err? ==> (r.status == 400 && r.error == MissingMessage) || (r.status == 401 && r.error == InvalidMessage)
  {
    if !Given(body.email) || !Given(body.password) then
      Err(400, MissingMessage)
    else
      match FindUserByEmail(users, NormaliseEmail(body.email.value))
      case None => Err(401, InvalidMessage)
      case Some(user) =>
        if !Given(user.password) then Err(401, InvalidMessage)
        else Ok(200, Session(Strip(user), Token(user.id, now)), LoggedInMessage)
  }

  /** The password in the body is only checked for presence: any two non-empty ones give the same reply. */
  lemma LoginIgnoresPassword(users: seq<User>, email: Option<string>, p: string, q: string, now: nat)
    requires p != [] && q != []
    ensures Login(users, LoginBody(email, Some(p)), now) == Login(users, LoginBody(email, Some(q)), now)
  {
  }

  /** The token names the user: the text after the prefix reads back, through parseInt, as the user's id. */
  lemma TokenNamesUser(users: seq<User>, body: LoginBody, now: nat)
    requires Login(users, body, now).Ok?
    ensures var s := Login(users, body, now).data;
      ParseInt(s.token[|TokenPrefix|..]) == Some(s.user.id)
  {
  }

  /** An appended user is the one an e-mail lookup finds when no earlier user has that e-mail. */
  lemma FindAppended(users: seq<User>, u: User)
    requires forall k :: 0 <= k < |users| ==> users[k].email != u.email
    ensures FindUserByEmail(users + [u], u.email) == Some(u)
  {
    var us := users + [u];
    assert us[|users|].email == u.email;
  }

  /**
   * A user created by POST /api/users (with the normalised conflict check)
   * can log in with the e-mail spelled as at registration: the lookup finds
   * that user, not another, and the stored password is never empty.
   */
  lemma RegisteredUserCanLogin(users: seq<User>, body: UserBody, id: int, created: nat, now: nat, password: string)
    requires UserErrors(body) == [] && !Conflict(users, body.email.s)
    requires password != []
    ensures var u := User(id, Trim(body.name.s), NormaliseEmail(body.email.s), Some(PasswordOrDefault(body.password)), created, created);
      var r := Login(users + [u], LoginBody(Some(body.email.s), Some(password)), now);
      r.Ok? && r.data.user == Strip(u)
  {
    var u := User(id, Trim(body.name.s), NormaliseEmail(body.email.s), Some(PasswordOrDefault(body.password)), created, created);
    FindAppended(users, u);
    assert body.email.s != [] by {
      assert ValidateEmail(body.email.s);
    }
    LoginFinds(users + [u], body.email.s, password, u, now);
  }

  /** Login succeeds, returning that user, once the lookup finds a user with a non-empty stored password. */
  lemma LoginFinds(users: seq<User>, email: string, password: string, u: User, now: nat)
    requires email != [] && password != [] && Given(u.password)
    requires FindUserByEmail(users, NormaliseEmail(email)) == Some(u)
    ensures var r := Login(users, LoginBody(Some(email), Some(password)), now);
      r.Ok? && r.data.user == Strip(u)
  {
  }
}
