/**
 * GET and POST /api/users (app/api/users/route.ts). The handlers run over a
 * Store; the request body arrives already parsed.
 *
 * POST checks for an existing user by looking up the e-mail exactly as the
 * body spells it, but stores the e-mail lower-cased and trimmed. Two
 * registrations differing only in letter case therefore both succeed and
 * leave two users with one e-mail. HandlePostAsWritten models the route as it
 * stands; HandlePost looks up the e-mail the store would keep, and is the one
 * proved to keep e-mails unique.
 */
module UsersRoute {
  import opened Options
  import opened Text
  import opened Types
  import opened Validation
  import opened MockData

  const ListedMessage := "Usuários recuperados com sucesso"
  const CreatedMessage := "Usuário criado com sucesso"
  const ConflictMessage := "Usuário com este email já existe"

  /** GET /api/users: every user in store order, none with a password. */
  function HandleGet(users: seq<User>): (r: Reply<seq<User>>)
    ensures r.Ok? && r.status == 200 && r.message == ListedMessage
    ensures |r.data| == |users|
    ensures forall i :: 0 <= i < |users| ==> r.data[i] == Strip(users[i])
  {
    Ok(200, FindAllUsers(users), ListedMessage)
  }

  /**
   * The e-mail as the store keeps it: lower-cased, then trimmed. What is left
   * has no white space at either end and no upper-case ASCII letter.
   */
  function NormaliseEmail(email: string): (r: string)
    ensures |r| <= |email|
    ensures exists i :: TrimmedAt(ToLower(email), r, i)
    ensures r == [] || (!IsSpace(r[0]) && !IsSpace(r[|r| - 1]))
    ensures forall i :: 0 <= i < |r| ==> !('A' <= r[i] <= 'Z')
  {
    var lower := ToLower(email);
    var r := Trim(lower);
    NoUpperInfix(lower, r);
    r
  }

  /** An infix of a string with no upper-case ASCII letter has none either. */
  lemma NoUpperInfix(lower: string, r: string)
    requires forall k :: 0 <= k < |lower| ==> !('A' <= lower[k] <= 'Z')
    requires exists i :: TrimmedAt(lower, r, i)
    ensures forall j :: 0 <= j < |r| ==> !('A' <= r[j] <= 'Z')
  {
    var i :| TrimmedAt(lower, r, i);
    forall j | 0 <= j < |r|
      ensures !('A' <= r[j] <= 'Z')
    {
      assert r[j] == lower[i + j];
    }
  }

  /** Normalising a stored e-mail again changes nothing, so a login with it finds the same user. */
  lemma NormaliseIdempotent(email: string)
    ensures NormaliseEmail(NormaliseEmail(email)) == NormaliseEmail(email)
  {
    var n := NormaliseEmail(email);
    var lower := ToLower(n);
    forall j | 0 <= j < |n|
      ensures lower[j] == n[j]
    {
    }
    assert lower == n;
    TrimFixed(n);
  }

  /** `body.password || "defaultpassword"`. */
  function PasswordOrDefault(password: Option<string>): (r: string)
    ensures r != []
    ensures password.Some? && password.value != [] ==> r == password.value
    ensures password.None? || password.value == [] ==> r == "defaultpassword"
  {
    match password
    case Some(p) => if p != [] then p else "defaultpassword"
    case None => "defaultpassword"
  }

  /** The 409 check as the route writes it: the e-mail looked up verbatim. */
  function ConflictAsWritten(users: seq<User>, email: string): (r: bool)
    ensures r <==> exists k :: 0 <= k < |users| && users[k].email == email
  {
    FindUserByEmail(users, email).Some?
  }

  /** The 409 check on the e-mail the store would keep. */
  function Conflict(users: seq<User>, email: string): (r: bool)
    ensures r <==> exists k :: 0 <= k < |users| && users[k].email == NormaliseEmail(email)
  {
    FindUserByEmail(users, NormaliseEmail(email)).Some?
  }

  /** Appending a user whose e-mail the normalised check found free keeps e-mails unique. */
  lemma ConflictKeepsEmailsUnique(users: seq<User>, email: string, u: User)
    requires EmailsUnique(users)
    requires !Conflict(users, email) && u.email == NormaliseEmail(email)
    ensures EmailsUnique(users + [u])
  {
    var us := users + [u];
    forall i, j | 0 <= i < j < |us|
      ensures us[i].email != us[j].email
    {
      if j == |users| {
        assert us[i] == users[i];
      }
    }
  }

  /**
   * The verbatim check lets a second registration of a stored address
   * through whenever the body spells it in another letter case: the check
   * passes and the created user duplicates the stored e-mail.
   * The Example lemmas below give such an input: with "a@b.co" stored,
   * the body {name: "Bo", email: "A@b.co"} is valid, has no verbatim match,
   * and normalises to "a@b.co".
   */
  lemma ConflictAsWrittenAdmitsDuplicate(users: seq<User>, body: UserBody, created: User)
    requires UserErrors(body) == [] && !ConflictAsWritten(users, body.email.s)
    requires exists k :: 0 <= k < |users| && users[k].email == NormaliseEmail(body.email.s)
    requires created.email == NormaliseEmail(body.email.s)
    ensures Conflict(users, body.email.s)
    ensures !EmailsUnique(users + [created])
  {
    var k :| 0 <= k < |users| && users[k].email == NormaliseEmail(body.email.s);
    var after := users + [created];
    assert after[k].email == after[|users|].email;
  }

  /** The example e-mail has no verbatim match among the example users. */
  lemma ExampleNoVerbatimMatch()
    ensures !ConflictAsWritten([User(1, "Ana", "a@b.co", Some("segredo"), 0, 0)], "A@b.co")
  {
    var u := User(1, "Ana", "a@b.co", Some("segredo"), 0, 0);
    assert u.email[0] != "A@b.co"[0];
  }

  /** The example body passes validation. */
  lemma ExampleBodyValid()
    ensures UserErrors(UserBody(Str("Bo"), Str("A@b.co"), None)) == []
  {
    ExampleIsValid();
    assert NameOk(Str("Bo")) by {
      assert NoSpace("Bo");
    }
    assert EmailOk(Str("A@b.co"));
  }

  lemma ExampleIsValid()
    ensures ValidateEmail("A@b.co")
  {
    var e: string := "A@b.co";
    assert Accepts(LocalStart, e) == Accepts(Local, e[1..]);
    assert e[1..] == "@b.co";
    assert Accepts(Local, "@b.co") == Accepts(HostStart, "b.co");
    assert "b.co"[1..] == ".co" && ".co"[1..] == "co" && "co"[1..] == "o" && "o"[1..] == "";
  }

  /** The example e-mail normalises to the stored one. */
  lemma ExampleNormalised()
    ensures NormaliseEmail("A@b.co") == "a@b.co"
  {
    var l := ToLower("A@b.co");
    assert |l| == 6;
    assert l[0] == 'a' && l[1] == '@' && l[2] == 'b' && l[3] == '.' && l[4] == 'c' && l[5] == 'o';
    assert l == "a@b.co";
    assert NoSpace(l);
  }

  /** POST /api/users as written: 400, then 409 on a verbatim e-mail match, then 201. */
  method HandlePostAsWritten(store: Store, body: UserBody, now: nat) returns (r: Reply<User>)
    requires store.Valid()
    modifies store
    ensures store.Valid()
    ensures store.posts == old(store.posts) && store.nextPostId == old(store.nextPostId)
    ensures store.issuedPostIds == old(store.issuedPostIds)
    ensures r.Err? ==> store.nextUserId == old(store.nextUserId) && store.issuedUserIds == old(store.issuedUserIds)
    ensures r.Ok? ==> store.nextUserId == old(store.nextUserId) + 1 && store.issuedUserIds == old(store.issuedUserIds) + {r.data.id}
    ensures UserErrors(body) != [] ==>
      r == Err(400, Join(UserErrors(body), ", ")) && store.users == old(store.users)
    ensures UserErrors(body) == [] && ConflictAsWritten(old(store.users), body.email.s) ==>
      r == Err(409, ConflictMessage) && store.users == old(store.users)
    ensures UserErrors(body) == [] && !ConflictAsWritten(old(store.users), body.email.s) ==>
      && store.users == old(store.users) + [User(old(store.nextUserId), Trim(body.name.s),
           NormaliseEmail(body.email.s), Some(PasswordOrDefault(body.password)), now, now)]
      && r == Ok(201, Strip(store.users[|store.users| - 1]), CreatedMessage)
    ensures r.Ok? ==> r.data.password.None? && r.data.id !in old(store.issuedUserIds)
  {
    var errors := ValidateUser(body);
    if |errors| > 0 {
      return Err(400, Join(errors, ", "));
    }
    var existing := FindUserByEmail(store.users, body.email.s);
    if existing.Some? {
      return Err(409, ConflictMessage);
    }
    var data := NewUser(Trim(body.name.s), NormaliseEmail(body.email.s), Some(PasswordOrDefault(body.password)));
    var user := store.CreateUser(data, now);
    r := Ok(201, user, CreatedMessage);
  }

  /** POST /api/users with the 409 check on the normalised e-mail: no two users ever share an e-mail. */
  method HandlePost(store: Store, body: UserBody, now: nat) returns (r: Reply<User>)
    requires store.Valid()
    modifies store
    ensures store.Valid()
    ensures store.posts == old(store.posts) && store.nextPostId == old(store.nextPostId)
    ensures store.issuedPostIds == old(store.issuedPostIds)
    ensures r.Err? ==> store.nextUserId == old(store.nextUserId) && store.issuedUserIds == old(store.issuedUserIds)
    ensures r.Ok? ==> store.nextUserId == old(store.nextUserId) + 1 && store.issuedUserIds == old(store.issuedUserIds) + {r.data.id}
    ensures UserErrors(body) != [] ==>
      r == Err(400, Join(UserErrors(body), ", ")) && store.users == old(store.users)
    ensures UserErrors(body) == [] && Conflict(old(store.users), body.email.s) ==>
      r == Err(409, ConflictMessage) && store.users == old(store.users)
    ensures UserErrors(body) == [] && !Conflict(old(store.users), body.email.s) ==>
      && store.users == old(store.users) + [User(old(store.nextUserId), Trim(body.name.s),
           NormaliseEmail(body.email.s), Some(PasswordOrDefault(body.password)), now, now)]
      && r == Ok(201, Strip(store.users[|store.users| - 1]), CreatedMessage)
    ensures r.Ok? ==> r.data.password.None? && r.data.id !in old(store.issuedUserIds)
    ensures EmailsUnique(old(store.users)) ==> EmailsUnique(store.users)
  {
    var errors := ValidateUser(body);
    if |errors| > 0 {
      return Err(400, Join(errors, ", "));
    }
    var email := NormaliseEmail(body.email.s);
    var existing := FindUserByEmail(store.users, email);
    if existing.Some? {
      return Err(409, ConflictMessage);
    }
    var data := NewUser(Trim(body.name.s), email, Some(PasswordOrDefault(body.password)));
    ghost var before := store.users;
    var user := store.CreateUser(data, now);
    if EmailsUnique(before) {
      ConflictKeepsEmailsUnique(before, body.email.s, store.users[|store.users| - 1]);
    }
    r := Ok(201, user, CreatedMessage);
  }
}
