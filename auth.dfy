/** The decisions of the `/register` and `/login` form handlers, over the `users` collection. */
module Auth {
  import opened Records

  const UsernameTakenMessage := "Username is taken."
  const EmailTakenMessage := "Email is taken."
  const UnknownUsernameMessage := "Username is not correct"
  const InvalidCredentialsMessage := "Invalid credentials"

  datatype RegisterOutcome = UsernameTaken | EmailTaken | Registered(user: User)

  /** POST `/register`: the username is checked first, the email second, and
      only then is the new user (with the digest `hashed` of the submitted
      password and the id `freshId` the store assigns) to be inserted. */
  function Register(users: seq<User>, name: string, email: string, username: string,
                    hashed: string, freshId: string): (r: RegisterOutcome)
    ensures r.UsernameTaken? <==> exists u :: u in users && u.username == username
    ensures r.EmailTaken? <==>
      (forall u :: u in users ==> u.username != username) && exists u :: u in users && u.email == email
    ensures r.Registered? ==>
      r.user.id == freshId && r.user.name == name && r.user.email == email &&
      r.user.username == username && r.user.password == hashed
  {
    var sameUsername := Find(users, WithUsername(username));
    if |sameUsername| != 0 then
      assert sameUsername[0] in sameUsername;
      UsernameTaken
    else
      var sameEmail := Find(users, WithEmail(email));
      if |sameEmail| != 0 then
        assert sameEmail[0] in sameEmail;
        EmailTaken
      else Registered(User(freshId, name, email, username, hashed))
  }

  datatype LoginOutcome = UnknownUsername | InvalidCredentials | LoggedIn(session: seq<User>)

  /** POST `/login`: the users with the submitted username are looked up; the
      password is verified against the first of them, and on success the whole
      list of matches becomes the session. `verify` is the password-hash
      library's check of a password against a stored digest. */
  function Login(users: seq<User>, username: string, password: string,
                 verify: (string, string) -> bool): (r: LoginOutcome)
    ensures r.UnknownUsername? <==> forall u :: u in users ==> u.username != username
    ensures r.LoggedIn? ==> r.session != [] && verify(password, r.session[0].password)
    ensures r.LoggedIn? ==> forall u :: u in r.session <==> u in users && u.username == username
    ensures r.InvalidCredentials? ==>
      exists u :: u in users && u.username == username && !verify(password, u.password)
  {
    var matched := Find(users, WithUsername(username));
    if |matched| == 0 then UnknownUsername
    else
      assert matched[0] in matched;
      if verify(password, matched[0].password) then LoggedIn(matched)
      else InvalidCredentials
  }

  /** The password is checked against the first user with that username, in store order. */
  lemma LoginChecksFirstMatch(users: seq<User>, username: string, password: string,
                              verify: (string, string) -> bool, i: nat)
    requires i < |users| && users[i].username == username
    requires forall j :: 0 <= j < i ==> users[j].username != username
    ensures Login(users, username, password, verify).LoggedIn? <==> verify(password, users[i].password)
    ensures Login(users, username, password, verify).InvalidCredentials? <==> !verify(password, users[i].password)
    ensures Login(users, username, password, verify).LoggedIn? ==> Login(users, username, password, verify).session[0] == users[i]
  {
    FindFirst(users, WithUsername(username), i);
  }

  /** Usernames and emails are each held by at most one user. */
  predicate UniqueAccounts(users: seq<User>) {
    forall i, j :: 0 <= i < j < |users| ==>
      users[i].username != users[j].username && users[i].email != users[j].email
  }

  /** Requests handled one after another keep usernames and emails unique. */
  lemma RegisterKeepsAccountsUnique(users: seq<User>, name: string, email: string, username: string,
                                    hashed: string, freshId: string)
    requires UniqueAccounts(users)
    requires Register(users, name, email, username, hashed, freshId).Registered?
    ensures UniqueAccounts(users + [Register(users, name, email, username, hashed, freshId).user])
  {
    var u := Register(users, name, email, username, hashed, freshId).user;
    forall i, j | 0 <= i < j < |users + [u]|
      ensures (users + [u])[i].username != (users + [u])[j].username
      ensures (users + [u])[i].email != (users + [u])[j].email
    {
      if j == |users| {
        assert (users + [u])[i] == users[i] && users[i] in users;
      }
    }
  }

  /** A fresh registration can log in at once: with the password whose digest
      was stored, the session is exactly the new user; with any other, the
      login is refused as invalid. */
  lemma {:induction false} RegisterThenLogin(users: seq<User>, name: string, email: string, username: string,
                                             hashed: string, freshId: string, password: string,
                                             verify: (string, string) -> bool)
    requires Register(users, name, email, username, hashed, freshId).Registered?
    ensures var u := Register(users, name, email, username, hashed, freshId).user;
      Login(users + [u], username, password, verify) ==
        if verify(password, hashed) then LoggedIn([u]) else InvalidCredentials
  {
    var u := Register(users, name, email, username, hashed, freshId).user;
    FindAppend(users, [u], WithUsername(username));
    FindNone(users, WithUsername(username));
    assert Find([u], WithUsername(username)) == [u] + Find([u][1..], WithUsername(username));
  }
}
