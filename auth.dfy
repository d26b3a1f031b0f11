/**
 * `POST /api/login`: a three-way decision. Password hashing and token signing are
 * opaque: the bcrypt comparison is a parameter, and a signed token is modelled by
 * what it carries.
 */
module Auth {
  import opened Wrappers
  import opened Ledger
  import Store

  const JwtSecret: string := "your_jwt_secret_key"

  /** The `expiresIn` option passed when signing. */
  const TokenLifetime: string := "1h"

  /** A signed token: its payload (the user's id), the secret it is signed with, and its lifetime. */
  datatype Token = Token(id: ObjectId, secret: string, expiresIn: string)

  /** The minimal profile returned beside the token. */
  datatype Profile = Profile(id: ObjectId, name: string, email: string)

  datatype LoginResult = UserNotFound | InvalidCredentials | LoggedIn(token: Token, user: Profile)

  function HttpStatus(r: LoginResult): (code: int)
    ensures code == 200 <==> r.LoggedIn?
    ensures code == 404 <==> r.UserNotFound?
    ensures code == 400 <==> r.InvalidCredentials?
  {
    match r
    case UserNotFound => 404
    case InvalidCredentials => 400
    case LoggedIn(_, _) => 200
  }

  /** `jwt.sign({ id }, JWT_SECRET, { expiresIn: '1h' })`. */
  function Sign(id: ObjectId): Token
  {
    Token(id, JwtSecret, TokenLifetime)
  }

  /** `User.findOne({ email })`. */
  function FindByEmail(users: seq<User>, email: string): (r: Option<User>)
    ensures r.None? <==> forall i :: 0 <= i < |users| ==> users[i].email != email
    ensures r.Some? ==> r.value in users && r.value.email == email
  {
    Store.FindFirst(users, (u: User) => u.email == email)
  }

  /**
   * The login decision: no user with that email, a password that does not match
   * the stored hash (`passwordMatches` stands for `bcrypt.compare`), or a token
   * whose payload is the user's id, with the user's id, name and email.
   */
  function Login(users: seq<User>, email: string, password: string,
                 passwordMatches: (string, string) -> bool): (r: LoginResult)
    ensures r.UserNotFound? <==> forall i :: 0 <= i < |users| ==> users[i].email != email
    ensures r.InvalidCredentials? ==>
      exists i :: 0 <= i < |users| && users[i].email == email && !passwordMatches(password, users[i].passwordHash)
    ensures r.LoggedIn? ==>
      exists i :: 0 <= i < |users| && users[i].email == email && passwordMatches(password, users[i].passwordHash) &&
        r.token.id == users[i].id && r.user == Profile(users[i].id, users[i].name, users[i].email)
  {
    match FindByEmail(users, email)
    case None => UserNotFound
    case Some(user) =>
      if !passwordMatches(password, user.passwordHash) then InvalidCredentials
      else LoggedIn(Sign(user.id), Profile(user.id, user.name, user.email))
  }

  /**
   * With unique emails the answer is decided by the one user holding the email:
   * a matching password yields a token for that user's id, any other password
   * "Invalid credentials".
   */
  lemma LoginForUser(users: seq<User>, email: string, password: string,
                     passwordMatches: (string, string) -> bool, i: nat)
    requires UniqueUsers(users)
    requires i < |users| && users[i].email == email
    ensures Login(users, email, password, passwordMatches) ==
      if passwordMatches(password, users[i].passwordHash)
      then LoggedIn(Token(users[i].id, JwtSecret, TokenLifetime), Profile(users[i].id, users[i].name, users[i].email))
      else InvalidCredentials
  {
    var u := FindByEmail(users, email);
    assert u.Some?;
    var k :| 0 <= k < |users| && users[k] == u.value && users[k].email == email;
    assert k == i;
  }

  /**
   * The login answer's status: 404 exactly when no user has the email, 400 only
   * for a user whose hash does not match, 200 only for a user whose hash matches.
   */
  lemma LoginStatus(users: seq<User>, email: string, password: string,
                    passwordMatches: (string, string) -> bool)
    ensures HttpStatus(Login(users, email, password, passwordMatches)) == 404 <==>
      forall i :: 0 <= i < |users| ==> users[i].email != email
    ensures HttpStatus(Login(users, email, password, passwordMatches)) == 400 ==>
      exists i :: 0 <= i < |users| && users[i].email == email && !passwordMatches(password, users[i].passwordHash)
    ensures HttpStatus(Login(users, email, password, passwordMatches)) == 200 ==>
      exists i :: 0 <= i < |users| && users[i].email == email && passwordMatches(password, users[i].passwordHash)
  {
  }
}
