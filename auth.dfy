/**
 * Registration and login (backend/routes/auth.js): the password policy, the
 * ordered early-return checks of the two handlers, and the user collection
 * they read and extend.
 *
 * bcrypt and jsonwebtoken are foreign code: hashing, comparing and signing are
 * function-valued parameters, and the salt that `bcrypt.genSalt` draws is an
 * input. How the awaited store calls end is an input too (`SaveOutcome`), so
 * that the handler's `catch` block is part of the model.
 */
module Auth {
  import opened Wrappers
  import Decimal

  type UserId = nat
  type Salt = nat

  // ---------------------------------------------------------------------------
  // Password policy: /^(?=.*\d).{8,}$/
  // ---------------------------------------------------------------------------

  /** The code units JavaScript's `.` does not match (no `s` flag). */
  predicate IsLineTerminator(c: char) {
    c == '\n' || c == '\r' || c == '\U{2028}' || c == '\U{2029}'
  }

  /** The lookahead `(?=.*\d)`: some prefix of `s` matches `.*\d`. */
  predicate DigitAhead(s: string)
    decreases |s|
  {
    s != [] && (Decimal.IsDigit(s[0]) || (!IsLineTerminator(s[0]) && DigitAhead(s[1..])))
  }

  /** `.{min,}$`: all of `s` is at least `min` characters that `.` matches. */
  predicate DotsToEnd(s: string, min: nat)
    decreases |s|
  {
    if s == [] then min == 0
    else !IsLineTerminator(s[0]) && DotsToEnd(s[1..], if min == 0 then 0 else min - 1)
  }

  /** `isValidPassword`: the regular expression, anchored at both ends, tested against the password. */
  predicate IsValidPassword(password: string) {
    DigitAhead(password) && DotsToEnd(password, 8)
  }

  /** The policy in words: eight characters or more, a digit among them, all on one line. */
  ghost predicate MeetsPolicy(password: string) {
    && |password| >= 8
    && (exists i :: 0 <= i < |password| && Decimal.IsDigit(password[i]))
    && (forall i :: 0 <= i < |password| ==> !IsLineTerminator(password[i]))
  }

  lemma {:induction false} DigitAheadMeaning(s: string)
    ensures DigitAhead(s) <==>
      exists k :: 0 <= k < |s| && Decimal.IsDigit(s[k]) && forall j :: 0 <= j < k ==> !IsLineTerminator(s[j])
    decreases |s|
  {
    if s != [] && !Decimal.IsDigit(s[0]) {
      DigitAheadMeaning(s[1..]);
      if DigitAhead(s) {
        var k :| 0 <= k < |s[1..]| && Decimal.IsDigit(s[1..][k]) && forall j :: 0 <= j < k ==> !IsLineTerminator(s[1..][j]);
        assert Decimal.IsDigit(s[k + 1]);
        assert forall j :: 0 <= j < k + 1 ==> !IsLineTerminator(s[j]) by {
          forall j | 0 <= j < k + 1 ensures !IsLineTerminator(s[j]) {
            if j > 0 { assert s[j] == s[1..][j - 1]; }
          }
        }
      }
      if exists k :: 0 <= k < |s| && Decimal.IsDigit(s[k]) && forall j :: 0 <= j < k ==> !IsLineTerminator(s[j]) {
        var k :| 0 <= k < |s| && Decimal.IsDigit(s[k]) && forall j :: 0 <= j < k ==> !IsLineTerminator(s[j]);
        assert k > 0 && !IsLineTerminator(s[0]);
        assert Decimal.IsDigit(s[1..][k - 1]);
        assert forall j :: 0 <= j < k - 1 ==> !IsLineTerminator(s[1..][j]) by {
          forall j | 0 <= j < k - 1 ensures !IsLineTerminator(s[1..][j]) {
            assert s[1..][j] == s[j + 1];
          }
        }
      }
    }
  }

  lemma {:induction false} DotsToEndMeaning(s: string, min: nat)
    ensures DotsToEnd(s, min) <==> |s| >= min && forall i :: 0 <= i < |s| ==> !IsLineTerminator(s[i])
    decreases |s|
  {
    if s != [] {
      DotsToEndMeaning(s[1..], if min == 0 then 0 else min - 1);
      assert forall i :: 0 <= i < |s[1..]| ==> s[1..][i] == s[i + 1];
      if forall i :: 0 <= i < |s| ==> !IsLineTerminator(s[i]) {
        assert forall i :: 0 <= i < |s[1..]| ==> !IsLineTerminator(s[1..][i]);
      }
    }
  }

  /** `isValidPassword(p)` holds exactly when `p` meets the policy. */
  lemma PasswordPolicy(password: string)
    ensures IsValidPassword(password) <==> MeetsPolicy(password)
  {
    DigitAheadMeaning(password);
    DotsToEndMeaning(password, 8);
  }

  // ---------------------------------------------------------------------------
  // Users, request bodies and replies
  // ---------------------------------------------------------------------------

  /** A stored user; `password` holds what bcrypt produced, never the plaintext. */
  datatype User = User(id: UserId, username: string, email: string, password: string)

  /** The user as the login reply shows it. */
  datatype PublicUser = PublicUser(id: UserId, username: string, email: string)

  /** A request body; a field the client left out is `None`. */
  datatype RegisterBody = RegisterBody(username: Option<string>, email: Option<string>, password: Option<string>)
  datatype LoginBody = LoginBody(email: Option<string>, password: Option<string>)

  /** JavaScript truthiness of a body field: absent and "" are both falsy. */
  predicate Given(field: Option<string>) {
    field.Some? && field.value != ""
  }

  /** The JSON bodies the two handlers send. */
  datatype Body =
    | Failure(error: string)
    | Registered(message: string, userId: UserId)
    | LoggedIn(message: string, token: string, user: PublicUser)

  datatype Reply = Reply(status: nat, body: Body)

  /** How the awaited hashing and `newUser.save()` calls end: normally, or by throwing an error with a code. */
  datatype SaveOutcome = Saved | SaveError(code: int)

  /** The code of the store's duplicate-key error. */
  const DuplicateKeyCode: int := 11000

  const MissingFields := "Missing required fields"
  const WeakPassword := "Password must be at least 8 characters long and contain at least one number"
  const UserExists := "User already exists"
  const ServerError := "Server error"
  const RegisteredMessage := "User registered successfully"
  const InvalidCredentials := "Invalid credentials"
  const ConfigurationError := "Server configuration error"
  const LoginSuccessful := "Login successful"

  /** `expiresIn: '7d'`, in the seconds a token's `exp` claim counts. */
  const TokenLifetimeSeconds: nat := 7 * 24 * 60 * 60

  /** What `jwt.sign` is given: the payload, the secret and the lifetime. */
  datatype Payload = Payload(userId: UserId)
  datatype SignRequest = SignRequest(payload: Payload, secret: string, expiresInSeconds: nat)

  /** No two users share an id, an email or a username. */
  ghost predicate IdentitiesUnique(users: seq<User>) {
    forall i, j :: 0 <= i < j < |users| ==>
      users[i].id != users[j].id && users[i].email != users[j].email && users[i].username != users[j].username
  }

  /** `User.findOne({ $or: [{ email }, { username }] })`: the first user with that email or that username. */
  function FindExisting(users: seq<User>, username: string, email: string): (found: Option<User>)
    ensures found.None? <==> forall i :: 0 <= i < |users| ==> users[i].email != email && users[i].username != username
    ensures found.Some? ==> found.value in users && (found.value.email == email || found.value.username == username)
    decreases |users|
  {
    if users == [] then None
    else if users[0].email == email || users[0].username == username then Some(users[0])
    else FindExisting(users[1..], username, email)
  }

  /** `User.findOne({ email })`: the first user with that email. */
  function FindByEmail(users: seq<User>, email: string): (found: Option<User>)
    ensures found.None? <==> forall i :: 0 <= i < |users| ==> users[i].email != email
    ensures found.Some? ==> found.value in users && found.value.email == email
    decreases |users|
  {
    if users == [] then None
    else if users[0].email == email then Some(users[0])
    else FindByEmail(users[1..], email)
  }

  // ---------------------------------------------------------------------------
  // The two handlers as functions of the store
  // ---------------------------------------------------------------------------

  /**
   * POST /register: the reply and the user collection afterwards, when the
   * new user would get id `newId`.
   */
  function RegisterStep(users: seq<User>, body: RegisterBody, salt: Salt, hash: (string, Salt) -> string,
                        save: SaveOutcome, newId: UserId): (r: (Reply, seq<User>))
    ensures r.0.status == 201 || r.0.status == 400 || r.0.status == 500
    ensures r.0.status == 201 ==>
      && Given(body.username) && Given(body.email) && Given(body.password)
      && MeetsPolicy(body.password.value)
      && (forall i :: 0 <= i < |users| ==> users[i].email != body.email.value && users[i].username != body.username.value)
      && r.0.body == Registered(RegisteredMessage, newId)
      && r.1 == users + [User(newId, body.username.value, body.email.value, hash(body.password.value, salt))]
    ensures r.0.status != 201 ==> r.1 == users && r.0.body.Failure?
    ensures Given(body.username) && Given(body.email) && Given(body.password)
            && MeetsPolicy(body.password.value)
            && (forall i :: 0 <= i < |users| ==> users[i].email != body.email.value && users[i].username != body.username.value)
            ==>
            && (save == Saved ==> r.0.status == 201)
            && (save.SaveError? && save.code != DuplicateKeyCode ==> r == (Reply(500, Failure(ServerError)), users))
  {
    if !Given(body.username) || !Given(body.email) || !Given(body.password) then
      (Reply(400, Failure(MissingFields)), users)
    else
      var username, email, password := body.username.value, body.email.value, body.password.value;
      PasswordPolicy(password);
      if !IsValidPassword(password) then
        (Reply(400, Failure(WeakPassword)), users)
      else if FindExisting(users, username, email).Some? then
        (Reply(400, Failure(UserExists)), users)
      else
        match save
        case Saved =>
          (Reply(201, Registered(RegisteredMessage, newId)), users + [User(newId, username, email, hash(password, salt))])
        case SaveError(code) =>
          if code == DuplicateKeyCode then (Reply(400, Failure(UserExists)), users)
          else (Reply(500, Failure(ServerError)), users)
  }

  /** The reply both "no such email" and "wrong password" give. */
  const BadCredentials: Reply := Reply(400, Failure(InvalidCredentials))

  /** POST /login: the reply; the user collection is only read. */
  function LoginReply(users: seq<User>, body: LoginBody, secret: Option<string>,
                      verify: (string, string) -> bool, sign: SignRequest -> string): (reply: Reply)
    ensures reply.status == 200 || reply.status == 400 || reply.status == 500
    ensures !Given(body.email) || !Given(body.password) ==> reply == Reply(400, Failure(MissingFields))
    ensures Given(body.email) && Given(body.password)
            && FindByEmail(users, body.email.value).Some?
            && verify(body.password.value, FindByEmail(users, body.email.value).value.password)
            ==>
            if Given(secret) then reply.status == 200 else reply == Reply(500, Failure(ConfigurationError))
    ensures reply == BadCredentials <==>
      && Given(body.email) && Given(body.password)
      && (|| FindByEmail(users, body.email.value).None?
          || !verify(body.password.value, FindByEmail(users, body.email.value).value.password))
    ensures reply.status != 400 ==>
      && Given(body.email) && Given(body.password)
      && FindByEmail(users, body.email.value).Some?
      && verify(body.password.value, FindByEmail(users, body.email.value).value.password)
    ensures reply.status == 500 <==> reply == Reply(500, Failure(ConfigurationError))
    ensures reply.status == 200 ==>
      var u := FindByEmail(users, body.email.value).value;
      && Given(secret)
      && reply.body == LoggedIn(LoginSuccessful, sign(SignRequest(Payload(u.id), secret.value, TokenLifetimeSeconds)),
                                PublicUser(u.id, u.username, u.email))
  {
    if !Given(body.email) || !Given(body.password) then
      Reply(400, Failure(MissingFields))
    else
      match FindByEmail(users, body.email.value)
      case None => BadCredentials
      case Some(user) =>
        if !verify(body.password.value, user.password) then BadCredentials
        else if !Given(secret) then Reply(500, Failure(ConfigurationError))
        else
          var token := sign(SignRequest(Payload(user.id), secret.value, TokenLifetimeSeconds));
          Reply(200, LoggedIn(LoginSuccessful, token, PublicUser(user.id, user.username, user.email)))
  }

  // ---------------------------------------------------------------------------
  // The user collection, updated in place
  // ---------------------------------------------------------------------------

  class UserStore {
    var users: seq<User>
    /** Stands for the store's id generator: every id handed out so far is below it. */
    var nextId: UserId

    ghost predicate Valid()
      reads this
    {
      && (forall i :: 0 <= i < |users| ==> users[i].id < nextId)
      && IdentitiesUnique(users)
    }

    constructor ()
      ensures Valid() && users == []
    {
      users := [];
      nextId := 0;
    }

    /** The /register handler: checks in order, then one insert. */
    method Register(body: RegisterBody, salt: Salt, hash: (string, Salt) -> string, save: SaveOutcome)
      returns (reply: Reply)
      requires Valid()
      modifies this
      ensures Valid()
      ensures (reply, users) == RegisterStep(old(users), body, salt, hash, save, old(nextId))
    {
      if !Given(body.username) || !Given(body.email) || !Given(body.password) {
        return Reply(400, Failure(MissingFields));
      }
      var username, email, password := body.username.value, body.email.value, body.password.value;
      if !IsValidPassword(password) {
        return Reply(400, Failure(WeakPassword));
      }
      var existing := FindExisting(users, username, email);
      if existing.Some? {
        return Reply(400, Failure(UserExists));
      }
      var hashed := hash(password, salt);
      if save.SaveError? {
        if save.code == DuplicateKeyCode {
          return Reply(400, Failure(UserExists));
        }
        return Reply(500, Failure(ServerError));
      }
      var newUser := User(nextId, username, email, hashed);
      users := users + [newUser];
      nextId := nextId + 1;
      reply := Reply(201, Registered(RegisteredMessage, newUser.id));
    }

    /** The /login handler: lookup, compare, sign; the store is not modified. */
    method Login(body: LoginBody, secret: Option<string>, verify: (string, string) -> bool, sign: SignRequest -> string)
      returns (reply: Reply)
      ensures reply == LoginReply(users, body, secret, verify, sign)
    {
      if !Given(body.email) || !Given(body.password) {
        return Reply(400, Failure(MissingFields));
      }
      var user := FindByEmail(users, body.email.value);
      if user.None? {
        return Reply(400, Failure(InvalidCredentials));
      }
      var isMatch := verify(body.password.value, user.value.password);
      if !isMatch {
        return Reply(400, Failure(InvalidCredentials));
      }
      if !Given(secret) {
        return Reply(500, Failure(ConfigurationError));
      }
      var token := sign(SignRequest(Payload(user.value.id), secret.value, TokenLifetimeSeconds));
      reply := Reply(200, LoggedIn(LoginSuccessful, token, PublicUser(user.value.id, user.value.username, user.value.email)));
    }
  }

  // ---------------------------------------------------------------------------
  // Properties of the handlers
  // ---------------------------------------------------------------------------

  /** A missing field is reported first, whatever the store holds. */
  lemma RegisterMissingField(users: seq<User>, body: RegisterBody, salt: Salt, hash: (string, Salt) -> string,
                             save: SaveOutcome, newId: UserId)
    requires !Given(body.username) || !Given(body.email) || !Given(body.password)
    ensures RegisterStep(users, body, salt, hash, save, newId) == (Reply(400, Failure(MissingFields)), users)
  {
  }

  /** A password outside the policy is refused before the store is consulted or changed. */
  lemma RegisterWeakPassword(users: seq<User>, body: RegisterBody, salt: Salt, hash: (string, Salt) -> string,
                             save: SaveOutcome, newId: UserId)
    requires Given(body.username) && Given(body.email) && Given(body.password)
    requires !MeetsPolicy(body.password.value)
    ensures RegisterStep(users, body, salt, hash, save, newId) == (Reply(400, Failure(WeakPassword)), users)
  {
    PasswordPolicy(body.password.value);
  }

  /**
   * A clash on the email or on the username gives one and the same reply,
   * and so does the store's duplicate-key error; the store is unchanged.
   */
  lemma RegisterDuplicate(users: seq<User>, body: RegisterBody, salt: Salt, hash: (string, Salt) -> string,
                          save: SaveOutcome, newId: UserId)
    requires Given(body.username) && Given(body.email) && Given(body.password)
    requires MeetsPolicy(body.password.value)
    requires || (exists i :: 0 <= i < |users| && (users[i].email == body.email.value || users[i].username == body.username.value))
             || save == SaveError(DuplicateKeyCode)
    ensures RegisterStep(users, body, salt, hash, save, newId) == (Reply(400, Failure(UserExists)), users)
  {
    PasswordPolicy(body.password.value);
  }

  /** Registration keeps ids, emails and usernames unique when the new id is fresh. */
  lemma RegisterKeepsIdentitiesUnique(users: seq<User>, body: RegisterBody, salt: Salt, hash: (string, Salt) -> string,
                                      save: SaveOutcome, newId: UserId)
    requires IdentitiesUnique(users)
    requires forall i :: 0 <= i < |users| ==> users[i].id != newId
    ensures IdentitiesUnique(RegisterStep(users, body, salt, hash, save, newId).1)
  {
  }

  /**
   * Of two registrations in a row that share an email or a username, the
   * second one does not succeed.
   */
  lemma {:induction false} SecondRegistrationFails(users: seq<User>, first: RegisterBody, second: RegisterBody,
                                                   salt1: Salt, salt2: Salt, hash: (string, Salt) -> string,
                                                   save1: SaveOutcome, save2: SaveOutcome, id1: UserId, id2: UserId)
    requires RegisterStep(users, first, salt1, hash, save1, id1).0.status == 201
    requires second.email == first.email || second.username == first.username
    ensures RegisterStep(RegisterStep(users, first, salt1, hash, save1, id1).1, second, salt2, hash, save2, id2).0.status != 201
  {
    var after := RegisterStep(users, first, salt1, hash, save1, id1).1;
    var k := |users|;
    assert after[k].email == first.email.value && after[k].username == first.username.value;
  }

  /**
   * Right after a successful registration, logging in with the same email and
   * password succeeds, provided the comparison accepts the hash it was
   * computed from and a signing secret is configured; the token is signed over
   * the new id only, for seven days.
   */
  lemma {:induction false} RegisterThenLogin(users: seq<User>, body: RegisterBody, salt: Salt, hash: (string, Salt) -> string,
                                             save: SaveOutcome, newId: UserId, secret: Option<string>,
                                             verify: (string, string) -> bool, sign: SignRequest -> string)
    requires RegisterStep(users, body, salt, hash, save, newId).0.status == 201
    requires verify(body.password.value, hash(body.password.value, salt))
    requires Given(secret)
    ensures LoginReply(RegisterStep(users, body, salt, hash, save, newId).1, LoginBody(body.email, body.password), secret, verify, sign)
         == Reply(200, LoggedIn(LoginSuccessful, sign(SignRequest(Payload(newId), secret.value, TokenLifetimeSeconds)),
                                PublicUser(newId, body.username.value, body.email.value)))
  {
    var after := RegisterStep(users, body, salt, hash, save, newId).1;
    var found := FindByEmail(after, body.email.value);
    assert after[|users|].email == body.email.value;
    assert found.Some?;
    assert found.value == after[|users|];
  }

  /** Unknown email and wrong password are indistinguishable to the client. */
  lemma UnknownEmailLooksLikeWrongPassword(users: seq<User>, email: string, password: string, secret: Option<string>,
                                           verify: (string, string) -> bool, sign: SignRequest -> string)
    requires email != "" && password != ""
    requires (forall i :: 0 <= i < |users| ==> users[i].email != email)
          || (exists i :: 0 <= i < |users| && users[i].email == email && !verify(password, FindByEmail(users, email).value.password))
    ensures LoginReply(users, LoginBody(Some(email), Some(password)), secret, verify, sign) == BadCredentials
  {
  }

  /** Wrong credentials get 400 whether or not a signing secret is configured. */
  lemma WrongCredentialsIgnoreSecret(users: seq<User>, body: LoginBody, secret1: Option<string>, secret2: Option<string>,
                                     verify: (string, string) -> bool, sign: SignRequest -> string)
    requires LoginReply(users, body, secret1, verify, sign).status == 400
    ensures LoginReply(users, body, secret2, verify, sign) == LoginReply(users, body, secret1, verify, sign)
  {
  }
}
