/** The account handlers: `registerUser` and `loginUser`. As for the notes, each
    handler is a function from the collection before to the reply and the
    collection after, and a method that takes the handler's steps and is proved
    to agree with it. The randomness of `genSalt` is the `salt` parameter. */
module UserController {
  import opened JsString
  import opened Constants
  import opened UserModel
  import opened Crypto
  import opened AuthGate

  datatype RegisterBody = RegisterBody(name: Option<string>, email: Option<string>,
                                       password: Option<string>, confirmPassword: Option<string>)

  datatype LoginBody = LoginBody(email: Option<string>, password: Option<string>)

  /** The form field a refusal names: "general", "email", "confirmPassword"
      or "password". */
  datatype Field = General | EmailField | ConfirmPasswordField | PasswordField

  /** A refusal: the status, the message and the form field it is about. */
  datatype Rejection = Rejection(status: int, message: Message, field: Field)

  datatype RegisterReply =
    | Registered(status: int, message: Message, user: PublicUser)
    | Refused(rejection: Rejection)
    | Failed(status: int, message: Message)

  datatype LoginReply =
    | LoggedIn(status: int, greeting: string, token: string, userId: UserId)
    | LoginRefused(status: int, reason: Message)

  // ---------------------------------------------------------------------
  // registerUser

  predicate AllPresent(b: RegisterBody) {
    Truthy(b.name) && Truthy(b.email) && Truthy(b.password) && Truthy(b.confirmPassword)
  }

  /** The four checks `registerUser` makes before it touches the collection,
      in their order: the first that fails decides the reply. */
  function CheckRegistration(b: RegisterBody): (r: Option<Rejection>)
    ensures r.Some? ==> r.value.status == 400
    ensures r.None? ==> AllPresent(b)
  {
    if !AllPresent(b) then Some(Rejection(Code(BadRequest), RequiredFields, General))
    else if !IsEmail(b.email.value) then Some(Rejection(Code(BadRequest), InvalidEmail, EmailField))
    else if b.password != b.confirmPassword then Some(Rejection(Code(BadRequest), PasswordMismatch, ConfirmPasswordField))
    else if !IsComplexPassword(b.password.value) then Some(Rejection(Code(BadRequest), WeakPassword, PasswordField))
    else None
  }

  /** The checks, in order: missing fields first, then the address, then the
      confirmation, then the strength of the password; a body passes exactly
      when it survives all four. */
  lemma CheckRegistrationOrder(b: RegisterBody)
    ensures var r := CheckRegistration(b);
      && (r.None? <==> AllPresent(b) && IsEmail(b.email.value)
                        && b.password.value == b.confirmPassword.value
                        && IsComplexPassword(b.password.value))
      && (!AllPresent(b) ==> r == Some(Rejection(400, RequiredFields, General)))
      && (AllPresent(b) && !IsEmail(b.email.value) ==> r == Some(Rejection(400, InvalidEmail, EmailField)))
      && (AllPresent(b) && IsEmail(b.email.value) && b.password != b.confirmPassword ==>
            r == Some(Rejection(400, PasswordMismatch, ConfirmPasswordField)))
      && (r == Some(Rejection(400, WeakPassword, PasswordField)) <==>
            AllPresent(b) && IsEmail(b.email.value) && b.password == b.confirmPassword
            && !IsComplexPassword(b.password.value))
  {
  }

  /** `User.findOne({ email })`: the query value goes through the schema's
      setters and the collection is scanned in insertion order, which is id
      order; the first match is returned. */
  function FindByEmail(s: UserStore, email: string): (r: Option<UserId>)
    ensures r.Some? ==> r.value in s.users && s.users[r.value].email == NormalizeEmail(email)
    ensures r.Some? ==> forall id :: id in s.users && id < r.value ==> s.users[id].email != NormalizeEmail(email)
    ensures r.None? ==> forall id :: id in s.users && id < s.nextId ==> s.users[id].email != NormalizeEmail(email)
  {
    FindFrom(s.users, NormalizeEmail(email), 0, s.nextId)
  }

  /** The first id in `[k, n)` holding `key`. */
  function FindFrom(users: map<UserId, User>, key: string, k: nat, n: nat): (r: Option<UserId>)
    ensures r.Some? ==> k <= r.value < n && r.value in users && users[r.value].email == key
    ensures r.Some? ==> forall id :: id in users && k <= id < r.value ==> users[id].email != key
    ensures r.None? ==> forall id :: id in users && k <= id < n ==> users[id].email != key
    decreases n - k
  {
    if k >= n then None
    else if k in users && users[k].email == key then Some(k)
    else FindFrom(users, key, k + 1, n)
  }

  /** Putting a user at the scan's end bound does not disturb the scan below it;
      the new user is found exactly when no earlier one holds the key. */
  lemma {:induction false} FindFromExtend(users: map<UserId, User>, key: string, k: nat, n: nat, u: User)
    requires k <= n
    ensures FindFrom(users[n := u], key, k, n + 1)
            == if FindFrom(users, key, k, n).Some? then FindFrom(users, key, k, n)
               else if u.email == key then Some(n) else None
    decreases n - k
  {
    if k < n {
      FindFromExtend(users, key, k + 1, n, u);
    }
  }

  /** The record `User.create` builds: the `trim` setter on `name`, `trim` and
      `lowercase` on `email`, and the bcrypt digest as `password`. */
  function NewUser(b: RegisterBody, bcrypt: Bcrypt, salt: Salt): (u: User)
    requires AllPresent(b)
    ensures u.email == NormalizeEmail(b.email.value) && u.name == Trim(b.name.value)
    ensures u.password == bcrypt.hash(b.password.value, salt)
  {
    User(Trim(b.name.value), NormalizeEmail(b.email.value), bcrypt.hash(b.password.value, salt))
  }

  /** What `registerUser` does with a body that passed the checks: an address
      already on file (`findOne` compares after normalisation) is a 409;
      `User.create` then runs the schema's `required` validators, so an empty
      name or digest ends in the catch block's 500; otherwise `u` is stored
      under the next id. */
  function EnrolSpec(s: UserStore, email: string, u: User): (out: (RegisterReply, UserStore))
    ensures !out.0.Registered? ==> out.1 == s
    ensures out.0.Registered? <==> FindByEmail(s, email).None? && u.name != "" && u.password != ""
    ensures out.0.Registered? ==>
      out == (Registered(201, UserCreated, Public(s.nextId, u)), UserStore(s.users[s.nextId := u], s.nextId + 1))
    ensures out.0.Refused? <==> out.0 == Refused(Rejection(409, UserExists, EmailField))
    ensures out.0.Refused? <==> FindByEmail(s, email).Some?
    ensures out.0.Failed? ==> out.0 == Failed(500, ServerErrorMessage)
  {
    if FindByEmail(s, email).Some? then
      (Refused(Rejection(Code(Conflict), UserExists, EmailField)), s)
    else if u.name == "" || u.password == "" then
      (Failed(Code(ServerError), ServerErrorMessage), s)
    else
      (Registered(Code(Created), UserCreated, Public(s.nextId, u)), UserStore(s.users[s.nextId := u], s.nextId + 1))
  }

  /** `registerUser`: the checks, then the lookup and the insert. The address
      itself always satisfies the schema once it has passed the stricter
      registration pattern (`NormalizedEmailOk`). */
  function RegisterSpec(s: UserStore, b: RegisterBody, bcrypt: Bcrypt, salt: Salt): (out: (RegisterReply, UserStore))
    ensures !out.0.Registered? ==> out.1 == s
    ensures out.0.Registered? ==>
      var id := s.nextId;
      && AllPresent(b)
      && out.0 == Registered(201, UserCreated, Public(id, NewUser(b, bcrypt, salt)))
      && out.1 == UserStore(s.users[id := NewUser(b, bcrypt, salt)], id + 1)
  {
    match CheckRegistration(b)
    case Some(rejection) => (Refused(rejection), s)
    case None => EnrolSpec(s, b.email.value, NewUser(b, bcrypt, salt))
  }

  /** A failed check is reported as such, and a taken address is a 409 and
      nothing else is. */
  lemma RegisterRefusals(s: UserStore, b: RegisterBody, bcrypt: Bcrypt, salt: Salt)
    ensures var out := RegisterSpec(s, b, bcrypt, salt);
      && (CheckRegistration(b).Some? ==> out.0 == Refused(CheckRegistration(b).value))
      && (out.0 == Refused(Rejection(409, UserExists, EmailField)) <==>
            CheckRegistration(b).None? && FindByEmail(s, b.email.value).Some?)
  {
    var out := RegisterSpec(s, b, bcrypt, salt);
    var check := CheckRegistration(b);
    if check.Some? {
      assert out.0 == Refused(check.value) && check.value.status == 400;
    } else if FindByEmail(s, b.email.value).None? {
      assert !out.0.Refused?;
    }
  }

  /** A user is created exactly when every check passes, the address is free
      and the schema's `required` validators accept the record; otherwise a
      failing save is the generic 500. */
  lemma RegisterSucceedsWhen(s: UserStore, b: RegisterBody, bcrypt: Bcrypt, salt: Salt)
    ensures var out := RegisterSpec(s, b, bcrypt, salt);
      && (out.0.Registered? <==>
            && CheckRegistration(b).None? && FindByEmail(s, b.email.value).None?
            && Trim(b.name.value) != "" && bcrypt.hash(b.password.value, salt) != "")
      && (out.0.Failed? ==> out.0 == Failed(500, ServerErrorMessage))
  {
    var out := RegisterSpec(s, b, bcrypt, salt);
    if CheckRegistration(b).None? && FindByEmail(s, b.email.value).None? {
      var u := NewUser(b, bcrypt, salt);
      if u.name == "" || u.password == "" {
        assert out.0 == Failed(500, ServerErrorMessage);
      }
    }
  }

  method Register(table: UserTable, b: RegisterBody, bcrypt: Bcrypt, salt: Salt) returns (r: RegisterReply)
    modifies table
    ensures (r, table.State()) == RegisterSpec(old(table.State()), b, bcrypt, salt)
  {
    var rejection := CheckRegistration(b);
    if rejection.Some? {
      return Refused(rejection.value);
    }
    r := Enrol(table, b.email.value, NewUser(b, bcrypt, salt));
  }

  /** The lookup and the insert on the collection itself. */
  method Enrol(table: UserTable, email: string, u: User) returns (r: RegisterReply)
    modifies table
    ensures (r, table.State()) == EnrolSpec(old(table.State()), email, u)
  {
    var existing := FindByEmail(table.State(), email);
    if existing.Some? {
      return Refused(Rejection(Code(Conflict), UserExists, EmailField));
    }
    // create(): the `required` validators run before the insert
    if u.name == "" || u.password == "" {
      return Failed(Code(ServerError), ServerErrorMessage);
    }
    var id := table.nextId;
    table.users := table.users[id := u];
    table.nextId := table.nextId + 1;
    r := Registered(Code(Created), UserCreated, Public(id, u));
  }

  /** Registration keeps the collection's invariant: every stored record meets
      the schema and no two share an address. */
  lemma RegisterKeepsStoreOk(s: UserStore, b: RegisterBody, bcrypt: Bcrypt, salt: Salt)
    requires UserStoreOk(s)
    ensures UserStoreOk(RegisterSpec(s, b, bcrypt, salt).1)
  {
    if RegisterSpec(s, b, bcrypt, salt).0.Registered? {
      RegisterSucceedsWhen(s, b, bcrypt, salt);
      CheckRegistrationOrder(b);
      var u := NewUser(b, bcrypt, salt);
      NewUserOk(b, bcrypt, salt);
      assert forall id :: id in s.users ==> s.users[id].email != u.email by {
        assert FindByEmail(s, b.email.value).None?;
      }
      InsertKeepsStoreOk(s, u);
    }
  }

  /** The record a registration that gets past every check builds meets the schema. */
  lemma NewUserOk(b: RegisterBody, bcrypt: Bcrypt, salt: Salt)
    requires AllPresent(b) && IsEmail(b.email.value)
    requires Trim(b.name.value) != "" && bcrypt.hash(b.password.value, salt) != ""
    ensures UserOk(NewUser(b, bcrypt, salt))
  {
    NormalizedEmailOk(b.email.value);
  }

  /** Inserting a valid record under the next id, with an address no stored
      record holds, keeps the collection's invariant. */
  lemma InsertKeepsStoreOk(s: UserStore, u: User)
    requires UserStoreOk(s) && UserOk(u)
    requires forall id :: id in s.users ==> s.users[id].email != u.email
    ensures UserStoreOk(UserStore(s.users[s.nextId := u], s.nextId + 1))
  {
    var users := s.users[s.nextId := u];
    forall id | id in users ensures id < s.nextId + 1 && UserOk(users[id]) {
      if id != s.nextId {
        assert users[id] == s.users[id];
      }
    }
    InsertKeepsUnique(s.users, s.nextId, u);
  }

  /** A record whose address no stored record holds keeps addresses unique. */
  lemma InsertKeepsUnique(users: map<UserId, User>, n: UserId, u: User)
    requires EmailsUnique(users)
    requires forall id :: id in users ==> users[id].email != u.email
    ensures EmailsUnique(users[n := u])
  {
    var users' := users[n := u];
    forall i, j | i in users' && j in users' && users'[i].email == users'[j].email
      ensures i == j
    {
      if i != n && j != n {
        assert users[i].email == users[j].email;
      }
    }
  }

  /** The password is kept only as a bcrypt digest: never the plaintext, and
      one that `compare` accepts for the password given. */
  lemma PasswordStoredHashed(s: UserStore, b: RegisterBody, bcrypt: Bcrypt, salt: Salt)
    requires AcceptsOwn(bcrypt) && DigestHidesPassword(bcrypt)
    requires RegisterSpec(s, b, bcrypt, salt).0.Registered?
    ensures var stored := RegisterSpec(s, b, bcrypt, salt).1.users[s.nextId].password;
            stored != b.password.value && bcrypt.compare(b.password.value, stored)
  {
  }

  /** As digests are never empty, the only way a complete, well-formed
      registration fails is a name of white space only. */
  lemma RegisterFailsOnlyOnBlankName(s: UserStore, b: RegisterBody, bcrypt: Bcrypt, salt: Salt)
    requires DigestHidesPassword(bcrypt)
    requires CheckRegistration(b).None? && FindByEmail(s, b.email.value).None?
    ensures RegisterSpec(s, b, bcrypt, salt).0.Failed? <==> AllSpace(b.name.value)
  {
  }

  /** "abc" is refused as weak once the earlier checks pass, and nothing is stored. */
  lemma WeakPasswordRefused(s: UserStore, name: string, email: string, bcrypt: Bcrypt, salt: Salt)
    requires name != "" && IsEmail(email)
    ensures RegisterSpec(s, RegisterBody(Some(name), Some(email), Some("abc"), Some("abc")), bcrypt, salt)
            == (Refused(Rejection(400, WeakPassword, PasswordField)), s)
  {
    assert |"abc"| < 8;
    assert email != "" by { EmailOneAt(email); }
  }

  // ---------------------------------------------------------------------
  // loginUser

  /** `loginUser`: look the address up, compare the password with the digest,
      and sign a token for the user's id that lasts 365 days. */
  function LoginSpec(s: UserStore, b: LoginBody, bcrypt: Bcrypt, jwt: Jwt, now: int): (r: LoginReply)
    ensures !Truthy(b.email) || !Truthy(b.password) ==> r == LoginRefused(400, LoginRequired)
    ensures r.LoginRefused? ==> r.status in {400, 401}
    ensures r.LoggedIn? ==>
      && Truthy(b.email) && Truthy(b.password)
      && FindByEmail(s, b.email.value) == Some(r.userId)
      && bcrypt.compare(b.password.value, s.users[r.userId].password)
      && r == LoggedIn(200, LoginSuccess(s.users[r.userId].name), jwt.sign(r.userId, now), r.userId)
    ensures Truthy(b.email) && Truthy(b.password) && r.LoginRefused? ==> r == LoginRefused(401, InvalidCredentials)
    ensures Truthy(b.email) && Truthy(b.password) && FindByEmail(s, b.email.value).Some?
            && bcrypt.compare(b.password.value, s.users[FindByEmail(s, b.email.value).value].password)
            ==> r.LoggedIn?
  {
    if !Truthy(b.email) || !Truthy(b.password) then LoginRefused(Code(BadRequest), LoginRequired)
    else
      match FindByEmail(s, b.email.value)
      case None => LoginRefused(Code(Unauthorized), InvalidCredentials)
      case Some(id) =>
        if !bcrypt.compare(b.password.value, s.users[id].password) then
          LoginRefused(Code(Unauthorized), InvalidCredentials)
        else
          LoggedIn(Code(Ok), LoginSuccess(s.users[id].name), jwt.sign(id, now), id)
  }

  method Login(table: UserTable, b: LoginBody, bcrypt: Bcrypt, jwt: Jwt, now: int) returns (r: LoginReply)
    ensures r == LoginSpec(table.State(), b, bcrypt, jwt, now)
  {
    if !Truthy(b.email) || !Truthy(b.password) {
      return LoginRefused(Code(BadRequest), LoginRequired);
    }
    var found := FindByEmail(table.State(), b.email.value);
    if found.None? {
      return LoginRefused(Code(Unauthorized), InvalidCredentials);
    }
    var user := table.users[found.value];
    var isMatch := bcrypt.compare(b.password.value, user.password);
    if !isMatch {
      return LoginRefused(Code(Unauthorized), InvalidCredentials);
    }
    var token := jwt.sign(found.value, now);
    r := LoggedIn(Code(Ok), LoginSuccess(user.name), token, found.value);
  }

  /** For a stored user whose digest was made from `p`, a password logs in
      exactly when bcrypt's key of it (its first 72 UTF-8 bytes, with the
      terminating zero when it is shorter) is the key of `p`; below 72 bytes
      that means the password `p` itself. */
  lemma OnlyRightPasswordLogsIn(s: UserStore, email: string, p: string, q: string, salt: Salt,
                                bcrypt: Bcrypt, jwt: Jwt, now: int)
    requires AcceptsOwn(bcrypt) && KeyOnly(bcrypt) && RejectsOtherKeys(bcrypt)
    requires email != "" && q != ""
    requires FindByEmail(s, email).Some? && s.users[FindByEmail(s, email).value].password == bcrypt.hash(p, salt)
    ensures Key(q) == Key(p) ==> LoginSpec(s, LoginBody(Some(email), Some(q)), bcrypt, jwt, now).LoggedIn?
    ensures NoNul(p) && NoNul(q) ==>
      (LoginSpec(s, LoginBody(Some(email), Some(q)), bcrypt, jwt, now).LoggedIn? <==> Key(q) == Key(p))
    ensures NoNul(p) && NoNul(q) && |Utf8(p)| < KeyLimit ==>
      (LoginSpec(s, LoginBody(Some(email), Some(q)), bcrypt, jwt, now).LoggedIn? <==> q == p)
  {
    var d := bcrypt.hash(p, salt);
    assert bcrypt.compare(p, d);
    if Key(q) == Key(p) {
      assert bcrypt.compare(q, d) == bcrypt.compare(p, d);
    }
    if NoNul(p) && NoNul(q) && |Utf8(p)| < KeyLimit && Key(q) == Key(p) {
      ShortKeyInjective(p, q);
    }
  }

  /** A password that agrees with the registered one in its first 72 UTF-8
      bytes logs in, whatever follows them. */
  lemma LongPasswordCutAt72(s: UserStore, email: string, p: string, q: string, salt: Salt,
                            bcrypt: Bcrypt, jwt: Jwt, now: int)
    requires AcceptsOwn(bcrypt) && KeyOnly(bcrypt)
    requires email != "" && q != "" && NoNul(p) && NoNul(q)
    requires FindByEmail(s, email).Some? && s.users[FindByEmail(s, email).value].password == bcrypt.hash(p, salt)
    requires |Utf8(p)| >= KeyLimit && |Utf8(q)| >= KeyLimit && Utf8(q)[..KeyLimit] == Utf8(p)[..KeyLimit]
    ensures LoginSpec(s, LoginBody(Some(email), Some(q)), bcrypt, jwt, now).LoggedIn?
  {
    LongKeysAgree(p, q);
    var d := bcrypt.hash(p, salt);
    assert bcrypt.compare(q, d) == bcrypt.compare(p, d);
  }

  /** Whoever registers can log in straight away, with the address in any
      letter case and surrounding white space, and is greeted by name. */
  lemma RegisteredUserCanLogIn(s: UserStore, b: RegisterBody, bcrypt: Bcrypt, salt: Salt,
                               email: string, jwt: Jwt, now: int)
    requires AcceptsOwn(bcrypt)
    requires RegisterSpec(s, b, bcrypt, salt).0.Registered?
    requires email != "" && NormalizeEmail(email) == NormalizeEmail(b.email.value)
    ensures var s' := RegisterSpec(s, b, bcrypt, salt).1;
            LoginSpec(s', LoginBody(Some(email), b.password), bcrypt, jwt, now)
            == LoggedIn(200, LoginSuccess(Trim(b.name.value)), jwt.sign(s.nextId, now), s.nextId)
  {
    RegisterSucceedsWhen(s, b, bcrypt, salt);
    assert FindByEmail(s, email).None? by {
      assert FindByEmail(s, email) == FindByEmail(s, b.email.value);
    }
    InsertedUserCanLogIn(s, NewUser(b, bcrypt, salt), email, b.password.value, salt, bcrypt, jwt, now);
  }

  /** A record put under the next id, with an address nobody else holds and
      the digest of `p`, is found by any spelling of its address and logs in
      with `p`. */
  lemma InsertedUserCanLogIn(s: UserStore, u: User, email: string, p: string, salt: Salt,
                             bcrypt: Bcrypt, jwt: Jwt, now: int)
    requires AcceptsOwn(bcrypt)
    requires FindByEmail(s, email).None? && u.email == NormalizeEmail(email)
    requires email != "" && p != "" && u.password == bcrypt.hash(p, salt)
    ensures LoginSpec(UserStore(s.users[s.nextId := u], s.nextId + 1), LoginBody(Some(email), Some(p)), bcrypt, jwt, now)
            == LoggedIn(200, LoginSuccess(u.name), jwt.sign(s.nextId, now), s.nextId)
  {
    var s' := UserStore(s.users[s.nextId := u], s.nextId + 1);
    assert FindByEmail(s', email) == Some(s.nextId) by {
      FindFromExtend(s.users, NormalizeEmail(email), 0, s.nextId, u);
    }
    assert bcrypt.compare(p, u.password);
  }

  /** The token a login hands out opens the auth gate for that user during the
      next 365 days, whatever scheme word precedes it. */
  lemma LoginTokenPassesGate(s: UserStore, b: LoginBody, bcrypt: Bcrypt, jwt: Jwt, now: int,
                             scheme: string, later: int)
    requires JwtLaws(jwt) && ' ' !in scheme
    requires LoginSpec(s, b, bcrypt, jwt, now).LoggedIn?
    requires later < now + TokenLifetime
    ensures var r := LoginSpec(s, b, bcrypt, jwt, now);
            Decide(Some(scheme + " " + r.token), jwt, later, s.users) == Admit(Public(r.userId, s.users[r.userId]))
  {
    var r := LoginSpec(s, b, bcrypt, jwt, now);
    IssuedTokenAdmitted(jwt, scheme, r.userId, now, later, s.users);
  }
}
