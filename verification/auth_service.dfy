/**
 * The session service: login, registration, refresh and logout over the
 * user store. Password hashing and checking, email-format checking and
 * token signing are collaborators passed in as `Deps`.
 */
module AuthService {
  import opened Results
  import opened Lookup
  import opened Errors
  import opened Users
  import opened Tokens
  import opened Validation

  datatype Deps = Deps(
    isEmail: string -> bool,
    hash: string -> string,
    verifyPassword: (string, string) -> bool,
    signer: Signer)

  /** What callers see of a user: never the password hash. */
  datatype UserView = UserView(id: UserId, email: string, createdAt: int, role: string)

  datatype AuthResult = AuthResult(message: string, accessToken: string, refreshToken: string, user: UserView)

  const BadCredentials := AppError(401, InvalidCredentials, "Invalid email or password")
  const EmailTaken := AppError(409, EmailExists, "A user with this email already exists")
  const CreateFailed := AppError(500, InternalServerError, "Failed to create user")
  const BadRefreshToken := AppError(401, InvalidRefreshToken, "Refresh token is invalid or expired")
  const RefreshUserMissing := AppError(401, InvalidRefreshToken, "User not found")

  function ViewOf(u: User): (v: UserView)
    ensures v.id == u.id && v.email == u.email && v.createdAt == u.createdAt && v.role == RoleName(u.role)
  {
    UserView(u.id, u.email, u.createdAt, RoleName(u.role))
  }

  /** Tokens for a stored user: subject, email and role come from the record. */
  function TokensFor(deps: Deps, u: User): TokenPair {
    GenerateJWTs(deps.signer, u.id, u.email, Some(RoleName(u.role)))
  }

  /** The hasher accepts the plaintext it hashed. */
  ghost predicate HasherSound(deps: Deps) {
    forall p :: deps.verifyPassword(p, deps.hash(p))
  }

  /**
   * `login`: both inputs are validated before the store is read; an unknown
   * email and a wrong password fail with the same 401.
   */
  function Login(deps: Deps, users: UserStore, email: string, password: string): (r: Result<AuthResult, AppError>)
    ensures ValidateEmail(email, deps.isEmail).Err? ==> r == Err(ValidateEmail(email, deps.isEmail).error)
    ensures ValidateEmail(email, deps.isEmail).Ok? && !PasswordRule(password) ==> r == Err(ValidatePassword(password).error)
    ensures r.Err? && r.error.status != 400 ==> r.error == BadCredentials
    ensures ValidateEmail(email, deps.isEmail).Ok? && PasswordRule(password) ==> r.Ok? || r == Err(BadCredentials)
    ensures r.Ok? ==> var found := FindByEmail(users, NormalizeEmail(email));
                      && PasswordRule(password)
                      && found.Some? && deps.verifyPassword(password, found.value.passwordHash)
                      && r.value.user == ViewOf(found.value)
                      && (r.value.accessToken, r.value.refreshToken) == (TokensFor(deps, found.value).accessToken, TokensFor(deps, found.value).refreshToken)
  {
    match ValidateEmail(email, deps.isEmail)
    case Err(e) => Err(e)
    case Ok(validEmail) =>
      match ValidatePassword(password)
      case Err(e) => Err(e)
      case Ok(validPassword) =>
        match FindByEmail(users, validEmail)
        case None => Err(BadCredentials)
        case Some(u) =>
          if !deps.verifyPassword(validPassword, u.passwordHash) then Err(BadCredentials)
          else
            var t := TokensFor(deps, u);
            Ok(AuthResult("Login successfull", t.accessToken, t.refreshToken, ViewOf(u)))
  }

  /**
   * `register`: validate, refuse a taken email, store the user with the
   * normalised email and the default role. `stored` says whether the store's
   * create call handed a record back; when it did not, the result is a 500.
   */
  function Register(deps: Deps, users: UserStore, email: string, password: string, now: int, stored: bool)
    : (r: Result<(UserStore, AuthResult), AppError>)
    ensures ValidateEmail(email, deps.isEmail).Err? ==> r == Err(ValidateEmail(email, deps.isEmail).error)
    ensures ValidateEmail(email, deps.isEmail).Ok? && !PasswordRule(password) ==> r == Err(ValidatePassword(password).error)
    ensures r.Err? && r.error.status != 400 ==> r.error == EmailTaken || r.error == CreateFailed
    ensures r.Err? && r.error == EmailTaken ==> FindByEmail(users, NormalizeEmail(email)).Some?
    ensures r.Ok? ==> var (users', result) := r.value;
                      && FindByEmail(users, NormalizeEmail(email)).None?
                      && users'.records == users.records + [User(users.nextId, NormalizeEmail(email), deps.hash(password), UserRole, now)]
                      && result.user == UserView(users.nextId, NormalizeEmail(email), now, "USER")
    ensures r.Ok? && ValidUsers(users) ==> ValidUsers(r.value.0)
    ensures ValidateEmail(email, deps.isEmail).Ok? && PasswordRule(password)
            && FindByEmail(users, NormalizeEmail(email)).None?
            ==> (r.Ok? <==> stored) && (!stored ==> r == Err(CreateFailed))
    ensures r.Ok? ==> var u := User(users.nextId, NormalizeEmail(email), deps.hash(password), UserRole, now);
                      (r.value.1.accessToken, r.value.1.refreshToken) == (TokensFor(deps, u).accessToken, TokensFor(deps, u).refreshToken)
  {
    match ValidateEmail(email, deps.isEmail)
    case Err(e) => Err(e)
    case Ok(validEmail) =>
      match ValidatePassword(password)
      case Err(e) => Err(e)
      case Ok(validPassword) =>
        var hashed := deps.hash(validPassword);
        if FindByEmail(users, validEmail).Some? then Err(EmailTaken)
        else if !stored then Err(CreateFailed)
        else
          var (users', u) := Create(users, validEmail, hashed, UserRole, now);
          var t := TokensFor(deps, u);
          Ok((users', AuthResult("User created successfully", t.accessToken, t.refreshToken, ViewOf(u))))
  }

  datatype RefreshResult = RefreshResult(accessToken: string, refreshToken: string)

  /** The body of the `try` block: verify as a refresh token, then look the subject up. */
  function RefreshAttempt(deps: Deps, users: UserStore, token: string): Result<RefreshResult, AppError> {
    match deps.signer.verify(Refresh, token)
    case Rejected(_) => Err(BadRefreshToken)
    case Verified(claims) =>
      match FindById(users, claims.sub)
      case None => Err(RefreshUserMissing)
      case Some(u) =>
        var t := TokensFor(deps, u);
        Ok(RefreshResult(t.accessToken, t.refreshToken))
  }

  /** `refreshToken`: whatever fails inside is replaced by one and the same 401. */
  function RefreshToken(deps: Deps, users: UserStore, token: string): (r: Result<RefreshResult, AppError>)
    ensures r.Err? ==> r.error == BadRefreshToken
    ensures r.Ok? <==> deps.signer.verify(Refresh, token).Verified?
                       && FindById(users, deps.signer.verify(Refresh, token).claims.sub).Some?
    ensures r.Ok? ==> var u := FindById(users, deps.signer.verify(Refresh, token).claims.sub).value;
                      r.value == RefreshResult(TokensFor(deps, u).accessToken, TokensFor(deps, u).refreshToken)
  {
    match RefreshAttempt(deps, users, token)
    case Ok(result) => Ok(result)
    case Err(_) => Err(BadRefreshToken)
  }

  /** `logout`: nothing to do at this layer, and nothing can fail. */
  function Logout(users: UserStore, token: string): (r: UserStore)
    ensures r == users
  {
    users
  }

  // ------------------------------------------------------------ properties

  /** An unknown email and a wrong password are indistinguishable to the caller. */
  lemma LoginFailuresIndistinguishable(deps: Deps, users: UserStore, email: string, password: string,
                                       other: UserStore, otherPassword: string)
    requires ValidateEmail(email, deps.isEmail).Ok? && PasswordRule(password) && PasswordRule(otherPassword)
    requires FindByEmail(users, NormalizeEmail(email)).None?
    requires var u := FindByEmail(other, NormalizeEmail(email));
             u.Some? && !deps.verifyPassword(otherPassword, u.value.passwordHash)
    ensures Login(deps, users, email, password) == Login(deps, other, email, otherPassword) == Err(BadCredentials)
  {
  }

  /** A password that breaks the policy is reported as such, whichever users exist. */
  lemma PolicyCheckedBeforeLookup(deps: Deps, users: UserStore, other: UserStore, email: string, password: string)
    requires ValidateEmail(email, deps.isEmail).Ok? && !PasswordRule(password)
    ensures Login(deps, users, email, password) == Login(deps, other, email, password)
    ensures Login(deps, users, email, password).Err? && Login(deps, users, email, password).error.status == 400
    ensures Register(deps, users, email, password, 0, true).Err?
    ensures Register(deps, users, email, password, 0, true).error.code == ValidationError
  {
  }

  /** A failed registration leaves the store as it was; a taken email is refused. */
  lemma RegisterRefusesTakenEmail(deps: Deps, users: UserStore, email: string, password: string, now: int, stored: bool)
    requires ValidateEmail(email, deps.isEmail).Ok? && PasswordRule(password)
    requires FindByEmail(users, NormalizeEmail(email)).Some?
    ensures Register(deps, users, email, password, now, stored) == Err(EmailTaken)
  {
  }

  /** Registering and then logging in with the same credentials succeeds for the new user. */
  lemma RegisterThenLogin(deps: Deps, users: UserStore, email: string, password: string, now: int)
    requires HasherSound(deps) && ValidUsers(users)
    requires Register(deps, users, email, password, now, true).Ok?
    ensures var (users', reg) := Register(deps, users, email, password, now, true).value;
            && Login(deps, users', email, password).Ok?
            && Login(deps, users', email, password).value.user == reg.user
            && Login(deps, users', email, password).value.user.email == NormalizeEmail(email)
  {
    var (users', reg) := Register(deps, users, email, password, now, true).value;
    var u := User(users.nextId, NormalizeEmail(email), deps.hash(password), UserRole, now);
    NewUserIsFoundByEmail(users, users', u);
    LoginSucceedsFor(deps, users', email, password, u);
  }

  lemma NewUserIsFoundByEmail(users: UserStore, users': UserStore, u: User)
    requires ValidUsers(users')
    requires users'.records == users.records + [u]
    ensures FindByEmail(users', u.email) == Some(u)
  {
    assert users'.records[|users.records|] == u;
    FindByEmailOfMember(users', |users.records|);
  }

  lemma LoginSucceedsFor(deps: Deps, users: UserStore, email: string, password: string, u: User)
    requires ValidateEmail(email, deps.isEmail).Ok? && PasswordRule(password)
    requires FindByEmail(users, NormalizeEmail(email)) == Some(u)
    requires deps.verifyPassword(password, u.passwordHash)
    ensures Login(deps, users, email, password).Ok?
    ensures Login(deps, users, email, password).value.user == ViewOf(u)
  {
  }

  /** With a faithful refresh signer, the refresh token issued at registration refreshes for the same user. */
  lemma RegisterThenRefresh(deps: Deps, users: UserStore, email: string, password: string, now: int)
    requires Faithful(deps.signer, Refresh) && ValidUsers(users)
    requires Register(deps, users, email, password, now, true).Ok?
    ensures var (users', reg) := Register(deps, users, email, password, now, true).value;
            var u := User(users.nextId, NormalizeEmail(email), deps.hash(password), UserRole, now);
            RefreshToken(deps, users', reg.refreshToken)
              == Ok(RefreshResult(TokensFor(deps, u).accessToken, TokensFor(deps, u).refreshToken))
  {
    var (users', reg) := Register(deps, users, email, password, now, true).value;
    var u := User(users.nextId, NormalizeEmail(email), deps.hash(password), UserRole, now);
    assert users'.records[|users.records|] == u;
    assert FindById(users, u.id).None?;
    FirstWithKeyOfLast(users.records, IdOf, u);
  }

  /** A subject without a user gets the generic refresh error, not the inner "User not found". */
  lemma RefreshHidesMissingUser(deps: Deps, users: UserStore, token: string)
    requires deps.signer.verify(Refresh, token).Verified?
    requires FindById(users, deps.signer.verify(Refresh, token).claims.sub).None?
    ensures RefreshAttempt(deps, users, token) == Err(RefreshUserMissing)
    ensures RefreshToken(deps, users, token) == Err(BadRefreshToken)
  {
  }

  /** Logging out revokes nothing: the same refresh token works exactly as before. */
  lemma LogoutDoesNotRevoke(deps: Deps, users: UserStore, token: string, other: string)
    ensures RefreshToken(deps, Logout(users, token), token) == RefreshToken(deps, users, token)
    ensures RefreshToken(deps, Logout(users, token), other) == RefreshToken(deps, users, other)
  {
  }

  /** The user view carries nothing of the password hash: users that differ only in it look the same. */
  lemma UserViewOmitsHash(u: User, hash: string)
    ensures ViewOf(u) == ViewOf(u.(passwordHash := hash))
  {
  }
}
