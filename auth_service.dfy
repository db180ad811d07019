/** The seeded user store and the login decision (internal/service/auth/auth_service.go).
    Signing tokens happens in a package that is not part of this model, so the token
    generator is a parameter: any function from (secret, user id, email, ttl) to a token
    or to an error (None). */
module AuthService {
  import opened Wrappers
  import opened Types
  import opened AuthDomain

  /** A `time.Duration`: a signed count of nanoseconds. */
  type Duration = int

  const Second: Duration := 1_000_000_000
  const Minute: Duration := 60 * Second

  /** The JWT part of `config.Config`. */
  datatype JwtConfig = JwtConfig(secretKey: string, accessTokenTtl: Duration, refreshTokenTtl: Duration)

  /** `utils.GenerateToken(secret, userID, email, ttl)`; None is a returned error. */
  type TokenGenerator = (string, Uuid, string, Duration) -> Option<string>

  /** `auth.TokenResponse`. */
  datatype TokenResponse = TokenResponse(accessToken: string, refreshToken: string, tokenType: string, expiresIn: int)

  const ErrInvalidCredentials := "invalid email or password"
  const ErrUserNotFound := "user not found"
  const ErrAccessToken := "failed to generate access token"
  const ErrRefreshToken := "failed to generate refresh token"

  const JohnEmail := "john.doe@example.com"
  const JaneEmail := "jane.smith@example.com"
  const MikeEmail := "mike.wilson@example.com"
  /** 3484ec33-20f9-4993-a25f-f49f6f5dbe54, 550e8400-e29b-41d4-a716-446655440002 and
      550e8400-e29b-41d4-a716-446655440003. */
  const JohnId: Uuid := 0x3484ec33_20f9_4993_a25f_f49f6f5dbe54
  const JaneId: Uuid := 0x550e8400_e29b_41d4_a716_446655440002
  const MikeId: Uuid := 0x550e8400_e29b_41d4_a716_446655440003
  const SeedPassword := "password123"

  /** `int64(d.Seconds())`: whole seconds, the fraction dropped toward zero. */
  function WholeSeconds(d: Duration): (s: int)
    ensures d >= 0 ==> s * Second <= d < (s + 1) * Second
    ensures d < 0 ==> -s * Second <= -d < (-s + 1) * Second
  {
    if d >= 0 then d / Second else -((-d) / Second)
  }

  /** The default access-token lifetime of 15 minutes is announced as 900 seconds. */
  lemma FifteenMinutesIs900Seconds()
    ensures WholeSeconds(15 * Minute) == 900
  {
  }

  class Service {
    const config: JwtConfig
    var users: map<string, User>

    /** Each user is stored under its own email address. */
    ghost predicate Valid()
      reads this
    {
      forall e :: e in users ==> users[e].email == e
    }

    /** `NewService(cfg)` with `now` as the value of `time.Now()`: exactly the three
        fixed users, each with password "password123". */
    constructor (cfg: JwtConfig, now: Clock)
      ensures Valid() && config == cfg
      ensures users.Keys == {JohnEmail, JaneEmail, MikeEmail}
      ensures users[JohnEmail] == User(JohnId, JohnEmail, SeedPassword, now, now)
      ensures users[JaneEmail] == User(JaneId, JaneEmail, SeedPassword, now, now)
      ensures users[MikeEmail] == User(MikeId, MikeEmail, SeedPassword, now, now)
    {
      config := cfg;
      var m: map<string, User> := map[];
      var user1 := User(JohnId, JohnEmail, SeedPassword, now, now);
      m := m[JohnEmail := user1];
      var user2 := User(JaneId, JaneEmail, SeedPassword, now, now);
      m := m[JaneEmail := user2];
      var user3 := User(MikeId, MikeEmail, SeedPassword, now, now);
      m := m[MikeEmail := user3];
      users := m;
    }

    /** `GetUserByEmail`: an exact-key lookup; absent keys give "user not found". */
    function GetUserByEmail(email: string): (r: Result<User>)
      reads this
      requires Valid()
      ensures r.Success? <==> email in users
      ensures r.Success? ==> r.value == users[email] && r.value.email == email
      ensures r.Failure? ==> r.error == ErrUserNotFound
    {
      if email in users then Success(users[email]) else Failure(ErrUserNotFound)
    }

    /** `Login`: validation first, then the lookup by exact email, then the password
        comparison; an unknown email and a wrong password fail alike. Tokens come from
        `gen`, the access token with the access lifetime and the refresh token with the
        refresh lifetime. */
    function Login(req: LoginRequest, gen: TokenGenerator): (r: Result<TokenResponse>)
      reads this
      ensures req.Validate().Fail? ==> r == Failure(req.Validate().error)
      ensures req.Validate().Pass? && req.email !in users ==> r == Failure(ErrInvalidCredentials)
      ensures req.Validate().Pass? && req.email in users && users[req.email].password != req.password ==> r == Failure(ErrInvalidCredentials)
      ensures req.Validate().Pass? && req.email in users && users[req.email].password == req.password ==>
                var u := users[req.email];
                var access := gen(config.secretKey, u.id, u.email, config.accessTokenTtl);
                var refresh := gen(config.secretKey, u.id, u.email, config.refreshTokenTtl);
                && (access.None? ==> r == Failure(ErrAccessToken))
                && (access.Some? && refresh.None? ==> r == Failure(ErrRefreshToken))
                && (access.Some? && refresh.Some? ==> r.Success?)
      ensures r.Success? ==> req.Validate().Pass? && req.email in users && users[req.email].password == req.password
      ensures r.Success? ==> var u := users[req.email];
                && Some(r.value.accessToken) == gen(config.secretKey, u.id, u.email, config.accessTokenTtl)
                && Some(r.value.refreshToken) == gen(config.secretKey, u.id, u.email, config.refreshTokenTtl)
                && r.value.tokenType == "Bearer"
                && r.value.expiresIn == WholeSeconds(config.accessTokenTtl)
    {
      match req.Validate()
      case Fail(e) => Failure(e)
      case Pass =>
        if req.email !in users then Failure(ErrInvalidCredentials)
        else
          var user := users[req.email];
          if user.password != req.password then Failure(ErrInvalidCredentials)
          else
            match gen(config.secretKey, user.id, user.email, config.accessTokenTtl)
            case None => Failure(ErrAccessToken)
            case Some(accessToken) =>
              match gen(config.secretKey, user.id, user.email, config.refreshTokenTtl)
              case None => Failure(ErrRefreshToken)
              case Some(refreshToken) =>
                Success(TokenResponse(accessToken, refreshToken, "Bearer", WholeSeconds(config.accessTokenTtl)))
    }

    /** A caller cannot tell an unknown email from a wrong password: for a valid request
        that does not authenticate, both give the same error. */
    lemma UnknownEmailLikeWrongPassword(unknown: LoginRequest, wrong: LoginRequest, gen: TokenGenerator)
      requires unknown.Validate().Pass? && unknown.email !in users
      requires wrong.Validate().Pass? && wrong.email in users && users[wrong.email].password != wrong.password
      ensures Login(unknown, gen) == Login(wrong, gen) == Failure(ErrInvalidCredentials)
    {
    }
  }
}
