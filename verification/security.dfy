/** Token issue and verification of backend/app/core/security.py (`SecurityManager`) and the
    stand-alone access check `check_user_access`. JWT signing is an abstract codec whose only
    assumed law is that decoding an encoded payload gives the payload back; the expiry check that
    python-jose performs while decoding is written out here against an explicit clock. */
module Security {
  import opened Wrappers
  import opened Text
  import opened Schemas
  import Validators

  /** The JWT payload fields the core writes or reads; a field absent from the payload is None. */
  datatype Claims = Claims(
    sub: Option<string>,
    email: Option<string>,
    accessLevel: Option<string>,
    exp: Option<int>,
    kind: Option<string>)

  /** `jwt.encode` / `jwt.decode` with the configured secret and algorithm. Decoding yields None
      for a malformed token or a bad signature. */
  datatype Codec = Codec(encode: Claims -> string, decode: string -> Option<Claims>)

  /** The one law assumed of the signing library. */
  ghost predicate RoundTrips(codec: Codec) {
    forall c :: codec.decode(codec.encode(c)) == Some(c)
  }

  /** The token lifetimes of `SecurityManager.__init__`. Times are whole seconds since the epoch. */
  datatype SecurityConfig = SecurityConfig(accessTokenExpireMinutes: int, refreshTokenExpireDays: int)

  function AccessLifetime(cfg: SecurityConfig): int {
    cfg.accessTokenExpireMinutes * 60
  }

  function RefreshLifetime(cfg: SecurityConfig): int {
    cfg.refreshTokenExpireDays * 86400
  }

  const AccessKind: string := "access"
  const RefreshKind: string := "refresh"

  /** The `token_data` dictionary of `create_tokens`: identity claims only. */
  function TokenData(userId: int, email: string, accessLevel: string): Claims {
    Claims(Some(IntToString(userId)), Some(email), Some(accessLevel), None, None)
  }

  /** `create_access_token`: a copy of the claims with "exp" and "type" set, then encoded. */
  function CreateAccessToken(cfg: SecurityConfig, codec: Codec, data: Claims, now: int): string {
    codec.encode(data.(exp := Some(now + AccessLifetime(cfg)), kind := Some(AccessKind)))
  }

  /** `create_refresh_token`. */
  function CreateRefreshToken(cfg: SecurityConfig, codec: Codec, data: Claims, now: int): string {
    codec.encode(data.(exp := Some(now + RefreshLifetime(cfg)), kind := Some(RefreshKind)))
  }

  /** The dictionary returned by `create_tokens`. */
  datatype TokenPair = TokenPair(accessToken: string, refreshToken: string, tokenType: string, expiresIn: int)

  /** `create_tokens`. */
  function CreateTokens(cfg: SecurityConfig, codec: Codec, userId: int, email: string, accessLevel: string, now: int)
    : TokenPair
  {
    var data := TokenData(userId, email, accessLevel);
    TokenPair(
      CreateAccessToken(cfg, codec, data, now),
      CreateRefreshToken(cfg, codec, data, now),
      "bearer",
      AccessLifetime(cfg))
  }

  /** The single error every decoding failure is reported as. */
  const CredentialsError: HttpError := HttpError(Unauthorized, "Could not validate credentials")

  /** python-jose rejects a token whose "exp" lies before the current second. */
  predicate Expired(c: Claims, now: int) {
    c.exp.Some? && c.exp.value < now
  }

  /** `decode_token`: any failure of the library becomes the one 401 error. */
  function DecodeToken(codec: Codec, token: string, now: int): Result<Claims, HttpError> {
    match codec.decode(token)
    case None => Failure(CredentialsError)
    case Some(c) => if Expired(c, now) then Failure(CredentialsError) else Success(c)
  }

  /** `UserInToken`. */
  datatype UserInToken = UserInToken(userId: int, email: string, accessLevel: string)

  /** What `verify_token` raises: an HTTPException, or the ValueError of `int(user_id)`. */
  datatype TokenFailure = Rejected(error: HttpError) | SubjectNotInteger

  /** Python truthiness of an optional string claim. */
  predicate Truthy(v: Option<string>) {
    v.Some? && v.value != ""
  }

  /** `verify_token`. */
  function VerifyToken(codec: Codec, token: string, tokenType: string, now: int): Result<UserInToken, TokenFailure> {
    match DecodeToken(codec, token, now)
    case Failure(e) => Failure(Rejected(e))
    case Success(c) =>
      if c.kind != Some(tokenType) then
        Failure(Rejected(HttpError(Unauthorized, "Invalid token type. Expected " + tokenType)))
      else if !(Truthy(c.sub) && Truthy(c.email) && Truthy(c.accessLevel)) then
        Failure(Rejected(HttpError(Unauthorized, "Invalid token payload")))
      else
        match ParseInt(c.sub.value)
        case None => Failure(SubjectNotInteger)
        case Some(id) => Success(UserInToken(id, c.email.value, c.accessLevel.value))
  }

  /** `verify_access_token`. */
  function VerifyAccessToken(codec: Codec, token: string, now: int): Result<UserInToken, TokenFailure> {
    VerifyToken(codec, token, AccessKind, now)
  }

  /** `verify_refresh_token`. */
  function VerifyRefreshToken(codec: Codec, token: string, now: int): Result<UserInToken, TokenFailure> {
    VerifyToken(codec, token, RefreshKind, now)
  }

  /** `check_user_access`: exact, case-sensitive comparison. */
  function CheckUserAccess(userAccess: string, requiredSpecies: string): bool {
    if userAccess == "all" then true
    else if userAccess == requiredSpecies then true
    else false
  }

  // ================================================================ properties

  /** Both tokens carry the same identity claims {sub = str(user_id), email, access_level};
      they differ only in "type" and "exp"; the pair is a bearer pair whose expires_in is the
      access lifetime in seconds. */
  lemma CreateTokensClaims(cfg: SecurityConfig, codec: Codec, userId: int, email: string, accessLevel: string, now: int)
    requires RoundTrips(codec)
    ensures var pair := CreateTokens(cfg, codec, userId, email, accessLevel, now);
      && codec.decode(pair.accessToken) ==
         Some(Claims(Some(IntToString(userId)), Some(email), Some(accessLevel), Some(now + AccessLifetime(cfg)), Some("access")))
      && codec.decode(pair.refreshToken) ==
         Some(Claims(Some(IntToString(userId)), Some(email), Some(accessLevel), Some(now + RefreshLifetime(cfg)), Some("refresh")))
      && pair.tokenType == "bearer"
      && pair.expiresIn == cfg.accessTokenExpireMinutes * 60
  {
  }

  /** Every failure to decode, whether a bad signature, a malformed token or an expired one,
      is the same 401 "Could not validate credentials". */
  lemma DecodeFailuresAreUniform(codec: Codec, token: string, now: int)
    ensures DecodeToken(codec, token, now).Failure? ==> DecodeToken(codec, token, now).error == CredentialsError
    ensures DecodeToken(codec, token, now).Failure? <==>
      codec.decode(token).None? || Expired(codec.decode(token).value, now)
  {
  }

  /** A token verifies only as the kind written in its "type" claim, and only when its three
      identity claims are present and non-empty. */
  lemma VerifiedTokensHaveKindAndIdentity(codec: Codec, token: string, tokenType: string, now: int)
    ensures VerifyToken(codec, token, tokenType, now).Success? ==>
      var c := DecodeToken(codec, token, now).value;
      DecodeToken(codec, token, now).Success? && c.kind == Some(tokenType) &&
      Truthy(c.sub) && Truthy(c.email) && Truthy(c.accessLevel)
  {
  }

  /** An access token never verifies as a refresh token, and a refresh token never verifies as
      an access token. */
  lemma TokenKindsAreSeparate(cfg: SecurityConfig, codec: Codec, userId: int, email: string, accessLevel: string, now: int, t: int)
    requires RoundTrips(codec)
    ensures var pair := CreateTokens(cfg, codec, userId, email, accessLevel, now);
      VerifyRefreshToken(codec, pair.accessToken, t).Failure? &&
      VerifyAccessToken(codec, pair.refreshToken, t).Failure?
  {
    CreateTokensClaims(cfg, codec, userId, email, accessLevel, now);
  }

  /** Until its expiry, a freshly issued access token verifies to exactly the identity it was
      issued for; so does the refresh token as a refresh token. */
  lemma CreateThenVerifyRoundTrip(cfg: SecurityConfig, codec: Codec, userId: int, email: string, accessLevel: string, now: int, t: int)
    requires RoundTrips(codec)
    requires email != "" && accessLevel != ""
    ensures t <= now + AccessLifetime(cfg) ==>
      VerifyAccessToken(codec, CreateTokens(cfg, codec, userId, email, accessLevel, now).accessToken, t) ==
      Success(UserInToken(userId, email, accessLevel))
    ensures t <= now + RefreshLifetime(cfg) ==>
      VerifyRefreshToken(codec, CreateTokens(cfg, codec, userId, email, accessLevel, now).refreshToken, t) ==
      Success(UserInToken(userId, email, accessLevel))
  {
    var pair := CreateTokens(cfg, codec, userId, email, accessLevel, now);
    var sub := IntToString(userId);
    CreateTokensClaims(cfg, codec, userId, email, accessLevel, now);
    IntToStringRoundTrip(userId);
    assert sub != "" by {
      if userId >= 0 { NatToStringDigits(userId); }
    }
    if t <= now + AccessLifetime(cfg) {
      VerifyOfClaims(codec, pair.accessToken, AccessKind, t,
        Claims(Some(sub), Some(email), Some(accessLevel), Some(now + AccessLifetime(cfg)), Some(AccessKind)), userId);
    }
    if t <= now + RefreshLifetime(cfg) {
      VerifyOfClaims(codec, pair.refreshToken, RefreshKind, t,
        Claims(Some(sub), Some(email), Some(accessLevel), Some(now + RefreshLifetime(cfg)), Some(RefreshKind)), userId);
    }
  }

  /** A token that decodes, unexpired, to claims of the requested kind with truthy identity claims
      and an integer subject verifies to that identity. */
  lemma VerifyOfClaims(codec: Codec, token: string, tokenType: string, now: int, c: Claims, id: int)
    requires codec.decode(token) == Some(c) && !Expired(c, now) && c.kind == Some(tokenType)
    requires Truthy(c.sub) && Truthy(c.email) && Truthy(c.accessLevel)
    requires ParseInt(c.sub.value) == Some(id)
    ensures VerifyToken(codec, token, tokenType, now) == Success(UserInToken(id, c.email.value, c.accessLevel.value))
  {
  }

  /** After its expiry an access token is rejected with the uniform credentials error. */
  lemma ExpiredAccessTokenRejected(cfg: SecurityConfig, codec: Codec, userId: int, email: string, accessLevel: string, now: int, t: int)
    requires RoundTrips(codec)
    requires t > now + AccessLifetime(cfg)
    ensures VerifyAccessToken(codec, CreateTokens(cfg, codec, userId, email, accessLevel, now).accessToken, t) ==
      Failure(Rejected(CredentialsError))
  {
    CreateTokensClaims(cfg, codec, userId, email, accessLevel, now);
  }

  /** Illustration of `CreateThenVerifyRoundTrip` and `ExpiredAccessTokenRejected` with the
      configured 30-minute access lifetime: a token issued at `now` verifies five minutes later and
      is rejected thirty-one minutes later. */
  lemma ThirtyMinuteAccessWindow(codec: Codec, userId: int, email: string, accessLevel: string, now: int)
    requires RoundTrips(codec)
    requires email != "" && accessLevel != ""
    ensures var cfg := SecurityConfig(30, 7);
      var token := CreateTokens(cfg, codec, userId, email, accessLevel, now).accessToken;
      VerifyAccessToken(codec, token, now + 5 * 60).Success? &&
      VerifyAccessToken(codec, token, now + 31 * 60).Failure?
  {
    var cfg := SecurityConfig(30, 7);
    CreateThenVerifyRoundTrip(cfg, codec, userId, email, accessLevel, now, now + 5 * 60);
    ExpiredAccessTokenRejected(cfg, codec, userId, email, accessLevel, now, now + 31 * 60);
  }

  /** `check_user_access` grants iff the access level is exactly "all" or exactly the requested
      species; it is stricter than the case-insensitive `validate_species_access`. */
  lemma CheckUserAccessIsExactMatch(userAccess: string, required: string)
    ensures CheckUserAccess(userAccess, required) <==> userAccess == "all" || userAccess == required
    ensures CheckUserAccess(userAccess, required) ==> Validators.ValidateSpeciesAccess(userAccess, required)
  {
  }

  /** The two access checks disagree exactly on case: they differ iff the names are different
      strings that are equal ignoring case, and then only the validator's check grants access. */
  lemma AccessChecksDifferOnCase(userAccess: string, requested: string)
    ensures Validators.ValidateSpeciesAccess(userAccess, requested) != CheckUserAccess(userAccess, requested) <==>
      userAccess != "all" && userAccess != requested && Lower(userAccess) == Lower(requested)
  {
  }

  /** Illustration of `AccessChecksDifferOnCase`: "Setosa" may read "setosa" under one check and
      not the other. */
  lemma AccessChecksDifferOnSetosa()
    ensures Validators.ValidateSpeciesAccess("Setosa", "setosa")
    ensures !CheckUserAccess("Setosa", "setosa")
  {
    assert Lower("Setosa") == "setosa";
    assert Lower("setosa") == "setosa";
  }
}
