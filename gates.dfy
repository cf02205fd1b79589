/**
 * The request gates placed in front of the handlers: the API-key gate
 * (backend/middlewares/apiKeyAuth.js), the session-token gate
 * (backend/middlewares/authmiddleware.js) and the admin gate
 * (backend/middlewares/adminAuth.js). Each either denies the request with a
 * status and a message or lets it pass with the user it identified.
 */
module Gates {
  import opened Js
  import opened Http
  import opened ApiKeys
  import opened Accounts
  import opened Email

  datatype Gate = Deny(code: nat, message: string) | Pass(principal: User)

  /**
   * `jwt.verify(token, secret)`: the claims of a token that verifies under
   * the secret, `None` where the library throws.
   */
  type Verifier = (string, string) -> Option<Claims>

  function Block(e: Refusal): Gate {
    Deny(e.code, e.message)
  }

  const KeyRequired := Refusal(401, "API Key diperlukan di header x-api-key")
  const KeyUnknown := Refusal(403, "API Key tidak valid atau tidak terdaftar")
  const KeyRevoked := Refusal(403, "API Key ini telah dinonaktifkan oleh Admin")
  const ForeignKey := Refusal(403, "Akses ditolak. Anda tidak dapat menggunakan API Key milik user lain.")
  const TokenMissing := Refusal(401, "Token tidak ada")
  const TokenInvalid := Refusal(401, "Token tidak valid")
  const UserInvalid := Refusal(401, "User tidak valid")
  const AdminOnly := Refusal(403, "Akses ditolak. Admin saja.")

  // ---------------------------------------------------------------------
  // The API-key gate
  // ---------------------------------------------------------------------

  /**
   * The claims of the bearer token sent alongside an API key, if any: the
   * header must be non-empty and start with "Bearer ", and verification must
   * succeed. Without a configured secret the library throws, which the gate
   * swallows like any other verification failure.
   */
  function BearerClaims(env: Env, verify: Verifier, authHeader: Option<string>): (r: Option<Claims>)
    ensures r.Some? ==> Present(authHeader) && StartsWith(authHeader.value, "Bearer ") && Present(env.jwtSecret)
  {
    if Present(authHeader) && StartsWith(authHeader.value, "Bearer ") && Present(env.jwtSecret) then
      match SplitSecond(authHeader.value)
      case None => None
      case Some(token) => verify(env.jwtSecret.value, token)
    else None
  }

  /**
   * A header "Bearer <token>", possibly followed by further space-separated
   * words, sent under a configured secret yields exactly what verification
   * of the token gives.
   */
  lemma BearerTokenClaims(env: Env, verify: Verifier, token: string, rest: string)
    requires Present(env.jwtSecret) && ' ' !in token
    requires rest == [] || rest[0] == ' '
    ensures BearerClaims(env, verify, Some("Bearer " + token + rest)) == verify(env.jwtSecret.value, token)
  {
    assert "Bearer " == "Bearer" + " ";
    SplitSecondOf("Bearer", token, rest);
    assert "Bearer" + " " + token + rest == "Bearer " + token + rest;
    assert ("Bearer " + token + rest)[..7] == "Bearer ";
  }

  /** The conditions under which the API-key gate lets a request through, as one statement. */
  predicate KeyAdmits(env: Env, re: RegexEngine, users: map<int, User>, key: string, claims: Option<Claims>) {
    && key != []
    && ValidateApiKeyFormat(env, re, Str(key)).FormatOk?
    && exists id :: id in users && users[id].apiKey == Some(key) && users[id].apiKeyStatus
                    && (claims.Some? ==> claims.value.id == users[id].id)
  }

  /** `apiKeyAuth`. */
  function ApiKeyGate(env: Env, re: RegexEngine, verify: Verifier, users: map<int, User>,
                      apiKeyHeader: Option<string>, authHeader: Option<string>): (r: Gate)
    requires ApiKeysUnique(users)
    ensures !Present(apiKeyHeader) ==> r == Block(KeyRequired)
    ensures Present(apiKeyHeader) && ValidateApiKeyFormat(env, re, Str(apiKeyHeader.value)).FormatError? ==>
            r == Deny(400, ValidateApiKeyFormat(env, re, Str(apiKeyHeader.value)).message)
    ensures Present(apiKeyHeader) && ValidateApiKeyFormat(env, re, Str(apiKeyHeader.value)).FormatOk?
            && !(exists id :: id in users && users[id].apiKey == apiKeyHeader)
            ==> r == Block(KeyUnknown)
    ensures r.Pass? <==> Present(apiKeyHeader) && KeyAdmits(env, re, users, apiKeyHeader.value, BearerClaims(env, verify, authHeader))
    ensures r.Pass? ==> r.principal in users.Values && r.principal.apiKey == apiKeyHeader
                        && r.principal.apiKeyStatus
  {
    if !Present(apiKeyHeader) then Block(KeyRequired)
    else
      var key := apiKeyHeader.value;
      var check := ValidateApiKeyFormat(env, re, Str(key));
      if check.FormatError? then Deny(400, check.message)
      else
        match FindByApiKey(users, key)
        case None => Block(KeyUnknown)
        case Some(u) =>
          if !u.apiKeyStatus then Block(KeyRevoked)
          else
            var claims := BearerClaims(env, verify, authHeader);
            if claims.Some? && claims.value.id != u.id then Block(ForeignKey)
            else Pass(u)
  }

  /** A registered but disabled key is refused with 403, whatever else the request carries. */
  lemma DisabledKeyRefused(env: Env, re: RegexEngine, verify: Verifier, users: map<int, User>,
                           id: int, authHeader: Option<string>)
    requires WellFormed(users) && id in users
    requires users[id].apiKey.Some? && users[id].apiKey.value != [] && !users[id].apiKeyStatus
    requires ValidateApiKeyFormat(env, re, Str(users[id].apiKey.value)).FormatOk?
    ensures ApiKeyGate(env, re, verify, users, users[id].apiKey, authHeader) == Block(KeyRevoked)
  {
    var key := users[id].apiKey.value;
    assert FindByApiKey(users, key) == Some(users[id]);
  }

  /** A bearer token that verifies for a different user than the key's owner is refused with 403. */
  lemma ForeignKeyRefused(env: Env, re: RegexEngine, verify: Verifier, users: map<int, User>,
                          id: int, authHeader: Option<string>)
    requires WellFormed(users) && id in users
    requires users[id].apiKey.Some? && users[id].apiKey.value != [] && users[id].apiKeyStatus
    requires ValidateApiKeyFormat(env, re, Str(users[id].apiKey.value)).FormatOk?
    requires BearerClaims(env, verify, authHeader).Some? && BearerClaims(env, verify, authHeader).value.id != id
    ensures ApiKeyGate(env, re, verify, users, users[id].apiKey, authHeader) == Block(ForeignKey)
  {
    var key := users[id].apiKey.value;
    assert FindByApiKey(users, key) == Some(users[id]);
  }

  /**
   * A token that does not verify, an authorization header without the
   * "Bearer " scheme, or a missing secret all leave the gate deciding as if
   * no authorization header had been sent.
   */
  lemma UnverifiedBearerIgnored(env: Env, re: RegexEngine, verify: Verifier, users: map<int, User>,
                                apiKeyHeader: Option<string>, authHeader: Option<string>)
    requires ApiKeysUnique(users)
    requires BearerClaims(env, verify, authHeader).None?
    ensures ApiKeyGate(env, re, verify, users, apiKeyHeader, authHeader)
         == ApiKeyGate(env, re, verify, users, apiKeyHeader, None)
  {
  }

  // ---------------------------------------------------------------------
  // The session-token gate
  // ---------------------------------------------------------------------

  /**
   * `authMiddleware`. The token is the second space-separated word of the
   * header; the first word is not inspected.
   */
  function SessionGate(env: Env, verify: Verifier, users: map<int, User>, authHeader: Option<string>): (r: Gate)
    ensures !Present(env.jwtSecret) ==> r == Block(SecretMissing)
    ensures Present(env.jwtSecret) && !Present(authHeader) ==> r == Block(TokenMissing)
    ensures r.Pass? <==>
            && Present(env.jwtSecret) && Present(authHeader)
            && SplitSecond(authHeader.value).Some?
            && verify(env.jwtSecret.value, SplitSecond(authHeader.value).value).Some?
            && verify(env.jwtSecret.value, SplitSecond(authHeader.value).value).value.id in users
    ensures r.Pass? ==> r.principal == users[verify(env.jwtSecret.value, SplitSecond(authHeader.value).value).value.id]
    ensures Present(env.jwtSecret) && Present(authHeader)
            && (SplitSecond(authHeader.value).None? || verify(env.jwtSecret.value, SplitSecond(authHeader.value).value).None?)
            ==> r == Block(TokenInvalid)
    ensures Present(env.jwtSecret) && Present(authHeader) && SplitSecond(authHeader.value).Some?
            && verify(env.jwtSecret.value, SplitSecond(authHeader.value).value).Some?
            && verify(env.jwtSecret.value, SplitSecond(authHeader.value).value).value.id !in users
            ==> r == Block(UserInvalid)
    ensures r.Deny? ==> (r.code == 500 <==> !Present(env.jwtSecret)) && r.code in {401, 500}
  {
    if !Present(env.jwtSecret) then Block(SecretMissing)
    else if !Present(authHeader) then Block(TokenMissing)
    else
      match SplitSecond(authHeader.value)
      case None => Block(TokenInvalid)
      case Some(token) =>
        match verify(env.jwtSecret.value, token)
        case None => Block(TokenInvalid)
        case Some(claims) =>
          if claims.id !in users then Block(UserInvalid) else Pass(users[claims.id])
  }

  /**
   * The gate does not look at the scheme word, nor at anything after the
   * token: any first word and any trailing words give the same verdict,
   * which is the verdict for the token alone.
   */
  lemma SchemeNotChecked(env: Env, verify: Verifier, users: map<int, User>, w1: string, w2: string, token: string,
                         rest: string)
    requires ' ' !in w1 && ' ' !in w2 && ' ' !in token
    requires rest == [] || rest[0] == ' '
    ensures SessionGate(env, verify, users, Some(w1 + " " + token + rest))
         == SessionGate(env, verify, users, Some(w2 + " " + token))
  {
    SplitSecondOf(w1, token, rest);
    SplitSecondOf(w2, token, []);
    assert w2 + " " + token + [] == w2 + " " + token;
  }

  /**
   * A token issued by `login` opens the session gate for the same user, as
   * long as the signing library verifies what it signed and its tokens
   * contain no spaces.
   */
  lemma LoginOpensSession(env: Env, users: map<int, User>, email: Value, password: Value,
                          hashMatches: (string, string) -> bool, sign: Claims -> string, verify: Verifier)
    requires WellFormed(users)
    requires Login(env, users, email, password, hashMatches, sign).Done?
    requires forall c :: verify(env.jwtSecret.value, sign(c)) == Some(c)
    requires forall c :: ' ' !in sign(c)
    ensures var u := FindByEmail(users, NormalizeEmail(email)).value;
            var token := Login(env, users, email, password, hashMatches, sign).value.token;
            SessionGate(env, verify, users, Some("Bearer " + token)) == Pass(u)
  {
    var u := FindByEmail(users, NormalizeEmail(email)).value;
    var token := Login(env, users, email, password, hashMatches, sign).value.token;
    assert u in users.Values && token == sign(Claims(u.id, u.role, u.name));
    var id :| id in users && users[id] == u;
    BearerOpens(env, verify, users, Claims(u.id, u.role, u.name), token);
  }

  /** A header "Bearer <token>" opens the gate for the user named by the token's verified claims. */
  lemma BearerOpens(env: Env, verify: Verifier, users: map<int, User>, c: Claims, token: string)
    requires Present(env.jwtSecret) && ' ' !in token
    requires verify(env.jwtSecret.value, token) == Some(c) && c.id in users
    ensures SessionGate(env, verify, users, Some("Bearer " + token)) == Pass(users[c.id])
  {
    assert "Bearer " == "Bearer" + " ";
    SplitSecondOf("Bearer", token, []);
    assert "Bearer" + " " + token + [] == "Bearer " + token;
  }

  // ---------------------------------------------------------------------
  // The admin gate
  // ---------------------------------------------------------------------

  /** `adminAuth`: only the role decides. */
  function AdminGate(principal: User): (r: Gate)
    ensures r.Pass? <==> principal.role == Admin
    ensures r.Pass? ==> r.principal == principal
    ensures r.Deny? ==> r == Block(AdminOnly)
  {
    if principal.role != Admin then Block(AdminOnly) else Pass(principal)
  }

  /** A session that reaches an admin-only handler belongs to an admin row of the table. */
  lemma AdminChainSound(env: Env, verify: Verifier, users: map<int, User>, authHeader: Option<string>)
    requires SessionGate(env, verify, users, authHeader).Pass?
    requires AdminGate(SessionGate(env, verify, users, authHeader).principal).Pass?
    ensures exists id :: id in users && users[id] == SessionGate(env, verify, users, authHeader).principal
                         && users[id].role == Admin
  {
    var p := SessionGate(env, verify, users, authHeader).principal;
    var id := verify(env.jwtSecret.value, SplitSecond(authHeader.value).value).value.id;
    assert users[id] == p;
  }
}
