/**
 * `AuthController::me`, the "who am I" endpoint: it maps a request's
 * bearer credential (simplified mode) or the user that the identity
 * middleware attached to the request (federated mode) to a 200 payload,
 * a 401 (no credential) or a 403 (no such user, or an inactive one).
 *
 * The request, the environment flag, the user table and PHP's
 * `base64_decode` are inputs of `Me`:
 *   - `mode` is the value of the `KEYCLOAK_ENABLED` flag;
 *   - `bearer` is `$request->bearerToken()`, None for PHP `null`;
 *   - `attributeUser` is the request attribute `user`;
 *   - `store` is the user table, in the order `first()` meets its rows;
 *   - `decode` stands for `base64_decode`, None for a `false` result.
 *
 * A PHP string is a Dafny string whose characters are all below 256, one
 * character per byte; emails are compared byte by byte.
 */
module AuthController {
  import opened Wrappers
  import PhpStrings
  import Base64

  /** Federated when `KEYCLOAK_ENABLED` is truthy, simplified otherwise. */
  datatype Mode = Federated | Simplified

  /** A row of the user table, with the fields the endpoint reads. */
  datatype User = User(
    id: int,
    name: string,
    nome: Option<string>,
    email: string,
    funcao: Option<string>,
    permissao: Option<string>,
    status: int)

  /** The JSON body of a 200 answer; None is JSON `null`. */
  datatype Payload = Payload(
    id: int,
    name: string,
    nome: Option<string>,
    email: string,
    role: Option<string>,
    acesso: Option<string>)

  /** A JSON answer: 200 with a payload, or an HTTP error code with an `error` message. */
  datatype Response = Ok(payload: Payload) | Err(code: int, message: string)

  /** The error messages, as the UTF-8 bytes of the source text (`ã` is C3 A3, `á` is C3 A1). */
  const MISSING_TOKEN_MESSAGE := "Token n\U{c3}\U{a3}o fornecido"
  const UNAUTHORIZED_MESSAGE := "Usu\U{c3}\U{a1}rio n\U{c3}\U{a3}o autorizado ou inativo"

  /** The HTTP status of an answer. */
  function StatusCode(r: Response): int
  {
    if r.Ok? then 200 else r.code
  }

  /** PHP truthiness of a nullable string: `null`, `""` and `"0"` are falsy. */
  predicate Truthy(token: Option<string>)
  {
    token.Some? && token.value != "" && token.value != "0"
  }

  /**
   * The string that `explode` receives: the decoded token, or `""` when the
   * decoder returns `false` (PHP coerces `false` to the empty string). The
   * non-strict `base64_decode` call of the endpoint never fails, so the `""`
   * case is reached only with a failing decoder such as the strict one in
   * module Base64.
   */
  function DecodedToken(token: string, decode: string -> Option<string>): string
  {
    match decode(token)
    case None => ""
    case Some(d) => d
  }

  /** The identity claim, `explode(':', $decoded)[0]`. */
  function Claim(token: string, decode: string -> Option<string>): string
  {
    PhpStrings.FirstPiece(':', DecodedToken(token, decode))
  }

  /** The position of the first user whose email equals `email`, if any. */
  function FirstIndexByEmail(store: seq<User>, email: string): (r: Option<nat>)
    ensures r.Some? ==> r.value < |store| && store[r.value].email == email
    ensures r.Some? ==> forall j :: 0 <= j < r.value ==> store[j].email != email
    ensures r.None? <==> forall j :: 0 <= j < |store| ==> store[j].email != email
    decreases |store|
  {
    if |store| == 0 then None
    else if store[0].email == email then Some(0)
    else
      match FirstIndexByEmail(store[1..], email)
      case None => None
      case Some(i) => Some(i + 1)
  }

  /** `User::where('email', $email)->first()`. */
  function FindByEmail(store: seq<User>, email: string): (r: Option<User>)
    ensures r.Some? ==> r.value in store && r.value.email == email
    ensures r.None? <==> forall u :: u in store ==> u.email != email
  {
    match FirstIndexByEmail(store, email)
    case None => None
    case Some(i) => Some(store[i])
  }

  /** The success body: `nome ?? null` etc. keep an absent field absent. */
  function Project(u: User): Payload
  {
    Payload(u.id, u.name, u.nome, u.email, u.funcao, u.permissao)
  }

  /** The status gate shared by both modes. */
  function Authorize(user: Option<User>): (r: Response)
    ensures r.Ok? <==> user.Some? && user.value.status == 1
    ensures r.Err? ==> r == Err(403, UNAUTHORIZED_MESSAGE)
  {
    if user.None? || user.value.status != 1 then Err(403, UNAUTHORIZED_MESSAGE)
    else Ok(Project(user.value))
  }

  /** `AuthController::me`. */
  function Me(
    mode: Mode,
    bearer: Option<string>,
    attributeUser: Option<User>,
    store: seq<User>,
    decode: string -> Option<string>): (r: Response)
    ensures StatusCode(r) == 200 || StatusCode(r) == 401 || StatusCode(r) == 403
    ensures StatusCode(r) == 200 <==> r.Ok?
    ensures StatusCode(r) == 401 <==> mode == Simplified && !Truthy(bearer)
  {
    match mode
    case Federated =>
      Authorize(attributeUser)
    case Simplified =>
      if !Truthy(bearer) then Err(401, MISSING_TOKEN_MESSAGE)
      else Authorize(FindByEmail(store, Claim(bearer.value, decode)))
  }

  /** The user the endpoint settles on, when it gets as far as the status gate. */
  function ResolvedUser(
    mode: Mode,
    bearer: Option<string>,
    attributeUser: Option<User>,
    store: seq<User>,
    decode: string -> Option<string>): Option<User>
    requires mode == Simplified ==> Truthy(bearer)
  {
    if mode == Federated then attributeUser
    else FindByEmail(store, Claim(bearer.value, decode))
  }

  // ---------------------------------------------------------------------
  // Properties

  /**
   * In simplified mode a missing, empty or `"0"` token is answered 401,
   * whatever the attached user, the user table and the decoder are.
   */
  lemma MissingTokenIsUnauthenticated(
    bearer: Option<string>,
    attributeUser: Option<User>, store: seq<User>, decode: string -> Option<string>,
    attributeUser': Option<User>, store': seq<User>, decode': string -> Option<string>)
    requires !Truthy(bearer)
    ensures Me(Simplified, bearer, attributeUser, store, decode) == Err(401, MISSING_TOKEN_MESSAGE)
    ensures Me(Simplified, bearer, attributeUser, store, decode)
         == Me(Simplified, bearer, attributeUser', store', decode')
  {
  }

  /**
   * The claim is a prefix of the decoded token without `:`, ending at the
   * first `:` or at the end; it is the whole decoded token when that has
   * no `:`.
   */
  lemma ClaimIsTextBeforeFirstColon(token: string, decode: string -> Option<string>)
    ensures var d, c := DecodedToken(token, decode), Claim(token, decode);
      && c <= d
      && ':' !in c
      && (|c| == |d| || d[|c|] == ':')
      && (':' !in d ==> c == d)
  {
  }

  /** `"a@x.com:secret"` yields the claim `"a@x.com"`. */
  lemma ClaimOfEmailAndSecret(token: string, decode: string -> Option<string>)
    requires decode(token) == Some("a@x.com:secret")
    ensures Claim(token, decode) == "a@x.com"
  {
    assert "a@x.com:secret" == "a@x.com" + [':'] + "secret";
    PhpStrings.FirstPieceBeforeSeparator(':', "a@x.com", "secret");
  }

  /** The looked-up user carries the claimed email and is the first such row. */
  lemma FoundUserIsFirstMatch(store: seq<User>, email: string)
    ensures FindByEmail(store, email).Some? <==> exists i :: 0 <= i < |store| && store[i].email == email
    ensures FindByEmail(store, email).Some? ==>
      exists i :: 0 <= i < |store| && store[i] == FindByEmail(store, email).value
        && store[i].email == email
        && forall j :: 0 <= j < i ==> store[j].email != email
  {
  }

  /** In either mode, no user or a user whose status is not 1 is answered 403. */
  lemma ForbiddenUnlessActive(
    mode: Mode, bearer: Option<string>, attributeUser: Option<User>,
    store: seq<User>, decode: string -> Option<string>)
    requires mode == Simplified ==> Truthy(bearer)
    requires ResolvedUser(mode, bearer, attributeUser, store, decode).None?
          || ResolvedUser(mode, bearer, attributeUser, store, decode).value.status != 1
    ensures Me(mode, bearer, attributeUser, store, decode) == Err(403, UNAUTHORIZED_MESSAGE)
  {
  }

  /**
   * A 200 answer happens exactly for a resolved user with status 1, and its
   * payload copies `id`, `name`, `email` and the optional `nome`, `funcao`
   * (as `role`) and `permissao` (as `acesso`), absent ones as null. In
   * simplified mode that user's email is the claim.
   */
  lemma SuccessProjectsActiveUser(
    mode: Mode, bearer: Option<string>, attributeUser: Option<User>,
    store: seq<User>, decode: string -> Option<string>)
    ensures var r := Me(mode, bearer, attributeUser, store, decode);
      r.Ok? <==> (mode == Simplified ==> Truthy(bearer))
                 && ResolvedUser(mode, bearer, attributeUser, store, decode).Some?
                 && ResolvedUser(mode, bearer, attributeUser, store, decode).value.status == 1
    ensures var r := Me(mode, bearer, attributeUser, store, decode);
      r.Ok? ==>
        var u := ResolvedUser(mode, bearer, attributeUser, store, decode).value;
        && u.status == 1
        && r.payload.id == u.id && r.payload.name == u.name && r.payload.email == u.email
        && r.payload.nome == u.nome && r.payload.role == u.funcao && r.payload.acesso == u.permissao
        && (mode == Simplified ==> u.email == Claim(bearer.value, decode) && u in store)
  {
  }

  /**
   * In federated mode the answer is never 401 and depends only on the
   * attached user: not on the bearer token, the user table or the decoder.
   */
  lemma FederatedDependsOnlyOnAttachedUser(
    attributeUser: Option<User>,
    bearer: Option<string>, store: seq<User>, decode: string -> Option<string>,
    bearer': Option<string>, store': seq<User>, decode': string -> Option<string>)
    ensures StatusCode(Me(Federated, bearer, attributeUser, store, decode)) != 401
    ensures Me(Federated, bearer, attributeUser, store, decode)
         == Me(Federated, bearer', attributeUser, store', decode')
    ensures Me(Federated, bearer, attributeUser, store, decode) == Authorize(attributeUser)
  {
  }

  /**
   * With the strict base64 decoder, a token that encodes `email:secret`
   * (the email free of `:`) resolves to the first active user with that
   * email, or is answered 403.
   */
  lemma EncodedCredentialResolvesEmail(
    email: string, secret: string, attributeUser: Option<User>, store: seq<User>)
    requires ':' !in email
    requires Base64.IsByteString(email + [':'] + secret)
    ensures var token := Base64.Encode(email + [':'] + secret);
      Me(Simplified, Some(token), attributeUser, store, Base64.Decode)
        == Authorize(FindByEmail(store, email))
  {
    var plain := email + [':'] + secret;
    var token := Base64.Encode(plain);
    assert |token| >= 4;
    Base64.DecodeEncode(plain);
    PhpStrings.FirstPieceBeforeSeparator(':', email, secret);
    assert Claim(token, Base64.Decode) == email;
  }

  /**
   * With the strict base64 decoder (not PHP's lenient one), a plain email
   * used as the token is not taken as its own claim: `@` is outside the
   * base64 alphabet, decoding fails, and the claim is the empty string.
   */
  lemma PlainEmailTokenGivesEmptyClaim(token: string, i: int)
    requires 0 <= i < |token| && token[i] == '@'
    ensures Claim(token, Base64.Decode) == ""
    ensures Claim(token, Base64.Decode) != token
  {
    Base64.DecodeRejectsForeignCharacter(token, i);
    PhpStrings.FirstPieceWithoutSeparator(':', "");
  }
}
