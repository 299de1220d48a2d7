/**
 * `BasicAuthenticationHandler`: the HTTP Basic scheme (section 2 of RFC 7617).
 * `HandleAuthenticateAsync` turns the `Authorization` header into no result,
 * a failure, or an identity; `HandleChallengeAsync` asks the client for Basic
 * credentials.
 *
 * Base64 decoding followed by UTF-8 decoding, and the password hasher, are
 * parameters: `decode` answers `None` where `Convert.FromBase64String` throws
 * a `FormatException`, and `verify` is `PasswordHasher.VerifyHashedPassword`.
 */
module BasicAuth {
  import opened Wrappers
  import opened Text
  import opened Ids
  import opened Entities
  import opened Store

  /** `PasswordVerificationResult`. */
  datatype VerificationResult = Failed | Success | SuccessRehashNeeded

  /** The four failure texts, as tags. */
  datatype FailReason =
    | CredentialsMissing   // "Kimlik bilgileri eksik."
    | InvalidBase64        // "Geçersiz Base64 kimlik bilgisi."
    | InvalidFormat        // "Geçersiz kimlik bilgisi formatı."
    | InvalidCredentials   // "Kullanıcı adı veya şifre hatalı."

  /** The outcome; a success carries the `NameIdentifier` and `Name` claims. */
  datatype AuthenticateResult =
    | NoResult
    | Fail(reason: FailReason)
    | Authenticated(nameIdentifier: string, name: string)

  datatype Credentials = Credentials(username: string, password: string)

  /** The scheme prefix, compared ignoring case, trailing space included. */
  const Scheme := "Basic "

  /** The decoded text split at its first colon; no colon, or one in first place, is a format error. */
  function SplitCredentials(decoded: string): (r: Option<Credentials>)
    ensures r.None? <==> ':' !in decoded || decoded[0] == ':'
    ensures r.Some? ==>
      && decoded == r.value.username + ":" + r.value.password
      && r.value.username != [] && ':' !in r.value.username
  {
    var separator := IndexOf(decoded, ':');
    if separator <= 0 then None
    else
      assert decoded == decoded[..separator] + ":" + decoded[separator + 1..];
      Some(Credentials(decoded[..separator], decoded[separator + 1..]))
  }

  /** Joining a user name without a colon to any password, and splitting again, gives both back. */
  lemma SplitJoin(c: Credentials)
    requires c.username != [] && ':' !in c.username
    ensures SplitCredentials(c.username + ":" + c.password) == Some(c)
  {
    var decoded := c.username + ":" + c.password;
    assert decoded[|c.username|] == ':';
    assert decoded[..|c.username|] == c.username;
    assert IndexOf(decoded, ':') == |c.username|;
    assert decoded[|c.username| + 1..] == c.password;
  }

  /** What the header yields before the user store is consulted. */
  datatype ParseOutcome =
    | NotBasic
    | Rejected(reason: FailReason)
    | Parsed(credentials: Credentials)

  /** The header is present and starts with the scheme. */
  predicate IsBasic(header: Option<string>) {
    header.Some? && StartsWithIgnoreCase(header.value, Scheme)
  }

  /** What follows the scheme, trimmed. */
  function Token(header: Option<string>): (r: string)
    requires IsBasic(header)
    ensures r == [] <==> AllWhiteSpace(header.value[|Scheme|..])
  {
    TrimBlank(header.value[|Scheme|..]);
    Trim(header.value[|Scheme|..])
  }

  /** Every parsing check passes: the header is Basic, the token is not blank, it decodes, and the text splits. */
  predicate Parses(header: Option<string>, decode: string -> Option<string>) {
    && IsBasic(header) && Token(header) != []
    && decode(Token(header)).Some? && SplitCredentials(decode(Token(header)).value).Some?
  }

  /** The credentials a header that parses carries. */
  function HeaderCredentials(header: Option<string>, decode: string -> Option<string>): (c: Credentials)
    requires Parses(header, decode)
    ensures decode(Token(header)) == Some(c.username + ":" + c.password)
    ensures c.username != [] && ':' !in c.username
  {
    SplitCredentials(decode(Token(header)).value).value
  }

  /** The parsing steps of `HandleAuthenticateAsync`, in the order the handler takes them. */
  function ParseHeader(header: Option<string>, decode: string -> Option<string>): (r: ParseOutcome)
    ensures r.NotBasic? <==> !IsBasic(header)
    ensures r == Rejected(CredentialsMissing) <==> IsBasic(header) && Token(header) == []
    ensures r == Rejected(InvalidBase64) <==> IsBasic(header) && Token(header) != [] && decode(Token(header)).None?
    ensures r == Rejected(InvalidFormat) <==>
      IsBasic(header) && Token(header) != [] && decode(Token(header)).Some?
      && SplitCredentials(decode(Token(header)).value).None?
    ensures r.Parsed? <==> Parses(header, decode)
    ensures r.Parsed? ==> r.credentials == HeaderCredentials(header, decode)
  {
    if !IsBasic(header) then NotBasic
    else
      var token := Token(header);
      TrimBlank(header.value[|Scheme|..]);
      if IsNullOrWhiteSpace(Some(token)) then Rejected(CredentialsMissing)
      else
        match decode(token)
        case None => Rejected(InvalidBase64)
        case Some(decoded) =>
          match SplitCredentials(decoded)
          case None => Rejected(InvalidFormat)
          case Some(c) => Parsed(c)
  }

  /** The ids of the users called `username`: at most one, by the unique index. */
  function Matching(users: map<int, User>, username: string): (r: set<int>)
    ensures forall k :: k in r <==> k in users && users[k].username == username
    ensures UniqueUsernames(users) ==> forall i, j | i in r && j in r :: i == j
  {
    set k | k in users && users[k].username == username
  }

  /** A user called `c.username` exists and the verifier does not answer `Failed` for `c.password`. */
  predicate Accepts(users: map<int, User>, verify: (User, string, string) -> VerificationResult, c: Credentials) {
    exists id | id in users :: users[id].username == c.username && verify(users[id], users[id].passwordHash, c.password) != Failed
  }

  /** The user lookup and the password check, once the header has parsed. */
  function CheckCredentials(
    c: Credentials, users: map<int, User>, verify: (User, string, string) -> VerificationResult): (r: AuthenticateResult)
    requires UniqueUsernames(users)
    ensures r.Authenticated? <==> Accepts(users, verify, c)
    ensures r.Authenticated? ==>
      exists id | id in users :: r == Authenticated(Decimal(id), c.username) && users[id].username == c.username
    ensures !r.Authenticated? ==> r == Fail(InvalidCredentials)
  {
    var found := Matching(users, c.username);
    assert forall k | k in users && users[k].username == c.username :: k in found;
    if found == {} then Fail(InvalidCredentials)
    else
      var id := Min(found);
      assert forall k | k in users && users[k].username == c.username :: k == id;
      var user := users[id];
      if verify(user, user.passwordHash, c.password) == Failed then Fail(InvalidCredentials)
      else Authenticated(Decimal(id), user.username)
  }

  /** `HandleAuthenticateAsync`: parsing first, then the user lookup and the password check. */
  function Authenticate(
    header: Option<string>, users: map<int, User>,
    decode: string -> Option<string>, verify: (User, string, string) -> VerificationResult): (r: AuthenticateResult)
    requires UniqueUsernames(users)
    ensures r == NoResult <==> !IsBasic(header)
    ensures r == Fail(CredentialsMissing) <==> IsBasic(header) && Token(header) == []
    ensures r == Fail(InvalidBase64) <==> IsBasic(header) && Token(header) != [] && decode(Token(header)).None?
    ensures r == Fail(InvalidFormat) <==>
      IsBasic(header) && Token(header) != [] && decode(Token(header)).Some?
      && SplitCredentials(decode(Token(header)).value).None?
    ensures r.Authenticated? <==> Parses(header, decode) && Accepts(users, verify, HeaderCredentials(header, decode))
    ensures r.Authenticated? ==>
      exists id | id in users ::
        && users[id].username == HeaderCredentials(header, decode).username
        && r == Authenticated(Decimal(id), users[id].username)
    ensures r == Fail(InvalidCredentials) <==> Parses(header, decode) && !Accepts(users, verify, HeaderCredentials(header, decode))
  {
    match ParseHeader(header, decode)
    case NotBasic => NoResult
    case Rejected(reason) => Fail(reason)
    case Parsed(c) => CheckCredentials(c, users, verify)
  }

  /** The user store and the password hasher are consulted only once the header has parsed. */
  lemma StoreConsultedLast(
    header: Option<string>, users1: map<int, User>, users2: map<int, User>, decode: string -> Option<string>,
    verify1: (User, string, string) -> VerificationResult, verify2: (User, string, string) -> VerificationResult)
    requires UniqueUsernames(users1) && UniqueUsernames(users2)
    requires !ParseHeader(header, decode).Parsed?
    ensures Authenticate(header, users1, decode, verify1) == Authenticate(header, users2, decode, verify2)
  {
  }

  /**
   * A client that sends the scheme (in any letter case) and a token that,
   * once trimmed, decodes to `name:password` is authenticated exactly when that
   * user exists and the hasher does not answer `Failed`.
   */
  lemma {:induction false} BasicRoundTrip(
    scheme: string, token: string, c: Credentials, users: map<int, User>,
    decode: string -> Option<string>, verify: (User, string, string) -> VerificationResult)
    requires StartsWithIgnoreCase(scheme, Scheme) && |scheme| == |Scheme|
    requires !AllWhiteSpace(token)
    requires c.username != [] && ':' !in c.username
    requires decode(Trim(token)) == Some(c.username + ":" + c.password)
    requires UniqueUsernames(users)
    ensures ParseHeader(Some(scheme + token), decode) == Parsed(c)
    ensures Authenticate(Some(scheme + token), users, decode, verify).Authenticated? <==> Accepts(users, verify, c)
  {
    var header := Some(scheme + token);
    assert header.value[|Scheme|..] == token;
    assert IsBasic(header);
    assert Token(header) == Trim(token);
    SplitJoin(c);
  }

  /** The part of the HTTP response a challenge writes. */
  class Response {
    var statusCode: int
    var headers: map<string, string>

    constructor ()
      ensures statusCode == 200 && headers == map[]
    {
      statusCode := 200;
      headers := map[];
    }
  }

  /**
   * `HandleChallengeAsync`: sets `WWW-Authenticate: Basic`, then the base
   * handler answers 401. Every other header stays as it was.
   */
  method HandleChallenge(response: Response)
    modifies response
    ensures response.headers == old(response.headers)["WWW-Authenticate" := "Basic"]
    ensures response.statusCode == 401
  {
    response.headers := response.headers["WWW-Authenticate" := "Basic"];
    response.statusCode := 401;
  }
}
