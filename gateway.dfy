/** `RoleToClientIdMiddleware` of the API gateway: the role in the caller's
    token becomes the `Client-Id` header of the forwarded request. The
    gateway's token decoding is a parameter. */
module Gateway {
  import opened Wrappers
  import opened Claims
  import Text
  import Http

  const ClientIdHeader: string := "Client-Id"

  /** The gateway's `DecodeJwtToken`: the claims of a valid token, else `None`. */
  type Decoder = string -> Option<seq<Claim>>

  /** The request headers after the middleware: with a token that decodes and
      carries a claim whose type is exactly the role type, `Client-Id` is the lower-cased role, replacing any
      value the caller sent; on every other path the headers are as they came. */
  function InjectedHeaders(h: Http.Headers, decode: Decoder): (r: Http.Headers)
    ensures forall n :: Text.ToLower(n) != Text.ToLower(ClientIdHeader) ==> Http.Values(r, n) == Http.Values(h, n)
  {
    match Http.BearerToken(h)
    case None => h
    case Some(token) =>
      match decode(token)
      case None => h
      case Some(claims) =>
        match FindExact(claims, Role)
        case None => h
        case Some(roleClaim) => Http.SetHeader(h, ClientIdHeader, Text.ToLower(roleClaim.value))
  }

  /** The part of the `HttpContext` the middleware touches: the request
      headers, and how often the next delegate has run. */
  class GatewayContext {
    var headers: Http.Headers
    var nextCalls: nat

    constructor (headers: Http.Headers)
      ensures this.headers == headers && nextCalls == 0
    {
      this.headers := headers;
      nextCalls := 0;
    }
  }

  /** `Invoke`: inject the header, then call the next delegate exactly once. */
  method Invoke(context: GatewayContext, decode: Decoder)
    modifies context
    ensures context.headers == InjectedHeaders(old(context.headers), decode)
    ensures context.nextCalls == old(context.nextCalls) + 1
  {
    var token := Http.BearerToken(context.headers);
    if token.Some? {
      var jwt := decode(token.value);
      if jwt.Some? {
        var roleClaim := FindExact(jwt.value, Role);
        if roleClaim.Some? {
          context.headers := Http.SetHeader(context.headers, ClientIdHeader, Text.ToLower(roleClaim.value.value));
        }
      }
    }
    context.nextCalls := context.nextCalls + 1;
  }

  /** A request without an `Authorization` value passes unchanged. */
  lemma NoTokenNoChange(h: Http.Headers, decode: Decoder)
    requires |Http.Values(h, "Authorization")| == 0
    ensures InjectedHeaders(h, decode) == h
  {
  }

  /** A token that does not decode, an empty one included, changes nothing. */
  lemma FailedDecodeNoChange(h: Http.Headers, decode: Decoder)
    requires Http.BearerToken(h).Some? && decode(Http.BearerToken(h).value).None?
    ensures InjectedHeaders(h, decode) == h
  {
  }

  /** A decoded token with a role sets `Client-Id` to that role lower-cased,
      whatever the caller had put there. */
  lemma RoleBecomesClientId(h: Http.Headers, decode: Decoder, claims: seq<Claim>, role: string)
    requires Http.BearerToken(h).Some? && decode(Http.BearerToken(h).value) == Some(claims)
    requires FindExact(claims, Role) == Some(Claim(Role, role))
    ensures Http.Values(InjectedHeaders(h, decode), ClientIdHeader) == [Text.ToLower(role)]
  {
  }

  /** A decoded token without a role claim writes no header. The gateway
      compares the claim type exactly, so a role claim whose type differs
      only in letter case writes none either. */
  lemma NoRoleNoHeader(h: Http.Headers, decode: Decoder, claims: seq<Claim>)
    requires Http.BearerToken(h).Some? && decode(Http.BearerToken(h).value) == Some(claims)
    requires FindExact(claims, Role).None?
    ensures InjectedHeaders(h, decode) == h
  {
  }

  /** A claim whose type differs from the role type only in letter case is
      no role claim to the gateway, though `FindFirst` would return it. */
  lemma CaseVariantRoleTypeIgnored(h: Http.Headers, decode: Decoder, kind: string, role: string)
    requires Http.BearerToken(h).Some? && decode(Http.BearerToken(h).value) == Some([Claim(kind, role)])
    requires kind != Role && SameKind(kind, Role)
    ensures InjectedHeaders(h, decode) == h
    ensures FindFirst([Claim(kind, role)], Role) == Some(Claim(kind, role))
  {
    FindFirstCons(Claim(kind, role), []);
    assert [Claim(kind, role)] + [] == [Claim(kind, role)];
  }

  /** For `Authorization: Bearer <jwt>` with a role "Admin", the service sees `Client-Id: admin`. */
  lemma BearerAdminIsClientAdmin(h: Http.Headers, decode: Decoder, jwt: string, claims: seq<Claim>)
    requires ' ' !in jwt
    requires |Http.Values(h, "Authorization")| > 0 && Http.Values(h, "Authorization")[0] == "Bearer " + jwt
    requires decode(jwt) == Some(claims) && FindExact(claims, Role) == Some(Claim(Role, "Admin"))
    ensures Http.Values(InjectedHeaders(h, decode), ClientIdHeader) == ["admin"]
  {
    Http.BearerTokenOfScheme(h, "Bearer", jwt);
    RoleBecomesClientId(h, decode, claims, "Admin");
    assert Text.ToLower("Admin") == "admin";
  }
}
