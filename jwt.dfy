/** `JwtService` of the user service: the claims of an access token
    (RFC 7519), the refresh token, and decoding a user id from an access
    token. Serialising, signing (HS256, section 3.2 of RFC 7518) and
    validating are done by a token handler passed in as a parameter. */
module Jwt {
  import opened Wrappers
  import opened Bytes
  import opened Claims
  import Utf8
  import Base64
  import Int64Text

  datatype JwtOptions = JwtOptions(secret: string, expiryMinutes: int, issuer: string, audience: string)

  /** What `new JwtSecurityToken(issuer, audience, claims, expires, credentials)` describes. */
  datatype TokenDescriptor = TokenDescriptor(
    issuer: string,
    audience: string,
    claims: seq<Claim>,
    expires: int,
    signingKey: seq<Byte>,
    algorithm: string)

  /** The `TokenValidationParameters` of `ValidateToken`: signing key, issuer,
      audience and lifetime are all checked. */
  datatype ValidationParameters = ValidationParameters(signingKey: seq<Byte>, issuer: string, audience: string)

  /** `JwtSecurityTokenHandler`: `WriteToken`, and `ValidateToken` at a given
      time, giving the principal's claims or `None` where it throws. */
  datatype TokenHandler = TokenHandler(
    write: TokenDescriptor -> string,
    validate: (string, ValidationParameters, int) -> Option<seq<Claim>>)

  /** What the model relies on from the handler: a token it wrote, checked
      with that token's own key, issuer and audience before it expires,
      validates and carries the claims it was written with. */
  ghost predicate ReadsBackWhatItWrites(h: TokenHandler) {
    forall d: TokenDescriptor, now: int
      | now < d.expires
      :: h.validate(h.write(d), ValidationParameters(d.signingKey, d.issuer, d.audience), now) == Some(d.claims)
  }

  const HmacSha256: string := "HS256"

  function SigningKey(options: JwtOptions): seq<Byte> {
    Utf8.Encode(options.secret)
  }

  function Parameters(options: JwtOptions): ValidationParameters {
    ValidationParameters(SigningKey(options), options.issuer, options.audience)
  }

  /** The claims of `GenerateJwtToken`, in order: `sub`, NameIdentifier,
      `email`, role and `jti`. */
  function AccessClaims(userId: int, email: string, role: string, jti: string): (cs: seq<Claim>)
    ensures |cs| == 5
    ensures FirstValue(cs, Sub) == Some(Int64Text.Format(userId))
    ensures FirstValue(cs, NameIdentifier) == Some(Int64Text.Format(userId))
    ensures FirstValue(cs, Claims.Email) == Some(email)
    ensures FirstValue(cs, Role) == Some(role)
    ensures FirstValue(cs, Jti) == Some(jti)
  {
    var id := Int64Text.Format(userId);
    // The list, built from its end so that each lookup steps past one claim at a time.
    var last := [Claim(Jti, jti)];
    var fromRole := [Claim(Role, role)] + last;
    var fromEmail := [Claim(Claims.Email, email)] + fromRole;
    var fromId := [Claim(NameIdentifier, id)] + fromEmail;
    KindsDistinct();
    FindFirstCons(Claim(Sub, id), fromId);
    FindFirstCons(Claim(NameIdentifier, id), fromEmail);
    FindFirstCons(Claim(Claims.Email, email), fromRole);
    FindFirstCons(Claim(Role, role), last);
    FindFirstCons(Claim(Jti, jti), []);
    [Claim(Sub, id)] + fromId
  }

  /** `GenerateToken`: options' issuer and audience, expiry `expiryMinutes`
      after `now`, HS256 over the UTF-8 bytes of the secret. */
  function Descriptor(options: JwtOptions, claims: seq<Claim>, now: int): (d: TokenDescriptor)
    ensures d.expires == now + 60 * options.expiryMinutes
    ensures ValidationParameters(d.signingKey, d.issuer, d.audience) == Parameters(options)
    ensures d.claims == claims && d.algorithm == HmacSha256
  {
    TokenDescriptor(options.issuer, options.audience, claims, now + 60 * options.expiryMinutes,
                    SigningKey(options), HmacSha256)
  }

  /** `GenerateJwtToken(userId, email, role)` with `jti` the fresh GUID text.
      Checked with the options' parameters at any time before it expires,
      `expiryMinutes` after `now`, the token gives back the five claims. */
  function GenerateJwtToken(options: JwtOptions, h: TokenHandler, userId: int, email: string, role: string,
                            jti: string, now: int): (t: string)
    ensures ReadsBackWhatItWrites(h) ==>
              forall at | at < now + 60 * options.expiryMinutes ::
                h.validate(t, Parameters(options), at) == Some(AccessClaims(userId, email, role, jti))
  {
    h.write(Descriptor(options, AccessClaims(userId, email, role, jti), now))
  }

  /** `GenerateRefreshToken`: the Base64 text of 64 random bytes, 88
      characters of which the last two are `=`. */
  function GenerateRefreshToken(randomBytes: seq<Byte>): (t: string)
    requires |randomBytes| == 64
    ensures |t| == 88 && t[86] == '=' && t[87] == '='
    ensures forall i :: 0 <= i < 86 ==> Base64.IsBase64Char(t[i])
  {
    Base64.EncodeShape(randomBytes);
    Base64.Encode(randomBytes)
  }

  /** Different random bytes give different refresh tokens. */
  lemma RefreshTokensDiffer(a: seq<Byte>, b: seq<Byte>)
    requires |a| == 64 && |b| == 64 && a != b
    ensures GenerateRefreshToken(a) != GenerateRefreshToken(b)
  {
    if Base64.Encode(a) == Base64.Encode(b) {
      Base64.EncodeInjective(a, b);
    }
  }

  /** The claim the id is read from: `sub`, else NameIdentifier, either up
      to letter case. There is none exactly when the claims have neither
      type, and a NameIdentifier
      claim is used only when no `sub` claim is present. */
  function IdClaim(claims: seq<Claim>): (c: Option<Claim>)
    ensures c.None? <==> forall i :: 0 <= i < |claims| ==> !SameKind(claims[i].kind, Sub) && !SameKind(claims[i].kind, NameIdentifier)
    ensures c.Some? ==> c.value in claims && (SameKind(c.value.kind, Sub) || SameKind(c.value.kind, NameIdentifier))
    ensures (exists i :: 0 <= i < |claims| && SameKind(claims[i].kind, Sub)) ==> c.Some? && SameKind(c.value.kind, Sub)
  {
    FindFirst(claims, Sub).OrElse(FindFirst(claims, NameIdentifier))
  }

  /** `DecodeJwtToken(token)` at time `now`. Every failure, a failed
      validation, a missing id claim or an id that `long.Parse` rejects,
      is `None`: it never throws. */
  function DecodeJwtToken(options: JwtOptions, h: TokenHandler, token: string, now: int): (r: Option<int>)
    ensures h.validate(token, Parameters(options), now).None? ==> r.None?
    ensures r.Some? ==> Int64Text.IsLong(r.value)
  {
    match h.validate(token, Parameters(options), now)
    case None => None
    case Some(claims) =>
      match IdClaim(claims)
      case None => None
      case Some(c) => Int64Text.Parse(c.value)
  }

  /** The id is read from `sub` when it is present. */
  lemma DecodePrefersSub(options: JwtOptions, h: TokenHandler, token: string, now: int, claims: seq<Claim>, id: string)
    requires h.validate(token, Parameters(options), now) == Some(claims)
    requires FirstValue(claims, Sub) == Some(id)
    ensures DecodeJwtToken(options, h, token, now) == Int64Text.Parse(id)
  {
  }

  /** A leading "SUB" claim is the `sub` claim, so the id is read from it. */
  lemma DecodeReadsUpperSub(options: JwtOptions, h: TokenHandler, token: string, now: int, claims: seq<Claim>, id: string)
    requires h.validate(token, Parameters(options), now) == Some(claims)
    requires |claims| > 0 && claims[0] == Claim("SUB", id)
    ensures DecodeJwtToken(options, h, token, now) == Int64Text.Parse(id)
  {
    UpperSubIsSub();
    FindFirstCons(claims[0], claims[1..]);
    assert [claims[0]] + claims[1..] == claims;
    DecodePrefersSub(options, h, token, now, claims, id);
  }

  /** Without `sub`, the id is read from NameIdentifier; without either, there is none. */
  lemma DecodeFallsBackToNameIdentifier(options: JwtOptions, h: TokenHandler, token: string, now: int,
                                        claims: seq<Claim>)
    requires h.validate(token, Parameters(options), now) == Some(claims)
    requires FindFirst(claims, Sub).None?
    ensures FirstValue(claims, NameIdentifier).None? ==> DecodeJwtToken(options, h, token, now).None?
    ensures FirstValue(claims, NameIdentifier).Some? ==>
              DecodeJwtToken(options, h, token, now) == Int64Text.Parse(FirstValue(claims, NameIdentifier).value)
  {
  }

  /** An id claim without a digit, such as a user name, is caught and gives `None`. */
  lemma DecodeNonNumericId(options: JwtOptions, h: TokenHandler, token: string, now: int, claims: seq<Claim>)
    requires h.validate(token, Parameters(options), now) == Some(claims)
    requires IdClaim(claims).Some?
    requires forall i :: 0 <= i < |IdClaim(claims).value.value| ==> !Int64Text.IsDigit(IdClaim(claims).value.value[i])
    ensures DecodeJwtToken(options, h, token, now).None?
  {
    Int64Text.ParseNeedsDigit(IdClaim(claims).value.value);
  }

  /** Decoding a token just generated for a user, with the same options and
      before it expires, gives that user's id back. */
  lemma DecodeGenerated(options: JwtOptions, h: TokenHandler, userId: int, email: string, role: string,
                        jti: string, issuedAt: int, now: int)
    requires ReadsBackWhatItWrites(h)
    requires Int64Text.IsLong(userId)
    requires now < issuedAt + 60 * options.expiryMinutes
    ensures DecodeJwtToken(options, h, GenerateJwtToken(options, h, userId, email, role, jti, issuedAt), now) == Some(userId)
  {
    var claims := AccessClaims(userId, email, role, jti);
    var d := Descriptor(options, claims, issuedAt);
    assert h.validate(h.write(d), ValidationParameters(d.signingKey, d.issuer, d.audience), now) == Some(claims);
    assert IdClaim(claims) == Some(claims[0]);
    Int64Text.ParseFormat(userId);
  }
}
