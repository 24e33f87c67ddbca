/** Session tokens (app/core/security.py): the claims of access and refresh tokens, their
    expiry, and decoding, over an abstract signing codec that stands for HS256 JWTs. */
module Security {
  import opened Wrappers
  import Strings
  import Config

  /** A JWT payload as the signer sees it; a claim that is absent from the payload is `None`. */
  datatype Claims = Claims(exp: int, sub: Option<string>, refresh: Option<bool>, yandexId: Option<string>)

  /** The signer, closed over the secret key and the algorithm: `encode` signs a payload and
      `decode` checks signature and expiry at the instant `now` (in seconds). */
  datatype Codec = Codec(encode: Claims -> string, decode: (string, int) -> Option<Claims>)

  /** What the model relies on about the signer: a token it signed decodes to the same payload
      before its expiry and to nothing after it (whether it is still valid in the second of
      its expiry belongs to the library and is left open), it never decodes to a different
      payload, and the compact form holds no space. */
  ghost predicate Lawful(codec: Codec) {
    && (forall c: Claims, now: int :: now < c.exp ==> codec.decode(codec.encode(c), now) == Some(c))
    && (forall c: Claims, now: int :: now > c.exp ==> codec.decode(codec.encode(c), now) == None)
    && (forall c: Claims, now: int :: codec.decode(codec.encode(c), now) in {None, Some(c)})
    && (forall c: Claims, i :: 0 <= i < |codec.encode(c)| ==> codec.encode(c)[i] != ' ')
  }

  /** The validated claims handed to the endpoints (`TokenPayload`). */
  datatype TokenPayload = TokenPayload(sub: Option<string>, refresh: bool, yandexId: Option<string>)

  /** The expiry instant: `now + expires_delta` when the delta is truthy (present and non-zero),
      otherwise `now` plus the default lifetime. */
  function Expiry(now: int, expiresDelta: Option<int>, defaultTtl: int): (exp: int)
    ensures expiresDelta.Some? && expiresDelta.value != 0 ==> exp == now + expiresDelta.value
    ensures expiresDelta == None || expiresDelta == Some(0) ==> exp == now + defaultTtl
  {
    match expiresDelta
    case Some(d) => if d != 0 then now + d else now + defaultTtl
    case None => now + defaultTtl
  }

  function AccessClaims(subject: int, now: int, expiresDelta: Option<int>, yandexId: Option<string>): (c: Claims)
    ensures SubjectId(c.sub) == Some(subject)
    ensures expiresDelta.None? || expiresDelta.value >= 0 ==> c.exp > now
  {
    Strings.ParseIntOfIntToString(subject);
    Claims(Expiry(now, expiresDelta, Config.AccessTokenTtl), Some(Strings.IntToString(subject)), Some(false), yandexId)
  }

  function RefreshClaims(subject: int, now: int, expiresDelta: Option<int>, yandexId: Option<string>): (c: Claims)
    ensures SubjectId(c.sub) == Some(subject)
    ensures expiresDelta.None? || expiresDelta.value >= 0 ==> c.exp > now
  {
    Strings.ParseIntOfIntToString(subject);
    Claims(Expiry(now, expiresDelta, Config.RefreshTokenTtl), Some(Strings.IntToString(subject)), Some(true), yandexId)
  }

  /** `create_access_token`. */
  function CreateAccessToken(codec: Codec, subject: int, now: int, expiresDelta: Option<int>, yandexId: Option<string>): string {
    codec.encode(AccessClaims(subject, now, expiresDelta, yandexId))
  }

  /** `create_refresh_token`. */
  function CreateRefreshToken(codec: Codec, subject: int, now: int, expiresDelta: Option<int>, yandexId: Option<string>): string {
    codec.encode(RefreshClaims(subject, now, expiresDelta, yandexId))
  }

  /** `decode_token`: any signer error (bad signature, expiry) is `None`; an absent `refresh`
      claim reads as false. */
  function DecodeToken(codec: Codec, token: string, now: int): (r: Option<TokenPayload>)
    ensures r.None? <==> codec.decode(token, now).None?
    ensures r.Some? ==> var c := codec.decode(token, now).value;
      && r.value.sub == c.sub && r.value.yandexId == c.yandexId
      && r.value.refresh == (c.refresh == Some(true))
  {
    match codec.decode(token, now)
    case None => None
    case Some(c) => Some(TokenPayload(c.sub, c.refresh.GetOr(false), c.yandexId))
  }

  /** `int(sub)` on the subject claim; a missing or non-numeric subject is `None`. */
  function SubjectId(sub: Option<string>): Option<int> {
    match sub
    case None => None
    case Some(s) => Strings.ParseInt(s)
  }

  /** An access token decodes, until it expires, to the subject it was issued for, marked as
      not a refresh token and carrying the given external identity; afterwards it decodes to nothing. */
  lemma AccessTokenRoundTrip(codec: Codec, subject: int, now: int, expiresDelta: Option<int>, yandexId: Option<string>, t: int)
    requires Lawful(codec)
    ensures var exp := Expiry(now, expiresDelta, Config.AccessTokenTtl);
      var p := DecodeToken(codec, CreateAccessToken(codec, subject, now, expiresDelta, yandexId), t);
      && (t < exp ==> p.Some? && !p.value.refresh && SubjectId(p.value.sub) == Some(subject) && p.value.yandexId == yandexId)
      && (t > exp ==> p.None?)
  {
    Strings.ParseIntOfIntToString(subject);
  }

  /** The same for a refresh token, which decodes marked as a refresh token. */
  lemma RefreshTokenRoundTrip(codec: Codec, subject: int, now: int, expiresDelta: Option<int>, yandexId: Option<string>, t: int)
    requires Lawful(codec)
    ensures var exp := Expiry(now, expiresDelta, Config.RefreshTokenTtl);
      var p := DecodeToken(codec, CreateRefreshToken(codec, subject, now, expiresDelta, yandexId), t);
      && (t < exp ==> p.Some? && p.value.refresh && SubjectId(p.value.sub) == Some(subject) && p.value.yandexId == yandexId)
      && (t > exp ==> p.None?)
  {
    Strings.ParseIntOfIntToString(subject);
  }

  /** A token from either constructor never decodes as the other kind. */
  lemma TokenKindsDiffer(codec: Codec, subject: int, now: int, expiresDelta: Option<int>, yandexId: Option<string>, t: int)
    requires Lawful(codec)
    ensures var a := DecodeToken(codec, CreateAccessToken(codec, subject, now, expiresDelta, yandexId), t);
      var r := DecodeToken(codec, CreateRefreshToken(codec, subject, now, expiresDelta, yandexId), t);
      (a.None? || !a.value.refresh) && (r.None? || r.value.refresh)
  {
    var ca := AccessClaims(subject, now, expiresDelta, yandexId);
    var cr := RefreshClaims(subject, now, expiresDelta, yandexId);
    assert codec.decode(codec.encode(ca), t) in {None, Some(ca)};
    assert codec.decode(codec.encode(cr), t) in {None, Some(cr)};
  }

  /** The default lifetimes: 30 minutes for access tokens and 7 days for refresh tokens. */
  lemma DefaultLifetimes(subject: int, now: int, yandexId: Option<string>)
    ensures AccessClaims(subject, now, None, yandexId).exp == now + 1800
    ensures AccessClaims(subject, now, Some(0), yandexId).exp == now + 1800
    ensures RefreshClaims(subject, now, None, yandexId).exp == now + 604800
    ensures RefreshClaims(subject, now, Some(0), yandexId).exp == now + 604800
  {
  }
}
