/** The request guards (app/deps.py): who the caller is, from the bearer token. */
module Deps {
  import opened Wrappers
  import opened Http
  import Strings
  import Crud
  import Users
  import Security

  /** `get_current_user`: the token must decode, be an access token and name an existing user;
      every rejection is 401, except a non-empty subject that is not an integer, on which
      `int()` raises and the request fails with 500. */
  function GetCurrentUser(codec: Security.Codec, users: Crud.Table<Users.UserData>, token: string, now: int)
    : (r: Result<Users.User>)
    reads users
    ensures var p := Security.DecodeToken(codec, token, now);
      r.Ok? <==>
        && p.Some? && !p.value.refresh
        && Security.SubjectId(p.value.sub).Some?
        && users.Get(Security.SubjectId(p.value.sub).value).Some?
    ensures r.Ok? ==> var p := Security.DecodeToken(codec, token, now).value;
      r.value in users.rows && Security.SubjectId(p.sub) == Some(r.value.id)
    ensures r.Fail? ==> r.status == Unauthorized || r.status == InternalServerError
    ensures r == Fail(InternalServerError) <==> var p := Security.DecodeToken(codec, token, now);
      p.Some? && !p.value.refresh && p.value.sub.Some? && p.value.sub.value != ""
      && Strings.ParseInt(p.value.sub.value).None?
  {
    match Security.DecodeToken(codec, token, now)
    case None => Fail(Unauthorized)
    case Some(p) =>
      if p.refresh then Fail(Unauthorized)
      else if p.sub.None? || p.sub.value == "" then Fail(Unauthorized)
      else match Strings.ParseInt(p.sub.value)
        case None => Fail(InternalServerError)
        case Some(id) =>
          match users.Get(id)
          case None => Fail(Unauthorized)
          case Some(u) => Ok(u)
  }

  /** `get_current_active_user`: an inactive user is refused with 400, not 401. */
  function GetCurrentActiveUser(codec: Security.Codec, users: Crud.Table<Users.UserData>, token: string, now: int)
    : (r: Result<Users.User>)
    reads users
    ensures r.Ok? <==> GetCurrentUser(codec, users, token, now).Ok? && GetCurrentUser(codec, users, token, now).value.rec.isActive
    ensures r.Ok? ==> r == GetCurrentUser(codec, users, token, now)
    ensures r == Fail(BadRequest) <==> GetCurrentUser(codec, users, token, now).Ok? && !GetCurrentUser(codec, users, token, now).value.rec.isActive
    ensures GetCurrentUser(codec, users, token, now).Fail? ==> r == GetCurrentUser(codec, users, token, now)
  {
    match GetCurrentUser(codec, users, token, now)
    case Fail(s) => Fail(s)
    case Ok(u) => if !Users.IsActive(u) then Fail(BadRequest) else Ok(u)
  }

  /** `get_current_active_superuser`: runs after the active check; an active user who is
      not a superuser is refused with 403. */
  function GetCurrentActiveSuperuser(codec: Security.Codec, users: Crud.Table<Users.UserData>, token: string, now: int)
    : (r: Result<Users.User>)
    reads users
    ensures r.Ok? ==> r.value.rec.isActive && r.value.rec.isSuperuser && r == GetCurrentUser(codec, users, token, now)
    ensures r == Fail(Forbidden) <==> GetCurrentActiveUser(codec, users, token, now).Ok? && !GetCurrentActiveUser(codec, users, token, now).value.rec.isSuperuser
    ensures GetCurrentActiveUser(codec, users, token, now).Fail? ==> r == GetCurrentActiveUser(codec, users, token, now)
    ensures GetCurrentActiveUser(codec, users, token, now).Ok? && GetCurrentActiveUser(codec, users, token, now).value.rec.isSuperuser
      ==> r == GetCurrentActiveUser(codec, users, token, now)
  {
    match GetCurrentActiveUser(codec, users, token, now)
    case Fail(s) => Fail(s)
    case Ok(u) => if !Users.IsSuperuser(u) then Fail(Forbidden) else Ok(u)
  }

  /** An access token issued for a stored user authenticates as exactly that user until it
      expires. */
  lemma AccessTokenAuthenticates(codec: Security.Codec, users: Crud.Table<Users.UserData>, u: Users.User,
                                 issuedAt: int, expiresDelta: Option<int>, yandexId: Option<string>, t: int)
    requires Security.Lawful(codec) && users.Valid() && u in users.rows
    requires t < Security.AccessClaims(u.id, issuedAt, expiresDelta, yandexId).exp
    ensures GetCurrentUser(codec, users, Security.CreateAccessToken(codec, u.id, issuedAt, expiresDelta, yandexId), t) == Ok(u)
  {
    Security.AccessTokenRoundTrip(codec, u.id, issuedAt, expiresDelta, yandexId, t);
    Crud.FindByKey(users.rows, u);
  }

  /** A refresh token never authenticates a request: it is refused with 401 whatever the time. */
  lemma RefreshTokenRejected(codec: Security.Codec, users: Crud.Table<Users.UserData>, subject: int,
                             issuedAt: int, expiresDelta: Option<int>, yandexId: Option<string>, t: int)
    requires Security.Lawful(codec)
    ensures GetCurrentUser(codec, users, Security.CreateRefreshToken(codec, subject, issuedAt, expiresDelta, yandexId), t) == Fail(Unauthorized)
  {
    Security.TokenKindsDiffer(codec, subject, issuedAt, expiresDelta, yandexId, t);
  }
}
