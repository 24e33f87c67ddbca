/** The authentication endpoints (app/api/v1/endpoints/auth.py): the provider redirect, the
    provider callback that links an external identity to a user and issues a token pair, and
    the refresh of a token pair. */
module AuthEndpoints {
  import opened Wrappers
  import opened Http
  import Strings
  import Config
  import Crud
  import Users
  import Security
  import Deps

  const YandexAuthUrl: string := "https://oauth.yandex.ru/authorize"
  const ResponseTypeAndClient: string := "?response_type=code&client_id="
  const RedirectParam: string := "&redirect_uri="

  /** `login_yandex`: the provider's authorization URL with the client id and redirect target.
      The contract reads each part back at its place. */
  function LoginUrl(settings: Config.Settings): (url: string)
    ensures var head := YandexAuthUrl + ResponseTypeAndClient;
      var cid := settings.yandexClientId;
      var ruri := settings.yandexRedirectUri;
      && |url| == |head| + |cid| + |RedirectParam| + |ruri|
      && url[..|head|] == head
      && url[|head|..|head| + |cid|] == cid
      && url[|head| + |cid|..|head| + |cid| + |RedirectParam|] == RedirectParam
      && url[|url| - |ruri|..] == ruri
  {
    var head := YandexAuthUrl + ResponseTypeAndClient;
    var url := head + settings.yandexClientId + RedirectParam + settings.yandexRedirectUri;
    assert url == head + (settings.yandexClientId + (RedirectParam + settings.yandexRedirectUri));
    url
  }

  // ---- The provider calls, as outcomes ----

  /** One HTTP exchange with the provider: the request failed in transport, or a response came
      back with a status and a body that is `None` when it is not a JSON object. */
  datatype Reply<B> = TransportError | Response(status: int, body: Option<B>)

  /** The fields read from the token endpoint's JSON. */
  datatype TokenInfo = TokenInfo(accessToken: Option<string>)

  /** The fields read from the user-info endpoint's JSON. */
  datatype UserInfo = UserInfo(id: Option<string>, defaultEmail: Option<string>, firstName: Option<string>, lastName: Option<string>)

  /** What the callback knows about the person once both calls succeeded. */
  datatype Profile = Profile(yandexId: string, email: Option<string>, firstName: Option<string>, lastName: Option<string>)

  predicate IsSuccess(status: int) {
    200 <= status < 300
  }

  /** One call inside the `try`: `raise_for_status` turns a non-2xx status into 503; a transport
      error or a body that is not JSON falls to the generic handler, 500. */
  function Outcome<B>(reply: Reply<B>): (r: Result<B>)
    ensures r.Ok? <==> reply.Response? && IsSuccess(reply.status) && reply.body.Some?
    ensures r.Ok? ==> r.value == reply.body.value
    ensures r == Fail(ServiceUnavailable) <==> reply.Response? && !IsSuccess(reply.status)
    ensures r.Fail? ==> r.status == ServiceUnavailable || r.status == InternalServerError
  {
    match reply
    case TransportError => Fail(InternalServerError)
    case Response(status, body) =>
      if !IsSuccess(status) then Fail(ServiceUnavailable)
      else match body
        case None => Fail(InternalServerError)
        case Some(b) => Ok(b)
  }

  /** The `try` block of `yandex_callback`. The 400s it raises for a missing access token or a
      missing user id are caught by its own generic `except`, so they come out as 500. */
  function FetchProfile(tokenReply: Reply<TokenInfo>, infoReply: Reply<UserInfo>): (r: Result<Profile>)
    ensures r.Ok? <==>
      && Outcome(tokenReply).Ok? && Strings.Truthy(Outcome(tokenReply).value.accessToken)
      && Outcome(infoReply).Ok? && Strings.Truthy(Outcome(infoReply).value.id)
    ensures r.Ok? ==> var info := infoReply.body.value;
      r.value == Profile(info.id.value, info.defaultEmail, info.firstName, info.lastName) && r.value.yandexId != ""
    ensures r == Fail(ServiceUnavailable) <==>
      || Outcome(tokenReply) == Fail(ServiceUnavailable)
      || (Outcome(tokenReply).Ok? && Strings.Truthy(Outcome(tokenReply).value.accessToken) && Outcome(infoReply) == Fail(ServiceUnavailable))
    ensures r.Fail? ==> r.status == ServiceUnavailable || r.status == InternalServerError
  {
    match Outcome(tokenReply)
    case Fail(s) => Fail(s)
    case Ok(t) =>
      if !Strings.Truthy(t.accessToken) then Fail(InternalServerError)
      else match Outcome(infoReply)
        case Fail(s) => Fail(s)
        case Ok(info) =>
          if !Strings.Truthy(info.id) then Fail(InternalServerError)
          else Ok(Profile(info.id.value, info.defaultEmail, info.firstName, info.lastName))
  }

  // ---- Linking the identity ----

  /** The bootstrap rule: a new user is a superuser iff the configured identity is non-empty
      and equals the provider's. */
  predicate IsBootstrapSuperuser(settings: Config.Settings, yandexId: string) {
    Strings.Truthy(settings.firstSuperuserYandexId) && settings.firstSuperuserYandexId.value == yandexId
  }

  /** The columns of the user created on a first login. */
  function NewUserData(settings: Config.Settings, p: Profile): Users.UserData {
    Users.UserData(p.yandexId, p.email, p.firstName, p.lastName, true, IsBootstrapSuperuser(settings, p.yandexId))
  }

  /** The stored profile after a later login: each name or email the provider sends non-empty
      replaces the stored one; everything else stays. */
  function Synced(u: Users.UserData, p: Profile): (r: Users.UserData)
    ensures r.yandexId == u.yandexId && r.isActive == u.isActive && r.isSuperuser == u.isSuperuser
  {
    u.(email := if Strings.Truthy(p.email) then p.email else u.email,
       firstName := if Strings.Truthy(p.firstName) then p.firstName else u.firstName,
       lastName := if Strings.Truthy(p.lastName) then p.lastName else u.lastName)
  }

  /** The create-or-update step of `yandex_callback`: an unknown identity becomes a new active
      user under the bootstrap rule; a known one is synced with the provider's profile. */
  method LinkYandexUser(users: Crud.Table<Users.UserData>, settings: Config.Settings, p: Profile)
    returns (user: Users.User)
    requires Users.Valid(users)
    modifies users
    ensures Users.Valid(users)
    ensures user in users.rows && user.rec.yandexId == p.yandexId
    ensures Users.GetByYandexId(users, p.yandexId) == Some(user)
    ensures var found := old(Users.GetByYandexId(users, p.yandexId));
      && (found.None? ==>
            && user == Crud.Row(old(users.nextId), NewUserData(settings, p))
            && users.rows == old(users.rows) + [user]
            && users.nextId == old(users.nextId) + 1)
      && (found.Some? ==>
            && user == Crud.Row(found.value.id, Synced(found.value.rec, p))
            && users.rows == (if user == found.value then old(users.rows) else Crud.Replace(old(users.rows), user))
            && users.nextId == old(users.nextId))
  {
    var found := Users.GetByYandexId(users, p.yandexId);
    if found.None? {
      var isSuperuser := false;
      if Strings.Truthy(settings.firstSuperuserYandexId) && settings.firstSuperuserYandexId.value == p.yandexId {
        isSuperuser := true;
      }
      user := Users.CreateWithYandex(users, p.yandexId, p.email, p.firstName, p.lastName, isSuperuser);
      assert users.rows[|users.rows| - 1] == user;
    } else {
      user := SyncUser(users, found.value, p);
    }
    Users.GetByYandexIdFinds(users, user);
  }

  /** The update branch of the callback: the user is written only when the update
      dictionary is non-empty. */
  method SyncUser(users: Crud.Table<Users.UserData>, u: Users.User, p: Profile) returns (user: Users.User)
    requires Users.Valid(users) && u in users.rows
    modifies users
    ensures Users.Valid(users)
    ensures user == Crud.Row(u.id, Synced(u.rec, p)) && user in users.rows
    ensures users.rows == (if user == u then old(users.rows) else Crud.Replace(old(users.rows), user))
    ensures users.nextId == old(users.nextId)
  {
    var data := SyncData(u.rec, p);
    if data != [] {
      user := Users.Update(users, u, data);
      Crud.ReplacedIsPresent(old(users.rows), user);
    } else {
      user := u;
    }
  }

  /** The update dictionary of the callback, built key by key: it holds only the truthy
      provider values that differ from the stored ones, so applying it gives the synced
      profile, and it is empty exactly when the sync changes nothing. */
  method SyncData(u: Users.UserData, p: Profile) returns (data: seq<Users.UserAttr>)
    ensures Users.Apply(u, data) == Synced(u, p)
    ensures data == [] <==> Synced(u, p) == u
    ensures Users.LastIsActive(data) == None && Users.LastIsSuperuser(data) == None
  {
    data := [];
    ghost var e, f, l := [], [], [];
    if Strings.Truthy(p.email) && u.email != p.email {
      data := data + [Users.SetEmail(p.email)];
      e := [Users.SetEmail(p.email)];
    }
    if Strings.Truthy(p.firstName) && u.firstName != p.firstName {
      data := data + [Users.SetFirstName(p.firstName)];
      f := [Users.SetFirstName(p.firstName)];
    }
    if Strings.Truthy(p.lastName) && u.lastName != p.lastName {
      data := data + [Users.SetLastName(p.lastName)];
      l := [Users.SetLastName(p.lastName)];
    }
    assert data == e + f + l;
    Users.ApplyByColumn(u, data);
    LastsOfBuiltData(u, p, e, f, l);
  }

  /** What the dictionary built in `LinkYandexUser` assigns, column by column, and that it is
      empty exactly when the sync changes nothing. */
  lemma LastsOfBuiltData(u: Users.UserData, p: Profile, e: seq<Users.UserAttr>, f: seq<Users.UserAttr>, l: seq<Users.UserAttr>)
    requires e == if Strings.Truthy(p.email) && u.email != p.email then [Users.SetEmail(p.email)] else []
    requires f == if Strings.Truthy(p.firstName) && u.firstName != p.firstName then [Users.SetFirstName(p.firstName)] else []
    requires l == if Strings.Truthy(p.lastName) && u.lastName != p.lastName then [Users.SetLastName(p.lastName)] else []
    ensures Users.LastEmail(e + f + l).GetOr(u.email) == Synced(u, p).email
    ensures Users.LastFirstName(e + f + l).GetOr(u.firstName) == Synced(u, p).firstName
    ensures Users.LastLastName(e + f + l).GetOr(u.lastName) == Synced(u, p).lastName
    ensures Users.LastIsActive(e + f + l) == None && Users.LastIsSuperuser(e + f + l) == None
    ensures e + f + l == [] <==> Synced(u, p) == u
  {
    Users.LastsOfConcat(e, f);
    Users.LastsOfConcat(e + f, l);
  }

  // ---- Issuing tokens ----

  /** The response body `Token`. */
  datatype TokenPair = TokenPair(accessToken: string, refreshToken: string, tokenType: string)

  /** One access and one refresh token, both for the user's key and external identity, with
      the default lifetimes. */
  function IssuePair(codec: Security.Codec, user: Users.User, now: int): (pair: TokenPair)
    ensures pair.tokenType == "bearer"
    ensures pair.accessToken == Security.CreateAccessToken(codec, user.id, now, None, Some(user.rec.yandexId))
    ensures pair.refreshToken == Security.CreateRefreshToken(codec, user.id, now, None, Some(user.rec.yandexId))
  {
    TokenPair(
      Security.CreateAccessToken(codec, user.id, now, None, Some(user.rec.yandexId)),
      Security.CreateRefreshToken(codec, user.id, now, None, Some(user.rec.yandexId)),
      "bearer")
  }

  /** `yandex_callback`. Any upstream failure ends the request before the user table is read
      or written; otherwise the identity is linked and a pair is issued for the linked user. */
  method YandexCallback(codec: Security.Codec, settings: Config.Settings, users: Crud.Table<Users.UserData>,
                        tokenReply: Reply<TokenInfo>, infoReply: Reply<UserInfo>, now: int)
    returns (r: Result<TokenPair>)
    requires Users.Valid(users)
    modifies users
    ensures Users.Valid(users)
    ensures FetchProfile(tokenReply, infoReply).Fail? ==>
      && r == Fail(FetchProfile(tokenReply, infoReply).status)
      && users.rows == old(users.rows) && users.nextId == old(users.nextId)
    ensures FetchProfile(tokenReply, infoReply).Ok? ==>
      var p := FetchProfile(tokenReply, infoReply).value;
      var found := old(Users.GetByYandexId(users, p.yandexId));
      var linked := Users.GetByYandexId(users, p.yandexId);
      && linked.Some?
      && linked.value.rec == (if found.None? then NewUserData(settings, p) else Synced(found.value.rec, p))
      && r == Ok(IssuePair(codec, linked.value, now))
      && (found.None? ==>
            && linked.value.id == old(users.nextId)
            && users.rows == old(users.rows) + [linked.value]
            && users.nextId == old(users.nextId) + 1)
      && (found.Some? ==>
            && linked.value.id == found.value.id
            && users.rows == (if linked.value == found.value then old(users.rows)
                              else Crud.Replace(old(users.rows), linked.value))
            && users.nextId == old(users.nextId))
  {
    var fetched := FetchProfile(tokenReply, infoReply);
    if fetched.Fail? {
      return Fail(fetched.status);
    }
    var user := LinkYandexUser(users, settings, fetched.value);
    r := Ok(IssuePair(codec, user, now));
  }

  // ---- Refreshing ----

  const Bearer: string := "Bearer "

  /** `auth_header.split(" ")[1]` on a header that starts with `Bearer `: the text after the
      prefix up to the next space. */
  function BearerToken(header: string): (token: string)
    requires Bearer <= header
    ensures var rest := header[|Bearer|..];
      && token <= rest
      && (forall i :: 0 <= i < |token| ==> token[i] != ' ')
      && (|token| == |rest| || rest[|token|] == ' ')
      && ((forall i :: 0 <= i < |rest| ==> rest[i] != ' ') ==> token == rest)
  {
    var rest := header[|Bearer|..];
    assert header == "Bearer" + [' '] + rest;
    Strings.SplitAfterWord("Bearer", ' ', rest);
    Strings.FirstFieldEnds(rest, ' ');
    Strings.Split(header, ' ')[1]
  }


  /** `refresh_token`: a refresh token from the `Authorization` header is exchanged for a new
      pair when it decodes, is of the refresh kind, names an existing active user and carries
      that user's current external identity. Every rejection is 401, except a subject that is
      not an integer, on which `int()` raises and the request fails with 500. */
  function RefreshToken(codec: Security.Codec, users: Crud.Table<Users.UserData>, header: Option<string>, now: int)
    : (r: Result<TokenPair>)
    reads users
    ensures header.None? || !(Bearer <= header.value) ==> r == Fail(Unauthorized)
    ensures r.Ok? <==>
      && header.Some? && Bearer <= header.value
      && var p := Security.DecodeToken(codec, BearerToken(header.value), now);
      && p.Some? && p.value.refresh
      && Security.SubjectId(p.value.sub).Some?
      && var u := users.Get(Security.SubjectId(p.value.sub).value);
      && u.Some? && u.value.rec.isActive && p.value.yandexId == Some(u.value.rec.yandexId)
    ensures r.Ok? ==>
      var p := Security.DecodeToken(codec, BearerToken(header.value), now).value;
      r.value == IssuePair(codec, users.Get(Security.SubjectId(p.sub).value).value, now)
    ensures r.Fail? ==> r.status == Unauthorized || r.status == InternalServerError
    ensures r == Fail(InternalServerError) <==>
      && header.Some? && Bearer <= header.value
      && var p := Security.DecodeToken(codec, BearerToken(header.value), now);
      && p.Some? && p.value.refresh && Security.SubjectId(p.value.sub).None?
  {
    if header.None? || header.value == "" || !(Bearer <= header.value) then Fail(Unauthorized)
    else
      match Security.DecodeToken(codec, BearerToken(header.value), now)
      case None => Fail(Unauthorized)
      case Some(p) =>
        if !p.refresh then Fail(Unauthorized)
        else match Security.SubjectId(p.sub)
          case None => Fail(InternalServerError)
          case Some(id) =>
            match users.Get(id)
            case None => Fail(Unauthorized)
            case Some(u) =>
              if !Users.IsActive(u) then Fail(Unauthorized)
              else if p.yandexId != Some(u.rec.yandexId) then Fail(Unauthorized)
              else Ok(IssuePair(codec, u, now))
  }

  /** A signed token read back from a `Bearer` header is the token itself. */
  lemma BearerRoundTrip(codec: Security.Codec, c: Security.Claims)
    requires Security.Lawful(codec)
    ensures Bearer <= Bearer + codec.encode(c)
    ensures BearerToken(Bearer + codec.encode(c)) == codec.encode(c)
  {
    var token := codec.encode(c);
    var header := Bearer + token;
    assert header[..|Bearer|] == Bearer;
    assert header[|Bearer|..] == token;
  }

  /** The refresh token of a pair issued for an active user exchanges, until it expires, for
      a new pair for the same user. */
  lemma RefreshAfterLogin(codec: Security.Codec, users: Crud.Table<Users.UserData>, u: Users.User, issuedAt: int, t: int)
    requires Security.Lawful(codec) && users.Valid() && u in users.rows && u.rec.isActive
    requires t < issuedAt + Config.RefreshTokenTtl
    ensures RefreshToken(codec, users, Some(Bearer + IssuePair(codec, u, issuedAt).refreshToken), t) == Ok(IssuePair(codec, u, t))
  {
    BearerRoundTrip(codec, Security.RefreshClaims(u.id, issuedAt, None, Some(u.rec.yandexId)));
    Security.RefreshTokenRoundTrip(codec, u.id, issuedAt, None, Some(u.rec.yandexId), t);
    Crud.FindByKey(users.rows, u);
  }

  /** An access token is never accepted by the refresh endpoint. */
  lemma RefreshRejectsAccessToken(codec: Security.Codec, users: Crud.Table<Users.UserData>, subject: int,
                                  issuedAt: int, expiresDelta: Option<int>, yandexId: Option<string>, t: int)
    requires Security.Lawful(codec)
    ensures RefreshToken(codec, users, Some(Bearer + Security.CreateAccessToken(codec, subject, issuedAt, expiresDelta, yandexId)), t)
         == Fail(Unauthorized)
  {
    BearerRoundTrip(codec, Security.AccessClaims(subject, issuedAt, expiresDelta, yandexId));
    Security.TokenKindsDiffer(codec, subject, issuedAt, expiresDelta, yandexId, t);
  }

  /** A refresh token whose external identity is no longer the user's is refused. */
  lemma RefreshRejectsStaleIdentity(codec: Security.Codec, users: Crud.Table<Users.UserData>, u: Users.User,
                                    issuedAt: int, expiresDelta: Option<int>, yandexId: Option<string>, t: int)
    requires Security.Lawful(codec) && users.Valid() && u in users.rows
    requires yandexId != Some(u.rec.yandexId)
    ensures RefreshToken(codec, users, Some(Bearer + Security.CreateRefreshToken(codec, u.id, issuedAt, expiresDelta, yandexId)), t)
         == Fail(Unauthorized)
  {
    var c := Security.RefreshClaims(u.id, issuedAt, expiresDelta, yandexId);
    BearerRoundTrip(codec, c);
    assert codec.decode(codec.encode(c), t) in {None, Some(c)};
    Strings.ParseIntOfIntToString(u.id);
    Crud.FindByKey(users.rows, u);
  }

  /** The access token of a refreshed pair authenticates, for its lifetime, exactly the user
      the refresh token named. */
  lemma RefreshedAccessAuthenticates(codec: Security.Codec, users: Crud.Table<Users.UserData>, header: Option<string>,
                                     now: int, t: int)
    requires Security.Lawful(codec) && users.Valid()
    requires RefreshToken(codec, users, header, now).Ok?
    requires t < now + Config.AccessTokenTtl
    ensures var p := Security.DecodeToken(codec, BearerToken(header.value), now).value;
      var u := users.Get(Security.SubjectId(p.sub).value).value;
      Deps.GetCurrentUser(codec, users, RefreshToken(codec, users, header, now).value.accessToken, t) == Ok(u)
  {
    var p := Security.DecodeToken(codec, BearerToken(header.value), now).value;
    var u := users.Get(Security.SubjectId(p.sub).value).value;
    Deps.AccessTokenAuthenticates(codec, users, u, now, None, Some(u.rec.yandexId), t);
  }
}
