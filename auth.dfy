/** The registration route: choose the OAuth client credentials, accept the
    provider's profile only if it fits the profile schema, find or create
    the local user by GitHub id, and issue the claims of a 30-day token.
    The two calls to the provider are not modelled: the request for an
    access token is returned as a value, and the provider's answer arrives
    as a parameter. */
module Auth {
  import opened Http

  /** Lifetime of an issued token, in seconds. */
  const ThirtyDays := 30 * 24 * 60 * 60

  datatype Credentials = Credentials(clientId: string, clientSecret: string)

  /** The OAuth app registrations read from the environment at start-up. */
  datatype Config = Config(web: Credentials, mobile: Credentials)

  /** A registration body that passed its schema. */
  datatype RegisterInput = RegisterInput(code: string, isMobile: bool)

  /** A provider profile that passed the profile schema. */
  datatype Profile = Profile(id: int, login: string, name: string, avatarUrl: string)

  datatype User = User(id: string, githubId: int, login: string, name: string, avatarUrl: string)

  /** The request sent to the provider's access-token endpoint. */
  datatype TokenRequest = TokenRequest(clientId: string, clientSecret: string, code: string)

  /** What the provider's user endpoint answered, or that a call to the
      provider failed. */
  datatype Fetch = Fetched(data: Json) | FetchFailed

  /** The payload of the signed token. */
  datatype Claims = Claims(sub: string, name: string, avatarUrl: string, iat: int, exp: int)

  /** The registration body schema: code is a required string; isMobile is
      coerced to a boolean and is false when absent. */
  function ParseRegisterBody(body: Json): (r: Reply<RegisterInput>)
    ensures r.Fail? ==> r.error == Validation
    ensures r.Ok? <==> body.JObject? && "code" in body.fields && body.fields["code"].JStr?
    ensures r.Ok? ==>
      && body.fields["code"] == JStr(r.value.code)
      && (r.value.isMobile <==> "isMobile" in body.fields && Truthy(body.fields["isMobile"]))
  {
    match body
    case JObject(fields) =>
      var code := StringField(fields, "code");
      if code.Some? then Ok(RegisterInput(code.value, CoercedFlag(fields, "isMobile")))
      else Fail(Validation)
    case _ => Fail(Validation)
  }

  /** Client id and secret are taken together from one registration: the
      mobile one for a mobile client, the web one otherwise. */
  function SelectCredentials(cfg: Config, isMobile: bool): (c: Credentials)
    ensures c == cfg.mobile || c == cfg.web
    ensures cfg.mobile != cfg.web ==> (c == cfg.mobile <==> isMobile)
  {
    if isMobile then cfg.mobile else cfg.web
  }

  /** The profile schema: id is a number, login and name are strings, and
      avatar_url is a string that the URL check accepts. */
  function ParseProfile(data: Json, isUrl: string -> bool): (r: Reply<Profile>)
    ensures r.Fail? ==> r.error == Validation
    ensures r.Ok? <==>
      && data.JObject?
      && "id" in data.fields && data.fields["id"].JNum?
      && "login" in data.fields && data.fields["login"].JStr?
      && "name" in data.fields && data.fields["name"].JStr?
      && "avatar_url" in data.fields && data.fields["avatar_url"].JStr?
      && isUrl(data.fields["avatar_url"].s)
    ensures r.Ok? ==>
      && data.fields["id"] == JNum(r.value.id)
      && data.fields["login"] == JStr(r.value.login)
      && data.fields["name"] == JStr(r.value.name)
      && data.fields["avatar_url"] == JStr(r.value.avatarUrl)
  {
    match data
    case JObject(fields) =>
      var login, name, avatar := StringField(fields, "login"), StringField(fields, "name"), StringField(fields, "avatar_url");
      if "id" in fields && fields["id"].JNum? && login.Some? && name.Some? && avatar.Some? && isUrl(avatar.value) then
        Ok(Profile(fields["id"].n, login.value, name.value, avatar.value))
      else
        Fail(Validation)
    case _ => Fail(Validation)
  }

  /** The user row created for a profile seen for the first time. */
  function NewUser(id: string, p: Profile): User {
    User(id, p.id, p.login, p.name, p.avatarUrl)
  }

  /** The token payload: subject, name and avatar come from the stored user,
      and the token expires thirty days after it is issued. */
  function IssueClaims(u: User, now: int): (c: Claims)
    ensures c.sub == u.id && c.name == u.name && c.avatarUrl == u.avatarUrl
    ensures c.iat == now && c.exp - c.iat == ThirtyDays
  {
    Claims(u.id, u.name, u.avatarUrl, now, now + ThirtyDays)
  }

  ghost predicate KeysMatch(users: map<string, User>) {
    forall k :: k in users ==> users[k].id == k
  }

  /** At most one user per GitHub identity. */
  ghost predicate UniqueGithubIds(users: map<string, User>) {
    forall a, b :: a in users && b in users && users[a].githubId == users[b].githubId ==> a == b
  }

  ghost predicate HasGithubId(users: map<string, User>, githubId: int) {
    exists k :: k in users && users[k].githubId == githubId
  }

  /** The user table after registering profile p: unchanged when a user with
      p's GitHub id exists, otherwise extended by one user built from p under
      the fresh id. */
  ghost function Upserted(users: map<string, User>, p: Profile, newId: string): map<string, User> {
    if HasGithubId(users, p.id) then users else users[newId := NewUser(newId, p)]
  }

  /** Registering keeps the table's invariant and leaves exactly one user
      with the profile's GitHub id; no existing row changes. */
  lemma UpsertedKeepsInvariant(users: map<string, User>, p: Profile, newId: string)
    requires KeysMatch(users) && UniqueGithubIds(users)
    requires newId !in users
    ensures var after := Upserted(users, p, newId);
      && KeysMatch(after) && UniqueGithubIds(after)
      && HasGithubId(after, p.id)
      && (forall k :: k in users ==> k in after && after[k] == users[k])
      && (forall k :: k in after && k !in users ==> k == newId && after[k] == NewUser(newId, p))
  {
    var after := Upserted(users, p, newId);
    if !HasGithubId(users, p.id) {
      assert after[newId].githubId == p.id;
    }
  }

  /** Registering the same profile again changes nothing, whatever fresh id
      the store would hand out the second time. */
  lemma UpsertedIdempotent(users: map<string, User>, p: Profile, newId: string, laterId: string)
    ensures Upserted(Upserted(users, p, newId), p, laterId) == Upserted(users, p, newId)
  {
    var after := Upserted(users, p, newId);
    if !HasGithubId(users, p.id) {
      assert after[newId].githubId == p.id;
    }
  }

  /** The user table, keyed by user id. */
  class UserTable {
    var users: map<string, User>

    ghost predicate Valid()
      reads this
    {
      KeysMatch(users) && UniqueGithubIds(users)
    }

    constructor ()
      ensures Valid() && users == map[]
    {
      users := map[];
    }

    /** The lookup of a user by GitHub id. */
    method FindByGithubId(githubId: int) returns (u: Option<User>)
      requires Valid()
      ensures u.None? <==> !HasGithubId(users, githubId)
      ensures u.Some? ==> u.value.id in users && users[u.value.id] == u.value && u.value.githubId == githubId
    {
      if k :| k in users && users[k].githubId == githubId {
        u := Some(users[k]);
      } else {
        u := None;
      }
    }

    /** POST /register. A body failing its schema stops before the provider
        is called. Otherwise the access-token request is made with one
        credential pair; a provider failure or a profile failing its schema
        stops before the user table is touched. Then the user with the
        profile's GitHub id is reused, or created from the profile, and the
        token's claims are built from the stored user. */
    method Register(cfg: Config, body: Json, fetched: Fetch, isUrl: string -> bool, newId: string, now: int)
      returns (r: Reply<Claims>, exchange: Option<TokenRequest>)
      requires Valid()
      requires newId !in users
      modifies this
      ensures Valid()
      ensures ParseRegisterBody(body).Fail? ==> r == Fail(Validation) && exchange == None
      ensures ParseRegisterBody(body).Ok? ==>
        var input := ParseRegisterBody(body).value;
        var creds := SelectCredentials(cfg, input.isMobile);
        exchange == Some(TokenRequest(creds.clientId, creds.clientSecret, input.code))
      ensures ParseRegisterBody(body).Ok? && fetched.FetchFailed? ==> r == Fail(Upstream)
      ensures ParseRegisterBody(body).Ok? && fetched.Fetched? && ParseProfile(fetched.data, isUrl).Fail? ==>
        r == Fail(Validation)
      ensures r.Fail? ==> users == old(users)
      ensures r.Ok? <==>
        ParseRegisterBody(body).Ok? && fetched.Fetched? && ParseProfile(fetched.data, isUrl).Ok?
      ensures r.Ok? ==>
        var p := ParseProfile(fetched.data, isUrl).value;
        && users == Upserted(old(users), p, newId)
        && r.value.sub in users && users[r.value.sub].githubId == p.id
        && r.value == IssueClaims(users[r.value.sub], now)
    {
      var parsed := ParseRegisterBody(body);
      if parsed.Fail? {
        return Fail(Validation), None;
      }
      var input := parsed.value;
      var creds := SelectCredentials(cfg, input.isMobile);
      exchange := Some(TokenRequest(creds.clientId, creds.clientSecret, input.code));
      if fetched.FetchFailed? {
        return Fail(Upstream), exchange;
      }
      var profile := ParseProfile(fetched.data, isUrl);
      if profile.Fail? {
        return Fail(Validation), exchange;
      }
      var p := profile.value;
      UpsertedKeepsInvariant(users, p, newId);
      var found := FindByGithubId(p.id);
      var user: User;
      if found.Some? {
        user := found.value;
      } else {
        user := NewUser(newId, p);
        users := users[newId := user];
      }
      r := Ok(IssueClaims(user, now));
    }
  }
}
