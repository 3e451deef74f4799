/** The client's view of the signed-in user: the payload `getUser` builds
    from the session, the profile and the role rows; `isAuthenticated`;
    `login`, with its error message and the per-user stream cache it clears. */
module Auth {
  import opened Js
  import opened Tables
  import opened Remote

  /** What `getUser` returns for the signed-in user. */
  datatype UserPayload = UserPayload(id: Id, email: Option<string>, username: string, roles: seq<Role>)

  /** A call whose promise rejects, rather than returning an `error`. */
  predicate Raises(faults: Faults, call: Call) {
    call in faults && faults[call].Raised?
  }

  // ----- the stream cache key -----

  const CacheKeyPrefix := "sm_saved_streams_v1_"

  /** `sm_saved_streams_v1_${username || 'anon'}` */
  function CacheKey(username: Option<string>): (key: string)
    ensures |key| > |CacheKeyPrefix| && key[..|CacheKeyPrefix|] == CacheKeyPrefix
    ensures Truthy(username) ==> key[|CacheKeyPrefix|..] == username.value
    ensures !Truthy(username) ==> key[|CacheKeyPrefix|..] == "anon"
  {
    CacheKeyPrefix + Or(username, "anon")
  }

  /** Different usernames have different keys. */
  lemma CacheKeyInjective(a: Option<string>, b: Option<string>)
    requires Truthy(a) && Truthy(b)
    ensures CacheKey(a) == CacheKey(b) <==> a == b
  {
    if CacheKey(a) == CacheKey(b) {
      assert a.value == CacheKey(a)[|CacheKeyPrefix|..];
    }
  }

  /** An undefined username, an empty one and the username `anon` share one key. */
  lemma AnonymousKeysCollide()
    ensures CacheKey(None) == CacheKey(Some("")) == CacheKey(Some("anon"))
  {
  }

  /** `localStorage`, as a map from key to value. */
  class LocalStorage {
    var items: map<string, string>

    constructor (items: map<string, string>)
      ensures this.items == items
    {
      this.items := items;
    }

    method RemoveItem(key: string)
      modifies this
      ensures items == old(items) - {key}
    {
      items := items - {key};
    }
  }

  /** `clearLocalStreamCacheForUser(username)` */
  method ClearLocalStreamCacheForUser(storage: LocalStorage, username: Option<string>)
    modifies storage
    ensures storage.items == old(storage.items) - {CacheKey(username)}
  {
    var key := CacheKey(username);
    storage.RemoveItem(key);
  }

  // ----- the payload -----

  /** `profile?.username || user.email || 'user'`: the first truthy one. */
  function DisplayName(profileName: Option<string>, email: Option<string>): (name: string)
    ensures name != ""
    ensures Truthy(profileName) ==> name == profileName.value
    ensures !Truthy(profileName) && Truthy(email) ==> name == email.value
    ensures !Truthy(profileName) && !Truthy(email) ==> name == "user"
  {
    Or(profileName, Or(email, "user"))
  }

  /** The username `.single()` yields, undefined when its read returned an error. */
  function ProfileName(reply: Reply<Profile>): Option<string> {
    if reply.Ok? then Some(reply.value.username) else None
  }

  /** `auth.getSession()`: a returned error comes with a null session. */
  function SessionOf(session: Option<SessionUser>, faults: Faults): Option<SessionUser> {
    if AuthGetSession in faults then None else session
  }

  /** `getUser`, for the session the client holds, on the store it reads:
      no session gives null, and so does any call that rejects; a read that
      returns an error leaves its part of the payload to the fallbacks. */
  function GetUser(session: Option<SessionUser>, db: Db, faults: Faults): (r: Option<UserPayload>)
    ensures SessionOf(session, faults).None? ==> r.None?
    ensures Raises(faults, AuthGetSession) || Raises(faults, ProfilesSelect) || Raises(faults, UserRolesSelect) ==> r.None?
    ensures SessionOf(session, faults).Some? && !Raises(faults, ProfilesSelect) && !Raises(faults, UserRolesSelect) ==> r.Some?
    ensures r.Some? ==>
      && session.Some? && r.value.id == session.value.id && r.value.email == session.value.email
      && r.value.username != ""
      && r.value.roles == (if UserRolesSelect in faults then [] else RolesOf(db.userRoles, session.value.id))
      && r.value.username == DisplayName(ProfileName(SelectProfileReply(db, faults, session.value.id)), session.value.email)
  {
    if Raises(faults, AuthGetSession) then None
    else match SessionOf(session, faults)
      case None => None
      case Some(user) =>
        var profile := SelectProfileReply(db, faults, user.id);
        var roles := SelectRolesReply(db, faults, user.id);
        if (profile.Err? && profile.fault.Raised?) || (roles.Err? && roles.fault.Raised?) then None
        else Some(UserPayload(user.id, user.email,
                              DisplayName(ProfileName(profile), user.email),
                              if roles.Ok? then roles.value else []))
  }

  /** On a well-formed store whose profile read goes through, the username is
      the profile's when it is truthy, then the email, then `user`; the roles
      are exactly the ones the user's rows grant, each once. */
  lemma PayloadMeaning(session: SessionUser, db: Db, faults: Faults)
    requires WellFormed(db)
    requires ProfilesSelect !in faults && UserRolesSelect !in faults && AuthGetSession !in faults
    ensures var r := GetUser(Some(session), db, faults);
      && r.Some?
      && r.value.username == DisplayName(UsernameOf(db.profiles, session.id), session.email)
      && (forall role :: role in r.value.roles <==> RoleRow(session.id, role) in db.userRoles)
      && UniqueBy(r.value.roles, (role: Role) => role)
  {
    RolesOfDistinct(db.userRoles, session.id);
  }

  /** A profile with an empty username falls through to the email. */
  lemma EmptyUsernameFallsThrough(session: SessionUser, db: Db, faults: Faults)
    requires WellFormed(db)
    requires ProfilesSelect !in faults && UserRolesSelect !in faults && AuthGetSession !in faults
    requires Profile(session.id, "") in db.profiles
    ensures GetUser(Some(session), db, faults).value.username == Or(session.email, "user")
  {
    assert UsernameOf(db.profiles, session.id) == Some("") by {
      UsernameOfUnique(db.profiles, session.id, "");
    }
  }

  // ----- isAuthenticated -----

  /** `isAuthenticated`: rejects when `getSession` rejects; otherwise whether there is a session. */
  function IsAuthenticated(session: Option<SessionUser>, faults: Faults): (r: Reply<bool>)
    ensures Raises(faults, AuthGetSession) <==> r.Err?
    ensures r.Ok? ==> (r.value <==> SessionOf(session, faults).Some?)
  {
    if Raises(faults, AuthGetSession) then Err(faults[AuthGetSession])
    else Ok(SessionOf(session, faults).Some?)
  }

  /** A payload is only ever built for an authenticated client. */
  lemma PayloadOnlyWhenAuthenticated(session: Option<SessionUser>, db: Db, faults: Faults)
    ensures GetUser(session, db, faults).Some? ==> IsAuthenticated(session, faults) == Ok(true)
    ensures (IsAuthenticated(session, faults) == Ok(true) && !Raises(faults, ProfilesSelect)
             && !Raises(faults, UserRolesSelect)) ==> GetUser(session, db, faults).Some?
  {
  }

  // ----- login -----

  /** The message of the error `login` throws when sign-in returns one. */
  function LoginErrorMessage(providerMessage: string): (m: string)
    ensures m != ""
    ensures providerMessage != "" ==> m == providerMessage
    ensures providerMessage == "" ==> m == "Failed to login"
  {
    Or(Some(providerMessage), "Failed to login")
  }

  /** What `login` resolves to (the signed-in user) or rejects with. The
      username is settled only after both reads, so a read that rejects also
      rejects the login. */
  function LoginReply(db: Db, faults: Faults, email: string, password: string): (r: Reply<SessionUser>)
    ensures r.Ok? <==> SignInReply(db, faults, email, password).Ok?
                       && !Raises(faults, ProfilesSelect) && !Raises(faults, UserRolesSelect)
    ensures r.Ok? ==> r == SignInReply(db, faults, email, password)
    ensures var s := SignInReply(db, faults, email, password);
      s.Err? && s.fault.Returned? ==> r == Err(Raised(LoginErrorMessage(s.fault.message)))
    ensures var s := SignInReply(db, faults, email, password);
      s.Err? && s.fault.Raised? ==> r == s
  {
    match SignInReply(db, faults, email, password)
    case Err(Returned(m)) => Err(Raised(LoginErrorMessage(m)))
    case Err(Raised(m)) => Err(Raised(m))
    case Ok(user) =>
      var profile := SelectProfileReply(db, faults, user.id);
      var roles := SelectRolesReply(db, faults, user.id);
      if profile.Err? && profile.fault.Raised? then Err(profile.fault)
      else if roles.Err? && roles.fault.Raised? then Err(roles.fault)
      else Ok(user)
  }

  /** A wrong password is the ordinary failed login: sign-in returns the
      provider's invalid-credentials error, and `login` rethrows its message. */
  lemma WrongPasswordIsReturned(db: Db, faults: Faults, email: string, password: string)
    requires AuthSignIn !in faults
    requires forall a :: a in db.accounts && SameEmail(a, email) ==> a.password != password
    ensures SignInReply(db, faults, email, password) == Err(Returned(InvalidCredentials))
    ensures LoginReply(db, faults, email, password) == Err(Raised(InvalidCredentials))
  {
  }

  /** The username `login` clears the cache for. */
  function LoginUsername(db: Db, faults: Faults, user: SessionUser): string {
    DisplayName(ProfileName(SelectProfileReply(db, faults, user.id)), user.email)
  }

  /** `login`: signs in, reads the profile and the roles, and clears the
      stream cache of the resulting username. */
  method Login(backend: Backend, storage: LocalStorage, email: string, password: string)
    returns (r: Reply<SessionUser>)
    modifies storage
    ensures r == LoginReply(backend.Snapshot(), backend.faults, email, password)
    ensures r.Ok? ==>
      storage.items == old(storage.items) - {CacheKey(Some(LoginUsername(backend.Snapshot(), backend.faults, r.value)))}
    ensures r.Err? ==> storage.items == old(storage.items)
  {
    var signedIn := backend.SignIn(email, password);
    if signedIn.Err? {
      if signedIn.fault.Returned? {
        return Err(Raised(LoginErrorMessage(signedIn.fault.message)));
      }
      return signedIn;
    }
    var user := signedIn.value;
    var profile := backend.SelectProfile(user.id);
    if profile.Err? && profile.fault.Raised? {
      return Err(profile.fault);
    }
    var roles := backend.SelectRoles(user.id);
    if roles.Err? && roles.fault.Raised? {
      return Err(roles.fault);
    }
    var username := DisplayName(ProfileName(profile), user.email);
    ClearLocalStreamCacheForUser(storage, Some(username));
    r := Ok(user);
  }

  /** The key a successful login clears is the cache key of the username the
      payload shows for the same user: the username itself follows the
      prefix, since it is never empty and `anon` is not substituted. */
  lemma LoginClearsPayloadKey(db: Db, faults: Faults, email: string, password: string)
    requires AuthGetSession !in faults
    ensures var r := LoginReply(db, faults, email, password);
      r.Ok? ==>
        var payload := GetUser(Some(r.value), db, faults);
        && payload.Some?
        && LoginUsername(db, faults, r.value) == payload.value.username
        && CacheKey(Some(LoginUsername(db, faults, r.value)))[|CacheKeyPrefix|..] == payload.value.username
  {
  }
}
