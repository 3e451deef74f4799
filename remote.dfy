/** The Supabase calls the core makes (table reads and writes, auth and the
    auth admin API), each as an operation on the remote state that either takes
    effect or fails. A call named in `faults` fails, every time it is made,
    with the fault given there and without touching the state; the other
    failures (a unique-key conflict, an unknown user, a taken email, bad
    credentials) follow from the state. */
module Remote {
  import opened Js
  import opened Tables

  /** The remote calls of the core. */
  datatype Call =
    | ProfilesSelect | UserRolesSelect | UserRolesInsert | UserRolesDelete
    | ProfilesUpsert | UserRolesUpsert
    | AuthGetSession | AuthSignIn | AuthSignUp
    | AdminCreateUser | AdminListUsers | AdminDeleteUser | AdminUpdateUser

  /** How a call fails: with an `error` in its response, or by rejecting its promise. */
  datatype Fault = Returned(message: string) | Raised(message: string)

  datatype Reply<+T> = Ok(value: T) | Err(fault: Fault)

  /** The reply of a call that writes, with the remote state after it. */
  datatype Step<+T> = Step(db: Db, reply: Reply<T>)

  /** The calls that fail, and how. */
  type Faults = map<Call, Fault>

  /** The user a session belongs to. */
  datatype SessionUser = SessionUser(id: Id, email: Option<string>)

  // Messages of the store and of the provider for the failures that follow from the state.
  const DuplicateKey := "duplicate key value violates unique constraint"
  const EmailExists := "User already registered"
  const UserNotFound := "User not found"
  const NotSingleRow := "JSON object requested, multiple (or no) rows returned"
  const InvalidCredentials := "Invalid login credentials"

  function Min(a: int, b: int): int { if a < b then a else b }

  // ----- reads -----

  /** `from('profiles').select(...)` */
  function SelectProfilesReply(db: Db, faults: Faults): Reply<seq<Profile>> {
    if ProfilesSelect in faults then Err(faults[ProfilesSelect]) else Ok(db.profiles)
  }

  /** `from('user_roles').select('user_id, role')` */
  function SelectUserRolesReply(db: Db, faults: Faults): Reply<seq<RoleRow>> {
    if UserRolesSelect in faults then Err(faults[UserRolesSelect]) else Ok(db.userRoles)
  }

  /** `from('profiles').select('username').eq('user_id', id).single()`: an
      error unless exactly one row matches. */
  function SelectProfileReply(db: Db, faults: Faults, id: Id): (r: Reply<Profile>)
    ensures r.Ok? ==> r.value in db.profiles && r.value.userId == id
    ensures WellFormed(db) && ProfilesSelect !in faults ==>
      (r.Ok? <==> UsernameOf(db.profiles, id).Some?) &&
      (r.Ok? ==> r.value.username == UsernameOf(db.profiles, id).value)
  {
    if ProfilesSelect in faults then Err(faults[ProfilesSelect])
    else
      var rows := Filter(db.profiles, (p: Profile) => p.userId == id);
      if |rows| == 1 then
        assert rows[0] in rows;
        UniqueProfile(db, id);
        Ok(rows[0])
      else
        UniqueProfile(db, id);
        Err(Returned(NotSingleRow))
  }

  /** In a well-formed store the rows of one user id are the one `UsernameOf` finds. */
  lemma UniqueProfile(db: Db, id: Id)
    ensures WellFormed(db) ==>
      var rows := Filter(db.profiles, (p: Profile) => p.userId == id);
      (|rows| == 1 <==> UsernameOf(db.profiles, id).Some?) &&
      (|rows| == 1 ==> rows[0] == Profile(id, UsernameOf(db.profiles, id).value))
  {
    if WellFormed(db) {
      var rows := Filter(db.profiles, (p: Profile) => p.userId == id);
      FilterUniqueBy(db.profiles, (p: Profile) => p.userId == id, (p: Profile) => p.userId);
      AtMostOneWithKey(rows, (p: Profile) => p.userId, id);
      var name := UsernameOf(db.profiles, id);
      if name.Some? {
        assert Profile(id, name.value) in rows;
      } else {
        FilterKeepsNone(db.profiles, (p: Profile) => p.userId == id);
      }
    }
  }

  /** `from('user_roles').select('role').eq('user_id', id)` */
  function SelectRolesReply(db: Db, faults: Faults, id: Id): Reply<seq<Role>> {
    if UserRolesSelect in faults then Err(faults[UserRolesSelect]) else Ok(RolesOf(db.userRoles, id))
  }

  /** `from("user_roles").select("user_id").eq("role", "admin").limit(1)` */
  function SelectAdminsReply(db: Db, faults: Faults): (r: Reply<seq<Id>>)
    ensures r.Ok? ==> |r.value| <= 1
    ensures r.Ok? ==> (|r.value| == 0 <==> forall x :: x in db.userRoles ==> x.role != Admin)
  {
    if UserRolesSelect in faults then Err(faults[UserRolesSelect])
    else match Find(db.userRoles, (x: RoleRow) => x.role == Admin)
      case None => Ok([])
      case Some(k) => Ok([db.userRoles[k].userId])
  }

  /** `auth.admin.listUsers({page, perPage})`: one page of the accounts. */
  function ListUsersReply(db: Db, faults: Faults, page: nat, perPage: nat): (r: Reply<seq<Account>>)
    requires page >= 1
    ensures r.Ok? ==> |r.value| <= perPage
    ensures r.Ok? && page == 1 ==> r.value == db.accounts[..Min(perPage, |db.accounts|)]
  {
    if AdminListUsers in faults then Err(faults[AdminListUsers])
    else
      var n := |db.accounts|;
      Ok(db.accounts[Min((page - 1) * perPage, n)..Min(page * perPage, n)])
  }

  /** `auth.signInWithPassword({email, password})` */
  function SignInReply(db: Db, faults: Faults, email: string, password: string): (r: Reply<SessionUser>)
    ensures r.Ok? ==> exists a :: a in db.accounts && SameEmail(a, email) && a.password == password
                               && r.value == SessionUser(a.id, a.email)
  {
    if AuthSignIn in faults then Err(faults[AuthSignIn])
    else match Find(db.accounts, (a: Account) => SameEmail(a, email))
      case Some(k) =>
        if db.accounts[k].password == password then
          assert db.accounts[k] in db.accounts;
          Ok(SessionUser(db.accounts[k].id, db.accounts[k].email))
        else Err(Returned(InvalidCredentials))
      case None => Err(Returned(InvalidCredentials))
  }

  // ----- writes -----

  /** `from('user_roles').insert({user_id, role})`: a row that is already
      there is a unique-key conflict. */
  function InsertRoleStep(db: Db, faults: Faults, row: RoleRow): Step<()> {
    if UserRolesInsert in faults then Step(db, Err(faults[UserRolesInsert]))
    else if row in db.userRoles then Step(db, Err(Returned(DuplicateKey)))
    else Step(db.(userRoles := db.userRoles + [row]), Ok(()))
  }

  /** `from('user_roles').delete().eq('user_id', userId).eq('role', role)` */
  function DeleteRoleStep(db: Db, faults: Faults, userId: Id, role: Role): Step<()> {
    if UserRolesDelete in faults then Step(db, Err(faults[UserRolesDelete]))
    else Step(db.(userRoles := WithoutRole(db.userRoles, userId, role)), Ok(()))
  }

  /** `from("profiles").upsert({user_id, username}, {onConflict: "user_id"})` */
  function UpsertProfileStep(db: Db, faults: Faults, userId: Id, username: string): Step<()> {
    if ProfilesUpsert in faults then Step(db, Err(faults[ProfilesUpsert]))
    else Step(db.(profiles := SetUsername(db.profiles, userId, username)), Ok(()))
  }

  /** `from("user_roles").upsert({user_id, role}, {onConflict: "user_id,role"})` */
  function UpsertRoleStep(db: Db, faults: Faults, row: RoleRow): Step<()> {
    if UserRolesUpsert in faults then Step(db, Err(faults[UserRolesUpsert]))
    else Step(db.(userRoles := WithRow(db.userRoles, row)), Ok(()))
  }

  /** A new account, as `auth.signUp` (call `AuthSignUp`) and
      `auth.admin.createUser` (call `AdminCreateUser`) make it: refused when an
      account has the same email. */
  function RegisterStep(db: Db, faults: Faults, call: Call, email: string, password: string): Step<Id> {
    if call in faults then Step(db, Err(faults[call]))
    else if EmailTaken(db.accounts, email) then Step(db, Err(Returned(EmailExists)))
    else
      var id := FreshId(db);
      Step(db.(accounts := db.accounts + [Account(id, Some(email), password)]), Ok(id))
  }

  /** `auth.admin.deleteUser(id)` */
  function DeleteUserStep(db: Db, faults: Faults, id: Id): Step<()> {
    if AdminDeleteUser in faults then Step(db, Err(faults[AdminDeleteUser]))
    else if !HasAccount(db.accounts, id) then Step(db, Err(Returned(UserNotFound)))
    else Step(WithoutAccount(db, id), Ok(()))
  }

  /** `auth.admin.updateUserById(id, {password})` */
  function UpdatePasswordStep(db: Db, faults: Faults, id: Id, password: string): Step<()> {
    if AdminUpdateUser in faults then Step(db, Err(faults[AdminUpdateUser]))
    else if !HasAccount(db.accounts, id) then Step(db, Err(Returned(UserNotFound)))
    else Step(db.(accounts := SetPassword(db.accounts, id, password)), Ok(()))
  }

  // ----- what the writes do -----

  /** An insert adds exactly its row; a failed one, the duplicate among them,
      changes nothing. */
  lemma InsertAddsExactlyTheRow(db: Db, faults: Faults, row: RoleRow)
    ensures var s := InsertRoleStep(db, faults, row);
      && (s.reply.Ok? ==> forall x :: x in s.db.userRoles <==> x in db.userRoles || x == row)
      && (s.reply.Err? ==> s.db == db)
      && (row in db.userRoles && UserRolesInsert !in faults ==> s.reply == Err(Returned(DuplicateKey)))
      && s.db.accounts == db.accounts && s.db.profiles == db.profiles
  {
  }

  /** A delete removes exactly the rows with both the user id and the role;
      deleting a pair that is not there changes nothing. */
  lemma DeleteRemovesExactlyThePair(db: Db, faults: Faults, userId: Id, role: Role)
    ensures var s := DeleteRoleStep(db, faults, userId, role);
      && (s.reply.Ok? ==> forall x :: x in s.db.userRoles <==> x in db.userRoles && x != RoleRow(userId, role))
      && (RoleRow(userId, role) !in db.userRoles ==> s.db == db)
      && s.db.accounts == db.accounts && s.db.profiles == db.profiles
  {
  }

  /** Upserting a profile twice is upserting it once. */
  lemma {:induction false} UpsertProfileIdempotent(db: Db, faults: Faults, userId: Id, username: string)
    ensures var once := UpsertProfileStep(db, faults, userId, username);
      UpsertProfileStep(once.db, faults, userId, username) == once
  {
    SetUsernameIdempotent(db.profiles, userId, username);
  }

  /** Upserting a role row twice is upserting it once. */
  lemma UpsertRoleIdempotent(db: Db, faults: Faults, row: RoleRow)
    ensures var once := UpsertRoleStep(db, faults, row);
      UpsertRoleStep(once.db, faults, row) == once
  {
    var once := UpsertRoleStep(db, faults, row);
    if once.reply.Ok? {
      assert row in once.db.userRoles;
    }
  }

  /** A new account gets an id that owns no profile and no role. */
  lemma RegisterCreatesBareAccount(db: Db, faults: Faults, call: Call, email: string, password: string)
    ensures var s := RegisterStep(db, faults, call, email, password);
      s.reply.Ok? ==>
        && s.db.accounts == db.accounts + [Account(s.reply.value, Some(email), password)]
        && !HasAccount(db.accounts, s.reply.value)
        && UsernameOf(s.db.profiles, s.reply.value).None?
        && RolesOf(s.db.userRoles, s.reply.value) == []
        && !EmailTaken(db.accounts, email)
  {
    var s := RegisterStep(db, faults, call, email, password);
    if s.reply.Ok? {
      RolesOfOther(s.db.userRoles, s.reply.value);
    }
  }

  /** A changed password is the one sign-in then accepts. */
  lemma PasswordChangeTakesEffect(db: Db, faults: Faults, id: Id, email: string, password: string)
    requires WellFormed(db)
    requires exists a :: a in db.accounts && a.id == id && a.email == Some(email)
    requires forall a :: a in db.accounts && SameEmail(a, email) ==> a.id == id
    requires AuthSignIn !in faults
    ensures var s := UpdatePasswordStep(db, faults, id, password);
      s.reply.Ok? ==> SignInReply(s.db, faults, email, password) == Ok(SessionUser(id, Some(email)))
  {
    var s := UpdatePasswordStep(db, faults, id, password);
    if s.reply.Ok? {
      var a :| a in db.accounts && a.id == id && a.email == Some(email);
      var j :| 0 <= j < |db.accounts| && db.accounts[j] == a;
      var accounts := s.db.accounts;
      assert accounts[j].email == a.email;
      var k := Find(accounts, (b: Account) => SameEmail(b, email));
      assert k.Some?;
      var b := db.accounts[k.value];
      assert accounts[k.value].email == b.email;
      assert b in db.accounts && SameEmail(b, email);
      assert k.value == j;
    }
  }

  // ----- every write keeps the store's unique keys -----

  lemma InsertRoleKeepsWellFormed(db: Db, faults: Faults, row: RoleRow)
    requires WellFormed(db)
    ensures WellFormed(InsertRoleStep(db, faults, row).db)
  {
    if row !in db.userRoles {
      AppendUnique(db.userRoles, row);
    }
  }

  lemma DeleteRoleKeepsWellFormed(db: Db, faults: Faults, userId: Id, role: Role)
    requires WellFormed(db)
    ensures WellFormed(DeleteRoleStep(db, faults, userId, role).db)
  {
    FilterUniqueBy(db.userRoles, (x: RoleRow) => x != RoleRow(userId, role), (r: RoleRow) => r);
  }

  lemma UpsertProfileKeepsWellFormed(db: Db, faults: Faults, userId: Id, username: string)
    requires WellFormed(db)
    ensures WellFormed(UpsertProfileStep(db, faults, userId, username).db)
  {
    SetUsernameUnique(db.profiles, userId, username);
  }

  lemma UpsertRoleKeepsWellFormed(db: Db, faults: Faults, row: RoleRow)
    requires WellFormed(db)
    ensures WellFormed(UpsertRoleStep(db, faults, row).db)
  {
    if row !in db.userRoles {
      AppendUnique(db.userRoles, row);
    }
  }

  lemma RegisterKeepsWellFormed(db: Db, faults: Faults, call: Call, email: string, password: string)
    requires WellFormed(db)
    ensures WellFormed(RegisterStep(db, faults, call, email, password).db)
  {
    var grown := db.accounts + [Account(FreshId(db), Some(email), password)];
    forall i, j | 0 <= i < j < |grown| ensures grown[i].id != grown[j].id {
      assert grown[i] == db.accounts[i] && grown[i] in db.accounts;
      if j < |db.accounts| {
        assert grown[j] == db.accounts[j];
      }
    }
  }

  lemma DeleteUserKeepsWellFormed(db: Db, faults: Faults, id: Id)
    requires WellFormed(db)
    ensures WellFormed(DeleteUserStep(db, faults, id).db)
  {
    WithoutAccountWellFormed(db, id);
  }

  lemma UpdatePasswordKeepsWellFormed(db: Db, faults: Faults, id: Id, password: string)
    requires WellFormed(db)
    ensures WellFormed(UpdatePasswordStep(db, faults, id, password).db)
  {
    var updated := SetPassword(db.accounts, id, password);
    forall i, j | 0 <= i < j < |updated| ensures updated[i].id != updated[j].id {
      assert updated[i].id == db.accounts[i].id && updated[j].id == db.accounts[j].id;
    }
  }

  /** The remote state, updated in place by the calls. */
  class Backend {
    var accounts: seq<Account>
    var profiles: seq<Profile>
    var userRoles: seq<RoleRow>
    const faults: Faults

    function Snapshot(): Db
      reads this
    {
      Db(accounts, profiles, userRoles)
    }

    ghost predicate Valid()
      reads this
    {
      WellFormed(Snapshot())
    }

    constructor (db: Db, faults: Faults)
      requires WellFormed(db)
      ensures Valid() && Snapshot() == db && this.faults == faults
    {
      accounts, profiles, userRoles := db.accounts, db.profiles, db.userRoles;
      this.faults := faults;
    }

    method SelectProfiles() returns (r: Reply<seq<Profile>>)
      ensures r == SelectProfilesReply(Snapshot(), faults)
    {
      if ProfilesSelect in faults {
        r := Err(faults[ProfilesSelect]);
      } else {
        r := Ok(profiles);
      }
    }

    method SelectUserRoles() returns (r: Reply<seq<RoleRow>>)
      ensures r == SelectUserRolesReply(Snapshot(), faults)
    {
      if UserRolesSelect in faults {
        r := Err(faults[UserRolesSelect]);
      } else {
        r := Ok(userRoles);
      }
    }

    method SelectAdmins() returns (r: Reply<seq<Id>>)
      ensures r == SelectAdminsReply(Snapshot(), faults)
    {
      if UserRolesSelect in faults {
        return Err(faults[UserRolesSelect]);
      }
      var i := 0;
      while i < |userRoles|
        invariant i <= |userRoles|
        invariant forall j :: 0 <= j < i ==> userRoles[j].role != Admin
      {
        if userRoles[i].role == Admin {
          assert Find(userRoles, (x: RoleRow) => x.role == Admin) == Some(i);
          return Ok([userRoles[i].userId]);
        }
        i := i + 1;
      }
      r := Ok([]);
    }

    method SelectProfile(id: Id) returns (r: Reply<Profile>)
      ensures r == SelectProfileReply(Snapshot(), faults, id)
    {
      if ProfilesSelect in faults {
        return Err(faults[ProfilesSelect]);
      }
      var rows := Filter(profiles, (p: Profile) => p.userId == id);
      if |rows| == 1 {
        r := Ok(rows[0]);
      } else {
        r := Err(Returned(NotSingleRow));
      }
    }

    method SelectRoles(id: Id) returns (r: Reply<seq<Role>>)
      ensures r == SelectRolesReply(Snapshot(), faults, id)
    {
      if UserRolesSelect in faults {
        r := Err(faults[UserRolesSelect]);
      } else {
        r := Ok(RolesOf(userRoles, id));
      }
    }

    method SignIn(email: string, password: string) returns (r: Reply<SessionUser>)
      ensures r == SignInReply(Snapshot(), faults, email, password)
    {
      if AuthSignIn in faults {
        return Err(faults[AuthSignIn]);
      }
      var k := Find(accounts, (a: Account) => SameEmail(a, email));
      if k.Some? && accounts[k.value].password == password {
        r := Ok(SessionUser(accounts[k.value].id, accounts[k.value].email));
      } else {
        r := Err(Returned(InvalidCredentials));
      }
    }

    method ListUsers(page: nat, perPage: nat) returns (r: Reply<seq<Account>>)
      requires page >= 1
      ensures r == ListUsersReply(Snapshot(), faults, page, perPage)
    {
      if AdminListUsers in faults {
        r := Err(faults[AdminListUsers]);
      } else {
        var n := |accounts|;
        r := Ok(accounts[Min((page - 1) * perPage, n)..Min(page * perPage, n)]);
      }
    }

    method InsertRole(row: RoleRow) returns (r: Reply<()>)
      requires Valid()
      modifies this
      ensures Valid() && Step(Snapshot(), r) == InsertRoleStep(old(Snapshot()), faults, row)
    {
      InsertRoleKeepsWellFormed(Snapshot(), faults, row);
      if UserRolesInsert in faults {
        r := Err(faults[UserRolesInsert]);
      } else if row in userRoles {
        r := Err(Returned(DuplicateKey));
      } else {
        userRoles := userRoles + [row];
        r := Ok(());
      }
    }

    method DeleteRole(userId: Id, role: Role) returns (r: Reply<()>)
      requires Valid()
      modifies this
      ensures Valid() && Step(Snapshot(), r) == DeleteRoleStep(old(Snapshot()), faults, userId, role)
    {
      DeleteRoleKeepsWellFormed(Snapshot(), faults, userId, role);
      if UserRolesDelete in faults {
        r := Err(faults[UserRolesDelete]);
      } else {
        userRoles := WithoutRole(userRoles, userId, role);
        r := Ok(());
      }
    }

    method UpsertProfile(userId: Id, username: string) returns (r: Reply<()>)
      requires Valid()
      modifies this
      ensures Valid() && Step(Snapshot(), r) == UpsertProfileStep(old(Snapshot()), faults, userId, username)
    {
      UpsertProfileKeepsWellFormed(Snapshot(), faults, userId, username);
      if ProfilesUpsert in faults {
        r := Err(faults[ProfilesUpsert]);
      } else {
        profiles := SetUsername(profiles, userId, username);
        r := Ok(());
      }
    }

    method UpsertRole(row: RoleRow) returns (r: Reply<()>)
      requires Valid()
      modifies this
      ensures Valid() && Step(Snapshot(), r) == UpsertRoleStep(old(Snapshot()), faults, row)
    {
      UpsertRoleKeepsWellFormed(Snapshot(), faults, row);
      if UserRolesUpsert in faults {
        r := Err(faults[UserRolesUpsert]);
      } else {
        if row !in userRoles {
          userRoles := userRoles + [row];
        }
        r := Ok(());
      }
    }

    /** `auth.signUp` when `call` is `AuthSignUp`, `auth.admin.createUser` when it is `AdminCreateUser`. */
    method Register(call: Call, email: string, password: string) returns (r: Reply<Id>)
      requires Valid()
      modifies this
      ensures Valid() && Step(Snapshot(), r) == RegisterStep(old(Snapshot()), faults, call, email, password)
    {
      RegisterKeepsWellFormed(Snapshot(), faults, call, email, password);
      if call in faults {
        r := Err(faults[call]);
      } else if EmailTaken(accounts, email) {
        r := Err(Returned(EmailExists));
      } else {
        var id := FreshId(Snapshot());
        accounts := accounts + [Account(id, Some(email), password)];
        r := Ok(id);
      }
    }

    method DeleteUser(id: Id) returns (r: Reply<()>)
      requires Valid()
      modifies this
      ensures Valid() && Step(Snapshot(), r) == DeleteUserStep(old(Snapshot()), faults, id)
    {
      DeleteUserKeepsWellFormed(Snapshot(), faults, id);
      if AdminDeleteUser in faults {
        r := Err(faults[AdminDeleteUser]);
      } else if !HasAccount(accounts, id) {
        r := Err(Returned(UserNotFound));
      } else {
        var rest := WithoutAccount(Snapshot(), id);
        accounts, profiles, userRoles := rest.accounts, rest.profiles, rest.userRoles;
        r := Ok(());
      }
    }

    method UpdatePassword(id: Id, password: string) returns (r: Reply<()>)
      requires Valid()
      modifies this
      ensures Valid() && Step(Snapshot(), r) == UpdatePasswordStep(old(Snapshot()), faults, id, password)
    {
      UpdatePasswordKeepsWellFormed(Snapshot(), faults, id, password);
      if AdminUpdateUser in faults {
        r := Err(faults[AdminUpdateUser]);
      } else if !HasAccount(accounts, id) {
        r := Err(Returned(UserNotFound));
      } else {
        accounts := SetPassword(accounts, id, password);
        r := Ok(());
      }
    }
  }
}
