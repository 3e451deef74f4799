/** The `provision-admin` edge function: when no user holds `admin`, it
    creates the default administrator account (or finds it, when it already
    exists), gives it the profile `admin` and the `admin` role. */
module ProvisionAdmin {
  import opened Js
  import opened Tables
  import opened Remote

  const AdminEmail := "admin@admin.com"
  const AdminPassword := "123456"
  const AdminUsername := "admin"
  /** The page of `listUsers` searched when creation fails. */
  const ListPageSize: nat := 1000
  const Unresolved := "Failed to resolve admin user id"

  /** The JSON body of the response. */
  datatype Response = AlreadyProvisioned | Created | Failed(error: string)

  /** The HTTP status: 500 for a failure, 200 otherwise. */
  function Status(response: Response): int {
    if response.Failed? then 500 else 200
  }

  /** A run: the store after it, and its response. */
  datatype Outcome = Outcome(db: Db, response: Response)

  /** `u.email?.toLowerCase() === email` */
  predicate IsAdminEmail(a: Account) {
    a.email.Some? && ToLowerCase(a.email.value) == AdminEmail
  }

  lemma AdminEmailIsLowerCase()
    ensures ToLowerCase(AdminEmail) == AdminEmail
  {
    ToLowerCaseOfLower(AdminEmail);
  }

  /** The store's case-insensitive email match and the handler's lower-cased
      comparison agree on the administrator's email. */
  lemma IsAdminEmailMeansSameEmail(a: Account)
    ensures IsAdminEmail(a) <==> SameEmail(a, AdminEmail)
  {
    AdminEmailIsLowerCase();
  }

  /** The administrator's id: the created account's, or, when creation
      returned an error, the first account on the first page of
      `listUsers` whose lower-cased email is the administrator's. A creation
      that raised, a failed listing and an empty search fail. */
  function Resolve(db: Db, faults: Faults, created: Reply<Id>): (r: Reply<Id>)
    ensures created.Ok? ==> r == created
    ensures created.Err? && created.fault.Raised? ==> r == created
    ensures created.Err? && created.fault.Returned? && AdminListUsers in faults ==> r == Err(faults[AdminListUsers])
    ensures created.Err? && created.fault.Returned? && AdminListUsers !in faults ==>
      var page := db.accounts[..Min(ListPageSize, |db.accounts|)];
      && (r.Ok? ==> exists k :: 0 <= k < |page| && IsAdminEmail(page[k]) && r.value == page[k].id
                               && forall j :: 0 <= j < k ==> !IsAdminEmail(page[j]))
      && (r.Err? ==> r == created && forall a :: a in page ==> !IsAdminEmail(a))
  {
    if created.Ok? || created.fault.Raised? then created
    else match ListUsersReply(db, faults, 1, ListPageSize)
      case Err(f) => Err(f)
      case Ok(page) =>
        match Find(page, IsAdminEmail)
        case None => created
        case Some(k) => Ok(page[k].id)
  }

  /** Steps 3 and 4: the profile upsert, then the role upsert, stopping at the first failure. */
  function Grant(db: Db, faults: Faults, id: Id): (o: Outcome)
    ensures o.response != AlreadyProvisioned
    ensures o.db.accounts == db.accounts
    ensures o.response == Created ==>
      UsernameOf(o.db.profiles, id) == Some(AdminUsername) && o.db.userRoles == WithRow(db.userRoles, RoleRow(id, Admin))
    ensures o.response != Created ==> o.db.userRoles == db.userRoles
  {
    var p := UpsertProfileStep(db, faults, id, AdminUsername);
    if p.reply.Err? then Outcome(p.db, Failed(p.reply.fault.message))
    else
      var q := UpsertRoleStep(p.db, faults, RoleRow(id, Admin));
      if q.reply.Err? then Outcome(q.db, Failed(q.reply.fault.message))
      else Outcome(q.db, Created)
  }

  /** Step 2 and on, once no admin was found. */
  function Bootstrap(db: Db, faults: Faults): (o: Outcome)
    ensures o.response != AlreadyProvisioned
    ensures o.db.accounts == db.accounts
      || (!EmailTaken(db.accounts, AdminEmail)
          && o.db.accounts == db.accounts + [Account(FreshId(db), Some(AdminEmail), AdminPassword)])
  {
    var c := RegisterStep(db, faults, AdminCreateUser, AdminEmail, AdminPassword);
    match Resolve(c.db, faults, c.reply)
    case Err(f) => Outcome(c.db, Failed(f.message))
    case Ok(id) => if id == "" then Outcome(c.db, Failed(Unresolved)) else Grant(c.db, faults, id)
  }

  /** The whole handler, on the store it runs against. */
  function Provision(db: Db, faults: Faults): Outcome {
    match SelectAdminsReply(db, faults)
    case Err(f) => Outcome(db, Failed(f.message))
    case Ok(admins) => if |admins| > 0 then Outcome(db, AlreadyProvisioned) else Bootstrap(db, faults)
  }

  /** The handler of the edge function; `adminUserId` starts out null and is
      set by exactly one of the two branches. */
  method Run(backend: Backend) returns (response: Response)
    requires backend.Valid()
    modifies backend
    ensures backend.Valid()
    ensures Outcome(backend.Snapshot(), response) == Provision(old(backend.Snapshot()), backend.faults)
  {
    var admins := backend.SelectAdmins();
    if admins.Err? {
      return Failed(admins.fault.message);
    }
    if |admins.value| > 0 {
      return AlreadyProvisioned;
    }
    ghost var db0 := backend.Snapshot();
    assert Provision(db0, backend.faults) == Bootstrap(db0, backend.faults);
    var adminUserId: Option<Id> := None;
    var created := backend.Register(AdminCreateUser, AdminEmail, AdminPassword);
    ghost var c := RegisterStep(db0, backend.faults, AdminCreateUser, AdminEmail, AdminPassword);
    assert backend.Snapshot() == c.db && created == c.reply;
    if created.Err? {
      if created.fault.Raised? {
        return Failed(created.fault.message);
      }
      var list := backend.ListUsers(1, ListPageSize);
      if list.Err? {
        return Failed(list.fault.message);
      }
      var found := Find(list.value, IsAdminEmail);
      if found.None? {
        return Failed(created.fault.message);
      }
      adminUserId := Some(list.value[found.value].id);
    } else {
      adminUserId := Some(created.value);
    }
    assert Resolve(c.db, backend.faults, c.reply) == Ok(adminUserId.value);
    if !Truthy(adminUserId) {
      return Failed(Unresolved);
    }
    assert Bootstrap(db0, backend.faults) == Grant(c.db, backend.faults, adminUserId.value);
    var profileReply := backend.UpsertProfile(adminUserId.value, AdminUsername);
    if profileReply.Err? {
      return Failed(profileReply.fault.message);
    }
    var roleReply := backend.UpsertRole(RoleRow(adminUserId.value, Admin));
    if roleReply.Err? {
      return Failed(roleReply.fault.message);
    }
    response := Created;
  }

  // ----- what a run does -----

  predicate NoAdmin(db: Db) {
    forall x :: x in db.userRoles ==> x.role != Admin
  }

  /** A run answers 500 exactly when one of its steps fails: the admin read,
      the search for the administrator's id, or one of the two upserts. */
  lemma StatusOfRun(db: Db, faults: Faults)
    ensures var c := RegisterStep(db, faults, AdminCreateUser, AdminEmail, AdminPassword);
      var r := Resolve(c.db, faults, c.reply);
      Status(Provision(db, faults).response) == 500 <==>
        UserRolesSelect in faults
        || (NoAdmin(db) && (r.Err? || r.value == "" || ProfilesUpsert in faults || UserRolesUpsert in faults))
  {
  }

  /** The run reports `alreadyProvisioned` exactly when the read succeeds and
      finds an admin row, and then it changes nothing. */
  lemma AlreadyProvisionedMeansNoOp(db: Db, faults: Faults)
    ensures var o := Provision(db, faults);
      (o.response == AlreadyProvisioned <==> UserRolesSelect !in faults && !NoAdmin(db))
      && (o.response == AlreadyProvisioned ==> o.db == db)
  {
  }

  /** The id the search resolves belongs to an account with the
      administrator's email. */
  lemma ResolvedIsAdminAccount(db: Db, faults: Faults)
    ensures var c := RegisterStep(db, faults, AdminCreateUser, AdminEmail, AdminPassword);
      var r := Resolve(c.db, faults, c.reply);
      r.Ok? ==> exists a :: a in c.db.accounts && a.id == r.value && IsAdminEmail(a)
  {
    var c := RegisterStep(db, faults, AdminCreateUser, AdminEmail, AdminPassword);
    var r := Resolve(c.db, faults, c.reply);
    if r.Ok? {
      if c.reply.Ok? {
        var a := Account(r.value, Some(AdminEmail), AdminPassword);
        assert c.db.accounts == db.accounts + [a];
        assert a in c.db.accounts;
        assert IsAdminEmail(a) by {
          AdminEmailIsLowerCase();
        }
      } else {
        assert c.reply.fault.Returned? && AdminListUsers !in faults;
        var page := c.db.accounts[..Min(ListPageSize, |c.db.accounts|)];
        var k :| 0 <= k < |page| && IsAdminEmail(page[k]) && r.value == page[k].id;
        assert page[k] == c.db.accounts[k];
        assert page[k] in c.db.accounts;
      }
    }
  }

  /** After `created`, the administrator's account, profile and role are in the store. */
  lemma CreatedEstablishesAdmin(db: Db, faults: Faults)
    ensures var o := Provision(db, faults);
      o.response == Created ==>
        exists a :: a in o.db.accounts && IsAdminEmail(a) && a.id != ""
                    && UsernameOf(o.db.profiles, a.id) == Some(AdminUsername)
                    && RoleRow(a.id, Admin) in o.db.userRoles
  {
    var o := Provision(db, faults);
    if o.response == Created {
      ResolvedIsAdminAccount(db, faults);
    }
  }

  /** A failed creation that finds no listed administrator reports the
      creation's error and leaves the store as it was. */
  lemma UnresolvedCreationWritesNothing(db: Db, faults: Faults)
    requires UserRolesSelect !in faults && NoAdmin(db)
    requires RegisterStep(db, faults, AdminCreateUser, AdminEmail, AdminPassword).reply.Err?
    ensures var c := RegisterStep(db, faults, AdminCreateUser, AdminEmail, AdminPassword);
      Resolve(db, faults, c.reply).Err? ==>
        Provision(db, faults).db == db
        && (c.reply.fault.Raised? || AdminListUsers !in faults ==>
              Provision(db, faults).response == Failed(c.reply.fault.message))
  {
  }

  /** Each step of the grant is idempotent, so the grant is too. */
  lemma GrantIdempotent(db: Db, faults: Faults, id: Id)
    ensures var once := Grant(db, faults, id);
      Grant(once.db, faults, id) == once
  {
    var p := UpsertProfileStep(db, faults, id, AdminUsername);
    UpsertProfileIdempotent(db, faults, id, AdminUsername);
    if p.reply.Ok? {
      var q := UpsertRoleStep(p.db, faults, RoleRow(id, Admin));
      UpsertRoleIdempotent(p.db, faults, RoleRow(id, Admin));
      if q.reply.Ok? {
        assert q.db.profiles == p.db.profiles;
        assert UpsertProfileStep(q.db, faults, id, AdminUsername).db == q.db;
      }
    }
  }

  /** When the only account with the administrator's email is the last one,
      the search finds it or fails. */
  lemma ResolveFindsAppended(db: Db, faults: Faults, created: Reply<Id>, added: Account)
    requires created.Err?
    requires |db.accounts| > 0 && db.accounts[|db.accounts| - 1] == added
    requires forall j :: 0 <= j < |db.accounts| - 1 ==> !IsAdminEmail(db.accounts[j])
    ensures Resolve(db, faults, created) == Ok(added.id) || Resolve(db, faults, created).Err?
  {
    var r := Resolve(db, faults, created);
    if r.Ok? && created.fault.Returned? && AdminListUsers !in faults {
      var page := db.accounts[..Min(ListPageSize, |db.accounts|)];
      var k :| 0 <= k < |page| && IsAdminEmail(page[k]) && r.value == page[k].id;
      assert page[k] == db.accounts[k];
    }
  }

  /** On the store a grant leaves behind, and with the same faults, a second
      search resolves the same id. */
  lemma ResolveAgain(db: Db, faults: Faults, id: Id)
    requires UserRolesSelect !in faults && NoAdmin(db)
    requires var c := RegisterStep(db, faults, AdminCreateUser, AdminEmail, AdminPassword);
      Resolve(c.db, faults, c.reply) == Ok(id)
    ensures var c := RegisterStep(db, faults, AdminCreateUser, AdminEmail, AdminPassword);
      var db1 := Grant(c.db, faults, id).db;
      var c2 := RegisterStep(db1, faults, AdminCreateUser, AdminEmail, AdminPassword);
      c2.db == db1 && (Resolve(db1, faults, c2.reply) == Ok(id) || Resolve(db1, faults, c2.reply).Err?)
  {
    var c := RegisterStep(db, faults, AdminCreateUser, AdminEmail, AdminPassword);
    var db1 := Grant(c.db, faults, id).db;
    if c.reply.Ok? {
      var added := Account(id, Some(AdminEmail), AdminPassword);
      assert db1.accounts == db.accounts + [added];
      assert EmailTaken(db1.accounts, AdminEmail) by {
        assert added in db1.accounts;
        AdminEmailIsLowerCase();
      }
      forall j | 0 <= j < |db.accounts| ensures !IsAdminEmail(db1.accounts[j]) {
        assert db1.accounts[j] == db.accounts[j] && db.accounts[j] in db.accounts;
        IsAdminEmailMeansSameEmail(db.accounts[j]);
      }
      var c2 := RegisterStep(db1, faults, AdminCreateUser, AdminEmail, AdminPassword);
      ResolveFindsAppended(db1, faults, c2.reply, added);
    } else {
      assert db1.accounts == c.db.accounts == db.accounts;
    }
  }

  /** Running the handler twice with the same faults leaves the store as
      running it once does. */
  lemma RunTwiceIsRunOnce(db: Db, faults: Faults)
    ensures var once := Provision(db, faults);
      Provision(once.db, faults).db == once.db
  {
    var once := Provision(db, faults);
    if UserRolesSelect !in faults && NoAdmin(db) {
      var c := RegisterStep(db, faults, AdminCreateUser, AdminEmail, AdminPassword);
      var r := Resolve(c.db, faults, c.reply);
      if r.Ok? && r.value != "" {
        var id := r.value;
        var g := Grant(c.db, faults, id);
        if g.response != Created {
          ResolveAgain(db, faults, id);
          GrantIdempotent(c.db, faults, id);
        }
      } else if c.reply.Ok? {
        assert false;
      }
    }
  }

  /** After a run that created the administrator, a later run with any
      faults that lets the admin read through reports `alreadyProvisioned`
      and changes nothing. */
  lemma SecondRunAlreadyProvisioned(db: Db, faults: Faults, later: Faults)
    requires UserRolesSelect !in later
    ensures var once := Provision(db, faults);
      once.response == Created ==> Provision(once.db, later) == Outcome(once.db, AlreadyProvisioned)
  {
    var once := Provision(db, faults);
    if once.response == Created {
      CreatedEstablishesAdmin(db, faults);
    }
  }

  /** A run adds at most one account: the administrator's, and only when no
      account had its email. */
  lemma AccountsGrowOnlyByTheAdmin(db: Db, faults: Faults)
    ensures var o := Provision(db, faults);
      o.db.accounts == db.accounts
      || (!EmailTaken(db.accounts, AdminEmail)
          && o.db.accounts == db.accounts + [Account(FreshId(db), Some(AdminEmail), AdminPassword)])
  {
    var c := RegisterStep(db, faults, AdminCreateUser, AdminEmail, AdminPassword);
    var r := Resolve(c.db, faults, c.reply);
  }

  /** Two runs in sequence, with any faults, never create a second
      administrator account. */
  lemma NoSecondAdminAccount(db: Db, faults: Faults, later: Faults)
    ensures var once := Provision(db, faults);
      var twice := Provision(once.db, later);
      |twice.db.accounts| <= |db.accounts| + 1
  {
    var once := Provision(db, faults);
    AccountsGrowOnlyByTheAdmin(db, faults);
    AccountsGrowOnlyByTheAdmin(once.db, later);
    if once.db.accounts != db.accounts {
      var added := Account(FreshId(db), Some(AdminEmail), AdminPassword);
      assert added == once.db.accounts[|db.accounts|] && added in once.db.accounts;
      assert SameEmail(added, AdminEmail);
    }
  }

  /** The admin rows of a store. */
  function AdminRows(db: Db): seq<RoleRow> {
    Filter(db.userRoles, (x: RoleRow) => x.role == Admin)
  }

  /** A run that creates the administrator leaves exactly one admin row. */
  lemma CreatedLeavesOneAdminRow(db: Db, faults: Faults)
    ensures var o := Provision(db, faults);
      o.response == Created ==> |AdminRows(o.db)| == 1
  {
    var o := Provision(db, faults);
    if o.response == Created {
      var c := RegisterStep(db, faults, AdminCreateUser, AdminEmail, AdminPassword);
      var id := Resolve(c.db, faults, c.reply).value;
      var p := UpsertProfileStep(c.db, faults, id, AdminUsername);
      var row := RoleRow(id, Admin);
      assert p.db.userRoles == db.userRoles;
      FilterKeepsNone(db.userRoles, (x: RoleRow) => x.role == Admin);
      assert row !in db.userRoles;
      assert o.db.userRoles == db.userRoles + [row];
      FilterAppend(db.userRoles, [row], (x: RoleRow) => x.role == Admin);
      assert [row][1..] == [];
    }
  }

  /** A failing role upsert does not undo the account and profile before it. */
  lemma NoRollback(db: Db, faults: Faults)
    requires UserRolesSelect !in faults && NoAdmin(db)
    requires AdminCreateUser !in faults && !EmailTaken(db.accounts, AdminEmail)
    requires ProfilesUpsert !in faults && UserRolesUpsert in faults
    ensures var o := Provision(db, faults);
      var id := FreshId(db);
      && o.response == Failed(faults[UserRolesUpsert].message)
      && o.db.accounts == db.accounts + [Account(id, Some(AdminEmail), AdminPassword)]
      && UsernameOf(o.db.profiles, id) == Some(AdminUsername)
      && NoAdmin(o.db)
  {
  }

  /** On an empty store the run creates the account, its profile and its
      role; a second run reports `alreadyProvisioned` and changes nothing. */
  lemma ProvisionEmptyStore()
    ensures var id := FreshId(EmptyDb);
      var provisioned := Db([Account(id, Some(AdminEmail), AdminPassword)], [Profile(id, AdminUsername)], [RoleRow(id, Admin)]);
      && Provision(EmptyDb, map[]) == Outcome(provisioned, Created)
      && Provision(provisioned, map[]) == Outcome(provisioned, AlreadyProvisioned)
  {
    var id := FreshId(EmptyDb);
    assert SetUsername([], id, AdminUsername) == [Profile(id, AdminUsername)];
    SecondRunAlreadyProvisioned(EmptyDb, map[], map[]);
  }
}
