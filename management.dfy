/** The user-management dialog of the stream wall: the list of users it shows
    (profiles joined with their role rows), account creation, role switches,
    account deletion behind a confirmation, and password reset. */
module Management {
  import opened Js
  import opened Tables
  import opened Remote

  /** One row of the dialog's list. */
  datatype User = User(id: Id, username: string, roles: seq<Role>)

  /** The roles that have a switch; `Admin` is not among them. */
  const AllRoles: seq<Role> := [AddStreams, SaveLists, LoadLists, DownloadLogs, DeleteStreams]

  lemma AdminHasNoSwitch()
    ensures Admin !in AllRoles
    ensures forall r: Role :: r != Admin ==> r in AllRoles
  {
  }

  // ----- the list of users -----

  /** `profiles.map(profile => ({id, username, roles}))`: one entry per
      profile row, in profile order, with the roles of that user's rows. */
  function Join(profiles: seq<Profile>, rows: seq<RoleRow>): (users: seq<User>)
    ensures |users| == |profiles|
    ensures forall i :: 0 <= i < |profiles| ==>
      && users[i].id == profiles[i].userId
      && users[i].username == profiles[i].username
      && users[i].roles == RolesOf(rows, profiles[i].userId)
  {
    if profiles == [] then []
    else [User(profiles[0].userId, profiles[0].username, RolesOf(rows, profiles[0].userId))]
         + Join(profiles[1..], rows)
  }

  /** A user's entry lists a role exactly when a row grants it, and every
      entry comes from a profile row. */
  lemma JoinMeaning(profiles: seq<Profile>, rows: seq<RoleRow>)
    ensures var users := Join(profiles, rows);
      && (forall i, r :: 0 <= i < |users| ==> (r in users[i].roles <==> RoleRow(users[i].id, r) in rows))
      && (forall u :: u in users ==> Profile(u.id, u.username) in profiles)
  {
    var users := Join(profiles, rows);
    forall u | u in users ensures Profile(u.id, u.username) in profiles {
      var i :| 0 <= i < |users| && users[i] == u;
      assert profiles[i] == Profile(u.id, u.username);
    }
  }

  /** Role rows whose user has no profile do not show up anywhere. */
  lemma OrphanRowsDropped(profiles: seq<Profile>, rows: seq<RoleRow>)
    ensures Join(profiles, rows)
         == Join(profiles, Filter(rows, (x: RoleRow) => UsernameOf(profiles, x.userId).Some?))
  {
    var kept := Filter(rows, (x: RoleRow) => UsernameOf(profiles, x.userId).Some?);
    forall i | 0 <= i < |profiles|
      ensures RolesOf(kept, profiles[i].userId) == RolesOf(rows, profiles[i].userId)
    {
      assert profiles[i] in profiles;
      RolesOfFilter(rows, (x: RoleRow) => UsernameOf(profiles, x.userId).Some?, profiles[i].userId);
    }
  }

  /** Joining against rows that agree on every user but `id`, after dropping
      the profile of `id`, is dropping `id`'s entry from the join. */
  lemma {:induction false} JoinWithout(profiles: seq<Profile>, rows: seq<RoleRow>, rows': seq<RoleRow>, id: Id)
    requires forall v :: v != id ==> RolesOf(rows', v) == RolesOf(rows, v)
    ensures Join(Filter(profiles, (p: Profile) => p.userId != id), rows')
         == Filter(Join(profiles, rows), (u: User) => u.id != id)
  {
    if profiles != [] {
      var users := Join(profiles, rows);
      JoinWithout(profiles[1..], rows, rows', id);
      assert users[1..] == Join(profiles[1..], rows);
      if profiles[0].userId != id {
        var kept := Filter(profiles, (p: Profile) => p.userId != id);
        assert kept[1..] == Filter(profiles[1..], (p: Profile) => p.userId != id);
      }
    }
  }

  // ----- what `fetchUsers` reads -----

  /** The joined list, or the fault of the first of the two reads that fails. */
  function Fetch(db: Db, faults: Faults): Reply<seq<User>> {
    match SelectProfilesReply(db, faults)
    case Err(f) => Err(f)
    case Ok(profiles) =>
      match SelectUserRolesReply(db, faults)
      case Err(f) => Err(f)
      case Ok(rows) => Ok(Join(profiles, rows))
  }

  /** The list after a fetch: the previous one when the fetch fails. */
  function Refreshed(previous: seq<User>, fetched: Reply<seq<User>>): seq<User> {
    if fetched.Ok? then fetched.value else previous
  }

  /** A toast: a success, or an error (the `destructive` variant). */
  datatype Toast = Success(description: string) | Failure(description: string)

  /** `error.message || fallback` */
  function ErrorText(f: Fault, fallback: string): string {
    Or(Some(f.message), fallback)
  }

  function FetchToasts(fetched: Reply<seq<User>>): seq<Toast> {
    if fetched.Ok? then [] else [Failure(ErrorText(fetched.fault, "Failed to fetch users"))]
  }

  /** A failed fetch keeps the list; a successful one shows the store's join. */
  lemma FetchKeepsListOnFailure(db: Db, faults: Faults, previous: seq<User>)
    ensures ProfilesSelect in faults || UserRolesSelect in faults ==>
      Refreshed(previous, Fetch(db, faults)) == previous && |FetchToasts(Fetch(db, faults))| == 1
    ensures ProfilesSelect !in faults && UserRolesSelect !in faults ==>
      Refreshed(previous, Fetch(db, faults)) == Join(db.profiles, db.userRoles)
      && FetchToasts(Fetch(db, faults)) == []
  {
  }

  // ----- local validation -----

  /** The create-user form. */
  datatype NewUser = NewUser(email: string, password: string)

  const EmptyForm := NewUser("", "")

  /** The toast for a rejected form. */
  const RejectedText := "Email must be at least 3 characters and password at least 6 characters"

  /** The check at the top of `createUser`. */
  predicate CreateRejected(form: NewUser) {
    Utf16Length(Trim(form.email)) < 3 || Utf16Length(form.password) < 6
  }

  /** The `disabled` condition of the submit button. */
  predicate SubmitDisabled(form: NewUser) {
    Utf16Length(Trim(form.email)) < 3 || Utf16Length(form.password) < 6
  }

  lemma SubmitDisabledExactlyWhenRejected(form: NewUser)
    ensures SubmitDisabled(form) <==> CreateRejected(form)
  {
  }

  /** White space around the email never changes the verdict; an email of
      white space only, or a form shorter than the minimums, is rejected. */
  lemma {:induction false} CreateRejectedMeaning(form: NewUser)
    ensures CreateRejected(form) <==> CreateRejected(form.(email := Trim(form.email)))
    ensures (forall i :: 0 <= i < |form.email| ==> IsWhiteSpace(form.email[i])) ==> CreateRejected(form)
    ensures Utf16Length(form.email) < 3 ==> CreateRejected(form)
    ensures CreateRejected(EmptyForm)
  {
    assert Trim(Trim(form.email)) == Trim(form.email) by {
      TrimIdempotent(form.email);
    }
    assert Utf16Length(Trim(form.email)) <= Utf16Length(form.email) by {
      TrimShortens(form.email);
    }
    assert Utf16Length(EmptyForm.email) == 0;
  }

  /** The check in `handlePasswordChange` on the prompt's answer (`None` when
      the prompt is dismissed). */
  predicate PasswordResetRejected(answer: Option<string>) {
    !Truthy(answer) || Utf16Length(answer.value) < 6
  }

  /** Truthiness adds nothing to the length check: a dismissed prompt and
      every answer shorter than six code units are rejected, and only those. */
  lemma PasswordResetRejectedMeaning(answer: Option<string>)
    ensures PasswordResetRejected(answer) <==> answer.None? || Utf16Length(answer.value) < 6
  {
  }

  // ----- the admin guard of the list -----

  /** `disabled={user.roles.includes('admin')}`, on the delete button and on every role switch. */
  predicate AdminLocked(user: User) {
    Admin in user.roles
  }

  /** On a list fresh from the store, an entry is locked exactly when its user holds an admin row. */
  lemma AdminLockedMeaning(db: Db, i: nat)
    requires i < |db.profiles|
    ensures AdminLocked(Join(db.profiles, db.userRoles)[i])
        <==> RoleRow(db.profiles[i].userId, Admin) in db.userRoles
  {
  }

  // ----- the role switches -----

  /** What `handleRoleChange(userId, role, value)` asks of the store. */
  function RoleChangeStep(db: Db, faults: Faults, userId: Id, role: Role, value: bool): Step<()> {
    if value then InsertRoleStep(db, faults, RoleRow(userId, role))
    else DeleteRoleStep(db, faults, userId, role)
  }

  function RoleChangedText(value: bool): string {
    if value then "Role added successfully" else "Role removed successfully"
  }

  /** A role change touches the pair it names and nothing else. A grant adds
      the role at the end of the user's roles; every other entry keeps its
      roles in order; a failed change changes nothing. */
  lemma RoleChangeShowsOnlyThePair(db: Db, faults: Faults, userId: Id, role: Role, value: bool)
    ensures var s := RoleChangeStep(db, faults, userId, role, value);
      var before := Join(db.profiles, db.userRoles);
      var after := Join(s.db.profiles, s.db.userRoles);
      && s.db.accounts == db.accounts && s.db.profiles == db.profiles
      && (s.reply.Err? ==> s.db == db)
      && |after| == |before|
      && (forall i :: 0 <= i < |before| && before[i].id != userId ==> after[i] == before[i])
      && (forall i, r :: 0 <= i < |before| && before[i].id == userId && r != role ==>
            (r in after[i].roles <==> r in before[i].roles))
      && (s.reply.Ok? ==> forall i :: 0 <= i < |before| && before[i].id == userId ==>
            (role in after[i].roles <==> value))
      && (s.reply.Ok? && value ==> forall i :: 0 <= i < |before| && before[i].id == userId ==>
            after[i].roles == before[i].roles + [role])
  {
    var s := RoleChangeStep(db, faults, userId, role, value);
    if s.reply.Ok? {
      forall v | v != userId || value
        ensures RolesOf(s.db.userRoles, v) == RolesOf(db.userRoles, v) + (if value && v == userId then [role] else [])
      {
        RoleChangeRolesOf(db, faults, userId, role, value, v);
      }
      JoinChangesOnlyUser(db.profiles, db.userRoles, s.db.userRoles, userId);
    }
  }

  /** When only the rows of `userId` differ, the join differs only in that user's roles. */
  lemma JoinChangesOnlyUser(profiles: seq<Profile>, rows: seq<RoleRow>, rows': seq<RoleRow>, userId: Id)
    requires forall v :: v != userId ==> RolesOf(rows', v) == RolesOf(rows, v)
    ensures var before := Join(profiles, rows);
      var after := Join(profiles, rows');
      && |after| == |before|
      && (forall i :: 0 <= i < |before| ==> after[i].id == before[i].id && after[i].username == before[i].username)
      && (forall i :: 0 <= i < |before| && before[i].id != userId ==> after[i] == before[i])
      && (forall i :: 0 <= i < |before| && before[i].id == userId ==> after[i].roles == RolesOf(rows', userId))
  {
  }

  /** The role list of user `v` after a successful role change. */
  lemma RoleChangeRolesOf(db: Db, faults: Faults, userId: Id, role: Role, value: bool, v: Id)
    requires RoleChangeStep(db, faults, userId, role, value).reply.Ok?
    requires v != userId || value
    ensures RolesOf(RoleChangeStep(db, faults, userId, role, value).db.userRoles, v)
            == RolesOf(db.userRoles, v) + (if value && v == userId then [role] else [])
  {
    var row := RoleRow(userId, role);
    if value {
      RolesOfAppend(db.userRoles, [row], v);
      assert [row][1..] == [];
    } else {
      RolesOfFilter(db.userRoles, (x: RoleRow) => x != row, v);
    }
  }

  /** Repeating a role change leaves the store as one change does; a repeated
      grant is refused as a duplicate rather than taken as a success. */
  lemma RoleChangeTwiceIsOnce(db: Db, faults: Faults, userId: Id, role: Role, value: bool)
    ensures var once := RoleChangeStep(db, faults, userId, role, value);
      var twice := RoleChangeStep(once.db, faults, userId, role, value);
      twice.db == once.db
      && (value && once.reply.Ok? ==> twice.reply == Err(Returned(DuplicateKey)))
  {
    var once := RoleChangeStep(db, faults, userId, role, value);
    if value && once.reply.Ok? {
      assert RoleRow(userId, role) in once.db.userRoles;
    }
    if !value && once.reply.Ok? {
      DeleteRemovesExactlyThePair(once.db, faults, userId, role);
    }
  }

  /** Flipping a switch on a list fresh from the store succeeds when the
      store accepts the call, and leaves the role shown exactly when it was
      not shown before. */
  lemma SwitchFlips(db: Db, faults: Faults, i: nat, role: Role)
    requires i < |db.profiles|
    requires UserRolesInsert !in faults && UserRolesDelete !in faults
    ensures var user := Join(db.profiles, db.userRoles)[i];
      var s := RoleChangeStep(db, faults, user.id, role, role !in user.roles);
      s.reply.Ok? && (role in Join(s.db.profiles, s.db.userRoles)[i].roles <==> role !in user.roles)
  {
    var user := Join(db.profiles, db.userRoles)[i];
    RoleChangeShowsOnlyThePair(db, faults, user.id, role, role !in user.roles);
  }

  /** No switch changes who holds `admin`. */
  lemma SwitchesNeverTouchAdmin(db: Db, faults: Faults, userId: Id, role: Role, value: bool)
    requires role in AllRoles
    ensures var s := RoleChangeStep(db, faults, userId, role, value);
      forall u :: RoleRow(u, Admin) in s.db.userRoles <==> RoleRow(u, Admin) in db.userRoles
  {
    InsertAddsExactlyTheRow(db, faults, RoleRow(userId, role));
    DeleteRemovesExactlyThePair(db, faults, userId, role);
  }

  // ----- deletion -----

  /** A successful delete drops exactly that user's entry; every other entry
      is shown as before, in the same order. A failed one changes nothing. */
  lemma DeleteDropsTheEntry(db: Db, faults: Faults, id: Id)
    ensures var s := DeleteUserStep(db, faults, id);
      && (s.reply.Ok? ==> Join(s.db.profiles, s.db.userRoles)
                          == Filter(Join(db.profiles, db.userRoles), (u: User) => u.id != id))
      && (s.reply.Ok? ==> !HasAccount(s.db.accounts, id) && HasAccount(db.accounts, id))
      && (s.reply.Err? ==> s.db == db)
  {
    var s := DeleteUserStep(db, faults, id);
    if s.reply.Ok? {
      var after := WithoutAccount(db, id);
      forall v | v != id ensures RolesOf(after.userRoles, v) == RolesOf(db.userRoles, v) {
        RolesOfFilter(db.userRoles, (x: RoleRow) => x.userId != id, v);
      }
      JoinWithout(db.profiles, db.userRoles, after.userRoles, id);
    }
  }

  /** The dialog: its state, and the remote store it works on. */
  class ManagementDialog {
    const backend: Backend
    var users: seq<User>
    var newUser: NewUser
    var confirmDeleteUser: Option<Id>

    ghost predicate Valid()
      reads backend
    {
      backend.Valid()
    }

    constructor (backend: Backend)
      requires backend.Valid()
      ensures Valid() && this.backend == backend
      ensures users == [] && newUser == EmptyForm && confirmDeleteUser == None
    {
      this.backend := backend;
      users := [];
      newUser := EmptyForm;
      confirmDeleteUser := None;
    }

    /** `fetchUsers`: replaces the list with the store's join, or keeps it
        and shows the error. */
    method FetchUsers() returns (toasts: seq<Toast>)
      modifies this`users
      ensures var fetched := Fetch(backend.Snapshot(), backend.faults);
        users == Refreshed(old(users), fetched) && toasts == FetchToasts(fetched)
    {
      var profiles := backend.SelectProfiles();
      if profiles.Err? {
        return [Failure(ErrorText(profiles.fault, "Failed to fetch users"))];
      }
      var rows := backend.SelectUserRoles();
      if rows.Err? {
        return [Failure(ErrorText(rows.fault, "Failed to fetch users"))];
      }
      users := Join(profiles.value, rows.value);
      toasts := [];
    }

    /** `createUser`: a rejected form makes no call; otherwise the form's
        email and password go to `auth.signUp`, and on success the form is
        cleared and the list fetched again. */
    method CreateUser() returns (toasts: seq<Toast>)
      requires Valid()
      modifies this`users, this`newUser, backend
      ensures Valid() && confirmDeleteUser == old(confirmDeleteUser)
      ensures CreateRejected(old(newUser)) ==>
        && backend.Snapshot() == old(backend.Snapshot())
        && newUser == old(newUser) && users == old(users)
        && toasts == [Failure(RejectedText)]
      ensures !CreateRejected(old(newUser)) ==>
        var s := RegisterStep(old(backend.Snapshot()), backend.faults, AuthSignUp, old(newUser.email), old(newUser.password));
        var fetched := Fetch(s.db, backend.faults);
        && backend.Snapshot() == s.db
        && (s.reply.Ok? ==> newUser == EmptyForm && users == Refreshed(old(users), fetched)
                            && toasts == [Success("User created successfully")] + FetchToasts(fetched))
        && (s.reply.Err? ==> newUser == old(newUser) && users == old(users)
                             && toasts == [Failure(ErrorText(s.reply.fault, "Failed to create user"))])
    {
      if CreateRejected(newUser) {
        return [Failure(RejectedText)];
      }
      toasts := SignUpForm();
    }

    /** The part of `createUser` after the form passed its check. */
    method SignUpForm() returns (toasts: seq<Toast>)
      requires Valid()
      modifies this`users, this`newUser, backend
      ensures Valid() && confirmDeleteUser == old(confirmDeleteUser)
      ensures var s := RegisterStep(old(backend.Snapshot()), backend.faults, AuthSignUp, old(newUser.email), old(newUser.password));
        var fetched := Fetch(s.db, backend.faults);
        && backend.Snapshot() == s.db
        && (s.reply.Ok? ==> newUser == EmptyForm && users == Refreshed(old(users), fetched)
                            && toasts == [Success("User created successfully")] + FetchToasts(fetched))
        && (s.reply.Err? ==> newUser == old(newUser) && users == old(users)
                             && toasts == [Failure(ErrorText(s.reply.fault, "Failed to create user"))])
    {
      ghost var db0 := backend.Snapshot();
      var r := backend.Register(AuthSignUp, newUser.email, newUser.password);
      ghost var s := RegisterStep(db0, backend.faults, AuthSignUp, old(newUser.email), old(newUser.password));
      assert backend.Snapshot() == s.db && r == s.reply;
      if r.Err? {
        return [Failure(ErrorText(r.fault, "Failed to create user"))];
      }
      newUser := EmptyForm;
      var fetched := FetchUsers();
      assert backend.Snapshot() == s.db;
      toasts := [Success("User created successfully")] + fetched;
    }

    /** `handleRoleChange`: inserts the pair when `value`, deletes it otherwise;
        on success the list is fetched again. */
    method HandleRoleChange(userId: Id, role: Role, value: bool) returns (toasts: seq<Toast>)
      requires Valid()
      modifies this`users, backend
      ensures Valid()
      ensures var s := RoleChangeStep(old(backend.Snapshot()), backend.faults, userId, role, value);
        var fetched := Fetch(s.db, backend.faults);
        && backend.Snapshot() == s.db
        && (s.reply.Ok? ==> users == Refreshed(old(users), fetched)
                            && toasts == [Success(RoleChangedText(value))] + FetchToasts(fetched))
        && (s.reply.Err? ==> users == old(users)
                             && toasts == [Failure(ErrorText(s.reply.fault, "Failed to update role"))])
    {
      var r: Reply<()>;
      if value {
        r := backend.InsertRole(RoleRow(userId, role));
      } else {
        r := backend.DeleteRole(userId, role);
      }
      if r.Err? {
        return [Failure(ErrorText(r.fault, "Failed to update role"))];
      }
      var fetched := FetchUsers();
      toasts := [Success(RoleChangedText(value))] + fetched;
    }

    /** `handleDeleteUser`: on success the list is fetched again and the
        confirmation cleared; on failure both stay as they were. */
    method HandleDeleteUser(userId: Id) returns (toasts: seq<Toast>)
      requires Valid()
      modifies this`users, this`confirmDeleteUser, backend
      ensures Valid()
      ensures var s := DeleteUserStep(old(backend.Snapshot()), backend.faults, userId);
        var fetched := Fetch(s.db, backend.faults);
        && backend.Snapshot() == s.db
        && (s.reply.Ok? ==> users == Refreshed(old(users), fetched) && confirmDeleteUser == None
                            && toasts == [Success("User deleted successfully")] + FetchToasts(fetched))
        && (s.reply.Err? ==> users == old(users) && confirmDeleteUser == old(confirmDeleteUser)
                             && toasts == [Failure(ErrorText(s.reply.fault, "Failed to delete user"))])
    {
      var r := backend.DeleteUser(userId);
      if r.Err? {
        return [Failure(ErrorText(r.fault, "Failed to delete user"))];
      }
      var fetched := FetchUsers();
      confirmDeleteUser := None;
      toasts := [Success("User deleted successfully")] + fetched;
    }

    /** `handlePasswordChange`, with the prompt's answer as a parameter: a
        rejected answer makes no call. */
    method HandlePasswordChange(userId: Id, answer: Option<string>) returns (toasts: seq<Toast>)
      requires Valid()
      modifies backend
      ensures Valid()
      ensures PasswordResetRejected(answer) ==>
        backend.Snapshot() == old(backend.Snapshot())
        && toasts == [Failure("Password must be at least 6 characters")]
      ensures !PasswordResetRejected(answer) ==>
        var s := UpdatePasswordStep(old(backend.Snapshot()), backend.faults, userId, answer.value);
        && backend.Snapshot() == s.db
        && (s.reply.Ok? ==> toasts == [Success("Password updated successfully")])
        && (s.reply.Err? ==> toasts == [Failure(ErrorText(s.reply.fault, "Failed to update password"))])
    {
      if PasswordResetRejected(answer) {
        return [Failure("Password must be at least 6 characters")];
      }
      var r := backend.UpdatePassword(userId, answer.value);
      if r.Err? {
        return [Failure(ErrorText(r.fault, "Failed to update password"))];
      }
      toasts := [Success("Password updated successfully")];
    }

    // ----- what the user can do in the dialog -----

    method EditEmail(email: string)
      modifies this`newUser
      ensures newUser == old(newUser).(email := email)
    {
      newUser := newUser.(email := email);
    }

    method EditPassword(password: string)
      modifies this`newUser
      ensures newUser == old(newUser).(password := password)
    {
      newUser := newUser.(password := password);
    }

    /** Submitting the form, which its button allows only when it is not disabled. */
    method Submit() returns (toasts: seq<Toast>)
      requires Valid() && !SubmitDisabled(newUser)
      modifies this`users, this`newUser, backend
      ensures Valid()
      ensures var s := RegisterStep(old(backend.Snapshot()), backend.faults, AuthSignUp, old(newUser.email), old(newUser.password));
        backend.Snapshot() == s.db && (s.reply.Ok? <==> newUser == EmptyForm && old(newUser) != EmptyForm)
      ensures var s := RegisterStep(old(backend.Snapshot()), backend.faults, AuthSignUp, old(newUser.email), old(newUser.password));
        var fetched := Fetch(s.db, backend.faults);
        && (s.reply.Ok? ==> users == Refreshed(old(users), fetched)
                            && toasts == [Success("User created successfully")] + FetchToasts(fetched))
        && (s.reply.Err? ==> newUser == old(newUser) && users == old(users)
                             && toasts == [Failure(ErrorText(s.reply.fault, "Failed to create user"))])
    {
      ghost var form := newUser;
      assert form != EmptyForm by {
        CreateRejectedMeaning(form);
      }
      toasts := CreateUser();
      assert newUser == EmptyForm || newUser == form;
    }

    /** Flipping the switch of `role` on entry `i`: only the five switchable
        roles have one, and not on an entry that lists `admin`. */
    method ToggleRole(i: nat, role: Role) returns (toasts: seq<Toast>)
      requires Valid() && i < |users| && role in AllRoles && !AdminLocked(users[i])
      modifies this`users, backend
      ensures Valid()
      ensures var s := RoleChangeStep(old(backend.Snapshot()), backend.faults, old(users[i].id), role, role !in old(users[i].roles));
        backend.Snapshot() == s.db
        && (s.reply.Ok? ==> users == Refreshed(old(users), Fetch(s.db, backend.faults)))
        && (s.reply.Err? ==> users == old(users))
      ensures forall u :: RoleRow(u, Admin) in backend.userRoles <==> RoleRow(u, Admin) in old(backend.userRoles)
    {
      var user := users[i];
      SwitchesNeverTouchAdmin(backend.Snapshot(), backend.faults, user.id, role, role !in user.roles);
      toasts := HandleRoleChange(user.id, role, role !in user.roles);
    }

    /** The delete button of entry `i`, disabled on an entry that lists `admin`. */
    method RequestDelete(i: nat)
      requires i < |users| && !AdminLocked(users[i])
      modifies this`confirmDeleteUser
      ensures confirmDeleteUser == Some(users[i].id)
    {
      confirmDeleteUser := Some(users[i].id);
    }

    /** Closing the confirmation without deleting. */
    method DismissDelete()
      modifies this`confirmDeleteUser
      ensures confirmDeleteUser == None
    {
      confirmDeleteUser := None;
    }

    /** The confirmation's action: deletes the held id, if it is truthy, and nothing else. */
    method ConfirmDelete() returns (toasts: seq<Toast>)
      requires Valid()
      modifies this`users, this`confirmDeleteUser, backend
      ensures Valid()
      ensures !Truthy(old(confirmDeleteUser)) ==>
        backend.Snapshot() == old(backend.Snapshot()) && users == old(users)
        && confirmDeleteUser == old(confirmDeleteUser) && toasts == []
      ensures Truthy(old(confirmDeleteUser)) ==>
        var s := DeleteUserStep(old(backend.Snapshot()), backend.faults, old(confirmDeleteUser).value);
        && backend.Snapshot() == s.db
        && (s.reply.Ok? ==> confirmDeleteUser == None && users == Refreshed(old(users), Fetch(s.db, backend.faults)))
        && (s.reply.Err? ==> confirmDeleteUser == old(confirmDeleteUser) && users == old(users))
    {
      if confirmDeleteUser.Some? && confirmDeleteUser.value != "" {
        toasts := HandleDeleteUser(confirmDeleteUser.value);
      } else {
        toasts := [];
      }
    }

    /** The change-password button of entry `i`, enabled on every entry. */
    method ChangePassword(i: nat, answer: Option<string>) returns (toasts: seq<Toast>)
      requires Valid() && i < |users|
      modifies backend
      ensures Valid()
      ensures !PasswordResetRejected(answer) ==>
        backend.Snapshot() == UpdatePasswordStep(old(backend.Snapshot()), backend.faults, users[i].id, answer.value).db
      ensures PasswordResetRejected(answer) ==> backend.Snapshot() == old(backend.Snapshot())
    {
      toasts := HandlePasswordChange(users[i].id, answer);
    }
  }
}
