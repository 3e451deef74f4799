/** The three tables the user administration reads and writes: the identity
    provider's accounts, the `profiles` table and the `user_roles` table, with
    the row operations the remote calls perform on them. */
module Tables {
  import opened Js

  type Id = string

  /** The `app_role` values a `user_roles` row can hold: `add_streams`,
      `save_lists`, `load_lists`, `download_logs`, `delete_streams` and the
      privileged `admin`. */
  datatype Role = AddStreams | SaveLists | LoadLists | DownloadLogs | DeleteStreams | Admin

  /** An account of the identity provider; `password` stands for the credential. */
  datatype Account = Account(id: Id, email: Option<string>, password: string)

  /** A `profiles` row. */
  datatype Profile = Profile(userId: Id, username: string)

  /** A `user_roles` row. */
  datatype RoleRow = RoleRow(userId: Id, role: Role)

  /** The whole remote state, each table in row order. */
  datatype Db = Db(accounts: seq<Account>, profiles: seq<Profile>, userRoles: seq<RoleRow>)

  const EmptyDb := Db([], [], [])

  /** No two elements of `s` share a key. */
  ghost predicate UniqueBy<T, K>(s: seq<T>, key: T -> K) {
    forall i, j :: 0 <= i < j < |s| ==> key(s[i]) != key(s[j])
  }

  /** The uniqueness the store enforces: account ids, `profiles.user_id`, and
      `(user_id, role)` in `user_roles`. */
  ghost predicate WellFormed(db: Db) {
    && UniqueBy(db.accounts, (a: Account) => a.id)
    && UniqueBy(db.profiles, (p: Profile) => p.userId)
    && UniqueBy(db.userRoles, (r: RoleRow) => r)
  }

  /** Uniqueness of a sequence split into its head and its tail. */
  lemma UniqueByCons<T, K>(s: seq<T>, key: T -> K)
    requires s != []
    ensures UniqueBy(s, key) <==>
      UniqueBy(s[1..], key) && forall y :: y in s[1..] ==> key(y) != key(s[0])
  {
    if UniqueBy(s[1..], key) && forall y :: y in s[1..] ==> key(y) != key(s[0]) {
      forall i, j | 0 <= i < j < |s| ensures key(s[i]) != key(s[j]) {
        assert s[j] == s[1..][j - 1];
        if i > 0 {
          assert s[i] == s[1..][i - 1];
        }
      }
    }
    if UniqueBy(s, key) {
      forall i, j | 0 <= i < j < |s[1..]| ensures key(s[1..][i]) != key(s[1..][j]) {
        assert s[1..][i] == s[i + 1] && s[1..][j] == s[j + 1];
      }
      forall y | y in s[1..] ensures key(y) != key(s[0]) {
        var k :| 0 <= k < |s[1..]| && s[1..][k] == y;
        assert s[k + 1] == y;
      }
    }
  }

  /** Unique keys that are all the same leave room for one element at most. */
  lemma AtMostOneWithKey<T, K>(s: seq<T>, key: T -> K, k: K)
    requires UniqueBy(s, key)
    requires forall x :: x in s ==> key(x) == k
    ensures |s| <= 1
  {
    if |s| > 1 {
      FirstTwoKeysDiffer(s, key);
      assert false;
    }
  }

  /** In a sequence unique by `key`, the first two elements have different keys. */
  lemma FirstTwoKeysDiffer<T, K>(s: seq<T>, key: T -> K)
    requires UniqueBy(s, key) && |s| > 1
    ensures s[0] in s && s[1] in s && key(s[0]) != key(s[1])
  {
  }

  lemma {:induction false} FilterUniqueBy<T(!new), K>(s: seq<T>, p: T -> bool, key: T -> K)
    requires UniqueBy(s, key)
    ensures UniqueBy(Filter(s, p), key)
  {
    if s != [] {
      var tail := Filter(s[1..], p);
      UniqueByCons(s, key);
      FilterUniqueBy(s[1..], p, key);
      if p(s[0]) {
        var r := [s[0]] + tail;
        assert r[1..] == tail;
        UniqueByCons(r, key);
      }
    }
  }

  /** Appending a row that is not there keeps the rows distinct. */
  lemma AppendUnique(rows: seq<RoleRow>, row: RoleRow)
    requires UniqueBy(rows, (r: RoleRow) => r) && row !in rows
    ensures UniqueBy(rows + [row], (r: RoleRow) => r)
  {
    var s := rows + [row];
    forall i, j | 0 <= i < j < |s| ensures s[i] != s[j] {
      if j == |rows| {
        assert s[i] == rows[i];
      } else {
        assert s[i] == rows[i] && s[j] == rows[j];
      }
    }
  }

  /** The roles of the rows that belong to `userId`, in row order
      (`userRoles.filter(ur => ur.user_id === userId).map(ur => ur.role)`). */
  function RolesOf(rows: seq<RoleRow>, userId: Id): (roles: seq<Role>)
    ensures |roles| <= |rows|
    ensures forall r :: r in roles <==> RoleRow(userId, r) in rows
  {
    if rows == [] then []
    else (if rows[0].userId == userId then [rows[0].role] else []) + RolesOf(rows[1..], userId)
  }

  /** A user id that owns no row has no roles. */
  lemma {:induction false} RolesOfOther(rows: seq<RoleRow>, userId: Id)
    requires forall x :: x in rows ==> x.userId != userId
    ensures RolesOf(rows, userId) == []
  {
    if rows != [] {
      assert forall x :: x in rows[1..] ==> x in rows;
      RolesOfOther(rows[1..], userId);
    }
  }

  /** The roles keep the order of the rows. */
  lemma {:induction false} RolesOfAppend(a: seq<RoleRow>, b: seq<RoleRow>, userId: Id)
    ensures RolesOf(a + b, userId) == RolesOf(a, userId) + RolesOf(b, userId)
  {
    if a == [] {
      assert a + b == b;
    } else {
      assert (a + b)[1..] == a[1..] + b;
      RolesOfAppend(a[1..], b, userId);
    }
  }

  /** With distinct rows, no role is listed twice for one user. */
  lemma {:induction false} RolesOfDistinct(rows: seq<RoleRow>, userId: Id)
    requires UniqueBy(rows, (r: RoleRow) => r)
    ensures UniqueBy(RolesOf(rows, userId), (r: Role) => r)
  {
    if rows != [] {
      var tail := RolesOf(rows[1..], userId);
      UniqueByCons(rows, (r: RoleRow) => r);
      RolesOfDistinct(rows[1..], userId);
      if rows[0].userId == userId {
        var r := [rows[0].role] + tail;
        assert r[1..] == tail;
        UniqueByCons(r, (r: Role) => r);
      }
    }
  }

  /** Filtering out only rows of other users leaves a user's roles as they were. */
  lemma {:induction false} RolesOfFilter(rows: seq<RoleRow>, p: RoleRow -> bool, userId: Id)
    requires forall x :: x in rows && x.userId == userId ==> p(x)
    ensures RolesOf(Filter(rows, p), userId) == RolesOf(rows, userId)
  {
    if rows != [] {
      var head := if p(rows[0]) then [rows[0]] else [];
      assert forall x :: x in rows[1..] ==> x in rows;
      RolesOfFilter(rows[1..], p, userId);
      RolesOfAppend(head, Filter(rows[1..], p), userId);
      if head != [] {
        assert head[1..] == [];
      }
    }
  }

  /** The rows `.delete().eq('user_id', userId).eq('role', role)` keeps. */
  function WithoutRole(rows: seq<RoleRow>, userId: Id, role: Role): (kept: seq<RoleRow>)
    ensures forall x :: x in kept <==> x in rows && x != RoleRow(userId, role)
    ensures RoleRow(userId, role) !in rows ==> kept == rows
  {
    var kept := Filter(rows, (x: RoleRow) => x != RoleRow(userId, role));
    FilterKeepsAll(rows, (x: RoleRow) => x != RoleRow(userId, role));
    kept
  }

  /** Filtering with a predicate no element satisfies leaves nothing. */
  lemma {:induction false} FilterKeepsNone<T(!new)>(s: seq<T>, p: T -> bool)
    requires forall x :: x in s ==> !p(x)
    ensures Filter(s, p) == []
  {
    if s != [] {
      assert forall x :: x in s[1..] ==> x in s;
      FilterKeepsNone(s[1..], p);
    }
  }

  /** Filtering with a predicate every element satisfies changes nothing. */
  lemma {:induction false} FilterKeepsAll<T(!new)>(s: seq<T>, p: T -> bool)
    ensures (forall x :: x in s ==> p(x)) ==> Filter(s, p) == s
  {
    if s != [] && forall x :: x in s ==> p(x) {
      assert forall x :: x in s[1..] ==> x in s;
      FilterKeepsAll(s[1..], p);
      assert s == [s[0]] + s[1..];
    }
  }

  /** The first `profiles` row of `userId`, as its username. */
  function UsernameOf(profiles: seq<Profile>, userId: Id): (name: Option<string>)
    ensures name.Some? ==> Profile(userId, name.value) in profiles
    ensures name.None? ==> forall p :: p in profiles ==> p.userId != userId
  {
    match Find(profiles, (p: Profile) => p.userId == userId)
    case None => None
    case Some(k) => Some(profiles[k].username)
  }

  /** With unique profile ids, the profile a user has is the one found. */
  lemma UsernameOfUnique(profiles: seq<Profile>, userId: Id, username: string)
    requires UniqueBy(profiles, (p: Profile) => p.userId)
    requires Profile(userId, username) in profiles
    ensures UsernameOf(profiles, userId) == Some(username)
  {
    var name := UsernameOf(profiles, userId);
    var i :| 0 <= i < |profiles| && profiles[i] == Profile(userId, username);
    var j :| 0 <= j < |profiles| && profiles[j] == Profile(userId, name.value);
    assert i == j;
  }

  /** The upsert of `{user_id: userId, username}` with `onConflict: "user_id"`:
      the row of `userId` is updated in place, or appended when there is none. */
  function SetUsername(profiles: seq<Profile>, userId: Id, username: string): (r: seq<Profile>)
    ensures UsernameOf(r, userId) == Some(username)
    ensures forall p :: p in r ==> p == Profile(userId, username) || p in profiles
    ensures forall p :: p in profiles && p.userId != userId ==> p in r
  {
    if profiles == [] then [Profile(userId, username)]
    else if profiles[0].userId == userId then [Profile(userId, username)] + profiles[1..]
    else
      var r := [profiles[0]] + SetUsername(profiles[1..], userId, username);
      assert r[1..] == SetUsername(profiles[1..], userId, username);
      r
  }

  lemma {:induction false} SetUsernameIdempotent(profiles: seq<Profile>, userId: Id, username: string)
    ensures SetUsername(SetUsername(profiles, userId, username), userId, username)
         == SetUsername(profiles, userId, username)
  {
    if profiles != [] && profiles[0].userId != userId {
      var tail := SetUsername(profiles[1..], userId, username);
      assert SetUsername(profiles, userId, username) == [profiles[0]] + tail;
      assert ([profiles[0]] + tail)[1..] == tail;
      SetUsernameIdempotent(profiles[1..], userId, username);
    }
  }

  lemma {:induction false} SetUsernameUnique(profiles: seq<Profile>, userId: Id, username: string)
    requires UniqueBy(profiles, (p: Profile) => p.userId)
    ensures UniqueBy(SetUsername(profiles, userId, username), (p: Profile) => p.userId)
  {
    if profiles != [] {
      var r := SetUsername(profiles, userId, username);
      UniqueByCons(profiles, (p: Profile) => p.userId);
      if profiles[0].userId == userId {
        assert r[1..] == profiles[1..];
      } else {
        SetUsernameUnique(profiles[1..], userId, username);
        assert r[1..] == SetUsername(profiles[1..], userId, username);
      }
      UniqueByCons(r, (p: Profile) => p.userId);
    }
  }

  /** The upsert of a `user_roles` row with `onConflict: "user_id,role"`: a row
      that is already there is left as it is. */
  function WithRow(rows: seq<RoleRow>, row: RoleRow): (r: seq<RoleRow>)
    ensures forall x :: x in r <==> x in rows || x == row
  {
    if row in rows then rows else rows + [row]
  }

  /** An account whose email matches `email` the way the provider compares
      emails, ignoring case. */
  predicate SameEmail(a: Account, email: string) {
    a.email.Some? && ToLowerCase(a.email.value) == ToLowerCase(email)
  }

  predicate EmailTaken(accounts: seq<Account>, email: string) {
    exists a :: a in accounts && SameEmail(a, email)
  }

  function HasAccount(accounts: seq<Account>, id: Id): bool {
    exists a :: a in accounts && a.id == id
  }

  /** `accounts` with the password of account `id` replaced. */
  function SetPassword(accounts: seq<Account>, id: Id, password: string): (r: seq<Account>)
    ensures |r| == |accounts|
    ensures forall i :: 0 <= i < |r| ==> r[i].id == accounts[i].id && r[i].email == accounts[i].email
    ensures forall i :: 0 <= i < |r| ==> r[i].password == if accounts[i].id == id then password else accounts[i].password
  {
    if accounts == [] then []
    else [if accounts[0].id == id then accounts[0].(password := password) else accounts[0]]
         + SetPassword(accounts[1..], id, password)
  }

  /** The state after the provider deletes account `id`; the `profiles` and
      `user_roles` rows of `id` go with it (`ON DELETE CASCADE`). */
  function WithoutAccount(db: Db, id: Id): (r: Db)
    ensures forall a :: a in r.accounts <==> a in db.accounts && a.id != id
    ensures forall p :: p in r.profiles <==> p in db.profiles && p.userId != id
    ensures forall x :: x in r.userRoles <==> x in db.userRoles && x.userId != id
  {
    Db(Filter(db.accounts, (a: Account) => a.id != id),
       Filter(db.profiles, (p: Profile) => p.userId != id),
       Filter(db.userRoles, (x: RoleRow) => x.userId != id))
  }

  lemma WithoutAccountWellFormed(db: Db, id: Id)
    requires WellFormed(db)
    ensures WellFormed(WithoutAccount(db, id))
  {
    FilterUniqueBy(db.accounts, (a: Account) => a.id != id, (a: Account) => a.id);
    FilterUniqueBy(db.profiles, (p: Profile) => p.userId != id, (p: Profile) => p.userId);
    FilterUniqueBy(db.userRoles, (x: RoleRow) => x.userId != id, (r: RoleRow) => r);
  }

  /** An upper bound on the length of the ids `id` gives the elements of `s`. */
  function Longest<T(!new)>(s: seq<T>, id: T -> Id): (n: nat)
    ensures forall x :: x in s ==> |id(x)| <= n
  {
    if s == [] then 0
    else
      var n := Longest(s[1..], id);
      if |id(s[0])| > n then |id(s[0])| else n
  }

  /** The id the provider gives a new account: longer than every id in use,
      so it names no account and owns no row. */
  function FreshId(db: Db): (id: Id)
    ensures id != ""
    ensures forall a :: a in db.accounts ==> a.id != id
    ensures forall p :: p in db.profiles ==> p.userId != id
    ensures forall x :: x in db.userRoles ==> x.userId != id
  {
    var n := Longest(db.accounts, (a: Account) => a.id)
           + Longest(db.profiles, (p: Profile) => p.userId)
           + Longest(db.userRoles, (x: RoleRow) => x.userId);
    seq(n + 1, _ => 'u')
  }
}
