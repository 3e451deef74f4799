# Stream wall user administration, modelled in Dafny

This project models the role-based user administration of the stream wall. It proves properties of that model.

The administration works over three remote tables:
- `accounts`, the auth users;
- `profiles`, which give each user id a username;
- `user_roles`, the (user id, role) pairs.

Three pieces of the program operate on them:

- **The management dialog** (`src/components/ManagementDialog.tsx`).
  - It joins the profile rows with the role rows into the list of users it shows.
  - It validates the create-user form and the password-reset answer before calling the provider.
  - It grants roles by insert and revokes them by delete.
  - It deletes accounts behind a confirmation.
  - It disables the role switches and the delete button of any user that holds `admin`.
- **The admin provisioner** (`supabase/functions/provision-admin/index.ts`).
  - When no admin row exists, it creates `admin@admin.com`.
  - If creation fails, it finds that account instead, by a case-insensitive email match on the first page of the account list.
  - It then upserts the profile `admin` and the `(id, admin)` role row.
- **The session helpers** (`src/lib/auth.ts`).
  - `getUser` builds the signed-in user's payload, with the username fallback chain.
  - `isAuthenticated` reports whether there is a session.
  - `login` maps sign-in errors to messages and clears one user's stream cache key.

Module layout:

- `Js` (js.dfy): the JavaScript semantics the code relies on.
  - Truthiness of optional strings, and `||` as a fallback.
  - `find` and `filter`.
  - `String.prototype.trim`, with ECMAScript's white-space set.
  - `.length` in UTF-16 code units.
  - ASCII `toLowerCase`.
- `Tables` (tables.dfy): the rows, the store `Db`, its unique keys (`WellFormed`), and the pure row operations.
- `Remote` (remote.dfy): every Supabase call the code makes. Each is a pure function from the store to a reply and, for writes, a new store.
  - `Remote.Backend` is a class that applies these calls in place.
  - A call listed in the backend's `faults` fails with the fault given there. A fault is either an `error` in the response (`Returned`) or a rejected promise (`Raised`).
  - Other failures follow from the state: a duplicate key, an unknown user, a taken email, bad credentials.
- `Management` (management.dfy): the join and the validation predicates.
  - The class `ManagementDialog` holds the dialog's `users`, `newUser` and `confirmDeleteUser` state.
  - It has one method per handler and one per user action.
  - The admin guard is a precondition of the user actions (`ToggleRole`, `RequestDelete`), as in the code, where it exists only as disabled controls.
- `ProvisionAdmin` (provision.dfy): the provisioner as a pure specification `Provision`, proved against the handler method `Run`, which reassigns `adminUserId`. The idempotence and one-admin lemmas are here too.
- `Auth` (auth.dfy): the cache key, the payload, `isAuthenticated`, and `login` over a `LocalStorage` class that holds a map.

Three behaviours of the code are worth stating plainly, and the model keeps them:

- The handlers do not refuse a user who holds `admin`. Only the controls are disabled (lines 281 and 298). In the model, the handler methods accept any user id, and the user-action methods carry the guard as `requires`.
- A duplicate grant is not silently ignored. The insert's unique-key conflict is reported as an error. The model's `InsertRoleStep` returns that error and leaves the store unchanged. `Management.RoleChangeTwiceIsOnce` shows that the store still ends up the same as after one grant.
- The email minimum is checked on the trimmed email (line 89), but the untrimmed email is passed to `signUp` (line 101). The model does the same.

## Model

| member | source | states |
|---|---|---|
| Management.Join | src/components/ManagementDialog.tsx:66-72 | one entry per profile row, in profile order; its id and username are the profile's, and its roles are the roles of that user's rows, in row order |
| Management.JoinMeaning | src/components/ManagementDialog.tsx:66-72 | an entry lists a role exactly when a role row grants it to that user, and every entry comes from a profile row |
| Management.OrphanRowsDropped | src/components/ManagementDialog.tsx:66-72 | dropping the role rows whose user has no profile leaves the list unchanged |
| Management.FetchKeepsListOnFailure | src/components/ManagementDialog.tsx:50-82 | if either read fails, the previous list is kept and one error toast is shown; otherwise the list becomes the store's join |
| Management.ManagementDialog.constructor | src/components/ManagementDialog.tsx:45-48 | the list and the form start empty, and no deletion is pending |
| Management.ManagementDialog.FetchUsers | src/components/ManagementDialog.tsx:50-82 | the new list is the join of the two reads, or the old list with an error toast when a read fails |
| Management.CreateRejectedMeaning | src/components/ManagementDialog.tsx:89 | white space around the email never changes the verdict; an all-white-space email, an email shorter than three code units, and the empty form are all rejected |
| Management.SubmitDisabledExactlyWhenRejected | src/components/ManagementDialog.tsx:249-251 | the submit button is disabled exactly when `createUser` would reject the form |
| Management.ManagementDialog.CreateUser | src/components/ManagementDialog.tsx:88-120 | a rejected form makes no call and changes nothing; otherwise the untrimmed email and the password are signed up; on success the form is cleared and the list is fetched again; on failure the provider's message, or the fallback, is shown |
| Management.ManagementDialog.SignUpForm | src/components/ManagementDialog.tsx:98-119 | once the form has passed its check, the untrimmed email and the password go to sign-up; on success the form is cleared and the list is fetched again; on failure the form and the list are kept and the provider's message, or the fallback, is shown |
| Management.ManagementDialog.Submit | src/components/ManagementDialog.tsx:215-256 | submitting an enabled form signs up its untrimmed email and password; the form ends up empty exactly when the sign-up succeeded; on success the list is fetched again from the new store, with the created toast followed by the fetch's toasts; on failure the form and the list are kept and the provider's message, or the fallback, is shown |
| Management.ManagementDialog.EditEmail | src/components/ManagementDialog.tsx:228 | only the form's email changes |
| Management.ManagementDialog.EditPassword | src/components/ManagementDialog.tsx:239 | only the form's password changes |
| Remote.InsertAddsExactlyTheRow | src/components/ManagementDialog.tsx:124-129 | a grant adds exactly its pair; a duplicate is a unique-key error; a failed grant changes nothing; accounts and profiles are untouched |
| Remote.DeleteRemovesExactlyThePair | src/components/ManagementDialog.tsx:130-137 | a revoke removes exactly the rows matching both user id and role; revoking an absent pair changes nothing |
| Management.RoleChangeShowsOnlyThePair | src/components/ManagementDialog.tsx:122-152 | after a role change, every other user's entry is unchanged and the user's other roles are unchanged; on success the role is shown exactly when it was granted, and, in the model's row order, a grant appends it at the end |
| Management.RoleChangeTwiceIsOnce | src/components/ManagementDialog.tsx:122-152 | a role change made twice leaves the store as one does; the repeated grant is refused as a duplicate |
| Management.ManagementDialog.HandleRoleChange | src/components/ManagementDialog.tsx:122-152 | the store becomes the insert or delete step; on success the list is fetched again with the added or removed toast; on failure the list is kept and the error is shown |
| Management.AdminHasNoSwitch | src/components/ManagementDialog.tsx:36-42 | `admin` is the only role without a switch |
| Management.AdminLockedMeaning | src/components/ManagementDialog.tsx:278-298 | on a list fresh from the store, an entry's controls are disabled exactly when its user holds an `admin` row |
| Management.SwitchFlips | src/components/ManagementDialog.tsx:292-297 | on a fresh list, flipping a switch succeeds when the store accepts the call, and afterwards the role is shown exactly when it was not shown before |
| Management.SwitchesNeverTouchAdmin | src/components/ManagementDialog.tsx:290-298 | no switch changes who holds `admin` |
| Management.ManagementDialog.ToggleRole | src/components/ManagementDialog.tsx:290-298 | only a switchable role on an entry without `admin` can be flipped; the new value is the negation of the shown one; the set of admin rows is unchanged afterwards |
| Management.ManagementDialog.RequestDelete | src/components/ManagementDialog.tsx:278-282 | only an entry without `admin` can be marked for deletion, and its id is held for confirmation |
| Management.ManagementDialog.DismissDelete | src/components/ManagementDialog.tsx:317-320 | closing the confirmation clears the held id |
| Management.ManagementDialog.ConfirmDelete | src/components/ManagementDialog.tsx:330-331 | only the held id is deleted, and only when it is truthy; otherwise nothing changes |
| Management.ManagementDialog.HandleDeleteUser | src/components/ManagementDialog.tsx:154-173 | on success the account is deleted, the list is fetched again and the confirmation is cleared; on failure the list and the confirmation stay as they were |
| Management.DeleteDropsTheEntry | src/components/ManagementDialog.tsx:154-165 | a successful delete removes exactly that user's entry from the join and keeps all others in order; a failed delete changes nothing |
| Management.PasswordResetRejectedMeaning | src/components/ManagementDialog.tsx:176-184 | a dismissed prompt and every answer shorter than six code units are rejected, and only those |
| Management.ManagementDialog.HandlePasswordChange | src/components/ManagementDialog.tsx:175-204 | a rejected answer makes no call and shows the minimum message; otherwise the password is updated and the outcome is shown |
| Management.ManagementDialog.ChangePassword | src/components/ManagementDialog.tsx:270-276 | a password reset is available on every entry, admins included |
| Remote.PasswordChangeTakesEffect | src/components/ManagementDialog.tsx:187-189 | after a successful update, signing in with the new password yields that account |
| Remote.RegisterCreatesBareAccount | src/components/ManagementDialog.tsx:100-103 | a new account has a fresh id, with no profile and no role, and its email was not already taken |
| ProvisionAdmin.Run | supabase/functions/provision-admin/index.ts:28-78 | the handler's response and the store it leaves behind are exactly what `Provision` specifies |
| ProvisionAdmin.StatusOfRun | supabase/functions/provision-admin/index.ts:29-78 | a run answers 500 exactly when the admin read fails, or, with no admin yet, when the administrator's id cannot be resolved, is empty, or one of the two upserts fails; every other run answers 200 |
| ProvisionAdmin.AlreadyProvisionedMeansNoOp | supabase/functions/provision-admin/index.ts:29-38 | the response is `alreadyProvisioned` exactly when the read succeeds and finds an admin row, and then nothing changes |
| ProvisionAdmin.Bootstrap | supabase/functions/provision-admin/index.ts:40-76 | after no admin was found, the accounts are unchanged or have gained exactly the administrator's account, and only when no account had its email |
| ProvisionAdmin.Resolve | supabase/functions/provision-admin/index.ts:51-60 | the created id; or, when creation returned an error, the first account on page 1 (1000 per page) with the lower-cased admin email; or the creation's error when none matches; a raised creation and a failed listing fail |
| ProvisionAdmin.IsAdminEmailMeansSameEmail | supabase/functions/provision-admin/index.ts:55 | the handler's lower-cased comparison agrees with the provider's case-insensitive email match |
| ProvisionAdmin.ResolvedIsAdminAccount | supabase/functions/provision-admin/index.ts:51-59 | the resolved id belongs to an account with the admin email |
| ProvisionAdmin.UnresolvedCreationWritesNothing | supabase/functions/provision-admin/index.ts:51-56 | a failed creation that finds no listed admin reports the creation's error and writes nothing |
| ProvisionAdmin.Grant | supabase/functions/provision-admin/index.ts:64-76 | the grant keeps the accounts; on `created`, the profile of the id is `admin` and its admin row is present; otherwise no role row changes |
| ProvisionAdmin.CreatedEstablishesAdmin | supabase/functions/provision-admin/index.ts:40-76 | after `created` there is an account with the admin email, a non-empty id, the profile `admin` and the admin role |
| Remote.UpsertProfileIdempotent | supabase/functions/provision-admin/index.ts:65-67 | the profile upsert keyed on `user_id`, applied twice, is the same as applied once |
| Remote.UpsertRoleIdempotent | supabase/functions/provision-admin/index.ts:71-73 | the role upsert keyed on `(user_id, role)`, applied twice, is the same as applied once |
| ProvisionAdmin.GrantIdempotent | supabase/functions/provision-admin/index.ts:64-74 | the two upserts in sequence, run twice, are the same as run once |
| ProvisionAdmin.ResolveAgain | supabase/functions/provision-admin/index.ts:45-59 | on the store a grant leaves behind, a second run writes no account and resolves the same id, or fails |
| ProvisionAdmin.RunTwiceIsRunOnce | supabase/functions/provision-admin/index.ts:28-78 | running the handler twice with the same faults leaves the store as running it once does |
| ProvisionAdmin.SecondRunAlreadyProvisioned | supabase/functions/provision-admin/index.ts:29-38 | after `created`, a later run with any faults that lets the admin read through reports `alreadyProvisioned` and changes nothing |
| ProvisionAdmin.AccountsGrowOnlyByTheAdmin | supabase/functions/provision-admin/index.ts:45-49 | a run adds at most the administrator's account, and only when no account had its email |
| ProvisionAdmin.NoSecondAdminAccount | supabase/functions/provision-admin/index.ts:29-60 | two runs in sequence, with any faults, add at most one account |
| ProvisionAdmin.CreatedLeavesOneAdminRow | supabase/functions/provision-admin/index.ts:70-76 | a run that reports `created` leaves exactly one admin row |
| ProvisionAdmin.NoRollback | supabase/functions/provision-admin/index.ts:64-78 | when the role upsert fails, the failure is reported and the new account and its profile stay in place |
| ProvisionAdmin.ProvisionEmptyStore | supabase/functions/provision-admin/index.ts:28-76 | on an empty store, the run creates the account, the profile `admin` and the admin row; a second run reports `alreadyProvisioned` and changes nothing |
| Auth.CacheKey | src/lib/auth.ts:13 | the key is the prefix `sm_saved_streams_v1_` followed by the username, or `anon` when the username is empty or undefined |
| Auth.CacheKeyInjective | src/lib/auth.ts:13 | different truthy usernames have different keys |
| Auth.AnonymousKeysCollide | src/lib/auth.ts:13 | an undefined username, an empty one and the username `anon` share one key |
| Auth.LocalStorage.RemoveItem | src/lib/auth.ts:14 | exactly the given key is removed |
| Auth.ClearLocalStreamCacheForUser | src/lib/auth.ts:11-18 | exactly the cache key of the username is removed from storage |
| Auth.DisplayName | src/lib/auth.ts:83 | the first truthy value among the profile's username, the email and `user`; never empty |
| Auth.GetUser | src/lib/auth.ts:62-89 | null when there is no session or any call rejects, and a payload otherwise; the id and email come from the session; the username is non-empty and follows the fallback chain; the roles are the read's, or `[]` when the read returns an error |
| Auth.PayloadMeaning | src/lib/auth.ts:80-85 | on a well-formed store, the username falls back from the profile to the email to `user`, and the roles are exactly those the user's rows grant, each listed once |
| Auth.EmptyUsernameFallsThrough | src/lib/auth.ts:83 | a profile with an empty username falls through to the email, then to `user` |
| Auth.IsAuthenticated | src/lib/auth.ts:57-60 | it rejects exactly when `getSession` rejects; otherwise it is true exactly when there is a session |
| Auth.PayloadOnlyWhenAuthenticated | src/lib/auth.ts:57-89 | a payload implies `isAuthenticated` is true; conversely, when it is true and neither read rejects, `getUser` returns a payload |
| Auth.LoginErrorMessage | src/lib/auth.ts:26-28 | the provider's message, or `Failed to login` when that message is empty |
| Auth.LoginReply | src/lib/auth.ts:20-48 | login succeeds exactly when sign-in succeeds and neither read rejects, with the signed-in user; every sign-in error returned in the response, injected or produced by the store, is rethrown with the mapped message; a rejected sign-in passes through unchanged |
| Auth.WrongPasswordIsReturned | src/lib/auth.ts:21-28 | when no account with the email has the password, sign-in returns the invalid-credentials error and login rethrows that message |
| Auth.Login | src/lib/auth.ts:20-48 | the result is `LoginReply`'s; on success exactly the cache key of the login username is removed; on failure storage is untouched |
| Auth.LoginClearsPayloadKey | src/lib/auth.ts:43-44 | the username a login clears is the username `getUser` shows for the same user, and it follows the key prefix unchanged |

## Left out

- Tables.Db: each table is a sequence that every read returns in the same order, and an insert appends its row. The reads at ManagementDialog.tsx lines 53-55 and 59-61 have no ORDER BY, and PostgreSQL promises no order for them. So the positions in the list are a modelling choice: the entry-by-entry comparisons of `Management.RoleChangeShowsOnlyThePair` and `Management.DeleteDropsTheEntry`, and a granted role shown last. The same holds for `listUsers`: the provisioner's page 1 is taken as the first 1000 accounts in insertion order, but the call at index.ts line 53 passes no sort, so once there are more than 1000 accounts, which ones `ProvisionAdmin.Resolve` and `ProvisionAdmin.ResolveAgain` see is the provider's choice. The membership statements do not depend on that order.
- JSX rendering, toasts and `useEffect`.
  - A toast is modelled only as the list of success and error descriptions a handler returns.
  - The refetch on opening the dialog is the method `FetchUsers`, called by whoever opens it.
- `prompt()`. The new password is a parameter, and `None` stands for a dismissed prompt.
- Async ordering and concurrency. Each handler runs to completion with its unawaited `fetchUsers` call inlined. Overlapping runs of the provisioner and interleaved role edits are not modelled.
- `Remote.Backend`: a faulted call fails on every attempt within one backend. Failures that come and go between calls are not modelled.
- Management.ManagementDialog.ConfirmDelete: the library's confirmation button also closes the dialog through `onOpenChange`. That clears `confirmDeleteUser` even when the delete fails. The model keeps the handler's own behaviour only.
- Management.ManagementDialog.Submit: its `requires` is only the button's `disabled` condition. The inputs also carry `type="email"` and `required` (lines 226, 230 and 241), so the browser's own form validation blocks an enabled form whose email is not an address, such as `abc`, and `createUser` then never runs. That validation belongs to the rendering and is not modelled.
- Management.ManagementDialog.CreateUser: it does not model a side effect of a successful `signUp`. On success, `signUp` may switch the client's session to the new user. The session is a parameter of `Auth.GetUser`, not part of the dialog.
- Remote.RegisterStep: a sign-up with an email that is already taken is always an error. It does not model providers that answer such a sign-up with an obfuscated success.
- The provider's account-creation trigger that inserts a profile is an external collaborator, so it is not modelled. A new account therefore has no profile, and it does not appear in the list.
- Foreign keys between the tables are not modelled, beyond the cascade from deleting an account.
- The provider's error messages (duplicate key, email taken, user not found, invalid credentials) are placeholder constants.
- ProvisionAdmin.Run: the error text is the fault's message. The form `String(e)` gives it (the error's name before the message) is not modelled.
- Provisioner plumbing is not modelled:
  - the `OPTIONS` preflight;
  - the `json` helper and its CORS headers;
  - `Deno.env` and `createClient`.
- Js.Utf16Length: a Dafny `string` holds Unicode scalar values, so it cannot carry the lone surrogates a JavaScript string can. `Utf16Length` and `Trim` are not defined for such strings.
- `Js.ToLowerCase` lower-cases ASCII letters only. No non-ASCII character lower-cases to a character of `admin@admin.com`, so the provisioner's email match is unaffected.
- Password hashing, session tokens and `getToken` are not part of this model.
- `logout` only forwards a sign-out error, so it is not part of this model.
- `src/lib/ProtectedRoute.tsx` and `src/components/ui/bitrate-panel.tsx` are not part of this model. The route guard reduces to `Auth.IsAuthenticated`.
- `LocalStorage` is a map, and it never throws, so the `catch` around `removeItem` has nothing to catch.
- Auth.Login: the signed-in session that the auth client keeps is not modelled. `login` returns the signed-in user, and `Auth.GetUser` takes the session as a parameter.
