# MySQLAccounts identity store, modelled in Dafny

MySQLAccounts is an ASP.NET Identity user store backed by MySQL. A
`UserStore` facade checks its arguments and then reads and writes five
tables through one gateway class per table:

- `UserTable` for the Users table;
- `RoleTable` for Roles;
- `UserRolesTable` for the user-to-role links;
- `UserClaimsTable` for claims;
- `UserLoginsTable` for external logins.

This project models that store over an in-memory database. The `Database`
class holds the five tables as sequences of rows in table order. The model
makes these substitutions:

- **Users rows** are maps from column to nullable text, as the MySQL reader
  hands them to the gateway. The other tables have row datatypes.
- **Gateways** are classes whose write methods reassign one table field.
  Their reads are functions over the table sequences.
- **`foreach` loops** that build result lists are methods with loop
  invariants. Each is proved equal to a specification function.
- **Exceptions** from `UserStore` come back as `Fail`/`Failure` values. They
  carry the exception kind and the parameter name or message the source
  builds the exception with.
- **The user entity** `IdentityUser` is a class with mutable fields. The
  setters of `UserStore` change it in place.

## Files

- `wrappers.dfy`: `Option`, `Result`, `Outcome`, `IsNullOrEmpty`.
- `numerals.dfy`:
  - `Int32` and its wrapping increment;
  - decimal text of integers and its parse, with the round trip proved.
- `relational.dfy`: what `SELECT … WHERE`, `DELETE … WHERE`,
  `UPDATE … WHERE` and a column projection do to a table held in memory,
  with the lemmas that relate them.
- `identity_user.dfy`: `IdentityUser`, its value snapshot `UserData`, and
  the lockout predicate.
- `schema.dfy`: row shapes, the Users row invariant, and the `Database`
  class.
- One file per gateway: `user_table.dfy`, `role_table.dfy`,
  `user_logins_table.dfy`, `user_claims_table.dfy`, `user_roles_table.dfy`.
- `user_store.dfy`: the `UserStore` facade.

## Model

| member | source | states |
|---|---|---|
| Numerals.WrappingIncrement | UserStore.cs:676 | `AccessFailedCount++` on a 32-bit int: one more, except that the maximum wraps to the minimum |
| Numerals.NatToStringRoundTrip | UserTable.cs:78 | the decimal text of a natural number is digits only and parses back to that number |
| Numerals.IntToStringRoundTrip | UserTable.cs:78 | the text of any integer, as bound for `@accesscount`, is a numeral that `int.Parse` reads back as the same integer |
| Relational.Where | UserTable.cs:61-63 | a WHERE selection keeps exactly the rows satisfying the condition and never grows the table |
| Relational.WhereEmpty | UserLoginsTable.cs:86-93 | a selection is empty exactly when no row satisfies the condition |
| Relational.DeleteWhere | UserTable.cs:206-212 | a DELETE keeps exactly the rows not satisfying the condition |
| Relational.UpdateWhere | UserTable.cs:231-248 | an UPDATE keeps the row count, rewrites each matching row and leaves every other row as it was |
| Relational.Project | UserLoginsTable.cs:108-112 | a projection yields one value per row, in row order |
| Relational.WhereAppend | UserTable.cs:180-197 | selecting after an INSERT is the old selection followed by the new row when it matches |
| Relational.WhereAfterDelete | UserTable.cs:206-212 | a DELETE does not change what a disjoint condition selects |
| Relational.WhereDeleted | UserTable.cs:206-212 | after a DELETE, its own condition selects nothing |
| Relational.WhereCounts | UserTable.cs:61-63 | a selection holds each matching row as many times as the table does, and no other row |
| Relational.ProjectAppend | UserLoginsTable.cs:108-112 | projecting two runs of rows is projecting each and concatenating |
| Relational.WhereUpdateCommute | UserTable.cs:231-248 | selecting after an UPDATE that keeps a condition's truth is updating the old selection |
| Relational.WhereAfterUpdate | UserTable.cs:231-248 | after an UPDATE that keeps a condition's truth, the condition selects as many rows, each rewritten where it matched, and exactly the old rows when the two conditions are disjoint |
| Identity.IsLockedOut | IdentityUser.cs:56-61 | a user is locked out at now exactly when a lockout end is stored and lies after now; no end means not locked out |
| Identity.LockoutRunsOut | IdentityUser.cs:56-61 | a lockout only runs out: locked out at an instant means locked out at every earlier one, and nobody is locked out from the end onwards |
| Identity.IdentityUser.constructor | IdentityUser.cs:76-79 | a new user has the supplied fresh id, no user name, null strings, false flags, no lockout end and a zero count |
| Identity.IdentityUser.WithUserName | IdentityUser.cs:87-91 | as the default constructor, with the given user name |
| Users.EncodeInstantReadable | UserTable.cs:194 | a bound lockout end is either NULL or text that parses back to the same instant |
| Users.EncodeRow | UserTable.cs:180-196 | the row Insert and Update bind for a user has every column, the user's id, and count and instant text the reader can parse |
| Users.DecodeNullable | UserTable.cs:70-74 | a NULL or empty column reads as null, and any other value is kept verbatim |
| Users.DecodeBool | UserTable.cs:73-76 | a flag reads true exactly when the column is "1" |
| Users.DecodeCount | UserTable.cs:78 | AccessFailedCount reads 0 when empty and the parsed integer otherwise |
| Users.DecodeInstant | UserTable.cs:77 | LockoutEndDateUtc reads as the current instant when empty and the parsed instant otherwise |
| Users.DecodeRow | UserTable.cs:66-78 | a row reads as a user with the row's id and user name; TwoFactorEnabled is read only on the by-name path; an empty lockout end never locks out |
| Users.Reloaded | UserTable.cs:100-111 | reading a written user back changes it exactly when one of its nullable strings is empty or its lockout end is missing |
| Users.DecodeEncode | UserTable.cs:97-111 | a written user reads back, by name, as Reloaded of itself; by id, the same but with TwoFactorEnabled false |
| Users.UserById | UserTable.cs:58-82 | GetUserById finds a user exactly when one row has the id; the user has that id and TwoFactorEnabled false |
| Users.UsersByName | UserTable.cs:91-116 | GetUserByName yields one user per row with the name, in row order: entry i carries that name and the id of the i-th matching row |
| Users.GetUserId | UserTable.cs:44-49 | null exactly when no row has the user name; otherwise the id of a row with that name |
| Users.GetSecurityStamp | UserTable.cs:167-172 | null when no row has the id; otherwise exactly the stored SecurityStamp of the first row with that id |
| Users.GetUserByEmail | UserTable.cs:118-121 | always null |
| Users.GetPasswordHash | UserTable.cs:130-142 | never the empty string; null exactly when no row has the id or the first such row stores NULL or ""; otherwise exactly the stored PasswordHash of that first row |
| Users.UpdateRows | UserTable.cs:231-248 | Update keeps the row count, rewrites every row with the user's id from the user, leaves other rows, and keeps the table well formed |
| Users.SetPasswordHashRows | UserTable.cs:152-159 | SetPasswordHash changes only the PasswordHash column of the rows with that id |
| Users.DeleteRows | UserTable.cs:206-212 | Delete removes exactly the rows with that id |
| Users.InsertThenFindById | UserTable.cs:180-197 | inserting a user with a new id makes GetUserById return it, as reloaded, with TwoFactorEnabled false |
| Users.InsertDuplicateHidesUser | UserTable.cs:64 | inserting a second row with an existing id makes GetUserById return null |
| Users.UpdateThenFindById | UserTable.cs:231-248 | after Update the user reads back as written up to reload normalisation; every other id reads as before |
| Users.DeleteThenFindById | UserTable.cs:206-223 | after Delete the id finds nobody; every other id reads as before |
| Users.SetPasswordHashThenRead | UserTable.cs:152-159 | after SetPasswordHash, GetPasswordHash returns the new hash (empty as null), and the user by id differs only in its hash |
| Users.DecodeWithPasswordHash | UserTable.cs:70 | replacing the PasswordHash column changes only the decoded hash |
| Users.UpdateThenGetPasswordHash | UserTable.cs:130-142 | after Update, GetPasswordHash returns the written hash, empty as null |
| Users.InsertThenFindByName | UserTable.cs:91-116 | an insert adds the reloaded user at the end of its name's list and leaves every other name's list alone |
| Users.UserTable.constructor | UserTable.cs:19-22 | the gateway works on the given database |
| Users.UserTable.NewUser | UserTable.cs:67-78 | a fresh user object carrying exactly the decoded properties |
| Users.UserTable.GetUserById | UserTable.cs:58-82 | null exactly when UserById finds nobody; otherwise a fresh user object holding that user |
| Users.UserTable.GetUserByName | UserTable.cs:91-116 | the loop yields one fresh user object per UsersByName entry, in order |
| Users.UserTable.Insert | UserTable.cs:180-197 | appends exactly the encoded row and affects one row |
| Users.UserTable.Delete | UserTable.cs:206-223 | the table becomes DeleteRows of the user's id; the affected count is the number of rows with that id |
| Users.UserTable.Update | UserTable.cs:231-248 | the table becomes UpdateRows of the user; the affected count is the number of rows with that id |
| Users.UserTable.SetPasswordHash | UserTable.cs:152-159 | the table becomes SetPasswordHashRows; the affected count is the number of rows with that id |
| Roles.GetRoleName | RoleTable.cs:67-73 | null exactly when no role has the id; otherwise a stored role has that id and name |
| Roles.GetRoleId | RoleTable.cs:85-97 | null exactly when no role has the name; otherwise a stored role has that id and name |
| Roles.GetRoleById | RoleTable.cs:105-115 | a role exactly when the name lookup succeeds, carrying the given id and the found name, and stored |
| Roles.GetRoleByName | RoleTable.cs:123-133 | a role exactly when the id lookup succeeds, carrying the given name and the found id, and stored |
| Roles.FindStoredRole | RoleTable.cs:105-133 | with unique ids and names, a stored role is found by its id and by its name |
| Roles.RoleLookupsAgree | RoleTable.cs:105-133 | with unique ids and names, looking up by id and then by the found name gives the same role |
| Roles.InsertThenFindRole | RoleTable.cs:48-55 | a role inserted with a new id and name is found by both |
| Roles.DeleteThenFindRole | RoleTable.cs:33-39 | after Delete the id finds nothing; every other id finds what it found before |
| Roles.RoleTable.constructor | RoleTable.cs:21-24 | the gateway works on the given database |
| Roles.RoleTable.Insert | RoleTable.cs:48-55 | appends exactly one (Id, Name) row |
| Roles.RoleTable.Delete | RoleTable.cs:33-39 | removes exactly the roles with the id |
| UserLogins.FindUserIdByLogin | UserLoginsTable.cs:86-93 | null exactly when no row holds the provider and key; otherwise a stored row links that id to them |
| UserLogins.LoginsOf | UserLoginsTable.cs:102-115 | one login per row of the user, and a login is listed exactly when the user has a row for it |
| UserLogins.InsertThenFindUserId | UserLoginsTable.cs:69-93 | after Insert the login finds the inserting user when no earlier row held it, and what it found before otherwise |
| UserLogins.InsertThenLogins | UserLoginsTable.cs:69-77 | Insert appends the login to its user's list |
| UserLogins.InsertKeepsOtherLogins | UserLoginsTable.cs:69-77 | Insert leaves every other user's list alone |
| UserLogins.DeleteLoginThenLogins | UserLoginsTable.cs:34-42 | Delete(user, login) takes exactly that login off the user's list and leaves others' lists alone |
| UserLogins.DeleteUserThenLogins | UserLoginsTable.cs:51-57 | Delete(userId) empties the user's list, no key resolves to the user any more, and others' lists stay |
| UserLogins.UserLoginsTable.constructor | UserLoginsTable.cs:19-22 | the gateway works on the given database |
| UserLogins.UserLoginsTable.Insert | UserLoginsTable.cs:69-77 | appends exactly one row, with no duplicate check |
| UserLogins.UserLoginsTable.Delete | UserLoginsTable.cs:34-42 | removes exactly the rows matching user id, provider and key |
| UserLogins.UserLoginsTable.DeleteUser | UserLoginsTable.cs:51-57 | removes exactly the rows of the user |
| UserLogins.UserLoginsTable.FindByUserId | UserLoginsTable.cs:102-115 | the loop builds exactly LoginsOf the user |
| UserClaims.ClaimsOf | UserClaimsTable.cs:31-44 | one claim per row of the user, and a claim is listed exactly when the user has a row for it |
| UserClaims.InsertThenClaims | UserClaimsTable.cs:71-79 | Insert appends the claim to its user's claims, even when an equal claim is present |
| UserClaims.InsertKeepsOtherClaims | UserClaimsTable.cs:71-79 | Insert leaves every other user's claims alone |
| UserClaims.DeleteUserThenClaims | UserClaimsTable.cs:53-59 | Delete(userId) empties the user's claims and leaves others' alone |
| UserClaims.UserClaimsTable.constructor | UserClaimsTable.cs:19-22 | the gateway works on the given database |
| UserClaims.UserClaimsTable.FindByUserId | UserClaimsTable.cs:31-44 | the loop builds exactly ClaimsOf the user |
| UserClaims.UserClaimsTable.DeleteUser | UserClaimsTable.cs:53-59 | removes exactly the claim rows of the user |
| UserClaims.UserClaimsTable.Insert | UserClaimsTable.cs:71-79 | appends exactly one claim row |
| UserRoles.JoinRoles | UserRolesTable.cs:33 | the join yields exactly the stored roles whose id some given link names |
| UserRoles.JoinedRoles | UserRolesTable.cs:33-36 | the join for a user yields exactly the stored roles the user has a link to |
| UserRoles.RoleNamesOf | UserRolesTable.cs:30-43 | a name is listed exactly when the user links to a role id whose stored role carries that name; dangling links add nothing |
| UserRoles.JoinRolesAppend | UserRolesTable.cs:33 | joining two runs of links is joining each and concatenating |
| UserRoles.InsertThenRoleNames | UserRolesTable.cs:70-77 | Insert appends the names of the roles carrying the linked id to the user's names |
| UserRoles.InsertThenHasRoleName | UserRolesTable.cs:70-77 | linking a user to a stored role puts the role's name among the user's names |
| UserRoles.InsertKeepsOtherRoleNames | UserRolesTable.cs:70-77 | Insert leaves every other user's names alone |
| UserRoles.DeleteUserThenRoleNames | UserRolesTable.cs:52-58 | Delete(userId) leaves the user no names and others' names alone |
| UserRoles.UserRolesTable.constructor | UserRolesTable.cs:18-21 | the gateway works on the given database |
| UserRoles.UserRolesTable.FindByUserId | UserRolesTable.cs:30-43 | the loop builds exactly RoleNamesOf the user |
| UserRoles.UserRolesTable.DeleteUser | UserRolesTable.cs:52-58 | removes exactly the links of the user |
| UserRoles.UserRolesTable.Insert | UserRolesTable.cs:70-77 | appends exactly one link, with no duplicate check |
| Store.CreateThenFindByLogin | UserStore.cs:248-266 | creating a user with a new id and adding a new login makes the login resolve to the user's id, which reads back by id as the user after reload normalisation (empty nullable strings as null, a missing lockout end as now) and with TwoFactorEnabled false |
| Store.LockoutEndOf | UserStore.cs:648-651 | the stored lockout end, or the minimum instant when there is none |
| Store.LockedOutByReportedEnd | IdentityUser.cs:61 | a user is locked out exactly when the reported lockout end lies after now |
| Store.UserStore.constructor | UserStore.cs:52-60 | every gateway works on the store's database |
| Store.UserStore.Create | UserStore.cs:68-77 | a null user fails with ArgumentNull("user") and leaves Users alone; otherwise the row is appended |
| Store.UserStore.FindById | UserStore.cs:86-100 | a null or empty id fails; otherwise null exactly when GetUserById finds nobody, else that user |
| Store.UserStore.FindByName | UserStore.cs:109-123 | a null or empty name fails; otherwise a user exactly when one row has the name, else null |
| Store.UserStore.Update | UserStore.cs:132-141 | a null user fails with ArgumentNull("user") and leaves Users alone; otherwise its rows are rewritten |
| Store.UserStore.Delete | UserStore.cs:418-426 | a null user is a silent no-op; otherwise the user's rows go |
| Store.UserStore.FindByEmail | UserStore.cs:548-562 | a null or empty email fails with ArgumentNull("email"); any other yields null |
| Store.UserStore.AddClaim | UserStore.cs:162-176 | a null user or claim fails with ArgumentNull("user") and changes nothing; otherwise one claim row is appended |
| Store.UserStore.GetClaims | UserStore.cs:184-188 | the user's claims, in row order |
| Store.UserStore.AddLogin | UserStore.cs:226-240 | a null user or login fails with its parameter's name and changes nothing; otherwise one login row is appended |
| Store.UserStore.FindByLogin | UserStore.cs:248-266 | a null login fails; otherwise null exactly when no row holds the login or its user id has no single user row, else that user |
| Store.UserStore.GetLogins | UserStore.cs:274-289 | a null user fails; otherwise the user's logins in row order |
| Store.UserStore.RemoveLogin | UserStore.cs:301-315 | a null user or login fails and changes nothing; otherwise exactly the matching login rows go |
| Store.UserStore.AddToRole | UserStore.cs:327-346 | a null user or null or empty role name fails and changes nothing; an unresolved role name silently changes nothing; otherwise one link to the resolved id is appended |
| Store.UserStore.GetRoles | UserStore.cs:354-368 | a null user fails; otherwise the user's role names |
| Store.UserStore.IsInRole | UserStore.cs:378-397 | a null user or null or empty role fails; otherwise true exactly when the user links to a role id stored with that name |
| Store.UserStore.RemoveFromRole | UserStore.cs:407-410 | always fails with NotImplemented and may change nothing |
| Store.UserStore.GetPasswordHash | UserStore.cs:434-438 | the table's hash for the user's id: null when the user has no row, otherwise the first row's stored PasswordHash with NULL or "" read as null |
| Store.UserStore.HasPassword | UserStore.cs:446-449 | true exactly when the stored hash is neither null nor empty, which needs a row for the user |
| Store.UserStore.SetPasswordHash | UserStore.cs:459-463 | only the in-memory hash changes; no table may change |
| Store.UserStore.GetSecurityStamp | UserStore.cs:485-488 | the in-memory user's stamp; no table is read |
| Store.UserStore.SetSecurityStamp | UserStore.cs:473-477 | only the in-memory stamp changes, and GetSecurityStamp returns it; no table may change |
| Store.UserStore.GetEmail | UserStore.cs:511-514 | the in-memory user's email; no table is read |
| Store.UserStore.SetEmail | UserStore.cs:498-503 | the email changes in memory, GetEmail returns it, and the whole row is rewritten by Update |
| Store.UserStore.GetEmailConfirmed | UserStore.cs:522-525 | the in-memory user's EmailConfirmed flag |
| Store.UserStore.SetEmailConfirmed | UserStore.cs:535-540 | the flag changes in memory, its getter returns it, and the whole row is rewritten |
| Store.UserStore.GetPhoneNumber | UserStore.cs:585-588 | the in-memory user's phone number |
| Store.UserStore.SetPhoneNumber | UserStore.cs:572-577 | the number changes in memory, its getter returns it, and the whole row is rewritten |
| Store.UserStore.GetPhoneNumberConfirmed | UserStore.cs:596-599 | the in-memory user's PhoneNumberConfirmed flag |
| Store.UserStore.SetPhoneNumberConfirmed | UserStore.cs:609-614 | the flag changes in memory, its getter returns it, and the whole row is rewritten |
| Store.UserStore.GetTwoFactorEnabled | UserStore.cs:637-640 | the in-memory user's TwoFactorEnabled flag |
| Store.UserStore.SetTwoFactorEnabled | UserStore.cs:624-629 | the flag changes in memory, its getter returns it, and the whole row is rewritten |
| Store.UserStore.GetLockoutEndDate | UserStore.cs:648-651 | the in-memory lockout end, or the minimum instant (`default(DateTimeOffset)`) when there is none |
| Store.UserStore.SetLockoutEndDate | UserStore.cs:661-666 | the end changes in memory, GetLockoutEndDate returns it, and the whole row is rewritten |
| Store.UserStore.GetLockoutEnabled | UserStore.cs:711-714 | the in-memory user's LockoutEnabled flag |
| Store.UserStore.SetLockoutEnabled | UserStore.cs:724-729 | the flag changes in memory, its getter returns it, and the whole row is rewritten |
| Store.UserStore.GetAccessFailedCount | UserStore.cs:700-703 | the in-memory user's failed-access count |
| Store.UserStore.IncrementAccessFailedCount | UserStore.cs:674-679 | the count rises by exactly one below the maximum and wraps at it; the whole row is rewritten; the new count is returned |
| Store.UserStore.ResetAccessFailedCount | UserStore.cs:687-692 | the count becomes zero and the whole row is rewritten |

## Left out

- MySQLDatabase.cs: connections, retries, `Thread.Sleep` and configuration are not modelled. `Execute`, `Query` and `QueryValue` are replaced by the in-memory tables. Two of their rules are kept: DB NULL reads as null, and a null parameter is written as NULL.
- Result order: SQL gives no order without `ORDER BY`. The model returns rows in table order. For the UserRoles-Roles join it returns, link by link, the roles in table order.
- Parameter names: some gateways bind parameter names without the `@`, or with another letter case, than the SQL text uses. The model assumes the connector matches them, so the statements act as their SQL text says.
- Async: every `Task`-returning method is a synchronous method or function.
- Dates: instants are natural numbers, and "now" is a parameter. The model does not cover time zones, `DateTime.Now`'s local time, `DateTimeOffset` or `SpecifyKind`. GetUserByName reads `DateTime.Now` afresh for each row with an empty lockout end; the model uses one `now` for the whole query (Users.UsersByName, Users.DecodeRow).
- AccountService.cs and IAccountsService.cs: the service delegates to the framework's user manager, which is not part of this model; the other file is only an interface.
- UserClaimsTable.Delete(user, claim) is not modelled. Its WHERE clause compares the parameter `@ClaimValue` rather than the column, so its effect depends on the database.
- UserStore.RemoveClaimAsync is not modelled, because its only effect is that delete.
- RoleTable.Update is not modelled. It never binds `@name`, so its effect depends on the database.
- UserTable.GetUserName is not modelled. It selects a `Name` column that the Users table does not have.
- `UserStore.Users`, `Dispose` and the parameterless constructor are not modelled. The first only throws, `Dispose` only releases the connection, and the constructor builds and discards a second store.
- Null users where the source has no null check crash in the source with a null reference. This covers the getters, the setters, `GetClaimsAsync`, `GetPasswordHashAsync` and `HasPasswordAsync`. The model declares those users non-null.
- Claims, logins and role names are non-null strings.
- Key constraints: the Users and Roles tables have `Id` as their primary key, so the database refuses an INSERT with an id already present and the statement throws. The model has no keys. Users.UserTable.Insert, Roles.RoleTable.Insert and Store.UserStore.Create append the row anyway, and Create reports success. Users.InsertDuplicateHidesUser describes that keyless state, which a keyed table never reaches.
- String comparison is exact equality. MySQL collations, such as case-insensitive matching, are not modelled.
- Store.UserStore: the methods that read Users (FindById, FindByName, FindByLogin, GetPasswordHash, HasPassword) require the Users rows to be well formed; the writes keep them so. A stored AccessFailedCount or LockoutEndDateUtc that `int.Parse` or `DateTime.Parse` rejects would throw in the source; the model excludes such rows by that table invariant.
- Identity.IdentityUser.constructor: the source draws a fresh GUID for the id. The model takes the fresh id as a parameter.
- Affected-row counts that the store discards are computed but used nowhere.
