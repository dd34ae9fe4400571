/**
 * The user store: the facade the identity framework talks to. It checks its
 * arguments, then reads and writes the five tables through their gateways.
 * Exceptions it throws come back as `Fail`/`Failure` values carrying the
 * exception's kind and the parameter name or message it is built with.
 */
module Store {
  import opened Wrappers
  import opened Numerals
  import opened Relational
  import opened Identity
  import opened Schema
  import opened Users
  import opened Roles
  import opened UserLogins
  import opened UserClaims
  import opened UserRoles

  /** The exceptions the store throws. */
  datatype Error =
    | ArgumentNull(paramName: string)
    | ArgumentError(message: string)
    | NotImplemented

  /**
   * Creating a user whose id is new and then adding a login whose provider
   * and key are new makes the login find that user, read back by id.
   */
  lemma CreateThenFindByLogin(users: seq<UserRow>, logins: seq<LoginRow>, u: UserData, login: LoginInfo, now: nat)
    requires WellFormedUsers(users)
    requires Where(users, HasId(u.id)) == []
    requires forall row | row in logins :: !HasKey(login)(row)
    ensures WellFormedUsers(users + [EncodeRow(u)])
    ensures FindUserIdByLogin(logins + [LoginRow(u.id, login.loginProvider, login.providerKey)], login) == Some(u.id)
    ensures UserById(users + [EncodeRow(u)], u.id, now) == Some(Reloaded(u, now).(twoFactorEnabled := false))
  {
    InsertThenFindUserId(logins, u.id, login);
    InsertThenFindById(users, u, now);
  }

  /** The lockout end the store reports: the stored end, or the minimum instant when none. */
  function LockoutEndOf(u: UserData): (t: nat)
    ensures u.lockoutEndDateUtc.Some? ==> t == u.lockoutEndDateUtc.value
    ensures u.lockoutEndDateUtc.None? ==> t == MinInstant
  {
    if u.lockoutEndDateUtc.Some? then u.lockoutEndDateUtc.value else MinInstant
  }

  /** A user is locked out at `now` exactly when the reported end lies after `now`. */
  lemma LockedOutByReportedEnd(u: UserData, now: nat)
    ensures IsLockedOut(u.lockoutEndDateUtc, now) <==> now < LockoutEndOf(u)
  {
  }

  /** The identity store over one database. */
  class UserStore {
    const db: Database
    const userTable: UserTable
    const roleTable: RoleTable
    const userRolesTable: UserRolesTable
    const userClaimsTable: UserClaimsTable
    const userLoginsTable: UserLoginsTable

    /** Every gateway works on the store's database. */
    predicate Wired()
    {
      && userTable.db == db
      && roleTable.db == db
      && userRolesTable.db == db
      && userClaimsTable.db == db
      && userLoginsTable.db == db
    }

    constructor (database: Database)
      ensures db == database
      ensures Wired()
    {
      db := database;
      userTable := new UserTable(database);
      roleTable := new RoleTable(database);
      userRolesTable := new UserRolesTable(database);
      userClaimsTable := new UserClaimsTable(database);
      userLoginsTable := new UserLoginsTable(database);
    }

    // -------------------------------------------------------------------
    // Users.
    // -------------------------------------------------------------------

    /** CreateAsync: a null user is refused; otherwise its row is appended. */
    method Create(user: IdentityUser?) returns (r: Outcome<Error>)
      requires Wired()
      modifies db`users
      ensures old(db.Valid()) ==> db.Valid()
      ensures user == null ==> r == Fail(ArgumentNull("user")) && db.users == old(db.users)
      ensures user != null ==> r == Pass && db.users == old(db.users) + [EncodeRow(user.Data())]
    {
      if user == null {
        return Fail(ArgumentNull("user"));
      }
      var _ := userTable.Insert(user);
      r := Pass;
    }

    /**
     * FindByIdAsync: a null or empty id is refused; otherwise the user of the
     * one row with that id, or null.
     */
    method FindById(userId: Option<string>, now: nat) returns (r: Result<IdentityUser?, Error>)
      requires Wired() && db.Valid()
      ensures IsNullOrEmpty(userId) ==> r == Failure(ArgumentError("Null or empty argument: userId"))
      ensures !IsNullOrEmpty(userId) ==> r.Success?
      ensures r.Success? ==>
        (r.value == null <==> UserById(db.users, userId.value, now).None?)
      ensures r.Success? && r.value != null ==>
        fresh(r.value) && r.value.Data() == UserById(db.users, userId.value, now).value
    {
      if IsNullOrEmpty(userId) {
        return Failure(ArgumentError("Null or empty argument: userId"));
      }
      var user := userTable.GetUserById(userId.value, now);
      r := Success(user);
    }

    /**
     * FindByNameAsync: a null or empty name is refused; otherwise the user
     * when exactly one row carries that name, and null for none or several.
     */
    method FindByName(userName: Option<string>, now: nat) returns (r: Result<IdentityUser?, Error>)
      requires Wired() && db.Valid()
      ensures IsNullOrEmpty(userName) ==> r == Failure(ArgumentError("Null or empty argument: userName"))
      ensures !IsNullOrEmpty(userName) ==> r.Success?
      ensures r.Success? ==>
        (r.value != null <==> |UsersByName(db.users, userName.value, now)| == 1)
      ensures r.Success? && r.value != null ==>
        fresh(r.value) && r.value.Data() == UsersByName(db.users, userName.value, now)[0]
    {
      if IsNullOrEmpty(userName) {
        return Failure(ArgumentError("Null or empty argument: userName"));
      }
      var users := userTable.GetUserByName(userName.value, now);
      if |users| == 1 {
        r := Success(users[0]);
      } else {
        r := Success(null);
      }
    }

    /** UpdateAsync: a null user is refused; otherwise its rows are rewritten from it. */
    method Update(user: IdentityUser?) returns (r: Outcome<Error>)
      requires Wired()
      modifies db`users
      ensures old(db.Valid()) ==> db.Valid()
      ensures user == null ==> r == Fail(ArgumentNull("user")) && db.users == old(db.users)
      ensures user != null ==> r == Pass && db.users == UpdateRows(old(db.users), user.Data())
    {
      if user == null {
        return Fail(ArgumentNull("user"));
      }
      var _ := userTable.Update(user);
      r := Pass;
    }

    /** DeleteAsync: a null user is silently ignored; otherwise its rows go. */
    method Delete(user: IdentityUser?)
      requires Wired()
      modifies db`users
      ensures old(db.Valid()) ==> db.Valid()
      ensures user == null ==> db.users == old(db.users)
      ensures user != null ==> db.users == DeleteRows(old(db.users), user.id)
    {
      if user != null {
        var _ := userTable.Delete(user);
      }
    }

    /**
     * FindByEmailAsync: a null or empty email is refused; for any other the
     * lookup is a placeholder that finds nobody.
     */
    method FindByEmail(email: Option<string>) returns (r: Result<IdentityUser?, Error>)
      ensures IsNullOrEmpty(email) ==> r == Failure(ArgumentNull("email"))
      ensures !IsNullOrEmpty(email) ==> r == Success(null)
    {
      if IsNullOrEmpty(email) {
        return Failure(ArgumentNull("email"));
      }
      // The lookup yields a list, or null; cast to a user, either reads as null.
      var found := GetUserByEmail(email.value);
      r := Success(null);
    }

    // -------------------------------------------------------------------
    // Claims.
    // -------------------------------------------------------------------

    /**
     * AddClaimAsync: a null user or a null claim is refused (both name the
     * parameter "user"); otherwise one claim row is appended.
     */
    method AddClaim(user: IdentityUser?, claim: Option<Claim>) returns (r: Outcome<Error>)
      requires Wired()
      modifies db`userClaims
      ensures user == null || claim.None? ==>
        r == Fail(ArgumentNull("user")) && db.userClaims == old(db.userClaims)
      ensures user != null && claim.Some? ==>
        && r == Pass
        && db.userClaims == old(db.userClaims) + [ClaimRow(user.id, claim.value.claimType, claim.value.value)]
    {
      if user == null {
        return Fail(ArgumentNull("user"));
      }
      if claim.None? {
        return Fail(ArgumentNull("user"));
      }
      var _ := userClaimsTable.Insert(claim.value, user.id);
      r := Pass;
    }

    /** GetClaimsAsync: the user's claims, in table order. */
    method GetClaims(user: IdentityUser) returns (claims: seq<Claim>)
      requires Wired()
      ensures claims == ClaimsOf(db.userClaims, user.id)
    {
      claims := userClaimsTable.FindByUserId(user.id);
    }

    // -------------------------------------------------------------------
    // Logins.
    // -------------------------------------------------------------------

    /** AddLoginAsync: a null user or login is refused; otherwise one login row is appended. */
    method AddLogin(user: IdentityUser?, login: Option<LoginInfo>) returns (r: Outcome<Error>)
      requires Wired()
      modifies db`userLogins
      ensures user == null ==> r == Fail(ArgumentNull("user"))
      ensures user != null && login.None? ==> r == Fail(ArgumentNull("login"))
      ensures r.Fail? ==> db.userLogins == old(db.userLogins)
      ensures user != null && login.Some? ==>
        && r == Pass
        && db.userLogins == old(db.userLogins) + [LoginRow(user.id, login.value.loginProvider, login.value.providerKey)]
    {
      if user == null {
        return Fail(ArgumentNull("user"));
      }
      if login.None? {
        return Fail(ArgumentNull("login"));
      }
      var _ := userLoginsTable.Insert(user, login.value);
      r := Pass;
    }

    /**
     * FindAsync(login): a null login is refused; otherwise the user the login
     * resolves to, or null when no row holds the login or the resolved id has
     * no single user row.
     */
    method FindByLogin(login: Option<LoginInfo>, now: nat) returns (r: Result<IdentityUser?, Error>)
      requires Wired() && db.Valid()
      ensures login.None? ==> r == Failure(ArgumentNull("login"))
      ensures login.Some? ==> r.Success?
      ensures r.Success? ==> (r.value == null <==>
        || FindUserIdByLogin(db.userLogins, login.value).None?
        || UserById(db.users, FindUserIdByLogin(db.userLogins, login.value).value, now).None?)
      ensures r.Success? && r.value != null ==>
        && fresh(r.value)
        && r.value.Data() == UserById(db.users, FindUserIdByLogin(db.userLogins, login.value).value, now).value
    {
      if login.None? {
        return Failure(ArgumentNull("login"));
      }
      var userId := FindUserIdByLogin(db.userLogins, login.value);
      if userId.Some? {
        var user := userTable.GetUserById(userId.value, now);
        if user != null {
          return Success(user);
        }
      }
      r := Success(null);
    }

    /** GetLoginsAsync: a null user is refused; otherwise the user's logins in table order. */
    method GetLogins(user: IdentityUser?) returns (r: Result<seq<LoginInfo>, Error>)
      requires Wired()
      ensures user == null ==> r == Failure(ArgumentNull("user"))
      ensures user != null ==> r == Success(LoginsOf(db.userLogins, user.id))
    {
      if user == null {
        return Failure(ArgumentNull("user"));
      }
      var list := userLoginsTable.FindByUserId(user.id);
      r := Success(list);
    }

    /**
     * RemoveLoginAsync: a null user or login is refused; otherwise the rows
     * holding that user, provider and key go.
     */
    method RemoveLogin(user: IdentityUser?, login: Option<LoginInfo>) returns (r: Outcome<Error>)
      requires Wired()
      modifies db`userLogins
      ensures user == null ==> r == Fail(ArgumentNull("user"))
      ensures user != null && login.None? ==> r == Fail(ArgumentNull("login"))
      ensures r.Fail? ==> db.userLogins == old(db.userLogins)
      ensures user != null && login.Some? ==>
        && r == Pass
        && db.userLogins == DeleteWhere(old(db.userLogins), MatchesLogin(user.id, login.value))
    {
      if user == null {
        return Fail(ArgumentNull("user"));
      }
      if login.None? {
        return Fail(ArgumentNull("login"));
      }
      var _ := userLoginsTable.Delete(user, login.value);
      r := Pass;
    }

    // -------------------------------------------------------------------
    // Roles.
    // -------------------------------------------------------------------

    /**
     * AddToRoleAsync: a null user or a null or empty role name is refused.
     * When the name resolves to a role id, the user is linked to it; when it
     * resolves to nothing, nothing happens and no error is raised.
     */
    method AddToRole(user: IdentityUser?, roleName: Option<string>) returns (r: Outcome<Error>)
      requires Wired()
      modifies db`userRoles
      ensures user == null ==> r == Fail(ArgumentNull("user"))
      ensures user != null && IsNullOrEmpty(roleName) ==>
        r == Fail(ArgumentError("Argument cannot be null or empty: roleName."))
      ensures r.Fail? ==> db.userRoles == old(db.userRoles)
      ensures user != null && !IsNullOrEmpty(roleName) ==> r == Pass
      ensures r.Pass? && IsNullOrEmpty(GetRoleId(db.roles, roleName.value)) ==>
        db.userRoles == old(db.userRoles)
      ensures r.Pass? && !IsNullOrEmpty(GetRoleId(db.roles, roleName.value)) ==>
        db.userRoles == old(db.userRoles) + [UserRoleRow(user.id, GetRoleId(db.roles, roleName.value).value)]
    {
      if user == null {
        return Fail(ArgumentNull("user"));
      }
      if IsNullOrEmpty(roleName) {
        return Fail(ArgumentError("Argument cannot be null or empty: roleName."));
      }
      var roleId := GetRoleId(db.roles, roleName.value);
      if !IsNullOrEmpty(roleId) {
        var _ := userRolesTable.Insert(user, roleId.value);
      }
      r := Pass;
    }

    /** GetRolesAsync: a null user is refused; otherwise the names of the user's roles. */
    method GetRoles(user: IdentityUser?) returns (r: Result<seq<string>, Error>)
      requires Wired()
      ensures user == null ==> r == Failure(ArgumentNull("user"))
      ensures user != null ==> r == Success(RoleNamesOf(db.userRoles, db.roles, user.id))
    {
      if user == null {
        return Failure(ArgumentNull("user"));
      }
      var list := userRolesTable.FindByUserId(user.id);
      r := Success(list);
    }

    /**
     * IsInRoleAsync: a null user or a null or empty role is refused;
     * otherwise whether the role is among the user's role names.
     */
    method IsInRole(user: IdentityUser?, role: Option<string>) returns (r: Result<bool, Error>)
      requires Wired()
      ensures user == null ==> r == Failure(ArgumentNull("user"))
      ensures user != null && IsNullOrEmpty(role) ==> r == Failure(ArgumentNull("role"))
      ensures user != null && !IsNullOrEmpty(role) ==> r.Success?
      ensures r.Success? ==> (r.value <==>
        exists roleId :: UserRoleRow(user.id, roleId) in db.userRoles && Role(roleId, role.value) in db.roles)
    {
      if user == null {
        return Failure(ArgumentNull("user"));
      }
      if IsNullOrEmpty(role) {
        return Failure(ArgumentNull("role"));
      }
      var list := userRolesTable.FindByUserId(user.id);
      r := Success(role.value in list);
    }

    /** RemoveFromRoleAsync: always throws, and touches nothing. */
    method RemoveFromRole(user: IdentityUser?, role: Option<string>) returns (r: Outcome<Error>)
      ensures r == Fail(NotImplemented)
    {
      r := Fail(NotImplemented);
    }

    // -------------------------------------------------------------------
    // Password and security stamp.
    // -------------------------------------------------------------------

    /** GetPasswordHashAsync: the stored hash of the user's row, empty read as null. */
    function GetPasswordHash(user: IdentityUser): (r: Option<string>)
      requires db.Valid()
      reads db, user
      ensures r == Users.GetPasswordHash(db.users, user.id)
      ensures r.Some? ==> r.value != ""
      ensures Where(db.users, HasId(user.id)) == [] ==> r.None?
      ensures var found := Where(db.users, HasId(user.id));
        found != [] ==> found[0] in db.users && r == DecodeNullable(found[0][PasswordHash])
    {
      Users.GetPasswordHash(db.users, user.id)
    }

    /** HasPasswordAsync: whether the stored hash is neither null nor empty. */
    function HasPassword(user: IdentityUser): (b: bool)
      requires db.Valid()
      reads db, user
      ensures b <==> !IsNullOrEmpty(GetPasswordHash(user))
      ensures b ==> Where(db.users, HasId(user.id)) != []
    {
      GetPasswordHash(user).Some?
    }

    /** SetPasswordHashAsync: changes the in-memory user only; no table is written. */
    method SetPasswordHash(user: IdentityUser, passwordHash: Option<string>)
      modifies user`passwordHash
      ensures user.Data() == old(user.Data()).(passwordHash := passwordHash)
    {
      user.passwordHash := passwordHash;
    }

    /** SetSecurityStampAsync: changes the in-memory user only; no table is written. */
    method SetSecurityStamp(user: IdentityUser, stamp: Option<string>)
      modifies user`securityStamp
      ensures user.Data() == old(user.Data()).(securityStamp := stamp)
      ensures GetSecurityStamp(user) == stamp
    {
      user.securityStamp := stamp;
    }

    /** GetSecurityStampAsync: the in-memory user's stamp. */
    function GetSecurityStamp(user: IdentityUser): (r: Option<string>)
      reads user
      ensures r == user.Data().securityStamp
    {
      user.securityStamp
    }

    // -------------------------------------------------------------------
    // Properties set in memory and persisted with a full-row Update.
    // -------------------------------------------------------------------

    /** GetEmailAsync */
    function GetEmail(user: IdentityUser): (r: Option<string>)
      reads user
      ensures r == user.Data().email
    {
      user.email
    }

    /** SetEmailAsync: sets the email and writes the whole user row. */
    method SetEmail(user: IdentityUser, email: Option<string>)
      requires Wired()
      modifies user`email, db`users
      ensures old(db.Valid()) ==> db.Valid()
      ensures user.Data() == old(user.Data()).(email := email)
      ensures GetEmail(user) == email
      ensures db.users == UpdateRows(old(db.users), user.Data())
    {
      user.email := email;
      var _ := userTable.Update(user);
    }

    /** GetEmailConfirmedAsync */
    function GetEmailConfirmed(user: IdentityUser): (r: bool)
      reads user
      ensures r == user.Data().emailConfirmed
    {
      user.emailConfirmed
    }

    /** SetEmailConfirmedAsync: sets the flag and writes the whole user row. */
    method SetEmailConfirmed(user: IdentityUser, confirmed: bool)
      requires Wired()
      modifies user`emailConfirmed, db`users
      ensures old(db.Valid()) ==> db.Valid()
      ensures user.Data() == old(user.Data()).(emailConfirmed := confirmed)
      ensures GetEmailConfirmed(user) == confirmed
      ensures db.users == UpdateRows(old(db.users), user.Data())
    {
      user.emailConfirmed := confirmed;
      var _ := userTable.Update(user);
    }

    /** GetPhoneNumberAsync */
    function GetPhoneNumber(user: IdentityUser): (r: Option<string>)
      reads user
      ensures r == user.Data().phoneNumber
    {
      user.phoneNumber
    }

    /** SetPhoneNumberAsync: sets the number and writes the whole user row. */
    method SetPhoneNumber(user: IdentityUser, phoneNumber: Option<string>)
      requires Wired()
      modifies user`phoneNumber, db`users
      ensures old(db.Valid()) ==> db.Valid()
      ensures user.Data() == old(user.Data()).(phoneNumber := phoneNumber)
      ensures GetPhoneNumber(user) == phoneNumber
      ensures db.users == UpdateRows(old(db.users), user.Data())
    {
      user.phoneNumber := phoneNumber;
      var _ := userTable.Update(user);
    }

    /** GetPhoneNumberConfirmedAsync */
    function GetPhoneNumberConfirmed(user: IdentityUser): (r: bool)
      reads user
      ensures r == user.Data().phoneNumberConfirmed
    {
      user.phoneNumberConfirmed
    }

    /** SetPhoneNumberConfirmedAsync: sets the flag and writes the whole user row. */
    method SetPhoneNumberConfirmed(user: IdentityUser, confirmed: bool)
      requires Wired()
      modifies user`phoneNumberConfirmed, db`users
      ensures old(db.Valid()) ==> db.Valid()
      ensures user.Data() == old(user.Data()).(phoneNumberConfirmed := confirmed)
      ensures GetPhoneNumberConfirmed(user) == confirmed
      ensures db.users == UpdateRows(old(db.users), user.Data())
    {
      user.phoneNumberConfirmed := confirmed;
      var _ := userTable.Update(user);
    }

    /** GetTwoFactorEnabledAsync */
    function GetTwoFactorEnabled(user: IdentityUser): (r: bool)
      reads user
      ensures r == user.Data().twoFactorEnabled
    {
      user.twoFactorEnabled
    }

    /** SetTwoFactorEnabledAsync: sets the flag and writes the whole user row. */
    method SetTwoFactorEnabled(user: IdentityUser, enabled: bool)
      requires Wired()
      modifies user`twoFactorEnabled, db`users
      ensures old(db.Valid()) ==> db.Valid()
      ensures user.Data() == old(user.Data()).(twoFactorEnabled := enabled)
      ensures GetTwoFactorEnabled(user) == enabled
      ensures db.users == UpdateRows(old(db.users), user.Data())
    {
      user.twoFactorEnabled := enabled;
      var _ := userTable.Update(user);
    }

    /** GetLockoutEndDateAsync: the stored end, or the minimum instant when none. */
    function GetLockoutEndDate(user: IdentityUser): (r: nat)
      reads user
      ensures user.lockoutEndDateUtc.Some? ==> r == user.lockoutEndDateUtc.value
      ensures user.lockoutEndDateUtc.None? ==> r == MinInstant
    {
      LockoutEndOf(user.Data())
    }

    /** SetLockoutEndDateAsync: sets the end and writes the whole user row. */
    method SetLockoutEndDate(user: IdentityUser, lockoutEnd: nat)
      requires Wired()
      modifies user`lockoutEndDateUtc, db`users
      ensures old(db.Valid()) ==> db.Valid()
      ensures user.Data() == old(user.Data()).(lockoutEndDateUtc := Some(lockoutEnd))
      ensures GetLockoutEndDate(user) == lockoutEnd
      ensures db.users == UpdateRows(old(db.users), user.Data())
    {
      user.lockoutEndDateUtc := Some(lockoutEnd);
      var _ := userTable.Update(user);
    }

    /** GetLockoutEnabledAsync */
    function GetLockoutEnabled(user: IdentityUser): (r: bool)
      reads user
      ensures r == user.Data().lockoutEnabled
    {
      user.lockoutEnabled
    }

    /** SetLockoutEnabledAsync: sets the flag and writes the whole user row. */
    method SetLockoutEnabled(user: IdentityUser, enabled: bool)
      requires Wired()
      modifies user`lockoutEnabled, db`users
      ensures old(db.Valid()) ==> db.Valid()
      ensures user.Data() == old(user.Data()).(lockoutEnabled := enabled)
      ensures GetLockoutEnabled(user) == enabled
      ensures db.users == UpdateRows(old(db.users), user.Data())
    {
      user.lockoutEnabled := enabled;
      var _ := userTable.Update(user);
    }

    // -------------------------------------------------------------------
    // The failed-access counter.
    // -------------------------------------------------------------------

    /** GetAccessFailedCountAsync */
    function GetAccessFailedCount(user: IdentityUser): (r: Int32)
      reads user
      ensures r == user.Data().accessFailedCount
    {
      user.accessFailedCount
    }

    /**
     * IncrementAccessFailedCountAsync: raises the count by one (wrapping at
     * the 32-bit maximum), writes the whole user row and returns the new count.
     */
    method IncrementAccessFailedCount(user: IdentityUser) returns (count: Int32)
      requires Wired()
      modifies user`accessFailedCount, db`users
      ensures old(db.Valid()) ==> db.Valid()
      ensures count == WrappingIncrement(old(user.accessFailedCount))
      ensures old(user.accessFailedCount) < Int32Max ==> count as int == old(user.accessFailedCount) as int + 1
      ensures user.Data() == old(user.Data()).(accessFailedCount := count)
      ensures GetAccessFailedCount(user) == count
      ensures db.users == UpdateRows(old(db.users), user.Data())
    {
      user.accessFailedCount := WrappingIncrement(user.accessFailedCount);
      var _ := userTable.Update(user);
      count := user.accessFailedCount;
    }

    /** ResetAccessFailedCountAsync: sets the count to zero and writes the whole user row. */
    method ResetAccessFailedCount(user: IdentityUser)
      requires Wired()
      modifies user`accessFailedCount, db`users
      ensures old(db.Valid()) ==> db.Valid()
      ensures user.Data() == old(user.Data()).(accessFailedCount := 0)
      ensures GetAccessFailedCount(user) == 0
      ensures db.users == UpdateRows(old(db.users), user.Data())
    {
      user.accessFailedCount := 0;
      var _ := userTable.Update(user);
    }
  }
}
