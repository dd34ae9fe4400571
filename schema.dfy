/**
 * The five tables of the identity database, held in memory in table order,
 * and the row shapes they store.
 */
module Schema {
  import opened Wrappers
  import opened Numerals

  /** The columns of the Users table. */
  datatype UserColumn =
    | Id | UserName | PasswordHash | SecurityStamp | Email | EmailConfirmed
    | PhoneNumber | PhoneNumberConfirmed | AccessFailedCount | LockoutEnabled
    | LockoutEndDateUtc | TwoFactorEnabled

  const AllUserColumns: set<UserColumn> :=
    {Id, UserName, PasswordHash, SecurityStamp, Email, EmailConfirmed, PhoneNumber,
     PhoneNumberConfirmed, AccessFailedCount, LockoutEnabled, LockoutEndDateUtc, TwoFactorEnabled}

  /**
   * A Users row as a query returns it: column to text, DB NULL as `None`.
   * Every value the store writes travels as text or as NULL.
   */
  type UserRow = map<UserColumn, Option<string>>

  /** A role: a row of Roles and the role entity alike. */
  datatype Role = Role(id: string, name: string)

  /** A row of UserRoles: the link between a user and a role. */
  datatype UserRoleRow = UserRoleRow(userId: string, roleId: string)

  /** A claim about a user. */
  datatype Claim = Claim(claimType: string, value: string)

  /** A row of UserClaims. */
  datatype ClaimRow = ClaimRow(userId: string, claimType: string, claimValue: string)

  /** An external login: a provider and the key it knows the user by. */
  datatype LoginInfo = LoginInfo(loginProvider: string, providerKey: string)

  /** A row of UserLogins. */
  datatype LoginRow = LoginRow(userId: string, loginProvider: string, providerKey: string)

  /** A counter column: empty, or the text of a 32-bit integer. */
  predicate IsCountText(v: Option<string>)
  {
    IsNullOrEmpty(v) || (IsNumeral(v.value) && Int32Min as int <= ParseInt(v.value) <= Int32Max as int)
  }

  /** An instant column: empty, or the text of an instant. */
  predicate IsInstantText(v: Option<string>)
  {
    IsNullOrEmpty(v) || (IsNumeral(v.value) && 0 <= ParseInt(v.value))
  }

  /**
   * A Users row the store can read back: it has every column, a non-null
   * primary key, and numbers where `int.Parse` and `DateTime.Parse` expect them.
   */
  predicate WellFormedUserRow(row: UserRow)
  {
    && AllUserColumns <= row.Keys
    && row[Id].Some?
    && IsCountText(row[AccessFailedCount])
    && IsInstantText(row[LockoutEndDateUtc])
  }

  predicate WellFormedUsers(rows: seq<UserRow>)
  {
    forall row | row in rows :: WellFormedUserRow(row)
  }

  /**
   * The database behind the gateways. Every table is a sequence of rows in
   * table order; every statement is a change to one of these fields.
   */
  class Database {
    var users: seq<UserRow>
    var roles: seq<Role>
    var userRoles: seq<UserRoleRow>
    var userClaims: seq<ClaimRow>
    var userLogins: seq<LoginRow>

    /** Only the store writes the Users table, so each of its rows reads back. */
    ghost predicate Valid()
      reads this`users
    {
      WellFormedUsers(users)
    }
  }
}
