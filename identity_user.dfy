/** The user entity the store reads, writes and hands to its callers. */
module Identity {
  import opened Wrappers
  import opened Numerals

  /**
   * The value of every property of a user at one moment. Instants are
   * ticks since the start of the calendar; `LockoutEndDateUtc` is a
   * nullable instant.
   */
  datatype UserData = UserData(
    id: string,
    userName: Option<string>,
    email: Option<string>,
    emailConfirmed: bool,
    passwordHash: Option<string>,
    securityStamp: Option<string>,
    phoneNumber: Option<string>,
    phoneNumberConfirmed: bool,
    twoFactorEnabled: bool,
    lockoutEndDateUtc: Option<nat>,
    lockoutEnabled: bool,
    accessFailedCount: Int32)

  /** The instant of `default(DateTimeOffset)`. */
  const MinInstant: nat := 0

  /**
   * A lockout end after `now` means locked out; an end at or before `now`,
   * or none, means not locked out.
   */
  function IsLockedOut(lockoutEndDateUtc: Option<nat>, now: nat): (locked: bool)
    ensures lockoutEndDateUtc.None? ==> !locked
    ensures lockoutEndDateUtc.Some? ==> (locked <==> now < lockoutEndDateUtc.value)
  {
    lockoutEndDateUtc.Some? && now < lockoutEndDateUtc.value
  }

  /**
   * A lockout only ever runs out: locked out at some instant means locked out
   * at every earlier one, and from the end onwards nobody is locked out.
   */
  lemma LockoutRunsOut(lockoutEndDateUtc: Option<nat>, earlier: nat, later: nat)
    requires earlier <= later
    ensures IsLockedOut(lockoutEndDateUtc, later) ==> IsLockedOut(lockoutEndDateUtc, earlier)
    ensures lockoutEndDateUtc.Some? && lockoutEndDateUtc.value <= earlier ==> !IsLockedOut(lockoutEndDateUtc, later)
  {
  }

  /** A user as the store sees it: every property is settable in place. */
  class IdentityUser {
    var id: string
    var userName: Option<string>
    var email: Option<string>
    var emailConfirmed: bool
    var passwordHash: Option<string>
    var securityStamp: Option<string>
    var phoneNumber: Option<string>
    var phoneNumberConfirmed: bool
    var twoFactorEnabled: bool
    var lockoutEndDateUtc: Option<nat>
    var lockoutEnabled: bool
    var accessFailedCount: Int32

    /** The current values of all properties. */
    function Data(): UserData
      reads this
    {
      UserData(id, userName, email, emailConfirmed, passwordHash, securityStamp,
               phoneNumber, phoneNumberConfirmed, twoFactorEnabled,
               lockoutEndDateUtc, lockoutEnabled, accessFailedCount)
    }

    /**
     * The default constructor. The source draws a fresh GUID for the id;
     * here the caller supplies it.
     */
    constructor (freshId: string)
      ensures Data() == UserData(freshId, None, None, false, None, None, None, false, false, None, false, 0)
    {
      id := freshId;
      userName := None;
      email := None;
      emailConfirmed := false;
      passwordHash := None;
      securityStamp := None;
      phoneNumber := None;
      phoneNumberConfirmed := false;
      twoFactorEnabled := false;
      lockoutEndDateUtc := None;
      lockoutEnabled := false;
      accessFailedCount := 0;
    }

    /** The constructor taking a user name; it still draws a fresh id. */
    constructor WithUserName(freshId: string, name: Option<string>)
      ensures Data() == UserData(freshId, name, None, false, None, None, None, false, false, None, false, 0)
    {
      id := freshId;
      userName := name;
      email := None;
      emailConfirmed := false;
      passwordHash := None;
      securityStamp := None;
      phoneNumber := None;
      phoneNumberConfirmed := false;
      twoFactorEnabled := false;
      lockoutEndDateUtc := None;
      lockoutEnabled := false;
      accessFailedCount := 0;
    }
  }
}
