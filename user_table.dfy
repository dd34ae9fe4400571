/**
 * The Users table gateway: how a user is written as a row, how a row is read
 * back as a user, and the statements on the Users table.
 */
module Users {
  import opened Wrappers
  import opened Numerals
  import opened Relational
  import opened Identity
  import opened Schema

  // ---------------------------------------------------------------------
  // Writing: the parameters bound by Insert and Update.
  // ---------------------------------------------------------------------

  /** A boolean parameter as the column holds it. */
  function EncodeBool(b: bool): Option<string>
  {
    Some(if b then "1" else "0")
  }

  /** A nullable instant parameter; null travels as DB NULL. */
  function EncodeInstant(t: Option<nat>): Option<string>
  {
    if t.None? then None else Some(IntToString(t.value))
  }

  /** An instant written by the store is one DateTime.Parse reads. */
  lemma EncodeInstantReadable(t: Option<nat>)
    ensures IsInstantText(EncodeInstant(t))
    ensures t.Some? ==> ParseInt(EncodeInstant(t).value) == t.value
  {
    if t.Some? {
      IntToStringRoundTrip(t.value);
    }
  }

  /** The row Insert and Update write for a user: one column per property. */
  function EncodeRow(u: UserData): (row: UserRow)
    ensures WellFormedUserRow(row)
    ensures row[Id] == Some(u.id)
  {
    IntToStringRoundTrip(u.accessFailedCount as int);
    EncodeInstantReadable(u.lockoutEndDateUtc);
    map[
      Id := Some(u.id),
      UserName := u.userName,
      PasswordHash := u.passwordHash,
      SecurityStamp := u.securityStamp,
      Email := u.email,
      EmailConfirmed := EncodeBool(u.emailConfirmed),
      PhoneNumber := u.phoneNumber,
      PhoneNumberConfirmed := EncodeBool(u.phoneNumberConfirmed),
      AccessFailedCount := Some(IntToString(u.accessFailedCount as int)),
      LockoutEnabled := EncodeBool(u.lockoutEnabled),
      LockoutEndDateUtc := EncodeInstant(u.lockoutEndDateUtc),
      TwoFactorEnabled := EncodeBool(u.twoFactorEnabled)]
  }

  // ---------------------------------------------------------------------
  // Reading: the row-to-user mapping of GetUserById and GetUserByName.
  // ---------------------------------------------------------------------

  /** A nullable text column: NULL and the empty string both read as null. */
  function DecodeNullable(v: Option<string>): (r: Option<string>)
    ensures r.None? <==> IsNullOrEmpty(v)
    ensures r.Some? ==> r == v
  {
    if IsNullOrEmpty(v) then None else v
  }

  /** A boolean column is true only when it holds exactly "1". */
  function DecodeBool(v: Option<string>): (b: bool)
    ensures b <==> v == Some("1")
  {
    v == Some("1")
  }

  /** AccessFailedCount: 0 when empty, otherwise the parsed number. */
  function DecodeCount(v: Option<string>): (c: Int32)
    requires IsCountText(v)
    ensures IsNullOrEmpty(v) ==> c == 0
    ensures !IsNullOrEmpty(v) ==> c as int == ParseInt(v.value)
  {
    if IsNullOrEmpty(v) then 0 else ParseInt(v.value) as Int32
  }

  /** LockoutEndDateUtc: the current instant when empty, otherwise the parsed instant. */
  function DecodeInstant(v: Option<string>, now: nat): (t: Option<nat>)
    requires IsInstantText(v)
    ensures t.Some?
    ensures IsNullOrEmpty(v) ==> t == Some(now)
    ensures !IsNullOrEmpty(v) ==> t.value == ParseInt(v.value)
  {
    if IsNullOrEmpty(v) then Some(now) else Some(ParseInt(v.value) as nat)
  }

  /**
   * The user a row reads as. GetUserByName reads TwoFactorEnabled;
   * GetUserById never assigns it, so it keeps its default, false.
   */
  function DecodeRow(row: UserRow, now: nat, readsTwoFactor: bool): (u: UserData)
    requires WellFormedUserRow(row)
    ensures Some(u.id) == row[Id]
    ensures u.userName == row[UserName]
    ensures u.twoFactorEnabled <==> readsTwoFactor && row[TwoFactorEnabled] == Some("1")
    ensures IsNullOrEmpty(row[LockoutEndDateUtc]) ==> !IsLockedOut(u.lockoutEndDateUtc, now)
  {
    UserData(
      row[Id].value,
      row[UserName],
      DecodeNullable(row[Email]),
      DecodeBool(row[EmailConfirmed]),
      DecodeNullable(row[PasswordHash]),
      DecodeNullable(row[SecurityStamp]),
      DecodeNullable(row[PhoneNumber]),
      DecodeBool(row[PhoneNumberConfirmed]),
      readsTwoFactor && DecodeBool(row[TwoFactorEnabled]),
      DecodeInstant(row[LockoutEndDateUtc], now),
      DecodeBool(row[LockoutEnabled]),
      DecodeCount(row[AccessFailedCount]))
  }

  /**
   * What a user looks like once written and read back by name: empty
   * strings in the nullable columns come back null, and a missing lockout
   * end comes back as the instant of reading.
   */
  function Reloaded(u: UserData, now: nat): (r: UserData)
    ensures r == u <==>
      && u.email != Some("") && u.passwordHash != Some("")
      && u.securityStamp != Some("") && u.phoneNumber != Some("")
      && u.lockoutEndDateUtc.Some?
  {
    u.(email := DecodeNullable(u.email),
       passwordHash := DecodeNullable(u.passwordHash),
       securityStamp := DecodeNullable(u.securityStamp),
       phoneNumber := DecodeNullable(u.phoneNumber),
       lockoutEndDateUtc := if u.lockoutEndDateUtc.None? then Some(now) else u.lockoutEndDateUtc)
  }

  /**
   * Reading back the row written for a user gives the user, up to the
   * normalisation of Reloaded; read by id, two-factor is always off.
   */
  lemma DecodeEncode(u: UserData, now: nat)
    ensures DecodeRow(EncodeRow(u), now, true) == Reloaded(u, now)
    ensures DecodeRow(EncodeRow(u), now, false) == Reloaded(u, now).(twoFactorEnabled := false)
  {
    IntToStringRoundTrip(u.accessFailedCount as int);
    EncodeInstantReadable(u.lockoutEndDateUtc);
  }

  // ---------------------------------------------------------------------
  // Queries and statements on the Users table.
  // ---------------------------------------------------------------------

  /** `WHERE Id = @id` */
  function HasId(id: string): UserRow -> bool
  {
    row => Id in row && row[Id] == Some(id)
  }

  /** `WHERE UserName = @name`; a NULL user name matches nothing. */
  function HasUserName(name: string): UserRow -> bool
  {
    row => UserName in row && row[UserName] == Some(name)
  }

  /**
   * GetUserById: the user of the one row with that id; no user when no row
   * or several rows carry it.
   */
  function UserById(rows: seq<UserRow>, id: string, now: nat): (r: Option<UserData>)
    requires WellFormedUsers(rows)
    ensures r.Some? <==> |Where(rows, HasId(id))| == 1
    ensures r.Some? ==> r.value.id == id && !r.value.twoFactorEnabled
  {
    var found := Where(rows, HasId(id));
    if |found| == 1 then
      assert found[0] in found;
      Some(DecodeRow(found[0], now, false))
    else None
  }

  /**
   * GetUserByName: every row with that user name, in table order, read
   * with TwoFactorEnabled.
   */
  function UsersByName(rows: seq<UserRow>, name: string, now: nat): (r: seq<UserData>)
    requires WellFormedUsers(rows)
    ensures |r| == |Where(rows, HasUserName(name))|
    ensures forall i | 0 <= i < |r| :: r[i].userName == Some(name)
    ensures forall i | 0 <= i < |r| ::
      Where(rows, HasUserName(name))[i] in rows && Some(r[i].id) == Where(rows, HasUserName(name))[i][Id]
  {
    var found := Where(rows, HasUserName(name));
    var r := seq(|found|, i requires 0 <= i < |found| =>
      assert found[i] in found; DecodeRow(found[i], now, true));
    assert forall i | 0 <= i < |r| ::
        r[i].userName == Some(name) && found[i] in rows && Some(r[i].id) == found[i][Id] by {
      forall i | 0 <= i < |r|
        ensures r[i].userName == Some(name) && found[i] in rows && Some(r[i].id) == found[i][Id]
      {
        assert found[i] in found;
      }
    }
    r
  }

  /**
   * GetUserId: the Id of the first row with that user name; null when there
   * is none.
   */
  function GetUserId(rows: seq<UserRow>, name: string): (r: Option<string>)
    requires WellFormedUsers(rows)
    ensures r.None? <==> Where(rows, HasUserName(name)) == []
    ensures r.Some? ==> exists row | row in rows :: row[UserName] == Some(name) && row[Id] == r
  {
    var found := Where(rows, HasUserName(name));
    if found == [] then None
    else
      assert found[0] in found;
      found[0][Id]
  }

  /**
   * GetSecurityStamp: the stored SecurityStamp of the first row with that
   * id, as stored (an empty stamp stays empty); null when there is none.
   */
  function GetSecurityStamp(rows: seq<UserRow>, id: string): (r: Option<string>)
    requires WellFormedUsers(rows)
    ensures Where(rows, HasId(id)) == [] ==> r.None?
    ensures r.Some? ==> exists row | row in rows :: row[Id] == Some(id) && row[SecurityStamp] == r
    ensures var found := Where(rows, HasId(id));
      found != [] ==> found[0] in rows && r == found[0][SecurityStamp]
  {
    var found := Where(rows, HasId(id));
    if found == [] then None
    else
      assert found[0] in found;
      found[0][SecurityStamp]
  }

  /** GetUserByEmail is a placeholder: it never finds anybody. */
  function GetUserByEmail(email: string): (r: Option<seq<UserData>>)
    ensures r.None?
  {
    None
  }

  /**
   * GetPasswordHash: the PasswordHash of the first row with that id; null
   * when there is no such row or the stored value is null or empty.
   */
  function GetPasswordHash(rows: seq<UserRow>, id: string): (r: Option<string>)
    requires WellFormedUsers(rows)
    ensures r.Some? ==> r.value != ""
    ensures r.None? <==>
      (var found := Where(rows, HasId(id));
       found == [] || (found[0] in rows && IsNullOrEmpty(found[0][PasswordHash])))
    ensures r.Some? ==>
      (var found := Where(rows, HasId(id));
       found != [] && found[0] in rows && r == found[0][PasswordHash])
  {
    var found := Where(rows, HasId(id));
    if found == [] then None
    else
      assert found[0] in found;
      DecodeNullable(found[0][PasswordHash])
  }

  /** `SET` every column from the user. */
  function Overwrite(u: UserData): UserRow -> UserRow
  {
    _ => EncodeRow(u)
  }

  /** `SET PasswordHash = @pwdHash` */
  function WithPasswordHash(hash: Option<string>): UserRow -> UserRow
  {
    row => row[PasswordHash := hash]
  }

  /** Update: every row with the user's id is rewritten from the user; the rest stay. */
  function UpdateRows(rows: seq<UserRow>, u: UserData): (r: seq<UserRow>)
    ensures |r| == |rows|
    ensures forall i | 0 <= i < |rows| ::
      r[i] == if HasId(u.id)(rows[i]) then EncodeRow(u) else rows[i]
    ensures WellFormedUsers(rows) ==> WellFormedUsers(r)
  {
    UpdateWhere(rows, HasId(u.id), Overwrite(u))
  }

  /** SetPasswordHash: only the PasswordHash column of the rows with that id changes. */
  function SetPasswordHashRows(rows: seq<UserRow>, id: string, hash: Option<string>): (r: seq<UserRow>)
    ensures |r| == |rows|
    ensures forall i | 0 <= i < |rows| ::
      r[i] == if HasId(id)(rows[i]) then rows[i][PasswordHash := hash] else rows[i]
    ensures WellFormedUsers(rows) ==> WellFormedUsers(r)
  {
    var r := UpdateWhere(rows, HasId(id), WithPasswordHash(hash));
    assert WellFormedUsers(rows) ==> forall i | 0 <= i < |r| :: WellFormedUserRow(r[i]) by {
      if WellFormedUsers(rows) {
        forall i | 0 <= i < |r| ensures WellFormedUserRow(r[i]) {
          assert rows[i] in rows;
        }
      }
    }
    r
  }

  /** Delete: the rows with that id go; the rest stay in order. */
  function DeleteRows(rows: seq<UserRow>, id: string): (r: seq<UserRow>)
    ensures forall row :: row in r <==> row in rows && !HasId(id)(row)
    ensures WellFormedUsers(rows) ==> WellFormedUsers(r)
  {
    DeleteWhere(rows, HasId(id))
  }

  // ---------------------------------------------------------------------
  // What the statements do to what the store reads back.
  // ---------------------------------------------------------------------

  /** Creating a user whose id is new makes GetUserById find it. */
  lemma InsertThenFindById(rows: seq<UserRow>, u: UserData, now: nat)
    requires WellFormedUsers(rows)
    requires Where(rows, HasId(u.id)) == []
    ensures WellFormedUsers(rows + [EncodeRow(u)])
    ensures UserById(rows + [EncodeRow(u)], u.id, now) == Some(Reloaded(u, now).(twoFactorEnabled := false))
  {
    WhereAppend(rows, [EncodeRow(u)], HasId(u.id));
    assert Where([EncodeRow(u)], HasId(u.id)) == [EncodeRow(u)];
    DecodeEncode(u, now);
  }

  /**
   * Insert makes no uniqueness check: inserting a second row with an id
   * already present makes GetUserById find nobody.
   */
  lemma InsertDuplicateHidesUser(rows: seq<UserRow>, u: UserData, now: nat)
    requires WellFormedUsers(rows)
    requires Where(rows, HasId(u.id)) != []
    ensures WellFormedUsers(rows + [EncodeRow(u)])
    ensures UserById(rows + [EncodeRow(u)], u.id, now).None?
  {
    WhereAppend(rows, [EncodeRow(u)], HasId(u.id));
    assert Where([EncodeRow(u)], HasId(u.id)) == [EncodeRow(u)];
  }

  /**
   * After Update, reading the user back by id gives the written user (up to
   * the normalisation of Reloaded and the two-factor flag), and every other
   * id reads as before.
   */
  lemma {:induction false} UpdateThenFindById(rows: seq<UserRow>, u: UserData, other: string, now: nat)
    requires WellFormedUsers(rows)
    requires |Where(rows, HasId(u.id))| == 1
    ensures UserById(UpdateRows(rows, u), u.id, now) == Some(Reloaded(u, now).(twoFactorEnabled := false))
    ensures other != u.id ==> UserById(UpdateRows(rows, u), other, now) == UserById(rows, other, now)
  {
    WhereAfterUpdate(rows, HasId(u.id), Overwrite(u), HasId(u.id));
    WhereAfterUpdate(rows, HasId(u.id), Overwrite(u), HasId(other));
    DecodeEncode(u, now);
  }

  /** After Delete, the id reads as nobody and every other id reads as before. */
  lemma DeleteThenFindById(rows: seq<UserRow>, id: string, other: string, now: nat)
    requires WellFormedUsers(rows)
    ensures UserById(DeleteRows(rows, id), id, now).None?
    ensures other != id ==> UserById(DeleteRows(rows, id), other, now) == UserById(rows, other, now)
  {
    WhereDeleted(rows, HasId(id));
    if other != id {
      WhereAfterDelete(rows, HasId(id), HasId(other));
    }
  }

  /**
   * SetPasswordHash changes the stored hash, which GetPasswordHash then
   * returns (empty as null), and no other property of the user.
   */
  lemma SetPasswordHashThenRead(rows: seq<UserRow>, id: string, hash: Option<string>, now: nat)
    requires WellFormedUsers(rows)
    requires |Where(rows, HasId(id))| == 1
    ensures GetPasswordHash(SetPasswordHashRows(rows, id, hash), id) == DecodeNullable(hash)
    ensures UserById(SetPasswordHashRows(rows, id, hash), id, now)
         == Some(UserById(rows, id, now).value.(passwordHash := DecodeNullable(hash)))
  {
    var found := Where(rows, HasId(id));
    WhereAfterUpdate(rows, HasId(id), WithPasswordHash(hash), HasId(id));
    assert found[0] in found;
    var row := found[0];
    DecodeWithPasswordHash(row, hash, now);
  }

  /** Replacing the PasswordHash column changes only the decoded hash. */
  lemma DecodeWithPasswordHash(row: UserRow, hash: Option<string>, now: nat)
    requires WellFormedUserRow(row)
    ensures WellFormedUserRow(row[PasswordHash := hash])
    ensures DecodeRow(row[PasswordHash := hash], now, false)
         == DecodeRow(row, now, false).(passwordHash := DecodeNullable(hash))
  {
  }

  /** Writing a user with Update and reading GetPasswordHash gives back its hash. */
  lemma UpdateThenGetPasswordHash(rows: seq<UserRow>, u: UserData)
    requires WellFormedUsers(rows)
    requires Where(rows, HasId(u.id)) != []
    ensures GetPasswordHash(UpdateRows(rows, u), u.id) == DecodeNullable(u.passwordHash)
  {
    var found := Where(rows, HasId(u.id));
    WhereAfterUpdate(rows, HasId(u.id), Overwrite(u), HasId(u.id));
    assert found[0] in found;
    var found' := Where(UpdateRows(rows, u), HasId(u.id));
    assert found' != [] && found'[0] == EncodeRow(u);
    DecodeEncode(u, 0);
    assert DecodeNullable(found'[0][PasswordHash]) == DecodeRow(EncodeRow(u), 0, true).passwordHash;
  }

  /**
   * Creating a user adds it at the end of what GetUserByName returns for its
   * name, read back as Reloaded; every other name reads as before.
   */
  lemma InsertThenFindByName(rows: seq<UserRow>, u: UserData, name: string, now: nat)
    requires WellFormedUsers(rows)
    ensures WellFormedUsers(rows + [EncodeRow(u)])
    ensures u.userName == Some(name) ==>
      UsersByName(rows + [EncodeRow(u)], name, now) == UsersByName(rows, name, now) + [Reloaded(u, now)]
    ensures u.userName != Some(name) ==>
      UsersByName(rows + [EncodeRow(u)], name, now) == UsersByName(rows, name, now)
  {
    var row := EncodeRow(u);
    WhereAppend(rows, [row], HasUserName(name));
    DecodeEncode(u, now);
    if u.userName == Some(name) {
      assert Where([row], HasUserName(name)) == [row];
    } else {
      assert Where([row], HasUserName(name)) == [];
    }
  }

  // ---------------------------------------------------------------------
  // The gateway object.
  // ---------------------------------------------------------------------

  /** The Users table gateway over one database. */
  class UserTable {
    const db: Database

    constructor (database: Database)
      ensures db == database
    {
      db := database;
    }

    /** A fresh user object whose properties are those given. */
    static method NewUser(d: UserData) returns (user: IdentityUser)
      ensures fresh(user)
      ensures user.Data() == d
    {
      user := new IdentityUser(d.id);
      user.userName := d.userName;
      user.passwordHash := d.passwordHash;
      user.securityStamp := d.securityStamp;
      user.email := d.email;
      user.emailConfirmed := d.emailConfirmed;
      user.phoneNumber := d.phoneNumber;
      user.phoneNumberConfirmed := d.phoneNumberConfirmed;
      user.lockoutEnabled := d.lockoutEnabled;
      user.twoFactorEnabled := d.twoFactorEnabled;
      user.lockoutEndDateUtc := d.lockoutEndDateUtc;
      user.accessFailedCount := d.accessFailedCount;
    }

    /** GetUserById: a new user object for the one row with that id, or null. */
    method GetUserById(userId: string, now: nat) returns (user: IdentityUser?)
      requires db.Valid()
      ensures user == null <==> UserById(db.users, userId, now).None?
      ensures user != null ==> fresh(user) && user.Data() == UserById(db.users, userId, now).value
    {
      var found := UserById(db.users, userId, now);
      if found.Some? {
        user := NewUser(found.value);
      } else {
        user := null;
      }
    }

    /** GetUserByName: one new user object per row with that name, in table order. */
    method GetUserByName(userName: string, now: nat) returns (list: seq<IdentityUser>)
      requires db.Valid()
      ensures |list| == |UsersByName(db.users, userName, now)|
      ensures forall i | 0 <= i < |list| ::
        fresh(list[i]) && list[i].Data() == UsersByName(db.users, userName, now)[i]
    {
      var expected := UsersByName(db.users, userName, now);
      list := [];
      var i := 0;
      while i < |expected|
        invariant 0 <= i <= |expected| && |list| == i
        invariant forall k | 0 <= k < i :: fresh(list[k]) && list[k].Data() == expected[k]
      {
        var user := NewUser(expected[i]);
        list := list + [user];
        i := i + 1;
      }
    }

    /** Insert: appends the row written from the user; one row is affected. */
    method Insert(user: IdentityUser) returns (affected: nat)
      modifies db`users
      ensures old(db.Valid()) ==> db.Valid()
      ensures db.users == old(db.users) + [EncodeRow(user.Data())]
      ensures affected == 1
    {
      db.users := db.users + [EncodeRow(user.Data())];
      affected := 1;
    }

    /** Delete: removes every row with the user's id. */
    method Delete(user: IdentityUser) returns (affected: nat)
      modifies db`users
      ensures old(db.Valid()) ==> db.Valid()
      ensures db.users == DeleteRows(old(db.users), user.id)
      ensures affected == |Where(old(db.users), HasId(user.id))|
    {
      affected := |Where(db.users, HasId(user.id))|;
      db.users := DeleteRows(db.users, user.id);
    }

    /** Update: rewrites every row with the user's id from the user. */
    method Update(user: IdentityUser) returns (affected: nat)
      modifies db`users
      ensures old(db.Valid()) ==> db.Valid()
      ensures db.users == UpdateRows(old(db.users), user.Data())
      ensures affected == |Where(old(db.users), HasId(user.id))|
    {
      affected := |Where(db.users, HasId(user.id))|;
      db.users := UpdateRows(db.users, user.Data());
    }

    /** SetPasswordHash: sets the PasswordHash column of every row with that id. */
    method SetPasswordHash(userId: string, passwordHash: Option<string>) returns (affected: nat)
      modifies db`users
      ensures old(db.Valid()) ==> db.Valid()
      ensures db.users == SetPasswordHashRows(old(db.users), userId, passwordHash)
      ensures affected == |Where(old(db.users), HasId(userId))|
    {
      affected := |Where(db.users, HasId(userId))|;
      db.users := SetPasswordHashRows(db.users, userId, passwordHash);
    }
  }
}
