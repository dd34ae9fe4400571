/**
 * The UserLogins table gateway: which external logins (provider and key)
 * belong to which user.
 */
module UserLogins {
  import opened Wrappers
  import opened Relational
  import opened Identity
  import opened Schema

  /** `WHERE UserId = @userId` */
  function LoginOfUser(userId: string): LoginRow -> bool
  {
    (row: LoginRow) => row.userId == userId
  }

  /** `WHERE LoginProvider = @loginProvider and ProviderKey = @providerKey` */
  function HasKey(login: LoginInfo): LoginRow -> bool
  {
    (row: LoginRow) => row.loginProvider == login.loginProvider && row.providerKey == login.providerKey
  }

  /** `WHERE UserId = @userId and LoginProvider = ... and ProviderKey = ...` */
  function MatchesLogin(userId: string, login: LoginInfo): LoginRow -> bool
  {
    (row: LoginRow) => row == LoginRow(userId, login.loginProvider, login.providerKey)
  }

  /** The login a row describes. */
  function InfoOf(row: LoginRow): LoginInfo
  {
    LoginInfo(row.loginProvider, row.providerKey)
  }

  /**
   * FindUserIdByLogin: the UserId of the first row holding that provider and
   * key; null when none does.
   */
  function FindUserIdByLogin(rows: seq<LoginRow>, login: LoginInfo): (r: Option<string>)
    ensures r.None? <==> forall row | row in rows :: !HasKey(login)(row)
    ensures r.Some? ==> LoginRow(r.value, login.loginProvider, login.providerKey) in rows
  {
    var found := Where(rows, HasKey(login));
    WhereEmpty(rows, HasKey(login));
    if found == [] then None
    else
      assert found[0] in found;
      Some(found[0].userId)
  }

  /** FindByUserId: one login per row of that user, in table order. */
  function LoginsOf(rows: seq<LoginRow>, userId: string): (r: seq<LoginInfo>)
    ensures |r| == |Where(rows, LoginOfUser(userId))|
    ensures forall login :: login in r <==>
      LoginRow(userId, login.loginProvider, login.providerKey) in rows
  {
    var found := Where(rows, LoginOfUser(userId));
    var r := Project(found, InfoOf);
    assert forall login :: login in r <==>
        LoginRow(userId, login.loginProvider, login.providerKey) in rows by {
      forall login
        ensures login in r <==> LoginRow(userId, login.loginProvider, login.providerKey) in rows
      {
        var row := LoginRow(userId, login.loginProvider, login.providerKey);
        if login in r {
          var i :| 0 <= i < |r| && r[i] == login;
          assert found[i] in found;
          assert found[i] == row;
        }
        if row in rows {
          assert row in found;
          var i :| 0 <= i < |found| && found[i] == row;
          assert r[i] == login;
        }
      }
    }
    r
  }

  /**
   * Insert makes no duplicate check: the new row is found by its provider
   * and key exactly when no earlier row holds them.
   */
  lemma InsertThenFindUserId(rows: seq<LoginRow>, userId: string, login: LoginInfo)
    ensures (forall row | row in rows :: !HasKey(login)(row)) ==>
      FindUserIdByLogin(rows + [LoginRow(userId, login.loginProvider, login.providerKey)], login) == Some(userId)
    ensures (exists row | row in rows :: HasKey(login)(row)) ==>
      FindUserIdByLogin(rows + [LoginRow(userId, login.loginProvider, login.providerKey)], login)
        == FindUserIdByLogin(rows, login)
  {
    var row := LoginRow(userId, login.loginProvider, login.providerKey);
    WhereAppend(rows, [row], HasKey(login));
    WhereEmpty(rows, HasKey(login));
    assert Where([row], HasKey(login)) == [row];
  }

  /** Insert adds the login at the end of its user's list. */
  lemma InsertThenLogins(rows: seq<LoginRow>, userId: string, login: LoginInfo)
    ensures LoginsOf(rows + [LoginRow(userId, login.loginProvider, login.providerKey)], userId)
         == LoginsOf(rows, userId) + [login]
  {
    var row := LoginRow(userId, login.loginProvider, login.providerKey);
    WhereAppend(rows, [row], LoginOfUser(userId));
    assert Where([row], LoginOfUser(userId)) == [row];
    ProjectAppend(Where(rows, LoginOfUser(userId)), [row], InfoOf);
  }

  /** Insert for one user leaves every other user's list as it was. */
  lemma InsertKeepsOtherLogins(rows: seq<LoginRow>, userId: string, login: LoginInfo, other: string)
    requires other != userId
    ensures LoginsOf(rows + [LoginRow(userId, login.loginProvider, login.providerKey)], other)
         == LoginsOf(rows, other)
  {
    var row := LoginRow(userId, login.loginProvider, login.providerKey);
    WhereAppend(rows, [row], LoginOfUser(other));
    assert Where([row], LoginOfUser(other)) == [];
  }

  /**
   * Delete(user, login) takes exactly that login off that user's list and
   * leaves every other user's list as it was.
   */
  lemma DeleteLoginThenLogins(rows: seq<LoginRow>, userId: string, login: LoginInfo, other: string)
    ensures forall l :: l in LoginsOf(DeleteWhere(rows, MatchesLogin(userId, login)), userId) <==>
      l in LoginsOf(rows, userId) && l != login
    ensures other != userId ==>
      LoginsOf(DeleteWhere(rows, MatchesLogin(userId, login)), other) == LoginsOf(rows, other)
  {
    if other != userId {
      WhereAfterDelete(rows, MatchesLogin(userId, login), LoginOfUser(other));
    }
  }

  /**
   * Delete(userId) empties that user's list and no longer resolves any key
   * to that user; every other user's list stays.
   */
  lemma DeleteUserThenLogins(rows: seq<LoginRow>, userId: string, login: LoginInfo, other: string)
    ensures LoginsOf(DeleteWhere(rows, LoginOfUser(userId)), userId) == []
    ensures FindUserIdByLogin(DeleteWhere(rows, LoginOfUser(userId)), login) != Some(userId)
    ensures other != userId ==>
      LoginsOf(DeleteWhere(rows, LoginOfUser(userId)), other) == LoginsOf(rows, other)
  {
    WhereDeleted(rows, LoginOfUser(userId));
    if other != userId {
      WhereAfterDelete(rows, LoginOfUser(userId), LoginOfUser(other));
    }
  }

  /** The UserLogins table gateway over one database. */
  class UserLoginsTable {
    const db: Database

    constructor (database: Database)
      ensures db == database
    {
      db := database;
    }

    /** Insert: appends exactly one (provider, key, user id) row. */
    method Insert(user: IdentityUser, login: LoginInfo) returns (affected: nat)
      modifies db`userLogins
      ensures db.userLogins == old(db.userLogins) + [LoginRow(user.id, login.loginProvider, login.providerKey)]
      ensures affected == 1
    {
      db.userLogins := db.userLogins + [LoginRow(user.id, login.loginProvider, login.providerKey)];
      affected := 1;
    }

    /** Delete(user, login): removes exactly the rows matching all three columns. */
    method Delete(user: IdentityUser, login: LoginInfo) returns (affected: nat)
      modifies db`userLogins
      ensures db.userLogins == DeleteWhere(old(db.userLogins), MatchesLogin(user.id, login))
      ensures affected == |Where(old(db.userLogins), MatchesLogin(user.id, login))|
    {
      affected := |Where(db.userLogins, MatchesLogin(user.id, login))|;
      db.userLogins := DeleteWhere(db.userLogins, MatchesLogin(user.id, login));
    }

    /** Delete(userId): removes every login row of that user. */
    method DeleteUser(userId: string) returns (affected: nat)
      modifies db`userLogins
      ensures db.userLogins == DeleteWhere(old(db.userLogins), LoginOfUser(userId))
      ensures affected == |Where(old(db.userLogins), LoginOfUser(userId))|
    {
      affected := |Where(db.userLogins, LoginOfUser(userId))|;
      db.userLogins := DeleteWhere(db.userLogins, LoginOfUser(userId));
    }

    /** FindByUserId: builds the user's logins one row at a time. */
    method FindByUserId(userId: string) returns (list: seq<LoginInfo>)
      ensures list == LoginsOf(db.userLogins, userId)
    {
      var found := Where(db.userLogins, LoginOfUser(userId));
      list := [];
      var i := 0;
      while i < |found|
        invariant 0 <= i <= |found|
        invariant list == Project(found[..i], InfoOf)
      {
        ProjectAppend(found[..i], [found[i]], InfoOf);
        assert found[..i + 1] == found[..i] + [found[i]];
        list := list + [InfoOf(found[i])];
        i := i + 1;
      }
      assert found[..i] == found;
    }
  }
}
