/** The UserClaims table gateway: the claims recorded about each user. */
module UserClaims {
  import opened Relational
  import opened Schema

  /** `WHERE UserId = @userId` */
  function ClaimOfUser(userId: string): ClaimRow -> bool
  {
    (row: ClaimRow) => row.userId == userId
  }

  /** The claim a row records. */
  function ClaimOf(row: ClaimRow): Claim
  {
    Claim(row.claimType, row.claimValue)
  }

  /** FindByUserId: one claim per row of that user, in table order. */
  function ClaimsOf(rows: seq<ClaimRow>, userId: string): (r: seq<Claim>)
    ensures |r| == |Where(rows, ClaimOfUser(userId))|
    ensures forall c :: c in r <==> ClaimRow(userId, c.claimType, c.value) in rows
  {
    var found := Where(rows, ClaimOfUser(userId));
    var r := Project(found, ClaimOf);
    assert forall c :: c in r <==> ClaimRow(userId, c.claimType, c.value) in rows by {
      forall c
        ensures c in r <==> ClaimRow(userId, c.claimType, c.value) in rows
      {
        var row := ClaimRow(userId, c.claimType, c.value);
        if c in r {
          var i :| 0 <= i < |r| && r[i] == c;
          assert found[i] in found;
          assert found[i] == row;
        }
        if row in rows {
          assert row in found;
          var i :| 0 <= i < |found| && found[i] == row;
          assert r[i] == c;
        }
      }
    }
    r
  }

  /**
   * Insert adds the claim at the end of its user's claims, even when the user
   * already holds an equal claim.
   */
  lemma InsertThenClaims(rows: seq<ClaimRow>, userId: string, c: Claim)
    ensures ClaimsOf(rows + [ClaimRow(userId, c.claimType, c.value)], userId) == ClaimsOf(rows, userId) + [c]
  {
    var row := ClaimRow(userId, c.claimType, c.value);
    WhereAppend(rows, [row], ClaimOfUser(userId));
    assert Where([row], ClaimOfUser(userId)) == [row];
    ProjectAppend(Where(rows, ClaimOfUser(userId)), [row], ClaimOf);
  }

  /** Insert for one user leaves every other user's claims as they were. */
  lemma InsertKeepsOtherClaims(rows: seq<ClaimRow>, userId: string, c: Claim, other: string)
    requires other != userId
    ensures ClaimsOf(rows + [ClaimRow(userId, c.claimType, c.value)], other) == ClaimsOf(rows, other)
  {
    var row := ClaimRow(userId, c.claimType, c.value);
    WhereAppend(rows, [row], ClaimOfUser(other));
    assert Where([row], ClaimOfUser(other)) == [];
  }

  /** Delete(userId) empties that user's claims and leaves every other user's. */
  lemma DeleteUserThenClaims(rows: seq<ClaimRow>, userId: string, other: string)
    ensures ClaimsOf(DeleteWhere(rows, ClaimOfUser(userId)), userId) == []
    ensures other != userId ==>
      ClaimsOf(DeleteWhere(rows, ClaimOfUser(userId)), other) == ClaimsOf(rows, other)
  {
    WhereDeleted(rows, ClaimOfUser(userId));
    if other != userId {
      WhereAfterDelete(rows, ClaimOfUser(userId), ClaimOfUser(other));
    }
  }

  /** The UserClaims table gateway over one database. */
  class UserClaimsTable {
    const db: Database

    constructor (database: Database)
      ensures db == database
    {
      db := database;
    }

    /** FindByUserId: adds the user's claims to a new identity one row at a time. */
    method FindByUserId(userId: string) returns (identity: seq<Claim>)
      ensures identity == ClaimsOf(db.userClaims, userId)
    {
      var found := Where(db.userClaims, ClaimOfUser(userId));
      identity := [];
      var i := 0;
      while i < |found|
        invariant 0 <= i <= |found|
        invariant identity == Project(found[..i], ClaimOf)
      {
        ProjectAppend(found[..i], [found[i]], ClaimOf);
        assert found[..i + 1] == found[..i] + [found[i]];
        identity := identity + [ClaimOf(found[i])];
        i := i + 1;
      }
      assert found[..i] == found;
    }

    /** Delete(userId): removes every claim row of that user. */
    method DeleteUser(userId: string) returns (affected: nat)
      modifies db`userClaims
      ensures db.userClaims == DeleteWhere(old(db.userClaims), ClaimOfUser(userId))
      ensures affected == |Where(old(db.userClaims), ClaimOfUser(userId))|
    {
      affected := |Where(db.userClaims, ClaimOfUser(userId))|;
      db.userClaims := DeleteWhere(db.userClaims, ClaimOfUser(userId));
    }

    /** Insert: appends exactly one (value, type, user id) row. */
    method Insert(userClaim: Claim, userId: string) returns (affected: nat)
      modifies db`userClaims
      ensures db.userClaims == old(db.userClaims) + [ClaimRow(userId, userClaim.claimType, userClaim.value)]
      ensures affected == 1
    {
      db.userClaims := db.userClaims + [ClaimRow(userId, userClaim.claimType, userClaim.value)];
      affected := 1;
    }
  }
}
