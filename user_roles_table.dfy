/**
 * The UserRoles table gateway: the links between users and roles, and the
 * join with Roles that lists a user's role names.
 */
module UserRoles {
  import opened Relational
  import opened Identity
  import opened Schema
  import opened Roles

  /** `WHERE UserId = @userId` */
  function LinkOfUser(userId: string): UserRoleRow -> bool
  {
    (link: UserRoleRow) => link.userId == userId
  }

  /** The Name column of a role. */
  function NameOf(role: Role): string
  {
    role.name
  }

  /**
   * `UserRoles, Roles where UserRoles.RoleId = Roles.Id` for the given links:
   * for each link in order, the roles carrying its role id, in table order.
   */
  function JoinRoles(links: seq<UserRoleRow>, roles: seq<Role>): (r: seq<Role>)
    ensures forall role :: role in r <==>
      role in roles && exists link | link in links :: link.roleId == role.id
  {
    if links == [] then []
    else
      var rest := JoinRoles(links[1..], roles);
      var here := Where(roles, RoleHasId(links[0].roleId));
      assert forall role :: role in here + rest <==>
          role in roles && exists link | link in links :: link.roleId == role.id by {
        forall role
          ensures role in here + rest <==>
            role in roles && exists link | link in links :: link.roleId == role.id
        {
          if role in roles && exists link | link in links :: link.roleId == role.id {
            var link :| link in links && link.roleId == role.id;
            if link != links[0] {
              assert link in links[1..];
            }
          }
          if role in rest {
            var link :| link in links[1..] && link.roleId == role.id;
            assert link in links;
          }
        }
      }
      here + rest
  }

  /** The roles joined to a user's links, in the order the query yields them. */
  function JoinedRoles(links: seq<UserRoleRow>, roles: seq<Role>, userId: string): (r: seq<Role>)
    ensures forall role :: role in r <==> role in roles && UserRoleRow(userId, role.id) in links
  {
    var mine := Where(links, LinkOfUser(userId));
    var r := JoinRoles(mine, roles);
    assert forall role :: role in r <==> role in roles && UserRoleRow(userId, role.id) in links by {
      forall role
        ensures role in r <==> role in roles && UserRoleRow(userId, role.id) in links
      {
        if role in r {
          var link :| link in mine && link.roleId == role.id;
          assert link == UserRoleRow(userId, role.id);
        }
        if role in roles && UserRoleRow(userId, role.id) in links {
          assert UserRoleRow(userId, role.id) in mine;
        }
      }
    }
    r
  }

  /**
   * FindByUserId: the Name of every role joined to the user's links. A link
   * whose role id has no role contributes nothing.
   */
  function RoleNamesOf(links: seq<UserRoleRow>, roles: seq<Role>, userId: string): (r: seq<string>)
    ensures forall n :: n in r <==> exists roleId :: UserRoleRow(userId, roleId) in links && Role(roleId, n) in roles
  {
    var joined := JoinedRoles(links, roles, userId);
    var r := Project(joined, NameOf);
    assert forall n :: n in r <==>
        exists roleId :: UserRoleRow(userId, roleId) in links && Role(roleId, n) in roles by {
      forall n
        ensures n in r <==> exists roleId :: UserRoleRow(userId, roleId) in links && Role(roleId, n) in roles
      {
        if n in r {
          var i :| 0 <= i < |r| && r[i] == n;
          assert joined[i] in joined;
          assert Role(joined[i].id, n) == joined[i];
        }
        if exists roleId :: UserRoleRow(userId, roleId) in links && Role(roleId, n) in roles {
          var roleId :| UserRoleRow(userId, roleId) in links && Role(roleId, n) in roles;
          assert Role(roleId, n) in joined;
          var i :| 0 <= i < |joined| && joined[i] == Role(roleId, n);
          assert r[i] == n;
        }
      }
    }
    r
  }

  /** Joining two runs of links is joining each and concatenating. */
  lemma {:induction false} JoinRolesAppend(a: seq<UserRoleRow>, b: seq<UserRoleRow>, roles: seq<Role>)
    ensures JoinRoles(a + b, roles) == JoinRoles(a, roles) + JoinRoles(b, roles)
  {
    if a == [] {
      assert a + b == b;
    } else {
      assert (a + b)[1..] == a[1..] + b;
      JoinRolesAppend(a[1..], b, roles);
    }
  }

  /**
   * Insert adds, at the end of the user's role names, the name of every role
   * carrying the linked id.
   */
  lemma InsertThenRoleNames(links: seq<UserRoleRow>, roles: seq<Role>, userId: string, roleId: string)
    ensures RoleNamesOf(links + [UserRoleRow(userId, roleId)], roles, userId)
         == RoleNamesOf(links, roles, userId) + Project(Where(roles, RoleHasId(roleId)), NameOf)
  {
    var link := UserRoleRow(userId, roleId);
    WhereAppend(links, [link], LinkOfUser(userId));
    assert Where([link], LinkOfUser(userId)) == [link];
    JoinRolesAppend(Where(links, LinkOfUser(userId)), [link], roles);
    assert JoinRoles([link], roles) == Where(roles, RoleHasId(roleId)) by {
      assert [link][1..] == [];
    }
    ProjectAppend(JoinedRoles(links, roles, userId), Where(roles, RoleHasId(roleId)), NameOf);
  }

  /** Linking a user to a stored role makes the role's name one of the user's. */
  lemma InsertThenHasRoleName(links: seq<UserRoleRow>, roles: seq<Role>, userId: string, role: Role)
    requires role in roles
    ensures role.name in RoleNamesOf(links + [UserRoleRow(userId, role.id)], roles, userId)
  {
  }

  /** Insert for one user leaves every other user's role names as they were. */
  lemma InsertKeepsOtherRoleNames(links: seq<UserRoleRow>, roles: seq<Role>, userId: string, roleId: string, other: string)
    requires other != userId
    ensures RoleNamesOf(links + [UserRoleRow(userId, roleId)], roles, other) == RoleNamesOf(links, roles, other)
  {
    var link := UserRoleRow(userId, roleId);
    WhereAppend(links, [link], LinkOfUser(other));
    assert Where([link], LinkOfUser(other)) == [];
    assert Where(links + [link], LinkOfUser(other)) == Where(links, LinkOfUser(other));
  }

  /** Delete(userId) leaves the user no role names and every other user's as they were. */
  lemma DeleteUserThenRoleNames(links: seq<UserRoleRow>, roles: seq<Role>, userId: string, other: string)
    ensures RoleNamesOf(DeleteWhere(links, LinkOfUser(userId)), roles, userId) == []
    ensures other != userId ==>
      RoleNamesOf(DeleteWhere(links, LinkOfUser(userId)), roles, other) == RoleNamesOf(links, roles, other)
  {
    WhereDeleted(links, LinkOfUser(userId));
    if other != userId {
      WhereAfterDelete(links, LinkOfUser(userId), LinkOfUser(other));
    }
  }

  /** The UserRoles table gateway over one database. */
  class UserRolesTable {
    const db: Database

    constructor (database: Database)
      ensures db == database
    {
      db := database;
    }

    /** FindByUserId: collects the joined role names one row at a time. */
    method FindByUserId(userId: string) returns (list: seq<string>)
      ensures list == RoleNamesOf(db.userRoles, db.roles, userId)
    {
      var joined := JoinedRoles(db.userRoles, db.roles, userId);
      list := [];
      var i := 0;
      while i < |joined|
        invariant 0 <= i <= |joined|
        invariant list == Project(joined[..i], NameOf)
      {
        ProjectAppend(joined[..i], [joined[i]], NameOf);
        assert joined[..i + 1] == joined[..i] + [joined[i]];
        list := list + [joined[i].name];
        i := i + 1;
      }
      assert joined[..i] == joined;
    }

    /** Delete(userId): removes every link of that user. */
    method DeleteUser(userId: string) returns (affected: nat)
      modifies db`userRoles
      ensures db.userRoles == DeleteWhere(old(db.userRoles), LinkOfUser(userId))
      ensures affected == |Where(old(db.userRoles), LinkOfUser(userId))|
    {
      affected := |Where(db.userRoles, LinkOfUser(userId))|;
      db.userRoles := DeleteWhere(db.userRoles, LinkOfUser(userId));
    }

    /** Insert: appends exactly one (user id, role id) link, with no duplicate check. */
    method Insert(user: IdentityUser, roleId: string) returns (affected: nat)
      modifies db`userRoles
      ensures db.userRoles == old(db.userRoles) + [UserRoleRow(user.id, roleId)]
      ensures affected == 1
    {
      db.userRoles := db.userRoles + [UserRoleRow(user.id, roleId)];
      affected := 1;
    }
  }
}
