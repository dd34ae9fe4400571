/**
 * The Roles table gateway: the lookups of a role by id and by name, and the
 * statements that add and remove roles.
 */
module Roles {
  import opened Wrappers
  import opened Relational
  import opened Schema

  /** `WHERE Id = @id` */
  function RoleHasId(id: string): Role -> bool
  {
    (role: Role) => role.id == id
  }

  /** `WHERE Name = @name` */
  function RoleHasName(name: string): Role -> bool
  {
    (role: Role) => role.name == name
  }

  /** No two roles share an id, and no two share a name. */
  predicate UniqueRoles(roles: seq<Role>)
  {
    && (forall a, b | a in roles && b in roles && a.id == b.id :: a == b)
    && (forall a, b | a in roles && b in roles && a.name == b.name :: a == b)
  }

  /** GetRoleName: the Name of the first role with that id; null when none has it. */
  function GetRoleName(roles: seq<Role>, roleId: string): (r: Option<string>)
    ensures r.None? <==> forall role | role in roles :: role.id != roleId
    ensures r.Some? ==> Role(roleId, r.value) in roles
  {
    var found := Where(roles, RoleHasId(roleId));
    WhereEmpty(roles, RoleHasId(roleId));
    if found == [] then None
    else
      assert found[0] in found;
      Some(found[0].name)
  }

  /** GetRoleId: the Id of the first role with that name; null when none has it. */
  function GetRoleId(roles: seq<Role>, roleName: string): (r: Option<string>)
    ensures r.None? <==> forall role | role in roles :: role.name != roleName
    ensures r.Some? ==> Role(r.value, roleName) in roles
  {
    var found := Where(roles, RoleHasName(roleName));
    WhereEmpty(roles, RoleHasName(roleName));
    if found == [] then None
    else
      assert found[0] in found;
      Some(found[0].id)
  }

  /**
   * GetRoleById: a role carrying the given id and the name found for it;
   * null when the name lookup finds nothing.
   */
  function GetRoleById(roles: seq<Role>, roleId: string): (r: Option<Role>)
    ensures r.Some? <==> GetRoleName(roles, roleId).Some?
    ensures r.Some? ==> r.value.id == roleId && r.value.name == GetRoleName(roles, roleId).value
    ensures r.Some? ==> r.value in roles
  {
    var name := GetRoleName(roles, roleId);
    if name.Some? then Some(Role(roleId, name.value)) else None
  }

  /**
   * GetRoleByName: a role carrying the given name and the id found for it;
   * null when the id lookup finds nothing.
   */
  function GetRoleByName(roles: seq<Role>, roleName: string): (r: Option<Role>)
    ensures r.Some? <==> GetRoleId(roles, roleName).Some?
    ensures r.Some? ==> r.value.name == roleName && r.value.id == GetRoleId(roles, roleName).value
    ensures r.Some? ==> r.value in roles
  {
    var id := GetRoleId(roles, roleName);
    if id.Some? then Some(Role(id.value, roleName)) else None
  }

  /** With unique ids and names, a stored role is found by its id and by its name. */
  lemma FindStoredRole(roles: seq<Role>, role: Role)
    requires UniqueRoles(roles)
    requires role in roles
    ensures GetRoleById(roles, role.id) == Some(role)
    ensures GetRoleByName(roles, role.name) == Some(role)
  {
  }

  /** With unique ids and names, looking a role up by id and then by its name agree. */
  lemma RoleLookupsAgree(roles: seq<Role>, roleId: string)
    requires UniqueRoles(roles)
    ensures GetRoleById(roles, roleId).Some? ==>
      GetRoleByName(roles, GetRoleById(roles, roleId).value.name) == GetRoleById(roles, roleId)
  {
  }

  /** After Insert of a role whose name is new, both lookups find it. */
  lemma InsertThenFindRole(roles: seq<Role>, role: Role)
    requires forall other | other in roles :: other.id != role.id
    requires forall other | other in roles :: other.name != role.name
    ensures GetRoleById(roles + [role], role.id) == Some(role)
    ensures GetRoleByName(roles + [role], role.name) == Some(role)
  {
  }

  /** After Delete, the id finds nothing and every other id finds what it found before. */
  lemma DeleteThenFindRole(roles: seq<Role>, roleId: string, other: string)
    ensures GetRoleById(DeleteWhere(roles, RoleHasId(roleId)), roleId).None?
    ensures other != roleId ==>
      GetRoleById(DeleteWhere(roles, RoleHasId(roleId)), other) == GetRoleById(roles, other)
  {
    WhereDeleted(roles, RoleHasId(roleId));
    if other != roleId {
      WhereAfterDelete(roles, RoleHasId(roleId), RoleHasId(other));
    }
  }

  /** The Roles table gateway over one database. */
  class RoleTable {
    const db: Database

    constructor (database: Database)
      ensures db == database
    {
      db := database;
    }

    /** Insert: appends exactly one (Id, Name) row. */
    method Insert(role: Role) returns (affected: nat)
      modifies db`roles
      ensures db.roles == old(db.roles) + [role]
      ensures affected == 1
    {
      db.roles := db.roles + [role];
      affected := 1;
    }

    /** Delete: removes exactly the roles with that id. */
    method Delete(roleId: string) returns (affected: nat)
      modifies db`roles
      ensures db.roles == DeleteWhere(old(db.roles), RoleHasId(roleId))
      ensures affected == |Where(old(db.roles), RoleHasId(roleId))|
    {
      affected := |Where(db.roles, RoleHasId(roleId))|;
      db.roles := DeleteWhere(db.roles, RoleHasId(roleId));
    }
  }
}
