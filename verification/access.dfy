/** Roles, permissions and the signed-in user of the single-file application
    (malla.py): the fixed role table, the permission check every page runs and
    the login that fills in the session's authentication record. */
module Access {
  import opened Wrappers
  import opened Roster

  /** The permissions of each known role. */
  const Roles: map<string, seq<string>> := map[
    "admin" := ["read", "write", "delete", "configure", "manage_users"],
    "supervisor" := ["read", "write"],
    "empleado" := ["read"]]

  /** The user data kept for a signed-in user. */
  datatype UserData = UserData(nombre: string, departamento: Option<string>)

  /** The session's authentication record. */
  datatype Auth = Auth(isAuthenticated: bool, username: Option<string>, role: Option<string>,
                       userData: Option<UserData>)

  /** The record of a session nobody is signed into (also what logout restores). */
  const SignedOut := Auth(false, None, None, None)

  /** The permission list of a role: that of a known role, empty otherwise. */
  function PermissionsOf(role: Option<string>): seq<string> {
    if role.Some? && role.value in Roles then Roles[role.value] else []
  }

  /** check_permission: a signed-in user holds exactly the permissions listed
      for their role. */
  function CheckPermission(auth: Auth, permission: string): (allowed: bool)
    ensures !auth.isAuthenticated ==> !allowed
    ensures auth.role.None? || auth.role.value !in Roles ==> !allowed
    ensures allowed ==> permission in {"read", "write", "delete", "configure", "manage_users"}
  {
    auth.isAuthenticated && permission in PermissionsOf(auth.role)
  }

  /** Each permission, stated role by role: everyone signed in with a known role
      reads, admins and supervisors write, and only admins delete, configure and
      manage users. */
  lemma PermissionsByRole(auth: Auth)
    ensures CheckPermission(auth, "read") <==>
              auth.isAuthenticated && auth.role in {Some("admin"), Some("supervisor"), Some("empleado")}
    ensures CheckPermission(auth, "write") <==>
              auth.isAuthenticated && auth.role in {Some("admin"), Some("supervisor")}
    ensures CheckPermission(auth, "delete") <==> auth.isAuthenticated && auth.role == Some("admin")
    ensures CheckPermission(auth, "configure") <==> auth.isAuthenticated && auth.role == Some("admin")
    ensures CheckPermission(auth, "manage_users") <==> auth.isAuthenticated && auth.role == Some("admin")
  {
    if auth.role.Some? && auth.role.value in Roles {
      assert auth.role.value in {"admin", "supervisor", "empleado"};
    }
  }

  /** The roles are nested: whatever an empleado may do a supervisor may do,
      and whatever a supervisor may do an admin may do. */
  lemma RolesNested(auth: Auth, permission: string)
    ensures (auth.role == Some("empleado") && CheckPermission(auth, permission))
              ==> CheckPermission(auth.(role := Some("supervisor")), permission)
    ensures (auth.role == Some("supervisor") && CheckPermission(auth, permission))
              ==> CheckPermission(auth.(role := Some("admin")), permission)
  {
  }

  /** login: when the user exists and the hash of the password equals the stored
      hash, the session is signed in as that user with the stored role and data,
      and the result is true; otherwise the session is left as it was and the
      result is false. The hash function is a parameter. */
  function Login(auth: Auth, users: map<string, UserRecord>, username: string, password: string,
                 hash: string -> string): (r: (Auth, bool))
    ensures r.1 <==> username in users && users[username].passwordHash == hash(password)
    ensures !r.1 ==> r.0 == auth
    ensures r.1 ==> r.0.isAuthenticated && r.0.username == Some(username) && r.0.role == Some(users[username].role)
    ensures r.1 ==> r.0.userData == Some(UserData(users[username].nombre, users[username].departamento))
  {
    if username in users && users[username].passwordHash == hash(password) then
      var user := users[username];
      (Auth(true, Some(username), Some(user.role), Some(UserData(user.nombre, user.departamento))), true)
    else (auth, false)
  }

  /** After a successful login the session holds exactly the permissions of the
      user's stored role; a failed login changes no permission. */
  lemma LoginGrantsRolePermissions(auth: Auth, users: map<string, UserRecord>, username: string,
                                   password: string, hash: string -> string, permission: string)
    ensures var (next, ok) := Login(auth, users, username, password, hash);
            && (ok ==> (CheckPermission(next, permission) <==> permission in PermissionsOf(Some(users[username].role))))
            && (!ok ==> (CheckPermission(next, permission) <==> CheckPermission(auth, permission)))
  {
  }

  /** Nobody signed out holds any permission. */
  lemma SignedOutHoldsNothing(permission: string)
    ensures !CheckPermission(SignedOut, permission)
  {
  }
}
