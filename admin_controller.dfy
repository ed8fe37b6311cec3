/** `AdminController` of `admin_controller.py`: the static role table, the
    rank check with its first-`super_admin` bootstrap, and the admin
    sessions, kept in a cache (`self.sessions`) in front of the durable
    `admin_sessions` table. */
module AdminControl {
  import opened Wrappers

  // Permissions
  const UserManage := "user:manage"
  const SystemConfig := "system:config"
  const ViewLogs := "logs:view"
  const ManageAdmins := "admin:manage"
  const Security := "security:manage"
  const Database := "database:manage"
  const Api := "api:manage"
  const MlConfig := "ml:config"
  const OsConfig := "os:config"

  /** Every permission the controller knows. */
  const AllPermissions: seq<string> :=
    [UserManage, SystemConfig, ViewLogs, ManageAdmins, Security, Database, Api, MlConfig, OsConfig]

  // Roles
  const SuperAdmin := "super_admin"
  const Admin := "admin"
  const Moderator := "moderator"
  const Viewer := "viewer"

  /** `SESSION_TIMEOUT` of 30 minutes, in seconds; time is a count of
      seconds. */
  const SessionTimeout := 30 * 60

  /** `_initialize_roles`: the permissions of each role. */
  const Roles: map<string, seq<string>> := map[
    SuperAdmin := [UserManage, SystemConfig, ViewLogs, ManageAdmins, Security, Database, Api, MlConfig, OsConfig],
    Admin := [UserManage, ViewLogs, Security, Api, MlConfig],
    Moderator := [UserManage, ViewLogs],
    Viewer := [ViewLogs]]

  /** `self.roles.get(role, [])` */
  function PermissionsOf(role: string): (r: seq<string>)
    ensures role !in Roles ==> r == []
    ensures forall p :: p in r ==> p in AllPermissions
    ensures role in Roles ==> ViewLogs in r
  {
    if role in Roles then Roles[role] else []
  }

  /** `role_hierarchy.get(role, 0)` */
  function Level(role: string): (r: nat)
    ensures r <= 4
    ensures r == 0 <==> role !in Roles
  {
    if role == SuperAdmin then 4
    else if role == Admin then 3
    else if role == Moderator then 2
    else if role == Viewer then 1
    else 0
  }

  /** The rank comparison of `_check_role_permission` for a user with a
      stored role. */
  predicate RankAdmits(stored: string, requested: string) {
    Level(stored) >= Level(requested)
  }

  /** The table is monotone in rank: a role holds every permission of every
      role ranked below it, and `super_admin` holds all nine. */
  lemma RolesMonotone(lower: string, higher: string, p: string)
    requires lower in Roles && higher in Roles
    requires Level(lower) <= Level(higher)
    requires p in PermissionsOf(lower)
    ensures p in PermissionsOf(higher)
  {
  }

  lemma SuperAdminHoldsAll()
    ensures forall p :: p in AllPermissions ==> p in PermissionsOf(SuperAdmin)
    ensures forall r, p :: r in Roles && p in Roles[r] ==> p in AllPermissions
  {
  }

  /** The rank check is a preorder on roles; an unrecognised requested role
      ranks lowest, so it is admitted for every stored role, and a stored
      role that is not recognised admits only unrecognised requests. */
  lemma RankAdmitsFacts(a: string, b: string, c: string)
    ensures RankAdmits(a, a)
    ensures RankAdmits(a, b) && RankAdmits(b, c) ==> RankAdmits(a, c)
    ensures b !in Roles ==> RankAdmits(a, b)
    ensures a !in Roles ==> (RankAdmits(a, b) <==> b !in Roles)
  {
  }

  /** What `login_system` reports for a user name: the credential lookup
      that `login` performs is not defined in `print.py`, so it is a
      parameter of the controller, and it may raise. */
  datatype UserLookup =
    | LookupRaised(message: string)     // the call raised; `str(e)`
    | NoUser                            // `fetchone()` returned nothing
    | Found(salt: string, hash: string) // `(id, salt, hash)`

  /** One entry of `self.sessions`. */
  datatype CachedSession = CachedSession(username: string, role: string, expiresAt: int)

  /** One row of `admin_sessions`. */
  datatype SessionRow = SessionRow(username: string, role: string, expiresAt: int, active: bool)

  /** One row of `admin_audit_log` (`resource` and the address are not
      modelled). */
  datatype AuditEntry = AuditEntry(username: string, action: string, status: string, details: Option<string>)

  /** The cache entry a table row gives. */
  function Cached(row: SessionRow): CachedSession {
    CachedSession(row.username, row.role, row.expiresAt)
  }

  /** The answer the table alone gives for `sid` at time `now`: an active,
      unexpired row. */
  function TableSession(table: map<string, SessionRow>, sid: string, now: int): (r: Option<CachedSession>)
    ensures r.Some? <==> sid in table && table[sid].active && now < table[sid].expiresAt
    ensures r.Some? ==> r.value == Cached(table[sid])
  {
    if sid in table && table[sid].active && now < table[sid].expiresAt then Some(Cached(table[sid])) else None
  }

  /** The row of `sid` is there and deactivated: `logout`, or an expiry
      seen by `validate_session`, ended it. */
  predicate Ended(table: map<string, SessionRow>, sid: string) {
    sid in table && !table[sid].active
  }

  /** No ended row is removed or made active again. */
  predicate EndedStayEnded(before: map<string, SessionRow>, after: map<string, SessionRow>) {
    forall sid :: sid in before && !before[sid].active ==> Ended(after, sid)
  }

  /** An ended session is not answered by the table at any time. */
  lemma EndedNeverAnswers(table: map<string, SessionRow>, sid: string)
    requires Ended(table, sid)
    ensures forall t :: TableSession(table, sid, t).None?
  {
  }

  /** The verdict of `_check_role_permission` on the stored roles
      `perms`. */
  predicate RoleGranted(perms: map<string, string>, username: string, role: string) {
    if username in perms then RankAdmits(perms[username], role) else role == SuperAdmin
  }

  /** The stored roles after `_check_role_permission`: only the bootstrap
      of a first `super_admin` writes. */
  function AfterRoleCheck(perms: map<string, string>, username: string, role: string): (r: map<string, string>)
    ensures username in perms || role != SuperAdmin ==> r == perms
    ensures username !in perms && role == SuperAdmin ==> r == perms[username := role] && RoleGranted(r, username, role)
    ensures forall u :: u in perms ==> u in r && r[u] == perms[u]
    ensures forall u :: u in r && u !in perms ==> u == username && r[u] == SuperAdmin
  {
    if username !in perms && role == SuperAdmin then perms[username := role] else perms
  }

  /** The message `login` returns when a call inside it raises. */
  function ErrorMessage(message: string): string {
    "Hata: " + message
  }

  /** What sqlite raises when the new session id is already a key of
      `admin_sessions`. */
  const DuplicateIdMessage := "UNIQUE constraint failed: admin_sessions.id"

  class AdminController {
    /** The credential lookup and the password check of `login_system`. */
    const lookup: string -> UserLookup
    const checkPassword: (string, string, string) -> bool
    /** `self.sessions` */
    var sessions: map<string, CachedSession>
    /** `admin_sessions`, by id */
    var table: map<string, SessionRow>
    /** `admin_permissions`: the stored role of each user */
    var permissions: map<string, string>
    /** `admin_audit_log`, in insertion order */
    var audit: seq<AuditEntry>

    /** The cache holds only active rows of the table, with their data. */
    predicate Valid()
      reads this
    {
      forall sid :: sid in sessions ==> sid in table && table[sid].active && sessions[sid] == Cached(table[sid])
    }

    /** A controller starts with an empty cache over whatever the tables
        hold. */
    constructor(lookup: string -> UserLookup, checkPassword: (string, string, string) -> bool,
                table: map<string, SessionRow>, permissions: map<string, string>, audit: seq<AuditEntry>)
      ensures this.lookup == lookup && this.checkPassword == checkPassword
      ensures sessions == map[] && this.table == table && this.permissions == permissions && this.audit == audit
      ensures Valid()
    {
      this.lookup := lookup;
      this.checkPassword := checkPassword;
      sessions := map[];
      this.table := table;
      this.permissions := permissions;
      this.audit := audit;
    }

    /** `_log_audit` */
    method LogAudit(username: string, action: string, status: string, details: Option<string>)
      modifies this`audit
      ensures audit == old(audit) + [AuditEntry(username, action, status, details)]
    {
      audit := audit + [AuditEntry(username, action, status, details)];
    }

    /** `_check_role_permission`. A user with a stored role is granted
        exactly the roles ranked at most as high; a user without one is
        granted only `super_admin`, which records that role for them (the
        first-admin bootstrap); nothing else is written. */
    method CheckRolePermission(username: string, role: string) returns (granted: bool)
      modifies this`permissions
      ensures granted == RoleGranted(old(permissions), username, role)
      ensures username in old(permissions) ==> granted == RankAdmits(old(permissions)[username], role)
      ensures username !in old(permissions) ==> granted == (role == SuperAdmin)
      ensures permissions == AfterRoleCheck(old(permissions), username, role)
    {
      if username in permissions {
        var dbRole := permissions[username];
        return Level(dbRole) >= Level(role);
      }
      if role == SuperAdmin {
        // INSERT OR IGNORE: there is no row for the user, so one is added
        permissions := permissions[username := role];
        return true;
      }
      return false;
    }

    /** `login`. It succeeds only when the user exists, the password checks
        and the role is granted; the session then gets an active row and a
        cache entry expiring `SessionTimeout` seconds after `now` under the
        id `sid` (`uuid4()`). Each refusal records a failed
        `login_attempt` and creates no session; a lookup that raises, or an
        id already in the table, ends in the error message with no session
        and no audit entry. */
    method Login(username: string, password: string, role: string, sid: string, now: int)
      returns (ok: bool, id: Option<string>, error: Option<string>)
      requires Valid()
      modifies this`sessions, this`table, this`permissions, this`audit
      ensures Valid()
      ensures EndedStayEnded(old(table), table)
      ensures ok <==> id.Some?
      ensures ok <==> error.None?
      ensures !ok ==> sessions == old(sessions) && table == old(table)
      ensures lookup(username).LookupRaised? ==>
        && !ok && error == Some(ErrorMessage(lookup(username).message))
        && audit == old(audit) && permissions == old(permissions)
      ensures lookup(username).NoUser? ==>
        && !ok && error == Some("Kullanıcı bulunamadı")
        && audit == old(audit) + [AuditEntry(username, "login_attempt", "failed", Some("User not found"))]
        && permissions == old(permissions)
      ensures lookup(username).Found? && !checkPassword(password, lookup(username).salt, lookup(username).hash) ==>
        && !ok && error == Some("Geçersiz şifre")
        && audit == old(audit) + [AuditEntry(username, "login_attempt", "failed", Some("Invalid password"))]
        && permissions == old(permissions)
      ensures lookup(username).Found? && checkPassword(password, lookup(username).salt, lookup(username).hash) ==>
        permissions == AfterRoleCheck(old(permissions), username, role)
      ensures lookup(username).Found? && checkPassword(password, lookup(username).salt, lookup(username).hash)
              && !RoleGranted(old(permissions), username, role) ==>
        && !ok && error == Some("Geçersiz rol")
        && audit == old(audit) + [AuditEntry(username, "login_attempt", "failed", Some("Invalid role: " + role))]
      ensures lookup(username).Found? && checkPassword(password, lookup(username).salt, lookup(username).hash)
              && RoleGranted(old(permissions), username, role) && sid in old(table) ==>
        !ok && error == Some(ErrorMessage(DuplicateIdMessage)) && audit == old(audit)
      ensures lookup(username).Found? && checkPassword(password, lookup(username).salt, lookup(username).hash)
              && RoleGranted(old(permissions), username, role) && sid !in old(table) ==>
        && ok && id == Some(sid)
        && table == old(table)[sid := SessionRow(username, role, now + SessionTimeout, true)]
        && sessions == old(sessions)[sid := CachedSession(username, role, now + SessionTimeout)]
        && audit == old(audit) + [AuditEntry(username, "login", "success", Some("Role: " + role))]
    {
      var user := lookup(username);
      match user {
        case LookupRaised(message) =>
          return false, None, Some(ErrorMessage(message));
        case NoUser =>
          LogAudit(username, "login_attempt", "failed", Some("User not found"));
          return false, None, Some("Kullanıcı bulunamadı");
        case Found(salt, storedHash) =>
          if !checkPassword(password, salt, storedHash) {
            LogAudit(username, "login_attempt", "failed", Some("Invalid password"));
            return false, None, Some("Geçersiz şifre");
          }
          var granted := CheckRolePermission(username, role);
          if !granted {
            LogAudit(username, "login_attempt", "failed", Some("Invalid role: " + role));
            return false, None, Some("Geçersiz rol");
          }
          var expiresAt := now + SessionTimeout;
          if sid in table {
            return false, None, Some(ErrorMessage(DuplicateIdMessage));
          }
          table := table[sid := SessionRow(username, role, expiresAt, true)];
          sessions := sessions[sid := CachedSession(username, role, expiresAt)];
          LogAudit(username, "login", "success", Some("Role: " + role));
          return true, Some(sid), None;
      }
    }

    /** `logout`: true exactly when the id is in the cache; the entry is
        then removed, the row deactivated and a `logout` recorded, so the
        session validates at no later time. An id not in the cache changes
        nothing. */
    method Logout(sid: string) returns (ok: bool)
      requires Valid()
      modifies this`sessions, this`table, this`audit
      ensures Valid()
      ensures ok <==> sid in old(sessions)
      ensures ok ==>
        && sessions == old(sessions) - {sid}
        && table == old(table)[sid := old(table)[sid].(active := false)]
        && audit == old(audit) + [AuditEntry(old(sessions)[sid].username, "logout", "success", None)]
      ensures ok ==> Ended(table, sid) && forall t :: TableSession(table, sid, t).None?
      ensures EndedStayEnded(old(table), table)
      ensures !ok ==> sessions == old(sessions) && table == old(table) && audit == old(audit)
    {
      if sid !in sessions {
        return false;
      }
      var username := sessions[sid].username;
      sessions := sessions - {sid};
      // UPDATE admin_sessions SET is_active = 0 WHERE id = ?
      table := table[sid := table[sid].(active := false)];
      LogAudit(username, "logout", "success", None);
      return true;
    }

    /** `validate_session`. Because the cache only holds active rows with
        their data, the answer is always the table's: an active row that
        has not expired at `now`. A cache hit decides without the table,
        and an expired hit is dropped from the cache; on a miss a valid row
        is cached and an expired active row is deactivated. */
    method ValidateSession(sid: string, now: int) returns (valid: bool, data: Option<CachedSession>)
      requires Valid()
      modifies this`sessions, this`table
      ensures Valid()
      ensures data == TableSession(old(table), sid, now)
      ensures valid <==> data.Some?
      ensures EndedStayEnded(old(table), table)
      ensures valid ==> sid in sessions && sessions[sid] == data.value
      ensures sid in old(sessions) ==> table == old(table)
      ensures sid in old(sessions) && now < old(sessions)[sid].expiresAt ==> sessions == old(sessions)
      ensures sid in old(sessions) && now >= old(sessions)[sid].expiresAt ==> sessions == old(sessions) - {sid}
      ensures sid !in old(sessions) && data.Some? ==> sessions == old(sessions)[sid := data.value] && table == old(table)
      ensures sid !in old(sessions) && sid in old(table) && old(table)[sid].active && now >= old(table)[sid].expiresAt ==>
        sessions == old(sessions) && table == old(table)[sid := old(table)[sid].(active := false)]
      ensures sid !in old(sessions) && !(sid in old(table) && old(table)[sid].active) ==>
        sessions == old(sessions) && table == old(table)
    {
      if sid in sessions {
        var session := sessions[sid];
        if now < session.expiresAt {
          return true, Some(session);
        }
        sessions := sessions - {sid};
        return false, None;
      }
      if sid in table && table[sid].active {
        var row := table[sid];
        if now < row.expiresAt {
          var sessionData := CachedSession(row.username, row.role, row.expiresAt);
          sessions := sessions[sid := sessionData];
          return true, Some(sessionData);
        }
        table := table[sid := row.(active := false)];
      }
      return false, None;
    }

    /** `has_permission`: the session validates and its role's
        permissions hold `permission`; an unknown role has none. The state
        changes are those of `validate_session`. */
    method HasPermission(sid: string, permission: string, now: int) returns (allowed: bool)
      requires Valid()
      modifies this`sessions, this`table
      ensures Valid()
      ensures EndedStayEnded(old(table), table)
      ensures allowed <==> TableSession(old(table), sid, now).Some?
                           && permission in PermissionsOf(old(table)[sid].role)
      ensures TableSession(table, sid, now) == TableSession(old(table), sid, now)
      ensures TableSession(old(table), sid, now).Some? ==> sid in sessions
    {
      var valid, session := ValidateSession(sid, now);
      if !valid {
        return false;
      }
      var rolePermissions := PermissionsOf(session.value.role);
      return permission in rolePermissions;
    }

    /** `require_permission`: as `has_permission`, and a refusal records a
        `permission_denied` entry naming the user of the cache entry left
        after validation, or `unknown`. A grant records nothing. */
    method RequirePermission(sid: string, permission: string, now: int) returns (allowed: bool)
      requires Valid()
      modifies this`sessions, this`table, this`audit
      ensures Valid()
      ensures EndedStayEnded(old(table), table)
      ensures allowed <==> TableSession(old(table), sid, now).Some?
                           && permission in PermissionsOf(old(table)[sid].role)
      ensures allowed ==> audit == old(audit)
      ensures !allowed ==> audit == old(audit) + [AuditEntry(
        if sid in sessions then sessions[sid].username else "unknown",
        "permission_denied", "failed", Some("Permission required: " + permission))]
    {
      var ok := HasPermission(sid, permission, now);
      if !ok {
        var who := if sid in sessions then sessions[sid].username else "unknown";
        LogAudit(who, "permission_denied", "failed", Some("Permission required: " + permission));
        return false;
      }
      return true;
    }
  }

  /** A session that logged in is valid until it expires, carries the
      role's permissions, and after `logout` is never valid again: a
      second `login` under the same id fails on the existing row. */
  method SessionLifecycle(c: AdminController, username: string, password: string, sid: string, t0: int, t1: int, t2: int)
    requires c.Valid()
    requires c.lookup(username).Found?
    requires c.checkPassword(password, c.lookup(username).salt, c.lookup(username).hash)
    requires username !in c.permissions
    requires sid !in c.table
    requires t0 <= t1 < t0 + SessionTimeout
    modifies c
  {
    var ok, id, err := c.Login(username, password, SuperAdmin, sid, t0);
    assert ok && id == Some(sid);
    assert c.permissions[username] == SuperAdmin;
    var allowed := c.HasPermission(sid, Database, t1);
    assert allowed;
    var out := c.Logout(sid);
    assert out;
    var again, id2, err2 := c.Login(username, password, SuperAdmin, sid, t2);
    assert !again && Ended(c.table, sid);
    var valid, data := c.ValidateSession(sid, t2);
    assert !valid;
  }
}
