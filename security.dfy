/** The user-details service Spring Security calls at login: it looks the account
    up by username, derives the enabled flag from its status, and grants one
    authority per role level reached. Also the administrator test the services
    apply to the granted authorities. */
module Security {

  import opened Wrappers
  import U = UserEntity
  import opened Tables

  const AUTH_USER := "ROLE_USER"
  const AUTH_ADMIN := "ROLE_ADMIN"
  const AUTH_SUPER_ADMIN := "ROLE_SUPER_ADMIN"

  /** The granted authorities of a role: ROLE_USER always and first, ROLE_ADMIN
      from role 1 on, ROLE_SUPER_ADMIN from role 2 on, each at most once. */
  function Authorities(role: Option<int>): (r: seq<string>)
    ensures |r| >= 1 && r[0] == AUTH_USER
    ensures AUTH_ADMIN in r <==> role.Some? && role.value >= U.ROLE_ADMIN
    ensures AUTH_SUPER_ADMIN in r <==> role.Some? && role.value >= U.ROLE_SUPER_ADMIN
    ensures role.None? ==> r == [AUTH_USER]
    ensures forall i, j :: 0 <= i < j < |r| ==> r[i] != r[j]
    ensures forall a :: a in r ==> a == AUTH_USER || a == AUTH_ADMIN || a == AUTH_SUPER_ADMIN
  {
    [AUTH_USER]
    + (if role.Some? && role.value >= U.ROLE_ADMIN then [AUTH_ADMIN] else [])
    + (if role.Some? && role.value >= U.ROLE_SUPER_ADMIN then [AUTH_SUPER_ADMIN] else [])
  }

  /** getAuthorities: the list built by conditional appends. */
  method GetAuthorities(role: Option<int>) returns (authorities: seq<string>)
    ensures authorities == Authorities(role)
  {
    authorities := [];
    authorities := authorities + [AUTH_USER];
    if role.Some? {
      if role.value >= U.ROLE_ADMIN {
        authorities := authorities + [AUTH_ADMIN];
      }
      if role.value >= U.ROLE_SUPER_ADMIN {
        authorities := authorities + [AUTH_SUPER_ADMIN];
      }
    }
  }

  /** The administrator test: some authority is ROLE_ADMIN or ROLE_SUPER_ADMIN. */
  predicate IsAdmin(authorities: seq<string>)
  {
    exists i :: 0 <= i < |authorities| && (authorities[i] == AUTH_ADMIN || authorities[i] == AUTH_SUPER_ADMIN)
  }

  /** Under the role mapping, a user is an administrator exactly when the role is
      at least ADMIN; a super administrator is always an administrator too. */
  lemma IsAdminIffRole(role: Option<int>)
    ensures IsAdmin(Authorities(role)) <==> role.Some? && role.value >= U.ROLE_ADMIN
    ensures AUTH_SUPER_ADMIN in Authorities(role) ==> AUTH_ADMIN in Authorities(role)
  {
    var r := Authorities(role);
    if role.Some? && role.value >= U.ROLE_ADMIN {
      assert r[1] == AUTH_ADMIN;
    }
  }

  /** The enabled flag: `status == 1`, where unboxing a null status throws. */
  function Enabled(status: Option<int>): (r: Result<bool>)
    ensures r.Err? <==> status.None?
    ensures r.Err? ==> r.error == Uncaught("NullPointerException")
    ensures r.Ok? ==> (r.value <==> status.value == U.STATUS_NORMAL)
  {
    if status.None? then Err(Uncaught("NullPointerException"))
    else Ok(status.value == U.STATUS_NORMAL)
  }

  /** The account Spring Security receives; the password hash is not modelled. */
  datatype Account = Account(username: string, enabled: bool, authorities: seq<string>)

  predicate LiveNamed(u: U.User, username: string)
  {
    !u.deleted && u.username == username
  }

  /** findByUsername over rows from index `i` on: the first live row with the
      username. */
  function FindByUsernameFrom(rows: seq<U.User>, username: string, i: nat): (r: Option<nat>)
    requires i <= |rows|
    ensures r.Some? ==> i <= r.value < |rows| && LiveNamed(rows[r.value], username)
    ensures r.Some? ==> forall k :: i <= k < r.value ==> !LiveNamed(rows[k], username)
    ensures r.None? <==> forall k :: i <= k < |rows| ==> !LiveNamed(rows[k], username)
    decreases |rows| - i
  {
    if i == |rows| then None
    else if LiveNamed(rows[i], username) then Some(i)
    else FindByUsernameFrom(rows, username, i + 1)
  }

  function FindByUsername(rows: seq<U.User>, username: string): Option<nat>
  {
    FindByUsernameFrom(rows, username, 0)
  }

  /** loadUserByUsername: the first live user with the name, enabled iff its
      status is 1 and granted the authorities of its role; a missing user is
      UsernameNotFoundException and a null status a NullPointerException. */
  method LoadUserByUsername(users: UserRepository, username: string) returns (r: Result<Account>)
    ensures FindByUsername(users.rows, username).None? ==> r == Err(Uncaught("UsernameNotFoundException"))
    ensures FindByUsername(users.rows, username).Some? ==>
      var u := users.rows[FindByUsername(users.rows, username).value];
      (u.status.None? ==> r == Err(Uncaught("NullPointerException")))
      && (u.status.Some? ==> r == Ok(Account(username, u.status.value == U.STATUS_NORMAL, Authorities(u.role))))
    ensures r.Ok? ==> exists k :: 0 <= k < |users.rows| && LiveNamed(users.rows[k], r.value.username)
  {
    var found := FindByUsername(users.rows, username);
    if found.None? {
      return Err(Uncaught("UsernameNotFoundException"));
    }
    var user := users.rows[found.value];
    var enabled := Enabled(user.status);
    if enabled.Err? {
      return Err(enabled.error);
    }
    var authorities := GetAuthorities(user.role);
    r := Ok(Account(user.username, enabled.value, authorities));
  }

  /** Logging in as a live account that is enabled and has role 1 or more makes
      the caller an administrator. */
  lemma LoadedAdmin(rows: seq<U.User>, username: string, a: Account)
    requires FindByUsername(rows, username).Some?
    requires var u := rows[FindByUsername(rows, username).value];
      u.status.Some? && a == Account(username, u.status.value == U.STATUS_NORMAL, Authorities(u.role))
    ensures IsAdmin(a.authorities) <==> var u := rows[FindByUsername(rows, username).value];
      u.role.Some? && u.role.value >= U.ROLE_ADMIN
  {
    IsAdminIffRole(rows[FindByUsername(rows, username).value].role);
  }
}
