/**
 * The access control evaluator: whether a caller may act on an account
 * (itself, or any account when it is an admin) and whether it may use the
 * admin-only listing.
 */
module Access {
  import opened Types

  /** The authority string that marks an administrator. */
  const AdminAuthority: string := "ROLE_ADMIN"

  /** The caller holds the admin authority among its granted authorities. */
  predicate IsAdmin(c: Caller) {
    AdminAuthority in c.authorities
  }

  /** The authorities granted to an account of role `r`: its role name prefixed with "ROLE_". */
  function Authorities(r: Role): (a: seq<string>)
    ensures |a| == 1 && a[0] == "ROLE_" + RoleName(r)
  {
    ["ROLE_" + RoleName(r)]
  }

  /** A caller whose authorities come from an account's role is an admin exactly when that role is ADMIN. */
  lemma AuthoritiesGrantAdmin(name: string, r: Role)
    ensures IsAdmin(Caller(name, Authorities(r))) <==> r == ADMIN
  {
    match r
    case USER =>
      assert |Authorities(r)[0]| != |AdminAuthority|;
    case ADMIN =>
      assert Authorities(r)[0] == AdminAuthority;
  }

  /** Self-or-admin: passes when the caller is an admin or is the target account itself. */
  function CheckAccess(c: Caller, target: User): (r: Outcome)
    ensures r.Pass? <==> IsAdmin(c) || target.username == c.name
    ensures r.Fail? ==> r.error == AccessDenied
  {
    if !IsAdmin(c) && target.username != c.name then Fail(AccessDenied) else Pass
  }

  /** Admin-only: passes exactly when the caller is an admin. */
  function CheckAdminAccess(c: Caller): (r: Outcome)
    ensures r.Pass? <==> IsAdmin(c)
    ensures r.Fail? ==> r.error == AdminAccessRequired
  {
    if !IsAdmin(c) then Fail(AdminAccessRequired) else Pass
  }

  /** Passing the admin-only check implies passing the self-or-admin check for every account. */
  lemma AdminAccessImpliesAccess(c: Caller, target: User)
    requires CheckAdminAccess(c).Pass?
    ensures CheckAccess(c, target).Pass?
  {
  }
}
