/** What the identity service configures at start-up: the options given to
    AddIdentity and, in the Development environment, the seeding of the
    default roles. */
module IdentityStartup {
  import Roles

  datatype PasswordOptions = PasswordOptions(
    requireDigit: bool,
    requireLowercase: bool,
    requireUppercase: bool,
    requireNonAlphanumeric: bool,
    requiredLength: nat,
    requiredUniqueChars: nat)

  /** Time spans are whole seconds. */
  datatype LockoutOptions = LockoutOptions(
    defaultLockoutTimeSpan: nat,
    maxFailedAccessAttempts: nat,
    allowedForNewUsers: bool)

  datatype UserOptions = UserOptions(requireUniqueEmail: bool)

  datatype SignInOptions = SignInOptions(requireConfirmedEmail: bool)

  datatype IdentityOptions = IdentityOptions(
    password: PasswordOptions,
    lockout: LockoutOptions,
    user: UserOptions,
    signIn: SignInOptions)

  const SecondsPerMinute: nat := 60

  /** Password rules. RequiredUniqueChars is not set, so it keeps the
      library default of 1. */
  const PasswordSettings: PasswordOptions := PasswordOptions(
    requireDigit := true,
    requireLowercase := true,
    requireUppercase := true,
    requireNonAlphanumeric := true,
    requiredLength := 8,
    requiredUniqueChars := 1)

  /** Five failed attempts lock an account for five minutes; new users are
      subject to lockout. */
  const LockoutSettings: LockoutOptions := LockoutOptions(
    defaultLockoutTimeSpan := 5 * SecondsPerMinute,
    maxFailedAccessAttempts := 5,
    allowedForNewUsers := true)

  const UserSettings: UserOptions := UserOptions(requireUniqueEmail := true)

  const SignInSettings: SignInOptions := SignInOptions(requireConfirmedEmail := false)

  const Options: IdentityOptions := IdentityOptions(PasswordSettings, LockoutSettings, UserSettings, SignInSettings)

  /** The roles seeded at start-up. */
  const DefaultRoles: seq<string> := ["Admin", "Customer"]

  /** Seeding: in the Development environment only, ensure the default
      roles exist. The store refuses the names in `rejected`; outside
      Development the role store is not touched. */
  method SeedDefaultRoles(roles: Roles.RoleService, isDevelopment: bool, rejected: set<string>)
    requires roles.Valid()
    modifies roles
    ensures roles.Valid()
    ensures roles.roles == if isDevelopment then Roles.EnsureAll(old(roles.roles), DefaultRoles, rejected)
                           else old(roles.roles)
    ensures roles.calls == old(roles.calls)
                           + if isDevelopment then Roles.EnsureCalls(old(roles.roles), DefaultRoles, rejected) else []
    ensures Roles.Elems(roles.roles)
            == Roles.Elems(old(roles.roles)) + if isDevelopment then {"Admin", "Customer"} - rejected else {}
    ensures isDevelopment && rejected == {} ==> "Admin" in roles.roles && "Customer" in roles.roles
    ensures old(roles.roles) <= roles.roles
  {
    if isDevelopment {
      roles.EnsureRolesCreated(DefaultRoles, rejected);
      SeedingAddsDefaultRoles(old(roles.roles), rejected);
    } else {
      assert roles.calls + [] == roles.calls;
    }
  }

  /** Seeding adds exactly the default roles the store does not refuse,
      keeps the roles that were there in place, and, when the store refuses
      nothing, leaves both default roles present. */
  lemma SeedingAddsDefaultRoles(existing: seq<string>, rejected: set<string>)
    requires Roles.Distinct(existing)
    ensures var after := Roles.EnsureAll(existing, DefaultRoles, rejected);
      && existing <= after
      && Roles.Elems(after) == Roles.Elems(existing) + ({"Admin", "Customer"} - rejected)
      && (rejected == {} ==> "Admin" in after && "Customer" in after)
  {
    var after := Roles.EnsureAll(existing, DefaultRoles, rejected);
    Roles.EnsureAllElems(existing, DefaultRoles, rejected);
    Roles.EnsureAllExtends(existing, DefaultRoles, rejected);
    assert Roles.Elems(DefaultRoles) == {"Admin", "Customer"};
    if rejected == {} {
      assert "Admin" in Roles.Elems(after) && "Customer" in Roles.Elems(after);
    }
  }

  /** Seeding an empty store twice leaves exactly the two default roles. */
  lemma SeedingTwiceGivesTwoRoles()
    ensures Roles.EnsureAll(Roles.EnsureAll([], DefaultRoles, {}), DefaultRoles, {}) == DefaultRoles
  {
    Roles.EnsureAllIdempotent([], DefaultRoles, {});
    assert "Admin" != "Customer";
    assert Roles.EnsureAll([], DefaultRoles, {}) == DefaultRoles;
  }
}
