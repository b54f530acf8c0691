/** The per-user lockout bookkeeping that the lockout options switch on: a
    failed-attempt counter and a lockout end, evaluated at each password
    sign-in.

    A password check at time `now` (whole seconds):
    - a user who may not sign in yet (unconfirmed email while confirmation
      is required) is refused;
    - a locked-out user is refused whatever the password;
    - a correct password succeeds and resets the counter;
    - a wrong password, when failures are recorded, increments the counter;
      the attempt that reaches the maximum sets the lockout end to now plus
      the lockout span and resets the counter.
    Whether the password matches is decided by the password hasher and is
    an input here. */
module SignIn {
  import opened Optional
  import IdentityStartup

  datatype AccountState = AccountState(
    accessFailedCount: nat,
    lockoutEnd: Option<int>,
    lockoutEnabled: bool,
    emailConfirmed: bool)

  datatype SignInResult = Succeeded | Failed | LockedOut | NotAllowed

  /** The lockout state of a user when it is created. */
  function NewAccount(o: IdentityStartup.LockoutOptions): AccountState {
    AccountState(0, None, o.allowedForNewUsers, false)
  }

  /** Locked out while lockout is enabled and the lockout end is now or
      later. */
  predicate IsLockedOut(a: AccountState, now: int) {
    a.lockoutEnabled && a.lockoutEnd.Some? && a.lockoutEnd.value >= now
  }

  predicate CanSignIn(o: IdentityStartup.SignInOptions, a: AccountState) {
    !o.requireConfirmedEmail || a.emailConfirmed
  }

  /** The counter stays below the maximum between attempts. */
  predicate ValidAccount(o: IdentityStartup.LockoutOptions, a: AccountState) {
    a.accessFailedCount < o.maxFailedAccessAttempts
  }

  /** Record one failed access. */
  function AccessFailed(o: IdentityStartup.LockoutOptions, a: AccountState, now: int): (b: AccountState)
    ensures b.lockoutEnabled == a.lockoutEnabled && b.emailConfirmed == a.emailConfirmed
    ensures a.accessFailedCount + 1 < o.maxFailedAccessAttempts ==>
      b.accessFailedCount == a.accessFailedCount + 1 && b.lockoutEnd == a.lockoutEnd
    ensures a.accessFailedCount + 1 >= o.maxFailedAccessAttempts ==>
      b.accessFailedCount == 0 && b.lockoutEnd == Some(now + o.defaultLockoutTimeSpan)
  {
    var count := a.accessFailedCount + 1;
    if count < o.maxFailedAccessAttempts then a.(accessFailedCount := count)
    else a.(lockoutEnd := Some(now + o.defaultLockoutTimeSpan), accessFailedCount := 0)
  }

  /** One password sign-in: the result and the new state. */
  function CheckPasswordSignIn(o: IdentityStartup.IdentityOptions, a: AccountState, now: int,
                               passwordMatches: bool, lockoutOnFailure: bool): (res: (SignInResult, AccountState))
    ensures res.0 == NotAllowed <==> !CanSignIn(o.signIn, a)
    ensures res.0 == Succeeded <==> CanSignIn(o.signIn, a) && !IsLockedOut(a, now) && passwordMatches
    ensures res.0 == Succeeded ==> res.1 == a.(accessFailedCount := 0)
    ensures IsLockedOut(a, now) ==> res.0 in {NotAllowed, LockedOut} && res.1 == a
    ensures res.0 == LockedOut ==> IsLockedOut(res.1, now)
    ensures res.1 != a ==> CanSignIn(o.signIn, a) && !IsLockedOut(a, now) && (passwordMatches || lockoutOnFailure)
  {
    if !CanSignIn(o.signIn, a) then (NotAllowed, a)
    else if IsLockedOut(a, now) then (LockedOut, a)
    else if passwordMatches then (Succeeded, a.(accessFailedCount := 0))
    else if lockoutOnFailure then
      var b := AccessFailed(o.lockout, a, now);
      (if IsLockedOut(b, now) then LockedOut else Failed, b)
    else (Failed, a)
  }

  /** Every sign-in keeps the counter below the maximum, and only a failed
      attempt at an unlocked account changes the lockout end. */
  lemma SignInKeepsValid(o: IdentityStartup.IdentityOptions, a: AccountState, now: int, ok: bool, onFailure: bool)
    requires o.lockout.maxFailedAccessAttempts >= 1
    requires ValidAccount(o.lockout, a)
    ensures var (r, b) := CheckPasswordSignIn(o, a, now, ok, onFailure);
      && ValidAccount(o.lockout, b)
      && b.lockoutEnabled == a.lockoutEnabled && b.emailConfirmed == a.emailConfirmed
      && (r == Succeeded <==> CanSignIn(o.signIn, a) && !IsLockedOut(a, now) && ok)
      && (b.lockoutEnd != a.lockoutEnd ==> !ok && onFailure && (r == LockedOut <==> a.lockoutEnabled))
  {
  }

  // Properties under the configured options.

  /** New users are created with lockout enabled and a clean record. */
  lemma NewUsersSubjectToLockout()
    ensures NewAccount(IdentityStartup.LockoutSettings).lockoutEnabled
    ensures ValidAccount(IdentityStartup.LockoutSettings, NewAccount(IdentityStartup.LockoutSettings))
    ensures forall t :: !IsLockedOut(NewAccount(IdentityStartup.LockoutSettings), t)
  {
  }

  /** Email confirmation is not required, so no user is refused for it. */
  lemma NeverNotAllowed(a: AccountState, now: int, ok: bool, onFailure: bool)
    ensures CheckPasswordSignIn(IdentityStartup.Options, a, now, ok, onFailure).0 != NotAllowed
  {
  }

  /** With four failures recorded, a fifth wrong password locks the account
      for five minutes from now and resets the counter. */
  lemma FifthFailureLocksOut(a: AccountState, now: int)
    requires a.accessFailedCount == 4 && a.lockoutEnabled && !IsLockedOut(a, now)
    ensures CheckPasswordSignIn(IdentityStartup.Options, a, now, false, true)
         == (LockedOut, a.(accessFailedCount := 0, lockoutEnd := Some(now + 300)))
  {
  }

  /** Once locked at `lockedAt`, the account is locked exactly until five
      minutes later, inclusive. */
  lemma LockoutLastsFiveMinutes(a: AccountState, lockedAt: int, t: int)
    requires a.lockoutEnabled && a.lockoutEnd == Some(lockedAt + IdentityStartup.LockoutSettings.defaultLockoutTimeSpan)
    requires t >= lockedAt
    ensures IsLockedOut(a, t) <==> t <= lockedAt + IdentityStartup.LockoutSettings.defaultLockoutTimeSpan
    ensures IdentityStartup.LockoutSettings.defaultLockoutTimeSpan == 300
  {
  }

  /** While locked out, even the correct password is refused and nothing
      changes. */
  lemma LockedOutRefusesCorrectPassword(a: AccountState, now: int, onFailure: bool)
    requires IsLockedOut(a, now)
    ensures CheckPasswordSignIn(IdentityStartup.Options, a, now, true, onFailure) == (LockedOut, a)
  {
  }

  /** After the lockout end has passed, the correct password succeeds and
      resets the counter. */
  lemma SucceedsAfterLockoutEnds(a: AccountState, now: int, onFailure: bool)
    requires a.lockoutEnd.Some? && a.lockoutEnd.value < now
    ensures CheckPasswordSignIn(IdentityStartup.Options, a, now, true, onFailure)
         == (Succeeded, a.(accessFailedCount := 0))
  {
  }

  /** Wrong passwords tried at the given times, one after another, with
      failures recorded: the results and the final state. */
  function FailedAttempts(a: AccountState, times: seq<int>): (seq<SignInResult>, AccountState)
    decreases |times|
  {
    if times == [] then ([], a)
    else
      var (r, b) := CheckPasswordSignIn(IdentityStartup.Options, a, times[0], false, true);
      var (rs, c) := FailedAttempts(b, times[1..]);
      ([r] + rs, c)
  }

  /** Failures that stay below the threshold are all counted, none is lost,
      each is reported as Failed, and the lockout end is untouched. */
  lemma {:induction false} FailuresBelowThresholdAreCounted(a: AccountState, times: seq<int>)
    requires a.accessFailedCount + |times| < IdentityStartup.LockoutSettings.maxFailedAccessAttempts
    requires forall i :: 0 <= i < |times| ==> !IsLockedOut(a, times[i])
    ensures FailedAttempts(a, times).1 == a.(accessFailedCount := a.accessFailedCount + |times|)
    ensures forall i :: 0 <= i < |FailedAttempts(a, times).0| ==> FailedAttempts(a, times).0[i] == Failed
    ensures |FailedAttempts(a, times).0| == |times|
    decreases |times|
  {
    if times != [] {
      var b := a.(accessFailedCount := a.accessFailedCount + 1);
      assert CheckPasswordSignIn(IdentityStartup.Options, a, times[0], false, true) == (Failed, b);
      assert forall i :: 0 <= i < |times[1..]| ==> times[1..][i] == times[i + 1];
      FailuresBelowThresholdAreCounted(b, times[1..]);
    }
  }

  /** A new user who enters a wrong password five times is locked out by
      the fifth attempt until five minutes after it. */
  lemma FiveFailuresLockNewUser(t1: int, t2: int, t3: int, t4: int, t5: int)
    ensures var (rs, b) := FailedAttempts(NewAccount(IdentityStartup.LockoutSettings), [t1, t2, t3, t4, t5]);
      && rs == [Failed, Failed, Failed, Failed, LockedOut]
      && b.accessFailedCount == 0
      && b.lockoutEnd == Some(t5 + 300)
      && IsLockedOut(b, t5 + 300) && !IsLockedOut(b, t5 + 301)
  {
    var a := NewAccount(IdentityStartup.LockoutSettings);
    var first := [t1, t2, t3, t4];
    FailuresBelowThresholdAreCounted(a, first);
    FailedAttemptsAppend(a, first, [t5]);
    var (rs4, a4) := FailedAttempts(a, first);
    assert a4.accessFailedCount == 4 && a4.lockoutEnd.None?;
    assert rs4 == [Failed, Failed, Failed, Failed];
    assert [t1, t2, t3, t4, t5] == first + [t5];
  }

  /** Attempts split at any point: the second run starts from the state the
      first one left. */
  lemma {:induction false} FailedAttemptsAppend(a: AccountState, xs: seq<int>, ys: seq<int>)
    ensures var (rs, b) := FailedAttempts(a, xs);
            var (qs, c) := FailedAttempts(b, ys);
            FailedAttempts(a, xs + ys) == (rs + qs, c)
    decreases |xs|
  {
    if xs == [] {
      assert xs + ys == ys;
      var (qs, c) := FailedAttempts(a, ys);
      assert [] + qs == qs;
    } else {
      var (r, b) := CheckPasswordSignIn(IdentityStartup.Options, a, xs[0], false, true);
      assert (xs + ys)[0] == xs[0] && (xs + ys)[1..] == xs[1..] + ys;
      FailedAttemptsAppend(b, xs[1..], ys);
      var (rs, b2) := FailedAttempts(b, xs[1..]);
      var (qs, c) := FailedAttempts(b2, ys);
      assert [r] + (rs + qs) == ([r] + rs) + qs;
    }
  }
}
