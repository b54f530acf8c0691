/** The user store under the configured options: creation applies the
    password policy and the unique-email rule, and every user carries the
    lockout state that password sign-in updates. */
module Users {
  import opened Chars
  import opened Optional
  import IdentityStartup
  import PasswordPolicy
  import SignIn

  datatype User = User(email: string, normalizedEmail: string, account: SignIn.AccountState)

  datatype IdentityError =
    | Password(error: PasswordPolicy.PasswordError)
    | InvalidEmail
    | DuplicateEmail

  /** Emails are looked up by their upper-cased form, so two emails that
      differ only in letter case are the same email. */
  function NormalizeEmail(email: string): string {
    ToUpperString(email)
  }

  /** The email-address check: exactly one '@', neither first nor last. */
  predicate IsEmailAddress(s: string) {
    exists k :: 0 < k < |s| - 1 && s[k] == '@' && forall j :: 0 <= j < |s| && j != k ==> s[j] != '@'
  }

  predicate EmailTaken(users: seq<User>, email: string) {
    exists i :: 0 <= i < |users| && users[i].normalizedEmail == NormalizeEmail(email)
  }

  predicate UniqueEmails(users: seq<User>) {
    forall i, j :: 0 <= i < j < |users| ==> users[i].normalizedEmail != users[j].normalizedEmail
  }

  /** The email rules, checked only when unique emails are required: a
      blank or malformed email is invalid; otherwise one already taken is a
      duplicate. */
  function EmailErrors(o: IdentityStartup.UserOptions, users: seq<User>, email: string): seq<IdentityError> {
    if !o.requireUniqueEmail then []
    else if IsBlank(email) || !IsEmailAddress(email) then [InvalidEmail]
    else if EmailTaken(users, email) then [DuplicateEmail]
    else []
  }

  /** Creating a user with a password: the password is validated first and,
      when it fails, its errors are the whole answer; then the email. */
  function CreateErrors(users: seq<User>, email: string, password: string): (r: seq<IdentityError>)
    ensures forall e :: e in r && e.Password? ==> e.error in PasswordPolicy.StoreErrors(password)
    ensures !PasswordPolicy.SatisfiesPolicy(password) ==> r != [] && forall e :: e in r ==> e.Password?
    ensures !PasswordPolicy.SatisfiesPolicy(password) ==>
      && |r| == |PasswordPolicy.StoreErrors(password)|
      && forall i :: 0 <= i < |r| ==> r[i] == Password(PasswordPolicy.StoreErrors(password)[i])
    ensures InvalidEmail in r ==> r == [InvalidEmail] && PasswordPolicy.SatisfiesPolicy(password) && !IsEmailAddress(email)
    ensures DuplicateEmail in r ==> r == [DuplicateEmail] && PasswordPolicy.SatisfiesPolicy(password) && EmailTaken(users, email)
    ensures PasswordPolicy.SatisfiesPolicy(password) && !IsEmailAddress(email) ==> r == [InvalidEmail]
  {
    var pe := PasswordPolicy.StoreErrors(password);
    if pe != [] then seq(|pe|, i requires 0 <= i < |pe| => Password(pe[i]))
    else EmailErrors(IdentityStartup.UserSettings, users, email)
  }

  function NewUser(email: string): User {
    User(email, NormalizeEmail(email), SignIn.NewAccount(IdentityStartup.LockoutSettings))
  }

  /** Creation succeeds exactly when the password meets the policy, the
      email is well formed, and no user has that email in any letter case. */
  lemma CreateSucceedsIff(users: seq<User>, email: string, password: string)
    ensures CreateErrors(users, email, password) == [] <==>
      PasswordPolicy.SatisfiesPolicy(password) && IsEmailAddress(email) && !EmailTaken(users, email)
  {
    if IsEmailAddress(email) {
      var k :| 0 < k < |email| - 1 && email[k] == '@' && forall j :: 0 <= j < |email| && j != k ==> email[j] != '@';
      assert !IsWhiteSpace(email[k]);
    }
    var pe := PasswordPolicy.StoreErrors(password);
    if pe != [] {
      assert |seq(|pe|, i requires 0 <= i < |pe| => Password(pe[i]))| == |pe|;
    }
  }

  /** A successful creation keeps every email unique. */
  lemma CreateKeepsEmailsUnique(users: seq<User>, email: string, password: string)
    requires UniqueEmails(users)
    requires CreateErrors(users, email, password) == []
    ensures UniqueEmails(users + [NewUser(email)])
  {
    CreateSucceedsIff(users, email, password);
    var all := users + [NewUser(email)];
    forall i, j | 0 <= i < j < |all| ensures all[i].normalizedEmail != all[j].normalizedEmail {
      if j == |users| {
        assert all[i] == users[i];
      }
    }
  }

  /** An email that differs from a stored one only in letter case is a
      duplicate. */
  lemma CaseVariantIsDuplicate(users: seq<User>, i: nat, email: string, password: string)
    requires i < |users| && users[i].normalizedEmail == NormalizeEmail(email)
    requires PasswordPolicy.SatisfiesPolicy(password) && IsEmailAddress(email)
    ensures CreateErrors(users, email, password) == [DuplicateEmail]
  {
    var k :| 0 < k < |email| - 1 && email[k] == '@' && forall j :: 0 <= j < |email| && j != k ==> email[j] != '@';
    assert !IsWhiteSpace(email[k]);
  }

  class UserStore {
    var users: seq<User>

    ghost predicate Valid()
      reads this
    {
      && UniqueEmails(users)
      && forall i :: 0 <= i < |users| ==> SignIn.ValidAccount(IdentityStartup.LockoutSettings, users[i].account)
    }

    constructor ()
      ensures Valid() && users == []
    {
      users := [];
    }

    /** FindByEmailAsync: the user whose normalized email matches. */
    method FindByEmail(email: string) returns (r: Option<nat>)
      ensures r.Some? ==> r.value < |users| && users[r.value].normalizedEmail == NormalizeEmail(email)
      ensures r.None? <==> !EmailTaken(users, email)
    {
      var key := NormalizeEmail(email);
      var i := 0;
      while i < |users|
        invariant 0 <= i <= |users|
        invariant forall j :: 0 <= j < i ==> users[j].normalizedEmail != key
      {
        if users[i].normalizedEmail == key {
          return Some(i);
        }
        i := i + 1;
      }
      r := None;
    }

    /** CreateAsync(user, password): on success the new user is appended with
        lockout enabled; on failure the store is unchanged. */
    method Create(email: string, password: string) returns (errors: seq<IdentityError>)
      requires Valid()
      modifies this
      ensures Valid()
      ensures errors == CreateErrors(old(users), email, password)
      ensures users == if errors == [] then old(users) + [NewUser(email)] else old(users)
    {
      var pe := PasswordPolicy.StoreErrors(password);
      if pe != [] {
        return seq(|pe|, i requires 0 <= i < |pe| => Password(pe[i]));
      }
      if IsBlank(email) || !IsEmailAddress(email) {
        return [InvalidEmail];
      }
      var owner := FindByEmail(email);
      if owner.Some? {
        return [DuplicateEmail];
      }
      CreateKeepsEmailsUnique(users, email, password);
      users := users + [NewUser(email)];
      errors := [];
    }

    /** CheckPasswordSignInAsync for the user at `index`: only that user's
        lockout state changes. */
    method CheckPasswordSignIn(index: nat, now: int, passwordMatches: bool, lockoutOnFailure: bool)
      returns (r: SignIn.SignInResult)
      requires Valid() && index < |users|
      modifies this
      ensures Valid()
      ensures |users| == |old(users)|
      ensures (r, users[index].account)
           == SignIn.CheckPasswordSignIn(IdentityStartup.Options, old(users[index].account), now,
                                         passwordMatches, lockoutOnFailure)
      ensures users == old(users)[index := old(users[index]).(account := users[index].account)]
    {
      var u := users[index];
      var (result, account) := SignIn.CheckPasswordSignIn(IdentityStartup.Options, u.account, now,
                                                           passwordMatches, lockoutOnFailure);
      SignIn.SignInKeepsValid(IdentityStartup.Options, u.account, now, passwordMatches, lockoutOnFailure);
      users := users[index := u.(account := account)];
      r := result;
    }
  }
}
