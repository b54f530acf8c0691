# OrderFlowClase identity core in Dafny

A model of the identity service of OrderFlowClase, with proofs about it. The service is an ASP.NET Core Identity application, and the model covers four of its parts:

- **Password-change request validation** (`PasswordChangeRequestValidator`). The model gives the FluentValidation rule chains of both fields, in declaration order, with the cascade left at Continue, so every rule of a field reports. Module `PasswordChangeValidation`.
- **The Identity options** that the service passes to `AddIdentity`, and the store behaviour they switch on. Module `IdentityStartup`.
  - The password policy: module `PasswordPolicy`.
  - Lockout bookkeeping on password sign-in: module `SignIn`.
  - Unique, case-insensitive emails when a user is created: module `Users`.
- **The role directory** behind `IRoleService`: create, exists, ensure-all and list over a duplicate-free list of role names (module `Roles`). It records the store calls that the unit tests observe. In the Development environment, start-up seeds the two default roles through it.
- **How the request validator and the password policy relate** (module `PolicyComparison`). Each accepts a password the other refuses.

The modules are:

- `Chars` holds the ASCII character classes.
- `Optional` holds an option type.
- `PasswordChangeValidation`, `IdentityStartup`, `PasswordPolicy`, `SignIn`, `Users`, `Roles` and `PolicyComparison` are described above.

Conventions:

- Time is whole seconds, as an `int`.
- The lockout end is inclusive: an account is locked while the lockout end is at or after now.
- The password hasher's verdict, the store's create outcome, the clock and whether the host runs in the Development environment are inputs.

## Model

| member | source | states |
|---|---|---|
| PasswordChangeValidation.CurrentPasswordFailures | OrderFlowClase.API.Identity/Validations/Users/PasswordChangeRequestValidator.cs:10-12 | The current password fails NotEmpty exactly when it is blank and MinimumLength exactly when it is shorter than 6. It never fails the special-character rule, and it passes exactly when it is non-blank and at least 6 long. Each failed rule is reported once, NotEmpty before MinimumLength. |
| PasswordChangeValidation.NewPasswordFailures | OrderFlowClase.API.Identity/Validations/Users/PasswordChangeRequestValidator.cs:14-17 | The new password fails NotEmpty iff it is blank, fails the special-character rule iff no position holds a character of the class, and fails MinimumLength iff it is shorter than 6. It passes iff all three hold. Each failed rule is reported once, in the order NotEmpty, special character, MinimumLength. |
| PasswordChangeValidation.FindSpecial | OrderFlowClase.API.Identity/Validations/Users/PasswordChangeRequestValidator.cs:16 | The unanchored search returns the first position holding a special character. It returns none exactly when no position does. |
| PasswordChangeValidation.SpecialSearchIsUnanchored | OrderFlowClase.API.Identity/Validations/Users/PasswordChangeRequestValidator.cs:16 | A password that matches still matches with any prefix and suffix added. |
| PasswordChangeValidation.SpecialAtAnyPosition | OrderFlowClase.API.Identity/Validations/Users/PasswordChangeRequestValidator.cs:16 | A special character at any position makes the password match. The reported position is at or before it. |
| PasswordChangeValidation.SpecialIsPunctuation | OrderFlowClase.API.Identity/Validations/Users/PasswordChangeRequestValidator.cs:16 | Every character of the class is neither a letter, nor a digit, nor white space. |
| PasswordChangeValidation.LettersAndDigitsHaveNoSpecial | OrderFlowClase.API.Identity/Validations/Users/PasswordChangeRequestValidator.cs:16 | A password of letters and digits only never matches the class. |
| PasswordChangeValidation.SpecialImpliesNotEmpty | OrderFlowClase.API.Identity/Validations/Users/PasswordChangeRequestValidator.cs:15-16 | A new password holding a special character never fails NotEmpty. |
| PasswordChangeValidation.FieldsValidatedIndependently | OrderFlowClase.API.Identity/Validations/Users/PasswordChangeRequestValidator.cs:8-18 | The failures reported for each field are exactly that field's own chain, in order. A failure in one field neither hides nor adds failures in the other. |
| PasswordChangeValidation.ValidIffBothFieldsValid | OrderFlowClase.API.Identity/Validations/Users/PasswordChangeRequestValidator.cs:8-18 | A request is valid iff both of the following hold. Both passwords are non-blank and at least 6 long. The new password holds a special character. |
| PasswordChangeValidation.SevenLettersFailOnlySpecialRule | OrderFlowClase.API.Identity/Validations/Users/PasswordChangeRequestValidator.cs:10-17 | Current password "secret1" with new password "abcdefg" fails on the new password's special-character rule alone. |
| PasswordChangeValidation.Validate | OrderFlowClase.API.Identity/Validations/Users/PasswordChangeRequestValidator.cs:8-18 | The failures are those of the current-password chain followed by those of the new-password chain. Each field's failures are exactly its own chain's rules, and every current-password failure precedes every new-password failure. |
| PasswordChangeValidation.MessageAsWritten | OrderFlowClase.API.Identity/Validations/Users/PasswordChangeRequestValidator.cs:11-17 | The messages as declared. Every failure but the new password's special-character rule gets the corrected message. That one begins with the current password's label. |
| PasswordChangeValidation.Message | OrderFlowClase.API.Identity/Validations/Users/PasswordChangeRequestValidator.cs:11-17 | Every message begins with the label of the field that failed. This is the corrected message. |
| PasswordChangeValidation.Messages | OrderFlowClase.API.Identity/Validations/Users/PasswordChangeRequestValidator.cs:10-17 | Message i is the corrected message of failure i, so there is one message per failure, in failure order, and each begins with its own field's label. The message as written for line 16 does not; see Findings. |
| PasswordChangeValidation.MessageAsWrittenMislabelsNewPassword | OrderFlowClase.API.Identity/Validations/Users/PasswordChangeRequestValidator.cs:16 | The message as declared for the new password's special-character rule does not begin with "New password". The corrected one does. |
| IdentityStartup.SeedDefaultRoles | OrderFlowClase.API.Identity/Program.cs:142-161 | Outside Development, the roles and the store calls are unchanged. In Development, the roles and calls are those of ensure-all of "Admin" and "Customer". The role set grows by exactly the default roles the store does not refuse, and both exist when it refuses none. The old roles stay a prefix and the list stays duplicate-free. |
| IdentityStartup.SeedingAddsDefaultRoles | OrderFlowClase.API.Identity/Program.cs:160 | Seeding adds exactly the default roles the store does not refuse, {"Admin", "Customer"} minus the refused names, and keeps the existing roles as a prefix. When the store refuses nothing, both roles are present. |
| IdentityStartup.SeedingTwiceGivesTwoRoles | OrderFlowClase.API.Identity/Program.cs:160 | Seeding an empty store that refuses nothing twice leaves exactly ["Admin", "Customer"]. |
| PasswordPolicy.PasswordErrors | OrderFlowClase.API.Identity/Program.cs:78-82 | Each password error is reported iff its option is on and its rule fails. The rules are: too short or blank, no non-alphanumeric, no digit, no lower, no upper, too few distinct characters. The list is empty iff every enabled rule holds. |
| PasswordPolicy.PasswordErrorsOnlyListed | OrderFlowClase.API.Identity/Program.cs:78-82 | No error other than the six rule errors is ever reported. |
| PasswordPolicy.PasswordErrorsNoRepeats | OrderFlowClase.API.Identity/Program.cs:78-82 | No error is reported twice. |
| PasswordPolicy.PolicyIffFiveRules | OrderFlowClase.API.Identity/Program.cs:78-82 | A password meets the configured policy iff all of these hold. It has at least 8 characters. It has a digit, a lower-case letter, an upper-case letter, and a character that is none of these. |
| PasswordPolicy.OnlyTooShort | OrderFlowClase.API.Identity/Program.cs:82 | A password that meets every rule but length gets exactly one error, too short (8). |
| PasswordPolicy.OnlyMissingDigit | OrderFlowClase.API.Identity/Program.cs:78 | A long enough password lacking only a digit gets exactly one error, requires digit. |
| PasswordPolicy.OnlyMissingLower | OrderFlowClase.API.Identity/Program.cs:79 | A long enough password lacking only a lower-case letter gets exactly one error, requires lower. |
| PasswordPolicy.OnlyMissingUpper | OrderFlowClase.API.Identity/Program.cs:80 | A long enough password lacking only an upper-case letter gets exactly one error, requires upper. |
| PasswordPolicy.OnlyMissingNonAlphanumeric | OrderFlowClase.API.Identity/Program.cs:81 | A long enough password lacking only a non-alphanumeric character gets exactly one error, requires non-alphanumeric. |
| PasswordPolicy.BlankCountsAsTooShort | OrderFlowClase.API.Identity/Program.cs:82 | Eight spaces count as too short. |
| SignIn.AccessFailed | OrderFlowClase.API.Identity/Program.cs:85-86 | Below the maximum, a failed access increments the counter and keeps the lockout end. The failure that reaches the maximum (5) resets the counter and sets the lockout end to now plus the span. The enabled and confirmed flags never change. |
| SignIn.CheckPasswordSignIn | OrderFlowClase.API.Identity/Program.cs:84-93 | The result is NotAllowed iff the user may not sign in, and Succeeded iff the user may sign in, is not locked and gave the right password. Success only resets the counter. A locked account is refused with its state unchanged, and a locked-out result leaves the account locked. The state changes only for an allowed, unlocked attempt that succeeds or records its failure. |
| SignIn.SignInKeepsValid | OrderFlowClase.API.Identity/Program.cs:84-87 | Every password sign-in keeps the counter below the maximum and keeps the flags. It succeeds iff the user may sign in, is not locked and gave the right password. Only a recorded wrong password moves the lockout end. |
| SignIn.NewUsersSubjectToLockout | OrderFlowClase.API.Identity/Program.cs:87 | A new user has lockout enabled, a zero counter and is never locked out. |
| SignIn.NeverNotAllowed | OrderFlowClase.API.Identity/Program.cs:93 | With email confirmation not required, no sign-in is refused as not allowed. |
| SignIn.FifthFailureLocksOut | OrderFlowClase.API.Identity/Program.cs:85-86 | After four recorded failures, a fifth wrong password returns locked out. It sets the lockout end to now + 300 s and resets the counter. |
| SignIn.LockoutLastsFiveMinutes | OrderFlowClase.API.Identity/Program.cs:85 | Locked at t, an account is locked exactly through t plus the configured span, which is 300 s. |
| SignIn.LockedOutRefusesCorrectPassword | OrderFlowClase.API.Identity/Program.cs:84-87 | While locked, even the correct password is refused and the state is unchanged. |
| SignIn.SucceedsAfterLockoutEnds | OrderFlowClase.API.Identity/Program.cs:85 | Once the lockout end has passed, the correct password succeeds and resets the counter. |
| SignIn.FailuresBelowThresholdAreCounted | OrderFlowClase.API.Identity/Program.cs:86 | Wrong passwords that stay below the threshold are each counted and each reported as failed. The lockout end is untouched. |
| SignIn.FiveFailuresLockNewUser | OrderFlowClase.API.Identity/Program.cs:85-87 | A new user's five wrong passwords give failed four times, then locked out. The user is locked through the fifth attempt + 300 s and no longer. |
| Users.CreateErrors | OrderFlowClase.API.Identity/Program.cs:78-90 | A password that fails the policy yields exactly the policy's errors, all of them, in the policy's order, and nothing else. An invalid-email or duplicate-email error comes alone, and only for a password that meets the policy. An invalid-email error comes only with a malformed email, and a duplicate-email error only with a taken email. For a password that meets the policy, a malformed email yields exactly the invalid-email error: the format is checked before uniqueness. |
| Users.CreateSucceedsIff | OrderFlowClase.API.Identity/Program.cs:78-90 | Creating a user succeeds iff three things hold. The password meets the policy. The email is well formed. No user holds the same email in any letter case. |
| Users.CreateKeepsEmailsUnique | OrderFlowClase.API.Identity/Program.cs:90 | A successful creation keeps normalized emails unique. |
| Users.CaseVariantIsDuplicate | OrderFlowClase.API.Identity/Program.cs:90 | An email that differs from a stored one only in letter case is rejected as a duplicate. |
| Users.UserStore.FindByEmail | OrderFlowClase.API.Identity/Program.cs:90 | It returns a user whose normalized email matches, and returns none iff no user's does. |
| Users.UserStore.Create | OrderFlowClase.API.Identity/Program.cs:75-94 | The errors are those of the policy, then the email rules. On success the new user, subject to lockout, is appended. On failure nothing changes. Emails stay unique and counters stay valid. |
| Users.UserStore.CheckPasswordSignIn | OrderFlowClase.API.Identity/Program.cs:84-93 | It applies one password sign-in to one user, and only that user's lockout state changes. |
| Roles.AfterCreate | OrderFlowClase.API.Identity/Services/IRoleService.cs:7 | A create keeps the names duplicate-free. It adds the name iff the name was absent and the store accepted it. |
| Roles.RoleService.CreateRole | OrderFlowClase.Api.Identity.Tests/RoleServiceTests.cs:27-80 | It returns true iff the role was absent and the store's create succeeded. It makes one existence check, and a create call only when the role is absent. A present role is left alone. |
| Roles.RoleService.RoleExists | OrderFlowClase.Api.Identity.Tests/RoleServiceTests.cs:87-116 | It returns true iff the role is stored, and makes one existence check. |
| Roles.RoleService.EnsureRolesCreated | OrderFlowClase.API.Identity/Services/IRoleService.cs:9 | The roles and the calls made become those of ensure-all, name by name from the left. The list stays duplicate-free. An empty list makes no call. |
| Roles.RoleService.GetAllRoles | OrderFlowClase.Api.Identity.Tests/RoleServiceTests.cs:200-235 | It returns every stored role exactly once, and no other name. |
| Roles.EnsureAll | OrderFlowClase.API.Identity/Services/IRoleService.cs:9 | Ensure-all keeps the old roles as a prefix and adds at most one role per requested name. |
| Roles.EnsureCalls | OrderFlowClase.Api.Identity.Tests/RoleServiceTests.cs:123-193 | Ensure-all makes at least one and at most two store calls per requested name, each naming a requested name. An empty list makes none. |
| Roles.EnsureAllExtends | OrderFlowClase.API.Identity/Services/IRoleService.cs:9 | Ensure-all keeps the existing roles as a prefix and the list duplicate-free. |
| Roles.EnsureAllElems | OrderFlowClase.Api.Identity.Tests/RoleServiceTests.cs:123-179 | After ensure-all, the role set is the old set plus every requested name the store did not refuse. |
| Roles.EnsureAllNoOp | OrderFlowClase.Api.Identity.Tests/RoleServiceTests.cs:143-156 | When every requested name exists or is refused, ensure-all changes nothing. |
| Roles.EnsureAllIdempotent | OrderFlowClase.API.Identity/Services/IRoleService.cs:9 | A second ensure-all with the same names leaves the roles as the first left them. |
| Roles.EnsureCreatesOnlyMissing | OrderFlowClase.Api.Identity.Tests/RoleServiceTests.cs:159-179 | Ensure-all asks the store to create exactly the requested names that were absent, and never one that was present. |
| Roles.EnsureAppendsCreated | OrderFlowClase.Api.Identity.Tests/RoleServiceTests.cs:123-140 | When the store accepts every create, ensure-all appends exactly the names it asked the store to create, in order. |
| Roles.EnsureCreatesEachOnce | OrderFlowClase.Api.Identity.Tests/RoleServiceTests.cs:123-140 | When the store accepts every create, each missing name is created exactly once, even when it is requested twice. |
| PolicyComparison.ValidatorSpecialImpliesNonAlphanumeric | OrderFlowClase.API.Identity/Validations/Users/PasswordChangeRequestValidator.cs:16 | Any password that matches the special-character rule meets the policy's non-alphanumeric rule. |
| PolicyComparison.ShortNewPasswordPassesValidatorOnly | OrderFlowClase.API.Identity/Validations/Users/PasswordChangeRequestValidator.cs:17 | A new password the validator accepts with fewer than 8 characters is refused by the store as too short. |
| PolicyComparison.SixCharacterExample | OrderFlowClase.API.Identity/Validations/Users/PasswordChangeRequestValidator.cs:14-17 | The validator accepts "Abc1!x" as a new password. The store refuses it for length alone. |
| PolicyComparison.PolicyAcceptsWithoutSpecial | OrderFlowClase.API.Identity/Validations/Users/PasswordChangeRequestValidator.cs:16 | The store accepts "Abcdef1~". The validator refuses it for the special-character rule alone. |
| PasswordChangeValidation.OnlySpecialMissing | OrderFlowClase.API.Identity/Validations/Users/PasswordChangeRequestValidator.cs:14-17 | A non-blank new password of at least 6 characters without a special character fails that rule alone. |
| PolicyComparison.PolicyWithSpecialPassesValidator | OrderFlowClase.API.Identity/Validations/Users/PasswordChangeRequestValidator.cs:14-17 | A password that meets the store policy and holds a special character passes the validator as a new password. |

## Left out

- Only `Program.cs:75-94` configures the password policy, lockout, sign-in and email rules. The behaviour behind them comes from ASP.NET Core Identity: its PasswordValidator, UserValidator, UserManager.AccessFailedAsync and SignInManager.CheckPasswordSignInAsync. That code is not part of this repository, so the model states the library's rules as the options switch them on.
- RoleService.cs is not part of this model. `Roles.RoleService` follows the interface and what its unit tests observe on the role manager.
- Character classes are ASCII. Non-ASCII letters, digits and white space are out of scope, and emails are upper-cased over ASCII letters only. There is no Unicode case mapping or normalization.
- The request validator sees non-null strings. A null field is not modelled. FluentValidation reports only NotEmpty for it, because MinimumLength and Matches accept null, whereas the empty string also fails MinimumLength and, for the new password, Matches.
- PasswordChangeValidation.CurrentPasswordFailures: lengths count Unicode scalar values, whereas .NET's `string.Length` counts UTF-16 code units. A password with characters outside the Basic Multilingual Plane is therefore shorter in the model, and may fail `MinimumLength(6)` where the service accepts it.
- PasswordChangeValidation.NewPasswordFailures: the same length difference applies to `MinimumLength(6)` on the new password.
- PasswordPolicy.PasswordErrors: the same length difference applies to `RequiredLength = 8`.
- IdentityStartup.SeedDefaultRoles: the Development check at `Program.cs:142` is the `isDevelopment` input. The migration that runs before seeding is out of scope.
- Role names are compared exactly. RoleManager's name normalization is out of scope.
- Roles.RoleService.EnsureRolesCreated: a create the store refuses is ignored, as the interface returns nothing. The refused names are an input.
- SignIn.CheckPasswordSignIn: a correct password resets the failed-access counter but leaves the stored lockout end in place, as ResetAccessFailedCountAsync does. Because the old end has already passed, the account is not locked either way. An account whose lockout end has passed is unlocked whether or not the field is cleared.
- SignIn.CheckPasswordSignIn: whether the password matches and whether failures are recorded are inputs. The hasher and the caller that picks `lockoutOnFailure` are not part of this model.
- Out of scope:
  - token issuance and JWT settings
  - registration and login endpoints
  - UserService and password change
  - user names
  - two-factor sign-in
  - migrations
  - the API versioning setup
- Asynchrony and concurrent requests for the same user are out of scope. Each operation is one atomic step.

## Findings

| source | as written | input that shows it | evidently intended | confidence | as-written member | corrected member |
|---|---|---|---|---|---|---|
| OrderFlowClase.API.Identity/Validations/Users/PasswordChangeRequestValidator.cs:16 | The special-character rule on NewPassword reports "Current password must contain at least one special character." | current password "secret1", new password "abcdefg": the only failure is on the new password, and its message names the current password | "New password must contain at least one special character." | high, not executed | PasswordChangeValidation.MessageAsWrittenMislabelsNewPassword | PasswordChangeValidation.Message |
