/** The password policy the user store applies: ASP.NET Core Identity's
    password validator run with the configured password options. */
module PasswordPolicy {
  import opened Chars
  import IdentityStartup

  /** The library's error codes for passwords. */
  datatype PasswordError =
    | PasswordTooShort(length: nat)
    | PasswordRequiresNonAlphanumeric
    | PasswordRequiresDigit
    | PasswordRequiresLower
    | PasswordRequiresUpper
    | PasswordRequiresUniqueChars(uniqueChars: nat)

  predicate AnyDigit(s: string) { exists i :: 0 <= i < |s| && IsDigit(s[i]) }

  predicate AnyLower(s: string) { exists i :: 0 <= i < |s| && IsLower(s[i]) }

  predicate AnyUpper(s: string) { exists i :: 0 <= i < |s| && IsUpper(s[i]) }

  predicate AnyNonAlphanumeric(s: string) { exists i :: 0 <= i < |s| && !IsLetterOrDigit(s[i]) }

  function DistinctChars(s: string): set<char> {
    set i | 0 <= i < |s| :: s[i]
  }

  /** Every unmet rule, in the library's order: length (a blank password
      counts as too short), non-alphanumeric, digit, lower, upper, distinct
      characters. */
  function PasswordErrors(o: IdentityStartup.PasswordOptions, s: string): (r: seq<PasswordError>)
    ensures PasswordTooShort(o.requiredLength) in r <==> IsBlank(s) || |s| < o.requiredLength
    ensures PasswordRequiresNonAlphanumeric in r <==> o.requireNonAlphanumeric && !AnyNonAlphanumeric(s)
    ensures PasswordRequiresDigit in r <==> o.requireDigit && !AnyDigit(s)
    ensures PasswordRequiresLower in r <==> o.requireLowercase && !AnyLower(s)
    ensures PasswordRequiresUpper in r <==> o.requireUppercase && !AnyUpper(s)
    ensures PasswordRequiresUniqueChars(o.requiredUniqueChars) in r <==>
      o.requiredUniqueChars >= 1 && |DistinctChars(s)| < o.requiredUniqueChars
    ensures r == [] <==>
      && !(IsBlank(s) || |s| < o.requiredLength)
      && !(o.requireNonAlphanumeric && !AnyNonAlphanumeric(s))
      && !(o.requireDigit && !AnyDigit(s))
      && !(o.requireLowercase && !AnyLower(s))
      && !(o.requireUppercase && !AnyUpper(s))
      && !(o.requiredUniqueChars >= 1 && |DistinctChars(s)| < o.requiredUniqueChars)
  {
    LeadingErrors(o, s) + TrailingErrors(o, s)
  }

  /** The length, non-alphanumeric and digit rules. */
  function LeadingErrors(o: IdentityStartup.PasswordOptions, s: string): (r: seq<PasswordError>)
    ensures forall e :: e in r ==>
      e == PasswordTooShort(o.requiredLength) || e == PasswordRequiresNonAlphanumeric || e == PasswordRequiresDigit
    ensures PasswordTooShort(o.requiredLength) in r <==> IsBlank(s) || |s| < o.requiredLength
    ensures PasswordRequiresNonAlphanumeric in r <==> o.requireNonAlphanumeric && !AnyNonAlphanumeric(s)
    ensures PasswordRequiresDigit in r <==> o.requireDigit && !AnyDigit(s)
  {
    (if IsBlank(s) || |s| < o.requiredLength then [PasswordTooShort(o.requiredLength)] else [])
    + (if o.requireNonAlphanumeric && !AnyNonAlphanumeric(s) then [PasswordRequiresNonAlphanumeric] else [])
    + (if o.requireDigit && !AnyDigit(s) then [PasswordRequiresDigit] else [])
  }

  /** The lower-case, upper-case and distinct-character rules. */
  function TrailingErrors(o: IdentityStartup.PasswordOptions, s: string): (r: seq<PasswordError>)
    ensures forall e :: e in r ==>
      e == PasswordRequiresLower || e == PasswordRequiresUpper || e == PasswordRequiresUniqueChars(o.requiredUniqueChars)
    ensures PasswordRequiresLower in r <==> o.requireLowercase && !AnyLower(s)
    ensures PasswordRequiresUpper in r <==> o.requireUppercase && !AnyUpper(s)
    ensures PasswordRequiresUniqueChars(o.requiredUniqueChars) in r <==>
      o.requiredUniqueChars >= 1 && |DistinctChars(s)| < o.requiredUniqueChars
  {
    (if o.requireLowercase && !AnyLower(s) then [PasswordRequiresLower] else [])
    + (if o.requireUppercase && !AnyUpper(s) then [PasswordRequiresUpper] else [])
    + (if o.requiredUniqueChars >= 1 && |DistinctChars(s)| < o.requiredUniqueChars
       then [PasswordRequiresUniqueChars(o.requiredUniqueChars)] else [])
  }

  /** The six errors the options can produce. */
  function PossibleErrors(o: IdentityStartup.PasswordOptions): seq<PasswordError> {
    [PasswordTooShort(o.requiredLength), PasswordRequiresNonAlphanumeric, PasswordRequiresDigit,
     PasswordRequiresLower, PasswordRequiresUpper, PasswordRequiresUniqueChars(o.requiredUniqueChars)]
  }

  /** Nothing but the six listed errors is ever reported. */
  lemma PasswordErrorsOnlyListed(o: IdentityStartup.PasswordOptions, s: string)
    ensures forall e :: e in PasswordErrors(o, s) ==> e in PossibleErrors(o)
  {
    var a, b := LeadingErrors(o, s), TrailingErrors(o, s);
    var all := PossibleErrors(o);
    forall e | e in a + b ensures e in all {
      if e in a {
        assert e == all[0] || e == all[1] || e == all[2];
      } else {
        assert e == all[3] || e == all[4] || e == all[5];
      }
    }
  }

  /** No error is reported twice. */
  lemma PasswordErrorsNoRepeats(o: IdentityStartup.PasswordOptions, s: string)
    ensures var r := PasswordErrors(o, s); forall i, j :: 0 <= i < j < |r| ==> r[i] != r[j]
  {
    var a, b := LeadingErrors(o, s), TrailingErrors(o, s);
    var r := a + b;
    forall i, j | 0 <= i < j < |r| ensures r[i] != r[j] {
      if j < |a| {
        LeadingErrorsDistinct(o, s, i, j);
      } else if i >= |a| {
        TrailingErrorsDistinct(o, s, i - |a|, j - |a|);
      } else {
        assert r[i] == a[i] && r[j] == b[j - |a|];
        LeadingTrailingDiffer(o, s, a[i], b[j - |a|]);
      }
    }
  }

  lemma LeadingTrailingDiffer(o: IdentityStartup.PasswordOptions, s: string, x: PasswordError, y: PasswordError)
    requires x in LeadingErrors(o, s) && y in TrailingErrors(o, s)
    ensures x != y
  {
    assert x.PasswordTooShort? || x.PasswordRequiresNonAlphanumeric? || x.PasswordRequiresDigit?;
    assert y.PasswordRequiresLower? || y.PasswordRequiresUpper? || y.PasswordRequiresUniqueChars?;
  }

  lemma LeadingErrorsDistinct(o: IdentityStartup.PasswordOptions, s: string, i: int, j: int)
    requires 0 <= i < j < |LeadingErrors(o, s)|
    ensures LeadingErrors(o, s)[i] != LeadingErrors(o, s)[j]
  {
  }

  lemma TrailingErrorsDistinct(o: IdentityStartup.PasswordOptions, s: string, i: int, j: int)
    requires 0 <= i < j < |TrailingErrors(o, s)|
    ensures TrailingErrors(o, s)[i] != TrailingErrors(o, s)[j]
  {
  }

  /** The policy of the user store. */
  function StoreErrors(s: string): seq<PasswordError> {
    PasswordErrors(IdentityStartup.PasswordSettings, s)
  }

  predicate SatisfiesPolicy(s: string) {
    StoreErrors(s) == []
  }

  lemma NonEmptyHasDistinctChar(s: string)
    requires |s| > 0
    ensures |DistinctChars(s)| >= 1
  {
    assert s[0] in DistinctChars(s);
  }

  /** The five configured rules decide the policy: at least 8 characters, a
      digit, a lower-case letter, an upper-case letter and a character that
      is neither. The blank and distinct-character checks never add a
      further condition. */
  lemma PolicyIffFiveRules(s: string)
    ensures SatisfiesPolicy(s) <==>
      && |s| >= 8 && AnyDigit(s) && AnyLower(s) && AnyUpper(s) && AnyNonAlphanumeric(s)
  {
    var r := StoreErrors(s);
    if |s| >= 8 && AnyDigit(s) && AnyLower(s) && AnyUpper(s) && AnyNonAlphanumeric(s) {
      var i :| 0 <= i < |s| && IsDigit(s[i]);
      LetterOrDigitNotBlank(s, i);
      NonEmptyHasDistinctChar(s);
    } else {
      assert r != [] by {
        if !AnyDigit(s) { assert PasswordRequiresDigit in r; }
        else if !AnyLower(s) { assert PasswordRequiresLower in r; }
        else if !AnyUpper(s) { assert PasswordRequiresUpper in r; }
        else if !AnyNonAlphanumeric(s) { assert PasswordRequiresNonAlphanumeric in r; }
        else { assert PasswordTooShort(8) in r; }
      }
    }
  }

  /** A password that meets every rule but the length rule is reported as
      too short, and for nothing else. */
  lemma OnlyTooShort(s: string)
    requires |s| < 8 && AnyDigit(s) && AnyLower(s) && AnyUpper(s) && AnyNonAlphanumeric(s)
    ensures StoreErrors(s) == [PasswordTooShort(8)]
  {
    NonEmptyHasDistinctChar(s);
  }

  /** A password of sufficient length missing only a digit is reported for
      that alone. */
  lemma OnlyMissingDigit(s: string)
    requires |s| >= 8 && !AnyDigit(s) && AnyLower(s) && AnyUpper(s) && AnyNonAlphanumeric(s)
    ensures StoreErrors(s) == [PasswordRequiresDigit]
  {
    var i :| 0 <= i < |s| && IsLower(s[i]);
    LetterOrDigitNotBlank(s, i);
    NonEmptyHasDistinctChar(s);
  }

  lemma OnlyMissingLower(s: string)
    requires |s| >= 8 && AnyDigit(s) && !AnyLower(s) && AnyUpper(s) && AnyNonAlphanumeric(s)
    ensures StoreErrors(s) == [PasswordRequiresLower]
  {
    var i :| 0 <= i < |s| && IsDigit(s[i]);
    LetterOrDigitNotBlank(s, i);
    NonEmptyHasDistinctChar(s);
  }

  lemma OnlyMissingUpper(s: string)
    requires |s| >= 8 && AnyDigit(s) && AnyLower(s) && !AnyUpper(s) && AnyNonAlphanumeric(s)
    ensures StoreErrors(s) == [PasswordRequiresUpper]
  {
    var i :| 0 <= i < |s| && IsDigit(s[i]);
    LetterOrDigitNotBlank(s, i);
    NonEmptyHasDistinctChar(s);
  }

  lemma OnlyMissingNonAlphanumeric(s: string)
    requires |s| >= 8 && AnyDigit(s) && AnyLower(s) && AnyUpper(s) && !AnyNonAlphanumeric(s)
    ensures StoreErrors(s) == [PasswordRequiresNonAlphanumeric]
  {
    var i :| 0 <= i < |s| && IsDigit(s[i]);
    LetterOrDigitNotBlank(s, i);
    NonEmptyHasDistinctChar(s);
  }

  /** Eight spaces are long enough but blank, so they count as too short. */
  lemma BlankCountsAsTooShort()
    ensures PasswordTooShort(8) in StoreErrors("        ")
  {
    var s := "        ";
    assert forall i :: 0 <= i < |s| ==> s[i] == ' ';
    assert IsBlank(s);
  }
}
