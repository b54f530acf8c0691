/** How the password-change request validator relates to the password
    policy of the user store. Each accepts a password the other refuses:
    the validator's minimum length is weaker, and its special-character
    class is narrower than "not a letter or digit". */
module PolicyComparison {
  import opened Chars
  import opened PasswordChangeValidation
  import opened PasswordPolicy

  /** A password that matches the special-character rule meets the
      policy's non-alphanumeric rule: every special character is
      non-alphanumeric. */
  lemma ValidatorSpecialImpliesNonAlphanumeric(s: string)
    requires MatchesSpecial(s)
    ensures AnyNonAlphanumeric(s)
    ensures PasswordRequiresNonAlphanumeric !in StoreErrors(s)
  {
    var i := FindSpecial(s).value;
    SpecialIsPunctuation(s[i]);
  }

  /** A new password of 6 or 7 characters that the validator accepts is
      refused by the store for its length. */
  lemma ShortNewPasswordPassesValidatorOnly(s: string)
    requires NewPasswordFailures(s) == []
    requires |s| < 8
    ensures |s| >= MinimumPasswordLength
    ensures !SatisfiesPolicy(s)
    ensures PasswordTooShort(8) in StoreErrors(s)
  {
  }

  /** A concrete such password: six characters, one of each class. The
      validator accepts it; the store rejects it for its length alone. */
  lemma SixCharacterExample()
    ensures NewPasswordFailures("Abc1!x") == []
    ensures StoreErrors("Abc1!x") == [PasswordTooShort(8)]
  {
    var s := "Abc1!x";
    assert IsSpecial(s[4]);
    assert IsUpper(s[0]) && IsLower(s[1]) && IsDigit(s[3]) && !IsLetterOrDigit(s[4]);
    OnlyTooShort(s);
  }

  /** The policy accepts passwords the validator refuses: '~' is
      non-alphanumeric but not in the special class. */
  lemma PolicyAcceptsWithoutSpecial()
    ensures SatisfiesPolicy("Abcdef1~")
    ensures NewPasswordFailures("Abcdef1~") == [SpecialCharacter]
  {
    TildeWordMeetsPolicy();
    TildeWordHasNoSpecial();
    var s := "Abcdef1~";
    assert !IsWhiteSpace(s[0]);
    OnlySpecialMissing(s);
  }

  lemma TildeWordMeetsPolicy()
    ensures SatisfiesPolicy("Abcdef1~")
  {
    var s := "Abcdef1~";
    assert IsUpper(s[0]) && IsLower(s[1]) && IsDigit(s[6]) && !IsLetterOrDigit(s[7]);
    PolicyIffFiveRules(s);
  }

  lemma TildeWordHasNoSpecial()
    ensures !HasSpecial("Abcdef1~")
  {
    var prefix := "Abcdef1";
    assert forall i :: 0 <= i < |prefix| ==> IsLetterOrDigit(prefix[i]);
    LettersAndDigitsHaveNoSpecial(prefix);
    NoSpecialExtends(prefix, '~');
    assert prefix + ['~'] == "Abcdef1~";
  }

  /** Appending a character outside the special class adds no special
      character. */
  lemma NoSpecialExtends(s: string, c: char)
    requires !HasSpecial(s) && !IsSpecial(c)
    ensures !HasSpecial(s + [c])
  {
    var t := s + [c];
    forall i | 0 <= i < |t| ensures !IsSpecial(t[i]) {
      if i < |s| { assert t[i] == s[i]; }
    }
  }

  /** A password the store accepts and that holds a special character is
      also accepted by the validator as a new password. */
  lemma PolicyWithSpecialPassesValidator(s: string)
    requires SatisfiesPolicy(s)
    requires HasSpecial(s)
    ensures NewPasswordFailures(s) == []
  {
    PolicyIffFiveRules(s);
    SpecialImpliesNotEmpty(s);
  }
}
