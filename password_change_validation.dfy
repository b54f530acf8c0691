/** The rules that PasswordChangeRequestValidator declares for a password
    change request.

    FluentValidation evaluates every rule of a chain (its default cascade mode
    is "continue") and every chain of the validator, and reports the failures
    in declaration order. The model returns that list of failures. */
module PasswordChangeValidation {
  import opened Chars
  import opened Optional

  datatype PasswordChangeRequest = PasswordChangeRequest(currentPassword: string, newPassword: string)

  datatype Field = CurrentPassword | NewPassword

  /** NotEmpty, MinimumLength(6) and Matches(special-character class). */
  datatype Rule = NotEmpty | MinimumLength | SpecialCharacter

  datatype Failure = Failure(field: Field, rule: Rule)

  /** The position of a rule in the declaration order of a chain. */
  function Rank(r: Rule): nat {
    match r
    case NotEmpty => 0
    case SpecialCharacter => 1
    case MinimumLength => 2
  }

  /** The argument of MinimumLength on both fields. */
  const MinimumPasswordLength: nat := 6

  /** The members of the character class [!@#$%^&*(),.?"':{}|<>]. */
  const SpecialCharacters: string := "!@#$%^&*(),.?\"':{}|<>"

  predicate IsSpecial(c: char) { c in SpecialCharacters }

  /** Some position of s holds a special character. */
  ghost predicate HasSpecial(s: string) {
    exists i :: 0 <= i < |s| && IsSpecial(s[i])
  }

  /** The unanchored regular-expression search: scan s from the left and
      report the first position where the one-character class matches. */
  function FindSpecial(s: string): (r: Option<nat>)
    ensures r.Some? ==> r.value < |s| && IsSpecial(s[r.value])
    ensures r.Some? ==> forall j :: 0 <= j < r.value ==> !IsSpecial(s[j])
    ensures r.None? <==> !HasSpecial(s)
  {
    if s == [] then None
    else if IsSpecial(s[0]) then Some(0)
    else
      match FindSpecial(s[1..])
      case None => assert forall j :: 1 <= j < |s| ==> s[j] == s[1..][j - 1]; None
      case Some(k) => Some(k + 1)
  }

  /** Matches(@"[!@#$%^&*(),.?""':{}|<>]") on a non-null string. */
  predicate MatchesSpecial(s: string) {
    FindSpecial(s).Some?
  }

  /** CurrentPassword: NotEmpty, then MinimumLength(6). A blank password
      counts as empty; no character-class rule applies. */
  function CurrentPasswordFailures(s: string): (r: seq<Rule>)
    ensures r == [] <==> !IsBlank(s) && |s| >= MinimumPasswordLength
    ensures NotEmpty in r <==> IsBlank(s)
    ensures MinimumLength in r <==> |s| < MinimumPasswordLength
    ensures SpecialCharacter !in r
    ensures forall i, j :: 0 <= i < j < |r| ==> Rank(r[i]) < Rank(r[j])
  {
    (if IsBlank(s) then [NotEmpty] else [])
    + (if |s| < MinimumPasswordLength then [MinimumLength] else [])
  }

  /** NewPassword: NotEmpty, then Matches, then MinimumLength(6). */
  function NewPasswordFailures(s: string): (r: seq<Rule>)
    ensures r == [] <==> !IsBlank(s) && |s| >= MinimumPasswordLength && HasSpecial(s)
    ensures NotEmpty in r <==> IsBlank(s)
    ensures SpecialCharacter in r <==> !HasSpecial(s)
    ensures MinimumLength in r <==> |s| < MinimumPasswordLength
    ensures forall i, j :: 0 <= i < j < |r| ==> Rank(r[i]) < Rank(r[j])
  {
    (if IsBlank(s) then [NotEmpty] else [])
    + (if MatchesSpecial(s) then [] else [SpecialCharacter])
    + (if |s| < MinimumPasswordLength then [MinimumLength] else [])
  }

  function Tag(f: Field, rules: seq<Rule>): (r: seq<Failure>)
    ensures |r| == |rules|
    ensures forall i :: 0 <= i < |r| ==> r[i] == Failure(f, rules[i])
    ensures forall x :: x in r ==> x.field == f
    ensures forall x :: Failure(f, x) in r <==> x in rules
  {
    if rules == [] then [] else [Failure(f, rules[0])] + Tag(f, rules[1..])
  }

  /** The validator: the CurrentPassword chain, then the NewPassword chain. */
  function Validate(req: PasswordChangeRequest): (r: seq<Failure>)
    ensures |r| == |CurrentPasswordFailures(req.currentPassword)| + |NewPasswordFailures(req.newPassword)|
    ensures forall x :: Failure(CurrentPassword, x) in r <==> x in CurrentPasswordFailures(req.currentPassword)
    ensures forall x :: Failure(NewPassword, x) in r <==> x in NewPasswordFailures(req.newPassword)
    ensures forall i, j :: 0 <= i < j < |r| && r[j].field == CurrentPassword ==> r[i].field == CurrentPassword
  {
    Tag(CurrentPassword, CurrentPasswordFailures(req.currentPassword))
    + Tag(NewPassword, NewPasswordFailures(req.newPassword))
  }

  predicate IsValid(req: PasswordChangeRequest) {
    Validate(req) == []
  }

  /** The rules a list of failures reports for one field, in order. */
  function RulesFor(fs: seq<Failure>, f: Field): (r: seq<Rule>)
    ensures |r| <= |fs|
  {
    if fs == [] then []
    else (if fs[0].field == f then [fs[0].rule] else []) + RulesFor(fs[1..], f)
  }

  lemma {:induction false} RulesForAppend(a: seq<Failure>, b: seq<Failure>, f: Field)
    ensures RulesFor(a + b, f) == RulesFor(a, f) + RulesFor(b, f)
  {
    if a == [] {
      assert a + b == b;
    } else {
      var ab := a + b;
      assert ab[0] == a[0] && ab[1..] == a[1..] + b;
      RulesForAppend(a[1..], b, f);
      assert RulesFor(ab, f) == (if a[0].field == f then [a[0].rule] else []) + RulesFor(ab[1..], f);
    }
  }

  lemma {:induction false} RulesForTag(g: Field, rules: seq<Rule>, f: Field)
    ensures RulesFor(Tag(g, rules), f) == if g == f then rules else []
  {
    if rules != [] {
      assert Tag(g, rules)[1..] == Tag(g, rules[1..]);
      RulesForTag(g, rules[1..], f);
    }
  }

  /** Each field's failures are exactly what its own chain reports: a
      failure in one field neither hides nor adds failures in the other. */
  lemma FieldsValidatedIndependently(req: PasswordChangeRequest)
    ensures RulesFor(Validate(req), CurrentPassword) == CurrentPasswordFailures(req.currentPassword)
    ensures RulesFor(Validate(req), NewPassword) == NewPasswordFailures(req.newPassword)
  {
    var a := Tag(CurrentPassword, CurrentPasswordFailures(req.currentPassword));
    var b := Tag(NewPassword, NewPasswordFailures(req.newPassword));
    RulesForAppend(a, b, CurrentPassword);
    RulesForAppend(a, b, NewPassword);
    RulesForTag(CurrentPassword, CurrentPasswordFailures(req.currentPassword), CurrentPassword);
    RulesForTag(CurrentPassword, CurrentPasswordFailures(req.currentPassword), NewPassword);
    RulesForTag(NewPassword, NewPasswordFailures(req.newPassword), CurrentPassword);
    RulesForTag(NewPassword, NewPasswordFailures(req.newPassword), NewPassword);
  }

  /** A request is valid iff both fields pass their own rules. */
  lemma ValidIffBothFieldsValid(req: PasswordChangeRequest)
    ensures IsValid(req) <==>
      && !IsBlank(req.currentPassword) && |req.currentPassword| >= MinimumPasswordLength
      && !IsBlank(req.newPassword) && |req.newPassword| >= MinimumPasswordLength
      && HasSpecial(req.newPassword)
  {
    var a := Tag(CurrentPassword, CurrentPasswordFailures(req.currentPassword));
    var b := Tag(NewPassword, NewPasswordFailures(req.newPassword));
    assert |Validate(req)| == |a| + |b|;
  }

  /** Every member of the special class is punctuation: neither a letter,
      nor a digit, nor white space. */
  lemma SpecialIsPunctuation(c: char)
    requires IsSpecial(c)
    ensures !IsLetterOrDigit(c) && !IsWhiteSpace(c)
  {
    var i :| 0 <= i < |SpecialCharacters| && SpecialCharacters[i] == c;
  }

  /** A special character is not white space, so for the new password the
      NotEmpty rule is implied by the Matches rule. */
  lemma SpecialImpliesNotEmpty(s: string)
    requires HasSpecial(s)
    ensures NotEmpty !in NewPasswordFailures(s)
  {
    var i :| 0 <= i < |s| && IsSpecial(s[i]);
    SpecialIsPunctuation(s[i]);
  }

  /** The special-character search is unanchored: a special character at
      any position satisfies it, whatever surrounds it. */
  lemma SpecialSearchIsUnanchored(prefix: string, s: string, suffix: string)
    requires MatchesSpecial(s)
    ensures MatchesSpecial(prefix + s + suffix)
  {
    var k := FindSpecial(s).value;
    var t := prefix + s + suffix;
    assert t[|prefix| + k] == s[k];
  }

  /** The special character may stand at any position of the password. */
  lemma SpecialAtAnyPosition(s: string, i: nat)
    requires i < |s| && IsSpecial(s[i])
    ensures MatchesSpecial(s)
    ensures FindSpecial(s).value <= i
  {
  }

  // Messages reported with each failure.

  function FieldLabel(f: Field): string {
    match f
    case CurrentPassword => "Current password"
    case NewPassword => "New password"
  }

  function RuleText(r: Rule): string {
    match r
    case NotEmpty => " is required."
    case MinimumLength => " must be at least 6 characters long."
    case SpecialCharacter => " must contain at least one special character."
  }

  /** The messages as the validator declares them: the NewPassword
      special-character rule carries the CurrentPassword label. */
  function MessageAsWritten(f: Failure): (m: string)
    ensures f != Failure(NewPassword, SpecialCharacter) ==> m == Message(f)
    ensures f == Failure(NewPassword, SpecialCharacter) ==> FieldLabel(CurrentPassword) <= m
  {
    if f == Failure(NewPassword, SpecialCharacter)
    then FieldLabel(CurrentPassword) + RuleText(SpecialCharacter)
    else FieldLabel(f.field) + RuleText(f.rule)
  }

  /** The messages with each one naming the field it is about. */
  function Message(f: Failure): (m: string)
    ensures FieldLabel(f.field) <= m
  {
    FieldLabel(f.field) + RuleText(f.rule)
  }

  /** The messages a request's failures produce, in order. */
  function Messages(req: PasswordChangeRequest): (ms: seq<string>)
    ensures |ms| == |Validate(req)|
    ensures forall i :: 0 <= i < |ms| ==> FieldLabel(Validate(req)[i].field) <= ms[i]
    ensures forall i :: 0 <= i < |ms| ==> ms[i] == Message(Validate(req)[i])
  {
    var fs := Validate(req);
    seq(|fs|, i requires 0 <= i < |fs| => Message(fs[i]))
  }

  /** A password made of letters and digits only has no special character. */
  lemma LettersAndDigitsHaveNoSpecial(s: string)
    requires forall i :: 0 <= i < |s| ==> IsLetterOrDigit(s[i])
    ensures !HasSpecial(s)
  {
    forall i | 0 <= i < |s| ensures !IsSpecial(s[i]) {
      if IsSpecial(s[i]) { SpecialIsPunctuation(s[i]); }
    }
  }

  /** A long enough, non-blank new password without a special character
      fails the special-character rule alone. */
  lemma OnlySpecialMissing(s: string)
    requires !IsBlank(s) && |s| >= MinimumPasswordLength && !HasSpecial(s)
    ensures NewPasswordFailures(s) == [SpecialCharacter]
  {
    assert !MatchesSpecial(s);
  }

  lemma SevenLettersHaveNoSpecial()
    ensures !HasSpecial("abcdefg")
  {
    var s := "abcdefg";
    assert forall i :: 0 <= i < |s| ==> IsLower(s[i]);
    LettersAndDigitsHaveNoSpecial(s);
  }

  /** A request whose new password is seven letters fails on the
      special-character rule alone. */
  lemma SevenLettersFailOnlySpecialRule()
    ensures Validate(PasswordChangeRequest("secret1", "abcdefg")) == [Failure(NewPassword, SpecialCharacter)]
  {
    var current, next := "secret1", "abcdefg";
    assert !IsWhiteSpace(current[0]) && !IsWhiteSpace(next[0]);
    SevenLettersHaveNoSpecial();
    OnlySpecialMissing(next);
    assert CurrentPasswordFailures(current) == [];
    assert Tag(NewPassword, [SpecialCharacter]) == [Failure(NewPassword, SpecialCharacter)];
  }

  /** The message written for that failure names the current password,
      not the new one. */
  lemma MessageAsWrittenMislabelsNewPassword()
    ensures !(FieldLabel(NewPassword) <= MessageAsWritten(Failure(NewPassword, SpecialCharacter)))
    ensures FieldLabel(NewPassword) <= Message(Failure(NewPassword, SpecialCharacter))
  {
    var m := MessageAsWritten(Failure(NewPassword, SpecialCharacter));
    assert m[0] == FieldLabel(CurrentPassword)[0] == 'C';
    assert FieldLabel(NewPassword)[0] == 'N';
  }
}
