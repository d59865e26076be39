/**
 * `validatePassword` (ordered rule checks, first failing message wins) and the label that
 * `checkPasswordStrength` chooses.
 */
module PasswordRules {
  import opened Text

  datatype Check = Check(isValid: bool, message: string)

  const TooShort := "Password must be at least 8 characters long."
  const NoUpper := "Password must contain at least one uppercase letter."
  const NoLower := "Password must contain at least one lowercase letter."
  const NoDigit := "Password must contain at least one number."
  const Accepted := "Strong password"

  /** The characters of the class `[!@#$%^&*(),.?":{}|<>]`. */
  const Specials := "!@#$%^&*(),.?\":{}|<>"

  predicate HasUpper(s: string) { exists i | 0 <= i < |s| :: 'A' <= s[i] <= 'Z' }
  predicate HasLower(s: string) { exists i | 0 <= i < |s| :: 'a' <= s[i] <= 'z' }
  predicate HasDigit(s: string) { exists i | 0 <= i < |s| :: '0' <= s[i] <= '9' }
  predicate HasSpecial(s: string) { exists i | 0 <= i < |s| :: s[i] in Specials }

  /** The rules in the order the validator checks them. */
  datatype Rule = MinLength | Upper | Lower | Digit

  const Rules: seq<Rule> := [MinLength, Upper, Lower, Digit]

  predicate Satisfies(s: string, rule: Rule) {
    match rule
    case MinLength => Utf16Length(s) >= 8
    case Upper => HasUpper(s)
    case Lower => HasLower(s)
    case Digit => HasDigit(s)
  }

  function Complaint(rule: Rule): string {
    match rule
    case MinLength => TooShort
    case Upper => NoUpper
    case Lower => NoLower
    case Digit => NoDigit
  }

  /** A password every rule accepts. */
  predicate MeetsRules(s: string) {
    forall k | 0 <= k < |Rules| :: Satisfies(s, Rules[k])
  }

  /** `validatePassword(password)`. */
  function ValidatePassword(password: string): (r: Check)
    ensures r.isValid <==> MeetsRules(password)
    ensures r.isValid ==> r.message == Accepted
    ensures !r.isValid ==>
      exists k | 0 <= k < |Rules| ::
        && !Satisfies(password, Rules[k])
        && r.message == Complaint(Rules[k])
        && forall j | 0 <= j < k :: Satisfies(password, Rules[j])
  {
    if Utf16Length(password) < 8 then
      assert !Satisfies(password, Rules[0]);
      Check(false, TooShort)
    else if !HasUpper(password) then
      assert Satisfies(password, Rules[0]) && !Satisfies(password, Rules[1]);
      Check(false, NoUpper)
    else if !HasLower(password) then
      assert Satisfies(password, Rules[0]) && Satisfies(password, Rules[1]) && !Satisfies(password, Rules[2]);
      Check(false, NoLower)
    else if !HasDigit(password) then
      assert Satisfies(password, Rules[0]) && Satisfies(password, Rules[1]) && Satisfies(password, Rules[2]);
      assert !Satisfies(password, Rules[3]);
      Check(false, NoDigit)
    else
      Check(true, Accepted)
  }

  /** The four complaints are distinct, so the message names exactly one failing rule. */
  lemma ComplaintNamesRule(s: string, rule: Rule)
    requires !ValidatePassword(s).isValid && ValidatePassword(s).message == Complaint(rule)
    ensures !Satisfies(s, rule)
    ensures forall j | 0 <= j < |Rules| && Rules[j] != rule :: Complaint(Rules[j]) != Complaint(rule)
  {
    var k :| 0 <= k < |Rules| && !Satisfies(s, Rules[k]) && Complaint(rule) == Complaint(Rules[k]);
    assert Rules[k] == rule;
  }

  /** A valid password is at least eight UTF-16 units and has an ASCII upper, lower and digit. */
  lemma ValidMeansRules(s: string)
    ensures ValidatePassword(s).isValid <==>
      Utf16Length(s) >= 8 && HasUpper(s) && HasLower(s) && HasDigit(s)
  {
    if Utf16Length(s) >= 8 && HasUpper(s) && HasLower(s) && HasDigit(s) {
      assert forall k | 0 <= k < |Rules| :: Satisfies(s, Rules[k]);
    } else {
      assert !Satisfies(s, Rules[0]) || !Satisfies(s, Rules[1]) || !Satisfies(s, Rules[2]) || !Satisfies(s, Rules[3]);
    }
  }

  /** The label `checkPasswordStrength` shows. */
  datatype Strength = Blank | Weak | Strong | VeryStrong

  /** The classification inside `checkPasswordStrength(password)`. */
  function PasswordStrength(password: string): (r: Strength)
    ensures r == Blank <==> password == []
    ensures r == Weak <==> password != [] && !MeetsRules(password)
    ensures r == VeryStrong <==> MeetsRules(password) && Utf16Length(password) >= 12 && HasSpecial(password)
    ensures r == Strong <==> MeetsRules(password) && !(Utf16Length(password) >= 12 && HasSpecial(password))
  {
    if password == [] then
      assert !Satisfies(password, Rules[0]);
      Blank
    else if !ValidatePassword(password).isValid then
      Weak
    else if Utf16Length(password) >= 12 && HasSpecial(password) then
      VeryStrong
    else
      Strong
  }

  /** The text shown next to the password field for each label. */
  /** The indicator text for each label. */
  function Caption(strength: Strength): (r: string)
    ensures r == "" <==> strength == Blank
    ensures strength == Strong ==> r == Accepted
  {
    match strength
    case Blank => ""
    case Weak => "Weak password"
    case Strong => "Strong password"
    case VeryStrong => "Very strong password"
  }
}
