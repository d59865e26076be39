/**
 * `validateSignupForm`: a field-to-message map built by successive checks, and an `isValid`
 * flag cleared by every check that records a message. Also the copy of the form's entries
 * into a plain object that precedes it in `handleSignup`.
 */
module SignupForm {
  import opened Optional
  import opened Text
  import EmailFormat
  import PhoneFormat
  import PasswordRules

  /** The submitted fields by name; a field the browser did not submit is absent. */
  type FormData = map<string, string>

  /** The keys the error map can carry. */
  datatype Field =
    | FirstName | LastName | Email | Phone | Password | ConfirmPassword
    | Organization | UserType | Experience | Terms

  /** The property name of each key, in the form data and in the error object. */
  function Name(f: Field): string {
    match f
    case FirstName => "firstName"
    case LastName => "lastName"
    case Email => "email"
    case Phone => "phone"
    case Password => "password"
    case ConfirmPassword => "confirmPassword"
    case Organization => "organization"
    case UserType => "userType"
    case Experience => "experience"
    case Terms => "terms"
  }

  /** The checkbox the terms check reads; its error is reported under `terms`. */
  const TermsAccepted := "termsAccepted"

  const RequiredFields: seq<Field> :=
    [FirstName, LastName, Email, Password, ConfirmPassword, Organization, UserType, Experience]

  /** The required fields no later check looks at again. */
  const NameFields: set<Field> := {FirstName, LastName, Organization, UserType, Experience}

  const Required := "This field is required."
  const BadEmail := "Please enter a valid email address."
  const BadPhone := "Please enter a valid phone number."
  const Mismatch := "Passwords do not match."
  const TermsNeeded := "You must accept the Terms of Service and Privacy Policy."

  /** `m[key]`, with None for `undefined`: used on the form data and on the error map. */
  function Lookup<K, V>(m: map<K, V>, key: K): Option<V> {
    if key in m then Some(m[key]) else None
  }

  /** `data[key]` is truthy: present and not the empty string. */
  predicate Filled(data: FormData, key: string) {
    key in data && data[key] != ""
  }

  /**
   * `!data[key] || data[key].trim() === ''`; a value trims to nothing exactly when it is all
   * white space (`TrimEmptyIff`).
   */
  predicate Blank(data: FormData, key: string) {
    !Filled(data, key) || AllSpace(data[key])
  }

  datatype Validation = Validation(isValid: bool, errors: map<Field, string>)

  /** Record `message` for `field` and clear the flag. */
  function Flag(v: Validation, field: Field, message: string): Validation {
    Validation(false, v.errors[field := message])
  }

  /** The `requiredFields.forEach` loop, run from validation state `v`; `blank` holds the blank fields. */
  function CheckRequired(fields: seq<Field>, blank: set<Field>, v: Validation): (r: Validation)
    ensures r.errors.Keys == v.errors.Keys + (set f | f in fields && f in blank)
    ensures forall f | f in r.errors :: r.errors[f] == (if f in fields && f in blank then Required else v.errors[f])
    ensures r.isValid <==> v.isValid && forall f | f in fields :: f !in blank
  {
    if |fields| == 0 then v
    else
      var next := if fields[0] in blank then Flag(v, fields[0], Required) else v;
      var r := CheckRequired(fields[1..], blank, next);
      assert forall f :: f in fields <==> f == fields[0] || f in fields[1..];
      r
  }

  /** Every check passes: the form `handleSignup` goes on to store. */
  predicate Acceptable(data: FormData) {
    && (forall f | f in RequiredFields :: !Blank(data, Name(f)))
    && Name(Email) in data && EmailFormat.ValidateEmailFormat(data[Name(Email)])
    && Name(Password) in data && PasswordRules.ValidatePassword(data[Name(Password)]).isValid
    && Lookup(data, Name(Password)) == Lookup(data, Name(ConfirmPassword))
    && (Filled(data, Name(Phone)) ==> PhoneFormat.ValidatePhoneFormat(data[Name(Phone)]))
    && Filled(data, TermsAccepted)
  }

  predicate EmailMalformed(data: FormData) {
    Filled(data, Name(Email)) && !EmailFormat.ValidateEmailFormat(data[Name(Email)])
  }

  predicate PhoneMalformed(data: FormData) {
    Filled(data, Name(Phone)) && !PhoneFormat.ValidatePhoneFormat(data[Name(Phone)])
  }

  /** The message of `validatePassword` when a non-empty password fails it. */
  function WeakPassword(data: FormData): Option<string> {
    if Filled(data, Name(Password)) && !PasswordRules.ValidatePassword(data[Name(Password)]).isValid then
      Some(PasswordRules.ValidatePassword(data[Name(Password)]).message)
    else None
  }

  predicate PasswordsDiffer(data: FormData) {
    Lookup(data, Name(Password)) != Lookup(data, Name(ConfirmPassword))
  }

  /** What each check of `validateSignupForm` finds in a form. */
  datatype Verdicts = Verdicts(
    blank: set<Field>,
    emailMalformed: bool,
    phoneMalformed: bool,
    weakPassword: Option<string>,
    passwordsDiffer: bool,
    termsMissing: bool)

  function Judge(data: FormData): Verdicts {
    Verdicts(
      (set f | f in RequiredFields && Blank(data, Name(f))),
      EmailMalformed(data),
      PhoneMalformed(data),
      WeakPassword(data),
      PasswordsDiffer(data),
      !Filled(data, TermsAccepted))
  }

  /** The checks after the required-field loop, in source order, each updating the map and the flag. */
  function LaterChecks(j: Verdicts, v0: Validation): Validation {
    var v1 := if j.emailMalformed then Flag(v0, Email, BadEmail) else v0;
    var v2 := if j.phoneMalformed then Flag(v1, Phone, BadPhone) else v1;
    var v3 := if j.weakPassword.Some? then Flag(v2, Password, j.weakPassword.value) else v2;
    var v4 := if j.passwordsDiffer then Flag(v3, ConfirmPassword, Mismatch) else v3;
    if j.termsMissing then Flag(v4, Terms, TermsNeeded) else v4
  }

  /** All checks of `validateSignupForm`, from an empty map and a set flag. */
  function RunChecks(j: Verdicts): Validation {
    LaterChecks(j, CheckRequired(RequiredFields, j.blank, Validation(true, map[])))
  }

  /** The message a later check puts on field `f` over the message `earlier` it had before. */
  function Overriding(j: Verdicts, f: Field, earlier: Option<string>): Option<string> {
    match f
    case Email => if j.emailMalformed then Some(BadEmail) else earlier
    case Phone => if j.phoneMalformed then Some(BadPhone) else earlier
    case Password => if j.weakPassword.Some? then j.weakPassword else earlier
    case ConfirmPassword => if j.passwordsDiffer then Some(Mismatch) else earlier
    case Terms => if j.termsMissing then Some(TermsNeeded) else earlier
    case _ => earlier
  }

  /**
   * Field by field, the message the form should show: the last check that objects to a
   * field decides its message, and a field no check objects to has none.
   */
  function Expected(j: Verdicts, f: Field): Option<string> {
    Overriding(j, f, if f in RequiredFields && f in j.blank then Some(Required) else None)
  }

  /** The message each field of `data` should carry, if any. */
  function ExpectedError(data: FormData, f: Field): Option<string> {
    Expected(Judge(data), f)
  }

  /** `validateSignupForm(data)`. */
  function ValidateSignupForm(data: FormData): (v: Validation)
    ensures v.isValid <==> v.errors == map[]
    ensures v.isValid <==> Acceptable(data)
    ensures forall f :: Lookup(v.errors, f) == ExpectedError(data, f)
  {
    var j := Judge(data);
    RunChecksErrors(j);
    RunChecksFlag(j);
    AcceptableIffNoErrors(data);
    RunChecks(j)
  }

  lemma RequiredLookup(j: Verdicts, f: Field)
    ensures Lookup(CheckRequired(RequiredFields, j.blank, Validation(true, map[])).errors, f)
         == if f in RequiredFields && f in j.blank then Some(Required) else None
  {
  }

  lemma LaterLookup(j: Verdicts, v0: Validation, f: Field)
    ensures Lookup(LaterChecks(j, v0).errors, f) == Overriding(j, f, Lookup(v0.errors, f))
  {
  }

  lemma RunChecksErrors(j: Verdicts)
    ensures forall f :: Lookup(RunChecks(j).errors, f) == Expected(j, f)
  {
    forall f ensures Lookup(RunChecks(j).errors, f) == Expected(j, f) {
      RequiredLookup(j, f);
      LaterLookup(j, CheckRequired(RequiredFields, j.blank, Validation(true, map[])), f);
    }
  }

  lemma RequiredFlag(j: Verdicts)
    ensures var v0 := CheckRequired(RequiredFields, j.blank, Validation(true, map[]));
      v0.isValid <==> v0.errors == map[]
  {
    var v0 := CheckRequired(RequiredFields, j.blank, Validation(true, map[]));
    if !v0.isValid {
      var f :| f in RequiredFields && f in j.blank;
      assert f in v0.errors;
    }
  }

  lemma LaterFlag(j: Verdicts, v0: Validation)
    requires v0.isValid <==> v0.errors == map[]
    ensures LaterChecks(j, v0).isValid <==> LaterChecks(j, v0).errors == map[]
  {
    var r := LaterChecks(j, v0);
    if j.termsMissing { assert Terms in r.errors; }
    else if j.passwordsDiffer { assert ConfirmPassword in r.errors; }
    else if j.weakPassword.Some? { assert Password in r.errors; }
    else if j.phoneMalformed { assert Phone in r.errors; }
    else if j.emailMalformed { assert Email in r.errors; }
  }

  lemma RunChecksFlag(j: Verdicts)
    ensures RunChecks(j).isValid <==> RunChecks(j).errors == map[]
  {
    RequiredFlag(j);
    LaterFlag(j, CheckRequired(RequiredFields, j.blank, Validation(true, map[])));
  }

  /** No check objects to anything. */
  predicate NoComplaints(j: Verdicts) {
    && (forall f | f in RequiredFields :: f !in j.blank)
    && !j.emailMalformed && !j.phoneMalformed && j.weakPassword.None?
    && !j.passwordsDiffer && !j.termsMissing
  }

  lemma NoComplaintsIffNoErrors(j: Verdicts)
    ensures NoComplaints(j) <==> forall f :: Expected(j, f) == None
  {
    if forall f :: Expected(j, f) == None {
      forall f | f in RequiredFields ensures f !in j.blank {
        assert Expected(j, f) == None;
      }
      assert Expected(j, Email) == None;
      assert Expected(j, Password) == None;
      assert Expected(j, Phone) == None;
      assert Expected(j, Terms) == None;
      assert Expected(j, ConfirmPassword) == None;
    }
  }

  lemma AcceptableIffNoComplaints(data: FormData)
    ensures Acceptable(data) <==> NoComplaints(Judge(data))
  {
    RequiredNotBlank(data);
    if NoComplaints(Judge(data)) {
      NoComplaintsAcceptable(data);
    }
  }

  lemma RequiredNotBlank(data: FormData)
    ensures (forall f | f in RequiredFields :: f !in Judge(data).blank) <==> (forall f | f in RequiredFields :: !Blank(data, Name(f)))
  {
  }

  lemma NoComplaintsAcceptable(data: FormData)
    requires NoComplaints(Judge(data))
    ensures Acceptable(data)
  {
    RequiredNotBlank(data);
    assert !Blank(data, Name(Email)) && !Blank(data, Name(Password));
  }

  lemma AcceptableIffNoErrors(data: FormData)
    ensures Acceptable(data) <==> forall f :: ExpectedError(data, f) == None
  {
    AcceptableIffNoComplaints(data);
    NoComplaintsIffNoErrors(Judge(data));
    assert forall f :: ExpectedError(data, f) == Expected(Judge(data), f);
  }

  /** A well-formed email address or a valid password is never blank. */
  lemma WellFormedNotBlank(data: FormData)
    ensures Filled(data, Name(Email)) && EmailFormat.ValidateEmailFormat(data[Name(Email)]) ==> !Blank(data, Name(Email))
    ensures Filled(data, Name(Password)) && PasswordRules.ValidatePassword(data[Name(Password)]).isValid ==> !Blank(data, Name(Password))
  {
    if Filled(data, Name(Email)) && EmailFormat.ValidateEmailFormat(data[Name(Email)]) {
      EmailFormat.AcceptedHasNoSpace(data[Name(Email)]);
      TrimNoSpace(data[Name(Email)]);
    }
    if Filled(data, Name(Password)) && PasswordRules.ValidatePassword(data[Name(Password)]).isValid {
      var pw := data[Name(Password)];
      assert PasswordRules.Satisfies(pw, PasswordRules.Rules[1]);
      var i :| 0 <= i < |pw| && 'A' <= pw[i] <= 'Z';
      TrimEmptyIff(pw);
    }
  }

  // ----- Field-level guarantees of validateSignupForm -----

  lemma ErrorOf(data: FormData, f: Field)
    ensures Lookup(ValidateSignupForm(data).errors, f) == Expected(Judge(data), f)
  {
  }

  lemma JudgeFacts(data: FormData)
    ensures forall f | f in RequiredFields :: f in Judge(data).blank <==> Blank(data, Name(f))
    ensures Judge(data).emailMalformed == EmailMalformed(data)
    ensures Judge(data).phoneMalformed == PhoneMalformed(data)
    ensures Judge(data).weakPassword == WeakPassword(data)
    ensures Judge(data).passwordsDiffer == PasswordsDiffer(data)
    ensures Judge(data).termsMissing == !Filled(data, TermsAccepted)
  {
  }

  lemma ExpectedFacts(j: Verdicts)
    ensures forall f | f in NameFields :: Expected(j, f) == if f in j.blank then Some(Required) else None
    ensures Expected(j, Email) == if j.emailMalformed then Some(BadEmail) else if Email in j.blank then Some(Required) else None
    ensures Expected(j, Phone) == if j.phoneMalformed then Some(BadPhone) else None
    ensures Expected(j, Password) == if j.weakPassword.Some? then j.weakPassword else if Password in j.blank then Some(Required) else None
    ensures Expected(j, ConfirmPassword) == if j.passwordsDiffer then Some(Mismatch) else if ConfirmPassword in j.blank then Some(Required) else None
    ensures Expected(j, Terms) == if j.termsMissing then Some(TermsNeeded) else None
  {
    ExpectedNamesEmailPhone(j);
    ExpectedPasswordsTerms(j);
  }

  lemma ExpectedNamesEmailPhone(j: Verdicts)
    ensures forall f | f in NameFields :: Expected(j, f) == if f in j.blank then Some(Required) else None
    ensures Expected(j, Email) == if j.emailMalformed then Some(BadEmail) else if Email in j.blank then Some(Required) else None
    ensures Expected(j, Phone) == if j.phoneMalformed then Some(BadPhone) else None
  {
  }

  lemma ExpectedPasswordsTerms(j: Verdicts)
    ensures Expected(j, Password) == if j.weakPassword.Some? then j.weakPassword else if Password in j.blank then Some(Required) else None
    ensures Expected(j, ConfirmPassword) == if j.passwordsDiffer then Some(Mismatch) else if ConfirmPassword in j.blank then Some(Required) else None
    ensures Expected(j, Terms) == if j.termsMissing then Some(TermsNeeded) else None
  {
  }

  /** Each of the eight required fields that is missing or blank after trimming has an entry. */
  lemma RequiredFieldsFlagged(data: FormData)
    ensures forall f | f in RequiredFields && Blank(data, Name(f)) :: f in ValidateSignupForm(data).errors
  {
    JudgeFacts(data);
    ExpectedFacts(Judge(data));
    forall f | f in RequiredFields && Blank(data, Name(f)) ensures f in ValidateSignupForm(data).errors {
      ErrorOf(data, f);
    }
  }

  /** A name-like required field has an entry exactly when blank, and it says the field is required. */
  lemma NameFieldErrors(data: FormData, f: Field)
    requires f in NameFields
    ensures Lookup(ValidateSignupForm(data).errors, f) == if Blank(data, Name(f)) then Some(Required) else None
  {
    ErrorOf(data, f);
    JudgeFacts(data);
    ExpectedFacts(Judge(data));
  }

  /** The email entry is present unless the email is present and well-formed. */
  lemma EmailError(data: FormData)
    ensures Email in ValidateSignupForm(data).errors <==>
      !(Filled(data, Name(Email)) && EmailFormat.ValidateEmailFormat(data[Name(Email)]))
    ensures Email in ValidateSignupForm(data).errors ==>
      ValidateSignupForm(data).errors[Email] == if Filled(data, Name(Email)) then BadEmail else Required
  {
    ErrorOf(data, Email);
    JudgeFacts(data);
    ExpectedFacts(Judge(data));
    WellFormedNotBlank(data);
  }

  /** The phone entry is present exactly when a non-empty phone fails the phone format. */
  lemma PhoneError(data: FormData)
    ensures Lookup(ValidateSignupForm(data).errors, Phone) ==
      if Filled(data, Name(Phone)) && !PhoneFormat.ValidatePhoneFormat(data[Name(Phone)]) then Some(BadPhone) else None
  {
    ErrorOf(data, Phone);
    JudgeFacts(data);
    ExpectedFacts(Judge(data));
  }

  /** The password entry is present unless the password passes `validatePassword`; a non-empty failing password shows that rule's message. */
  lemma PasswordError(data: FormData)
    ensures Password in ValidateSignupForm(data).errors <==>
      !(Filled(data, Name(Password)) && PasswordRules.ValidatePassword(data[Name(Password)]).isValid)
    ensures Password in ValidateSignupForm(data).errors ==>
      ValidateSignupForm(data).errors[Password] ==
        if Filled(data, Name(Password)) then PasswordRules.ValidatePassword(data[Name(Password)]).message else Required
  {
    ErrorOf(data, Password);
    JudgeFacts(data);
    ExpectedFacts(Judge(data));
    WellFormedNotBlank(data);
  }

  /** The confirmation entry is present when it is blank or differs from the password, and a difference is reported as such. */
  lemma ConfirmError(data: FormData)
    ensures ConfirmPassword in ValidateSignupForm(data).errors <==>
      Blank(data, Name(ConfirmPassword)) || Lookup(data, Name(Password)) != Lookup(data, Name(ConfirmPassword))
    ensures Lookup(data, Name(Password)) != Lookup(data, Name(ConfirmPassword)) ==>
      Lookup(ValidateSignupForm(data).errors, ConfirmPassword) == Some(Mismatch)
  {
    ErrorOf(data, ConfirmPassword);
    JudgeFacts(data);
    ExpectedFacts(Judge(data));
  }

  /** The terms entry is present exactly when `termsAccepted` is missing or empty. */
  lemma TermsError(data: FormData)
    ensures Lookup(ValidateSignupForm(data).errors, Terms) ==
      if Filled(data, TermsAccepted) then None else Some(TermsNeeded)
  {
    ErrorOf(data, Terms);
    JudgeFacts(data);
    ExpectedFacts(Judge(data));
  }

  /**
   * The loop `for (let [key, value] of formData.entries()) userData[key] = value`: every
   * submitted name becomes a key, and a name submitted twice keeps its last value.
   */
  function FromEntries(entries: seq<(string, string)>): (data: FormData)
    ensures forall k :: k in data <==> exists i | 0 <= i < |entries| :: entries[i].0 == k
    ensures forall i | 0 <= i < |entries| && LastOfName(entries, i) :: data[entries[i].0] == entries[i].1
  {
    if |entries| == 0 then map[]
    else
      var init := entries[..|entries| - 1];
      var last := entries[|entries| - 1];
      var data := FromEntries(init)[last.0 := last.1];
      PutLast(entries, FromEntries(init), data);
      data
  }

  /** Adding the last entry to the object built from the others keeps both properties. */
  lemma PutLast(entries: seq<(string, string)>, prev: FormData, data: FormData)
    requires |entries| > 0
    requires var init := entries[..|entries| - 1];
      && (forall k :: k in prev <==> exists i | 0 <= i < |init| :: init[i].0 == k)
      && (forall i | 0 <= i < |init| && LastOfName(init, i) :: init[i].0 in prev && prev[init[i].0] == init[i].1)
    requires data == prev[entries[|entries| - 1].0 := entries[|entries| - 1].1]
    ensures forall k :: k in data <==> exists i | 0 <= i < |entries| :: entries[i].0 == k
    ensures forall i | 0 <= i < |entries| && LastOfName(entries, i) :: data[entries[i].0] == entries[i].1
  {
    var n := |entries| - 1;
    var init := entries[..n];
    forall k ensures k in data <==> exists i | 0 <= i < |entries| :: entries[i].0 == k {
      if k in data && k != entries[n].0 {
        var i :| 0 <= i < |init| && init[i].0 == k;
        assert entries[i] == init[i];
      }
      if k !in data {
        forall i | 0 <= i < |entries| ensures entries[i].0 != k {
          if i < n {
            assert entries[i] == init[i];
          }
        }
      }
    }
    forall i | 0 <= i < |entries| && LastOfName(entries, i) ensures data[entries[i].0] == entries[i].1 {
      if i < n {
        assert entries[i] == init[i];
        assert LastOfName(init, i) by {
          forall j | i < j < |init| ensures init[j].0 != init[i].0 {
            assert init[j] == entries[j];
          }
        }
      }
    }
  }

  /** No later entry carries the same name as entry i. */
  predicate LastOfName(entries: seq<(string, string)>, i: int)
    requires 0 <= i < |entries|
  {
    forall j | i < j < |entries| :: entries[j].0 != entries[i].0
  }
}
