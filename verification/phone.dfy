/**
 * `validatePhoneFormat`: white space is deleted, then the rest must match `/^[+]?[1-9]\d{1,14}$/`. The
 * pattern is run as a counting scanner, proved to accept exactly an optional '+' followed by
 * 2 to 15 ASCII digits of which the first is not '0'.
 */
module PhoneFormat {
  import opened Text

  predicate IsDigit(c: char) {
    '0' <= c <= '9'
  }

  predicate IsLeadDigit(c: char) {
    '1' <= c <= '9'
  }

  /** 2 to 15 ASCII digits, the first of them not '0'. */
  predicate DigitRun(ds: string) {
    && 2 <= |ds| <= 15
    && IsLeadDigit(ds[0])
    && forall i | 1 <= i < |ds| :: IsDigit(ds[i])
  }

  /** The strings the pattern matches: a digit run, optionally preceded by '+'. */
  predicate PhoneShape(t: string) {
    DigitRun(t) || (|t| > 0 && t[0] == '+' && DigitRun(t[1..]))
  }

  /** Position of the scanner within the pattern. */
  datatype Scan =
    | Start            // nothing read
    | Sign             // read the optional '+'
    | Digits(n: nat)   // read n digits, the first of them not '0'
    | Reject           // no continuation can match

  function Step(q: Scan, c: char): Scan {
    match q
    case Start => if c == '+' then Sign else if IsLeadDigit(c) then Digits(1) else Reject
    case Sign => if IsLeadDigit(c) then Digits(1) else Reject
    case Digits(n) => if IsDigit(c) && n < 15 then Digits(n + 1) else Reject
    case Reject => Reject
  }

  function Run(q: Scan, t: string, i: nat): Scan
    requires i <= |t|
    decreases |t| - i
  {
    if i == |t| then q else Run(Step(q, t[i]), t, i + 1)
  }

  /** `validatePhoneFormat(phone)`. */
  function ValidatePhoneFormat(phone: string): (ok: bool)
    ensures ok <==> PhoneShape(StripSpaces(phone))
  {
    var t := StripSpaces(phone);
    RunSound(Start, t, 0);
    var q := Run(Start, t, 0);
    if q.Digits? && q.n >= 2 then
      AcceptSound(q.n, t);
      true
    else
      NotAcceptRejects(q, t);
      false
  }

  // ----- What each scanner state says about the prefix read so far -----

  function SignLen(t: string): nat {
    if |t| > 0 && t[0] == '+' then 1 else 0
  }

  /** The character at index i can stand there in some matching string. */
  ghost predicate Admissible(t: string, i: nat)
    requires i < |t|
  {
    if i == 0 then t[0] == '+' || IsLeadDigit(t[0])
    else if i == 1 && t[0] == '+' then IsLeadDigit(t[1])
    else IsDigit(t[i])
  }

  /** Some character cannot stand where it is, or there are more than 15 digits. */
  ghost predicate Dead(t: string) {
    || (exists i | 0 <= i < |t| :: !Admissible(t, i))
    || |t| - SignLen(t) > 15
  }

  ghost predicate Holds(q: Scan, t: string) {
    match q
    case Start => t == []
    case Sign => t == ['+']
    case Digits(n) =>
      && 1 <= n <= 15
      && n <= |t|
      && SignLen(t) == |t| - n
      && IsLeadDigit(t[|t| - n])
      && (forall i | |t| - n < i < |t| :: IsDigit(t[i]))
    case Reject => Dead(t)
  }

  lemma StepSound(q: Scan, t: string, c: char)
    requires Holds(q, t)
    ensures Holds(Step(q, c), t + [c])
  {
    var t' := t + [c];
    match q
    case Start =>
      if Step(q, c) == Reject {
        assert !Admissible(t', 0);
      }
    case Sign =>
      if Step(q, c) == Reject {
        assert !Admissible(t', 1);
      }
    case Digits(n) =>
      assert t'[..|t|] == t;
      if Step(q, c) == Reject {
        if !IsDigit(c) {
          assert !Admissible(t', |t|);
        } else {
          assert |t'| - SignLen(t') > 15;
        }
      }
    case Reject =>
      if exists i | 0 <= i < |t| :: !Admissible(t, i) {
        var i :| 0 <= i < |t| && !Admissible(t, i);
        assert !Admissible(t', i);
      }
  }

  lemma {:induction false} RunSound(q: Scan, t: string, i: nat)
    requires i <= |t| && Holds(q, t[..i])
    ensures Holds(Run(q, t, i), t)
    decreases |t| - i
  {
    if i == |t| {
      assert t[..i] == t;
    } else {
      StepSound(q, t[..i], t[i]);
      assert t[..i] + [t[i]] == t[..i + 1];
      RunSound(Step(q, t[i]), t, i + 1);
    }
  }

  lemma AcceptSound(n: nat, t: string)
    requires Holds(Digits(n), t) && n >= 2
    ensures PhoneShape(t)
  {
    if SignLen(t) == 1 {
      assert DigitRun(t[1..]) by {
        forall i | 1 <= i < |t[1..]| ensures IsDigit(t[1..][i]) {
          assert t[1..][i] == t[i + 1];
        }
      }
    }
  }

  lemma NotAcceptRejects(q: Scan, t: string)
    requires Holds(q, t) && !(q.Digits? && q.n >= 2)
    ensures !PhoneShape(t)
  {
  }

  // ----- Consequences -----

  /** White space anywhere in the input never changes the verdict. */
  lemma SpaceIgnored(a: string, c: char, b: string)
    requires IsSpace(c)
    ensures ValidatePhoneFormat(a + [c] + b) == ValidatePhoneFormat(a + b)
  {
    StripSpacesAppend(a + [c], b);
    StripSpacesAppend(a, [c]);
    StripSpacesAppend(a, b);
    StripSpacesSingle(c);
    assert StripSpaces(a) + [] == StripSpaces(a);
  }

  /** An accepted number has 2 to 15 digits once the spaces and the '+' are gone. */
  lemma AcceptedLength(phone: string)
    requires ValidatePhoneFormat(phone)
    ensures 2 <= |StripSpaces(phone)| <= 16
  {
  }
}
