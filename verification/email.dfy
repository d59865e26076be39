/**
 * `validateEmailFormat`: the test `/^[^\s@]+@[^\s@]+\.[^\s@]+$/.test(email)`. The pattern is
 * run as a left-to-right scanner with one state per position of the pattern, and the scanner
 * is proved to accept exactly the strings of the form L + "@" + D that the pattern describes.
 */
module EmailFormat {
  import opened Text

  /** A character the class `[^\s@]` admits. */
  predicate Plain(c: char) {
    !IsSpace(c) && c != '@'
  }

  predicate AllPlain(s: string) {
    forall i | 0 <= i < |s| :: Plain(s[i])
  }

  /** The domain holds a '.' that is neither its first nor its last character. */
  predicate HasInnerDot(d: string) {
    exists k | 1 <= k < |d| - 1 :: d[k] == '.'
  }

  /**
   * `s` splits at index `at` into a local part L = s[..at] and a domain D = s[at+1..] with
   * L non-empty, neither part holding white space or '@', and D holding an inner '.'.
   */
  predicate IsEmailSplit(s: string, at: int) {
    && 0 < at < |s|
    && s[at] == '@'
    && AllPlain(s[..at])
    && AllPlain(s[at + 1..])
    && HasInnerDot(s[at + 1..])
  }

  /** The strings the pattern matches. */
  ghost predicate EmailShape(s: string) {
    exists at :: IsEmailSplit(s, at)
  }

  /** Position of the scanner within the pattern; `at` records where the '@' was read. */
  datatype Scan =
    | Start                 // nothing read
    | Local                 // inside the local part
    | AtSign(at: nat)       // just read the '@'
    | Domain(at: nat)       // inside the domain, no usable '.' yet
    | DomainDot(at: nat)    // the last character read is a '.' that may separate the domain
    | Complete(at: nat)     // a separating '.' has been followed by a character
    | Reject                // no continuation can match

  /** One scanner transition on the character `c` found at index `i`. */
  function Step(q: Scan, c: char, i: nat): Scan {
    match q
    case Start => if Plain(c) then Local else Reject
    case Local => if Plain(c) then Local else if c == '@' then AtSign(i) else Reject
    case AtSign(at) => if Plain(c) then Domain(at) else Reject
    case Domain(at) => if c == '.' then DomainDot(at) else if Plain(c) then Domain(at) else Reject
    case DomainDot(at) => if Plain(c) then Complete(at) else Reject
    case Complete(at) => if Plain(c) then Complete(at) else Reject
    case Reject => Reject
  }

  /** The scanner's state after reading s[i..] from state `q`. */
  function Run(q: Scan, s: string, i: nat): Scan
    requires i <= |s|
    decreases |s| - i
  {
    if i == |s| then q else Run(Step(q, s[i], i), s, i + 1)
  }

  /** `validateEmailFormat(s)`. */
  function ValidateEmailFormat(s: string): (ok: bool)
    ensures ok <==> EmailShape(s)
  {
    RunSound(Start, s, 0);
    var q := Run(Start, s, 0);
    if !q.Complete? then
      NotCompleteRejects(q, s);
      false
    else
      true
  }

  // ----- What each scanner state says about the prefix read so far -----

  /** The local part before `at` is well-formed and `at` holds the '@'. */
  ghost predicate Head(p: string, at: nat) {
    0 < at < |p| && p[at] == '@' && AllPlain(p[..at])
  }

  /** The prefix already contains white space, starts with '@', or has two '@'. */
  ghost predicate Spoiled(p: string) {
    || (exists i | 0 <= i < |p| :: IsSpace(p[i]))
    || (|p| > 0 && p[0] == '@')
    || (exists i, j | 0 <= i < j < |p| :: p[i] == '@' && p[j] == '@')
  }

  ghost predicate Holds(q: Scan, p: string) {
    match q
    case Start => p == []
    case Local => |p| > 0 && AllPlain(p)
    case AtSign(at) => at == |p| - 1 && Head(p, at)
    case Domain(at) =>
      && Head(p, at)
      && var d := p[at + 1..];
         |d| > 0 && AllPlain(d) && !HasInnerDot(d) && !(|d| >= 2 && d[|d| - 1] == '.')
    case DomainDot(at) =>
      && Head(p, at)
      && var d := p[at + 1..];
         |d| >= 2 && AllPlain(d) && d[|d| - 1] == '.' && !HasInnerDot(d)
    case Complete(at) =>
      IsEmailSplit(p, at)
    case Reject => Spoiled(p)
  }

  /** Each transition keeps the meaning of the state in step with the prefix. */
  lemma StepSound(q: Scan, p: string, c: char)
    requires Holds(q, p)
    ensures Holds(Step(q, c, |p|), p + [c])
  {
    var p' := p + [c];
    assert p'[..|p|] == p;
    match q
    case Start =>
    case Local =>
      if c == '@' {
        assert Head(p', |p|);
      } else if !Plain(c) {
        assert IsSpace(p'[|p|]);
      }
    case AtSign(at) =>
      if Plain(c) {
        assert p'[at + 1..] == [c];
        assert p'[..at] == p[..at];
      } else if c == '@' {
        assert p'[at] == '@' && p'[|p|] == '@';
      } else {
        assert IsSpace(p'[|p|]);
      }
    case Domain(at) =>
      DomainStep(p, at, c);
    case DomainDot(at) =>
      DomainDotStep(p, at, c);
    case Complete(at) =>
      CompleteStep(p, at, c);
    case Reject =>
      SpoiledExtends(p, c);
  }

  lemma HeadExtends(p: string, at: nat, c: char)
    requires Head(p, at)
    ensures Head(p + [c], at)
    ensures (p + [c])[..at] == p[..at]
  {
    assert (p + [c])[..at] == p[..at];
  }

  lemma BadCharSpoils(p: string, at: nat, c: char)
    requires Head(p, at) && !Plain(c)
    ensures Spoiled(p + [c])
  {
    var p' := p + [c];
    if c == '@' {
      assert p'[at] == '@' && p'[|p|] == '@';
    } else {
      assert IsSpace(p'[|p|]);
    }
  }

  lemma DomainStep(p: string, at: nat, c: char)
    requires Holds(Domain(at), p)
    ensures Holds(Step(Domain(at), c, |p|), p + [c])
  {
    var p' := p + [c];
    var d := p[at + 1..];
    HeadExtends(p, at, c);
    assert p'[at + 1..] == d + [c];
    if Plain(c) || c == '.' {
      var d' := d + [c];
      forall k | 1 <= k < |d'| - 1 ensures d'[k] != '.' {
        assert d'[k] == d[k];
      }
    } else {
      BadCharSpoils(p, at, c);
    }
  }

  lemma DomainDotStep(p: string, at: nat, c: char)
    requires Holds(DomainDot(at), p)
    ensures Holds(Step(DomainDot(at), c, |p|), p + [c])
  {
    var p' := p + [c];
    var d := p[at + 1..];
    HeadExtends(p, at, c);
    assert p'[at + 1..] == d + [c];
    if Plain(c) {
      var d' := d + [c];
      assert d'[|d| - 1] == '.';
    } else {
      BadCharSpoils(p, at, c);
    }
  }

  lemma CompleteStep(p: string, at: nat, c: char)
    requires Holds(Complete(at), p)
    ensures Holds(Step(Complete(at), c, |p|), p + [c])
  {
    var p' := p + [c];
    var d := p[at + 1..];
    HeadExtends(p, at, c);
    assert p'[at + 1..] == d + [c];
    if Plain(c) {
      var k :| 1 <= k < |d| - 1 && d[k] == '.';
      assert (d + [c])[k] == '.';
    } else {
      BadCharSpoils(p, at, c);
    }
  }

  lemma SpoiledExtends(p: string, c: char)
    requires Spoiled(p)
    ensures Spoiled(p + [c])
  {
    var p' := p + [c];
    if exists i | 0 <= i < |p| :: IsSpace(p[i]) {
      var i :| 0 <= i < |p| && IsSpace(p[i]);
      assert IsSpace(p'[i]);
    } else if |p| > 0 && p[0] == '@' {
      assert p'[0] == '@';
    } else {
      var i, j :| 0 <= i < j < |p| && p[i] == '@' && p[j] == '@';
      assert p'[i] == '@' && p'[j] == '@';
    }
  }

  /** Reading the rest of the input keeps the state's meaning. */
  lemma {:induction false} RunSound(q: Scan, s: string, i: nat)
    requires i <= |s| && Holds(q, s[..i])
    ensures Holds(Run(q, s, i), s)
    decreases |s| - i
  {
    if i == |s| {
      assert s[..i] == s;
    } else {
      StepSound(q, s[..i], s[i]);
      assert s[..i] + [s[i]] == s[..i + 1];
      RunSound(Step(q, s[i], i), s, i + 1);
    }
  }

  /** The '@' of a split is the first '@' of the string, so there is at most one split. */
  lemma SplitUnique(s: string, a: int, b: int)
    requires IsEmailSplit(s, a) && 0 < b < |s| && s[b] == '@' && AllPlain(s[..b])
    ensures a == b
  {
  }

  /** Every state other than Complete describes a prefix the pattern does not match. */
  lemma NotCompleteRejects(q: Scan, s: string)
    requires Holds(q, s) && !q.Complete?
    ensures !EmailShape(s)
  {
    if EmailShape(s) {
      var a :| IsEmailSplit(s, a);
      match q
      case Start =>
      case Local =>
      case AtSign(at) =>
        SplitUnique(s, a, at);
      case Domain(at) =>
        SplitUnique(s, a, at);
      case DomainDot(at) =>
        SplitUnique(s, a, at);
      case Reject =>
        SplitNotSpoiled(s, a);
    }
  }

  lemma SplitNotSpoiled(s: string, at: int)
    requires IsEmailSplit(s, at)
    ensures !Spoiled(s)
  {
    forall i | 0 <= i < |s| ensures !IsSpace(s[i]) && (s[i] == '@' ==> i == at) {
      if i < at { assert s[..at][i] == s[i]; }
      else if i > at { assert s[at + 1..][i - at - 1] == s[i]; }
    }
    assert s[..at][0] == s[0];
  }

  // ----- Consequences -----

  function CountChar(s: string, c: char): (n: nat)
    ensures n <= |s|
  {
    if |s| == 0 then 0 else (if s[0] == c then 1 else 0) + CountChar(s[1..], c)
  }

  lemma {:induction false} CountCharAppend(a: string, b: string, c: char)
    ensures CountChar(a + b, c) == CountChar(a, c) + CountChar(b, c)
    decreases |a|
  {
    if |a| == 0 {
      assert a + b == b;
    } else {
      assert (a + b)[1..] == a[1..] + b;
      CountCharAppend(a[1..], b, c);
    }
  }

  lemma {:induction false} CountPlainAt(s: string)
    requires AllPlain(s)
    ensures CountChar(s, '@') == 0
    decreases |s|
  {
    if |s| > 0 {
      CountPlainAt(s[1..]);
    }
  }

  /** An accepted address has exactly one '@', with a non-empty local part before it. */
  lemma AcceptedHasOneAt(s: string)
    requires ValidateEmailFormat(s)
    ensures CountChar(s, '@') == 1
    ensures exists at :: 0 < at < |s| && s[at] == '@' && AllPlain(s[..at]) && AllPlain(s[at + 1..])
  {
    var at :| IsEmailSplit(s, at);
    assert s == s[..at] + [s[at]] + s[at + 1..];
    CountCharAppend(s[..at] + [s[at]], s[at + 1..], '@');
    CountCharAppend(s[..at], [s[at]], '@');
    CountPlainAt(s[..at]);
    CountPlainAt(s[at + 1..]);
  }

  /** An accepted address holds no white space at all, so trimming leaves it unchanged. */
  lemma AcceptedHasNoSpace(s: string)
    requires ValidateEmailFormat(s)
    ensures NoSpace(s)
    ensures s != []
  {
    var at :| IsEmailSplit(s, at);
    SplitNotSpoiled(s, at);
  }
}
