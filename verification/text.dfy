/**
 * String primitives the validators are built on: the ECMAScript white-space class that both
 * `\s` and `String.prototype.trim` use, trimming, deleting white space, and `.length`
 * counted in UTF-16 code units.
 */
module Text {

  /**
   * ECMAScript WhiteSpace and LineTerminator code points: TAB, LF, VT, FF, CR, SPACE,
   * NO-BREAK SPACE, the Unicode Zs separators, LINE and PARAGRAPH SEPARATOR, and the
   * byte-order mark U+FEFF.
   */
  predicate IsSpace(c: char) {
    var n := c as int;
    || (0x09 <= n <= 0x0D)
    || n == 0x20
    || n == 0xA0
    || n == 0x1680
    || (0x2000 <= n <= 0x200A)
    || n == 0x2028
    || n == 0x2029
    || n == 0x202F
    || n == 0x205F
    || n == 0x3000
    || n == 0xFEFF
  }

  predicate AllSpace(s: string) {
    forall i | 0 <= i < |s| :: IsSpace(s[i])
  }

  predicate NoSpace(s: string) {
    forall i | 0 <= i < |s| :: !IsSpace(s[i])
  }

  /** The end of the run of white space that starts at index `i`. */
  function LeadEnd(s: string, i: nat): (n: nat)
    requires i <= |s|
    ensures i <= n <= |s|
    ensures forall k | i <= k < n :: IsSpace(s[k])
    ensures n == |s| || !IsSpace(s[n])
    decreases |s| - i
  {
    if i < |s| && IsSpace(s[i]) then LeadEnd(s, i + 1) else i
  }

  /** The start of the run of white space that ends just before index `j`. */
  function TrailStart(s: string, j: nat): (n: nat)
    requires j <= |s|
    ensures n <= j
    ensures forall k | n <= k < j :: IsSpace(s[k])
    ensures n == 0 || !IsSpace(s[n - 1])
  {
    if j > 0 && IsSpace(s[j - 1]) then TrailStart(s, j - 1) else j
  }

  /** `r` is the part of `s` that starts at `lo`, with only white space before and after it. */
  predicate Inner(s: string, lo: int, r: string) {
    && 0 <= lo <= |s| - |r|
    && r == s[lo..lo + |r|]
    && (forall k | 0 <= k < lo :: IsSpace(s[k]))
    && (forall k | lo + |r| <= k < |s| :: IsSpace(s[k]))
  }

  /** `String.prototype.trim`: white space removed from both ends, nothing else changed. */
  function Trim(s: string): (r: string)
    ensures exists lo :: Inner(s, lo, r)
    ensures r == [] || (!IsSpace(r[0]) && !IsSpace(r[|r| - 1]))
  {
    var lo := LeadEnd(s, 0);
    if lo == |s| then
      assert Inner(s, lo, []);
      []
    else
      var hi := TrailStart(s, |s|);
      assert lo < hi;
      assert Inner(s, lo, s[lo..hi]);
      s[lo..hi]
  }

  /** `trim()` yields the empty string exactly for strings made only of white space. */
  lemma TrimEmptyIff(s: string)
    ensures Trim(s) == [] <==> AllSpace(s)
  {
    var r := Trim(s);
    var lo :| Inner(s, lo, r);
    if r != [] {
      assert r[0] == s[lo];
    }
  }

  /** Trimming twice is trimming once. */
  lemma TrimIdempotent(s: string)
    ensures Trim(Trim(s)) == Trim(s)
  {
    var r := Trim(s);
    var r' := Trim(r);
    var lo :| Inner(r, lo, r');
    if r != [] {
      assert !IsSpace(r[0]) && !IsSpace(r[|r| - 1]);
    }
  }

  /** A string with no white space is its own trim. */
  lemma TrimNoSpace(s: string)
    requires NoSpace(s)
    ensures Trim(s) == s
  {
    var r := Trim(s);
    var lo :| Inner(s, lo, r);
    assert lo == 0 && |r| == |s|;
  }

  /** `s.replace(/\s/g, '')`: every white-space character deleted, the rest kept in order. */
  function StripSpaces(s: string): (r: string)
    ensures NoSpace(r)
    ensures |r| <= |s|
    ensures NoSpace(s) ==> r == s
  {
    if |s| == 0 then []
    else if IsSpace(s[0]) then StripSpaces(s[1..])
    else [s[0]] + StripSpaces(s[1..])
  }

  /** Deleting white space distributes over concatenation, so it acts character by character. */
  lemma {:induction false} StripSpacesAppend(a: string, b: string)
    ensures StripSpaces(a + b) == StripSpaces(a) + StripSpaces(b)
    decreases |a|
  {
    if |a| > 0 {
      assert (a + b)[0] == a[0];
      assert (a + b)[1..] == a[1..] + b;
      StripSpacesAppend(a[1..], b);
      if IsSpace(a[0]) {
        assert StripSpaces(a + b) == StripSpaces(a[1..] + b);
      } else {
        assert StripSpaces(a + b) == [a[0]] + StripSpaces(a[1..] + b);
      }
    } else {
      assert a + b == b;
    }
  }

  /** The result of deleting white space from one character. */
  lemma StripSpacesSingle(c: char)
    ensures StripSpaces([c]) == (if IsSpace(c) then [] else [c])
  {
  }

  /** `String.prototype.length`: characters beyond U+FFFF take two UTF-16 code units. */
  function Utf16Length(s: string): (n: nat)
    ensures |s| <= n <= 2 * |s|
    ensures (forall i | 0 <= i < |s| :: s[i] as int < 0x10000) ==> n == |s|
  {
    if |s| == 0 then 0
    else (if s[0] as int < 0x10000 then 1 else 2) + Utf16Length(s[1..])
  }
}
