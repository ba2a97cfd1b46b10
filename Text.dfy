/**
 * The few `java.lang.String` operations the services rely on, over
 * `seq<char>`: `lastIndexOf`, `Long.toString` of a non-negative value, and
 * the case-insensitive containment test of a `...ContainingIgnoreCase` query.
 */
module Text {

  predicate IsDigit(c: char) {
    '0' <= c <= '9'
  }

  /** `s.lastIndexOf(c)`: the last position holding `c`, or -1. */
  function LastIndexOf(s: string, c: char): (r: int)
    ensures -1 <= r < |s|
    ensures r == -1 <==> c !in s
    ensures 0 <= r ==> s[r] == c && c !in s[r + 1..]
  {
    if s == [] then -1
    else if s[|s| - 1] == c then |s| - 1
    else
      var r := LastIndexOf(s[..|s| - 1], c);
      assert s == s[..|s| - 1] + [s[|s| - 1]];
      assert 0 <= r ==> s[r + 1..] == s[..|s| - 1][r + 1..] + [s[|s| - 1]];
      r
  }

  function DigitChar(d: nat): (c: char)
    requires d < 10
    ensures IsDigit(c)
  {
    ('0' as int + d) as char
  }

  /** The decimal rendering of a non-negative `long`, as string concatenation produces it. */
  function DecimalString(n: nat): (r: string)
    ensures |r| >= 1
    ensures n >= 10 ==> |r| >= 2
    ensures forall i :: 0 <= i < |r| ==> IsDigit(r[i])
  {
    if n < 10 then [DigitChar(n)] else DecimalString(n / 10) + [DigitChar(n % 10)]
  }

  /** Distinct numbers render as distinct strings. */
  lemma {:induction false} DecimalStringInjective(a: nat, b: nat)
    requires DecimalString(a) == DecimalString(b)
    ensures a == b
  {
    if a >= 10 && b >= 10 {
      var s := DecimalString(a);
      assert s[..|s| - 1] == DecimalString(a / 10) && s[|s| - 1] == DigitChar(a % 10);
      assert s[..|s| - 1] == DecimalString(b / 10) && s[|s| - 1] == DigitChar(b % 10);
      DecimalStringInjective(a / 10, b / 10);
    }
  }

  /** The length of the run of digits that `s` starts with. */
  function DigitRunLength(s: string): (n: nat)
    ensures n <= |s|
  {
    if s == [] || !IsDigit(s[0]) then 0 else 1 + DigitRunLength(s[1..])
  }

  lemma {:induction false} DigitRunLengthOf(d: string, r: string)
    requires forall i :: 0 <= i < |d| ==> IsDigit(d[i])
    requires r == [] || !IsDigit(r[0])
    ensures DigitRunLength(d + r) == |d|
  {
    if d != [] {
      assert (d + r)[1..] == d[1..] + r;
      DigitRunLengthOf(d[1..], r);
    }
  }

  /**
   * Two strings that each start with a run of digits followed by a non-digit
   * (or nothing) can only be equal if the digit runs are equal: this is how a
   * number embedded in a file name is read back unambiguously.
   */
  lemma DigitRunsAgree(d1: string, r1: string, d2: string, r2: string)
    requires forall i :: 0 <= i < |d1| ==> IsDigit(d1[i])
    requires forall i :: 0 <= i < |d2| ==> IsDigit(d2[i])
    requires r1 == [] || !IsDigit(r1[0])
    requires r2 == [] || !IsDigit(r2[0])
    requires d1 + r1 == d2 + r2
    ensures d1 == d2 && r1 == r2
  {
    DigitRunLengthOf(d1, r1);
    DigitRunLengthOf(d2, r2);
    assert d1 == (d1 + r1)[..|d1|] == (d2 + r2)[..|d2|] == d2;
    assert r1 == (d1 + r1)[|d1|..] == (d2 + r2)[|d2|..] == r2;
  }

  /** Upper-casing of ASCII letters; every other character is left as it is. */
  function UpperChar(c: char): char {
    if 'a' <= c <= 'z' then (c as int - 32) as char else c
  }

  /** Lower-casing of ASCII letters; every other character is left as it is. */
  function LowerChar(c: char): char {
    if 'A' <= c <= 'Z' then (c as int + 32) as char else c
  }

  function Upper(s: string): (r: string) {
    seq(|s|, i requires 0 <= i < |s| => UpperChar(s[i]))
  }

  function Lower(s: string): (r: string) {
    seq(|s|, i requires 0 <= i < |s| => LowerChar(s[i]))
  }

  predicate IsPrefix(p: string, s: string) {
    |p| <= |s| && s[..|p|] == p
  }

  /** `s.contains(p)`, by trying every starting position from the left. */
  predicate IsInfix(p: string, s: string)
    decreases |s|
  {
    IsPrefix(p, s) || (|s| > 0 && IsInfix(p, s[1..]))
  }

  /** An independent definition of containment: some window of `s` spells `p`. */
  ghost predicate OccursAt(p: string, s: string, i: int) {
    0 <= i && i + |p| <= |s| && s[i..i + |p|] == p
  }

  lemma {:induction false} InfixOccurs(p: string, s: string)
    requires IsInfix(p, s)
    ensures exists i :: OccursAt(p, s, i)
    decreases |s|
  {
    if IsPrefix(p, s) {
      assert OccursAt(p, s, 0);
    } else {
      InfixOccurs(p, s[1..]);
      var i :| OccursAt(p, s[1..], i);
      assert s[1..][i..i + |p|] == s[i + 1..i + 1 + |p|];
      assert OccursAt(p, s, i + 1);
    }
  }

  lemma {:induction false} OccurrenceIsInfix(p: string, s: string, i: int)
    requires OccursAt(p, s, i)
    ensures IsInfix(p, s)
    decreases i
  {
    if i > 0 {
      assert s[1..][i - 1..i - 1 + |p|] == s[i..i + |p|];
      OccurrenceIsInfix(p, s[1..], i - 1);
    }
  }

  /** The search `IsInfix` agrees with the window definition `OccursAt`. */
  lemma IsInfixIffOccurs(p: string, s: string)
    ensures IsInfix(p, s) <==> exists i :: OccursAt(p, s, i)
  {
    if IsInfix(p, s) {
      InfixOccurs(p, s);
    }
    forall i | OccursAt(p, s, i) ensures IsInfix(p, s) {
      OccurrenceIsInfix(p, s, i);
    }
  }

  /**
   * `s` contains `q` ignoring case, as `upper(s) LIKE upper('%' || q || '%')`
   * decides it (ASCII letters only).
   */
  predicate ContainsIgnoreCase(s: string, q: string)
    ensures ContainsIgnoreCase(s, q) <==> exists i :: OccursAt(Upper(q), Upper(s), i)
  {
    IsInfixIffOccurs(Upper(q), Upper(s));
    IsInfix(Upper(q), Upper(s))
  }

  lemma UpperOfCased(s: string)
    ensures Upper(Upper(s)) == Upper(s)
    ensures Upper(Lower(s)) == Upper(s)
  {
  }

  /** Changing the case of either argument does not change the answer. */
  lemma ContainsIgnoreCaseIsCaseBlind(s: string, q: string)
    ensures ContainsIgnoreCase(Upper(s), q) == ContainsIgnoreCase(s, q)
    ensures ContainsIgnoreCase(Lower(s), q) == ContainsIgnoreCase(s, q)
    ensures ContainsIgnoreCase(s, Upper(q)) == ContainsIgnoreCase(s, q)
    ensures ContainsIgnoreCase(s, Lower(q)) == ContainsIgnoreCase(s, q)
  {
    UpperOfCased(s);
    UpperOfCased(q);
  }

  /** Every string contains itself and the empty query. */
  lemma ContainsIgnoreCaseBasics(s: string)
    ensures ContainsIgnoreCase(s, s)
    ensures ContainsIgnoreCase(s, "")
  {
  }

  /** The positions of `s` holding a character outside the Basic Multilingual Plane. */
  function Supplementary(s: string): set<nat> {
    set i: nat | i < |s| && s[i] as int >= 0x10000
  }

  /**
   * The length `String.length()` reports: a count of UTF-16 code units, in
   * which a character outside the Basic Multilingual Plane takes two.
   */
  function Utf16Length(s: string): (n: nat)
    ensures |s| <= n <= 2 * |s|
  {
    CardBelow(Supplementary(s), |s|);
    |s| + |Supplementary(s)|
  }

  /** A set of naturals all below `n` has at most `n` elements. */
  lemma {:induction false} CardBelow(xs: set<nat>, n: nat)
    requires forall x :: x in xs ==> x < n
    ensures |xs| <= n
  {
    if n > 0 {
      CardBelow(xs - {n - 1}, n - 1);
    }
  }

  /** The UTF-16 length is the character count exactly when every character lies in the Basic Multilingual Plane. */
  lemma Utf16LengthIsCharCount(s: string)
    ensures Utf16Length(s) == |s| <==> forall i :: 0 <= i < |s| ==> s[i] as int < 0x10000
  {
    if Utf16Length(s) == |s| {
      forall i | 0 <= i < |s| ensures s[i] as int < 0x10000 {
        assert i !in Supplementary(s);
      }
    }
  }
}
