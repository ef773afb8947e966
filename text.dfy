/**
 * String helpers shared by the views: Python's str.strip(), ASCII case
 * folding for case-insensitive search, str.isdigit() and int() on digit
 * strings. Only ASCII characters are modelled.
 */
module Text {

  /** Python's str.isspace() restricted to ASCII: \t \n \v \f \r, the four
      separator controls 0x1c-0x1f, and the space itself. */
  predicate IsSpace(c: char) {
    9 <= c as int <= 13 || 28 <= c as int <= 32
  }

  predicate IsDigit(c: char) {
    '0' <= c <= '9'
  }

  predicate AllSpace(s: string) {
    forall i :: 0 <= i < |s| ==> IsSpace(s[i])
  }

  predicate AllDigits(s: string) {
    forall i :: 0 <= i < |s| ==> IsDigit(s[i])
  }

  /** A string with no whitespace at either end. */
  predicate Trimmed(s: string) {
    s == [] || (!IsSpace(s[0]) && !IsSpace(s[|s| - 1]))
  }

  /** Python's s.strip() with no argument: drops whitespace from both ends. */
  function Strip(s: string): (r: string)
    ensures Trimmed(r)
    ensures |r| <= |s|
  {
    if s != [] && IsSpace(s[0]) then Strip(s[1..])
    else if s != [] && IsSpace(s[|s| - 1]) then Strip(s[..|s| - 1])
    else s
  }

  /** Strip removes exactly the whitespace padding around a trimmed core. */
  lemma {:induction false} StripPadded(front: string, core: string, back: string)
    requires AllSpace(front) && AllSpace(back) && Trimmed(core)
    ensures Strip(front + core + back) == core
    decreases |front| + |back|
  {
    var s := front + core + back;
    if front != [] {
      assert s[0] == front[0];
      assert s[1..] == front[1..] + core + back;
      StripPadded(front[1..], core, back);
    } else if back != [] {
      assert s == core + back;
      if core != [] {
        assert s[0] == core[0];
        assert s[|s| - 1] == back[|back| - 1];
        assert s[..|s| - 1] == front + core + back[..|back| - 1];
        StripPadded(front, core, back[..|back| - 1]);
      } else {
        assert s[0] == back[0];
        assert s[1..] == front + core + back[1..];
        StripPadded(front, core, back[1..]);
      }
    } else {
      assert s == core;
    }
  }

  /** Every string is its stripped form with whitespace padding on each side. */
  lemma {:induction false} StripSplits(s: string) returns (front: string, back: string)
    ensures AllSpace(front) && AllSpace(back)
    ensures s == front + Strip(s) + back
  {
    if s != [] && IsSpace(s[0]) {
      var f, b := StripSplits(s[1..]);
      front, back := [s[0]] + f, b;
      assert s == [s[0]] + s[1..];
    } else if s != [] && IsSpace(s[|s| - 1]) {
      var f, b := StripSplits(s[..|s| - 1]);
      front, back := f, b + [s[|s| - 1]];
      assert s == s[..|s| - 1] + [s[|s| - 1]];
    } else {
      front, back := [], [];
      assert Strip(s) == s;
    }
  }

  /** Strip leaves nothing exactly when the string is all whitespace. */
  lemma StripEmptyIffAllSpace(s: string)
    ensures Strip(s) == [] <==> AllSpace(s)
  {
    var none: string := [];
    if AllSpace(s) {
      StripPadded(s, none, none);
      assert s + none + none == s;
    }
    var front, back := StripSplits(s);
    if Strip(s) == [] {
      assert s == front + back;
    }
  }

  /** Stripping twice is the same as stripping once. */
  lemma StripIdempotent(s: string)
    ensures Strip(Strip(s)) == Strip(s)
  {
    StripPadded([], Strip(s), []);
    assert [] + Strip(s) + [] == Strip(s);
  }

  /** ASCII lower-casing of one character. */
  function LowerChar(c: char): char {
    if 'A' <= c <= 'Z' then (c as int + 32) as char else c
  }

  function Lower(s: string): string {
    seq(|s|, i requires 0 <= i < |s| => LowerChar(s[i]))
  }

  /** p occurs in s starting at position i. */
  predicate OccursAt(s: string, p: string, i: int) {
    0 <= i && i + |p| <= |s| && s[i..i + |p|] == p
  }

  /** Python's `p in s` (and SQL LIKE '%p%' without case folding). */
  function Contains(s: string, p: string): (b: bool)
    ensures b <==> exists i :: OccursAt(s, p, i)
  {
    if |p| <= |s| && s[..|p|] == p then
      assert OccursAt(s, p, 0);
      true
    else if |s| <= |p| then
      assert forall i :: !OccursAt(s, p, i);
      false
    else
      var b := Contains(s[1..], p);
      assert forall i :: OccursAt(s, p, i + 1) <==> OccursAt(s[1..], p, i) by {
        forall i ensures OccursAt(s, p, i + 1) <==> OccursAt(s[1..], p, i) {
          if 0 <= i && i + 1 + |p| <= |s| {
            SliceOfTail(s, i, |p|);
          }
        }
      }
      assert b ==> exists i :: OccursAt(s, p, i) by {
        if b {
          var j :| OccursAt(s[1..], p, j);
          assert OccursAt(s, p, j + 1);
        }
      }
      assert (exists i :: OccursAt(s, p, i)) ==> b by {
        if i :| OccursAt(s, p, i) {
          assert i != 0;
          assert OccursAt(s[1..], p, i - 1);
        }
      }
      b
  }

  lemma SliceOfTail(s: string, i: nat, n: nat)
    requires 1 <= |s| && i + 1 + n <= |s|
    ensures s[1..][i..i + n] == s[i + 1..i + 1 + n]
  {
  }

  /** Django's `__icontains` lookup for ASCII text: case-insensitive substring. */
  predicate ContainsIgnoringCase(s: string, p: string) {
    Contains(Lower(s), Lower(p))
  }

  /** A case-insensitive match does not depend on the case of the search term. */
  lemma ContainsIgnoringCaseOfLower(s: string, p: string)
    ensures ContainsIgnoringCase(s, Lower(p)) == ContainsIgnoringCase(s, p)
  {
    LowerIdempotent(p);
  }

  lemma LowerIdempotent(s: string)
    ensures Lower(Lower(s)) == Lower(s)
  {
    assert forall i :: 0 <= i < |s| ==> LowerChar(LowerChar(s[i])) == LowerChar(s[i]);
  }

  /** Value of a non-empty decimal digit string: Python's int(s). */
  function DigitsValue(s: string): (n: nat)
    requires AllDigits(s)
    decreases |s|
  {
    if s == [] then 0
    else DigitsValue(s[..|s| - 1]) * 10 + (s[|s| - 1] as int - '0' as int)
  }

  function DigitChar(d: nat): (c: char)
    requires d < 10
    ensures IsDigit(c) && c as int - '0' as int == d
  {
    ('0' as int + d) as char
  }

  /** Decimal rendering of n without leading zeros: Python's str(n). */
  function Decimal(n: nat): (s: string)
    ensures s != [] && AllDigits(s) && Trimmed(s)
    ensures |s| > 1 ==> s[0] != '0'
  {
    if n < 10 then [DigitChar(n)]
    else
      var s := Decimal(n / 10) + [DigitChar(n % 10)];
      assert s[0] == Decimal(n / 10)[0];
      s
  }

  /** int(str(n)) == n. */
  lemma {:induction false} DigitsValueOfDecimal(n: nat)
    ensures DigitsValue(Decimal(n)) == n
  {
    if n >= 10 {
      var s := Decimal(n);
      assert s[..|s| - 1] == Decimal(n / 10);
      DigitsValueOfDecimal(n / 10);
    }
  }
}
