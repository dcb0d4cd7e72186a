/**
  The Python string operations the scrapers rely on: `str.strip()` with no
  argument, `str.replace(old, '')`, and the ASCII digit runs matched by `\d+`.
  A Python `str` is a sequence of code points; here it is a `string`.
 */
module Strings {

  /** Python's `str.isspace` for one code point: the characters `str.strip()` removes. */
  predicate IsSpace(c: char) {
    var n := c as int;
    (9 <= n <= 13) || (28 <= n <= 32) || n == 0x85 || n == 0xA0 || n == 0x1680
    || (0x2000 <= n <= 0x200A) || n == 0x2028 || n == 0x2029 || n == 0x202F
    || n == 0x205F || n == 0x3000
  }

  predicate IsAsciiDigit(c: char) {
    '0' <= c <= '9'
  }

  /** No whitespace at either end, which is what `str.strip()` leaves. */
  predicate IsStripped(s: string) {
    s == [] || (!IsSpace(s[0]) && !IsSpace(s[|s| - 1]))
  }

  /** Number of whitespace characters at the front of `s`. */
  function LeadingSpaces(s: string): (n: nat)
    ensures n <= |s|
    ensures forall k :: 0 <= k < n ==> IsSpace(s[k])
    ensures n < |s| ==> !IsSpace(s[n])
  {
    if s == [] || !IsSpace(s[0]) then 0 else 1 + LeadingSpaces(s[1..])
  }

  /** Number of whitespace characters at the back of `s`. */
  function TrailingSpaces(s: string): (n: nat)
    ensures n <= |s|
    ensures forall k :: |s| - n <= k < |s| ==> IsSpace(s[k])
    ensures n < |s| ==> !IsSpace(s[|s| - n - 1])
  {
    if s == [] || !IsSpace(s[|s| - 1]) then 0 else 1 + TrailingSpaces(s[..|s| - 1])
  }

  /**
    `s.strip()`: the result is the slice of `s` that starts after its leading
    whitespace, everything cut off at the back is whitespace, and the result
    itself has no whitespace at either end.
   */
  function Strip(s: string): (r: string)
    ensures LeadingSpaces(s) + |r| <= |s|
    ensures r == s[LeadingSpaces(s)..LeadingSpaces(s) + |r|]
    ensures forall k :: LeadingSpaces(s) + |r| <= k < |s| ==> IsSpace(s[k])
    ensures IsStripped(r)
    ensures forall c :: c in r ==> c in s
  {
    var t := s[LeadingSpaces(s)..];
    var r := t[..|t| - TrailingSpaces(t)];
    assert forall k :: 0 <= k < |r| ==> r[k] == s[LeadingSpaces(s) + k];
    r
  }

  /** Stripping text that has no whitespace at its ends changes nothing. */
  lemma StripOfStripped(s: string)
    requires IsStripped(s)
    ensures Strip(s) == s
  {
  }

  /** `str.strip()` is idempotent. */
  lemma StripIdempotent(s: string)
    ensures Strip(Strip(s)) == Strip(s)
  {
    StripOfStripped(Strip(s));
  }

  /**
    `s.replace(pat, '')`: scan from the left, drop every non-overlapping
    occurrence of `pat`, keep every other character in order.
   */
  function RemoveAll(s: string, pat: string): (r: string)
    requires pat != []
    ensures |r| <= |s|
    ensures forall c :: c in r ==> c in s
    ensures |pat| == 1 ==> pat[0] !in r
    decreases |s|
  {
    if |s| < |pat| then s
    else if s[..|pat|] == pat then RemoveAll(s[|pat|..], pat)
    else [s[0]] + RemoveAll(s[1..], pat)
  }

  /** A pattern whose first character does not occur in `s` is never found. */
  lemma {:induction false} RemoveAllAbsent(s: string, pat: string)
    requires pat != [] && pat[0] !in s
    ensures RemoveAll(s, pat) == s
    decreases |s|
  {
    if |s| >= |pat| {
      assert s[..|pat|][0] == s[0];
      RemoveAllAbsent(s[1..], pat);
      assert s == [s[0]] + s[1..];
    }
  }

  /** `pat` occurs in `s` starting at position `i`. */
  predicate OccursAt(s: string, pat: string, i: int) {
    0 <= i && i + |pat| <= |s| && s[i..i + |pat|] == pat
  }

  /** A pattern that occurs nowhere in `s` is never removed. */
  lemma {:induction false} RemoveAllNoOccurrence(s: string, pat: string)
    requires pat != [] && forall i :: !OccursAt(s, pat, i)
    ensures RemoveAll(s, pat) == s
    decreases |s|
  {
    if |s| >= |pat| {
      assert !OccursAt(s, pat, 0);
      var t := s[1..];
      forall i ensures !OccursAt(t, pat, i) {
        if OccursAt(t, pat, i) {
          assert t[i..i + |pat|] == s[i + 1..i + 1 + |pat|];
          assert OccursAt(s, pat, i + 1);
        }
      }
      RemoveAllNoOccurrence(t, pat);
      assert s == [s[0]] + t;
    }
  }

  /** An occurrence at the very front is dropped and scanning resumes after it. */
  lemma RemoveAllAfterPrefix(pat: string, rest: string)
    requires pat != []
    ensures RemoveAll(pat + rest, pat) == RemoveAll(rest, pat)
  {
    assert (pat + rest)[..|pat|] == pat;
    assert (pat + rest)[|pat|..] == rest;
  }

  /** Removing one character distributes over concatenation. */
  lemma {:induction false} RemoveCharConcat(x: string, y: string, c: char)
    ensures RemoveAll(x + y, [c]) == RemoveAll(x, [c]) + RemoveAll(y, [c])
    decreases |x|
  {
    if x == [] {
      assert x + y == y;
    } else {
      assert (x + y)[1..] == x[1..] + y;
      assert (x + y)[..1] == x[..1];
      RemoveCharConcat(x[1..], y, c);
      if x[..1] == [c] {
        assert RemoveAll(x, [c]) == RemoveAll(x[1..], [c]);
      } else {
        assert RemoveAll(x, [c]) == [x[0]] + RemoveAll(x[1..], [c]);
        assert RemoveAll(x + y, [c]) == [x[0]] + RemoveAll(x[1..] + y, [c]);
      }
    }
  }

  /** Dropping the separators of a three-group amount such as "12,345,678" joins the groups. */
  lemma DropSeparators(a: string, b: string, c: string)
    requires ',' !in a && ',' !in b && ',' !in c
    ensures RemoveAll(a + "," + b + "," + c, ",") == a + b + c
  {
    var sep := ",";
    assert RemoveAll(sep, sep) == [] by {
      assert sep[..1] == sep && sep[1..] == [];
    }
    RemoveAllAbsent(a, sep);
    RemoveAllAbsent(b, sep);
    RemoveAllAbsent(c, sep);
    var x1 := a + sep;
    RemoveCharConcat(a, sep, ',');
    assert RemoveAll(x1, sep) == a;
    var x2 := x1 + b;
    RemoveCharConcat(x1, b, ',');
    assert RemoveAll(x2, sep) == a + b;
    var x3 := x2 + sep;
    RemoveCharConcat(x2, sep, ',');
    assert RemoveAll(x3, sep) == a + b;
    RemoveCharConcat(x3, c, ',');
    assert x3 + c == a + "," + b + "," + c;
  }

  /** The longest prefix of `t` made of ASCII digits: the greedy `\d+`. */
  function DigitRun(t: string): (r: string)
    ensures |r| <= |t| && r == t[..|r|]
    ensures forall k :: 0 <= k < |r| ==> IsAsciiDigit(r[k])
    ensures |r| == |t| || !IsAsciiDigit(t[|r|])
  {
    if t == [] || !IsAsciiDigit(t[0]) then [] else [t[0]] + DigitRun(t[1..])
  }

  /** Text after a non-digit does not change the digit run. */
  lemma {:induction false} DigitRunStopsAtNonDigit(x: string, y: string)
    requires y == [] || !IsAsciiDigit(y[0])
    ensures DigitRun(x + y) == DigitRun(x)
    decreases |x|
  {
    if x == [] {
      assert x + y == y;
    } else {
      assert (x + y)[0] == x[0];
      assert (x + y)[1..] == x[1..] + y;
      DigitRunStopsAtNonDigit(x[1..], y);
    }
  }

  /** A string made only of digits is its own digit run. */
  lemma DigitRunOfDigits(t: string)
    requires forall k :: 0 <= k < |t| ==> IsAsciiDigit(t[k])
    ensures DigitRun(t) == t
  {
  }
}
