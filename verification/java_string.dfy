/**
 * The few java.lang.String and java.lang.Integer operations the servlets and
 * the generator rely on, over `string` (a sequence of Unicode scalar values;
 * Java counts UTF-16 units instead, so indices differ only after a character
 * outside the Basic Multilingual Plane, and every comparison the program makes
 * is against ASCII text). Case folding is ASCII only; see the README for why that agrees with
 * Java on every word the program compares against.
 */
module JavaString {
  import opened Wrappers

  const IntMin: int := -0x8000_0000
  const IntMax: int := 0x7fff_ffff

  /** The values of a Java `int`. */
  type Int32 = x: int | IntMin <= x <= IntMax

  // ---------------------------------------------------------------------------
  // Case folding

  function LowerChar(c: char): char {
    if 'A' <= c <= 'Z' then (c as int + 32) as char else c
  }

  /** `String.toLowerCase`, restricted to ASCII letters. */
  function Lower(s: string): string {
    seq(|s|, i requires 0 <= i < |s| => LowerChar(s[i]))
  }

  /** `String.equalsIgnoreCase`: same length, and equal character by character after folding. */
  predicate EqualsIgnoreCase(a: string, b: string) {
    |a| == |b| && forall i :: 0 <= i < |a| ==> LowerChar(a[i]) == LowerChar(b[i])
  }

  /** Comparing a string with an all-lower-case word ignoring case is comparing its lower-case form. */
  lemma EqualsIgnoreCaseLower(s: string, word: string)
    requires Lower(word) == word
    ensures EqualsIgnoreCase(word, s) <==> Lower(s) == word
  {
    if EqualsIgnoreCase(word, s) {
      forall i | 0 <= i < |s|
        ensures Lower(s)[i] == word[i]
      {
        assert Lower(word)[i] == LowerChar(word[i]);
      }
    }
    if Lower(s) == word {
      forall i | 0 <= i < |word|
        ensures LowerChar(word[i]) == LowerChar(s[i])
      {
        assert Lower(s)[i] == LowerChar(s[i]);
        assert Lower(word)[i] == LowerChar(word[i]);
      }
    }
  }

  /** Strings that are equal ignoring case have the same lower-case form. */
  lemma EqualsIgnoreCaseSameLower(a: string, b: string)
    requires EqualsIgnoreCase(a, b)
    ensures Lower(a) == Lower(b)
  {
    forall i | 0 <= i < |a|
      ensures Lower(a)[i] == Lower(b)[i]
    {
    }
  }

  // ---------------------------------------------------------------------------
  // Searching

  /** `String.contains`: `t` occurs in `s` as a contiguous run. */
  predicate Contains(s: string, t: string) {
    exists i :: 0 <= i <= |s| && OccursAt(s, t, i)
  }

  /** `t` occurs in `s` starting at position `i`. */
  predicate OccursAt(s: string, t: string, i: int) {
    0 <= i && i + |t| <= |s| && s[i..i + |t|] == t
  }

  /** For a one-character pattern, `contains` is membership. */
  lemma ContainsChar(s: string, c: char)
    ensures Contains(s, [c]) <==> c in s
  {
    if c in s {
      var i :| 0 <= i < |s| && s[i] == c;
      assert OccursAt(s, [c], i);
    }
    if Contains(s, [c]) {
      var i :| 0 <= i <= |s| && OccursAt(s, [c], i);
      assert s[i..i + 1] == [c];
      assert s[i] == s[i..i + 1][0];
    }
  }

  /** `"..".contains` spelled out: two adjacent dots somewhere in `s`. */
  lemma ContainsDotDot(s: string)
    ensures Contains(s, "..") <==> exists i :: 0 <= i < |s| - 1 && s[i] == '.' && s[i + 1] == '.'
  {
    if Contains(s, "..") {
      var i :| 0 <= i <= |s| && OccursAt(s, "..", i);
      assert s[i..i + 2] == "..";
      assert s[i] == s[i..i + 2][0];
      assert s[i + 1] == s[i..i + 2][1];
    }
    if exists i :: 0 <= i < |s| - 1 && s[i] == '.' && s[i + 1] == '.' {
      var i :| 0 <= i < |s| - 1 && s[i] == '.' && s[i + 1] == '.';
      assert OccursAt(s, "..", i);
    }
  }

  /** `String.lastIndexOf(char)`: the last position of `c`, or -1 when absent. */
  function LastIndexOf(s: string, c: char): (r: int)
    ensures -1 <= r < |s|
    ensures r == -1 <==> c !in s
    ensures 0 <= r ==> s[r] == c && c !in s[r + 1..]
    decreases |s|
  {
    if |s| == 0 then -1
    else if s[|s| - 1] == c then |s| - 1
    else
      var k := LastIndexOf(s[..|s| - 1], c);
      assert s == s[..|s| - 1] + [s[|s| - 1]];
      k
  }

  /** `String.substring(begin)`: None stands for the StringIndexOutOfBoundsException
      thrown when `begin` is negative or past the end. */
  function Substring(s: string, begin: int): (r: Option<string>)
    ensures r.Some? <==> 0 <= begin <= |s|
    ensures r.Some? ==> s == s[..begin] + r.value
  {
    if 0 <= begin <= |s| then Some(s[begin..]) else None
  }

  // ---------------------------------------------------------------------------
  // Decimal integers

  predicate IsDigit(c: char) {
    '0' <= c <= '9'
  }

  predicate AllDigits(s: string) {
    forall i :: 0 <= i < |s| ==> IsDigit(s[i])
  }

  function DigitValue(c: char): nat
    requires IsDigit(c)
  {
    c as int - '0' as int
  }

  function DigitChar(d: nat): (c: char)
    requires d < 10
    ensures IsDigit(c) && DigitValue(c) == d
  {
    ('0' as int + d) as char
  }

  /** The value of a run of decimal digits, most significant first. */
  function DigitsValue(s: string): nat
    requires AllDigits(s)
    decreases |s|
  {
    if |s| == 0 then 0 else 10 * DigitsValue(s[..|s| - 1]) + DigitValue(s[|s| - 1])
  }

  /** `Integer.parseInt(s)` in radix 10. None stands for the NumberFormatException:
      an empty string, a lone sign, a non-digit, or a value outside the `int` range. */
  function ParseInt(s: string): Option<Int32> {
    if |s| == 0 then None
    else
      var negative := s[0] == '-';
      var digits := if s[0] == '-' || s[0] == '+' then s[1..] else s;
      if |digits| == 0 || !AllDigits(digits) then None
      else
        var v: int := if negative then -(DigitsValue(digits) as int) else DigitsValue(digits);
        if IntMin <= v <= IntMax then Some(v) else None
  }

  /** `Integer.toString(n)` for a natural number: its shortest decimal spelling. */
  function ShowNat(n: nat): (s: string)
    ensures |s| >= 1 && AllDigits(s) && DigitsValue(s) == n
    ensures |s| > 1 ==> s[0] != '0'
    decreases n
  {
    if n < 10 then [DigitChar(n)]
    else
      var s := ShowNat(n / 10) + [DigitChar(n % 10)];
      assert s[..|s| - 1] == ShowNat(n / 10);
      s
  }

  /** `Integer.toString(n)`. */
  function ShowInt(n: int): string {
    if n < 0 then "-" + ShowNat(-n) else ShowNat(n)
  }

  /** Every `int` survives printing and parsing back. */
  lemma ParseIntShowInt(n: Int32)
    ensures ParseInt(ShowInt(n)) == Some(n)
  {
    if n < 0 {
      var s := ShowInt(n);
      assert s[0] == '-';
      assert s[1..] == ShowNat(-(n as int));
    } else {
      var s := ShowInt(n);
      assert IsDigit(s[0]);
    }
  }

  // ---------------------------------------------------------------------------
  // UUID text

  /** The characters `UUID.toString` writes: lower-case hex digits and '-'. */
  predicate IsUuidChar(c: char) {
    '0' <= c <= '9' || 'a' <= c <= 'f' || c == '-'
  }

  predicate IsUuidText(s: string) {
    forall i :: 0 <= i < |s| ==> IsUuidChar(s[i])
  }
}
