/**
 * The few java.lang.String and java.lang.Integer operations the core relies on,
 * stated over `string`, a sequence of Unicode scalar values. Only the ASCII digits
 * '0'..'9' are treated as digits.
 */
module Strings {
  import opened Wrappers

  predicate IsDigit(c: char) {
    '0' <= c <= '9'
  }

  predicate AllDigits(s: string) {
    forall i :: 0 <= i < |s| ==> IsDigit(s[i])
  }

  function DigitChar(d: nat): (c: char)
    requires d < 10
    ensures IsDigit(c) && c as int - '0' as int == d
  {
    ('0' as int + d) as char
  }

  function DigitValue(c: char): (d: nat)
    requires IsDigit(c)
    ensures d < 10 && DigitChar(d) == c
  {
    c as int - '0' as int
  }

  /** Decimal text of `n`, as `String.format("%d", n)` writes a non-negative int. */
  function NatToString(n: nat): (s: string)
    ensures |s| > 0 && AllDigits(s)
    ensures s[0] == '0' <==> n == 0
    decreases n
  {
    if n < 10 then [DigitChar(n)] else NatToString(n / 10) + [DigitChar(n % 10)]
  }

  /** Value of a run of decimal digits, as `Integer.parseInt` reads it (without the int range). */
  function ParseDigits(s: string): nat
    requires AllDigits(s)
  {
    if s == [] then 0 else ParseDigits(s[..|s| - 1]) * 10 + DigitValue(s[|s| - 1])
  }

  /** Reading back the decimal text of `n` gives `n`. */
  lemma {:induction false} ParseNatToString(n: nat)
    ensures ParseDigits(NatToString(n)) == n
    decreases n
  {
    var s := NatToString(n);
    if n >= 10 {
      ParseNatToString(n / 10);
      assert s[..|s| - 1] == NatToString(n / 10);
    }
  }

  /** The text after one leading '+' or '-', if there is one. */
  function Unsigned(s: string): (d: string)
    ensures |s| > 0 && (s[0] == '-' || s[0] == '+') ==> s == [s[0]] + d
    ensures !(|s| > 0 && (s[0] == '-' || s[0] == '+')) ==> d == s
  {
    if |s| > 0 && (s[0] == '-' || s[0] == '+') then s[1..] else s
  }

  /**
   * `Integer.parseInt(s)` on ASCII text: an optional sign, then at least one digit,
   * and a value inside the 32-bit range; anything else is a NumberFormatException (None).
   */
  function ParseInt(s: string): (r: Option<int>)
    ensures r.Some? <==> (Unsigned(s) != [] && AllDigits(Unsigned(s))
      && (if s[0] == '-' then ParseDigits(Unsigned(s)) <= 0x8000_0000 else ParseDigits(Unsigned(s)) < 0x8000_0000))
    ensures r.Some? ==> r.value == if s[0] == '-' then 0 - ParseDigits(Unsigned(s)) as int else ParseDigits(Unsigned(s))
    ensures r.Some? ==> -0x8000_0000 <= r.value < 0x8000_0000
  {
    var digits := Unsigned(s);
    if digits == [] || !AllDigits(digits) then None
    else
      var v: int := if s[0] == '-' then 0 - ParseDigits(digits) as int else ParseDigits(digits);
      if -0x8000_0000 <= v < 0x8000_0000 then Some(v) else None
  }

  /** Plain digits read as their value below 2^31; at or past it they are a NumberFormatException. */
  lemma ParseUnsignedDigits(s: string)
    requires s != [] && AllDigits(s)
    ensures ParseDigits(s) < 0x8000_0000 ==> ParseInt(s) == Some(ParseDigits(s))
    ensures ParseDigits(s) >= 0x8000_0000 ==> ParseInt(s) == None
  {
    assert IsDigit(s[0]);
  }

  /** A sign alone, or a non-digit after the sign, is a NumberFormatException. */
  lemma ParseIntRejects(s: string, i: nat)
    requires i < |s| && !IsDigit(s[i]) && !(i == 0 && (s[0] == '-' || s[0] == '+'))
    ensures ParseInt(s) == None
  {
    if |s| > 0 && (s[0] == '-' || s[0] == '+') {
      assert Unsigned(s)[i - 1] == s[i];
    }
  }

  /** `s.replace(c, d)`: every occurrence of the character `c` becomes `d`. */
  function ReplaceChar(s: string, c: char, d: char): (r: string)
    ensures |r| == |s|
    ensures forall i :: 0 <= i < |s| ==> r[i] == if s[i] == c then d else s[i]
  {
    if s == [] then [] else [if s[0] == c then d else s[0]] + ReplaceChar(s[1..], c, d)
  }

  lemma ReplaceCharConcat(a: string, b: string, c: char, d: char)
    ensures ReplaceChar(a + b, c, d) == ReplaceChar(a, c, d) + ReplaceChar(b, c, d)
  {
    var l, r := ReplaceChar(a + b, c, d), ReplaceChar(a, c, d) + ReplaceChar(b, c, d);
    assert forall i :: 0 <= i < |l| ==> l[i] == r[i] by {
      forall i | 0 <= i < |l| ensures l[i] == r[i] {
        if i >= |a| {
          assert (a + b)[i] == b[i - |a|];
        }
      }
    }
  }

  lemma ReplaceCharAbsent(s: string, c: char, d: char)
    requires c !in s
    ensures ReplaceChar(s, c, d) == s
  {
  }

  /**
   * `s.replace(target, replacement)` for a non-empty target: occurrences are
   * replaced from left to right, never overlapping.
   */
  function ReplaceAll(s: string, target: string, replacement: string): string
    requires |target| > 0
    decreases |s|
  {
    if |s| < |target| then s
    else if s[..|target|] == target then replacement + ReplaceAll(s[|target|..], target, replacement)
    else [s[0]] + ReplaceAll(s[1..], target, replacement)
  }

  /** Text none of whose characters can start the target is left as it is. */
  lemma {:induction false} ReplaceAllAbsent(s: string, target: string, replacement: string)
    requires |target| > 0 && target[0] !in s
    ensures ReplaceAll(s, target, replacement) == s
    decreases |s|
  {
    if |s| >= |target| {
      assert s[..|target|][0] == s[0] != target[0];
      ReplaceAllAbsent(s[1..], target, replacement);
    }
  }

  /** A prefix none of whose characters can start the target passes through unchanged. */
  lemma {:induction false} ReplaceAllSkipsPrefix(p: string, t: string, target: string, replacement: string)
    requires |target| > 0 && target[0] !in p
    ensures ReplaceAll(p + t, target, replacement) == p + ReplaceAll(t, target, replacement)
    decreases |p|
  {
    if p != [] {
      var s := p + t;
      if |s| < |target| {
        assert ReplaceAll(s, target, replacement) == s;
        assert ReplaceAll(t, target, replacement) == t;
      } else {
        assert s[..|target|][0] == p[0] != target[0];
        assert s[1..] == p[1..] + t;
        ReplaceAllSkipsPrefix(p[1..], t, target, replacement);
        assert ReplaceAll(s, target, replacement) == [p[0]] + ReplaceAll(p[1..] + t, target, replacement);
        assert p == [p[0]] + p[1..];
        assert [p[0]] + (p[1..] + ReplaceAll(t, target, replacement)) == p + ReplaceAll(t, target, replacement);
      }
    } else {
      assert p + t == t;
    }
  }

  /** `s.lastIndexOf(c)`: the position of the last `c` in `s`, or -1 when there is none. */
  function LastIndexOf(s: string, c: char): (i: int)
    ensures -1 <= i < |s|
    ensures i == -1 <==> c !in s
    ensures i >= 0 ==> s[i] == c && c !in s[i + 1..]
  {
    if s == [] then -1
    else if s[|s| - 1] == c then |s| - 1
    else
      var i := LastIndexOf(s[..|s| - 1], c);
      assert s == s[..|s| - 1] + [s[|s| - 1]];
      i
  }
}
