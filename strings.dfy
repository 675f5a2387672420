/** Stand-ins for the JavaScript string operations the RPM identity encoder
    relies on: `String.prototype.split` with a one-character separator,
    `Array.prototype.join`, `String(n)` for an integer and ASCII
    `toLowerCase`. */
module Strings {

  /** `s.split(c)`: the fields of `s` between occurrences of `c`, in order. */
  function Split(s: string, c: char): (fields: seq<string>)
    ensures |fields| >= 1
    ensures forall k :: 0 <= k < |fields| ==> c !in fields[k]
  {
    if s == [] then [""]
    else
      var rest := Split(s[1..], c);
      if s[0] == c then [""] + rest
      else [[s[0]] + rest[0]] + rest[1..]
  }

  /** `parts.join(sep)`; the empty list joins to "". */
  function JoinWith(parts: seq<string>, sep: string): string
  {
    if |parts| == 0 then ""
    else if |parts| == 1 then parts[0]
    else parts[0] + sep + JoinWith(parts[1..], sep)
  }

  /** A string without the separator is a single field. */
  lemma {:induction false} SplitWithoutSeparator(a: string, c: char)
    requires c !in a
    ensures Split(a, c) == [a]
  {
    if a != [] {
      SplitWithoutSeparator(a[1..], c);
      assert a[0] != c;
      assert [a[0]] + a[1..] == a;
    }
  }

  /** The text before the first separator is the first field; the rest is
      split on its own. */
  lemma {:induction false} SplitAtFirstSeparator(a: string, c: char, t: string)
    requires c !in a
    ensures Split(a + [c] + t, c) == [a] + Split(t, c)
  {
    var s := a + [c] + t;
    if a == [] {
      assert s[1..] == t;
    } else {
      assert s[1..] == a[1..] + [c] + t;
      SplitAtFirstSeparator(a[1..], c, t);
      assert [a[0]] + a[1..] == a;
    }
  }

  /** Joining the fields with the separator gives back the original string. */
  lemma {:induction false} JoinSplit(s: string, c: char)
    ensures JoinWith(Split(s, c), [c]) == s
  {
    if s != [] {
      JoinSplit(s[1..], c);
      var rest := Split(s[1..], c);
      if s[0] != c {
        if |rest| == 1 {
          assert JoinWith(rest, [c]) == rest[0];
        } else {
          assert JoinWith(rest, [c]) == rest[0] + [c] + JoinWith(rest[1..], [c]);
          assert [[s[0]] + rest[0]] + rest[1..] == [[s[0]] + rest[0]] + rest[1..];
          assert ([[s[0]] + rest[0]] + rest[1..])[1..] == rest[1..];
        }
      } else {
        assert ([""] + rest)[1..] == rest;
      }
    }
  }

  /** Splitting a joined list of separator-free parts gives the parts back. */
  lemma {:induction false} SplitJoin(parts: seq<string>, c: char)
    requires |parts| >= 1
    requires forall k :: 0 <= k < |parts| ==> c !in parts[k]
    ensures Split(JoinWith(parts, [c]), c) == parts
  {
    if |parts| == 1 {
      SplitWithoutSeparator(parts[0], c);
    } else {
      SplitJoin(parts[1..], c);
      SplitAtFirstSeparator(parts[0], c, JoinWith(parts[1..], [c]));
      assert [parts[0]] + parts[1..] == parts;
    }
  }

  /** The character of a decimal digit. */
  function DigitChar(d: int): (ch: char)
    requires 0 <= d < 10
    ensures '0' <= ch <= '9'
  {
    ('0' as int + d) as char
  }

  predicate IsDigit(ch: char)
  {
    '0' <= ch <= '9'
  }

  /** Decimal digits of a natural number, most significant first. */
  function NatToDecimal(n: nat): (s: string)
    ensures |s| >= 1
    ensures forall k :: 0 <= k < |s| ==> IsDigit(s[k])
    ensures s[0] == '0' ==> n == 0
  {
    if n < 10 then [DigitChar(n)]
    else NatToDecimal(n / 10) + [DigitChar(n % 10)]
  }

  /** `String(n)` for an integer `n`. */
  function IntToDecimal(n: int): (s: string)
    ensures |s| >= 1
    ensures s[0] == '-' <==> n < 0
    ensures forall k :: (if n < 0 then 1 else 0) <= k < |s| ==> IsDigit(s[k])
  {
    if n < 0 then "-" + NatToDecimal(-n) else NatToDecimal(n)
  }

  /** The value of a string of decimal digits. */
  function DecimalValue(s: string): int
    requires forall k :: 0 <= k < |s| ==> IsDigit(s[k])
  {
    if s == [] then 0
    else DecimalValue(s[..|s| - 1]) * 10 + (s[|s| - 1] as int - '0' as int)
  }

  /** Reading an integer back from its string form. */
  function ParseInt(s: string): int
    requires |s| >= 1
    requires forall k :: (if s[0] == '-' then 1 else 0) <= k < |s| ==> IsDigit(s[k])
  {
    if s[0] == '-' then -DecimalValue(s[1..]) else DecimalValue(s)
  }

  lemma {:induction false} NatToDecimalRoundTrip(n: nat)
    ensures DecimalValue(NatToDecimal(n)) == n
  {
    if n >= 10 {
      NatToDecimalRoundTrip(n / 10);
      var s := NatToDecimal(n);
      assert s[..|s| - 1] == NatToDecimal(n / 10);
    }
  }

  /** `String(n)` loses nothing: the integer can be read back from it. */
  lemma IntToDecimalRoundTrip(n: int)
    ensures var s := IntToDecimal(n);
      |s| >= 1 && (forall k :: (if s[0] == '-' then 1 else 0) <= k < |s| ==> IsDigit(s[k])) && ParseInt(s) == n
  {
    var s := IntToDecimal(n);
    if n < 0 {
      NatToDecimalRoundTrip(-n);
      assert s[1..] == NatToDecimal(-n);
    } else {
      NatToDecimalRoundTrip(n);
    }
  }

  /** ASCII `toLowerCase` of one character. */
  function LowerChar(ch: char): char
  {
    if 'A' <= ch <= 'Z' then (ch as int - 'A' as int + 'a' as int) as char else ch
  }

  /** `s.toLowerCase()` for ASCII text. */
  function ToLowerAscii(s: string): (r: string)
    ensures |r| == |s|
    ensures forall i :: 0 <= i < |s| ==> !('A' <= r[i] <= 'Z')
    ensures forall i :: 0 <= i < |s| && !('A' <= s[i] <= 'Z') ==> r[i] == s[i]
  {
    seq(|s|, i requires 0 <= i < |s| => LowerChar(s[i]))
  }
}
