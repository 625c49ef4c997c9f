/**
 * The Python 2 string operations the job-spec compiler relies on:
 * `str.split` on one character, `sep.join`, `str.strip`, `str.isalnum`,
 * `str(n)` and `"%04d" % n` for integers.
 */
module Text {

  /** The characters `str.strip()` removes: space, tab, newline, vertical tab, form feed, carriage return. */
  predicate IsSpace(c: char) {
    c == ' ' || ('\t' <= c <= '\r')
  }

  /** A letter or a digit, as `str.isalnum()` sees a byte string. */
  predicate IsAlnumChar(c: char) {
    ('a' <= c <= 'z') || ('A' <= c <= 'Z') || ('0' <= c <= '9')
  }

  /** `s.isalnum()`: non-empty, and every character is a letter or a digit. */
  predicate IsAlnum(s: string) {
    |s| > 0 && forall i :: 0 <= i < |s| ==> IsAlnumChar(s[i])
  }

  predicate AllSpace(s: string) {
    forall i :: 0 <= i < |s| ==> IsSpace(s[i])
  }

  /** `s.lstrip()`: `s` from its first non-space character on. */
  function StripLeft(s: string): (r: string)
    ensures |r| <= |s|
  {
    if |s| > 0 && IsSpace(s[0]) then StripLeft(s[1..]) else s
  }

  /** `s.rstrip()`: `s` up to its last non-space character. */
  function StripRight(s: string): (r: string)
    ensures |r| <= |s|
  {
    if |s| > 0 && IsSpace(s[|s| - 1]) then StripRight(s[..|s| - 1]) else s
  }

  /** `s.strip()`. */
  function Strip(s: string): (r: string)
    ensures |r| <= |s|
  {
    StripRight(StripLeft(s))
  }

  /** lstrip removes a run of whitespace from the front and keeps the rest, which starts with no whitespace. */
  lemma {:induction false} StripLeftShape(s: string)
    ensures var r := StripLeft(s);
      && r == s[|s| - |r|..] && AllSpace(s[..|s| - |r|]) && (r == [] || !IsSpace(r[0]))
  {
    if |s| > 0 && IsSpace(s[0]) {
      StripLeftShape(s[1..]);
      var r := StripLeft(s);
      assert s[1..][|s| - 1 - |r|..] == s[|s| - |r|..];
      assert s[..|s| - |r|] == [s[0]] + s[1..][..|s| - 1 - |r|];
    }
  }

  /** rstrip removes a run of whitespace from the back and keeps the rest, which ends with no whitespace. */
  lemma {:induction false} StripRightShape(s: string)
    ensures var r := StripRight(s);
      && r == s[..|r|] && AllSpace(s[|r|..]) && (r == [] || !IsSpace(r[|r| - 1]))
  {
    if |s| > 0 && IsSpace(s[|s| - 1]) {
      StripRightShape(s[..|s| - 1]);
      var r := StripRight(s);
      assert s[..|s| - 1][..|r|] == s[..|r|];
      assert s[|r|..] == s[..|s| - 1][|r|..] + [s[|s| - 1]];
    }
  }

  /** strip leaves no whitespace at either end. */
  lemma StripEnds(s: string)
    ensures var r := Strip(s); r == [] || (!IsSpace(r[0]) && !IsSpace(r[|r| - 1]))
  {
    StripLeftShape(s);
    var l := StripLeft(s);
    StripRightShape(l);
    var r := StripRight(l);
    if r != [] {
      assert r[0] == l[0];
    }
  }

  /** `s.split(sep)` for a one-character separator: the pieces between the separators, never none. */
  function Split(s: string, sep: char): (r: seq<string>)
    ensures |r| >= 1
  {
    if |s| == 0 then [""]
    else
      var rest := Split(s[1..], sep);
      if s[0] == sep then [""] + rest else [[s[0]] + rest[0]] + rest[1..]
  }

  /** No piece of a split holds the separator. */
  lemma {:induction false} SplitPieces(s: string, sep: char)
    ensures forall k :: 0 <= k < |Split(s, sep)| ==> sep !in Split(s, sep)[k]
  {
    if |s| > 0 {
      SplitPieces(s[1..], sep);
      var rest := Split(s[1..], sep);
      if s[0] != sep {
        assert sep !in rest[0];
        assert sep !in [s[0]] + rest[0];
      }
    }
  }

  /** `sep.join(parts)`. */
  function JoinWith(sep: string, parts: seq<string>): string {
    if |parts| == 0 then ""
    else if |parts| == 1 then parts[0]
    else parts[0] + sep + JoinWith(sep, parts[1..])
  }

  predicate IsDigit(c: char) {
    '0' <= c <= '9'
  }

  predicate AllDigits(s: string) {
    forall i :: 0 <= i < |s| ==> IsDigit(s[i])
  }

  function DigitChar(d: nat): (c: char)
    requires d < 10
    ensures IsDigit(c)
  {
    (('0' as int) + d) as char
  }

  /** The number a string of decimal digits denotes, leading zeros allowed. */
  function DigitsValue(s: string): nat
    requires AllDigits(s)
  {
    if |s| == 0 then 0 else 10 * DigitsValue(s[..|s| - 1]) + ((s[|s| - 1] as int) - ('0' as int))
  }

  /** `str(n)` for a natural number: its decimal digits. */
  function NatToDecimal(n: nat): (r: string)
    ensures |r| >= 1
    ensures n < 10 ==> |r| == 1
    ensures n < 100 ==> |r| <= 2
    ensures n < 1000 ==> |r| <= 3
    ensures n < 10000 ==> |r| <= 4
  {
    if n < 10 then [DigitChar(n)] else NatToDecimal(n / 10) + [DigitChar(n % 10)]
  }

  /** `str(n)` is all digits, denotes `n`, and starts with `0` only for zero. */
  lemma {:induction false} NatToDecimalValue(n: nat)
    ensures AllDigits(NatToDecimal(n)) && DigitsValue(NatToDecimal(n)) == n
    ensures NatToDecimal(n)[0] == '0' ==> n == 0
  {
    if n >= 10 {
      var r := NatToDecimal(n);
      NatToDecimalValue(n / 10);
      assert r[..|r| - 1] == NatToDecimal(n / 10);
      assert r[0] == NatToDecimal(n / 10)[0];
      assert r[|r| - 1] == DigitChar(n % 10);
    }
  }

  /** `str(i)` for an integer. */
  function IntToDecimal(i: int): (r: string)
    ensures |r| >= 1
    ensures i < 0 ==> |r| >= 2 && r[0] == '-'
  {
    if i < 0 then "-" + NatToDecimal(-i) else NatToDecimal(i)
  }

  /**
   * `str(i)` denotes `i`: its digits, after the sign of a negative number,
   * denote the magnitude, and they start with `0` only for zero.
   */
  lemma IntToDecimalValue(i: int)
    ensures i >= 0 ==> AllDigits(IntToDecimal(i)) && DigitsValue(IntToDecimal(i)) == i
    ensures i >= 0 ==> (IntToDecimal(i)[0] == '0' ==> i == 0)
    ensures i < 0 ==> AllDigits(IntToDecimal(i)[1..]) && DigitsValue(IntToDecimal(i)[1..]) == -i
    ensures i < 0 ==> IntToDecimal(i)[1] != '0'
  {
    if i < 0 {
      NatToDecimalValue(-i);
      assert IntToDecimal(i)[1..] == NatToDecimal(-i);
    } else {
      NatToDecimalValue(i);
    }
  }

  function Zeros(n: nat): (r: string)
    ensures |r| == n && AllDigits(r)
  {
    seq(n, _ => '0')
  }

  /** `s` left-padded with zeros to at least `width` characters. */
  function PadZeros(s: string, width: nat): (r: string)
    ensures |r| == if |s| >= width then |s| else width
    ensures r == Zeros(|r| - |s|) + s
  {
    if |s| >= width then s else Zeros(width - |s|) + s
  }

  /**
   * `"%04d" % i`: at least four characters, zero-padded after the sign
   * (`"%04d" % 5 == "0005"`, `"%04d" % -5 == "-005"`).
   */
  function ZeroPad4(i: int): (r: string)
    ensures |r| >= 4
    ensures 0 <= i < 10000 ==> |r| == 4
    ensures i < 0 ==> r[0] == '-'
  {
    if i < 0 then "-" + PadZeros(NatToDecimal(-i), 3) else PadZeros(NatToDecimal(i), 4)
  }

  /**
   * `%04d` is `str(i)` widened to four characters by zeros put after the
   * sign, and left alone when it is already that wide.
   */
  lemma ZeroPad4Shape(i: int)
    ensures |ZeroPad4(i)| == if |IntToDecimal(i)| >= 4 then |IntToDecimal(i)| else 4
    ensures i >= 0 ==> ZeroPad4(i) == Zeros(|ZeroPad4(i)| - |IntToDecimal(i)|) + IntToDecimal(i)
    ensures i < 0 ==> ZeroPad4(i) == "-" + Zeros(|ZeroPad4(i)| - |IntToDecimal(i)|) + IntToDecimal(i)[1..]
  {
    if i < 0 {
      var digits := NatToDecimal(-i);
      var padded := PadZeros(digits, 3);
      assert ZeroPad4(i) == "-" + padded;
      assert IntToDecimal(i) == "-" + digits && IntToDecimal(i)[1..] == digits;
      assert |ZeroPad4(i)| - |IntToDecimal(i)| == |padded| - |digits|;
      assert padded == Zeros(|padded| - |digits|) + digits;
      assert "-" + (Zeros(|padded| - |digits|) + digits) == "-" + Zeros(|padded| - |digits|) + digits;
    } else {
      var digits := NatToDecimal(i);
      assert ZeroPad4(i) == PadZeros(digits, 4) && IntToDecimal(i) == digits;
    }
  }

  /** The padded text still denotes the number: its digits, after the sign of a negative number, denote the magnitude. */
  lemma ZeroPad4Value(i: int)
    ensures i >= 0 ==> AllDigits(ZeroPad4(i)) && DigitsValue(ZeroPad4(i)) == i
    ensures i < 0 ==> AllDigits(ZeroPad4(i)[1..]) && DigitsValue(ZeroPad4(i)[1..]) == -i
  {
    if i < 0 {
      NatToDecimalValue(-i);
      PadZerosValue(NatToDecimal(-i), 3);
      assert ZeroPad4(i)[1..] == PadZeros(NatToDecimal(-i), 3);
    } else {
      NatToDecimalValue(i);
      PadZerosValue(NatToDecimal(i), 4);
    }
  }

  lemma PadZerosValue(s: string, width: nat)
    requires AllDigits(s)
    ensures AllDigits(PadZeros(s, width)) && DigitsValue(PadZeros(s, width)) == DigitsValue(s)
  {
    var r := PadZeros(s, width);
    LeadingZeros(r, |r| - |s|, s);
  }

  /** Leading zeros do not change the value of a digit string. */
  lemma {:induction false} LeadingZeros(r: string, n: nat, s: string)
    requires AllDigits(s) && r == Zeros(n) + s
    ensures AllDigits(r) && DigitsValue(r) == DigitsValue(s)
  {
    if |s| == 0 {
      if n > 0 {
        assert r[..|r| - 1] == Zeros(n - 1) + s;
        LeadingZeros(r[..|r| - 1], n - 1, s);
      }
    } else {
      assert r[..|r| - 1] == Zeros(n) + s[..|s| - 1];
      LeadingZeros(r[..|r| - 1], n, s[..|s| - 1]);
    }
  }

  /** Concatenation is associative. */
  lemma ConcatAssoc<T>(a: seq<T>, b: seq<T>, c: seq<T>)
    ensures a + b + c == a + (b + c)
  {
  }

  /** Splitting at a separator splits the pieces there too. */
  lemma {:induction false} SplitConcat(x: string, y: string, sep: char)
    ensures Split(x + [sep] + y, sep) == Split(x, sep) + Split(y, sep)
  {
    var s := x + [sep] + y;
    if |x| == 0 {
      assert s[0] == sep && s[1..] == y;
      assert Split(s, sep) == [""] + Split(y, sep);
    } else {
      assert s[0] == x[0] && s[1..] == x[1..] + [sep] + y;
      SplitConcat(x[1..], y, sep);
      var a, b := Split(x[1..], sep), Split(y, sep);
      assert Split(s[1..], sep) == a + b;
      if x[0] == sep {
        assert Split(s, sep) == [""] + (a + b);
        assert Split(x, sep) == [""] + a;
        ConcatAssoc([""], a, b);
      } else {
        assert (a + b)[0] == a[0];
        assert (a + b)[1..] == a[1..] + b;
        assert Split(s, sep) == [[x[0]] + a[0]] + (a[1..] + b);
        assert Split(x, sep) == [[x[0]] + a[0]] + a[1..];
        ConcatAssoc([[x[0]] + a[0]], a[1..], b);
      }
    }
  }

  /** A string without the separator splits into itself alone. */
  lemma {:induction false} SplitNoSeparator(x: string, sep: char)
    requires sep !in x
    ensures Split(x, sep) == [x]
  {
    if |x| > 0 {
      SplitNoSeparator(x[1..], sep);
      assert [x[0]] + x[1..] == x;
    }
  }

  /** Joining the pieces of a split with its separator gives back the string. */
  lemma {:induction false} SplitJoinRoundTrip(s: string, sep: char)
    ensures JoinWith([sep], Split(s, sep)) == s
  {
    if |s| > 0 {
      SplitJoinRoundTrip(s[1..], sep);
      var rest := Split(s[1..], sep);
      assert JoinWith([sep], rest) == s[1..];
      if s[0] == sep {
        var parts := [""] + rest;
        assert Split(s, sep) == parts && parts[1..] == rest;
        assert JoinWith([sep], parts) == "" + [sep] + JoinWith([sep], rest);
        assert [s[0]] + s[1..] == s;
      } else {
        var parts := [[s[0]] + rest[0]] + rest[1..];
        assert Split(s, sep) == parts;
        if |rest| == 1 {
          assert JoinWith([sep], parts) == [s[0]] + rest[0];
          assert [s[0]] + s[1..] == s;
        } else {
          var tail := JoinWith([sep], rest[1..]);
          assert parts[1..] == rest[1..];
          assert JoinWith([sep], rest) == rest[0] + [sep] + tail;
          assert JoinWith([sep], parts) == ([s[0]] + rest[0]) + [sep] + tail;
          assert ([s[0]] + rest[0]) + [sep] + tail == [s[0]] + (rest[0] + [sep] + tail);
          assert [s[0]] + s[1..] == s;
        }
      }
    }
  }

  /** Leading whitespace goes, the rest stays. */
  lemma {:induction false} StripLeftSpaces(p: string, x: string)
    requires AllSpace(p) && (x == [] || !IsSpace(x[0]))
    ensures StripLeft(p + x) == x
  {
    if |p| > 0 {
      assert (p + x)[1..] == p[1..] + x;
      StripLeftSpaces(p[1..], x);
    } else {
      assert p + x == x;
    }
  }

  /** Trailing whitespace goes, the rest stays. */
  lemma {:induction false} StripRightSpaces(x: string, q: string)
    requires AllSpace(q) && (x == [] || !IsSpace(x[|x| - 1]))
    ensures StripRight(x + q) == x
  {
    if |q| > 0 {
      assert (x + q)[..|x + q| - 1] == x + q[..|q| - 1];
      StripRightSpaces(x, q[..|q| - 1]);
    } else {
      assert x + q == x;
    }
  }

  /** Stripping a word framed by whitespace gives the word. */
  lemma StripPadded(p: string, t: string, q: string)
    requires AllSpace(p) && AllSpace(q) && IsAlnum(t)
    ensures Strip(p + t + q) == t
  {
    assert p + t + q == p + (t + q);
    assert (t + q)[0] == t[0];
    StripLeftSpaces(p, t + q);
    StripRightSpaces(t, q);
  }

}
