/** The C string functions that CameraParameters.cpp prints and parses with. */
module CStrings {
  /** What a C string function sees of a buffer: everything before the first NUL. */
  function CString(s: string): (r: string)
    ensures r <= s && '\0' !in r
    ensures '\0' !in s ==> r == s
  {
    StrchrFindsFirst(s, '\0');
    s[..Strchr(s, '\0')]
  }

  /** strchr: the index of the first c, or the length of the string if there is none. */
  function Strchr(s: string, c: char): (i: nat)
    ensures i <= |s|
    ensures i < |s| ==> s[i] == c
  {
    if s == "" || s[0] == c then 0 else 1 + Strchr(s[1..], c)
  }

  lemma {:induction false} StrchrFindsFirst(s: string, c: char)
    ensures c !in s[..Strchr(s, c)]
    ensures Strchr(s, c) == |s| <==> c !in s
  {
    if s != "" && s[0] != c {
      StrchrFindsFirst(s[1..], c);
      assert s[..Strchr(s, c)] == [s[0]] + s[1..][..Strchr(s[1..], c)];
      assert s == [s[0]] + s[1..];
    }
  }

  lemma StrchrAt(a: string, c: char, b: string)
    requires c !in a
    ensures Strchr(a + [c] + b, c) == |a|
  {
    var s := a + [c] + b;
    StrchrFindsFirst(s, c);
    var i := Strchr(s, c);
    assert s[|a|] == c;
    assert forall k :: 0 <= k < i ==> s[..i][k] != c;
  }

  predicate IsDigit(c: char) {
    '0' <= c <= '9'
  }

  predicate IsSpace(c: char) {
    c == ' ' || '\t' <= c <= '\r'
  }

  function DigitChar(d: nat): char
    requires d < 10
  {
    '0' + d as char
  }

  /** Decimal digits of n, without leading zeros. */
  function Digits(n: nat): (s: string)
    ensures s != "" && IsDigit(s[0])
  {
    if n < 10 then [DigitChar(n)] else Digits(n / 10) + [DigitChar(n % 10)]
  }

  /** printf("%d"). */
  function PrintInt(n: int): (s: string)
    ensures s != ""
  {
    if n < 0 then "-" + Digits(-n) else Digits(n)
  }

  function Zeros(n: int): (s: string)
    ensures |s| == if n < 0 then 0 else n
  {
    if n <= 0 then "" else Zeros(n - 1) + "0"
  }

  /** printf("%0*d"): the sign counts to the width. */
  function PrintPadded(n: int, width: nat): string {
    if n >= 0 then Zeros(width - |PrintInt(n)|) + PrintInt(n)
    else "-" + Zeros(width - |PrintInt(n)|) + PrintInt(n)[1..]
  }

  function Pow10(k: nat): nat {
    if k == 0 then 1 else 10 * Pow10(k - 1)
  }

  /** A number below 10^k has at most k digits. */
  lemma {:induction false} DigitsAreFew(n: nat, k: nat)
    requires k > 0 && n < Pow10(k)
    ensures |Digits(n)| <= k
  {
    if n >= 10 {
      DigitsAreFew(n / 10, k - 1);
    }
  }

  /** A 32-bit number takes at most 10 characters, and one for the sign. */
  lemma PrintedLength(n: int, width: nat)
    requires LONG_MIN <= n <= LONG_MAX && width <= 10
    ensures |PrintInt(n)| <= if n < 0 then 11 else 10
    ensures |PrintPadded(n, width)| <= if n < 0 then 11 else 10
    ensures 0 <= n < 100 ==> |PrintPadded(n, 2)| == 2
  {
    Pow10Of10();
    DigitsAreFew(if n < 0 then -n else n, 10);
    if 0 <= n < 100 {
      assert Pow10(2) == 100;
      DigitsAreFew(n, 2);
    }
  }

  lemma Pow10Of10()
    ensures Pow10(10) == 10_000_000_000
  {
    assert Pow10(5) == 100_000;
    assert Pow10(6) == 1_000_000;
    assert Pow10(7) == 10_000_000;
    assert Pow10(8) == 100_000_000;
    assert Pow10(9) == 1_000_000_000;
  }

  predicate AllDigits(s: string) {
    forall i :: 0 <= i < |s| ==> IsDigit(s[i])
  }

  lemma {:induction false} DigitsAreDigits(n: nat)
    ensures AllDigits(Digits(n))
  {
    if n >= 10 {
      DigitsAreDigits(n / 10);
    }
  }

  /** The length of the white space at the start of s. */
  function SpaceRun(s: string): (i: nat)
    ensures i <= |s|
  {
    if s == "" || !IsSpace(s[0]) then 0 else 1 + SpaceRun(s[1..])
  }

  /** The length of the run of digits at the start of s. */
  function DigitRun(s: string): (i: nat)
    ensures i <= |s|
  {
    if s == "" || !IsDigit(s[0]) then 0 else 1 + DigitRun(s[1..])
  }

  function DigitsValue(s: string): int {
    if s == "" then 0 else DigitsValue(s[..|s| - 1]) * 10 + (s[|s| - 1] as int - '0' as int)
  }

  const LONG_MAX := 0x7FFF_FFFF
  const LONG_MIN := -0x8000_0000

  function Saturate(n: int): int {
    if n > LONG_MAX then LONG_MAX else if n < LONG_MIN then LONG_MIN else n
  }

  /** strtol(s, &end, 10): white space, an optional sign, digits.  Returns the value and the
      index of end, which is 0 if there are no digits. */
  function Strtol(s: string): (r: (int, nat))
    ensures r.1 <= |s|
  {
    var a := SpaceRun(s);
    var b := if a < |s| && (s[a] == '-' || s[a] == '+') then a + 1 else a;
    var n := DigitRun(s[b..]);
    if n == 0 then (0, 0)
    else
      var v: int := DigitsValue(s[b..][..n]);
      (Saturate(if b > a && s[a] == '-' then -v else v), b + n)
  }

  lemma {:induction false} DigitsValueOfDigits(n: nat)
    ensures DigitsValue(Digits(n)) == n
  {
    if n >= 10 {
      DigitsValueOfDigits(n / 10);
      assert Digits(n)[..|Digits(n)| - 1] == Digits(n / 10);
    } else {
      assert Digits(n)[..0] == "";
    }
  }

  lemma {:induction false} DigitRunOf(a: string, b: string)
    requires AllDigits(a) && (b != "" ==> !IsDigit(b[0]))
    ensures DigitRun(a + b) == |a|
  {
    if a == "" {
      assert a + b == b;
    } else {
      assert (a + b)[1..] == a[1..] + b;
      DigitRunOf(a[1..], b);
    }
  }

  lemma StrtolIs(s: string, b: nat, n: nat)
    requires s != "" && !IsSpace(s[0]) && b == (if s[0] == '-' || s[0] == '+' then 1 else 0)
    requires DigitRun(s[b..]) == n && n > 0
    ensures Strtol(s) == (Saturate(if s[0] == '-' then -DigitsValue(s[b..][..n]) else DigitsValue(s[b..][..n])), b + n)
  {
    hide DigitRun, DigitsValue, Saturate;
    assert SpaceRun(s) == 0;
  }

  lemma StrtolOfDigits(digits: string, rest: string)
    requires digits != "" && AllDigits(digits) && (rest != "" ==> !IsDigit(rest[0]))
    ensures Strtol(digits + rest) == (Saturate(DigitsValue(digits)), |digits|)
  {
    hide Strtol, DigitRun, DigitsValue, Saturate, AllDigits;
    FirstIsDigit(digits);
    DigitRunOf(digits, rest);
    var s := digits + rest;
    assert s[0..] == s && s[..|digits|] == digits && s[0] == digits[0];
    StrtolIs(s, 0, |digits|);
  }

  lemma StrtolOfNegative(digits: string, rest: string)
    requires digits != "" && AllDigits(digits) && (rest != "" ==> !IsDigit(rest[0]))
    ensures Strtol("-" + (digits + rest)) == (Saturate(-DigitsValue(digits)), 1 + |digits|)
  {
    hide Strtol, DigitRun, DigitsValue, Saturate, AllDigits;
    DigitRunOf(digits, rest);
    var s := "-" + (digits + rest);
    assert s[1..] == digits + rest && (digits + rest)[..|digits|] == digits && s[0] == '-';
    StrtolIs(s, 1, |digits|);
  }

  lemma FirstIsDigit(digits: string)
    requires digits != "" && AllDigits(digits)
    ensures IsDigit(digits[0])
  {
  }

  /** strtol reads back what printf wrote, and stops right behind it. */
  lemma StrtolReadsPrintInt(n: int, rest: string)
    requires LONG_MIN <= n <= LONG_MAX
    requires rest != "" ==> !IsDigit(rest[0])
    ensures Strtol(PrintInt(n) + rest) == (n, |PrintInt(n)|)
  {
    hide Strtol, Digits, DigitsValue, AllDigits;
    if n < 0 {
      DigitsAreDigits(-n);
      DigitsValueOfDigits(-n);
      assert PrintInt(n) + rest == "-" + (Digits(-n) + rest);
      StrtolOfNegative(Digits(-n), rest);
    } else {
      DigitsAreDigits(n);
      DigitsValueOfDigits(n);
      StrtolOfDigits(Digits(n), rest);
    }
  }

  // ----- Numbers padded with zeros -----

  lemma {:induction false} ZerosAreDigits(n: int)
    ensures AllDigits(Zeros(n))
  {
    if n > 0 {
      ZerosAreDigits(n - 1);
    }
  }

  lemma DigitsValueLast(s: string, c: char)
    ensures DigitsValue(s + [c]) == DigitsValue(s) * 10 + (c as int - '0' as int)
  {
    assert (s + [c])[..|s|] == s;
  }

  lemma {:induction false} ZerosAreNothing(n: int)
    ensures DigitsValue(Zeros(n)) == 0
  {
    if n > 0 {
      ZerosAreNothing(n - 1);
      DigitsValueLast(Zeros(n - 1), '0');
    }
  }

  lemma {:induction false} LeadingZeros(n: int, digits: string)
    ensures DigitsValue(Zeros(n) + digits) == DigitsValue(digits)
  {
    if digits == "" {
      ZerosAreNothing(n);
      assert Zeros(n) + digits == Zeros(n);
    } else {
      var front, last := digits[..|digits| - 1], digits[|digits| - 1];
      LeadingZeros(n, front);
      DigitsValueLast(front, last);
      DigitsValueLast(Zeros(n) + front, last);
      assert digits == front + [last] && Zeros(n) + digits == Zeros(n) + front + [last];
    }
  }

  /** strtol reads back a padded number too, and stops right behind it. */
  lemma StrtolReadsPrintPadded(n: int, width: nat, rest: string)
    requires LONG_MIN <= n <= LONG_MAX
    requires rest != "" ==> !IsDigit(rest[0])
    ensures Strtol(PrintPadded(n, width) + rest) == (n, |PrintPadded(n, width)|)
  {
    hide Strtol, Digits, DigitsValue, AllDigits, Zeros;
    var abs: nat := if n < 0 then -n else n;
    var k := width - |PrintInt(n)|;
    ZerosAreDigits(k);
    DigitsAreDigits(abs);
    BothAllDigits(Zeros(k), Digits(abs));
    LeadingZeros(k, Digits(abs));
    DigitsValueOfDigits(abs);
    PaddedIs(n, width);
    if n < 0 {
      StrtolOfNegative(Zeros(k) + Digits(abs), rest);
      Reassociate("-", Zeros(k) + Digits(abs), rest);
    } else {
      StrtolOfDigits(Zeros(k) + Digits(abs), rest);
    }
  }

  lemma PaddedIs(n: int, width: nat)
    ensures var zeros := Zeros(width - |PrintInt(n)|);
            PrintPadded(n, width) == if n < 0 then "-" + (zeros + Digits(-n)) else zeros + Digits(n)
  {
    hide Digits, Zeros;
    if n < 0 {
      assert PrintInt(n)[1..] == Digits(-n);
    }
  }

  lemma Reassociate(a: string, b: string, c: string)
    ensures a + b + c == a + (b + c)
  {
  }

  lemma BothAllDigits(a: string, b: string)
    requires AllDigits(a) && AllDigits(b)
    ensures AllDigits(a + b)
  {
  }

  lemma PrintPaddedHasNo(n: int, width: nat, c: char)
    requires !IsDigit(c) && c != '-'
    ensures c !in PrintPadded(n, width) && PrintPadded(n, width) != ""
  {
    ZerosAreDigits(width - |PrintInt(n)|);
    DigitsAreDigits(if n < 0 then -n else n);
  }

  // ----- Every text that strtol may be given -----

  /** Tab, line feed, vertical tab, form feed, carriage return, space. */
  predicate AllSpaces(s: string) {
    forall i :: 0 <= i < |s| ==> s[i] as int in {9, 10, 11, 12, 13, 32}
  }

  /** White space, an optional sign and as many digits as there are, at least one; and the rest. */
  predicate IsNumber(s: string, spaces: string, sign: string, digits: string, rest: string) {
    && s == spaces + (sign + (digits + rest)) && AllSpaces(spaces) && (sign == "" || sign == "+" || sign == "-")
    && digits != "" && AllDigits(digits) && (rest != "" ==> !IsDigit(rest[0]))
  }

  /** The nearest number of 32 bits. */
  function Nearest(n: int): (r: int)
    ensures LONG_MIN <= r <= LONG_MAX && (LONG_MIN <= n <= LONG_MAX ==> r == n)
    ensures (n > LONG_MAX ==> r == LONG_MAX) && (n < LONG_MIN ==> r == LONG_MIN)
  {
    Saturate(n)
  }

  lemma {:induction false} SpaceRunOf(spaces: string, rest: string)
    requires AllSpaces(spaces) && (rest != "" ==> !IsSpace(rest[0]))
    ensures SpaceRun(spaces + rest) == |spaces|
  {
    if spaces == "" {
      assert spaces + rest == rest;
    } else {
      assert (spaces + rest)[1..] == spaces[1..] + rest;
      SpaceRunOf(spaces[1..], rest);
    }
  }

  lemma {:induction false} SpaceRunIsSpaces(s: string)
    ensures AllSpaces(s[..SpaceRun(s)])
  {
    if s != "" && IsSpace(s[0]) {
      SpaceRunIsSpaces(s[1..]);
      assert s[..SpaceRun(s)] == [s[0]] + s[1..][..SpaceRun(s[1..])];
    }
  }

  lemma {:induction false} DigitRunIsDigits(s: string)
    ensures AllDigits(s[..DigitRun(s)])
    ensures DigitRun(s) < |s| ==> !IsDigit(s[DigitRun(s)])
  {
    if s != "" && IsDigit(s[0]) {
      DigitRunIsDigits(s[1..]);
      assert s[..DigitRun(s)] == [s[0]] + s[1..][..DigitRun(s[1..])];
    }
  }

  /** A number in front of a text is read, with its sign, as the nearest one of 32 bits. */
  lemma StrtolReadsNumber(s: string, spaces: string, sign: string, digits: string, rest: string)
    requires IsNumber(s, spaces, sign, digits, rest)
    ensures Strtol(s) == (Nearest(if sign == "-" then -DigitsValue(digits) else DigitsValue(digits)), |spaces| + |sign| + |digits|)
  {
    hide *;
    StartsAt(s, spaces, sign, digits, rest);
    StrtolAt(s, |spaces|, |spaces| + |sign|, digits, sign == "-");
    NearestIsSaturate(if sign == "-" then -DigitsValue(digits) else DigitsValue(digits));
  }

  lemma NearestIsSaturate(n: int)
    ensures Nearest(n) == Saturate(n)
  {
  }

  predicate NumberStarts(s: string, a: nat, b: nat, digits: string, negative: bool) {
    && SpaceRun(s) == a < |s| && digits != "" && b <= |s|
    && b == (if s[a] == '-' || s[a] == '+' then a + 1 else a) && (negative <==> s[a] == '-')
    && DigitRun(s[b..]) == |digits| && s[b..][..|digits|] == digits
  }

  lemma StartsAt(s: string, spaces: string, sign: string, digits: string, rest: string)
    requires IsNumber(s, spaces, sign, digits, rest)
    ensures NumberStarts(s, |spaces|, |spaces| + |sign|, digits, sign == "-")
  {
    hide DigitRun, SpaceRun, AllDigits, AllSpaces;
    FirstIsDigit(digits);
    SignIsSeen(sign, digits);
    RunsOfParts(s, spaces, sign, digits, rest);
    hide IsNumber;
  }

  lemma RunsOfParts(s: string, spaces: string, sign: string, digits: string, rest: string)
    requires IsNumber(s, spaces, sign, digits, rest)
    ensures |spaces| < |s| && |spaces| + |sign| + |digits| <= |s|
    ensures SpaceRun(s) == |spaces| && s[|spaces|] == if sign == "" then digits[0] else sign[0]
    ensures DigitRun(s[|spaces| + |sign|..]) == |digits| && s[|spaces| + |sign|..][..|digits|] == digits
  {
    hide DigitRun, SpaceRun, AllDigits, AllSpaces;
    FirstIsDigit(digits);
    SignIsSeen(sign, digits);
    Parts(spaces, sign, digits, rest);
    SpaceRunOf(spaces, sign + (digits + rest));
    DigitRunOf(digits, rest);
  }

  lemma SignIsSeen(sign: string, digits: string)
    requires digits != "" && IsDigit(digits[0]) && (sign == "" || sign == "+" || sign == "-")
    ensures var c := if sign == "" then digits[0] else sign[0];
            && !IsSpace(c) && |sign| == (if c == '-' || c == '+' then 1 else 0) && (sign == "-" <==> c == '-')
  {
    if sign == "+" {
      assert sign[0] == '+';
    } else if sign == "-" {
      assert sign[0] == '-';
    }
  }

  lemma StrtolAt(s: string, a: nat, b: nat, digits: string, negative: bool)
    requires NumberStarts(s, a, b, digits, negative)
    ensures Strtol(s) == (Saturate(if negative then -DigitsValue(digits) else DigitsValue(digits)), b + |digits|)
  {
    hide DigitRun, DigitsValue, SpaceRun, Saturate;
  }

  lemma Parts(spaces: string, sign: string, digits: string, rest: string)
    requires digits != ""
    ensures var s := spaces + (sign + (digits + rest));
            var b := |spaces| + |sign|;
            && s[b..] == digits + rest && s[b..][..|digits|] == digits
            && s[|spaces|] == (if sign == "" then digits[0] else sign[0])
            && (sign + (digits + rest))[0] == s[|spaces|]
  {
    var s := spaces + (sign + (digits + rest));
    assert s[|spaces|..] == sign + (digits + rest);
    assert s[|spaces| + |sign|..] == digits + rest;
  }

  /** A text with no number in front is read as zero, and nothing of it is used. */
  lemma StrtolReadsNothing(s: string)
    ensures Strtol(s).1 == 0 ==> Strtol(s).0 == 0
    ensures Strtol(s).1 > 0 ==> exists spaces, sign, digits, rest :: IsNumber(s, spaces, sign, digits, rest)
  {
    hide Strtol, IsNumber;
    var a := SpaceRun(s);
    var b := if a < |s| && (s[a] == '-' || s[a] == '+') then a + 1 else a;
    StrtolUses(s, a, b);
    if Strtol(s).1 > 0 {
      SpaceRunIsSpaces(s);
      DigitRunIsDigits(s[b..]);
      var n := DigitRun(s[b..]);
      NumberAt(s, a, b, n);
      assert IsNumber(s, s[..a], s[a..b], s[b..][..n], s[b..][n..]);
    }
  }

  lemma StrtolUses(s: string, a: nat, b: nat)
    requires a == SpaceRun(s) && b == if a < |s| && (s[a] == '-' || s[a] == '+') then a + 1 else a
    ensures b <= |s|
    ensures if DigitRun(s[b..]) == 0 then Strtol(s) == (0, 0) else Strtol(s).1 == b + DigitRun(s[b..])
  {
    hide SpaceRun, DigitRun, DigitsValue, Saturate;
  }

  lemma NumberAt(s: string, a: nat, b: nat, n: nat)
    requires a <= b <= |s| && n <= |s| - b && AllSpaces(s[..a]) && AllDigits(s[b..][..n])
    requires b == if a < |s| && (s[a] == '-' || s[a] == '+') then a + 1 else a
    requires n < |s| - b ==> !IsDigit(s[b..][n])
    ensures n > 0 ==> IsNumber(s, s[..a], s[a..b], s[b..][..n], s[b..][n..])
  {
    hide AllSpaces, AllDigits;
    assert s[b..] == s[b..][..n] + s[b..][n..];
    assert s[a..] == s[a..b] + s[b..];
    assert s == s[..a] + s[a..];
  }
}
