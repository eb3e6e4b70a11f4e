/** 32-bit integers and their decimal and hexadecimal text: sprintf("%d") and sprintf("%x"),
    strtol and atoi. */
module Numbers {
  import opened CStrings

  type int32 = x: int | -0x8000_0000 <= x <= 0x7FFF_FFFF

  /** Conversion of a wider value to a C int: reduction modulo 2^32. */
  function Wrap32(x: int): (r: int32)
    ensures (x - r) % 0x1_0000_0000 == 0
    ensures -0x8000_0000 <= x <= 0x7FFF_FFFF ==> r == x
  {
    (x + 0x8000_0000) % 0x1_0000_0000 - 0x8000_0000
  }

  /** strtol saturates at the limits of a 64-bit long. */
  function Clamp64(x: int): int {
    if x < -0x8000_0000_0000_0000 then -0x8000_0000_0000_0000
    else if x > 0x7FFF_FFFF_FFFF_FFFF then 0x7FFF_FFFF_FFFF_FFFF
    else x
  }

  type Base = b: int | b == 10 || b == 16 witness 10

  /** Value of a digit, or -1 for a char that is not a digit of any base here. */
  function DigitValue(c: char): int {
    if '0' <= c <= '9' then c as int - '0' as int
    else if 'a' <= c <= 'f' then c as int - 'a' as int + 10
    else if 'A' <= c <= 'F' then c as int - 'A' as int + 10
    else -1
  }

  predicate IsDigit(c: char, base: Base) { 0 <= DigitValue(c) < base }

  function DigitChar(d: int): (c: char)
    requires 0 <= d < 16
    ensures DigitValue(c) == d
  {
    ['0', '1', '2', '3', '4', '5', '6', '7', '8', '9', 'a', 'b', 'c', 'd', 'e', 'f'][d]
  }

  predicate AllDigits(s: string, base: Base) {
    forall i | 0 <= i < |s| :: IsDigit(s[i], base)
  }

  function Digits(n: nat, base: Base): (s: string)
    ensures s != [] && AllDigits(s, base)
    ensures 0 < n ==> s[0] != '0'
    decreases n
  {
    if n < base then [DigitChar(n)] else Digits(n / base, base) + [DigitChar(n % base)]
  }

  function Value(s: string, base: Base): nat
    requires AllDigits(s, base)
  {
    if s == [] then 0
    else Value(s[..|s| - 1], base) * base + DigitValue(s[|s| - 1])
  }

  lemma {:induction false} ValueOfDigits(n: nat, base: Base)
    ensures Value(Digits(n, base), base) == n
    decreases n
  {
    var s := Digits(n, base);
    if n < base {
      assert s[..0] == [];
    } else {
      ValueOfDigits(n / base, base);
      assert s[..|s| - 1] == Digits(n / base, base);
    }
  }

  /** base^k bounds the numbers of k digits. */
  function Power(base: Base, k: nat): nat {
    if k == 0 then 1 else base * Power(base, k - 1)
  }

  lemma {:induction false} DigitsLength(n: nat, base: Base, k: nat)
    requires 1 <= k && n < Power(base, k)
    ensures |Digits(n, base)| <= k
    decreases k
  {
    if base <= n {
      assert |Digits(n, base)| == |Digits(n / base, base)| + 1;
      assert Power(base, 0) == 1;
      assert Power(base, k) == base * Power(base, k - 1);
      hide *;
      QuotientBelow(n, base, Power(base, k - 1));
      DigitsLength(n / base, base, k - 1);
    }
  }

  lemma QuotientBelow(n: nat, base: Base, bound: nat)
    requires n < base * bound
    ensures n / base < bound
  {
  }

  function Magnitude(n: int): nat { if n < 0 then -n else n }

  /** sprintf("%d", n). */
  function PrintDec(n: int): (s: string)
    ensures s != []
    ensures forall i | 0 <= i < |s| :: s[i] == '-' || IsDigit(s[i], 10)
  {
    if n < 0 then "-" + Digits(Magnitude(n), 10) else Digits(Magnitude(n), 10)
  }

  /** sprintf("%x", n) for a value that is not negative. */
  function PrintHex(n: nat): (s: string)
    ensures s != [] && AllDigits(s, 16)
  {
    Digits(n, 16)
  }

  lemma PrintDecLength(n: int32)
    ensures |PrintDec(n)| <= 11
  {
    assert Power(10, 5) == 100000;
    assert Power(10, 10) == 100000 * 100000 by {
      assert Power(10, 10) == 10 * 10 * 10 * 10 * 10 * Power(10, 5);
    }
    DigitsLength(Magnitude(n), 10, 10);
  }

  lemma PrintHexLength(n: nat)
    requires n <= 0x7FFF_FFFF
    ensures |PrintHex(n)| <= 8
  {
    assert Power(16, 4) == 0x1_0000;
    assert Power(16, 8) == 0x1_0000_0000 by {
      assert Power(16, 8) == 16 * 16 * 16 * 16 * Power(16, 4);
    }
    DigitsLength(n, 16, 8);
  }

  predicate IsSpace(c: char) { c == ' ' || '\t' <= c <= '\r' }

  function SkipSpace(s: string): (r: string)
    ensures |r| <= |s|
  {
    if s != [] && IsSpace(s[0]) then SkipSpace(s[1..]) else s
  }

  /** Length of the longest prefix made of digits. */
  function DigitSpan(s: string, base: Base): (n: nat)
    ensures n <= |s|
    ensures AllDigits(s[..n], base)
    ensures n < |s| ==> !IsDigit(s[n], base)
  {
    if s == [] || !IsDigit(s[0], base) then 0 else 1 + DigitSpan(s[1..], base)
  }

  /** strtol in base 16 skips a 0x that is followed by a digit. */
  function SkipHexPrefix(s: string, base: Base): string {
    if base == 16 && |s| >= 3 && s[0] == '0' && (s[1] == 'x' || s[1] == 'X') && IsDigit(s[2], 16)
    then s[2..] else s
  }

  function StrtolUnsigned(s: string, base: Base): nat {
    var d := SkipHexPrefix(s, base);
    Value(d[..DigitSpan(d, base)], base)
  }

  /** strtol(s, NULL, base). */
  function Strtol(s: string, base: Base): int {
    var t := SkipSpace(s);
    if t != [] && t[0] == '-' then Clamp64(0 - StrtolUnsigned(t[1..], base))
    else if t != [] && t[0] == '+' then Clamp64(StrtolUnsigned(t[1..], base))
    else Clamp64(StrtolUnsigned(t, base))
  }

  /** A length or count field: strtol assigned to an int. */
  function HexField(s: string): int32 { Wrap32(Strtol(s, 16)) }

  function Atoi(s: string): int32 { Wrap32(Strtol(s, 10)) }

  lemma {:induction false} StrtolOfDigits(n: nat, base: Base, tail: string)
    requires tail == [] || (!IsDigit(tail[0], base) && tail[0] != 'x' && tail[0] != 'X')
    ensures StrtolUnsigned(Digits(n, base) + tail, base) == n
  {
    var d := Digits(n, base);
    var s := d + tail;
    assert SkipHexPrefix(s, base) == s by {
      if |s| >= 2 {
        assert s[1] == if |d| >= 2 then d[1] else tail[0];
        assert |d| >= 2 ==> IsDigit(d[1], base);
      }
    }
    DigitSpanOf(d, tail, base);
    assert s[..|d|] == d;
    ValueOfDigits(n, base);
  }

  lemma {:induction false} DigitSpanOf(d: string, tail: string, base: Base)
    requires AllDigits(d, base)
    requires tail == [] || !IsDigit(tail[0], base)
    ensures DigitSpan(d + tail, base) == |d|
  {
    var s := d + tail;
    assert forall i | 0 <= i < |d| :: IsDigit(s[i], base);
    assert tail != [] ==> s[|d|] == tail[0];
    assert s[..DigitSpan(s, base)] <= s;
  }

  lemma SignReads(sign: string, rest: string, base: Base)
    requires sign == "" || sign == "+" || sign == "-"
    requires rest != [] && sign == "" ==> !IsSpace(rest[0]) && rest[0] != '+' && rest[0] != '-'
    ensures SkipSpace(sign + rest) == sign + rest
    ensures var v: int := StrtolUnsigned(rest, base);
            Strtol(sign + rest, base) == Clamp64(if sign == "-" then 0 - v else v)
  {
    var t := sign + rest;
    hide StrtolUnsigned, Clamp64;
    if sign == "" {
      assert t == rest;
    } else {
      assert t[0] == sign[0] && t[1..] == rest;
    }
  }

  /** What sprintf prints, atoi reads back, whatever other char follows. */
  lemma AtoiOfText(n: int32, tail: string)
    requires tail == [] || (!IsDigit(tail[0], 10) && tail[0] != 'x' && tail[0] != 'X')
    ensures Atoi(PrintDec(n) + tail) == n
  {
    var sign, d := if n < 0 then "-" else "", Digits(Magnitude(n), 10);
    SignAndDigits(n, tail);
    StrtolOfDigits(Magnitude(n), 10, tail);
    hide *;
    SignReads(sign, d + tail, 10);
    AtoiOfStrtol(PrintDec(n) + tail, n);
  }

  lemma SignAndDigits(n: int32, tail: string)
    ensures var sign, d := if n < 0 then "-" else "", Digits(Magnitude(n), 10);
            && PrintDec(n) + tail == sign + (d + tail)
            && (d + tail)[0] == d[0] && !IsSpace(d[0]) && d[0] != '+' && d[0] != '-'
            && n == if sign == "-" then 0 - Magnitude(n) else Magnitude(n)
  {
    var d := Digits(Magnitude(n), 10);
    assert IsDigit(d[0], 10);
    hide Digits;
  }

  lemma AtoiOfStrtol(s: string, n: int32)
    requires Strtol(s, 10) == Clamp64(n)
    ensures Atoi(s) == n
  {
    hide Strtol;
  }

  lemma AtoiOfPrintDec(n: int32)
    ensures Atoi(PrintDec(n)) == n
  {
    AtoiOfText(n, []);
    assert PrintDec(n) + [] == PrintDec(n);
  }

  /** The digits are the usual ones, read in either case and printed in lower case. */
  lemma DigitChars(d: int)
    requires 0 <= d < 16
    ensures DigitChar(d) == "0123456789abcdef"[d]
    ensures DigitValue("0123456789abcdef"[d]) == d && DigitValue("0123456789ABCDEF"[d]) == d
  {
  }

  /** sprintf "%d" prints a minus exactly for negative numbers, and then decimal digits, the first of
      them not 0 unless the number is, whose value is the magnitude. */
  lemma PrintDecMeans(n: int) returns (digits: string)
    ensures PrintDec(n) == (if n < 0 then "-" else "") + digits
    ensures digits != [] && AllDigits(digits, 10) && Value(digits, 10) == if n < 0 then -n else n
    ensures n != 0 ==> digits[0] != '0'
  {
    digits := Digits(Magnitude(n), 10);
    ValueOfDigits(Magnitude(n), 10);
    assert "" + digits == digits;
  }

  /** strtol: after blanks and at most one sign, the digits up to the first char that is none. */
  lemma StrtolReads(blanks: string, sign: string, digits: string, tail: string, base: Base)
    requires forall i | 0 <= i < |blanks| :: blanks[i] in " \t\n\r" || blanks[i] == '\U{B}' || blanks[i] == '\U{C}'
    requires sign == "" || sign == "+" || sign == "-"
    requires AllDigits(digits, base) && (tail == [] || !IsDigit(tail[0], base))
    requires digits == [] && tail != [] ==> !IsSpace(tail[0]) && tail[0] != '+' && tail[0] != '-'
    requires digits == "0" && tail != [] ==> tail[0] != 'x' && tail[0] != 'X'
    ensures var v: int := Value(digits, base);
            Strtol(blanks + (sign + (digits + tail)), base) == Clamp64(if sign == "-" then 0 - v else v)
  {
    UnsignedReads(digits, tail, base);
    FirstOf(digits, tail, base);
    hide StrtolUnsigned, Value, Strtol;
    SignReads(sign, digits + tail, base);
    BlanksIgnored(blanks, sign + (digits + tail), base);
  }

  lemma FirstOf(digits: string, tail: string, base: Base)
    requires AllDigits(digits, base)
    requires digits == [] && tail != [] ==> !IsSpace(tail[0]) && tail[0] != '+' && tail[0] != '-'
    ensures digits + tail != [] ==> var c := (digits + tail)[0]; !IsSpace(c) && c != '+' && c != '-'
  {
    if digits != [] {
      assert IsDigit(digits[0], base);
    }
  }

  lemma BlanksIgnored(blanks: string, t: string, base: Base)
    requires forall i | 0 <= i < |blanks| :: IsSpace(blanks[i])
    requires SkipSpace(t) == t
    ensures Strtol(blanks + t, base) == Strtol(t, base)
  {
    SkipBlanks(blanks, t);
  }

  lemma {:induction false} SkipBlanks(blanks: string, t: string)
    requires forall i | 0 <= i < |blanks| :: IsSpace(blanks[i])
    requires SkipSpace(t) == t
    ensures SkipSpace(blanks + t) == t
  {
    if blanks == [] {
      assert blanks + t == t;
    } else {
      assert (blanks + t)[1..] == blanks[1..] + t;
      SkipBlanks(blanks[1..], t);
    }
  }

  lemma UnsignedReads(digits: string, tail: string, base: Base)
    requires AllDigits(digits, base) && (tail == [] || !IsDigit(tail[0], base))
    requires digits == "0" && tail != [] ==> tail[0] != 'x' && tail[0] != 'X'
    ensures StrtolUnsigned(digits + tail, base) == Value(digits, base)
  {
    var s := digits + tail;
    assert SkipHexPrefix(s, base) == s by {
      if |s| >= 2 && |digits| >= 2 {
        assert s[1] == digits[1] && IsDigit(digits[1], base);
      } else if |s| >= 2 && |digits| == 1 {
        assert s[0] == digits[0] && s[1] == tail[0];
        assert digits == [digits[0]];
      } else if |s| >= 2 {
        assert s[0] == tail[0];
      }
    }
    DigitSpanOf(digits, tail, base);
    assert s[..|digits|] == digits;
  }

  /** And the prefix 0x is skipped in base 16. */
  lemma HexPrefix(digits: string, tail: string)
    requires digits != [] && AllDigits(digits, 16) && (tail == [] || !IsDigit(tail[0], 16))
    ensures Strtol("0x" + (digits + tail), 16) == Clamp64(Value(digits, 16))
  {
    var rest := "0x" + (digits + tail);
    PrefixSkipped(digits, tail);
    hide StrtolUnsigned, Strtol, Value, AllDigits;
    SignReads("", rest, 16);
    assert "" + rest == rest;
  }

  lemma PrefixSkipped(digits: string, tail: string)
    requires digits != [] && AllDigits(digits, 16) && (tail == [] || !IsDigit(tail[0], 16))
    ensures StrtolUnsigned("0x" + (digits + tail), 16) == Value(digits, 16)
  {
    var t := digits + tail;
    var s := "0x" + t;
    assert s[2..] == t && s[2] == digits[0] && IsDigit(digits[0], 16);
    DigitSpanOf(digits, tail, 16);
    hide DigitSpan, Value, AllDigits;
    assert t[..|digits|] == digits;
  }

  /** A printed length is read back whatever non-digit follows it. */
  lemma HexFieldOfPrintHex(n: nat, tail: string)
    requires n <= 0x7FFF_FFFF
    requires tail == [] || (!IsDigit(tail[0], 16) && tail[0] != 'x' && tail[0] != 'X')
    ensures HexField(PrintHex(n) + tail) == n
  {
    StrtolOfDigits(n, 16, tail);
    assert IsDigit((PrintHex(n) + tail)[0], 16);
  }
}
