/** Decimal and hexadecimal conversions: lib_functions.cpp and check_functions.cpp. */
module Numbers {
  import opened Strings

  const INT_MIN: int := -0x8000_0000
  const INT_MAX: int := 0x7fff_ffff
  const TWO32: int := 0x1_0000_0000
  const TWO63: int := 0x8000_0000_0000_0000
  const TWO64: int := 0x1_0000_0000_0000_0000

  type int32 = x: int | INT_MIN <= x <= INT_MAX

  /** Narrowing to a 32-bit int keeps the low 32 bits, read as two's complement. */
  function ToInt32(x: int): int32 {
    var low := x % TWO32;
    if low > INT_MAX then low - TWO32 else low
  }

  lemma InRange(n: int32)
    ensures ToInt32(n) == n
  {
    if n < 0 {
      assert (n + TWO32) % TWO32 == n + TWO32;
    }
  }

  /** Converting to an unsigned 64-bit integer reduces modulo 2^64. */
  function ToUint64(x: int): (r: int)
    ensures 0 <= r < TWO64
  {
    x % TWO64
  }

  /** C division truncates toward zero. */
  function TruncDiv(n: int, d: int): int
    requires d > 0
  {
    if n >= 0 then n / d else -((-n) / d)
  }

  // ---------------------------------------------------------------- decimal digits

  predicate IsDigit(c: char) {
    '0' <= c <= '9'
  }

  predicate AllDigits(s: string) {
    forall k :: 0 <= k < |s| ==> IsDigit(s[k])
  }

  function DigitValue(c: char): (v: nat)
    requires IsDigit(c)
    ensures v < 10
  {
    c as int - '0' as int
  }

  function DigitChar(d: int): (c: char)
    requires 0 <= d < 10
    ensures IsDigit(c) && DigitValue(c) == d
  {
    ('0' as int + d) as char
  }

  /** The digits in so many words. */
  lemma DigitsAre(d: nat)
    requires d < 10
    ensures DigitChar(d) == "0123456789"[d] && DigitValue("0123456789"[d]) == d
  {
  }

  /** Ordinary decimal notation of a natural number, without leading zeros. */
  function Digits(n: nat): (s: string)
    ensures s != "" && AllDigits(s)
  {
    if n < 10 then [DigitChar(n)] else Digits(n / 10) + [DigitChar(n % 10)]
  }

  /** The number that a string of decimal digits denotes. */
  function DecimalValue(s: string): nat
    requires AllDigits(s)
  {
    if s == "" then 0
    else DecimalValue(s[..|s| - 1]) * 10 + DigitValue(s[|s| - 1])
  }

  /** What ft_itoa is meant to print. */
  function Decimal(n: int): (s: string)
    ensures s != ""
  {
    if n < 0 then "-" + Digits(-n) else Digits(n)
  }

  lemma {:induction false} DigitsValue(n: nat)
    ensures DecimalValue(Digits(n)) == n
  {
    if n < 10 {
    } else {
      DigitsValue(n / 10);
      assert Digits(n)[..|Digits(n)| - 1] == Digits(n / 10);
    }
  }

  function Pow10(k: nat): nat {
    if k == 0 then 1 else 10 * Pow10(k - 1)
  }

  lemma {:induction false} DigitsLength(n: nat, k: nat)
    requires 1 <= k && n < Pow10(k)
    ensures |Digits(n)| <= k
  {
    if n < 10 {
    } else {
      assert Pow10(1) == 10 * Pow10(0);
      DigitsLength(n / 10, k - 1);
    }
  }

  lemma DecimalLength(n: int32)
    ensures |Decimal(n)| <= 11
    ensures n >= 0 ==> |Decimal(n)| <= 10
  {
    assert Pow10(10) == 10_000_000_000 by {
      assert Pow10(2) == 100;
      assert Pow10(4) == 10_000;
      assert Pow10(6) == 1_000_000;
      assert Pow10(8) == 100_000_000;
    }
    var m: int := if n < 0 then -(n as int) else n;
    DigitsLength(m, 10);
  }

  // ---------------------------------------------------------------- ft_itoa

  method GetNSize(n: int32) returns (i: nat)
    ensures i == |Decimal(n)|
  {
    var m: int := n;
    i := if m > 0 then 0 else 1;
    ghost var sign := if n < 0 then 1 else 0;
    while m != 0
      invariant n > 0 ==> 0 <= m
      invariant n <= 0 ==> m <= 0
      invariant m != 0 ==> i + |Digits(if m < 0 then -m else m)| == |Decimal(n)|
      invariant m == 0 ==> i == |Decimal(n)|
      decreases if m < 0 then -m else m
    {
      m := TruncDiv(m, 10);
      i := i + 1;
    }
  }

  /** The smallest int32 has no positive counterpart, so its first two characters are written by hand. */
  lemma DigitsOfIntMin()
    ensures Digits(2147483648) == "2" + Digits(147483648)
    ensures |Digits(147483648)| == 9
  {
    assert Digits(2) == "2" && Digits(21) == "2" + Digits(1);
    assert Digits(214) == "2" + Digits(14);
    assert Digits(2147) == "2" + Digits(147);
    assert Digits(21474) == "2" + Digits(1474);
    assert Digits(214748) == "2" + Digits(14748);
    assert Digits(2147483) == "2" + Digits(147483);
    assert Digits(21474836) == "2" + Digits(1474836);
    assert Digits(214748364) == "2" + Digits(14748364);
    assert |Digits(1474)| == 4;
    assert |Digits(147483)| == 6;
    assert |Digits(14748364)| == 8;
  }

  /** The digits that the loop below still has to write. */
  function DigitsLeft(n: nat): string {
    if n == 0 then "" else Digits(n)
  }

  lemma DigitsLeftStep(n: nat, done: string)
    requires n > 0
    ensures DigitsLeft(n) + done == DigitsLeft(n / 10) + ([DigitChar(n % 10)] + done)
    ensures |DigitsLeft(n)| == |DigitsLeft(n / 10)| + 1
  {
    assert DigitsLeft(n) == DigitsLeft(n / 10) + [DigitChar(n % 10)];
  }

  /** The characters written by hand before the digit loop. */
  function Lead(n: int32): string {
    if n == INT_MIN then "-2" else if n < 0 then "-" else ""
  }

  /** What the digit loop prints after them. */
  function Magnitude(n: int32): nat {
    if n == INT_MIN then 147483648 else if n < 0 then -(n as int) else n
  }

  lemma LeadMagnitude(n: int32)
    ensures n != 0 ==> Decimal(n) == Lead(n) + DigitsLeft(Magnitude(n))
    ensures n == 0 ==> Decimal(n) == "0"
    ensures DigitsLeft(0) == ""
  {
    hide Digits;
    if n == INT_MIN {
      DigitsOfIntMin();
    } else if n == 0 {
      assert Digits(0) == "0" by {
        ZeroDigits();
      }
    }
  }

  lemma ZeroDigits()
    ensures Digits(0) == "0"
  {
  }

  lemma WriteInFront(s: string, i: nat, end: nat, c: char)
    requires i < end <= |s|
    ensures s[i := c][i..end] == [c] + s[i + 1..end]
  {
  }

  lemma SplitPrefix(s: string, lead: string, rest: string)
    requires lead <= s && |lead| + |rest| <= |s| && s[|lead|..|lead| + |rest|] == rest
    ensures s[..|lead| + |rest|] == lead + rest
  {
  }

  method PutInArray(result: array<char>, i0: int, n0: int32, size: nat)
    requires size == |Decimal(n0)| && i0 == size - 1 && result.Length == size + 1
    modifies result
    ensures result[..size] == Decimal(n0) && result[size] == '\0'
  {
    hide Decimal, DigitsLeft;
    var n: int, i := n0, i0;
    LeadMagnitude(n0);
    if n == -2147483648 {
      result[0] := '-';
      result[1] := '2';
      n := 147483648;
    }
    if n == 0 {
      result[0] := '0';
      result[1] := '\0';
      return;
    }
    if n < 0 {
      result[0] := '-';
      n := n * -1;
    }
    ghost var m, lead := DigitsLeft(Magnitude(n0)), Lead(n0);
    assert n == Magnitude(n0);
    while n != 0
      invariant 0 <= n && i + 1 == |lead| + |DigitsLeft(n)| <= size
      invariant m == DigitsLeft(n) + result[..][i + 1..size]
      invariant lead <= result[..]
    {
      DigitsLeftStep(n, result[..][i + 1..size]);
      WriteInFront(result[..], i, size, DigitChar(n % 10));
      result[i] := DigitChar(n % 10);
      n := n / 10;
      i := i - 1;
    }
    SplitPrefix(result[..], lead, m);
    result[size] := '\0';
  }

  method FtItoa(n: int32) returns (result: array<char>)
    ensures fresh(result)
    ensures result.Length == |Decimal(n)| + 1
    ensures result[..|Decimal(n)|] == Decimal(n) && result[|Decimal(n)|] == '\0'
  {
    var size := GetNSize(n);
    result := new char[size + 1];
    PutInArray(result, size - 1, n, size);
  }

  // ---------------------------------------------------------------- ft_atoi

  predicate IsBlank(c: char) {
    c == ' ' || 9 as char <= c <= 13 as char
  }

  lemma BlanksAre(c: char)
    ensures IsBlank(c) <==> c in " \t\n\U{0B}\U{0C}\r"
  {
  }

  function SkipBlanks(s: string, i: nat): (j: nat)
    requires i <= |s|
    ensures i <= j <= |s|
    decreases |s| - i
  {
    if IsBlank(At(s, i)) then SkipBlanks(s, i + 1) else i
  }

  /** The digit loop: an unsigned 64-bit accumulator with two overflow guards, then one narrowing. */
  function AtoiDigits(s: string, i: nat, sign: int, result: nat): int32
    requires i <= |s| && (sign == 1 || sign == -1) && result < TWO64
    decreases |s| - i
  {
    if !IsDigit(At(s, i)) then ToInt32(ToUint64(result * ToUint64(sign)))
    else
      var next := ToUint64(result * 10 + DigitValue(s[i]));
      if next >= TWO63 && sign == -1 then 0
      else if next >= TWO63 - 1 && sign == 1 then -1
      else AtoiDigits(s, i + 1, sign, next)
  }

  function Atoi(s: string): int32 {
    var i := SkipBlanks(s, 0);
    var signed := At(s, i) == '-' || At(s, i) == '+';
    AtoiDigits(s, if signed then i + 1 else i, if At(s, i) == '-' then -1 else 1, 0)
  }

  method FtAtoi(s: string) returns (r: int32)
    ensures r == Atoi(s)
  {
    var i, sign := 0, 1;
    var result := 0;
    while IsBlank(At(s, i))
      invariant 0 <= i <= |s|
      invariant SkipBlanks(s, 0) == SkipBlanks(s, i)
      decreases |s| - i
    {
      i := i + 1;
    }
    if At(s, i) == '-' {
      sign := -1;
    }
    if At(s, i) == '-' || At(s, i) == '+' {
      i := i + 1;
    }
    while IsDigit(At(s, i))
      invariant 0 <= i <= |s| && 0 <= result < TWO64
      invariant Atoi(s) == AtoiDigits(s, i, sign, result)
      decreases |s| - i
    {
      result := ToUint64(result * 10 + DigitValue(s[i]));
      if result >= TWO63 && sign == -1 {
        return 0;
      }
      if result >= TWO63 - 1 && sign == 1 {
        return -1;
      }
      i := i + 1;
    }
    return ToInt32(ToUint64(result * ToUint64(sign)));
  }

  lemma {:induction false} SkipBlanksOver(blanks: string, rest: string, i: nat)
    requires i <= |blanks| && (forall k :: 0 <= k < |blanks| ==> IsBlank(blanks[k])) && !IsBlank(At(rest, 0))
    ensures SkipBlanks(blanks + rest, i) == |blanks|
    decreases |blanks| - i
  {
    assert At(blanks + rest, i) == if i < |blanks| then blanks[i] else At(rest, 0);
    if i == |blanks| {
    } else {
      SkipBlanksOver(blanks, rest, i + 1);
    }
  }

  lemma {:induction false} DecimalValueGrows(s: string, k: nat)
    requires AllDigits(s) && k <= |s|
    ensures DecimalValue(s[..k]) <= DecimalValue(s)
    decreases |s|
  {
    if k < |s| {
      assert s[..|s| - 1][..k] == s[..k];
      DecimalValueGrows(s[..|s| - 1], k);
    } else {
      assert s[..k] == s;
    }
  }

  function Signed(sign: int, v: nat): int {
    if sign == -1 then -(v as int) else v
  }

  /** The unsigned product followed by the narrowing gives back the sign. */
  lemma NarrowedProduct(v: nat, sign: int)
    requires sign == 1 || sign == -1
    ensures ToInt32(ToUint64(v * ToUint64(sign))) == ToInt32(Signed(sign, v))
  {
    if sign == -1 {
      assert ToUint64(sign) == TWO64 - 1;
      var k := (v * (TWO64 - 1)) / TWO64;
      assert ToUint64(v * (TWO64 - 1)) == -(v as int) + TWO32 * (TWO32 * (v - k));
      ToInt32Congruent(ToUint64(v * (TWO64 - 1)), -(v as int), TWO32 * (v - k));
    } else {
      var k := v / TWO64;
      assert ToUint64(v) == v + TWO32 * (-(TWO32 * k));
      ToInt32Congruent(ToUint64(v), v, -(TWO32 * k));
    }
  }

  /** The accumulator from which on the digit loop gives up. */
  function Bound(sign: int): int {
    if sign == -1 then 9223372036854775808 else 9223372036854775807
  }

  lemma AtoiStep(s: string, i: nat, sign: int, result: nat)
    requires i < |s| && IsDigit(s[i]) && (sign == 1 || sign == -1) && result < TWO64
    ensures var next := ToUint64(result * 10 + DigitValue(s[i]));
      AtoiDigits(s, i, sign, result) ==
        if next >= Bound(sign) then (if sign == -1 then 0 else -1) else AtoiDigits(s, i + 1, sign, next)
  {
    hide ToUint64;
  }

  lemma AtoiStop(s: string, i: nat, sign: int, result: nat)
    requires i <= |s| && !IsDigit(At(s, i)) && (sign == 1 || sign == -1) && result < TWO64
    ensures AtoiDigits(s, i, sign, result) == ToInt32(Signed(sign, result))
  {
    NarrowedProduct(result, sign);
  }

  lemma PrefixValue(digits: string, i: nat)
    requires AllDigits(digits) && i < |digits|
    ensures DecimalValue(digits[..i + 1]) == DecimalValue(digits[..i]) * 10 + DigitValue(digits[i])
  {
    assert digits[..i + 1][..i] == digits[..i];
  }

  lemma Fits64(n: int)
    requires 0 <= n < 18446744073709551616
    ensures ToUint64(n) == n && n < TWO64
  {
  }

  /** As long as the number stays below the bound, the digit loop goes on with it. */
  lemma {:induction false} AtoiDigitsUpTo(pre: string, digits: string, rest: string, sign: int, k: nat, i: nat)
    requires AllDigits(digits) && i <= k <= |digits| && (sign == 1 || sign == -1)
    requires DecimalValue(digits[..i]) <= DecimalValue(digits[..k]) < Bound(sign)
    ensures DecimalValue(digits[..i]) < TWO64 && DecimalValue(digits[..k]) < TWO64
    ensures AtoiDigits(pre + digits + rest, |pre| + i, sign, DecimalValue(digits[..i]))
         == AtoiDigits(pre + digits + rest, |pre| + k, sign, DecimalValue(digits[..k]))
    decreases k - i
  {
    hide AtoiDigits, ToUint64, DecimalValue, DigitValue;
    Fits64(DecimalValue(digits[..i]));
    Fits64(DecimalValue(digits[..k]));
    if i == k {
    } else {
      var s := pre + digits + rest;
      assert s[|pre| + i] == digits[i];
      DecimalValueGrows(digits[..k], i + 1);
      assert digits[..k][..i + 1] == digits[..i + 1];
      PrefixValue(digits, i);
      Fits64(DecimalValue(digits[..i + 1]));
      AtoiStep(s, |pre| + i, sign, DecimalValue(digits[..i]));
      DecimalValueNone(digits, i + 1);
      AtoiDigitsUpTo(pre, digits, rest, sign, k, i + 1);
    }
  }

  lemma DecimalValueNone(digits: string, i: nat)
    requires AllDigits(digits) && i <= |digits|
    ensures DecimalValue(digits[..0]) == 0 <= DecimalValue(digits[..i])
  {
  }

  lemma AtoiDigitsReads(pre: string, digits: string, rest: string, sign: int)
    requires AllDigits(digits) && !IsDigit(At(rest, 0)) && (sign == 1 || sign == -1) && DecimalValue(digits) < Bound(sign)
    ensures AtoiDigits(pre + digits + rest, |pre|, sign, 0) == ToInt32(Signed(sign, DecimalValue(digits)))
  {
    hide AtoiDigits, DecimalValue;
    assert digits[..|digits|] == digits;
    DecimalValueNone(digits, |digits|);
    AtoiDigitsUpTo(pre, digits, rest, sign, |digits|, 0);
    assert At(pre + digits + rest, |pre| + |digits|) == At(rest, 0);
    AtoiStop(pre + digits + rest, |pre| + |digits|, sign, DecimalValue(digits));
  }

  predicate IsSign(s: string) {
    s == "" || s == "+" || s == "-"
  }

  /** ft_atoi reads blanks, an optional sign and every digit up to the first other byte. */
  lemma AtoiReads(blanks: string, sign: string, digits: string, rest: string)
    requires forall k :: 0 <= k < |blanks| ==> IsBlank(blanks[k])
    requires IsSign(sign) && digits != "" && AllDigits(digits) && !IsDigit(At(rest, 0))
    requires DecimalValue(digits) < (if sign == "-" then 9223372036854775808 else 9223372036854775807)
    ensures Atoi(blanks + sign + digits + rest)
         == ToInt32(Signed(if sign == "-" then -1 else 1, DecimalValue(digits)))
  {
    var tail := sign + digits + rest;
    assert blanks + sign + digits + rest == blanks + tail;
    assert tail[0] == if sign == "" then digits[0] else sign[0];
    SkipBlanksOver(blanks, tail, 0);
    assert At(blanks + tail, |blanks|) == tail[0];
    AtoiDigitsReads(blanks + sign, digits, rest, if sign == "-" then -1 else 1);
  }

  /** The guard stops at the digit that brings the number up to the bound, whatever follows, unless the
      accumulator wraps around there. */
  lemma AtoiDigitsGuarded(pre: string, digits: string, rest: string, sign: int, k: nat)
    requires AllDigits(digits) && k < |digits| && (sign == 1 || sign == -1)
    requires DecimalValue(digits[..k]) < Bound(sign) <= DecimalValue(digits[..k + 1]) < 18446744073709551616
    ensures AtoiDigits(pre + digits + rest, |pre|, sign, 0) == if sign == -1 then 0 else -1
  {
    hide AtoiDigits, DecimalValue, ToUint64, DigitValue;
    var s := pre + digits + rest;
    DecimalValueNone(digits, k);
    AtoiDigitsUpTo(pre, digits, rest, sign, k, 0);
    assert s[|pre| + k] == digits[k];
    AtoiStep(s, |pre| + k, sign, DecimalValue(digits[..k]));
    PrefixValue(digits, k);
    Fits64(DecimalValue(digits[..k + 1]));
  }

  /** From 2^63 - 1 on, or 2^63 after a minus, and below 2^64, numbers are taken for -1 or 0. */
  lemma AtoiGuarded(blanks: string, sign: string, digits: string, k: nat, rest: string)
    requires forall j :: 0 <= j < |blanks| ==> IsBlank(blanks[j])
    requires IsSign(sign) && AllDigits(digits) && k < |digits|
    requires var bound := if sign == "-" then 9223372036854775808 else 9223372036854775807;
      DecimalValue(digits[..k]) < bound <= DecimalValue(digits[..k + 1]) < 18446744073709551616
    ensures Atoi(blanks + sign + digits + rest) == if sign == "-" then 0 else -1
  {
    hide AtoiDigits, DecimalValue;
    var tail := sign + digits + rest;
    assert blanks + sign + digits + rest == blanks + tail;
    assert tail[0] == if sign == "" then digits[0] else sign[0];
    SkipBlanksOver(blanks, tail, 0);
    assert At(blanks + tail, |blanks|) == tail[0];
    AtoiDigitsGuarded(blanks + sign, digits, rest, if sign == "-" then -1 else 1, k);
  }

  /** The digit loop up to the last digit, when the number without it is below the bound. */
  lemma AtoiUpToLast(n: nat, rest: string)
    requires 10 <= n && n / 10 < Bound(1)
    ensures var s, k := Digits(n) + rest, |Digits(n)| - 1;
      && k < |s| && s[k] == DigitChar(n % 10) && n / 10 < TWO64
      && AtoiDigits(s, 0, 1, 0) == AtoiDigits(s, k, 1, n / 10)
  {
    var digits, front := Digits(n), Digits(n / 10);
    assert digits == front + [DigitChar(n % 10)] && digits[..|front|] == front;
    DigitsValue(n / 10);
    hide AtoiDigits, DecimalValue, Digits;
    assert "" + digits + rest == digits + rest;
    DecimalValueNone(digits, |front|);
    AtoiDigitsUpTo("", digits, rest, 1, |front|, 0);
    Fits64(n / 10);
  }

  lemma AtoiOfDigits(n: nat, rest: string)
    ensures Atoi(Digits(n) + rest) == AtoiDigits(Digits(n) + rest, 0, 1, 0)
  {
    hide AtoiDigits, Digits;
    var s := Digits(n) + rest;
    assert s[0] == Digits(n)[0];
  }

  /** The guards look at the accumulator after it has wrapped around: the numbers from 2^64 to 2^64 + 2^63 - 2
      pass them, and are taken for what remains above 2^64. */
  lemma AtoiWraps(n: nat, rest: string)
    requires 18446744073709551616 <= n < 18446744073709551616 + 9223372036854775807 && !IsDigit(At(rest, 0))
    ensures Atoi(Digits(n) + rest) == ToInt32(n - 18446744073709551616)
  {
    hide AtoiDigits, ToUint64, Digits, ToInt32, Atoi;
    var s, k := Digits(n) + rest, |Digits(n)| - 1;
    AtoiOfDigits(n, rest);
    AtoiUpToLast(n, rest);
    AtoiStep(s, k, 1, n / 10);
    WrapsOnce(n);
    assert At(s, k + 1) == At(rest, 0);
    Fits64(n - 18446744073709551616);
    AtoiStop(s, k + 1, 1, n - 18446744073709551616);
  }

  lemma WrapsOnce(n: nat)
    requires 18446744073709551616 <= n < 2 * 18446744073709551616
    ensures ToUint64((n / 10) * 10 + n % 10) == n - 18446744073709551616
  {
  }

  /** Narrowing keeps the number modulo 2^32 in the range of an int. */
  lemma ToInt32Means(x: int)
    ensures -2147483648 <= ToInt32(x) <= 2147483647 && (x - ToInt32(x)) % 4294967296 == 0
  {
    var k := ToInt32Multiple(x);
    assert x - ToInt32(x) == 4294967296 * -k;
  }

  /** The round trip, for every int32 and whatever non-digit text follows the number. */
  lemma AtoiItoa(n: int32, rest: string)
    requires !IsDigit(At(rest, 0))
    ensures Atoi(Decimal(n) + rest) == n
  {
    var m: int := if n < 0 then -(n as int) else n;
    var sign := if n < 0 then "-" else "";
    assert "" + sign + Digits(m) + rest == Decimal(n) + rest;
    DigitsValue(m);
    AtoiReads("", sign, Digits(m), rest);
    InRange(n);
  }

  // ---------------------------------------------------------------- hex_to_dec

  /** char is signed on the targets of the program. */
  function SignedChar(c: char): int {
    if 128 <= c as int < 256 then c as int - 256 else c as int
  }

  function Val(c: char): int {
    if IsDigit(c) then SignedChar(c) - '0' as int else SignedChar(c) - 'a' as int + 10
  }

  predicate DigitsBelow(s: string, base: int) {
    forall k :: 0 <= k < |s| ==> Val(s[k]) < base
  }

  /** Positional value of s, digit values as Val gives them. */
  function Positional(s: string, base: int): int {
    if s == "" then 0 else Positional(s[..|s| - 1], base) * base + Val(s[|s| - 1])
  }

  function HexToDec(s: string, base: int): int32 {
    if s == "0" then 0
    else if DigitsBelow(s, base) then ToInt32(Positional(s, base)) else -1
  }

  function Pow(base: int, k: nat): int {
    if k == 0 then 1 else Pow(base, k - 1) * base
  }

  /** The loop reads from the right; Positional is defined from the left. */
  lemma {:induction false} PositionalSplit(s: string, k: nat, base: int)
    requires k <= |s|
    ensures Positional(s, base) == Positional(s[..k], base) * Pow(base, |s| - k) + Positional(s[k..], base)
    decreases |s|
  {
    if k == |s| {
      assert s[..k] == s && s[k..] == "";
    } else {
      var init, last := s[..|s| - 1], Val(s[|s| - 1]);
      PositionalSplit(init, k, base);
      assert init[..k] == s[..k];
      assert s[k..][..|s| - k - 1] == init[k..];
      Horner(Positional(s[..k], base), Pow(base, |s| - k - 1), Positional(init[k..], base), base, last);
    }
  }

  lemma Horner(a: int, p: int, b: int, base: int, last: int)
    ensures (a * p + b) * base + last == a * (p * base) + (b * base + last)
  {
    assert (a * p + b) * base == (a * p) * base + b * base;
    assert (a * p) * base == a * (p * base);
  }

  lemma ToInt32Congruent(x: int, y: int, k: int)
    requires x == y + TWO32 * k
    ensures ToInt32(x) == ToInt32(y)
  {
    assert x % TWO32 == y % TWO32;
  }

  lemma ToInt32Multiple(x: int) returns (k: int)
    ensures ToInt32(x) == x + TWO32 * k
  {
    k := if x % TWO32 > INT_MAX then -(x / TWO32) - 1 else -(x / TWO32);
  }

  lemma WrapStep(num: int, v: int, power: int)
    ensures ToInt32(ToInt32(num) + v * ToInt32(power)) == ToInt32(num + v * power)
  {
    var a := ToInt32Multiple(num);
    var b := ToInt32Multiple(power);
    assert v * (power + TWO32 * b) == v * power + TWO32 * (v * b);
    ToInt32Congruent(ToInt32(num) + v * ToInt32(power), num + v * power, a + v * b);
  }

  lemma WrapProduct(power: int, base: int)
    ensures ToInt32(ToInt32(power) * base) == ToInt32(power * base)
  {
    var k := ToInt32Multiple(power);
    assert (power + TWO32 * k) * base == power * base + TWO32 * (k * base);
    ToInt32Congruent(ToInt32(power) * base, power * base, k * base);
  }

  lemma PositionalFront(c: char, rest: string, base: int)
    ensures Positional([c] + rest, base) == Positional(rest, base) + Val(c) * Pow(base, |rest|)
    ensures Pow(base, |rest| + 1) == Pow(base, |rest|) * base
  {
    PositionalSplit([c] + rest, 1, base);
    assert ([c] + rest)[1..] == rest && ([c] + rest)[..1] == [c];
    assert Positional([c], base) == Positional("", base) * base + Val(c);
  }

  lemma PositionalBase(base: int)
    ensures ToInt32(Positional("", base)) == 0 && ToInt32(Pow(base, 0)) == 1
  {
  }

  method HexToDecimal(str: string, base: int32) returns (num: int32)
    ensures num == HexToDec(str, base)
  {
    hide ToInt32, Pow, Positional, Val;
    var power: int32 := 1;
    num := 0;
    PositionalBase(base);
    if str == "0" {
      return 0;
    }
    var i := |str| - 1;
    while i >= 0
      invariant -1 <= i < |str|
      invariant DigitsBelow(str[i + 1..], base)
      invariant num == ToInt32(Positional(str[i + 1..], base))
      invariant power == ToInt32(Pow(base, |str[i + 1..]|))
    {
      if Val(str[i]) >= base {
        return -1;
      }
      var v := Val(str[i]);
      ghost var done := str[i + 1..];
      PositionalFront(str[i], done, base);
      assert str[i..] == [str[i]] + done;
      WrapStep(Positional(done, base), v, Pow(base, |done|));
      WrapProduct(Pow(base, |done|), base);
      num := ToInt32(num + v * power);
      power := ToInt32(power * base);
      i := i - 1;
    }
    assert str[0..] == str;
  }

  // ---------------------------------------------------------------- hexadecimal sizes

  predicate IsHexDigit(c: char) {
    IsDigit(c) || 'a' <= c <= 'f' || 'A' <= c <= 'F'
  }

  predicate AllHexDigits(s: string) {
    forall k :: 0 <= k < |s| ==> IsHexDigit(s[k])
  }

  predicate NoUpperCase(s: string) {
    forall k :: 0 <= k < |s| ==> !('A' <= s[k] <= 'F')
  }

  /** The number a hexadecimal numeral denotes; either case of letter is a digit. */
  function HexValue(s: string): nat
    requires AllHexDigits(s)
  {
    if s == "" then 0
    else HexValue(s[..|s| - 1]) * 16 + HexDigitValue(s[|s| - 1])
  }

  function HexDigitValue(c: char): (v: nat)
    requires IsHexDigit(c)
    ensures v < 16
    ensures Val(c) == if 'A' <= c <= 'F' then v - 32 else v
  {
    if IsDigit(c) then DigitValue(c)
    else if c >= 'a' then c as int - 'a' as int + 10
    else c as int - 'A' as int + 10
  }

  lemma HexDigitsAre(d: nat)
    requires d < 16
    ensures var c := "0123456789abcdef"[d]; IsHexDigit(c) && HexDigitValue(c) == Val(c) == d
    ensures var c := "0123456789ABCDEF"[d]; IsHexDigit(c) && HexDigitValue(c) == d
  {
  }

  /** A byte above 127 is a negative char, and counts as a digit of a negative value. */
  lemma HighBytesAreNegative(c: char)
    requires 128 <= c as int < 256
    ensures HexToDec([c], 16) == c as int - 343 < 0
  {
    assert Positional([c], 16) == Positional("", 16) * 16 + Val(c);
    InRange(c as int - 343);
  }

  lemma {:induction false} HexBounds(s: string)
    requires AllHexDigits(s)
    ensures Positional(s, 16) <= HexValue(s)
    ensures Positional(s, 16) == HexValue(s) <==> NoUpperCase(s)
  {
    if s == "" {
    } else {
      var init, c := s[..|s| - 1], s[|s| - 1];
      HexBounds(init);
      assert NoUpperCase(s) <==> NoUpperCase(init) && !('A' <= c <= 'F') by {
        assert s == init + [c];
      }
      var v, h, p := Val(c), HexDigitValue(c), Positional(init, 16);
      assert Positional(s, 16) == p * 16 + v && HexValue(s) == HexValue(init) * 16 + h;
    }
  }

  /** A value below 8 * 16^m leaves room for upper-case letters in the last m digits only, and each of them
      is taken for a value 32 too small. */
  lemma {:induction false} HexDefect(s: string, m: nat)
    requires AllHexDigits(s) && HexValue(s) < 8 * Pow(16, m)
    ensures 15 * (HexValue(s) - Positional(s, 16)) <= 32 * (Pow(16, m) - 1)
    decreases |s|
  {
    if s == "" {
      PowMonotone(0, m);
    } else {
      var init, c := s[..|s| - 1], s[|s| - 1];
      var v, h, p, w := Val(c), HexDigitValue(c), Positional(init, 16), HexValue(init);
      assert Positional(s, 16) == p * 16 + v && HexValue(s) == w * 16 + h;
      HexDefect(init, if m == 0 then 0 else m - 1);
    }
  }

  /** hex_to_dec is right exactly on the numerals without an upper-case letter whose value fits an int. */
  lemma HexToDecExact(s: string)
    requires AllHexDigits(s)
    ensures HexToDec(s, 16) == HexValue(s) <==> NoUpperCase(s) && HexValue(s) <= INT_MAX
  {
    hide Pow;
    HexBounds(s);
    SevenDigits();
    var v, p := HexValue(s), Positional(s, 16);
    if v <= INT_MAX {
      HexDefect(s, 7);
      NarrowedNear(p, v);
    }
    if s == "0" {
      assert v == HexValue("") * 16 + 0;
    }
  }

  lemma SevenDigits()
    ensures Pow(16, 7) == 0x1000_0000
  {
    assert Pow(16, 2) == 0x100 && Pow(16, 4) == 0x1_0000 && Pow(16, 6) == 0x100_0000;
  }

  /** Narrowing cannot make up for a difference of less than 2^32. */
  lemma NarrowedNear(p: int, v: int)
    requires 0 <= v <= INT_MAX && v - TWO32 < p <= v
    ensures ToInt32(p) == v <==> p == v
  {
    var k := ToInt32Multiple(p);
  }

  /** A lower-case letter that is no hexadecimal digit makes the result -1, wherever it stands. */
  lemma HexForeign(s: string, k: nat)
    requires k < |s| && 'g' <= s[k] <= 'z'
    ensures HexToDec(s, 16) == -1
  {
    assert Val(s[k]) >= 16;
  }

  /** A lower-case numeral that does not fit, and a short one in upper case. */
  lemma HexMisread()
    ensures HexToDec("100000000", 16) == 0 && HexValue("100000000") == TWO32
    ensures HexToDec("A", 16) == -22 && HexValue("A") == 10
  {
    OneAndZeros(8);
    assert HexValue("A") == HexValue("") * 16 + 10;
    assert Positional("A", 16) == Positional("", 16) * 16 - 22;
    assert "1" + Zeros(8) == "100000000";
    SevenDigits();
    assert Pow(16, 8) == Pow(16, 7) * 16;
    InRange(-22);
  }

  function Zeros(n: nat): (s: string)
    ensures |s| == n && forall k :: 0 <= k < n ==> s[k] == '0'
  {
    if n == 0 then "" else Zeros(n - 1) + "0"
  }

  lemma {:induction false} OneAndZeros(n: nat)
    ensures HexValue("1" + Zeros(n)) == Positional("1" + Zeros(n), 16) == Pow(16, n)
  {
    var s := "1" + Zeros(n);
    if n == 0 {
      assert s == "1" && s[..0] == "";
    } else {
      OneAndZeros(n - 1);
      assert s[..|s| - 1] == "1" + Zeros(n - 1);
      assert HexDigitValue(s[|s| - 1]) == 0 == Val(s[|s| - 1]);
    }
  }

  lemma {:induction false} PowMonotone(j: nat, k: nat)
    requires j <= k
    ensures 1 <= Pow(16, j) <= Pow(16, k)
    decreases k
  {
    if j < k {
      PowMonotone(j, k - 1);
    } else if j > 0 {
      PowMonotone(j - 1, j - 1);
    }
  }
}
