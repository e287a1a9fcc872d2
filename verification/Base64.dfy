/** The Base64 codec of Base64.cpp (section 4 of RFC 4648), on unsigned chars that wrap at 256. */
module Base64 {
  type byte = bv8
  type bytes = seq<byte>

  const PAD: byte := 0x3d  // '='

  // ---------------------------------------------------------------- the alphabet

  predicate IsBase64(c: byte) {
    0x41 <= c <= 0x5a || 0x61 <= c <= 0x7a || 0x30 <= c <= 0x39 || c == 0x2b || c == 0x2f
  }

  /** base64_chars[i]: A-Z, a-z, 0-9, '+', '/'. */
  function Letter(i: byte): (c: byte)
    requires i < 64
    ensures IsBase64(c) && Lookup(c) == i
  {
    if i < 26 then i + 0x41
    else if i < 52 then i + 71
    else if i < 62 then i - 4
    else if i == 62 then 0x2b
    else 0x2f
  }

  /** base64_chars.find(c) stored in an unsigned char: npos becomes 255. */
  function Lookup(c: byte): (i: byte)
    ensures i < 64 <==> IsBase64(c)
    ensures i >= 64 ==> i == 255
  {
    if 0x41 <= c <= 0x5a then c - 0x41
    else if 0x61 <= c <= 0x7a then c - 71
    else if 0x30 <= c <= 0x39 then c + 4
    else if c == 0x2b then 62
    else if c == 0x2f then 63
    else 255
  }

  // ---------------------------------------------------------------- one group

  function Sextet0(a: byte): (x: byte) ensures x < 64 { (a & 0xfc) >> 2 }
  function Sextet1(a: byte, b: byte): (x: byte) ensures x < 64 { ((a & 0x03) << 4) + ((b & 0xf0) >> 4) }
  function Sextet2(b: byte, c: byte): (x: byte) ensures x < 64 { ((b & 0x0f) << 2) + ((c & 0xc0) >> 6) }
  function Sextet3(c: byte): (x: byte) ensures x < 64 { c & 0x3f }

  function Sextets(a: byte, b: byte, c: byte): (s: bytes)
    ensures |s| == 4 && forall k :: 0 <= k < 4 ==> s[k] < 64
  {
    [Sextet0(a), Sextet1(a, b), Sextet2(b, c), Sextet3(c)]
  }

  function Octet0(w: byte, x: byte): byte { (w << 2) + ((x & 0x30) >> 4) }
  function Octet1(x: byte, y: byte): byte { ((x & 0xf) << 4) + ((y & 0x3c) >> 2) }
  function Octet2(y: byte, z: byte): byte { ((y & 0x3) << 6) + z }

  function Octets(w: byte, x: byte, y: byte, z: byte): bytes {
    [Octet0(w, x), Octet1(x, y), Octet2(y, z)]
  }

  function Letters(s: bytes): (t: bytes)
    requires forall k :: 0 <= k < |s| ==> s[k] < 64
    ensures |t| == |s| && forall k :: 0 <= k < |s| ==> t[k] == Letter(s[k])
  {
    if s == [] then [] else [Letter(s[0])] + Letters(s[1..])
  }

  lemma OctetsOfSextets(a: byte, b: byte, c: byte)
    ensures var s := Sextets(a, b, c); Octets(s[0], s[1], s[2], s[3]) == [a, b, c]
  {
  }

  /** The sextets of an incomplete group determine its bytes whatever the filler look-up gives. */
  lemma FillerIsHarmless(a: byte, b: byte, y: byte, z: byte)
    ensures var s := Sextets(a, 0, 0); Octets(s[0], s[1], y, z)[..1] == [a]
    ensures var s := Sextets(a, b, 0); Octets(s[0], s[1], s[2], z)[..2] == [a, b]
  {
  }

  // ---------------------------------------------------------------- whole strings

  function Pads(n: nat): bytes {
    if n == 0 then [] else [PAD] + Pads(n - 1)
  }

  function Encode(b: bytes): bytes {
    if |b| >= 3 then Letters(Sextets(b[0], b[1], b[2])) + Encode(b[3..])
    else if |b| == 2 then Letters(Sextets(b[0], b[1], 0))[..3] + Pads(1)
    else if |b| == 1 then Letters(Sextets(b[0], 0, 0))[..2] + Pads(2)
    else []
  }

  /** The part of the input that the decoder reads: up to the first padding or foreign byte. */
  function Readable(s: bytes): (r: bytes)
    ensures forall k :: 0 <= k < |r| ==> IsBase64(r[k])
  {
    if s == [] || s[0] == PAD || !IsBase64(s[0]) then [] else [s[0]] + Readable(s[1..])
  }

  function DecodeLetters(s: bytes): bytes {
    if |s| >= 4 then
      Octets(Lookup(s[0]), Lookup(s[1]), Lookup(s[2]), Lookup(s[3])) + DecodeLetters(s[4..])
    else if |s| == 3 then Octets(Lookup(s[0]), Lookup(s[1]), Lookup(s[2]), Lookup(0))[..2]
    else if |s| == 2 then Octets(Lookup(s[0]), Lookup(s[1]), Lookup(0), Lookup(0))[..1]
    else []
  }

  function Decode(s: bytes): bytes {
    DecodeLetters(Readable(s))
  }

  // ---------------------------------------------------------------- the standard's own terms

  const UPPER := "ABCDEFGHIJKLMNOPQRSTUVWXYZ"
  const LOWER := "abcdefghijklmnopqrstuvwxyz"
  const REST := "0123456789+/"
  const ALPHABET := UPPER + LOWER + REST

  function ByteOf(c: char): byte
    requires c < 128 as char
  {
    (c as int) as byte
  }

  /** The text in ASCII. */
  function Bytes(text: string): (b: bytes)
    requires forall k :: 0 <= k < |text| ==> text[k] < 128 as char
    ensures |b| == |text| && forall k :: 0 <= k < |text| ==> b[k] == ByteOf(text[k])
  {
    seq(|text|, k requires 0 <= k < |text| => ByteOf(text[k]))
  }

  lemma UpperAt(n: nat)
    requires n < 26
    ensures |UPPER| == 26 && UPPER[n] as int == 65 + n
  {
  }

  lemma LowerAt(n: nat)
    requires n < 26
    ensures |LOWER| == 26 && LOWER[n] as int == 97 + n
  {
  }

  lemma RestAt(n: nat)
    requires n < 12
    ensures |REST| == 12 && REST[n] as int == if n < 10 then 48 + n else if n == 10 then 43 else 47
  {
  }

  lemma AlphabetAt(n: nat)
    requires n < 64
    ensures |ALPHABET| == 64
    ensures ALPHABET[n] as int ==
      if n < 26 then 65 + n else if n < 52 then 71 + n else if n < 62 then n - 4 else if n == 62 then 43 else 47
  {
    hide UPPER, LOWER, REST;
    UpperAt(0);
    LowerAt(0);
    RestAt(0);
    if n < 26 {
      UpperAt(n);
    } else if n < 52 {
      LowerAt(n - 26);
    } else {
      RestAt(n - 52);
    }
  }

  /** Character i of the alphabet. */
  function CharAt(i: bv32): byte
    requires i < 64
  {
    AlphabetAt(i as int);
    ByteOf(ALPHABET[i as int])
  }

  lemma LetterNumber(i: byte)
    requires i < 64
    ensures var n := i as int;
      Letter(i) as int ==
        if n < 26 then 65 + n else if n < 52 then 71 + n else if n < 62 then n - 4 else if n == 62 then 43 else 47
  {
  }

  lemma LetterIsChar(i: byte)
    requires i < 64
    ensures Letter(i) == CharAt(i as bv32)
  {
    hide Letter, ALPHABET;
    LetterNumber(i);
    AlphabetAt(i as int);
  }

  /** Three bytes as one number of 24 bits. */
  function Group(a: byte, b: byte, c: byte): bv32 {
    (a as bv32) * 65536 + (b as bv32) * 256 + (c as bv32)
  }

  /** Digit k of the number to base 64, the highest first. */
  function Digit(n: bv32, k: nat): (d: bv32)
    requires k < 4
    ensures d < 64
  {
    if k == 0 then n / 262144 % 64 else if k == 1 then n / 4096 % 64 else if k == 2 then n / 64 % 64 else n % 64
  }

  lemma Digit0(a: byte, b: byte, c: byte)
    ensures Sextet0(a) as bv32 == Digit(Group(a, b, c), 0)
  {
  }

  lemma Digit1(a: byte, b: byte, c: byte)
    ensures Sextet1(a, b) as bv32 == Digit(Group(a, b, c), 1)
  {
  }

  lemma Digit2(a: byte, b: byte, c: byte)
    ensures Sextet2(b, c) as bv32 == Digit(Group(a, b, c), 2)
  {
  }

  lemma Digit3(a: byte, b: byte, c: byte)
    ensures Sextet3(c) as bv32 == Digit(Group(a, b, c), 3)
  {
  }

  /** The number's four digits to base 64, each as a character of the alphabet. */
  function Chars(n: bv32): (s: bytes)
    ensures |s| == 4
  {
    [CharAt(Digit(n, 0)), CharAt(Digit(n, 1)), CharAt(Digit(n, 2)), CharAt(Digit(n, 3))]
  }

  /** Section 4 of RFC 4648: every three bytes as four characters, a shorter last group padded with '='. */
  function Standard(b: bytes): bytes {
    if |b| >= 3 then Chars(Group(b[0], b[1], b[2])) + Standard(b[3..])
    else if |b| == 2 then Chars(Group(b[0], b[1], 0))[..3] + Bytes("=")
    else if |b| == 1 then Chars(Group(b[0], 0, 0))[..2] + Bytes("==")
    else []
  }

  lemma Char0(a: byte, b: byte, c: byte)
    ensures Letter(Sextet0(a)) == CharAt(Digit(Group(a, b, c), 0))
  {
    hide Sextet0, Letter, CharAt, Group, Digit;
    Digit0(a, b, c);
    LetterIsChar(Sextet0(a));
  }

  lemma Char1(a: byte, b: byte, c: byte)
    ensures Letter(Sextet1(a, b)) == CharAt(Digit(Group(a, b, c), 1))
  {
    hide Sextet1, Letter, CharAt, Group, Digit;
    Digit1(a, b, c);
    LetterIsChar(Sextet1(a, b));
  }

  lemma Char2(a: byte, b: byte, c: byte)
    ensures Letter(Sextet2(b, c)) == CharAt(Digit(Group(a, b, c), 2))
  {
    hide Sextet2, Letter, CharAt, Group, Digit;
    Digit2(a, b, c);
    LetterIsChar(Sextet2(b, c));
  }

  lemma Char3(a: byte, b: byte, c: byte)
    ensures Letter(Sextet3(c)) == CharAt(Digit(Group(a, b, c), 3))
  {
    hide Sextet3, Letter, CharAt, Group, Digit;
    Digit3(a, b, c);
    LetterIsChar(Sextet3(c));
  }

  lemma LettersOfFour(w: byte, x: byte, y: byte, z: byte)
    requires w < 64 && x < 64 && y < 64 && z < 64
    ensures Letters([w, x, y, z]) == [Letter(w), Letter(x), Letter(y), Letter(z)]
  {
    hide Letter;
  }

  lemma LettersAreChars(a: byte, b: byte, c: byte)
    ensures Letters(Sextets(a, b, c)) == Chars(Group(a, b, c))
  {
    hide Sextet0, Sextet1, Sextet2, Sextet3, Letter, CharAt, Group, Letters, Digit;
    Char0(a, b, c);
    Char1(a, b, c);
    Char2(a, b, c);
    Char3(a, b, c);
    LettersOfFour(Sextet0(a), Sextet1(a, b), Sextet2(b, c), Sextet3(c));
  }

  lemma PadsAreEquals()
    ensures Pads(1) == Bytes("=") && Pads(2) == Bytes("==")
  {
    assert ByteOf('=') == PAD;
    assert Pads(2) == [PAD] + Pads(1) && Pads(1) == [PAD] + Pads(0);
  }

  /** The encoder computes the standard's encoding, on every byte sequence. */
  lemma {:induction false} EncodeIsStandard(b: bytes)
    ensures Encode(b) == Standard(b)
  {
    hide Letters, Sextets, Chars, Group, Pads, Bytes, ByteOf;
    PadsAreEquals();
    if |b| >= 3 {
      LettersAreChars(b[0], b[1], b[2]);
      EncodeIsStandard(b[3..]);
    } else if |b| == 2 {
      LettersAreChars(b[0], b[1], 0);
    } else if |b| == 1 {
      LettersAreChars(b[0], 0, 0);
    } else {
    }
  }

  /** char_array_4 from char_array_3. */
  method FillSextets(a3: array<byte>, a4: array<byte>)
    requires a3.Length == 3 && a4.Length == 4 && a3 != a4
    modifies a4
    ensures a4[..] == Sextets(a3[0], a3[1], a3[2])
  {
    hide Sextet0, Sextet1, Sextet2, Sextet3;
    a4[0] := Sextet0(a3[0]);
    a4[1] := Sextet1(a3[0], a3[1]);
    a4[2] := Sextet2(a3[1], a3[2]);
    a4[3] := Sextet3(a3[2]);
  }

  method AppendLetters(ret0: bytes, a4: array<byte>, n: nat) returns (ret: bytes)
    requires n <= a4.Length && forall k :: 0 <= k < a4.Length ==> a4[k] < 64
    ensures ret == ret0 + Letters(a4[..])[..n]
  {
    ret := ret0;
    var i := 0;
    while i < n
      invariant 0 <= i <= n && ret == ret0 + Letters(a4[..])[..i]
    {
      ret := ret + [Letter(a4[i])];
      i := i + 1;
    }
  }

  method Base64Encode(input: bytes) returns (ret: bytes)
    ensures ret == Encode(input) == Standard(input)
  {
    hide Encode, Sextets, Letter, Standard;
    ret := [];
    var i, next := 0, 0;
    var a3, a4 := new byte[3], new byte[4];
    ghost var group: bytes := [];
    assert group + input[0..] == input;
    while next < |input|
      invariant 0 <= next <= |input| && 0 <= i < 3 && group == a3[..i]
      invariant ret + Encode(group + input[next..]) == Encode(input)
    {
      TakeNext(group, input, next);
      a3[i] := input[next];
      group := group + [input[next]];
      i, next := i + 1, next + 1;
      if i == 3 {
        EncodeGroup(ret, group, input[next..]);
        assert group[0] == a3[0] && group[1] == a3[1] && group[2] == a3[2];
        FillSextets(a3, a4);
        ret := AppendLetters(ret, a4, 4);
        i, group := 0, [];
        assert group + input[next..] == input[next..];
      }
    }
    assert group + input[next..] == group;
    EncodeNone();
    if i != 0 {
      ret := EncodeTail(ret, a3, a4, i);
    }
    EncodeIsStandard(input);
  }

  /** The last, incomplete group: one or two bytes in char_array_3. */
  method EncodeTail(ret0: bytes, a3: array<byte>, a4: array<byte>, n: nat) returns (ret: bytes)
    requires a3.Length == 3 && a4.Length == 4 && a3 != a4 && 1 <= n <= 2
    modifies a3, a4
    ensures ret == ret0 + Encode(old(a3[..n]))
  {
    ghost var left := a3[..n];
    var i, j := n, n;
    while j < 3
      invariant n <= j <= 3 && a3[..n] == left && forall k :: n <= k < j ==> a3[k] == 0
    {
      a3[j] := 0;
      j := j + 1;
    }
    assert a3[0] == left[0] && (n == 2 ==> a3[1] == left[1]);
    FillSextets(a3, a4);
    ret := AppendLetters(ret0, a4, i + 1);
    while i < 3
      invariant n <= i <= 3 && ret + Pads(3 - i) == ret0 + Encode(left)
    {
      ret := ret + [PAD];
      i := i + 1;
    }
  }

  lemma EncodeNone()
    ensures Encode([]) == []
  {
  }

  lemma TakeNext(front: bytes, s: bytes, k: nat)
    requires k < |s|
    ensures front + s[k..] == (front + [s[k]]) + s[k + 1..]
  {
  }

  lemma EncodeGroup(before: bytes, group: bytes, rest: bytes)
    requires |group| == 3
    ensures var s := Sextets(group[0], group[1], group[2]);
      before + Encode(group + rest) == before + Letters(s)[..4] + Encode(rest)
  {
    assert (group + rest)[3..] == rest;
  }

  /** char_array_4 turned from letters into sextets, in place. */
  method LookupAll(a4: array<byte>)
    requires a4.Length == 4
    modifies a4
    ensures forall k :: 0 <= k < 4 ==> a4[k] == Lookup(old(a4[k]))
  {
    var i := 0;
    while i < 4
      invariant 0 <= i <= 4
      invariant forall k :: 0 <= k < 4 ==> a4[k] == if k < i then Lookup(old(a4[k])) else old(a4[k])
    {
      a4[i] := Lookup(a4[i]);
      i := i + 1;
    }
  }

  /** char_array_3 from char_array_4, then its first n bytes appended to the output. */
  method AppendOctets(ret0: bytes, a4: array<byte>, a3: array<byte>, n: nat) returns (ret: bytes)
    requires a4.Length == 4 && a3.Length == 3 && a3 != a4 && n <= 3
    modifies a3
    ensures ret == ret0 + Octets(a4[0], a4[1], a4[2], a4[3])[..n]
  {
    hide Octet0, Octet1, Octet2;
    a3[0] := Octet0(a4[0], a4[1]);
    a3[1] := Octet1(a4[1], a4[2]);
    a3[2] := Octet2(a4[2], a4[3]);
    ghost var octets := Octets(a4[0], a4[1], a4[2], a4[3]);
    assert a3[..] == octets;
    ret := ret0;
    var i := 0;
    while i < n
      invariant 0 <= i <= n && ret == ret0 + octets[..i]
    {
      ret := ret + [a3[i]];
      i := i + 1;
    }
  }

  method Base64Decode(encoded: bytes) returns (ret: bytes)
    ensures ret == Decode(encoded)
    ensures forall b :: encoded == Standard(b) ==> ret == b
  {
    hide Standard, Decode, DecodeLetters, Readable, Octets, Lookup;
    ret := [];
    var i, next := 0, 0;
    var a4, a3 := new byte[4], new byte[3];
    ghost var group: bytes := [];
    DecodeWhole(encoded);
    while next < |encoded| && encoded[next] != PAD && IsBase64(encoded[next])
      invariant 0 <= next <= |encoded| && 0 <= i < 4 && group == a4[..i]
      invariant ret + DecodeLetters(group + Readable(encoded[next..])) == Decode(encoded)
    {
      ReadableNext(group, encoded, next);
      a4[i] := encoded[next];
      group := group + [encoded[next]];
      i, next := i + 1, next + 1;
      if i == 4 {
        DecodeGroup(ret, group, Readable(encoded[next..]));
        assert forall k :: 0 <= k < 4 ==> group[k] == a4[k];
        LookupAll(a4);
        ret := AppendOctets(ret, a4, a3, 3);
        i, group := 0, [];
        assert group + Readable(encoded[next..]) == Readable(encoded[next..]);
      }
    }
    ReadableStops(group, encoded, next);
    if i != 0 {
      ret := DecodeTail(ret, a4, a3, i);
    }
    forall b | encoded == Standard(b)
      ensures Decode(encoded) == b
    {
      DecodeStandard(b);
    }
  }

  /** The last, incomplete group: the filler bytes are looked up as well, and not found. */
  method DecodeTail(ret0: bytes, a4: array<byte>, a3: array<byte>, i: nat) returns (ret: bytes)
    requires a4.Length == 4 && a3.Length == 3 && a3 != a4 && 1 <= i <= 3
    modifies a3, a4
    ensures ret == ret0 + DecodeLetters(old(a4[..i]))
  {
    var j := i;
    while j < 4
      invariant i <= j <= 4
      invariant forall k :: 0 <= k < i ==> a4[k] == old(a4[k])
      invariant forall k :: i <= k < j ==> a4[k] == 0
    {
      a4[j] := 0;
      j := j + 1;
    }
    LookupAll(a4);
    ret := AppendOctets(ret0, a4, a3, i - 1);
  }

  lemma DecodeWhole(s: bytes)
    ensures DecodeLetters([] + Readable(s[0..])) == Decode(s)
  {
    assert s[0..] == s && [] + Readable(s) == Readable(s);
  }

  lemma ReadableStops(front: bytes, s: bytes, k: nat)
    requires k <= |s| && (k < |s| ==> s[k] == PAD || !IsBase64(s[k]))
    ensures front + Readable(s[k..]) == front
    ensures front == [] ==> DecodeLetters(front) == []
  {
  }

  lemma ReadableNext(front: bytes, s: bytes, k: nat)
    requires k < |s| && s[k] != PAD && IsBase64(s[k])
    ensures front + Readable(s[k..]) == (front + [s[k]]) + Readable(s[k + 1..])
  {
    assert s[k..][1..] == s[k + 1..];
  }

  lemma DecodeOnGroup(group: bytes, rest: bytes)
    requires |group| == 4
    ensures DecodeLetters(group + rest)
         == Octets(Lookup(group[0]), Lookup(group[1]), Lookup(group[2]), Lookup(group[3])) + DecodeLetters(rest)
  {
    assert (group + rest)[4..] == rest;
  }

  lemma DecodeGroup(before: bytes, group: bytes, rest: bytes)
    requires |group| == 4
    ensures before + DecodeLetters(group + rest)
         == before + Octets(Lookup(group[0]), Lookup(group[1]), Lookup(group[2]), Lookup(group[3]))[..3] + DecodeLetters(rest)
  {
    DecodeOnGroup(group, rest);
  }

  // ---------------------------------------------------------------- what the codec promises

  predicate AllBase64(s: bytes) {
    forall k :: 0 <= k < |s| ==> IsBase64(s[k])
  }

  lemma {:induction false} ReadableRun(letters: bytes, rest: bytes)
    requires AllBase64(letters)
    ensures Readable(letters + rest) == letters + Readable(rest)
  {
    if letters == [] {
      assert letters + rest == rest;
    } else {
      assert (letters + rest)[1..] == letters[1..] + rest;
      ReadableRun(letters[1..], rest);
      assert letters == [letters[0]] + letters[1..];
    }
  }

  /** Decoding undoes encoding, on every byte sequence. */
  lemma {:induction false} DecodeEncode(b: bytes)
    ensures Decode(Encode(b)) == b
  {
    if |b| >= 3 {
      DecodeEncodeGroup(b);
      DecodeEncode(b[3..]);
      assert b == [b[0], b[1], b[2]] + b[3..];
    } else if |b| == 2 {
      DecodeEncodeTwo(b);
    } else if |b| == 1 {
      DecodeEncodeOne(b);
    } else {
    }
  }

  lemma DecodeEncodeGroup(b: bytes)
    requires |b| >= 3
    ensures Decode(Encode(b)) == [b[0], b[1], b[2]] + Decode(Encode(b[3..]))
  {
    hide Octets, Sextets, Letter, Lookup, Readable, DecodeLetters, Encode;
    var s := Sextets(b[0], b[1], b[2]);
    EncodeOnGroup(b);
    ReadableRun(Letters(s), Encode(b[3..]));
    OctetsOfSextets(b[0], b[1], b[2]);
    DecodeOnGroup(Letters(s), Readable(Encode(b[3..])));
  }

  lemma EncodeOnGroup(b: bytes)
    requires |b| >= 3
    ensures Encode(b) == Letters(Sextets(b[0], b[1], b[2])) + Encode(b[3..])
  {
  }

  /** The padding ends what the decoder reads. */
  lemma ReadableTail(letters: bytes, n: nat)
    requires AllBase64(letters) && n > 0
    ensures Readable(letters + Pads(n)) == letters
  {
    ReadableRun(letters, Pads(n));
    assert letters + [] == letters;
  }

  lemma DecodeEncodeTwo(b: bytes)
    requires |b| == 2
    ensures Decode(Encode(b)) == b
  {
    hide Octet0, Octet1, Octet2, Sextets, Letter, Readable, Lookup;
    ReadableTail(Letters(Sextets(b[0], b[1], 0))[..3], 1);
    FillerIsHarmless(b[0], b[1], Lookup(0), Lookup(0));
  }

  lemma DecodeEncodeOne(b: bytes)
    requires |b| == 1
    ensures Decode(Encode(b)) == b
  {
    hide Octet0, Octet1, Octet2, Sextets, Letter, Readable, Lookup;
    ReadableTail(Letters(Sextets(b[0], 0, 0))[..2], 2);
    FillerIsHarmless(b[0], 0, Lookup(0), Lookup(0));
  }

  function PadCount(n: nat): nat {
    (3 - n % 3) % 3
  }

  lemma EncodeParts(b: bytes)
    ensures |b| >= 3 ==> |Encode(b)| == 4 + |Encode(b[3..])|
    ensures |b| < 3 ==> |Encode(b)| == if b == [] then 0 else 4
  {
    hide Sextets, Letter;
  }

  lemma {:induction false} EncodeLength(b: bytes)
    ensures |Encode(b)| == 4 * ((|b| + 2) / 3)
  {
    EncodeParts(b);
    hide Encode;
    if |b| < 3 {
    } else {
      EncodeLength(b[3..]);
    }
  }

  lemma PadPeriod(n: nat)
    ensures PadCount(n) == PadCount(n + 3)
    ensures PadCount(0) == 0 && PadCount(1) == 2 && PadCount(2) == 1
  {
  }

  /** Four characters for every group of three bytes, padded only at the end. */
  lemma {:induction false} EncodeShape(b: bytes) returns (letters: bytes)
    ensures |Encode(b)| == 4 * ((|b| + 2) / 3)
    ensures Encode(b) == letters + Pads(PadCount(|b|)) && AllBase64(letters)
  {
    hide Sextets, Letter;
    EncodeLength(b);
    hide PadCount;
    if |b| >= 3 {
      var rest := EncodeShape(b[3..]);
      PadPeriod(|b| - 3);
      letters := Letters(Sextets(b[0], b[1], b[2])) + rest;
    } else if |b| == 2 {
      PadPeriod(0);
      letters := Letters(Sextets(b[0], b[1], 0))[..3];
    } else if |b| == 1 {
      PadPeriod(0);
      letters := Letters(Sextets(b[0], 0, 0))[..2];
    } else {
      PadPeriod(0);
      letters := [];
    }
  }

  /** Characters 4g to 4g + 3 of the encoding are those of bytes 3g to 3g + 2. */
  lemma {:induction false} EncodedGroupAt(b: bytes, g: nat)
    requires 3 * g + 3 <= |b|
    ensures 4 * g + 4 <= |Encode(b)|
    ensures Encode(b)[4 * g..4 * g + 4] == Chars(Group(b[3 * g], b[3 * g + 1], b[3 * g + 2]))
  {
    hide Letters, Sextets, Chars, Group;
    LettersAreChars(b[0], b[1], b[2]);
    EncodeOnGroup(b);
    var first, rest := Letters(Sextets(b[0], b[1], b[2])), Encode(b[3..]);
    if g == 0 {
      assert (first + rest)[0..4] == first;
    } else {
      EncodedGroupAt(b[3..], g - 1);
      assert (first + rest)[4 * g..4 * g + 4] == rest[4 * (g - 1)..4 * (g - 1) + 4];
    }
  }

  /** The bytes of a number of 24 bits. */
  function BytesOf(n: bv32): (b: bytes)
    requires n < 0x100_0000
    ensures |b| == 3
  {
    [(n / 65536) as byte, (n / 256 % 256) as byte, (n % 256) as byte]
  }

  lemma GroupOfBytes(n: bv32)
    requires n < 0x100_0000
    ensures Group(BytesOf(n)[0], BytesOf(n)[1], BytesOf(n)[2]) == n
  {
  }

  /** Four characters decode to the three bytes of their number, whatever follows. */
  lemma DecodeChars(n: bv32, rest: bytes)
    requires n < 0x100_0000
    ensures Decode(Chars(n) + rest) == BytesOf(n) + Decode(rest)
  {
    hide Group, BytesOf, Chars, Octets, Sextets, Letter, Lookup, Readable, DecodeLetters;
    var b := BytesOf(n);
    var s := Sextets(b[0], b[1], b[2]);
    GroupOfBytes(n);
    LettersAreChars(b[0], b[1], b[2]);
    ReadableRun(Letters(s), rest);
    OctetsOfSextets(b[0], b[1], b[2]);
    DecodeOnGroup(Letters(s), Readable(rest));
  }

  /** The decoder undoes the standard's encoding. */
  lemma DecodeStandard(b: bytes)
    ensures Decode(Standard(b)) == b
  {
    EncodeIsStandard(b);
    DecodeEncode(b);
  }
}
