/** Decimal and hexadecimal literals, as written and as read. */
module Literals {
  import opened Options

  type Byte = b: int | 0 <= b < 256

  // ---- Decimal integers ----

  predicate IsDigit(c: char) {
    '0' <= c <= '9'
  }

  function DigitChar(d: nat): char
    requires d < 10
  {
    '0' + d as char
  }

  function DigitOf(c: char): nat
    requires IsDigit(c)
  {
    (c - '0') as nat
  }

  function WriteNat(n: nat): string {
    if n < 10 then [DigitChar(n)] else WriteNat(n / 10) + [DigitChar(n % 10)]
  }

  function Write(n: int): string {
    if n < 0 then "-" + WriteNat(-n) else WriteNat(n)
  }

  predicate AllDigits(s: string) {
    forall c | c in s :: IsDigit(c)
  }

  function ReadNat(s: string): nat
    requires AllDigits(s)
  {
    if s == [] then 0
    else
      assert forall c | c in s[..|s| - 1] :: c in s;
      ReadNat(s[..|s| - 1]) * 10 + DigitOf(s[|s| - 1])
  }

  /** An optional sign and digits; the empty string reads as zero. */
  function Read(s: string): Option<int> {
    if s == "" then Some(0)
    else
      var signed := s[0] == '-' || s[0] == '+';
      var digits := if signed then s[1..] else s;
      if digits == "" || !AllDigits(digits) then None
      else Some(if s[0] == '-' then 0 - ReadNat(digits) else ReadNat(digits))
  }

  /** Digits without a leading zero. */
  predicate PlainNat(s: string) {
    s != "" && AllDigits(s) && s[0] != '0'
  }

  predicate CanonicalDecimal(s: string) {
    s == "0" || PlainNat(s) || (s != "" && s[0] == '-' && PlainNat(s[1..]))
  }

  lemma DigitsSplit(s: string)
    requires s != "" && AllDigits(s)
    ensures AllDigits(s[..|s| - 1]) && IsDigit(s[|s| - 1])
    ensures ReadNat(s) == ReadNat(s[..|s| - 1]) * 10 + DigitOf(s[|s| - 1])
  {
    assert s[|s| - 1] in s && forall c | c in s[..|s| - 1] :: c in s;
  }

  lemma EmptyReadsZero()
    ensures AllDigits("") && ReadNat("") == 0
  {
  }

  lemma {:induction false} WriteReadNat(s: string)
    requires PlainNat(s)
    ensures ReadNat(s) > 0 && WriteNat(ReadNat(s)) == s
  {
    hide IsDigit, DigitChar, DigitOf, WriteNat, ReadNat, AllDigits;
    var init, last := s[..|s| - 1], s[|s| - 1];
    DigitsSplit(s);
    DigitLaws(last);
    if init == "" {
      EmptyReadsZero();
      assert s == [last];
    } else {
      assert init[0] == s[0];
      WriteReadNat(init);
      assert s == init + [last];
    }
    LastDigit(ReadNat(init), DigitOf(last));
  }

  lemma DigitLaws(c: char)
    requires IsDigit(c)
    ensures DigitOf(c) < 10 && DigitChar(DigitOf(c)) == c && (c != '0' ==> DigitOf(c) > 0)
  {
  }

  lemma LastDigit(m: nat, d: nat)
    requires d < 10
    ensures WriteNat(m * 10 + d) == (if m == 0 then "" else WriteNat(m)) + [DigitChar(d)]
  {
    assert (m * 10 + d) / 10 == m && (m * 10 + d) % 10 == d;
  }

  lemma {:induction false} WrittenNatIsPlain(n: nat)
    ensures if n == 0 then WriteNat(n) == "0" else PlainNat(WriteNat(n))
  {
    if n >= 10 {
      WrittenNatIsPlain(n / 10);
      var init := WriteNat(n / 10);
      assert WriteNat(n)[0] == init[0];
      forall c | c in WriteNat(n) ensures IsDigit(c) {
        assert c in init || c == DigitChar(n % 10);
      }
    }
  }

  lemma WrittenIsCanonical(n: int)
    ensures CanonicalDecimal(Write(n))
    ensures n != 0 <==> Write(n) != "0"
  {
    if n < 0 {
      WrittenNatIsPlain(-n);
      assert Write(n)[1..] == WriteNat(-n);
    } else {
      WrittenNatIsPlain(n);
      assert n != 0 ==> WriteNat(n)[0] != '0';
    }
  }

  lemma PlainIsUnsigned(s: string)
    requires PlainNat(s)
    ensures s[0] != '-' && s[0] != '+'
  {
    assert s[0] in s;
  }

  lemma ZeroLiteral()
    ensures Read("0") == Some(0) && Write(0) == "0"
  {
    assert "0"[..0] == "" && ReadNat("0") == 0;
  }

  lemma CanonicalSurvives(s: string)
    requires CanonicalDecimal(s)
    ensures Read(s).Some? && Write(Read(s).value) == s
  {
    hide WriteNat, ReadNat, AllDigits;
    if s == "0" {
      ZeroLiteral();
    } else if PlainNat(s) {
      PlainIsUnsigned(s);
      WriteReadNat(s);
    } else {
      WriteReadNat(s[1..]);
      assert s == "-" + s[1..];
    }
  }

  /** Reading and writing back gives the same literal exactly for canonical literals. */
  lemma DecimalRoundTripIff(s: string)
    ensures (Read(s).Some? && Write(Read(s).value) == s) <==> CanonicalDecimal(s)
  {
    hide Read, Write, CanonicalDecimal;
    if CanonicalDecimal(s) {
      CanonicalSurvives(s);
    }
    if Read(s).Some? {
      WrittenIsCanonical(Read(s).value);
    }
  }

  lemma {:induction false} ReadWriteNat(n: nat)
    ensures WriteNat(n) != "" && AllDigits(WriteNat(n)) && ReadNat(WriteNat(n)) == n
  {
    var s := WriteNat(n);
    if n >= 10 {
      ReadWriteNat(n / 10);
      assert s[..|s| - 1] == WriteNat(n / 10);
    } else {
      assert s[..0] == "" && ReadNat(s[..0]) == 0;
    }
  }

  lemma ReadWrite(n: int)
    ensures Read(Write(n)) == Some(n)
  {
    hide WriteNat, ReadNat;
    if n < 0 {
      ReadWriteNat(-n);
      assert Write(n)[1..] == WriteNat(-n);
    } else {
      ReadWriteNat(n);
      assert WriteNat(n)[0] in WriteNat(n);
    }
  }

  // ---- Hexadecimal bytes ----

  predicate IsLowerHex(c: char) {
    IsDigit(c) || 'a' <= c <= 'f'
  }

  predicate IsHex(c: char) {
    IsLowerHex(c) || 'A' <= c <= 'F'
  }

  function HexValue(c: char): (v: nat)
    requires IsHex(c)
    ensures v < 16
  {
    if IsDigit(c) then DigitOf(c)
    else if 'a' <= c <= 'f' then (c - 'a') as nat + 10
    else (c - 'A') as nat + 10
  }

  function HexChar(v: nat): (c: char)
    requires v < 16
    ensures IsLowerHex(c)
  {
    if v < 10 then DigitChar(v) else 'a' + (v - 10) as char
  }

  function WriteHex(bytes: seq<Byte>): string {
    if bytes == [] then ""
    else [HexChar(bytes[0] / 16), HexChar(bytes[0] % 16)] + WriteHex(bytes[1..])
  }

  /** Reads pairs of digits up to the first pair that is none. */
  function ReadHex(s: string): seq<Byte> {
    if |s| < 2 || !IsHex(s[0]) || !IsHex(s[1]) then []
    else [16 * HexValue(s[0]) + HexValue(s[1])] + ReadHex(s[2..])
  }

  predicate CanonicalHex(s: string) {
    |s| % 2 == 0 && forall c | c in s :: IsLowerHex(c)
  }

  lemma HexCharOfValue(c: char)
    requires IsLowerHex(c)
    ensures HexChar(HexValue(c)) == c
  {
  }

  lemma CanonicalPairs(s: string)
    requires CanonicalHex(s) && s != ""
    ensures |s| >= 2 && IsLowerHex(s[0]) && IsLowerHex(s[1]) && CanonicalHex(s[2..])
  {
    assert s[0] in s && s[1] in s && forall c | c in s[2..] :: c in s;
  }

  lemma FirstPair(c: char, d: char, rest: seq<Byte>)
    requires IsLowerHex(c) && IsLowerHex(d)
    ensures IsHex(c) && IsHex(d)
    ensures WriteHex([16 * HexValue(c) + HexValue(d)] + rest) == [c, d] + WriteHex(rest)
  {
    HexCharOfValue(c);
    HexCharOfValue(d);
    hide HexChar, HexValue;
    var b := 16 * HexValue(c) + HexValue(d);
    assert b / 16 == HexValue(c) && b % 16 == HexValue(d);
    assert ([b] + rest)[1..] == rest;
  }

  lemma {:induction false} WriteReadHex(s: string)
    requires CanonicalHex(s)
    ensures WriteHex(ReadHex(s)) == s
    decreases |s|
  {
    assert WriteHex([]) == "";
    hide IsDigit, IsLowerHex, IsHex, HexValue, HexChar, WriteHex, CanonicalHex;
    if s != "" {
      CanonicalPairs(s);
      WriteReadHex(s[2..]);
      FirstPair(s[0], s[1], ReadHex(s[2..]));
      assert s == [s[0], s[1]] + s[2..];
    }
  }

  lemma {:induction false} WrittenHexIsCanonical(bytes: seq<Byte>)
    ensures CanonicalHex(WriteHex(bytes))
  {
    if bytes != [] {
      WrittenHexIsCanonical(bytes[1..]);
    }
  }

  /** Reading and writing back gives the same text exactly for lower-case, even-length hex. */
  lemma HexRoundTripIff(s: string)
    ensures WriteHex(ReadHex(s)) == s <==> CanonicalHex(s)
  {
    if CanonicalHex(s) {
      WriteReadHex(s);
    }
    WrittenHexIsCanonical(ReadHex(s));
  }

  lemma {:induction false} ReadWriteHex(bytes: seq<Byte>)
    ensures ReadHex(WriteHex(bytes)) == bytes
  {
    if bytes != [] {
      ReadWriteHex(bytes[1..]);
      var b := bytes[0];
      HexValueOfChar(b / 16);
      HexValueOfChar(b % 16);
      hide HexChar, HexValue;
      assert WriteHex(bytes)[2..] == WriteHex(bytes[1..]);
      assert bytes == [b] + bytes[1..];
    }
  }

  lemma HexValueOfChar(v: nat)
    requires v < 16
    ensures HexValue(HexChar(v)) == v
  {
  }

  // ---- What literals mean ----

  const DECIMAL := "0123456789"
  const HEX := "0123456789abcdef"

  lemma DecimalDigits(d: nat)
    requires d < 10
    ensures DigitChar(d) == DECIMAL[d] && IsDigit(DECIMAL[d]) && DigitOf(DECIMAL[d]) == d
  {
  }

  lemma DigitsAreDecimal(c: char)
    ensures IsDigit(c) <==> c in DECIMAL
  {
    if IsDigit(c) {
      assert DECIMAL[DigitOf(c)] == c;
    }
  }

  /** Numbers are written with the most significant digit first. */
  lemma WrittenDigits(m: nat, d: nat)
    requires d < 10
    ensures Write(d) == [DECIMAL[d]]
    ensures m > 0 ==> Write(10 * m + d) == Write(m) + [DECIMAL[d]]
    ensures m > 0 ==> Write(0 - m) == "-" + Write(m)
  {
    DecimalDigits(d);
    LastDigit(m, d);
  }

  /** And are read that way, a sign in front, leading zeros without effect. */
  lemma ReadDigits(s: string, d: nat)
    requires s != "" && d < 10 && forall c | c in s :: c in DECIMAL
    ensures Read("") == Some(0) && Read([DECIMAL[d]]) == Some(d)
    ensures Read(s).Some? && Read(s + [DECIMAL[d]]) == Some(10 * Read(s).value + d)
    ensures Read("-" + s) == Some(0 - Read(s).value) && Read("+" + s) == Read(s)
  {
    DecimalDigits(d);
    forall c | c in s ensures IsDigit(c) {
      DigitsAreDecimal(c);
    }
    DigitsAreDecimal(s[0]);
    var one, more := [DECIMAL[d]], s + [DECIMAL[d]];
    assert AllDigits(one) && AllDigits(more);
    DigitsSplit(one);
    DigitsSplit(more);
    EmptyReadsZero();
    assert one[..0] == "" && more[..|s|] == s;
    assert ("-" + s)[1..] == s && ("+" + s)[1..] == s;
    assert s[0] in s;
    hide ReadNat;
  }

  /** Nothing else is read: an optional sign and at least one digit, or nothing. */
  lemma ReadableIff(s: string)
    ensures Read(s).Some? <==>
      || s == ""
      || (forall c | c in s :: c in DECIMAL)
      || (|s| > 1 && (s[0] == '-' || s[0] == '+') && forall c | c in s[1..] :: c in DECIMAL)
  {
    forall c ensures IsDigit(c) <==> c in DECIMAL {
      DigitsAreDecimal(c);
    }
    if s != "" {
      assert s[0] in s;
    }
  }

  lemma HexDigits(v: nat)
    requires v < 16
    ensures HexChar(v) == HEX[v] && HexValue(HEX[v]) == v
  {
  }

  /** A byte is written with its high half first, */
  lemma WrittenByte(high: nat, low: nat)
    requires high < 16 && low < 16
    ensures WriteHex([16 * high + low]) == [HEX[high], HEX[low]]
  {
    HexDigits(high);
    HexDigits(low);
    hide HexChar;
    var x: Byte := 16 * high + low;
    assert x / 16 == high && x % 16 == low && [x][1..] == [];
    assert WriteHex([]) == "";
  }

  /** and bytes one after the other. */
  lemma {:induction false} WrittenBytes(a: seq<Byte>, b: seq<Byte>)
    ensures WriteHex([]) == "" && WriteHex(a + b) == WriteHex(a) + WriteHex(b)
    decreases |a|
  {
    hide HexChar;
    if a == [] {
      assert a + b == b;
    } else {
      WrittenBytes(a[1..], b);
      assert (a + b)[1..] == a[1..] + b;
      hide WriteHex;
      WriteHexFirst(a);
      WriteHexFirst(a + b);
      assert [HexChar(a[0] / 16), HexChar(a[0] % 16)] + (WriteHex(a[1..]) + WriteHex(b))
          == [HexChar(a[0] / 16), HexChar(a[0] % 16)] + WriteHex(a[1..]) + WriteHex(b);
    }
  }

  /** Reading ends at the first pair that is not made of two hexadecimal digits. */
  lemma {:induction false} ReadingStops(bytes: seq<Byte>, rest: string)
    requires |rest| < 2 || !IsHex(rest[0]) || !IsHex(rest[1])
    ensures ReadHex(WriteHex(bytes) + rest) == bytes
  {
    if bytes == [] {
      assert WriteHex(bytes) + rest == rest;
    } else {
      ReadingStops(bytes[1..], rest);
      var b, tail := bytes[0], WriteHex(bytes[1..]);
      WriteHexFirst(bytes);
      hide HexChar, WriteHex, ReadHex, IsHex;
      ReadsPair(b, tail + rest);
      assert ([HexChar(b / 16), HexChar(b % 16)] + tail) + rest
          == [HexChar(b / 16), HexChar(b % 16)] + (tail + rest);
      assert bytes == [b] + bytes[1..];
    }
  }

  lemma ReadsPair(b: Byte, rest: string)
    ensures ReadHex([HexChar(b / 16), HexChar(b % 16)] + rest) == [b] + ReadHex(rest)
  {
    HexValueOfChar(b / 16);
    HexValueOfChar(b % 16);
    hide HexChar, HexValue, IsLowerHex;
    assert ([HexChar(b / 16), HexChar(b % 16)] + rest)[2..] == rest;
  }

  lemma WriteHexFirst(bytes: seq<Byte>)
    requires bytes != []
    ensures WriteHex(bytes)
            == [HexChar(bytes[0] / 16), HexChar(bytes[0] % 16)] + WriteHex(bytes[1..])
  {
  }

  lemma HexIsDigitOrLetter(c: char)
    ensures IsHex(c) <==> c in HEX || c in "ABCDEF"
  {
    if 'a' <= c <= 'f' { assert HEX[(c - 'a') as nat + 10] == c; }
    if 'A' <= c <= 'F' { assert "ABCDEF"[(c - 'A') as nat] == c; }
    if '0' <= c <= '9' { assert HEX[(c - '0') as nat] == c; }
  }

  /** `t` is `s` with the letters A to F turned to a to f. */
  ghost predicate SameHex(s: string, t: string) {
    && |s| == |t|
    && forall i | 0 <= i < |s| ::
         t[i] == if 'A' <= s[i] <= 'F' then s[i] - 'A' + 'a' else s[i]
  }

  lemma SameDigit(c: char, d: char)
    requires d == if 'A' <= c <= 'F' then c - 'A' + 'a' else c
    ensures IsHex(c) <==> IsHex(d)
    ensures IsHex(c) ==> HexValue(c) == HexValue(d)
  {
  }

  /** The case of the letters does not matter. */
  lemma {:induction false} ReadingIgnoresCase(s: string, t: string)
    requires SameHex(s, t)
    ensures ReadHex(s) == ReadHex(t)
    decreases |s|
  {
    if |s| >= 2 {
      SameDigit(s[0], t[0]);
      SameDigit(s[1], t[1]);
      hide IsHex, HexValue;
      ReadingIgnoresCase(s[2..], t[2..]);
    }
  }
}
