/** Numbers as the streams print and read them: little-endian bytes, fixed-width hexadecimal and
    plain decimal. */
module Numerals {
  import opened Wrappers

  type byte = x: int | 0 <= x < 0x100
  type half = x: int | 0 <= x < 0x1_0000
  type word = x: int | 0 <= x < 0x1_0000_0000

  function Join(b0: byte, b1: byte, b2: byte, b3: byte): word {
    b0 + 0x100 * (b1 + 0x100 * (b2 + 0x100 * b3))
  }

  /** The bytes of a word in memory, lowest first. */
  function Bytes(w: word): (b: seq<byte>)
    ensures |b| == 4
  {
    [w % 0x100, w / 0x100 % 0x100, w / 0x100 / 0x100 % 0x100, w / 0x100 / 0x100 / 0x100]
  }

  function HalfBytes(h: half): (b: seq<byte>)
    ensures |b| == 2
  {
    [h % 0x100, h / 0x100]
  }

  lemma JoinBytes(w: word)
    ensures Join(Bytes(w)[0], Bytes(w)[1], Bytes(w)[2], Bytes(w)[3]) == w
  {
  }

  lemma BytesJoin(b0: byte, b1: byte, b2: byte, b3: byte)
    ensures Bytes(Join(b0, b1, b2, b3)) == [b0, b1, b2, b3]
  {
    var w := Join(b0, b1, b2, b3);
    assert w / 0x100 == b1 + 0x100 * (b2 + 0x100 * b3) && w % 0x100 == b0;
    assert w / 0x100 / 0x100 == b2 + 0x100 * b3 && w / 0x100 % 0x100 == b1;
  }

  predicate IsDigit(c: char) {
    '0' <= c <= '9'
  }

  function DigitValue(c: char): nat
    requires IsDigit(c)
  {
    c as int - '0' as int
  }

  function DigitChar(d: nat): (c: char)
    requires d < 10
    ensures IsDigit(c) && DigitValue(c) == d
  {
    ('0' as int + d) as char
  }

  function Dec(n: nat): (s: string)
    ensures s != "" && forall i :: 0 <= i < |s| ==> IsDigit(s[i])
  {
    if n < 10 then [DigitChar(n)] else Dec(n / 10) + [DigitChar(n % 10)]
  }

  function DecValue(s: string): nat
    requires forall i :: 0 <= i < |s| ==> IsDigit(s[i])
    decreases |s|
  {
    if s == "" then 0 else 10 * DecValue(s[..|s| - 1]) + DigitValue(s[|s| - 1])
  }

  lemma {:induction false} DecValueDec(n: nat)
    ensures DecValue(Dec(n)) == n
  {
    if n < 10 {
      assert Dec(n)[..0] == "";
    } else {
      DecValueDec(n / 10);
      assert Dec(n)[..|Dec(n)| - 1] == Dec(n / 10);
    }
  }

  /** The length of the digits at the front. */
  function DigitRun(s: string): (k: nat)
    ensures k <= |s|
    ensures forall i :: 0 <= i < k ==> IsDigit(s[i])
    ensures k < |s| ==> !IsDigit(s[k])
  {
    if s == "" || !IsDigit(s[0]) then 0 else 1 + DigitRun(s[1..])
  }

  predicate IsBlank(c: char) {
    c == ' ' || 9 <= c as int <= 13
  }

  /** Extraction skips blanks first. */
  function SkipBlanks(s: string): string {
    if s != "" && IsBlank(s[0]) then SkipBlanks(s[1..]) else s
  }

  /** Then it takes a sign, if there is one. */
  function TakeSign(s: string): (bool, string) {
    if s != "" && s[0] == '-' then (true, s[1..])
    else if s != "" && s[0] == '+' then (false, s[1..])
    else (false, s)
  }

  /** A negative number read into an unsigned type wraps around. */
  function Wrapped(negative: bool, v: nat, bound: nat): (w: nat)
    requires v < bound
    ensures w < bound
  {
    if negative && v > 0 then bound - v else v
  }

  /** Extraction of an unsigned number below `bound`: fails without a digit and on overflow. */
  function TakeDec(s: string, bound: nat): (r: Option<(nat, string)>)
    ensures r.Some? ==> r.value.0 < bound
  {
    var (negative, t) := TakeSign(SkipBlanks(s));
    var k := DigitRun(t);
    if k == 0 || DecValue(t[..k]) >= bound then None
    else Some((Wrapped(negative, DecValue(t[..k]), bound), t[k..]))
  }

  lemma TakeDecDec(n: nat, rest: string, bound: nat)
    requires rest != "" ==> !IsDigit(rest[0])
    ensures TakeDec(Dec(n) + rest, bound) == if n < bound then Some((n, rest)) else None
  {
    var s := Dec(n) + rest;
    assert s[0] == Dec(n)[0];
    assert SkipBlanks(s) == s && TakeSign(s) == (false, s);
    var k := DigitRun(s);
    assert forall i :: 0 <= i < |Dec(n)| ==> s[i] == Dec(n)[i] && IsDigit(s[i]);
    assert rest != "" ==> s[|Dec(n)|] == rest[0];
    assert k == |Dec(n)|;
    assert s[..k] == Dec(n) && s[k..] == rest;
    DecValueDec(n);
  }

  const HEX := "0123456789abcdef"

  /** The value of a hexadecimal digit, in either case; 16 if it is none. */
  function HexDigit(c: char): (d: nat)
    ensures d <= 16
  {
    if '0' <= c <= '9' then c as int - '0' as int
    else if 'a' <= c <= 'f' then c as int - 'a' as int + 10
    else if 'A' <= c <= 'F' then c as int - 'A' as int + 10
    else 16
  }

  lemma HexDigitHex(d: nat)
    requires d < 16
    ensures HexDigit(HEX[d]) == d
  {
    assert HEX[0] == '0' && HEX[1] == '1' && HEX[2] == '2' && HEX[3] == '3' && HEX[4] == '4' && HEX[5] == '5' &&
           HEX[6] == '6' && HEX[7] == '7' && HEX[8] == '8' && HEX[9] == '9' && HEX[10] == 'a' && HEX[11] == 'b' &&
           HEX[12] == 'c' && HEX[13] == 'd' && HEX[14] == 'e' && HEX[15] == 'f';
  }

  /** setw(n), setfill('0') and hex, for a number of at most n digits. */
  function Hex(w: nat, n: nat): (s: string)
    ensures |s| == n
  {
    if n == 0 then "" else Hex(w / 16, n - 1) + [HEX[w % 16]]
  }

  /** The hexadecimal digits at the front of s, as a number. */
  function HexPrefix(s: string, value: nat): nat
    decreases |s|
  {
    if s == "" || HexDigit(s[0]) == 16 then value else HexPrefix(s[1..], 16 * value + HexDigit(s[0]))
  }

  function Bound16(n: nat): nat {
    if n == 0 then 1 else 16 * Bound16(n - 1)
  }

  lemma {:induction false} HexPrefixHex(w: nat, n: nat, rest: string, value: nat)
    requires w < Bound16(n)
    ensures HexPrefix(Hex(w, n) + rest, value) == HexPrefix(rest, Bound16(n) * value + w)
    decreases n
  {
    if n == 0 {
      assert Hex(w, 0) + rest == rest;
    } else {
      var tail := [HEX[w % 16]] + rest;
      assert Hex(w, n) + rest == Hex(w / 16, n - 1) + tail;
      HexPrefixHex(w / 16, n - 1, tail, value);
      HexDigitHex(w % 16);
      assert tail[1..] == rest;
      assert HexPrefix(tail, Bound16(n - 1) * value + w / 16)
          == HexPrefix(rest, 16 * (Bound16(n - 1) * value + w / 16) + w % 16);
      ShiftDigit(Bound16(n - 1), value, w);
    }
  }

  lemma ShiftDigit(b: nat, value: nat, w: nat)
    ensures 16 * (b * value + w / 16) + w % 16 == 16 * b * value + w
  {
    var m := b * value;
    assert 16 * m == 16 * b * value;
  }

  /** Extraction of a hexadecimal number of at most eight digits, with or without 0x in front. What is no
      number reads as 0. */
  function HexWord(s: string): word
    requires |s| <= 8
  {
    var (negative, t) := TakeSign(SkipBlanks(s));
    var digits := if |t| >= 2 && t[0] == '0' && t[1] in "xX" then t[2..] else t;
    Wrapped(negative, HexPrefix(digits, 0) % 0x1_0000_0000, 0x1_0000_0000)
  }

  lemma HexPrefixWord(w: word)
    ensures HexPrefix(Hex(w, 8), 0) == w
  {
    assert Bound16(8) == 0x1_0000_0000 by {
      assert Bound16(4) == 0x1_0000;
    }
    assert Hex(w, 8) + "" == Hex(w, 8);
    HexPrefixHex(w, 8, "", 0);
  }

  lemma {:induction false} HexInDigits(w: nat, n: nat)
    ensures forall i :: 0 <= i < n ==> Hex(w, n)[i] in HEX
    decreases n
  {
    if n > 0 {
      HexInDigits(w / 16, n - 1);
    }
  }

  lemma HexDigitsArePlain(c: char)
    requires c in HEX
    ensures !IsBlank(c) && c != '-' && c != '+' && c !in "xX"
  {
  }

  lemma HexWordHex(w: word)
    ensures HexWord(Hex(w, 8)) == w
  {
    hide Hex, HexPrefix;
    HexInDigits(w, 8);
    HexDigitsArePlain(Hex(w, 8)[0]);
    HexDigitsArePlain(Hex(w, 8)[1]);
    HexPrefixWord(w);
  }
}
