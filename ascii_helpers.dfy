// Fixed-width ASCII hex and decimal field conversion (Core/Src/helpers/ascii_helpers.C).
// A field is the first len bytes of buf; the C functions also accept a NULL buf, which the
// record parsers never pass and which this model leaves out.

module AsciiHelpers {
  import opened Common

  predicate IsDecChar(c: byte) { '0' as int <= c <= '9' as int }

  predicate IsHexChar(c: byte)
  {
    IsDecChar(c) || 'a' as int <= c <= 'f' as int || 'A' as int <= c <= 'F' as int
  }

  /** isHex: true exactly when the field is non-empty and every character is a hex digit. */
  method IsHex(buf: seq<byte>, len: nat) returns (ok: bool)
    requires len <= |buf|
    ensures ok <==> len > 0 && forall i :: 0 <= i < len ==> IsHexChar(buf[i])
  {
    ok := false;
    if len == 0 {
      return;
    }
    ok := true;
    var i := 0;
    while i < len
      invariant 0 <= i <= len
      invariant ok
      invariant forall j :: 0 <= j < i ==> IsHexChar(buf[j])
    {
      if !IsHexChar(buf[i]) {
        ok := false;
        break;
      }
      i := i + 1;
    }
  }

  /** isDec: true exactly when the field is non-empty and every character is a decimal digit. */
  method IsDec(buf: seq<byte>, len: nat) returns (ok: bool)
    requires len <= |buf|
    ensures ok <==> len > 0 && forall i :: 0 <= i < len ==> IsDecChar(buf[i])
  {
    ok := false;
    if len == 0 {
      return;
    }
    ok := true;
    var i := 0;
    while i < len
      invariant 0 <= i <= len
      invariant ok
      invariant forall j :: 0 <= j < i ==> IsDecChar(buf[j])
    {
      if !IsDecChar(buf[i]) {
        ok := false;
        break;
      }
      i := i + 1;
    }
  }

  /** Every field isDec accepts is accepted by isHex too. */
  lemma DecFieldIsHexField(buf: seq<byte>, len: nat)
    requires len <= |buf|
    requires len > 0 && forall i :: 0 <= i < len ==> IsDecChar(buf[i])
    ensures forall i :: 0 <= i < len ==> IsHexChar(buf[i])
  {
  }

  /** cton: the value of a hex digit, 0 for any other character. */
  function Cton(c: byte): (r: nat)
    ensures r < 16
    ensures !IsHexChar(c) ==> r == 0
  {
    if '0' as int <= c <= '9' as int then c - 0x30
    else if 'A' as int <= c <= 'F' as int then c - 0x37
    else if 'a' as int <= c <= 'f' as int then c - 0x57
    else 0
  }

  /** dcton: the value of a decimal digit, 0 for any other character. */
  function Dcton(c: byte): (r: nat)
    ensures r < 10
    ensures !IsDecChar(c) ==> r == 0
  {
    if '0' as int <= c <= '9' as int then c - 0x30 else 0
  }

  /** The upper-case hex digit for a nibble; the inverse of cton on hex digits. */
  function HexDigit(v: nat): (c: byte)
    requires v < 16
    ensures IsHexChar(c)
  {
    if v < 10 then 0x30 + v else 0x37 + v
  }

  function LowerHexDigit(v: nat): (c: byte)
    requires v < 16
    ensures IsHexChar(c)
  {
    if v < 10 then 0x30 + v else 0x57 + v
  }

  function DecDigit(v: nat): (c: byte)
    requires v < 10
    ensures IsDecChar(c)
  {
    0x30 + v
  }

  /** cton reads back either case of the digit written for a nibble. */
  lemma CtonInvertsHexDigit(v: nat)
    requires v < 16
    ensures Cton(HexDigit(v)) == v && Cton(LowerHexDigit(v)) == v
  {
  }

  /** cton and dcton agree on decimal digits, and dcton inverts DecDigit. */
  lemma DctonInvertsDecDigit(v: nat)
    requires v < 10
    ensures Dcton(DecDigit(v)) == v && Cton(DecDigit(v)) == v
  {
  }

  /**
   * ahex2byte: the last character is the low nibble and the one before it (absent when
   * len is 1) the high nibble; an empty field gives 0.
   */
  function Ahex2Byte(buf: seq<byte>, len: nat): (r: byte)
    requires len <= |buf|
    ensures len == 0 ==> r == 0
    ensures len == 1 ==> r == Cton(buf[0])
    ensures len >= 2 ==> r == 16 * Cton(buf[len - 2]) + Cton(buf[len - 1])
  {
    if len == 0 then 0
    else
      var hi := if len > 1 then Cton(buf[len - 2]) else 0;
      Cton(buf[len - 1]) + 16 * hi
  }

  /** adec2byte: (100*h + 10*t + u) mod 256 over the last three characters. */
  function Adec2Byte(buf: seq<byte>, len: nat): (r: byte)
    requires len <= |buf|
    ensures r == DecTail(buf, len, Min(len, 3)) % 0x100
  {
    if len == 0 then 0
    else
      var t := if len > 1 then Dcton(buf[len - 2]) else 0;
      var h := if len > 2 then Dcton(buf[len - 3]) else 0;
      assert Pow10(1) == 10 && Pow10(2) == 100;
      assert DecTail(buf, len, 1) == Dcton(buf[len - 1]);
      assert len > 1 ==> DecTail(buf, len, 2) == Dcton(buf[len - 1]) + 10 * t;
      assert len > 2 ==> DecTail(buf, len, 3) == Dcton(buf[len - 1]) + 10 * t + 100 * h;
      (Dcton(buf[len - 1]) + 10 * t + 100 * h) % 0x100
  }

  /** Two hex characters for a byte, high nibble first. */
  function HexPair(b: byte): (s: seq<byte>)
    ensures |s| == 2 && IsHexChar(s[0]) && IsHexChar(s[1])
  {
    [HexDigit(b / 16), HexDigit(b % 16)]
  }

  /** Three decimal characters for a value below 1000, hundreds first. */
  function DecTriple(v: nat): (s: seq<byte>)
    requires v < 1000
    ensures |s| == 3 && forall i :: 0 <= i < 3 ==> IsDecChar(s[i])
  {
    [DecDigit(v / 10 / 10), DecDigit(v / 10 % 10), DecDigit(v % 10)]
  }

  lemma Ahex2ByteInvertsHexPair(b: byte)
    ensures Ahex2Byte(HexPair(b), 2) == b
  {
    CtonInvertsHexDigit(b / 16);
    CtonInvertsHexDigit(b % 16);
  }

  /** Only the last two characters matter. */
  lemma Ahex2ByteReadsLastTwo(buf: seq<byte>, len: nat)
    requires 2 <= len <= |buf|
    ensures Ahex2Byte(buf, len) == Ahex2Byte(buf[len - 2..len], 2)
  {
  }

  /** A 3-digit group reads back modulo 256, so groups above 255 wrap rather than fail. */
  lemma Adec2ByteOfDecTriple(v: nat)
    requires v < 1000
    ensures Adec2Byte(DecTriple(v), 3) == v % 0x100
  {
    var s := DecTriple(v);
    var q := v / 10;
    DctonInvertsDecDigit(q / 10);
    DctonInvertsDecDigit(q % 10);
    DctonInvertsDecDigit(v % 10);
    assert v == 10 * q + v % 10;
    assert q == 10 * (q / 10) + q % 10;
    assert s == [DecDigit(q / 10), DecDigit(q % 10), DecDigit(v % 10)];
    assert Dcton(s[0]) == q / 10 && Dcton(s[1]) == q % 10 && Dcton(s[2]) == v % 10;
  }

  function Pow16(i: nat): (r: nat)
    ensures r > 0
  {
    if i == 0 then 1 else 16 * Pow16(i - 1)
  }

  function Pow10(i: nat): (r: nat)
    ensures r > 0
  {
    if i == 0 then 1 else 10 * Pow10(i - 1)
  }

  /** The sum of cton(buf[len-1-i]) * 16^i over the cnt last characters. */
  function HexTail(buf: seq<byte>, len: nat, cnt: nat): (r: nat)
    requires cnt <= len <= |buf|
    ensures r < Pow16(cnt)
  {
    if cnt == 0 then 0
    else
      var d := Cton(buf[len - cnt]);
      DigitTermBound(HexTail(buf, len, cnt - 1), d, 16, Pow16(cnt - 1));
      HexTail(buf, len, cnt - 1) + d * Pow16(cnt - 1)
  }

  /** Adding digit d < base at weight p to a value below p stays below base * p. */
  lemma DigitTermBound(low: nat, d: nat, base: nat, p: nat)
    requires low < p && d < base
    ensures low + d * p < base * p
  {
    assert d * p <= (base - 1) * p;
  }

  /** The sum of dcton(buf[len-1-i]) * 10^i over the cnt last characters. */
  function DecTail(buf: seq<byte>, len: nat, cnt: nat): (r: nat)
    requires cnt <= len <= |buf|
    ensures r < Pow10(cnt)
  {
    if cnt == 0 then 0
    else
      var d := Dcton(buf[len - cnt]);
      DigitTermBound(DecTail(buf, len, cnt - 1), d, 10, Pow10(cnt - 1));
      DecTail(buf, len, cnt - 1) + d * Pow10(cnt - 1)
  }

  function Min(a: nat, b: nat): nat { if a < b then a else b }

  /** What ahex2uint16 returns: the hex value of at most the last four characters. */
  function Ahex2Uint16Spec(buf: seq<byte>, len: nat): (r: u16)
    requires len <= |buf|
  {
    PowMonotone16(Min(len, 4), 4);
    HexTail(buf, len, Min(len, 4))
  }

  lemma PowMonotone16(i: nat, j: nat)
    requires i <= j
    ensures Pow16(i) <= Pow16(j)
  {
    if i < j { PowMonotone16(i, j - 1); }
  }

  /** What adec2uint16 returns: the decimal value of at most the last five characters, mod 2^16. */
  function Adec2Uint16Spec(buf: seq<byte>, len: nat): (r: u16)
    requires len <= |buf|
  {
    DecTail(buf, len, Min(len, 5)) % 0x1_0000
  }

  /**
   * ahex2uint16: ORs the nibble of character len-1-i into bits 4i..4i+3; the nibbles are
   * disjoint, so the OR is the sum the invariant tracks.
   */
  method Ahex2Uint16(buf: seq<byte>, len: nat) returns (r: u16)
    requires len <= |buf|
    ensures r == Ahex2Uint16Spec(buf, len)
  {
    r := 0;
    if len == 0 {
      return;
    }
    var cnt := if len > 4 then 4 else len;
    var i := 0;
    while i < cnt
      invariant 0 <= i <= cnt
      invariant r == HexTail(buf, len, i)
    {
      HexTailStep(buf, len, i);
      r := r + Cton(buf[len - 1 - i]) * Pow16(i);
      i := i + 1;
    }
  }

  lemma HexTailStep(buf: seq<byte>, len: nat, i: nat)
    requires i < len <= |buf| && i < 4
    ensures HexTail(buf, len, i + 1) == HexTail(buf, len, i) + Cton(buf[len - 1 - i]) * Pow16(i)
    ensures HexTail(buf, len, i + 1) < 0x1_0000
  {
    PowMonotone16(i + 1, 4);
  }

  /** Truncating a 16-bit term before a 16-bit addition does not change the sum. */
  lemma AddModAbsorbs(a: int, b: int)
    ensures (a % 0x1_0000 + b % 0x1_0000) % 0x1_0000 == (a + b) % 0x1_0000
  {
  }

  /** adec2uint16: each 16-bit term dcton * pow10[i] is added with 16-bit wrap-around. */
  method Adec2Uint16(buf: seq<byte>, len: nat) returns (r: u16)
    requires len <= |buf|
    ensures r == Adec2Uint16Spec(buf, len)
  {
    r := 0;
    if len == 0 {
      return;
    }
    var cnt := if len > 5 then 5 else len;
    var pow10 := [1, 10, 100, 1000, 10000];
    assert pow10 == [Pow10(0), Pow10(1), Pow10(2), Pow10(3), Pow10(4)];
    var i := 0;
    while i < cnt
      invariant 0 <= i <= cnt
      invariant r == DecTail(buf, len, i) % 0x1_0000
    {
      var term := (Dcton(buf[len - 1 - i]) * pow10[i]) % 0x1_0000;
      AddModAbsorbs(DecTail(buf, len, i), Dcton(buf[len - 1 - i]) * pow10[i]);
      r := (r + term) % 0x1_0000;
      i := i + 1;
    }
  }

  /** Four upper-case hex characters for a 16-bit value, most significant first. */
  function Hex4(v: u16): (s: seq<byte>)
    ensures |s| == 4 && forall i :: 0 <= i < 4 ==> IsHexChar(s[i])
  {
    [HexDigit(v / 16 / 16 / 16), HexDigit(v / 16 / 16 % 16), HexDigit(v / 16 % 16), HexDigit(v % 16)]
  }

  /** Five decimal characters for a value below 100000, most significant first. */
  function Dec5(v: nat): (s: seq<byte>)
    requires v < 100000
    ensures |s| == 5 && forall i :: 0 <= i < 5 ==> IsDecChar(s[i])
  {
    [DecDigit(v / 10 / 10 / 10 / 10), DecDigit(v / 10 / 10 / 10 % 10), DecDigit(v / 10 / 10 % 10),
     DecDigit(v / 10 % 10), DecDigit(v % 10)]
  }

  lemma Ahex2Uint16InvertsHex4(v: u16)
    ensures Ahex2Uint16Spec(Hex4(v), 4) == v
  {
    var s := Hex4(v);
    var q1 := v / 16;
    var q2 := q1 / 16;
    CtonInvertsHexDigit(q2 / 16);
    CtonInvertsHexDigit(q2 % 16);
    CtonInvertsHexDigit(q1 % 16);
    CtonInvertsHexDigit(v % 16);
    assert v == 16 * q1 + v % 16;
    assert q1 == 16 * q2 + q1 % 16;
    assert q2 == 16 * (q2 / 16) + q2 % 16;
    assert HexTail(s, 4, 1) == Cton(s[3]);
    assert HexTail(s, 4, 2) == Cton(s[3]) + 16 * Cton(s[2]);
    assert HexTail(s, 4, 3) == Cton(s[3]) + 16 * Cton(s[2]) + 256 * Cton(s[1]);
    assert HexTail(s, 4, 4) == Cton(s[3]) + 16 * Cton(s[2]) + 256 * Cton(s[1]) + 4096 * Cton(s[0]);
  }

  /** Five digits read back modulo 2^16: 65535 stays, 65536 wraps to 0. */
  lemma Adec2Uint16OfDec5(v: nat)
    requires v < 100000
    ensures Adec2Uint16Spec(Dec5(v), 5) == v % 0x1_0000
  {
    var s := Dec5(v);
    var q1 := v / 10;
    var q2 := q1 / 10;
    var q3 := q2 / 10;
    DctonInvertsDecDigit(q3 / 10);
    DctonInvertsDecDigit(q3 % 10);
    DctonInvertsDecDigit(q2 % 10);
    DctonInvertsDecDigit(q1 % 10);
    DctonInvertsDecDigit(v % 10);
    assert v == 10 * q1 + v % 10;
    assert q1 == 10 * q2 + q1 % 10;
    assert q2 == 10 * q3 + q2 % 10;
    assert q3 == 10 * (q3 / 10) + q3 % 10;
    assert DecTail(s, 5, 1) == Dcton(s[4]);
    assert DecTail(s, 5, 2) == Dcton(s[4]) + 10 * Dcton(s[3]);
    assert DecTail(s, 5, 3) == Dcton(s[4]) + 10 * Dcton(s[3]) + 100 * Dcton(s[2]);
    assert DecTail(s, 5, 4) == Dcton(s[4]) + 10 * Dcton(s[3]) + 100 * Dcton(s[2]) + 1000 * Dcton(s[1]);
    assert DecTail(s, 5, 5) == Dcton(s[4]) + 10 * Dcton(s[3]) + 100 * Dcton(s[2])
      + 1000 * Dcton(s[1]) + 10000 * Dcton(s[0]);
  }

  /** ahex2uint16 reads no more than the last four characters. */
  lemma {:induction false} HexTailShift(buf: seq<byte>, len: nat, cnt: nat, k: nat)
    requires cnt <= len <= |buf| && k <= len - cnt
    ensures HexTail(buf, len, cnt) == HexTail(buf[len - cnt - k..len], cnt + k, cnt)
  {
    if cnt > 0 {
      HexTailShift(buf, len, cnt - 1, k + 1);
      var t := buf[len - cnt - k..len];
      assert t[cnt + k - cnt] == buf[len - cnt];
      assert buf[len - (cnt - 1) - (k + 1)..len] == t;
    }
  }

  lemma Ahex2Uint16ReadsLastFour(buf: seq<byte>, len: nat)
    requires 4 <= len <= |buf|
    ensures Ahex2Uint16Spec(buf, len) == Ahex2Uint16Spec(buf[len - 4..len], 4)
  {
    HexTailShift(buf, len, 4, 0);
  }

  /** Rows of the ahex2byte and adec2byte test tables ("FFZZ", "199", "3s2", "2345", "2A5", "eee"). */
  lemma ByteTableRows()
    ensures Ahex2Byte([0x46, 0x46, 0x5A, 0x5A], 3) == 0xF0
    ensures Ahex2Byte([0x31, 0x39, 0x39], 3) == 0x99
    ensures Ahex2Byte([0x33, 0x73, 0x32], 2) == 0x30
    ensures Adec2Byte([0x32, 0x33, 0x34, 0x35], 4) == 89
    ensures Adec2Byte([0x32, 0x41, 0x35], 3) == 205
    ensures Adec2Byte([0x65, 0x65, 0x65], 3) == 0
  {
  }

  /** Rows of the ahex2uint16 test table ("DEADBEEF", "DE!D", "@~!a"). */
  lemma HexWordTableRows()
    ensures Ahex2Uint16Spec([0x44, 0x45, 0x41, 0x44, 0x42, 0x45, 0x45, 0x46], 8) == 0xBEEF
    ensures Ahex2Uint16Spec([0x44, 0x45, 0x21, 0x44], 4) == 0xDE0D
    ensures Ahex2Uint16Spec([0x40, 0x7E, 0x21, 0x61], 4) == 0xA
  {
  }

  /** Rows of the adec2uint16 test table: "65535" and "65536". */
  lemma DecWordTableRowsWrap()
    ensures Adec2Uint16Spec([0x36, 0x35, 0x35, 0x33, 0x35], 5) == 65535
    ensures Adec2Uint16Spec([0x36, 0x35, 0x35, 0x33, 0x36], 5) == 0
  {
    var a := [0x36, 0x35, 0x35, 0x33, 0x35];
    assert DecTail(a, 5, 3) == 535;
    assert DecTail(a, 5, 5) == 65535;
    var b := [0x36, 0x35, 0x35, 0x33, 0x36];
    assert DecTail(b, 5, 3) == 536;
    assert DecTail(b, 5, 5) == 65536;
  }

  /** Rows of the adec2uint16 test table: "6`535" and "DEAD". */
  lemma DecWordTableRowsJunk()
    ensures Adec2Uint16Spec([0x36, 0x60, 0x35, 0x33, 0x35], 5) == 60535
    ensures Adec2Uint16Spec([0x44, 0x45, 0x41, 0x44], 4) == 0
  {
    var s := [0x36, 0x60, 0x35, 0x33, 0x35];
    assert DecTail(s, 5, 3) == 535;
    assert DecTail(s, 5, 5) == 60535;
  }
}
