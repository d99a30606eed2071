// Integer classification of a C string (Core/Src/helpers/num_helpers.c, integer path of
// str_to_num, and type_to_str). The floating-point parser stof is not modelled: a string it
// would be handed to is classified as ToFloat.

module NumHelpers {
  import opened Common
  import AsciiHelpers

  /** num_types, in declaration order (NOT_A_NUM = 0 ... FLOAT_VAL = 7). */
  datatype NumType = NOT_A_NUM | U32_VAL | S32_VAL | U16_VAL | S16_VAL | U8_VAL | S8_VAL | FLOAT_VAL

  function Code(t: NumType): (c: nat)
  {
    match t
    case NOT_A_NUM => 0
    case U32_VAL => 1
    case S32_VAL => 2
    case U16_VAL => 3
    case S16_VAL => 4
    case U8_VAL => 5
    case S8_VAL => 6
    case FLOAT_VAL => 7
  }

  /** The outcome of str_to_num: an integer of some type and value, or the hand-off to stof. */
  datatype Classified = Integer(kind: NumType, val: int) | ToFloat

  const UINT64_MOD: int := 0x1_0000_0000_0000_0000

  /** isspace in the C locale: space, \t, \n, \v, \f, \r. */
  predicate IsSpace(c: byte) { c == 0x20 || 0x09 <= c <= 0x0D }

  predicate IsDigit(c: byte) { AsciiHelpers.IsDecChar(c) }

  /** The index of the first non-blank character at or after i. */
  function SkipSpace(s: seq<byte>, i: nat): (j: nat)
    requires i <= |s|
    ensures i <= j <= |s| && !IsSpace(At(s, j))
    decreases |s| - i
  {
    if i < |s| && IsSpace(s[i]) then SkipSpace(s, i + 1) else i
  }

  /** The end of the run of decimal digits that starts at i. */
  function DigitsEnd(s: seq<byte>, i: nat): (j: nat)
    requires i <= |s|
    ensures i <= j <= |s| && !IsDigit(At(s, j))
    decreases |s| - i
  {
    if i < |s| && IsDigit(s[i]) then DigitsEnd(s, i + 1) else i
  }

  /** The unbounded decimal value of a digit string. */
  function DecVal(t: seq<byte>): nat
  {
    if t == [] then 0 else DecVal(t[..|t| - 1]) * 10 + AsciiHelpers.Dcton(t[|t| - 1])
  }

  /** The type chosen for a magnitude v, negative when neg; beyond 32 bits it goes to stof. */
  function ClassifyValue(neg: bool, v: nat): Classified
  {
    if !neg then
      if v <= 0xFF then Integer(U8_VAL, v)
      else if v <= 0xFFFF then Integer(U16_VAL, v)
      else if v <= 0xFFFF_FFFF then Integer(U32_VAL, v)
      else ToFloat
    else
      if v <= 0x80 then Integer(S8_VAL, -(v as int))
      else if v <= 0x8000 then Integer(S16_VAL, -(v as int))
      else if v <= 0x8000_0000 then Integer(S32_VAL, -(v as int))
      else ToFloat
  }

  /** Where the optional '-' and the digit run of s begin and end. */
  function SignStart(s: seq<byte>): (b: nat)
    ensures b <= |s|
  {
    var a := SkipSpace(s, 0);
    if At(s, a) == '-' as int then a + 1 else a
  }

  predicate IsNegative(s: seq<byte>)
  {
    At(s, SkipSpace(s, 0)) == '-' as int
  }

  /** The value a uint64_t accumulator holds after reading the digit string t. */
  function Wrapped(t: seq<byte>): (v: nat)
    ensures v < UINT64_MOD
  {
    if t == [] then 0 else Push(Wrapped(t[..|t| - 1]), AsciiHelpers.Dcton(t[|t| - 1]))
  }

  /** decoded = decoded * 10 + digit on a uint64_t */
  function Push(acc: nat, d: nat): (v: nat)
    ensures v < UINT64_MOD
  {
    (acc * 10 + d) % UINT64_MOD
  }

  /**
   * str_to_num as written: the digits are accumulated in a uint64_t, so a magnitude of 2^64
   * or more wraps before it is classified.
   */
  function ClassifyAsWritten(s: seq<byte>): Classified
  {
    var b := SignStart(s);
    var e := DigitsEnd(s, b);
    if At(s, e) != 0 then ToFloat
    else ClassifyValue(IsNegative(s), Wrapped(s[b..e]))
  }

  /** str_to_num as evidently intended: every magnitude beyond 32 bits goes to stof. */
  function Classify(s: seq<byte>): Classified
  {
    var b := SignStart(s);
    var e := DigitsEnd(s, b);
    if At(s, e) != 0 then ToFloat
    else ClassifyValue(IsNegative(s), DecVal(s[b..e]))
  }

  lemma WrapStep(acc: nat, v: nat, d: nat)
    requires acc == v % UINT64_MOD
    ensures (acc * 10 + d) % UINT64_MOD == (v * 10 + d) % UINT64_MOD
  {
    var q := v / UINT64_MOD;
    assert v == q * UINT64_MOD + acc;
    assert v * 10 + d == (acc * 10 + d) + (q * 10) * UINT64_MOD;
  }

  /** The accumulator holds the digits' value modulo 2^64. */
  lemma {:induction false} WrappedIsDecValMod(t: seq<byte>)
    ensures Wrapped(t) == DecVal(t) % UINT64_MOD
    decreases |t|
  {
    if t != [] {
      var p := t[..|t| - 1];
      WrappedIsDecValMod(p);
      WrapStep(Wrapped(p), DecVal(p), AsciiHelpers.Dcton(t[|t| - 1]));
    }
  }

  lemma WrappedStep(s: seq<byte>, b: nat, i: nat)
    requires b <= i < |s|
    ensures Wrapped(s[b..i + 1]) == Push(Wrapped(s[b..i]), AsciiHelpers.Dcton(s[i]))
  {
    assert s[b..i + 1][..i - b] == s[b..i];
  }

  /** str_to_num: skip blanks, take one '-', accumulate digits in 64 bits, classify. */
  method StrToNum(s: seq<byte>) returns (r: Classified)
    ensures r == ClassifyAsWritten(s)
  {
    var i := 0;
    while IsSpace(At(s, i))
      invariant 0 <= i <= |s|
      invariant SkipSpace(s, 0) == SkipSpace(s, i)
      decreases |s| - i
    {
      i := i + 1;
    }
    var neg := false;
    if At(s, i) == '-' as int {
      neg := true;
      i := i + 1;
    }
    var b := i;
    var decoded: nat := 0;
    while IsDigit(At(s, i))
      invariant b <= i <= |s|
      invariant DigitsEnd(s, b) == DigitsEnd(s, i)
      invariant decoded == Wrapped(s[b..i])
      decreases |s| - i
    {
      WrappedStep(s, b, i);
      decoded := Push(decoded, AsciiHelpers.Dcton(s[i]));
      i := i + 1;
    }
    assert b == SignStart(s) && i == DigitsEnd(s, b) && neg == IsNegative(s);
    if At(s, i) != 0 {
      return ToFloat;
    }
    r := ClassifyValue(neg, decoded);
  }

  /** The two definitions agree whenever the magnitude fits in 64 bits. */
  lemma AgreeBelow64Bits(s: seq<byte>)
    requires DecVal(s[SignStart(s)..DigitsEnd(s, SignStart(s))]) < UINT64_MOD
    ensures ClassifyAsWritten(s) == Classify(s)
  {
    var d := s[SignStart(s)..DigitsEnd(s, SignStart(s))];
    WrappedIsDecValMod(d);
    assert Wrapped(d) == DecVal(d);
  }

  /** The decimal digits of n, most significant first, with no leading zeros. */
  function DecimalString(n: nat): (t: seq<byte>)
    ensures |t| > 0 && forall k :: 0 <= k < |t| ==> IsDigit(t[k])
  {
    if n < 10 then [0x30 + n] else DecimalString(n / 10) + [0x30 + n % 10]
  }

  lemma {:induction false} DecValOfDecimalString(n: nat)
    ensures DecVal(DecimalString(n)) == n
  {
    var t := DecimalString(n);
    if n >= 10 {
      DecValOfDecimalString(n / 10);
      assert t[..|t| - 1] == DecimalString(n / 10);
    }
  }

  lemma DigitsEndOfDigits(t: seq<byte>, b: nat)
    requires b <= |t| && forall k :: b <= k < |t| ==> IsDigit(t[k])
    ensures DigitsEnd(t, b) == |t|
    decreases |t| - b
  {
    if b < |t| { DigitsEndOfDigits(t, b + 1); }
  }

  /**
   * An unsigned digit string gets the smallest of U8_VAL, U16_VAL, U32_VAL that holds its
   * value, and a value beyond 32 bits goes to stof.
   */
  lemma UnsignedGetsSmallestType(n: nat)
    ensures var r := Classify(DecimalString(n));
      (n <= 0xFF ==> r == Integer(U8_VAL, n))
      && (0xFF < n <= 0xFFFF ==> r == Integer(U16_VAL, n))
      && (0xFFFF < n <= 0xFFFF_FFFF ==> r == Integer(U32_VAL, n))
      && (n > 0xFFFF_FFFF ==> r == ToFloat)
  {
    var t := DecimalString(n);
    DigitsEndOfDigits(t, 0);
    DecValOfDecimalString(n);
    assert t[0..|t|] == t;
  }

  /**
   * A '-' followed by digits gets S8_VAL up to magnitude 128, S16_VAL up to 32768, S32_VAL
   * up to 2^31, and holds the negated value.
   */
  lemma NegativeGetsSmallestType(n: nat)
    ensures var r := Classify(['-' as int] + DecimalString(n));
      (n <= 0x80 ==> r == Integer(S8_VAL, -(n as int)))
      && (0x80 < n <= 0x8000 ==> r == Integer(S16_VAL, -(n as int)))
      && (0x8000 < n <= 0x8000_0000 ==> r == Integer(S32_VAL, -(n as int)))
      && (n > 0x8000_0000 ==> r == ToFloat)
  {
    var d := DecimalString(n);
    var t := ['-' as int] + d;
    assert SkipSpace(t, 0) == 0;
    DigitsEndOfDigits(t, 1);
    DecValOfDecimalString(n);
    assert t[1..|t|] == d;
  }

  lemma SkipSpaceOfBlanks(s: seq<byte>, i: nat)
    requires i <= |s| && forall k :: i <= k < |s| ==> IsSpace(s[k])
    ensures SkipSpace(s, i) == |s|
    decreases |s| - i
  {
    if i < |s| { SkipSpaceOfBlanks(s, i + 1); }
  }

  /** An empty or all-blank string is U8_VAL 0, and a lone '-' after blanks is S8_VAL 0. */
  lemma BlankAndLoneMinus(blanks: seq<byte>)
    requires forall k :: 0 <= k < |blanks| ==> IsSpace(blanks[k])
    ensures Classify(blanks) == Integer(U8_VAL, 0)
    ensures Classify(blanks + ['-' as int]) == Integer(S8_VAL, 0)
  {
    SkipSpaceOfBlanks(blanks, 0);
    var t := blanks + ['-' as int];
    assert forall k :: 0 <= k < |blanks| ==> t[k] == blanks[k];
    SkipSpaceStopsAt(t, 0, |blanks|);
  }

  /** SkipSpace stops at the first non-blank: blanks on [i, n) and none at n put it at n. */
  lemma {:induction false} SkipSpaceStopsAt(t: seq<byte>, i: nat, n: nat)
    requires i <= n < |t| && !IsSpace(t[n])
    requires forall k :: i <= k < n ==> IsSpace(t[k])
    ensures SkipSpace(t, i) == n
    decreases n - i
  {
    if i < n { SkipSpaceStopsAt(t, i + 1, n); }
  }

  /** Leading blanks never change the classification. */
  lemma LeadingBlankIgnored(c: byte, s: seq<byte>)
    requires IsSpace(c)
    ensures Classify([c] + s) == Classify(s)
  {
    var t := [c] + s;
    ShiftSign(c, s);
    var b := SignStart(s);
    ShiftDigitsEnd(t, s, b);
    var e := DigitsEnd(s, b);
    assert At(t, e + 1) == At(s, e);
    assert t[b + 1..e + 1] == s[b..e];
  }

  lemma ShiftSign(c: byte, s: seq<byte>)
    requires IsSpace(c)
    ensures var t := [c] + s;
      t[1..] == s && SignStart(t) == SignStart(s) + 1 && IsNegative(t) == IsNegative(s)
  {
    var t := [c] + s;
    assert t[1..] == s;
    ShiftSkipSpace(t, s, 0);
    var a := SkipSpace(s, 0);
    assert SkipSpace(t, 0) == a + 1;
    assert At(t, a + 1) == At(s, a);
  }

  lemma ShiftSkipSpace(t: seq<byte>, s: seq<byte>, i: nat)
    requires |t| == |s| + 1 && t[1..] == s && i <= |s|
    ensures SkipSpace(t, i + 1) == SkipSpace(s, i) + 1
    decreases |s| - i
  {
    if i < |s| {
      assert t[i + 1] == s[i];
      ShiftSkipSpace(t, s, i + 1);
    }
  }

  lemma ShiftDigitsEnd(t: seq<byte>, s: seq<byte>, i: nat)
    requires |t| == |s| + 1 && t[1..] == s && i <= |s|
    ensures DigitsEnd(t, i + 1) == DigitsEnd(s, i) + 1
    decreases |s| - i
  {
    if i < |s| {
      assert t[i + 1] == s[i];
      ShiftDigitsEnd(t, s, i + 1);
    }
  }

  /** A character after the digits that is neither a digit nor NUL hands the string to stof. */
  lemma TrailingJunkGoesToFloat(n: nat, c: byte)
    requires c != 0 && !IsDigit(c)
    ensures Classify(DecimalString(n) + [c]) == ToFloat
  {
    var d := DecimalString(n);
    var t := d + [c];
    assert forall k :: 0 <= k < |d| ==> t[k] == d[k];
    DigitsEndOfDigits(d, 0);
    assert DigitsEnd(t, 0) == |d| by {
      DigitsEndPrefix(t, d, 0);
    }
  }

  lemma DigitsEndPrefix(t: seq<byte>, d: seq<byte>, i: nat)
    requires |d| < |t| && t[..|d|] == d && !IsDigit(t[|d|]) && i <= |d|
    requires forall k :: 0 <= k < |d| ==> IsDigit(d[k])
    ensures DigitsEnd(t, i) == |d|
    decreases |d| - i
  {
    if i < |d| {
      assert t[i] == d[i];
      DigitsEndPrefix(t, d, i + 1);
    }
  }

  /** Both definitions on an unsigned digit string: the written one sees the value mod 2^64. */
  lemma ClassifyDecimalString(n: nat)
    ensures ClassifyAsWritten(DecimalString(n)) == ClassifyValue(false, n % UINT64_MOD)
    ensures Classify(DecimalString(n)) == ClassifyValue(false, n)
  {
    var t := DecimalString(n);
    DigitsEndOfDigits(t, 0);
    DecValOfDecimalString(n);
    WrappedIsDecValMod(t);
    assert t[0..|t|] == t;
  }

  /**
   * The 64-bit accumulator wraps: a positive multiple of 2^64, "18446744073709551616" the
   * smallest, is classified as U8_VAL 0 instead of being handed to stof.
   */
  lemma OverflowWrapsToSmallInteger(n: nat)
    requires n > 0 && n % UINT64_MOD == 0
    ensures ClassifyAsWritten(DecimalString(n)) == Integer(U8_VAL, 0)
    ensures Classify(DecimalString(n)) == ToFloat
  {
    ClassifyDecimalString(n);
    assert n >= UINT64_MOD by {
      assert n == (n / UINT64_MOD) * UINT64_MOD;
    }
  }

  /** type_to_str over the raw enum value: one fixed name per num_types value, else "BAD ENUM!". */
  function TypeToStr(code: int): (name: string)
    ensures name == "BAD ENUM!" <==> !(0 <= code <= 7)
  {
    if code == 5 then "U8"
    else if code == 6 then "S8"
    else if code == 3 then "U16"
    else if code == 4 then "S16"
    else if code == 1 then "U32"
    else if code == 2 then "S32"
    else if code == 7 then "FLOAT"
    else if code == 0 then "NOT_A_NUM"
    else "BAD ENUM!"
  }

  /** Different types get different names, so the name identifies the type. */
  lemma TypeToStrInjective(a: NumType, b: NumType)
    requires a != b
    ensures TypeToStr(Code(a)) != TypeToStr(Code(b))
  {
    assert "U8"[0] == 'U' && "S8"[0] == 'S' && "U16"[1] == '1' && "S16"[0] == 'S';
  }
}
