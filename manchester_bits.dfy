// Bit strings of the Manchester driver (manchester.c): swapBits, sbfr and reverseBitString.
// A bit string of len bits is held in bytes with its first bit in bit 0 of byte 0, bit 8 in
// bit 0 of byte 1, and so on; Bits spells the bytes out in that order. The literal 8 stands
// for CHAR_BIT throughout.

module ManchesterBits {
  import opened Common

  /** the bits of a byte, least significant first */
  function ByteBits(b: bv8): (s: seq<bool>)
    ensures |s| == 8
  {
    [b & 0x01 != 0, b & 0x02 != 0, b & 0x04 != 0, b & 0x08 != 0,
     b & 0x10 != 0, b & 0x20 != 0, b & 0x40 != 0, b & 0x80 != 0]
  }

  /** the bits of a run of bytes, byte 0 first and each byte least significant bit first */
  function Bits(s: seq<bv8>): (r: seq<bool>)
    ensures |r| == 8 * |s|
  {
    if |s| == 0 then [] else ByteBits(s[0]) + Bits(s[1..])
  }

  function Reverse<T>(s: seq<T>): (r: seq<T>)
    ensures |r| == |s|
  {
    seq(|s|, k requires 0 <= k < |s| => s[|s| - 1 - k])
  }

  function NoBits(n: nat): (r: seq<bool>)
    ensures |r| == n
  {
    seq(n, _ => false)
  }

  lemma {:induction false} BitsAppend(a: seq<bv8>, b: seq<bv8>)
    ensures Bits(a + b) == Bits(a) + Bits(b)
  {
    if |a| > 0 {
      assert (a + b)[0] == a[0] && (a + b)[1..] == a[1..] + b;
      BitsAppend(a[1..], b);
      calc {
        Bits(a + b);
        ByteBits(a[0]) + Bits(a[1..] + b);
        ByteBits(a[0]) + (Bits(a[1..]) + Bits(b));
        (ByteBits(a[0]) + Bits(a[1..])) + Bits(b);
      }
    } else {
      assert a + b == b;
    }
  }

  lemma {:induction false} BitsOfLast(s: seq<bv8>)
    requires |s| > 0
    ensures Bits(s) == Bits(s[..|s| - 1]) + ByteBits(s[|s| - 1])
  {
    BitsAppend(s[..|s| - 1], [s[|s| - 1]]);
    assert s == s[..|s| - 1] + [s[|s| - 1]];
  }

  // ---------------------------------------------------------------- swapBits

  /** the byte with the bit order of v reversed: bit k of the result is bit 7 - k of v */
  function Rev8(v: bv8): bv8
  {
    ((v & 0x01) << 7) | ((v & 0x02) << 5) | ((v & 0x04) << 3) | ((v & 0x08) << 1)
    | ((v & 0x10) >> 1) | ((v & 0x20) >> 3) | ((v & 0x40) >> 5) | ((v & 0x80) >> 7)
  }

  lemma Rev8Masks(v: bv8)
    ensures var r := Rev8(v);
            (r & 0x01 != 0) == (v & 0x80 != 0) && (r & 0x02 != 0) == (v & 0x40 != 0)
            && (r & 0x04 != 0) == (v & 0x20 != 0) && (r & 0x08 != 0) == (v & 0x10 != 0)
            && (r & 0x10 != 0) == (v & 0x08 != 0) && (r & 0x20 != 0) == (v & 0x04 != 0)
            && (r & 0x40 != 0) == (v & 0x02 != 0) && (r & 0x80 != 0) == (v & 0x01 != 0)
  {
  }

  /** Rev8 reverses the bits of a byte. */
  lemma Rev8Bits(v: bv8)
    ensures ByteBits(Rev8(v)) == Reverse(ByteBits(v))
  {
    Rev8Masks(v);
    var s := ByteBits(v);
    Reverse8(s);
  }

  lemma Reverse8(s: seq<bool>)
    requires |s| == 8
    ensures Reverse(s) == [s[7], s[6], s[5], s[4], s[3], s[2], s[1], s[0]]
  {
  }

  /** swapBits is its own inverse. */
  lemma Rev8Involution(v: bv8)
    ensures Rev8(Rev8(v)) == v
  {
  }

  /** the bit of weight 2^k, and 0 once k is past bit 7 */
  function Up(k: nat): bv8
  {
    if k == 0 then 0x01 else if k == 1 then 0x02 else if k == 2 then 0x04 else if k == 3 then 0x08
    else if k == 4 then 0x10 else if k == 5 then 0x20 else if k == 6 then 0x40 else if k == 7 then 0x80 else 0x00
  }

  /**
   * The state of swapBits after i rounds: tmp is bit i, mask the mirror bit 7 - i, and the
   * result holds the low i bits of the reversed byte.
   */
  predicate SwapRounds(val: bv8, i: nat, r: bv8, mask: bv8, tmp: bv8)
  {
    i <= 8 && tmp == Up(i) && mask == Rev8(tmp) && r == Rev8(val) & (tmp - 1)
  }

  lemma SwapStart(val: bv8)
    ensures SwapRounds(val, 0, 0x00, 0x80, 0x01)
  {
  }

  lemma SwapDone(val: bv8, r: bv8, mask: bv8, tmp: bv8)
    requires SwapRounds(val, 8, r, mask, tmp)
    ensures r == Rev8(val)
  {
  }

  lemma SwapRound(val: bv8, i: nat, r: bv8, mask: bv8, tmp: bv8)
    requires i < 8 && SwapRounds(val, i, r, mask, tmp)
    ensures SwapRounds(val, i + 1, if val & mask == mask then r | tmp else r, mask >> 1, tmp << 1)
  {
  }

  /**
   * swapBits (manchester.c:759-771): mask walks down from bit 7 while tmp walks up from bit 0,
   * and each set bit under mask sets the bit under tmp.
   */
  method SwapBits(val: bv8) returns (r: bv8)
    ensures r == Rev8(val)
  {
    r := 0;
    var mask: bv8 := 0x80;
    var tmp: bv8 := 0x01;
    var i := 0;
    SwapStart(val);
    while i < 8
      invariant SwapRounds(val, i, r, mask, tmp)
    {
      SwapRound(val, i, r, mask, tmp);
      if val & mask == mask {
        r := r | tmp;
      }
      mask := mask >> 1;
      tmp := tmp << 1;
      i := i + 1;
    }
    SwapDone(val, r, mask, tmp);
  }

  // ---------------------------------------------------------------- sbfr

  /**
   * Byte k of the field after one pass of sbfr's inner loop: shifted right one place, with bit 0
   * of the byte above carried into bit 7 (the top byte takes a 0).
   */
  function Shift1Byte(s: seq<bv8>, k: nat): bv8
    requires k < |s|
  {
    (s[k] >> 1) | CarryFrom(s, k + 1)
  }

  /** what byte k passes down to the byte below it: its bit 0, moved to bit 7 */
  function CarryFrom(s: seq<bv8>, k: nat): bv8
  {
    if k < |s| && s[k] & 0x01 != 0 then 0x80 else 0x00
  }

  /** the field after one pass of sbfr's inner loop */
  function Shift1(s: seq<bv8>): (r: seq<bv8>)
    ensures |r| == |s|
  {
    seq(|s|, k requires 0 <= k < |s| => Shift1Byte(s, k))
  }

  /** the field after n passes */
  function ShiftN(s: seq<bv8>, n: nat): (r: seq<bv8>)
    ensures |r| == |s|
  {
    if n == 0 then s else Shift1(ShiftN(s, n - 1))
  }

  lemma Shift1Masks(a: bv8, c: bool)
    ensures var r := (a >> 1) | (if c then 0x80 else 0x00);
            (r & 0x01 != 0) == (a & 0x02 != 0) && (r & 0x02 != 0) == (a & 0x04 != 0)
            && (r & 0x04 != 0) == (a & 0x08 != 0) && (r & 0x08 != 0) == (a & 0x10 != 0)
            && (r & 0x10 != 0) == (a & 0x20 != 0) && (r & 0x20 != 0) == (a & 0x40 != 0)
            && (r & 0x40 != 0) == (a & 0x80 != 0) && (r & 0x80 != 0) == c
  {
  }

  lemma Shift1ByteBits(a: bv8, c: bool)
    ensures ByteBits((a >> 1) | (if c then 0x80 else 0x00)) == ByteBits(a)[1..] + [c]
  {
    Shift1Masks(a, c);
    var s := ByteBits(a);
    assert s[1..] + [c] == [s[1], s[2], s[3], s[4], s[5], s[6], s[7], c];
  }

  lemma Shift1Head(s: seq<bv8>)
    requires |s| > 0
    ensures ByteBits(Shift1(s)[0]) == ByteBits(s[0])[1..] + [CarryFrom(s, 1) != 0]
  {
    Shift1ByteBits(s[0], CarryFrom(s, 1) != 0);
  }

  lemma CarryBit(b: bv8)
    ensures (if b & 0x01 != 0 then 0x80 else 0x00) != 0x00 <==> ByteBits(b)[0]
  {
  }

  lemma {:induction false} Shift1Tail(s: seq<bv8>)
    requires |s| > 0
    ensures Shift1(s)[1..] == Shift1(s[1..])
  {
    assert forall k :: 1 <= k < |s| ==> Shift1(s)[k] == Shift1(s[1..])[k - 1];
  }

  lemma DropFirst(x: seq<bool>, y: seq<bool>, c: bool)
    requires |x| > 0 && (|y| > 0 ==> y[0] == c)
    ensures x[1..] + [c] + (if |y| > 0 then y[1..] + [false] else []) == (x + y)[1..] + [if |y| > 0 then false else c]
  {
  }

  /** One pass moves the string down one bit and fills the top with a 0. */
  lemma {:induction false} Shift1Bits(s: seq<bv8>)
    requires |s| > 0
    ensures Bits(Shift1(s)) == Bits(s)[1..] + [false]
  {
    var c := CarryFrom(s, 1) != 0;
    var t := Shift1(s);
    Shift1Head(s);
    Shift1Tail(s);
    assert Bits(t) == ByteBits(t[0]) + Bits(Shift1(s[1..]));
    if |s| > 1 {
      Shift1Bits(s[1..]);
      CarryBit(s[1]);
      assert Bits(s[1..])[0] == c;
    } else {
      assert s[1..] == [] && !c;
    }
    DropFirst(ByteBits(s[0]), Bits(s[1..]), c);
  }

  lemma DropAndPad(x: seq<bool>, n: nat)
    requires 0 < n <= |x|
    ensures (x[n - 1..] + NoBits(n - 1))[1..] + [false] == x[n..] + NoBits(n)
  {
  }

  /** n passes drop the first n bits and fill the top with n zeros. */
  lemma {:induction false} ShiftNBits(s: seq<bv8>, n: nat)
    requires n <= 8 * |s|
    ensures Bits(ShiftN(s, n)) == Bits(s)[n..] + NoBits(n)
  {
    if n > 0 {
      ShiftNBits(s, n - 1);
      Shift1Bits(ShiftN(s, n - 1));
      DropAndPad(Bits(s), n);
    }
  }

  /** the number of shifts sbfr performs: ns, at most flen * 8 (a 32-bit product) */
  function ShiftCount(flen: u32, ns: u32): (n: u32)
    ensures n <= ns && n <= 8 * flen
    ensures 8 * flen < 0x1_0000_0000 ==> n == if ns > 8 * flen then 8 * flen else ns
  {
    var limit := (flen * 8) % 0x1_0000_0000;
    if ns > limit then limit else ns
  }

  /**
   * sbfr (manchester.c:734-752): shifts the flen-byte bit string right by ShiftCount(flen, ns)
   * bits, one bit per pass; each pass walks from the top byte down, carrying bit 0 of each
   * byte into bit 7 of the one below. The count is returned; bytes past flen are untouched.
   */
  method Sbfr(field: array<bv8>, flen: u32, ns: u32) returns (sns: u32)
    requires flen <= field.Length
    modifies field
    ensures sns == ShiftCount(flen, ns)
    ensures field[..flen] == ShiftN(old(field[..flen]), sns)
    ensures field[flen..] == old(field[flen..])
  {
    ghost var f0, rest := field[..flen], field[flen..];
    var n := ShiftCount(flen, ns);
    sns := n;
    ghost var done: nat := 0;
    while n > 0
      invariant done + n as int == sns as int
      invariant field[..flen] == ShiftN(f0, done)
      invariant field[flen..] == rest
    {
      ShiftPass(field, flen);
      ShiftNStep(f0, done);
      done := done + 1;
      n := n - 1;
    }
  }

  /** the inner loop of sbfr: one pass from the top byte down, carrying bit 0 into bit 7 below */
  method ShiftPass(field: array<bv8>, flen: u32)
    requires flen <= field.Length
    modifies field
    ensures field[..flen] == Shift1(old(field[..flen]))
    ensures field[flen..] == old(field[flen..])
  {
    ghost var s, rest := field[..flen], field[flen..];
    var carry: bv8 := 0;
    var i := flen;
    while i > 0
      invariant 0 <= i <= flen
      invariant forall k :: 0 <= k < i ==> field[k] == s[k]
      invariant forall k :: i <= k < flen ==> field[k] == Shift1Byte(s, k)
      invariant carry == CarryFrom(s, i)
      invariant field[flen..] == rest
    {
      PassStep(s, i, carry);
      var next: bv8 := if field[i - 1] & 0x01 != 0 then 0x80 else 0x00;
      field[i - 1] := (field[i - 1] >> 1) | carry;
      carry := next;
      i := i - 1;
    }
    assert field[..flen] == Shift1(s);
  }

  /** One step of sbfr's inner loop, from the top: byte i - 1 takes the carry, gives its own. */
  lemma PassStep(s: seq<bv8>, i: nat, carry: bv8)
    requires 0 < i <= |s| && carry == CarryFrom(s, i)
    ensures (s[i - 1] >> 1) | carry == Shift1Byte(s, i - 1)
    ensures (if s[i - 1] & 0x01 != 0 then 0x80 else 0x00) == CarryFrom(s, i - 1)
  {
  }

  lemma ShiftNStep(s: seq<bv8>, n: nat)
    ensures ShiftN(s, n + 1) == Shift1(ShiftN(s, n))
  {
  }

  /** Shifting by the full count leaves the first bits dropped and zeros at the top. */
  lemma SbfrBits(s: seq<bv8>, ns: u32)
    requires |s| < 0x1_0000_0000
    ensures Bits(ShiftN(s, ShiftCount(|s|, ns))) == Bits(s)[ShiftCount(|s|, ns)..] + NoBits(ShiftCount(|s|, ns))
  {
    ShiftNBits(s, ShiftCount(|s|, ns));
  }

  // ---------------------------------------------------------------- reverseBitString

  /** the bytes in reverse order, each with its bits reversed */
  function RevSwap(s: seq<bv8>): (r: seq<bv8>)
    ensures |r| == |s|
  {
    seq(|s|, k requires 0 <= k < |s| => Rev8(s[|s| - 1 - k]))
  }

  /** Reversing the bytes and the bits of each reverses the whole bit string. */
  lemma {:induction false} RevSwapBits(s: seq<bv8>)
    ensures Bits(RevSwap(s)) == Reverse(Bits(s))
  {
    if |s| > 0 {
      var last := s[|s| - 1];
      var init := s[..|s| - 1];
      assert RevSwap(s) == [Rev8(last)] + RevSwap(init);
      RevSwapBits(init);
      Rev8Bits(last);
      BitsOfLast(s);
      ReverseAppend(Bits(init), ByteBits(last));
    }
  }

  lemma ReverseAppend<T>(a: seq<T>, b: seq<T>)
    ensures Reverse(a + b) == Reverse(b) + Reverse(a)
  {
  }

  /** the number of bytes a string of len bits occupies */
  function TotalBytes(len: u32): (t: nat)
    ensures 8 * t - 8 < len <= 8 * t
  {
    if len % 8 > 0 then len / 8 + 1 else len / 8
  }

  /**
   * The bytes reverseBitString leaves for the len-bit string s: reversed end for end and bit
   * for bit, then shifted down by the unused top bits of the last byte, as far as sbfr's
   * 32-bit limit lets it.
   */
  function ReversedBytes(s: seq<bv8>, len: u32): (r: seq<bv8>)
    requires |s| == TotalBytes(len)
    ensures |r| == |s|
  {
    ShiftN(RevSwap(s), ShiftCount(|s|, 8 * |s| - len))
  }

  /**
   * reverseBitString (manchester.c:778-802): the bytes of the string swapped end for end with
   * their bits reversed (swapBits), the middle byte of an odd count swapped in place, and the
   * whole shifted right by the unused top bits of the last byte (sbfr).
   */
  method ReverseBitString(data: array<bv8>, len: u32)
    requires TotalBytes(len) <= data.Length
    modifies data
    ensures var t := TotalBytes(len);
            data[..t] == ReversedBytes(old(data[..t]), len) && data[t..] == old(data[t..])
  {
    var fullBytes := len / 8;
    var bitsInTheLastByte := len % 8;
    var totalBytes := if bitsInTheLastByte > 0 then fullBytes + 1 else fullBytes;
    var skipBits := if bitsInTheLastByte > 0 then 8 - bitsInTheLastByte else 0;
    SwapBytes(data, totalBytes);
    if skipBits > 0 {
      var _ := Sbfr(data, totalBytes, skipBits);
    } else {
      assert ShiftCount(totalBytes, 0) == 0;
    }
  }

  /**
   * The first part of reverseBitString (manchester.c:785-797): the bytes swapped end for end,
   * each through swapBits, and the middle byte of an odd count swapped in place.
   */
  method SwapBytes(data: array<bv8>, totalBytes: nat)
    requires totalBytes <= data.Length
    modifies data
    ensures data[..totalBytes] == RevSwap(old(data[..totalBytes]))
    ensures data[totalBytes..] == old(data[totalBytes..])
  {
    ghost var s, rest := data[..totalBytes], data[totalBytes..];
    var steps := totalBytes / 2;
    var i := 0;
    var j := totalBytes;
    while i < steps
      invariant i <= steps && j == totalBytes - i
      invariant forall k :: 0 <= k < i ==> data[k] == Rev8(s[totalBytes - 1 - k])
      invariant forall k :: j <= k < totalBytes ==> data[k] == Rev8(s[totalBytes - 1 - k])
      invariant forall k :: i <= k < j ==> data[k] == s[k]
      invariant data[totalBytes..] == rest
    {
      var tmp := data[i];
      var swapped := SwapBits(data[j - 1]);
      data[i] := swapped;
      swapped := SwapBits(tmp);
      data[j - 1] := swapped;
      i := i + 1;
      j := j - 1;
    }
    if totalBytes % 2 == 1 {
      var swapped := SwapBits(data[i]);
      data[i] := swapped;
    }
    assert data[..totalBytes] == RevSwap(s);
  }

  /**
   * What reverseBitString leaves: the first len bits of the string in reverse order, followed
   * by zeros up to the end of the last byte. With len a multiple of 8 that is the whole string
   * reversed.
   */
  lemma {:induction false} ReversedString(s: seq<bv8>, len: u32)
    requires |s| == TotalBytes(len) && 8 * |s| < 0x1_0000_0000
    ensures Bits(ReversedBytes(s, len)) == Reverse(Bits(s)[..len]) + NoBits(8 * |s| - len)
    ensures len % 8 == 0 ==> Bits(ReversedBytes(s, len)) == Reverse(Bits(s))
  {
    var skip := 8 * |s| - len;
    assert ShiftCount(|s|, skip) == skip;
    ShiftNBits(RevSwap(s), skip);
    RevSwapBits(s);
    assert Reverse(Bits(s))[skip..] == Reverse(Bits(s)[..len]);
  }

  /** For a single byte of len < 8 bits: the low len bits reversed, the high bits 0. */
  lemma OneByteReversed(b: bv8, len: u32)
    requires 0 < len < 8
    ensures var r := ReversedBytes([b], len);
            |r| == 1 && ByteBits(r[0]) == Reverse(ByteBits(b)[..len]) + NoBits(8 - len)
  {
    ReversedString([b], len);
    var r := ReversedBytes([b], len);
    assert Bits(r) == ByteBits(r[0]);
    assert Bits([b]) == ByteBits(b);
  }
}
