// The two pure helpers of the network stack (lan.c): the Internet checksum ip_cksum and the
// byte-order swap htonl. The checksum's bit operations on its 32-bit accumulator are written
// as the arithmetic they compute: x & 0xffff is x % 0x10000 and x >> 16 is x / 0x10000.

module LanNet {
  import opened Common

  /** the sum of the first n big-endian 16-bit words of s */
  function PairSum(s: seq<byte>, n: nat): nat
    requires 2 * n <= |s|
  {
    if n == 0 then 0 else PairSum(s, n - 1) + s[2 * n - 2] as int * 256 + s[2 * n - 1]
  }

  /** the words of s summed as ip_cksum reads them: big-endian pairs, an odd last byte as the high half */
  function DataSum(s: seq<byte>): nat
  {
    PairSum(s, |s| / 2) + (if |s| % 2 == 1 then s[|s| - 1] as int * 256 else 0)
  }

  /** the end-around carry: high half added to the low half until the value fits in 16 bits */
  function Fold(x: nat): (r: nat)
    ensures r < 0x10000
    decreases x
  {
    if x < 0x10000 then x else Fold(x % 0x10000 + x / 0x10000)
  }

  /** htons: the two bytes of a 16-bit value swapped */
  function Swap16(v: nat): (r: nat)
    requires v < 0x10000
    ensures r < 0x10000
  {
    (v % 256) * 256 + v / 256
  }

  /**
   * The value ip_cksum returns for a seed and the first len bytes of a buffer: the seed plus the
   * words (in a 32-bit accumulator), folded, byte-swapped and complemented.
   */
  function Checksum(seed: u32, s: seq<byte>): (c: nat)
    ensures c < 0x10000
  {
    Complemented(seed + DataSum(s))
  }

  /** the checksum of a running total: reduced to 32 bits, folded, swapped and complemented */
  function Complemented(total: nat): (c: nat)
    ensures c < 0x10000
  {
    0xFFFF - Swap16(Fold(total % 0x1_0000_0000))
  }

  /**
   * Folding keeps the value modulo 0xFFFF (the one's-complement sum of RFC 1071), brings it
   * into 16 bits, and never turns a non-zero value into 0.
   */
  lemma {:induction false} FoldBounds(x: nat)
    ensures Fold(x) < 0x10000
    ensures Fold(x) % 0xFFFF == x % 0xFFFF
    ensures x > 0 ==> Fold(x) > 0
  {
    if x >= 0x10000 {
      var q, r := x / 0x10000, x % 0x10000;
      FoldBounds(q + r);
      ModMultiple(q + r, q);
    }
  }

  lemma ModMultiple(y: nat, q: nat)
    ensures (0xFFFF * q + y) % 0xFFFF == y % 0xFFFF
  {
    var a, b := y % 0xFFFF, y / 0xFFFF;
    assert 0xFFFF * q + y == 0xFFFF * (q + b) + a;
  }

  /** Reducing the 32-bit accumulator before an addition does not change the reduced sum. */
  lemma ModAdd(a: nat, w: nat)
    ensures ((a % 0x1_0000_0000) + w) % 0x1_0000_0000 == (a + w) % 0x1_0000_0000
  {
    var q, r := a / 0x1_0000_0000, a % 0x1_0000_0000;
    assert a + w == 0x1_0000_0000 * q + (r + w);
  }

  /** The words read so far, when at most one byte is left over: the sum of the whole block. */
  lemma DataSumAt(s: seq<byte>, p: nat)
    requires p % 2 == 0 && (p == |s| || p + 1 == |s|)
    ensures DataSum(s) == PairSum(s, p / 2) + (if p < |s| then s[p] as int * 256 else 0)
  {
  }

  /** One word added to the 32-bit accumulator. */
  lemma AccStep(seed: u32, s: seq<byte>, p: nat, sum: nat)
    requires p % 2 == 0 && p + 1 < |s| && sum == (seed + PairSum(s, p / 2)) % 0x1_0000_0000
    ensures (sum + s[p] as int * 256 + s[p + 1]) % 0x1_0000_0000 == (seed + PairSum(s, (p + 2) / 2)) % 0x1_0000_0000
  {
    ModAdd(seed + PairSum(s, p / 2), s[p] as int * 256 + s[p + 1]);
    assert (p + 2) / 2 == p / 2 + 1;
  }

  /** The accumulator once the loop is over, with the odd byte, if any, added. */
  lemma AccLast(seed: u32, s: seq<byte>, p: nat, sum: nat)
    requires p % 2 == 0 && (p == |s| || p + 1 == |s|) && sum == (seed + PairSum(s, p / 2)) % 0x1_0000_0000
    ensures (if p < |s| then (sum + s[p] as int * 256) % 0x1_0000_0000 else sum)
            == (seed + DataSum(s)) % 0x1_0000_0000
  {
    DataSumAt(s, p);
    if p < |s| {
      ModAdd(seed + PairSum(s, p / 2), s[p] as int * 256);
    }
  }

  /** ip_cksum (lan.c:1199-1214) */
  method IpCksum(seed: u32, buf: array<byte>, len: u16) returns (c: u16)
    requires len <= buf.Length
    ensures c == Checksum(seed, buf[..len])
  {
    ghost var s := buf[..len];
    var sum: nat := seed;
    var p: nat := 0;
    var rest: nat := len;
    while rest >= 2
      invariant p + rest == len && p % 2 == 0
      invariant sum == (seed + PairSum(s, p / 2)) % 0x1_0000_0000
    {
      AccStep(seed, s, p, sum);
      sum := (sum + buf[p] as int * 256 + buf[p + 1]) % 0x1_0000_0000;
      p := p + 2;
      rest := rest - 2;
    }
    AccLast(seed, s, p, sum);
    if rest != 0 {
      sum := (sum + buf[p] as int * 256) % 0x1_0000_0000;
    }
    ghost var total := sum;
    while sum >= 0x10000
      invariant Fold(sum) == Fold(total)
      decreases sum
    {
      sum := sum % 0x10000 + sum / 0x10000;
    }
    FoldBounds(total);
    c := 0xFFFF - Swap16(sum);
  }

  /** the two bytes a 16-bit field holds in memory when the value is stored little-endian */
  function Stored(c: nat): seq<byte>
    requires c < 0x10000
  {
    [c % 256, c / 256]
  }

  /** Words of an even prefix are read the same with anything appended. */
  lemma {:induction false} PairSumPrefix(s: seq<byte>, t: seq<byte>, n: nat)
    requires 2 * n <= |s|
    ensures PairSum(s + t, n) == PairSum(s, n)
  {
    if n > 0 {
      PairSumPrefix(s, t, n - 1);
    }
  }

  /** A word appended to an even-length block adds its value to the sum. */
  lemma DataSumAppend(s: seq<byte>, hi: byte, lo: byte)
    requires |s| % 2 == 0
    ensures DataSum(s + [hi, lo]) == DataSum(s) + hi as int * 256 + lo
  {
    var t := s + [hi, lo];
    PairSumPrefix(s, [hi, lo], |s| / 2);
    assert t[|s|] == hi && t[|s| + 1] == lo;
    assert |t| / 2 == |s| / 2 + 1;
  }

  /** The words of a buffer add up to at most 0xFFFF per word. */
  lemma {:induction false} PairSumBound(s: seq<byte>, n: nat)
    requires 2 * n <= |s|
    ensures PairSum(s, n) <= 0xFFFF * n
  {
    if n > 0 {
      PairSumBound(s, n - 1);
    }
  }

  /** Stored little-endian, the byte-swapped complement reads back, big-endian, as the complement. */
  lemma StoredWord(f: nat)
    requires f < 0x10000
    ensures var c := 0xFFFF - Swap16(f);
            (c % 256) * 256 + c / 256 == 0xFFFF - f
  {
    var h, l := f / 256, f % 256;
    var c := 0xFFFF - Swap16(f);
    assert c == 256 * (255 - l) + (255 - h);
  }

  /** Two values with the same residue differ by a multiple of 0xFFFF. */
  lemma SameResidue(x: nat, f: nat)
    requires f % 0xFFFF == x % 0xFFFF && f <= x + 0xFFFF
    ensures (x + 0xFFFF - f) % 0xFFFF == 0
  {
    var m := x / 0xFFFF - f / 0xFFFF + 1;
    assert x + 0xFFFF - f == 0xFFFF * m;
    ModMultiple(0, m);
  }

  /**
   * The receiver's check of RFC 1071: an even-length block followed by its own checksum, as
   * the 16-bit field stores it, checks to 0.
   */
  lemma ChecksumVerifies(s: seq<byte>)
    requires |s| % 2 == 0 && |s| + 2 <= 0xFFFF
    ensures Checksum(0, s + Stored(Checksum(0, s))) == 0
  {
    var x := DataSum(s);
    PairSumBound(s, |s| / 2);
    var c := Complemented(x);
    DataSumAppend(s, c % 256, c / 256);
    ComplementChecks(x);
  }

  /** A total below 2^31 plus its own checksum, read back big-endian, has checksum 0. */
  lemma ComplementChecks(x: nat)
    requires x < 0x8000_0000
    ensures var c := Complemented(x);
            Complemented(x + (c % 256) * 256 + c / 256) == 0
  {
    ComplementedSmall(x);
    StoredWord(Fold(x));
    FoldComplement(x);
    ComplementedSmall(x + 0xFFFF - Fold(x));
  }

  lemma ComplementedSmall(y: nat)
    requires y < 0x1_0000_0000
    ensures Complemented(y) == 0xFFFF - Swap16(Fold(y))
  {
    assert y % 0x1_0000_0000 == y;
  }

  /** A sum plus the complement of its fold folds to 0xFFFF, the one's-complement zero. */
  lemma FoldComplement(x: nat)
    ensures Fold(x + 0xFFFF - Fold(x)) == 0xFFFF
  {
    FoldBounds(x);
    SameResidue(x, Fold(x));
    ResidueFold(x + 0xFFFF - Fold(x));
  }

  /** A positive multiple of 0xFFFF folds to 0xFFFF. */
  lemma ResidueFold(y: nat)
    requires y > 0 && y % 0xFFFF == 0
    ensures Fold(y) == 0xFFFF
  {
    FoldBounds(y);
  }

  /** htonl (lan.c:1750-1754) */
  function Htonl(a: bv32): (r: bv32)
  {
    (a >> 24) | (a << 24) | ((a & 0x00ff0000) >> 8) | ((a & 0x0000ff00) << 8)
  }

  /** htonl reverses the order of the four bytes of a word. */
  lemma HtonlBytes(a: bv32)
    ensures Htonl(a) & 0xff == (a >> 24) & 0xff
    ensures (Htonl(a) >> 8) & 0xff == (a >> 16) & 0xff
    ensures (Htonl(a) >> 16) & 0xff == (a >> 8) & 0xff
    ensures (Htonl(a) >> 24) & 0xff == a & 0xff
  {
  }

  /** ntohl is htonl: converting twice gives the word back. */
  lemma HtonlInvolution(a: bv32)
    ensures Htonl(Htonl(a)) == a
  {
  }
}
