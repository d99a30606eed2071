// The cluster allocator of tiny-fs (Core/Src/tiny-fs/tiny-fs.c:669-700, 806-920): a bitmap with
// one bit per cluster, byte k holding clusters 8k .. 8k+7 from the least significant bit up;
// a set bit is a busy cluster. The table is the driver's DTA buffer, held as bytes of bv8.

module TinyFsClusters {
  import opened Common
  import opened TinyFsLayout

  // ------------------------------------------------------ bits of a byte

  /** 0x01U << j, shifted one place at a time */
  function Mask(j: nat): bv8
  {
    if j == 0 then 1 else Mask(j - 1) << 1
  }

  /** bit j of b is set */
  predicate Bit(b: bv8, j: nat)
  {
    b & Mask(j) != 0
  }

  /** b ^ (uint8_t)(0x01U << j) */
  function Flip(b: bv8, j: nat): bv8
  {
    b ^ Mask(j)
  }

  /** the position of a one-bit mask */
  function MaskLog(m: bv8): nat
  {
    if m == 1 then 0 else if m == 2 then 1 else if m == 4 then 2 else if m == 8 then 3
    else if m == 16 then 4 else if m == 32 then 5 else if m == 64 then 6 else 7
  }

  predicate SingleBit(m: bv8)
  {
    m != 0 && m & (m - 1) == 0
  }

  /** Mask(j) is the one-bit mask of bit j. */
  lemma MaskFacts(j: nat)
    requires j < 8
    ensures SingleBit(Mask(j)) && MaskLog(Mask(j)) == j
  {
    if j == 0 {
    } else if j == 1 {
      assert Mask(1) == 2;
    } else if j == 2 {
      assert Mask(2) == 4;
    } else if j == 3 {
      assert Mask(3) == 8;
    } else if j == 4 {
      assert Mask(4) == 16;
    } else if j == 5 {
      assert Mask(5) == 32;
    } else if j == 6 {
      assert Mask(6) == 64;
    } else {
      assert Mask(7) == 128;
    }
  }

  /** XOR with a one-bit mask flips exactly the bits the mask has. */
  lemma XorSingle(b: bv8, m: bv8, bit: bv8)
    requires SingleBit(bit)
    ensures ((b ^ m) & bit != 0) == ((b & bit != 0) != (m & bit != 0))
  {
  }

  lemma SingleBits(m1: bv8, m2: bv8)
    requires SingleBit(m1) && SingleBit(m2)
    ensures m1 & m2 != 0 <==> m1 == m2
  {
  }

  /** Flipping bit i changes bit i and no other. */
  lemma FlipBit(b: bv8, i: nat, j: nat)
    requires i < 8 && j < 8
    ensures Bit(Flip(b, i), j) == (Bit(b, j) != (i == j))
  {
    MaskFacts(i);
    MaskFacts(j);
    XorSingle(b, Mask(i), Mask(j));
    SingleBits(Mask(i), Mask(j));
  }

  /** A byte is its eight bits. */
  lemma ByteExt(a: bv8, b: bv8)
    requires forall j :: 0 <= j < 8 ==> Bit(a, j) == Bit(b, j)
    ensures a == b
  {
    assert Bit(a, 0) == Bit(b, 0) && Bit(a, 1) == Bit(b, 1) && Bit(a, 2) == Bit(b, 2);
    assert Bit(a, 3) == Bit(b, 3) && Bit(a, 4) == Bit(b, 4) && Bit(a, 5) == Bit(b, 5);
    assert Bit(a, 6) == Bit(b, 6) && Bit(a, 7) == Bit(b, 7);
    assert Mask(1) == 2 && Mask(2) == 4 && Mask(3) == 8 && Mask(4) == 16;
    assert Mask(5) == 32 && Mask(6) == 64 && Mask(7) == 128;
  }

  /** b shifted right j times, as the scan loop's b >>= 1 leaves it after j bits */
  function Shr(b: bv8, j: nat): bv8
  {
    if j == 0 then b else Shr(b, j - 1) >> 1
  }

  /** After j shifts the scan tests bit j of the original byte. */
  lemma LowBitOfShr(b: bv8, j: nat)
    requires j < 8
    ensures (Shr(b, j) & 1 == 0) == !Bit(b, j)
  {
    var b1 := b >> 1;
    var b2 := b1 >> 1;
    var b3 := b2 >> 1;
    var b4 := b3 >> 1;
    var b5 := b4 >> 1;
    var b6 := b5 >> 1;
    var b7 := b6 >> 1;
    assert Shr(b, 1) == b1 && Shr(b, 2) == b2 && Shr(b, 3) == b3;
    assert Shr(b, 4) == b4 && Shr(b, 5) == b5 && Shr(b, 6) == b6 && Shr(b, 7) == b7;
    MaskFacts(j);
    assert Mask(1) == 2 && Mask(2) == 4 && Mask(3) == 8 && Mask(4) == 16;
    assert Mask(5) == 32 && Mask(6) == 64 && Mask(7) == 128;
  }

  /** the mask toggleClusters computes */
  lemma MaskIsShift(j: nat)
    requires j < 8
    ensures Mask(j) == 1 << j
  {
    if j == 0 {
    } else if j == 1 {
      assert Mask(1) == 1 << 1;
    } else if j == 2 {
      assert Mask(2) == 1 << 2;
    } else if j == 3 {
      assert Mask(3) == 1 << 3;
    } else if j == 4 {
      assert Mask(4) == 1 << 4;
    } else if j == 5 {
      assert Mask(5) == 1 << 5;
    } else if j == 6 {
      assert Mask(6) == 1 << 6;
    } else {
      assert Mask(7) == 1 << 7;
    }
  }

  // ------------------------------------------------------ the table

  /** cluster c is marked busy */
  predicate Busy(t: seq<bv8>, c: nat)
    requires c < 8 * |t|
  {
    Bit(t[c / 8], c % 8)
  }

  /** the table as one busy flag per cluster */
  ghost function Clusters(t: seq<bv8>): (m: seq<bool>)
    ensures |m| == 8 * |t| && forall c :: 0 <= c < 8 * |t| ==> m[c] == Busy(t, c)
  {
    seq(8 * |t|, c requires 0 <= c < 8 * |t| => Busy(t, c))
  }

  /** the n clusters from s lie in the map and are all free */
  predicate FreeRun(m: seq<bool>, s: nat, n: nat)
  {
    s + n <= |m| && forall c :: s <= c < s + n ==> !m[c]
  }

  /** s starts the first free run of n clusters */
  predicate FirstFit(m: seq<bool>, n: nat, s: nat)
  {
    FreeRun(m, s, n) && forall s' :: 0 <= s' < s ==> !FreeRun(m, s', n)
  }

  /** clusters needed for a size in bytes; allocateClusters counts 0 bytes as 1 */
  function ReqClusters(size: nat): (n: nat)
    ensures 1 <= n && (n - 1) * FS_CLUSTER_SIZE < if size == 0 then 1 else size
    ensures (if size == 0 then 1 else size) <= n * FS_CLUSTER_SIZE
  {
    var bytes := if size == 0 then 1 else size;
    bytes / FS_CLUSTER_SIZE + (if bytes % FS_CLUSTER_SIZE != 0 then 1 else 0)
  }

  /** the table with cluster c's bit flipped */
  function FlipAt(t: seq<bv8>, c: nat): (r: seq<bv8>)
    requires c < 8 * |t|
    ensures |r| == |t|
  {
    t[c / 8 := Flip(t[c / 8], c % 8)]
  }

  /** the table with the n bits from cluster s flipped, one after another */
  function Toggle(t: seq<bv8>, s: nat, n: nat): (r: seq<bv8>)
    requires s + n <= 8 * |t|
    ensures |r| == |t|
    decreases n
  {
    if n == 0 then t else FlipAt(Toggle(t, s, n - 1), s + n - 1)
  }

  lemma FlipAtBits(t: seq<bv8>, p: nat, c: nat)
    requires p < 8 * |t| && c < 8 * |t|
    ensures Busy(FlipAt(t, p), c) == (Busy(t, c) != (c == p))
  {
    if c / 8 == p / 8 {
      FlipBit(t[p / 8], p % 8, c % 8);
    }
  }

  /** toggleClusters flips exactly the bits of clusters s .. s+n-1 and no others. */
  lemma {:induction false} ToggleBits(t: seq<bv8>, s: nat, n: nat, c: nat)
    requires s + n <= 8 * |t| && c < 8 * |t|
    ensures Busy(Toggle(t, s, n), c) == (Busy(t, c) != (s <= c < s + n))
    decreases n
  {
    if n > 0 {
      ToggleBits(t, s, n - 1, c);
      FlipAtBits(Toggle(t, s, n - 1), s + n - 1, c);
    }
  }

  /** Toggling clusters of the first part of a buffer leaves the rest as it is. */
  lemma {:induction false} TogglePrefix(t: seq<bv8>, u: seq<bv8>, s: nat, n: nat)
    requires s + n <= 8 * |t|
    ensures Toggle(t + u, s, n) == Toggle(t, s, n) + u
    decreases n
  {
    if n > 0 {
      TogglePrefix(t, u, s, n - 1);
      var c := s + n - 1;
      assert (Toggle(t, s, n - 1) + u)[c / 8] == Toggle(t, s, n - 1)[c / 8];
    }
  }

  /** Two tables that mark the same clusters busy are the same table. */
  lemma BitsExt(t: seq<bv8>, u: seq<bv8>)
    requires |t| == |u|
    requires forall c :: 0 <= c < 8 * |t| ==> Busy(t, c) == Busy(u, c)
    ensures t == u
  {
    forall k | 0 <= k < |t|
      ensures t[k] == u[k]
    {
      forall j | 0 <= j < 8
        ensures Bit(t[k], j) == Bit(u[k], j)
      {
        assert (8 * k + j) / 8 == k && (8 * k + j) % 8 == j;
        assert Busy(t, 8 * k + j) == Busy(u, 8 * k + j);
      }
      ByteExt(t[k], u[k]);
    }
  }

  /** Toggling the same run twice gives the table back. */
  lemma ToggleTwice(t: seq<bv8>, s: nat, n: nat)
    requires s + n <= 8 * |t|
    ensures Toggle(Toggle(t, s, n), s, n) == t
  {
    forall c | 0 <= c < 8 * |t|
      ensures Busy(Toggle(Toggle(t, s, n), s, n), c) == Busy(t, c)
    {
      ToggleBits(t, s, n, c);
      ToggleBits(Toggle(t, s, n), s, n, c);
    }
    BitsExt(Toggle(Toggle(t, s, n), s, n), t);
  }

  /** u is t with exactly the clusters s .. s+n-1 flipped */
  predicate Toggled(t: seq<bv8>, u: seq<bv8>, s: nat, n: nat)
  {
    |u| == |t| && s + n <= 8 * |t|
    && forall c :: 0 <= c < 8 * |t| ==> Busy(u, c) == (Busy(t, c) != (s <= c < s + n))
  }

  lemma ToggledNone(t: seq<bv8>, s: nat)
    requires s <= 8 * |t|
    ensures Toggled(t, t, s, 0)
  {
  }

  /** Flipping a clusters from s and then the b clusters after them flips a + b clusters. */
  lemma ToggledAppend(t: seq<bv8>, u: seq<bv8>, v: seq<bv8>, s: nat, a: nat, b: nat)
    requires Toggled(t, u, s, a) && Toggled(u, v, s + a, b)
    ensures Toggled(t, v, s, a + b)
  {
  }

  /** The flips determine the table: Toggle is the table they describe. */
  lemma ToggledIsToggle(t: seq<bv8>, u: seq<bv8>, s: nat, n: nat)
    requires Toggled(t, u, s, n)
    ensures u == Toggle(t, s, n)
  {
    forall c | 0 <= c < 8 * |t|
      ensures Busy(u, c) == Busy(Toggle(t, s, n), c)
    {
      ToggleBits(t, s, n, c);
    }
    BitsExt(u, Toggle(t, s, n));
  }

  /** Allocating a free run marks it busy: afterwards no cluster of it is free. */
  lemma ToggleFreeRunMakesBusy(t: seq<bv8>, s: nat, n: nat, c: nat)
    requires FreeRun(Clusters(t), s, n) && s <= c < s + n
    ensures Busy(Toggle(t, s, n), c)
  {
    ToggleBits(t, s, n, c);
  }

  // ------------------------------------------------------ the allocation scan

  /**
   * The state of allocateClusters' scan of cluster map m before cluster p: zeroes free clusters
   * end just before p, the one before them is busy (or there is none), no free run of n ends
   * before p, and the current run of zeroes began at bit bitIx of byte byteIx.
   */
  predicate Scanning(m: seq<bool>, n: nat, p: nat, zeroes: nat, byteIx: nat, bitIx: nat)
  {
    p <= |m| && zeroes <= p && zeroes < n && bitIx < 8
    && (forall c :: p - zeroes <= c < p ==> !m[c])
    && (zeroes < p ==> m[p - zeroes - 1])
    && (forall s :: 0 <= s && s + n <= p ==> !FreeRun(m, s, n))
    && (zeroes > 0 ==> 8 * byteIx + bitIx == p - zeroes)
  }

  lemma ScanStart(m: seq<bool>, n: nat)
    requires 1 <= n
    ensures Scanning(m, n, 0, 0, 0, 0)
  {
  }

  /** Cluster p is busy: the run of zeroes starts over. */
  lemma ScanBusy(m: seq<bool>, n: nat, p: nat, zeroes: nat, byteIx: nat, bitIx: nat)
    requires Scanning(m, n, p, zeroes, byteIx, bitIx) && p < |m| && m[p]
    ensures Scanning(m, n, p + 1, 0, 0, 0)
  {
    forall s | 0 <= s && s + n <= p + 1
      ensures !FreeRun(m, s, n)
    {
      if s + n == p + 1 {
        assert !(!m[p]);
      }
    }
  }

  /** Cluster p is free and the run is still short of n; a new run starts at bit j of byte i. */
  lemma ScanFree(m: seq<bool>, n: nat, p: nat, zeroes: nat, byteIx: nat, bitIx: nat, i: nat, j: nat)
    requires Scanning(m, n, p, zeroes, byteIx, bitIx) && p < |m| && !m[p] && zeroes + 1 < n
    requires j < 8 && p == 8 * i + j
    ensures zeroes == 0 ==> Scanning(m, n, p + 1, 1, i, j)
    ensures zeroes > 0 ==> Scanning(m, n, p + 1, zeroes + 1, byteIx, bitIx)
  {
    forall s | 0 <= s && s + n <= p + 1
      ensures !FreeRun(m, s, n)
    {
      if s + n == p + 1 {
        var q := p - zeroes - 1;
        assert s <= q < s + n && m[q];
      }
    }
  }

  /** Cluster p completes a run of n: it is the first one. */
  lemma ScanFound(m: seq<bool>, n: nat, p: nat, zeroes: nat, byteIx: nat, bitIx: nat)
    requires Scanning(m, n, p, zeroes, byteIx, bitIx) && p < |m| && !m[p] && zeroes + 1 == n
    ensures FirstFit(m, n, p - zeroes)
  {
    forall s | 0 <= s < p - zeroes
      ensures !FreeRun(m, s, n)
    {
      assert s + n <= p;
    }
  }

  /** A run longer than the map fits nowhere. */
  lemma NoRoom(m: seq<bool>, n: nat)
    requires n > |m|
    ensures forall s :: !FreeRun(m, s, n)
  {
  }

  /** The scan went through the whole map without completing a run. */
  lemma ScanEnd(m: seq<bool>, n: nat, zeroes: nat, byteIx: nat, bitIx: nat)
    requires Scanning(m, n, |m|, zeroes, byteIx, bitIx)
    ensures forall s :: !FreeRun(m, s, n)
  {
  }

  lemma ClusterOf(i: nat, j: nat)
    requires j < 8
    ensures (8 * i + j) / 8 == i && (8 * i + j) % 8 == j
  {
  }

  /**
   * One bit of allocateClusters' scan (tiny-fs.c:839-854), bit j of byte i, which is cluster p:
   * a zero bit extends the run, remembering where it began, and ends the scan when the run
   * reaches n; a one bit starts the run over.
   */
  method ScanBit(zeroBit: bool, i: nat, j: nat, ghost m: seq<bool>, n: nat,
                 zeroes0: nat, byteIx0: nat, bitIx0: nat)
    returns (found: bool, zeroes: nat, byteIx: nat, bitIx: nat)
    requires j < 8 && 8 * i + j < |m| && zeroBit == !m[8 * i + j]
    requires Scanning(m, n, 8 * i + j, zeroes0, byteIx0, bitIx0)
    ensures found ==> bitIx < 8 && FirstFit(m, n, 8 * byteIx + bitIx)
    ensures !found ==> Scanning(m, n, 8 * i + j + 1, zeroes, byteIx, bitIx)
  {
    ghost var p := 8 * i + j;
    zeroes, byteIx, bitIx := zeroes0, byteIx0, bitIx0;
    if zeroBit {
      if zeroes == 0 {
        bitIx, byteIx := j, i;
      }
      zeroes := zeroes + 1;
      if zeroes == n {
        ScanFound(m, n, p, zeroes0, byteIx0, bitIx0);
        return true, zeroes, byteIx, bitIx;
      }
      ScanFree(m, n, p, zeroes0, byteIx0, bitIx0, i, j);
    } else {
      ScanBusy(m, n, p, zeroes0, byteIx0, bitIx0);
      zeroes, bitIx, byteIx := 0, 0, 0;
    }
    found := false;
  }

  /** The inner loop of the scan (tiny-fs.c:837-856), over the eight bits of byte b0, byte i. */
  method ScanByte(b0: bv8, i: nat, ghost m: seq<bool>, n: nat, zeroes0: nat,
                  byteIx0: nat, bitIx0: nat)
    returns (found: bool, zeroes: nat, byteIx: nat, bitIx: nat)
    requires 8 * i + 8 <= |m| && forall j :: 0 <= j < 8 ==> m[8 * i + j] == Bit(b0, j)
    requires Scanning(m, n, 8 * i, zeroes0, byteIx0, bitIx0)
    ensures found ==> bitIx < 8 && FirstFit(m, n, 8 * byteIx + bitIx)
    ensures !found ==> Scanning(m, n, 8 * (i + 1), zeroes, byteIx, bitIx)
  {
    found, zeroes, byteIx, bitIx := false, zeroes0, byteIx0, bitIx0;
    var b := b0;
    var j: nat := 0;
    while j < CHAR_BIT
      invariant j <= 8 && b == Shr(b0, j)
      invariant Scanning(m, n, 8 * i + j, zeroes, byteIx, bitIx)
    {
      LowBitOfShr(b0, j);
      found, zeroes, byteIx, bitIx := ScanBit(b & 1 == 0, i, j, m, n, zeroes, byteIx, bitIx);
      if found {
        return;
      }
      b := b >> 1;
      j := j + 1;
    }
  }

  /** Cluster 8 * i + j is bit j of byte i. */
  lemma ByteClusters(t: seq<bv8>, i: nat)
    requires i < |t|
    ensures forall j :: 0 <= j < 8 ==> Clusters(t)[8 * i + j] == Bit(t[i], j)
  {
    forall j | 0 <= j < 8
      ensures Clusters(t)[8 * i + j] == Bit(t[i], j)
    {
      ClusterOf(i, j);
    }
  }

  /**
   * The scan of allocateClusters (tiny-fs.c:834-857) over the first tableSize bytes: it finds
   * the first free run of n clusters, which starts at bit bitIx of byte byteIx, or reports that
   * there is none.
   */
  method FindRun(table: array<bv8>, tableSize: nat, n: nat, ghost m: seq<bool>)
    returns (found: bool, byteIx: nat, bitIx: nat)
    requires tableSize <= table.Length && 1 <= n && |m| == 8 * tableSize
    requires forall i, j :: 0 <= i < tableSize && 0 <= j < 8 ==> m[8 * i + j] == Bit(table[i], j)
    ensures found ==> bitIx < 8 && FirstFit(m, n, 8 * byteIx + bitIx)
    ensures !found ==> forall s :: !FreeRun(m, s, n)
  {
    var zeroes := 0;
    byteIx, bitIx := 0, 0;
    ScanStart(m, n);
    var i := 0;
    while i < tableSize
      invariant 0 <= i <= tableSize
      invariant Scanning(m, n, 8 * i, zeroes, byteIx, bitIx)
    {
      found, zeroes, byteIx, bitIx := ScanByte(table[i], i, m, n, zeroes, byteIx, bitIx);
      if found {
        return;
      }
      i := i + 1;
    }
    ScanEnd(m, n, zeroes, byteIx, bitIx);
    return false, byteIx, bitIx;
  }

  /**
   * toggleClusters (tiny-fs.c:897-920): flips n bits from bit bitIx of byte byteIx, moving to the
   * next byte's bit 0 after bit 7. The run must lie in the table; freeClusters does not ensure
   * that (see ReleaseRangeAsWritten).
   */
  method ToggleClusters(table: array<bv8>, byteIx: nat, bitIx: nat, n: nat)
    requires bitIx < 8 && 8 * byteIx + bitIx + n <= 8 * table.Length
    modifies table
    ensures table[..] == Toggle(old(table[..]), 8 * byteIx + bitIx, n)
  {
    ghost var t0 := table[..];
    ghost var s := 8 * byteIx + bitIx;
    ghost var done: nat := 0;
    var k: nat, bit: nat, left: nat := byteIx, bitIx, n;
    ToggledNone(t0, s);
    while left > 0
      invariant done + left == n && s + n <= 8 * |t0| && table.Length == |t0|
      invariant left > 0 ==> 8 * k + bit == s + done && bit < 8
      invariant Toggled(t0, table[..], s, done)
    {
      ghost var before := table[..];
      var m := ToggleInByte(table, k, bit, left);
      ToggledAppend(t0, before, table[..], s, done, m);
      done := done + m;
      bit, left, k := 0, left - m, k + 1;
    }
    ToggledIsToggle(t0, table[..], s, n);
  }

  /** The inner loop of toggleClusters: the bits of byte k from bit on, at most left of them. */
  method ToggleInByte(table: array<bv8>, k: nat, bit: nat, left: nat) returns (m: nat)
    requires bit < 8 && k < table.Length && 0 < left
    modifies table
    ensures m == if left < 8 - bit then left else 8 - bit
    ensures Toggled(old(table[..]), table[..], 8 * k + bit, m)
  {
    ghost var t0 := table[..];
    m := 0;
    ToggledNone(t0, 8 * k + bit);
    while bit + m < 8 && m < left
      invariant bit + m <= 8 && m <= left && table.Length == |t0|
      invariant Toggled(t0, table[..], 8 * k + bit, m)
    {
      ghost var before := table[..];
      FlipCluster(table, k, bit + m);
      ToggledAppend(t0, before, table[..], 8 * k + bit, m, 1);
      m := m + 1;
    }
  }

  /** clusterTable[k] ^= (uint8_t)(0x01U << j) */
  method FlipCluster(table: array<bv8>, k: nat, j: nat)
    requires j < 8 && k < table.Length
    modifies table
    ensures Toggled(old(table[..]), table[..], 8 * k + j, 1)
  {
    ghost var t0 := table[..];
    MaskIsShift(j);
    var mask: bv8 := 1 << j;
    table[k] := table[k] ^ mask;
    FlipInByte(t0, table[..], k, j);
  }

  /** Flipping bit j of byte k toggles cluster 8k+j alone. */
  lemma FlipInByte(t: seq<bv8>, u: seq<bv8>, k: nat, j: nat)
    requires j < 8 && k < |t| && u == t[k := t[k] ^ Mask(j)]
    ensures Toggled(t, u, 8 * k + j, 1)
  {
    ClusterOf(k, j);
    assert u == FlipAt(t, 8 * k + j);
    forall c | 0 <= c < 8 * |t|
      ensures Busy(u, c) == (Busy(t, c) != (8 * k + j <= c < 8 * k + j + 1))
    {
      FlipAtBits(t, 8 * k + j, c);
    }
  }


  // ------------------------------------------------------ allocate and free

  /**
   * allocateClusters (tiny-fs.c:806-867): the first free run of ReqClusters(requestedSize)
   * clusters in the first tableSize bytes is marked busy and its first cluster's offset in the
   * cluster area returned; UINT32_MAX, with the table untouched, when there is no such run
   * (which includes an empty table and a request larger than the table).
   */
  method AllocateClusters(table: array<bv8>, tableSize: nat, requestedSize: u32) returns (r: u32)
    requires tableSize <= table.Length
    modifies table
    ensures r == UINT32_MAX <==>
      forall s :: !FreeRun(Clusters(old(table[..tableSize])), s, ReqClusters(requestedSize))
    ensures r == UINT32_MAX ==> table[..] == old(table[..])
    ensures r != UINT32_MAX ==> exists s ::
      FirstFit(Clusters(old(table[..tableSize])), ReqClusters(requestedSize), s)
      && r == Cluster2Addr(s) && table[..] == Toggle(old(table[..]), s, ReqClusters(requestedSize))
  {
    var n := ReqClusters(requestedSize);
    if tableSize == 0 || n > tableSize * CHAR_BIT {
      NoRoom(Clusters(table[..tableSize]), n);
      return UINT32_MAX;
    }
    ghost var m := Clusters(table[..tableSize]);
    forall i, j | 0 <= i < tableSize && 0 <= j < 8
      ensures m[8 * i + j] == Bit(table[i], j)
    {
      ByteClusters(table[..tableSize], i);
    }
    var found, byteIx, bitIx := FindRun(table, tableSize, n, m);
    assert table[..tableSize] == old(table[..tableSize]);
    if !found {
      return UINT32_MAX;
    }
    r := Cluster2Addr(byteIx * CHAR_BIT + bitIx);
    ToggleClusters(table, byteIx, bitIx, n);
  }

  /**
   * The clusters freeClusters releases, as (first cluster, count), or None for ERROR: an empty
   * table, an address below the cluster area, a size larger than the table, or a run that would
   * leave the table. A size of 0 stands for the one cluster allocateClusters gives it.
   */
  function ReleaseRange(tableSize: nat, fileAddress: u32, fileSize: u32): (r: Option<(nat, nat)>)
    ensures r.Some? ==> r.value.1 == ReqClusters(fileSize) && r.value.0 + r.value.1 <= 8 * tableSize
    ensures r.Some? ==> CLUSTER_TABLE_OFFSET + 16 * r.value.0 <= fileAddress
                        < CLUSTER_TABLE_OFFSET + 16 * (r.value.0 + 1)
  {
    if tableSize == 0 || fileAddress < CLUSTER_TABLE_OFFSET then None
    else
      var n := ReqClusters(fileSize);
      var cl := (fileAddress - CLUSTER_TABLE_OFFSET) / FS_CLUSTER_SIZE;
      if n > tableSize * CHAR_BIT || cl + n > tableSize * CHAR_BIT then None
      else Some((cl, n))
  }

  /**
   * freeClusters as written (tiny-fs.c:669-700): a size of 0 releases nothing, and the run is not
   * checked against the end of the table.
   */
  function ReleaseRangeAsWritten(tableSize: nat, fileAddress: u32, fileSize: u32): Option<(nat, nat)>
  {
    if tableSize == 0 || fileAddress < CLUSTER_TABLE_OFFSET then None
    else if fileSize == 0 then Some((0, 0))
    else
      var n := ReqClusters(fileSize);
      if n > tableSize * CHAR_BIT then None
      else Some(((fileAddress - CLUSTER_TABLE_OFFSET) / FS_CLUSTER_SIZE, n))
  }

  /**
   * The file of size 0 that NewFile creates holds one cluster; deleting it releases none, so the
   * cluster stays busy for good.
   */
  lemma ZeroSizeLeaksAsWritten(t: seq<bv8>, s: nat)
    requires FreeRun(Clusters(t), s, 1) && 16 * s < 0x1_0000_0000 - CLUSTER_TABLE_OFFSET
    ensures ReleaseRangeAsWritten(|t|, CLUSTER_TABLE_OFFSET + Cluster2Addr(s), 0) == Some((0, 0))
    ensures Toggle(Toggle(t, s, ReqClusters(0)), 0, 0) != t
  {
    ToggleFreeRunMakesBusy(t, s, 1, s);
    assert !Busy(t, s);
  }

  /**
   * With the 54-byte table of the FRAM media, a directory entry whose address lies 512 clusters
   * into the cluster area makes freeClusters flip a bit of byte 64, past the 64-byte DTA.
   */
  lemma UncheckedRangeAsWritten()
    ensures ReleaseRangeAsWritten(54, CLUSTER_TABLE_OFFSET + 16 * 512, 16) == Some((512, 1))
    ensures 512 / 8 >= FS_DTA_SIZE
    ensures ReleaseRange(54, CLUSTER_TABLE_OFFSET + 16 * 512, 16).None?
  {
  }

  /**
   * freeClusters (tiny-fs.c:669-700) with the two corrections of ReleaseRange: SUCCESS iff the
   * range is valid, and then exactly its bits are flipped.
   */
  method FreeClusters(table: array<bv8>, tableSize: nat, fileAddress: u32, fileSize: u32)
    returns (st: Status)
    requires tableSize <= table.Length
    modifies table
    ensures st == SUCCESS <==> ReleaseRange(tableSize, fileAddress, fileSize).Some?
    ensures st == SUCCESS ==> table[..] == Toggle(old(table[..]),
      ReleaseRange(tableSize, fileAddress, fileSize).value.0, ReleaseRange(tableSize, fileAddress, fileSize).value.1)
    ensures st == ERROR ==> table[..] == old(table[..])
  {
    if tableSize == 0 || fileAddress < CLUSTER_TABLE_OFFSET {
      return ERROR;
    }
    var n := ReqClusters(fileSize);
    if n > tableSize * CHAR_BIT {
      return ERROR;
    }
    var cl := (fileAddress - CLUSTER_TABLE_OFFSET) / FS_CLUSTER_SIZE;
    if cl + n > tableSize * CHAR_BIT {
      return ERROR;
    }
    ToggleClusters(table, cl / CHAR_BIT, cl % CHAR_BIT, n);
    return SUCCESS;
  }

  /**
   * Freeing what allocateClusters handed out (at the address NewFile stores, the cluster-area
   * offset plus the returned offset) gives the table back, for every size.
   */
  lemma ReleaseAfterAllocate(t: seq<bv8>, size: u32, s: nat)
    requires FirstFit(Clusters(t), ReqClusters(size), s)
    requires CLUSTER_TABLE_OFFSET + 16 * s < 0x1_0000_0000
    ensures ReleaseRange(|t|, CLUSTER_TABLE_OFFSET + Cluster2Addr(s), size) == Some((s, ReqClusters(size)))
    ensures Toggle(Toggle(t, s, ReqClusters(size)), s, ReqClusters(size)) == t
  {
    var n := ReqClusters(size);
    assert s + n <= 8 * |t| by {
      assert FreeRun(Clusters(t), s, n);
    }
    Cluster2AddrSmall(s);
    assert (CLUSTER_TABLE_OFFSET + 16 * s - CLUSTER_TABLE_OFFSET) / FS_CLUSTER_SIZE == s;
    assert |t| * CHAR_BIT == 8 * |t| && n <= 8 * |t|;
    ToggleTwice(t, s, n);
  }

  /** For sizes above 0 the code as written agrees with the corrected release. */
  lemma ReleaseAgreesAboveZero(tableSize: nat, fileAddress: u32, fileSize: u32)
    requires fileSize > 0
    requires fileAddress >= CLUSTER_TABLE_OFFSET
    requires (fileAddress - CLUSTER_TABLE_OFFSET) / FS_CLUSTER_SIZE + ReqClusters(fileSize) <= 8 * tableSize
    ensures ReleaseRangeAsWritten(tableSize, fileAddress, fileSize) == ReleaseRange(tableSize, fileAddress, fileSize)
  {
  }
}
