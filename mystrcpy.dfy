// Bounded string copies and 16-bit byte-order helpers used by the TFTP codec
// (Core/Src/tftp/mystrcpy.c). The caller's uint8_t ** cursors become indices into the
// arrays, returned advanced.

module StrCopy {
  import opened Common

  /** A pointer argument: NULL, or the index of the byte it addresses in its buffer. */
  datatype Ptr = Null | Addr(i: nat)

  /**
   * The copy limit as mystrcpy.c computes it when nbytes would reach past maxsrc, the last
   * readable byte: maxsrc - (src + 1) in unsigned arithmetic.
   */
  function LimitAsWritten(src: nat, nbytes: u32, maxsrc: nat): (l: int)
    requires src <= maxsrc
  {
    if nbytes > 0 && maxsrc < src + nbytes - 1 then (maxsrc - (src + 1)) % 0x1_0000_0000
    else nbytes
  }

  /**
   * The copy limit as intended: nbytes, cut back to the bytes that remain up to and
   * including maxsrc.
   */
  function Limit(src: nat, nbytes: u32, maxsrc: nat): (l: nat)
    requires src <= maxsrc
    ensures l <= nbytes && src + l <= maxsrc + 1
    ensures l == nbytes || src + l == maxsrc + 1
  {
    if nbytes > 0 && maxsrc < src + nbytes - 1 then maxsrc - src + 1 else nbytes
  }

  /** Whenever the limit is cut back, the written limit leaves the last two readable bytes unread. */
  lemma LimitAsWrittenTwoShort(src: nat, nbytes: u32, maxsrc: nat)
    requires src + 2 <= maxsrc + 1 && maxsrc + 1 < src + nbytes
    ensures LimitAsWritten(src, nbytes, maxsrc) == Limit(src, nbytes, maxsrc) - 2
  {
  }

  /** With one readable byte left the written limit wraps to UINT32_MAX: nothing bounds the copy. */
  lemma LimitAsWrittenWrapsOnLastByte(src: nat, nbytes: u32)
    requires nbytes >= 2
    ensures LimitAsWritten(src, nbytes, src) == UINT32_MAX
    ensures Limit(src, nbytes, src) == 1
  {
  }

  /** What mystrcpy leaves in its destination window: the C string of w, then zero fill. */
  function PaddedCopy(w: seq<byte>): (r: seq<byte>)
  {
    CStr(w) + Zeros(|w| - StrLen(w))
  }

  /** How far mystrcpy advances the source: just past the NUL when w holds one, else all of w. */
  function PaddedAdvance(w: seq<byte>): (n: nat)
    ensures n <= |w|
  {
    if StrLen(w) < |w| then StrLen(w) + 1 else |w|
  }

  /** What mystrcpynf writes: w up to and including its first NUL, and no padding. */
  function TerminatedCopy(w: seq<byte>): (r: seq<byte>)
  {
    if StrLen(w) < |w| then w[..StrLen(w) + 1] else w
  }

  /** mystrcpy's window is always filled exactly, and reading it back as a C string gives CStr(w). */
  lemma PaddedCopyShape(w: seq<byte>)
    ensures |PaddedCopy(w)| == |w|
    ensures CStr(PaddedCopy(w)) == CStr(w)
    ensures forall k :: StrLen(w) <= k < |w| ==> PaddedCopy(w)[k] == 0
    ensures PaddedAdvance(w) <= |w|
  {
    var n := StrLen(w);
    if n < |w| {
      StrLenOfTerminated(CStr(w), Zeros(|w| - n));
    } else {
      assert PaddedCopy(w) == w;
      StrLenOfNulFree(w);
    }
  }

  /** mystrcpynf writes a NUL-terminated prefix of w, or all of w when w holds no NUL. */
  lemma TerminatedCopyShape(w: seq<byte>)
    ensures |TerminatedCopy(w)| <= |w| && TerminatedCopy(w) == w[..|TerminatedCopy(w)|]
    ensures StrLen(w) < |w| <==> |TerminatedCopy(w)| == StrLen(w) + 1
    ensures StrLen(w) < |w| ==> TerminatedCopy(w)[StrLen(w)] == 0
    ensures CStr(TerminatedCopy(w)) == CStr(w)
  {
    var n := StrLen(w);
    if n < |w| {
      StrLenOfTerminated(w[..n], [0]);
      assert w[..n + 1] == w[..n] + [0];
    }
  }

  /**
   * A string that mystrcpynf wrote, read back by mystrcpy over a window at least as long:
   * the same C string comes back, and the source advances past the copied NUL.
   */
  lemma {:induction false} CopyRoundTrip(t: seq<byte>, rest: seq<byte>)
    requires forall k :: 0 <= k < |t| ==> t[k] != 0
    ensures var w := t + [0] + rest;
      StrLen(w) == |t| && CStr(PaddedCopy(w)) == t && PaddedAdvance(w) == |t| + 1
  {
    var w := t + [0] + rest;
    assert w == t + ([0] + rest);
    StrLenOfTerminated(t, [0] + rest);
    PaddedCopyShape(w);
  }

  /** The part of the destination that a copy of |c| bytes at d replaced with c. */
  ghost predicate Placed(dst: seq<byte>, old_dst: seq<byte>, d: nat, c: seq<byte>)
    requires d + |c| <= |old_dst|
  {
    |dst| == |old_dst| && dst[..d] == old_dst[..d] && dst[d..d + |c|] == c
    && dst[d + |c|..] == old_dst[d + |c|..]
  }

  /**
   * mystrcpy (mystrcpy.c:29-68) with the corrected limit: NULL cursors or maxsrc before src give
   * UINT32_MAX and no change; otherwise the window of Limit bytes at src is copied up to its
   * first NUL and the rest of the window is zero-filled, so dst always advances by the limit.
   */
  method MyStrCpy(dst: array<byte>, d: Ptr, src: array<byte>, s: Ptr, nbytes: u32, maxsrc: Ptr)
    returns (res: u32, d': Ptr, s': Ptr)
    requires dst != src
    requires maxsrc.Addr? ==> maxsrc.i < src.Length
    requires d.Addr? && s.Addr? && maxsrc.Addr? && s.i <= maxsrc.i ==>
      d.i + Limit(s.i, nbytes, maxsrc.i) <= dst.Length
    modifies dst
    ensures d.Null? || s.Null? || maxsrc.Null? || maxsrc.i < s.i ==>
      res == UINT32_MAX && dst[..] == old(dst[..]) && d' == d && s' == s
    ensures d.Addr? && s.Addr? && maxsrc.Addr? && s.i <= maxsrc.i ==>
      var w := src[s.i..s.i + Limit(s.i, nbytes, maxsrc.i)];
      && res == StrLen(w) && Placed(dst[..], old(dst[..]), d.i, PaddedCopy(w))
      && d' == Addr(d.i + |w|) && s' == Addr(s.i + PaddedAdvance(w))
  {
    if d.Null? || s.Null? || maxsrc.Null? || maxsrc.i < s.i {
      return UINT32_MAX, d, s;
    }
    var L := Limit(s.i, nbytes, maxsrc.i);
    var n, sp := CopyWindowPadded(dst, d.i, src, s.i, L);
    res, d', s' := n, Addr(d.i + L), Addr(sp);
  }

  /** The two loops of mystrcpy over a window of L bytes. */
  method CopyWindowPadded(dst: array<byte>, d: nat, src: array<byte>, s: nat, L: nat)
    returns (n: nat, sp: nat)
    requires dst != src && s + L <= src.Length && d + L <= dst.Length
    modifies dst
    ensures var w := src[s..s + L];
      n == StrLen(w) && sp == s + PaddedAdvance(w) && Placed(dst[..], old(dst[..]), d, PaddedCopy(w))
  {
    ghost var w := src[s..s + L];
    n, sp := CopyUntilNul(dst, d, src, s, L);
    ZeroFill(dst, d, n, L);
    PlacedOf(dst[..], old(dst[..]), d, PaddedCopy(w));
  }

  /**
   * dst is old_dst with the bytes of window w up to and including its first NUL (all of w when
   * it has none) placed at d, and n is their number.
   */
  ghost predicate CopiedThroughNul(dst: seq<byte>, old_dst: seq<byte>, d: nat, w: seq<byte>, n: nat)
  {
    n == |TerminatedCopy(w)| && d + n <= |old_dst| && Placed(dst, old_dst, d, TerminatedCopy(w))
  }

  /** Pointwise facts about a destination, gathered into Placed. */
  lemma PlacedOf(dst: seq<byte>, old_dst: seq<byte>, d: nat, c: seq<byte>)
    requires d + |c| <= |old_dst| && |dst| == |old_dst|
    requires forall k :: 0 <= k < |dst| && !(d <= k < d + |c|) ==> dst[k] == old_dst[k]
    requires forall k :: d <= k < d + |c| ==> dst[k] == c[k - d]
    ensures Placed(dst, old_dst, d, c)
  {
    assert dst[d..d + |c|] == c;
  }

  /** The first loop of mystrcpy: copy the window's bytes before its first NUL, step past the NUL. */
  method CopyUntilNul(dst: array<byte>, d: nat, src: array<byte>, s: nat, L: nat)
    returns (n: nat, sp: nat)
    requires dst != src && s + L <= src.Length && d + L <= dst.Length
    modifies dst
    ensures n == StrLen(src[s..s + L]) && sp == s + PaddedAdvance(src[s..s + L])
    ensures forall k :: 0 <= k < dst.Length && !(d <= k < d + n) ==> dst[k] == old(dst[k])
    ensures forall k :: d <= k < d + n ==> dst[k] == src[k - d + s]
  {
    ghost var w := src[s..s + L];
    var dp, i := d, L;
    sp := s;
    var metNul := false;
    while i > 0
      invariant 0 <= i <= L
      invariant dp == d + (L - i) && sp == s + (L - i)
      invariant forall k :: 0 <= k < L - i ==> w[k] != 0
      invariant forall k :: 0 <= k < dst.Length && !(d <= k < dp) ==> dst[k] == old(dst[k])
      invariant forall k :: d <= k < dp ==> dst[k] == src[k - d + s]
    {
      if src[sp] == 0 {
        sp := sp + 1;
        metNul := true;
        break;
      }
      dst[dp] := src[sp];
      dp := dp + 1;
      sp := sp + 1;
      i := i - 1;
    }
    n := L - i;
    if metNul {
      assert w[n] == 0;
    } else {
      StrLenOfNulFree(w);
    }
  }

  /** The second loop of mystrcpy: zero-fill the window after the n copied bytes. */
  method ZeroFill(dst: array<byte>, d: nat, n: nat, L: nat)
    requires n <= L && d + L <= dst.Length
    modifies dst
    ensures forall k :: 0 <= k < dst.Length && !(d + n <= k < d + L) ==> dst[k] == old(dst[k])
    ensures forall k :: d + n <= k < d + L ==> dst[k] == 0
  {
    var dp := d + n;
    while dp < d + L
      invariant d + n <= dp <= d + L
      invariant forall k :: 0 <= k < dst.Length && !(d + n <= k < dp) ==> dst[k] == old(dst[k])
      invariant forall k :: d + n <= k < dp ==> dst[k] == 0
    {
      dst[dp] := 0;
      dp := dp + 1;
    }
  }

  /**
   * mystrcpynf (mystrcpy.c:83-116) with the corrected limit: the same argument checks, then
   * the window is copied up to and including its first NUL, with no padding; dst and src
   * both advance by the number of bytes written, which is also the result.
   */
  method MyStrCpyNf(dst: array<byte>, d: Ptr, src: array<byte>, s: Ptr, nbytes: u32, maxsrc: Ptr)
    returns (res: u32, d': Ptr, s': Ptr)
    requires dst != src
    requires maxsrc.Addr? ==> maxsrc.i < src.Length
    requires d.Addr? && s.Addr? && maxsrc.Addr? && s.i <= maxsrc.i ==>
      d.i + Limit(s.i, nbytes, maxsrc.i) <= dst.Length
    modifies dst
    ensures d.Null? || s.Null? || maxsrc.Null? || maxsrc.i < s.i ==>
      res == UINT32_MAX && dst[..] == old(dst[..]) && d' == d && s' == s
    ensures d.Addr? && s.Addr? && maxsrc.Addr? && s.i <= maxsrc.i ==>
      CopiedThroughNul(dst[..], old(dst[..]), d.i, src[s.i..][..Limit(s.i, nbytes, maxsrc.i)], res)
      && d' == Addr(d.i + res) && s' == Addr(s.i + res)
  {
    if d.Null? || s.Null? || maxsrc.Null? || maxsrc.i < s.i {
      return UINT32_MAX, d, s;
    }
    var n, sp := CopyThroughNul(dst, d.i, src, s.i, Limit(s.i, nbytes, maxsrc.i));
    res, d', s' := n, Addr(d.i + n), Addr(sp);
  }

  /** The loop of mystrcpynf: copy the window's bytes up to and including its first NUL. */
  method CopyThroughNul(dst: array<byte>, d: nat, src: array<byte>, s: nat, L: nat)
    returns (n: nat, sp: nat)
    requires dst != src && s + L <= src.Length && d + L <= dst.Length
    modifies dst
    ensures n <= L && sp == s + n && CopiedThroughNul(dst[..], old(dst[..]), d, src[s..][..L], n)
  {
    ghost var w := src[s..][..L];
    var dp, i := d, L;
    sp := s;
    var metNul := false;
    while i > 0
      invariant 0 <= i <= L
      invariant dp == d + (L - i) && sp == s + (L - i)
      invariant !metNul ==> forall k :: 0 <= k < L - i ==> w[k] != 0
      invariant forall k :: 0 <= k < dst.Length && !(d <= k < dp) ==> dst[k] == old(dst[k])
      invariant forall k :: d <= k < dp ==> dst[k] == w[k - d]
    {
      dst[dp] := src[sp];
      dp := dp + 1;
      i := i - 1;
      if src[sp] == 0 {
        sp := sp + 1;
        metNul := true;
        break;
      }
      sp := sp + 1;
    }
    n := L - i;
    TerminatedAt(w, n);
    PlacedOf(dst[..], old(dst[..]), d, w[..n]);
  }

  /** A NUL-free prefix of w closed by a NUL, or all of a NUL-free w, is w's terminated copy. */
  lemma TerminatedAt(w: seq<byte>, n: nat)
    requires n <= |w| && forall k :: 0 <= k < n - 1 ==> w[k] != 0
    requires (0 < n && w[n - 1] == 0) || (n == |w| && (n == 0 || w[n - 1] != 0))
    ensures TerminatedCopy(w) == w[..n]
  {
    if 0 < n && w[n - 1] == 0 {
      StrLenAtMostNul(w, n - 1);
    } else {
      StrLenOfNulFree(w);
    }
  }

  /** The two bytes write_u16 stores: low byte first. */
  function LeBytes(v: u16): (b: seq<byte>)
    ensures |b| == 2
  {
    [v % 0x100, v / 0x100]
  }

  /** The two bytes write_u16_htons stores: high byte first (network order). */
  function BeBytes(v: u16): (b: seq<byte>)
    ensures |b| == 2
  {
    [v / 0x100, v % 0x100]
  }

  /** The value read_u16 assembles from two bytes, the first being the low one. */
  function LeValue(b0: byte, b1: byte): (v: u16)
  {
    b0 + b1 * 0x100
  }

  /** The value read_u16_ntohs assembles from two bytes, the first being the high one. */
  function BeValue(b0: byte, b1: byte): (v: u16)
  {
    b0 * 0x100 + b1
  }

  /** Reading back what was written gives the value, in either byte order. */
  lemma U16RoundTrip(v: u16)
    ensures LeValue(LeBytes(v)[0], LeBytes(v)[1]) == v
    ensures BeValue(BeBytes(v)[0], BeBytes(v)[1]) == v
    ensures BeBytes(v) == [LeBytes(v)[1], LeBytes(v)[0]]
  {
  }

  /** ... and writing back what was read gives the bytes: both encodings are bijections. */
  lemma U16BytesRoundTrip(b0: byte, b1: byte)
    ensures LeBytes(LeValue(b0, b1)) == [b0, b1]
    ensures BeBytes(BeValue(b0, b1)) == [b0, b1]
  {
  }

  /** write_u16 (mystrcpy.c:125-131): stores v low byte first and advances by 2. */
  method WriteU16(buf: array<byte>, p: nat, v: u16) returns (p': nat)
    requires p + 2 <= buf.Length
    modifies buf
    ensures p' == p + 2
    ensures buf[..p] == old(buf[..p]) && buf[p..p + 2] == LeBytes(v) && buf[p + 2..] == old(buf[p + 2..])
  {
    buf[p] := v % 0x100;
    buf[p + 1] := v / 0x100;
    p' := p + 2;
  }

  /** write_u16_htons (mystrcpy.c:141-147): stores v high byte first and advances by 2. */
  method WriteU16Htons(buf: array<byte>, p: nat, v: u16) returns (p': nat)
    requires p + 2 <= buf.Length
    modifies buf
    ensures p' == p + 2
    ensures buf[..p] == old(buf[..p]) && buf[p..p + 2] == BeBytes(v) && buf[p + 2..] == old(buf[p + 2..])
  {
    buf[p] := v / 0x100;
    buf[p + 1] := v % 0x100;
    p' := p + 2;
  }

  /** read_u16 (mystrcpy.c:157-165): the low byte comes first; advances by 2. */
  method ReadU16(buf: array<byte>, p: nat) returns (v: u16, p': nat)
    requires p + 2 <= buf.Length
    ensures p' == p + 2 && LeBytes(v) == buf[p..p + 2]
  {
    v := buf[p] as int + (buf[p + 1] as int) * 0x100;
    p' := p + 2;
  }

  /** read_u16_ntohs (mystrcpy.c:173-181): the high byte comes first; advances by 2. */
  method ReadU16Ntohs(buf: array<byte>, p: nat) returns (v: u16, p': nat)
    requires p + 2 <= buf.Length
    ensures p' == p + 2 && BeBytes(v) == buf[p..p + 2]
  {
    v := (buf[p] as int) * 0x100 + buf[p + 1] as int;
    p' := p + 2;
  }
}
