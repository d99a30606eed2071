// Machine types and small helpers shared by every module of the firmware model.

module Common {
  /** An 8-bit unsigned value (uint8_t, and char on the ARM target, where char is unsigned). */
  type byte = x: int | 0 <= x < 0x100
  /** uint16_t */
  type u16 = x: int | 0 <= x < 0x1_0000
  /** uint32_t, which is also size_t on the 32-bit target */
  type u32 = x: int | 0 <= x < 0x1_0000_0000
  /** int32_t */
  type int32 = x: int | -0x8000_0000 <= x < 0x8000_0000

  const UINT8_MAX: int := 0xFF
  const UINT16_MAX: int := 0xFFFF
  const UINT32_MAX: int := 0xFFFF_FFFF

  datatype Option<T> = None | Some(value: T)

  /** ErrorStatus of the STM32 HAL */
  datatype Status = SUCCESS | ERROR

  /** The bytes of an ASCII text constant of the firmware. */
  function Ascii(s: string): seq<byte>
    requires forall i :: 0 <= i < |s| ==> s[i] as int < 0x100
  {
    seq(|s|, i requires 0 <= i < |s| => s[i] as int)
  }

  /** The lowest index whose element passes the test, or |s| when none does: a C scan loop with break. */
  function FirstWhere<T>(s: seq<T>, test: T -> bool): (r: nat)
    ensures r <= |s|
    ensures r < |s| ==> test(s[r])
    ensures forall j :: 0 <= j < r ==> !test(s[j])
  {
    if |s| == 0 then 0
    else if test(s[0]) then 0
    else 1 + FirstWhere(s[1..], test)
  }

  /** A scan that stops at i, having failed the test before it, has found FirstWhere. */
  lemma FirstWhereIs<T>(s: seq<T>, test: T -> bool, i: nat)
    requires i <= |s| && (i < |s| ==> test(s[i]))
    requires forall j :: 0 <= j < i ==> !test(s[j])
    ensures FirstWhere(s, test) == i
  {
  }

  /** A run of n zero bytes, as memset(p, 0, n) leaves it. */
  function Zeros(n: nat): (r: seq<byte>)
    ensures |r| == n && forall i :: 0 <= i < n ==> r[i] == 0
  {
    seq(n, _ => 0)
  }

  /**
   * The byte a C routine reads at index i of a buffer whose known contents are s:
   * memory past the end of s reads as NUL, so s stands for a NUL-terminated string.
   */
  function At(s: seq<byte>, i: int): byte
  {
    if 0 <= i < |s| then s[i] else 0
  }

  /** strlen: the index of the first NUL in s, or |s| when s holds none. */
  function StrLen(s: seq<byte>): (n: nat)
    ensures n <= |s|
    ensures forall i :: 0 <= i < n ==> s[i] != 0
    ensures n < |s| ==> s[n] == 0
  {
    if |s| == 0 || s[0] == 0 then 0 else 1 + StrLen(s[1..])
  }

  /** The C string held by a char buffer: its bytes before the first NUL. */
  function CStr(s: seq<byte>): seq<byte>
  {
    s[..StrLen(s)]
  }

  lemma {:induction false} StrLenOfTerminated(s: seq<byte>, t: seq<byte>)
    requires forall i :: 0 <= i < |s| ==> s[i] != 0
    requires |t| > 0 && t[0] == 0
    ensures StrLen(s + t) == |s| && CStr(s + t) == s
  {
    if |s| > 0 {
      assert (s + t)[1..] == s[1..] + t;
      StrLenOfTerminated(s[1..], t);
    }
    assert (s + t)[..|s|] == s;
  }

  lemma StrLenOfNulFree(s: seq<byte>)
    requires forall i :: 0 <= i < |s| ==> s[i] != 0
    ensures StrLen(s) == |s| && CStr(s) == s
  {
  }

  /** A NUL at index i bounds the string's length. */
  lemma StrLenAtMostNul(s: seq<byte>, i: nat)
    requires i < |s| && s[i] == 0
    ensures StrLen(s) <= i
  {
  }

  /** strlen is the one index with no NUL before it and a NUL, or the end, at it. */
  lemma StrLenUnique(s: seq<byte>, n: nat)
    requires n <= |s| && (forall i :: 0 <= i < n ==> s[i] != 0) && (n < |s| ==> s[n] == 0)
    ensures StrLen(s) == n
  {
  }

  /** A prefix that reaches the first NUL (or the end) holds the same C string. */
  lemma CStrOfPrefix(s: seq<byte>, k: nat)
    requires StrLen(s) <= k <= |s|
    ensures CStr(s[..k]) == CStr(s) && StrLen(s[..k]) == StrLen(s)
  {
    var n := StrLen(s);
    StrLenUnique(s[..k], n);
    assert s[..k][..n] == s[..n];
  }

  /** A buffer that holds a NUL, so that its contents are a C string. */
  predicate Terminated(a: seq<byte>)
  {
    StrLen(a) < |a|
  }

  /**
   * memcpy of n bytes from src at s to dst at d. As memcpy demands, the areas do not overlap,
   * unless they are the very same bytes, which then stay as they are.
   */
  method MemCpy(dst: array<byte>, d: nat, src: array<byte>, s: nat, n: nat)
    requires d + n <= dst.Length && s + n <= src.Length
    requires dst == src ==> d == s || d + n <= s || s + n <= d
    modifies dst
    ensures dst[..d] == old(dst[..d]) && dst[d..d + n] == old(src[s..s + n])
    ensures dst[d + n..] == old(dst[d + n..])
  {
    if dst == src && d == s {
      return;
    }
    ghost var want := src[s..s + n];
    var i := 0;
    while i < n
      invariant 0 <= i <= n
      invariant forall k :: 0 <= k < dst.Length && !(d <= k < d + i) ==> dst[k] == old(dst[k])
      invariant forall k :: d <= k < d + i ==> dst[k] == old(src[k - d + s])
      invariant forall k :: s <= k < s + n ==> src[k] == old(src[k])
    {
      dst[d + i] := src[s + i];
      i := i + 1;
    }
    forall k | 0 <= k < n
      ensures dst[d..d + n][k] == want[k]
    {
      assert dst[d + k] == old(src[k + s]);
    }
    assert dst[d..d + n] == want;
  }

  /** memcpy from memory the model holds as a value (flash, a constant table) into dst at d. */
  method CopyIn(dst: array<byte>, d: nat, data: seq<byte>)
    requires d + |data| <= dst.Length
    modifies dst
    ensures dst[..] == old(dst[..d]) + data + old(dst[d + |data|..])
  {
    var i := 0;
    while i < |data|
      invariant 0 <= i <= |data|
      invariant forall k :: 0 <= k < dst.Length && !(d <= k < d + i) ==> dst[k] == old(dst[k])
      invariant forall k :: d <= k < d + i ==> dst[k] == data[k - d]
    {
      dst[d + i] := data[i];
      i := i + 1;
    }
    assert forall k :: 0 <= k < dst.Length ==> dst[..][k] == (old(dst[..d]) + data + old(dst[d + |data|..]))[k];
  }
}
