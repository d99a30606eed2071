// How many bytes f_read and f_write of tiny-fs (Core/Src/tiny-fs/tiny-fs.c:1177-1294) move, and
// where f_lseek puts the file pointer (tiny-fs.c:1329-1366), over the fields of an open handle:
// its FileSize (a uint16_t) and its filePtr (a uint32_t).
//
// Both counts are computed in int32_t, so a request of 2^31 bytes or more turns negative, passes
// the test against what is available, and is handed on whole to the media call. The functions
// named AsWritten follow the code; ReadCount and WriteCount are what the code evidently intends,
// and they are the counts the driver's methods use.

module TinyFsFiles {
  import opened Common
  import opened TinyFsLayout
  import TinyFsClusters

  /** (int32_t)x for a uint32_t x on the two's-complement target */
  function Int32(x: u32): (r: int)
    ensures -0x8000_0000 <= r < 0x8000_0000
    ensures x < 0x8000_0000 ==> r == x
  {
    if x < 0x8000_0000 then x else x - 0x1_0000_0000
  }

  // ---------------------------------------------------------------- f_read

  /**
   * f_read's count as written (tiny-fs.c:1277-1281): avail = FileSize - (int32_t)filePtr,
   * clamped at 0, and btr when (int32_t)btr <= avail, else avail.
   */
  function ReadCountAsWritten(btr: u32, size: u16, ptr: u32): u32
  {
    var avail := size - Int32(ptr);
    var avail' := if avail < 0 then 0 else avail;
    if Int32(btr) <= avail' then btr else avail'
  }

  /** the count f_read evidently intends: what is asked for, up to the end of the file */
  function ReadCount(btr: u32, size: u16, ptr: u32): (n: u32)
    ensures n <= btr
    ensures ptr <= size ==> ptr + n <= size
    ensures n < btr ==> ptr + n >= size
  {
    if ptr >= size then 0
    else if btr <= size - ptr then btr else size - ptr
  }

  /** Below 2^31 the code as written reads what ReadCount says. */
  lemma ReadCountAgrees(btr: u32, size: u16, ptr: u32)
    requires btr < 0x8000_0000 && ptr < 0x8000_0000
    ensures ReadCountAsWritten(btr, size, ptr) == ReadCount(btr, size, ptr)
  {
  }

  /**
   * A request of 2^31 bytes from the start of a 100-byte file: the code hands all 2^31 bytes to
   * the media read, which the FRAM refuses, instead of reading the 100 bytes.
   */
  lemma ReadCastAsWritten()
    ensures ReadCountAsWritten(0x8000_0000, 100, 0) == 0x8000_0000
    ensures ReadCount(0x8000_0000, 100, 0) == 100
  {
  }

  // ---------------------------------------------------------------- f_write

  /**
   * The end of the clusters a file of this size holds, relative to its address: NewFile gives a
   * file ReqClusters(size) clusters, one when the size is 0.
   */
  function ClusterEnd(size: u16): (e: nat)
    ensures size <= e < size + FS_CLUSTER_SIZE + 1 && e % FS_CLUSTER_SIZE == 0 && e > 0
  {
    FS_CLUSTER_SIZE * TinyFsClusters.ReqClusters(size)
  }

  /**
   * avail + freeTail of f_write as written (tiny-fs.c:1205-1214): FileSize - (int32_t)filePtr
   * plus the unused tail of the last cluster, or one cluster for a file of size 0.
   */
  function WriteRoomAsWritten(size: u16, ptr: u32): (room: int)
    ensures ptr < 0x8000_0000 && (size > 0 || ptr == 0) ==> room == ClusterEnd(size) - ptr
    ensures ptr >= 0x8000_0000 && size > 0 ==> room == ClusterEnd(size) - ptr + 0x1_0000_0000
  {
    if size == 0 then FS_CLUSTER_SIZE
    else
      size - Int32(ptr) + (if size % FS_CLUSTER_SIZE == 0 then 0 else FS_CLUSTER_SIZE - size % FS_CLUSTER_SIZE)
  }

  /** f_write's count as written (tiny-fs.c:1218): btw when (int32_t)btw <= room, else room */
  function WriteCountAsWritten(btw: u32, size: u16, ptr: u32): u32
  {
    var room := WriteRoomAsWritten(size, ptr);
    if Int32(btw) <= room then btw else room % 0x1_0000_0000
  }

  /** the count f_write evidently intends: what is asked for, up to the end of the file's clusters */
  function WriteCount(btw: u32, size: u16, ptr: u32): (n: u32)
    ensures n <= btw
    ensures n == 0 || ptr + n <= ClusterEnd(size)
    ensures n < btw ==> ptr + n >= ClusterEnd(size)
  {
    var e := ClusterEnd(size);
    if ptr >= e then 0
    else if btw <= e - ptr then btw else e - ptr
  }

  /**
   * Below 2^31, and with the pointer inside the file as f_lseek and f_write keep it (at 0 when
   * the file is empty), the code as written writes what WriteCount says.
   */
  lemma WriteCountAgrees(btw: u32, size: u16, ptr: u32)
    requires btw < 0x8000_0000 && ptr <= size && (size == 0 ==> ptr == 0)
    ensures WriteCountAsWritten(btw, size, ptr) == WriteCount(btw, size, ptr)
  {
    var r := TinyFsClusters.ReqClusters(size);
    if size != 0 {
      assert ClusterEnd(size) == size + (if size % FS_CLUSTER_SIZE == 0 then 0 else FS_CLUSTER_SIZE - size % FS_CLUSTER_SIZE);
    }
  }

  /**
   * A request of 2^31 bytes into an empty file: the code hands all 2^31 bytes to the media
   * write, which the FRAM refuses, instead of filling the file's one cluster.
   */
  lemma WriteCastAsWritten()
    ensures WriteCountAsWritten(0x8000_0000, 0, 0) == 0x8000_0000
    ensures WriteCount(0x8000_0000, 0, 0) == FS_CLUSTER_SIZE
  {
  }

  /**
   * f_write's new FileSize (tiny-fs.c:1225-1228): the pointer after the write when it passed the
   * end, cut to the field's 16 bits.
   */
  function GrownSize(size: u16, ptr: nat): u16
  {
    if ptr > size then ptr % 0x1_0000 else size
  }

  /**
   * A write never leaves the file's clusters: the new size ends within them, so the file keeps
   * the clusters NewFile allocated for it.
   */
  lemma WriteKeepsClusters(btw: u32, size: u16, ptr: u32)
    requires ptr <= size && ClusterEnd(size) < 0x1_0000
    ensures var s := GrownSize(size, ptr + WriteCount(btw, size, ptr));
      size <= s <= ClusterEnd(size) && ptr + WriteCount(btw, size, ptr) <= s
      && TinyFsClusters.ReqClusters(s) == TinyFsClusters.ReqClusters(size)
  {
    var s := GrownSize(size, ptr + WriteCount(btw, size, ptr));
    var r, r' := TinyFsClusters.ReqClusters(size), TinyFsClusters.ReqClusters(s);
    assert s <= FS_CLUSTER_SIZE * r;
    assert (r' - 1) * FS_CLUSTER_SIZE < (if s == 0 then 1 else s) <= r' * FS_CLUSTER_SIZE;
    assert (r - 1) * FS_CLUSTER_SIZE < (if size == 0 then 1 else size) <= r * FS_CLUSTER_SIZE;
  }

  // ---------------------------------------------------------------- f_lseek

  /**
   * The pointer f_lseek sets (tiny-fs.c:1339-1361), None for FR_INVALID_PARAMETER: clamped to
   * FileSize in a file open for reading; below FileSize only in one open for writing; refused in
   * any other state.
   */
  function SeekTo(status: byte, size: u16, ofs: u32): (r: Option<u32>)
    ensures status == FStateOpenedR ==> r.Some? && r.value <= size && (ofs <= size ==> r.value == ofs)
    ensures status == FStateOpenedW ==> (r.Some? <==> ofs < size) && (r.Some? ==> r.value == ofs)
    ensures status != FStateOpenedR && status != FStateOpenedW ==> r.None?
  {
    if status == FStateOpenedR then Some(if ofs >= size then size else ofs)
    else if status == FStateOpenedW then (if ofs < size then Some(ofs) else None)
    else None
  }

  /** Seeking twice to the same place is seeking once. */
  lemma SeekIdempotent(status: byte, size: u16, ofs: u32)
    requires SeekTo(status, size, ofs).Some?
    ensures SeekTo(status, size, SeekTo(status, size, ofs).value) == SeekTo(status, size, ofs)
  {
  }
}
