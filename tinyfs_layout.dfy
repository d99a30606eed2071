// The on-media layout of tiny-fs (Core/Inc/tiny-fs/tiny-fs.h, Core/Src/tiny-fs/tiny-fs.c): its
// constants and result codes, the geometry helpers, and the byte image of the header and of a
// directory entry.
//
// Media map: the FAT header at 0, DIR_ENTRIES directory entries from HEADER_SIZE, then the
// cluster area. Cluster 0 of that area starts at CLUSTER_TABLE_OFFSET and the first clusters hold
// the cluster table itself (the "$$FAT$$" file of entry 0).

module TinyFsLayout {
  import opened Common
  import StrCopy

  const MAX_FILENAME_LEN: nat := 7
  const DIR_ENTRIES: nat := 64
  /** size of the DTA, the driver's scratch buffer that also holds the cluster table */
  const FS_DTA_SIZE: nat := 64
  const FS_CLUSTER_SIZE: nat := 16
  const FS_VERSION: u32 := 1
  const FS_CONCURRENT_FILES: nat := 1
  const CHAR_BIT: nat := 8

  /** sizeof(FAT_Header_t): FS_version, DIR_CRC32, FAT_ClusterTableSize, dummy, 32 bits each */
  const HEADER_SIZE: nat := 16
  /** offsetof(FAT_Header_t, DIR_CRC32) */
  const DIR_CRC_FIELD: nat := 4
  /** FileName[MAX_FILENAME_LEN + 1] */
  const NAME_SIZE: nat := 8
  /**
   * sizeof(DIR_Entry_t), a packed struct: FileName (8), FileStatus (1: fState_t is a one-byte
   * enum under the short-enum default of the ARM bare-metal ABI), FileSize (2), FileAddress (4),
   * FileCRC32 (4).
   */
  const ENTRY_SIZE: nat := 19
  /** offsetof(DIR_Entry_t, FileCRC32) */
  const CRC_FIELD: nat := 15
  /** getClusterTableOffset (tiny-fs.c:111-114): the end of the directory */
  const CLUSTER_TABLE_OFFSET: nat := HEADER_SIZE + DIR_ENTRIES * ENTRY_SIZE

  // fState_t: a file's status in its directory entry
  const FStateNoFile: byte := 1
  const FStateClosed: byte := 2
  const FStateOpenedR: byte := 3
  const FStateOpenedW: byte := 4
  const FStateFAT: byte := 5

  // fMode_t
  const FModeRead: int := 1
  const FModeWrite: int := 2

  // FRESULT
  type FResult = r: int | 0 <= r <= 19
  const FR_OK: FResult := 0
  const FR_DISK_ERR: FResult := 1
  const FR_INT_ERR: FResult := 2
  const FR_NOT_READY: FResult := 3
  const FR_NO_FILE: FResult := 4
  const FR_NO_PATH: FResult := 5
  const FR_INVALID_NAME: FResult := 6
  const FR_DENIED: FResult := 7
  const FR_EXIST: FResult := 8
  const FR_INVALID_OBJECT: FResult := 9
  const FR_WRITE_PROTECTED: FResult := 10
  const FR_INVALID_DRIVE: FResult := 11
  const FR_NOT_ENABLED: FResult := 12
  const FR_NO_FILESYSTEM: FResult := 13
  const FR_MKFS_ABORTED: FResult := 14
  const FR_TIMEOUT: FResult := 15
  const FR_LOCKED: FResult := 16
  const FR_NOT_ENOUGH_CORE: FResult := 17
  const FR_TOO_MANY_OPEN_FILES: FResult := 18
  const FR_INVALID_PARAMETER: FResult := 19

  const FRESULT_NAMES: seq<string> := [
    "FR_OK", "FR_DISK_ERR", "FR_INT_ERR", "FR_NOT_READY", "FR_NO_FILE", "FR_NO_PATH",
    "FR_INVALID_NAME", "FR_DENIED", "FR_EXIST", "FR_INVALID_OBJECT", "FR_WRITE_PROTECTED",
    "FR_INVALID_DRIVE", "FR_NOT_ENABLED", "FR_NO_FILESYSTEM", "FR_MKFS_ABORTED", "FR_TIMEOUT",
    "FR_LOCKED", "FR_NOT_ENOUGH_CORE", "FR_TOO_MANY_OPEN_FILES", "FR_INVALID_PARAMETER"]

  /**
   * FRESULT_String (tiny-fs.c:1076-1166): the name of each result code, "<bad enum>" for a value
   * outside the enumeration.
   */
  function FResultString(res: int): (r: string)
    ensures 0 <= res <= 19 ==> |r| > 3 && r[..3] == "FR_"
    ensures r == "<bad enum>" <==> !(0 <= res <= 19)
  {
    if 0 <= res <= 19 then FRESULT_NAMES[res] else "<bad enum>"
  }

  /** Different codes get different names, so the name identifies the code. */
  lemma FResultStringInjective(a: FResult, b: FResult)
    requires a != b
    ensures FResultString(a) != FResultString(b)
  {
  }

  // ---------------------------------------------------------------- geometry

  /**
   * getNumClusters (tiny-fs.c:121-126): whole clusters after the directory, rounded down to a
   * multiple of CHAR_BIT so that the table has no partly used byte. The subtraction is on size_t.
   */
  function NumClusters(mediaSize: u32): (n: nat)
    ensures n % CHAR_BIT == 0
    ensures mediaSize >= CLUSTER_TABLE_OFFSET ==>
      n % CHAR_BIT == 0 && CLUSTER_TABLE_OFFSET + n * FS_CLUSTER_SIZE <= mediaSize
      && mediaSize < CLUSTER_TABLE_OFFSET + (n + CHAR_BIT) * FS_CLUSTER_SIZE
  {
    var total := ((mediaSize - CLUSTER_TABLE_OFFSET) % 0x1_0000_0000) / FS_CLUSTER_SIZE;
    total - total % CHAR_BIT
  }

  /** getClusterFileSize (tiny-fs.c:133-141): a size rounded up to whole clusters. */
  function ClusterFileSize(tableSize: u32): (r: nat)
    ensures r % FS_CLUSTER_SIZE == 0 && tableSize <= r < tableSize + FS_CLUSTER_SIZE
  {
    var clusters := tableSize / FS_CLUSTER_SIZE;
    (if tableSize % FS_CLUSTER_SIZE != 0 then clusters + 1 else clusters) * FS_CLUSTER_SIZE
  }

  /** getClusterTableSize (tiny-fs.c:148-153): one bit per cluster, rounded up to bytes. */
  function ClusterTableSize(mediaSize: u32): (r: nat)
    ensures r * CHAR_BIT == NumClusters(mediaSize)
  {
    var n := NumClusters(mediaSize);
    assert n == CHAR_BIT * (n / CHAR_BIT);
    n / CHAR_BIT + (if n % CHAR_BIT != 0 then 1 else 0)
  }

  /** getDIR_EntryOffset (tiny-fs.c:572-577) */
  function DirEntryOffset(i: nat): (off: nat)
    ensures i < DIR_ENTRIES ==> HEADER_SIZE <= off && off + ENTRY_SIZE <= CLUSTER_TABLE_OFFSET
  {
    HEADER_SIZE + i * ENTRY_SIZE
  }

  /** The directory entries occupy disjoint byte ranges. */
  lemma EntriesDisjoint(i: nat, j: nat)
    requires i < j
    ensures DirEntryOffset(i) + ENTRY_SIZE <= DirEntryOffset(j)
  {
  }

  /** cluster2Addr (tiny-fs.c:874-877), returned as a uint32_t */
  function Cluster2Addr(cluster: nat): (a: u32)
    ensures a % FS_CLUSTER_SIZE == 0
  {
    (cluster * FS_CLUSTER_SIZE) % 0x1_0000_0000
  }

  /** Below 2^32 the address of a cluster is its offset in bytes, with no wrap-around. */
  lemma Cluster2AddrSmall(cluster: nat)
    requires 16 * cluster < 0x1_0000_0000
    ensures Cluster2Addr(cluster) == 16 * cluster
  {
    var x := cluster * FS_CLUSTER_SIZE;
    assert x == 16 * cluster;
    assert 0 <= x < 0x1_0000_0000;
  }

  // ------------------------------------------------------ byte images

  /** a uint32_t as it lies in memory on the little-endian target: low half first */
  function Le32(v: u32): (b: seq<byte>)
    ensures |b| == 4
  {
    StrCopy.LeBytes(v % 0x1_0000) + StrCopy.LeBytes(v / 0x1_0000)
  }

  function Le32Value(b: seq<byte>): u32
    requires |b| == 4
  {
    StrCopy.LeValue(b[0], b[1]) + StrCopy.LeValue(b[2], b[3]) * 0x1_0000
  }

  lemma Le32RoundTrip(v: u32)
    ensures Le32Value(Le32(v)) == v
  {
    StrCopy.U16RoundTrip(v % 0x1_0000);
    StrCopy.U16RoundTrip(v / 0x1_0000);
  }

  lemma Le32BytesRoundTrip(b: seq<byte>)
    requires |b| == 4
    ensures Le32(Le32Value(b)) == b
  {
    var lo, hi := StrCopy.LeValue(b[0], b[1]), StrCopy.LeValue(b[2], b[3]);
    assert Le32Value(b) % 0x1_0000 == lo && Le32Value(b) / 0x1_0000 == hi;
    StrCopy.U16BytesRoundTrip(b[0], b[1]);
    StrCopy.U16BytesRoundTrip(b[2], b[3]);
  }

  /** DIR_Entry_t */
  datatype DirEntry = DirEntry(name: seq<byte>, status: byte, size: u16, address: u32, crc: u32)

  predicate WellSized(e: DirEntry)
  {
    |e.name| == NAME_SIZE
  }

  function EncodeEntry(e: DirEntry): (b: seq<byte>)
    requires WellSized(e)
    ensures |b| == ENTRY_SIZE
  {
    e.name + [e.status] + StrCopy.LeBytes(e.size) + Le32(e.address) + Le32(e.crc)
  }

  function DecodeEntry(b: seq<byte>): (e: DirEntry)
    requires |b| == ENTRY_SIZE
    ensures WellSized(e)
  {
    DirEntry(b[..NAME_SIZE], b[8], StrCopy.LeValue(b[9], b[10]), Le32Value(b[11..15]),
      Le32Value(b[15..19]))
  }

  /** Reading back a stored entry gives the entry. */
  lemma EntryRoundTrip(e: DirEntry)
    requires WellSized(e)
    ensures DecodeEntry(EncodeEntry(e)) == e
  {
    var b := EncodeEntry(e);
    StrCopy.U16RoundTrip(e.size);
    Le32RoundTrip(e.address);
    Le32RoundTrip(e.crc);
    assert b[..NAME_SIZE] == e.name;
    assert b[11..15] == Le32(e.address);
    assert b[15..19] == Le32(e.crc);
  }

  /** ... and storing back what was read gives the bytes. */
  lemma EntryBytesRoundTrip(b: seq<byte>)
    requires |b| == ENTRY_SIZE
    ensures EncodeEntry(DecodeEntry(b)) == b
  {
    var e := DecodeEntry(b);
    StrCopy.U16BytesRoundTrip(b[9], b[10]);
    Le32BytesRoundTrip(b[11..15]);
    Le32BytesRoundTrip(b[15..19]);
    assert EncodeEntry(e) == b[..8] + [b[8]] + b[9..11] + b[11..15] + b[15..19];
  }

  // ------------------------------------------------------ names

  /** the name of the cluster-table file, always in entry 0 */
  const FAT_NAME: seq<byte> := [0x24, 0x24, 0x46, 0x41, 0x54, 0x24, 0x24]

  /**
   * strncpy(FileName, name, MAX_FILENAME_LEN) followed by FileName[MAX_FILENAME_LEN] = '\0': the
   * first seven characters of the C string, NUL-padded to the field.
   */
  function CutName(name: seq<byte>): (field: seq<byte>)
    ensures |field| == NAME_SIZE && field[MAX_FILENAME_LEN] == 0
    ensures CStr(field) == if StrLen(name) <= MAX_FILENAME_LEN then CStr(name)
                           else name[..MAX_FILENAME_LEN]
  {
    var w := if StrLen(name) <= MAX_FILENAME_LEN then CStr(name) else name[..MAX_FILENAME_LEN];
    StrLenOfTerminated(w, Zeros(NAME_SIZE - |w|));
    w + Zeros(NAME_SIZE - |w|)
  }

  /** strcmp(a, b) == 0 */
  predicate SameName(a: seq<byte>, b: seq<byte>)
  {
    CStr(a) == CStr(b)
  }
}
