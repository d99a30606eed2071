// The tiny-fs driver (Core/Src/tiny-fs/tiny-fs.c) on its one media, Media0 of
// Core/Src/app/startup.c:54-57: the FRAM of Nvmem with Read_FRAM and Write_FRAM. The driver's
// static state, the DTA scratch buffer and the handle slots (mutexes[]), lives in class TinyFs;
// an open file is a FileHandle that the caller owns.
//
// Each media call may fail on the SPI bus: the model lets every read and write fail, so that
// every FR_DISK_ERR path of the driver stays reachable, and contracts speak of what happens when
// the calls succeed. CRC32 is the unit of crc32_helpers.c and is not modelled: it is a function
// that the TinyFs object is given.

module TinyFsImage {
  import opened Common
  import opened TinyFsLayout
  import opened TinyFsClusters
  import Nvmem

  // ------------------------------------------------------ the media image

  /** getClusterTableSize(&Media0): 432 clusters of 16 bytes after the directory */
  const TABLE_SIZE: nat := 54
  /** getClusterFileSize(TABLE_SIZE): the "$$FAT$$" file takes four clusters */
  const TABLE_FILE_SIZE: nat := 64
  const TABLE_END: nat := CLUSTER_TABLE_OFFSET + TABLE_SIZE

  lemma Media0Geometry()
    ensures NumClusters(Nvmem.NVMEM_SIZE) == 432 && ClusterTableSize(Nvmem.NVMEM_SIZE) == TABLE_SIZE
    ensures TABLE_SIZE <= FS_DTA_SIZE && ClusterFileSize(TABLE_SIZE) == TABLE_FILE_SIZE
    ensures TABLE_END <= Nvmem.NVMEM_SIZE
  {
  }

  /** the FRAM's contents */
  predicate IsMedia(m: seq<byte>)
  {
    |m| == Nvmem.NVMEM_SIZE
  }

  /** the 19 bytes of directory entry i */
  function EntryBytes(m: seq<byte>, i: nat): (b: seq<byte>)
    requires IsMedia(m) && i < DIR_ENTRIES
    ensures |b| == ENTRY_SIZE
  {
    m[DirEntryOffset(i)..DirEntryOffset(i) + ENTRY_SIZE]
  }

  function EntryOf(m: seq<byte>, i: nat): (e: DirEntry)
    requires IsMedia(m) && i < DIR_ENTRIES
    ensures WellSized(e)
  {
    DecodeEntry(EntryBytes(m, i))
  }

  /** the FileName field of entry i, which findEntry reads */
  function NameAt(m: seq<byte>, i: nat): seq<byte>
    requires IsMedia(m) && i < DIR_ENTRIES
  {
    m[DirEntryOffset(i)..DirEntryOffset(i) + NAME_SIZE]
  }

  /** the FileStatus field of entry i, which FindFreeSlot reads */
  function StatusAt(m: seq<byte>, i: nat): byte
    requires IsMedia(m) && i < DIR_ENTRIES
  {
    m[DirEntryOffset(i) + NAME_SIZE]
  }

  /** The fields the searches read are those of the decoded entry. */
  lemma FieldsOfEntry(m: seq<byte>, i: nat)
    requires IsMedia(m) && i < DIR_ENTRIES
    ensures NameAt(m, i) == EntryOf(m, i).name && StatusAt(m, i) == EntryOf(m, i).status
  {
  }

  /** the media after data is written at addr: what Write_FRAM leaves when it succeeds */
  function Written(m: seq<byte>, addr: nat, data: seq<byte>): (r: seq<byte>)
    requires addr + |data| <= |m|
    ensures |r| == |m|
    ensures forall a :: 0 <= a < |m| ==> r[a] == if addr <= a < addr + |data| then data[a - addr] else m[a]
  {
    m[..addr] + data + m[addr + |data|..]
  }

  /**
   * What a Write_FRAM that returned ERROR leaves: nothing when the range lies outside the media,
   * otherwise the first k bytes of data written for some k (all of them when only the closing WRDI
   * failed).
   */
  ghost predicate PartlyWritten(m0: seq<byte>, m1: seq<byte>, addr: nat, data: seq<byte>)
  {
    if addr + |data| <= |m0| then exists k :: 0 <= k <= |data| && m1 == Written(m0, addr, data[..k])
    else m1 == m0
  }

  /** A failed write changes no byte outside the range it was given, and keeps the media's size. */
  lemma PartlyWrittenOutside(m0: seq<byte>, m1: seq<byte>, addr: nat, data: seq<byte>)
    requires PartlyWritten(m0, m1, addr, data)
    ensures |m1| == |m0|
    ensures forall a :: 0 <= a < |m0| && !(addr <= a < addr + |data|) ==> m1[a] == m0[a]
  {
    if addr + |data| <= |m0| {
      var k :| 0 <= k <= |data| && m1 == Written(m0, addr, data[..k]);
    }
  }

  /** A write that misses entry j leaves it as it is. */
  lemma WrittenKeepsEntry(m: seq<byte>, addr: nat, data: seq<byte>, j: nat)
    requires IsMedia(m) && addr + |data| <= |m| && j < DIR_ENTRIES
    requires addr + |data| <= DirEntryOffset(j) || DirEntryOffset(j) + ENTRY_SIZE <= addr
    ensures EntryBytes(Written(m, addr, data), j) == EntryBytes(m, j)
    ensures EntryOf(Written(m, addr, data), j) == EntryOf(m, j)
  {
    assert forall k :: 0 <= k < ENTRY_SIZE ==> EntryBytes(Written(m, addr, data), j)[k] == EntryBytes(m, j)[k];
  }

  /** entry i stored: the write of SaveDirEntry */
  function PutEntry(m: seq<byte>, i: nat, e: DirEntry): (r: seq<byte>)
    requires IsMedia(m) && i < DIR_ENTRIES && WellSized(e)
    ensures IsMedia(r)
  {
    Written(m, DirEntryOffset(i), EncodeEntry(e))
  }

  /** The stored entry reads back, and no other entry changes. */
  lemma PutEntryEntries(m: seq<byte>, i: nat, e: DirEntry, j: nat)
    requires IsMedia(m) && i < DIR_ENTRIES && WellSized(e) && j < DIR_ENTRIES
    ensures EntryOf(PutEntry(m, i, e), j) == if i == j then e else EntryOf(m, j)
    ensures EntryBytes(PutEntry(m, i, e), j) == if i == j then EncodeEntry(e) else EntryBytes(m, j)
  {
    if i == j {
      assert forall k :: 0 <= k < ENTRY_SIZE ==> EntryBytes(PutEntry(m, i, e), j)[k] == EncodeEntry(e)[k];
      EntryRoundTrip(e);
    } else if i < j {
      EntriesDisjoint(i, j);
      WrittenKeepsEntry(m, DirEntryOffset(i), EncodeEntry(e), j);
    } else {
      EntriesDisjoint(j, i);
      WrittenKeepsEntry(m, DirEntryOffset(i), EncodeEntry(e), j);
    }
  }

  /** the CRC chain of RenewDirCRC32 and f_checkFS over the first k entries */
  function DirCrc(crc32: (seq<byte>, u32) -> u32, m: seq<byte>, k: nat): u32
    requires IsMedia(m) && k <= DIR_ENTRIES
  {
    if k == 0 then 0 else crc32(EntryBytes(m, k - 1), DirCrc(crc32, m, k - 1))
  }

  /** The directory CRC depends on the directory entries alone. */
  lemma {:induction false} DirCrcOfEntries(crc32: (seq<byte>, u32) -> u32, m: seq<byte>, m': seq<byte>, k: nat)
    requires IsMedia(m) && IsMedia(m') && k <= DIR_ENTRIES
    requires forall j :: 0 <= j < k ==> EntryBytes(m, j) == EntryBytes(m', j)
    ensures DirCrc(crc32, m, k) == DirCrc(crc32, m', k)
  {
    if k > 0 {
      DirCrcOfEntries(crc32, m, m', k - 1);
    }
  }

  /** the header's DIR_CRC32 field */
  function HeaderCrc(m: seq<byte>): u32
    requires IsMedia(m)
  {
    Le32Value(m[DIR_CRC_FIELD..DIR_CRC_FIELD + 4])
  }

  /** the header with DIR_CRC32 set to c */
  function WithDirCrc(m: seq<byte>, c: u32): (r: seq<byte>)
    requires IsMedia(m)
    ensures IsMedia(r) && HeaderCrc(r) == c
  {
    var r := Written(m, DIR_CRC_FIELD, Le32(c));
    assert r[DIR_CRC_FIELD..DIR_CRC_FIELD + 4] == Le32(c);
    Le32RoundTrip(c);
    r
  }

  /** Setting the header CRC leaves the directory as it is, and so its CRC. */
  lemma WithDirCrcEntries(crc32: (seq<byte>, u32) -> u32, m: seq<byte>, c: u32)
    requires IsMedia(m)
    ensures forall j :: 0 <= j < DIR_ENTRIES ==> EntryBytes(WithDirCrc(m, c), j) == EntryBytes(m, j)
    ensures DirCrc(crc32, WithDirCrc(m, c), DIR_ENTRIES) == DirCrc(crc32, m, DIR_ENTRIES)
  {
    forall j | 0 <= j < DIR_ENTRIES
      ensures EntryBytes(WithDirCrc(m, c), j) == EntryBytes(m, j)
    {
      WrittenKeepsEntry(m, DIR_CRC_FIELD, Le32(c), j);
    }
    DirCrcOfEntries(crc32, WithDirCrc(m, c), m, DIR_ENTRIES);
  }

  /**
   * What SaveDirEntry leaves when it succeeds: entry i stored, then the header CRC renewed over
   * the new directory.
   */
  function StoreEntry(crc32: (seq<byte>, u32) -> u32, m: seq<byte>, i: nat, e: DirEntry): (r: seq<byte>)
    requires IsMedia(m) && i < DIR_ENTRIES && WellSized(e)
    ensures IsMedia(r)
  {
    var p := PutEntry(m, i, e);
    WithDirCrc(p, DirCrc(crc32, p, DIR_ENTRIES))
  }

  // ------------------------------------------------------ f_checkFS

  /**
   * f_checkFS's verdict on a media image it reads without error (tiny-fs.c:1446-1511): entry 0
   * must be the "$$FAT$$" file in state FStateFAT, and the header CRC must match the directory.
   */
  function CheckVerdict(crc32: (seq<byte>, u32) -> u32, m: seq<byte>): FResult
    requires IsMedia(m)
  {
    var e := EntryOf(m, 0);
    if CStr(e.name) != FAT_NAME || e.status != FStateFAT then FR_NO_FILE
    else if HeaderCrc(m) != DirCrc(crc32, m, DIR_ENTRIES) then FR_NO_FILESYSTEM
    else FR_OK
  }

  /**
   * A successful SaveDirEntry of any entry but 0 stores the entry, leaves the others, and leaves
   * a media that f_checkFS accepts as long as entry 0 is the "$$FAT$$" file.
   */
  lemma StoreEntryFacts(crc32: (seq<byte>, u32) -> u32, m: seq<byte>, i: nat, e: DirEntry, j: nat)
    requires IsMedia(m) && i < DIR_ENTRIES && WellSized(e) && j < DIR_ENTRIES
    ensures EntryOf(StoreEntry(crc32, m, i, e), j) == if i == j then e else EntryOf(m, j)
    ensures i != 0 && CheckVerdict(crc32, m) != FR_NO_FILE ==> CheckVerdict(crc32, StoreEntry(crc32, m, i, e)) == FR_OK
  {
    var p := PutEntry(m, i, e);
    WithDirCrcEntries(crc32, p, DirCrc(crc32, p, DIR_ENTRIES));
    PutEntryEntries(m, i, e, j);
    PutEntryEntries(m, i, e, 0);
    assert EntryOf(StoreEntry(crc32, m, i, e), j) == EntryOf(p, j);
    assert EntryOf(StoreEntry(crc32, m, i, e), 0) == EntryOf(p, 0);
  }

  // ------------------------------------------------------ the formatted media

  /** a directory entry cleared with memset */
  const ZERO_ENTRY: DirEntry := DirEntry(Zeros(NAME_SIZE), 0, 0, 0, 0)
  /** a free slot: what Format writes to every entry and DeleteFile to a deleted file's */
  const FREE_ENTRY: DirEntry := DirEntry(Zeros(NAME_SIZE), FStateNoFile, 0, 0, 0)

  /** the "$$FAT$$" entry Format writes to entry 0, with crc in its FileCRC32 field */
  function FatEntry(crc: u32): (e: DirEntry)
    ensures WellSized(e) && CStr(e.name) == FAT_NAME && e.status == FStateFAT
  {
    StrLenOfTerminated(FAT_NAME, [0]);
    DirEntry(FAT_NAME + [0], FStateFAT, TABLE_SIZE, CLUSTER_TABLE_OFFSET, crc)
  }

  /** the cluster table of a fresh media: the four clusters of "$$FAT$$" busy, the rest free */
  const FORMAT_TABLE: seq<byte> := [0x0F] + Zeros(TABLE_SIZE - 1)
  /** the FAT header Format writes (FS_version, DIR_CRC32 0, FAT_ClusterTableSize, dummy) */
  const FORMAT_HEADER: seq<byte> := Le32(FS_VERSION) + Le32(0) + Le32(TABLE_SIZE) + Zeros(4)

  /** Marking the "$$FAT$$" clusters in a cleared table sets the low four bits of byte 0. */
  lemma ToggleFirstFour(t: seq<bv8>)
    requires |t| >= 1 && t[0] == 0
    ensures Toggle(t, 0, 4) == t[0 := 0x0F]
  {
    assert Mask(1) == 2 && Mask(2) == 4 && Mask(3) == 8;
    assert Toggle(t, 0, 1) == t[0 := 1];
    assert Toggle(t, 0, 2) == t[0 := 3];
    assert Toggle(t, 0, 3) == t[0 := 7];
  }

  /** Format's loop over the directory: entries 0 .. k-1 set free */
  function FreedUpTo(m: seq<byte>, k: nat): (r: seq<byte>)
    requires IsMedia(m) && k <= DIR_ENTRIES
    ensures IsMedia(r)
  {
    if k == 0 then m else PutEntry(FreedUpTo(m, k - 1), k - 1, FREE_ENTRY)
  }

  lemma {:induction false} FreedUpToEntries(m: seq<byte>, k: nat, j: nat)
    requires IsMedia(m) && k <= DIR_ENTRIES && j < DIR_ENTRIES
    ensures EntryBytes(FreedUpTo(m, k), j) == if j < k then EncodeEntry(FREE_ENTRY) else EntryBytes(m, j)
  {
    if k > 0 {
      FreedUpToEntries(m, k - 1, j);
      PutEntryEntries(FreedUpTo(m, k - 1), k - 1, FREE_ENTRY, j);
    }
  }

  /**
   * The media after Format's writes and before the directory CRC is renewed (tiny-fs.c:171-305):
   * every entry freed, the "$$FAT$$" entry in entry 0, the cluster table, the table's CRC in
   * entry 0, and the header.
   */
  function FormatWrites(crc32: (seq<byte>, u32) -> u32, m: seq<byte>): (r: seq<byte>)
    requires IsMedia(m)
    ensures IsMedia(r)
  {
    var m1 := PutEntry(FreedUpTo(m, DIR_ENTRIES), 0, FatEntry(0));
    var m2 := Written(m1, CLUSTER_TABLE_OFFSET, FORMAT_TABLE);
    var m3 := Written(m2, DirEntryOffset(0) + CRC_FIELD, Le32(crc32(FORMAT_TABLE, 0)));
    Written(m3, 0, FORMAT_HEADER)
  }

  /** What Format leaves when it succeeds: its writes, then RenewDirCRC32 (tiny-fs.c:307-310). */
  function FormatImage(crc32: (seq<byte>, u32) -> u32, m: seq<byte>): (r: seq<byte>)
    requires IsMedia(m)
    ensures IsMedia(r)
  {
    var w := FormatWrites(crc32, m);
    WithDirCrc(w, DirCrc(crc32, w, DIR_ENTRIES))
  }

  /** Writing the CRC field of entry 0 stores that CRC in the entry. */
  lemma CrcFieldWrite(m: seq<byte>, e: DirEntry, c: u32)
    requires IsMedia(m) && WellSized(e) && EntryBytes(m, 0) == EncodeEntry(e)
    ensures EntryBytes(Written(m, DirEntryOffset(0) + CRC_FIELD, Le32(c)), 0) == EncodeEntry(e.(crc := c))
  {
    var r := Written(m, DirEntryOffset(0) + CRC_FIELD, Le32(c));
    assert EncodeEntry(e.(crc := c)) == EncodeEntry(e)[..CRC_FIELD] + Le32(c);
    assert forall k :: 0 <= k < ENTRY_SIZE ==> EntryBytes(r, 0)[k] == EncodeEntry(e.(crc := c))[k];
  }

  /** The directory of a freshly formatted media. */
  lemma FormatImageEntries(crc32: (seq<byte>, u32) -> u32, m: seq<byte>, j: nat)
    requires IsMedia(m) && j < DIR_ENTRIES
    ensures EntryOf(FormatImage(crc32, m), j) == if j == 0 then FatEntry(crc32(FORMAT_TABLE, 0)) else FREE_ENTRY
  {
    var m0 := FreedUpTo(m, DIR_ENTRIES);
    var m1 := PutEntry(m0, 0, FatEntry(0));
    var m2 := Written(m1, CLUSTER_TABLE_OFFSET, FORMAT_TABLE);
    var c := crc32(FORMAT_TABLE, 0);
    var m3 := Written(m2, DirEntryOffset(0) + CRC_FIELD, Le32(c));
    var m4 := FormatWrites(crc32, m);
    WithDirCrcEntries(crc32, m4, DirCrc(crc32, m4, DIR_ENTRIES));
    WrittenKeepsEntry(m3, 0, FORMAT_HEADER, j);
    WrittenKeepsEntry(m1, CLUSTER_TABLE_OFFSET, FORMAT_TABLE, j);
    PutEntryEntries(m0, 0, FatEntry(0), j);
    if j == 0 {
      CrcFieldWrite(m2, FatEntry(0), c);
      assert FatEntry(0).(crc := c) == FatEntry(c);
      EntryRoundTrip(FatEntry(c));
    } else {
      EntriesDisjoint(0, j);
      WrittenKeepsEntry(m2, DirEntryOffset(0) + CRC_FIELD, Le32(c), j);
      FreedUpToEntries(m, DIR_ENTRIES, j);
      EntryRoundTrip(FREE_ENTRY);
    }
  }

  /** Format's writes leave the cluster area past the table as it was. */
  lemma FormatWritesArea(crc32: (seq<byte>, u32) -> u32, m: seq<byte>)
    requires IsMedia(m)
    ensures FormatWrites(crc32, m)[CLUSTER_TABLE_OFFSET..TABLE_END] == FORMAT_TABLE
    ensures FormatWrites(crc32, m)[TABLE_END..] == m[TABLE_END..]
  {
    var m0 := FreedUpTo(m, DIR_ENTRIES);
    var m1 := PutEntry(m0, 0, FatEntry(0));
    var m2 := Written(m1, CLUSTER_TABLE_OFFSET, FORMAT_TABLE);
    var r := FormatWrites(crc32, m);
    assert forall a :: CLUSTER_TABLE_OFFSET <= a < |m| ==> r[a] == m2[a];
    assert forall a :: CLUSTER_TABLE_OFFSET <= a < TABLE_END ==> m2[a] == FORMAT_TABLE[a - CLUSTER_TABLE_OFFSET];
    assert forall a :: TABLE_END <= a < |m| ==> m2[a] == m0[a];
    assert forall k :: 0 <= k <= DIR_ENTRIES ==> FreedUpTo(m, k)[TABLE_END..] == m[TABLE_END..] by {
      forall k | 0 <= k <= DIR_ENTRIES
        ensures FreedUpTo(m, k)[TABLE_END..] == m[TABLE_END..]
      {
        FreedUpToArea(m, k);
      }
    }
  }

  lemma {:induction false} FreedUpToArea(m: seq<byte>, k: nat)
    requires IsMedia(m) && k <= DIR_ENTRIES
    ensures FreedUpTo(m, k)[CLUSTER_TABLE_OFFSET..] == m[CLUSTER_TABLE_OFFSET..]
  {
    if k > 0 {
      FreedUpToArea(m, k - 1);
      var p := FreedUpTo(m, k - 1);
      assert forall a :: CLUSTER_TABLE_OFFSET <= a < |m| ==> PutEntry(p, k - 1, FREE_ENTRY)[a] == p[a];
    }
  }

  /** A freshly formatted media holds the initial cluster table and passes f_checkFS. */
  lemma FormatImageChecks(crc32: (seq<byte>, u32) -> u32, m: seq<byte>)
    requires IsMedia(m)
    ensures FormatImage(crc32, m)[CLUSTER_TABLE_OFFSET..TABLE_END] == FORMAT_TABLE
    ensures FormatImage(crc32, m)[TABLE_END..] == m[TABLE_END..]
    ensures CheckVerdict(crc32, FormatImage(crc32, m)) == FR_OK
  {
    var w := FormatWrites(crc32, m);
    var c := DirCrc(crc32, w, DIR_ENTRIES);
    WrittenBeside(w, DIR_CRC_FIELD, Le32(c), CLUSTER_TABLE_OFFSET, TABLE_END);
    WrittenBeside(w, DIR_CRC_FIELD, Le32(c), TABLE_END, |w|);
    FormatWritesArea(crc32, m);
    FormatImageEntries(crc32, m, 0);
    WithDirCrcEntries(crc32, w, c);
  }

  /** Bytes lo to hi, clear of the write, keep their value. */
  lemma WrittenBeside(m: seq<byte>, addr: nat, data: seq<byte>, lo: nat, hi: nat)
    requires addr + |data| <= lo <= hi <= |m|
    ensures Written(m, addr, data)[lo..hi] == m[lo..hi]
    ensures hi == |m| ==> Written(m, addr, data)[lo..] == m[lo..]
  {
    assert Written(m, addr, data)[lo..hi] == m[lo..hi] by {
      assert forall a :: lo <= a < hi ==> Written(m, addr, data)[a] == m[a];
    }
  }

  // ------------------------------------------------------ directory searches

  /** strcmp(FileName of entry i, name) == 0 */
  predicate NamedAt(m: seq<byte>, i: nat, name: seq<byte>)
    requires IsMedia(m) && i < DIR_ENTRIES
  {
    SameName(NameAt(m, i), name)
  }

  /** which entries findEntry's comparison matches */
  function Matches(m: seq<byte>, name: seq<byte>): (b: seq<bool>)
    requires IsMedia(m)
    ensures |b| == DIR_ENTRIES && forall j :: 0 <= j < DIR_ENTRIES ==> b[j] == NamedAt(m, j, name)
  {
    seq(DIR_ENTRIES, j requires 0 <= j < DIR_ENTRIES => NamedAt(m, j, name))
  }

  /** the first true flag from i on, 0 when there is none */
  function FirstTrue(b: seq<bool>, i: nat): (r: nat)
    ensures r == 0 || i <= r < |b|
    decreases |b| - i
  {
    if i >= |b| then 0
    else if b[i] then i
    else FirstTrue(b, i + 1)
  }

  lemma {:induction false} FirstTrueIsFirst(b: seq<bool>, i: nat)
    requires i <= |b|
    ensures var r := FirstTrue(b, i);
      (r == 0 && forall j :: i <= j < |b| ==> !b[j])
      || (i <= r < |b| && b[r] && forall j :: i <= j < r ==> !b[j])
    decreases |b| - i
  {
    if i < |b| && !b[i] {
      FirstTrueIsFirst(b, i + 1);
    }
  }

  /**
   * findEntry's scan from entry i (tiny-fs.c:708-749): the index of the first entry whose name
   * equals name as C strings, 0 when there is none. Entry 0 is the "$$FAT$$" file, so a match
   * there reads as "absent" too.
   */
  function FirstNamed(m: seq<byte>, name: seq<byte>, i: nat): (r: nat)
    requires IsMedia(m)
    ensures r < DIR_ENTRIES
  {
    FirstTrue(Matches(m, name), i)
  }

  /** What findEntry finds: the first entry of that name, or 0 for none (or entry 0). */
  lemma FirstNamedIsFirst(m: seq<byte>, name: seq<byte>, i: nat)
    requires IsMedia(m) && i <= DIR_ENTRIES
    ensures var r := FirstNamed(m, name, i);
      (r == 0 && forall j :: i <= j < DIR_ENTRIES ==> !NamedAt(m, j, name))
      || (i <= r < DIR_ENTRIES && NamedAt(m, r, name)
          && forall j :: i <= j < r ==> !NamedAt(m, j, name))
  {
    FirstTrueIsFirst(Matches(m, name), i);
  }

  /**
   * FindFreeSlot's scan from entry i (tiny-fs.c:927-944): the first entry marked FStateNoFile,
   * UINT32_MAX when there is none.
   */
  function FirstFree(m: seq<byte>, i: nat): (r: nat)
    requires IsMedia(m)
    ensures r == UINT32_MAX || i <= r < DIR_ENTRIES
    decreases DIR_ENTRIES - i
  {
    if i >= DIR_ENTRIES then UINT32_MAX
    else if StatusAt(m, i) == FStateNoFile then i
    else FirstFree(m, i + 1)
  }

  lemma {:induction false} FirstFreeIsFirst(m: seq<byte>, i: nat)
    requires IsMedia(m) && i <= DIR_ENTRIES
    ensures var r := FirstFree(m, i);
      (r == UINT32_MAX && forall j :: i <= j < DIR_ENTRIES ==> StatusAt(m, j) != FStateNoFile)
      || (i <= r < DIR_ENTRIES && StatusAt(m, r) == FStateNoFile
          && forall j :: i <= j < r ==> StatusAt(m, j) != FStateNoFile)
    decreases DIR_ENTRIES - i
  {
    if i < DIR_ENTRIES && StatusAt(m, i) != FStateNoFile {
      FirstFreeIsFirst(m, i + 1);
    }
  }
}
