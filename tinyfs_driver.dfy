// The tiny-fs driver (Core/Src/tiny-fs/tiny-fs.c) on its one media, Media0 of
// Core/Src/app/startup.c: the FRAM of Nvmem, read with Read_FRAM and written with Write_FRAM.
// The driver's static state (the DTA scratch buffer and the handle slots mutexes[]) lives in
// class TinyFs; an open file is a FileHandle that its caller owns.
//
// Each media call may fail on the SPI bus. The model lets every read and write fail, so that
// every FR_DISK_ERR path of the driver stays reachable, and the contracts say what holds when
// the calls succeed. CRC32 (crc32_helpers.c) is a function the TinyFs object is given.

module TinyFsDriver {
  import opened Common
  import opened TinyFsLayout
  import opened TinyFsClusters
  import opened TinyFsImage
  import Nvmem
  import opened TinyFsFiles

  /** the bytes of a bv8 buffer */
  function ToBytes(t: seq<bv8>): (s: seq<byte>)
    ensures |s| == |t| && forall j :: 0 <= j < |t| ==> s[j] == t[j] as int
  {
    seq(|t|, j requires 0 <= j < |t| => t[j] as int)
  }

  /** bytes as the bv8 buffer the cluster functions work on */
  function FromBytes(s: seq<byte>): (t: seq<bv8>)
    ensures |t| == |s| && forall j :: 0 <= j < |s| ==> t[j] == s[j] as bv8
  {
    seq(|s|, j requires 0 <= j < |s| => s[j] as bv8)
  }

  lemma BytesBack(t: seq<bv8>)
    ensures FromBytes(ToBytes(t)) == t
  {
  }

  /** isFileValid (tiny-fs.c:1373-1396) on a handle: a media, and a name */
  function FileCheck(hasMedia: bool, name: seq<byte>): FResult
  {
    if !hasMedia then FR_INVALID_PARAMETER
    else if At(name, 0) == 0 then FR_NO_FILE
    else FR_OK
  }

  /** the FStateOpened* state of a mode */
  function OpenedState(mode: int): byte
  {
    if mode == FModeRead then FStateOpenedR else FStateOpenedW
  }

  /**
   * The DTA after NewFile's read of the cluster table (tiny-fs.c:370-385): entry 0's FileSize
   * bytes from its FileAddress over the front of the old DTA, when that read is inside the chip.
   */
  function LoadedDta(m: seq<byte>, d: seq<bv8>): (r: seq<bv8>)
    requires IsMedia(m)
    ensures |r| == |d|
  {
    var e := EntryOf(m, 0);
    if Nvmem.InChip(e.address, e.size) && e.size <= |d| then
      FromBytes(m[e.address..e.address + e.size]) + d[e.size..]
    else d
  }

  /** the cluster table as it lies on the media */
  function TableOf(m: seq<byte>): (t: seq<bv8>)
    requires IsMedia(m)
    ensures |t| == TABLE_SIZE
  {
    FromBytes(m[CLUSTER_TABLE_OFFSET..TABLE_END])
  }

  /**
   * A file NewFile created (tiny-fs.c:404-444, 480-485): in the first free slot from entry 1
   * (not the last one, which SaveDirEntry refuses), on the first free run of clusters for its
   * size in table, the table written back with that run busy, and its entry stored.
   */
  ghost predicate Created(crc32: (seq<byte>, u32) -> u32, m0: seq<byte>, table: seq<bv8>,
                          m1: seq<byte>, e: DirEntry)
    requires IsMedia(m0) && |table| == TABLE_SIZE
  {
    var idx := FirstFree(m0, 1);
    idx < DIR_ENTRIES - 1 && WellSized(e) && e.crc == 0
    && (exists s :: FirstFit(Clusters(table), ReqClusters(e.size), s)
         && e.address == CLUSTER_TABLE_OFFSET + Cluster2Addr(s)
         && m1 == StoreEntry(crc32, Written(m0, CLUSTER_TABLE_OFFSET,
                                            ToBytes(Toggle(table, s, ReqClusters(e.size)))), idx, e))
  }

  /**
   * What a successful NewFile leaves (tiny-fs.c:344-495): the file named key is either the
   * first entry of that name, which was closed and is now open in mode, or, when there is none,
   * a new file of size bytes created open in mode.
   */
  ghost predicate Opened(crc32: (seq<byte>, u32) -> u32, m0: seq<byte>, table: seq<bv8>,
                         m1: seq<byte>, e: DirEntry, key: seq<byte>, size: u16, mode: int)
    requires IsMedia(m0) && |table| == TABLE_SIZE
  {
    var found := FirstNamed(m0, key, 0);
    if found != 0 then
      EntryOf(m0, found).status == FStateClosed && e == EntryOf(m0, found).(status := OpenedState(mode))
      && found < DIR_ENTRIES - 1 && m1 == StoreEntry(crc32, m0, found, e)
    else
      Created(crc32, m0, table, m1, e) && e.name == key && e.size == size
      && e.status == OpenedState(mode)
  }

  /** fHandle_t: a file as its owner holds it */
  class FileHandle {
    /** media != NULL */
    var hasMedia: bool
    var fileDir: DirEntry
    var filePtr: u32
    /** pmutex: the handle slot the open file holds, None for NULL */
    var slot: Option<nat>

    ghost predicate Valid()
      reads this
    {
      WellSized(fileDir) && (slot.Some? ==> slot.value < FS_CONCURRENT_FILES)
    }

    /** a handle on the media (or on none) with every other field zero */
    constructor(hasMedia: bool)
      ensures Valid() && this.hasMedia == hasMedia
      ensures fileDir == ZERO_ENTRY && filePtr == 0 && slot == None
    {
      this.hasMedia := hasMedia;
      fileDir := ZERO_ENTRY;
      filePtr := 0;
      slot := None;
    }
  }

  class TinyFs {
    /** CRC32 of crc32_helpers.c: the CRC of some bytes continuing from a running value */
    const crc32: (seq<byte>, u32) -> u32
    /** the FRAM behind Media0 */
    const media: array<byte>
    /** DTA, the data transfer area: the driver's copy of the cluster table */
    const dta: array<bv8>
    /** mutexes[]: 1 for a handle slot in use */
    var mutexes: seq<u32>

    ghost predicate Valid()
      reads this
    {
      media.Length == Nvmem.NVMEM_SIZE && dta.Length == FS_DTA_SIZE
      && |mutexes| == FS_CONCURRENT_FILES
    }

    /** the driver's statics as the C start-up code leaves them: all zero */
    constructor(crc32: (seq<byte>, u32) -> u32, media: array<byte>)
      requires media.Length == Nvmem.NVMEM_SIZE
      ensures Valid() && this.crc32 == crc32 && this.media == media && fresh(dta)
      ensures mutexes == seq(FS_CONCURRENT_FILES, _ => 0) && dta[..] == seq(FS_DTA_SIZE, _ => 0)
    {
      this.crc32 := crc32;
      this.media := media;
      dta := new bv8[FS_DTA_SIZE](_ => 0);
      mutexes := seq(FS_CONCURRENT_FILES, _ => 0);
    }

    /** InitFS (tiny-fs.c:158-164): every handle slot free, the DTA cleared */
    method InitFS()
      requires Valid()
      modifies this, dta
      ensures Valid() && mutexes == seq(FS_CONCURRENT_FILES, _ => 0)
      ensures dta[..] == seq(FS_DTA_SIZE, _ => 0)
    {
      mutexes := seq(FS_CONCURRENT_FILES, _ => 0);
      ClearDta(FS_DTA_SIZE);
    }

    /** memset(DTA, 0, n) */
    method ClearDta(n: nat)
      requires Valid() && n <= FS_DTA_SIZE
      modifies dta
      ensures dta[..] == seq(n, _ => 0) + old(dta[n..])
    {
      var k := 0;
      while k < n
        invariant k <= n
        invariant forall j :: 0 <= j < k ==> dta[j] == 0
        invariant forall j :: k <= j < FS_DTA_SIZE ==> dta[j] == old(dta[j])
      {
        dta[k] := 0;
        k := k + 1;
      }
      assert forall j :: 0 <= j < FS_DTA_SIZE ==> dta[..][j] == (seq(n, _ => 0) + old(dta[n..]))[j];
    }

    // ---------------------------------------------------- the media calls

    /** Media0.readFunc: Read_FRAM of len bytes, which the SPI bus may fail */
    method Read(addr: nat, len: nat) returns (r: Option<seq<byte>>)
      requires Valid()
      ensures r.Some? ==> Nvmem.InChip(addr, len) && r.value == media[addr..addr + len]
      ensures !Nvmem.InChip(addr, len) ==> r.None?
    {
      var buf := new byte[len];
      var io: bool :| true;
      var ok := Nvmem.ReadFram(media, buf, 0, addr, len, io);
      if ok {
        r := Some(buf[..]);
      } else {
        r := None;
      }
    }

    /**
     * Media0.writeFunc: Write_FRAM, whose SPI transfers may fail before, during or after the data,
     * so that a failure can leave any prefix of the data written
     */
    method Write(addr: nat, data: seq<byte>) returns (ok: bool)
      requires Valid()
      modifies media
      ensures ok ==> Nvmem.InChip(addr, |data|) && media[..] == Written(old(media[..]), addr, data)
      ensures !ok ==> PartlyWritten(old(media[..]), media[..], addr, data)
      ensures !Nvmem.InChip(addr, |data|) ==> !ok
    {
      var io: Nvmem.SpiWrite :| true;
      ghost var m := media[..];
      ok := Nvmem.WriteFram(media, data, addr, io);
      if Nvmem.InChip(addr, |data|) {
        var n := Nvmem.Landed(io, |data|);
        assert media[..] == Written(m, addr, data[..n]);
        assert ok ==> data[..n] == data;
      } else if addr + |data| <= media.Length {
        assert |data| == 0 && media[..] == Written(m, addr, data[..0]);
      }
    }

    /** readFunc into the first len bytes of the DTA */
    method ReadToDta(addr: nat, len: nat) returns (ok: bool)
      requires Valid() && len <= FS_DTA_SIZE
      modifies dta
      ensures ok ==> Nvmem.InChip(addr, len)
                     && dta[..] == FromBytes(media[addr..addr + len]) + old(dta[len..])
      ensures !ok ==> dta[..] == old(dta[..])
    {
      var r := Read(addr, len);
      if r.None? {
        return false;
      }
      var k := 0;
      while k < len
        invariant k <= len
        invariant forall j :: 0 <= j < k ==> dta[j] == r.value[j] as bv8
        invariant forall j :: k <= j < FS_DTA_SIZE ==> dta[j] == old(dta[j])
      {
        dta[k] := r.value[k] as bv8;
        k := k + 1;
      }
      assert forall j :: 0 <= j < FS_DTA_SIZE ==>
        dta[..][j] == (FromBytes(media[addr..addr + len]) + old(dta[len..]))[j];
      return true;
    }

    // ---------------------------------------------------- the directory

    /**
     * findEntry (tiny-fs.c:708-749): the first entry whose FileName equals name as a C string,
     * 0 when there is none; UINT32_MAX when a read fails.
     */
    method FindEntry(name: seq<byte>) returns (r: u32)
      requires Valid()
      ensures r == UINT32_MAX || r == FirstNamed(media[..], name, 0)
    {
      ghost var m := media[..];
      var i := 0;
      while i < DIR_ENTRIES
        invariant i <= DIR_ENTRIES
        invariant FirstNamed(m, name, 0) == FirstNamed(m, name, i)
      {
        var field := Read(DirEntryOffset(i), NAME_SIZE);
        if field.None? {
          return UINT32_MAX;
        }
        assert field.value == NameAt(m, i);
        if SameName(field.value, name) {
          return i;
        }
        i := i + 1;
      }
      return 0;
    }

    /**
     * FindFreeSlot (tiny-fs.c:927-944): the first entry from 1 on in state FStateNoFile;
     * UINT32_MAX when there is none or a read fails.
     */
    method FindFreeSlot() returns (r: u32)
      requires Valid()
      ensures r == UINT32_MAX || r == FirstFree(media[..], 1)
    {
      ghost var m := media[..];
      var i := 1;
      while i < DIR_ENTRIES
        invariant 1 <= i <= DIR_ENTRIES
        invariant FirstFree(m, 1) == FirstFree(m, i)
      {
        var e := Read(DirEntryOffset(i), ENTRY_SIZE);
        if e.None? {
          return UINT32_MAX;
        }
        assert e.value[NAME_SIZE] == StatusAt(m, i);
        if e.value[NAME_SIZE] == FStateNoFile {
          return i;
        }
        i := i + 1;
      }
      return UINT32_MAX;
    }

    /**
     * RenewDirCRC32 (tiny-fs.c:981-1015): the CRC chain over the 64 entries stored in the
     * header's DIR_CRC32 field and returned; UINT32_MAX when a media call fails, which a CRC of
     * 0xFFFFFFFF cannot be told apart from.
     */
    method RenewDirCrc() returns (r: u32)
      requires Valid()
      modifies media
      ensures r != UINT32_MAX ==> r == DirCrc(crc32, old(media[..]), DIR_ENTRIES)
      ensures forall a :: 0 <= a < media.Length && !(DIR_CRC_FIELD <= a < DIR_CRC_FIELD + 4) ==> media[a] == old(media[a])
      ensures r != UINT32_MAX ==> media[..] == WithDirCrc(old(media[..]), r)
    {
      ghost var m := media[..];
      var crc: u32 := 0;
      var i := 0;
      while i < DIR_ENTRIES
        invariant i <= DIR_ENTRIES
        invariant crc == DirCrc(crc32, m, i)
        modifies {}
      {
        var e := Read(DirEntryOffset(i), ENTRY_SIZE);
        if e.None? {
          return UINT32_MAX;
        }
        assert e.value == EntryBytes(m, i);
        crc := crc32(e.value, crc);
        i := i + 1;
      }
      var ok := PutDirCrc(crc);
      r := if ok then crc else UINT32_MAX;
    }

    /** The header read back and rewritten with crc in its DIR_CRC32 field. */
    method PutDirCrc(crc: u32) returns (ok: bool)
      requires Valid()
      modifies media
      ensures forall a :: 0 <= a < media.Length && !(DIR_CRC_FIELD <= a < DIR_CRC_FIELD + 4) ==> media[a] == old(media[a])
      ensures ok ==> media[..] == WithDirCrc(old(media[..]), crc)
    {
      ghost var m := media[..];
      var h := Read(0, HEADER_SIZE);
      if h.None? {
        return false;
      }
      var header := h.value[..DIR_CRC_FIELD] + Le32(crc) + h.value[DIR_CRC_FIELD + 4..];
      assert h.value == m[..HEADER_SIZE];
      ok := Write(0, header);
      if ok {
        assert forall a :: 0 <= a < |m| ==> media[..][a] == WithDirCrc(m, crc)[a];
      } else {
        PartlyWrittenOutside(m, media[..], 0, header);
      }
    }

    /**
     * SaveDirEntry (tiny-fs.c:953-974): entry e stored at index idx and the directory CRC
     * renewed; idx back on success, UINT32_MAX otherwise. Indices from DIR_ENTRIES - 1 on are
     * refused, the last slot included.
     */
    method SaveDirEntry(idx: u32, e: DirEntry) returns (r: u32)
      requires Valid() && WellSized(e)
      modifies media
      ensures r == idx || r == UINT32_MAX
      ensures idx >= DIR_ENTRIES - 1 ==> r == UINT32_MAX && media[..] == old(media[..])
      ensures r != UINT32_MAX ==> idx < DIR_ENTRIES - 1 && media[..] == StoreEntry(crc32, old(media[..]), idx, e)
    {
      if idx >= DIR_ENTRIES - 1 {
        return UINT32_MAX;
      }
      var ok := Write(DirEntryOffset(idx), EncodeEntry(e));
      if !ok {
        return UINT32_MAX;
      }
      var crc := RenewDirCrc();
      r := if crc != UINT32_MAX then idx else UINT32_MAX;
    }

    // ---------------------------------------------------- Format

    /**
     * Format (tiny-fs.c:171-321): frees every directory entry, writes the "$$FAT$$" entry and
     * the cluster table with its four clusters busy, the table's CRC and the header, and renews
     * the directory CRC. The DTA serves as the scratch buffer for the table and the header.
     * SUCCESS only when every write and the CRC renewal succeed.
     */
    method Format(hasMedia: bool) returns (st: Status)
      requires Valid()
      modifies media, dta
      ensures !hasMedia ==> st == ERROR && media[..] == old(media[..])
      ensures st == SUCCESS ==> media[..] == FormatImage(crc32, old(media[..]))
    {
      if !hasMedia {
        return ERROR;
      }
      ghost var m := media[..];
      var ok := FreeDirectory();
      if !ok {
        return ERROR;
      }
      ok := Write(DirEntryOffset(0), EncodeEntry(FatEntry(0)));
      if !ok {
        return ERROR;
      }
      ok := WriteInitialTable();
      if !ok {
        return ERROR;
      }
      // the header is written from the DTA, whose dummy word still holds table bytes 12 .. 15
      var header := Le32(FS_VERSION) + Le32(0) + Le32(TABLE_SIZE) + ToBytes(dta[12..HEADER_SIZE]);
      ok := Write(0, header);
      var dirCrc := RenewDirCrc();
      st := if ok && dirCrc != UINT32_MAX then SUCCESS else ERROR;
    }

    /** Format's loop over the directory (tiny-fs.c:191-213): every entry written free */
    method FreeDirectory() returns (ok: bool)
      requires Valid()
      modifies media
      ensures ok ==> media[..] == FreedUpTo(old(media[..]), DIR_ENTRIES)
    {
      ghost var m := media[..];
      var free := EncodeEntry(FREE_ENTRY);
      var i := 0;
      while i < DIR_ENTRIES
        invariant i <= DIR_ENTRIES
        invariant media[..] == FreedUpTo(m, i)
      {
        ok := Write(DirEntryOffset(i), free);
        if !ok {
          return false;
        }
        i := i + 1;
      }
      return true;
    }

    /**
     * Format's cluster table (tiny-fs.c:245-292): the cleared table with the "$$FAT$$" clusters
     * allocated, written to the media, and its CRC written to entry 0. The DTA keeps the table.
     */
    method WriteInitialTable() returns (ok: bool)
      requires Valid()
      modifies media, dta
      ensures ToBytes(dta[12..HEADER_SIZE]) == Zeros(4)
      ensures ok ==> media[..] == Written(Written(old(media[..]), CLUSTER_TABLE_OFFSET, FORMAT_TABLE),
                                         DirEntryOffset(0) + CRC_FIELD, Le32(crc32(FORMAT_TABLE, 0)))
    {
      // TABLE_SIZE <= FS_DTA_SIZE, so the size check of tiny-fs.c:245 never truncates
      ClearDta(TABLE_SIZE);
      ghost var cleared := dta[..];
      var offset := AllocateClusters(dta, TABLE_SIZE, TABLE_FILE_SIZE);
      // the table is empty, so the "$$FAT$$" clusters start at 0 (the check of tiny-fs.c:263)
      FormatAllocation(cleared, dta[..], offset);
      ok := Write(CLUSTER_TABLE_OFFSET, ToBytes(dta[..TABLE_SIZE]));
      if !ok {
        return false;
      }
      var tableCrc := crc32(ToBytes(dta[..TABLE_SIZE]), 0);
      ok := Write(DirEntryOffset(0) + CRC_FIELD, Le32(tableCrc));
    }

    // ---------------------------------------------------- NewFile

    /**
     * NewFile (tiny-fs.c:344-495): opens the file name in mode, creating it with room for size
     * bytes when the directory has none of that name. It holds a handle slot while open.
     * FR_INVALID_PARAMETER for a handle without media, no name or another mode;
     * FR_TOO_MANY_OPEN_FILES when every slot is taken; FR_LOCKED when the file is not closed;
     * FR_DISK_ERR for a failed media call or a full media. A failed call gives its slot back.
     */
    method NewFile(fp: FileHandle, name: Option<seq<byte>>, size: u32, mode: int) returns (res: FResult)
      requires Valid() && fp.Valid() && EntryOf(media[..], 0).size <= FS_DTA_SIZE
      modifies this, media, dta, fp
      ensures Valid() && fp.Valid() && fp.hasMedia == old(fp.hasMedia)
      ensures res == FR_INVALID_PARAMETER <==>
                !old(fp.hasMedia) || name.None? || (mode != FModeRead && mode != FModeWrite)
      ensures res == FR_INVALID_PARAMETER ==> media[..] == old(media[..]) && fp.fileDir == old(fp.fileDir)
      ensures res != FR_INVALID_PARAMETER ==>
                (res == FR_TOO_MANY_OPEN_FILES <==> 0 !in old(mutexes))
      ensures res == FR_TOO_MANY_OPEN_FILES ==>
                media[..] == old(media[..]) && dta[..] == old(dta[..])
                && fp.fileDir == old(fp.fileDir) && fp.filePtr == old(fp.filePtr)
      ensures res != FR_OK ==> mutexes == old(mutexes) && fp.slot == old(fp.slot)
      ensures res == FR_OK ==>
                fp.slot.Some? && old(mutexes)[fp.slot.value] == 0
                && mutexes == old(mutexes)[fp.slot.value := 1] && fp.filePtr == 0
                && Opened(crc32, old(media[..]), LoadedDta(old(media[..]), old(dta[..]))[..TABLE_SIZE],
                          media[..], fp.fileDir, CutName(name.value), size % 0x1_0000, mode)
      ensures res == FR_LOCKED ==>
                name.Some? && media[..] == old(media[..])
                && var found := FirstNamed(old(media[..]), CutName(name.value), 0);
                   found != 0 && EntryOf(old(media[..]), found).status != FStateClosed
                   && fp.fileDir == EntryOf(old(media[..]), found)
    {
      if !fp.hasMedia || name.None? || (mode != FModeRead && mode != FModeWrite) {
        return FR_INVALID_PARAMETER;
      }
      var i := TakeSlot();
      if i == FS_CONCURRENT_FILES {
        // no slot was taken, so none is given back (see SlotReleaseAsWritten)
        return FR_TOO_MANY_OPEN_FILES;
      }
      ghost var m0, d0 := media[..], dta[..];
      assert m0 == old(media[..]) && d0 == old(dta[..]);
      res := OpenInSlot(fp, CutName(name.value), size % 0x1_0000, mode);
      ExitSlot(fp, i, res == FR_OK);
    }

    /**
     * NewFile's exit (tiny-fs.c:487-492) once it holds slot i: an opened file keeps the slot
     * in its handle, a failed open gives it back.
     */
    method ExitSlot(fp: FileHandle, i: nat, keep: bool)
      requires Valid() && fp.Valid() && i < FS_CONCURRENT_FILES
      modifies this, fp
      ensures Valid() && fp.Valid() && media[..] == old(media[..]) && dta[..] == old(dta[..])
      ensures fp.hasMedia == old(fp.hasMedia) && fp.fileDir == old(fp.fileDir)
              && fp.filePtr == old(fp.filePtr)
      ensures keep ==> mutexes == old(mutexes) && fp.slot == Some(i)
      ensures !keep ==> mutexes == old(mutexes)[i := 0] && fp.slot == old(fp.slot)
    {
      if keep {
        fp.slot := Some(i);
      } else {
        mutexes := mutexes[i := 0];
      }
    }

    /** NewFile's slot loop (tiny-fs.c:356-369): the first free slot taken, or none when all are */
    method TakeSlot() returns (i: nat)
      requires Valid()
      modifies this
      ensures Valid() && i <= FS_CONCURRENT_FILES
      ensures i < FS_CONCURRENT_FILES ==>
                old(mutexes)[i] == 0 && mutexes == old(mutexes)[i := 1] && 0 !in old(mutexes)[..i]
      ensures i == FS_CONCURRENT_FILES ==> mutexes == old(mutexes) && 0 !in mutexes
    {
      i := 0;
      while i < FS_CONCURRENT_FILES
        invariant i <= FS_CONCURRENT_FILES && mutexes == old(mutexes)
        invariant 0 !in mutexes[..i]
      {
        if mutexes[i] == 0 {
          mutexes := mutexes[i := 1];
          return;
        }
        i := i + 1;
      }
    }

    /**
     * The body of NewFile once it holds a slot (tiny-fs.c:370-486): the cluster table read into
     * the DTA, the handle named key with FileSize size, then the file created or reopened and its
     * entry saved.
     */
    method OpenInSlot(fp: FileHandle, key: seq<byte>, size: u16, mode: int) returns (res: FResult)
      requires Valid() && fp.Valid() && |key| == NAME_SIZE && (mode == FModeRead || mode == FModeWrite)
      requires EntryOf(media[..], 0).size <= FS_DTA_SIZE
      modifies media, dta, fp
      ensures fp.Valid() && fp.slot == old(fp.slot) && fp.hasMedia == old(fp.hasMedia)
      ensures res == FR_OK || res == FR_DISK_ERR || res == FR_LOCKED
      ensures res == FR_OK ==>
                fp.filePtr == 0
                && Opened(crc32, old(media[..]), LoadedDta(old(media[..]), old(dta[..]))[..TABLE_SIZE],
                          media[..], fp.fileDir, key, size, mode)
      ensures res == FR_LOCKED ==>
                media[..] == old(media[..])
                && var found := FirstNamed(old(media[..]), key, 0);
                   found != 0 && EntryOf(old(media[..]), found).status != FStateClosed
                   && fp.fileDir == EntryOf(old(media[..]), found)
    {
      ghost var m0 := media[..];
      var ok := LoadTable();
      if !ok {
        return FR_DISK_ERR;
      }
      ghost var table := dta[..TABLE_SIZE];
      fp.fileDir := fp.fileDir.(name := key, size := size);
      var idx := FindEntry(key);
      if idx == UINT32_MAX {
        return FR_DISK_ERR;
      }
      if idx == 0 {
        idx := CreateEntry(fp, mode);
        if idx == UINT32_MAX {
          return FR_DISK_ERR;
        }
      } else {
        res := OpenExisting(fp, idx, mode);
        if res != FR_OK {
          return res;
        }
      }
      ghost var m1 := media[..];
      var saved := SaveDirEntry(idx, fp.fileDir);
      res := if saved == idx then FR_OK else FR_DISK_ERR;
    }

    /**
     * NewFile's read of the cluster table (tiny-fs.c:370-385): entry 0, then its FileSize bytes
     * from its FileAddress into the DTA.
     */
    method LoadTable() returns (ok: bool)
      requires Valid() && EntryOf(media[..], 0).size <= FS_DTA_SIZE
      modifies dta
      ensures ok ==> dta[..] == LoadedDta(media[..], old(dta[..]))
    {
      var e := Read(DirEntryOffset(0), ENTRY_SIZE);
      if e.None? {
        return false;
      }
      assert e.value == EntryBytes(media[..], 0);
      var entry0 := DecodeEntry(e.value);
      ok := ReadToDta(entry0.address, entry0.size);
    }

    /**
     * NewFile's creation of a missing file (tiny-fs.c:404-444): a free slot from entry 1, the
     * first free run of clusters for the handle's FileSize in the DTA's table, the table written
     * back; then the handle gets the run's address, a zero CRC and pointer, and the opened state.
     * Returns the slot, or UINT32_MAX when a media call fails or there is no slot or no room.
     */
    method CreateEntry(fp: FileHandle, mode: int) returns (idx: u32)
      requires Valid() && fp.Valid()
      modifies media, dta, fp
      ensures fp.Valid() && fp.slot == old(fp.slot) && fp.hasMedia == old(fp.hasMedia)
      ensures idx != UINT32_MAX ==>
                idx == FirstFree(old(media[..]), 1) && fp.filePtr == 0
                && fp.fileDir == old(fp.fileDir).(address := fp.fileDir.address, crc := 0,
                                                  status := OpenedState(mode))
                && (exists s :: FirstFit(Clusters(old(dta[..TABLE_SIZE])), ReqClusters(fp.fileDir.size), s)
                     && fp.fileDir.address == CLUSTER_TABLE_OFFSET + Cluster2Addr(s)
                     && media[..] == Written(old(media[..]), CLUSTER_TABLE_OFFSET,
                          ToBytes(Toggle(old(dta[..TABLE_SIZE]), s, ReqClusters(fp.fileDir.size)))))
    {
      var slot := FindFreeSlot();
      if slot == UINT32_MAX {
        return UINT32_MAX;
      }
      var offset := AllocateRun(fp.fileDir.size);
      if offset == UINT32_MAX {
        return UINT32_MAX;
      }
      fp.fileDir := fp.fileDir.(address := offset, crc := 0, status := OpenedState(mode));
      fp.filePtr := 0;
      return slot;
    }

    /**
     * NewFile's allocation (tiny-fs.c:411-436): the first free run for size bytes marked in the
     * DTA's table, and the table written back; returns the run's media address, or UINT32_MAX
     * when there is no room or the write fails.
     */
    method AllocateRun(size: u16) returns (addr: u32)
      requires Valid()
      modifies media, dta
      ensures addr != UINT32_MAX ==>
                exists s :: FirstFit(Clusters(old(dta[..TABLE_SIZE])), ReqClusters(size), s)
                  && addr == CLUSTER_TABLE_OFFSET + Cluster2Addr(s)
                  && media[..] == Written(old(media[..]), CLUSTER_TABLE_OFFSET,
                       ToBytes(Toggle(old(dta[..TABLE_SIZE]), s, ReqClusters(size))))
    {
      ghost var t0 := dta[..];
      var n := ReqClusters(size);
      var offset := AllocateClusters(dta, TABLE_SIZE, size);
      if offset == UINT32_MAX {
        return UINT32_MAX;
      }
      ghost var s: nat :| FirstFit(Clusters(t0[..TABLE_SIZE]), n, s) && offset == Cluster2Addr(s)
                          && dta[..] == Toggle(t0, s, n);
      AllocatedPrefix(t0, s, n);
      var ok := Write(CLUSTER_TABLE_OFFSET, ToBytes(dta[..TABLE_SIZE]));
      if !ok {
        return UINT32_MAX;
      }
      return offset + CLUSTER_TABLE_OFFSET;
    }

    /**
     * NewFile's reopening of an existing file (tiny-fs.c:453-479): its entry read into the
     * handle; FR_LOCKED unless it is closed, else the handle opened in mode at position 0.
     */
    method OpenExisting(fp: FileHandle, idx: u32, mode: int) returns (res: FResult)
      requires Valid() && fp.Valid() && 0 < idx < DIR_ENTRIES
      modifies fp
      ensures fp.Valid() && fp.slot == old(fp.slot) && fp.hasMedia == old(fp.hasMedia)
      ensures res == FR_OK || res == FR_DISK_ERR || res == FR_LOCKED
      ensures res == FR_LOCKED ==>
                EntryOf(media[..], idx).status != FStateClosed && fp.fileDir == EntryOf(media[..], idx)
      ensures res == FR_OK ==>
                EntryOf(media[..], idx).status == FStateClosed && fp.filePtr == 0
                && fp.fileDir == EntryOf(media[..], idx).(status := OpenedState(mode))
    {
      var e := Read(DirEntryOffset(idx), ENTRY_SIZE);
      if e.None? {
        return FR_DISK_ERR;
      }
      assert e.value == EntryBytes(media[..], idx);
      fp.fileDir := DecodeEntry(e.value);
      if fp.fileDir.status != FStateClosed {
        return FR_LOCKED;
      }
      fp.fileDir := fp.fileDir.(status := OpenedState(mode));
      fp.filePtr := 0;
      return FR_OK;
    }

    // ---------------------------------------------------- CloseFile

    /**
     * CloseFile (tiny-fs.c:514-565): the first entry of the handle's name, which must be open
     * in the handle's state on the media too, stored closed; the handle then holds no file and
     * its slot is given back. FR_NO_FILE when there is no such entry (or the lookup fails),
     * FR_LOCKED when the handle is not open, FR_DENIED when the media disagrees about how.
     * A failed save leaves the handle marked closed but still holding its slot.
     */
    method CloseFile(fp: FileHandle) returns (res: FResult)
      requires Valid() && fp.Valid()
      modifies this, media, fp
      ensures Valid() && fp.Valid() && fp.hasMedia == old(fp.hasMedia) && fp.filePtr == old(fp.filePtr)
      ensures res in {FR_OK, FR_DISK_ERR, FR_DENIED, FR_LOCKED, FR_NO_FILE, FR_INVALID_PARAMETER}
      ensures res == FR_INVALID_PARAMETER ==> !fp.hasMedia
      ensures FileCheck(old(fp.hasMedia), old(fp.fileDir.name)) != FR_OK ==>
                res == FileCheck(old(fp.hasMedia), old(fp.fileDir.name))
      ensures (FileCheck(old(fp.hasMedia), old(fp.fileDir.name)) == FR_OK
               && FirstNamed(old(media[..]), old(fp.fileDir.name), 0) == 0) ==> res == FR_NO_FILE
      ensures res == FR_LOCKED ==>
                old(fp.fileDir.status) != FStateOpenedR && old(fp.fileDir.status) != FStateOpenedW
      ensures res == FR_DENIED ==>
                var idx := FirstNamed(old(media[..]), old(fp.fileDir.name), 0);
                idx != 0 && EntryOf(old(media[..]), idx).status != old(fp.fileDir.status)
      ensures res != FR_OK && res != FR_DISK_ERR ==>
                media[..] == old(media[..]) && fp.fileDir == old(fp.fileDir)
      ensures res == FR_DISK_ERR ==>
                fp.fileDir == old(fp.fileDir) || fp.fileDir == old(fp.fileDir).(status := FStateClosed)
      ensures res != FR_OK ==> mutexes == old(mutexes) && fp.slot == old(fp.slot)
      ensures res == FR_OK ==>
                var idx := FirstNamed(old(media[..]), old(fp.fileDir.name), 0);
                0 < idx < DIR_ENTRIES - 1
                && (old(fp.fileDir.status) == FStateOpenedR || old(fp.fileDir.status) == FStateOpenedW)
                && EntryOf(old(media[..]), idx).status == old(fp.fileDir.status)
                && media[..] == StoreEntry(crc32, old(media[..]), idx, old(fp.fileDir).(status := FStateClosed))
                && fp.fileDir == old(fp.fileDir).(status := FStateNoFile) && fp.slot == None
                && mutexes == Released(old(mutexes), old(fp.slot))
    {
      var check := FileCheck(fp.hasMedia, fp.fileDir.name);
      if check != FR_OK {
        return check;
      }
      var idx := FindEntry(fp.fileDir.name);
      if idx == 0 || idx == UINT32_MAX {
        return FR_NO_FILE;
      }
      res := CloseEntry(fp, idx);
    }

    /**
     * CloseFile once findEntry has found the handle's file at idx (tiny-fs.c:531-561): FR_LOCKED
     * unless the handle is open, then the media updated, and on success the handle emptied and
     * its slot given back.
     */
    method CloseEntry(fp: FileHandle, idx: u32) returns (res: FResult)
      requires Valid() && fp.Valid() && 0 < idx < DIR_ENTRIES
      modifies this, media, fp
      ensures Valid() && fp.Valid() && fp.hasMedia == old(fp.hasMedia) && fp.filePtr == old(fp.filePtr)
      ensures res == FR_OK || res == FR_DISK_ERR || res == FR_DENIED || res == FR_LOCKED
      ensures res == FR_LOCKED <==>
                old(fp.fileDir.status) != FStateOpenedR && old(fp.fileDir.status) != FStateOpenedW
      ensures res == FR_DENIED ==> EntryOf(old(media[..]), idx).status != old(fp.fileDir.status)
      ensures res == FR_LOCKED || res == FR_DENIED ==> media[..] == old(media[..]) && fp.fileDir == old(fp.fileDir)
      ensures res == FR_DISK_ERR ==>
                fp.fileDir == old(fp.fileDir) || fp.fileDir == old(fp.fileDir).(status := FStateClosed)
      ensures res != FR_OK ==> mutexes == old(mutexes) && fp.slot == old(fp.slot)
      ensures res == FR_OK ==>
                idx < DIR_ENTRIES - 1 && EntryOf(old(media[..]), idx).status == old(fp.fileDir.status)
                && media[..] == StoreEntry(crc32, old(media[..]), idx, old(fp.fileDir).(status := FStateClosed))
                && fp.fileDir == old(fp.fileDir).(status := FStateNoFile) && fp.slot == None
                && mutexes == Released(old(mutexes), old(fp.slot))
    {
      if fp.fileDir.status != FStateOpenedR && fp.fileDir.status != FStateOpenedW {
        return FR_LOCKED;
      }
      res := StoreClosed(fp, idx);
      if res != FR_OK {
        return;
      }
      fp.fileDir := fp.fileDir.(status := FStateNoFile);
      mutexes := Released(mutexes, fp.slot);
      fp.slot := None;
    }

    /**
     * CloseFile's update of the media (tiny-fs.c:537-554): entry idx read back, FR_DENIED unless
     * its state is the handle's, then the handle marked closed and its entry saved.
     */
    method StoreClosed(fp: FileHandle, idx: u32) returns (res: FResult)
      requires Valid() && fp.Valid() && 0 < idx < DIR_ENTRIES
      modifies media, fp
      ensures fp.Valid() && fp.hasMedia == old(fp.hasMedia) && fp.filePtr == old(fp.filePtr)
              && fp.slot == old(fp.slot)
      ensures res == FR_OK || res == FR_DISK_ERR || res == FR_DENIED
      ensures res == FR_DENIED ==>
                EntryOf(old(media[..]), idx).status != old(fp.fileDir.status)
                && media[..] == old(media[..]) && fp.fileDir == old(fp.fileDir)
      ensures res != FR_DENIED ==>
                fp.fileDir == old(fp.fileDir) || fp.fileDir == old(fp.fileDir).(status := FStateClosed)
      ensures res == FR_OK ==>
                idx < DIR_ENTRIES - 1 && EntryOf(old(media[..]), idx).status == old(fp.fileDir.status)
                && fp.fileDir == old(fp.fileDir).(status := FStateClosed)
                && media[..] == StoreEntry(crc32, old(media[..]), idx, fp.fileDir)
    {
      var e := Read(DirEntryOffset(idx), ENTRY_SIZE);
      if e.None? {
        return FR_DISK_ERR;
      }
      assert e.value == EntryBytes(media[..], idx);
      if DecodeEntry(e.value).status != fp.fileDir.status {
        return FR_DENIED;
      }
      fp.fileDir := fp.fileDir.(status := FStateClosed);
      var saved := SaveDirEntry(idx, fp.fileDir);
      res := if saved == UINT32_MAX then FR_DISK_ERR else FR_OK;
    }

    // ---------------------------------------------------- DeleteFile

    /**
     * DeleteFile (tiny-fs.c:597-659): the first entry named by the first seven characters of
     * name loses its clusters in the table, which is written back, and is stored free. The
     * file's state is not looked at, so an open file is deleted too. FR_INVALID_PARAMETER
     * without media or name, FR_NO_FILE when there is no such entry (or the lookup fails),
     * FR_DISK_ERR for a failed media call or a range freeClusters refuses.
     */
    method DeleteFile(hasMedia: bool, name: Option<seq<byte>>) returns (res: FResult)
      requires Valid()
      modifies media, dta
      ensures res == FR_INVALID_PARAMETER <==> !hasMedia || name.None?
      ensures res == FR_INVALID_PARAMETER || res == FR_NO_FILE ==> media[..] == old(media[..])
      ensures hasMedia && name.Some? && FirstNamed(old(media[..]), CutName(name.value), 0) == 0 ==>
                res == FR_NO_FILE
      ensures res == FR_OK ==>
                var idx := FirstNamed(old(media[..]), CutName(name.value), 0);
                0 < idx < DIR_ENTRIES - 1 && DeletedImage(crc32, old(media[..]), idx) == Some(media[..])
    {
      if !hasMedia || name.None? {
        return FR_INVALID_PARAMETER;
      }
      ghost var m0 := media[..];
      var idx := FindEntry(CutName(name.value));
      if idx == UINT32_MAX || idx == 0 {
        return FR_NO_FILE;
      }
      var entry := Read(DirEntryOffset(idx), ENTRY_SIZE);
      if entry.None? {
        return FR_DISK_ERR;
      }
      assert entry.value == EntryBytes(m0, idx);
      var e := DecodeEntry(entry.value);
      var ok := ReadToDta(CLUSTER_TABLE_OFFSET, TABLE_SIZE);
      if !ok {
        return FR_DISK_ERR;
      }
      ghost var d0 := dta[..];
      assert d0 == TableOf(m0) + d0[TABLE_SIZE..];
      var st := FreeClusters(dta, TABLE_SIZE, e.address, e.size);
      if st == ERROR {
        return FR_DISK_ERR;
      }
      ghost var rr := ReleaseRange(TABLE_SIZE, e.address, e.size).value;
      TogglePrefix(TableOf(m0), d0[TABLE_SIZE..], rr.0, rr.1);
      assert dta[..TABLE_SIZE] == Toggle(TableOf(m0), rr.0, rr.1);
      ok := Write(CLUSTER_TABLE_OFFSET, ToBytes(dta[..TABLE_SIZE]));
      if !ok {
        return FR_DISK_ERR;
      }
      var saved := SaveDirEntry(idx, FREE_ENTRY);
      res := if saved == UINT32_MAX then FR_DISK_ERR else FR_OK;
    }

    // ---------------------------------------------------- f_read, f_write

    /**
     * f_read (tiny-fs.c:1245-1294) with the counts of ReadCount: up to btr bytes from the file
     * pointer, no further than FileSize, read into buff and the pointer moved past them.
     * FR_INVALID_PARAMETER without a buffer or a place for the count, or an invalid handle;
     * FR_DENIED unless the file is open for reading. A request of 0 bytes reads nothing; one at
     * the end of the file asks the media for 0 bytes, which Read_FRAM refuses as FR_DISK_ERR.
     */
    method FRead(fp: FileHandle, buff: array?<byte>, btr: u32, hasBr: bool) returns (res: FResult, br: u32)
      requires Valid() && fp.Valid()
      requires buff != null ==> buff != media && btr <= buff.Length
      modifies fp, buff
      ensures fp.Valid() && fp.hasMedia == old(fp.hasMedia) && fp.fileDir == old(fp.fileDir)
              && fp.slot == old(fp.slot)
      ensures res in {FR_OK, FR_DISK_ERR, FR_DENIED, FR_NO_FILE, FR_INVALID_PARAMETER}
      ensures res == FR_INVALID_PARAMETER <==> buff == null || !hasBr || !fp.hasMedia
      ensures buff != null && hasBr && FileCheck(fp.hasMedia, fp.fileDir.name) != FR_OK ==>
                res == FileCheck(fp.hasMedia, fp.fileDir.name)
      ensures (buff != null && hasBr && FileCheck(fp.hasMedia, fp.fileDir.name) == FR_OK
               && fp.fileDir.status != FStateOpenedR) ==> res == FR_DENIED
      ensures res != FR_OK ==> fp.filePtr == old(fp.filePtr)
      ensures res == FR_OK ==>
                buff != null && fp.fileDir.status == FStateOpenedR
                && br == (if btr == 0 then 0 else ReadCount(btr, fp.fileDir.size, old(fp.filePtr)))
                && fp.filePtr == old(fp.filePtr) + br
                && (old(fp.filePtr) <= fp.fileDir.size ==> fp.filePtr <= fp.fileDir.size)
                && var addr := (fp.fileDir.address + old(fp.filePtr)) % 0x1_0000_0000;
                   (br > 0 ==> addr + br <= media.Length && buff[..br] == media[addr..addr + br])
                   && buff[br..] == old(buff[br..])
    {
      if buff == null || !hasBr {
        return FR_INVALID_PARAMETER, 0;
      }
      res := FileCheck(fp.hasMedia, fp.fileDir.name);
      if res != FR_OK {
        return res, 0;
      }
      if fp.fileDir.status != FStateOpenedR {
        return FR_DENIED, 0;
      }
      if btr == 0 {
        return FR_OK, 0;
      }
      var n := ReadCount(btr, fp.fileDir.size, fp.filePtr);
      var addr := (fp.fileDir.address + fp.filePtr) % 0x1_0000_0000;
      var io: bool :| true;
      var ok := Nvmem.ReadFram(media, buff, 0, addr, n, io);
      if !ok {
        return FR_DISK_ERR, 0;
      }
      fp.filePtr := fp.filePtr + n;
      return FR_OK, n;
    }

    /**
     * f_write (tiny-fs.c:1177-1234) with the counts of WriteCount: up to btw bytes of buff at
     * the file pointer, no further than the end of the file's clusters, the pointer moved past
     * them and FileSize grown to it. FR_INVALID_PARAMETER without data or a place for the count,
     * or an invalid handle; FR_DENIED unless the file is open for writing. A write of 0 bytes
     * (asked for, or no room left) is refused by Write_FRAM as FR_DISK_ERR.
     */
    method FWrite(fp: FileHandle, buff: Option<seq<byte>>, btw: u32, hasBw: bool) returns (res: FResult, bw: u32)
      requires Valid() && fp.Valid()
      requires buff.Some? ==> btw <= |buff.value|
      modifies media, fp
      ensures fp.Valid() && fp.hasMedia == old(fp.hasMedia) && fp.slot == old(fp.slot)
      ensures res in {FR_OK, FR_DISK_ERR, FR_DENIED, FR_NO_FILE, FR_INVALID_PARAMETER}
      ensures res == FR_INVALID_PARAMETER <==> buff.None? || !hasBw || !fp.hasMedia
      ensures buff.Some? && hasBw && FileCheck(fp.hasMedia, fp.fileDir.name) != FR_OK ==>
                res == FileCheck(fp.hasMedia, fp.fileDir.name)
      ensures (buff.Some? && hasBw && FileCheck(fp.hasMedia, fp.fileDir.name) == FR_OK
               && fp.fileDir.status != FStateOpenedW) ==> res == FR_DENIED
      ensures res != FR_OK ==> fp.fileDir == old(fp.fileDir) && fp.filePtr == old(fp.filePtr) && bw == 0
      ensures res != FR_OK && res != FR_DISK_ERR ==> media[..] == old(media[..])
      ensures res == FR_DISK_ERR ==>
                var n := WriteCount(btw, old(fp.fileDir.size), old(fp.filePtr));
                buff.Some? && old(fp.fileDir.status) == FStateOpenedW
                && PartlyWritten(old(media[..]), media[..], (old(fp.fileDir.address) + old(fp.filePtr)) % 0x1_0000_0000,
                                 buff.value[..n])
      ensures res == FR_OK ==>
                var n := WriteCount(btw, old(fp.fileDir.size), old(fp.filePtr));
                buff.Some? && old(fp.fileDir.status) == FStateOpenedW
                && bw == n && 0 < n && old(fp.filePtr) + n <= ClusterEnd(old(fp.fileDir.size))
                && var addr := (old(fp.fileDir.address) + old(fp.filePtr)) % 0x1_0000_0000;
                   addr + n <= media.Length
                   && media[..] == Written(old(media[..]), addr, buff.value[..n])
                   && fp.filePtr == old(fp.filePtr) + n
                   && fp.fileDir == old(fp.fileDir).(size := GrownSize(old(fp.fileDir.size), old(fp.filePtr) + n))
    {
      if buff.None? || !hasBw {
        return FR_INVALID_PARAMETER, 0;
      }
      res := FileCheck(fp.hasMedia, fp.fileDir.name);
      if res != FR_OK {
        return res, 0;
      }
      if fp.fileDir.status != FStateOpenedW {
        return FR_DENIED, 0;
      }
      var n := WriteCount(btw, fp.fileDir.size, fp.filePtr);
      var ok := Write((fp.fileDir.address + fp.filePtr) % 0x1_0000_0000, buff.value[..n]);
      if !ok {
        return FR_DISK_ERR, 0;
      }
      fp.filePtr := fp.filePtr + n;
      fp.fileDir := fp.fileDir.(size := GrownSize(fp.fileDir.size, fp.filePtr));
      return FR_OK, n;
    }

    // ---------------------------------------------------- f_checkFS

    /**
     * f_checkFS (tiny-fs.c:1446-1511): FR_INVALID_OBJECT without media; otherwise the verdict of
     * CheckVerdict on the media, unless a read fails.
     */
    method CheckFS(hasMedia: bool) returns (res: FResult)
      requires Valid()
      ensures !hasMedia ==> res == FR_INVALID_OBJECT
      ensures hasMedia ==> res == FR_DISK_ERR || res == CheckVerdict(crc32, media[..])
    {
      if !hasMedia {
        return FR_INVALID_OBJECT;
      }
      ghost var m := media[..];
      var fat := Read(DirEntryOffset(0), ENTRY_SIZE);
      if fat.None? {
        return FR_DISK_ERR;
      }
      assert fat.value == EntryBytes(m, 0);
      var e0 := DecodeEntry(fat.value);
      if CStr(e0.name) != FAT_NAME || e0.status != FStateFAT {
        return FR_NO_FILE;
      }
      var crc: u32 := 0;
      var i := 0;
      while i < DIR_ENTRIES
        invariant i <= DIR_ENTRIES
        invariant crc == DirCrc(crc32, m, i)
      {
        var e := Read(DirEntryOffset(i), ENTRY_SIZE);
        if e.None? {
          return FR_DISK_ERR;
        }
        assert e.value == EntryBytes(m, i);
        crc := crc32(e.value, crc);
        i := i + 1;
      }
      var h := Read(0, HEADER_SIZE);
      if h.None? {
        return FR_DISK_ERR;
      }
      assert h.value[DIR_CRC_FIELD..DIR_CRC_FIELD + 4] == m[DIR_CRC_FIELD..DIR_CRC_FIELD + 4];
      res := if Le32Value(h.value[DIR_CRC_FIELD..DIR_CRC_FIELD + 4]) != crc then FR_NO_FILESYSTEM else FR_OK;
    }
  }

  // ---------------------------------------------------- f_tell, f_lseek, f_rewind

  /** f_tell (tiny-fs.c:1301-1311): the file pointer, UINT32_MAX for an invalid handle */
  function FTell(fp: FileHandle): (r: u32)
    reads fp
    ensures FileCheck(fp.hasMedia, fp.fileDir.name) != FR_OK ==> r == UINT32_MAX
    ensures FileCheck(fp.hasMedia, fp.fileDir.name) == FR_OK ==> r == fp.filePtr
  {
    if FileCheck(fp.hasMedia, fp.fileDir.name) != FR_OK then UINT32_MAX else fp.filePtr
  }

  /**
   * f_lseek (tiny-fs.c:1329-1366): the file pointer set as SeekTo says, FR_INVALID_PARAMETER
   * where it refuses; an invalid handle gives isFileValid's code. Nothing else changes.
   */
  method FLseek(fp: FileHandle, ofs: u32) returns (res: FResult)
    requires fp.Valid()
    modifies fp
    ensures fp.Valid() && fp.hasMedia == old(fp.hasMedia) && fp.fileDir == old(fp.fileDir)
            && fp.slot == old(fp.slot)
    ensures FileCheck(fp.hasMedia, fp.fileDir.name) != FR_OK ==>
              res == FileCheck(fp.hasMedia, fp.fileDir.name) && fp.filePtr == old(fp.filePtr)
    ensures FileCheck(fp.hasMedia, fp.fileDir.name) == FR_OK ==>
              var to := SeekTo(fp.fileDir.status, fp.fileDir.size, ofs);
              (res == FR_OK <==> to.Some?) && (res != FR_OK ==> res == FR_INVALID_PARAMETER)
              && FTell(fp) == if to.Some? then to.value else old(fp.filePtr)
  {
    res := FileCheck(fp.hasMedia, fp.fileDir.name);
    if res != FR_OK {
      return;
    }
    var to := SeekTo(fp.fileDir.status, fp.fileDir.size, ofs);
    if to.None? {
      return FR_INVALID_PARAMETER;
    }
    fp.filePtr := to.value;
  }

  /**
   * f_rewind (tiny-fs.c:1318-1321): f_lseek to 0, which a file open for reading always takes
   * and one open for writing only when it is not empty.
   */
  method FRewind(fp: FileHandle) returns (res: FResult)
    requires fp.Valid()
    modifies fp
    ensures fp.Valid() && fp.hasMedia == old(fp.hasMedia) && fp.fileDir == old(fp.fileDir)
            && fp.slot == old(fp.slot)
    ensures FileCheck(fp.hasMedia, fp.fileDir.name) != FR_OK ==>
              res == FileCheck(fp.hasMedia, fp.fileDir.name) && fp.filePtr == old(fp.filePtr)
    ensures FileCheck(fp.hasMedia, fp.fileDir.name) == FR_OK && fp.fileDir.status == FStateOpenedR ==>
              res == FR_OK && fp.filePtr == 0
    ensures FileCheck(fp.hasMedia, fp.fileDir.name) == FR_OK && fp.fileDir.status == FStateOpenedW ==>
              (res == FR_OK <==> fp.fileDir.size > 0) && (res == FR_OK ==> fp.filePtr == 0)
  {
    res := FLseek(fp, 0);
  }

  // ---------------------------------------------------- handle slots

  /**
   * The handle slots after CloseFile gives back the slot a handle holds (tiny-fs.c:556-558).
   * A handle without one (pmutex NULL) releases nothing.
   */
  function Released(mutexes: seq<u32>, slot: Option<nat>): (r: seq<u32>)
    ensures |r| == |mutexes|
    ensures forall k :: 0 <= k < |r| ==>
      r[k] == if slot.Some? && k == slot.value then 0 else mutexes[k]
  {
    if slot.Some? && slot.value < |mutexes| then mutexes[slot.value := 0] else mutexes
  }

  /** Closing gives back exactly the slot NewFile took: the slots are as before the open. */
  lemma CloseReleasesOpenSlot(mutexes: seq<u32>, i: nat)
    requires i < |mutexes| && mutexes[i] == 0
    ensures Released(mutexes[i := 1], Some(i)) == mutexes
  {
  }

  /**
   * NewFile's exit as written (tiny-fs.c:487-492): a failed open stores 0 to mutexes[i] even
   * when i is FS_CONCURRENT_FILES because every slot was taken. None stands for that store
   * past the end of the array.
   */
  function ExitStoreAsWritten(mutexes: seq<u32>, i: nat, ok: bool): Option<seq<u32>>
  {
    if ok then Some(mutexes) else if i < |mutexes| then Some(mutexes[i := 0]) else None
  }

  /**
   * With every slot taken, NewFile's slot loop ends at FS_CONCURRENT_FILES, and the code as
   * written then stores past the end of mutexes[].
   */
  lemma SlotReleaseAsWritten(mutexes: seq<u32>)
    requires |mutexes| == FS_CONCURRENT_FILES && 0 !in mutexes
    ensures ExitStoreAsWritten(mutexes, FS_CONCURRENT_FILES, false).None?
  {
  }

  // ---------------------------------------------------- DeleteFile's image

  /**
   * What DeleteFile leaves when every media call succeeds (tiny-fs.c:621-654): the clusters of
   * entry idx released in the table, the table written back, the entry stored free. None when
   * freeClusters refuses the entry's range.
   */
  function DeletedImage(crc32: (seq<byte>, u32) -> u32, m: seq<byte>, idx: nat): Option<seq<byte>>
    requires IsMedia(m) && idx < DIR_ENTRIES
  {
    var e := EntryOf(m, idx);
    var rr := ReleaseRange(TABLE_SIZE, e.address, e.size);
    if rr.None? then None
    else Some(StoreEntry(crc32, Written(m, CLUSTER_TABLE_OFFSET, ToBytes(Toggle(TableOf(m), rr.value.0, rr.value.1))),
                         idx, FREE_ENTRY))
  }

  /** SaveDirEntry writes below the cluster area, so the table stays as it is. */
  lemma StoreEntryKeepsTable(crc32: (seq<byte>, u32) -> u32, m: seq<byte>, i: nat, e: DirEntry)
    requires IsMedia(m) && i < DIR_ENTRIES && WellSized(e)
    ensures TableOf(StoreEntry(crc32, m, i, e)) == TableOf(m)
  {
    var p := PutEntry(m, i, e);
    var r := StoreEntry(crc32, m, i, e);
    assert forall a :: CLUSTER_TABLE_OFFSET <= a < TABLE_END ==> p[a] == m[a];
    assert forall a :: CLUSTER_TABLE_OFFSET <= a < TABLE_END ==> r[a] == p[a];
    assert r[CLUSTER_TABLE_OFFSET..TABLE_END] == m[CLUSTER_TABLE_OFFSET..TABLE_END];
  }

  /** A table written back reads back, and the directory does not change. */
  lemma WrittenTable(m: seq<byte>, t: seq<bv8>)
    requires IsMedia(m) && |t| == TABLE_SIZE
    ensures IsMedia(Written(m, CLUSTER_TABLE_OFFSET, ToBytes(t)))
    ensures TableOf(Written(m, CLUSTER_TABLE_OFFSET, ToBytes(t))) == t
    ensures forall j :: 0 <= j < DIR_ENTRIES ==>
      EntryOf(Written(m, CLUSTER_TABLE_OFFSET, ToBytes(t)), j) == EntryOf(m, j)
  {
    var w := Written(m, CLUSTER_TABLE_OFFSET, ToBytes(t));
    assert w[CLUSTER_TABLE_OFFSET..TABLE_END] == ToBytes(t);
    BytesBack(t);
    forall j | 0 <= j < DIR_ENTRIES
      ensures EntryOf(w, j) == EntryOf(m, j)
    {
      WrittenKeepsEntry(m, CLUSTER_TABLE_OFFSET, ToBytes(t), j);
    }
  }

  /**
   * Deleting the file NewFile created gives back the media's cluster table and every other
   * directory entry, and leaves the file's entry free.
   */
  lemma DeleteUndoesCreate(crc32: (seq<byte>, u32) -> u32, m0: seq<byte>, m1: seq<byte>, e: DirEntry)
    requires IsMedia(m0) && Created(crc32, m0, TableOf(m0), m1, e)
    ensures var idx := FirstFree(m0, 1);
      DeletedImage(crc32, m1, idx).Some?
      && TableOf(DeletedImage(crc32, m1, idx).value) == TableOf(m0)
      && EntryOf(DeletedImage(crc32, m1, idx).value, idx) == FREE_ENTRY
      && forall j :: 0 <= j < DIR_ENTRIES && j != idx ==>
           EntryOf(DeletedImage(crc32, m1, idx).value, j) == EntryOf(m0, j)
  {
    var s := CreatedParts(crc32, m0, TableOf(m0), m1, e);
    ReleaseRestores(crc32, m0, m1, FirstFree(m0, 1), e, s);
  }

  /** Releasing the run s that entry idx took, and freeing the entry, gives m0's table and entries back. */
  lemma ReleaseRestores(crc32: (seq<byte>, u32) -> u32, m0: seq<byte>, m1: seq<byte>, idx: nat, e: DirEntry, s: nat)
    requires IsMedia(m0) && IsMedia(m1) && idx < DIR_ENTRIES && EntryOf(m1, idx) == e
    requires FirstFit(Clusters(TableOf(m0)), ReqClusters(e.size), s) && s + ReqClusters(e.size) <= 8 * TABLE_SIZE
    requires e.address == CLUSTER_TABLE_OFFSET + Cluster2Addr(s)
    requires TableOf(m1) == Toggle(TableOf(m0), s, ReqClusters(e.size))
    requires forall j :: 0 <= j < DIR_ENTRIES && j != idx ==> EntryOf(m1, j) == EntryOf(m0, j)
    ensures DeletedImage(crc32, m1, idx).Some?
      && TableOf(DeletedImage(crc32, m1, idx).value) == TableOf(m0)
      && EntryOf(DeletedImage(crc32, m1, idx).value, idx) == FREE_ENTRY
      && forall j :: 0 <= j < DIR_ENTRIES && j != idx ==>
           EntryOf(DeletedImage(crc32, m1, idx).value, j) == EntryOf(m0, j)
  {
    var t0 := TableOf(m0);
    var n := ReqClusters(e.size);
    ReleaseAfterAllocate(t0, e.size, s);
    var m2 := DeletedAt(crc32, m1, idx, s, n);
    assert Toggle(TableOf(m1), s, n) == t0;
    FreedBack(crc32, m1, idx, t0);
  }

  /** What a created file's media holds: the run s busy in the table, the entry at its slot. */
  lemma CreatedParts(crc32: (seq<byte>, u32) -> u32, m0: seq<byte>, table: seq<bv8>, m1: seq<byte>, e: DirEntry)
    returns (s: nat)
    requires IsMedia(m0) && |table| == TABLE_SIZE && Created(crc32, m0, table, m1, e)
    ensures FirstFit(Clusters(table), ReqClusters(e.size), s) && s + ReqClusters(e.size) <= 8 * TABLE_SIZE
    ensures e.address == CLUSTER_TABLE_OFFSET + Cluster2Addr(s)
    ensures IsMedia(m1) && TableOf(m1) == Toggle(table, s, ReqClusters(e.size))
    ensures forall j :: 0 <= j < DIR_ENTRIES ==>
      EntryOf(m1, j) == if j == FirstFree(m0, 1) then e else EntryOf(m0, j)
  {
    var idx := FirstFree(m0, 1);
    var n := ReqClusters(e.size);
    s :| FirstFit(Clusters(table), n, s) && e.address == CLUSTER_TABLE_OFFSET + Cluster2Addr(s)
         && m1 == StoreEntry(crc32, Written(m0, CLUSTER_TABLE_OFFSET, ToBytes(Toggle(table, s, n))), idx, e);
    assert s + n <= 8 * TABLE_SIZE by {
      assert FreeRun(Clusters(table), s, n);
    }
    var w0 := Written(m0, CLUSTER_TABLE_OFFSET, ToBytes(Toggle(table, s, n)));
    WrittenTable(m0, Toggle(table, s, n));
    StoreEntryKeepsTable(crc32, w0, idx, e);
    forall j | 0 <= j < DIR_ENTRIES
      ensures EntryOf(m1, j) == if j == idx then e else EntryOf(m0, j)
    {
      StoreEntryFacts(crc32, w0, idx, e, j);
    }
  }

  /** The table t written back and entry idx stored free: t on the media, the rest of the directory kept. */
  lemma FreedBack(crc32: (seq<byte>, u32) -> u32, m: seq<byte>, idx: nat, t: seq<bv8>)
    requires IsMedia(m) && idx < DIR_ENTRIES && |t| == TABLE_SIZE
    ensures var m2 := StoreEntry(crc32, Written(m, CLUSTER_TABLE_OFFSET, ToBytes(t)), idx, FREE_ENTRY);
      TableOf(m2) == t
      && forall j :: 0 <= j < DIR_ENTRIES ==> EntryOf(m2, j) == if j == idx then FREE_ENTRY else EntryOf(m, j)
  {
    var w := Written(m, CLUSTER_TABLE_OFFSET, ToBytes(t));
    WrittenTable(m, t);
    StoreEntryKeepsTable(crc32, w, idx, FREE_ENTRY);
    forall j | 0 <= j < DIR_ENTRIES
      ensures EntryOf(StoreEntry(crc32, w, idx, FREE_ENTRY), j) == if j == idx then FREE_ENTRY else EntryOf(m, j)
    {
      StoreEntryFacts(crc32, w, idx, FREE_ENTRY, j);
    }
  }

  /** A delete touches the table and its own entry only: every other entry stays. */
  lemma DeletedKeepsOthers(crc32: (seq<byte>, u32) -> u32, m: seq<byte>, idx: nat, j: nat)
    requires IsMedia(m) && idx < DIR_ENTRIES && j < DIR_ENTRIES && j != idx
    requires DeletedImage(crc32, m, idx).Some?
    ensures EntryOf(DeletedImage(crc32, m, idx).value, j) == EntryOf(m, j)
  {
    var e := EntryOf(m, idx);
    var rr := ReleaseRange(TABLE_SIZE, e.address, e.size).value;
    var t := ToBytes(Toggle(TableOf(m), rr.0, rr.1));
    WrittenKeepsEntry(m, CLUSTER_TABLE_OFFSET, t, j);
    StoreEntryFacts(crc32, Written(m, CLUSTER_TABLE_OFFSET, t), idx, FREE_ENTRY, j);
  }

  /** DeletedImage of an entry whose range freeClusters accepts as the n clusters from s */
  lemma DeletedAt(crc32: (seq<byte>, u32) -> u32, m: seq<byte>, idx: nat, s: nat, n: nat)
    returns (m2: seq<byte>)
    requires IsMedia(m) && idx < DIR_ENTRIES
    requires ReleaseRange(TABLE_SIZE, EntryOf(m, idx).address, EntryOf(m, idx).size) == Some((s, n))
    ensures s + n <= 8 * TABLE_SIZE
    ensures m2 == StoreEntry(crc32, Written(m, CLUSTER_TABLE_OFFSET, ToBytes(Toggle(TableOf(m), s, n))), idx, FREE_ENTRY)
    ensures DeletedImage(crc32, m, idx) == Some(m2)
  {
    m2 := StoreEntry(crc32, Written(m, CLUSTER_TABLE_OFFSET, ToBytes(Toggle(TableOf(m), s, n))), idx, FREE_ENTRY);
  }

  /**
   * DeleteFile finds the created file under its name: the new entry is the first of that name,
   * as long as no entry had it before (entry 0 included, which findEntry reports as absent).
   */
  lemma CreatedIsFound(crc32: (seq<byte>, u32) -> u32, m0: seq<byte>, table: seq<bv8>,
                       m1: seq<byte>, e: DirEntry)
    requires IsMedia(m0) && |table| == TABLE_SIZE && Created(crc32, m0, table, m1, e)
    requires FirstNamed(m0, e.name, 0) == 0 && !NamedAt(m0, 0, e.name)
    ensures FirstNamed(m1, e.name, 0) == FirstFree(m0, 1)
  {
    var idx := FirstFree(m0, 1);
    var _ := CreatedParts(crc32, m0, table, m1, e);
    FirstNamedIsFirst(m0, e.name, 0);
    StoredNames(m0, m1, idx, e);
    assert forall j :: 0 <= j < DIR_ENTRIES ==> NamedAt(m1, j, e.name) == (j == idx);
    OnlyNamed(m1, e.name, idx);
  }

  /** When entry idx alone has the name, findEntry finds it. */
  lemma OnlyNamed(m: seq<byte>, name: seq<byte>, idx: nat)
    requires IsMedia(m) && 0 < idx < DIR_ENTRIES
    requires forall j :: 0 <= j < DIR_ENTRIES ==> NamedAt(m, j, name) == (j == idx)
    ensures FirstNamed(m, name, 0) == idx
  {
    FirstNamedIsFirst(m, name, 0);
    assert NamedAt(m, idx, name);
  }

  /** The names after entry e replaced entry idx: e's name at idx, m0's names elsewhere. */
  lemma StoredNames(m0: seq<byte>, m1: seq<byte>, idx: nat, e: DirEntry)
    requires IsMedia(m0) && IsMedia(m1) && idx < DIR_ENTRIES
    requires forall j :: 0 <= j < DIR_ENTRIES ==> EntryOf(m1, j) == if j == idx then e else EntryOf(m0, j)
    ensures forall j :: 0 <= j < DIR_ENTRIES ==> NamedAt(m1, j, e.name) == (j == idx || NamedAt(m0, j, e.name))
  {
    forall j | 0 <= j < DIR_ENTRIES
      ensures NamedAt(m1, j, e.name) == (j == idx || NamedAt(m0, j, e.name))
    {
      FieldsOfEntry(m1, j);
      FieldsOfEntry(m0, j);
    }
  }

  /**
   * Reopening a closed file and closing it again leaves every directory entry as it was before
   * the open: CloseFile finds the file under the name its entry holds, in the state the open
   * stored, and stores it back closed.
   */
  lemma ReopenCloseRestoresDirectory(crc32: (seq<byte>, u32) -> u32, m0: seq<byte>, table: seq<bv8>,
                                     m1: seq<byte>, e: DirEntry, key: seq<byte>, size: u16, mode: int)
    requires IsMedia(m0) && |table| == TABLE_SIZE
    requires Opened(crc32, m0, table, m1, e, key, size, mode) && FirstNamed(m0, key, 0) != 0
    ensures var found := FirstNamed(m0, key, 0);
      FirstNamed(m1, e.name, 0) == found && EntryOf(m1, found).status == e.status
      && forall j :: 0 <= j < DIR_ENTRIES ==>
           EntryOf(StoreEntry(crc32, m1, found, e.(status := FStateClosed)), j) == EntryOf(m0, j)
  {
    var found := FirstNamed(m0, key, 0);
    FirstNamedIsFirst(m0, key, 0);
    FieldsOfEntry(m0, found);
    forall j | 0 <= j < DIR_ENTRIES
      ensures EntryOf(m1, j) == (if j == found then e else EntryOf(m0, j))
      ensures NamedAt(m1, j, e.name) == NamedAt(m0, j, key)
    {
      StoreEntryFacts(crc32, m0, found, e, j);
      FieldsOfEntry(m1, j);
      FieldsOfEntry(m0, j);
    }
    assert Matches(m1, e.name) == Matches(m0, key);
    forall j | 0 <= j < DIR_ENTRIES
      ensures EntryOf(StoreEntry(crc32, m1, found, e.(status := FStateClosed)), j) == EntryOf(m0, j)
    {
      StoreEntryFacts(crc32, m1, found, e.(status := FStateClosed), j);
    }
  }

  /** A run allocated in the table part of the DTA: its offset fits, and the rest of the DTA stays. */
  lemma AllocatedPrefix(t0: seq<bv8>, s: nat, n: nat)
    requires |t0| == FS_DTA_SIZE && FirstFit(Clusters(t0[..TABLE_SIZE]), n, s)
    ensures s + n <= 8 * TABLE_SIZE && Cluster2Addr(s) < 0x1_0000
    ensures Toggle(t0, s, n)[..TABLE_SIZE] == Toggle(t0[..TABLE_SIZE], s, n)
  {
    assert FreeRun(Clusters(t0[..TABLE_SIZE]), s, n);
    assert Cluster2Addr(s) == 16 * s;
    assert t0 == t0[..TABLE_SIZE] + t0[TABLE_SIZE..];
    TogglePrefix(t0[..TABLE_SIZE], t0[TABLE_SIZE..], s, n);
  }

  /**
   * allocateClusters on the cleared table: the four "$$FAT$$" clusters go to cluster 0, which
   * leaves the initial table in the DTA.
   */
  lemma FormatAllocation(t: seq<bv8>, u: seq<bv8>, r: u32)
    requires |t| == FS_DTA_SIZE && forall j :: 0 <= j < TABLE_SIZE ==> t[j] == 0
    requires r == UINT32_MAX <==> forall s :: !FreeRun(Clusters(t[..TABLE_SIZE]), s, ReqClusters(TABLE_FILE_SIZE))
    requires r != UINT32_MAX ==> exists s ::
      FirstFit(Clusters(t[..TABLE_SIZE]), ReqClusters(TABLE_FILE_SIZE), s)
      && r == Cluster2Addr(s) && u == Toggle(t, s, ReqClusters(TABLE_FILE_SIZE))
    ensures r == 0 && ToBytes(u[..TABLE_SIZE]) == FORMAT_TABLE
    ensures ToBytes(u[12..HEADER_SIZE]) == Zeros(4)
  {
    var m := Clusters(t[..TABLE_SIZE]);
    assert ReqClusters(TABLE_FILE_SIZE) == 4;
    assert FreeRun(m, 0, 4) by {
      forall c | 0 <= c < 4
        ensures !m[c]
      {
        assert t[..TABLE_SIZE][0] == 0;
      }
    }
    var s :| FirstFit(m, 4, s) && r == Cluster2Addr(s) && u == Toggle(t, s, 4);
    assert s == 0;
    ToggleFirstFour(t);
    assert u == t[0 := 0x0F];
    assert forall j :: 0 <= j < TABLE_SIZE ==> ToBytes(u[..TABLE_SIZE])[j] == FORMAT_TABLE[j];
  }
}
