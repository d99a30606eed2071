// ReadBytes and WriteBytes of Core/Src/helpers/file_io.c: a run of bytes of a named file read or
// written in one call, by opening the file with tiny-fs, seeking, transferring and closing it.
// The media is Media0, the TinyFs object; "media != NULL" is hasMedia. Each call works on a
// FileHandle of its own, as the C code does on a local fHandle_t.

module FileIo {
  import opened Common
  import opened TinyFsLayout
  import opened TinyFsImage
  import opened TinyFsFiles
  import opened TinyFsDriver

  /**
   * cut_name (file_io.c:38-40, 94-96) is strncpy of seven characters and a NUL, which is the name
   * field NewFile makes of any name; NewFile's own cut then leaves it as it is, so the file looked
   * up is the one named by the first seven characters of the caller's name.
   */
  lemma CutNameIdempotent(name: seq<byte>)
    ensures CutName(CutName(name)) == CutName(name)
  {
    var f := CutName(name);
    var w := if StrLen(name) <= MAX_FILENAME_LEN then CStr(name) else name[..MAX_FILENAME_LEN];
    assert CStr(f) == w;
    assert StrLen(f) == |w| <= MAX_FILENAME_LEN;
    assert f == w + Zeros(NAME_SIZE - |w|);
  }

  /** Entries whose names are equal as C strings are found under either name. */
  lemma FoundUnderStoredName(m: seq<byte>, key: seq<byte>)
    requires IsMedia(m)
    ensures var found := FirstNamed(m, key, 0);
      FirstNamed(m, EntryOf(m, found).name, 0) == found
  {
    var found := FirstNamed(m, key, 0);
    FirstNamedIsFirst(m, key, 0);
    FieldsOfEntry(m, found);
    var n := EntryOf(m, found).name;
    if NamedAt(m, found, key) {
      forall j | 0 <= j < DIR_ENTRIES
        ensures NamedAt(m, j, n) == NamedAt(m, j, key)
      {
      }
      assert Matches(m, n) == Matches(m, key);
    } else {
      assert found == 0;
      assert NamedAt(m, 0, n);
      FirstNamedIsFirst(m, n, 0);
    }
  }

  /**
   * The open loop of ReadBytes and WriteBytes (file_io.c:42-54, 100-112): NewFile again as long
   * as it answers FR_TOO_MANY_OPEN_FILES. Before the scheduler starts that answer is returned at
   * once; after, the task sleeps 10 ms and tries again, here at most waits times. No other task
   * gives a slot back in between, so a retry answers as the first try did.
   */
  method OpenWaiting(fs: TinyFs, fp: FileHandle, name: Option<seq<byte>>, size: u32, mode: int,
                     schedulerStarted: bool, waits: nat) returns (res: FResult)
    requires fs.Valid() && fp.Valid() && EntryOf(fs.media[..], 0).size <= FS_DTA_SIZE
    modifies fs, fs.media, fs.dta, fp
    ensures fs.Valid() && fp.Valid() && fp.hasMedia == old(fp.hasMedia)
    ensures res == FR_INVALID_PARAMETER <==>
              !old(fp.hasMedia) || name.None? || (mode != FModeRead && mode != FModeWrite)
    ensures res != FR_INVALID_PARAMETER ==>
              (res == FR_TOO_MANY_OPEN_FILES <==> 0 !in old(fs.mutexes))
    ensures res == FR_INVALID_PARAMETER || res == FR_TOO_MANY_OPEN_FILES ==>
              fs.media[..] == old(fs.media[..]) && fp.fileDir == old(fp.fileDir)
    ensures res != FR_OK ==> fs.mutexes == old(fs.mutexes) && fp.slot == old(fp.slot)
    ensures res == FR_OK ==>
              fp.slot.Some? && old(fs.mutexes)[fp.slot.value] == 0
              && fs.mutexes == old(fs.mutexes)[fp.slot.value := 1] && fp.filePtr == 0
              && Opened(fs.crc32, old(fs.media[..]), LoadedDta(old(fs.media[..]), old(fs.dta[..]))[..TABLE_SIZE],
                        fs.media[..], fp.fileDir, CutName(name.value), size % 0x1_0000, mode)
    ensures res == FR_LOCKED ==>
              name.Some? && fs.media[..] == old(fs.media[..])
              && var found := FirstNamed(old(fs.media[..]), CutName(name.value), 0);
                 found != 0 && EntryOf(old(fs.media[..]), found).status != FStateClosed
                 && fp.fileDir == EntryOf(old(fs.media[..]), found)
  {
    res := fs.NewFile(fp, name, size, mode);
    ghost var r1, m1, d1, mu1 := res, fs.media[..], fs.dta[..], fs.mutexes;
    ghost var f1, p1, s1 := fp.fileDir, fp.filePtr, fp.slot;
    var w := waits;
    while res == FR_TOO_MANY_OPEN_FILES && schedulerStarted && w > 0
      invariant fs.Valid() && fp.Valid() && fp.hasMedia == old(fp.hasMedia) && res == r1
      invariant fs.media[..] == m1 && fs.dta[..] == d1 && fs.mutexes == mu1
      invariant fp.fileDir == f1 && fp.filePtr == p1 && fp.slot == s1
      decreases w
    {
      res := fs.NewFile(fp, name, size, mode);
      w := w - 1;
    }
  }

  /**
   * f_close as ReadBytes and WriteBytes use it (file_io.c:65, 123): what a successful close
   * leaves, the handle's entry stored closed and its slot given back.
   */
  method Close(fs: TinyFs, fp: FileHandle) returns (res: FResult)
    requires fs.Valid() && fp.Valid() && fp.hasMedia
    modifies fs, fs.media, fp
    ensures fs.Valid() && res != FR_INVALID_PARAMETER && res != FR_TOO_MANY_OPEN_FILES
    ensures res != FR_OK ==> fs.mutexes == old(fs.mutexes)
    ensures res == FR_LOCKED ==> old(fp.fileDir.status) != FStateOpenedR && old(fp.fileDir.status) != FStateOpenedW
    ensures res == FR_OK ==>
              var idx := FirstNamed(old(fs.media[..]), old(fp.fileDir.name), 0);
              0 < idx < DIR_ENTRIES - 1
              && (old(fp.fileDir.status) == FStateOpenedR || old(fp.fileDir.status) == FStateOpenedW)
              && EntryOf(old(fs.media[..]), idx).status == old(fp.fileDir.status)
              && fs.media[..] == StoreEntry(fs.crc32, old(fs.media[..]), idx, old(fp.fileDir).(status := FStateClosed))
              && fs.mutexes == Released(old(fs.mutexes), old(fp.slot))
  {
    res := fs.CloseFile(fp);
  }

  /** where f_lseek leaves the pointer of a file open for reading: fpos, clamped to its size */
  function ReadPos(fpos: u32, size: u16): (pos: u32)
    ensures pos <= size && (fpos <= size ==> pos == fpos)
  {
    if fpos >= size then size else fpos
  }

  /** the media address of the byte at ptr in the file of entry e, as the driver computes it */
  function AddrOf(e: DirEntry, ptr: u32): (a: nat)
    ensures e.address + ptr < 0x1_0000_0000 ==> a == e.address + ptr
  {
    (e.address + ptr) % 0x1_0000_0000
  }

  /** f_read as ReadBytes uses it (file_io.c:63): what a successful read leaves */
  method ReadAt(fs: TinyFs, fp: FileHandle, btr: u32, buf: array<byte>) returns (res: FResult, br: u32)
    requires fs.Valid() && fp.Valid() && fp.hasMedia && fp.fileDir.status == FStateOpenedR
    requires buf != fs.media && btr <= buf.Length
    modifies fp, buf
    ensures fp.Valid() && fp.hasMedia && fp.fileDir == old(fp.fileDir) && fp.slot == old(fp.slot)
    ensures res != FR_INVALID_PARAMETER && res != FR_TOO_MANY_OPEN_FILES
    ensures res == FR_OK ==>
              br == (if btr == 0 then 0 else ReadCount(btr, fp.fileDir.size, old(fp.filePtr)))
              && var addr := AddrOf(fp.fileDir, old(fp.filePtr));
                 br > 0 ==> addr + br <= fs.media.Length && buf[..br] == fs.media[..][addr..addr + br]
  {
    res, br := fs.FRead(fp, buf, btr, true);
  }

  /**
   * ReadBytes once the file is open for reading (file_io.c:59-65): the pointer set to fpos, btr
   * bytes read into buf and the file closed; the first failing code, else the close's. A failed
   * seek returns before the close, leaving the handle open.
   */
  method ReadOpened(fs: TinyFs, fp: FileHandle, fpos: u32, btr: u32, buf: array<byte>)
    returns (res: FResult, br: u32)
    requires fs.Valid() && fp.Valid() && fp.hasMedia && fp.fileDir.status == FStateOpenedR
    requires buf != fs.media && btr <= buf.Length
    modifies fs, fs.media, fp, buf
    ensures fs.Valid()
    ensures res != FR_INVALID_PARAMETER && res != FR_TOO_MANY_OPEN_FILES
    ensures res == FR_OK ==>
              ReadAndClosed(fs, buf, old(fs.media[..]), old(fp.fileDir), fpos, btr, br)
              && fs.mutexes == Released(old(fs.mutexes), old(fp.slot))
  {
    res := FLseek(fp, fpos);
    if res != FR_OK {
      return res, 0;
    }
    res, br := ReadAt(fs, fp, btr, buf);
    var closed := Close(fs, fp);
    if res == FR_OK {
      res := closed;
    }
  }

  /**
   * ReadBytes (file_io.c:27-70): btr bytes of the file name from position fpos into buf.
   * FR_INVALID_PARAMETER, opening nothing, without media, name, count or buffer; otherwise the
   * file is opened for reading (created empty when there is none of that name), the pointer set
   * to fpos (clamped to the file's size), the bytes read and the file closed. The result is the
   * first failing code, else the close's. mOpen is the media after the open and e the handle's
   * entry then.
   */
  method ReadBytes(fs: TinyFs, hasMedia: bool, name: Option<seq<byte>>, fpos: u32, btr: u32,
                   hasBr: bool, buf: array?<byte>, schedulerStarted: bool, waits: nat)
    returns (res: FResult, br: u32, ghost mOpen: seq<byte>, ghost e: DirEntry)
    requires fs.Valid() && EntryOf(fs.media[..], 0).size <= FS_DTA_SIZE
    requires buf != null ==> buf != fs.media && btr <= buf.Length
    modifies fs, fs.media, fs.dta, buf
    ensures fs.Valid() && IsMedia(mOpen) && WellSized(e)
    ensures res == FR_INVALID_PARAMETER <==> !hasMedia || name.None? || !hasBr || buf == null
    ensures res != FR_INVALID_PARAMETER ==>
              (res == FR_TOO_MANY_OPEN_FILES <==> 0 !in old(fs.mutexes))
    ensures res == FR_INVALID_PARAMETER || res == FR_TOO_MANY_OPEN_FILES ==>
              fs.media[..] == old(fs.media[..]) && fs.mutexes == old(fs.mutexes)
    ensures res == FR_OK ==>
              name.Some? && buf != null && fs.mutexes == old(fs.mutexes)
              && Opened(fs.crc32, old(fs.media[..]), LoadedDta(old(fs.media[..]), old(fs.dta[..]))[..TABLE_SIZE],
                        mOpen, e, CutName(name.value), 0, FModeRead)
              && ReadAndClosed(fs, buf, mOpen, e, fpos, btr, br)
  {
    if !hasMedia || name.None? || !hasBr || buf == null {
      return FR_INVALID_PARAMETER, 0, fs.media[..], ZERO_ENTRY;
    }
    res, br, mOpen, e := ReadNamed(fs, name.value, fpos, btr, buf, schedulerStarted, waits);
  }

  /**
   * What a successful read of btr bytes at fpos leaves, for the file of entry e on media m:
   * br bytes from the clamped position in buf, and the entry stored closed at the first entry
   * of its name.
   */
  ghost predicate ReadAndClosed(fs: TinyFs, buf: array<byte>, m: seq<byte>, e: DirEntry, fpos: u32, btr: u32, br: u32)
    reads fs, fs.media, buf
  {
    && IsMedia(m) && WellSized(e)
    && var pos := ReadPos(fpos, e.size);
       br == (if btr == 0 then 0 else ReadCount(btr, e.size, pos))
       && var addr := AddrOf(e, pos);
          (br > 0 ==> addr + br <= |m| && br as nat <= buf.Length && buf[..br] == m[addr..addr + br])
          && fs.media[..] == StoreEntry(fs.crc32, m, FirstNamed(m, e.name, 0), e.(status := FStateClosed))
  }

  /** ReadBytes past its argument check (file_io.c:36-69), for the file of the given name */
  method ReadNamed(fs: TinyFs, name: seq<byte>, fpos: u32, btr: u32, buf: array<byte>,
                   schedulerStarted: bool, waits: nat)
    returns (res: FResult, br: u32, ghost mOpen: seq<byte>, ghost e: DirEntry)
    requires fs.Valid() && EntryOf(fs.media[..], 0).size <= FS_DTA_SIZE
    requires buf != fs.media && btr <= buf.Length
    modifies fs, fs.media, fs.dta, buf
    ensures fs.Valid() && IsMedia(mOpen) && WellSized(e) && res != FR_INVALID_PARAMETER
    ensures res == FR_TOO_MANY_OPEN_FILES <==> 0 !in old(fs.mutexes)
    ensures res == FR_TOO_MANY_OPEN_FILES ==>
              fs.media[..] == old(fs.media[..]) && fs.mutexes == old(fs.mutexes)
    ensures res == FR_OK ==>
              fs.mutexes == old(fs.mutexes)
              && Opened(fs.crc32, old(fs.media[..]), LoadedDta(old(fs.media[..]), old(fs.dta[..]))[..TABLE_SIZE],
                        mOpen, e, CutName(name), 0, FModeRead)
              && ReadAndClosed(fs, buf, mOpen, e, fpos, btr, br)
  {
    mOpen, e := fs.media[..], ZERO_ENTRY;
    ghost var mutexes0 := fs.mutexes;
    var fp := new FileHandle(true);
    var cut := CutName(name);
    CutNameIdempotent(name);
    res := OpenWaiting(fs, fp, Some(cut), 0, FModeRead, schedulerStarted, waits);
    if res != FR_OK {
      return res, 0, mOpen, e;
    }
    mOpen, e := fs.media[..], fp.fileDir;
    ghost var slot := fp.slot.value;
    assert fs.mutexes == mutexes0[slot := 1] && mutexes0[slot] == 0;
    CloseReleasesOpenSlot(mutexes0, slot);
    res, br := ReadOpened(fs, fp, fpos, btr, buf);
    assert res == FR_OK ==> fs.mutexes == mutexes0;
  }

  // ---------------------------------------------------------------- WriteBytes

  /**
   * The media after WriteBytes wrote n bytes of data at fpos into the open file of entry e on
   * media m and closed it: the bytes in place, then the entry stored closed with the size the
   * write grew it to, at the first entry of its name.
   */
  ghost function WrittenAndClosed(crc32: (seq<byte>, u32) -> u32, m: seq<byte>, e: DirEntry, fpos: u32,
                                  n: nat, data: seq<byte>): (r: seq<byte>)
    requires IsMedia(m) && WellSized(e) && AddrOf(e, fpos) + n <= |m| && n <= |data|
    ensures IsMedia(r)
  {
    var w := Written(m, AddrOf(e, fpos), data[..n]);
    StoreEntry(crc32, w, FirstNamed(w, e.name, 0), e.(size := GrownSize(e.size, fpos + n), status := FStateClosed))
  }

  /** WrittenAndClosed in terms of the handle's entry after the write, as CloseFile stores it */
  lemma WrittenAndClosedIs(crc32: (seq<byte>, u32) -> u32, m: seq<byte>, e: DirEntry, fpos: u32,
                           n: nat, data: seq<byte>, w: seq<byte>, f: DirEntry)
    requires IsMedia(m) && WellSized(e) && AddrOf(e, fpos) + n <= |m| && n <= |data|
    requires w == Written(m, AddrOf(e, fpos), data[..n]) && f == e.(size := GrownSize(e.size, fpos + n))
    ensures IsMedia(w) && WellSized(f)
    ensures WrittenAndClosed(crc32, m, e, fpos, n, data) == StoreEntry(crc32, w, FirstNamed(w, f.name, 0), f.(status := FStateClosed))
  {
  }

  /** f_write as WriteBytes uses it (file_io.c:121): what a write leaves */
  method WriteAt(fs: TinyFs, fp: FileHandle, btw: u32, data: seq<byte>) returns (res: FResult, bw: u32)
    requires fs.Valid() && fp.Valid() && fp.hasMedia && fp.fileDir.status == FStateOpenedW
    requires btw <= |data|
    modifies fs.media, fp
    ensures fp.Valid() && fp.hasMedia && fp.slot == old(fp.slot)
    ensures res != FR_INVALID_PARAMETER && res != FR_TOO_MANY_OPEN_FILES && res != FR_LOCKED
    ensures res != FR_OK ==> fp.fileDir == old(fp.fileDir) && bw == 0
    ensures res != FR_OK && res != FR_DISK_ERR ==> fs.media[..] == old(fs.media[..])
    ensures res == FR_DISK_ERR ==>
              PartlyWritten(old(fs.media[..]), fs.media[..], AddrOf(old(fp.fileDir), old(fp.filePtr)),
                            data[..WriteCount(btw, old(fp.fileDir.size), old(fp.filePtr))])
    ensures res == FR_OK ==>
              var n := WriteCount(btw, old(fp.fileDir.size), old(fp.filePtr));
              var addr := AddrOf(old(fp.fileDir), old(fp.filePtr));
              bw == n && 0 < n && addr + n <= fs.media.Length
              && fs.media[..] == Written(old(fs.media[..]), addr, data[..n])
              && fp.fileDir == old(fp.fileDir).(size := GrownSize(old(fp.fileDir.size), old(fp.filePtr) + n))
  {
    res, bw := fs.FWrite(fp, Some(data), btw, true);
  }

  /**
   * WriteBytes once the file is open for writing (file_io.c:117-124): the pointer set to fpos,
   * which must lie inside the file, btw bytes written and the file closed, also when the seek or
   * the write failed; the first failing code, else the close's.
   */
  method WriteOpened(fs: TinyFs, fp: FileHandle, fpos: u32, btw: u32, data: seq<byte>)
    returns (res: FResult, bw: u32)
    requires fs.Valid() && fp.Valid() && fp.hasMedia && fp.fileDir.status == FStateOpenedW
    requires btw <= |data|
    modifies fs, fs.media, fp
    ensures fs.Valid()
    ensures res != FR_INVALID_PARAMETER || fpos >= old(fp.fileDir.size)
    ensures res != FR_TOO_MANY_OPEN_FILES && res != FR_LOCKED
    ensures bw == 0 || bw == WriteCount(btw, old(fp.fileDir.size), fpos)
    ensures res == FR_OK ==>
              var e := old(fp.fileDir);
              var n := WriteCount(btw, e.size, fpos);
              var addr := AddrOf(e, fpos);
              fpos < e.size && bw == n && 0 < n && addr + n <= fs.media.Length
              && fs.media[..] == WrittenAndClosed(fs.crc32, old(fs.media[..]), e, fpos, n, data)
              && fs.mutexes == Released(old(fs.mutexes), old(fp.slot))
  {
    bw := 0;
    res := FLseek(fp, fpos);
    ghost var e, m := fp.fileDir, fs.media[..];
    if res == FR_OK {
      assert fp.filePtr == fpos && e == old(fp.fileDir);
      res, bw := WriteAt(fs, fp, btw, data);
    }
    ghost var w, f := fs.media[..], fp.fileDir;
    if res == FR_OK {
      WrittenAndClosedIs(fs.crc32, m, e, fpos, bw, data, w, f);
    }
    var closed := Close(fs, fp);
    if res == FR_OK {
      res := closed;
    }
  }

  /**
   * WriteBytes past its argument check (file_io.c:92-125) as the code is evidently meant to
   * work: the file opened for writing (created with room for btw bytes when there is none of
   * that name), then written and closed by WriteOpened. A failed open returns its code and
   * closes nothing.
   */
  method WriteNamed(fs: TinyFs, name: seq<byte>, fpos: u32, btw: u32, data: seq<byte>,
                    schedulerStarted: bool, waits: nat)
    returns (res: FResult, bw: u32, ghost mOpen: seq<byte>, ghost e: DirEntry)
    requires fs.Valid() && EntryOf(fs.media[..], 0).size <= FS_DTA_SIZE && btw <= |data|
    modifies fs, fs.media, fs.dta
    ensures fs.Valid() && IsMedia(mOpen) && WellSized(e) && (res != FR_INVALID_PARAMETER || fpos >= e.size)
    ensures res == FR_TOO_MANY_OPEN_FILES <==> 0 !in old(fs.mutexes)
    ensures res == FR_TOO_MANY_OPEN_FILES || res == FR_LOCKED ==>
              fs.media[..] == old(fs.media[..]) && fs.mutexes == old(fs.mutexes) && bw == 0
    ensures bw == 0 || bw == WriteCount(btw, e.size, fpos)
    ensures res == FR_OK ==>
              fs.mutexes == old(fs.mutexes)
              && Opened(fs.crc32, old(fs.media[..]), LoadedDta(old(fs.media[..]), old(fs.dta[..]))[..TABLE_SIZE],
                        mOpen, e, CutName(name), btw % 0x1_0000, FModeWrite)
              && var n := WriteCount(btw, e.size, fpos);
                 var addr := AddrOf(e, fpos);
                 fpos < e.size && bw == n && 0 < n && addr + n <= |mOpen|
                 && fs.media[..] == WrittenAndClosed(fs.crc32, mOpen, e, fpos, n, data)
  {
    mOpen, e := fs.media[..], ZERO_ENTRY;
    var fp := new FileHandle(true);
    var cut := CutName(name);
    CutNameIdempotent(name);
    res := OpenWaiting(fs, fp, Some(cut), btw, FModeWrite, schedulerStarted, waits);
    if res != FR_OK {
      return res, 0, mOpen, e;
    }
    mOpen, e := fs.media[..], fp.fileDir;
    CloseReleasesOpenSlot(old(fs.mutexes), fp.slot.value);
    res, bw := WriteOpened(fs, fp, fpos, btw, data);
  }

  /**
   * WriteBytes past its argument check as written (file_io.c:92-125): f_close is called on every
   * path, also when NewFile failed. When NewFile answers FR_LOCKED it has already read the entry
   * of the file into the handle, so the close finds that file and, when another handle has it
   * open, stores it closed under that handle's feet. closed is the close's result. The C handle's
   * pmutex is left uninitialised there; here it is NULL.
   */
  method WriteNamedAsWritten(fs: TinyFs, name: seq<byte>, fpos: u32, btw: u32, data: seq<byte>,
                             schedulerStarted: bool, waits: nat)
    returns (res: FResult, bw: u32, ghost closed: FResult)
    requires fs.Valid() && EntryOf(fs.media[..], 0).size <= FS_DTA_SIZE && btw <= |data|
    modifies fs, fs.media, fs.dta
    ensures fs.Valid()
    ensures res == FR_TOO_MANY_OPEN_FILES <==> 0 !in old(fs.mutexes)
    ensures res == FR_LOCKED ==> fs.mutexes == old(fs.mutexes)
    ensures res == FR_LOCKED && closed == FR_OK ==>
              var found := FirstNamed(old(fs.media[..]), CutName(name), 0);
              var f := EntryOf(old(fs.media[..]), found);
              0 < found && (f.status == FStateOpenedR || f.status == FStateOpenedW)
              && fs.media[..] == StoreEntry(fs.crc32, old(fs.media[..]), found, f.(status := FStateClosed))
  {
    var fp := new FileHandle(true);
    var cut := CutName(name);
    CutNameIdempotent(name);
    closed := FR_OK;
    res := OpenWaiting(fs, fp, Some(cut), btw, FModeWrite, schedulerStarted, waits);
    if res != FR_OK {
      if res == FR_LOCKED {
        closed := CloseLocked(fs, fp, cut);
      } else {
        closed := Close(fs, fp);
      }
      return res, 0, closed;
    }
    CloseReleasesOpenSlot(old(fs.mutexes), fp.slot.value);
    res, bw := WriteOpened(fs, fp, fpos, btw, data);
  }

  /**
   * The close WriteBytes as written makes after NewFile answered FR_LOCKED (file_io.c:122-123):
   * the handle holds the entry NewFile found under key and no slot. When that entry is open, in
   * either mode, the close finds it and stores it closed.
   */
  method CloseLocked(fs: TinyFs, fp: FileHandle, ghost key: seq<byte>) returns (res: FResult)
    requires fs.Valid() && fp.Valid() && fp.hasMedia && fp.slot.None?
    requires FirstNamed(fs.media[..], key, 0) != 0
    requires fp.fileDir == EntryOf(fs.media[..], FirstNamed(fs.media[..], key, 0))
    modifies fs, fs.media, fp
    ensures fs.Valid() && fs.mutexes == old(fs.mutexes)
    ensures res == FR_OK ==>
              var found := FirstNamed(old(fs.media[..]), key, 0);
              var f := EntryOf(old(fs.media[..]), found);
              (f.status == FStateOpenedR || f.status == FStateOpenedW)
              && fs.media[..] == StoreEntry(fs.crc32, old(fs.media[..]), found, f.(status := FStateClosed))
  {
    FoundUnderStoredName(fs.media[..], key);
    res := Close(fs, fp);
  }

  /**
   * What WriteNamedAsWritten's close after FR_LOCKED does to the directory: the entry another
   * handle holds open is now marked closed, so the media differs from the one the failed call
   * was given, while every other entry stays.
   */
  lemma LockedCloseClosesOtherHandle(crc32: (seq<byte>, u32) -> u32, m: seq<byte>, found: nat, f: DirEntry)
    requires IsMedia(m) && 0 < found < DIR_ENTRIES && f == EntryOf(m, found)
    requires f.status == FStateOpenedR || f.status == FStateOpenedW
    ensures var m' := StoreEntry(crc32, m, found, f.(status := FStateClosed));
            EntryOf(m', found).status == FStateClosed && m' != m
            && forall j :: 0 <= j < DIR_ENTRIES && j != found ==> EntryOf(m', j) == EntryOf(m, j)
  {
    var m' := StoreEntry(crc32, m, found, f.(status := FStateClosed));
    FieldsOfEntry(m, found);
    StoreEntryFacts(crc32, m, found, f.(status := FStateClosed), found);
    forall j | 0 <= j < DIR_ENTRIES && j != found
      ensures EntryOf(m', j) == EntryOf(m, j)
    {
      StoreEntryFacts(crc32, m, found, f.(status := FStateClosed), j);
    }
  }

  /**
   * WriteBytes (file_io.c:82-126) as the code evidently means it: FR_INVALID_PARAMETER, opening
   * nothing, without media, name, count or data; otherwise WriteNamed. mOpen is the media after
   * the open and e the handle's entry then.
   */
  method WriteBytes(fs: TinyFs, hasMedia: bool, name: Option<seq<byte>>, fpos: u32, btw: u32,
                    hasBw: bool, buf: Option<seq<byte>>, schedulerStarted: bool, waits: nat)
    returns (res: FResult, bw: u32, ghost mOpen: seq<byte>, ghost e: DirEntry)
    requires fs.Valid() && EntryOf(fs.media[..], 0).size <= FS_DTA_SIZE
    requires buf.Some? ==> btw <= |buf.value|
    modifies fs, fs.media, fs.dta
    ensures fs.Valid() && IsMedia(mOpen) && WellSized(e)
    ensures !hasMedia || name.None? || !hasBw || buf.None? ==>
              res == FR_INVALID_PARAMETER && fs.media[..] == old(fs.media[..]) && fs.mutexes == old(fs.mutexes)
    ensures hasMedia && name.Some? && hasBw && buf.Some? ==>
              (res == FR_TOO_MANY_OPEN_FILES <==> 0 !in old(fs.mutexes))
    ensures res == FR_TOO_MANY_OPEN_FILES || res == FR_LOCKED ==>
              fs.media[..] == old(fs.media[..]) && fs.mutexes == old(fs.mutexes) && bw == 0
    ensures bw == 0 || bw == WriteCount(btw, e.size, fpos)
    ensures res == FR_OK ==>
              name.Some? && buf.Some? && fs.mutexes == old(fs.mutexes)
              && Opened(fs.crc32, old(fs.media[..]), LoadedDta(old(fs.media[..]), old(fs.dta[..]))[..TABLE_SIZE],
                        mOpen, e, CutName(name.value), btw % 0x1_0000, FModeWrite)
              && var n := WriteCount(btw, e.size, fpos);
                 var addr := AddrOf(e, fpos);
                 fpos < e.size && bw == n && 0 < n && addr + n <= |mOpen|
                 && fs.media[..] == WrittenAndClosed(fs.crc32, mOpen, e, fpos, n, buf.value)
  {
    if !hasMedia || name.None? || !hasBw || buf.None? {
      return FR_INVALID_PARAMETER, 0, fs.media[..], ZERO_ENTRY;
    }
    res, bw, mOpen, e := WriteNamed(fs, name.value, fpos, btw, buf.value, schedulerStarted, waits);
  }

  /**
   * WriteBytes as written (file_io.c:82-126): as WriteBytes, except that a failed open is
   * followed by a close of the handle all the same (see WriteNamedAsWritten).
   */
  method WriteBytesAsWritten(fs: TinyFs, hasMedia: bool, name: Option<seq<byte>>, fpos: u32, btw: u32,
                             hasBw: bool, buf: Option<seq<byte>>, schedulerStarted: bool, waits: nat)
    returns (res: FResult, bw: u32, ghost closed: FResult)
    requires fs.Valid() && EntryOf(fs.media[..], 0).size <= FS_DTA_SIZE
    requires buf.Some? ==> btw <= |buf.value|
    modifies fs, fs.media, fs.dta
    ensures fs.Valid()
    ensures !hasMedia || name.None? || !hasBw || buf.None? ==>
              res == FR_INVALID_PARAMETER && fs.media[..] == old(fs.media[..])
    ensures res == FR_LOCKED && closed == FR_OK ==>
              name.Some?
              && var found := FirstNamed(old(fs.media[..]), CutName(name.value), 0);
                 var f := EntryOf(old(fs.media[..]), found);
                 0 < found && (f.status == FStateOpenedR || f.status == FStateOpenedW)
                 && fs.media[..] == StoreEntry(fs.crc32, old(fs.media[..]), found, f.(status := FStateClosed))
  {
    if !hasMedia || name.None? || !hasBw || buf.None? {
      return FR_INVALID_PARAMETER, 0, FR_INVALID_PARAMETER;
    }
    res, bw, closed := WriteNamedAsWritten(fs, name.value, fpos, btw, buf.value, schedulerStarted, waits);
  }

  /**
   * ReadBytes of a file that exists leaves the directory as it found it: the open marks the
   * entry open for reading and the close marks it closed again. m0 is the media before the
   * call, m1 after the open and m2 after the close, as ReadBytes states them.
   */
  lemma ReadKeepsDirectory(crc32: (seq<byte>, u32) -> u32, m0: seq<byte>, table: seq<bv8>,
                           m1: seq<byte>, e: DirEntry, key: seq<byte>, m2: seq<byte>)
    requires IsMedia(m0) && IsMedia(m1) && |table| == TABLE_SIZE && WellSized(e)
    requires Opened(crc32, m0, table, m1, e, key, 0, FModeRead) && FirstNamed(m0, key, 0) != 0
    requires m2 == StoreEntry(crc32, m1, FirstNamed(m1, e.name, 0), e.(status := FStateClosed))
    ensures forall j :: 0 <= j < DIR_ENTRIES ==> EntryOf(m2, j) == EntryOf(m0, j)
  {
    ReopenCloseRestoresDirectory(crc32, m0, table, m1, e, key, 0, FModeRead);
  }

  /** SaveDirEntry writes the header and the directory only: every byte from the cluster table on stays. */
  lemma StoreEntryKeepsData(crc32: (seq<byte>, u32) -> u32, m: seq<byte>, i: nat, e: DirEntry)
    requires IsMedia(m) && i < DIR_ENTRIES && WellSized(e)
    ensures forall a :: CLUSTER_TABLE_OFFSET <= a < |m| ==> StoreEntry(crc32, m, i, e)[a] == m[a]
  {
    var p := PutEntry(m, i, e);
    assert forall a :: CLUSTER_TABLE_OFFSET <= a < |m| ==> p[a] == m[a];
  }

  /** Entries whose names are equal as C strings are matched by the same names. */
  lemma SameMatches(m: seq<byte>, a: seq<byte>, b: seq<byte>)
    requires IsMedia(m) && SameName(a, b)
    ensures FirstNamed(m, a, 0) == FirstNamed(m, b, 0)
  {
    assert Matches(m, a) == Matches(m, b);
  }

  /** Two media with the same directory entries find the same entries under every name. */
  lemma SameDirectoryFinds(m: seq<byte>, m': seq<byte>, key: seq<byte>)
    requires IsMedia(m) && IsMedia(m')
    requires forall j :: 0 <= j < DIR_ENTRIES ==> EntryOf(m', j).name == EntryOf(m, j).name
    ensures FirstNamed(m', key, 0) == FirstNamed(m, key, 0)
  {
    forall j | 0 <= j < DIR_ENTRIES
      ensures NamedAt(m', j, key) == NamedAt(m, j, key)
    {
      FieldsOfEntry(m, j);
      FieldsOfEntry(m', j);
    }
    assert Matches(m', key) == Matches(m, key);
  }

  /**
   * Where WriteBytes's open leaves the file: at index idx, the first entry of the name, holding
   * the opened entry e, whose name is the key's as a C string, and past the directory.
   */
  lemma OpenedForWriteAt(crc32: (seq<byte>, u32) -> u32, m0: seq<byte>, t0: seq<bv8>, mW: seq<byte>,
                         e: DirEntry, key: seq<byte>, size: u16)
    returns (idx: nat)
    requires IsMedia(m0) && |t0| == TABLE_SIZE && IsMedia(mW) && WellSized(e)
    requires Opened(crc32, m0, t0, mW, e, key, size, FModeWrite) && !NamedAt(m0, 0, key)
    requires FirstNamed(m0, key, 0) != 0 ==> CLUSTER_TABLE_OFFSET <= EntryOf(m0, FirstNamed(m0, key, 0)).address
    ensures 0 < idx < DIR_ENTRIES && FirstNamed(mW, key, 0) == idx && SameName(e.name, key)
    ensures forall j :: 0 <= j < DIR_ENTRIES ==> EntryOf(mW, j) == if j == idx then e else EntryOf(m0, j)
    ensures CLUSTER_TABLE_OFFSET <= e.address
  {
    var found := FirstNamed(m0, key, 0);
    FirstNamedIsFirst(m0, key, 0);
    if found != 0 {
      idx := found;
      FieldsOfEntry(m0, found);
      ReopenCloseRestoresDirectory(crc32, m0, t0, mW, e, key, size, FModeWrite);
      forall j | 0 <= j < DIR_ENTRIES
        ensures EntryOf(mW, j) == if j == idx then e else EntryOf(m0, j)
      {
        StoreEntryFacts(crc32, m0, found, e, j);
      }
      SameMatches(mW, e.name, key);
    } else {
      idx := FirstFree(m0, 1);
      var _ := CreatedParts(crc32, m0, t0, mW, e);
      CreatedIsFound(crc32, m0, t0, mW, e);
    }
  }

  /**
   * Round trip of WriteBytes and ReadBytes on one name: once WriteBytes has written n bytes at
   * position 0 and closed the file, ReadBytes of n bytes from position 0 reads those bytes back.
   * m0 is the media before the write, mW after its open (entry e) and m1 after its close; mR is
   * the media after ReadBytes's open (entry f) and got what it read, as the two methods state
   * them. The name must not be that of entry 0, the "$$FAT$$" file, which findEntry reports as
   * absent, and a file that already exists must lie past the directory, as every file NewFile
   * creates does.
   */
  lemma WriteThenReadBack(crc32: (seq<byte>, u32) -> u32, m0: seq<byte>, t0: seq<bv8>, mW: seq<byte>,
                          e: DirEntry, key: seq<byte>, size: u16, data: seq<byte>, n: u32,
                          m1: seq<byte>, t1: seq<bv8>, mR: seq<byte>, f: DirEntry, got: seq<byte>)
    requires IsMedia(m0) && |t0| == TABLE_SIZE && IsMedia(mW) && WellSized(e)
    requires Opened(crc32, m0, t0, mW, e, key, size, FModeWrite) && !NamedAt(m0, 0, key)
    requires FirstNamed(m0, key, 0) != 0 ==> CLUSTER_TABLE_OFFSET <= EntryOf(m0, FirstNamed(m0, key, 0)).address
    requires 0 < n < 0x1_0000 && n as nat <= |data| && AddrOf(e, 0) + n as nat <= |mW|
    requires m1 == WrittenAndClosed(crc32, mW, e, 0, n as nat, data)
    requires |t1| == TABLE_SIZE && IsMedia(m1) && Opened(crc32, m1, t1, mR, f, key, 0, FModeRead)
    requires |got| == ReadCount(n, f.size, 0) as nat
    requires |got| > 0 ==> AddrOf(f, 0) + |got| <= |mR| && got == mR[AddrOf(f, 0)..AddrOf(f, 0) + |got|]
    ensures got == data[..n]
  {
    var idx := OpenedForWriteAt(crc32, m0, t0, mW, e, key, size);
    WrittenClosedAt(crc32, mW, e, key, idx, data, n as nat, m1);
    ReadBackAt(crc32, e, key, idx, data, n, m1, t1, mR, f, got);
  }

  /**
   * WriteThenReadBack once the write and close have left the file at idx, closed with the grown
   * size and holding the data: ReadBytes's open finds it there and reads the data back.
   */
  lemma ReadBackAt(crc32: (seq<byte>, u32) -> u32, e: DirEntry, key: seq<byte>, idx: nat,
                   data: seq<byte>, n: u32, m1: seq<byte>, t1: seq<bv8>, mR: seq<byte>, f: DirEntry, got: seq<byte>)
    requires WellSized(e) && 0 < idx < DIR_ENTRIES && CLUSTER_TABLE_OFFSET <= e.address
    requires 0 < n < 0x1_0000 && n as nat <= |data| && IsMedia(m1) && e.address + n as nat <= |m1|
    requires FirstNamed(m1, key, 0) == idx
    requires EntryOf(m1, idx) == e.(size := GrownSize(e.size, n as nat), status := FStateClosed)
    requires m1[e.address..e.address + n as nat] == data[..n]
    requires |t1| == TABLE_SIZE && Opened(crc32, m1, t1, mR, f, key, 0, FModeRead)
    requires |got| == ReadCount(n, f.size, 0) as nat
    requires |got| > 0 ==> AddrOf(f, 0) + |got| <= |mR| && got == mR[AddrOf(f, 0)..AddrOf(f, 0) + |got|]
    ensures got == data[..n]
  {
    var g := e.(size := GrownSize(e.size, n as nat), status := FStateClosed);
    ReopenedAt(crc32, m1, t1, mR, f, key, idx, g);
    GrownReadsBack(e.size, n);
    ReadBackData(crc32, m1, idx, f, e.address, data[..n], mR, got);
  }

  /** What the read gets: the bytes the write left, which the open's SaveDirEntry does not touch. */
  lemma ReadBackData(crc32: (seq<byte>, u32) -> u32, m1: seq<byte>, idx: nat, f: DirEntry, a: nat, d: seq<byte>,
                     mR: seq<byte>, got: seq<byte>)
    requires IsMedia(m1) && idx < DIR_ENTRIES && WellSized(f) && mR == StoreEntry(crc32, m1, idx, f)
    requires CLUSTER_TABLE_OFFSET <= a && a + |d| <= |m1| && m1[a..a + |d|] == d
    requires |got| == |d| > 0 && got == mR[a..a + |got|]
    ensures got == d
  {
    DataThroughStore(crc32, m1, idx, f, a, d, mR);
  }

  /** A write past the directory leaves every directory entry as it is. */
  lemma WriteMissesDirectory(m: seq<byte>, a: nat, d: seq<byte>)
    requires IsMedia(m) && CLUSTER_TABLE_OFFSET <= a && a + |d| <= |m|
    ensures forall j :: 0 <= j < DIR_ENTRIES ==> EntryOf(Written(m, a, d), j) == EntryOf(m, j)
  {
    forall j | 0 <= j < DIR_ENTRIES
      ensures EntryOf(Written(m, a, d), j) == EntryOf(m, j)
    {
      WrittenKeepsEntry(m, a, d, j);
    }
  }

  /** Storing an entry under the name it had keeps every name of the directory. */
  lemma StoreKeepsNames(crc32: (seq<byte>, u32) -> u32, m: seq<byte>, idx: nat, g: DirEntry)
    requires IsMedia(m) && idx < DIR_ENTRIES && WellSized(g) && EntryOf(m, idx).name == g.name
    ensures EntryOf(StoreEntry(crc32, m, idx, g), idx) == g
    ensures forall j :: 0 <= j < DIR_ENTRIES ==> EntryOf(StoreEntry(crc32, m, idx, g), j).name == EntryOf(m, j).name
  {
    forall j | 0 <= j < DIR_ENTRIES
      ensures EntryOf(StoreEntry(crc32, m, idx, g), j).name == EntryOf(m, j).name
    {
      StoreEntryFacts(crc32, m, idx, g, j);
    }
    StoreEntryFacts(crc32, m, idx, g, idx);
  }

  /** A read from the start of a file a write of n bytes from the start grew gets all n bytes. */
  lemma GrownReadsBack(size: u16, n: u32)
    requires 0 < n < 0x1_0000
    ensures ReadCount(n, GrownSize(size, n as nat), 0) == n
  {
  }

  /** ReadBytes's open of the file found at idx: its entry marked open for reading and stored. */
  lemma ReopenedAt(crc32: (seq<byte>, u32) -> u32, m1: seq<byte>, t1: seq<bv8>, mR: seq<byte>, f: DirEntry,
                   key: seq<byte>, idx: nat, g: DirEntry)
    requires IsMedia(m1) && |t1| == TABLE_SIZE && Opened(crc32, m1, t1, mR, f, key, 0, FModeRead)
    requires 0 < idx < DIR_ENTRIES && FirstNamed(m1, key, 0) == idx && EntryOf(m1, idx) == g
    ensures f == g.(status := FStateOpenedR) && WellSized(f) == WellSized(g) && mR == StoreEntry(crc32, m1, idx, f)
  {
  }

  /**
   * What WriteBytes's write and close leave at the file's index idx: the file still found there
   * under the key, its entry closed with the grown size, and the bytes in its clusters.
   */
  lemma WrittenClosedAt(crc32: (seq<byte>, u32) -> u32, mW: seq<byte>, e: DirEntry, key: seq<byte>,
                        idx: nat, data: seq<byte>, n: nat, m1: seq<byte>)
    requires IsMedia(mW) && WellSized(e) && 0 < idx < DIR_ENTRIES && FirstNamed(mW, key, 0) == idx
    requires SameName(e.name, key) && EntryOf(mW, idx) == e && CLUSTER_TABLE_OFFSET <= e.address
    requires n <= |data| && AddrOf(e, 0) + n <= |mW| && m1 == WrittenAndClosed(crc32, mW, e, 0, n, data)
    ensures IsMedia(m1) && FirstNamed(m1, key, 0) == idx
    ensures EntryOf(m1, idx) == e.(size := GrownSize(e.size, n), status := FStateClosed)
    ensures m1[e.address..e.address + n] == data[..n]
  {
    var a := e.address;
    var w := Written(mW, a, data[..n]);
    var f := e.(size := GrownSize(e.size, n));
    WrittenAndClosedIs(crc32, mW, e, 0, n, data, w, f);
    WrittenClosedEntry(crc32, mW, e, key, idx, data[..n], w, m1, f.(status := FStateClosed));
    WrittenClosedData(crc32, mW, a, data[..n], w, idx, f.(status := FStateClosed), m1);
  }

  /** The data half of WrittenClosedAt: the bytes written at a survive the close's store. */
  lemma WrittenClosedData(crc32: (seq<byte>, u32) -> u32, mW: seq<byte>, a: nat, d: seq<byte>, w: seq<byte>,
                          idx: nat, g: DirEntry, m1: seq<byte>)
    requires IsMedia(mW) && CLUSTER_TABLE_OFFSET <= a && a + |d| <= |mW| && w == Written(mW, a, d)
    requires idx < DIR_ENTRIES && WellSized(g) && m1 == StoreEntry(crc32, w, idx, g)
    ensures |m1| == |mW| && m1[a..a + |d|] == d
  {
    assert w[a..a + |d|] == d;
    DataThroughStore(crc32, w, idx, g, a, d, m1);
  }

  /** The directory half of WrittenClosedAt: the write w missed it and the close stored g at idx. */
  lemma WrittenClosedEntry(crc32: (seq<byte>, u32) -> u32, mW: seq<byte>, e: DirEntry, key: seq<byte>,
                           idx: nat, d: seq<byte>, w: seq<byte>, m1: seq<byte>, g: DirEntry)
    requires IsMedia(mW) && WellSized(e) && 0 < idx < DIR_ENTRIES && FirstNamed(mW, key, 0) == idx
    requires SameName(e.name, key) && EntryOf(mW, idx) == e && CLUSTER_TABLE_OFFSET <= e.address
    requires e.address + |d| <= |mW| && w == Written(mW, e.address, d)
    requires WellSized(g) && g.name == e.name && IsMedia(w) && m1 == StoreEntry(crc32, w, FirstNamed(w, e.name, 0), g)
    ensures FirstNamed(w, e.name, 0) == idx && FirstNamed(m1, key, 0) == idx && EntryOf(m1, idx) == g
  {
    WriteMissesDirectory(mW, e.address, d);
    SameDirectoryFinds(mW, w, e.name);
    SameMatches(mW, e.name, key);
    ClosedFound(crc32, mW, w, m1, key, idx, g);
  }

  /**
   * The close after a write that left the directory as it was: the file is still found at idx
   * and holds the entry stored.
   */
  lemma ClosedFound(crc32: (seq<byte>, u32) -> u32, mW: seq<byte>, w: seq<byte>, m1: seq<byte>,
                    key: seq<byte>, idx: nat, g: DirEntry)
    requires IsMedia(mW) && IsMedia(w) && forall j :: 0 <= j < DIR_ENTRIES ==> EntryOf(w, j) == EntryOf(mW, j)
    requires idx < DIR_ENTRIES && FirstNamed(mW, key, 0) == idx && WellSized(g) && g.name == EntryOf(mW, idx).name
    requires m1 == StoreEntry(crc32, w, idx, g)
    ensures FirstNamed(m1, key, 0) == idx && EntryOf(m1, idx) == g
  {
    SameDirectoryFinds(mW, w, key);
    StoreKeepsNames(crc32, w, idx, g);
    SameDirectoryFinds(w, m1, key);
  }

  /** Bytes past the directory survive SaveDirEntry. */
  lemma DataThroughStore(crc32: (seq<byte>, u32) -> u32, m: seq<byte>, idx: nat, g: DirEntry, a: nat, d: seq<byte>,
                         r: seq<byte>)
    requires IsMedia(m) && idx < DIR_ENTRIES && WellSized(g) && r == StoreEntry(crc32, m, idx, g)
    requires CLUSTER_TABLE_OFFSET <= a && a + |d| <= |m| && m[a..a + |d|] == d
    ensures |r| == |m| && r[a..a + |d|] == d
  {
    StoreEntryKeepsData(crc32, m, idx, g);
    forall k | 0 <= k < |d|
      ensures r[a..a + |d|][k] == d[k]
    {
      assert r[a + k] == m[a + k];
    }
  }
}
