// The per-transfer operations of the single-connection TFTP server of
// Core/Src/tftp/tftp_server.c, on the context of TftpPacket: opening and closing the served
// file, reading it block by block, answering with ACK and ERR packets, the rule that accepts
// or re-acknowledges a received DATA block, and the read transfer that stops on a short block
// (section 6 of RFC 1350).

module TftpServer {
  import opened Common
  import opened StrCopy
  import opened TftpPacket
  import opened Nvmem

  // tftp_errorcode_t of Core/Inc/tftp/TFTP_data.h, the error codes of RFC 1350
  const TFTP_ERROR_NOERROR: u16 := 0
  const TFTP_ERROR_FILE_NOT_FOUND: u16 := 1
  const TFTP_ERROR_ACCESS_VIOLATION: u16 := 2
  const TFTP_ERROR_DISK_FULL: u16 := 3
  const TFTP_ERROR_ILLEGAL_OPERATION: u16 := 4
  const TFTP_ERROR_UNKNOWN_TRFR_ID: u16 := 5
  const TFTP_ERROR_FILE_EXISTS: u16 := 6
  const TFTP_ERROR_NO_SUCH_USER: u16 := 7

  const TFTP_MAX_RETRIES: nat := 5
  /** The one transmit and receive buffer: a full DATA packet. */
  const TFTP_BUFFER_SIZE: nat := TFTP_DATA_LEN_MAX + TFTP_OPCODE_LEN + TFTP_BLKNUM_LEN
  /** FLASH_BANK1_END - FLASH_BASE + 1 on the STM32F103xB: the firmware image is 128 KiB. */
  const IMAGE_SIZE: nat := 0x2_0000

  /** The only transfer mode served, after upper-casing. */
  const OCTET: seq<byte> := [0x4F, 0x43, 0x54, 0x45, 0x54]
  const SETTINGS_BIN: seq<byte> := [0x73, 0x65, 0x74, 0x74, 0x69, 0x6E, 0x67, 0x73, 0x2E, 0x62, 0x69, 0x6E]
  const IMAGE_BIN: seq<byte> := [0x69, 0x6D, 0x61, 0x67, 0x65, 0x2E, 0x62, 0x69, 0x6E]
  /** The served directory: entry 0 is the settings record, entry 1 the firmware image. */
  const DIRECTORY: seq<seq<byte>> := [SETTINGS_BIN, IMAGE_BIN]

  /**
   * TFTP_Init_Context (tftp_server.c:572-593): every counter zero, every string empty, no
   * file open, the machine idle; such a context describes no packet.
   */
  method InitContext(ctx: Context)
    requires ctx.FileName.Length == TFTP_MAX_FILENAME_LEN + 1 && ctx.Mode.Length == TFTP_MAX_MODE_LEN + 1
    requires ctx.ErrMsg.Length == TFTP_MAX_ERRMSG_LEN + 1
    requires ctx.FileName != ctx.Mode && ctx.FileName != ctx.ErrMsg && ctx.Mode != ctx.ErrMsg
    modifies ctx, ctx.FileName, ctx.Mode, ctx.ErrMsg
    ensures ctx.Valid() && ctx.Received() == Malformed
    ensures ctx.BlockNum == 0 && ctx.DataLen == 0 && ctx.DataPtr == Null && ctx.ErrCode == TFTP_ERROR_NOERROR
    ensures CStr(ctx.ErrMsg[..]) == [] && CStr(ctx.FileName[..]) == [] && CStr(ctx.Mode[..]) == []
    ensures ctx.FilePos == 0 && ctx.FileSize == 0 && ctx.OpCode == 0
    ensures ctx.fstate == FS_CLOSED && ctx.State == IDLE
  {
    ctx.BlockNum := 0;
    ctx.DataLen := 0;
    ctx.DataPtr := Null;
    ctx.ErrCode := TFTP_ERROR_NOERROR;
    ctx.ErrMsg[0] := 0;
    ctx.FileName[0] := 0;
    ctx.FilePos := 0;
    ctx.FileSize := 0;
    ctx.OpCode := 0;
    ctx.Mode[0] := 0;
    ctx.fstate := FS_CLOSED;
    ctx.State := IDLE;
    assert ctx.ErrMsg[..][0] == 0 && ctx.FileName[..][0] == 0 && ctx.Mode[..][0] == 0;
  }

  // ---------------------------------------------------------------------------------------
  // The transfer mode

  /** b & 0xDF: bit 5 cleared, which upper-cases an ASCII letter. */
  function Upcase(b: byte): byte
  {
    if (b / 0x20) % 2 == 1 then b - 0x20 else b
  }

  /** The mode field after TFTP_Open_File upper-cases at most TFTP_MAX_MODE_LEN bytes before its NUL. */
  function UpperMode(m: seq<byte>): (u: seq<byte>)
    ensures |u| == |m|
  {
    var n := Min(StrLen(m), TFTP_MAX_MODE_LEN);
    seq(|m|, i requires 0 <= i < |m| => if i < n then Upcase(m[i]) else m[i])
  }

  /** The upper-casing loop of TFTP_Open_File (tftp_server.c:505-513), in place on the mode field. */
  method UpcaseMode(mode: array<byte>)
    requires mode.Length > TFTP_MAX_MODE_LEN
    modifies mode
    ensures mode[..] == UpperMode(old(mode[..]))
  {
    ghost var m := mode[..];
    var i, fl := 0, TFTP_MAX_MODE_LEN;
    while mode[i] != 0 && fl > 0
      invariant 0 <= i <= TFTP_MAX_MODE_LEN && fl == TFTP_MAX_MODE_LEN - i
      invariant forall k :: 0 <= k < i ==> m[k] != 0
      invariant forall k :: 0 <= k < mode.Length ==> mode[k] == if k < i then Upcase(m[k]) else m[k]
      decreases fl
    {
      mode[i] := Upcase(mode[i]);
      i, fl := i + 1, fl - 1;
    }
    assert i == Min(StrLen(m), TFTP_MAX_MODE_LEN);
    assert forall k :: 0 <= k < mode.Length ==> mode[..][k] == UpperMode(m)[k];
  }

  /** A byte upper-cases to the capital letter c exactly when it is c or its lower-case form. */
  lemma UpcaseToCapital(b: byte, c: byte)
    requires 0x41 <= c <= 0x5A
    ensures Upcase(b) == c <==> b == c || b == c + 0x20
  {
  }

  /** "OCTET" is written in capital letters. */
  lemma OctetCapital(i: nat)
    requires i < |OCTET|
    ensures 0x41 <= OCTET[i] <= 0x5A
  {
  }

  /** Only NUL and the space character upper-case to NUL. */
  lemma UpcaseToNul(b: byte)
    ensures Upcase(b) == 0 <==> b == 0 || b == 0x20
  {
  }

  /** The mode a client sent spells "octet" in any mix of cases, ending in a NUL or a space. */
  predicate SpellsOctet(m: seq<byte>)
  {
    && StrLen(m) >= 5
    && (forall i :: 0 <= i < 5 ==> m[i] == OCTET[i] || m[i] == OCTET[i] + 0x20)
    && (StrLen(m) == 5 || m[5] == 0x20)
  }

  /**
   * TFTP_Open_File accepts the mode exactly when it spells "octet" without regard to case. A
   * space after the fifth letter upper-cases to a NUL and so ends the string early, which the
   * comparison with "OCTET" then accepts too.
   */
  lemma ModeAccepted(m: seq<byte>)
    requires |m| == TFTP_MAX_MODE_LEN + 1 && StrLen(m) < |m|
    ensures CStr(UpperMode(m)) == OCTET <==> SpellsOctet(m)
  {
    if CStr(UpperMode(m)) == OCTET {
      AcceptedModeSpellsOctet(m);
    }
    if SpellsOctet(m) {
      OctetModeAccepted(m);
    }
  }

  lemma AcceptedModeSpellsOctet(m: seq<byte>)
    requires |m| == TFTP_MAX_MODE_LEN + 1 && StrLen(m) < |m|
    requires CStr(UpperMode(m)) == OCTET
    ensures SpellsOctet(m)
  {
    var u := UpperMode(m);
    var n := StrLen(m);
    assert StrLen(u) == 5;
    UpperModeKeepsNul(m);
    forall i | 0 <= i < 5
      ensures m[i] == OCTET[i] || m[i] == OCTET[i] + 0x20
    {
      assert u[..5][i] == OCTET[i] && u[i] == Upcase(m[i]);
      OctetCapital(i);
      UpcaseToCapital(m[i], OCTET[i]);
    }
    if n > 5 {
      assert u[5] == 0 && u[5] == Upcase(m[5]);
      UpcaseToNul(m[5]);
    }
  }

  lemma OctetModeAccepted(m: seq<byte>)
    requires |m| == TFTP_MAX_MODE_LEN + 1 && StrLen(m) < |m|
    requires SpellsOctet(m)
    ensures CStr(UpperMode(m)) == OCTET
  {
    var u := UpperMode(m);
    OctetLettersUpcased(m);
    if StrLen(m) > 5 {
      UpcaseToNul(m[5]);
    }
    assert u[5] == 0;
    StrLenUnique(u, 5);
  }

  lemma OctetLettersUpcased(m: seq<byte>)
    requires |m| == TFTP_MAX_MODE_LEN + 1 && StrLen(m) < |m|
    requires SpellsOctet(m)
    ensures UpperMode(m)[..5] == OCTET
  {
    var u := UpperMode(m);
    forall i | 0 <= i < 5
      ensures u[i] == OCTET[i]
    {
      UpcaseToCapital(m[i], OCTET[i]);
    }
  }

  // ---------------------------------------------------------------------------------------
  // The directory

  /** strcmp(entry, name) == 0, as TFTP_Open_File compares: the whole entry name. */
  predicate NameMatchesAsWritten(entry: seq<byte>, name: seq<byte>)
  {
    name == entry
  }

  /**
   * The comparison within the width of the name field: the request carries the entry's name,
   * cut to the TFTP_MAX_FILENAME_LEN characters the deserializer keeps.
   */
  predicate NameMatches(entry: seq<byte>, name: seq<byte>)
  {
    name == entry[..Min(|entry|, TFTP_MAX_FILENAME_LEN)]
  }

  /**
   * As written, no request can name a served file: the deserializer keeps at most eight
   * characters of the name, and both directory names are longer, so every open fails with
   * TFTP_ERROR_FILE_NOT_FOUND.
   */
  lemma NoNameMatchesAsWritten(name: seq<byte>)
    requires |name| <= TFTP_MAX_FILENAME_LEN
    ensures forall d :: 0 <= d < |DIRECTORY| ==> !NameMatchesAsWritten(DIRECTORY[d], name)
  {
    assert |DIRECTORY[0]| == 12 && |DIRECTORY[1]| == 9;
  }

  /** The first eight characters of a served name, as a request carries them, pick that entry alone. */
  lemma ServedNameField(d: nat)
    requires d < |DIRECTORY|
    ensures var field := DIRECTORY[d][..TFTP_MAX_FILENAME_LEN];
      && CStr(field) == field
      && forall e :: 0 <= e < |DIRECTORY| ==> (NameMatches(DIRECTORY[e], field) <==> e == d)
  {
    var field := DIRECTORY[d][..TFTP_MAX_FILENAME_LEN];
    assert forall k :: 0 <= k < |field| ==> field[k] != 0;
    StrLenOfNulFree(field);
    assert SETTINGS_BIN[..8] != IMAGE_BIN[..8] by {
      assert SETTINGS_BIN[0] != IMAGE_BIN[0];
    }
  }

  /**
   * With the corrected comparison, a request for a served file (its name cut to the field
   * width, its mode NUL-padded) is parsed to a name that matches that entry and no other.
   */
  lemma RequestFindsEntry(op: u16, d: nat, modeField: seq<byte>)
    requires d < |DIRECTORY| && (op == TFTP_RRQ || op == TFTP_WRQ)
    requires |modeField| == TFTP_MAX_MODE_LEN
    ensures var field := DIRECTORY[d][..TFTP_MAX_FILENAME_LEN];
      var k := Parse(EncodeRequest(op, field, modeField));
      && k == Request(op, field, CStr(modeField))
      && forall e :: 0 <= e < |DIRECTORY| ==> (NameMatches(DIRECTORY[e], k.name) <==> e == d)
  {
    var field := DIRECTORY[d][..TFTP_MAX_FILENAME_LEN];
    ServedNameField(d);
    RequestRoundTrip(op, field, modeField);
  }

  /**
   * TFTP_Open_File (tftp_server.c:495-546), with the directory compared within the width of
   * the name field. A context with a file already open gets TFTP_ERROR_ACCESS_VIOLATION and
   * nothing else changes. Otherwise the mode is upper-cased in place; a mode other than
   * "OCTET" gives TFTP_ERROR_ILLEGAL_OPERATION, a name not in the directory
   * TFTP_ERROR_FILE_NOT_FOUND. A name found sets FilePos 0, FileSize to the entry's size, and
   * opens the file for reading on RRQ or for writing on WRQ.
   */
  method OpenFile(ctx: Context, settingsSize: nat)
    requires ctx.Valid()
    modifies ctx`ErrCode, ctx`FilePos, ctx`FileSize, ctx`fstate, ctx.Mode
    ensures ctx.Valid() && ctx.OpCode == old(ctx.OpCode)
    ensures old(ctx.fstate) != FS_CLOSED ==>
      && ctx.ErrCode == TFTP_ERROR_ACCESS_VIOLATION && ctx.Mode[..] == old(ctx.Mode[..])
      && ctx.fstate == old(ctx.fstate) && ctx.FilePos == old(ctx.FilePos) && ctx.FileSize == old(ctx.FileSize)
    ensures old(ctx.fstate) == FS_CLOSED ==> ctx.Mode[..] == UpperMode(old(ctx.Mode[..]))
    ensures old(ctx.fstate) == FS_CLOSED && CStr(ctx.Mode[..]) != OCTET ==>
      && ctx.ErrCode == TFTP_ERROR_ILLEGAL_OPERATION
      && ctx.fstate == old(ctx.fstate) && ctx.FilePos == old(ctx.FilePos) && ctx.FileSize == old(ctx.FileSize)
    ensures old(ctx.fstate) == FS_CLOSED && CStr(ctx.Mode[..]) == OCTET ==>
      var name := CStr(ctx.FileName[..]);
      if forall d :: 0 <= d < |DIRECTORY| ==> !NameMatches(DIRECTORY[d], name) then
        && ctx.ErrCode == TFTP_ERROR_FILE_NOT_FOUND
        && ctx.fstate == old(ctx.fstate) && ctx.FilePos == old(ctx.FilePos) && ctx.FileSize == old(ctx.FileSize)
      else
        var d := if NameMatches(DIRECTORY[0], name) then 0 else 1;
        && ctx.FilePos == 0 && ctx.FileSize == (if d == 0 then settingsSize else IMAGE_SIZE)
        && (ctx.OpCode == TFTP_RRQ ==> ctx.fstate == FS_OPENED_READ && ctx.ErrCode == TFTP_ERROR_NOERROR)
        && (ctx.OpCode == TFTP_WRQ ==> ctx.fstate == FS_OPENED_WRITE && ctx.ErrCode == TFTP_ERROR_NOERROR)
        && (ctx.OpCode != TFTP_RRQ && ctx.OpCode != TFTP_WRQ ==>
              ctx.fstate == old(ctx.fstate) && ctx.ErrCode == TFTP_ERROR_ILLEGAL_OPERATION)
  {
    if ctx.fstate == FS_OPENED_READ || ctx.fstate == FS_OPENED_WRITE {
      ctx.ErrCode := TFTP_ERROR_ACCESS_VIOLATION;
      return;
    }
    UpcaseMode(ctx.Mode);
    UpperModeKeepsNul(old(ctx.Mode[..]));
    var mode := CString(ctx.Mode);
    if mode != OCTET {
      ctx.ErrCode := TFTP_ERROR_ILLEGAL_OPERATION;
      return;
    }
    var name := CString(ctx.FileName);
    OpenNamed(ctx, name, settingsSize);
  }

  /**
   * The directory search of TFTP_Open_File for the file name name: the first entry it matches
   * is opened for the request's direction.
   */
  method OpenNamed(ctx: Context, name: seq<byte>, settingsSize: nat)
    modifies ctx`ErrCode, ctx`FilePos, ctx`FileSize, ctx`fstate
    ensures if forall d :: 0 <= d < |DIRECTORY| ==> !NameMatches(DIRECTORY[d], name) then
        && ctx.ErrCode == TFTP_ERROR_FILE_NOT_FOUND
        && ctx.fstate == old(ctx.fstate) && ctx.FilePos == old(ctx.FilePos) && ctx.FileSize == old(ctx.FileSize)
      else
        var d := if NameMatches(DIRECTORY[0], name) then 0 else 1;
        && ctx.FilePos == 0 && ctx.FileSize == (if d == 0 then settingsSize else IMAGE_SIZE)
        && (ctx.OpCode == TFTP_RRQ ==> ctx.fstate == FS_OPENED_READ && ctx.ErrCode == TFTP_ERROR_NOERROR)
        && (ctx.OpCode == TFTP_WRQ ==> ctx.fstate == FS_OPENED_WRITE && ctx.ErrCode == TFTP_ERROR_NOERROR)
        && (ctx.OpCode != TFTP_RRQ && ctx.OpCode != TFTP_WRQ ==>
              ctx.fstate == old(ctx.fstate) && ctx.ErrCode == TFTP_ERROR_ILLEGAL_OPERATION)
  {
    ctx.ErrCode := TFTP_ERROR_FILE_NOT_FOUND;
    var d := 0;
    while d < |DIRECTORY|
      invariant 0 <= d <= |DIRECTORY|
      invariant forall e :: 0 <= e < d ==> !NameMatches(DIRECTORY[e], name)
    {
      if NameMatches(DIRECTORY[d], name) {
        ctx.ErrCode := TFTP_ERROR_NOERROR;
        ctx.FilePos := 0;
        ctx.FileSize := if d == 0 then settingsSize else IMAGE_SIZE;
        if ctx.OpCode == TFTP_RRQ {
          ctx.fstate := FS_OPENED_READ;
        } else if ctx.OpCode == TFTP_WRQ {
          ctx.fstate := FS_OPENED_WRITE;
        } else {
          ctx.ErrCode := TFTP_ERROR_ILLEGAL_OPERATION;
        }
        return;
      }
      d := d + 1;
    }
  }

  /** Upper-casing never moves the field's NUL past its end. */
  lemma UpperModeKeepsNul(m: seq<byte>)
    requires |m| == TFTP_MAX_MODE_LEN + 1 && StrLen(m) < |m|
    ensures StrLen(UpperMode(m)) <= StrLen(m)
  {
    var u := UpperMode(m);
    assert u[StrLen(m)] == 0;
    StrLenAtMostNul(u, StrLen(m));
  }

  /** The C string held by a char array, read up to its first NUL (the strcmp operand). */
  method CString(a: array<byte>) returns (s: seq<byte>)
    ensures s == CStr(a[..])
  {
    var n := 0;
    while n < a.Length && a[n] != 0
      invariant 0 <= n <= a.Length
      invariant forall k :: 0 <= k < n ==> a[k] != 0
    {
      n := n + 1;
    }
    if n < a.Length {
      assert a[..] == a[..n] + a[n..];
      StrLenOfTerminated(a[..n], a[n..]);
    } else {
      assert a[..n] == a[..];
      StrLenOfNulFree(a[..]);
    }
    s := a[..n];
  }

  /**
   * TFTP_Close_File (tftp_server.c:554-564): an open file is closed, its position reset and
   * the error cleared; closing a file that is not open is TFTP_ERROR_ILLEGAL_OPERATION.
   */
  method CloseFile(ctx: Context)
    modifies ctx`fstate, ctx`FilePos, ctx`ErrCode
    ensures old(ctx.fstate) != FS_CLOSED ==>
      ctx.fstate == FS_CLOSED && ctx.FilePos == 0 && ctx.ErrCode == TFTP_ERROR_NOERROR
    ensures old(ctx.fstate) == FS_CLOSED ==>
      ctx.fstate == FS_CLOSED && ctx.FilePos == old(ctx.FilePos) && ctx.ErrCode == TFTP_ERROR_ILLEGAL_OPERATION
  {
    if ctx.fstate == FS_OPENED_READ || ctx.fstate == FS_OPENED_WRITE {
      ctx.fstate := FS_CLOSED;
      ctx.FilePos := 0;
      ctx.ErrCode := TFTP_ERROR_NOERROR;
    } else {
      ctx.ErrCode := TFTP_ERROR_ILLEGAL_OPERATION;
    }
  }

  // ---------------------------------------------------------------------------------------
  // Sending, and the read transfer

  /**
   * TFTP_Serialize_and_Send (tftp_server.c:417-436): the context's packet is serialized into
   * the transfer buffer and handed to the socket. An unknown opcode, or a socket write that
   * fails (sendOk false), sets TFTP_STATE_ERR_ABORT and nothing is sent.
   */
  method SerializeAndSend(ctx: Context, buf: array<byte>, sendOk: bool) returns (out: Option<seq<byte>>)
    requires ctx.Valid() && ctx.DataReadable(TFTP_BUFFER_SIZE) && buf.Length == TFTP_BUFFER_SIZE
    requires buf != ctx.FileName && buf != ctx.Mode && buf != ctx.ErrMsg
    requires ctx.OpCode == TFTP_DATA && ctx.DataBuf == buf ==> ctx.DataPtr == Addr(TFTP_ACK_PKT_LEN)
    modifies buf, ctx`State
    ensures TFTP_RRQ <= ctx.OpCode <= TFTP_ERR && sendOk ==>
      out == Some(old(ctx.Outgoing(TFTP_BUFFER_SIZE))) && ctx.State == old(ctx.State)
    ensures !(TFTP_RRQ <= ctx.OpCode <= TFTP_ERR && sendOk) ==> out == None && ctx.State == ERR_ABORT
  {
    var r := Serialize(buf, TFTP_BUFFER_SIZE, ctx);
    if r == UINT32_MAX {
      ctx.State := ERR_ABORT;
      return None;
    }
    if !sendOk {
      ctx.State := ERR_ABORT;
      return None;
    }
    out := Some(buf[..r]);
  }

  /**
   * The length of the block TFTP_Block_Read takes at position pos of a file of size bytes:
   * a full TFTP_DATA_LEN_MAX, or what is left. Only the last block is short, and it ends the
   * file.
   */
  function BlockLen(pos: nat, size: nat): (n: nat)
    requires pos <= size
    ensures n <= TFTP_DATA_LEN_MAX && pos + n <= size
    ensures n == Min(TFTP_DATA_LEN_MAX, size - pos)
    ensures n < TFTP_DATA_LEN_MAX ==> pos + n == size
  {
    if pos + TFTP_DATA_LEN_MAX < size then TFTP_DATA_LEN_MAX else size - pos
  }

  /** The settings record is read from FRAM, which may fail; the image is read from flash. */
  predicate BlockReadable(isSettings: bool, pos: nat, n: nat, ioOk: bool)
  {
    !isSettings || n == 0 || (InChip(pos, n) && ioOk)
  }

  /**
   * TFTP_Block_Read (tftp_server.c:641-691): a file not open for reading gives
   * TFTP_ERROR_ILLEGAL_OPERATION. Otherwise the next block is placed just past the DATA header
   * in the transfer buffer, DataLen set to its length, FilePos advanced past it and BlockNum
   * incremented (modulo 2^16). A file of the settings record's size is read from FRAM at
   * address FilePos; a failed read gives TFTP_ERROR_ACCESS_VIOLATION and advances nothing.
   * Any other file is read from the flash image. FilePos never passes FileSize.
   */
  method BlockRead(ctx: Context, buf: array<byte>, fram: array<byte>, flash: seq<byte>, settingsSize: nat, ioOk: bool)
    requires ctx.FilePos <= ctx.FileSize
    requires buf.Length == TFTP_BUFFER_SIZE && fram.Length == NVMEM_SIZE && buf != fram
    requires ctx.fstate == FS_OPENED_READ && ctx.FileSize != settingsSize ==> ctx.FileSize <= |flash|
    modifies ctx`DataLen, ctx`DataPtr, ctx`DataBuf, ctx`FilePos, ctx`BlockNum, ctx`ErrCode, buf
    ensures ctx.FilePos <= ctx.FileSize
    ensures old(ctx.fstate) != FS_OPENED_READ ==>
      && ctx.ErrCode == TFTP_ERROR_ILLEGAL_OPERATION && buf[..] == old(buf[..])
      && ctx.DataLen == old(ctx.DataLen) && ctx.DataPtr == old(ctx.DataPtr) && ctx.DataBuf == old(ctx.DataBuf)
      && ctx.FilePos == old(ctx.FilePos) && ctx.BlockNum == old(ctx.BlockNum)
    ensures old(ctx.fstate) == FS_OPENED_READ ==>
      var pos := old(ctx.FilePos);
      var n := BlockLen(pos, ctx.FileSize);
      var settings := ctx.FileSize == settingsSize;
      && ctx.DataLen == n && ctx.DataBuf == buf && ctx.DataPtr == Addr(TFTP_ACK_PKT_LEN)
      && buf[..TFTP_ACK_PKT_LEN] == old(buf[..TFTP_ACK_PKT_LEN])
      && if BlockReadable(settings, pos, n, ioOk) then
           && ctx.FilePos == pos + n && ctx.BlockNum == (old(ctx.BlockNum) + 1) % 0x1_0000
           && ctx.ErrCode == old(ctx.ErrCode)
           && (n > 0 ==>
                 buf[TFTP_ACK_PKT_LEN..TFTP_ACK_PKT_LEN + n] == if settings then old(fram[pos..pos + n]) else flash[pos..pos + n])
         else
           && ctx.FilePos == pos && ctx.BlockNum == old(ctx.BlockNum)
           && ctx.ErrCode == TFTP_ERROR_ACCESS_VIOLATION
  {
    if ctx.fstate != FS_OPENED_READ {
      ctx.ErrCode := TFTP_ERROR_ILLEGAL_OPERATION;
      return;
    }
    var stopval := if ctx.FilePos + TFTP_DATA_LEN_MAX < ctx.FileSize then TFTP_DATA_LEN_MAX
      else ctx.FileSize - ctx.FilePos;
    ctx.DataLen := stopval;
    ctx.DataBuf, ctx.DataPtr := buf, Addr(TFTP_OPCODE_LEN + TFTP_BLKNUM_LEN);
    var ok := true;
    if stopval != 0 {
      ok := FetchBlock(buf, fram, flash, ctx.FileSize == settingsSize, ctx.FilePos, stopval, ioOk);
    }
    if ok {
      ctx.FilePos := ctx.FilePos + stopval;
      ctx.BlockNum := (ctx.BlockNum + 1) % 0x1_0000;
    } else {
      ctx.ErrCode := TFTP_ERROR_ACCESS_VIOLATION;
    }
  }

  /**
   * The read of TFTP_Block_Read proper: n > 0 bytes from position pos of the file, from FRAM for
   * the settings record (which can fail) or from the flash image, just past the DATA header.
   */
  method FetchBlock(buf: array<byte>, fram: array<byte>, flash: seq<byte>, isSettings: bool, pos: nat, n: nat,
                    ioOk: bool) returns (ok: bool)
    requires buf.Length == TFTP_BUFFER_SIZE && fram.Length == NVMEM_SIZE && buf != fram
    requires 0 < n <= TFTP_DATA_LEN_MAX && (!isSettings ==> pos + n <= |flash|)
    modifies buf
    ensures ok <==> BlockReadable(isSettings, pos, n, ioOk)
    ensures buf[..TFTP_ACK_PKT_LEN] == old(buf[..TFTP_ACK_PKT_LEN])
    ensures ok ==> buf[TFTP_ACK_PKT_LEN..TFTP_ACK_PKT_LEN + n] == if isSettings then fram[pos..pos + n] else flash[pos..pos + n]
  {
    ghost var b0 := buf[..];
    if isSettings {
      ok := ReadFram(fram, buf, TFTP_ACK_PKT_LEN, pos, n, ioOk);
      if ok {
        PlacedAt(b0, buf[..], TFTP_ACK_PKT_LEN, fram[pos..pos + n]);
      }
    } else {
      CopyIn(buf, TFTP_ACK_PKT_LEN, flash[pos..pos + n]);
      PlacedAt(b0, buf[..], TFTP_ACK_PKT_LEN, flash[pos..pos + n]);
      ok := true;
    }
  }

  /** Bytes copied into a buffer at offset d sit there, and the bytes before d are kept. */
  lemma PlacedAt(before: seq<byte>, after: seq<byte>, d: nat, data: seq<byte>)
    requires d + |data| <= |before| && after == before[..d] + data + before[d + |data|..]
    ensures after[..d] == before[..d] && after[d..d + |data|] == data
  {
  }

  /** Where TFTP_Block_Read finds the file's bytes: FRAM for the settings record, else flash. */
  function FileSource(isSettings: bool, fram: seq<byte>, flash: seq<byte>): seq<byte>
  {
    if isSettings then fram else flash
  }

  /**
   * The DATA packets a read transfer sends from position pos of a file of size bytes held in
   * src, after block number block: full blocks until the first short one, which may be empty.
   */
  function DataBlocks(src: seq<byte>, pos: nat, size: nat, block: u16): seq<seq<byte>>
    requires pos <= size <= |src|
    decreases size - pos
  {
    var n := BlockLen(pos, size);
    var next := (block + 1) % 0x1_0000;
    [EncodeData(next, src[pos..pos + n])] + (if n == TFTP_DATA_LEN_MAX then DataBlocks(src, pos + n, size, next) else [])
  }

  /** A transfer of the rest of a file sends one packet per full block and one short block. */
  lemma {:induction false} DataBlocksCount(src: seq<byte>, pos: nat, size: nat, block: u16)
    requires pos <= size <= |src|
    ensures |DataBlocks(src, pos, size, block)| == (size - pos) / TFTP_DATA_LEN_MAX + 1
    decreases size - pos
  {
    var n := BlockLen(pos, size);
    if n == TFTP_DATA_LEN_MAX {
      DataBlocksCount(src, pos + n, size, (block + 1) % 0x1_0000);
    }
  }

  /** The first packet of a transfer, and what follows it. */
  lemma DataBlocksHead(src: seq<byte>, pos: nat, size: nat, block: u16)
    requires pos <= size <= |src|
    ensures var r := DataBlocks(src, pos, size, block);
      var n := BlockLen(pos, size);
      var next := (block + 1) % 0x1_0000;
      && r[0] == EncodeData(next, src[pos..pos + n])
      && (n == TFTP_DATA_LEN_MAX ==> r[1..] == DataBlocks(src, pos + n, size, next))
      && (n < TFTP_DATA_LEN_MAX ==> r == [r[0]])
  {
  }

  /**
   * Packet i of the transfer is read back as DATA block block + i + 1 (modulo 2^16); every
   * packet but the last carries a full block, and the last carries what remains, possibly
   * nothing, so the receiver sees the end of the file (section 6 of RFC 1350).
   */
  lemma DataBlocksParse(src: seq<byte>, pos: nat, size: nat, block: u16, i: nat)
    requires pos <= size <= |src|
    requires i <= (size - pos) / TFTP_DATA_LEN_MAX
    ensures var r := DataBlocks(src, pos, size, block);
      i < |r| && Parse(r[i]) == Data((block + i + 1) % 0x1_0000,
        if i < (size - pos) / TFTP_DATA_LEN_MAX then TFTP_DATA_LEN_MAX else (size - pos) % TFTP_DATA_LEN_MAX)
  {
    DataBlocksHeaders(src, pos, size, block, i);
    DataBlockParse(DataBlocks(src, pos, size, block)[i]);
  }

  /** Packet i of the transfer has the DATA header of block block + i + 1 and the length Parse reads. */
  lemma {:induction false} DataBlocksHeaders(src: seq<byte>, pos: nat, size: nat, block: u16, i: nat)
    requires pos <= size <= |src|
    requires i <= (size - pos) / TFTP_DATA_LEN_MAX
    ensures var r := DataBlocks(src, pos, size, block);
      i < |r| && DataBlock(r[i]) == Some((block + i + 1) % 0x1_0000)
      && |r[i]| == TFTP_ACK_PKT_LEN +
        if i < (size - pos) / TFTP_DATA_LEN_MAX then TFTP_DATA_LEN_MAX else (size - pos) % TFTP_DATA_LEN_MAX
    decreases size - pos
  {
    var n := BlockLen(pos, size);
    var next := (block + 1) % 0x1_0000;
    DataBlocksHead(src, pos, size, block);
    DataBlocksCount(src, pos, size, block);
    if i == 0 {
      HeaderBytes(TFTP_DATA, next, src[pos..pos + n]);
      FirstBlockLen(size - pos);
    } else {
      LaterBlock(pos, size, block, i);
      var r := DataBlocks(src, pos, size, block);
      var r' := DataBlocks(src, pos + TFTP_DATA_LEN_MAX, size, next);
      assert r[i] == r'[i - 1];
      DataBlocksHeaders(src, pos + TFTP_DATA_LEN_MAX, size, next, i - 1);
    }
  }

  /**
   * Packet i > 0 of a transfer is packet i - 1 of the transfer from the next block on: its
   * number and length are the same.
   */
  lemma LaterBlock(pos: nat, size: nat, block: u16, i: nat)
    requires pos <= size && 0 < i <= (size - pos) / TFTP_DATA_LEN_MAX
    ensures pos + TFTP_DATA_LEN_MAX <= size && BlockLen(pos, size) == TFTP_DATA_LEN_MAX
    ensures var next := (block + 1) % 0x1_0000;
      var pos' := pos + TFTP_DATA_LEN_MAX;
      && (next + (i - 1) + 1) % 0x1_0000 == (block + i + 1) % 0x1_0000
      && (if i - 1 < (size - pos') / TFTP_DATA_LEN_MAX then TFTP_DATA_LEN_MAX else (size - pos') % TFTP_DATA_LEN_MAX)
         == (if i < (size - pos) / TFTP_DATA_LEN_MAX then TFTP_DATA_LEN_MAX else (size - pos) % TFTP_DATA_LEN_MAX)
  {
    FullBlockStep(size - pos);
    NextBlockNumber(block, i);
  }

  /** The first block is full when a full block remains, and otherwise holds all that remains. */
  lemma FirstBlockLen(d: nat)
    ensures Min(TFTP_DATA_LEN_MAX, d) == if 0 < d / TFTP_DATA_LEN_MAX then TFTP_DATA_LEN_MAX else d % TFTP_DATA_LEN_MAX
  {
  }

  /** Taking a full block off what remains takes one off the count of full blocks. */
  lemma FullBlockStep(d: nat)
    requires d >= TFTP_DATA_LEN_MAX
    ensures (d - TFTP_DATA_LEN_MAX) / TFTP_DATA_LEN_MAX == d / TFTP_DATA_LEN_MAX - 1
    ensures (d - TFTP_DATA_LEN_MAX) % TFTP_DATA_LEN_MAX == d % TFTP_DATA_LEN_MAX
  {
  }

  /** Counting on from the next block number, modulo 2^16. */
  lemma NextBlockNumber(block: u16, i: nat)
    requires i > 0
    ensures ((block + 1) % 0x1_0000 + (i - 1) + 1) % 0x1_0000 == (block + i + 1) % 0x1_0000
  {
    if block + 1 == 0x1_0000 {
      assert (block + 1) % 0x1_0000 == 0;
      assert (block + i + 1) == 0x1_0000 + i;
    }
  }

  /** The payloads of DATA packets, concatenated: what the receiver writes to its file. */
  function Payloads(packets: seq<seq<byte>>): seq<byte>
  {
    if packets == [] then [] else
      var p := packets[0];
      (if |p| >= TFTP_ACK_PKT_LEN then p[TFTP_ACK_PKT_LEN..] else []) + Payloads(packets[1..])
  }

  /** The receiver of a whole read transfer reassembles exactly the rest of the file. */
  lemma {:induction false} DataBlocksPayloads(src: seq<byte>, pos: nat, size: nat, block: u16)
    requires pos <= size <= |src|
    ensures Payloads(DataBlocks(src, pos, size, block)) == src[pos..size]
    decreases size - pos
  {
    var n := BlockLen(pos, size);
    var next := (block + 1) % 0x1_0000;
    var rest := if n == TFTP_DATA_LEN_MAX then DataBlocks(src, pos + n, size, next) else [];
    PayloadsData(next, src[pos..pos + n], rest);
    if n == TFTP_DATA_LEN_MAX {
      DataBlocksPayloads(src, pos + n, size, next);
      SliceSplit(src, pos, pos + n, size);
    }
  }

  /** A DATA packet followed by more packets contributes its data first. */
  lemma PayloadsData(block: u16, data: seq<byte>, rest: seq<seq<byte>>)
    ensures Payloads([EncodeData(block, data)] + rest) == data + Payloads(rest)
  {
    var p := EncodeData(block, data);
    HeaderBytes(TFTP_DATA, block, data);
    assert ([p] + rest)[1..] == rest;
  }

  lemma SliceSplit(s: seq<byte>, a: nat, b: nat, c: nat)
    requires a <= b <= c <= |s|
    ensures s[a..c] == s[a..b] + s[b..c]
  {
  }

  /**
   * The read transfer of tftpd_run (tftp_server.c:139-175) on a file opened for reading: block
   * by block, TFTP_Block_Read, then TFTP_Serialize_and_Send, then the wait for the block's ACK,
   * while the block just sent was full. sends[k] and acks[k] say whether the k-th packet is
   * handed to the socket and whether its ACK comes back; ioOk whether FRAM reads succeed.
   * What is sent is always the file's block sequence, or a prefix of it when the transfer
   * stops early; done says the loop ended on a short block, after the whole file.
   */
  method SendFile(ctx: Context, buf: array<byte>, fram: array<byte>, flash: seq<byte>, settingsSize: nat,
                  ioOk: bool, sends: seq<bool>, acks: seq<bool>, ghost src: seq<byte>)
    returns (done: bool, sent: seq<seq<byte>>)
    requires ctx.Valid() && ctx.fstate == FS_OPENED_READ && ctx.FilePos == 0
    requires ctx.ErrCode == TFTP_ERROR_NOERROR
    requires buf.Length == TFTP_BUFFER_SIZE && fram.Length == NVMEM_SIZE && buf != fram
    requires buf != ctx.FileName && buf != ctx.Mode && buf != ctx.ErrMsg
    requires src == FileSource(ctx.FileSize == settingsSize, fram[..], flash) && ctx.FileSize <= |src|
    modifies ctx`OpCode, ctx`State, ctx`BlockNum, ctx`DataLen, ctx`DataPtr, ctx`DataBuf, ctx`FilePos
    modifies ctx`ErrCode, buf
    ensures var all := DataBlocks(src, 0, ctx.FileSize, 0); |sent| <= |all| && sent == all[..|sent|]
    ensures done ==> ctx.FilePos == ctx.FileSize && |sent| == ctx.FileSize / TFTP_DATA_LEN_MAX + 1
    ensures done ==> sent == DataBlocks(src, 0, ctx.FileSize, 0)
    ensures Delivered(sends, acks, ctx.FileSize / TFTP_DATA_LEN_MAX + 1) && (ctx.FileSize == settingsSize ==> ioOk) ==> done
  {
    ghost var all := DataBlocks(src, 0, ctx.FileSize, 0);
    DataBlocksCount(src, 0, ctx.FileSize, 0);
    ctx.OpCode := TFTP_DATA;
    ctx.State := SENDING;
    ctx.BlockNum := 0;
    done, sent := SendBlocks(ctx, buf, fram, flash, settingsSize, ioOk, sends, acks, src, all);
  }

  /**
   * The loop of the read transfer, from the first block on: all is the block sequence of the
   * whole file.
   */
  method SendBlocks(ctx: Context, buf: array<byte>, fram: array<byte>, flash: seq<byte>, settingsSize: nat,
                    ioOk: bool, sends: seq<bool>, acks: seq<bool>, ghost src: seq<byte>, ghost all: seq<seq<byte>>)
    returns (done: bool, sent: seq<seq<byte>>)
    requires ctx.Valid() && ctx.fstate == FS_OPENED_READ && ctx.FilePos == 0 && ctx.BlockNum == 0
    requires ctx.ErrCode == TFTP_ERROR_NOERROR && ctx.OpCode == TFTP_DATA
    requires buf.Length == TFTP_BUFFER_SIZE && fram.Length == NVMEM_SIZE && buf != fram
    requires buf != ctx.FileName && buf != ctx.Mode && buf != ctx.ErrMsg
    requires src == FileSource(ctx.FileSize == settingsSize, fram[..], flash) && ctx.FileSize <= |src|
    requires all == DataBlocks(src, 0, ctx.FileSize, 0)
    modifies ctx`State, ctx`BlockNum, ctx`DataLen, ctx`DataPtr, ctx`DataBuf, ctx`FilePos, ctx`ErrCode, buf
    ensures |sent| <= |all| && sent == all[..|sent|]
    ensures done ==> ctx.FilePos == ctx.FileSize && sent == all
    ensures Delivered(sends, acks, |all|) && (ctx.FileSize == settingsSize ==> ioOk) ==> done
  {
    sent := [];
    done := false;
    var more := true;
    while more
      invariant ctx.Valid() && ctx.fstate == FS_OPENED_READ && ctx.OpCode == TFTP_DATA
      invariant ctx.ErrCode == TFTP_ERROR_NOERROR && ctx.FilePos <= ctx.FileSize
      invariant more ==> sent + DataBlocks(src, ctx.FilePos, ctx.FileSize, ctx.BlockNum) == all
      invariant !more ==> sent == all && ctx.FilePos == ctx.FileSize
      decreases ctx.FileSize - ctx.FilePos, more
    {
      ghost var pos, blk := ctx.FilePos, ctx.BlockNum;
      ghost var rest := DataBlocks(src, pos, ctx.FileSize, blk);
      var k := |sent|;
      var step, pkt := SendBlock(ctx, buf, fram, flash, settingsSize, ioOk,
        k < |sends| && sends[k], k < |acks| && acks[k], src);
      if !step {
        PrefixStep(sent, rest, all);
        StoppedUndelivered(sends, acks, |all|, k, ctx.FileSize == settingsSize ==> ioOk);
        return;
      }
      RoundNext(ctx, src, pos, blk, pkt, sent, all);
      sent := sent + [pkt];
      more := ctx.DataLen == TFTP_DATA_LEN_MAX;
    }
    done := true;
  }

  /** Moving the first of the packets still to send onto those sent keeps the whole transfer. */
  lemma PrefixStep(sent: seq<seq<byte>>, rest: seq<seq<byte>>, all: seq<seq<byte>>)
    requires sent + rest == all && |rest| > 0
    ensures (sent + [rest[0]]) + rest[1..] == all && |sent| < |all| && sent == all[..|sent|]
  {
    assert rest == [rest[0]] + rest[1..];
  }

  /** The first count packets of a transfer are handed to the socket and acknowledged. */
  predicate Delivered(sends: seq<bool>, acks: seq<bool>, count: nat)
  {
    count <= |sends| && count <= |acks| && forall k :: 0 <= k < count ==> sends[k] && acks[k]
  }

  /**
   * A round k < count that failed although its send and ACK succeeded whenever the reads did
   * shows the transfer was not delivered with readable blocks.
   */
  lemma StoppedUndelivered(sends: seq<bool>, acks: seq<bool>, count: nat, k: nat, readable: bool)
    requires k < count
    requires !((k < |sends| && sends[k]) && (k < |acks| && acks[k]) && readable)
    ensures !(Delivered(sends, acks, count) && readable)
  {
  }

  /**
   * One round of the read transfer: read the block, send it, wait for its ACK. On success the
   * packet sent is the first of the remaining block sequence, and the position has moved past
   * its payload.
   */
  method SendBlock(ctx: Context, buf: array<byte>, fram: array<byte>, flash: seq<byte>, settingsSize: nat,
                   ioOk: bool, sendOk: bool, ackOk: bool, ghost src: seq<byte>) returns (ok: bool, pkt: seq<byte>)
    requires ctx.Valid() && ctx.fstate == FS_OPENED_READ && ctx.OpCode == TFTP_DATA
    requires ctx.ErrCode == TFTP_ERROR_NOERROR && ctx.FilePos <= ctx.FileSize
    requires buf.Length == TFTP_BUFFER_SIZE && fram.Length == NVMEM_SIZE && buf != fram
    requires buf != ctx.FileName && buf != ctx.Mode && buf != ctx.ErrMsg
    requires src == FileSource(ctx.FileSize == settingsSize, fram[..], flash) && ctx.FileSize <= |src|
    modifies ctx`State, ctx`BlockNum, ctx`DataLen, ctx`DataPtr, ctx`DataBuf, ctx`FilePos, ctx`ErrCode, buf
    ensures ctx.Valid()
    ensures ok <==> sendOk && ackOk && BlockReadable(ctx.FileSize == settingsSize, old(ctx.FilePos),
      BlockLen(old(ctx.FilePos), ctx.FileSize), ioOk)
    ensures sendOk && ackOk && (ctx.FileSize == settingsSize ==> ioOk) ==> ok
    ensures ok ==> RoundDone(ctx, src, old(ctx.FilePos), old(ctx.BlockNum), pkt)
  {
    ghost var pos, blk := ctx.FilePos, ctx.BlockNum;
    ghost var n := BlockLen(pos, ctx.FileSize);
    var readOk := ReadNext(ctx, buf, fram, flash, settingsSize, ioOk, src);
    ok, pkt := false, [];
    if readOk {
      OutgoingData(ctx, buf, n, src[pos..pos + n]);
      var out := SerializeAndSend(ctx, buf, sendOk);
      if out.Some? {
        pkt := out.value;
        if ackOk {
          ctx.State := SENDING;
          ok := true;
          RoundDoneIntro(ctx, src, pos, blk, pkt);
        } else {
          ctx.State := RECEIVING_ERROR;
        }
      }
    }
  }

  /** A round that read block blk + 1 at pos and sent it as DATA is done. */
  lemma RoundDoneIntro(ctx: Context, src: seq<byte>, pos: nat, blk: u16, pkt: seq<byte>)
    requires pos <= ctx.FileSize <= |src|
    requires var n := BlockLen(pos, ctx.FileSize);
      && ctx.ErrCode == TFTP_ERROR_NOERROR && ctx.DataLen == n && ctx.FilePos == pos + n
      && ctx.BlockNum == (blk + 1) % 0x1_0000 && pkt == EncodeData(ctx.BlockNum, src[pos..pos + n])
    ensures RoundDone(ctx, src, pos, blk, pkt)
  {
    DataBlocksHead(src, pos, ctx.FileSize, blk);
  }

  /**
   * The reading part of a round: TFTP_Block_Read on a file open for reading, with the block it
   * reads from the file's source.
   */
  method ReadNext(ctx: Context, buf: array<byte>, fram: array<byte>, flash: seq<byte>, settingsSize: nat,
                  ioOk: bool, ghost src: seq<byte>) returns (readOk: bool)
    requires ctx.Valid() && ctx.fstate == FS_OPENED_READ
    requires ctx.ErrCode == TFTP_ERROR_NOERROR && ctx.FilePos <= ctx.FileSize
    requires buf.Length == TFTP_BUFFER_SIZE && fram.Length == NVMEM_SIZE && buf != fram
    requires buf != ctx.FileName && buf != ctx.Mode && buf != ctx.ErrMsg
    requires src == FileSource(ctx.FileSize == settingsSize, fram[..], flash) && ctx.FileSize <= |src|
    modifies ctx`BlockNum, ctx`DataLen, ctx`DataPtr, ctx`DataBuf, ctx`FilePos, ctx`ErrCode, buf
    ensures ctx.Valid()
    ensures readOk <==> BlockReadable(ctx.FileSize == settingsSize, old(ctx.FilePos),
      BlockLen(old(ctx.FilePos), ctx.FileSize), ioOk)
    ensures readOk ==>
      var pos := old(ctx.FilePos);
      var n := BlockLen(pos, ctx.FileSize);
      && ctx.ErrCode == TFTP_ERROR_NOERROR && ctx.DataBuf == buf && ctx.DataPtr == Addr(TFTP_ACK_PKT_LEN)
      && ctx.DataLen == n && ctx.FilePos == pos + n && ctx.BlockNum == (old(ctx.BlockNum) + 1) % 0x1_0000
      && buf[TFTP_ACK_PKT_LEN..TFTP_ACK_PKT_LEN + n] == src[pos..pos + n]
    ensures !readOk ==> ctx.ErrCode != TFTP_ERROR_NOERROR
  {
    ghost var pos := ctx.FilePos;
    ghost var n := BlockLen(pos, ctx.FileSize);
    assert ctx.FileSize == settingsSize && n != 0 ==> InChip(pos, n);
    BlockRead(ctx, buf, fram, flash, settingsSize, ioOk);
    readOk := ctx.ErrCode == TFTP_ERROR_NOERROR;
    if readOk {
      assert buf[TFTP_ACK_PKT_LEN..TFTP_ACK_PKT_LEN + n] == src[pos..pos + n];
    }
  }

  /**
   * A round of the read transfer that started at position pos with block blk has sent pkt, the
   * first packet of the remaining transfer, and moved the context past its payload: to the
   * rest of the transfer after a full block, to the end of the file after a short one.
   */
  ghost predicate RoundDone(ctx: Context, src: seq<byte>, pos: nat, blk: u16, pkt: seq<byte>)
    reads ctx
  {
    && pos <= ctx.FileSize <= |src|
    && var r := DataBlocks(src, pos, ctx.FileSize, blk);
    && ctx.ErrCode == TFTP_ERROR_NOERROR && ctx.FilePos <= ctx.FileSize && pkt == r[0]
    && ctx.DataLen == BlockLen(pos, ctx.FileSize)
    && (ctx.DataLen == TFTP_DATA_LEN_MAX ==>
          ctx.FilePos == pos + TFTP_DATA_LEN_MAX && r[1..] == DataBlocks(src, ctx.FilePos, ctx.FileSize, ctx.BlockNum))
    && (ctx.DataLen < TFTP_DATA_LEN_MAX ==> ctx.FilePos == ctx.FileSize && r == [pkt])
  }

  /**
   * After a finished round the packet sent joins those before it: either the rest of the file
   * follows from the new position, or the transfer is complete.
   */
  lemma RoundNext(ctx: Context, src: seq<byte>, pos: nat, blk: u16, pkt: seq<byte>,
                  sent: seq<seq<byte>>, all: seq<seq<byte>>)
    requires RoundDone(ctx, src, pos, blk, pkt)
    requires sent + DataBlocks(src, pos, ctx.FileSize, blk) == all
    ensures ctx.ErrCode == TFTP_ERROR_NOERROR && pos <= ctx.FilePos <= ctx.FileSize
    ensures ctx.DataLen == TFTP_DATA_LEN_MAX ==>
      pos < ctx.FilePos && (sent + [pkt]) + DataBlocks(src, ctx.FilePos, ctx.FileSize, ctx.BlockNum) == all
    ensures ctx.DataLen != TFTP_DATA_LEN_MAX ==> sent + [pkt] == all && ctx.FilePos == ctx.FileSize
  {
    var r := DataBlocks(src, pos, ctx.FileSize, blk);
    assert r == [r[0]] + r[1..];
  }

  /** A DATA context whose block sits in the transfer buffer sends that block. */
  lemma OutgoingData(ctx: Context, buf: array<byte>, n: nat, data: seq<byte>)
    requires ctx.Valid() && ctx.OpCode == TFTP_DATA && buf.Length == TFTP_BUFFER_SIZE
    requires ctx.DataBuf == buf && ctx.DataPtr == Addr(TFTP_ACK_PKT_LEN) && ctx.DataLen == n <= TFTP_DATA_LEN_MAX
    requires buf[TFTP_ACK_PKT_LEN..TFTP_ACK_PKT_LEN + n] == data
    ensures ctx.DataReadable(TFTP_BUFFER_SIZE)
    ensures ctx.Outgoing(TFTP_BUFFER_SIZE) == EncodeData(ctx.BlockNum, data)
  {
  }

  // ---------------------------------------------------------------------------------------
  // Answers: ERR and ACK

  /**
   * The fixed message TFTP_Process_Error copies into ErrMsg for each error code of RFC 1350;
   * none for TFTP_ERROR_NOERROR or a code outside the table.
   */
  function ErrorMessage(code: u16): (m: Option<seq<byte>>)
    ensures m.Some? <==> TFTP_ERROR_FILE_NOT_FOUND <= code <= TFTP_ERROR_NO_SUCH_USER
    ensures m.Some? ==> 0 < |m.value| <= TFTP_MAX_ERRMSG_LEN && forall i :: 0 <= i < |m.value| ==> m.value[i] != 0
  {
    if code == TFTP_ERROR_FILE_NOT_FOUND then Some(Ascii("No file"))
    else if code == TFTP_ERROR_ACCESS_VIOLATION then Some(Ascii("Acc.err."))
    else if code == TFTP_ERROR_DISK_FULL then Some(Ascii("Diskfull"))
    else if code == TFTP_ERROR_ILLEGAL_OPERATION then Some(Ascii("Ill.op."))
    else if code == TFTP_ERROR_UNKNOWN_TRFR_ID then Some(Ascii("XfrIDErr"))
    else if code == TFTP_ERROR_FILE_EXISTS then Some(Ascii("F.exists"))
    else if code == TFTP_ERROR_NO_SUCH_USER then Some(Ascii("Bad user"))
    else None
  }

  /** No two error codes share a message, so the message alone tells the receiver the code. */
  lemma ErrorMessagesDistinct(c1: u16, c2: u16)
    requires ErrorMessage(c1).Some? && ErrorMessage(c2).Some? && c1 != c2
    ensures ErrorMessage(c1).value != ErrorMessage(c2).value
  {
    var m1, m2 := ErrorMessage(c1).value, ErrorMessage(c2).value;
    assert m1[0] != m2[0];
  }

  /**
   * TFTP_Process_Error (tftp_server.c:445-487): the context becomes an ERR packet carrying the
   * message for its error code, which is serialized and sent; for NOERROR or an unknown code
   * nothing is copied or sent. The packet sent reads back as that code and message.
   */
  method ProcessError(ctx: Context, buf: array<byte>, sendOk: bool) returns (out: Option<seq<byte>>)
    requires ctx.Valid() && buf.Length == TFTP_BUFFER_SIZE
    requires buf != ctx.FileName && buf != ctx.Mode && buf != ctx.ErrMsg
    modifies ctx`OpCode, ctx`State, ctx.ErrMsg, buf
    ensures ctx.Valid() && ctx.OpCode == TFTP_ERR
    ensures ErrorMessage(ctx.ErrCode).None? ==>
      out == None && ctx.ErrMsg[..] == old(ctx.ErrMsg[..]) && ctx.State == old(ctx.State)
    ensures ErrorMessage(ctx.ErrCode).Some? ==>
      var msg := ErrorMessage(ctx.ErrCode).value;
      && CStr(ctx.ErrMsg[..]) == msg
      && (sendOk ==> out.Some? && Parse(out.value) == Error(ctx.ErrCode, msg) && ctx.State == old(ctx.State))
      && (!sendOk ==> out == None && ctx.State == ERR_ABORT)
  {
    ctx.OpCode := TFTP_ERR;
    var m := ErrorMessage(ctx.ErrCode);
    if m.None? {
      return None;
    }
    ghost var e0 := ctx.ErrMsg[..];
    CopyIn(ctx.ErrMsg, 0, m.value + [0]);
    MessageField(e0, ctx.ErrMsg[..], m.value, ctx.ErrCode);
    OutgoingError(ctx);
    out := SerializeAndSend(ctx, buf, sendOk);
  }

  /**
   * The ErrMsg field after a message and its NUL are copied to its start holds that message,
   * and the ERR packet built from it carries the message.
   */
  lemma MessageField(e0: seq<byte>, e: seq<byte>, msg: seq<byte>, code: u16)
    requires |e0| == TFTP_MAX_ERRMSG_LEN + 1 && |msg| <= TFTP_MAX_ERRMSG_LEN
    requires forall i :: 0 <= i < |msg| ==> msg[i] != 0
    requires e == e0[..0] + (msg + [0]) + e0[|msg| + 1..]
    ensures |e| == TFTP_MAX_ERRMSG_LEN + 1 && StrLen(e) < |e| && CStr(e) == msg
    ensures Parse(EncodeError(code, e[..TFTP_MAX_ERRMSG_LEN])) == Error(code, msg)
  {
    MessageString(e0, e, msg);
    CStrOfPrefix(e, TFTP_MAX_ERRMSG_LEN);
    ErrorRoundTrip(code, e[..TFTP_MAX_ERRMSG_LEN]);
  }

  lemma MessageString(e0: seq<byte>, e: seq<byte>, msg: seq<byte>)
    requires |e0| == TFTP_MAX_ERRMSG_LEN + 1 && |msg| <= TFTP_MAX_ERRMSG_LEN
    requires forall i :: 0 <= i < |msg| ==> msg[i] != 0
    requires e == e0[..0] + (msg + [0]) + e0[|msg| + 1..]
    ensures |e| == TFTP_MAX_ERRMSG_LEN + 1 && StrLen(e) == |msg| && CStr(e) == msg
  {
    var t := [0] + e0[|msg| + 1..];
    assert e == msg + t;
    StrLenOfTerminated(msg, t);
  }

  /** An ERR context sends its code and the first TFTP_MAX_ERRMSG_LEN bytes of ErrMsg. */
  lemma OutgoingError(ctx: Context)
    requires ctx.Valid() && ctx.OpCode == TFTP_ERR
    ensures ctx.DataReadable(TFTP_BUFFER_SIZE)
    ensures ctx.Outgoing(TFTP_BUFFER_SIZE) == EncodeError(ctx.ErrCode, ctx.ErrMsg[..TFTP_MAX_ERRMSG_LEN])
  {
  }

  /**
   * The ERR packet for an eight-character message, as the serializer writes it: the message
   * fills the field and the packet ends without the NUL that section 5 of RFC 1350 puts after
   * ErrMsg.
   */
  lemma FullMessageUnterminated(msgField: seq<byte>)
    requires |msgField| == TFTP_MAX_ERRMSG_LEN && StrLen(msgField) == TFTP_MAX_ERRMSG_LEN
    ensures var p := EncodeError(TFTP_ERROR_ACCESS_VIOLATION, msgField);
      |p| == TFTP_ACK_PKT_LEN + TFTP_MAX_ERRMSG_LEN && forall i :: TFTP_ACK_PKT_LEN <= i < |p| ==> p[i] != 0
  {
    var p := EncodeError(TFTP_ERROR_ACCESS_VIOLATION, msgField);
    HeaderBytes(TFTP_ERR, TFTP_ERROR_ACCESS_VIOLATION, msgField);
  }

  /**
   * TFTP_Reply_ACK (tftp_server.c:312-319): the context becomes an ACK of its block number and
   * is sent; the state ends RECEIVING, or ERR_ABORT when the send fails. The state is set to
   * SENDING_ACK first, so an ERR_ABORT the context held before the call is not kept.
   */
  method ReplyAck(ctx: Context, buf: array<byte>, sendOk: bool) returns (out: Option<seq<byte>>)
    requires ctx.Valid() && buf.Length == TFTP_BUFFER_SIZE
    requires buf != ctx.FileName && buf != ctx.Mode && buf != ctx.ErrMsg
    modifies ctx`OpCode, ctx`State, buf
    ensures ctx.OpCode == TFTP_ACK
    ensures sendOk ==> out == Some(EncodeAck(ctx.BlockNum)) && Parse(out.value) == Ack(ctx.BlockNum) && ctx.State == RECEIVING
    ensures !sendOk ==> out == None && ctx.State == ERR_ABORT
  {
    ctx.State := SENDING_ACK;
    ctx.OpCode := TFTP_ACK;
    out := SerializeAndSend(ctx, buf, sendOk);
    ctx.State := if ctx.State == ERR_ABORT then ERR_ABORT else RECEIVING;
    AckRoundTrip(ctx.BlockNum);
  }

  // ---------------------------------------------------------------------------------------
  // Receiving: the accept / re-ACK rule of TFTP_Rx_and_Deser

  datatype RxVerdict = Accept | ReAck | Reject

  /** What the socket read leaves in the transfer buffer: the datagram, cut to the buffer. */
  function Window(p: seq<byte>): (w: seq<byte>)
    ensures |w| <= TFTP_BUFFER_SIZE
  {
    p[..Min(|p|, TFTP_BUFFER_SIZE)]
  }

  /**
   * The decision on one datagram p (empty when none came before the timeout), with last the
   * block acknowledged last. The next block is compared as an unsigned int, without the 16-bit
   * wrap of the block number. The header is read from the buffer copy, which starts as p does
   * (DataBlockWindow).
   */
  function RxRule(p: seq<byte>, last: u16): RxVerdict
  {
    var b := DataBlock(p);
    if b.Some? && b.value == last + 1 then Accept
    else if (b.Some? && b.value == last) || |p| == 0 then ReAck
    else Reject
  }

  /** The block number in the header of a DATA packet, None for any other packet. */
  function DataBlock(p: seq<byte>): Option<u16>
  {
    if |p| >= TFTP_ACK_PKT_LEN && BeValue(p[0], p[1]) == TFTP_DATA then Some(BeValue(p[2], p[3])) else None
  }

  /** Cutting a datagram to the transfer buffer keeps its header. */
  lemma DataBlockWindow(p: seq<byte>)
    ensures DataBlock(Window(p)) == DataBlock(p)
  {
  }

  /** DataBlock reads the header as Parse does. */
  lemma DataBlockParse(p: seq<byte>)
    ensures DataBlock(p).Some? <==> Parse(p).Data?
    ensures DataBlock(p).Some? ==> Parse(p) == Data(DataBlock(p).value, |p| - TFTP_ACK_PKT_LEN)
  {
  }

  /** The next DATA block is accepted, a repeat of the last block or a timeout re-acknowledged. */
  lemma RxRuleCases(block: u16, last: u16, data: seq<byte>)
    requires |data| <= TFTP_DATA_LEN_MAX
    ensures RxRule(EncodeData(block, data), last) == Accept <==> block == last + 1
    ensures RxRule(EncodeData(block, data), last) == ReAck <==> block == last
    ensures RxRule([], last) == ReAck
  {
    var p := EncodeData(block, data);
    DataRoundTrip(block, data);
    assert Window(p) == p;
    DataBlockParse(p);
  }

  /** After block 65535 nothing is accepted: the compared value 65536 is no block number. */
  lemma NothingAfterLastBlock(p: seq<byte>)
    ensures RxRule(p, UINT16_MAX) != Accept
  {
  }

  /**
   * The attempt at which TFTP_Rx_and_Deser stops, from attempt k on: the first of its
   * TFTP_MAX_RETRIES attempts whose datagram is not re-acknowledged, or TFTP_MAX_RETRIES when
   * every attempt is.
   */
  function RxStop(rx: seq<seq<byte>>, last: u16, k: nat): (i: nat)
    requires k <= TFTP_MAX_RETRIES <= |rx|
    ensures k <= i <= TFTP_MAX_RETRIES
    ensures i < TFTP_MAX_RETRIES ==> RxRule(rx[i], last) != ReAck
    decreases TFTP_MAX_RETRIES - k
  {
    if k == TFTP_MAX_RETRIES then k
    else if RxRule(rx[k], last) != ReAck then k
    else RxStop(rx, last, k + 1)
  }

  /** Every attempt before the one RxStop finds was re-acknowledged. */
  lemma {:induction false} RxStopSkipsReAcks(rx: seq<seq<byte>>, last: u16, k: nat, j: nat)
    requires k <= TFTP_MAX_RETRIES <= |rx|
    requires k <= j < RxStop(rx, last, k)
    ensures RxRule(rx[j], last) == ReAck
    decreases TFTP_MAX_RETRIES - k
  {
    if j > k {
      RxStopSkipsReAcks(rx, last, k + 1, j);
    }
  }

  /** RxStop finds the first attempt from lo on that is not re-acknowledged. */
  lemma {:induction false} RxStopFirst(rx: seq<seq<byte>>, last: u16, lo: nat, k: nat)
    requires lo <= k <= TFTP_MAX_RETRIES <= |rx|
    requires forall j :: lo <= j < k ==> RxRule(rx[j], last) == ReAck
    requires k < TFTP_MAX_RETRIES ==> RxRule(rx[k], last) != ReAck
    ensures RxStop(rx, last, lo) == k
    decreases k - lo
  {
    if lo < k {
      RxStopFirst(rx, last, lo + 1, k);
    }
  }

  /** The ACKs of block last sent by attempts lo to hi - 1; sends[j] says whether attempt j's went out. */
  function ReAcks(sends: seq<bool>, lo: nat, hi: nat, last: u16): (r: seq<seq<byte>>)
    requires lo <= hi <= |sends|
    ensures |r| <= hi - lo
    ensures forall j :: 0 <= j < |r| ==> r[j] == EncodeAck(last)
    decreases hi - lo
  {
    if lo == hi then [] else (if sends[lo] then [EncodeAck(last)] else []) + ReAcks(sends, lo + 1, hi, last)
  }

  /** Each attempt's ACK goes after those of the attempts before it. */
  lemma {:induction false} ReAcksSnoc(sends: seq<bool>, lo: nat, hi: nat, last: u16)
    requires lo <= hi < |sends|
    ensures ReAcks(sends, lo, hi + 1, last) == ReAcks(sends, lo, hi, last) + (if sends[hi] then [EncodeAck(last)] else [])
    decreases hi - lo
  {
    if lo < hi {
      ReAcksSnoc(sends, lo + 1, hi, last);
    }
  }

  /**
   * TFTP_Reply_ACK on temp_context, a copy of the context, of which only fstate, ErrCode and
   * State are copied back: the ACK of the context's block goes out, the state is the reply's,
   * and the context keeps its opcode.
   */
  method ReplyAckOnCopy(ctx: Context, buf: array<byte>, sendOk: bool) returns (out: Option<seq<byte>>)
    requires ctx.Valid() && buf.Length == TFTP_BUFFER_SIZE
    requires buf != ctx.FileName && buf != ctx.Mode && buf != ctx.ErrMsg
    modifies ctx`OpCode, ctx`State, buf
    ensures ctx.OpCode == old(ctx.OpCode)
    ensures out == (if sendOk then Some(EncodeAck(ctx.BlockNum)) else None)
    ensures ctx.State == if sendOk then RECEIVING else ERR_ABORT
  {
    var op := ctx.OpCode;
    out := ReplyAck(ctx, buf, sendOk);
    ctx.OpCode := op;
  }

  /**
   * TFTP_Rx_and_Deser (tftp_server.c:217-284): up to TFTP_MAX_RETRIES attempts, attempt k
   * receiving rx[k] (empty when nothing came before the timeout) into the transfer buffer and
   * deserializing it. The next DATA block is acknowledged and ends the call; a repeat of the
   * last block, or a timeout, is acknowledged again and the next attempt follows; anything else
   * ends the call in RECEIVING_ERROR. sends[k] says whether attempt k's ACK goes out; acks are
   * the ACK packets that did.
   */
  method RxAndDeser(ctx: Context, buf: array<byte>, rx: seq<seq<byte>>, sends: seq<bool>) returns (acks: seq<seq<byte>>)
    requires ctx.Valid() && buf.Length == TFTP_BUFFER_SIZE
    requires buf != ctx.FileName && buf != ctx.Mode && buf != ctx.ErrMsg
    requires |rx| >= TFTP_MAX_RETRIES && |sends| >= TFTP_MAX_RETRIES
    modifies ctx, ctx.FileName, ctx.Mode, ctx.ErrMsg, buf
    ensures ctx.Valid()
    ensures var last := old(ctx.BlockNum);
      var i := RxStop(rx, last, 0);
      i == TFTP_MAX_RETRIES ==>
        && acks == ReAcks(sends, 0, i, last) && ctx.BlockNum == last
        && ctx.State == (if sends[i - 1] then RECEIVING else ERR_ABORT)
    ensures var last := old(ctx.BlockNum);
      var i := RxStop(rx, last, 0);
      i < TFTP_MAX_RETRIES && RxRule(rx[i], last) == Accept ==>
        && last < UINT16_MAX && ctx.Received() == Parse(Window(rx[i])) && ctx.BlockNum == last + 1
        && acks == ReAcks(sends, 0, i, last) + (if sends[i] then [EncodeAck(ctx.BlockNum)] else [])
        && ctx.State == (if sends[i] then RECEIVING else ERR_ABORT)
    ensures var last := old(ctx.BlockNum);
      var i := RxStop(rx, last, 0);
      i < TFTP_MAX_RETRIES && RxRule(rx[i], last) == Reject ==>
        acks == ReAcks(sends, 0, i, last) && ctx.State == RECEIVING_ERROR
  {
    var last := ctx.BlockNum;
    var k, verdict, out;
    acks, k, verdict, out := Retries(ctx, buf, rx, sends);
    if k < TFTP_MAX_RETRIES {
      DataBlockParse(Window(rx[k]));
      DataBlockWindow(rx[k]);
      acks := acks + (if out.Some? then [out.value] else []);
    }
  }

  /**
   * The retry loop of TFTP_Rx_and_Deser: attempts up to the one RxStop finds, with the ACKs the
   * re-acknowledging attempts sent, and the verdict and ACK of the attempt that ended the loop.
   */
  method Retries(ctx: Context, buf: array<byte>, rx: seq<seq<byte>>, sends: seq<bool>)
    returns (acks: seq<seq<byte>>, k: nat, verdict: RxVerdict, out: Option<seq<byte>>)
    requires ctx.Valid() && buf.Length == TFTP_BUFFER_SIZE
    requires buf != ctx.FileName && buf != ctx.Mode && buf != ctx.ErrMsg
    requires |rx| >= TFTP_MAX_RETRIES && |sends| >= TFTP_MAX_RETRIES
    modifies ctx, ctx.FileName, ctx.Mode, ctx.ErrMsg, buf
    ensures ctx.Valid() && k == RxStop(rx, old(ctx.BlockNum), 0)
    ensures acks == ReAcks(sends, 0, k, old(ctx.BlockNum))
    ensures k == TFTP_MAX_RETRIES ==>
      ctx.BlockNum == old(ctx.BlockNum) && ctx.State == (if sends[k - 1] then RECEIVING else ERR_ABORT)
    ensures k < TFTP_MAX_RETRIES ==>
      verdict == RxRule(rx[k], old(ctx.BlockNum)) && Ended(ctx, rx[k], old(ctx.BlockNum), sends[k], verdict, out)
  {
    var last := ctx.BlockNum;
    acks := [];
    k := 0;
    verdict := ReAck;
    out := None;
    while k < TFTP_MAX_RETRIES
      invariant k <= TFTP_MAX_RETRIES
      invariant Retrying(ctx, rx, sends, last, k, acks)
      decreases TFTP_MAX_RETRIES - k
    {
      verdict, out, acks := RetryStep(ctx, buf, rx, sends, last, k, acks);
      if verdict != ReAck {
        return;
      }
      k := k + 1;
    }
    RxStopFirst(rx, last, 0, k);
  }

  /**
   * Where the retry loop stands before attempt k: every earlier attempt was re-acknowledged,
   * acks holds their ACKs, and the state is the one the last of them left.
   */
  ghost predicate Retrying(ctx: Context, rx: seq<seq<byte>>, sends: seq<bool>, last: u16, k: nat,
                           acks: seq<seq<byte>>)
    reads ctx, ctx.FileName, ctx.Mode, ctx.ErrMsg
  {
    && k <= TFTP_MAX_RETRIES <= |rx| && TFTP_MAX_RETRIES <= |sends|
    && ctx.Valid() && ctx.BlockNum == last
    && (forall j :: 0 <= j < k ==> RxRule(rx[j], last) == ReAck)
    && acks == ReAcks(sends, 0, k, last)
    && (k > 0 ==> ctx.State == if sends[k - 1] then RECEIVING else ERR_ABORT)
  }

  /**
   * One pass of the retry loop: attempt k either is re-acknowledged, and the loop goes on with
   * its ACK added, or it is where RxStop stops.
   */
  method RetryStep(ctx: Context, buf: array<byte>, rx: seq<seq<byte>>, sends: seq<bool>, last: u16, k: nat,
                   acks: seq<seq<byte>>) returns (verdict: RxVerdict, out: Option<seq<byte>>, acks': seq<seq<byte>>)
    requires k < TFTP_MAX_RETRIES && Retrying(ctx, rx, sends, last, k, acks)
    requires buf.Length == TFTP_BUFFER_SIZE && buf != ctx.FileName && buf != ctx.Mode && buf != ctx.ErrMsg
    modifies ctx, ctx.FileName, ctx.Mode, ctx.ErrMsg, buf
    ensures verdict == ReAck ==> Retrying(ctx, rx, sends, last, k + 1, acks')
    ensures verdict != ReAck ==>
      && ctx.Valid() && acks' == ReAcks(sends, 0, k, last) && RxStop(rx, last, 0) == k
      && verdict == RxRule(rx[k], last) && Ended(ctx, rx[k], last, sends[k], verdict, out)
  {
    verdict, out := Attempt(ctx, buf, rx[k], last, sends[k]);
    if verdict != ReAck {
      RxStopFirst(rx, last, 0, k);
      acks' := acks;
    } else {
      acks' := NextReAcks(sends, k, last, acks, out);
    }
  }

  /** The ACKs after a re-acknowledging attempt k: out, when it went out, after the earlier ones. */
  function NextReAcks(sends: seq<bool>, k: nat, last: u16, acks: seq<seq<byte>>, out: Option<seq<byte>>)
    : (r: seq<seq<byte>>)
    requires k < |sends| && acks == ReAcks(sends, 0, k, last)
    requires out == (if sends[k] then Some(EncodeAck(last)) else None)
    ensures r == ReAcks(sends, 0, k + 1, last)
  {
    ReAcksSnoc(sends, 0, k, last);
    acks + (if out.Some? then [out.value] else [])
  }

  /**
   * How an attempt on datagram p that ended the retry loop leaves the context: an accepted
   * block is the next one, described by the context and acknowledged when sendOk; a rejected
   * datagram leaves RECEIVING_ERROR and no ACK.
   */
  ghost predicate Ended(ctx: Context, p: seq<byte>, last: u16, sendOk: bool, verdict: RxVerdict, out: Option<seq<byte>>)
    reads ctx
  {
    && (verdict == Accept ==>
          && last < UINT16_MAX && ctx.OpCode == TFTP_DATA && ctx.DataLen + TFTP_ACK_PKT_LEN == Min(|p|, TFTP_BUFFER_SIZE)
          && ctx.BlockNum == last + 1 && out == (if sendOk then Some(EncodeAck(ctx.BlockNum)) else None)
          && ctx.State == (if sendOk then RECEIVING else ERR_ABORT))
    && (verdict == Reject ==> out == None && ctx.State == RECEIVING_ERROR)
  }

  /**
   * One attempt of TFTP_Rx_and_Deser on datagram p: the decision of RxRule, with the context
   * and the ACK it leads to.
   */
  method Attempt(ctx: Context, buf: array<byte>, p: seq<byte>, last: u16, sendOk: bool)
    returns (verdict: RxVerdict, out: Option<seq<byte>>)
    requires ctx.Valid() && buf.Length == TFTP_BUFFER_SIZE && ctx.BlockNum == last
    requires buf != ctx.FileName && buf != ctx.Mode && buf != ctx.ErrMsg
    modifies ctx, ctx.FileName, ctx.Mode, ctx.ErrMsg, buf
    ensures ctx.Valid() && verdict == RxRule(p, last)
    ensures Ended(ctx, p, last, sendOk, verdict, out)
    ensures verdict == ReAck ==>
      && ctx.BlockNum == last && out == (if sendOk then Some(EncodeAck(last)) else None)
      && ctx.State == (if sendOk then RECEIVING else ERR_ABORT)
  {
    var data, block := Receive(ctx, buf, p);
    if data && block == last + 1 {
      out := ReplyAckOnCopy(ctx, buf, sendOk);
      return Accept, out;
    }
    if (data && block == last) || |p| == 0 {
      out := ReplyAckOnCopy(ctx, buf, sendOk);
      return ReAck, out;
    }
    ctx.State := RECEIVING_ERROR;
    return Reject, None;
  }

  /**
   * The receiving half of an attempt: p lands in the transfer buffer and is deserialized;
   * data says the deserializer succeeded on a DATA packet, whose block number is block. A
   * timeout leaves the state RECEIVING_ERROR and the block number as it was.
   */
  method Receive(ctx: Context, buf: array<byte>, p: seq<byte>) returns (data: bool, block: u16)
    requires ctx.Valid() && buf.Length == TFTP_BUFFER_SIZE
    requires buf != ctx.FileName && buf != ctx.Mode && buf != ctx.ErrMsg
    modifies ctx, ctx.FileName, ctx.Mode, ctx.ErrMsg, buf
    ensures ctx.Valid() && block == ctx.BlockNum
    ensures data <==> DataBlock(p).Some?
    ensures data ==>
      && ctx.OpCode == TFTP_DATA && DataBlock(p) == Some(block)
      && ctx.DataLen + TFTP_ACK_PKT_LEN == Min(|p|, TFTP_BUFFER_SIZE)
    ensures |p| == 0 ==> ctx.BlockNum == old(ctx.BlockNum) && ctx.State == RECEIVING_ERROR
    ensures |p| > 0 ==> ctx.State == RECEIVING
  {
    var n := Min(|p|, TFTP_BUFFER_SIZE);
    ctx.State := RECEIVING;
    if n == 0 {
      ctx.State := RECEIVING_ERROR;
    }
    CopyIn(buf, 0, p[..n]);
    assert buf[..n] == Window(p);
    var res := Deserialize(buf, n, ctx);
    data := res == SUCCESS && ctx.OpCode == TFTP_DATA;
    block := ctx.BlockNum;
    DataBlockParse(Window(p));
    DataBlockWindow(p);
    ReceivedData(ctx);
  }

  /** The context describes a DATA packet exactly when its opcode is DATA. */
  lemma ReceivedData(ctx: Context)
    ensures ctx.Received().Data? <==> ctx.OpCode == TFTP_DATA
    ensures ctx.OpCode == TFTP_DATA ==> ctx.Received() == Data(ctx.BlockNum, ctx.DataLen)
  {
  }
}
