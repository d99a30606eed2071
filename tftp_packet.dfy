// The TFTP transfer context and the packet codec of Core/Src/tftp/TFTP_ser_desesr.c, following
// the packet formats of section 5 of RFC 1350. Deserialization reads the received buffer into
// the context; serialization writes the context into the transmit buffer.

module TftpPacket {
  import opened Common
  import opened StrCopy

  // Constants of Core/Inc/tftp/TFTP_data.h (MAX_FILENAME_LEN is 7 in tiny-fs.h)
  const TFTP_MAX_MODE_LEN: nat := 7
  const TFTP_MAX_FILENAME_LEN: nat := 8
  const TFTP_MAX_ERRMSG_LEN: nat := 8
  const TFTP_OPCODE_LEN: nat := 2
  const TFTP_BLKNUM_LEN: nat := 2
  const TFTP_ACK_PKT_LEN: nat := 4
  /** The MASTERBOARD build's block size. */
  const TFTP_DATA_LEN_MAX: nat := 512

  const TFTP_RRQ: u16 := 1
  const TFTP_WRQ: u16 := 2
  const TFTP_DATA: u16 := 3
  const TFTP_ACK: u16 := 4
  const TFTP_ERR: u16 := 5

  /** The longest packet the serializer writes without consulting buflen: a request. */
  const MAX_REQUEST_PKT_LEN: nat := TFTP_OPCODE_LEN + TFTP_MAX_FILENAME_LEN + TFTP_MAX_MODE_LEN

  /** tftp_state_t */
  datatype TftpState = IDLE | RRQ | WRQ | SENDING | RECEIVING | SENDING_ERROR | RECEIVING_ERROR
    | SENDING_ACK | RECEIVING_ACK | ERR_ABORT

  /** The state of the served file. */
  datatype FileState = FS_CLOSED | FS_OPENED_READ | FS_OPENED_WRITE

  /** What a received packet says, read through the same bounded copies as the deserializer. */
  datatype Packet =
    | Malformed
    | Request(op: u16, name: seq<byte>, mode: seq<byte>)
    | Data(block: u16, len: nat)
    | Ack(block: u16)
    | Error(code: u16, msg: seq<byte>)

  /** tftp_context_t: the one transfer the server handles at a time. */
  class Context {
    var OpCode: u16
    const FileName: array<byte>
    const Mode: array<byte>
    var ErrCode: u16
    const ErrMsg: array<byte>
    var BlockNum: u16
    /** DataPtr points into DataBuf, at DataPtr.i. */
    var DataBuf: array<byte>
    var DataPtr: Ptr
    var DataLen: nat
    var State: TftpState
    var fstate: FileState
    var FilePos: nat
    var FileSize: nat

    /** The three character fields have their declared sizes and always hold a NUL. */
    ghost predicate Valid()
      reads this, FileName, Mode, ErrMsg
    {
      && FileName.Length == TFTP_MAX_FILENAME_LEN + 1
      && Mode.Length == TFTP_MAX_MODE_LEN + 1
      && ErrMsg.Length == TFTP_MAX_ERRMSG_LEN + 1
      && FileName != Mode && FileName != ErrMsg && Mode != ErrMsg
      && StrLen(FileName[..]) < FileName.Length
      && StrLen(Mode[..]) < Mode.Length
      && StrLen(ErrMsg[..]) < ErrMsg.Length
    }

    /** The packet the context describes, as the receiving side sees it. */
    ghost function Received(): Packet
      reads this, FileName, Mode, ErrMsg
    {
      if OpCode == TFTP_RRQ || OpCode == TFTP_WRQ then Request(OpCode, CStr(FileName[..]), CStr(Mode[..]))
      else if OpCode == TFTP_DATA then Data(BlockNum, DataLen)
      else if OpCode == TFTP_ACK then Ack(BlockNum)
      else if OpCode == TFTP_ERR then Error(ErrCode, CStr(ErrMsg[..]))
      else Malformed
    }

    /** Data payload bytes the serializer copies for a buffer of buflen bytes. */
    ghost predicate DataReadable(buflen: nat)
      reads this
    {
      buflen >= TFTP_ACK_PKT_LEN &&
      (OpCode == TFTP_DATA ==>
        DataPtr.Addr? && DataPtr.i + Min(DataLen, buflen - TFTP_ACK_PKT_LEN) <= DataBuf.Length)
    }

    /** The packet the serializer writes for this context into a buffer of buflen bytes. */
    ghost function Outgoing(buflen: nat): seq<byte>
      reads this, FileName, Mode, ErrMsg, DataBuf
      requires Valid() && DataReadable(buflen)
    {
      if OpCode == TFTP_RRQ || OpCode == TFTP_WRQ then
        EncodeRequest(OpCode, FileName[..TFTP_MAX_FILENAME_LEN], Mode[..TFTP_MAX_MODE_LEN])
      else if OpCode == TFTP_DATA then
        var n := Min(DataLen, buflen - TFTP_ACK_PKT_LEN);
        EncodeData(BlockNum, DataBuf[DataPtr.i..DataPtr.i + n])
      else if OpCode == TFTP_ACK then EncodeAck(BlockNum)
      else if OpCode == TFTP_ERR then EncodeError(ErrCode, ErrMsg[..TFTP_MAX_ERRMSG_LEN])
      else []
    }

    constructor ()
      ensures Valid() && fresh(FileName) && fresh(Mode) && fresh(ErrMsg)
    {
      FileName := new byte[TFTP_MAX_FILENAME_LEN + 1](_ => 0);
      Mode := new byte[TFTP_MAX_MODE_LEN + 1](_ => 0);
      ErrMsg := new byte[TFTP_MAX_ERRMSG_LEN + 1](_ => 0);
      DataBuf := new byte[0];
      DataPtr := Null;
      State := IDLE;
      fstate := FS_CLOSED;
      new;
      assert FileName[..][0] == 0 && Mode[..][0] == 0 && ErrMsg[..][0] == 0;
    }
  }

  function Min(a: nat, b: nat): (m: nat)
    ensures m <= a && m <= b && (m == a || m == b)
  {
    if a < b then a else b
  }

  // ---------------------------------------------------------------------------------------
  // Reference definitions of the wire format

  function EncodeRequest(op: u16, nameField: seq<byte>, modeField: seq<byte>): seq<byte>
  {
    BeBytes(op) + TerminatedCopy(nameField) + TerminatedCopy(modeField)
  }

  function EncodeData(block: u16, data: seq<byte>): seq<byte>
  {
    BeBytes(TFTP_DATA) + BeBytes(block) + data
  }

  function EncodeAck(block: u16): seq<byte>
  {
    BeBytes(TFTP_ACK) + BeBytes(block)
  }

  function EncodeError(code: u16, msgField: seq<byte>): seq<byte>
  {
    BeBytes(TFTP_ERR) + BeBytes(code) + TerminatedCopy(msgField)
  }

  /** The bytes a bounded copy of at most nbytes from s may read: they end at the last byte of p. */
  function CopyWindow(p: seq<byte>, s: nat, nbytes: u32): (w: seq<byte>)
    requires s <= |p| - 1
    ensures |w| <= nbytes
  {
    p[s..s + Limit(s, nbytes, |p| - 1)]
  }

  /** The file name window: at most TFTP_MAX_FILENAME_LEN bytes after the opcode, within p. */
  function NameWindow(p: seq<byte>): (w: seq<byte>)
    requires |p| >= TFTP_ACK_PKT_LEN
    ensures |w| <= TFTP_MAX_FILENAME_LEN
  {
    CopyWindow(p, 2, TFTP_MAX_FILENAME_LEN)
  }

  /** Where the mode string starts: just past the file name's NUL, or past the whole window. */
  function ModeStart(p: seq<byte>): nat
    requires |p| >= TFTP_ACK_PKT_LEN
  {
    2 + PaddedAdvance(NameWindow(p))
  }

  function ModeWindow(p: seq<byte>): (w: seq<byte>)
    requires |p| >= TFTP_ACK_PKT_LEN && ModeStart(p) <= |p| - 1
    ensures |w| <= TFTP_MAX_MODE_LEN
  {
    CopyWindow(p, ModeStart(p), TFTP_MAX_MODE_LEN)
  }

  function MsgWindow(p: seq<byte>): (w: seq<byte>)
    requires |p| > TFTP_ACK_PKT_LEN
    ensures |w| <= TFTP_MAX_ERRMSG_LEN
  {
    CopyWindow(p, 4, TFTP_MAX_ERRMSG_LEN)
  }

  /**
   * The packet p says, as TFTP_Deserialize_Packet reads it: shorter than an ACK, an unknown
   * opcode, a request whose mode would start past the end, or an ERR with no message byte
   * is Malformed; the strings are what the bounded copies leave.
   */
  function Parse(p: seq<byte>): (k: Packet)
    ensures |p| < TFTP_ACK_PKT_LEN ==> k.Malformed?
    ensures k.Request? ==> |k.name| <= TFTP_MAX_FILENAME_LEN && |k.mode| <= TFTP_MAX_MODE_LEN
    ensures k.Error? ==> |k.msg| <= TFTP_MAX_ERRMSG_LEN
    ensures k.Data? ==> k.len + TFTP_ACK_PKT_LEN == |p|
  {
    if |p| < TFTP_ACK_PKT_LEN then Malformed
    else
      var op := BeValue(p[0], p[1]);
      if op == TFTP_RRQ || op == TFTP_WRQ then
        if ModeStart(p) <= |p| - 1 then Request(op, CStr(NameWindow(p)), CStr(ModeWindow(p)))
        else Malformed
      else if op == TFTP_DATA then Data(BeValue(p[2], p[3]), |p| - TFTP_ACK_PKT_LEN)
      else if op == TFTP_ACK then Ack(BeValue(p[2], p[3]))
      else if op == TFTP_ERR then
        if |p| > TFTP_ACK_PKT_LEN then Error(BeValue(p[2], p[3]), CStr(MsgWindow(p))) else Malformed
      else Malformed
  }

  // ---------------------------------------------------------------------------------------
  // Round trips

  lemma HeaderBytes(op: u16, x: u16, rest: seq<byte>)
    ensures var p := BeBytes(op) + BeBytes(x) + rest;
      |p| == 4 + |rest| && BeValue(p[0], p[1]) == op && BeValue(p[2], p[3]) == x && p[4..] == rest
  {
    var p := BeBytes(op) + BeBytes(x) + rest;
    assert p[4..] == rest;
  }

  /** An ACK comes back with its block number. */
  lemma AckRoundTrip(block: u16)
    ensures Parse(EncodeAck(block)) == Ack(block)
  {
    HeaderBytes(TFTP_ACK, block, []);
    assert EncodeAck(block) == BeBytes(TFTP_ACK) + BeBytes(block) + [];
  }

  /** A DATA packet comes back with its block number and payload length. */
  lemma DataRoundTrip(block: u16, data: seq<byte>)
    ensures Parse(EncodeData(block, data)) == Data(block, |data|)
  {
    HeaderBytes(TFTP_DATA, block, data);
  }

  /** An ERR packet comes back with its code and the C string of its message field. */
  lemma ErrorRoundTrip(code: u16, msgField: seq<byte>)
    requires |msgField| == TFTP_MAX_ERRMSG_LEN
    ensures Parse(EncodeError(code, msgField)) == Error(code, CStr(msgField))
  {
    var t := TerminatedCopy(msgField);
    TerminatedCopyShape(msgField);
    HeaderBytes(TFTP_ERR, code, t);
    var p := EncodeError(code, msgField);
    assert MsgWindow(p) == t;
  }

  /** A request comes back with its opcode and the C strings of its name and mode fields. */
  lemma RequestRoundTrip(op: u16, nameField: seq<byte>, modeField: seq<byte>)
    requires op == TFTP_RRQ || op == TFTP_WRQ
    requires |nameField| == TFTP_MAX_FILENAME_LEN && |modeField| == TFTP_MAX_MODE_LEN
    ensures Parse(EncodeRequest(op, nameField, modeField)) == Request(op, CStr(nameField), CStr(modeField))
  {
    var tn, tm := TerminatedCopy(nameField), TerminatedCopy(modeField);
    TerminatedCopyShape(nameField);
    TerminatedCopyShape(modeField);
    var p := EncodeRequest(op, nameField, modeField);
    var h := BeBytes(op);
    assert p == h + tn + tm;
    U16RoundTrip(op);
    RequestNamePart(h, tn, tm);
    RequestModePart(h, tn, tm);
  }

  lemma RequestNamePart(h: seq<byte>, tn: seq<byte>, tm: seq<byte>)
    requires |h| == 2 && 0 < |tn| <= TFTP_MAX_FILENAME_LEN && 0 < |tm|
    requires StrLen(tn) < |tn| ==> StrLen(tn) + 1 == |tn|
    requires StrLen(tn) == |tn| ==> |tn| == TFTP_MAX_FILENAME_LEN
    ensures var p := h + tn + tm;
      p[0] == h[0] && p[1] == h[1] && CStr(NameWindow(p)) == CStr(tn) && ModeStart(p) == 2 + |tn|
  {
    var p := h + tn + tm;
    NameWindowStartsWithName(h, tn, tm);
    NameWindowReadsName(NameWindow(p), tn);
  }

  lemma NameWindowStartsWithName(h: seq<byte>, tn: seq<byte>, tm: seq<byte>)
    requires |h| == 2 && 0 < |tn| <= TFTP_MAX_FILENAME_LEN && 0 < |tm|
    ensures var nw := NameWindow(h + tn + tm); |tn| <= |nw| && nw[..|tn|] == tn
  {
    var p := h + tn + tm;
    var L := Limit(2, TFTP_MAX_FILENAME_LEN, |p| - 1);
    assert |tn| <= L;
    var nw := p[2..2 + L];
    forall i | 0 <= i < |tn| ensures nw[i] == tn[i] {
      assert p[2 + i] == tn[i];
    }
    assert nw[..|tn|] == tn;
  }

  lemma RequestModePart(h: seq<byte>, tn: seq<byte>, tm: seq<byte>)
    requires |h| == 2 && 0 < |tn| && 0 < |tm| <= TFTP_MAX_MODE_LEN
    requires var p := h + tn + tm; ModeStart(p) == 2 + |tn|
    ensures var p := h + tn + tm; ModeStart(p) <= |p| - 1 && ModeWindow(p) == tm
  {
    var p := h + tn + tm;
    assert |p| == 2 + |tn| + |tm| && p[2 + |tn|..] == tm;
    assert Limit(2 + |tn|, TFTP_MAX_MODE_LEN, |p| - 1) == |tm|;
    assert p[2 + |tn|..2 + |tn| + |tm|] == p[2 + |tn|..];
  }

  /** The name window starts with the NUL-terminated (or full-width) name. */
  lemma NameWindowReadsName(nw: seq<byte>, tn: seq<byte>)
    requires |tn| <= |nw| && nw[..|tn|] == tn && 0 < |tn| <= TFTP_MAX_FILENAME_LEN
    requires StrLen(tn) < |tn| ==> StrLen(tn) + 1 == |tn|
    requires StrLen(tn) == |tn| ==> |nw| == |tn|
    ensures CStr(nw) == CStr(tn) && PaddedAdvance(nw) == |tn|
  {
    var n := StrLen(tn);
    if n < |tn| {
      forall i | 0 <= i <= n ensures nw[i] == tn[i] {
        assert nw[..|tn|][i] == tn[i];
      }
      StrLenUnique(nw, n);
      assert nw[..n] == tn[..n];
    } else {
      assert nw == nw[..|tn|];
    }
  }

  /**
   * The copy limit as written cuts a final "octet" mode field to "octe": a read request for
   * file "f" in octet mode is then refused as an illegal operation.
   */
  lemma ModeCutByLimitAsWritten()
    ensures var p: seq<byte> := [0, 1, 0x66, 0, 0x6F, 0x63, 0x74, 0x65, 0x74, 0];
      && ModeStart(p) == 4
      && LimitAsWritten(4, TFTP_MAX_MODE_LEN, |p| - 1) == 4
      && CStr(p[4..4 + 4]) == [0x6F, 0x63, 0x74, 0x65]
      && Parse(p) == Request(TFTP_RRQ, [0x66], [0x6F, 0x63, 0x74, 0x65, 0x74])
  {
    var p: seq<byte> := [0, 1, 0x66, 0, 0x6F, 0x63, 0x74, 0x65, 0x74, 0];
    OctetRequestFields(p);
    assert BeValue(p[0], p[1]) == TFTP_RRQ;
    assert p[4..8] == [0x6F, 0x63, 0x74, 0x65];
    StrLenOfNulFree(p[4..8]);
  }

  /** The name and mode windows of the RRQ for file "f" in mode "octet", and their strings. */
  lemma OctetRequestFields(p: seq<byte>)
    requires p == [0, 1, 0x66, 0, 0x6F, 0x63, 0x74, 0x65, 0x74, 0]
    ensures ModeStart(p) == 4 && ModeStart(p) <= |p| - 1
    ensures CStr(NameWindow(p)) == [0x66] && CStr(ModeWindow(p)) == [0x6F, 0x63, 0x74, 0x65, 0x74]
  {
    var nw := NameWindow(p);
    assert nw == [0x66, 0, 0x6F, 0x63, 0x74, 0x65, 0x74, 0];
    StrLenOfTerminated(nw[..1], nw[1..]);
    assert nw == nw[..1] + nw[1..];
    var mw := ModeWindow(p);
    assert mw == [0x6F, 0x63, 0x74, 0x65, 0x74, 0];
    assert mw == mw[..5] + [0];
    StrLenOfTerminated(mw[..5], [0]);
  }

  // ---------------------------------------------------------------------------------------
  // TFTP_Deserialize_Packet and TFTP_Serialize_Packet

  /** The field a successful bounded copy leaves: the copy of window w, a NUL, then old bytes. */
  ghost function Filled(oldField: seq<byte>, w: seq<byte>): seq<byte>
    requires |w| < |oldField|
  {
    PaddedCopy(w) + [0] + oldField[|w| + 1..]
  }

  lemma FilledHoldsCStr(oldField: seq<byte>, w: seq<byte>)
    requires |w| < |oldField|
    ensures |Filled(oldField, w)| == |oldField|
    ensures CStr(Filled(oldField, w)) == CStr(w)
    ensures StrLen(Filled(oldField, w)) < |oldField|
  {
    PaddedCopyShape(w);
    var f := Filled(oldField, w);
    var c := PaddedCopy(w);
    if StrLen(w) < |w| {
      assert c == CStr(w) + Zeros(|w| - StrLen(w));
      assert f == CStr(w) + (Zeros(|w| - StrLen(w)) + [0] + oldField[|w| + 1..]);
      StrLenOfTerminated(CStr(w), Zeros(|w| - StrLen(w)) + [0] + oldField[|w| + 1..]);
    } else {
      assert c == w;
      assert f == w + ([0] + oldField[|w| + 1..]);
      StrLenOfTerminated(w, [0] + oldField[|w| + 1..]);
      assert CStr(w) == w;
    }
  }

  /**
   * One string field of a received packet p (the first |p| bytes of buf): the bounded copy
   * into the field, then the terminating NUL that the deserializer stores after it.
   */
  method CopyField(field: array<byte>, buf: array<byte>, buflen: nat, ghost p: seq<byte>, s: nat, nbytes: u32)
    returns (ok: bool, s': nat)
    requires field != buf && 0 < buflen <= buf.Length && p == buf[..buflen]
    requires nbytes < field.Length && nbytes < UINT32_MAX
    modifies field
    ensures ok <==> s <= |p| - 1
    ensures ok ==> var w := CopyWindow(p, s, nbytes);
      && field[..] == Filled(old(field[..]), w) && s' == s + PaddedAdvance(w)
      && CStr(field[..]) == CStr(w) && StrLen(field[..]) < field.Length
    ensures !ok ==> field[..] == old(field[..])
  {
    var res, d', sp := MyStrCpy(field, Addr(0), buf, Addr(s), nbytes, Addr(buflen - 1));
    assert s <= |p| - 1 ==> res <= nbytes;
    if res == UINT32_MAX {
      return false, s;
    }
    ghost var w := CopyWindow(p, s, nbytes);
    assert w == buf[s..s + Limit(s, nbytes, |p| - 1)];
    ghost var mid := field[..];
    field[d'.i] := 0;
    assert field[..] == mid[|w| := 0];
    FilledAfterCopy(mid, old(field[..]), w);
    FilledHoldsCStr(old(field[..]), w);
    ok, s' := true, sp.i;
  }

  /** The NUL stored just past a padded copy of w completes the filled field. */
  lemma FilledAfterCopy(mid: seq<byte>, oldField: seq<byte>, w: seq<byte>)
    requires |w| < |oldField| && |PaddedCopy(w)| == |w|
    requires Placed(mid, oldField, 0, PaddedCopy(w))
    ensures mid[|w| := 0] == Filled(oldField, w)
  {
    var f := mid[|w| := 0];
    assert f[..|w|] == PaddedCopy(w);
    assert f[|w| + 1..] == oldField[|w| + 1..];
    assert f == f[..|w|] + [0] + f[|w| + 1..];
  }

  /**
   * TFTP_Deserialize_Packet (TFTP_ser_desesr.c:24-94), with the corrected copy limit: reads the
   * first buflen bytes of buf into the context. It succeeds exactly when Parse finds a packet,
   * and then the context describes that packet. Fields the packet does not carry keep their
   * values; a request sets OpCode before its copies, so a failed request still changes it.
   */
  method Deserialize(buf: array<byte>, buflen: nat, ctx: Context) returns (r: Status)
    requires buflen <= buf.Length && ctx.Valid()
    requires buf != ctx.FileName && buf != ctx.Mode && buf != ctx.ErrMsg
    modifies ctx, ctx.FileName, ctx.Mode, ctx.ErrMsg
    ensures ctx.Valid()
    ensures r == SUCCESS <==> !Parse(buf[..buflen]).Malformed?
    ensures r == SUCCESS ==> ctx.Received() == Parse(buf[..buflen])
    ensures r == SUCCESS && ctx.OpCode == TFTP_DATA ==>
      ctx.DataBuf == buf && ctx.DataPtr == Addr(TFTP_ACK_PKT_LEN)
    ensures ctx.State == old(ctx.State) && ctx.fstate == old(ctx.fstate)
    ensures ctx.FilePos == old(ctx.FilePos) && ctx.FileSize == old(ctx.FileSize)
    ensures ctx.OpCode != TFTP_DATA ==> ctx.DataLen == old(ctx.DataLen)
    ensures Parse(buf[..buflen]).Malformed? && (buflen < TFTP_ACK_PKT_LEN || !IsKnownOpcode(buf[..buflen])) ==>
      && ctx.OpCode == old(ctx.OpCode) && ctx.BlockNum == old(ctx.BlockNum)
      && ctx.ErrCode == old(ctx.ErrCode) && ctx.DataLen == old(ctx.DataLen)
      && ctx.FileName[..] == old(ctx.FileName[..]) && ctx.Mode[..] == old(ctx.Mode[..])
      && ctx.ErrMsg[..] == old(ctx.ErrMsg[..])
  {
    ghost var p := buf[..buflen];
    if buflen < TFTP_ACK_PKT_LEN {
      return ERROR;
    }
    var opc, _ := ReadU16Ntohs(buf, 0);
    assert opc == BeValue(p[0], p[1]) by {
      U16BytesRoundTrip(p[0], p[1]);
    }
    if opc == TFTP_RRQ || opc == TFTP_WRQ {
      r := DeserializeRequest(buf, buflen, ctx, opc);
    } else if opc == TFTP_DATA || opc == TFTP_ACK {
      DeserializeBlock(buf, buflen, ctx, opc);
      r := SUCCESS;
    } else if opc == TFTP_ERR {
      r := DeserializeError(buf, buflen, ctx);
    } else {
      r := ERROR;
    }
  }

  /** The opcode of a packet of at least 4 bytes is one of the five of RFC 1350. */
  predicate IsKnownOpcode(p: seq<byte>)
    requires |p| >= 2
  {
    TFTP_RRQ <= BeValue(p[0], p[1]) <= TFTP_ERR
  }

  /** The RRQ/WRQ branch: set OpCode, then copy the file name and the mode. */
  method DeserializeRequest(buf: array<byte>, buflen: nat, ctx: Context, opc: u16) returns (r: Status)
    requires TFTP_ACK_PKT_LEN <= buflen <= buf.Length && ctx.Valid()
    requires buf != ctx.FileName && buf != ctx.Mode && buf != ctx.ErrMsg
    requires opc == BeValue(buf[0], buf[1]) && (opc == TFTP_RRQ || opc == TFTP_WRQ)
    modifies ctx`OpCode, ctx.FileName, ctx.Mode
    ensures ctx.Valid() && ctx.OpCode == opc
    ensures r == SUCCESS <==> !Parse(buf[..buflen]).Malformed?
    ensures r == SUCCESS ==> ctx.Received() == Parse(buf[..buflen])
  {
    ghost var p := buf[..buflen];
    ctx.OpCode := opc;
    var ok, s' := CopyField(ctx.FileName, buf, buflen, p, 2, TFTP_MAX_FILENAME_LEN);
    assert ok && s' == ModeStart(p);
    ghost var name := CStr(ctx.FileName[..]);
    assert name == CStr(NameWindow(p));
    var modeOk, _ := CopyField(ctx.Mode, buf, buflen, p, s', TFTP_MAX_MODE_LEN);
    if !modeOk {
      assert Parse(p) == Malformed;
      return ERROR;
    }
    assert CStr(ctx.FileName[..]) == name;
    assert CStr(ctx.Mode[..]) == CStr(ModeWindow(p));
    assert Parse(p) == Request(opc, CStr(NameWindow(p)), CStr(ModeWindow(p)));
    r := SUCCESS;
  }

  /**
   * The DATA and ACK branches: set OpCode and the block number; a DATA packet's payload is the
   * rest of the buffer, from just past the header.
   */
  method DeserializeBlock(buf: array<byte>, buflen: nat, ctx: Context, opc: u16)
    requires TFTP_ACK_PKT_LEN <= buflen <= buf.Length
    requires opc == BeValue(buf[0], buf[1]) && (opc == TFTP_DATA || opc == TFTP_ACK)
    modifies ctx`OpCode, ctx`BlockNum, ctx`DataBuf, ctx`DataPtr, ctx`DataLen
    ensures ctx.OpCode == opc && ctx.BlockNum == BeValue(buf[2], buf[3])
    ensures opc == TFTP_DATA ==>
      ctx.DataBuf == buf && ctx.DataPtr == Addr(TFTP_ACK_PKT_LEN) && ctx.DataLen + TFTP_ACK_PKT_LEN == buflen
    ensures opc == TFTP_ACK ==>
      ctx.DataBuf == old(ctx.DataBuf) && ctx.DataPtr == old(ctx.DataPtr) && ctx.DataLen == old(ctx.DataLen)
  {
    ctx.OpCode := opc;
    var blk, sp := ReadU16Ntohs(buf, TFTP_OPCODE_LEN);
    U16BytesRoundTrip(buf[2], buf[3]);
    ctx.BlockNum := blk;
    if opc == TFTP_DATA {
      ctx.DataBuf, ctx.DataPtr := buf, Addr(sp);
      ctx.DataLen := buflen - (TFTP_OPCODE_LEN + TFTP_BLKNUM_LEN);
    }
  }

  /** The ERR branch: set OpCode and ErrCode, then copy the message. */
  method DeserializeError(buf: array<byte>, buflen: nat, ctx: Context) returns (r: Status)
    requires TFTP_ACK_PKT_LEN <= buflen <= buf.Length && ctx.Valid()
    requires buf != ctx.FileName && buf != ctx.Mode && buf != ctx.ErrMsg
    requires BeValue(buf[0], buf[1]) == TFTP_ERR
    modifies ctx`OpCode, ctx`ErrCode, ctx.ErrMsg
    ensures ctx.Valid() && ctx.OpCode == TFTP_ERR
    ensures r == SUCCESS <==> !Parse(buf[..buflen]).Malformed?
    ensures r == SUCCESS ==> ctx.Received() == Parse(buf[..buflen])
  {
    ghost var p := buf[..buflen];
    ctx.OpCode := TFTP_ERR;
    var code, s2 := ReadU16Ntohs(buf, 2);
    U16BytesRoundTrip(p[2], p[3]);
    ctx.ErrCode := code;
    var ok, _ := CopyField(ctx.ErrMsg, buf, buflen, p, s2, TFTP_MAX_ERRMSG_LEN);
    if !ok {
      return ERROR;
    }
    r := SUCCESS;
  }

  /**
   * TFTP_Serialize_Packet (TFTP_ser_desesr.c:104-173): writes the packet the context describes
   * at the start of buf and returns its length, or UINT32_MAX for an unknown opcode. A DATA
   * payload is cut to what fits in buflen bytes; memcpy demands that the payload either lies
   * outside buf or already sits at its place, just past the header.
   */
  method Serialize(buf: array<byte>, buflen: u32, ctx: Context) returns (r: u32)
    requires ctx.Valid() && ctx.DataReadable(buflen) && buflen <= buf.Length
    requires MAX_REQUEST_PKT_LEN <= buf.Length < UINT32_MAX
    requires buf != ctx.FileName && buf != ctx.Mode && buf != ctx.ErrMsg
    requires ctx.OpCode == TFTP_DATA && ctx.DataBuf == buf ==> ctx.DataPtr == Addr(TFTP_ACK_PKT_LEN)
    modifies buf
    ensures r == UINT32_MAX <==> !(TFTP_RRQ <= ctx.OpCode <= TFTP_ERR)
    ensures r == UINT32_MAX ==> buf[..] == old(buf[..])
    ensures r != UINT32_MAX ==> r <= buf.Length && buf[..r] == old(ctx.Outgoing(buflen))
  {
    var op := ctx.OpCode;
    if op == TFTP_RRQ || op == TFTP_WRQ {
      r := SerializeRequest(buf, op, ctx.FileName, ctx.Mode);
    } else if op == TFTP_DATA {
      r := SerializeData(buf, buflen, ctx.BlockNum, ctx.DataBuf, ctx.DataPtr.i, ctx.DataLen);
    } else if op == TFTP_ACK {
      r := SerializeAck(buf, ctx.BlockNum);
    } else if op == TFTP_ERR {
      r := SerializeError(buf, ctx.ErrCode, ctx.ErrMsg);
    } else {
      r := UINT32_MAX;
    }
  }

  /**
   * One string field copied out with mystrcpynf, its limit pointer on the field's last byte:
   * the field's bytes through the first NUL land at d. The copy cannot fail here, since
   * every pointer is set and the source lies within its field.
   */
  method PutField(buf: array<byte>, d: nat, field: array<byte>, n: nat) returns (d': nat)
    requires buf != field && 0 < n < field.Length && d + n <= buf.Length && n < UINT32_MAX
    modifies buf
    ensures d <= d' <= d + n && d' - d == |TerminatedCopy(field[..n])|
    ensures buf[..d] == old(buf[..d])
    ensures buf[d..d'] == TerminatedCopy(field[..n])
  {
    var res, dp, _ := MyStrCpyNf(buf, Addr(d), field, Addr(0), n, Addr(n));
    assert field[0..n] == field[..n];
    d' := dp.i;
    assert forall k :: 0 <= k < d ==> buf[..d][k] == old(buf[..d])[k];
  }

  /** The RRQ/WRQ branch: the opcode, then the file name and the mode each through its first NUL. */
  method SerializeRequest(buf: array<byte>, op: u16, name: array<byte>, mode: array<byte>) returns (r: u32)
    requires MAX_REQUEST_PKT_LEN <= buf.Length && buf != name && buf != mode
    requires name.Length == TFTP_MAX_FILENAME_LEN + 1 && mode.Length == TFTP_MAX_MODE_LEN + 1
    modifies buf
    ensures r <= MAX_REQUEST_PKT_LEN
    ensures buf[..r] == EncodeRequest(op, name[..TFTP_MAX_FILENAME_LEN], mode[..TFTP_MAX_MODE_LEN])
  {
    var p := WriteU16Htons(buf, 0, op);
    var d := PutFields(buf, p, name, mode);
    assert buf[..2] == BeBytes(op);
    assert buf[..d] == buf[..2] + buf[2..d];
    r := d;
  }

  /** The name and the mode fields, one after the other at d. */
  method PutFields(buf: array<byte>, d: nat, name: array<byte>, mode: array<byte>) returns (d': nat)
    requires d + TFTP_MAX_FILENAME_LEN + TFTP_MAX_MODE_LEN <= buf.Length && buf != name && buf != mode
    requires name.Length == TFTP_MAX_FILENAME_LEN + 1 && mode.Length == TFTP_MAX_MODE_LEN + 1
    modifies buf
    ensures d <= d' <= d + TFTP_MAX_FILENAME_LEN + TFTP_MAX_MODE_LEN
    ensures buf[..d] == old(buf[..d])
    ensures buf[d..d'] == TerminatedCopy(name[..TFTP_MAX_FILENAME_LEN]) + TerminatedCopy(mode[..TFTP_MAX_MODE_LEN])
  {
    ghost var b0 := buf[..d];
    var d1 := PutField(buf, d, name, TFTP_MAX_FILENAME_LEN);
    ghost var b1 := buf[..d1];
    d' := PutField(buf, d1, mode, TFTP_MAX_MODE_LEN);
    assert buf[..d1] == b1;
    assert buf[..d] == b1[..d] == b0;
    assert buf[d..d'] == buf[d..d1] + buf[d1..d'];
  }

  /** The ACK branch: the opcode and the block number. */
  method SerializeAck(buf: array<byte>, block: u16) returns (r: u32)
    requires TFTP_ACK_PKT_LEN <= buf.Length
    modifies buf
    ensures r == TFTP_ACK_PKT_LEN && buf[..r] == EncodeAck(block)
  {
    var p := WriteU16Htons(buf, 0, TFTP_ACK);
    p := WriteU16Htons(buf, p, block);
    Assemble(buf[..], BeBytes(TFTP_ACK), BeBytes(block), []);
    r := TFTP_OPCODE_LEN + TFTP_BLKNUM_LEN;
  }

  /** A buffer holding x, y and z one after the other starts with x + y + z. */
  lemma Assemble(b: seq<byte>, x: seq<byte>, y: seq<byte>, z: seq<byte>)
    requires |x| + |y| + |z| <= |b|
    requires b[..|x|] == x && b[|x|..|x| + |y|] == y && b[|x| + |y|..|x| + |y| + |z|] == z
    ensures b[..|x| + |y| + |z|] == x + y + z
  {
    assert b[..|x| + |y| + |z|] == b[..|x|] + b[|x|..|x| + |y|] + b[|x| + |y|..|x| + |y| + |z|];
  }

  /** The DATA branch: the header, then as much of the payload (n bytes at data[ptr]) as fits in buflen bytes. */
  method SerializeData(buf: array<byte>, buflen: u32, block: u16, data: array<byte>, ptr: nat, len: nat)
    returns (r: u32)
    requires TFTP_ACK_PKT_LEN <= buflen <= buf.Length
    requires ptr + Min(len, buflen - TFTP_ACK_PKT_LEN) <= data.Length
    requires data == buf ==> ptr == TFTP_ACK_PKT_LEN
    modifies buf
    ensures r <= buflen
    ensures buf[..r] == EncodeData(block, old(data[ptr..ptr + Min(len, buflen - TFTP_ACK_PKT_LEN)]))
  {
    var numbytes := if len > buflen - TFTP_ACK_PKT_LEN then buflen - TFTP_ACK_PKT_LEN else len;
    ghost var payload := data[ptr..ptr + numbytes];
    ghost var whole := buf[..];
    var p := WriteU16Htons(buf, 0, TFTP_DATA);
    p := WriteU16Htons(buf, p, block);
    if data == buf {
      assert buf[4..] == whole[4..];
      forall i | 4 <= i < 4 + numbytes ensures buf[i] == whole[i] {
        assert buf[4..][i - 4] == whole[4..][i - 4];
      }
    }
    assert data[ptr..ptr + numbytes] == payload;
    assert buf[..4] == buf[..2] + buf[2..4];
    ghost var hdr := buf[..4];
    assert hdr == BeBytes(TFTP_DATA) + BeBytes(block);
    MemCpy(buf, p, data, ptr, numbytes);
    assert buf[..4] == hdr && buf[4..4 + numbytes] == payload;
    assert buf[..4 + numbytes] == buf[..4] + buf[4..4 + numbytes];
    r := numbytes + TFTP_ACK_PKT_LEN;
  }

  /** The ERR branch: the header with the error code, then the message through its first NUL. */
  method SerializeError(buf: array<byte>, code: u16, msg: array<byte>) returns (r: u32)
    requires MAX_REQUEST_PKT_LEN <= buf.Length && buf != msg && msg.Length == TFTP_MAX_ERRMSG_LEN + 1
    modifies buf
    ensures r <= TFTP_ACK_PKT_LEN + TFTP_MAX_ERRMSG_LEN
    ensures buf[..r] == EncodeError(code, msg[..TFTP_MAX_ERRMSG_LEN])
  {
    var p := WriteU16Htons(buf, 0, TFTP_ERR);
    p := WriteU16Htons(buf, p, code);
    ghost var b0 := buf[..];
    var d := PutField(buf, p, msg, TFTP_MAX_ERRMSG_LEN);
    assert buf[..4] == b0[..4];
    Assemble(buf[..], BeBytes(TFTP_ERR), BeBytes(code), buf[4..d]);
    r := d;
  }

  /**
   * What the serializer writes for a valid context, the deserializer reads back as the same
   * packet: the string fields come back as the C strings they hold, DATA with its length
   * when the payload fits.
   */
  lemma ContextRoundTrip(ctx: Context, buflen: nat)
    requires ctx.Valid() && ctx.DataReadable(buflen) && TFTP_RRQ <= ctx.OpCode <= TFTP_ERR
    requires ctx.OpCode == TFTP_DATA ==> ctx.DataLen <= buflen - TFTP_ACK_PKT_LEN
    ensures Parse(ctx.Outgoing(buflen)) == ctx.Received()
  {
    var op := ctx.OpCode;
    if op == TFTP_RRQ || op == TFTP_WRQ {
      RequestRoundTrip(op, ctx.FileName[..TFTP_MAX_FILENAME_LEN], ctx.Mode[..TFTP_MAX_MODE_LEN]);
      CStrOfPrefix(ctx.FileName[..], TFTP_MAX_FILENAME_LEN);
      CStrOfPrefix(ctx.Mode[..], TFTP_MAX_MODE_LEN);
      assert ctx.FileName[..][..TFTP_MAX_FILENAME_LEN] == ctx.FileName[..TFTP_MAX_FILENAME_LEN];
      assert ctx.Mode[..][..TFTP_MAX_MODE_LEN] == ctx.Mode[..TFTP_MAX_MODE_LEN];
    } else if op == TFTP_DATA {
      var n := Min(ctx.DataLen, buflen - TFTP_ACK_PKT_LEN);
      DataRoundTrip(ctx.BlockNum, ctx.DataBuf[ctx.DataPtr.i..ctx.DataPtr.i + n]);
    } else if op == TFTP_ACK {
      AckRoundTrip(ctx.BlockNum);
    } else {
      ErrorRoundTrip(ctx.ErrCode, ctx.ErrMsg[..TFTP_MAX_ERRMSG_LEN]);
      CStrOfPrefix(ctx.ErrMsg[..], TFTP_MAX_ERRMSG_LEN);
      assert ctx.ErrMsg[..][..TFTP_MAX_ERRMSG_LEN] == ctx.ErrMsg[..TFTP_MAX_ERRMSG_LEN];
    }
  }
}
