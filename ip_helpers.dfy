// IP configuration files (Core/Src/helpers/ip_helpers.c): a struct IP record of 22 characters,
// a four-character tag, twelve address digits, five port digits and a newline, kept in a tiny-fs
// file and read or written whole through ReadBytes and WriteBytes. The "pointer != NULL"
// arguments are booleans and Options, as in FileIo.

module IpHelpers {
  import opened Common
  import opened AsciiHelpers
  import opened TinyFsLayout
  import opened TinyFsImage
  import opened TinyFsFiles
  import opened TinyFsDriver
  import opened FileIo

  const IP_LEN: nat := 12
  const PORT_LEN: nat := 5
  /** sizeof(struct IP): ip_n[4], ip_v[IP_LEN], ip_p[PORT_LEN], ip_nl[1], packed */
  const IP_SIZE: nat := 22

  /** ip_pair_t */
  datatype IpPair = IpPair(ip: u32, port: u16)

  /** the fields of a struct IP record */
  function IpTag(rec: seq<byte>): seq<byte>
    requires |rec| == IP_SIZE
  {
    rec[..4]
  }

  function IpDigits(rec: seq<byte>): seq<byte>
    requires |rec| == IP_SIZE
  {
    rec[4..4 + IP_LEN]
  }

  function PortDigits(rec: seq<byte>): seq<byte>
    requires |rec| == IP_SIZE
  {
    rec[4 + IP_LEN..4 + IP_LEN + PORT_LEN]
  }

  /** what isDec accepts: a non-empty run of decimal digits */
  predicate AllDec(s: seq<byte>)
  {
    |s| > 0 && forall i :: 0 <= i < |s| ==> IsDecChar(s[i])
  }

  /** MAKE_IP (ip_helpers.h:17-21): a in the low byte, d in the high byte */
  function MakeIp(a: byte, b: byte, c: byte, d: byte): (r: u32)
  {
    a + 0x100 * b + 0x1_0000 * c + 0x100_0000 * d
  }

  /** byte k of an address, counted from the low end */
  function Octet(ip: u32, k: nat): (r: byte)
    requires k < 4
  {
    if k == 0 then ip % 0x100
    else if k == 1 then ip / 0x100 % 0x100
    else if k == 2 then ip / 0x1_0000 % 0x100
    else ip / 0x100_0000
  }

  /** MAKE_IP packs four bytes without loss: each comes back out where it went in. */
  lemma MakeIpOctets(a: byte, b: byte, c: byte, d: byte)
    ensures var ip := MakeIp(a, b, c, d);
            Octet(ip, 0) == a && Octet(ip, 1) == b && Octet(ip, 2) == c && Octet(ip, 3) == d
  {
    var ip := MakeIp(a, b, c, d);
    assert ip == a + 0x100 * (b + 0x100 * c + 0x1_0000 * d);
    assert ip / 0x100 == b + 0x100 * c + 0x1_0000 * d;
    assert ip / 0x1_0000 == c + 0x100 * d;
  }

  /** Every address is MAKE_IP of its four bytes. */
  lemma OctetsMakeIp(ip: u32)
    ensures MakeIp(Octet(ip, 0), Octet(ip, 1), Octet(ip, 2), Octet(ip, 3)) == ip
  {
    var q1 := ip / 0x100;
    var q2 := q1 / 0x100;
    assert ip == ip % 0x100 + 0x100 * q1;
    assert q1 == q1 % 0x100 + 0x100 * q2;
    assert q2 == q2 % 0x100 + 0x100 * (q2 / 0x100);
    assert q2 == ip / 0x1_0000 && q2 / 0x100 == ip / 0x100_0000;
  }

  /** the twelve address digits as four 3-digit groups through adec2byte, packed with MAKE_IP */
  function IpOfDigits(v: seq<byte>): u32
    requires |v| == IP_LEN
  {
    MakeIp(Adec2Byte(v[0..3], 3), Adec2Byte(v[3..6], 3), Adec2Byte(v[6..9], 3), Adec2Byte(v[9..12], 3))
  }

  /**
   * What ReadIPConfigFile makes of a record read whole (ip_helpers.c:57-83): None, which it
   * reports as FR_INVALID_OBJECT, unless the tag is the template's and both number fields are
   * all digits.
   */
  function DecodeIp(rec: seq<byte>, template: seq<byte>): (r: Option<IpPair>)
    requires |rec| == IP_SIZE && |template| == IP_SIZE
  {
    if IpTag(rec) != IpTag(template) || !AllDec(IpDigits(rec)) || !AllDec(PortDigits(rec)) then None
    else Some(IpPair(IpOfDigits(IpDigits(rec)), Adec2Uint16Spec(PortDigits(rec), PORT_LEN)))
  }

  /** The record a configuration file holds: tag, four 3-digit groups, five port digits, nl. */
  function EncodeIp(tag: seq<byte>, a: nat, b: nat, c: nat, d: nat, port: nat, nl: byte): (rec: seq<byte>)
    requires |tag| == 4 && a < 1000 && b < 1000 && c < 1000 && d < 1000 && port < 100000
    ensures |rec| == IP_SIZE
  {
    tag + DecTriple(a) + DecTriple(b) + DecTriple(c) + DecTriple(d) + Dec5(port) + [nl]
  }

  /**
   * A record written with the template's tag decodes to its numbers: the address groups modulo
   * 256 (so "256" reads as 0 and nothing above 255 is rejected) and the port modulo 2^16.
   */
  lemma DecodeEncodeIp(template: seq<byte>, a: nat, b: nat, c: nat, d: nat, port: nat, nl: byte)
    requires |template| == IP_SIZE && a < 1000 && b < 1000 && c < 1000 && d < 1000 && port < 100000
    ensures var rec := EncodeIp(IpTag(template), a, b, c, d, port, nl);
            DecodeIp(rec, template)
            == Some(IpPair(MakeIp(a % 0x100, b % 0x100, c % 0x100, d % 0x100), port % 0x1_0000))
  {
    var rec := EncodeIp(IpTag(template), a, b, c, d, port, nl);
    var v := IpDigits(rec);
    assert IpTag(rec) == IpTag(template);
    assert v == DecTriple(a) + DecTriple(b) + DecTriple(c) + DecTriple(d);
    IpOfTriples(a, b, c, d);
    assert PortDigits(rec) == Dec5(port);
    Adec2Uint16OfDec5(port);
  }

  /** Four 3-digit groups are twelve digits that read as MAKE_IP of the groups modulo 256. */
  lemma IpOfTriples(a: nat, b: nat, c: nat, d: nat)
    requires a < 1000 && b < 1000 && c < 1000 && d < 1000
    ensures var v := DecTriple(a) + DecTriple(b) + DecTriple(c) + DecTriple(d);
            |v| == IP_LEN && AllDec(v)
            && IpOfDigits(v) == MakeIp(a % 0x100, b % 0x100, c % 0x100, d % 0x100)
  {
    var v := DecTriple(a) + DecTriple(b) + DecTriple(c) + DecTriple(d);
    assert v[0..3] == DecTriple(a) && v[3..6] == DecTriple(b);
    assert v[6..9] == DecTriple(c) && v[9..12] == DecTriple(d);
    Adec2ByteOfDecTriple(a);
    Adec2ByteOfDecTriple(b);
    Adec2ByteOfDecTriple(c);
    Adec2ByteOfDecTriple(d);
    assert forall i :: 0 <= i < IP_LEN ==> IsDecChar(v[i]);
  }

  /** The decoder fails exactly on a foreign tag or a non-digit in either number field. */
  lemma DecodeIpFails(rec: seq<byte>, template: seq<byte>)
    requires |rec| == IP_SIZE && |template| == IP_SIZE
    ensures DecodeIp(rec, template).None? <==>
              rec[..4] != template[..4]
              || (exists i :: 4 <= i < 4 + IP_LEN && !IsDecChar(rec[i]))
              || (exists i :: 4 + IP_LEN <= i < 4 + IP_LEN + PORT_LEN && !IsDecChar(rec[i]))
  {
    if exists i :: 4 <= i < 4 + IP_LEN && !IsDecChar(rec[i]) {
      var i :| 4 <= i < 4 + IP_LEN && !IsDecChar(rec[i]);
      assert IpDigits(rec)[i - 4] == rec[i];
    }
    if exists i :: 4 + IP_LEN <= i < 4 + IP_LEN + PORT_LEN && !IsDecChar(rec[i]) {
      var i :| 4 + IP_LEN <= i < 4 + IP_LEN + PORT_LEN && !IsDecChar(rec[i]);
      assert PortDigits(rec)[i - 4 - IP_LEN] == rec[i];
    }
  }

  /**
   * The record-reading half of ReadIPConfigFile (ip_helpers.c:57-87) on the br bytes read: the
   * checks and conversions in the code's order, with isDec and adec2uint16 as loops.
   */
  method DecodeRecord(buf: seq<byte>, template: seq<byte>) returns (res: FResult, pair: Option<IpPair>)
    requires |template| == IP_SIZE
    ensures |buf| != IP_SIZE ==> res == FR_INVALID_OBJECT && pair.None?
    ensures |buf| == IP_SIZE ==> pair == DecodeIp(buf, template)
    ensures res == FR_OK <==> pair.Some?
    ensures res != FR_OK ==> res == FR_INVALID_OBJECT
  {
    pair := None;
    res := FR_INVALID_OBJECT;
    if |buf| != IP_SIZE {
      return;
    }
    if buf[..4] != template[..4] {
      return;
    }
    var ok := IsDec(buf[4..4 + IP_LEN], IP_LEN);
    if !ok {
      return;
    }
    var v := buf[4..4 + IP_LEN];
    var ip := MakeIp(Adec2Byte(v[0..3], 3), Adec2Byte(v[3..6], 3), Adec2Byte(v[6..9], 3), Adec2Byte(v[9..12], 3));
    ok := IsDec(buf[4 + IP_LEN..4 + IP_LEN + PORT_LEN], PORT_LEN);
    if !ok {
      return;
    }
    var port := Adec2Uint16(buf[4 + IP_LEN..4 + IP_LEN + PORT_LEN], PORT_LEN);
    pair := Some(IpPair(ip, port));
    res := FR_OK;
  }

  /**
   * ReadIPConfigFile (ip_helpers.c:24-91): FR_INVALID_PARAMETER without media, name, template
   * or result; otherwise ReadBytes of sizeof(struct IP) bytes from position 0 of the file, whose
   * error is passed on, then DecodeRecord on what was read. pair is what is written to *ip_pair,
   * None when nothing is. read is ReadBytes's result, data the bytes it read, mOpen and e as
   * ReadBytes states them.
   */
  method ReadIPConfigFile(fs: TinyFs, hasMedia: bool, fname: Option<seq<byte>>,
                          template: Option<seq<byte>>, hasPair: bool, schedulerStarted: bool, waits: nat)
    returns (res: FResult, pair: Option<IpPair>, read: FResult, data: seq<byte>,
             ghost mOpen: seq<byte>, ghost e: DirEntry)
    requires fs.Valid() && EntryOf(fs.media[..], 0).size <= FS_DTA_SIZE
    requires template.Some? ==> |template.value| == IP_SIZE
    modifies fs, fs.media, fs.dta
    ensures fs.Valid()
    ensures !hasMedia || fname.None? || template.None? || !hasPair ==>
              res == FR_INVALID_PARAMETER && pair.None?
              && fs.media[..] == old(fs.media[..]) && fs.mutexes == old(fs.mutexes)
    ensures hasMedia && fname.Some? && template.Some? && hasPair ==>
              (read != FR_OK ==> res == read && pair.None?)
              && (read == FR_TOO_MANY_OPEN_FILES <==> 0 !in old(fs.mutexes))
              && (read == FR_OK ==>
                    (|data| != IP_SIZE ==> res == FR_INVALID_OBJECT && pair.None?)
                    && (|data| == IP_SIZE ==>
                          pair == DecodeIp(data, template.value)
                          && res == (if pair.Some? then FR_OK else FR_INVALID_OBJECT)))
    ensures read == FR_OK ==>
              fname.Some? && IsMedia(mOpen)
              && Opened(fs.crc32, old(fs.media[..]), LoadedDta(old(fs.media[..]), old(fs.dta[..]))[..TABLE_SIZE],
                        mOpen, e, CutName(fname.value), 0, FModeRead)
              && |data| == ReadCount(IP_SIZE, e.size, 0)
              && (|data| > 0 ==> AddrOf(e, 0) + |data| <= |mOpen| && data == mOpen[AddrOf(e, 0)..AddrOf(e, 0) + |data|])
              && fs.media[..] == StoreEntry(fs.crc32, mOpen, FirstNamed(mOpen, e.name, 0), e.(status := FStateClosed))
  {
    pair := None;
    read := FR_INVALID_PARAMETER;
    data := [];
    mOpen, e := fs.media[..], ZERO_ENTRY;
    if !hasMedia || fname.None? || template.None? || !hasPair {
      return FR_INVALID_PARAMETER, None, read, data, mOpen, e;
    }
    var buf := new byte[IP_SIZE];
    var br;
    read, br, mOpen, e := ReadBytes(fs, true, fname, 0, IP_SIZE, true, buf, schedulerStarted, waits);
    res := read;
    if read != FR_OK {
      return;
    }
    data := buf[..br];
    res, pair := DecodeRecord(data, template.value);
  }

  /**
   * SaveIPConfigFile (ip_helpers.c:101-125): FR_INVALID_PARAMETER without media, name or
   * template; otherwise WriteBytes of the template's 22 bytes at position 0, and
   * FR_INVALID_OBJECT whenever fewer than 22 were written, whatever WriteBytes answered (the
   * count stays 0 when WriteBytes failed before writing). written is WriteBytes's result, mOpen
   * and e as WriteBytes states them.
   */
  method SaveIPConfigFile(fs: TinyFs, hasMedia: bool, fname: Option<seq<byte>>,
                          template: Option<seq<byte>>, schedulerStarted: bool, waits: nat)
    returns (res: FResult, written: FResult, ghost mOpen: seq<byte>, ghost e: DirEntry)
    requires fs.Valid() && EntryOf(fs.media[..], 0).size <= FS_DTA_SIZE
    requires template.Some? ==> |template.value| == IP_SIZE
    modifies fs, fs.media, fs.dta
    ensures fs.Valid()
    ensures !hasMedia || fname.None? || template.None? ==>
              res == FR_INVALID_PARAMETER && fs.media[..] == old(fs.media[..]) && fs.mutexes == old(fs.mutexes)
    ensures hasMedia && fname.Some? && template.Some? ==>
              (written == FR_TOO_MANY_OPEN_FILES <==> 0 !in old(fs.mutexes))
              && (written == FR_TOO_MANY_OPEN_FILES || written == FR_LOCKED ==>
                    res == FR_INVALID_OBJECT && fs.media[..] == old(fs.media[..]) && fs.mutexes == old(fs.mutexes))
              && (res == FR_OK <==> written == FR_OK && WriteCount(IP_SIZE as u32, e.size, 0) == IP_SIZE as u32)
              && (res != FR_OK ==> res == FR_INVALID_OBJECT || res == written)
    ensures written == FR_OK ==>
              fname.Some? && template.Some? && IsMedia(mOpen) && fs.mutexes == old(fs.mutexes)
              && Opened(fs.crc32, old(fs.media[..]), LoadedDta(old(fs.media[..]), old(fs.dta[..]))[..TABLE_SIZE],
                        mOpen, e, CutName(fname.value), IP_SIZE as u16, FModeWrite)
              && var n := WriteCount(IP_SIZE as u32, e.size, 0);
                 0 < n && AddrOf(e, 0) + n <= |mOpen|
                 && fs.media[..] == WrittenAndClosed(fs.crc32, mOpen, e, 0, n, template.value)
  {
    written, mOpen, e := FR_INVALID_PARAMETER, fs.media[..], ZERO_ENTRY;
    if !hasMedia || fname.None? || template.None? {
      return FR_INVALID_PARAMETER, written, mOpen, e;
    }
    var bw;
    written, bw, mOpen, e := WriteBytes(fs, true, fname, 0, IP_SIZE as u32, true, template, schedulerStarted, waits);
    res := written;
    if bw != IP_SIZE as u32 {
      res := FR_INVALID_OBJECT;
    }
  }

  /**
   * Round trip of SaveIPConfigFile and ReadIPConfigFile (ip_helpers.c:101-125, 24-91): once a
   * save with a template answered FR_OK, a read of the same name with the same template reads
   * the template's 22 bytes back and so decodes to the template's own address and port. The
   * parameters are the ghost results the two methods state: m0 is the media before the save,
   * mW after its open (entry e) and m1 after it; mR is the media after the read's open (entry f)
   * and data what it read. The name must not be that of the "$$FAT$$" entry, which findEntry
   * reports as absent, and a file of that name that already exists must lie past the
   * directory, as every file NewFile creates does.
   */
  lemma SaveThenReadIp(crc32: (seq<byte>, u32) -> u32, m0: seq<byte>, t0: seq<bv8>, mW: seq<byte>,
                       e: DirEntry, fname: seq<byte>, template: seq<byte>, m1: seq<byte>,
                       t1: seq<bv8>, mR: seq<byte>, f: DirEntry, data: seq<byte>)
    requires |template| == IP_SIZE && IsMedia(m0) && |t0| == TABLE_SIZE && IsMedia(mW) && WellSized(e)
    requires !NamedAt(m0, 0, CutName(fname))
    requires FirstNamed(m0, CutName(fname), 0) != 0 ==>
               CLUSTER_TABLE_OFFSET <= EntryOf(m0, FirstNamed(m0, CutName(fname), 0)).address
    // SaveIPConfigFile answered FR_OK
    requires Opened(crc32, m0, t0, mW, e, CutName(fname), IP_SIZE as u16, FModeWrite)
    requires WriteCount(IP_SIZE as u32, e.size, 0) == IP_SIZE as u32 && AddrOf(e, 0) + IP_SIZE <= |mW|
    requires m1 == WrittenAndClosed(crc32, mW, e, 0, IP_SIZE, template)
    // ReadIPConfigFile's ReadBytes answered FR_OK
    requires |t1| == TABLE_SIZE && IsMedia(m1) && Opened(crc32, m1, t1, mR, f, CutName(fname), 0, FModeRead)
    requires |data| == ReadCount(IP_SIZE as u32, f.size, 0) as nat
    requires |data| > 0 ==> AddrOf(f, 0) + |data| <= |mR| && data == mR[AddrOf(f, 0)..AddrOf(f, 0) + |data|]
    ensures data == template && DecodeIp(data, template) == DecodeIp(template, template)
  {
    WriteThenReadBack(crc32, m0, t0, mW, e, CutName(fname), IP_SIZE as u16, template, IP_SIZE as u32,
                      m1, t1, mR, f, data);
  }
}
