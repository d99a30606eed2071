// The network part of the start-up code (Core/Src/app/startup.c): the default IP
// configuration record, SaveIPCfg, which stores it in the file "IP_CFG", and Init_NIC, which
// reads that file into the interface globals of lan.c. Both run before the scheduler starts, on
// Media0. The rest of AppStartUp (boot selection, formatting, console output, resets) is not
// part of this model.

module Startup {
  import opened Common
  import opened AsciiHelpers
  import opened TinyFsLayout
  import opened TinyFsImage
  import opened TinyFsFiles
  import opened TinyFsDriver
  import opened FileIo
  import opened IpHelpers

  const MAC_LEN: nat := 12
  /** sizeof(struct MAC): mac_h[4], mac_v[MAC_LEN], mac_pad[6] */
  const MAC_SIZE: nat := 22
  /** sizeof(struct ip_cfg): MAC_addr, Own_IP, Net_Mask, GW and the zero byte, packed */
  const CFG_SIZE: nat := MAC_SIZE + 3 * IP_SIZE + 1
  /** where each section of struct ip_cfg starts */
  const OWN_IP_AT: nat := MAC_SIZE
  const NET_MASK_AT: nat := MAC_SIZE + IP_SIZE
  const GW_AT: nat := MAC_SIZE + 2 * IP_SIZE

  /** IP_Cfg_File */
  const IP_CFG_NAME: seq<byte> := Ascii("IP_CFG")

  /** the section tags of IP_Cfg_File_Default, which Init_NIC compares against */
  const MAC_TAG: seq<byte> := Ascii("MAC_")
  const IP_TAG: seq<byte> := Ascii("IP__")
  const NM_TAG: seq<byte> := Ascii("NM__")
  const GW_TAG: seq<byte> := Ascii("GW__")

  /** the sections of IP_Cfg_File_Default (startup.c:65-91) */
  const DEFAULT_MAC_DIGITS: seq<byte> := Ascii("EE") + Ascii("65") + Ascii("EE") + Ascii("33") + Ascii("FF") + Ascii("81")
  const DEFAULT_MAC: seq<byte> := MAC_TAG + DEFAULT_MAC_DIGITS + Ascii("     \n")
  const DEFAULT_OWN_IP: seq<byte> :=
    IP_TAG + Ascii("192") + Ascii("168") + Ascii("000") + Ascii("223") + Ascii("00000") + Ascii("\n")
  const DEFAULT_NET_MASK: seq<byte> :=
    NM_TAG + Ascii("255") + Ascii("255") + Ascii("255") + Ascii("000") + Ascii("00000") + Ascii("\n")
  const DEFAULT_GW: seq<byte> :=
    GW_TAG + Ascii("192") + Ascii("168") + Ascii("000") + Ascii("001") + Ascii("00000") + Ascii("\n")

  /** IP_Cfg_File_Default: the sections in the order of struct ip_cfg, and the zero byte */
  const DEFAULT_CFG: seq<byte> := DEFAULT_MAC + DEFAULT_OWN_IP + DEFAULT_NET_MASK + DEFAULT_GW + [0]

  /** the interface settings Init_NIC writes: mac_addr, ip_addr, ip_gateway, ip_mask */
  datatype NicSettings = NicSettings(mac: seq<byte>, ip: u32, gateway: u32, mask: u32)

  /** what isHex accepts: a non-empty run of hex digits */
  predicate AllHex(s: seq<byte>)
  {
    |s| > 0 && forall i :: 0 <= i < |s| ==> IsHexChar(s[i])
  }

  /** mac_addr[k] = ahex2byte of characters 2k and 2k+1 of the twelve */
  function MacOf(v: seq<byte>): (mac: seq<byte>)
    requires |v| == MAC_LEN
    ensures |mac| == 6
  {
    seq(6, k requires 0 <= k < 6 => Ahex2Byte(v[2 * k..2 * k + 2], 2))
  }

  /** an IP section at offset at that Init_NIC accepts: the tag given and twelve digits */
  predicate IpSectionOk(rec: seq<byte>, at: nat, tag: seq<byte>)
    requires |rec| == CFG_SIZE && at + IP_SIZE <= CFG_SIZE
  {
    rec[at..at + 4] == tag && AllDec(rec[at + 4..at + 4 + IP_LEN])
  }

  function SectionIp(rec: seq<byte>, at: nat): u32
    requires |rec| == CFG_SIZE && at + IP_SIZE <= CFG_SIZE
  {
    IpOfDigits(rec[at + 4..at + 4 + IP_LEN])
  }

  /**
   * What Init_NIC does with a record read whole (startup.c:291-366): the sections in the order
   * MAC, IP, GW, NM, each checked against the default record's tag and then applied, so a
   * failure leaves the sections before it applied. The result is whether all four passed and
   * the settings then.
   */
  function ApplyCfg(rec: seq<byte>, s: NicSettings): (r: (bool, NicSettings))
    requires |rec| == CFG_SIZE
  {
    if rec[..4] != MAC_TAG || !AllHex(rec[4..4 + MAC_LEN]) then (false, s)
    else
      var s1 := s.(mac := MacOf(rec[4..4 + MAC_LEN]));
      if !IpSectionOk(rec, OWN_IP_AT, IP_TAG) then (false, s1)
      else
        var s2 := s1.(ip := SectionIp(rec, OWN_IP_AT));
        if !IpSectionOk(rec, GW_AT, GW_TAG) then (false, s2)
        else
          var s3 := s2.(gateway := SectionIp(rec, GW_AT));
          if !IpSectionOk(rec, NET_MASK_AT, NM_TAG) then (false, s3)
          else (true, s3.(mask := SectionIp(rec, NET_MASK_AT)))
  }

  /** Init_NIC only writes what it has checked: a successful parse replaces every setting. */
  lemma ApplyCfgReplacesAll(rec: seq<byte>, s: NicSettings, s': NicSettings)
    requires |rec| == CFG_SIZE
    requires ApplyCfg(rec, s).0
    ensures ApplyCfg(rec, s').0 && ApplyCfg(rec, s).1 == ApplyCfg(rec, s').1
    ensures |ApplyCfg(rec, s).1.mac| == 6
  {
  }

  /** A failure keeps the netmask, which is applied last, and keeps everything when the MAC fails. */
  lemma ApplyCfgFailureKeeps(rec: seq<byte>, s: NicSettings)
    requires |rec| == CFG_SIZE && !ApplyCfg(rec, s).0
    ensures ApplyCfg(rec, s).1.mask == s.mask
    ensures !AllHex(rec[4..4 + MAC_LEN]) ==> ApplyCfg(rec, s).1 == s
  {
  }

  /** The default record is its four sections at the offsets of struct ip_cfg. */
  lemma DefaultSections()
    ensures |DEFAULT_MAC| == MAC_SIZE && |DEFAULT_OWN_IP| == |DEFAULT_NET_MASK| == |DEFAULT_GW| == IP_SIZE
    ensures |DEFAULT_CFG| == CFG_SIZE
    ensures DEFAULT_CFG[..MAC_SIZE] == DEFAULT_MAC
    ensures DEFAULT_CFG[OWN_IP_AT..OWN_IP_AT + IP_SIZE] == DEFAULT_OWN_IP
    ensures DEFAULT_CFG[NET_MASK_AT..NET_MASK_AT + IP_SIZE] == DEFAULT_NET_MASK
    ensures DEFAULT_CFG[GW_AT..GW_AT + IP_SIZE] == DEFAULT_GW
  {
  }

  /** A record whose section at at is sec has sec's tag and digits there. */
  lemma SectionFields(rec: seq<byte>, at: nat, sec: seq<byte>)
    requires |rec| == CFG_SIZE && at + IP_SIZE <= CFG_SIZE && rec[at..at + IP_SIZE] == sec
    ensures rec[at..at + 4] == sec[..4] && rec[at + 4..at + 4 + IP_LEN] == sec[4..4 + IP_LEN]
  {
    SubSlice(rec, at, at + IP_SIZE, 0, 4);
    SubSlice(rec, at, at + IP_SIZE, 4, 4 + IP_LEN);
  }

  lemma SubSlice(s: seq<byte>, a: nat, b: nat, i: nat, j: nat)
    requires a <= b <= |s| && i <= j <= b - a
    ensures s[a..b][i..j] == s[a + i..a + j]
  {
    assert forall k :: 0 <= k < j - i ==> s[a..b][i..j][k] == s[a + i..a + j][k];
  }

  /** A section whose digits are four 3-digit groups reads as their address. */
  lemma SectionOfTriples(rec: seq<byte>, at: nat, a: nat, b: nat, c: nat, d: nat)
    requires |rec| == CFG_SIZE && at + IP_SIZE <= CFG_SIZE
    requires a < 256 && b < 256 && c < 256 && d < 256
    requires rec[at + 4..at + 4 + IP_LEN] == DecTriple(a) + DecTriple(b) + DecTriple(c) + DecTriple(d)
    ensures AllDec(rec[at + 4..at + 4 + IP_LEN]) && SectionIp(rec, at) == MakeIp(a, b, c, d)
  {
    IpOfTriples(a, b, c, d);
    ByteMod(a);
    ByteMod(b);
    ByteMod(c);
    ByteMod(d);
  }

  lemma ByteMod(x: nat)
    requires x < 0x100
    ensures x % 0x100 == x
  {
  }

  /** the default sections' tags and digits */
  lemma DefaultIpFields()
    ensures |DEFAULT_OWN_IP| == |DEFAULT_NET_MASK| == |DEFAULT_GW| == IP_SIZE
    ensures DEFAULT_OWN_IP[..4] == IP_TAG
            && DEFAULT_OWN_IP[4..16] == DecTriple(192) + DecTriple(168) + DecTriple(0) + DecTriple(223)
    ensures DEFAULT_GW[..4] == GW_TAG
            && DEFAULT_GW[4..16] == DecTriple(192) + DecTriple(168) + DecTriple(0) + DecTriple(1)
    ensures DEFAULT_NET_MASK[..4] == NM_TAG
            && DEFAULT_NET_MASK[4..16] == DecTriple(255) + DecTriple(255) + DecTriple(255) + DecTriple(0)
  {
    assert DecTriple(192) == Ascii("192") && DecTriple(168) == Ascii("168") && DecTriple(0) == Ascii("000");
    assert DecTriple(223) == Ascii("223") && DecTriple(1) == Ascii("001") && DecTriple(255) == Ascii("255");
  }

  lemma DefaultMac()
    ensures |DEFAULT_MAC| == MAC_SIZE && DEFAULT_MAC[..4] == MAC_TAG && AllHex(DEFAULT_MAC[4..16])
    ensures MacOf(DEFAULT_MAC[4..16]) == [0xEE, 0x65, 0xEE, 0x33, 0xFF, 0x81]
  {
    assert DEFAULT_MAC[4..16] == DEFAULT_MAC_DIGITS;
    MacOfPairs(Ascii("EE"), Ascii("65"), Ascii("EE"), Ascii("33"), Ascii("FF"), Ascii("81"));
  }

  /** Six pairs of hex characters give the six bytes they spell. */
  lemma MacOfPairs(p0: seq<byte>, p1: seq<byte>, p2: seq<byte>, p3: seq<byte>, p4: seq<byte>, p5: seq<byte>)
    requires |p0| == |p1| == |p2| == |p3| == |p4| == |p5| == 2
    ensures MacOf(p0 + p1 + p2 + p3 + p4 + p5)
            == [Ahex2Byte(p0, 2), Ahex2Byte(p1, 2), Ahex2Byte(p2, 2), Ahex2Byte(p3, 2), Ahex2Byte(p4, 2), Ahex2Byte(p5, 2)]
  {
    var v := p0 + p1 + p2 + p3 + p4 + p5;
    assert v[0..2] == p0 && v[2..4] == p1 && v[4..6] == p2;
    assert v[6..8] == p3 && v[8..10] == p4 && v[10..12] == p5;
  }

  /**
   * Any record holding the default MAC and own-IP sections passes them and installs MAC
   * EE:65:EE:33:FF:81 and address 192.168.0.223.
   */
  lemma DefaultFront(rec: seq<byte>)
    requires |rec| == CFG_SIZE && rec[..MAC_SIZE] == DEFAULT_MAC
    requires rec[OWN_IP_AT..OWN_IP_AT + IP_SIZE] == DEFAULT_OWN_IP
    ensures rec[..4] == MAC_TAG && AllHex(rec[4..4 + MAC_LEN])
    ensures MacOf(rec[4..4 + MAC_LEN]) == [0xEE, 0x65, 0xEE, 0x33, 0xFF, 0x81]
    ensures IpSectionOk(rec, OWN_IP_AT, IP_TAG) && SectionIp(rec, OWN_IP_AT) == MakeIp(192, 168, 0, 223)
  {
    DefaultMac();
    DefaultIpFields();
    assert rec[..4] == DEFAULT_MAC[..4] && rec[4..4 + MAC_LEN] == DEFAULT_MAC[4..16];
    SectionFields(rec, OWN_IP_AT, DEFAULT_OWN_IP);
    SectionOfTriples(rec, OWN_IP_AT, 192, 168, 0, 223);
  }

  /**
   * The default record passes Init_NIC's checks and gives MAC EE:65:EE:33:FF:81, address
   * 192.168.0.223, gateway 192.168.0.1 and netmask 255.255.255.0, whatever was set before.
   */
  lemma DefaultCfgParses(s: NicSettings)
    ensures |DEFAULT_CFG| == CFG_SIZE
    ensures ApplyCfg(DEFAULT_CFG, s)
            == (true, NicSettings([0xEE, 0x65, 0xEE, 0x33, 0xFF, 0x81], MakeIp(192, 168, 0, 223),
                                  MakeIp(192, 168, 0, 1), MakeIp(255, 255, 255, 0)))
  {
    DefaultSections();
    DefaultIpFields();
    DefaultFront(DEFAULT_CFG);
    SectionFields(DEFAULT_CFG, GW_AT, DEFAULT_GW);
    SectionOfTriples(DEFAULT_CFG, GW_AT, 192, 168, 0, 1);
    SectionFields(DEFAULT_CFG, NET_MASK_AT, DEFAULT_NET_MASK);
    SectionOfTriples(DEFAULT_CFG, NET_MASK_AT, 255, 255, 255, 0);
  }

  /**
   * A later failure leaves the earlier sections applied: the default record with a broken GW
   * tag still installs the default MAC and address, while gateway and mask keep their values.
   */
  lemma BrokenGatewayKeepsEarlierSections(s: NicSettings)
    ensures var rec := DEFAULT_MAC + DEFAULT_OWN_IP + DEFAULT_NET_MASK + Ascii("GZ__") + DEFAULT_GW[4..] + [0];
            |rec| == CFG_SIZE
            && ApplyCfg(rec, s)
               == (false, s.(mac := [0xEE, 0x65, 0xEE, 0x33, 0xFF, 0x81], ip := MakeIp(192, 168, 0, 223)))
  {
    DefaultSections();
    var rec := DEFAULT_MAC + DEFAULT_OWN_IP + DEFAULT_NET_MASK + Ascii("GZ__") + DEFAULT_GW[4..] + [0];
    assert |rec| == CFG_SIZE;
    assert rec[..MAC_SIZE] == DEFAULT_MAC;
    assert rec[OWN_IP_AT..OWN_IP_AT + IP_SIZE] == DEFAULT_OWN_IP;
    DefaultFront(rec);
    assert rec[GW_AT..GW_AT + 4][1] == 'Z' as byte != GW_TAG[1];
  }

  /** the interface globals of lan.c that Init_NIC sets */
  class Nic {
    /** mac_addr[6] */
    var mac: array<byte>
    /** ip_addr, ip_gateway, ip_mask */
    var ip: u32
    var gateway: u32
    var mask: u32

    ghost predicate Valid()
      reads this
    {
      mac.Length == 6
    }

    function Settings(): (s: NicSettings)
      reads this, mac
    {
      NicSettings(mac[..], ip, gateway, mask)
    }

    constructor()
      ensures Valid() && fresh(mac) && Settings() == NicSettings([0, 0, 0, 0, 0, 0], 0, 0, 0)
    {
      mac := new byte[6](_ => 0);
      ip, gateway, mask := 0, 0, 0;
    }
  }

  /** The MAC loop of Init_NIC (startup.c:298-305): two hex characters per byte of mac_addr. */
  method SetMac(nic: Nic, v: seq<byte>)
    requires nic.Valid() && |v| == MAC_LEN
    modifies nic.mac
    ensures nic.mac[..] == MacOf(v)
  {
    var cnt := 0;
    var i := 0;
    while i < MAC_LEN
      invariant i == 2 * cnt && cnt <= 6
      invariant forall k :: 0 <= k < cnt ==> nic.mac[k] == Ahex2Byte(v[2 * k..2 * k + 2], 2)
    {
      nic.mac[cnt] := Ahex2Byte(v[i..i + 2], 2);
      cnt := cnt + 1;
      i := i + 2;
    }
  }

  /** one IP section (startup.c:307-363): its tag and digits checked, then the packed address */
  method ReadSection(rec: seq<byte>, at: nat, tag: seq<byte>) returns (ok: bool, ip: u32)
    requires |rec| == CFG_SIZE && at + IP_SIZE <= CFG_SIZE
    ensures ok == IpSectionOk(rec, at, tag) && (ok ==> ip == SectionIp(rec, at))
  {
    ip := 0;
    ok := rec[at..at + 4] == tag;
    if !ok {
      return;
    }
    ok := IsDec(rec[at + 4..at + 4 + IP_LEN], IP_LEN);
    if !ok {
      return;
    }
    var v := rec[at + 4..at + 4 + IP_LEN];
    ip := MakeIp(Adec2Byte(v[0..3], 3), Adec2Byte(v[3..6], 3), Adec2Byte(v[6..9], 3), Adec2Byte(v[9..12], 3));
  }

  /** The checks and updates of Init_NIC on a whole record, in the code's order. */
  method ApplyRecord(nic: Nic, rec: seq<byte>) returns (ok: bool)
    requires nic.Valid() && |rec| == CFG_SIZE
    modifies nic, nic.mac
    ensures nic.Valid() && nic.mac == old(nic.mac)
    ensures (ok, nic.Settings()) == ApplyCfg(rec, old(nic.Settings()))
  {
    ok := rec[..4] == MAC_TAG;
    if !ok {
      return;
    }
    ok := IsHex(rec[4..4 + MAC_LEN], MAC_LEN);
    if !ok {
      return;
    }
    SetMac(nic, rec[4..4 + MAC_LEN]);
    var ip;
    ok, ip := ReadSection(rec, OWN_IP_AT, IP_TAG);
    if !ok {
      return;
    }
    nic.ip := ip;
    ok, ip := ReadSection(rec, GW_AT, GW_TAG);
    if !ok {
      return;
    }
    nic.gateway := ip;
    ok, ip := ReadSection(rec, NET_MASK_AT, NM_TAG);
    if !ok {
      return;
    }
    nic.mask := ip;
  }

  /**
   * What the read of Init_NIC leaves, from media m and DTA d, reading file name: when ReadBytes
   * succeeds, the file opened for reading (created empty when absent), data the bytes read from
   * its start, as many as ReadCount allows, and the file closed again.
   */
  ghost predicate ReadRecord(crc32: (seq<byte>, u32) -> u32, m: seq<byte>, d: seq<bv8>, name: seq<byte>,
                             read: FResult, data: seq<byte>, mOpen: seq<byte>, e: DirEntry, m': seq<byte>)
    requires IsMedia(m) && |d| == FS_DTA_SIZE && IsMedia(mOpen) && WellSized(e)
  {
    read == FR_OK ==>
      Opened(crc32, m, LoadedDta(m, d)[..TABLE_SIZE], mOpen, e, CutName(name), 0, FModeRead)
      && |data| == ReadCount(CFG_SIZE as u32, e.size, 0)
      && (|data| > 0 ==> AddrOf(e, 0) + |data| <= |mOpen| && data == mOpen[AddrOf(e, 0)..AddrOf(e, 0) + |data|])
      && m' == StoreEntry(crc32, mOpen, FirstNamed(mOpen, e.name, 0), e.(status := FStateClosed))
  }

  /** ReadBytes's promise for this read, restated over the bytes read. */
  lemma ReadRecordOfBytes(fs: TinyFs, buf: array<byte>, m: seq<byte>, d: seq<bv8>, name: seq<byte>, br: u32,
                          data: seq<byte>, mOpen: seq<byte>, e: DirEntry)
    requires IsMedia(m) && |d| == FS_DTA_SIZE && IsMedia(mOpen) && WellSized(e)
    requires Opened(fs.crc32, m, LoadedDta(m, d)[..TABLE_SIZE], mOpen, e, CutName(name), 0, FModeRead)
    requires ReadAndClosed(fs, buf, mOpen, e, 0, CFG_SIZE as u32, br) && data == buf[..br]
    ensures ReadRecord(fs.crc32, m, d, name, FR_OK, data, mOpen, e, fs.media[..])
  {
    ReadBytesFacts(fs, buf, br, data, mOpen, e);
  }

  /** ReadBytes's promise for this read, unfolded: the bytes read and the closing store. */
  lemma ReadBytesFacts(fs: TinyFs, buf: array<byte>, br: u32, data: seq<byte>, mOpen: seq<byte>, e: DirEntry)
    requires ReadAndClosed(fs, buf, mOpen, e, 0, CFG_SIZE as u32, br) && data == buf[..br]
    ensures |data| == ReadCount(CFG_SIZE as u32, e.size, 0)
    ensures |data| > 0 ==> AddrOf(e, 0) + |data| <= |mOpen| && data == mOpen[AddrOf(e, 0)..AddrOf(e, 0) + |data|]
    ensures IsMedia(mOpen) && WellSized(e)
    ensures fs.media[..] == StoreEntry(fs.crc32, mOpen, FirstNamed(mOpen, e.name, 0), e.(status := FStateClosed))
  {
  }

  /**
   * The read of Init_NIC (startup.c:285-289): ReadBytes of sizeof(struct ip_cfg) bytes of the
   * file from position 0 into a fresh buffer; data is what it read, empty on an error.
   */
  method ReadCfgFile(fs: TinyFs, name: seq<byte>)
    returns (read: FResult, data: seq<byte>, ghost mOpen: seq<byte>, ghost e: DirEntry)
    requires fs.Valid() && EntryOf(fs.media[..], 0).size <= FS_DTA_SIZE
    modifies fs, fs.media, fs.dta
    ensures fs.Valid() && IsMedia(mOpen) && WellSized(e)
    ensures read == FR_TOO_MANY_OPEN_FILES <==> 0 !in old(fs.mutexes)
    ensures read != FR_OK ==> data == []
    ensures ReadRecord(fs.crc32, old(fs.media[..]), old(fs.dta[..]), name, read, data, mOpen, e, fs.media[..])
  {
    ghost var m0, d0 := fs.media[..], fs.dta[..];
    var buf := new byte[CFG_SIZE];
    var br;
    read, br, mOpen, e := ReadBytes(fs, true, Some(name), 0, CFG_SIZE as u32, true, buf, false, 0);
    data := [];
    if read == FR_OK {
      data := buf[..br];
      ReadRecordOfBytes(fs, buf, m0, d0, name, br, data, mOpen, e);
    }
  }

  /**
   * Init_NIC (startup.c:278-367): the record of "IP_CFG" read by ReadCfgFile; unless the read
   * succeeds with all of it, nothing is set and the result is ERROR (false); otherwise
   * ApplyRecord. read is ReadBytes's result and data what it read.
   */
  method InitNic(fs: TinyFs, nic: Nic) returns (ok: bool, read: FResult, data: seq<byte>,
                                                ghost mOpen: seq<byte>, ghost e: DirEntry)
    requires fs.Valid() && EntryOf(fs.media[..], 0).size <= FS_DTA_SIZE && nic.Valid()
    requires nic.mac != fs.media
    modifies fs, fs.media, fs.dta, nic, nic.mac
    ensures fs.Valid() && nic.Valid() && nic.mac == old(nic.mac) && IsMedia(mOpen) && WellSized(e)
    ensures read == FR_TOO_MANY_OPEN_FILES <==> 0 !in old(fs.mutexes)
    ensures read != FR_OK || |data| != CFG_SIZE ==> !ok && nic.Settings() == old(nic.Settings())
    ensures read == FR_OK && |data| == CFG_SIZE ==> (ok, nic.Settings()) == ApplyCfg(data, old(nic.Settings()))
    ensures ReadRecord(fs.crc32, old(fs.media[..]), old(fs.dta[..]), IP_CFG_NAME, read, data, mOpen, e, fs.media[..])
  {
    read, data, mOpen, e := ReadCfgFile(fs, IP_CFG_NAME);
    ok := false;
    if read != FR_OK || |data| != CFG_SIZE {
      return;
    }
    ok := ApplyRecord(nic, data);
  }

  /**
   * SaveIPCfg (startup.c:253-271): "IP_CFG" deleted, and when that succeeds or finds no file,
   * the default record written to it by WriteCfgFile. deleted is DeleteFile's result, mDel and
   * dDel the media and DTA after the delete.
   */
  method SaveIPCfg(fs: TinyFs, stale: u32)
    returns (res: FResult, deleted: FResult, written: FResult,
             ghost mDel: seq<byte>, ghost dDel: seq<bv8>, ghost mOpen: seq<byte>, ghost e: DirEntry)
    requires fs.Valid() && EntryOf(fs.media[..], 0).size <= FS_DTA_SIZE
    modifies fs, fs.media, fs.dta
    ensures fs.Valid() && deleted != FR_INVALID_PARAMETER
    ensures deleted != FR_OK && deleted != FR_NO_FILE ==> res == deleted
    ensures deleted == FR_NO_FILE ==> mDel == old(fs.media[..])
    ensures deleted == FR_OK ==>
              var idx := FirstNamed(old(fs.media[..]), CutName(IP_CFG_NAME), 0);
              0 < idx < DIR_ENTRIES - 1 && DeletedImage(fs.crc32, old(fs.media[..]), idx) == Some(mDel)
    ensures deleted == FR_OK || deleted == FR_NO_FILE ==>
              IsMedia(mDel) && |dDel| == FS_DTA_SIZE && EntryOf(mDel, 0).size <= FS_DTA_SIZE
              && (written == FR_TOO_MANY_OPEN_FILES <==> 0 !in old(fs.mutexes))
              && SavedRecord(fs.crc32, mDel, dDel, IP_CFG_NAME, DEFAULT_CFG, res, written, mOpen, e, fs.media[..])
  {
    ghost var m0 := fs.media[..];
    deleted := fs.DeleteFile(true, Some(IP_CFG_NAME));
    mDel, dDel, mOpen, e, written := fs.media[..], fs.dta[..], fs.media[..], ZERO_ENTRY, FR_INVALID_PARAMETER;
    res := deleted;
    if deleted != FR_OK && deleted != FR_NO_FILE {
      return;
    }
    if deleted == FR_OK {
      DeletedKeepsOthers(fs.crc32, m0, FirstNamed(m0, CutName(IP_CFG_NAME), 0), 0);
    }
    DefaultSections();
    res, written, mOpen, e := WriteCfgFile(fs, stale, IP_CFG_NAME, DEFAULT_CFG);
  }

  /**
   * What the write of SaveIPCfg leaves, from media m and DTA d, writing record rec to file name:
   * FR_OK exactly when WriteBytes succeeded with all CFG_SIZE bytes, else FR_INVALID_PARAMETER
   * or WriteBytes's error; after a successful WriteBytes, the file opened for writing (created
   * with CFG_SIZE bytes when absent) and rec written at its start and closed.
   */
  ghost predicate SavedRecord(crc32: (seq<byte>, u32) -> u32, m: seq<byte>, d: seq<bv8>, name: seq<byte>,
                              rec: seq<byte>, res: FResult, written: FResult, mOpen: seq<byte>, e: DirEntry,
                              m': seq<byte>)
    requires IsMedia(m) && |d| == FS_DTA_SIZE && |rec| == CFG_SIZE
  {
    (res == FR_OK <==> written == FR_OK && WriteCount(CFG_SIZE as u32, e.size, 0) == CFG_SIZE as u32)
    && (res != FR_OK ==> res == FR_INVALID_PARAMETER || res == written)
    && (written == FR_OK ==>
          Opened(crc32, m, LoadedDta(m, d)[..TABLE_SIZE], mOpen, e, CutName(name), CFG_SIZE as u16, FModeWrite)
          && IsMedia(mOpen) && WellSized(e)
          && var n := WriteCount(CFG_SIZE as u32, e.size, 0);
             0 < n <= |rec| && AddrOf(e, 0) + n <= |mOpen|
             && m' == WrittenAndClosed(crc32, mOpen, e, 0, n, rec))
  }

  /**
   * The write of SaveIPCfg (startup.c:261-267): WriteBytes of the record at position 0 of the
   * file, and FR_INVALID_PARAMETER unless all of it was written. bw is not initialised in the
   * code and WriteBytes sets it only when the write itself succeeds, so stale stands for the
   * value it holds before.
   */
  method WriteCfgFile(fs: TinyFs, stale: u32, name: seq<byte>, rec: seq<byte>)
    returns (res: FResult, written: FResult, ghost mOpen: seq<byte>, ghost e: DirEntry)
    requires fs.Valid() && EntryOf(fs.media[..], 0).size <= FS_DTA_SIZE && |rec| == CFG_SIZE
    modifies fs, fs.media, fs.dta
    ensures fs.Valid()
    ensures written == FR_TOO_MANY_OPEN_FILES <==> 0 !in old(fs.mutexes)
    ensures SavedRecord(fs.crc32, old(fs.media[..]), old(fs.dta[..]), name, rec, res, written, mOpen, e, fs.media[..])
  {
    ghost var m0, d0 := fs.media[..], fs.dta[..];
    var bw;
    var size: u32 := CFG_SIZE as u32;
    assert size % 0x1_0000 == CFG_SIZE as u16;
    written, bw, mOpen, e := WriteBytes(fs, true, Some(name), 0, size, true, Some(rec), false, 0);
    assert written == FR_OK ==>
             Opened(fs.crc32, m0, LoadedDta(m0, d0)[..TABLE_SIZE], mOpen, e, CutName(name), CFG_SIZE as u16, FModeWrite);
    if bw == 0 {
      bw := stale;
    }
    res := written;
    if bw != CFG_SIZE as u32 {
      res := FR_INVALID_PARAMETER;
    }
  }
}
