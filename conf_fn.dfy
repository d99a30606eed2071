// The saved settings of Core/Src/helpers/conf_fn.c: the settings block at the start of the
// FRAM, sealed by a CRC32 word, the boot-action decision made from the saved reboot cause and
// the reset flags, the CRC pass over an FRAM region (Proc_NVMEM_CRC32), and the getters and
// setters of single settings. The FRAM is the byte array of module Nvmem; the outcome of each SPI
// transfer is an input, and a failed one, like an access outside the chip, ends in the FRAM error
// handler, which never returns: the methods then report that they halted. The getters state the
// value they return, so a read that halts is outside them. The CRC unit is left abstract:
// start is HAL_CRC_Calculate on one word (the unit reset first), step is HAL_CRC_Accumulate on
// one word from the unit's previous result.

module ConfFn {
  import opened Common
  import opened Nvmem
  import IpHelpers
  import StrCopy

  /**
   * reb_cause_t (conf_fn.h:60-68), a one-byte enum under the short-enum default of the ARM
   * bare-metal ABI, as the directory entry status of tiny-fs is
   */
  const RB_NONE: byte := 0
  const RB_CMD: byte := 1
  const RB_CFG_CHNG: byte := 2
  const RB_CFG_ERR: byte := 3
  const RB_PWR_LOSS: byte := 4

  /** boot_action_t (conf_fn.h:70-75) */
  datatype BootAction = B_ACT_COLD | B_ACT_CFG | B_ACT_CFG_DAQ

  /** FRAM_state_t (conf_fn.h:77-82) */
  datatype FramState = FRAM_pad | FRAM_OK | FRAM_BAD

  /** crc32_action_t (conf_fn.h:117-123) */
  datatype CrcAction = CRC_ACT_NONE | CRC_ACT_CALC | CRC_ACT_CALC_AND_STORE | CRC_ACT_CHECK

  /** COLD_BOOT and WARM_BOOT of globaldef.h: the value of Boot_Mode */
  datatype BootMode = COLD_BOOT | WARM_BOOT

  /** The reset-cause flags of RCC_CSR that Get_Reboot_Action tests (RCC_CSR_copy). */
  datatype ResetFlags = ResetFlags(lpwr: bool, sft: bool, iwdg: bool, wwdg: bool, pin: bool, por: bool)

  /** the value FRAM_Write_Error_Handler leaves in backup register MAGIC_REG */
  const BAD_FRAM_MAGIC: u32 := 0xDEAD

  const ROOT_TOPIC_LEN: nat := 40
  const CLIENT_ID_STRING: nat := 10
  const NUM_IP_PARAMS: nat := 8

  // The layout of settings_t (conf_fn.h:85-97) with a one-byte enum and natural alignment, as
  // offsetof gives it on the 32-bit target; the CRC word savedsettingsCRCR32 follows at once.
  const CAUSE_OFFSET: nat := 0
  const MAC_OFFSET: nat := 1
  const IP_ARR_OFFSET: nat := 8
  const IP_PAIR_SIZE: nat := 8
  const ROOT_TOPIC_OFFSET: nat := 72
  const GI_PERIOD_OFFSET: nat := 116
  const PUB_ID_OFFSET: nat := 120
  const SUB_TIMEOUT_OFFSET: nat := 132
  const SUB_ID_OFFSET: nat := 136
  const SETTINGS_SIZE: nat := 148
  const SETTINGS_CRC_OFFSET: nat := 148

  // ---------------------------------------------------------------------------------------------
  // Words in FRAM

  /** the uint32_t stored little-endian at a of mem */
  function Word(mem: seq<byte>, a: nat): u32
    requires a + 4 <= |mem|
  {
    IpHelpers.MakeIp(mem[a], mem[a + 1], mem[a + 2], mem[a + 3])
  }

  /** the uint16_t stored little-endian at a of mem */
  function Half(mem: seq<byte>, a: nat): u16
    requires a + 2 <= |mem|
  {
    StrCopy.LeValue(mem[a], mem[a + 1])
  }

  /** the four bytes of a uint32_t in memory, low byte first */
  function WordBytes(v: u32): (r: seq<byte>)
    ensures |r| == 4
  {
    [IpHelpers.Octet(v, 0), IpHelpers.Octet(v, 1), IpHelpers.Octet(v, 2), IpHelpers.Octet(v, 3)]
  }

  /** A stored word reads back as the value stored. */
  lemma WordOfBytes(v: u32)
    ensures Word(WordBytes(v), 0) == v
  {
    IpHelpers.OctetsMakeIp(v);
  }

  /** Reading a word and storing it again gives back the same four bytes. */
  lemma BytesOfWord(mem: seq<byte>, a: nat)
    requires a + 4 <= |mem|
    ensures WordBytes(Word(mem, a)) == mem[a..a + 4]
  {
    IpHelpers.MakeIpOctets(mem[a], mem[a + 1], mem[a + 2], mem[a + 3]);
  }

  /** mem with bytes written at a: what Write_FRAM leaves */
  function Put(mem: seq<byte>, a: nat, bytes: seq<byte>): (r: seq<byte>)
    requires a + |bytes| <= |mem|
    ensures |r| == |mem|
  {
    mem[..a] + bytes + mem[a + |bytes|..]
  }

  /** The bytes just written are read back, and every byte outside them is as before. */
  lemma PutReads(mem: seq<byte>, a: nat, bytes: seq<byte>)
    requires a + |bytes| <= |mem|
    ensures Put(mem, a, bytes)[a..a + |bytes|] == bytes
    ensures forall i :: 0 <= i < |mem| && !(a <= i < a + |bytes|) ==> Put(mem, a, bytes)[i] == mem[i]
  {
    var r := Put(mem, a, bytes);
    assert r[a..a + |bytes|] == bytes by {
      forall k | 0 <= k < |bytes|
        ensures r[a + k] == bytes[k]
      {
      }
    }
  }

  /** A word written at a reads back as that word. */
  lemma WordOfPut(mem: seq<byte>, a: nat, v: u32)
    requires a + 4 <= |mem|
    ensures Word(Put(mem, a, WordBytes(v)), a) == v
  {
    var r := Put(mem, a, WordBytes(v));
    PutReads(mem, a, WordBytes(v));
    assert r[a..a + 4] == WordBytes(v);
    assert r[a] == WordBytes(v)[0] && r[a + 1] == WordBytes(v)[1];
    assert r[a + 2] == WordBytes(v)[2] && r[a + 3] == WordBytes(v)[3];
    WordOfBytes(v);
  }

  /** A word that does not overlap a write reads as before. */
  lemma WordBesidePut(mem: seq<byte>, a: nat, bytes: seq<byte>, b: nat)
    requires a + |bytes| <= |mem| && b + 4 <= |mem|
    requires b + 4 <= a || a + |bytes| <= b
    ensures Word(Put(mem, a, bytes), b) == Word(mem, b)
  {
    PutReads(mem, a, bytes);
  }

  // ---------------------------------------------------------------------------------------------
  // Proc_NVMEM_CRC32

  /**
   * The CRC the unit holds after the first n words from addr have been fed to it the way
   * Proc_NVMEM_CRC32 does: the first with start, the others with step; 0 when there are none.
   */
  function RegionCrc(mem: seq<byte>, start: u32 -> u32, step: (u32, u32) -> u32, addr: nat, n: nat): u32
    requires n == 0 || addr + 4 * n <= |mem|
  {
    if n == 0 then 0
    else if n == 1 then start(Word(mem, addr))
    else step(RegionCrc(mem, start, step, addr, n - 1), Word(mem, addr + 4 * (n - 1)))
  }

  /** What a call of Proc_NVMEM_CRC32 ends in. */
  datatype CrcOutcome =
    | Refused
      // ERROR at once: the action or the length is rejected, *crcval is not written
    | Halted
      // an FRAM access fell outside the chip or one of its SPI transfers failed: the error
      // handler marks the backup register with BAD_FRAM_MAGIC and never returns
    | Done(status: Status, crcval: u32)
      // the CRC was computed and written to *crcval; status is what the function returns

  /**
   * The outcome of the SPI transfers of one Proc_NVMEM_CRC32: wordOk(k) says whether the
   * Read_FRAM of word k of the region goes through, store is the outcome of the Write_FRAM of
   * CRC_ACT_CALC_AND_STORE, and checkOk says whether the Read_FRAM of the stored word for
   * CRC_ACT_CHECK goes through.
   */
  datatype CrcIo = CrcIo(wordOk: nat -> bool, store: SpiWrite, checkOk: bool)

  /** The first n words of the region are read without an SPI failure. */
  predicate WordsRead(io: CrcIo, n: nat)
  {
    forall k :: 0 <= k < n ==> io.wordOk(k)
  }

  /** Every transfer of a Write_FRAM goes through, so it returns SUCCESS inside the chip. */
  predicate WriteGoesThrough(io: SpiWrite)
  {
    io.commandsOk && io.dataOk && io.wrdiOk
  }

  /** The argument check of Proc_NVMEM_CRC32: one of the three actions, a whole number of words. */
  predicate CrcArgsOk(action: CrcAction, frlen: nat)
  {
    action != CRC_ACT_NONE && frlen % 4 == 0
  }

  /** Proc_NVMEM_CRC32 (conf_fn.c:529-600) on FRAM contents mem, with SPI outcome io */
  function CrcRun(mem: seq<byte>, start: u32 -> u32, step: (u32, u32) -> u32, io: CrcIo, action: CrcAction,
                  framAddr: nat, frlen: nat, crc32addr: nat): (r: CrcOutcome)
    requires |mem| == NVMEM_SIZE
    ensures r == Refused <==> !CrcArgsOk(action, frlen)
    ensures r.Done? ==> WordsRead(io, frlen / 4)
  {
    if !CrcArgsOk(action, frlen) then Refused
    else if frlen != 0 && !InChip(framAddr, frlen) then Halted
    else if !WordsRead(io, frlen / 4) then Halted
    else
      assert 4 * (frlen / 4) == frlen;
      var crc := RegionCrc(mem, start, step, framAddr, frlen / 4);
      if action == CRC_ACT_CALC then Done(SUCCESS, crc)
      else if !InChip(crc32addr, 4) then Halted
      else if action == CRC_ACT_CHECK then
        if io.checkOk then Done(if crc == Word(mem, crc32addr) then SUCCESS else ERROR, crc) else Halted
      else if WriteGoesThrough(io.store) then Done(SUCCESS, crc)
      else Halted
  }

  /**
   * The FRAM contents after a call of Proc_NVMEM_CRC32: a CRC_ACT_CALC_AND_STORE that reaches its
   * Write_FRAM leaves the bytes of the CRC word that landed on the chip, all four unless that
   * write failed; every other call changes nothing.
   */
  function CrcMemory(mem: seq<byte>, start: u32 -> u32, step: (u32, u32) -> u32, io: CrcIo, action: CrcAction,
                     framAddr: nat, frlen: nat, crc32addr: nat): (r: seq<byte>)
    requires |mem| == NVMEM_SIZE
    ensures |r| == NVMEM_SIZE
  {
    if action == CRC_ACT_CALC_AND_STORE && frlen % 4 == 0 && (frlen == 0 || InChip(framAddr, frlen)) &&
       WordsRead(io, frlen / 4) && InChip(crc32addr, 4)
    then
      assert 4 * (frlen / 4) == frlen;
      Put(mem, crc32addr, WordBytes(RegionCrc(mem, start, step, framAddr, frlen / 4))[..Landed(io.store, 4)])
    else mem
  }

  /** One word of the region, read with SPI outcome ioOk: the CRC moves on by one word. */
  method FeedWord(fram: array<byte>, start: u32 -> u32, step: (u32, u32) -> u32, framAddr: nat, i: nat,
                  n: nat, ioOk: bool, crc: u32) returns (ok: bool, crc': u32)
    requires fram.Length == NVMEM_SIZE && i == 4 * n
    requires n == 0 || framAddr + i <= NVMEM_SIZE
    requires crc == RegionCrc(fram[..], start, step, framAddr, n)
    ensures ok <==> framAddr + i + 4 <= NVMEM_SIZE && ioOk
    ensures ok ==> crc' == RegionCrc(fram[..], start, step, framAddr, n + 1)
  {
    var buf := new byte[4];
    ok := ReadFram(fram, buf, 0, framAddr + i, 4, ioOk);
    if !ok {
      return false, crc;
    }
    assert buf[..] == fram[framAddr + i..framAddr + i + 4];
    var w := Word(buf[..], 0);
    assert w == Word(fram[..], framAddr + i);
    if i == 0 {
      crc' := start(w);
    } else {
      crc' := step(crc, w);
    }
  }

  /**
   * Proc_NVMEM_CRC32 (conf_fn.c:529-600) with SPI outcome io: the outcome and the FRAM contents
   * are those of CrcRun and CrcMemory on the contents before the call.
   */
  method ProcNvmemCrc32(fram: array<byte>, start: u32 -> u32, step: (u32, u32) -> u32, io: CrcIo,
                        action: CrcAction, framAddr: nat, frlen: nat, crc32addr: nat) returns (r: CrcOutcome)
    requires fram.Length == NVMEM_SIZE
    modifies fram
    ensures r == CrcRun(old(fram[..]), start, step, io, action, framAddr, frlen, crc32addr)
    ensures fram[..] == CrcMemory(old(fram[..]), start, step, io, action, framAddr, frlen, crc32addr)
  {
    if !CrcArgsOk(action, frlen) {
      return Refused;
    }
    var crc: u32 := 0;
    var i: nat := 0;
    var n: nat := 0;
    while i < frlen
      invariant i == 4 * n && i <= frlen
      invariant n == 0 || framAddr + i <= NVMEM_SIZE
      invariant crc == RegionCrc(fram[..], start, step, framAddr, n)
      invariant WordsRead(io, n)
      invariant fram[..] == old(fram[..])
      decreases frlen - i
    {
      var ok;
      ok, crc := FeedWord(fram, start, step, framAddr, i, n, io.wordOk(n), crc);
      if !ok {
        assert i + 4 <= frlen && n < frlen / 4;
        return Halted;
      }
      i, n := i + 4, n + 1;
    }
    assert i == frlen && n == frlen / 4;
    r := FinishCrc(fram, io, action, crc, crc32addr);
  }

  /** The switch that ends Proc_NVMEM_CRC32 (conf_fn.c:571-596), once the region's CRC is known. */
  method FinishCrc(fram: array<byte>, io: CrcIo, action: CrcAction, crc: u32, crc32addr: nat) returns (r: CrcOutcome)
    requires fram.Length == NVMEM_SIZE && action != CRC_ACT_NONE
    modifies fram
    ensures action == CRC_ACT_CALC ==> r == Done(SUCCESS, crc)
    ensures action != CRC_ACT_CALC && !InChip(crc32addr, 4) ==> r == Halted
    ensures action == CRC_ACT_CALC_AND_STORE && InChip(crc32addr, 4) ==>
              r == if WriteGoesThrough(io.store) then Done(SUCCESS, crc) else Halted
    ensures action == CRC_ACT_CHECK && InChip(crc32addr, 4) ==>
              r == if io.checkOk then Done(if crc == Word(old(fram[..]), crc32addr) then SUCCESS else ERROR, crc)
                   else Halted
    ensures fram[..] == if action == CRC_ACT_CALC_AND_STORE && InChip(crc32addr, 4)
                        then Put(old(fram[..]), crc32addr, WordBytes(crc)[..Landed(io.store, 4)])
                        else old(fram[..])
  {
    if action == CRC_ACT_CALC {
      r := Done(SUCCESS, crc);
    } else if action == CRC_ACT_CALC_AND_STORE {
      var ok := WriteFram(fram, WordBytes(crc), crc32addr, io.store);
      if !ok {
        return Halted;
      }
      r := Done(SUCCESS, crc);
    } else {
      var buf := new byte[4];
      var ok := ReadFram(fram, buf, 0, crc32addr, 4, io.checkOk);
      if !ok {
        return Halted;
      }
      assert buf[..] == fram[crc32addr..crc32addr + 4];
      var stored := Word(buf[..], 0);
      assert stored == Word(fram[..], crc32addr);
      r := Done(if crc == stored then SUCCESS else ERROR, crc);
    }
  }

  /**
   * CRC_ACT_CHECK completes exactly when its SPI transfers go through, and then succeeds exactly
   * when the computed CRC equals the stored word.
   */
  lemma CheckComparesStored(mem: seq<byte>, start: u32 -> u32, step: (u32, u32) -> u32, io: CrcIo,
                            framAddr: nat, frlen: nat, crc32addr: nat)
    requires |mem| == NVMEM_SIZE && frlen % 4 == 0
    requires (frlen == 0 || InChip(framAddr, frlen)) && InChip(crc32addr, 4)
    ensures var r := CrcRun(mem, start, step, io, CRC_ACT_CHECK, framAddr, frlen, crc32addr);
            (r.Done? <==> WordsRead(io, frlen / 4) && io.checkOk) &&
            (r.Done? ==> r.crcval == RegionCrc(mem, start, step, framAddr, frlen / 4) &&
                         (r.status == SUCCESS <==> r.crcval == Word(mem, crc32addr)))
  {
  }

  /** An access outside the chip, with valid arguments, halts in the error handler. */
  lemma OutsideChipHalts(mem: seq<byte>, start: u32 -> u32, step: (u32, u32) -> u32, io: CrcIo, action: CrcAction,
                         framAddr: nat, frlen: nat, crc32addr: nat)
    requires |mem| == NVMEM_SIZE && CrcArgsOk(action, frlen)
    requires (frlen != 0 && framAddr + frlen > NVMEM_SIZE) ||
             (action != CRC_ACT_CALC && crc32addr + 4 > NVMEM_SIZE)
    ensures CrcRun(mem, start, step, io, action, framAddr, frlen, crc32addr) == Halted
  {
  }

  /**
   * With valid arguments inside the chip, a failed SPI transfer halts in the error handler: a
   * read of a region word, the read of the stored word for CRC_ACT_CHECK, or the store of
   * CRC_ACT_CALC_AND_STORE.
   */
  lemma FailedTransferHalts(mem: seq<byte>, start: u32 -> u32, step: (u32, u32) -> u32, io: CrcIo, action: CrcAction,
                            framAddr: nat, frlen: nat, crc32addr: nat)
    requires |mem| == NVMEM_SIZE && CrcArgsOk(action, frlen)
    requires (frlen == 0 || InChip(framAddr, frlen)) && InChip(crc32addr, 4)
    requires (exists k :: 0 <= k < frlen / 4 && !io.wordOk(k)) ||
             (action == CRC_ACT_CHECK && !io.checkOk) ||
             (action == CRC_ACT_CALC_AND_STORE && !WriteGoesThrough(io.store))
    ensures CrcRun(mem, start, step, io, action, framAddr, frlen, crc32addr) == Halted
  {
  }

  /** Writing outside the first n words of a region leaves their CRC as it was. */
  lemma {:induction false} RegionCrcBesidePut(mem: seq<byte>, start: u32 -> u32, step: (u32, u32) -> u32,
                                              addr: nat, n: nat, a: nat, bytes: seq<byte>)
    requires (n == 0 || addr + 4 * n <= |mem|) && a + |bytes| <= |mem|
    requires a + |bytes| <= addr || addr + 4 * n <= a
    ensures RegionCrc(Put(mem, a, bytes), start, step, addr, n) == RegionCrc(mem, start, step, addr, n)
  {
    if n > 0 {
      RegionCrcBesidePut(mem, start, step, addr, n - 1, a, bytes);
      WordBesidePut(mem, a, bytes, addr + 4 * (n - 1));
    }
  }

  /**
   * Round trip: when the CRC word lies outside the region, a CRC_ACT_CALC_AND_STORE that
   * completes is followed by a CRC_ACT_CHECK that, unless one of its own transfers fails,
   * succeeds with the same CRC.
   */
  lemma StoreThenCheck(mem: seq<byte>, start: u32 -> u32, step: (u32, u32) -> u32, io: CrcIo, io': CrcIo,
                       framAddr: nat, frlen: nat, crc32addr: nat)
    requires |mem| == NVMEM_SIZE
    requires crc32addr + 4 <= framAddr || framAddr + frlen <= crc32addr
    requires CrcRun(mem, start, step, io, CRC_ACT_CALC_AND_STORE, framAddr, frlen, crc32addr).Done?
    ensures var r := CrcRun(mem, start, step, io, CRC_ACT_CALC_AND_STORE, framAddr, frlen, crc32addr);
            var r' := CrcRun(CrcMemory(mem, start, step, io, CRC_ACT_CALC_AND_STORE, framAddr, frlen, crc32addr),
                             start, step, io', CRC_ACT_CHECK, framAddr, frlen, crc32addr);
            (r'.Done? <==> WordsRead(io', frlen / 4) && io'.checkOk) &&
            (r'.Done? ==> r' == Done(SUCCESS, r.crcval))
  {
    var r := CrcRun(mem, start, step, io, CRC_ACT_CALC_AND_STORE, framAddr, frlen, crc32addr);
    assert WordBytes(r.crcval)[..Landed(io.store, 4)] == WordBytes(r.crcval);
    var m := Put(mem, crc32addr, WordBytes(r.crcval));
    RegionCrcBesidePut(mem, start, step, framAddr, frlen / 4, crc32addr, WordBytes(r.crcval));
    WordOfPut(mem, crc32addr, r.crcval);
    CheckComparesStored(m, start, step, io', framAddr, frlen, crc32addr);
  }

  // ---------------------------------------------------------------------------------------------
  // The settings block

  /** The saved settings check: their CRC equals the word stored after them. */
  predicate SettingsOk(mem: seq<byte>, start: u32 -> u32, step: (u32, u32) -> u32)
    requires |mem| == NVMEM_SIZE
  {
    RegionCrc(mem, start, step, 0, SETTINGS_SIZE / 4) == Word(mem, SETTINGS_CRC_OFFSET)
  }

  /** The settings CRC recomputed and stored after them: what CRC_ACT_CALC_AND_STORE leaves. */
  function Sealed(mem: seq<byte>, start: u32 -> u32, step: (u32, u32) -> u32): (r: seq<byte>)
    requires |mem| == NVMEM_SIZE
    ensures |r| == NVMEM_SIZE
  {
    Put(mem, SETTINGS_CRC_OFFSET, WordBytes(RegionCrc(mem, start, step, 0, SETTINGS_SIZE / 4)))
  }

  /** A settings field of the given bytes written at off, and the settings sealed again. */
  function Saved(mem: seq<byte>, start: u32 -> u32, step: (u32, u32) -> u32, off: nat, bytes: seq<byte>): (r: seq<byte>)
    requires |mem| == NVMEM_SIZE && off + |bytes| <= SETTINGS_SIZE
    ensures |r| == NVMEM_SIZE
  {
    Sealed(Put(mem, off, bytes), start, step)
  }

  /** The settings sealed with CRC_ACT_CALC_AND_STORE pass the settings check, and their bytes are kept. */
  lemma SealedChecks(mem: seq<byte>, start: u32 -> u32, step: (u32, u32) -> u32)
    requires |mem| == NVMEM_SIZE
    ensures SettingsOk(Sealed(mem, start, step), start, step)
    ensures Sealed(mem, start, step)[..SETTINGS_SIZE] == mem[..SETTINGS_SIZE]
  {
    var c := RegionCrc(mem, start, step, 0, SETTINGS_SIZE / 4);
    RegionCrcBesidePut(mem, start, step, 0, SETTINGS_SIZE / 4, SETTINGS_CRC_OFFSET, WordBytes(c));
    WordOfPut(mem, SETTINGS_CRC_OFFSET, c);
  }

  /** Every transfer of the CALC_AND_STORE pass over the settings goes through. */
  predicate SealGoesThrough(io: CrcIo)
  {
    WordsRead(io, SETTINGS_SIZE / 4) && WriteGoesThrough(io.store)
  }

  /** The FRAM contents after the CALC_AND_STORE pass over the settings with SPI outcome io. */
  function SealMemory(mem: seq<byte>, start: u32 -> u32, step: (u32, u32) -> u32, io: CrcIo): (r: seq<byte>)
    requires |mem| == NVMEM_SIZE
    ensures |r| == NVMEM_SIZE
  {
    CrcMemory(mem, start, step, io, CRC_ACT_CALC_AND_STORE, 0, SETTINGS_SIZE, SETTINGS_CRC_OFFSET)
  }

  /**
   * The CALC_AND_STORE pass over the settings that every setter ends with: it halts exactly when
   * one of its SPI transfers fails, and otherwise leaves the settings sealed.
   */
  method SealSettings(fram: array<byte>, start: u32 -> u32, step: (u32, u32) -> u32, io: CrcIo)
    returns (halted: bool)
    requires fram.Length == NVMEM_SIZE
    modifies fram
    ensures halted <==> !SealGoesThrough(io)
    ensures fram[..] == SealMemory(old(fram[..]), start, step, io)
    ensures !halted ==> fram[..] == Sealed(old(fram[..]), start, step)
  {
    var r := ProcNvmemCrc32(fram, start, step, io, CRC_ACT_CALC_AND_STORE, 0, SETTINGS_SIZE, SETTINGS_CRC_OFFSET);
    halted := r == Halted;
  }

  /** The outcome of the SPI transfers of a Save_* call: its Write_FRAM of the field, and its seal. */
  datatype SaveIo = SaveIo(field: SpiWrite, seal: CrcIo)

  /** Every transfer of a Save_* call goes through. */
  predicate SaveGoesThrough(io: SaveIo)
  {
    WriteGoesThrough(io.field) && SealGoesThrough(io.seal)
  }

  /**
   * The FRAM contents after a Save_* call of bytes at off with SPI outcome io: the field bytes
   * that landed and, when the field's Write_FRAM returned SUCCESS, the seal that follows it.
   */
  function SaveMemory(mem: seq<byte>, start: u32 -> u32, step: (u32, u32) -> u32, off: nat, bytes: seq<byte>,
                      io: SaveIo): (r: seq<byte>)
    requires |mem| == NVMEM_SIZE && |bytes| > 0 && off + |bytes| <= SETTINGS_SIZE
    ensures |r| == NVMEM_SIZE
  {
    var m := Put(mem, off, bytes[..Landed(io.field, |bytes|)]);
    if WriteGoesThrough(io.field) then SealMemory(m, start, step, io.seal) else m
  }

  /**
   * A Save_* call, whether it returns or halts in an error handler, changes no FRAM byte
   * outside its field and the settings CRC word.
   */
  lemma SaveTouchesFieldAndCrc(mem: seq<byte>, start: u32 -> u32, step: (u32, u32) -> u32, off: nat,
                               bytes: seq<byte>, io: SaveIo)
    requires |mem| == NVMEM_SIZE && |bytes| > 0 && off + |bytes| <= SETTINGS_SIZE
    ensures var r := SaveMemory(mem, start, step, off, bytes, io);
            forall i :: (0 <= i < NVMEM_SIZE && !(off <= i < off + |bytes|) &&
                         !(SETTINGS_CRC_OFFSET <= i < SETTINGS_CRC_OFFSET + 4)) ==> r[i] == mem[i]
  {
    var part := bytes[..Landed(io.field, |bytes|)];
    var m := Put(mem, off, part);
    PutReads(mem, off, part);
    if WriteGoesThrough(io.field) && WordsRead(io.seal, SETTINGS_SIZE / 4) {
      var c := WordBytes(RegionCrc(m, start, step, 0, SETTINGS_SIZE / 4))[..Landed(io.seal.store, 4)];
      PutReads(m, SETTINGS_CRC_OFFSET, c);
    }
  }

  /** A field write within the settings followed by the seal: the shape of every Save_* function. */
  method SaveField(fram: array<byte>, start: u32 -> u32, step: (u32, u32) -> u32, off: nat, bytes: seq<byte>,
                   io: SaveIo) returns (halted: bool)
    requires fram.Length == NVMEM_SIZE && |bytes| > 0 && off + |bytes| <= SETTINGS_SIZE
    modifies fram
    ensures halted <==> !SaveGoesThrough(io)
    ensures fram[..] == SaveMemory(old(fram[..]), start, step, off, bytes, io)
    ensures !halted ==> fram[..] == Saved(old(fram[..]), start, step, off, bytes)
  {
    var ok := WriteFram(fram, bytes, off, io.field);
    if !ok {
      return true;
    }
    assert bytes[..|bytes|] == bytes;
    halted := SealSettings(fram, start, step, io.seal);
  }

  /** Set_Reboot_Cause (conf_fn.c:497-517): the cause byte written and the settings sealed. */
  method SetRebootCause(fram: array<byte>, start: u32 -> u32, step: (u32, u32) -> u32, cause: byte, io: SaveIo)
    returns (halted: bool)
    requires fram.Length == NVMEM_SIZE
    modifies fram
    ensures halted <==> !SaveGoesThrough(io)
    ensures fram[..] == SaveMemory(old(fram[..]), start, step, CAUSE_OFFSET, [cause], io)
    ensures !halted ==> fram[..] == Saved(old(fram[..]), start, step, CAUSE_OFFSET, [cause])
  {
    halted := SaveField(fram, start, step, CAUSE_OFFSET, [cause], io);
  }

  /** Save_MAC_to_NVMEM (conf_fn.c:87-103) */
  method SaveMac(fram: array<byte>, start: u32 -> u32, step: (u32, u32) -> u32, mac: seq<byte>, io: SaveIo)
    returns (halted: bool)
    requires fram.Length == NVMEM_SIZE && |mac| == 6
    modifies fram
    ensures halted <==> !SaveGoesThrough(io)
    ensures fram[..] == SaveMemory(old(fram[..]), start, step, MAC_OFFSET, mac, io)
    ensures !halted ==> fram[..] == Saved(old(fram[..]), start, step, MAC_OFFSET, mac)
  {
    halted := SaveField(fram, start, step, MAC_OFFSET, mac, io);
  }

  /** the eight bytes of an ip_pair_t: address, port, and the two padding bytes written as 0 */
  function PairBytes(p: IpHelpers.IpPair): (r: seq<byte>)
    ensures |r| == IP_PAIR_SIZE
  {
    WordBytes(p.ip) + StrCopy.LeBytes(p.port) + [0, 0]
  }

  /** Save_IP_Pair_to_NVMEM (conf_fn.c:127-143) */
  method SaveIpPair(fram: array<byte>, start: u32 -> u32, step: (u32, u32) -> u32, p: IpHelpers.IpPair, kind: nat,
                    io: SaveIo) returns (halted: bool)
    requires fram.Length == NVMEM_SIZE && kind < NUM_IP_PARAMS
    modifies fram
    ensures halted <==> !SaveGoesThrough(io)
    ensures fram[..] == SaveMemory(old(fram[..]), start, step, IP_ARR_OFFSET + IP_PAIR_SIZE * kind, PairBytes(p), io)
    ensures !halted ==> fram[..] == Saved(old(fram[..]), start, step, IP_ARR_OFFSET + IP_PAIR_SIZE * kind, PairBytes(p))
  {
    halted := SaveField(fram, start, step, IP_ARR_OFFSET + IP_PAIR_SIZE * kind, PairBytes(p), io);
  }

  /** Save_GI_Period_to_NVMEM (conf_fn.c:190-206) */
  method SaveGiPeriod(fram: array<byte>, start: u32 -> u32, step: (u32, u32) -> u32, ms: u32, io: SaveIo)
    returns (halted: bool)
    requires fram.Length == NVMEM_SIZE
    modifies fram
    ensures halted <==> !SaveGoesThrough(io)
    ensures fram[..] == SaveMemory(old(fram[..]), start, step, GI_PERIOD_OFFSET, WordBytes(ms), io)
    ensures !halted ==> fram[..] == Saved(old(fram[..]), start, step, GI_PERIOD_OFFSET, WordBytes(ms))
  {
    halted := SaveField(fram, start, step, GI_PERIOD_OFFSET, WordBytes(ms), io);
  }

  /** A saved field passes the settings check, reads back, and leaves the other settings bytes as they were. */
  lemma SavedReadsBack(mem: seq<byte>, start: u32 -> u32, step: (u32, u32) -> u32, off: nat, bytes: seq<byte>)
    requires |mem| == NVMEM_SIZE && off + |bytes| <= SETTINGS_SIZE
    ensures var m := Saved(mem, start, step, off, bytes);
            SettingsOk(m, start, step) && m[off..off + |bytes|] == bytes &&
            forall i :: 0 <= i < SETTINGS_SIZE && !(off <= i < off + |bytes|) ==> m[i] == mem[i]
  {
    var p := Put(mem, off, bytes);
    SealedChecks(p, start, step);
    PutReads(mem, off, bytes);
    var m := Saved(mem, start, step, off, bytes);
    assert m[off..off + |bytes|] == p[off..off + |bytes|] by {
      assert m[..SETTINGS_SIZE] == p[..SETTINGS_SIZE];
    }
    forall i | 0 <= i < SETTINGS_SIZE
      ensures m[i] == p[i]
    {
      assert m[..SETTINGS_SIZE][i] == p[..SETTINGS_SIZE][i];
    }
  }

  // ---------------------------------------------------------------------------------------------
  // The ROM defaults and the getters

  /** default_set.my_mac (conf_fn.c:38) */
  const DEFAULT_MAC: seq<byte> := [0x00, 0x13, 0x37, 0x01, 0x23, 0x45]

  /** default_set.ip_arr (conf_fn.c:39-48), indexed by ip_params_t */
  const DEFAULT_IP_ARR: seq<IpHelpers.IpPair> := [
    IpHelpers.IpPair(IpHelpers.MakeIp(192, 168, 0, 222), 0),   // MY_IP
    IpHelpers.IpPair(IpHelpers.MakeIp(255, 255, 255, 0), 0),   // MY_NETMASK
    IpHelpers.IpPair(IpHelpers.MakeIp(192, 168, 0, 1), 0),     // DEFAULT_GW
    IpHelpers.IpPair(IpHelpers.MakeIp(192, 168, 0, 1), 5000),  // LISTENER_IP
    IpHelpers.IpPair(IpHelpers.MakeIp(192, 168, 0, 1), 3333),  // MQTT_SN_PUB_IP
    IpHelpers.IpPair(IpHelpers.MakeIp(192, 168, 0, 1), 3333),  // MQTT_SN_SUB_IP
    IpHelpers.IpPair(IpHelpers.MakeIp(192, 168, 0, 1), 123),   // NTP_SERV1
    IpHelpers.IpPair(IpHelpers.MakeIp(216, 239, 35, 12), 123)  // NTP_SERV2
  ]

  /** default_set.GI_period (conf_fn.c:52) */
  const DEFAULT_GI_PERIOD: u32 := 4000

  const DEFAULT_ROOT_TOPIC: string := "tvv/5413/in-home/1st_floor/DIO_board/"
  const DEFAULT_PUB_ID: string := "DIO-MPVV"
  const DEFAULT_SUB_ID: string := "DIO-CMD"

  /** A char array of n bytes initialised with a string literal: the text, then NULs. */
  function CharArray(text: string, n: nat): (r: seq<byte>)
    requires forall i :: 0 <= i < |text| ==> 0 < text[i] as int < 0x100
    requires |text| < n
    ensures |r| == n && CStr(r) == Ascii(text)
  {
    var t := Ascii(text);
    StrLenOfTerminated(t, Zeros(n - |text|));
    t + Zeros(n - |text|)
  }

  /** Get_MAC (conf_fn.c:68-80): the ROM MAC on a cold boot, the saved one otherwise */
  function GetMac(mode: BootMode, mem: seq<byte>): (mac: seq<byte>)
    requires |mem| == NVMEM_SIZE
    ensures |mac| == 6
  {
    if mode == COLD_BOOT then DEFAULT_MAC else mem[MAC_OFFSET..MAC_OFFSET + 6]
  }

  /** Get_IP_Params (conf_fn.c:151-163), with Get_IP_Pair_fom_NVMEM (conf_fn.c:111-119) */
  function GetIpParams(mode: BootMode, mem: seq<byte>, kind: nat): (r: IpHelpers.IpPair)
    requires |mem| == NVMEM_SIZE && kind < NUM_IP_PARAMS
    ensures mode == COLD_BOOT ==> r == DEFAULT_IP_ARR[kind]
    ensures mode == WARM_BOOT ==>
              var off := IP_ARR_OFFSET + IP_PAIR_SIZE * kind;
              WordBytes(r.ip) == mem[off..off + 4] && StrCopy.LeBytes(r.port) == mem[off + 4..off + 6]
  {
    if mode == COLD_BOOT then DEFAULT_IP_ARR[kind]
    else
      var off := IP_ARR_OFFSET + IP_PAIR_SIZE * kind;
      BytesOfWord(mem, off);
      StrCopy.U16BytesRoundTrip(mem[off + 4], mem[off + 5]);
      IpHelpers.IpPair(Word(mem, off), Half(mem, off + 4))
  }

  /** Get_GI_Period (conf_fn.c:170-183) */
  function GetGiPeriod(mode: BootMode, mem: seq<byte>): (r: u32)
    requires |mem| == NVMEM_SIZE
    ensures mode == COLD_BOOT ==> r == DEFAULT_GI_PERIOD
    ensures mode == WARM_BOOT ==> WordBytes(r) == mem[GI_PERIOD_OFFSET..GI_PERIOD_OFFSET + 4]
  {
    if mode == COLD_BOOT then DEFAULT_GI_PERIOD
    else
      BytesOfWord(mem, GI_PERIOD_OFFSET);
      Word(mem, GI_PERIOD_OFFSET)
  }

  /**
   * Get_Root_Topic (conf_fn.c:213-227): the char array the returned pointer designates, the
   * ROM one on a cold boot, otherwise work_roottopic filled from FRAM.
   */
  function GetRootTopic(mode: BootMode, mem: seq<byte>): (r: seq<byte>)
    requires |mem| == NVMEM_SIZE
    ensures |r| == ROOT_TOPIC_LEN + 1
  {
    if mode == COLD_BOOT then CharArray(DEFAULT_ROOT_TOPIC, ROOT_TOPIC_LEN + 1)
    else mem[ROOT_TOPIC_OFFSET..ROOT_TOPIC_OFFSET + ROOT_TOPIC_LEN + 1]
  }

  /** Get_Pub_ID_String (conf_fn.c:234-248) */
  function GetPubIdString(mode: BootMode, mem: seq<byte>): (r: seq<byte>)
    requires |mem| == NVMEM_SIZE
    ensures |r| == CLIENT_ID_STRING + 1
  {
    if mode == COLD_BOOT then CharArray(DEFAULT_PUB_ID, CLIENT_ID_STRING + 1)
    else mem[PUB_ID_OFFSET..PUB_ID_OFFSET + CLIENT_ID_STRING + 1]
  }

  /** Get_Sub_ID_String (conf_fn.c:255-269) */
  function GetSubIdString(mode: BootMode, mem: seq<byte>): (r: seq<byte>)
    requires |mem| == NVMEM_SIZE
    ensures |r| == CLIENT_ID_STRING + 1
  {
    if mode == COLD_BOOT then CharArray(DEFAULT_SUB_ID, CLIENT_ID_STRING + 1)
    else mem[SUB_ID_OFFSET..SUB_ID_OFFSET + CLIENT_ID_STRING + 1]
  }

  /**
   * On a cold boot the MAC, address and period getters give the ROM defaults whatever the FRAM
   * holds.
   */
  lemma ColdBootUsesRom(m1: seq<byte>, m2: seq<byte>, kind: nat)
    requires |m1| == NVMEM_SIZE && |m2| == NVMEM_SIZE && kind < NUM_IP_PARAMS
    ensures GetMac(COLD_BOOT, m1) == GetMac(COLD_BOOT, m2) == [0x00, 0x13, 0x37, 0x01, 0x23, 0x45]
    ensures GetIpParams(COLD_BOOT, m1, kind) == GetIpParams(COLD_BOOT, m2, kind)
    ensures GetIpParams(COLD_BOOT, m1, 0).ip == 0xDE00_A8C0
    ensures GetIpParams(COLD_BOOT, m1, 1).ip == 0x00FF_FFFF
    ensures GetGiPeriod(COLD_BOOT, m1) == GetGiPeriod(COLD_BOOT, m2) == 4000
  {
  }

  /** On a cold boot the string getters designate the ROM texts, whatever the FRAM holds. */
  lemma ColdBootStrings(m1: seq<byte>, m2: seq<byte>)
    requires |m1| == NVMEM_SIZE && |m2| == NVMEM_SIZE
    ensures GetRootTopic(COLD_BOOT, m1) == GetRootTopic(COLD_BOOT, m2)
    ensures CStr(GetRootTopic(COLD_BOOT, m1)) == Ascii("tvv/5413/in-home/1st_floor/DIO_board/")
    ensures CStr(GetPubIdString(COLD_BOOT, m1)) == Ascii("DIO-MPVV")
    ensures CStr(GetSubIdString(COLD_BOOT, m2)) == Ascii("DIO-CMD")
  {
  }

  /** In warm mode the getters read back what the setters saved, and the settings check passes. */
  lemma SavedSettingsReadBack(mem: seq<byte>, start: u32 -> u32, step: (u32, u32) -> u32,
                              mac: seq<byte>, p: IpHelpers.IpPair, kind: nat, ms: u32)
    requires |mem| == NVMEM_SIZE && |mac| == 6 && kind < NUM_IP_PARAMS
    ensures var m := Saved(mem, start, step, MAC_OFFSET, mac);
            SettingsOk(m, start, step) && GetMac(WARM_BOOT, m) == mac
    ensures var m := Saved(mem, start, step, IP_ARR_OFFSET + IP_PAIR_SIZE * kind, PairBytes(p));
            SettingsOk(m, start, step) && GetIpParams(WARM_BOOT, m, kind) == p
    ensures var m := Saved(mem, start, step, GI_PERIOD_OFFSET, WordBytes(ms));
            SettingsOk(m, start, step) && GetGiPeriod(WARM_BOOT, m) == ms
  {
    SavedReadsBack(mem, start, step, MAC_OFFSET, mac);
    var off := IP_ARR_OFFSET + IP_PAIR_SIZE * kind;
    var mi := Saved(mem, start, step, off, PairBytes(p));
    SavedReadsBack(mem, start, step, off, PairBytes(p));
    PairReadsBack(mi, off, p);
    var mg := Saved(mem, start, step, GI_PERIOD_OFFSET, WordBytes(ms));
    SavedReadsBack(mem, start, step, GI_PERIOD_OFFSET, WordBytes(ms));
    WordAt(mg, GI_PERIOD_OFFSET, ms);
  }

  /** Four bytes of a stored word, found at a, read back as the word. */
  lemma WordAt(m: seq<byte>, a: nat, v: u32)
    requires a + 4 <= |m| && m[a..a + 4] == WordBytes(v)
    ensures Word(m, a) == v
  {
    BytesOfWord(m, a);
    WordOfBytes(v);
    assert Word(m, a) == Word(WordBytes(Word(m, a)), 0);
  }

  /** The eight bytes of a stored ip_pair_t read back as the pair. */
  lemma PairReadsBack(m: seq<byte>, off: nat, p: IpHelpers.IpPair)
    requires off + IP_PAIR_SIZE <= |m| && m[off..off + IP_PAIR_SIZE] == PairBytes(p)
    ensures Word(m, off) == p.ip && Half(m, off + 4) == p.port
  {
    assert m[off..off + 4] == PairBytes(p)[..4];
    WordAt(m, off, p.ip);
    assert m[off + 4] == PairBytes(p)[4] && m[off + 5] == PairBytes(p)[5];
  }

  // ---------------------------------------------------------------------------------------------
  // Get_Reboot_Action

  /**
   * The decision chain of Get_Reboot_Action (conf_fn.c:431-484), from whether the settings
   * passed their CRC check, the saved cause and the reset flags; rules are tried in order.
   */
  function RebootAction(crcOk: bool, rc: byte, f: ResetFlags): BootAction
  {
    if !crcOk then B_ACT_COLD
    else if rc == RB_CFG_ERR then B_ACT_COLD
    else if f.lpwr || f.sft then B_ACT_CFG
    else if rc == RB_CMD then B_ACT_CFG
    else if rc == RB_CFG_CHNG then B_ACT_CFG
    else if rc == RB_PWR_LOSS then B_ACT_CFG_DAQ
    else if (f.iwdg || f.wwdg) && rc == RB_NONE then B_ACT_CFG
    else if (f.pin || f.por) && rc == RB_NONE then B_ACT_CFG_DAQ
    else B_ACT_COLD
  }

  /**
   * Only configuration is restored exactly when the settings check, the cause is not a
   * configuration error, and a soft or low-power reset happened, or the cause was a command or
   * a configuration change, or no cause was saved and a watchdog reset happened.
   */
  lemma ConfigOnlyWhen(crcOk: bool, rc: byte, f: ResetFlags)
    ensures RebootAction(crcOk, rc, f) == B_ACT_CFG <==>
            crcOk && rc != RB_CFG_ERR &&
            (f.lpwr || f.sft || rc == RB_CMD || rc == RB_CFG_CHNG || (rc == RB_NONE && (f.iwdg || f.wwdg)))
  {
  }

  /**
   * Configuration and process data are restored exactly when the settings check, there was no
   * soft or low-power reset, and the cause was a power loss, or no cause was saved and a pin or
   * power-on reset happened without a watchdog reset.
   */
  lemma ConfigAndDataWhen(crcOk: bool, rc: byte, f: ResetFlags)
    ensures RebootAction(crcOk, rc, f) == B_ACT_CFG_DAQ <==>
            crcOk && !(f.lpwr || f.sft) &&
            (rc == RB_PWR_LOSS || (rc == RB_NONE && !(f.iwdg || f.wwdg) && (f.pin || f.por)))
  {
  }

  /**
   * A cold boot follows a failed CRC check, a configuration error, and, without a soft or
   * low-power reset, any saved byte that is no known cause or RB_NONE with no reset flag at all.
   */
  lemma ColdWhen(crcOk: bool, rc: byte, f: ResetFlags)
    ensures RebootAction(crcOk, rc, f) == B_ACT_COLD <==>
            !crcOk || rc == RB_CFG_ERR ||
            (!(f.lpwr || f.sft) && rc > RB_PWR_LOSS) ||
            (!(f.lpwr || f.sft) && rc == RB_NONE && !(f.iwdg || f.wwdg || f.pin || f.por))
  {
  }

  /**
   * The outcome of the SPI transfers of Get_Reboot_Action: those of the CRC check of the
   * settings, of the read of the saved cause, and of the Set_Reboot_Cause that clears it.
   */
  datatype BootIo = BootIo(check: CrcIo, causeOk: bool, clear: SaveIo)

  /**
   * The reads of Get_Reboot_Action go through: the CRC check's, and the read of the saved cause,
   * which only follows a check that passed.
   */
  predicate BootReadsGoThrough(io: BootIo, crcOk: bool)
  {
    WordsRead(io.check, SETTINGS_SIZE / 4) && io.check.checkOk && (crcOk ==> io.causeOk)
  }

  /**
   * Get_Reboot_Action (conf_fn.c:415-489) with SPI outcome io: it halts exactly when one of its
   * transfers fails; otherwise the action is decided from the settings check, the saved cause
   * and the reset flags, and whatever it is, the saved cause is then RB_NONE and the settings
   * sealed again. The FRAM is touched only by the clearing Set_Reboot_Cause.
   */
  method GetRebootAction(fram: array<byte>, start: u32 -> u32, step: (u32, u32) -> u32, csr: ResetFlags,
                         io: BootIo) returns (halted: bool, bac: BootAction)
    requires fram.Length == NVMEM_SIZE
    modifies fram
    ensures halted <==> !(BootReadsGoThrough(io, SettingsOk(old(fram[..]), start, step)) && SaveGoesThrough(io.clear))
    ensures !halted ==> bac == RebootAction(SettingsOk(old(fram[..]), start, step), old(fram[CAUSE_OFFSET]), csr)
    ensures !halted ==> fram[..] == Saved(old(fram[..]), start, step, CAUSE_OFFSET, [RB_NONE])
    ensures fram[..] == if BootReadsGoThrough(io, SettingsOk(old(fram[..]), start, step))
                        then SaveMemory(old(fram[..]), start, step, CAUSE_OFFSET, [RB_NONE], io.clear)
                        else old(fram[..])
  {
    var r := ProcNvmemCrc32(fram, start, step, io.check, CRC_ACT_CHECK, 0, SETTINGS_SIZE, SETTINGS_CRC_OFFSET);
    if r == Halted {
      return true, B_ACT_COLD;
    }
    if r.status != SUCCESS {
      bac := B_ACT_COLD;
    } else {
      var buf := new byte[1];
      var ok := ReadFram(fram, buf, 0, CAUSE_OFFSET, 1, io.causeOk);
      if !ok {
        return true, B_ACT_COLD;
      }
      assert buf[..] == fram[CAUSE_OFFSET..CAUSE_OFFSET + 1];
      var rc := buf[0];
      if rc == RB_CFG_ERR {
        bac := B_ACT_COLD;
      } else if csr.lpwr || csr.sft {
        bac := B_ACT_CFG;
      } else if rc == RB_CMD {
        bac := B_ACT_CFG;
      } else if rc == RB_CFG_CHNG {
        bac := B_ACT_CFG;
      } else if rc == RB_PWR_LOSS {
        bac := B_ACT_CFG_DAQ;
      } else if (csr.iwdg || csr.wwdg) && rc == RB_NONE {
        bac := B_ACT_CFG;
      } else if (csr.pin || csr.por) && rc == RB_NONE {
        bac := B_ACT_CFG_DAQ;
      } else {
        bac := B_ACT_COLD;
      }
    }
    halted := SetRebootCause(fram, start, step, RB_NONE, io.clear);
  }

  /**
   * After Get_Reboot_Action the settings pass their check and hold no cause, so the next boot
   * is decided by the reset flags alone.
   */
  lemma CauseClearedAfterBoot(mem: seq<byte>, start: u32 -> u32, step: (u32, u32) -> u32, f: ResetFlags)
    requires |mem| == NVMEM_SIZE
    ensures var m := Saved(mem, start, step, CAUSE_OFFSET, [RB_NONE]);
            SettingsOk(m, start, step) && m[CAUSE_OFFSET] == RB_NONE &&
            RebootAction(SettingsOk(m, start, step), m[CAUSE_OFFSET], f) == RebootAction(true, RB_NONE, f)
  {
    var m := Saved(mem, start, step, CAUSE_OFFSET, [RB_NONE]);
    SavedReadsBack(mem, start, step, CAUSE_OFFSET, [RB_NONE]);
    assert m[0..1] == [RB_NONE];
  }

  /** A power-loss cause saved with Set_Reboot_Cause restores configuration and data unless a soft or low-power reset followed. */
  lemma PowerLossRestoresData(mem: seq<byte>, start: u32 -> u32, step: (u32, u32) -> u32, f: ResetFlags)
    requires |mem| == NVMEM_SIZE
    ensures var m := Saved(mem, start, step, CAUSE_OFFSET, [RB_PWR_LOSS]);
            RebootAction(SettingsOk(m, start, step), m[CAUSE_OFFSET], f)
            == (if f.lpwr || f.sft then B_ACT_CFG else B_ACT_CFG_DAQ)
  {
    var m := Saved(mem, start, step, CAUSE_OFFSET, [RB_PWR_LOSS]);
    SavedReadsBack(mem, start, step, CAUSE_OFFSET, [RB_PWR_LOSS]);
    assert m[0..1] == [RB_PWR_LOSS];
  }

  // ---------------------------------------------------------------------------------------------
  // FRAM state

  /** Get_FRAM_State (conf_fn.c:399-406) from the value of backup register MAGIC_REG */
  function GetFramState(reg: u32): (s: FramState)
    ensures s == FRAM_BAD <==> reg == BAD_FRAM_MAGIC
    ensures s != FRAM_pad
  {
    if reg == BAD_FRAM_MAGIC then FRAM_BAD else FRAM_OK
  }
}
