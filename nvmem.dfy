// The FRAM chip of Core/Src/nvmem/nvmem.c (a 25LC64-sized part of NVMEM_SIZE bytes on SPI),
// held as an array of bytes. The SPI transfer itself is not modelled: its outcome is a parameter.

module Nvmem {
  import opened Common

  /** Core/Inc/nvmem/nvmem.h */
  const NVMEM_SIZE: nat := 8192

  /** The argument check of Read_FRAM and Write_FRAM: a non-empty range within the chip. */
  predicate InChip(addr: nat, len: nat)
  {
    len != 0 && addr + len <= NVMEM_SIZE
  }

  /**
   * Read_FRAM (nvmem.c:41-90): len bytes from FRAM address addr into dst at d. An empty or
   * out-of-chip range, or a failed SPI transfer (ioOk false), gives ERROR and reads nothing.
   */
  method ReadFram(fram: array<byte>, dst: array<byte>, d: nat, addr: nat, len: nat, ioOk: bool)
    returns (ok: bool)
    requires fram.Length == NVMEM_SIZE && fram != dst && d + len <= dst.Length
    modifies dst
    ensures ok <==> InChip(addr, len) && ioOk
    ensures ok ==> dst[..] == old(dst[..d]) + fram[addr..addr + len] + old(dst[d + len..])
    ensures !ok ==> dst[..] == old(dst[..])
  {
    if !InChip(addr, len) || !ioOk {
      return false;
    }
    MemCpy(dst, d, fram, addr, len);
    assert dst[..] == dst[..d] + dst[d..d + len] + dst[d + len..];
    ok := true;
  }

  /**
   * The outcome of the SPI transfers of one Write_FRAM: whether WREN, WRSR, WREN and the WRITE
   * command with its address all went through, whether the data transfer did, how many data bytes
   * reached the chip before a data transfer that failed, and whether the closing WRDI went through.
   */
  datatype SpiWrite = SpiWrite(commandsOk: bool, dataOk: bool, sent: nat, wrdiOk: bool)

  /** every transfer goes through */
  const SPI_OK := SpiWrite(true, true, 0, true)

  /**
   * How many of n data bytes a Write_FRAM with outcome io leaves on the chip: none when a command
   * transfer fails (nvmem.c:124-157 jump to the exit before the data), all of them once the data
   * transfer succeeds, whatever WRDI does, and the bytes sent when the data transfer fails.
   */
  function Landed(io: SpiWrite, n: nat): (r: nat)
    ensures r <= n
    ensures !io.commandsOk ==> r == 0
    ensures io.commandsOk && io.dataOk ==> r == n
  {
    if !io.commandsOk then 0 else if io.dataOk then n else if io.sent < n then io.sent else n
  }

  /**
   * Write_FRAM (nvmem.c:102-192): the bytes data, which the caller's buffer holds, to FRAM address
   * addr, with the same argument check as ReadFram. SUCCESS needs every transfer to go through; a
   * failure after the data transfer began leaves the bytes that reached the chip written, so ERROR
   * can come back with all of data stored (a failed WRDI, nvmem.c:172-181).
   */
  method WriteFram(fram: array<byte>, data: seq<byte>, addr: nat, io: SpiWrite) returns (ok: bool)
    requires fram.Length == NVMEM_SIZE
    modifies fram
    ensures ok <==> InChip(addr, |data|) && io.commandsOk && io.dataOk && io.wrdiOk
    ensures InChip(addr, |data|) ==>
              var n := Landed(io, |data|);
              fram[..] == old(fram[..addr]) + data[..n] + old(fram[addr + n..])
    ensures !InChip(addr, |data|) ==> fram[..] == old(fram[..])
  {
    if !InChip(addr, |data|) {
      return false;
    }
    var n := Landed(io, |data|);
    CopyIn(fram, addr, data[..n]);
    ok := io.commandsOk && io.dataOk && io.wrdiOk;
  }
}
