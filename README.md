# OpenTherm / MQTT-SN controller firmware: a Dafny model of its sequential core

This project models the sequential logic of an STM32 FreeRTOS board that talks OpenTherm to a
boiler and MQTT-SN over an ENC28J60 Ethernet chip, together with the two Python scripts that
stamp a build number into its header. Hardware, the RTOS and the network clients are left out;
what remains is the logic that decides results from inputs and state:

- **Text and number codecs** (`AsciiHelpers`, `NumHelpers`, `StrCopy`): fixed-width ASCII hex and
  decimal conversion, the integer classification of `str_to_num`, the bounded copies
  `mystrcpy`/`mystrcpynf` and the 16-bit byte-order helpers.
- **TFTP** (`TftpPacket`, `TftpServer`): the packet codec of section 5 of RFC 1350 over a byte
  buffer, and the server's per-transfer context: open, close, block read, error reply, the
  accept / re-ACK rule for received blocks and the end on a short block (section 6 of RFC 1350).
- **Minimal JSON** (`Json`): the one-chain serializer, the escape check of section 7 of RFC 8259,
  `get_jstrlen`, `decode_enum` and the one-pair parser, with the round trip between them.
- **tiny-fs on FRAM** (`Common`, `Nvmem`, `TinyFsLayout`, `TinyFsClusters`, `TinyFsImage`,
  `TinyFsFiles`, `TinyFsDriver`): the FRAM as a byte array with the bounds rule of `nvmem.c`, the
  cluster bitmap allocator, the 64-entry directory, and the file handles with read, write, seek
  and tell; then the `file_io.c` wrappers (`FileIo`) and the fixed-width configuration records
  read through them (`IpHelpers`, `Startup`).
- **Manchester coding** (`ManchesterBits`, `Manchester`, `BitQueue`): half-bit decoding, pulse
  classification, bit reversal and field shifts, the context checks of
  `MANCHESTER_InitContext`, the bit sequence `MANCHESTER_Transmit` sends, and the 32-bit queue.
- **LAN tables** (`LanNet`, `LanPool`, `LanArp`): the Internet checksum of RFC 1071 and `htonl`,
  the socket pool and Ethernet buffer pool, UDP delivery to sockets with `read_sock`, and the ARP
  cache.
- **State registers and decision rules** (`LogLevels`, `LogOutput`, `Logging`, `Watchdog`,
  `ConfFn`): the log-level mask, the "all tasks alive" watchdog bitmask, and the FRAM settings
  of `conf_fn.c` with their CRC seal, the cold-boot getters and the boot-action decision table.
- **Build-number scripts** (`BuildInfo`, `BuildInfoNew`, over the Python 2 models `PyText`,
  `PyFiles` and `PyJson`): read, increment and rewrite of a counter file or of a JSON comment on
  the header's first line.

Code that changes state in place is modelled as classes (the file-system driver, the LAN pools,
the ARP cache, the log mask, the watchdog, the TFTP context, the Manchester context, the bit
queue, the files the scripts see) whose methods are proved against specification functions;
pure helpers are functions with lemmas. Where verifying the natural contract showed that the
code does something its authors evidently did not intend, the code as written is modelled and
its discrepancy exhibited, and the corrected behaviour is what the rest of the model uses (see
"## Findings"). Types and constants follow the headers: `byte`, `u16` and `u32` are bounded
subranges and every wrap-around or truncating cast of the C code is written out.

## Model

| member | source | states |
|---|---|---|
| `AsciiHelpers.IsHex` | Core/Src/helpers/ascii_helpers.C:17-39 | isHex is true exactly when len > 0 and all len characters are 0-9, a-f or A-F; false for an empty field |
| `AsciiHelpers.IsDec` | Core/Src/helpers/ascii_helpers.C:47-65 | isDec is true exactly when len > 0 and all len characters are 0-9; false for an empty field |
| `AsciiHelpers.DecFieldIsHexField` | Core/Src/helpers/test_ascii_helpers.c:20-34 | every field isDec accepts is accepted by isHex (every resD-true row of the test table is resH-true) |
| `AsciiHelpers.Cton` | Core/Src/helpers/ascii_helpers.C:73-84 | cton maps any character to a nibble below 16, and every non-hex character to 0 |
| `AsciiHelpers.Dcton` | Core/Src/helpers/ascii_helpers.C:92-99 | dcton maps any character to a value below 10, and every non-digit to 0 |
| `AsciiHelpers.CtonInvertsHexDigit` | Core/Src/helpers/ascii_helpers.C:73-84 | cton reads the value back from the upper-case and from the lower-case hex digit of every nibble |
| `AsciiHelpers.DctonInvertsDecDigit` | Core/Src/helpers/ascii_helpers.C:73-99 | dcton and cton both read the value back from the digit of every value below 10 |
| `AsciiHelpers.Ahex2Byte` | Core/Src/helpers/ascii_helpers.C:109-124 | ahex2byte is 0 for len 0, cton of the only character for len 1, and 16·cton(buf[len-2]) + cton(buf[len-1]) otherwise |
| `AsciiHelpers.Ahex2ByteInvertsHexPair` | Core/Src/helpers/ascii_helpers.C:109-124 | ahex2byte of the two hex digits of a byte is that byte |
| `AsciiHelpers.Ahex2ByteReadsLastTwo` | Core/Src/helpers/ascii_helpers.C:115-121 | ahex2byte of a field of two or more characters depends only on its last two |
| `AsciiHelpers.Adec2Byte` | Core/Src/helpers/ascii_helpers.C:133-153 | adec2byte is the decimal value of at most the last three characters, each read by dcton, modulo 256 (0 for an empty field) |
| `AsciiHelpers.Adec2ByteOfDecTriple` | Core/Src/helpers/ascii_helpers.C:133-153 | adec2byte of the three digits of v < 1000 is v mod 256, so groups above 255 wrap instead of failing |
| `AsciiHelpers.Ahex2Uint16` | Core/Src/helpers/ascii_helpers.C:163-176 | the loop returns the sum of cton(buf[len-1-i])·16^i over the last min(len, 4) characters |
| `AsciiHelpers.Adec2Uint16` | Core/Src/helpers/ascii_helpers.C:185-201 | the loop returns the sum of dcton(buf[len-1-i])·10^i over the last min(len, 5) characters, modulo 2^16 |
| `AsciiHelpers.Ahex2Uint16InvertsHex4` | Core/Src/helpers/ascii_helpers.C:163-176 | ahex2uint16 of the four hex digits of a 16-bit value is that value |
| `AsciiHelpers.Adec2Uint16OfDec5` | Core/Src/helpers/ascii_helpers.C:185-201 | adec2uint16 of the five digits of v < 100000 is v mod 2^16 (65535 stays, 65536 becomes 0) |
| `AsciiHelpers.Ahex2Uint16ReadsLastFour` | Core/Src/helpers/ascii_helpers.C:170-173 | ahex2uint16 of a field of four or more characters depends only on its last four |
| `AsciiHelpers.ByteTableRows` | Core/Src/helpers/test_ascii_helpers.c:82-156 | the test rows ("FFZZ",3)→0xF0, ("199",3)→0x99, ("3s2",2)→0x30, ("2345",4)→89, ("2A5",3)→205, ("eee",3)→0 |
| `AsciiHelpers.HexWordTableRows` | Core/Src/helpers/test_ascii_helpers.c:193-235 | the test rows ("DEADBEEF",8)→0xBEEF, ("DE!D",4)→0xDE0D, ("@~!a",4)→0xA |
| `AsciiHelpers.DecWordTableRowsWrap` | Core/Src/helpers/test_ascii_helpers.c:289-290 | the test rows ("65535",5)→65535 and ("65536",5)→0 |
| `AsciiHelpers.DecWordTableRowsJunk` | Core/Src/helpers/test_ascii_helpers.c:297-302 | the test rows ("6`535",5)→60535 and ("DEAD",4)→0 |
| `NumHelpers.StrToNum` | Core/Src/helpers/num_helpers.c:74-144 | str_to_num skips blanks, takes one '-', accumulates digits in a uint64_t and classifies: the result is exactly the as-written classification, 64-bit wrap included |
| `NumHelpers.WrappedIsDecValMod` | Core/Src/helpers/num_helpers.c:88-92 | the uint64_t accumulator holds the digit string's value modulo 2^64 |
| `NumHelpers.AgreeBelow64Bits` | Core/Src/helpers/num_helpers.c:88-141 | the as-written and the corrected classification agree whenever the magnitude is below 2^64 |
| `NumHelpers.UnsignedGetsSmallestType` | Core/Src/helpers/num_helpers.c:97-114 | corrected (as written: `NumHelpers.ClassifyAsWritten`): an unsigned digit string gets the smallest of U8_VAL (≤255), U16_VAL (≤65535), U32_VAL (≤4294967295) holding its value; larger goes to stof |
| `NumHelpers.NegativeGetsSmallestType` | Core/Src/helpers/num_helpers.c:116-138 | corrected (as written: `NumHelpers.ClassifyAsWritten`): '-' and digits give S8_VAL up to magnitude 128, S16_VAL up to 32768, S32_VAL up to 2^31, holding the negated value; larger goes to stof |
| `NumHelpers.BlankAndLoneMinus` | Core/Src/helpers/num_helpers.c:79-103 | an empty or all-blank string is U8_VAL 0, and blanks then a lone '-' is S8_VAL 0 |
| `NumHelpers.LeadingBlankIgnored` | Core/Src/helpers/num_helpers.c:79-81 | a leading isspace character never changes the classification |
| `NumHelpers.TrailingJunkGoesToFloat` | Core/Src/helpers/num_helpers.c:95-141 | digits followed by any character that is neither a digit nor NUL are handed to stof |
| `NumHelpers.ClassifyDecimalString` | Core/Src/helpers/num_helpers.c:88-141 | on a digit string the as-written classification sees the value mod 2^64 and the corrected one the value itself |
| `NumHelpers.OverflowWrapsToSmallInteger` | Core/Src/helpers/num_helpers.c:88-103 | as written, a positive multiple of 2^64 ("18446744073709551616" the least) is classified U8_VAL 0; corrected, it goes to stof |
| `NumHelpers.TypeToStr` | Core/Src/helpers/num_helpers.c:151-193 | type_to_str answers "BAD ENUM!" exactly for a value outside the eight num_types values |
| `NumHelpers.TypeToStrInjective` | Core/Src/helpers/num_helpers.c:151-193 | different num_types values get different names |
| `StrCopy.Limit` | Core/Src/tftp/mystrcpy.c:45-48 | corrected (as written: `StrCopy.LimitAsWritten`): the copy limit is nbytes, cut back so that the window never reaches past maxsrcaddr, and when it is cut back it ends exactly at maxsrcaddr (the written computation is `StrCopy.LimitAsWritten`) |
| `StrCopy.LimitAsWrittenTwoShort` | Core/Src/tftp/mystrcpy.c:45-48 | whenever the window is cut back, the limit as written is two bytes shorter than the readable bytes from src to maxsrcaddr |
| `StrCopy.LimitAsWrittenWrapsOnLastByte` | Core/Src/tftp/mystrcpy.c:45-48 | with src == maxsrcaddr and nbytes ≥ 2 the limit as written wraps to UINT32_MAX, where one byte is readable |
| `StrCopy.PaddedAdvance` | Core/Src/tftp/mystrcpy.c:51-60 | mystrcpy never advances the source past its window |
| `StrCopy.PaddedCopyShape` | Core/Src/tftp/mystrcpy.c:51-66 | mystrcpy fills its whole destination window; the C string it leaves there is the C string of the window, and every byte after it is zero |
| `StrCopy.TerminatedCopyShape` | Core/Src/tftp/mystrcpy.c:104-113 | mystrcpynf writes a prefix of the window that ends with the window's first NUL, exactly when the window holds one, and holds the same C string |
| `StrCopy.CopyRoundTrip` | Core/Src/tftp/mystrcpy.c:29-116 | a NUL-free text followed by its NUL, as mystrcpynf leaves it, is read back by mystrcpy as the same text, with the source cursor just past the NUL |
| `StrCopy.MyStrCpy` | Core/Src/tftp/mystrcpy.c:29-68 | corrected limit (as written: `StrCopy.LimitAsWritten`): NULL pointers or maxsrcaddr before src give UINT32_MAX and change nothing; otherwise the window is copied up to its first NUL and zero-filled to its end, the result is the string's length, dst advances by the window and src just past the NUL |
| `StrCopy.CopyWindowPadded` | Core/Src/tftp/mystrcpy.c:51-66 | the two loops of mystrcpy leave the padded copy of the window at dst and return its C-string length and the advanced source cursor |
| `StrCopy.CopyUntilNul` | Core/Src/tftp/mystrcpy.c:51-61 | the first loop copies the window's bytes before the first NUL, touches nothing else, and steps the source past the NUL |
| `StrCopy.ZeroFill` | Core/Src/tftp/mystrcpy.c:62-66 | the second loop zeroes the rest of the window and touches nothing else |
| `StrCopy.MyStrCpyNf` | Core/Src/tftp/mystrcpy.c:83-116 | corrected limit (as written: `StrCopy.LimitAsWritten`): the same argument checks; otherwise the window is copied through its first NUL with no padding, and dst, src and the result all advance by the bytes written |
| `StrCopy.CopyThroughNul` | Core/Src/tftp/mystrcpy.c:104-114 | the loop of mystrcpynf copies the window through its first NUL (all of it when there is none) and returns the count |
| `StrCopy.LeBytes` | Core/Src/tftp/mystrcpy.c:125-131 | write_u16 stores two bytes |
| `StrCopy.U16RoundTrip` | Core/Src/tftp/mystrcpy.c:125-181 | read_u16 reads back what write_u16 wrote, read_u16_ntohs what write_u16_htons wrote, and the network order is the host order with the two bytes swapped |
| `StrCopy.U16BytesRoundTrip` | Core/Src/tftp/mystrcpy.c:125-181 | writing back a value read from two bytes gives the same two bytes, in either order: both encodings are bijections |
| `StrCopy.WriteU16` | Core/Src/tftp/mystrcpy.c:125-131 | stores the value low byte first at p, advances by 2 and leaves every other byte alone |
| `StrCopy.WriteU16Htons` | Core/Src/tftp/mystrcpy.c:141-147 | stores the value high byte first at p, advances by 2 and leaves every other byte alone |
| `StrCopy.ReadU16` | Core/Src/tftp/mystrcpy.c:157-165 | returns the value whose low-byte-first encoding is the two bytes at p, and advances by 2 |
| `StrCopy.ReadU16Ntohs` | Core/Src/tftp/mystrcpy.c:173-181 | returns the value whose network-order encoding is the two bytes at p, and advances by 2 |
| `TftpPacket.Min` | Core/Src/tftp/TFTP_ser_desesr.c:144-145 | the payload cut is the smaller of the two lengths |
| `TftpPacket.NameWindow` | Core/Src/tftp/TFTP_ser_desesr.c:48-49 | the file name is read from a window of at most TFTP_MAX_FILENAME_LEN bytes |
| `TftpPacket.ModeWindow` | Core/Src/tftp/TFTP_ser_desesr.c:54-55 | the mode is read from a window of at most TFTP_MAX_MODE_LEN bytes |
| `TftpPacket.MsgWindow` | Core/Src/tftp/TFTP_ser_desesr.c:79-80 | the error message is read from a window of at most TFTP_MAX_ERRMSG_LEN bytes |
| `TftpPacket.Parse` | Core/Src/tftp/TFTP_ser_desesr.c:24-94 | a packet shorter than an ACK is malformed; a request's strings and an error message never exceed their fields; a DATA payload is the packet less its 4-byte header |
| `TftpPacket.HeaderBytes` | Core/Src/tftp/TFTP_ser_desesr.c:37-78 | the two network-order words at the head of a packet read back as the opcode and the block number or error code |
| `TftpPacket.AckRoundTrip` | Core/Src/tftp/TFTP_ser_desesr.c:71-75 | an encoded ACK parses back as an ACK with its block number |
| `TftpPacket.DataRoundTrip` | Core/Src/tftp/TFTP_ser_desesr.c:63-70 | an encoded DATA packet parses back with its block number and its payload length |
| `TftpPacket.ErrorRoundTrip` | Core/Src/tftp/TFTP_ser_desesr.c:76-86 | an encoded ERR packet parses back with its code and the C string of its message field |
| `TftpPacket.RequestRoundTrip` | Core/Src/tftp/TFTP_ser_desesr.c:39-62 | an encoded RRQ or WRQ parses back with its opcode and the C strings of its name and mode fields |
| `TftpPacket.RequestNamePart` | Core/Src/tftp/TFTP_ser_desesr.c:48-52 | the name copy of a request reads the encoded name and leaves the cursor at the mode |
| `TftpPacket.NameWindowStartsWithName` | Core/Src/tftp/TFTP_ser_desesr.c:48-49 | the name window of a request starts with the encoded name field |
| `TftpPacket.RequestModePart` | Core/Src/tftp/TFTP_ser_desesr.c:54-58 | the mode copy of a request reads exactly the encoded mode field |
| `TftpPacket.NameWindowReadsName` | Core/Src/tftp/mystrcpy.c:51-66 | mystrcpy over a window that starts with a terminated or full-width name reads that name and advances past it |
| `TftpPacket.ModeCutByLimitAsWritten` | Core/Src/tftp/mystrcpy.c:45-48 | for the RRQ of file "f" in mode "octet" ending the packet, the limit as written is 4 and the copy reads "octe", while the corrected parse reads "octet" |
| `TftpPacket.FilledHoldsCStr` | Core/Src/tftp/TFTP_ser_desesr.c:49-52 | a field filled by a bounded copy and its NUL keeps its size, holds the C string of the window and is terminated |
| `TftpPacket.CopyField` | Core/Src/tftp/TFTP_ser_desesr.c:49-58 | one bounded copy into a context field succeeds exactly when the cursor lies within the packet; the field then holds the C string of the window and a NUL, the cursor moves past it; on failure the field is unchanged |
| `TftpPacket.FilledAfterCopy` | Core/Src/tftp/TFTP_ser_desesr.c:52 | the NUL stored after the padded copy completes the filled field |
| `TftpPacket.Deserialize` | Core/Src/tftp/TFTP_ser_desesr.c:24-94 | corrected copy limit (as written: `TftpPacket.ModeCutByLimitAsWritten`): succeeds exactly when the packet parses, and the context then describes the parsed packet; DATA points the payload into buf just past the header; state, file state and position never change; a too-short packet or unknown opcode changes nothing |
| `TftpPacket.DeserializeRequest` | Core/Src/tftp/TFTP_ser_desesr.c:39-62 | sets OpCode first, then succeeds exactly when the request parses, leaving the parsed name and mode |
| `TftpPacket.DeserializeBlock` | Core/Src/tftp/TFTP_ser_desesr.c:63-75 | DATA and ACK set the opcode and block number; DATA points at the payload with length buflen − 4; ACK leaves the payload alone |
| `TftpPacket.DeserializeError` | Core/Src/tftp/TFTP_ser_desesr.c:76-86 | sets OpCode and ErrCode, then succeeds exactly when the packet parses, leaving the parsed message |
| `TftpPacket.Serialize` | Core/Src/tftp/TFTP_ser_desesr.c:104-173 | returns UINT32_MAX and writes nothing exactly for an opcode outside RRQ..ERR; otherwise writes the context's packet at the start of buf and returns its length |
| `TftpPacket.PutField` | Core/Src/tftp/TFTP_ser_desesr.c:122-126 | one mystrcpynf of a context field writes the field through its first NUL at d and keeps the bytes before d |
| `TftpPacket.SerializeRequest` | Core/Src/tftp/TFTP_ser_desesr.c:113-139 | writes the opcode, the name and the mode each through its first NUL, at most 17 bytes |
| `TftpPacket.PutFields` | Core/Src/tftp/TFTP_ser_desesr.c:122-137 | writes the name then the mode, each through its first NUL, one after the other |
| `TftpPacket.SerializeAck` | Core/Src/tftp/TFTP_ser_desesr.c:149-153 | writes the 4-byte ACK with the block number and returns 4 |
| `TftpPacket.Assemble` | Core/Src/tftp/TFTP_ser_desesr.c:113-166 | three parts written one after the other form their concatenation |
| `TftpPacket.SerializeData` | Core/Src/tftp/TFTP_ser_desesr.c:140-148 | writes the DATA header and as much of the payload as fits in buflen, and returns a length within buflen |
| `TftpPacket.SerializeError` | Core/Src/tftp/TFTP_ser_desesr.c:154-166 | writes the ERR header with the code and the message through its first NUL |
| `TftpPacket.ContextRoundTrip` | Core/Src/tftp/TFTP_ser_desesr.c:24-173 | the packet serialized from a valid context parses back as the packet the context describes (a DATA payload when it fits) |
| `TftpServer.InitContext` | Core/Src/tftp/tftp_server.c:572-593 | every counter and code is zero, every string empty, no file is open, the machine is idle, and the context describes no packet |
| `TftpServer.UpperMode` | Core/Src/tftp/tftp_server.c:505-513 | upper-casing keeps the mode field's length |
| `TftpServer.UpcaseMode` | Core/Src/tftp/tftp_server.c:505-513 | the loop leaves the mode field as UpperMode of what it held: bit 5 cleared in at most TFTP_MAX_MODE_LEN bytes before the first NUL |
| `TftpServer.UpcaseToCapital` | Core/Src/tftp/tftp_server.c:511 | a byte upper-cases to a capital letter exactly when it is that letter or its lower-case form |
| `TftpServer.UpcaseToNul` | Core/Src/tftp/tftp_server.c:511 | a byte upper-cases to NUL exactly when it is NUL or a space |
| `TftpServer.ModeAccepted` | Core/Src/tftp/tftp_server.c:506-518 | the mode is accepted exactly when it spells "octet" in any mix of cases, ended by a NUL or a space |
| `TftpServer.AcceptedModeSpellsOctet` | Core/Src/tftp/tftp_server.c:506-518 | every mode the comparison with "OCTET" accepts spells octet |
| `TftpServer.OctetModeAccepted` | Core/Src/tftp/tftp_server.c:506-518 | every mode that spells octet is accepted |
| `TftpServer.OctetLettersUpcased` | Core/Src/tftp/tftp_server.c:510-513 | the first five bytes of a mode that spells octet upper-case to "OCTET" |
| `TftpServer.NoNameMatchesAsWritten` | Core/Src/tftp/tftp_server.c:521-523 | as written, strcmp against a name of at most 8 characters matches neither "settings.bin" nor "image.bin", so no file can be opened |
| `TftpServer.ServedNameField` | Core/Src/tftp/tftp_server.c:497-498 | the first 8 characters of each served name form a NUL-free field that matches that entry and no other |
| `TftpServer.RequestFindsEntry` | Core/Src/tftp/tftp_server.c:521-542 | corrected comparison (as written: `TftpServer.NameMatchesAsWritten`): a request for a served file parses to a name that matches that entry and no other |
| `TftpServer.OpenFile` | Core/Src/tftp/tftp_server.c:495-546 | corrected comparison (as written: `TftpServer.NoNameMatchesAsWritten`): an open file gives ACCESS_VIOLATION and changes nothing else; otherwise the mode is upper-cased; not OCTET gives ILLEGAL_OPERATION; an unknown name FILE_NOT_FOUND; a hit sets FilePos 0, the entry's size, and opens for reading on RRQ, for writing on WRQ, else ILLEGAL_OPERATION |
| `TftpServer.UpperModeKeepsNul` | Core/Src/tftp/tftp_server.c:510-513 | upper-casing never moves the mode's NUL later |
| `TftpServer.CString` | Core/Src/tftp/tftp_server.c:514 | the strcmp operand is the C string the array holds |
| `TftpServer.CloseFile` | Core/Src/tftp/tftp_server.c:554-564 | an open file is closed with FilePos 0 and NOERROR; closing a closed file gives ILLEGAL_OPERATION and changes nothing else |
| `TftpServer.SerializeAndSend` | Core/Src/tftp/tftp_server.c:417-436 | a known opcode with a successful send hands the context's packet to the socket and keeps the state; otherwise nothing is sent and the state is ERR_ABORT |
| `TftpServer.BlockLen` | Core/Src/tftp/tftp_server.c:641-691 | the block is min(TFTP_DATA_LEN_MAX, FileSize − FilePos); it never passes the end of the file, and a short block ends it |
| `TftpServer.BlockRead` | Core/Src/tftp/tftp_server.c:641-691 | a file not open for reading gives ILLEGAL_OPERATION and changes nothing; otherwise DataLen is the block length and the block lands after the header, FilePos advances by it and BlockNum by 1 modulo 2^16; a failed FRAM read gives ACCESS_VIOLATION and advances nothing; FilePos never passes FileSize |
| `TftpServer.FetchBlock` | Core/Src/tftp/tftp_server.c:664-686 | the read succeeds exactly when the block is readable (flash always, FRAM when the chip range and the I/O are good); the DATA header bytes stay and on success the block of the settings record or the flash image lies just past them |
| `TftpServer.DataBlocksCount` | Core/Src/tftp/tftp_server.c:139-175 | a read transfer sends one packet per full block plus one short, possibly empty, block |
| `TftpServer.DataBlocksHead` | Core/Src/tftp/tftp_server.c:139-175 | the first packet carries the next block number and the first block; a full block is followed by the rest of the transfer, a short one ends it |
| `TftpServer.DataBlocksParse` | Core/Src/tftp/tftp_server.c:139-175 | packet i parses as DATA block i + 1 after the start (modulo 2^16), full except the last, which carries what remains (section 6 of RFC 1350) |
| `TftpServer.NextBlockNumber` | Core/Src/tftp/tftp_server.c:143 | counting block numbers on from the next one agrees modulo 2^16 |
| `TftpServer.DataBlocksPayloads` | Core/Src/tftp/tftp_server.c:139-175 | the payloads of a whole read transfer, concatenated, are exactly the rest of the file |
| `TftpServer.SendFile` | Core/Src/tftp/tftp_server.c:139-175 | what is sent is always a prefix of the file's block sequence; when the loop ends on a short block the whole sequence was sent and FilePos is FileSize; when every packet goes out and is acknowledged (and FRAM reads succeed) the loop does end so |
| `TftpServer.PrefixStep` | Core/Src/tftp/tftp_server.c:144-175 | sending the next packet keeps the sent packets a prefix of the transfer |
| `TftpServer.StoppedUndelivered` | Core/Src/tftp/tftp_server.c:159-174 | a round that failed although its send and ACK went through whenever the reads did shows the transfer was not delivered with readable blocks |
| `TftpServer.SendBlock` | Core/Src/tftp/tftp_server.c:145-174 | one round succeeds exactly when the send, the ACK and the block read succeed; the packet sent is the first of the remaining blocks, and a full block leaves the rest of the sequence to send while a short one ends the file |
| `TftpServer.ErrorMessage` | Core/Src/tftp/tftp_server.c:445-487 | a message exists exactly for codes 1-7; each is 1-8 non-NUL characters |
| `TftpServer.ErrorMessagesDistinct` | Core/Src/tftp/tftp_server.c:445-487 | no two error codes share a message |
| `TftpServer.ProcessError` | Core/Src/tftp/tftp_server.c:445-487 | NOERROR or an unknown code copies and sends nothing; otherwise ErrMsg holds the code's message and a successful send emits a packet that parses back as that code and message, a failed one sets ERR_ABORT |
| `TftpServer.FullMessageUnterminated` | Core/Src/tftp/TFTP_ser_desesr.c:154-166 | an 8-character message fills the ERR packet with no terminating NUL |
| `TftpServer.ReplyAck` | Core/Src/tftp/tftp_server.c:312-319 | the context becomes an ACK of its block; a successful send emits the ACK that parses back as that block and leaves RECEIVING, a failed one ERR_ABORT |
| `TftpServer.Window` | Core/Src/tftp/tftp_server.c:239-241 | the socket read never leaves more than TFTP_BUFFER_SIZE bytes |
| `TftpServer.RxRuleCases` | Core/Src/tftp/tftp_server.c:248-279 | a DATA packet is accepted exactly when its block is last + 1, re-acknowledged exactly when it is last, and a timeout is re-acknowledged |
| `TftpServer.NothingAfterLastBlock` | Core/Src/tftp/tftp_server.c:252 | after block 65535 no packet is accepted, since the comparison is with 65536 |
| `TftpServer.RxStop` | Core/Src/tftp/tftp_server.c:232-283 | the loop stops at an attempt that is not re-acknowledged, or after TFTP_MAX_RETRIES attempts |
| `TftpServer.RxStopSkipsReAcks` | Core/Src/tftp/tftp_server.c:232-283 | every attempt before the one the loop stops at was re-acknowledged, so the stop is the first attempt that is not |
| `TftpServer.ReAcks` | Core/Src/tftp/tftp_server.c:266-278 | the re-acknowledgements are ACKs of the last block, at most one per attempt |
| `TftpServer.ReAcksSnoc` | Core/Src/tftp/tftp_server.c:266-278 | each attempt's ACK follows those of the attempts before it |
| `TftpServer.ReplyAckOnCopy` | Core/Src/tftp/tftp_server.c:254-262 | the reply on the copy sends the ACK of the block and copies back the state, while the context keeps its opcode |
| `TftpServer.RxAndDeser` | Core/Src/tftp/tftp_server.c:217-284 | after TFTP_MAX_RETRIES re-acknowledged attempts the block is unchanged; the next block is taken into the context and acknowledged; anything else ends in RECEIVING_ERROR; the ACKs sent are the re-ACKs so far plus that of an accepted block |
| `TftpServer.Retries` | Core/Src/tftp/tftp_server.c:232-283 | the retry loop runs to the attempt RxStop finds, the ACKs sent being the re-ACKs before it; after TFTP_MAX_RETRIES re-acknowledged attempts the block number is unchanged, otherwise the last attempt decides as RxRule with the effect an accept or reject has |
| `TftpServer.RxStopFirst` | Core/Src/tftp/tftp_server.c:232-283 | the stop RxStop finds is the first attempt from lo on that is not re-acknowledged |
| `TftpServer.Attempt` | Core/Src/tftp/tftp_server.c:233-282 | one attempt decides as RxRule; accepting takes the packet into the context with the next block number and acknowledges it, re-ACK repeats the last ACK, a reject sends nothing and sets RECEIVING_ERROR |
| `TftpServer.Receive` | Core/Src/tftp/tftp_server.c:234-250 | the datagram is deserialized; a DATA packet is taken into the context with its block number; a timeout sets RECEIVING_ERROR and keeps the block |
| `Json.SkipWs` | Core/Src/json/json.c:47-52 | skip_spaces stops at the first byte from i on that is not space, tab, LF or CR, never past the end |
| `Json.SkipWsSkipsWs` | Core/Src/json/json.c:43-52 | every byte skip_spaces passes over is whitespace |
| `Json.EnumText` | Core/Src/json/json.c:59-95 | the literal patterns are 4 or 5 characters without a NUL |
| `Json.StartsWithAt` | Core/Src/json/json.c:59-95 | text that starts with a pattern holds each of its characters in turn |
| `Json.DecodeEnumExact` | Core/Src/json/json.c:59-95 | decode_enum gives true, false or null and moves past it exactly when the text starts with that literal, and jpad exactly when it starts with none |
| `Json.UnicodeEscapeRejectedAsWritten` | Core/Src/json/json.c:340-371 | as written, a \u escape is always rejected, since the four characters tested as hex start at the 'u' itself |
| `Json.EscLen` | Core/Src/json/json.c:340-371 | corrected (as written: `Json.EscLenAsWritten`): the escape is rejected (0), a single escape (1), or a \u escape with its four hex digits inside the string (4) |
| `Json.EscapeSet` | Core/Src/json/json.c:340-371 | the escapes accepted are exactly " \ / b f n r t (length 1) and \u with four hex digits (length 4), as in section 7 of RFC 8259; every other escape gives 0 |
| `Json.ScanFrom` | Core/Src/json/json.c:389-426 | the scan stops, when it succeeds, at a quotation mark within the string |
| `Json.JStrLen` | Core/Src/json/json.c:378-427 | a non-zero result is the index of a quotation mark inside the remainder, so the string is non-empty and closed |
| `Json.ScanPlain` | Core/Src/json/json.c:389-426 | a run of characters that need no escape, ended by a quotation mark, is measured up to that mark |
| `Json.OpenName` | Core/Src/json/json.c:536-551 | the name starts inside the input, after at least '{' and '"' |
| `Json.NameColon` | Core/Src/json/json.c:553-589 | the cursor after the colon lies within the input |
| `Json.ParseHead` | Core/Src/json/json.c:536-589 | the cursor at the value lies within the input |
| `Json.PairStep` | Core/Src/json/json.c:105-259 | pair_out fails only with one of its own error codes |
| `Json.PairStepOutcome` | Core/Src/json/json.c:105-259 | pair_out succeeds only on a well-formed pair; counting the closing quotation mark it uses exactly the pair's text and leaves two bytes; JSON_ERR_MISC means a value type other than string or literal, JSON_ERR_BADENUM the jpad literal, JSON_ERR_NULLPTR a missing name or string |
| `Json.ChainSucceeded` | Core/Src/json/json.c:310-318 | a chain that returns 0 was written whole, with two bytes to spare |
| `Json.Chain` | Core/Src/json/json.c:310-318 | the chain loop fails only with a pair_out error code |
| `Json.ChainFits` | Core/Src/json/json.c:310-318 | an accepted chain is well formed and uses exactly the room its text takes, leaving two bytes |
| `Json.ChainSucceeds` | Core/Src/json/json.c:310-318 | every well-formed chain is written when the room holds its text and two more bytes |
| `Json.SerializeFits` | Core/Src/json/json.c:269-331 | with the closing quotation mark counted, serialize_json succeeds exactly when the chain is non-empty, every pair well formed and the buffer holds the text, its NUL and three more bytes |
| `Json.PairsAtLeast` | Core/Src/json/json.c:296-320 | the text of any chain is at least five bytes |
| `Json.SerializeOverflowAsWritten` | Core/Src/json/json.c:164-200 | as written, {"ab":"c"} is accepted into a 10-byte buffer although its text and NUL take 11 bytes |
| `Json.Emit` | Core/Src/json/json.c:105-320 | the byte loops append t to the text already written and touch nothing outside the room |
| `Json.ValueOut` | Core/Src/json/json.c:164-237 | corrected (as written: `Json.SerializeOverflowAsWritten`): the value part returns the code of ValueStep and on success appends the quoted string or the literal |
| `Json.PairOut` | Core/Src/json/json.c:105-259 | corrected (as written: `Json.SerializeOverflowAsWritten`): returns the code of PairStep and on success writes exactly the pair's text and reports the room left; nothing outside the room changes |
| `Json.ChainAdvance` | Core/Src/json/json.c:310-318 | one pass of the loop either fails with the outcome of the whole chain or writes the pair and moves on |
| `Json.ChainOut` | Core/Src/json/json.c:310-318 | the loop returns the chain's code and on success has written the text of all pairs |
| `Json.PairInChain` | Core/Src/json/json.c:310-318 | a failing pass returns the whole chain's code; a successful one appends the pair's text |
| `Json.Appended` | Core/Src/json/json.c:310-318 | text written after a kept prefix extends the old text |
| `Json.SerializeJson` | Core/Src/json/json.c:269-331 | corrected (as written: `Json.SerializeOverflowAsWritten`): returns the code of SerializeResult (NULLPTR for no chain, NOROOM for no buffer or bufsize < 10); a 0 result means the buffer holds the rendered text and its NUL with three bytes to spare; the last two bytes are never written |
| `Json.NulAfterText` | Core/Src/json/json.c:319-320 | the NUL after the text ends it and leaves the rest alone |
| `Json.SkipSpaces` | Core/Src/json/json.c:47-52 | the loop leaves the cursor where SkipWs says |
| `Json.DecodeEnum` | Core/Src/json/json.c:59-95 | the loop gives the literal DecodeEnumSpec finds and, on a match, the cursor just past it |
| `Json.CheckEsc` | Core/Src/json/json.c:340-371 | corrected (as written: `Json.UnicodeEscapeRejectedAsWritten`): the result is EscLen |
| `Json.GetJStrLen` | Core/Src/json/json.c:378-427 | the loop returns JStrLen of the remainder |
| `Json.CopyString` | Core/Src/json/json.c:615-616 | the copy and its NUL leave the string in the buffer |
| `Json.DeserializeValue` | Core/Src/json/json.c:591-647 | returns 0 exactly when the value parses, the value's error code otherwise, and leaves the string or the literal in the destination |
| `Json.DeserializeHead` | Core/Src/json/json.c:536-589 | returns 0 exactly when the head parses, its error code otherwise, and leaves the name in the destination |
| `Json.SeekName` | Core/Src/json/json.c:536-551 | finds the name's first character exactly when OpenName does |
| `Json.NameToValue` | Core/Src/json/json.c:553-589 | returns 0 exactly when the name and colon parse, with the name copied |
| `Json.DeserializePair` | Core/Src/json/json.c:536-647 | returns 0 exactly when the pair parses, its error code otherwise, with the name and value stored |
| `Json.DeserializeJson` | Core/Src/json/json.c:526-647 | returns the code of ParseJson (a payload_size other than strlen fails first); on success the destination holds the name, the value type and the string or literal |
| `Json.SinglePairCStr` | Core/Src/json/json.c:269-331 | the text of a plain single pair holds no NUL, so it is read back whole |
| `Json.OpenNameAt` | Core/Src/json/json.c:536-551 | text that opens with {" has its name at index 2 |
| `Json.NameColonAt` | Core/Src/json/json.c:553-589 | a plain quoted name and a colon are read as they are |
| `Json.StringValueAt` | Core/Src/json/json.c:591-647 | a plain quoted string followed by } is read as that string |
| `Json.LiteralValueAt` | Core/Src/json/json.c:591-647 | a literal followed by } is read as that literal |
| `Json.ParsesStringPair` | Core/Src/json/json.c:526-647 | {"name":"value"} parses as that pair |
| `Json.ParsesLiteralPair` | Core/Src/json/json.c:526-647 | {"name":literal} parses as that pair |
| `Json.RoundTripString` | Core/Src/json/json.c:269-647 | serialize then deserialize of one plain string pair gives back its name and value, unless a measured remainder is exactly MAXJSONSTRING long |
| `Json.RoundTripEnum` | Core/Src/json/json.c:269-647 | serialize then deserialize of one literal pair gives back its name and literal, under the same length condition |
| `TinyFsLayout.FResultString` | Core/Src/tiny-fs/tiny-fs.c:1076-1166 | each code 0-19 gets a name starting with "FR_", and "<bad enum>" is returned exactly for values outside the enumeration |
| `TinyFsLayout.FResultStringInjective` | Core/Src/tiny-fs/tiny-fs.c:1076-1166 | different codes get different names |
| `TinyFsLayout.NumClusters` | Core/Src/tiny-fs/tiny-fs.c:121-126 | the cluster count is a multiple of 8; on media that hold the directory, the clusters fit after it and fewer than 8 more would not |
| `TinyFsLayout.ClusterFileSize` | Core/Src/tiny-fs/tiny-fs.c:133-141 | the size is rounded up to the next multiple of FS_CLUSTER_SIZE |
| `TinyFsLayout.ClusterTableSize` | Core/Src/tiny-fs/tiny-fs.c:148-153 | the table has exactly one bit per cluster |
| `TinyFsLayout.DirEntryOffset` | Core/Src/tiny-fs/tiny-fs.c:572-577 | every directory entry lies between the header and the cluster table |
| `TinyFsLayout.EntriesDisjoint` | Core/Src/tiny-fs/tiny-fs.c:572-577 | directory entries occupy disjoint byte ranges |
| `TinyFsLayout.Cluster2Addr` | Core/Src/tiny-fs/tiny-fs.c:874-877 | a cluster's address is a multiple of FS_CLUSTER_SIZE |
| `TinyFsLayout.Le32RoundTrip` | Core/Inc/tiny-fs/tiny-fs.h:168-174 | a 32-bit field stored little-endian reads back as the value |
| `TinyFsLayout.Le32BytesRoundTrip` | Core/Inc/tiny-fs/tiny-fs.h:168-174 | four bytes read as a 32-bit field and stored back give the same bytes |
| `TinyFsLayout.EncodeEntry` | Core/Inc/tiny-fs/tiny-fs.h:168-174 | a stored DIR_Entry_t takes 19 bytes |
| `TinyFsLayout.DecodeEntry` | Core/Inc/tiny-fs/tiny-fs.h:168-174 | an entry read from media has an 8-byte name field |
| `TinyFsLayout.EntryRoundTrip` | Core/Inc/tiny-fs/tiny-fs.h:168-174 | reading back a stored entry gives the entry |
| `TinyFsLayout.EntryBytesRoundTrip` | Core/Inc/tiny-fs/tiny-fs.h:168-174 | storing back an entry read from media gives the same bytes |
| `TinyFsLayout.CutName` | Core/Src/tiny-fs/tiny-fs.c:391-392 | the name field holds the first 7 characters of the name (all of a shorter one) and always ends in NUL |
| `TinyFsClusters.MaskFacts` | Core/Src/tiny-fs/tiny-fs.c:909 | 0x01U << j is the one-bit mask of bit j |
| `TinyFsClusters.FlipBit` | Core/Src/tiny-fs/tiny-fs.c:909-910 | XOR with the mask of bit i flips bit i and no other |
| `TinyFsClusters.LowBitOfShr` | Core/Src/tiny-fs/tiny-fs.c:837-855 | after j shifts the scan's low bit is bit j of the original byte, so bits are scanned LSB first |
| `TinyFsClusters.MaskIsShift` | Core/Src/tiny-fs/tiny-fs.c:909 | the mask built one shift at a time is 1 << j |
| `TinyFsClusters.Clusters` | Core/Src/tiny-fs/tiny-fs.c:836-857 | the cluster map has one busy flag per bit, cluster 8i + j being bit j of byte i |
| `TinyFsClusters.ReqClusters` | Core/Src/tiny-fs/tiny-fs.c:820-826 | the cluster count is the fewest clusters that hold the size, 0 bytes counting as 1 |
| `TinyFsClusters.FlipAt` | Core/Src/tiny-fs/tiny-fs.c:910 | flipping a bit keeps the table's size |
| `TinyFsClusters.Toggle` | Core/Src/tiny-fs/tiny-fs.c:907-916 | toggling keeps the table's size |
| `TinyFsClusters.FlipAtBits` | Core/Src/tiny-fs/tiny-fs.c:910 | flipping cluster p changes cluster p alone |
| `TinyFsClusters.ToggleBits` | Core/Src/tiny-fs/tiny-fs.c:897-920 | toggleClusters flips exactly the bits of clusters s .. s+n-1 and no others |
| `TinyFsClusters.TogglePrefix` | Core/Src/tiny-fs/tiny-fs.c:897-920 | toggling within the first part of a buffer leaves the rest as it is |
| `TinyFsClusters.BitsExt` | Core/Src/tiny-fs/tiny-fs.c:836-857 | two tables with the same busy clusters are equal |
| `TinyFsClusters.ToggleTwice` | Core/Src/tiny-fs/tiny-fs.c:897-920 | toggling the same run twice gives the table back |
| `TinyFsClusters.ToggledNone` | Core/Src/tiny-fs/tiny-fs.c:907 | toggling no clusters changes nothing |
| `TinyFsClusters.ToggledAppend` | Core/Src/tiny-fs/tiny-fs.c:907-916 | flipping a clusters and then the b after them flips the a + b clusters |
| `TinyFsClusters.ToggledIsToggle` | Core/Src/tiny-fs/tiny-fs.c:897-920 | a table whose flips are exactly those of the run is the toggled table |
| `TinyFsClusters.ToggleFreeRunMakesBusy` | Core/Src/tiny-fs/tiny-fs.c:859-865 | toggling a free run marks every cluster of it busy |
| `TinyFsClusters.ScanStart` | Core/Src/tiny-fs/tiny-fs.c:834 | the scan starts with no run and no run found |
| `TinyFsClusters.ScanBusy` | Core/Src/tiny-fs/tiny-fs.c:850-854 | a busy cluster starts the run over |
| `TinyFsClusters.ScanFree` | Core/Src/tiny-fs/tiny-fs.c:839-844 | a free cluster extends the run and the first one of a run records where it starts |
| `TinyFsClusters.ScanFound` | Core/Src/tiny-fs/tiny-fs.c:845-849 | the cluster that completes a run of n completes the first free run of n |
| `TinyFsClusters.NoRoom` | Core/Src/tiny-fs/tiny-fs.c:828-830 | a request for more clusters than the table has fits nowhere |
| `TinyFsClusters.ScanEnd` | Core/Src/tiny-fs/tiny-fs.c:836-857 | a scan through the whole map without a completed run means no free run exists |
| `TinyFsClusters.ScanBit` | Core/Src/tiny-fs/tiny-fs.c:839-854 | one bit of the scan either completes the first fitting run or keeps the scan's invariant |
| `TinyFsClusters.ScanByte` | Core/Src/tiny-fs/tiny-fs.c:837-856 | the inner loop over a byte's eight bits either finds the first fitting run or keeps the invariant past the byte |
| `TinyFsClusters.ByteClusters` | Core/Src/tiny-fs/tiny-fs.c:836-857 | cluster 8i + j of the map is bit j of byte i |
| `TinyFsClusters.FindRun` | Core/Src/tiny-fs/tiny-fs.c:834-857 | the scan returns the start of the first free run of n clusters, or reports that none exists |
| `TinyFsClusters.ToggleClusters` | Core/Src/tiny-fs/tiny-fs.c:897-920 | the table afterwards is the old table with the n bits from (byte, bit) flipped |
| `TinyFsClusters.ToggleInByte` | Core/Src/tiny-fs/tiny-fs.c:908-913 | the inner loop flips the bits from bit on to the end of the byte or until none are left, and returns how many |
| `TinyFsClusters.FlipCluster` | Core/Src/tiny-fs/tiny-fs.c:909-910 | one XOR toggles exactly one cluster |
| `TinyFsClusters.FlipInByte` | Core/Src/tiny-fs/tiny-fs.c:909-910 | flipping bit j of byte k toggles cluster 8k + j alone |
| `TinyFsClusters.AllocateClusters` | Core/Src/tiny-fs/tiny-fs.c:806-867 | UINT32_MAX, with the table unchanged, exactly when no free run of the needed clusters exists; otherwise the first such run, scanning bytes in order and bits LSB first, is marked busy and its cluster offset returned |
| `TinyFsClusters.ReleaseRange` | Core/Src/tiny-fs/tiny-fs.c:669-700 | corrected (as written: `TinyFsClusters.ReleaseRangeAsWritten`): the run released has the clusters the size needs (one for size 0), lies within the table, and starts at the cluster the address falls in |
| `TinyFsClusters.ZeroSizeLeaksAsWritten` | Core/Src/tiny-fs/tiny-fs.c:681-697 | as written, freeing a size-0 file releases nothing, so the cluster allocated for it stays busy |
| `TinyFsClusters.UncheckedRangeAsWritten` | Core/Src/tiny-fs/tiny-fs.c:687-696 | as written, an entry 512 clusters into the area makes freeClusters flip a bit of byte 64, past the 64-byte DTA, where the corrected range refuses it |
| `TinyFsClusters.FreeClusters` | Core/Src/tiny-fs/tiny-fs.c:669-700 | corrected (as written: `TinyFsClusters.ReleaseRangeAsWritten`): SUCCESS exactly when the range is valid, and then exactly its bits are flipped; ERROR changes nothing |
| `TinyFsClusters.ReleaseAfterAllocate` | Core/Src/tiny-fs/tiny-fs.c:669-867 | freeing what allocateClusters handed out, at the address NewFile stores, gives the table back, for every size |
| `TinyFsClusters.ReleaseAgreesAboveZero` | Core/Src/tiny-fs/tiny-fs.c:681-697 | for sizes above 0 within the table the code as written and the corrected release agree |
| `TinyFsImage.Media0Geometry` | Core/Src/tiny-fs/tiny-fs.c:121-153 | the 8 KiB FRAM has 432 clusters, a 54-byte cluster table that fits the DTA, a four-cluster "$$FAT$$" file, and the table ends inside the media |
| `TinyFsImage.EntryBytes` | Core/Src/tiny-fs/tiny-fs.c:572-577 | a directory entry spans 19 bytes of the media |
| `TinyFsImage.EntryOf` | Core/Src/tiny-fs/tiny-fs.c:572-577 | a decoded entry has fields of the sizes DIR_Entry_t holds |
| `TinyFsImage.FieldsOfEntry` | Core/Src/tiny-fs/tiny-fs.c:708-749 | the name and status the directory searches read are those of the decoded entry |
| `TinyFsImage.Written` | Core/Src/tiny-fs/tiny-fs.c:962-963 | a write replaces exactly the bytes it covers and keeps the media's size |
| `TinyFsImage.PartlyWrittenOutside` | Core/Src/nvmem/nvmem.c:102-192 | a Write_FRAM that returned ERROR keeps the media's size and changes no byte outside the range it was given |
| `TinyFsImage.WrittenKeepsEntry` | Core/Src/tiny-fs/tiny-fs.c:962-963 | a write that misses entry j leaves entry j unchanged |
| `TinyFsImage.PutEntry` | Core/Src/tiny-fs/tiny-fs.c:961-965 | storing an entry keeps a well-formed media |
| `TinyFsImage.PutEntryEntries` | Core/Src/tiny-fs/tiny-fs.c:961-965 | the stored entry reads back and every other entry is unchanged |
| `TinyFsImage.DirCrcOfEntries` | Core/Src/tiny-fs/tiny-fs.c:991-998 | the directory CRC depends on the directory entries alone |
| `TinyFsImage.WithDirCrc` | Core/Src/tiny-fs/tiny-fs.c:1003-1011 | setting DIR_CRC32 makes the header hold exactly that CRC |
| `TinyFsImage.WithDirCrcEntries` | Core/Src/tiny-fs/tiny-fs.c:1003-1011 | rewriting the header leaves the directory, and so its CRC, unchanged |
| `TinyFsImage.StoreEntry` | Core/Src/tiny-fs/tiny-fs.c:953-974 | SaveDirEntry's store and CRC renewal leave a well-formed media |
| `TinyFsImage.StoreEntryFacts` | Core/Src/tiny-fs/tiny-fs.c:953-1017 | after SaveDirEntry the stored entry reads back, the others are unchanged, and f_checkFS accepts the media whenever entry 0 is still the "$$FAT$$" file |
| `TinyFsImage.FatEntry` | Core/Src/tiny-fs/tiny-fs.c:171-305 | Format's entry 0 is named "$$FAT$$" and has the FStateFAT status |
| `TinyFsImage.ToggleFirstFour` | Core/Src/tiny-fs/tiny-fs.c:171-305 | marking the four "$$FAT$$" clusters in a cleared table sets the low four bits of byte 0 |
| `TinyFsImage.FreedUpTo` | Core/Src/tiny-fs/tiny-fs.c:171-305 | Format's loop over the directory keeps a well-formed media |
| `TinyFsImage.FreedUpToEntries` | Core/Src/tiny-fs/tiny-fs.c:171-305 | after k steps of the loop entries 0 .. k-1 are free slots and the rest are unchanged |
| `TinyFsImage.FormatWrites` | Core/Src/tiny-fs/tiny-fs.c:171-305 | Format's writes keep a well-formed media |
| `TinyFsImage.FormatImage` | Core/Src/tiny-fs/tiny-fs.c:171-310 | a formatted media is well-formed |
| `TinyFsImage.CrcFieldWrite` | Core/Src/tiny-fs/tiny-fs.c:171-305 | writing the FileCRC32 field of entry 0 stores that CRC in the entry and changes nothing else in it |
| `TinyFsImage.FormatImageEntries` | Core/Src/tiny-fs/tiny-fs.c:171-310 | after Format, entry 0 is "$$FAT$$" with the CRC of the initial table and every other entry is a free slot |
| `TinyFsImage.FormatWritesArea` | Core/Src/tiny-fs/tiny-fs.c:171-305 | Format writes the initial cluster table and leaves the data area past it unchanged |
| `TinyFsImage.FreedUpToArea` | Core/Src/tiny-fs/tiny-fs.c:171-305 | freeing directory entries never touches the cluster area |
| `TinyFsImage.FormatImageChecks` | Core/Src/tiny-fs/tiny-fs.c:171-1511 | a freshly formatted media holds the initial cluster table, keeps its data area, and passes f_checkFS |
| `TinyFsImage.Matches` | Core/Src/tiny-fs/tiny-fs.c:708-749 | flag j is set exactly when entry j's name equals the name as a C string |
| `TinyFsImage.FirstTrueIsFirst` | Core/Src/tiny-fs/tiny-fs.c:708-749 | the scan yields the first set flag from i on, or 0 when there is none |
| `TinyFsImage.FirstNamed` | Core/Src/tiny-fs/tiny-fs.c:708-749 | findEntry's result is a directory index |
| `TinyFsImage.FirstNamedIsFirst` | Core/Src/tiny-fs/tiny-fs.c:708-749 | findEntry returns the first entry of that name from i on, or 0 when no entry has it |
| `TinyFsImage.FirstFree` | Core/Src/tiny-fs/tiny-fs.c:927-944 | FindFreeSlot's result is UINT32_MAX or an entry from i on |
| `TinyFsImage.FirstFreeIsFirst` | Core/Src/tiny-fs/tiny-fs.c:927-944 | FindFreeSlot returns the first free entry from i on, or UINT32_MAX when every entry is in use |
| `TinyFsFiles.Int32` | Core/Src/tiny-fs/tiny-fs.c:1278 | the cast to int32_t keeps values below 2^31 and always lands in the signed 32-bit range |
| `TinyFsFiles.ReadCount` | Core/Src/tiny-fs/tiny-fs.c:1277-1281 | corrected (as written: `TinyFsFiles.ReadCountAsWritten`): f_read reads at most what was asked for and never past the end of the file, and stops short only at the end |
| `TinyFsFiles.ReadCountAgrees` | Core/Src/tiny-fs/tiny-fs.c:1277-1281 | below 2^31 the count as written equals the corrected count |
| `TinyFsFiles.ReadCastAsWritten` | Core/Src/tiny-fs/tiny-fs.c:1281 | as written, a request of 2^31 bytes from a 100-byte file asks the media for 2^31 bytes, where 100 are meant |
| `TinyFsFiles.ClusterEnd` | Core/Src/tiny-fs/tiny-fs.c:1205-1214 | a file's clusters end at the first cluster boundary at or above its size, at least one cluster in |
| `TinyFsFiles.WriteRoomAsWritten` | Core/Src/tiny-fs/tiny-fs.c:1205-1214 | the room f_write computes is the distance from the pointer to the end of the file's clusters while the pointer is below 2^31, and 2^32 more than that from 2^31 on, where the int32_t cast turns it negative |
| `TinyFsFiles.WriteCount` | Core/Src/tiny-fs/tiny-fs.c:1202-1218 | corrected (as written: `TinyFsFiles.WriteCountAsWritten`): f_write writes at most what was asked for and never past the end of the file's clusters, and stops short only there |
| `TinyFsFiles.WriteCountAgrees` | Core/Src/tiny-fs/tiny-fs.c:1202-1218 | below 2^31, with the pointer inside the file, the count as written equals the corrected count |
| `TinyFsFiles.WriteCastAsWritten` | Core/Src/tiny-fs/tiny-fs.c:1218 | as written, a request of 2^31 bytes into an empty file asks the media for 2^31 bytes, where one cluster is meant |
| `TinyFsFiles.WriteKeepsClusters` | Core/Src/tiny-fs/tiny-fs.c:1225-1228 | the size after a write covers the new pointer, stays within the file's clusters, and needs the same number of clusters |
| `TinyFsFiles.SeekTo` | Core/Src/tiny-fs/tiny-fs.c:1339-1361 | reading: the pointer is clamped to the size; writing: only offsets below the size are accepted; any other state is refused |
| `TinyFsFiles.SeekIdempotent` | Core/Src/tiny-fs/tiny-fs.c:1329-1366 | seeking again to where a seek landed lands in the same place |
| `TinyFsDriver.ToBytes` | Core/Src/tiny-fs/tiny-fs.c:426-427 | the DTA's bits handed to the media byte for byte |
| `TinyFsDriver.FromBytes` | Core/Src/tiny-fs/tiny-fs.c:380-384 | media bytes taken into the DTA byte for byte |
| `TinyFsDriver.BytesBack` | Core/Src/tiny-fs/tiny-fs.c:380-427 | a table written out and read back is the same table |
| `TinyFsDriver.LoadedDta` | Core/Src/tiny-fs/tiny-fs.c:370-385 | reading the cluster table into the DTA keeps the DTA's size |
| `TinyFsDriver.TableOf` | Core/Src/tiny-fs/tiny-fs.c:148-153 | the cluster table on the media is TABLE_SIZE bytes |
| `TinyFsDriver.TinyFs.InitFS` | Core/Src/tiny-fs/tiny-fs.c:158-164 | every handle slot is free and the DTA is cleared |
| `TinyFsDriver.TinyFs.ClearDta` | Core/Src/tiny-fs/tiny-fs.c:259 | the first n bytes of the DTA become 0 and the rest stay |
| `TinyFsDriver.TinyFs.Read` | Core/Src/nvmem/nvmem.c:41-90 | a read that succeeds returns exactly the bytes at the address, and one outside the chip fails |
| `TinyFsDriver.TinyFs.Write` | Core/Src/nvmem/nvmem.c:102-192 | a write that succeeds stores exactly its bytes; a failed write leaves some prefix of its bytes written (possibly none, possibly all) and every other byte as it was; one outside the chip fails and changes nothing |
| `TinyFsDriver.TinyFs.ReadToDta` | Core/Src/tiny-fs/tiny-fs.c:380-384 | a read into the DTA replaces its first len bytes with the media's and keeps the rest |
| `TinyFsDriver.TinyFs.FindEntry` | Core/Src/tiny-fs/tiny-fs.c:708-749 | findEntry returns the first entry of that name (0 for none), or UINT32_MAX on a failed read |
| `TinyFsDriver.TinyFs.FindFreeSlot` | Core/Src/tiny-fs/tiny-fs.c:927-944 | FindFreeSlot returns the first free entry from 1 on, or UINT32_MAX |
| `TinyFsDriver.TinyFs.RenewDirCrc` | Core/Src/tiny-fs/tiny-fs.c:981-1015 | a CRC other than UINT32_MAX is the directory's CRC chain and is now in the header; whatever happens, no byte outside the header's DIR_CRC32 field changes |
| `TinyFsDriver.TinyFs.SaveDirEntry` | Core/Src/tiny-fs/tiny-fs.c:953-974 | indices from DIR_ENTRIES - 1 on are refused with nothing written; success stores the entry and renews the directory CRC |
| `TinyFsDriver.TinyFs.Format` | Core/Src/tiny-fs/tiny-fs.c:171-321 | without media ERROR and nothing written; SUCCESS leaves exactly the formatted image |
| `TinyFsDriver.TinyFs.FreeDirectory` | Core/Src/tiny-fs/tiny-fs.c:191-213 | success leaves every directory entry a free slot |
| `TinyFsDriver.TinyFs.WriteInitialTable` | Core/Src/tiny-fs/tiny-fs.c:245-292 | success writes the initial table and its CRC into entry 0, and the header's dummy bytes in the DTA are zero |
| `TinyFsDriver.TinyFs.NewFile` | Core/Src/tiny-fs/tiny-fs.c:344-495 | corrected slot release (as written: `TinyFsDriver.ExitStoreAsWritten`): FR_INVALID_PARAMETER exactly for a handle without media, no name or another mode; FR_TOO_MANY_OPEN_FILES exactly when every slot is taken; FR_LOCKED when the first file of that name is not closed; FR_OK takes the first free slot and opens the existing file or creates one in the first free entry on the first free run of clusters |
| `TinyFsDriver.TinyFs.ExitSlot` | Core/Src/tiny-fs/tiny-fs.c:487-492 | corrected (as written: `TinyFsDriver.ExitStoreAsWritten`): an opened file keeps its slot, a failed open gives exactly that slot back |
| `TinyFsDriver.TinyFs.TakeSlot` | Core/Src/tiny-fs/tiny-fs.c:356-369 | takes the first free slot, or reports that every slot is taken with nothing changed |
| `TinyFsDriver.TinyFs.OpenInSlot` | Core/Src/tiny-fs/tiny-fs.c:370-486 | once a slot is held: FR_OK opens or creates the file, FR_LOCKED names an entry that is not closed and writes nothing |
| `TinyFsDriver.TinyFs.LoadTable` | Core/Src/tiny-fs/tiny-fs.c:370-385 | success reads entry 0's FileSize bytes from its address into the DTA |
| `TinyFsDriver.TinyFs.CreateEntry` | Core/Src/tiny-fs/tiny-fs.c:404-444 | a new file gets the first free entry from 1, the first free run for its size, zero CRC and pointer and the opened state, and the table is written back with that run busy |
| `TinyFsDriver.TinyFs.AllocateRun` | Core/Src/tiny-fs/tiny-fs.c:411-436 | the address returned is that of the first free run for the size, and the table on the media has the run busy |
| `TinyFsDriver.TinyFs.OpenExisting` | Core/Src/tiny-fs/tiny-fs.c:453-479 | FR_LOCKED exactly for an entry that is not closed; FR_OK opens it in the mode at position 0 |
| `TinyFsDriver.TinyFs.CloseFile` | Core/Src/tiny-fs/tiny-fs.c:514-565 | isFileValid's code for an invalid handle; FR_NO_FILE when no entry has the name; FR_LOCKED unless the handle is open; FR_DENIED when the media disagrees; FR_OK stores the entry closed, empties the handle and gives its slot back |
| `TinyFsDriver.TinyFs.CloseEntry` | Core/Src/tiny-fs/tiny-fs.c:531-561 | FR_LOCKED exactly when the handle is not open; FR_OK stores the entry closed and releases the slot |
| `TinyFsDriver.TinyFs.StoreClosed` | Core/Src/tiny-fs/tiny-fs.c:537-554 | FR_DENIED when the stored state is not the handle's, nothing written; FR_OK stores the handle's entry closed |
| `TinyFsDriver.TinyFs.DeleteFile` | Core/Src/tiny-fs/tiny-fs.c:597-659 | FR_INVALID_PARAMETER exactly without media or name; FR_NO_FILE when no entry has the name; FR_OK leaves the deleted image of the first entry of that name |
| `TinyFsDriver.TinyFs.FRead` | Core/Src/tiny-fs/tiny-fs.c:1245-1294 | corrected count (as written: `TinyFsFiles.ReadCountAsWritten`): FR_INVALID_PARAMETER exactly without buffer, count or media; FR_DENIED unless open for reading; FR_OK reads the media's bytes at the pointer into the buffer, moves the pointer past them, and leaves the rest of the buffer |
| `TinyFsDriver.TinyFs.FWrite` | Core/Src/tiny-fs/tiny-fs.c:1177-1234 | corrected count (as written: `TinyFsFiles.WriteCountAsWritten`): FR_INVALID_PARAMETER exactly without data, count or media; FR_DENIED unless open for writing; FR_OK writes the data at the pointer within the file's clusters, moves the pointer and grows the size; every failure keeps the pointer and the entry, FR_DISK_ERR may leave a prefix of the data written at the pointer, and every other failure leaves the media unchanged |
| `TinyFsDriver.TinyFs.CheckFS` | Core/Src/tiny-fs/tiny-fs.c:1446-1511 | FR_INVALID_OBJECT without media; otherwise FR_DISK_ERR or the verdict on the media |
| `TinyFsDriver.FTell` | Core/Src/tiny-fs/tiny-fs.c:1301-1311 | the file pointer for a valid handle, UINT32_MAX otherwise |
| `TinyFsDriver.FLseek` | Core/Src/tiny-fs/tiny-fs.c:1329-1366 | isFileValid's code for an invalid handle; otherwise FR_OK exactly when the seek is allowed, and the pointer is where f_tell then reports it |
| `TinyFsDriver.FRewind` | Core/Src/tiny-fs/tiny-fs.c:1318-1321 | a file open for reading always rewinds to 0; one open for writing only when it is not empty |
| `TinyFsDriver.Released` | Core/Src/tiny-fs/tiny-fs.c:556-558 | exactly the handle's slot is set free |
| `TinyFsDriver.CloseReleasesOpenSlot` | Core/Src/tiny-fs/tiny-fs.c:356-558 | closing gives back exactly the slot the open took |
| `TinyFsDriver.SlotReleaseAsWritten` | Core/Src/tiny-fs/tiny-fs.c:487-492 | as written, with every slot taken the failed open stores 0 past the end of mutexes[] |
| `TinyFsDriver.StoreEntryKeepsTable` | Core/Src/tiny-fs/tiny-fs.c:953-974 | SaveDirEntry never touches the cluster table |
| `TinyFsDriver.WrittenTable` | Core/Src/tiny-fs/tiny-fs.c:1062-1069 | a table written back reads back and leaves the directory unchanged |
| `TinyFsDriver.DeleteUndoesCreate` | Core/Src/tiny-fs/tiny-fs.c:344-659 | deleting the file NewFile created restores the cluster table and every other entry, and leaves its entry free |
| `TinyFsDriver.ReleaseRestores` | Core/Src/tiny-fs/tiny-fs.c:621-654 | releasing the run an entry took and freeing the entry gives back the old table and entries |
| `TinyFsDriver.CreatedParts` | Core/Src/tiny-fs/tiny-fs.c:404-444 | a created file occupies the first free run for its size, the table has that run busy, and only its entry changed |
| `TinyFsDriver.FreedBack` | Core/Src/tiny-fs/tiny-fs.c:642-654 | the table written back and the entry stored free leave that table and only that entry changed |
| `TinyFsDriver.DeletedKeepsOthers` | Core/Src/tiny-fs/tiny-fs.c:597-659 | a delete changes no other directory entry |
| `TinyFsDriver.DeletedAt` | Core/Src/tiny-fs/tiny-fs.c:621-654 | when freeClusters accepts the range the deleted image is the table toggled back plus the entry stored free |
| `TinyFsDriver.CreatedIsFound` | Core/Src/tiny-fs/tiny-fs.c:708-749 | a created file with a new name is the one findEntry finds under it |
| `TinyFsDriver.OnlyNamed` | Core/Src/tiny-fs/tiny-fs.c:708-749 | when one entry alone has the name, findEntry finds it |
| `TinyFsDriver.StoredNames` | Core/Src/tiny-fs/tiny-fs.c:953-974 | after an entry is stored, the name matches are its own plus the old ones |
| `TinyFsDriver.ReopenCloseRestoresDirectory` | Core/Src/tiny-fs/tiny-fs.c:344-565 | reopening a closed file and closing it again leaves every directory entry as before the open |
| `TinyFsDriver.AllocatedPrefix` | Core/Src/tiny-fs/tiny-fs.c:411-427 | a run allocated in the DTA's table part fits the table, its offset fits 16 bits, and the rest of the DTA stays |
| `TinyFsDriver.FormatAllocation` | Core/Src/tiny-fs/tiny-fs.c:245-292 | on a cleared table the "$$FAT$$" clusters go to cluster 0, leaving the initial table in the DTA |
| `Nvmem.ReadFram` | Core/Src/nvmem/nvmem.c:41-90 | success exactly for a non-empty range inside the chip and a good transfer, and then the destination window holds the chip's bytes and nothing else in it changes; failure reads nothing |
| `Nvmem.WriteFram` | Core/Src/nvmem/nvmem.c:102-192 | SUCCESS exactly for a non-empty range inside the chip with every transfer through; an out-of-chip range writes nothing; otherwise the range holds the bytes that reached the chip: none after a failed command transfer, all of them once the data transfer succeeds, even when the closing WRDI then fails and ERROR is returned, and the bytes sent when the data transfer fails |
| `Nvmem.Landed` | Core/Src/nvmem/nvmem.c:120-181 | no data byte reaches the chip when a command transfer fails, and every one does once the data transfer succeeds, whatever WRDI then does |
| `FileIo.CutNameIdempotent` | Core/Src/helpers/file_io.c:38-40 | cutting a name twice cuts it once, so NewFile's own cut leaves the seven-character name as it is |
| `FileIo.FoundUnderStoredName` | Core/Src/helpers/file_io.c:42-65 | the file found under a key is found again under the name its entry holds, which is how the close finds what the open opened |
| `FileIo.OpenWaiting` | Core/Src/helpers/file_io.c:42-54 | the open loop answers as NewFile does: FR_INVALID_PARAMETER exactly for a bad argument, FR_TOO_MANY_OPEN_FILES exactly when every slot is taken, FR_OK with a slot taken and the file opened |
| `FileIo.Close` | Core/Src/helpers/file_io.c:65 | a successful close stores the handle's entry closed and gives its slot back |
| `FileIo.ReadPos` | Core/Src/helpers/file_io.c:59 | f_lseek leaves a file open for reading at fpos clamped to its size |
| `FileIo.AddrOf` | Core/Src/helpers/file_io.c:63 | the media address of a file byte is the file's address plus the pointer while that fits 32 bits |
| `FileIo.ReadAt` | Core/Src/helpers/file_io.c:63 | a successful read returns the media's bytes at the file pointer, as many as ReadCount says |
| `FileIo.ReadOpened` | Core/Src/helpers/file_io.c:59-65 | seek, read and close: the bytes at the clamped position land in the buffer, the entry is stored closed and the slot released |
| `FileIo.ReadBytes` | Core/Src/helpers/file_io.c:27-70 | FR_INVALID_PARAMETER exactly for a missing argument, with nothing opened; FR_OK opens the file for reading, reads the bytes at the clamped position, and closes it with the slots as before |
| `FileIo.ReadNamed` | Core/Src/helpers/file_io.c:36-69 | past the argument check: the same open, read and close as ReadBytes |
| `FileIo.WrittenAndClosed` | Core/Src/helpers/file_io.c:117-123 | the media after a write and close is a well-formed image |
| `FileIo.WrittenAndClosedIs` | Core/Src/helpers/file_io.c:121-123 | the written-and-closed image is the write followed by CloseFile's store of the grown entry |
| `FileIo.WriteAt` | Core/Src/helpers/file_io.c:121 | a successful write puts WriteCount bytes at the pointer and grows the size; a failed one keeps the entry, and on FR_DISK_ERR may leave a prefix of those bytes written at the pointer |
| `FileIo.WriteOpened` | Core/Src/helpers/file_io.c:117-124 | a seek to fpos inside the file, the write and the close; FR_OK leaves the data in place and the entry closed with its new size |
| `FileIo.WriteNamed` | Core/Src/helpers/file_io.c:92-125 | corrected (as written: `FileIo.WriteNamedAsWritten`): a failed open returns its code with nothing written and no close; FR_OK opens or creates the file, writes and closes it |
| `FileIo.WriteNamedAsWritten` | Core/Src/helpers/file_io.c:92-125 | as written, after an open refused with FR_LOCKED the close still runs and stores the other handle's open file closed |
| `FileIo.CloseLocked` | Core/Src/helpers/file_io.c:122-123 | the close after FR_LOCKED finds the entry the open read and, when it is open in either mode, stores it closed |
| `FileIo.LockedCloseClosesOtherHandle` | Core/Src/helpers/file_io.c:114-123 | that close marks an entry another handle holds open as closed, changing the media and no other entry |
| `FileIo.WriteBytes` | Core/Src/helpers/file_io.c:82-126 | corrected (as written: `FileIo.WriteBytesAsWritten`): FR_INVALID_PARAMETER for a missing argument with nothing changed; FR_TOO_MANY_OPEN_FILES exactly when every slot is taken; FR_OK writes WriteCount bytes at fpos into the opened file and closes it |
| `FileIo.WriteBytesAsWritten` | Core/Src/helpers/file_io.c:82-126 | as written: a missing argument changes nothing; an FR_LOCKED open followed by a successful close stores another handle's open file closed |
| `FileIo.ReadKeepsDirectory` | Core/Src/helpers/file_io.c:27-70 | reading a file that exists leaves every directory entry as it was |
| `FileIo.StoreEntryKeepsData` | Core/Src/tiny-fs/tiny-fs.c:953-974 | SaveDirEntry leaves every byte from the cluster table on unchanged |
| `FileIo.SameMatches` | Core/Src/tiny-fs/tiny-fs.c:728 | names equal as C strings find the same entry |
| `FileIo.SameDirectoryFinds` | Core/Src/tiny-fs/tiny-fs.c:708-749 | media with the same directory names find the same entries |
| `FileIo.OpenedForWriteAt` | Core/Src/helpers/file_io.c:100-112 | the file WriteBytes opens is the first of its name, holds the opened entry, lies past the directory, and no other entry changed |
| `FileIo.WriteThenReadBack` | Core/Src/helpers/file_io.c:27-126 | after WriteBytes writes n bytes at position 0 and closes the file, ReadBytes of n bytes from position 0 reads those bytes back |
| `FileIo.ReadBackAt` | Core/Src/helpers/file_io.c:27-126 | once the write and close have left the file at idx, closed with its grown size and holding the data, ReadBytes reads the data back |
| `FileIo.ReadBackData` | Core/Src/helpers/file_io.c:63 | the read gets the bytes the write left, which the open's directory update does not touch |
| `FileIo.WriteMissesDirectory` | Core/Src/helpers/file_io.c:121 | a write past the directory leaves every entry as it is |
| `FileIo.StoreKeepsNames` | Core/Src/tiny-fs/tiny-fs.c:953-974 | storing an entry under its own name keeps every name in the directory |
| `FileIo.GrownReadsBack` | Core/Src/tiny-fs/tiny-fs.c:1225-1281 | a read from the start of a file a write of n bytes grew gets all n bytes |
| `FileIo.ReopenedAt` | Core/Src/tiny-fs/tiny-fs.c:453-479 | ReadBytes's open of an existing file stores its entry open for reading |
| `FileIo.WrittenClosedAt` | Core/Src/helpers/file_io.c:117-123 | after the write and close the file is found at the same index, closed with its grown size, holding the data |
| `FileIo.ClosedFound` | Core/Src/tiny-fs/tiny-fs.c:514-565 | the close after a write finds the file at the same index and stores the entry |
| `FileIo.DataThroughStore` | Core/Src/tiny-fs/tiny-fs.c:953-974 | bytes past the directory survive SaveDirEntry |
| `IpHelpers.MakeIpOctets` | Core/Inc/helpers/ip_helpers.h:17-21 | MAKE_IP packs four bytes without loss: each comes back out of its own byte of the address |
| `IpHelpers.OctetsMakeIp` | Core/Inc/helpers/ip_helpers.h:17-21 | every address is MAKE_IP of its four bytes |
| `IpHelpers.EncodeIp` | Core/Src/helpers/ip_helpers.c:35 | a configuration record is sizeof(struct IP) = 22 bytes |
| `IpHelpers.DecodeEncodeIp` | Core/Src/helpers/ip_helpers.c:57-87 | a record with the template's tag decodes to its address groups modulo 256 and its port modulo 2^16 |
| `IpHelpers.IpOfTriples` | Core/Src/helpers/ip_helpers.c:61-75 | four 3-digit groups are twelve digits that isDec accepts and that read as MAKE_IP of the groups modulo 256 |
| `IpHelpers.DecodeIpFails` | Core/Src/helpers/ip_helpers.c:57-81 | decoding fails exactly on a foreign tag or a non-digit in the address or port field |
| `IpHelpers.DecodeRecord` | Core/Src/helpers/ip_helpers.c:51-87 | a short read is FR_INVALID_OBJECT; a whole record gives exactly the decoded pair, FR_OK exactly when there is one |
| `IpHelpers.ReadIPConfigFile` | Core/Src/helpers/ip_helpers.c:24-91 | FR_INVALID_PARAMETER for a missing argument with nothing changed; ReadBytes's error is passed on; a record read whole is decoded, and anything else is FR_INVALID_OBJECT |
| `IpHelpers.SaveIPConfigFile` | Core/Src/helpers/ip_helpers.c:101-125 | FR_INVALID_PARAMETER for a missing argument with nothing changed; FR_OK exactly when WriteBytes succeeded with all 22 bytes, which it writes at position 0; any short write is FR_INVALID_OBJECT |
| `IpHelpers.SaveThenReadIp` | Core/Src/helpers/ip_helpers.c:24-125 | a record saved with FR_OK is read back byte for byte and decodes as the template does |
| `Startup.MacOf` | Core/Src/app/startup.c:298-305 | the MAC loop yields six bytes |
| `Startup.ApplyCfgReplacesAll` | Core/Src/app/startup.c:291-366 | a record Init_NIC accepts sets every setting, whatever was set before, and a six-byte MAC |
| `Startup.ApplyCfgFailureKeeps` | Core/Src/app/startup.c:291-366 | a rejected record never reaches the netmask, and one whose MAC digits fail changes nothing |
| `Startup.DefaultSections` | Core/Src/app/startup.c:65-91 | the default record is its four sections at the offsets of struct ip_cfg |
| `Startup.SectionFields` | Core/Src/app/startup.c:307-312 | a record holding a section at an offset has that section's tag and digits there |
| `Startup.SectionOfTriples` | Core/Src/app/startup.c:313-324 | a section whose digits are four 3-digit groups passes isDec and reads as MAKE_IP of them |
| `Startup.DefaultIpFields` | Core/Src/app/startup.c:65-91 | the default address, gateway and netmask sections hold their tags and 192.168.0.223, 192.168.0.1 and 255.255.255.0 |
| `Startup.DefaultMac` | Core/Src/app/startup.c:65-91 | the default MAC section has the MAC_ tag, hex digits, and spells EE:65:EE:33:FF:81 |
| `Startup.MacOfPairs` | Core/Src/app/startup.c:298-305 | six pairs of hex characters give the six bytes they spell |
| `Startup.DefaultFront` | Core/Src/app/startup.c:291-324 | any record with the default MAC and own-IP sections passes them and installs EE:65:EE:33:FF:81 and 192.168.0.223 |
| `Startup.DefaultCfgParses` | Core/Src/app/startup.c:65-367 | the default record passes Init_NIC's checks and sets MAC EE:65:EE:33:FF:81, address 192.168.0.223, gateway 192.168.0.1, netmask 255.255.255.0 |
| `Startup.BrokenGatewayKeepsEarlierSections` | Core/Src/app/startup.c:326-328 | a record failing at the gateway tag still leaves the MAC and address it passed applied, and gateway and netmask as they were |
| `Startup.SetMac` | Core/Src/app/startup.c:298-305 | mac_addr becomes the six bytes the twelve hex characters spell |
| `Startup.ReadSection` | Core/Src/app/startup.c:307-363 | a section passes exactly when its tag and digits check, and then yields its packed address |
| `Startup.ApplyRecord` | Core/Src/app/startup.c:291-366 | the result and the interface settings are those of the checks and updates in the code's order |
| `Startup.ReadRecordOfBytes` | Core/Src/app/startup.c:285-289 | ReadBytes's promise restated over the bytes read is the read Init_NIC makes |
| `Startup.ReadCfgFile` | Core/Src/app/startup.c:285-289 | reads the start of "IP_CFG" as ReadBytes does; no data on an error; FR_TOO_MANY_OPEN_FILES exactly when every slot is taken |
| `Startup.InitNic` | Core/Src/app/startup.c:278-367 | unless the read returns the whole record nothing is set and the result is ERROR; otherwise the record is applied section by section |
| `Startup.SaveIPCfg` | Core/Src/app/startup.c:253-271 | "IP_CFG" is deleted; any error but FR_NO_FILE is returned; after a delete or none the default record is written by WriteCfgFile |
| `Startup.WriteCfgFile` | Core/Src/app/startup.c:261-267 | the record is written at the start of the file; FR_INVALID_PARAMETER unless every byte was written, checked against a count WriteBytes may leave unset |
| `ManchesterBits.ByteBits` | Core/Src/manchester/manchester.c:759-771 | a byte is eight bits |
| `ManchesterBits.Bits` | Core/Src/manchester/manchester.c:734-752 | a field of n bytes is 8n bits |
| `ManchesterBits.BitsAppend` | Core/Src/manchester/manchester.c:734-752 | the bits of two fields end to end are the bits of each in turn |
| `ManchesterBits.BitsOfLast` | Core/Src/manchester/manchester.c:734-752 | the bits of a field end with those of its last byte |
| `ManchesterBits.Rev8Masks` | Core/Src/manchester/manchester.c:759-771 | bit k of the reversed byte is bit 7 - k of the byte |
| `ManchesterBits.Rev8Bits` | Core/Src/manchester/manchester.c:759-771 | reversing a byte reverses its bit sequence |
| `ManchesterBits.Rev8Involution` | Core/Src/manchester/manchester.c:759-771 | swapBits applied twice gives the byte back |
| `ManchesterBits.SwapStart` | Core/Src/manchester/manchester.c:761-763 | swapBits starts with mask on bit 7, tmp on bit 0 and an empty result |
| `ManchesterBits.SwapDone` | Core/Src/manchester/manchester.c:759-771 | after eight rounds the result is the reversed byte |
| `ManchesterBits.SwapRound` | Core/Src/manchester/manchester.c:764-769 | each round copies the bit under mask to the mirror bit under tmp |
| `ManchesterBits.SwapBits` | Core/Src/manchester/manchester.c:759-771 | swapBits returns the byte with its bit order reversed |
| `ManchesterBits.Shift1` | Core/Src/manchester/manchester.c:744-748 | one pass keeps the field's length |
| `ManchesterBits.ShiftN` | Core/Src/manchester/manchester.c:734-752 | n passes keep the field's length |
| `ManchesterBits.Shift1ByteBits` | Core/Src/manchester/manchester.c:744-748 | a byte shifted right with a carry into bit 7 drops its bit 0 and takes the carry on top |
| `ManchesterBits.Shift1Head` | Core/Src/manchester/manchester.c:744-748 | the bottom byte after one pass is its bits moved down with bit 0 of the byte above on top |
| `ManchesterBits.Shift1Tail` | Core/Src/manchester/manchester.c:744-748 | one pass over a field, from its second byte on, is the pass over that part |
| `ManchesterBits.Shift1Bits` | Core/Src/manchester/manchester.c:744-748 | one pass moves the bit string down one place and puts a 0 at the top |
| `ManchesterBits.ShiftNBits` | Core/Src/manchester/manchester.c:734-752 | n passes drop the first n bits and fill n zeros at the top |
| `ManchesterBits.ShiftCount` | Core/Src/manchester/manchester.c:735-737 | sbfr shifts ns bits but never more than flen * 8 |
| `ManchesterBits.Sbfr` | Core/Src/manchester/manchester.c:734-752 | the field is shifted right by the returned count, which is ns capped at its bit length, and bytes past flen are untouched |
| `ManchesterBits.ShiftPass` | Core/Src/manchester/manchester.c:744-748 | the inner loop moves the field down one bit, carrying bit 0 of each byte into bit 7 of the one below |
| `ManchesterBits.PassStep` | Core/Src/manchester/manchester.c:745-747 | one step of the inner loop sets a byte to its shifted value and hands on its own bit 0 |
| `ManchesterBits.ShiftNStep` | Core/Src/manchester/manchester.c:734-752 | n + 1 passes are one more pass after n |
| `ManchesterBits.SbfrBits` | Core/Src/manchester/manchester.c:734-752 | after sbfr the bit string has its first count bits dropped and zeros on top |
| `ManchesterBits.RevSwap` | Core/Src/manchester/manchester.c:785-797 | swapping the bytes end for end keeps the length |
| `ManchesterBits.RevSwapBits` | Core/Src/manchester/manchester.c:785-797 | reversing the bytes and the bits of each reverses the whole bit string |
| `ManchesterBits.TotalBytes` | Core/Src/manchester/manchester.c:779-781 | a string of len bits takes the fewest bytes that hold len bits |
| `ManchesterBits.ReversedBytes` | Core/Src/manchester/manchester.c:778-802 | reverseBitString keeps the number of bytes |
| `ManchesterBits.ReverseBitString` | Core/Src/manchester/manchester.c:778-802 | the string's bytes become the reversed-and-shifted bytes and the bytes past it are untouched |
| `ManchesterBits.SwapBytes` | Core/Src/manchester/manchester.c:785-797 | the bytes are swapped end for end, each bit-reversed, the middle one of an odd count in place |
| `ManchesterBits.ReversedString` | Core/Src/manchester/manchester.c:778-802 | reverseBitString leaves the first len bits in reverse order followed by zeros; a whole number of bytes is reversed outright |
| `ManchesterBits.OneByteReversed` | Core/Src/manchester/manchester.c:778-802 | a string of fewer than eight bits comes out with those bits reversed at the bottom and zeros above |
| `Manchester.TolerancesBracket` | Core/Src/manchester/manchester.c:227-230 | without a 32-bit wrap the window brackets the half-bit time, with h / 12 on each side |
| `Manchester.Timing` | Core/Src/manchester/manchester.c:222-242 | the computed minimum never exceeds the half-bit time, and the maximum is not below it unless it wraps |
| `Manchester.InitContext` | Core/Src/manchester/manchester.c:197-244 | SUCCESS exactly for a context, a timer instance, 1 to 16 start bits and at most 16 stop bits; each failing check leaves exactly the fields stored before it, and success stores the timing |
| `Manchester.OpenThermTiming` | Core/Src/manchester/manchester.c:222-242 | at 1000 bit/s on an 8 MHz timer the half-bit is 4000 ticks, accepted from 3667 to 4333, with a 2 ms timeout and a 7 us filter |
| `Manchester.DecidePulseWidth` | Core/Src/manchester/manchester.c:681-691 | a pulse is a half-bit (1), a whole bit (2) or neither (UINT8_MAX) |
| `Manchester.PulseClasses` | Core/Src/manchester/manchester.c:681-691 | a pulse of h is a half-bit and one of 2h a whole bit, and every half-bit width is shorter than every whole-bit width |
| `Manchester.DecodeBit` | Core/Src/manchester/manchester.c:633-638 | UINT8_MAX exactly when the halves agree (or the first is invalid), otherwise the first half's level |
| `Manchester.Encode` | Core/Src/manchester/manchester.c:942-980 | every bit takes two half-bits on the line |
| `Manchester.EncodeAppend` | Core/Src/manchester/manchester.c:942-980 | the levels of two runs end to end are those of each in turn |
| `Manchester.EncodeAt` | Core/Src/manchester/manchester.c:942-980 | a bit is its own level followed by the opposite one |
| `Manchester.TransmittedNothing` | Core/Src/manchester/manchester.c:814-916 | sending nothing succeeds and changes nothing |
| `Manchester.TransmittedThen` | Core/Src/manchester/manchester.c:814-916 | sending a and then b is sending a + b |
| `Manchester.TransmittedStop` | Core/Src/manchester/manchester.c:814-916 | once a send has failed nothing after it is sent |
| `Manchester.TransmitBit` | Core/Src/manchester/manchester.c:942-980 | the bit is driven as its level then the opposite, and a timed-out wait ends it with ERROR after the halves already driven |
| `Manchester.DecodeTransmitted` | Core/Src/manchester/manchester.c:633-638 | decodeBit of the two halves of any transmitted bit yields that bit |
| `Manchester.Repeat` | Core/Src/manchester/manchester.c:925-933 | num copies of a bit are num bits long |
| `Manchester.TransmitStartStopBits` | Core/Src/manchester/manchester.c:925-933 | num copies of the start/stop bit are sent, stopping at the first that fails |
| `Manchester.OrderedBits` | Core/Src/manchester/manchester.c:855-873 | a full byte sends eight bits |
| `Manchester.FullBytesBits` | Core/Src/manchester/manchester.c:852-874 | n full bytes send 8n bits |
| `Manchester.LsbFirstIsBits` | Core/Src/manchester/manchester.c:852-874 | full bytes sent LSB first are the bit string itself |
| `Manchester.LastBits` | Core/Src/manchester/manchester.c:876-892 | the last byte of r bits sends r bits |
| `Manchester.LastBitsAsWritten` | Core/Src/manchester/manchester.c:876-892 | the loop as written sends r bits too |
| `Manchester.TailBits` | Core/Src/manchester/manchester.c:876-892 | the partial last byte sends numBits % 8 bits |
| `Manchester.DataBits` | Core/Src/manchester/manchester.c:852-892 | the data part of a frame is numBits bits |
| `Manchester.Frame` | Core/Src/manchester/manchester.c:840-898 | a frame is its start bits, data bits and stop bits |
| `Manchester.UpBit` | Core/Src/manchester/manchester.c:855-873 | the one-bit mask of bit j picks bit j of the byte |
| `Manchester.UpShift` | Core/Src/manchester/manchester.c:855-873 | shifting the one-bit mask moves it one place, and out of the byte past either end |
| `Manchester.ByteMaskBit` | Core/Src/manchester/manchester.c:855-873 | the mask after k rounds picks the k-th bit in sending order |
| `Manchester.ByteMaskShift` | Core/Src/manchester/manchester.c:855-873 | within the byte the mask is never 0 and each round's shift gives the next round's mask |
| `Manchester.ByteMaskNext` | Core/Src/manchester/manchester.c:855-873 | the do-while stops exactly after eight rounds, and each round sends the next bit in order |
| `Manchester.SentOne` | Core/Src/manchester/manchester.c:855-873 | a bit that goes well extends what is out; one that fails ends the run there |
| `Manchester.TransmitByte` | Core/Src/manchester/manchester.c:855-873 | the eight bits of a full byte go out in the bit order, stopping at the first that fails |
| `Manchester.TransmitFullBytes` | Core/Src/manchester/manchester.c:852-874 | the full bytes go out in turn, stopping at the first bit that fails |
| `Manchester.SentByte` | Core/Src/manchester/manchester.c:852-874 | a byte that goes well extends the full bytes sent; one that fails ends them there |
| `Manchester.FullBytesPrefix` | Core/Src/manchester/manchester.c:852-874 | the bits of the first n full bytes begin the bits of all of them |
| `Manchester.FullBytesTake` | Core/Src/manchester/manchester.c:852-874 | the first 8n bits of the full bytes are those of the first n bytes |
| `Manchester.AsWrittenMask` | Core/Src/manchester/manchester.c:876-892 | as written each round of the last-byte loop picks bit 0 (LSB first) or bit r - 1 (MSB first) |
| `Manchester.TransmitLastBitsAsWritten` | Core/Src/manchester/manchester.c:876-892 | as written the last-byte loop sends the same bit r times |
| `Manchester.LastMaskBit` | Core/Src/manchester/manchester.c:463-480 | the corrected mask after k rounds picks the k-th bit of the last byte in sending order |
| `Manchester.LastMaskShift` | Core/Src/manchester/manchester.c:463-480 | each round's shift gives the next round's mask |
| `Manchester.LastMaskNext` | Core/Src/manchester/manchester.c:463-480 | a corrected round sends bit k in order and leaves the mask for bit k + 1 |
| `Manchester.TransmitLastBits` | Core/Src/manchester/manchester.c:876-892 | corrected (as written: `Manchester.TransmitLastBitsAsWritten`): bits 0 to r - 1 of the last byte go out LSB first, or r - 1 down to 0 MSB first |
| `Manchester.LastByteRepeats` | Core/Src/manchester/manchester.c:876-892 | for the last three bits of 0x06 the loop as written sends 0,0,0 (LSB first) and 1,1,1 (MSB first) where 0,1,1 and 1,1,0 are meant |
| `Manchester.Transmit` | Core/Src/manchester/manchester.c:814-916 | corrected last-byte loop (as written: `Manchester.TransmitLastBitsAsWritten`): ERROR with nothing sent for NULL data, context, data pointer or timer; otherwise the whole frame goes out, ending at the first bit that fails |
| `Manchester.SendFrame` | Core/Src/manchester/manchester.c:840-898 | start bits, full bytes, the partial last byte and stop bits go out in order, ending at the first bit that fails |
| `Manchester.FrameParts` | Core/Src/manchester/manchester.c:840-898 | a frame is its start bits, full bytes, partial last byte and stop bits in that order |
| `Manchester.SentThen` | Core/Src/manchester/manchester.c:840-898 | a part sent after another extends the frame, and a failure ends the whole frame there |
| `Manchester.FrameOnLine` | Core/Src/manchester/manchester.c:633-980 | a frame sent in full puts two half-bits per frame bit on the line, and decodeBit of each pair gives the frame bit back |
| `Manchester.LsbFirstData` | Core/Src/manchester/manchester.c:852-892 | sent LSB first, a frame's data bits are the bit string of its bytes up to numBits |
| `BitQueue.BitAt` | Core/Src/manchester/bit_queue.c:42-54 | the bit dequeueBit reads is 0 or 1 |
| `BitQueue.PutWord` | Core/Src/manchester/bit_queue.c:36 | the new bit, bit & 1, goes in at bit 0 and every other bit moves up one place |
| `BitQueue.Held` | Core/Src/manchester/bit_queue.c:28-54 | a queue with pFirst p holds p bits |
| `BitQueue.PutAppends` | Core/Src/manchester/bit_queue.c:28-54 | below 32 held bits a put appends its bit after the ones already held |
| `BitQueue.PutAt32LosesOldest` | Core/Src/manchester/bit_queue.c:31-37 | as written, a put with 32 bits held still goes in, the oldest bit is shifted out and a 0 is read in its place |
| `BitQueue.FullQueueLosesBit` | Core/Src/manchester/bit_queue.c:31-37 | as written, 32 ones plus a 33rd put yield a 0 as the oldest bit where a 1 was put |
| `BitQueue.TakeOldest` | Core/Src/manchester/bit_queue.c:42-54 | dequeueBit takes the oldest bit and leaves the rest in order |
| `BitQueue.PutBitInQueueAsWritten` | Core/Src/manchester/bit_queue.c:28-40 | bqErr exactly for NULL; bqFull only past 32 bits; a put at 32 bits replaces the oldest bit by 0 and appends |
| `BitQueue.PutBitInQueue` | Core/Src/manchester/bit_queue.c:28-40 | corrected (as written: `BitQueue.PutBitInQueueAsWritten`): bqErr exactly for NULL, bqFull exactly with 32 bits held and nothing changed, otherwise the bit is appended |
| `BitQueue.DequeueBit` | Core/Src/manchester/bit_queue.c:42-54 | bqErr exactly for NULL; bqEmpty with nothing held; otherwise the oldest bit is returned and the rest stay in order |
| `LanNet.Fold` | Core/Src/lan/lan.c:1209-1211 | folding the carries leaves a 16-bit value |
| `LanNet.Swap16` | Core/Src/lan/lan.c:1213 | swapping the bytes of a 16-bit value gives a 16-bit value |
| `LanNet.Checksum` | Core/Src/lan/lan.c:1199-1214 | ip_cksum's value fits 16 bits |
| `LanNet.Complemented` | Core/Src/lan/lan.c:1209-1213 | the complement of a folded total fits 16 bits |
| `LanNet.FoldBounds` | Core/Src/lan/lan.c:1209-1211 | folding keeps the value modulo 0xFFFF (the one's-complement sum of RFC 1071), brings it into 16 bits, and never turns a non-zero value into 0 |
| `LanNet.ModMultiple` | Core/Src/lan/lan.c:1209-1211 | adding a multiple of 0xFFFF keeps the residue |
| `LanNet.ModAdd` | Core/Src/lan/lan.c:1201-1207 | reducing the 32-bit accumulator before an addition does not change the reduced sum |
| `LanNet.DataSumAt` | Core/Src/lan/lan.c:1201-1208 | after the word loop the words read plus the odd last byte are the block's sum |
| `LanNet.AccStep` | Core/Src/lan/lan.c:1201-1204 | one big-endian word added to the 32-bit accumulator extends the sum of words |
| `LanNet.AccLast` | Core/Src/lan/lan.c:1205-1208 | the odd byte added as a high half completes the block's sum |
| `LanNet.IpCksum` | Core/Src/lan/lan.c:1199-1214 | ip_cksum returns the checksum of the seed and the first len bytes of the buffer |
| `LanNet.PairSumPrefix` | Core/Src/lan/lan.c:1199-1214 | the words of an even prefix are read the same whatever follows |
| `LanNet.DataSumAppend` | Core/Src/lan/lan.c:1199-1214 | a word appended to an even-length block adds its value |
| `LanNet.PairSumBound` | Core/Src/lan/lan.c:1199-1214 | n words sum to at most 0xFFFF n |
| `LanNet.StoredWord` | Core/Src/lan/lan.c:1213 | the byte-swapped complement stored little-endian reads back big-endian as the complement |
| `LanNet.SameResidue` | Core/Src/lan/lan.c:1209-1211 | values with the same residue differ by a multiple of 0xFFFF |
| `LanNet.ChecksumVerifies` | Core/Src/lan/lan.c:1199-1214 | an even-length block followed by its own stored checksum checks to 0, as the receiver's check of RFC 1071 expects |
| `LanNet.ComplementChecks` | Core/Src/lan/lan.c:1199-1214 | a total below 2^31 plus its own checksum has checksum 0 |
| `LanNet.ComplementedSmall` | Core/Src/lan/lan.c:1209-1213 | below 2^32 the checksum is the complement of the swapped fold |
| `LanNet.FoldComplement` | Core/Src/lan/lan.c:1209-1211 | a sum plus the complement of its fold folds to 0xFFFF, the one's-complement zero |
| `LanNet.ResidueFold` | Core/Src/lan/lan.c:1209-1211 | a positive multiple of 0xFFFF folds to 0xFFFF |
| `LanNet.HtonlBytes` | Core/Src/lan/lan.c:1750-1754 | htonl reverses the order of the four bytes of a word |
| `LanNet.HtonlInvolution` | Core/Src/lan/lan.c:1750-1754 | htonl applied twice gives the word back |
| `LanPool.FreeCount` | Core/Src/lan/lan.c:275-281 | the count of free buffers is at most the pool size |
| `LanPool.FreeCountNone` | Core/Src/lan/lan.c:262-285 | no buffer is counted free exactly when the search for a free buffer finds none |
| `LanPool.FreeCountPositive` | Core/Src/lan/lan.c:262-285 | a pool with a free buffer counts at least one |
| `LanPool.FreeCountSet` | Core/Src/lan/lan.c:262-320 | changing one buffer's state changes the count by exactly that buffer's contribution |
| `LanPool.AllFreeCount` | Core/Src/lan/lan.c:1656-1685 | a pool whose buffers are all free counts all of them, as lan_init leaves freenb |
| `LanPool.LocalPort` | Core/Src/lan/lan.c:178-182 | bind_socket's local port is never 0: the caller's port, or START_EUPH_PORT plus the socket index |
| `LanPool.AsUnsigned` | Core/Src/lan/lan.c:1813 | the cast of buflen to uintptr_t is below 2^32 and keeps non-negative values |
| `LanPool.Payload` | Core/Src/lan/lan.c:1803-1817 | read_sock copies the received length or the caller's buflen, never more than either |
| `LanPool.DeliveryFlags` | Core/Src/lan/lan.c:1952-2008 | a socket that takes a frame has new data, keeps its read mode, learns the sender's port, and records a loss exactly when earlier data was unread |
| `LanPool.ReadAfterDelivery` | Core/Src/lan/lan.c:1764-1858 | reading what a socket took restores its mode, gives the buffer back, and reports a short buffer exactly when the payload was cut |
| `LanPool.BoundAcceptsAnyPort` | Core/Src/lan/lan.c:156-191 | a read socket bound with remote port 0 accepts a frame from any port of its remote host sent to its local port |
| `LanPool.Lan.constructor` | Core/Src/lan/lan.c:1656-1685 | lan_init leaves every buffer and every socket free and both counters at the pool size |
| `LanPool.Lan.Recount` | Core/Src/lan/lan.c:275-281 | freenb is recounted from the buffer states and minfreenb keeps the low-water mark |
| `LanPool.Lan.GetMem` | Core/Src/lan/lan.c:262-285 | lan_getmem marks the lowest free buffer busy and returns it, or NULL exactly when freenb was 0; the low-water mark only falls |
| `LanPool.Lan.FreeMem` | Core/Src/lan/lan.c:293-320 | lan_freemem frees a busy pool buffer and returns NULL; any other pointer comes back unchanged with the pool untouched |
| `LanPool.Lan.BindSocket` | Core/Src/lan/lan.c:156-191 | the lowest free socket becomes a busy UDP socket with the given ends and mode and no buffer; NULL when all are busy |
| `LanPool.Lan.ChangeSocMode` | Core/Src/lan/lan.c:200-221 | only a busy pool socket changes, and only to read or write mode; any other request returns NULL and changes nothing |
| `LanPool.Lan.CloseSocket` | Core/Src/lan/lan.c:230-254 | a busy socket releases its buffer and is zeroed and freed; anything else is returned unchanged |
| `LanPool.Lan.UdpPacketCallback` | Core/Src/lan/lan.c:1952-2008 | the first socket that accepts the frame keeps it and hands back its old buffer; otherwise the frame is returned and nothing changes |
| `LanPool.Lan.Deliver` | Core/Src/lan/lan.c:1964-2000 | the accepting socket is updated as Delivered says and its old buffer returned |
| `LanPool.Lan.ReadSock` | Core/Src/lan/lan.c:1764-1858 | corrected (as written: `LanPool.FastWordsAsWritten`): NULL reads 0; a socket not in read mode gets SOC_ERR_WRONG_SOC_MODE; without new data nothing changes; otherwise the payload, cut to buflen, is copied from after the headers, the flag cleared and the frame freed |
| `LanPool.Lan.TakeData` | Core/Src/lan/lan.c:1801-1852 | corrected (as written: `LanPool.FastWordsAsWritten`): the payload bytes land at the start of dst and nothing after them changes; the frame buffer goes back to the pool |
| `LanPool.FastCopyShort` | Core/Src/lan/lan.c:1823-1835 | a 16-byte aligned payload copies one word, 4 of its 16 bytes |
| `LanPool.FastCopyQuarter` | Core/Src/lan/lan.c:1823-1835 | a word count that is a multiple of 4 stops after a quarter of the words due |
| `LanPool.FastCopyNeverEnds` | Core/Src/lan/lan.c:1823-1835 | any other word count never reaches 0, so the copy runs past both buffers |
| `LanArp.IndexOf` | Core/Src/lan/lan.c:1447-1459 | arp_get_cache_index gives the first entry holding the address, or -1 exactly when no entry holds it |
| `LanArp.Oldest` | Core/Src/lan/lan.c:1525-1537 | arp_get_oldest_index gives the first entry of smallest age |
| `LanArp.AgingLifetime` | Core/Src/lan/lan.c:1412-1424 | an entry set with age t keeps its address and MAC through t seconds of aging and is cleared in the second after |
| `LanArp.SlotAsWrittenOutOfBounds` | Core/Src/lan/lan.c:1562-1573 | with no entry for the sender and no free entry, the slot arp_filter writes is 255, past the cache |
| `LanArp.FullCacheResponse` | Core/Src/lan/lan.c:1562-1573 | a full cache of hosts 1, 2 and 3 and a response from host 4 write arp_cache[255] |
| `LanArp.ResponseSlot` | Core/Src/lan/lan.c:1562-1573 | corrected (as written: `LanArp.ResponseSlotAsWritten`): the entry holding the sender, else the first free entry, else the oldest; always inside the cache |
| `LanArp.SlotAsWrittenAgrees` | Core/Src/lan/lan.c:1562-1573 | where the host or a free entry is found, the code as written picks the corrected slot |
| `LanArp.LookupLearned` | Core/Src/lan/lan.c:1545-1584 | after a response is learned, a search for its sender finds the MAC it carried, and no other entry moved |
| `LanArp.RequestAnswered` | Core/Src/lan/lan.c:1467-1494 | a request_arp answered by the node's arp_filter and passed through the asker's arp_filter leaves the node's MAC in the asker's cache |
| `LanArp.ArpCache.constructor` | Core/Src/lan/lan.c:1400-1405 | the static cache starts with every entry empty |
| `LanArp.ArpCache.ClearCache` | Core/Src/lan/lan.c:1400-1405 | every entry is zeroed |
| `LanArp.ArpCache.AgeEntries` | Core/Src/lan/lan.c:1412-1424 | every entry ages by one second |
| `LanArp.ArpCache.GetCacheIndex` | Core/Src/lan/lan.c:1447-1459 | the loop's answer is IndexOf of the cache |
| `LanArp.ArpCache.SearchCache` | Core/Src/lan/lan.c:1431-1440 | the MAC found is the one Lookup gives, None when the address is not cached |
| `LanArp.ArpCache.GetOldestIndex` | Core/Src/lan/lan.c:1525-1537 | the loop's answer is Oldest of the cache |
| `LanArp.ArpCache.ArpFilter` | Core/Src/lan/lan.c:1545-1584 | corrected (as written: `LanArp.ResponseSlotAsWritten`): a request for this host is answered with the rewritten frame, a response for this host is learned into ResponseSlot, anything else is ignored |
| `LogLevels.NothingPassesInitially` | Core/Src/helpers/logging.c:12-24 | with current_mask at its initial 0 no level passes the filter |
| `LogLevels.OnEnables` | Core/Src/helpers/logging.c:20-34 | after log_set_mask_on(lvl), lvl passes exactly when its low 31 bits are not all 0 |
| `LogLevels.OnKeepsPassing` | Core/Src/helpers/logging.c:20-34 | switching a level on keeps every level that passed passing |
| `LogLevels.SwitchKeepsOtherBits` | Core/Src/helpers/logging.c:30-44 | switching a level on or off leaves the mask bits outside the level unchanged |
| `LogLevels.OffDisables` | Core/Src/helpers/logging.c:20-44 | after log_set_mask_off(lvl), lvl no longer passes |
| `LogLevels.OffKeepsDisjoint` | Core/Src/helpers/logging.c:20-44 | switching a level off leaves a level that shares no bit with it passing or not as before |
| `LogLevels.TopBitNotFiltered` | Core/Src/helpers/logging.c:20-24 | bit 31 of a level is ignored by the filter |
| `LogLevels.TopBitNotSwitchedOn` | Core/Src/helpers/logging.c:30-34 | bit 31 of a level is ignored when switching on |
| `LogLevels.TopBitNotSwitchedOff` | Core/Src/helpers/logging.c:40-44 | bit 31 of a level is ignored when switching off |
| `LogLevels.MaskStaysLow` | Core/Src/helpers/logging.c:30-44 | the mask never gains bit 31 |
| `LogLevels.AllOn` | Core/Src/helpers/logging.c:20-34 | MSG_LEVEL_ALL switched on lets every non-zero level through |
| `LogLevels.AllOff` | Core/Src/helpers/logging.c:20-44 | MSG_LEVEL_ALL switched off stops every level |
| `LogLevels.OnIdempotent` | Core/Src/helpers/logging.c:30-34 | switching a level on twice is switching it on once |
| `LogLevels.OffIdempotent` | Core/Src/helpers/logging.c:40-44 | switching a level off twice is switching it off once |
| `LogLevels.OnThenOff` | Core/Src/helpers/logging.c:30-44 | switching an off level on and then off gives the mask back |
| `LogOutput.SelColour` | Core/Src/helpers/logging.c:69-91 | a colour change is emitted exactly for the FATAL, SERIOUS, PROC_ERR and INFO levels, and nothing else |
| `LogOutput.TextAppend` | Core/Src/helpers/logging.c:98-108 | the characters written by two pieces of output are those of the first followed by those of the second |
| `LogOutput.MessageText` | Core/Src/helpers/logging.c:61-108 | a message writes "<task> : " once the scheduler runs, then the text and a new line |
| `LogOutput.MessageShape` | Core/Src/helpers/logging.c:98-108 | a message starts with the level's colour, if any, and ends with the colours reset |
| `Logging.Log.constructor` | Core/Src/helpers/logging.c:12 | current_mask starts at 0 |
| `Logging.Log.FilterIsPassed` | Core/Src/helpers/logging.c:20-24 | filterIsPassed agrees with Passes on current_mask: a level with no low bit never passes, and one whose low bits are all switched on always does |
| `Logging.Log.SetMaskOn` | Core/Src/helpers/logging.c:30-34 | the mask gains the level's low 31 bits |
| `Logging.Log.SetMaskOff` | Core/Src/helpers/logging.c:40-44 | the mask loses the level's low 31 bits |
| `Logging.Log.LogXputs` | Core/Src/helpers/logging.c:98-108 | a level that fails the filter writes nothing; one that passes writes the whole message |
| `Watchdog.RegisterConsistent` | Core/Src/helpers/watchdog.c:54-61 | registering keeps the owed bits inside the mask and bit 0 out of it |
| `Watchdog.StartConsistent` | Core/Src/helpers/watchdog.c:68-73 | starting keeps the owed bits inside the mask and bit 0 out of it |
| `Watchdog.AliveConsistent` | Core/Src/helpers/watchdog.c:26-47 | reporting keeps the owed bits inside the mask and bit 0 out of it |
| `Watchdog.RegisterOwes` | Core/Src/helpers/watchdog.c:54-61 | a registered position is owed, earlier registrations stay, and every registered position is owed again |
| `Watchdog.AliveClearsOwnBit` | Core/Src/helpers/watchdog.c:26-47 | a report clears only the reporter's bit: every other owed position stays owed |
| `Watchdog.LastReportRefreshes` | Core/Src/helpers/watchdog.c:37-43 | the last owed report reloads the watchdog once and owes every registered position again |
| `Watchdog.RefreshOnlyOnLast` | Core/Src/helpers/watchdog.c:26-47 | a report reloads the watchdog only when it is valid, owed and the last one; the backup register then holds 0 |
| `Watchdog.ReportClears` | Core/Src/helpers/watchdog.c:26-47 | a report that is not the last clears its bit without a reload and saves the owed word in the backup register |
| `Watchdog.NoRefreshWhileOwed` | Core/Src/helpers/watchdog.c:26-47 | while a task owes its report and does not report, the watchdog is never reloaded, whatever the other tasks report |
| `Watchdog.AllReportedRefreshes` | Core/Src/helpers/watchdog.c:26-47 | once every owed task has reported, the watchdog has been reloaded |
| `Watchdog.RunKeepsRefreshes` | Core/Src/helpers/watchdog.c:26-47 | reloads are only ever added |
| `Watchdog.Watch.constructor` | Core/Src/helpers/watchdog.c:15-16 | both words start at zero |
| `Watchdog.Watch.IAmAlive` | Core/Src/helpers/watchdog.c:26-47 | i_am_alive changes the statics as Alive says |
| `Watchdog.Watch.RegisterMagic` | Core/Src/helpers/watchdog.c:54-61 | register_magic changes the statics as Register says |
| `Watchdog.Watch.StartIwdt` | Core/Src/helpers/watchdog.c:68-73 | start_iwdt starts a new round owing every registered position |
| `ConfFn.WordBytes` | Core/Src/helpers/conf_fn.c:87-103 | a stored uint32_t takes four bytes |
| `ConfFn.WordOfBytes` | Core/Src/helpers/conf_fn.c:111-119 | a stored word reads back as the value stored |
| `ConfFn.BytesOfWord` | Core/Src/helpers/conf_fn.c:529-600 | a word read and stored again gives back the same four bytes |
| `ConfFn.Put` | Core/Src/helpers/conf_fn.c:87-103 | a Write_FRAM keeps the size of the memory |
| `ConfFn.PutReads` | Core/Src/helpers/conf_fn.c:87-103 | the bytes written read back, and every byte outside them is as before |
| `ConfFn.WordOfPut` | Core/Src/helpers/conf_fn.c:577-580 | a word written at an address reads back as that word |
| `ConfFn.WordBesidePut` | Core/Src/helpers/conf_fn.c:577-580 | a word that does not overlap a write reads as before |
| `ConfFn.CrcRun` | Core/Src/helpers/conf_fn.c:529-600 | Proc_NVMEM_CRC32 refuses exactly an unknown action or a length that is not a multiple of 4, and completes only after every word of the region was read without an SPI failure |
| `ConfFn.FeedWord` | Core/Src/helpers/conf_fn.c:555-569 | one more word of the region is read and fed to the CRC unit; the read fails exactly past the chip's end or when its SPI transfer fails |
| `ConfFn.ProcNvmemCrc32` | Core/Src/helpers/conf_fn.c:529-600 | for any outcome of the SPI transfers, the result (Halted for an access off the chip or a failed transfer) and the new FRAM contents (a torn CRC word after a failed store) are those CrcRun and CrcMemory give for the contents before the call |
| `ConfFn.FinishCrc` | Core/Src/helpers/conf_fn.c:571-596 | CALC returns the CRC; CALC_AND_STORE stores it, and halts with the bytes that landed when its Write_FRAM fails; CHECK halts when its read fails and otherwise succeeds exactly when the CRC equals the stored word; a CRC word outside the chip halts |
| `ConfFn.CheckComparesStored` | Core/Src/helpers/conf_fn.c:540-596 | CRC_ACT_CHECK over a valid region completes exactly when its reads go through, and then succeeds exactly when the computed CRC equals the stored word |
| `ConfFn.OutsideChipHalts` | Core/Src/helpers/conf_fn.c:555-596 | an access outside the chip with valid arguments ends in the error handler |
| `ConfFn.FailedTransferHalts` | Core/Src/helpers/conf_fn.c:555-596 | with valid arguments inside the chip, a failed region read, CHECK read or CALC_AND_STORE write ends in the error handler |
| `ConfFn.RegionCrcBesidePut` | Core/Src/helpers/conf_fn.c:529-600 | a write outside the region leaves its CRC as it was |
| `ConfFn.StoreThenCheck` | Core/Src/helpers/conf_fn.c:529-600 | a CALC_AND_STORE that completes, with the CRC word outside the region, is followed by a CHECK that completes exactly when its reads go through and then succeeds with the same CRC |
| `ConfFn.Sealed` | Core/Src/helpers/conf_fn.c:529-600 | sealing the settings keeps the memory's size |
| `ConfFn.Saved` | Core/Src/helpers/conf_fn.c:87-103 | saving a settings field keeps the memory's size |
| `ConfFn.SealedChecks` | Core/Src/helpers/conf_fn.c:529-600 | settings sealed with CALC_AND_STORE pass the settings check and keep their bytes |
| `ConfFn.SealSettings` | Core/Src/helpers/conf_fn.c:96-100 | the seal every setter ends with halts exactly when one of its SPI transfers fails, leaves the FRAM as CrcMemory says, and sealed when it returns |
| `ConfFn.SaveField` | Core/Src/helpers/conf_fn.c:87-103 | a field write within the settings followed by the seal: halts exactly when a transfer fails, leaves SaveMemory, and the saved and sealed settings when it returns |
| `ConfFn.SaveTouchesFieldAndCrc` | Core/Src/helpers/conf_fn.c:87-103 | a Save_* call, returning or halted, changes no FRAM byte outside its field and the settings CRC word |
| `ConfFn.SetRebootCause` | Core/Src/helpers/conf_fn.c:497-517 | halts exactly when a transfer fails; when it returns, the cause byte is written and the settings sealed |
| `ConfFn.SaveMac` | Core/Src/helpers/conf_fn.c:87-103 | halts exactly when a transfer fails; when it returns, the six MAC bytes are written and the settings sealed |
| `ConfFn.PairBytes` | Core/Src/helpers/conf_fn.c:127-143 | an ip_pair_t takes eight bytes |
| `ConfFn.SaveIpPair` | Core/Src/helpers/conf_fn.c:127-143 | halts exactly when a transfer fails; when it returns, the pair's eight bytes are written at its slot of ip_arr and the settings sealed |
| `ConfFn.SaveGiPeriod` | Core/Src/helpers/conf_fn.c:190-206 | halts exactly when a transfer fails; when it returns, the period's four bytes are written and the settings sealed |
| `ConfFn.SavedReadsBack` | Core/Src/helpers/conf_fn.c:87-206 | a saved field passes the settings check, reads back, and leaves the other settings bytes as they were |
| `ConfFn.CharArray` | Core/Src/helpers/conf_fn.c:33-54 | a char array initialised with a literal holds the literal as its C string |
| `ConfFn.GetMac` | Core/Src/helpers/conf_fn.c:68-80 | Get_MAC gives six bytes |
| `ConfFn.GetIpParams` | Core/Src/helpers/conf_fn.c:111-163 | on a cold boot the ROM pair of that kind; otherwise the pair whose little-endian address and port bytes are those stored in its slot of ip_arr |
| `ConfFn.GetGiPeriod` | Core/Src/helpers/conf_fn.c:170-183 | on a cold boot the ROM period; otherwise the value whose four little-endian bytes are those stored at its offset |
| `ConfFn.GetRootTopic` | Core/Src/helpers/conf_fn.c:213-227 | Get_Root_Topic designates a 41-byte array |
| `ConfFn.GetPubIdString` | Core/Src/helpers/conf_fn.c:234-248 | Get_Pub_ID_String designates an 11-byte array |
| `ConfFn.GetSubIdString` | Core/Src/helpers/conf_fn.c:255-269 | Get_Sub_ID_String designates an 11-byte array |
| `ConfFn.ColdBootUsesRom` | Core/Src/helpers/conf_fn.c:68-183 | on a cold boot the MAC, address and period getters give the ROM defaults whatever the FRAM holds |
| `ConfFn.ColdBootStrings` | Core/Src/helpers/conf_fn.c:213-269 | on a cold boot the string getters designate the ROM texts whatever the FRAM holds |
| `ConfFn.SavedSettingsReadBack` | Core/Src/helpers/conf_fn.c:68-206 | in warm mode the getters read back what the setters saved, and the settings check passes |
| `ConfFn.ConfigOnlyWhen` | Core/Src/helpers/conf_fn.c:431-484 | B_ACT_CFG is chosen exactly when the settings check, the cause is not RB_CFG_ERR, and a soft or low-power reset happened, or the cause is RB_CMD or RB_CFG_CHNG, or RB_NONE with a watchdog reset |
| `ConfFn.ConfigAndDataWhen` | Core/Src/helpers/conf_fn.c:431-484 | B_ACT_CFG_DAQ is chosen exactly when the settings check, no soft or low-power reset happened, and the cause is RB_PWR_LOSS, or RB_NONE with a pin or power-on reset and no watchdog reset |
| `ConfFn.ColdWhen` | Core/Src/helpers/conf_fn.c:431-484 | B_ACT_COLD is chosen exactly after a failed CRC check, a configuration error, or (without a soft or low-power reset) an unknown cause byte or RB_NONE with no reset flag |
| `ConfFn.GetRebootAction` | Core/Src/helpers/conf_fn.c:415-489 | halts exactly when one of its SPI transfers fails; when it returns, the action is RebootAction of the settings check, the saved cause and the reset flags, and the saved cause is RB_NONE with the settings sealed |
| `ConfFn.CauseClearedAfterBoot` | Core/Src/helpers/conf_fn.c:485-488 | after Get_Reboot_Action the settings pass their check and hold no cause, so the next boot depends on the reset flags alone |
| `ConfFn.PowerLossRestoresData` | Core/Src/helpers/conf_fn.c:456-517 | a saved power-loss cause restores configuration and data unless a soft or low-power reset followed |
| `ConfFn.GetFramState` | Core/Src/helpers/conf_fn.c:399-406 | FRAM_BAD exactly when the backup register holds the bad-FRAM magic, never FRAM_pad |
| `BuildInfo.ReadCounter` | build-info.py:27-38 | the start number is -1 without a counter file, which is then created holding "-1"; otherwise the file's contents parsed, None when int() raises, with no file changed |
| `BuildInfo.WriteHeader` | build-info.py:41-52 | buildinfo.h is emptied and then holds exactly the header for the build number |
| `BuildInfo.WriteCounter` | build-info.py:54-56 | the counter file is emptied and then holds exactly the new number |
| `BuildInfo.BuildInfoScript` | build-info.py:17-56 | the outcome, the files and the printed lines are those of CounterScript; between the two writes the files are HeaderWritten |
| `BuildInfo.UsageTouchesNothing` | build-info.py:17-19 | without a path argument the script prints its usage and exits with status 1, touching no file |
| `BuildInfo.FirstRunYieldsZero` | build-info.py:27-56 | a first run warns, writes build 0 into the header, and leaves a counter that reads back as 0 |
| `BuildInfo.NextBuildNumber` | build-info.py:35-56 | a counter that parses as n gives n + 1 in the header and in the counter, and no other file changes |
| `BuildInfo.MalformedCounterRaises` | build-info.py:35-41 | a counter that is not an integer raises before any file is written |
| `BuildInfo.HeaderAheadOfCounter` | build-info.py:41-56 | a run stopped between the two writes leaves a header announcing n + 1 beside a counter that still reads n |
| `BuildInfo.TwoRunsAddTwo` | build-info.py:27-56 | two runs in a row advance both files by two |
| `BuildInfoNew.ReadHeader` | build-info-new.py:25-46 | the BUILD value read from buildinfo.h, or -1 after seeding a missing file with the initial text; an existing file is not changed |
| `BuildInfoNew.WriteHeadLines` | build-info-new.py:51-55 | the JSON comment line and the banner are appended to the open file |
| `BuildInfoNew.WriteBuildLines` | build-info-new.py:56-63 | the three C declarations are appended to the open file |
| `BuildInfoNew.WriteHeader` | build-info-new.py:49-64 | the emptied buildinfo.h then holds exactly the new header |
| `BuildInfoNew.BuildInfoNewScript` | build-info-new.py:17-64 | the outcome, files and printed lines are those of NewScript |
| `BuildInfoNew.JsonLineReads` | build-info-new.py:37-44 | a header whose first line is the JSON comment of n has the BUILD value n |
| `BuildInfoNew.HeaderRoundTrip` | build-info-new.py:37-63 | the header written for build n reads back as the int n |
| `BuildInfoNew.SeedReadsMinusOne` | build-info-new.py:26-44 | the text a missing file is seeded with reads back as -1 |
| `BuildInfoNew.NewNextBuildNumber` | build-info-new.py:33-64 | a header whose BUILD value is the int n is rewritten, whole, for n + 1, which reads back as n + 1; no other file changes |
| `BuildInfoNew.NewFirstRunYieldsZero` | build-info-new.py:25-64 | a first run warns and creates the header for build 0, which reads back as 0 |
| `BuildInfoNew.RunsCountUp` | build-info-new.py:33-64 | a run after a run that finished with n finishes with n + 1 |
| `BuildInfoNew.MalformedHeaderRaises` | build-info-new.py:33-46 | a header json.loads cannot read, or without a BUILD member, raises before the file is rewritten |
| `BuildInfoNew.NonNumberEmptiesHeader` | build-info-new.py:49-50 | a BUILD value that is null, a string, an array or an object raises only after "w+" has emptied buildinfo.h, and every later run raises with the file still empty |
| `BuildInfoNew.BoolBuildFinishes` | build-info-new.py:44-57 | a bool BUILD value counts as 0 or 1: true goes on as 2, false as 1 |
| `BuildInfoNew.RewriteForgetsOldText` | build-info-new.py:49-64 | the file is rewritten, not appended to: two old headers with the same BUILD value give the same new header |
| `BuildInfoNew.Rewrite` | build-info-new.py:49-64 | buildinfo.h is emptied before the increment: a raising increment leaves it empty, otherwise it holds exactly the new header for NextNumber of the value read |
| `PyText.NatStr` | build-info.py:45 | str() of a natural number is a non-empty run of digits without a leading 0 |
| `PyText.NatStrValue` | build-info.py:45-55 | the numeral str() writes reads back as the number |
| `PyText.PyIntOfStr` | build-info.py:37-55 | int(str(n), 10) == n, so the counter the script writes is read back by the next run |
| `PyText.SignThenBlank` | build-info.py:37 | int() of Python 2 skips whitespace after the sign |
| `PyText.LStrip` | build-info.py:37 | stripping leading whitespace leaves no whitespace in front |
| `PyText.RStrip` | build-info.py:37 | stripping trailing whitespace leaves no whitespace at the end |
| `PyText.StripBare` | build-info.py:37 | a text without whitespace at either end is its own strip |
| `PyText.ReplaceKeeps` | build-info-new.py:40-41 | replace() keeps a prefix that holds no first character of the pattern |
| `PyText.ReplaceFront` | build-info-new.py:40-41 | replace() drops an occurrence of the pattern at the front |
| `PyText.FirstLine` | build-info-new.py:37-39 | splitlines()[0] raises exactly on the empty text |
| `PyText.FirstLineOf` | build-info-new.py:37-39 | the first line of a text that starts with a break-free line ended by a new line is that line |
| `PyFiles.JoinDiffers` | build-info.py:24-25 | two names joined to the same directory are two different paths |
| `PyFiles.Disk.constructor` | build-info.py:29 | the disk holds the given files |
| `PyFiles.Disk.Create` | build-info.py:31-54 | open with "w+" creates the file, or empties it when it exists, and changes no other file |
| `PyFiles.Disk.Write` | build-info.py:44-45 | a write appends to the open file only |
| `PyFiles.Disk.Read` | build-info.py:35-36 | read() returns the whole file |
| `PyJson.SkipWs` | build-info-new.py:43 | the whitespace skip stops at the first non-whitespace character or the end |
| `PyJson.UnitAt` | build-info-new.py:43 | a character or escape of a string is read past, never beyond the text |
| `PyJson.ParseValue` | build-info-new.py:43 | a value that scans ends after its start and within the text |
| `PyJson.Loads` | build-info-new.py:43 | json.loads raises ValueError on an empty or all-whitespace text: a value is found only where a non-whitespace character is |
| `PyJson.Lookup` | build-info-new.py:44 | parsed_json['BUILD'] finds a value exactly when some member has the key |
| `PyJson.LookupLastWins` | build-info-new.py:44 | of two members with the same key the later one wins, as dict() keeps it |
| `PyJson.LookupSkipsOthers` | build-info-new.py:44 | a member with another key does not change what the lookup finds |
| `PyJson.ParseIntStr` | build-info-new.py:43-51 | a numeral str() wrote for n, followed by what cannot continue a number, parses as the int n |
| `PyJson.MembersOfBuild` | build-info-new.py:43-51 | the one member BUILD the script writes, closed by a brace, scans as that member |
| `PyJson.LoadsBuildObject` | build-info-new.py:40-53 | the object the script writes for build n, between the blanks the comment markers leave, loads as the object whose BUILD member is the int n |

## Left out

Contracts stated weaker than the code, or preconditions the code does not demand:

- TinyFsDriver.TinyFs.NewFile: requires the directory entry 0 ("$$FAT$$") to record a size of at most FS_DTA_SIZE (64) bytes, because tiny-fs.c:380-381 reads FileSize bytes of it into the 64-byte DTA without a check; a media image with a larger size there is not modelled.
- TinyFsDriver.TinyFs.OpenInSlot: the same requirement on the size of directory entry 0, for the same reason.
- TinyFsDriver.TinyFs.LoadTable: the same requirement on the size of directory entry 0, for the same reason.
- TinyFsDriver.TinyFs.CloseFile: on a handle whose pmutex is NULL it releases nothing, where the C code dereferences the NULL pointer.
- FileIo.OpenWaiting: once the scheduler runs, tries at most `waits` more times and then returns FR_TOO_MANY_OPEN_FILES, where file_io.c:42-54 sleeps 10 ms and retries without end until another task frees a slot; other tasks are not modelled, so no slot is ever freed between tries.
- FileIo.ReadBytes: bounded by `waits` through OpenWaiting, and requires the size of directory entry 0 to fit the DTA as NewFile does.
- FileIo.ReadNamed: bounded by `waits` through OpenWaiting, and requires the size of directory entry 0 to fit the DTA as NewFile does.
- FileIo.WriteBytes: bounded by `waits` through OpenWaiting, and requires the size of directory entry 0 to fit the DTA as NewFile does.
- FileIo.WriteNamed: bounded by `waits` through OpenWaiting, and requires the size of directory entry 0 to fit the DTA as NewFile does.
- FileIo.WriteBytesAsWritten: bounded by `waits` through OpenWaiting, and requires the size of directory entry 0 to fit the DTA as NewFile does.
- FileIo.WriteNamedAsWritten: bounded by `waits` through OpenWaiting, and requires the size of directory entry 0 to fit the DTA as NewFile does.
- IpHelpers.ReadIPConfigFile: requires the size of directory entry 0 to fit the DTA, as NewFile does.
- IpHelpers.SaveIPConfigFile: requires the size of directory entry 0 to fit the DTA, as NewFile does.
- Startup.ReadCfgFile: requires the size of directory entry 0 to fit the DTA, as NewFile does.
- Startup.InitNic: requires the size of directory entry 0 to fit the DTA, as NewFile does.
- Startup.WriteCfgFile: the byte count `bw` that SaveIPCfg passes uninitialised is the parameter `stale`; whatever it holds is what a failed write leaves in it.
- Json.DeserializeJson: requires the name and the value found in the text to be shorter than the `name` and `sz` buffers of the destination, because json.c:558 and json.c:615 copy them with memcpy without a check; an overflowing copy is not modelled.
- ConfFn.GetRebootAction: assumes the one-byte reb_cause_t and DIR_Entry_t status of the short-enum ABI the firmware is built with; under -fno-short-enums the cause takes 4 bytes, the MAC moves to offset 4, ip_arr to offset 12 and the settings record to 152 bytes, and the offsets of the model no longer match.
- ConfFn.SaveField: assumes the same one-byte reb_cause_t, so every setter's field offset is that of the short-enum layout.
- ConfFn.SetRebootCause: assumes the same one-byte reb_cause_t.
- ConfFn.GetMac: states the value Get_MAC returns; in warm mode a failed Read_FRAM ends in FRAM_Read_Error_Handler (conf_fn.c:74-77), a run that returns nothing and that this function does not describe.
- ConfFn.GetIpParams: states the value returned; a failed Read_FRAM in Get_IP_Pair_fom_NVMEM (conf_fn.c:114-117) halts and is not described.
- ConfFn.GetGiPeriod: states the value returned; a failed Read_FRAM (conf_fn.c:177-180) halts and is not described.
- ConfFn.GetRootTopic: states the array designated on return; a failed Read_FRAM (conf_fn.c:220-223) halts and is not described.
- ConfFn.GetPubIdString: states the array designated on return; a failed Read_FRAM (conf_fn.c:241-244) halts and is not described.
- ConfFn.GetSubIdString: states the array designated on return; a failed Read_FRAM (conf_fn.c:262-265) halts and is not described.
- Nvmem.ReadFram: the bounds rule adds addr + len without wrap-around, where nvmem.c:49 adds them in 32 bits; a range whose end wraps past 2^32 is refused by the model but would pass the C test.
- Nvmem.WriteFram: the same bounds rule without 32-bit wrap-around.
- BuildInfo.BuildInfoScript: the warning of build-info.py:30 prints the path as os.path.join builds it, where str() of the pathlib2 Path prints it normalised ("./out" gives "out/buildinfo.num"); only the printed line differs, the file opened is the same.
- PyFiles.Disk.Create: open(..., "w+") always succeeds, where build-info.py:31, 41 and 54 and build-info-new.py:30 and 49 raise IOError when the directory of the path does not exist; a missing output directory is not modelled.
- Manchester.InitContext: takes the timer clock and prescaler as integers; the floating-point and clock-register arithmetic that derives halfBitTime is left out.
- Manchester.Div32: gives 0 for a zero divisor, where the C division is undefined; InitContext's checks exclude that case.
- LanArp.ArpCache.ArpFilter: ARP_TIMEOUT_S is the parameter `timeout`, since it is defined in none of the files modelled; the reply to a request is returned as a message, and sending it is not modelled.
- NumHelpers.StrToNum: models the code as written, with its 64-bit wrap-around; the corrected classification is NumHelpers.Classify, related to it by NumHelpers.AgreeBelow64Bits; the float path (stof) is only named, not computed.
- AsciiHelpers: a NULL buf, for which isHex and isDec give false and the converters 0 (ascii_helpers.C:20, 50, 112, 136, 166 and 188), is not modelled; a field is always a byte sequence.
- TftpPacket: the MASTERBOARD build is modelled, with TFTP_DATA_LEN_MAX 512; the SLAVEBOARD build's FS_CLUSTER_SIZE * 8 = 128-byte block (TFTP_data.h:42-48) is not.
- TftpServer: the build without TFTP_STRESS_TEST is modelled; with it, tftp_server.c:527-531 and 651-662 serve a file of dummy bytes instead of reading FRAM or flash, which is not modelled.
- LanPool.Lan.ReadSock: the word-aligned fast copy at lan.c:1823-1835 is modelled on its counter only (LanPool.FastWordsAsWritten); the bytes are moved as the byte path at lan.c:1837-1842 moves them.

Where the design description and the code disagree, the model follows the code:

- TftpServer.ReplyAck: sets TFTP_STATE_SENDING_ACK before the send, so an ERR_ABORT held before the call is not kept; only a failed send ends in ERR_ABORT.
- ManchesterBits.Sbfr: field[flen-1] is the most significant byte, as the code shifts it, although the field[0] wording of the comments says the reverse.
- BuildInfoNew.BuildInfoNewScript: build-info-new.py:39 mixes tabs and spaces, which Python 3 rejects, so both scripts are modelled under Python 2 semantics (`str`, `int()`, `json.loads`, files opened with "w+" truncated).

Parts of the system outside the model:

- Hardware: the enc28j60 driver and SPI transfers, the RTC, the CRC unit (CRC32 is an uninterpreted function parameter), MANCHESTER_Receive, sampleAt, receiveBit, capturePulse, configTimer and the line timing inside transmitBit.
- RTOS: mutexes and critical sections are no-ops, task delays are not modelled, and the scheduler state is a boolean parameter.
- Media errors: Nvmem.ReadFram takes the outcome of its SPI transfers as the input `ioOk` and Nvmem.WriteFram takes that of each of its transfers as the input `io`, and the driver lets each of its media calls fail, so every FR_DISK_ERR path stays reachable.
- Network: the socket loops of tftpd_run, TFTP_Wait_for_Ack (SendFile takes the acknowledgements as input), TFTP_Write_File (a stub in the code), TFTP_Int_Err_Handler and TFTP_Check_for_Abort; the eth/ip send and receive path and lan_poll; arp_resolve, the sending of ARP requests and arp_get_entry_string; the DHCP and TCP code, compiled out by lan.h; mqtt_sn.c and ntp.c.
- JSON: deserialize_json_f, which wraps deserialize_json around a file read.
- tiny-fs: f_open, f_close and f_unlink are one-line wrappers around NewFile, CloseFile and DeleteFile (tiny-fs.c:330-333, 504-507, 584-588) and are not modelled apart; f_unlink always returns FR_INVALID_OBJECT. f_rewind is TinyFs.FRewind.
- conf_fn.c: Power_Loss, Warm_Boot and Init_FRAM_settings depend on the SPS/MV/CMD arrays of opentherm_task.c, which is not part of this model; FRAM_Read_Error_Handler and FRAM_Write_Error_Handler never return, which the methods report as halted, after an access outside the chip or a failed SPI transfer alike; Test_FRAM exercises the chip.
- Startup: AppStartUp beyond Init_NIC, SaveIPCfg and the IP_Cfg_File_Default record.
- Floating point: stof in num_helpers.c.
- Output only: myCRT escape sequences and the xputs text; log output is modelled as a sequence of console actions.
- Build scripts: the date and time stamp is a parameter, str() of a float is the parameter `floatNext`, and command-line handling is reduced to whether a path argument is present.
- Pointers and NULL: NULL arguments are booleans or `Option` values; aliasing between buffers is excluded by requires clauses where the code's callers never alias.

## Findings

| source | as written | input that shows it | evidently intended | confidence | as-written member | corrected member |
|---|---|---|---|---|---|---|
| Core/Src/tftp/mystrcpy.c:45-48 | when nbytes reaches past maxsrcaddr the limit is maxsrcaddr - (*src + 1), two bytes fewer than the bytes from *src to maxsrcaddr inclusive | an RRQ for file "f" in mode "octet" that ends the packet: the mode is copied as "octe" | the window ends exactly at maxsrcaddr | not executed | `StrCopy.LimitAsWrittenTwoShort` | `StrCopy.MyStrCpy` |
| Core/Src/tftp/tftp_server.c:521-523 | the requested name is compared with strcmp after being cut to at most 8 characters | a request for "settings.bin" or "image.bin": neither name ever matches | the served names can be opened | not executed | `TftpServer.NoNameMatchesAsWritten` | `TftpServer.OpenFile` |
| Core/Src/json/json.c:340-371 | the four hex digits of a \u escape are tested starting at the 'u' itself | the escape \u0041 for "A": rejected, because 'u' is not a hex digit | \u followed by four hex digits is accepted (section 7 of RFC 8259) | not executed | `Json.UnicodeEscapeRejectedAsWritten` | `Json.CheckEsc` |
| Core/Src/json/json.c:164-200 | the closing quote of a string value decrements remain without checking it | the pair {"ab":"c"} serialized into a 10-byte buffer: accepted, although text and NUL take 11 bytes | JSON_ERR_NOROOM when the value does not fit | not executed | `Json.SerializeOverflowAsWritten` | `Json.SerializeJson` |
| Core/Src/tiny-fs/tiny-fs.c:681-697 | freeClusters releases the clusters of FileSize bytes, none for size 0 | a file created with size 0 and deleted: its one cluster stays busy | the one cluster NewFile allocated for a size-0 file is released | not executed | `TinyFsClusters.ZeroSizeLeaksAsWritten` | `TinyFsClusters.FreeClusters` |
| Core/Src/tiny-fs/tiny-fs.c:687-696 | the released range is not checked against the end of the cluster table | a directory entry 512 clusters into the data area: a bit of byte 64 is flipped, past the 64-byte DTA | a range outside the table is refused | not executed | `TinyFsClusters.UncheckedRangeAsWritten` | `TinyFsClusters.ReleaseRange` |
| Core/Src/tiny-fs/tiny-fs.c:487-492 | a failed open stores 0 in mutexes[slot] with the slot FindFreeSlot returned | every handle slot taken: the failed open writes mutexes[FS_CONCURRENT_FILES], past the array | a failed open releases only a slot it took | not executed | `TinyFsDriver.SlotReleaseAsWritten` | `TinyFsDriver.TinyFs.ExitSlot` |
| Core/Src/tiny-fs/tiny-fs.c:1277-1281 | btr is compared with the bytes left after a cast to int32_t | btr = 2^31 from the start of a 100-byte file: all 2^31 bytes are asked of the media | at most the 100 bytes left are read | not executed | `TinyFsFiles.ReadCastAsWritten` | `TinyFsFiles.ReadCount` |
| Core/Src/tiny-fs/tiny-fs.c:1205-1218 | btw is compared with the room left after a cast to int32_t | btw = 2^31 into an empty file: all 2^31 bytes are handed to the media | at most the file's one cluster is written | not executed | `TinyFsFiles.WriteCastAsWritten` | `TinyFsFiles.WriteCount` |
| Core/Src/helpers/file_io.c:114-123 | f_close runs on every path after NewFile, also when NewFile refused the file with FR_LOCKED | a file another handle holds open, written through WriteBytes: the close marks that entry closed | a refused open is not closed | not executed | `FileIo.LockedCloseClosesOtherHandle` | `FileIo.WriteBytes` |
| Core/Src/manchester/manchester.c:876-892 | the mask of the partial last byte is reset inside the loop, so every round sends the same bit | the last three bits of 0x06: 0,0,0 LSB first and 1,1,1 MSB first | 0,1,1 LSB first and 1,1,0 MSB first | not executed | `Manchester.LastByteRepeats` | `Manchester.TransmitLastBits` |
| Core/Src/manchester/bit_queue.c:33-37 | the full test is pFirst > 32, so a put with 32 bits held shifts the oldest bit out | 32 ones and then a 33rd put: the oldest bit dequeued is 0 where a 1 was put | bqFull with 32 bits held | not executed | `BitQueue.FullQueueLosesBit` | `BitQueue.PutBitInQueue` |
| Core/Src/lan/lan.c:1562-1573 | the "no slot" result -1 is kept in a uint8_t and used as an index | a full cache of hosts 1, 2 and 3 and a response from host 4: arp_cache[255] is written | the oldest entry is replaced | not executed | `LanArp.FullCacheResponse` | `LanArp.ArpCache.ArpFilter` |
| Core/Src/lan/lan.c:1823-1835 | the word counter is the byte count divided by 4 and is then decremented by 4 per word | a 16-byte payload with the caller's buffer word-aligned and the frame buffer placed so that the UDP payload at offset 42 (UDP_PAYLOAD_START; bind_socket makes only UDP sockets) is word-aligned, that is the frame buffer at 2 mod 4: one word, 4 of its 16 bytes, is copied; a word count that is not a multiple of 4 never reaches 0; a word-aligned frame buffer never takes this path, so whether the defect is reachable depends on where the linker places the buffer | one word copied per 4 bytes, the payload copied whole | not executed | `LanPool.FastCopyNeverEnds` | `LanPool.Lan.ReadSock` |
| Core/Src/helpers/num_helpers.c:88-103 | the digits are accumulated in a uint64_t that wraps | "18446744073709551616" (2^64): classified U8_VAL 0 | a magnitude beyond 32 bits goes to stof | not executed | `NumHelpers.OverflowWrapsToSmallInteger` | `NumHelpers.UnsignedGetsSmallestType` |
