# CH341 SPI flash programmer: the flash-transfer core of `Device`

This project models the flash-transfer core of the `Device` class of a CH341
USB-to-SPI NAND/NOR programmer written in Python (`main.py`). It covers:

- the SPI transaction primitives `write_spi_341` / `read_spi_341` and the
  open-guarded `SPIWrite` / `SPIRead`;
- the command layer: WREN, WRDI, EN4B, EX4B, enable/disable write, enable/disable
  4-bit mode, the status-register reads and the two busy predicates;
- the address-header builders for 3-byte reads, 4-byte reads, 4-byte page
  programs and `UsbAsp25_*`;
- the page transfer engine: `read_page`, `write_page` (page program, busy
  wait, optional read-back before and after), `read_bytes` and `write_bytes`;
- `byte_to_hex_string`.

The CH341 library is a class `Transport.Adapter` that records every call
(`setD5D0`, `streamSPI4`, `setStream`, `setDelaymS`) in a log `log`. The
device's answers come from a byte stream `miso`. Every `streamSPI4` exchange
is full duplex: it clocks out its buffer and clocks in as many bytes. An
exhausted stream reads `0xFF`, as an idle-high MISO line does.

Every `Flash.Device` method is proved to make exactly the adapter calls, and
to consume exactly the MISO bytes, that a specification function in module
`Transfer` or `Commands` describes. The properties of the programmer are
proved as lemmas about those functions. Examples: the address walk of the
page loops, the page layout of the `read_page` result, the commands streamed
in 3- and 4-byte mode, the number of status reads of a busy wait, and the
write-verify report.

Modules:

- `Bytes`: bytes, big-endian values, the MISO stream helpers.
- `Results`: `Option`, `Result` and the errors.
- `Transport`: the adapter mock.
- `Commands`: opcodes, address headers, status predicates, the call lists of
  the primitives.
- `Transfer`: geometry, the address walk, `read_page` / `write_page` /
  `read_bytes` / `write_bytes` as specification, busy polling.
- `Flash`: the `Device` class.
- `Hex`: `byte_to_hex_string`.

Integers are unbounded. Python's `>>` and `& 0xFF` on an int are floor
division by a power of two and a non-negative remainder. Dafny's `/` and `%`
with a positive divisor compute exactly these, so the headers are exact for
every address, negative ones included. `//` in `read_bytes` / `write_bytes`
is floor division, which is also Dafny's `/` for a positive divisor.

Notes on what the code does:

- The busy wait of `write_page` is `while is_spi_25_busy(): is_spi_25_busy()`
  (main.py:741-743). The loop test and the printed call each read the status
  register. A device busy for N tests therefore costs 2N + 1 status reads
  (`Transfer.PollCountBusyThenReady`).
- `is_spi_25_busy` treats any status byte other than `0xFF` as busy. It does
  not test bit 0 of status register 1; only `UsbAsp25_Busy` does that
  (`Commands.BusyPredicatesDiffer`).
- `write_page` issues a page program only when the chip is larger than
  16 MiB. At or below that size its loop only polls the status
  (`Transfer.NoProgramAtOrBelow16MiB`).
- `read_page` strides by `PAGE_DATA_SIZE` but appends one whole `PAGE_SIZE`
  buffer per iteration, zero-filled past the bytes read. It does not use the
  `0x840` stride that its docstring shows (`Transfer.ReadLoopDataLength`,
  `Transfer.ReadPageRange`).
- `read_16bit_address_spi25_341` sends a 3-byte (24-bit) address, whatever
  its name says (`Commands.Read3Header`).
- `read_page` with `verbouse` on prints the expected time from
  `page_time_ms`, which only `open()` stores (main.py:854-858). Without it
  the print raises AttributeError after the 4-byte mode switch, and
  `read_bytes` always reads with `verbouse` on
  (`Transfer.VerboseReadNeedsPageTime`).

## Model

| member | source | states |
|---|---|---|
| Commands.Read3Header | main.py:594-607 | the 3-byte read header is 0x03 then three address bytes whose big-endian value is the address mod 2^24 |
| Commands.AddrHeader32 | main.py:209-236 | opcode then four shift-and-mask bytes whose big-endian value is the address mod 2^32 |
| Commands.Read4Header | main.py:567-592 | the 4-byte read header is 0x03 then the big-endian address mod 2^32 |
| Commands.ProgramHeader | main.py:609-617 | the page-program header is 0x02 then the big-endian address mod 2^32 |
| Commands.UsbAspHeader | main.py:246-249 | UsbAsp25_Write's header is opcode, bits 15..8, bits 23..16, bits 7..0: read as bytes 2, 1, 3 it is the address mod 2^24 |
| Commands.UsbAspHeaderIsNotBigEndian | main.py:246-249 | that header is not big-endian: address 0x100 goes out as 0x10000 |
| Commands.BusyPredicatesDiffer | main.py:383-388 | is_spi_25_busy (status != 0xFF) and UsbAsp25_Busy (bit 0, main.py:252-255) disagree on an idle line (0xFF) and on 0xFE |
| Commands.PrimitiveStreams | main.py:528-550 | write_spi_341, read_spi_341 and SPIWrite/SPIRead each stream their buffer once and only once |
| Commands.ModeSwitchStreams | main.py:297-311 | EN4B streams 06, B7, 17, 80 and EX4B streams 06, E9, in that order |
| Transfer.DefaultGeometryIsFourByte | main.py:101-109 | the constructor defaults give a 138412032-byte chip (above 16 MiB, so 4-byte mode), 2048 data bytes per page and 64 pages per block |
| Transfer.ChunksCover | main.py:667-682 | the clamped walk covers [address, limit) exactly: chunk k starts k steps in, no chunk is empty or longer than a step, only the last is short, lengths sum to the range |
| Transfer.ChunksExact | main.py:667-682 | a range of n whole steps is walked in n full chunks |
| Transfer.ReadLoopDataLength | main.py:668-682 | read_page's result holds one whole PAGE_SIZE buffer per iteration |
| Transfer.ReadLoopDataPage | main.py:668-682 | page k of the result, bytes k*PAGE_SIZE to (k+1)*PAGE_SIZE, holds the device's bytes for chunk k (clocked after the earlier chunks and chunk k's header) followed by zeros |
| Transfer.ReadLoopStreams | main.py:672-678 | iteration k streams its address header and then `length` zero bytes |
| Transfer.ReadPageFourByteStreams | main.py:659-690 | above 16 MiB, read_page streams EN4B before its loop, EX4B after it and 5-byte read headers at each chunk's address |
| Transfer.ReadPageThreeByteStreams | main.py:659-690 | at or below 16 MiB, read_page streams two buffers per chunk, the first a 0x03 header with a 3-byte address at the chunk's address, and never B7 or E9 |
| Transfer.ReadPageRange | main.py:642-700 | read_page(start, end) with 0 < end and start <= end makes end - start full iterations at start*D + k*D, counts (end - start)*D bytes and returns end - start whole pages |
| Transfer.ReadPageEmptyRange | main.py:651-667 | with 0 < end <= start nothing is read: empty result, zero count, only the mode switch |
| Transfer.ReadPageWholeChip | main.py:647-682 | without a page range, or with end <= 0, the whole chip is walked from address 0 in PAGE_DATA_SIZE strides; the count is the chip size and the result holds one PAGE_SIZE buffer per chunk |
| Transfer.VerboseReadNeedsPageTime | main.py:659-664 | a verbose read_page without a stored page time fails with MissingPageTime (AttributeError, raised before `end_page - start_page` is evaluated, so whatever the pages), or NotOpen on a closed chip above 16 MiB; it counts no byte and streams only EN4B above 16 MiB, all one-byte commands |
| Transfer.ReadThreePagesDefault | main.py:642-700 | with the defaults read_page(0, 3) returns 6336 bytes and counts 6144 |
| Transfer.PollCount | main.py:741-743 | the busy wait makes an odd number of status reads |
| Transfer.PollCountBusyThenReady | main.py:741-743 | a device busy for exactly N loop tests and then idle costs 2N + 1 status reads |
| Transfer.StatusPollStreams | main.py:383-388 | every busy test of the wait streams the opcode 0x05 and then a one-byte 0xFF buffer, two streams per test |
| Transfer.PollCountEndsReady | main.py:741-743 | the last status read of the wait is a loop test that saw 0xFF (not busy) |
| Transfer.ProgramLoopPieces | main.py:731-746 | write_page's loop takes the data stream apart in order: one iteration per chunk, each taking the chunk's length, the pieces concatenating back to the data |
| Transfer.WritePagePlan | main.py:716-746 | write_page programs at start*PAGE_SIZE + k*PAGE_SIZE; every piece except the last is PAGE_SIZE, none is empty; the pieces reassemble the file |
| Transfer.NoProgramAtOrBelow16MiB | main.py:738-743 | at or below 16 MiB the only streams between write enable and disable are status polls |
| Transfer.WritePageReport | main.py:720-765 | with verify_write the report is "Nothing changed" exactly when the read-backs before and after are equal; a closed device above 16 MiB fails before anything is sent |
| Transfer.PageUnit | main.py:771-778 | the offset unit is at most PAGE_SIZE, and equals it exactly when OOB bytes are included or there are none |
| Transfer.ReadBytesWindow | main.py:768-778 | with exclude_oob (and a page time stored), read_bytes reads from the page boundary at or below `from` to the one at or below `from + to` (partial last page not read), or the whole chip below one page |
| Transfer.ReadBytesShortRangeReadsWholeChip | main.py:768-778 | with a page time stored, fewer than one unit of bytes reads exactly what read_page with no pages reads |
| Transfer.WriteBytesStart | main.py:780-788 | write_bytes starts writing at the unit boundary at or below `from`, moved up by the OOB bytes of every earlier page when exclude_oob is set |
| Transfer.WriteBytesDefaultOffset | main.py:780-788 | with the defaults write_bytes(2048) programs its first byte at address 2112 |
| SharedBytes.SharedSends | main.py:379-388 | with CPython's shared one-byte objects, the k-th one-byte exchange sends what its object holds: its value on first use |
| SharedBytes.FirstUseSendsValue | main.py:379-388 | a one-byte command's first exchange sends its own value |
| SharedBytes.SecondStatusPollIsStale | main.py:383-388 | the second of two busy tests sends the byte MISO returned under the first opcode in place of 0x05 (0xFF on an idle line) |
| Hex.HexUnpadded | main.py:374 | `hex(x)[2:].upper()` has one digit below 0x10 and two from 0x10 on |
| Hex.ByteToHexString | main.py:372-377 | the text of byte_to_hex_string as written always has even length |
| Hex.ByteToHexStringCollides | main.py:372-377 | as written, 0x12 and 0x01 0x02 both give "12" |
| Hex.ByteToHexStringAgrees | main.py:372-377 | when no byte is below 0x10 the source's text is the two-digits-per-byte text |
| Hex.HexString | main.py:372-377 | the intended text has two digits per byte |
| Hex.HexStringRoundTrip | main.py:372-377 | the intended text decodes back to the bytes |
| Flash.Device.constructor | main.py:101-111 | a new device holds its geometry, is not open and has no page time |
| Flash.Device.MeasurePageTime | main.py:854-858 | open()'s benchmark read_page(0, 3) without verbose output; a page time is stored only when it succeeds |
| Flash.Device.Attach | main.py:818-821 | a successful open records dev_open and dev_index |
| Flash.Device.SpiInit | main.py:117-122 | NotOpen on a closed device; otherwise setStream(129) then chip select driven low |
| Flash.Device.SpiDeinit | main.py:124-127 | NotOpen on a closed device; otherwise D5..D0 released |
| Flash.Device.StartSpiMode25 | main.py:631-640 | stream mode 0x80, 50 ms, 0xAB with chip select released, 2 ms |
| Flash.Device.StopSpiMode25 | main.py:627-629 | D5..D0 released on adapter 0 |
| Flash.Device.EnterProgMode25 | main.py:258-265 | spi_init, then 0xAB on the adapter's chip select when asked |
| Flash.Device.ExitProgMode25 | main.py:267-268 | spi_deinit |
| Flash.Device.WriteSpi341 | main.py:542-550 | no open check; chip select low, the stream, chip select released only for value 1; returns buffer_len |
| Flash.Device.ReadSpi341 | main.py:528-540 | as write_spi_341, the buffer filled from MISO, the release going to dev_index |
| Flash.Device.SpiWrite | main.py:337-349 | NotOpen on a closed device; otherwise one stream on the adapter's or the hand-driven chip select; returns -1 |
| Flash.Device.SpiRead | main.py:314-335 | as SPIWrite, with the buffer filled from MISO |
| Flash.Device.UsbAsp25ReadSR | main.py:192-194 | the opcode, then the status byte read into sreg[0] |
| Flash.Device.UsbAsp25Busy | main.py:252-255 | busy exactly when bit 0 of the status byte is set |
| Flash.Device.UsbAsp25Wren | main.py:271-273 | 0x06 on the adapter's chip select |
| Flash.Device.UsbAsp25Wrdi | main.py:275-277 | 0x04 on the adapter's chip select |
| Flash.Device.UsbAsp25EN4B | main.py:297-306 | WREN, B7, the bank register write 17 and EXTADD 80 |
| Flash.Device.UsbAsp25EX4B | main.py:308-311 | WREN, E9 |
| Flash.Device.UsbAsp25Read32bitAddr | main.py:209-225 | the 5-byte header, then the buffer read from MISO |
| Flash.Device.UsbAsp25Write32bitAddr | main.py:227-236 | the 5-byte header, then the buffer |
| Flash.Device.UsbAsp25Write | main.py:246-249 | the 4-byte header, then the buffer |
| Flash.Device.ReadRegisterSpi25 | main.py:379-381 | the opcode, then one status byte read into the register buffer |
| Flash.Device.IsSpi25Busy | main.py:383-388 | busy exactly when the status byte read is not 0xFF; two MISO bytes consumed |
| Flash.Device.EnableWrite | main.py:409-410 | 0x06 with chip select released |
| Flash.Device.DisableWrite | main.py:412-413 | 0x04 with chip select released |
| Flash.Device.Enable4BitMode | main.py:416-417 | 0xB7 with chip select released |
| Flash.Device.Disable4BitMode | main.py:419-420 | 0xE9 with chip select released |
| Flash.Device.Read32bitAddressSpi25 | main.py:567-592 | the 4-byte read header, then page_size bytes read from MISO into the buffer |
| Flash.Device.Read16bitAddressSpi25 | main.py:594-607 | the 3-byte read header, then page_size bytes read from MISO into the buffer |
| Flash.Device.Write32bitAddressSpi25 | main.py:609-625 | the program header, the page with chip select released, 2 ms; returns page_size |
| Flash.Device.WaitWhileBusy | main.py:741-743 | makes PollCount status reads and consumes two MISO bytes each |
| Flash.Device.ReadPageChunk | main.py:668-682 | one iteration: a zeroed PAGE_SIZE buffer filled with `length` bytes at the chunk's address |
| Flash.Device.ReadPageLoop | main.py:667-685 | the loop equals the read walk's specification: data, count, calls, MISO left |
| Flash.Device.ReadPage | main.py:642-700 | read_page equals its specification: result or NotOpen, count, calls, MISO left; with `verbouse` on and no page time or a missing page, the failure after the mode switch |
| Flash.Device.ReadPageVerboseFails | main.py:659-664 | the verbose path's failure: NotOpen on a closed device above 16 MiB, otherwise EN4B above 16 MiB and then MissingPageTime or PageRangeNone |
| Flash.Device.ProgramPage | main.py:733-743 | one loop body: the page program above 16 MiB, then the busy wait |
| Flash.Device.WritePageIteration | main.py:731-746 | one iteration, clamp and stream read included, keeps the loop invariant |
| Flash.Device.WritePageLoop | main.py:731-746 | the loop equals the program loop's specification: calls and MISO left |
| Flash.Device.WriteBodyRun | main.py:722-753 | write enable, 4-bit mode above 16 MiB, the loop, back out, write disable |
| Flash.Device.WriteVerified | main.py:718-765 | read-back, body, read-back, and the comparison report |
| Flash.Device.WritePage | main.py:702-765 | write_page equals its specification: MissingArgument without a page or file, otherwise report, calls, MISO left |
| Flash.Device.ReadBytes | main.py:768-778 | a verbose read_page over the pages of the offsets in the chosen unit: without a page time, MissingPageTime after the mode switch |
| Flash.Device.WriteBytes | main.py:780-788 | write_page from the page of the offset in the chosen unit, with verify_write on |

## Left out

- Opening and closing the adapter (`open`, `close`): native library calls. Only their effect on `dev_open` / `dev_index` is modelled (`Flash.Device.Attach`).
- `time.sleep`, `print`, `zlib.crc32`, `convert_size`, `format_time` and the progress output: timing and display only.
- The file handling of `read_page` (`file`), `read_bytes` (`out`) and `write_page` (`read_from`): file I/O. The file's contents are a parameter of `WritePage`.
- The text `read_page` prints with `verbouse` on. Only whether that print raises is modelled (`Transfer.ReadPageOutcome`).
- Flash.Device.MeasurePageTime: the benchmark is modelled as reached. As written, `open()` runs it only when the chip version is at least 48 (main.py:831), and only after `UsbAsp25_ReadID` (main.py:157-168), which calls `create_string_buffer` on a `bytearray` (main.py:166) and raises TypeError there. So as written `page_time_ms` is never stored and every `read_bytes` fails (see Findings). The elapsed time itself is not modelled: only whether a page time exists.
- Flash.Device.UsbAsp25ReadSR, Flash.Device.UsbAsp25Busy, Flash.Device.UsbAsp25Wren, Flash.Device.UsbAsp25Wrdi, Flash.Device.UsbAsp25EN4B, Flash.Device.UsbAsp25EX4B, Flash.Device.EnterProgMode25, Flash.Device.StartSpiMode25, Flash.Device.ReadRegisterSpi25, Flash.Device.IsSpi25Busy, Flash.Device.EnableWrite, Flash.Device.DisableWrite, Flash.Device.Enable4BitMode, Flash.Device.Disable4BitMode, Flash.Device.WaitWhileBusy, Flash.Device.ProgramPage, Flash.Device.WritePageLoop: each one-byte `bytes([k])` is sent as the byte k. CPython shares one object per one-byte `bytes` value, and `CH341StreamSPI4` writes MISO back over it, so as written a repeated one-byte command goes out holding the byte clocked in the last time. The same holds for a one-byte last piece that `write_page` takes from its stream. Only `SharedBytes` models this sharing (see Findings).
- Flash.Device.constructor, Transfer.Geometry.Valid: the sizes are `nat` and `PAGE_OOB_SIZE < PAGE_SIZE`. The source accepts any values. With `OOB_SIZE >= PAGE_SIZE` a whole-chip `read_page` never advances (`address += 0`, main.py:682) and `read_bytes` with `exclude_oob` divides by zero (main.py:772). A negative `OOB_SIZE` makes each read longer than `PAGE_SIZE`.
- Flash.Device.WritePage: the `bytesWrite` total is only printed and is not returned.
- Transfer.VerifyEndPage: `int(iDataSize / PAGE_SIZE)` is modelled as exact truncation toward zero. Python's float division agrees only while the operands stay below 2^53.
- Flash.Device.WaitWhileBusy: the source waits forever on a device that never leaves busy. In the model the MISO stream is finite and its exhausted end reads 0xFF, so every wait ends.
- The ID probes (`UsbAsp25_ReadID`, `read_spi_chip_id_341`, `read_id_spi_mode_25`), erase, the SST writes, the status-register writes, the lock-bit helpers, `spi_read` / `spi_write`, `read_flash_bytes` and `UsbAsp25_Read`: outside the flash-transfer core.
- A failing `CH341StreamSPI4` (the native call returning false): the adapter mock always completes an exchange.
- No flash chip is simulated behind the adapter, so there is no write-then-read round trip. The device's answers are whatever the MISO stream holds.

## Findings

| source | as written | input that shows it | evidently intended | confidence | as-written member | corrected member |
|---|---|---|---|---|---|---|
| main.py:379-388 | `bytes([READ_STATUS_REG1])` and `bytes([255])` are CPython's shared one-byte objects, and `CH341StreamSPI4` overwrites them with MISO | two busy tests in a row on an idle line: the second sends 0xFF in place of the opcode 0x05 | a fresh buffer holding the opcode for every command | medium (not executed) | SharedBytes.SecondStatusPollIsStale | Transfer.StatusPollStreams |
| main.py:659-664 | the verbose `read_page` that `read_bytes` makes reads `page_time_ms`, which `open()` never stores because it raises first | any `read_bytes` call | `read_bytes` reads the pages of its window | medium (not executed) | Transfer.VerboseReadNeedsPageTime | Transfer.ReadBytesWindow |
| main.py:372-377 | each byte is printed with `hex(x)[2:]`, one digit below 0x10, and only the whole text is padded to even length | `[0x12]` and `[0x01, 0x02]` both print "12" | two digits per byte, so that the text identifies the bytes ("0102" for `[0x01, 0x02]`) | high (not executed) | Hex.ByteToHexStringCollides | Hex.HexStringRoundTrip |
