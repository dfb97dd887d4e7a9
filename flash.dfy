/** The Device class of the programmer: session state, the SPI transaction
    primitives, the flash commands and the page transfer engine, each
    method proved to make exactly the adapter calls the specification in
    module Transfer describes. */
module Flash {
  import opened Bytes
  import opened Results
  import opened Transport
  import opened Commands
  import opened Transfer

  class Device {
    const geo: ValidGeometry
    /** The CH341 library the driver calls into. */
    const adapter: Adapter
    var devOpen: bool
    var devIndex: int
    /** Whether open() has stored `page_time_ms`, which __init__ does not set. */
    var hasPageTime: bool

    constructor (g: ValidGeometry, a: Adapter)
      ensures geo == g && adapter == a && !devOpen && devIndex == 0 && !hasPageTime
    {
      geo := g;
      adapter := a;
      devOpen := false;
      devIndex := 0;
      hasPageTime := false;
    }

    /** What open() records once CH341OpenDevice has succeeded. */
    method Attach(index: int)
      modifies this
      ensures devOpen && devIndex == index && hasPageTime == old(hasPageTime)
    {
      devOpen := true;
      devIndex := index;
    }

    /** The end of open(): a quiet read_page(0, 3) is timed and the time per
        page stored, unless the read raised. */
    method MeasurePageTime() returns (r: Result<seq<byte>>)
      modifies this, adapter
      ensures devOpen == old(devOpen) && devIndex == old(devIndex)
      ensures hasPageTime == (old(hasPageTime) || r.Ok?)
      ensures var o := ReadPageSpec(geo, devIndex, devOpen, Some(0), Some(3), old(adapter.miso));
        r == o.result && adapter.log == old(adapter.log) + o.calls && adapter.miso == o.rest
    {
      var read, _ := ReadPage(Some(0), Some(3), false);
      r := read;
      if r.Ok? {
        hasPageTime := true;
      }
    }

    // -------------------------------------------------------------------
    // Pin set-up

    method SpiInit() returns (r: Result<()>)
      modifies adapter
      ensures r == (if devOpen then Ok(()) else Err(NotOpen))
      ensures adapter.log == old(adapter.log)
        + (if devOpen then [SetStream(devIndex, 129), SetD5D0(devIndex, CS_PINS, 0)] else [])
      ensures adapter.miso == old(adapter.miso)
    {
      if !devOpen {
        return Err(NotOpen);
      }
      adapter.SetStreamMode(devIndex, 129);
      adapter.SetD5D0(devIndex, CS_PINS, 0);
      r := Ok(());
    }

    method SpiDeinit() returns (r: Result<()>)
      modifies adapter
      ensures r == (if devOpen then Ok(()) else Err(NotOpen))
      ensures adapter.log == old(adapter.log) + (if devOpen then [SetD5D0(devIndex, 0, 0)] else [])
      ensures adapter.miso == old(adapter.miso)
    {
      if !devOpen {
        return Err(NotOpen);
      }
      adapter.SetD5D0(devIndex, 0, 0);
      r := Ok(());
    }

    /** start_spi_mode_25: stream mode 0x80, 50 ms, a priming 0xAB, 2 ms. */
    method StartSpiMode25()
      modifies adapter
      ensures adapter.log == old(adapter.log) + [SetStream(0, 0x80), SetDelay(0, 0x32)]
        + WriteSpiCalls(1, 0, [0xAB]) + [SetDelay(0, 2)]
      ensures adapter.miso == Drop(old(adapter.miso), 1)
    {
      adapter.SetStreamMode(0, 0x80);
      adapter.SetDelaymS(0, 0x32);
      assert [0xAB][..1] == [0xAB];
      var _ := WriteSpi341(1, 0, 1, [0xAB]);
      adapter.SetDelaymS(0, 2);
    }

    method StopSpiMode25()
      modifies adapter
      ensures adapter.log == old(adapter.log) + [SetD5D0(0, 0, 0)]
      ensures adapter.miso == old(adapter.miso)
    {
      adapter.SetD5D0(0, 0, 0);
    }

    /** EnterProgMode25: spi_init, then 0xAB with the adapter's chip select if asked. */
    method EnterProgMode25(sendAB: bool) returns (r: Result<()>)
      modifies adapter
      ensures r == (if devOpen then Ok(()) else Err(NotOpen))
      ensures adapter.log == old(adapter.log)
        + (if devOpen then [SetStream(devIndex, 129), SetD5D0(devIndex, CS_PINS, 0)]
             + (if sendAB then SpiCalls(devIndex, 1, [0xAB]) else [])
           else [])
      ensures adapter.miso == Drop(old(adapter.miso), if devOpen && sendAB then 1 else 0)
    {
      DropZero(adapter.miso);
      r := SpiInit();
      if r.Err? {
        return;
      }
      if sendAB {
        assert [0xAB][..1] == [0xAB];
        var _ := SpiWrite(1, 1, [0xAB]);
      }
    }

    method ExitProgMode25() returns (r: Result<()>)
      modifies adapter
      ensures r == (if devOpen then Ok(()) else Err(NotOpen))
      ensures adapter.log == old(adapter.log) + (if devOpen then [SetD5D0(devIndex, 0, 0)] else [])
      ensures adapter.miso == old(adapter.miso)
    {
      r := SpiDeinit();
    }

    // -------------------------------------------------------------------
    // SPI transaction primitives

    /** write_spi_341: no open check; chip select is released only for value 1. */
    method WriteSpi341(value: int, index: int, bufferLen: nat, buffer: seq<byte>) returns (n: int)
      requires bufferLen <= |buffer|
      modifies adapter
      ensures n == bufferLen
      ensures adapter.log == old(adapter.log) + WriteSpiCalls(value, index, buffer[..bufferLen])
      ensures adapter.miso == Drop(old(adapter.miso), bufferLen)
    {
      adapter.SetD5D0(index, CS_PINS, 0);
      var _ := adapter.StreamSPI4(index, 0, buffer[..bufferLen]);
      if value == 1 {
        adapter.SetD5D0(index, CS_PINS, 1);
      }
      n := bufferLen;
    }

    /** read_spi_341: as write_spi_341, but the buffer comes back filled with
        what the device sent, and the release goes to the session's index. */
    method ReadSpi341(value: int, index: int, bufferLen: nat, buffer: seq<byte>) returns (n: int, filled: seq<byte>)
      requires bufferLen <= |buffer|
      modifies adapter
      ensures n == bufferLen
      ensures filled == Take(old(adapter.miso), bufferLen) + buffer[bufferLen..]
      ensures adapter.log == old(adapter.log) + ReadSpiCalls(value, index, devIndex, buffer[..bufferLen])
      ensures adapter.miso == Drop(old(adapter.miso), bufferLen)
    {
      adapter.SetD5D0(index, CS_PINS, 0);
      var got := adapter.StreamSPI4(index, 0, buffer[..bufferLen]);
      filled := got + buffer[bufferLen..];
      if value == 1 {
        adapter.SetD5D0(devIndex, CS_PINS, 1);
      }
      n := bufferLen;
    }

    /** SPIWrite: fails on a closed device; streamSPI4 returns nothing on
        success, so the `not` test is taken and the result is -1. */
    method SpiWrite(cs: int, bufferLen: nat, buffer: seq<byte>) returns (r: Result<int>)
      requires bufferLen <= |buffer|
      modifies adapter
      ensures r == (if devOpen then Ok(-1) else Err(NotOpen))
      ensures adapter.log == old(adapter.log) + (if devOpen then SpiCalls(devIndex, cs, buffer[..bufferLen]) else [])
      ensures adapter.miso == Drop(old(adapter.miso), if devOpen then bufferLen else 0)
    {
      DropZero(adapter.miso);
      if !devOpen {
        return Err(NotOpen);
      }
      if cs == 1 {
        var _ := adapter.StreamSPI4(devIndex, HW_CHIP_SELECT, buffer[..bufferLen]);
      } else {
        adapter.SetD5D0(devIndex, CS_PINS, 0);
        var _ := adapter.StreamSPI4(devIndex, 0, buffer[..bufferLen]);
      }
      r := Ok(-1);
    }

    /** SPIRead: SPIWrite's calls, with the buffer filled from the device. */
    method SpiRead(cs: int, bufferLen: nat, buffer: seq<byte>) returns (r: Result<int>, filled: seq<byte>)
      requires bufferLen <= |buffer|
      modifies adapter
      ensures r == (if devOpen then Ok(-1) else Err(NotOpen))
      ensures filled == if devOpen then Take(old(adapter.miso), bufferLen) + buffer[bufferLen..] else buffer
      ensures adapter.log == old(adapter.log) + (if devOpen then SpiCalls(devIndex, cs, buffer[..bufferLen]) else [])
      ensures adapter.miso == Drop(old(adapter.miso), if devOpen then bufferLen else 0)
    {
      DropZero(adapter.miso);
      filled := buffer;
      if !devOpen {
        r := Err(NotOpen);
        return;
      }
      var got;
      if cs == 1 {
        got := adapter.StreamSPI4(devIndex, HW_CHIP_SELECT, buffer[..bufferLen]);
      } else {
        adapter.SetD5D0(devIndex, CS_PINS, 0);
        got := adapter.StreamSPI4(devIndex, 0, buffer[..bufferLen]);
      }
      filled := got + buffer[bufferLen..];
      r := Ok(-1);
    }

    // -------------------------------------------------------------------
    // UsbAsp25 commands (SPIWrite / SPIRead based, open check)

    /** UsbAsp25_ReadSR: opcode with chip select held, then one status byte. */
    method UsbAsp25ReadSR(sreg: seq<byte>, opcode: byte) returns (r: Result<int>, filled: seq<byte>)
      requires |sreg| >= 1
      modifies adapter
      ensures r == (if devOpen then Ok(-1) else Err(NotOpen))
      ensures devOpen ==> filled == [StatusByte(old(adapter.miso))] + sreg[1..]
      ensures adapter.log == old(adapter.log)
        + (if devOpen then SpiCalls(devIndex, 0, [opcode]) + SpiCalls(devIndex, 1, sreg[..1]) else [])
      ensures adapter.miso == Drop(old(adapter.miso), if devOpen then 2 else 0)
    {
      filled := sreg;
      assert [opcode][..1] == [opcode];
      r := SpiWrite(0, 1, [opcode]);
      if r.Err? {
        return;
      }
      r, filled := SpiRead(1, 1, sreg);
      DropDrop(old(adapter.miso), 1, 1);
      assert Take(Drop(old(adapter.miso), 1), 1) == [StatusByte(old(adapter.miso))];
    }

    /** UsbAsp25_Busy: bit 0 of status register 1. */
    method UsbAsp25Busy() returns (r: Result<bool>)
      modifies adapter
      ensures r == (if devOpen then Ok(UsbAsp25BusyBit(StatusByte(old(adapter.miso)))) else Err(NotOpen))
      ensures adapter.log == old(adapter.log)
        + (if devOpen then SpiCalls(devIndex, 0, [READ_STATUS_REG1]) + SpiCalls(devIndex, 1, [STATUS_IDLE]) else [])
      ensures adapter.miso == Drop(old(adapter.miso), if devOpen then 2 else 0)
    {
      assert [STATUS_IDLE][..1] == [STATUS_IDLE];
      var s, sreg := UsbAsp25ReadSR([STATUS_IDLE], READ_STATUS_REG1);
      if s.Err? {
        return Err(s.error);
      }
      r := Ok(UsbAsp25BusyBit(sreg[0]));
    }

    method UsbAsp25Wren() returns (r: Result<int>)
      modifies adapter
      ensures r == (if devOpen then Ok(-1) else Err(NotOpen))
      ensures adapter.log == old(adapter.log) + (if devOpen then SpiCalls(devIndex, 1, [WRITE_ENABLE]) else [])
      ensures adapter.miso == Drop(old(adapter.miso), if devOpen then 1 else 0)
    {
      assert [WRITE_ENABLE][..1] == [WRITE_ENABLE];
      r := SpiWrite(1, 1, [WRITE_ENABLE]);
    }

    method UsbAsp25Wrdi() returns (r: Result<int>)
      modifies adapter
      ensures r == (if devOpen then Ok(-1) else Err(NotOpen))
      ensures adapter.log == old(adapter.log) + (if devOpen then SpiCalls(devIndex, 1, [WRITE_DISABLE]) else [])
      ensures adapter.miso == Drop(old(adapter.miso), if devOpen then 1 else 0)
    {
      assert [WRITE_DISABLE][..1] == [WRITE_DISABLE];
      r := SpiWrite(1, 1, [WRITE_DISABLE]);
    }

    /** UsbAsp25_EN4B: fails before sending anything on a closed device. */
    method UsbAsp25EN4B() returns (r: Result<int>)
      modifies adapter
      ensures r == (if devOpen then Ok(-1) else Err(NotOpen))
      ensures adapter.log == old(adapter.log) + (if devOpen then En4bCalls(devIndex) else [])
      ensures adapter.miso == Drop(old(adapter.miso), if devOpen then 4 else 0)
    {
      DropZero(adapter.miso);
      r := UsbAsp25Wren();
      if r.Err? {
        return;
      }
      assert [ENABLE_4BIT_MODE][..1] == [ENABLE_4BIT_MODE];
      r := SpiWrite(1, 1, [ENABLE_4BIT_MODE]);
      assert [BANK_REGISTER_WRITE][..1] == [BANK_REGISTER_WRITE];
      r := SpiWrite(0, 1, [BANK_REGISTER_WRITE]);
      assert [BANK_EXTADD][..1] == [BANK_EXTADD];
      r := SpiWrite(1, 1, [BANK_EXTADD]);
      DropDrop(old(adapter.miso), 1, 1);
      DropDrop(old(adapter.miso), 2, 1);
      DropDrop(old(adapter.miso), 3, 1);
    }

    method UsbAsp25EX4B() returns (r: Result<int>)
      modifies adapter
      ensures r == (if devOpen then Ok(-1) else Err(NotOpen))
      ensures adapter.log == old(adapter.log) + (if devOpen then Ex4bCalls(devIndex) else [])
      ensures adapter.miso == Drop(old(adapter.miso), if devOpen then 2 else 0)
    {
      DropZero(adapter.miso);
      r := UsbAsp25Wren();
      if r.Err? {
        return;
      }
      assert [DISABLE_4BIT_MODE][..1] == [DISABLE_4BIT_MODE];
      r := SpiWrite(1, 1, [DISABLE_4BIT_MODE]);
      DropDrop(old(adapter.miso), 1, 1);
    }

    /** UsbAsp25_Read32bitAddr: 5-byte header with chip select held, then the read. */
    method UsbAsp25Read32bitAddr(opcode: byte, address: int, bufferLen: nat, buffer: seq<byte>)
      returns (r: Result<int>, filled: seq<byte>)
      requires bufferLen <= |buffer|
      modifies adapter
      ensures r == (if devOpen then Ok(-1) else Err(NotOpen))
      ensures devOpen ==> filled == Take(Drop(old(adapter.miso), 5), bufferLen) + buffer[bufferLen..]
      ensures adapter.log == old(adapter.log)
        + (if devOpen then SpiCalls(devIndex, 0, AddrHeader32(opcode, address)) + SpiCalls(devIndex, 1, buffer[..bufferLen])
           else [])
      ensures adapter.miso == Drop(old(adapter.miso), if devOpen then 5 + bufferLen else 0)
    {
      filled := buffer;
      var header := AddrHeader32(opcode, address);
      r := SpiWrite(0, 5, header);
      assert header[..5] == header;
      if r.Err? {
        return;
      }
      r, filled := SpiRead(1, bufferLen, buffer);
      DropDrop(old(adapter.miso), 5, bufferLen);
    }

    /** UsbAsp25_Write32bitAddr: 5-byte header with chip select held, then the data. */
    method UsbAsp25Write32bitAddr(opcode: byte, address: int, bufferLen: nat, buffer: seq<byte>) returns (r: Result<int>)
      requires bufferLen <= |buffer|
      modifies adapter
      ensures r == (if devOpen then Ok(-1) else Err(NotOpen))
      ensures adapter.log == old(adapter.log)
        + (if devOpen then SpiCalls(devIndex, 0, AddrHeader32(opcode, address)) + SpiCalls(devIndex, 1, buffer[..bufferLen])
           else [])
      ensures adapter.miso == Drop(old(adapter.miso), if devOpen then 5 + bufferLen else 0)
    {
      var header := AddrHeader32(opcode, address);
      r := SpiWrite(0, 5, header);
      assert header[..5] == header;
      if r.Err? {
        return;
      }
      r := SpiWrite(1, bufferLen, buffer);
      DropDrop(old(adapter.miso), 5, bufferLen);
    }

    /** UsbAsp25_Write: the 4-byte header with its swapped middle bytes, then the data. */
    method UsbAsp25Write(opcode: byte, address: int, bufferLen: nat, buffer: seq<byte>) returns (r: Result<int>)
      requires bufferLen <= |buffer|
      modifies adapter
      ensures r == (if devOpen then Ok(-1) else Err(NotOpen))
      ensures adapter.log == old(adapter.log)
        + (if devOpen then SpiCalls(devIndex, 0, UsbAspHeader(opcode, address)) + SpiCalls(devIndex, 1, buffer[..bufferLen])
           else [])
      ensures adapter.miso == Drop(old(adapter.miso), if devOpen then 4 + bufferLen else 0)
    {
      var header := UsbAspHeader(opcode, address);
      r := SpiWrite(0, 4, header);
      assert header[..4] == header;
      if r.Err? {
        return;
      }
      r := SpiWrite(1, bufferLen, buffer);
      DropDrop(old(adapter.miso), 4, bufferLen);
    }

    // -------------------------------------------------------------------
    // spi_25 commands (write_spi_341 / read_spi_341 based, no open check)

    /** read_register_spi_25: opcode with chip select held, then one byte. */
    method ReadRegisterSpi25(register: seq<byte>, opcode: byte) returns (n: int, filled: seq<byte>)
      requires |register| >= 1
      modifies adapter
      ensures n == 1
      ensures filled == [StatusByte(old(adapter.miso))] + register[1..]
      ensures adapter.log == old(adapter.log) + WriteSpiCalls(0, 0, [opcode]) + ReadSpiCalls(1, 0, devIndex, register[..1])
      ensures adapter.miso == Drop(old(adapter.miso), 2)
    {
      assert [opcode][..1] == [opcode];
      var _ := WriteSpi341(0, 0, 1, [opcode]);
      n, filled := ReadSpi341(1, 0, 1, register);
      DropDrop(old(adapter.miso), 1, 1);
      assert Take(Drop(old(adapter.miso), 1), 1) == [StatusByte(old(adapter.miso))];
    }

    /** is_spi_25_busy: status register 1 read into a 0xFF buffer; busy unless 0xFF. */
    method IsSpi25Busy() returns (busy: bool)
      modifies adapter
      ensures busy == Spi25Busy(StatusByte(old(adapter.miso)))
      ensures adapter.log == old(adapter.log) + StatusReadCalls(devIndex)
      ensures adapter.miso == Drop(old(adapter.miso), 2)
    {
      assert [STATUS_IDLE][..1] == [STATUS_IDLE];
      var _, buffer := ReadRegisterSpi25([STATUS_IDLE], READ_STATUS_REG1);
      busy := buffer[0] != STATUS_IDLE;
    }

    method EnableWrite()
      modifies adapter
      ensures adapter.log == old(adapter.log) + WriteSpiCalls(1, 0, [WRITE_ENABLE])
      ensures adapter.miso == Drop(old(adapter.miso), 1)
    {
      assert [WRITE_ENABLE][..1] == [WRITE_ENABLE];
      var _ := WriteSpi341(1, 0, 1, [WRITE_ENABLE]);
    }

    method DisableWrite()
      modifies adapter
      ensures adapter.log == old(adapter.log) + WriteSpiCalls(1, 0, [WRITE_DISABLE])
      ensures adapter.miso == Drop(old(adapter.miso), 1)
    {
      assert [WRITE_DISABLE][..1] == [WRITE_DISABLE];
      var _ := WriteSpi341(1, 0, 1, [WRITE_DISABLE]);
    }

    /** enable_4bit_mode: a bare 0xB7, with no write enable of its own. */
    method Enable4BitMode()
      modifies adapter
      ensures adapter.log == old(adapter.log) + WriteSpiCalls(1, 0, [ENABLE_4BIT_MODE])
      ensures adapter.miso == Drop(old(adapter.miso), 1)
    {
      assert [ENABLE_4BIT_MODE][..1] == [ENABLE_4BIT_MODE];
      var _ := WriteSpi341(1, 0, 1, [ENABLE_4BIT_MODE]);
    }

    method Disable4BitMode()
      modifies adapter
      ensures adapter.log == old(adapter.log) + WriteSpiCalls(1, 0, [DISABLE_4BIT_MODE])
      ensures adapter.miso == Drop(old(adapter.miso), 1)
    {
      assert [DISABLE_4BIT_MODE][..1] == [DISABLE_4BIT_MODE];
      var _ := WriteSpi341(1, 0, 1, [DISABLE_4BIT_MODE]);
    }

    /** read_32bit_address_spi25_341: 4-byte read header, then `pageSize` bytes into the buffer. */
    method Read32bitAddressSpi25(address: int, pageSize: nat, buffer: seq<byte>) returns (res: int, filled: seq<byte>)
      requires pageSize <= |buffer|
      modifies adapter
      ensures res == pageSize
      ensures filled == Take(Drop(old(adapter.miso), 5), pageSize) + buffer[pageSize..]
      ensures adapter.log == old(adapter.log) + WriteSpiCalls(0, 0, Read4Header(address))
        + ReadSpiCalls(1, 0, devIndex, buffer[..pageSize])
      ensures adapter.miso == Drop(old(adapter.miso), 5 + pageSize)
    {
      var header := Read4Header(address);
      var _ := WriteSpi341(0, 0, 5, header);
      assert header[..5] == header;
      res, filled := ReadSpi341(1, 0, pageSize, buffer);
      DropDrop(old(adapter.miso), 5, pageSize);
    }

    /** read_16bit_address_spi25_341: 3-byte read header, then `pageSize` bytes into the buffer. */
    method Read16bitAddressSpi25(address: int, pageSize: nat, buffer: seq<byte>) returns (res: int, filled: seq<byte>)
      requires pageSize <= |buffer|
      modifies adapter
      ensures res == pageSize
      ensures filled == Take(Drop(old(adapter.miso), 4), pageSize) + buffer[pageSize..]
      ensures adapter.log == old(adapter.log) + WriteSpiCalls(0, 0, Read3Header(address))
        + ReadSpiCalls(1, 0, devIndex, buffer[..pageSize])
      ensures adapter.miso == Drop(old(adapter.miso), 4 + pageSize)
    {
      var header := Read3Header(address);
      var _ := WriteSpi341(0, 0, |header|, header);
      assert header[..4] == header;
      res, filled := ReadSpi341(1, 0, pageSize, buffer);
      DropDrop(old(adapter.miso), 4, pageSize);
    }

    /** write_32bit_address_spi25_341: page-program header, the data (through
        read_spi_341, which releases chip select), then a 2 ms adapter delay. */
    method Write32bitAddressSpi25(address: int, pageSize: nat, buffer: seq<byte>) returns (res: int)
      requires pageSize <= |buffer|
      modifies adapter
      ensures res == pageSize
      ensures adapter.log == old(adapter.log) + ProgramCalls(devIndex, address, buffer[..pageSize])
      ensures adapter.miso == Drop(old(adapter.miso), 5 + pageSize)
    {
      var header := ProgramHeader(address);
      var _ := WriteSpi341(0, 0, 5, header);
      assert header[..5] == header;
      var echoed;
      res, echoed := ReadSpi341(1, 0, pageSize, buffer);
      adapter.SetDelaymS(0, 2);
      DropDrop(old(adapter.miso), 5, pageSize);
    }

    // -------------------------------------------------------------------
    // Page transfer engine

    /** The busy wait of write_page's loop: `while is_spi_25_busy():` with one
        more status read (the printed one) in the body. */
    method WaitWhileBusy() returns (polls: nat)
      modifies adapter
      ensures polls == PollCount(old(adapter.miso))
      ensures adapter.log == old(adapter.log) + Repeat(StatusReadCalls(devIndex), polls)
      ensures adapter.miso == Drop(old(adapter.miso), 2 * polls)
    {
      ghost var m0 := adapter.miso;
      ghost var mt := adapter.miso;
      ghost var statusRead := StatusReadCalls(devIndex);
      var busy := IsSpi25Busy();
      polls := 1;
      assert Repeat(statusRead, 1) == statusRead + Repeat(statusRead, 0);
      DropZero(m0);
      while busy
        invariant adapter.miso == Drop(mt, 2)
        invariant mt == Drop(m0, 2 * polls - 2)
        invariant busy == Spi25Busy(StatusByte(mt))
        invariant polls + PollCount(mt) == PollCount(m0) + 1
        invariant adapter.log == old(adapter.log) + Repeat(statusRead, polls)
        decreases |mt|
      {
        PollCountStep(mt);
        DropDrop(mt, 2, 2);
        DropDrop(m0, 2 * polls - 2, 4);
        var _ := IsSpi25Busy();
        RepeatExtend(old(adapter.log), statusRead, polls);
        mt := adapter.miso;
        busy := IsSpi25Busy();
        RepeatExtend(old(adapter.log), statusRead, polls + 1);
        polls := polls + 2;
      }
      assert PollCount(mt) == 1;
      DropDrop(m0, 2 * polls - 2, 2);
    }

    /** One pass of read_page's loop body: a fresh PAGE_SIZE buffer of zeros
        and the 4- or 3-byte address read of `length` bytes into it. */
    method ReadPageChunk(four: bool, address: int, length: nat) returns (n: int, buffer: seq<byte>)
      requires length <= geo.pageSize
      modifies adapter
      ensures n == length
      ensures buffer == ChunkPage(four, geo.pageSize, Chunk(address, length), old(adapter.miso))
      ensures adapter.log == old(adapter.log) + ReadChunkCalls(devIndex, four, Chunk(address, length))
      ensures adapter.miso == ChunkRest(four, Chunk(address, length), old(adapter.miso))
    {
      DropDrop(adapter.miso, |ReadHeader(four, address)|, length);
      buffer := Zeros(geo.pageSize);
      assert buffer[..length] == Zeros(length);
      assert buffer[length..] == Zeros(geo.pageSize - length);
      if four {
        n, buffer := Read32bitAddressSpi25(address, length, buffer);
      } else {
        n, buffer := Read16bitAddressSpi25(address, length, buffer);
      }
    }

    /** The loop of read_page from `address` up to `limit`, in strides of
        PAGE_DATA_SIZE clamped to what is left. */
    method ReadPageLoop(four: bool, address: int, limit: int) returns (ms: seq<byte>, bytesRead: int)
      modifies adapter
      ensures Fits(Chunks(address, limit, geo.PageDataSize()), geo.pageSize)
      ensures ms == ReadLoopData(four, geo.pageSize, Chunks(address, limit, geo.PageDataSize()), old(adapter.miso))
      ensures bytesRead == TotalLength(Chunks(address, limit, geo.PageDataSize()))
      ensures adapter.log == old(adapter.log) + ReadLoopCalls(devIndex, four, Chunks(address, limit, geo.PageDataSize()))
      ensures adapter.miso == ReadLoopRest(four, Chunks(address, limit, geo.PageDataSize()), old(adapter.miso))
    {
      ms, bytesRead := [], 0;
      var iPageSize: nat := geo.PageDataSize();
      var address := address;
      ghost var rem := Chunks(address, limit, iPageSize);
      ghost var cs0, log0, m0 := rem, adapter.log, adapter.miso;
      ChunksFit(address, limit, iPageSize, geo.pageSize);
      while address < limit
        invariant 0 < iPageSize <= geo.PageDataSize()
        invariant rem == Chunks(address, limit, iPageSize)
        invariant ReadLoopInv(devIndex, four, geo.pageSize, cs0, m0, log0, rem, ms, adapter.miso, adapter.log, bytesRead)
        decreases limit - address
      {
        ghost var step := iPageSize;
        if iPageSize > limit - address {
          iPageSize := limit - address;
        }
        ChunksClamp(address, limit, step, iPageSize);
        ReadLoopAdvance(devIndex, four, geo.pageSize, cs0, m0, log0, rem, ms, adapter.miso, adapter.log, bytesRead);
        var n, filled := ReadPageChunk(four, address, iPageSize);
        bytesRead := bytesRead + n;
        ms := ms + filled;
        address := address + iPageSize;
        rem := rem[1..];
      }
      assert rem == [];
    }

    /** One pass of write_page's loop body on the piece read from the data
        stream: the page program above 16 MiB, then the busy wait. */
    method ProgramPage(four: bool, address: int, buffer: seq<byte>) returns (polls: nat)
      modifies adapter
      ensures polls == PollCount(if four then Drop(old(adapter.miso), 5 + |buffer|) else old(adapter.miso))
      ensures adapter.log == old(adapter.log) + StepCalls(devIndex, four, Programmed(address, buffer, polls))
      ensures adapter.miso == Drop(if four then Drop(old(adapter.miso), 5 + |buffer|) else old(adapter.miso), 2 * polls)
    {
      ghost var programmed := adapter.log;
      if four {
        var _ := Write32bitAddressSpi25(address, |buffer|, buffer);
        assert buffer[..|buffer|] == buffer;
      }
      ghost var program := if four then ProgramCalls(devIndex, address, buffer) else [];
      if !four {
        AppendNil(programmed);
      }
      polls := WaitWhileBusy();
      AppendAssoc(old(adapter.log), program, Repeat(StatusReadCalls(devIndex), polls));
    }

    /** One pass of write_page's loop body at `address`, with `stream` the
        unread rest of the data stream: the step clamped to what is left, the
        read from the stream, the page program and the busy wait. Returns the
        clamped step and the stream after the read; keeps the loop invariant. */
    method WritePageIteration(four: bool, address: int, iDataSize: int, iPageSize: nat, stream: seq<byte>,
                              ghost whole: seq<Programmed>, ghost wholeRest: seq<byte>, ghost log0: seq<Call>,
                              ghost done: seq<Programmed>)
      returns (step: nat, rest: seq<byte>, ghost done': seq<Programmed>)
      requires 0 < iPageSize && address < iDataSize && iDataSize - address == |stream|
      requires WriteLoopInv(devIndex, four, whole, wholeRest, log0, Chunks(address, iDataSize, iPageSize), stream,
                            adapter.miso, adapter.log, done)
      modifies adapter
      ensures 0 < step <= iPageSize && |rest| == |stream| - step
      ensures WriteLoopInv(devIndex, four, whole, wholeRest, log0, Chunks(address + step, iDataSize, step), rest,
                           adapter.miso, adapter.log, done')
    {
      step := iPageSize;
      if step > iDataSize - address {
        step := iDataSize - address;
      }
      // data_stream.read(iPageSize): a whole chunk, since the step never exceeds what is left
      var buffer := stream[..step];
      rest := stream[step..];
      ghost var miso, log := adapter.miso, adapter.log;
      var polls := ProgramPage(four, address, buffer);
      WriteLoopAdvance(devIndex, four, whole, wholeRest, log0, address, iDataSize, iPageSize, step, stream, miso, log, done,
                       if four then Drop(miso, 5 + |buffer|) else miso, polls, adapter.log);
      done' := done + [Programmed(address, buffer, polls)];
    }

    /** The loop of write_page from `address` over the data stream `data`,
        in strides of PAGE_SIZE clamped to what is left. */
    method WritePageLoop(four: bool, address: int, data: seq<byte>)
      modifies adapter
      ensures adapter.log == old(adapter.log)
        + LoopCalls(devIndex, four, ProgramLoop(four, Chunks(address, address + |data|, geo.pageSize), data, old(adapter.miso)).0)
      ensures adapter.miso == ProgramLoop(four, Chunks(address, address + |data|, geo.pageSize), data, old(adapter.miso)).1
    {
      var iDataSize := address + |data|;
      var iPageSize: nat := geo.pageSize;
      var address := address;
      var stream := data;
      ghost var done: seq<Programmed> := [];
      ghost var cs0, log0, m0 := Chunks(address, iDataSize, iPageSize), adapter.log, adapter.miso;
      WriteLoopStart(devIndex, four, cs0, data, m0, log0);
      ghost var whole, wholeRest := ProgramLoop(four, cs0, data, m0).0, ProgramLoop(four, cs0, data, m0).1;
      while address < iDataSize
        invariant 0 < iPageSize && iDataSize - address == |stream|
        invariant WriteLoopInv(devIndex, four, whole, wholeRest, log0, Chunks(address, iDataSize, iPageSize), stream,
                               adapter.miso, adapter.log, done)
        decreases iDataSize - address
      {
        iPageSize, stream, done := WritePageIteration(four, address, iDataSize, iPageSize, stream,
                                                      whole, wholeRest, log0, done);
        address := address + iPageSize;
      }
      WriteLoopDone(devIndex, four, whole, wholeRest, log0, stream, adapter.miso, adapter.log, done);
    }

    /** write_page from write enable to write disable, on the data stream
        `data` from page `startPage`. */
    method WriteBodyRun(startPage: int, data: seq<byte>)
      modifies adapter
      ensures var body := WriteBody(geo, devIndex, startPage, data, old(adapter.miso));
        adapter.log == old(adapter.log) + body.0 && adapter.miso == body.1
    {
      var address := startPage * geo.pageSize;
      var four := geo.ChipSize() > FLASH_SIZE_128BIT;
      EnableWrite();
      if four {
        Enable4BitMode();
        DropDrop(old(adapter.miso), 1, 1);
        AppendAssoc(old(adapter.log), WriteSpiCalls(1, 0, [WRITE_ENABLE]), WriteSpiCalls(1, 0, [ENABLE_4BIT_MODE]));
      } else {
        AppendNil(WriteSpiCalls(1, 0, [WRITE_ENABLE]));
      }
      ghost var entered := adapter.miso;
      WritePageLoop(four, address, data);
      ghost var looped, m := adapter.log, adapter.miso;
      if four {
        Disable4BitMode();
      }
      DisableWrite();
      if four {
        DropDrop(m, 1, 1);
        AppendAssoc(looped, WriteSpiCalls(1, 0, [DISABLE_4BIT_MODE]), WriteSpiCalls(1, 0, [WRITE_DISABLE]));
      } else {
        AppendNil(WriteSpiCalls(1, 0, [WRITE_DISABLE]));
      }
      ghost var loopCalls := LoopCalls(devIndex, four, ProgramLoop(four, WriteChunks(geo, startPage, |data|), data, entered).0);
      AppendAssoc(old(adapter.log), EnterWriteCalls(four), loopCalls);
      AppendAssoc(old(adapter.log), EnterWriteCalls(four) + loopCalls, LeaveWriteCalls(four));
    }

    /** write_page with verify_write: read pages `startPage` to `endPage`
        back before and after the body and compare the two. */
    method WriteVerified(startPage: int, data: seq<byte>, endPage: int) returns (r: Result<Report>)
      requires endPage == VerifyEndPage(geo, startPage, |data|)
      modifies adapter
      ensures var o := WritePageSpec(geo, devIndex, devOpen, Some(startPage), Some(data), true, old(adapter.miso));
        r == o.result && adapter.log == old(adapter.log) + o.calls && adapter.miso == o.rest
    {
      var before, _ := ReadPage(Some(startPage), Some(endPage), false);
      if before.Err? {
        AppendNil(old(adapter.log));
        return Err(before.error);
      }
      ghost var read := adapter.log;
      WriteBodyRun(startPage, data);
      ghost var written := adapter.log;
      var after, _ := ReadPage(Some(startPage), Some(endPage), false);
      if after.Err? {
        // the read-back after fails only where the one before did
        assert false;
      }
      AppendAssoc(old(adapter.log), read[|old(adapter.log)|..], written[|read|..]);
      AppendAssoc(old(adapter.log), read[|old(adapter.log)|..] + written[|read|..], adapter.log[|written|..]);
      if before.value != after.value {
        r := Ok(SomethingChanged);
      } else {
        r := Ok(NothingChanged);
      }
    }

    /** write_page (the file's contents given as `file`, without the
        progress output). */
    method WritePage(startPage: Option<int>, file: Option<seq<byte>>, verifyWrite: bool) returns (r: Result<Report>)
      modifies adapter
      ensures var o := WritePageSpec(geo, devIndex, devOpen, startPage, file, verifyWrite, old(adapter.miso));
        r == o.result && adapter.log == old(adapter.log) + o.calls && adapter.miso == o.rest
    {
      if startPage.None? || file.None? {
        AppendNil(adapter.log);
        return Err(MissingArgument);
      }
      var data := file.value;
      var iDataSize := |data|;
      var address := startPage.value * geo.pageSize;
      iDataSize := address + iDataSize;
      if verifyWrite {
        r := WriteVerified(startPage.value, data, TruncDiv(iDataSize, geo.pageSize));
      } else {
        WriteBodyRun(startPage.value, data);
        r := Ok(NotVerified);
      }
    }

    /** read_page (without the file it may write and the progress output):
        page numbers scale by the data size of a page, one page buffer per
        iteration is appended to the result. */
    method ReadPage(startPage: Option<int>, endPage: Option<int>, verbose: bool) returns (r: Result<seq<byte>>, bytesRead: int)
      modifies adapter
      ensures var o := ReadPageOutcome(geo, devIndex, devOpen, hasPageTime, verbose, startPage, endPage, old(adapter.miso));
        r == o.result && bytesRead == o.bytesRead && adapter.log == old(adapter.log) + o.calls && adapter.miso == o.rest
    {
      if verbose && !(hasPageTime && startPage.Some? && endPage.Some?) {
        r, bytesRead := ReadPageVerboseFails(startPage, endPage);
        return;
      }
      var address := 0;
      var iPageSize := geo.PageDataSize();
      var iChipSize: int := geo.ChipSize();
      if startPage.Some? && endPage.Some? && endPage.value > 0 {
        address := startPage.value * iPageSize;
        iChipSize := endPage.value * iPageSize;
      }
      assert (address, iChipSize) == ReadWindow(geo, startPage, endPage);
      var four := geo.ChipSize() > FLASH_SIZE_128BIT;
      if four {
        var e := UsbAsp25EN4B();
        if e.Err? {
          DropZero(old(adapter.miso));
          return Err(e.error), 0;
        }
      }
      ghost var m := adapter.miso;
      ReadPageSpecRuns(geo, devIndex, devOpen, startPage, endPage, old(adapter.miso));
      DropZero(m);
      var ms;
      ms, bytesRead := ReadPageLoop(four, address, iChipSize);
      ghost var loopCalls := ReadLoopCalls(devIndex, four, Chunks(address, iChipSize, iPageSize));
      ghost var calls;
      if four {
        var _ := UsbAsp25EX4B();
        calls := En4bCalls(devIndex) + loopCalls + Ex4bCalls(devIndex);
        AppendAssoc(old(adapter.log), En4bCalls(devIndex), loopCalls);
        AppendAssoc(old(adapter.log), En4bCalls(devIndex) + loopCalls, Ex4bCalls(devIndex));
      } else {
        calls := [] + loopCalls + [];
        AppendNil(loopCalls);
      }
      r := Ok(ms);
      DropZero(adapter.miso);
    }
  
    /** The verbose read_page up to the line that prints the expected time. */
    method ReadPageVerboseFails(startPage: Option<int>, endPage: Option<int>) returns (r: Result<seq<byte>>, bytesRead: int)
      requires !(hasPageTime && startPage.Some? && endPage.Some?)
      modifies adapter
      ensures var o := ReadPageOutcome(geo, devIndex, devOpen, hasPageTime, true, startPage, endPage, old(adapter.miso));
        r == o.result && bytesRead == o.bytesRead && adapter.log == old(adapter.log) + o.calls && adapter.miso == o.rest
    {
      bytesRead := 0;
      if geo.ChipSize() > FLASH_SIZE_128BIT {
        var e := UsbAsp25EN4B();
        if e.Err? {
          DropZero(old(adapter.miso));
          return Err(e.error), 0;
        }
      } else {
        AppendNil(adapter.log);
        DropZero(adapter.miso);
      }
      r := Err(if hasPageTime then PageRangeNone else MissingPageTime);
    }

    /** read_bytes (without the output file): `toOffset` bytes from
        `fromOffset`, as pages of the chosen unit. */
    method ReadBytes(fromOffset: int, toOffset: int, excludeOob: bool) returns (r: Result<seq<byte>>, bytesRead: int)
      modifies adapter
      ensures var p := BytePages(geo, fromOffset, toOffset, excludeOob);
        var o := ReadPageOutcome(geo, devIndex, devOpen, hasPageTime, true, Some(p.0), Some(p.1), old(adapter.miso));
        r == o.result && bytesRead == o.bytesRead && adapter.log == old(adapter.log) + o.calls && adapter.miso == o.rest
    {
      var startPage, endPage;
      if excludeOob {
        startPage := fromOffset / geo.PageDataSize();
        endPage := (fromOffset + toOffset) / geo.PageDataSize();
      } else {
        startPage := fromOffset / geo.pageSize;
        endPage := (fromOffset + toOffset) / geo.pageSize;
      }
      r, bytesRead := ReadPage(Some(startPage), Some(endPage), true);
    }

    /** write_bytes: the start page of `fromOffset` in the chosen unit,
        written with write_page's default verify_write. */
    method WriteBytes(fromOffset: int, file: Option<seq<byte>>, excludeOob: bool) returns (r: Result<Report>)
      modifies adapter
      ensures var o := WritePageSpec(geo, devIndex, devOpen, Some(BytePages(geo, fromOffset, 0, excludeOob).0),
                                     file, true, old(adapter.miso));
        r == o.result && adapter.log == old(adapter.log) + o.calls && adapter.miso == o.rest
    {
      var startPage;
      if excludeOob {
        startPage := fromOffset / geo.PageDataSize();
      } else {
        startPage := fromOffset / geo.pageSize;
      }
      r := WritePage(Some(startPage), file, true);
    }
  }
}
