/** The flash command layer: opcodes, address headers, status bytes and the
    adapter calls each SPI transaction primitive makes. */
module Commands {
  import opened Bytes
  import opened Transport

  const WRITE_ENABLE: byte := 0x06
  const WRITE_DISABLE: byte := 0x04
  const READ_STATUS_REG1: byte := 0x05
  const PAGE_PROGRAM: byte := 0x02
  const READ_DATA: byte := 0x03
  const ENABLE_4BIT_MODE: byte := 0xB7
  const DISABLE_4BIT_MODE: byte := 0xE9
  /** Spansion bank register access and its EXTADD bit, sent by EN4B. */
  const BANK_REGISTER_WRITE: byte := 0x17
  const BANK_EXTADD: byte := 0x80

  /** Direction mask of the D5..D0 pins the driver drives (chip select on D0). */
  const CS_PINS := 0x29
  /** streamSPI4 chip-select selector that lets the adapter drive D0 itself. */
  const HW_CHIP_SELECT := 0x80

  /** Status byte that is_spi_25_busy reads as idle; an idle-high MISO line reads it too. */
  const STATUS_IDLE: byte := 0xFF

  // ---------------------------------------------------------------------
  // Address headers

  lemma DivUnique(a: int, d: int, q: int, r: int)
    requires d > 0 && 0 <= r < d && a == q * d + r
    ensures a / d == q && a % d == r
  {
    var q0, r0 := a / d, a % d;
    assert (q0 - q) * d == r - r0;
    if q0 > q {
      MulAtLeast(q0 - q, d);
    } else if q0 < q {
      MulAtLeast(q - q0, d);
    }
  }

  lemma MulAtLeast(k: int, d: int)
    requires k >= 1 && d > 0
    ensures k * d >= d
  {
  }

  lemma BeValue3(x: byte, y: byte, z: byte)
    ensures BeValue([x, y, z]) == x * 0x1_0000 + y * 0x100 + z
  {
    assert [x, y, z][..2] == [x, y];
    assert [x, y][..1] == [x];
    assert [x][..0] == [];
    assert BeValue([x]) == x;
    assert BeValue([x, y]) == x * 0x100 + y;
  }

  lemma BeValue4(w: byte, x: byte, y: byte, z: byte)
    ensures BeValue([w, x, y, z]) == w * 0x100_0000 + x * 0x1_0000 + y * 0x100 + z
  {
    assert [w, x, y, z][..3] == [w, x, y];
    BeValue3(w, x, y);
  }

  /** The shift-and-mask bytes of an address recombine to the address modulo 2^24 and 2^32. */
  lemma ByteSplit(a: int)
    ensures ((a / 0x1_0000) % 256) * 0x1_0000 + ((a / 0x100) % 256) * 0x100 + a % 256
            == a % 0x100_0000
    ensures ((a / 0x100_0000) % 256) * 0x100_0000 + ((a / 0x1_0000) % 256) * 0x1_0000
            + ((a / 0x100) % 256) * 0x100 + a % 256
            == a % 0x1_0000_0000
  {
    var q1, r0 := a / 256, a % 256;
    var q2, r1 := q1 / 256, q1 % 256;
    var q3, r2 := q2 / 256, q2 % 256;
    var q4, r3 := q3 / 256, q3 % 256;
    assert a == q2 * 0x1_0000 + (r1 * 0x100 + r0);
    DivUnique(a, 0x1_0000, q2, r1 * 0x100 + r0);
    assert a == q3 * 0x100_0000 + (r2 * 0x1_0000 + r1 * 0x100 + r0);
    DivUnique(a, 0x100_0000, q3, r2 * 0x1_0000 + r1 * 0x100 + r0);
    assert a == q4 * 0x1_0000_0000 + (r3 * 0x100_0000 + r2 * 0x1_0000 + r1 * 0x100 + r0);
    DivUnique(a, 0x1_0000_0000, q4, r3 * 0x100_0000 + r2 * 0x1_0000 + r1 * 0x100 + r0);
  }

  /** Header of a 0x03 read with a 3-byte big-endian address; the chip reads
      back the address modulo 2^24. */
  function Read3Header(address: int): (h: seq<byte>)
    ensures |h| == 4 && h[0] == READ_DATA
    ensures BeValue(h[1..]) == address % 0x100_0000
  {
    var h := [READ_DATA, (address / 0x1_0000) % 256, (address / 0x100) % 256, address % 256];
    assert h[1..] == [h[1], h[2], h[3]];
    BeValue3(h[1], h[2], h[3]);
    ByteSplit(address);
    h
  }

  /** Opcode followed by the four big-endian bytes of the address, which the
      chip reads back modulo 2^32. */
  function AddrHeader32(opcode: byte, address: int): (h: seq<byte>)
    ensures |h| == 5 && h[0] == opcode
    ensures BeValue(h[1..]) == address % 0x1_0000_0000
  {
    var h := [opcode, (address / 0x100_0000) % 256, (address / 0x1_0000) % 256,
              (address / 0x100) % 256, address % 256];
    assert h[1..] == [h[1], h[2], h[3], h[4]];
    BeValue4(h[1], h[2], h[3], h[4]);
    ByteSplit(address);
    h
  }

  /** Header of a 0x03 read with a 4-byte big-endian address. */
  function Read4Header(address: int): (h: seq<byte>)
    ensures |h| == 5 && h[0] == READ_DATA
    ensures BeValue(h[1..]) == address % 0x1_0000_0000
  {
    AddrHeader32(READ_DATA, address)
  }

  /** Header of a 0x02 page program with a 4-byte big-endian address. */
  function ProgramHeader(address: int): (h: seq<byte>)
    ensures |h| == 5 && h[0] == PAGE_PROGRAM
    ensures BeValue(h[1..]) == address % 0x1_0000_0000
  {
    AddrHeader32(PAGE_PROGRAM, address)
  }

  /** The 4-byte header of UsbAsp25_Write: address bits 15..8 come before
      bits 23..16, so the chip does not read the address big-endian. */
  function UsbAspHeader(opcode: byte, address: int): (h: seq<byte>)
    ensures |h| == 4 && h[0] == opcode
    ensures BeValue([h[2], h[1], h[3]]) == address % 0x100_0000
  {
    var h := [opcode, (address / 0x100) % 256, (address / 0x1_0000) % 256, address % 256];
    BeValue3(h[2], h[1], h[3]);
    ByteSplit(address);
    h
  }

  /** Address 0x100 goes out as if it were 0x10000. */
  lemma UsbAspHeaderIsNotBigEndian()
    ensures BeValue(UsbAspHeader(PAGE_PROGRAM, 0x100)[1..]) == 0x1_0000
  {
    var h := UsbAspHeader(PAGE_PROGRAM, 0x100);
    assert h[1..] == [1, 0, 0];
    BeValue3(1, 0, 0);
  }

  // ---------------------------------------------------------------------
  // Status bytes

  /** is_spi_25_busy: any status byte other than 0xFF means busy. */
  predicate Spi25Busy(status: byte)
  {
    status != STATUS_IDLE
  }

  /** UsbAsp25_Busy: bit 0 (WIP) of status register 1. */
  predicate UsbAsp25BusyBit(status: byte)
  {
    status % 2 == 1
  }

  /** The two busy tests disagree: on an idle-high line (0xFF, also what an
      absent chip returns) only the bit-0 test reports busy, and a ready chip
      with other status bits set (0xFE) is busy only for is_spi_25_busy. */
  lemma BusyPredicatesDiffer()
    ensures !Spi25Busy(0xFF) && UsbAsp25BusyBit(0xFF)
    ensures Spi25Busy(0xFE) && !UsbAsp25BusyBit(0xFE)
  {
  }

  // ---------------------------------------------------------------------
  // Adapter calls of the transaction primitives

  /** write_spi_341(value, index, ...): assert chip select, stream, and
      release chip select only when `value == 1`. */
  function WriteSpiCalls(value: int, index: int, out: seq<byte>): seq<Call>
  {
    [SetD5D0(index, CS_PINS, 0), Stream(index, 0, out)]
      + (if value == 1 then [SetD5D0(index, CS_PINS, 1)] else [])
  }

  /** read_spi_341: as write_spi_341, but the release goes to `devIndex`. */
  function ReadSpiCalls(value: int, index: int, devIndex: int, out: seq<byte>): seq<Call>
  {
    [SetD5D0(index, CS_PINS, 0), Stream(index, 0, out)]
      + (if value == 1 then [SetD5D0(devIndex, CS_PINS, 1)] else [])
  }

  /** SPIWrite / SPIRead on an open device: the adapter's own chip select
      when `cs == 1`, otherwise D0 driven low by hand and never released. */
  function SpiCalls(devIndex: int, cs: int, out: seq<byte>): seq<Call>
  {
    if cs == 1 then [Stream(devIndex, HW_CHIP_SELECT, out)]
    else [SetD5D0(devIndex, CS_PINS, 0), Stream(devIndex, 0, out)]
  }

  /** Each transaction primitive streams its buffer once and only once. */
  lemma PrimitiveStreams(value: int, index: int, devIndex: int, cs: int, out: seq<byte>)
    ensures Streams(WriteSpiCalls(value, index, out)) == [out]
    ensures Streams(ReadSpiCalls(value, index, devIndex, out)) == [out]
    ensures Streams(SpiCalls(devIndex, cs, out)) == [out]
  {
    var w := WriteSpiCalls(value, index, out);
    assert w[1..][1..] == w[2..];
    assert Streams(w[2..]) == [];
    var r := ReadSpiCalls(value, index, devIndex, out);
    assert r[1..][1..] == r[2..];
    assert Streams(r[2..]) == [];
    var s := SpiCalls(devIndex, cs, out);
    if cs != 1 {
      assert s[1..][1..] == s[2..];
    }
  }

  /** UsbAsp25_EN4B: write enable, enter 4-byte mode, set the bank register's EXTADD bit. */
  function En4bCalls(devIndex: int): seq<Call>
  {
    SpiCalls(devIndex, 1, [WRITE_ENABLE]) + SpiCalls(devIndex, 1, [ENABLE_4BIT_MODE])
      + SpiCalls(devIndex, 0, [BANK_REGISTER_WRITE]) + SpiCalls(devIndex, 1, [BANK_EXTADD])
  }

  /** UsbAsp25_EX4B: write enable, leave 4-byte mode. */
  function Ex4bCalls(devIndex: int): seq<Call>
  {
    SpiCalls(devIndex, 1, [WRITE_ENABLE]) + SpiCalls(devIndex, 1, [DISABLE_4BIT_MODE])
  }

  /** read_register_spi_25(buffer, 0x05) as called by is_spi_25_busy. */
  function StatusReadCalls(devIndex: int): seq<Call>
  {
    WriteSpiCalls(0, 0, [READ_STATUS_REG1]) + ReadSpiCalls(1, 0, devIndex, [STATUS_IDLE])
  }

  /** The stream payloads of EN4B and EX4B, opcode by opcode. */
  lemma ModeSwitchStreams(devIndex: int)
    ensures Streams(En4bCalls(devIndex))
            == [[WRITE_ENABLE], [ENABLE_4BIT_MODE], [BANK_REGISTER_WRITE], [BANK_EXTADD]]
    ensures Streams(Ex4bCalls(devIndex)) == [[WRITE_ENABLE], [DISABLE_4BIT_MODE]]
  {
    var w, e, b, x := SpiCalls(devIndex, 1, [WRITE_ENABLE]), SpiCalls(devIndex, 1, [ENABLE_4BIT_MODE]),
                      SpiCalls(devIndex, 0, [BANK_REGISTER_WRITE]), SpiCalls(devIndex, 1, [BANK_EXTADD]);
    StreamsAppend(w + e + b, x);
    StreamsAppend(w + e, b);
    StreamsAppend(w, e);
    assert Streams(b) == [[BANK_REGISTER_WRITE]] by {
      assert b[1..] == [b[1]];
    }
    var d := SpiCalls(devIndex, 1, [DISABLE_4BIT_MODE]);
    StreamsAppend(w, d);
  }
}
