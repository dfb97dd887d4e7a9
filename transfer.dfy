/** The page transfer engine as specification: device geometry, the address
    walk of read_page and write_page, the adapter calls and MISO bytes each
    takes, and busy polling. The Device methods are proved equal to these. */
module Transfer {
  import opened Bytes
  import opened Results
  import opened Transport
  import opened Commands

  /** Chips above this many bytes (128 Mbit) are driven with 4-byte addresses. */
  const FLASH_SIZE_128BIT := 16777216

  /** Page geometry given to the Device constructor; sizes in bytes. */
  datatype Geometry = Geometry(pageSize: nat, oobSize: nat, blockSize: nat, blocksCount: nat)
  {
    /** Some data bytes per page: every page-stepping loop advances. */
    predicate Valid() { oobSize < pageSize }

    function PageDataSize(): int { pageSize - oobSize }

    function ChipSize(): nat { blockSize * blocksCount }

    function PagesPerBlock(): nat
      requires Valid()
    {
      blockSize / pageSize
    }
  }

  type ValidGeometry = g: Geometry | g.Valid() witness Geometry(2112, 64, 135168, 1024)

  /** The constructor's defaults: 2048 + 64 byte pages, 64-page blocks, 1024 blocks. */
  const DEFAULT_GEOMETRY: ValidGeometry := Geometry(2048 + 64, 64, 135168, 1024)

  /** 4-byte addressing is chosen on the chip size alone, strictly above 16 MiB. */
  predicate FourByteMode(g: Geometry)
  {
    g.ChipSize() > FLASH_SIZE_128BIT
  }

  lemma DefaultGeometryIsFourByte()
    ensures DEFAULT_GEOMETRY.ChipSize() == 138412032 && FourByteMode(DEFAULT_GEOMETRY)
    ensures DEFAULT_GEOMETRY.PageDataSize() == 2048 && DEFAULT_GEOMETRY.PagesPerBlock() == 64
  {
  }

  // ---------------------------------------------------------------------
  // The address walk shared by read_page and write_page

  /** One loop iteration: `length` bytes at `address`. */
  datatype Chunk = Chunk(address: int, length: nat)

  /** `while address < limit`: the step is clamped to what is left, then added. */
  function Chunks(address: int, limit: int, step: nat): seq<Chunk>
    requires step > 0
    decreases limit - address
  {
    if address >= limit then []
    else
      var len := if step > limit - address then limit - address else step;
      [Chunk(address, len)] + Chunks(address + len, limit, step)
  }

  function TotalLength(cs: seq<Chunk>): nat
  {
    if cs == [] then 0 else cs[0].length + TotalLength(cs[1..])
  }

  /** Every chunk fits a buffer of `size` bytes. */
  predicate Fits(cs: seq<Chunk>, size: int)
  {
    forall k :: 0 <= k < |cs| ==> cs[k].length <= size
  }

  /** The walk covers [address, limit) exactly: chunk k starts k steps in,
      no chunk is empty or longer than a step, only the last is short, and
      the lengths add up to the size of the range. */
  lemma {:induction false} ChunksCover(address: int, limit: int, step: nat)
    requires step > 0
    ensures var cs := Chunks(address, limit, step);
      && (forall k :: 0 <= k < |cs| ==> cs[k].address == address + k * step)
      && (forall k :: 0 <= k < |cs| ==> 0 < cs[k].length <= step)
      && (forall k :: 0 <= k < |cs| - 1 ==> cs[k].length == step)
      && TotalLength(cs) == if address < limit then limit - address else 0
    decreases limit - address
  {
    var cs := Chunks(address, limit, step);
    if address < limit {
      var len := if step > limit - address then limit - address else step;
      ChunksCover(address + len, limit, step);
      var rest := Chunks(address + len, limit, step);
      assert cs[1..] == rest;
      forall k | 1 <= k < |cs|
        ensures cs[k].address == address + k * step
      {
        assert cs[k] == rest[k - 1];
        assert len == step;
        assert (k - 1) * step + step == k * step;
      }
    }
  }

  /** The loop's step after clamping walks the rest of the range in the same chunks. */
  lemma ChunksClamp(address: int, limit: int, step: nat, len: nat)
    requires 0 < step && address < limit
    requires len == if step > limit - address then limit - address else step
    ensures Chunks(address, limit, step) != []
    ensures Chunks(address, limit, step)[0] == Chunk(address, len)
    ensures Chunks(address, limit, step)[1..] == Chunks(address + len, limit, len)
  {
  }

  /** Chunks no longer than a buffer of `size` bytes fit it. */
  lemma ChunksFit(address: int, limit: int, step: nat, size: int)
    requires 0 < step <= size
    ensures Fits(Chunks(address, limit, step), size)
  {
    ChunksCover(address, limit, step);
  }

  /** A range of exactly n steps is walked in n full steps. */
  lemma {:induction false} ChunksExact(address: int, n: nat, step: nat)
    requires step > 0
    ensures var cs := Chunks(address, address + n * step, step);
      |cs| == n && forall k :: 0 <= k < n ==> cs[k] == Chunk(address + k * step, step)
    decreases n
  {
    var cs := Chunks(address, address + n * step, step);
    if n > 0 {
      assert address + n * step == (address + step) + (n - 1) * step;
      ChunksExact(address + step, n - 1, step);
      var rest := Chunks(address + step, address + n * step, step);
      assert cs == [Chunk(address, step)] + rest;
      forall k | 1 <= k < n
        ensures cs[k] == Chunk(address + k * step, step)
      {
        assert cs[k] == rest[k - 1];
        assert (k - 1) * step + step == k * step;
      }
    }
  }

  // ---------------------------------------------------------------------
  // read_page

  /** Start address and limit of read_page: page numbers scale by the data
      size of a page; without both pages, or with end_page <= 0, the whole chip. */
  function ReadWindow(g: ValidGeometry, startPage: Option<int>, endPage: Option<int>): (int, int)
  {
    if startPage.Some? && endPage.Some? && endPage.value > 0
    then (startPage.value * g.PageDataSize(), endPage.value * g.PageDataSize())
    else (0, g.ChipSize())
  }

  /** The iterations of read_page's loop. */
  function ReadChunks(g: ValidGeometry, startPage: Option<int>, endPage: Option<int>): seq<Chunk>
  {
    var w := ReadWindow(g, startPage, endPage);
    Chunks(w.0, w.1, g.PageDataSize())
  }

  function ReadHeader(four: bool, address: int): (h: seq<byte>)
    ensures |h| == if four then 5 else 4
  {
    if four then Read4Header(address) else Read3Header(address)
  }

  /** One iteration: the header keeps chip select asserted, the data phase
      clocks `length` zero bytes of the page buffer and releases it. */
  function ReadChunkCalls(devIndex: int, four: bool, c: Chunk): seq<Call>
  {
    WriteSpiCalls(0, 0, ReadHeader(four, c.address)) + ReadSpiCalls(1, 0, devIndex, Zeros(c.length))
  }

  function ReadLoopCalls(devIndex: int, four: bool, cs: seq<Chunk>): seq<Call>
  {
    if cs == [] then [] else ReadChunkCalls(devIndex, four, cs[0]) + ReadLoopCalls(devIndex, four, cs[1..])
  }

  /** The page buffer one iteration appends: the chunk's bytes from MISO
      (after those clocked under its header), zero-filled to a whole page. */
  function ChunkPage(four: bool, pageSize: nat, c: Chunk, miso: seq<byte>): seq<byte>
    requires c.length <= pageSize
  {
    Take(Drop(miso, |ReadHeader(four, c.address)|), c.length) + Zeros(pageSize - c.length)
  }

  /** The MISO stream left after one iteration. */
  function ChunkRest(four: bool, c: Chunk, miso: seq<byte>): seq<byte>
  {
    Drop(Drop(miso, |ReadHeader(four, c.address)|), c.length)
  }

  /** What the loop appends to the output, page by page. */
  function ReadLoopData(four: bool, pageSize: nat, cs: seq<Chunk>, miso: seq<byte>): seq<byte>
    requires Fits(cs, pageSize)
  {
    if cs == [] then []
    else ChunkPage(four, pageSize, cs[0], miso) + ReadLoopData(four, pageSize, cs[1..], ChunkRest(four, cs[0], miso))
  }

  /** The MISO stream left after the loop. */
  function ReadLoopRest(four: bool, cs: seq<Chunk>, miso: seq<byte>): seq<byte>
  {
    if cs == [] then miso else ReadLoopRest(four, cs[1..], ChunkRest(four, cs[0], miso))
  }

  /** Everything one read_page call does: its result (or error), the byte
      count it totals, the adapter calls and the MISO stream left. */
  datatype ReadOutcome = ReadOutcome(result: Result<seq<byte>>, bytesRead: int, calls: seq<Call>, rest: seq<byte>)

  function ReadPageSpec(g: ValidGeometry, devIndex: int, devOpen: bool,
                        startPage: Option<int>, endPage: Option<int>, miso: seq<byte>): ReadOutcome
  {
    var four := FourByteMode(g);
    if four && !devOpen then ReadOutcome(Err(NotOpen), 0, [], miso)
    else
      var cs := ReadChunks(g, startPage, endPage);
      var w := ReadWindow(g, startPage, endPage);
      ChunksFit(w.0, w.1, g.PageDataSize(), g.pageSize);
      var m := if four then Drop(miso, 4) else miso;
      var rest := ReadLoopRest(four, cs, m);
      ReadOutcome(
        Ok(ReadLoopData(four, g.pageSize, cs, m)),
        TotalLength(cs),
        (if four then En4bCalls(devIndex) else []) + ReadLoopCalls(devIndex, four, cs)
          + (if four then Ex4bCalls(devIndex) else []),
        if four then Drop(rest, 2) else rest)
  }

  /** read_page with its `verbouse` flag. The verbose path prints the
      expected time `page_time_ms * (end_page - start_page)` after the mode
      switch. `page_time_ms` is evaluated first: without a page time stored
      by open() that raises AttributeError; with one, a missing page makes
      `end_page - start_page` raise TypeError. */
  function ReadPageOutcome(g: ValidGeometry, devIndex: int, devOpen: bool, hasPageTime: bool, verbose: bool,
                           startPage: Option<int>, endPage: Option<int>, miso: seq<byte>): ReadOutcome
  {
    var four := FourByteMode(g);
    if !verbose || (hasPageTime && startPage.Some? && endPage.Some?)
    then ReadPageSpec(g, devIndex, devOpen, startPage, endPage, miso)
    else if four && !devOpen then ReadOutcome(Err(NotOpen), 0, [], miso)
    else ReadOutcome(Err(if hasPageTime then PageRangeNone else MissingPageTime), 0,
                     if four then En4bCalls(devIndex) else [], Drop(miso, if four then 4 else 0))
  }

  /** A verbose read_page without a stored page time reads nothing: it fails
      with the missing page time (NotOpen first on a closed chip above 16 MiB),
      whatever the pages, counts no byte, and streams at most the 4-byte mode
      switch, whose buffers are all one-byte commands. */
  lemma VerboseReadNeedsPageTime(g: ValidGeometry, devIndex: int, devOpen: bool,
                                 startPage: Option<int>, endPage: Option<int>, miso: seq<byte>)
    ensures var o := ReadPageOutcome(g, devIndex, devOpen, false, true, startPage, endPage, miso);
      && o.result == Err(if FourByteMode(g) && !devOpen then NotOpen else MissingPageTime)
      && o.bytesRead == 0
      && o.calls == (if FourByteMode(g) && devOpen then En4bCalls(devIndex) else [])
      && forall s :: s in Streams(o.calls) ==> |s| == 1
  {
    ModeSwitchStreams(devIndex);
  }

  /** read_page on an open device (or one that needs no 4-byte mode), in the
      terms of its loop over the read window. */
  lemma ReadPageSpecRuns(g: ValidGeometry, devIndex: int, devOpen: bool,
                         startPage: Option<int>, endPage: Option<int>, miso: seq<byte>)
    requires devOpen || !FourByteMode(g)
    ensures var four := FourByteMode(g);
      var w := ReadWindow(g, startPage, endPage);
      var cs := Chunks(w.0, w.1, g.PageDataSize());
      var m := Drop(miso, if four then 4 else 0);
      Fits(cs, g.pageSize)
      && ReadPageSpec(g, devIndex, devOpen, startPage, endPage, miso)
         == ReadOutcome(Ok(ReadLoopData(four, g.pageSize, cs, m)), TotalLength(cs),
                        (if four then En4bCalls(devIndex) else []) + ReadLoopCalls(devIndex, four, cs)
                          + (if four then Ex4bCalls(devIndex) else []),
                        Drop(ReadLoopRest(four, cs, m), if four then 2 else 0))
  {
    var w := ReadWindow(g, startPage, endPage);
    ChunksFit(w.0, w.1, g.PageDataSize(), g.pageSize);
    DropZero(miso);
    DropZero(ReadLoopRest(FourByteMode(g), Chunks(w.0, w.1, g.PageDataSize()), miso));
  }

  /** The result is one whole page buffer per iteration. */
  lemma {:induction false} ReadLoopDataLength(four: bool, pageSize: nat, cs: seq<Chunk>, miso: seq<byte>)
    requires Fits(cs, pageSize)
    ensures |ReadLoopData(four, pageSize, cs, miso)| == |cs| * pageSize
  {
    if cs != [] {
      var m := Drop(miso, |ReadHeader(four, cs[0].address)|);
      ReadLoopDataLength(four, pageSize, cs[1..], Drop(m, cs[0].length));
      assert (|cs| - 1) * pageSize + pageSize == |cs| * pageSize;
    }
  }

  /** read_page's loop invariant: what is still to do (`rem`, from the
      current MISO stream) completes what was done into the whole loop. */
  ghost predicate ReadLoopInv(devIndex: int, four: bool, pageSize: nat, cs0: seq<Chunk>, m0: seq<byte>, log0: seq<Call>,
                              rem: seq<Chunk>, out: seq<byte>, miso: seq<byte>, log: seq<Call>, count: int)
  {
    && Fits(cs0, pageSize) && Fits(rem, pageSize)
    && out + ReadLoopData(four, pageSize, rem, miso) == ReadLoopData(four, pageSize, cs0, m0)
    && ReadLoopRest(four, rem, miso) == ReadLoopRest(four, cs0, m0)
    && log + ReadLoopCalls(devIndex, four, rem) == log0 + ReadLoopCalls(devIndex, four, cs0)
    && count + TotalLength(rem) == TotalLength(cs0)
  }

  /** One iteration keeps the invariant. */
  lemma ReadLoopAdvance(devIndex: int, four: bool, pageSize: nat, cs0: seq<Chunk>, m0: seq<byte>, log0: seq<Call>,
                        rem: seq<Chunk>, out: seq<byte>, miso: seq<byte>, log: seq<Call>, count: int)
    requires ReadLoopInv(devIndex, four, pageSize, cs0, m0, log0, rem, out, miso, log, count)
    requires rem != []
    ensures rem[0].length <= pageSize
    ensures ReadLoopInv(devIndex, four, pageSize, cs0, m0, log0, rem[1..],
                        out + ChunkPage(four, pageSize, rem[0], miso), ChunkRest(four, rem[0], miso),
                        log + ReadChunkCalls(devIndex, four, rem[0]), count + rem[0].length)
  {
    assert forall k :: 0 <= k < |rem| - 1 ==> rem[1..][k] == rem[k + 1];
    AppendAssoc(out, ChunkPage(four, pageSize, rem[0], miso),
                ReadLoopData(four, pageSize, rem[1..], ChunkRest(four, rem[0], miso)));
    AppendAssoc(log, ReadChunkCalls(devIndex, four, rem[0]), ReadLoopCalls(devIndex, four, rem[1..]));
  }

  /** Page k of the result holds the device's bytes for chunk k, clocked
      after the k chunks before it and chunk k's own header, and then the
      zeros left in the unused rest of its buffer. */
  lemma {:induction false} ReadLoopDataPage(four: bool, pageSize: nat, cs: seq<Chunk>, miso: seq<byte>, k: nat)
    requires Fits(cs, pageSize) && k < |cs|
    ensures PageLaidOut(four, pageSize, cs, miso, k)
    decreases k
  {
    if k == 0 {
      ReadLoopDataPageZero(four, pageSize, cs, miso);
    } else {
      FitsTail(cs, pageSize);
      ReadLoopDataPage(four, pageSize, cs[1..], ChunkRest(four, cs[0], miso), k - 1);
      TailPage(four, pageSize, cs, miso, k);
      ReadLoopDataPageNext(four, pageSize, cs, miso, k);
    }
  }

  /** Page k of the loop's output, bytes k * pageSize up to (k + 1) *
      pageSize: first the bytes MISO carried for chunk k, after the k chunks
      before it and chunk k's header, then zeros up to the end of the page. */
  ghost predicate PageLaidOut(four: bool, pageSize: nat, cs: seq<Chunk>, miso: seq<byte>, k: nat)
    requires Fits(cs, pageSize) && k < |cs|
  {
    var d := ReadLoopData(four, pageSize, cs, miso);
    var m := Drop(ReadLoopRest(four, cs[..k], miso), |ReadHeader(four, cs[k].address)|);
    && 0 <= k * pageSize && k * pageSize + cs[k].length <= (k + 1) * pageSize <= |cs| * pageSize
    && |d| == |cs| * pageSize
    && d[k * pageSize .. k * pageSize + cs[k].length] == Take(m, cs[k].length)
    && d[k * pageSize + cs[k].length .. (k + 1) * pageSize] == Zeros(pageSize - cs[k].length)
  }

  lemma ReadLoopDataPageZero(four: bool, pageSize: nat, cs: seq<Chunk>, miso: seq<byte>)
    requires Fits(cs, pageSize) && cs != []
    ensures PageLaidOut(four, pageSize, cs, miso, 0)
  {
    ReadLoopDataLength(four, pageSize, cs, miso);
    PageBounds(0, |cs|, pageSize);
    assert cs[..0] == [];
    ReadLoopDataPageFirst(four, pageSize, cs, miso);
  }

  lemma ReadLoopDataPageNext(four: bool, pageSize: nat, cs: seq<Chunk>, miso: seq<byte>, k: nat)
    requires Fits(cs, pageSize) && 0 < k < |cs| && Fits(cs[1..], pageSize)
    requires var tail := ReadLoopData(four, pageSize, cs[1..], ChunkRest(four, cs[0], miso));
      var m := Drop(ReadLoopRest(four, cs[..k], miso), |ReadHeader(four, cs[k].address)|);
      && 0 <= (k - 1) * pageSize && (k - 1) * pageSize + pageSize == k * pageSize && k * pageSize <= |tail|
      && tail[(k - 1) * pageSize .. (k - 1) * pageSize + cs[k].length] == Take(m, cs[k].length)
      && tail[(k - 1) * pageSize + cs[k].length .. k * pageSize] == Zeros(pageSize - cs[k].length)
    ensures PageLaidOut(four, pageSize, cs, miso, k)
  {
    var m := Drop(ReadLoopRest(four, cs[..k], miso), |ReadHeader(four, cs[k].address)|);
    ReadLoopDataSplit(four, pageSize, cs, miso);
    ReadLoopDataLength(four, pageSize, cs, miso);
    PageStep(ReadLoopData(four, pageSize, cs, miso), ChunkPage(four, pageSize, cs[0], miso),
             ReadLoopData(four, pageSize, cs[1..], ChunkRest(four, cs[0], miso)),
             pageSize, k, cs[k].length, Take(m, cs[k].length), Zeros(pageSize - cs[k].length));
  }


  /** The loop's output is the first chunk's page, then the output for the rest. */
  lemma ReadLoopDataSplit(four: bool, pageSize: nat, cs: seq<Chunk>, miso: seq<byte>)
    requires Fits(cs, pageSize) && cs != []
    ensures Fits(cs[1..], pageSize)
    ensures ReadLoopData(four, pageSize, cs, miso)
            == ChunkPage(four, pageSize, cs[0], miso) + ReadLoopData(four, pageSize, cs[1..], ChunkRest(four, cs[0], miso))
    ensures |ChunkPage(four, pageSize, cs[0], miso)| == pageSize
  {
    FitsTail(cs, pageSize);
  }

  /** Page k - 1 of the loop's output for the chunks after the first,
      stated with chunk k's own MISO remainder. */
  lemma TailPage(four: bool, pageSize: nat, cs: seq<Chunk>, miso: seq<byte>, k: nat)
    requires Fits(cs, pageSize) && 0 < k < |cs| && Fits(cs[1..], pageSize)
    requires PageLaidOut(four, pageSize, cs[1..], ChunkRest(four, cs[0], miso), k - 1)
    ensures var tail := ReadLoopData(four, pageSize, cs[1..], ChunkRest(four, cs[0], miso));
      var m := Drop(ReadLoopRest(four, cs[..k], miso), |ReadHeader(four, cs[k].address)|);
      && 0 <= (k - 1) * pageSize && (k - 1) * pageSize + pageSize == k * pageSize && k * pageSize <= |tail|
      && tail[(k - 1) * pageSize .. (k - 1) * pageSize + cs[k].length] == Take(m, cs[k].length)
      && tail[(k - 1) * pageSize + cs[k].length .. k * pageSize] == Zeros(pageSize - cs[k].length)
  {
    assert cs[1..][k - 1] == cs[k];
    ReadLoopRestPrefix(four, cs, miso, k);
    PageBounds(k - 1, |cs| - 1, pageSize);
  }



  lemma ReadLoopDataPageFirst(four: bool, pageSize: nat, cs: seq<Chunk>, miso: seq<byte>)
    requires Fits(cs, pageSize) && cs != []
    ensures var d := ReadLoopData(four, pageSize, cs, miso);
      var m := Drop(miso, |ReadHeader(four, cs[0].address)|);
      && |d| >= pageSize
      && d[..cs[0].length] == Take(m, cs[0].length)
      && d[cs[0].length..pageSize] == Zeros(pageSize - cs[0].length)
  {
  }

  lemma FitsTail(cs: seq<Chunk>, size: int)
    requires Fits(cs, size) && cs != []
    ensures Fits(cs[1..], size)
  {
    assert forall j :: 0 <= j < |cs| - 1 ==> cs[1..][j] == cs[j + 1];
  }

  /** The MISO left after the first k chunks, counted from the second chunk on. */
  lemma ReadLoopRestPrefix(four: bool, cs: seq<Chunk>, miso: seq<byte>, k: nat)
    requires 0 < k <= |cs|
    ensures ReadLoopRest(four, cs[..k], miso) == ReadLoopRest(four, cs[1..][..k - 1], ChunkRest(four, cs[0], miso))
  {
    assert cs[..k][1..] == cs[1..][..k - 1];
    assert cs[..k][0] == cs[0];
  }

  lemma PageBounds(k: nat, n: nat, p: nat)
    requires k < n
    ensures (k + 1) * p == k * p + p && (k + 1) * p <= n * p
  {
    assert n * p == (k + 1) * p + (n - k - 1) * p;
  }

  /** Page k of `first + tail`, when `first` is one page long, is page k - 1 of `tail`. */
  lemma PageStep<T>(d: seq<T>, first: seq<T>, tail: seq<T>, p: nat, k: nat, len: nat, data: seq<T>, pad: seq<T>)
    requires d == first + tail && |first| == p && 0 < k && len <= p && k * p <= |tail|
    requires 0 <= (k - 1) * p && (k - 1) * p + p == k * p
    requires tail[(k - 1) * p .. (k - 1) * p + len] == data
    requires tail[(k - 1) * p + len .. k * p] == pad
    ensures 0 <= k * p && k * p + len <= (k + 1) * p <= |d|
    ensures d[k * p .. k * p + len] == data
    ensures d[k * p + len .. (k + 1) * p] == pad
  {
    var q := (k - 1) * p;
    assert (k + 1) * p == k * p + p;
    SliceAppendRight(first, tail, q, q + len);
    SliceAppendRight(first, tail, q + len, q + p);
  }



  /** Iteration k streams its address header, then `length` zero bytes. */
  lemma ReadLoopStreamsFirst(devIndex: int, four: bool, cs: seq<Chunk>)
    requires cs != []
    ensures Streams(ReadLoopCalls(devIndex, four, cs))
            == [ReadHeader(four, cs[0].address), Zeros(cs[0].length)] + Streams(ReadLoopCalls(devIndex, four, cs[1..]))
  {
    var h := WriteSpiCalls(0, 0, ReadHeader(four, cs[0].address));
    var z := ReadSpiCalls(1, 0, devIndex, Zeros(cs[0].length));
    PrimitiveStreams(0, 0, devIndex, 0, ReadHeader(four, cs[0].address));
    PrimitiveStreams(1, 0, devIndex, 0, Zeros(cs[0].length));
    StreamsAppend(h, z);
    StreamsAppend(h + z, ReadLoopCalls(devIndex, four, cs[1..]));
  }

  lemma {:induction false} ReadLoopStreams(devIndex: int, four: bool, cs: seq<Chunk>)
    ensures var ss := Streams(ReadLoopCalls(devIndex, four, cs));
      && |ss| == 2 * |cs|
      && forall k :: 0 <= k < |cs| ==>
           ss[2 * k] == ReadHeader(four, cs[k].address) && ss[2 * k + 1] == Zeros(cs[k].length)
  {
    if cs != [] {
      ReadLoopStreamsFirst(devIndex, four, cs);
      ReadLoopStreams(devIndex, four, cs[1..]);
      var ss := Streams(ReadLoopCalls(devIndex, four, cs));
      var tail := Streams(ReadLoopCalls(devIndex, four, cs[1..]));
      forall k | 1 <= k < |cs|
        ensures ss[2 * k] == ReadHeader(four, cs[k].address) && ss[2 * k + 1] == Zeros(cs[k].length)
      {
        assert cs[1..][k - 1] == cs[k];
        assert ss[2 * k] == tail[2 * (k - 1)];
        assert ss[2 * k + 1] == tail[2 * (k - 1) + 1];
      }
    }
  }

  /** Above 16 MiB a successful read_page streams EN4B (06 B7 17 80) before
      its loop, EX4B (06 E9) after it, and 5-byte read headers between. */
  lemma ReadPageFourByteStreams(g: ValidGeometry, devIndex: int,
                                startPage: Option<int>, endPage: Option<int>, miso: seq<byte>)
    requires FourByteMode(g)
    ensures var cs := ReadChunks(g, startPage, endPage);
      var ss := Streams(ReadPageSpec(g, devIndex, true, startPage, endPage, miso).calls);
      && |ss| == 4 + 2 * |cs| + 2
      && ss[..4] == [[WRITE_ENABLE], [ENABLE_4BIT_MODE], [BANK_REGISTER_WRITE], [BANK_EXTADD]]
      && ss[|ss| - 2..] == [[WRITE_ENABLE], [DISABLE_4BIT_MODE]]
      && forall k :: 0 <= k < |cs| ==> ss[4 + 2 * k] == Read4Header(cs[k].address)
  {
    var cs := ReadChunks(g, startPage, endPage);
    var loop := ReadLoopCalls(devIndex, true, cs);
    ReadLoopStreams(devIndex, true, cs);
    ModeSwitchStreams(devIndex);
    StreamsAppend(En4bCalls(devIndex), loop);
    StreamsAppend(En4bCalls(devIndex) + loop, Ex4bCalls(devIndex));
    var ss := Streams(ReadPageSpec(g, devIndex, true, startPage, endPage, miso).calls);
    assert ss == Streams(En4bCalls(devIndex)) + Streams(loop) + Streams(Ex4bCalls(devIndex));
  }

  /** At or below 16 MiB read_page streams only its loop: 4-byte read
      headers ([03, a23..16, a15..8, a7..0]) and zero buffers, never B7 or E9. */
  lemma ReadPageThreeByteStreams(g: ValidGeometry, devIndex: int, devOpen: bool,
                                 startPage: Option<int>, endPage: Option<int>, miso: seq<byte>)
    requires !FourByteMode(g)
    ensures var cs := ReadChunks(g, startPage, endPage);
      var ss := Streams(ReadPageSpec(g, devIndex, devOpen, startPage, endPage, miso).calls);
      && |ss| == 2 * |cs|
      && (forall k :: 0 <= k < |cs| ==> ss[2 * k] == Read3Header(cs[k].address))
      && [ENABLE_4BIT_MODE] !in ss && [DISABLE_4BIT_MODE] !in ss
  {
    var cs := ReadChunks(g, startPage, endPage);
    var loop := ReadLoopCalls(devIndex, false, cs);
    ReadLoopStreams(devIndex, false, cs);
    assert ReadPageSpec(g, devIndex, devOpen, startPage, endPage, miso).calls == [] + loop + [];
    assert [] + loop + [] == loop;
    var ss := Streams(loop);
    forall i | 0 <= i < |ss|
      ensures ss[i] != [ENABLE_4BIT_MODE] && ss[i] != [DISABLE_4BIT_MODE]
    {
      var k := i / 2;
      if i == 2 * k {
        assert |ss[i]| == 4;
      } else {
        var z := Zeros(cs[k].length);
        assert ss[i] == z;
        if |z| == 1 {
          assert z[0] == 0;
        }
      }
    }
  }

  /** read_page(start, end) with 0 < end and start <= end: end - start
      iterations reading a full data page each, at start*D, start*D + D, ...
      (D the data size of a page), bytesRead (end - start) * D, and a result
      of end - start whole pages (OOB size included). */
  lemma ReadPageRange(g: ValidGeometry, devIndex: int, devOpen: bool, startPage: int, endPage: int, miso: seq<byte>)
    requires 0 < endPage && startPage <= endPage
    requires devOpen || !FourByteMode(g)
    ensures var o := ReadPageSpec(g, devIndex, devOpen, Some(startPage), Some(endPage), miso);
      var d := g.PageDataSize();
      var cs := ReadChunks(g, Some(startPage), Some(endPage));
      && |cs| == endPage - startPage
      && (forall k :: 0 <= k < |cs| ==> cs[k] == Chunk(startPage * d + k * d, d))
      && o.bytesRead == (endPage - startPage) * d
      && o.result.Ok? && |o.result.value| == (endPage - startPage) * g.pageSize
  {
    var d := g.PageDataSize();
    var n := endPage - startPage;
    var a := startPage * d;
    assert endPage * d == a + n * d by {
      assert (endPage - startPage) * d == endPage * d - startPage * d;
    }
    ChunksExact(a, n, d);
    var cs := Chunks(a, a + n * d, d);
    assert cs == ReadChunks(g, Some(startPage), Some(endPage));
    ChunksTotalExact(cs, d);
    var four := FourByteMode(g);
    ReadLoopDataLength(four, g.pageSize, cs, if four then Drop(miso, 4) else miso);
  }

  lemma {:induction false} ChunksTotalExact(cs: seq<Chunk>, d: nat)
    requires forall k :: 0 <= k < |cs| ==> cs[k].length == d
    ensures TotalLength(cs) == |cs| * d
  {
    if cs != [] {
      ChunksTotalExact(cs[1..], d);
      assert (|cs| - 1) * d + d == |cs| * d;
    }
  }

  /** Nothing to read when end_page <= start_page (and end_page > 0): no
      read transaction, an empty result and a zero count. */
  lemma ReadPageEmptyRange(g: ValidGeometry, devIndex: int, devOpen: bool, startPage: int, endPage: int, miso: seq<byte>)
    requires 0 < endPage <= startPage
    requires devOpen || !FourByteMode(g)
    ensures var o := ReadPageSpec(g, devIndex, devOpen, Some(startPage), Some(endPage), miso);
      && o.result == Ok([]) && o.bytesRead == 0
      && o.calls == if FourByteMode(g) then En4bCalls(devIndex) + Ex4bCalls(devIndex) else []
  {
    var d := g.PageDataSize();
    assert startPage * d >= endPage * d by {
      assert (startPage - endPage) * d >= 0;
    }
  }

  /** Without a page range read_page walks the whole chip, clamping the last
      chunk: the lengths add up to the chip size and every page buffer is whole. */
  lemma ReadPageWholeChip(g: ValidGeometry, devIndex: int, devOpen: bool,
                          startPage: Option<int>, endPage: Option<int>, miso: seq<byte>)
    requires startPage.None? || endPage.None? || endPage.value <= 0
    requires devOpen || !FourByteMode(g)
    ensures var o := ReadPageSpec(g, devIndex, devOpen, startPage, endPage, miso);
      var cs := Chunks(0, g.ChipSize(), g.PageDataSize());
      && o.bytesRead == g.ChipSize()
      && o.result.Ok? && |o.result.value| == |cs| * g.pageSize
      && (forall k :: 0 <= k < |cs| ==> cs[k].address == k * g.PageDataSize())
  {
    var cs := Chunks(0, g.ChipSize(), g.PageDataSize());
    ChunksCover(0, g.ChipSize(), g.PageDataSize());
    var four := FourByteMode(g);
    ReadLoopDataLength(four, g.pageSize, cs, if four then Drop(miso, 4) else miso);
  }

  /** With the default geometry, read_page(0, 3) runs in 4-byte mode and
      returns 3 * 2112 = 6336 bytes. */
  lemma ReadThreePagesDefault(devIndex: int, miso: seq<byte>)
    ensures var o := ReadPageSpec(DEFAULT_GEOMETRY, devIndex, true, Some(0), Some(3), miso);
      o.result.Ok? && |o.result.value| == 6336 && o.bytesRead == 6144
  {
    ReadPageRange(DEFAULT_GEOMETRY, devIndex, true, 0, 3, miso);
  }

  // ---------------------------------------------------------------------
  // Busy polling

  /** The byte is_spi_25_busy reads: the one after the byte clocked under its 0x05 opcode. */
  function StatusByte(m: seq<byte>): byte
  {
    Take(Drop(m, 1), 1)[0]
  }

  /** Status reads made by `while is_spi_25_busy(): is_spi_25_busy()`: one
      per loop test, one more per body, each clocking two MISO bytes. The
      loop is left on the first test that reads 0xFF, so the count is odd. */
  function PollCount(m: seq<byte>): (n: nat)
    ensures n % 2 == 1
    decreases |m|
  {
    if !Spi25Busy(StatusByte(m)) then 1
    else
      assert |Drop(m, 1)| >= 1;
      2 + PollCount(Drop(m, 4))
  }

  /** Loop tests read the status bytes at 1, 5, 9, ...; a device that is busy
      for exactly N tests and then reads 0xFF (or has nothing more to say)
      costs 2N + 1 status reads. */
  lemma {:induction false} PollCountBusyThenReady(m: seq<byte>, busyTests: nat)
    requires forall k :: 0 <= k < busyTests ==> 4 * k + 1 < |m| && m[4 * k + 1] != STATUS_IDLE
    requires 4 * busyTests + 1 < |m| ==> m[4 * busyTests + 1] == STATUS_IDLE
    ensures PollCount(m) == 2 * busyTests + 1
    decreases busyTests
  {
    if busyTests == 0 {
      if |m| > 1 {
        assert StatusByte(m) == m[1];
      }
    } else {
      assert 4 * 0 + 1 < |m| && m[4 * 0 + 1] != STATUS_IDLE;
      assert StatusByte(m) == m[1];
      var rest := Drop(m, 4);
      forall k | 0 <= k < busyTests - 1
        ensures 4 * k + 1 < |rest| && rest[4 * k + 1] != STATUS_IDLE
      {
        assert 4 * (k + 1) + 1 < |m|;
        assert rest[4 * k + 1] == m[4 * (k + 1) + 1];
      }
      if 4 * (busyTests - 1) + 1 < |rest| {
        assert rest[4 * (busyTests - 1) + 1] == m[4 * busyTests + 1];
      }
      PollCountBusyThenReady(rest, busyTests - 1);
    }
  }

  /** The last status read of the loop is the test that saw 0xFF. */
  lemma {:induction false} PollCountEndsReady(m: seq<byte>)
    ensures !Spi25Busy(StatusByte(Drop(m, 2 * (PollCount(m) - 1))))
    decreases |m|
  {
    DropZero(m);
    if Spi25Busy(StatusByte(m)) {
      assert |Drop(m, 1)| >= 1;
      PollCountEndsReady(Drop(m, 4));
      DropDrop(m, 4, 2 * (PollCount(Drop(m, 4)) - 1));
    }
  }

  /** One turn of the busy loop: a busy test and the printed read clock four
      bytes and leave two more status reads to the rest of the wait. */
  lemma PollCountStep(m: seq<byte>)
    requires Spi25Busy(StatusByte(m))
    ensures PollCount(m) == 2 + PollCount(Drop(Drop(m, 2), 2))
    ensures |Drop(Drop(m, 2), 2)| < |m|
  {
    assert |Drop(m, 1)| >= 1;
    DropDrop(m, 2, 2);
  }

  function Repeat(calls: seq<Call>, n: nat): seq<Call>
  {
    if n == 0 then [] else calls + Repeat(calls, n - 1)
  }

  lemma {:induction false} RepeatSnoc(calls: seq<Call>, n: nat)
    ensures Repeat(calls, n) + calls == Repeat(calls, n + 1)
  {
    if n > 0 {
      RepeatSnoc(calls, n - 1);
    }
  }

  /** A log that ends in n repetitions and gets one more. */
  lemma RepeatExtend(prefix: seq<Call>, calls: seq<Call>, n: nat)
    ensures prefix + Repeat(calls, n) + calls == prefix + Repeat(calls, n + 1)
  {
    RepeatSnoc(calls, n);
  }

  // ---------------------------------------------------------------------
  // write_page

  /** One iteration of write_page's loop: the chunk's address, the bytes it
      took from the data stream, and the status reads its busy wait made. */
  datatype Programmed = Programmed(address: int, piece: seq<byte>, polls: nat)

  /** The iterations of write_page's loop: PAGE_SIZE strides from start_page * PAGE_SIZE. */
  function WriteChunks(g: ValidGeometry, startPage: int, size: nat): seq<Chunk>
  {
    Chunks(startPage * g.pageSize, startPage * g.pageSize + size, g.pageSize)
  }

  /** The loop run against the MISO stream: each chunk reads its piece from
      the data stream, is programmed (above 16 MiB only) and is followed by
      the busy wait. Returns the iterations and the MISO stream left. */
  function ProgramLoop(four: bool, cs: seq<Chunk>, data: seq<byte>, miso: seq<byte>): (seq<Programmed>, seq<byte>)
  {
    if cs == [] then ([], miso)
    else
      var piece := if cs[0].length <= |data| then data[..cs[0].length] else data;
      var m := if four then Drop(miso, 5 + |piece|) else miso;
      var n := PollCount(m);
      var (steps, rest) := ProgramLoop(four, cs[1..], data[|piece|..], Drop(m, 2 * n));
      ([Programmed(cs[0].address, piece, n)] + steps, rest)
  }

  /** write_32bit_address_spi25_341: header with chip select held, the piece
      with chip select released, a 2 ms adapter delay. */
  function ProgramCalls(devIndex: int, address: int, piece: seq<byte>): seq<Call>
  {
    WriteSpiCalls(0, 0, ProgramHeader(address)) + ReadSpiCalls(1, 0, devIndex, piece) + [SetDelay(0, 2)]
  }

  function StepCalls(devIndex: int, four: bool, p: Programmed): seq<Call>
  {
    (if four then ProgramCalls(devIndex, p.address, p.piece) else [])
      + Repeat(StatusReadCalls(devIndex), p.polls)
  }

  function LoopCalls(devIndex: int, four: bool, steps: seq<Programmed>): seq<Call>
  {
    if steps == [] then [] else StepCalls(devIndex, four, steps[0]) + LoopCalls(devIndex, four, steps[1..])
  }

  lemma {:induction false} LoopCallsSnoc(devIndex: int, four: bool, steps: seq<Programmed>, p: Programmed)
    ensures LoopCalls(devIndex, four, steps + [p]) == LoopCalls(devIndex, four, steps) + StepCalls(devIndex, four, p)
  {
    var all := steps + [p];
    if steps == [] {
      assert all == [p] && all[1..] == [];
    } else {
      assert all[0] == steps[0] && all[1..] == steps[1..] + [p];
      LoopCallsSnoc(devIndex, four, steps[1..], p);
      var head := StepCalls(devIndex, four, steps[0]);
      calc {
        LoopCalls(devIndex, four, all);
        head + LoopCalls(devIndex, four, steps[1..] + [p]);
        head + (LoopCalls(devIndex, four, steps[1..]) + StepCalls(devIndex, four, p));
        (head + LoopCalls(devIndex, four, steps[1..])) + StepCalls(devIndex, four, p);
      }
    }
  }

  /** write_page's loop invariant: the iterations done so far (`done`) and
      the loop still to run on the rest of the data stream (`d`) and of MISO
      make up the whole loop, whose iterations are `whole` and whose MISO
      left is `wholeRest`. */
  ghost predicate WriteLoopInv(devIndex: int, four: bool, whole: seq<Programmed>, wholeRest: seq<byte>, log0: seq<Call>,
                               rem: seq<Chunk>, d: seq<byte>, miso: seq<byte>, log: seq<Call>, done: seq<Programmed>)
  {
    && whole == done + ProgramLoop(four, rem, d, miso).0
    && wholeRest == ProgramLoop(four, rem, d, miso).1
    && log == log0 + LoopCalls(devIndex, four, done)
  }

  /** Before the first iteration nothing is done. */
  lemma WriteLoopStart(devIndex: int, four: bool, cs0: seq<Chunk>, d0: seq<byte>, m0: seq<byte>, log0: seq<Call>)
    ensures WriteLoopInv(devIndex, four, ProgramLoop(four, cs0, d0, m0).0, ProgramLoop(four, cs0, d0, m0).1, log0,
                         cs0, d0, m0, log0, [])
  {
    AppendNil(log0);
  }

  /** With no chunk left, the iterations done are the whole loop. */
  lemma WriteLoopDone(devIndex: int, four: bool, whole: seq<Programmed>, wholeRest: seq<byte>, log0: seq<Call>,
                      d: seq<byte>, miso: seq<byte>, log: seq<Call>, done: seq<Programmed>)
    requires WriteLoopInv(devIndex, four, whole, wholeRest, log0, [], d, miso, log, done)
    ensures log == log0 + LoopCalls(devIndex, four, whole)
    ensures miso == wholeRest
  {
    AppendNil(done);
  }

  /** The first iteration of the loop when the data stream holds a whole chunk. */
  lemma ProgramLoopFirst(four: bool, cs: seq<Chunk>, d: seq<byte>, miso: seq<byte>, m: seq<byte>, n: nat)
    requires cs != [] && cs[0].length <= |d|
    requires m == if four then Drop(miso, 5 + cs[0].length) else miso
    requires n == PollCount(m)
    ensures ProgramLoop(four, cs, d, miso).0
            == [Programmed(cs[0].address, d[..cs[0].length], n)] + ProgramLoop(four, cs[1..], d[cs[0].length..], Drop(m, 2 * n)).0
    ensures ProgramLoop(four, cs, d, miso).1 == ProgramLoop(four, cs[1..], d[cs[0].length..], Drop(m, 2 * n)).1
  {
  }

  /** One iteration at `address`, its step clamped to what is left and a
      whole step read from the data stream, keeps the invariant. */
  lemma WriteLoopAdvance(devIndex: int, four: bool, whole: seq<Programmed>, wholeRest: seq<byte>, log0: seq<Call>,
                         address: int, limit: int, pageSize: nat, step: nat, stream: seq<byte>,
                         miso: seq<byte>, log: seq<Call>, done: seq<Programmed>,
                         m: seq<byte>, n: nat, log1: seq<Call>)
    requires 0 < pageSize && address < limit && limit - address == |stream|
    requires step == if pageSize > limit - address then limit - address else pageSize
    requires WriteLoopInv(devIndex, four, whole, wholeRest, log0, Chunks(address, limit, pageSize), stream, miso, log, done)
    requires m == if four then Drop(miso, 5 + step) else miso
    requires n == PollCount(m)
    requires log1 == log + StepCalls(devIndex, four, Programmed(address, stream[..step], n))
    ensures WriteLoopInv(devIndex, four, whole, wholeRest, log0, Chunks(address + step, limit, step), stream[step..],
                         Drop(m, 2 * n), log1, done + [Programmed(address, stream[..step], n)])
  {
    ChunksClamp(address, limit, pageSize, step);
    var rem := Chunks(address, limit, pageSize);
    var p := Programmed(address, stream[..step], n);
    ProgramLoopFirst(four, rem, stream, miso, m, n);
    AppendAssoc(done, [p], ProgramLoop(four, rem[1..], stream[step..], Drop(m, 2 * n)).0);
    AppendAssoc(log0, LoopCalls(devIndex, four, done), StepCalls(devIndex, four, p));
    LoopCallsSnoc(devIndex, four, done, p);
  }

  function Pieces(steps: seq<Programmed>): seq<byte>
  {
    if steps == [] then [] else steps[0].piece + Pieces(steps[1..])
  }

  /** int(x / PAGE_SIZE) in the source: float division truncated toward zero. */
  function TruncDiv(a: int, b: nat): int
    requires b > 0
  {
    if a >= 0 then a / b else -((-a) / b)
  }

  /** The message write_page prints when it compares its read-backs. */
  datatype Report = NotVerified | NothingChanged | SomethingChanged

  datatype WriteOutcome = WriteOutcome(result: Result<Report>, calls: seq<Call>, rest: seq<byte>)

  /** enable_write, then enable_4bit_mode above 16 MiB. */
  function EnterWriteCalls(four: bool): seq<Call>
  {
    WriteSpiCalls(1, 0, [WRITE_ENABLE]) + (if four then WriteSpiCalls(1, 0, [ENABLE_4BIT_MODE]) else [])
  }

  /** disable_4bit_mode above 16 MiB, then disable_write. */
  function LeaveWriteCalls(four: bool): seq<Call>
  {
    (if four then WriteSpiCalls(1, 0, [DISABLE_4BIT_MODE]) else []) + WriteSpiCalls(1, 0, [WRITE_DISABLE])
  }

  /** From write enable to write disable: 0x06, 0xB7 above 16 MiB, the
      program loop, 0xE9 above 16 MiB, 0x04; the calls and the MISO left. */
  function WriteBody(g: ValidGeometry, devIndex: int, startPage: int, data: seq<byte>, miso: seq<byte>)
    : (seq<Call>, seq<byte>)
  {
    var four := FourByteMode(g);
    var (steps, m) := ProgramLoop(four, WriteChunks(g, startPage, |data|), data,
                                  Drop(miso, if four then 2 else 1));
    (EnterWriteCalls(four) + LoopCalls(devIndex, four, steps) + LeaveWriteCalls(four),
     Drop(m, if four then 2 else 1))
  }

  /** Last page number write_page reads back: int((start_page * PAGE_SIZE + len(data)) / PAGE_SIZE). */
  function VerifyEndPage(g: ValidGeometry, startPage: int, size: nat): int
  {
    TruncDiv(startPage * g.pageSize + size, g.pageSize)
  }

  function WritePageSpec(g: ValidGeometry, devIndex: int, devOpen: bool, startPage: Option<int>,
                         file: Option<seq<byte>>, verify: bool, miso: seq<byte>): WriteOutcome
  {
    if startPage.None? || file.None? then WriteOutcome(Err(MissingArgument), [], miso)
    else
      var endPage := VerifyEndPage(g, startPage.value, |file.value|);
      if !verify then
        var body := WriteBody(g, devIndex, startPage.value, file.value, miso);
        WriteOutcome(Ok(NotVerified), body.0, body.1)
      else
        var before := ReadPageSpec(g, devIndex, devOpen, startPage, Some(endPage), miso);
        match before.result
        case Err(e) => WriteOutcome(Err(e), [], miso)
        case Ok(original) =>
          var body := WriteBody(g, devIndex, startPage.value, file.value, before.rest);
          var after := ReadPageSpec(g, devIndex, devOpen, startPage, Some(endPage), body.1);
          match after.result
          case Err(e) => WriteOutcome(Err(e), before.calls + body.0, body.1)
          case Ok(readBack) =>
            WriteOutcome(Ok(if original == readBack then NothingChanged else SomethingChanged),
                         before.calls + body.0 + after.calls, after.rest)
  }

  /** The loop takes the data stream apart in order: one iteration per chunk
      at the chunk's address, each taking the chunk's length, the pieces
      concatenating back to the data, and an odd number of status reads each. */
  lemma {:induction false} ProgramLoopPieces(four: bool, cs: seq<Chunk>, data: seq<byte>, miso: seq<byte>)
    requires TotalLength(cs) == |data|
    ensures var steps := ProgramLoop(four, cs, data, miso).0;
      && |steps| == |cs|
      && (forall k :: 0 <= k < |cs| ==>
            steps[k].address == cs[k].address && |steps[k].piece| == cs[k].length && steps[k].polls % 2 == 1)
      && Pieces(steps) == data
  {
    if cs != [] {
      var piece := data[..cs[0].length];
      var m := if four then Drop(miso, 5 + |piece|) else miso;
      var n := PollCount(m);
      ProgramLoopPieces(four, cs[1..], data[|piece|..], Drop(m, 2 * n));
      var steps := ProgramLoop(four, cs, data, miso).0;
      var tail := ProgramLoop(four, cs[1..], data[|piece|..], Drop(m, 2 * n)).0;
      assert steps == [Programmed(cs[0].address, piece, n)] + tail;
      assert steps[1..] == tail;
      forall k | 1 <= k < |cs|
        ensures steps[k].address == cs[k].address && |steps[k].piece| == cs[k].length && steps[k].polls % 2 == 1
      {
        assert steps[k] == tail[k - 1] && cs[k] == cs[1..][k - 1];
      }
      assert data == piece + data[|piece|..];
    }
  }

  /** write_page(start, data): one program iteration per PAGE_SIZE chunk at
      start*PAGE_SIZE + k*PAGE_SIZE, the last clamped to what is left, the
      chunks reassembling the data. */
  lemma WritePagePlan(g: ValidGeometry, startPage: int, data: seq<byte>, four: bool, miso: seq<byte>)
    ensures var cs := WriteChunks(g, startPage, |data|);
      var steps := ProgramLoop(four, cs, data, miso).0;
      && |steps| == |cs|
      && (forall k :: 0 <= k < |steps| ==>
            steps[k].address == startPage * g.pageSize + k * g.pageSize
            && 0 < |steps[k].piece| <= g.pageSize && steps[k].polls % 2 == 1)
      && (forall k :: 0 <= k < |steps| - 1 ==> |steps[k].piece| == g.pageSize)
      && Pieces(steps) == data
  {
    var base := startPage * g.pageSize;
    ChunksCover(base, base + |data|, g.pageSize);
    ProgramLoopPieces(four, WriteChunks(g, startPage, |data|), data, miso);
  }

  /** At or below 16 MiB write_page's loop never programs: the only streams
      between write enable and write disable are the status polls. */
  lemma {:induction false} NoProgramAtOrBelow16MiB(devIndex: int, steps: seq<Programmed>)
    ensures forall s :: s in Streams(LoopCalls(devIndex, false, steps)) ==>
      s == [READ_STATUS_REG1] || s == [STATUS_IDLE]
  {
    if steps != [] {
      var head := StepCalls(devIndex, false, steps[0]);
      assert head == Repeat(StatusReadCalls(devIndex), steps[0].polls);
      RepeatStatusStreams(devIndex, steps[0].polls);
      NoProgramAtOrBelow16MiB(devIndex, steps[1..]);
      StreamsAppend(head, LoopCalls(devIndex, false, steps[1..]));
    }
  }

  /** Every busy test of the wait writes the opcode 0x05 and then clocks the
      one byte of its status buffer, whatever the tests before it read. */
  lemma {:induction false} StatusPollStreams(devIndex: int, n: nat)
    ensures var ss := Streams(Repeat(StatusReadCalls(devIndex), n));
      && |ss| == 2 * n
      && forall k :: 0 <= k < n ==> ss[2 * k] == [READ_STATUS_REG1] && ss[2 * k + 1] == [STATUS_IDLE]
  {
    if n > 0 {
      var one := StatusReadCalls(devIndex);
      PrimitiveStreams(0, 0, devIndex, 0, [READ_STATUS_REG1]);
      PrimitiveStreams(1, 0, devIndex, 0, [STATUS_IDLE]);
      StreamsAppend(WriteSpiCalls(0, 0, [READ_STATUS_REG1]), ReadSpiCalls(1, 0, devIndex, [STATUS_IDLE]));
      StreamsAppend(one, Repeat(one, n - 1));
      StatusPollStreams(devIndex, n - 1);
      var ss := Streams(Repeat(one, n));
      var tail := Streams(Repeat(one, n - 1));
      assert ss == [[READ_STATUS_REG1], [STATUS_IDLE]] + tail;
      forall k | 1 <= k < n
        ensures ss[2 * k] == [READ_STATUS_REG1] && ss[2 * k + 1] == [STATUS_IDLE]
      {
        assert ss[2 * k] == tail[2 * (k - 1)];
        assert ss[2 * k + 1] == tail[2 * (k - 1) + 1];
      }
    }
  }

  lemma {:induction false} RepeatStatusStreams(devIndex: int, n: nat)
    ensures forall s :: s in Streams(Repeat(StatusReadCalls(devIndex), n)) ==>
      s == [READ_STATUS_REG1] || s == [STATUS_IDLE]
  {
    if n > 0 {
      var one := StatusReadCalls(devIndex);
      PrimitiveStreams(0, 0, devIndex, 0, [READ_STATUS_REG1]);
      PrimitiveStreams(1, 0, devIndex, 0, [STATUS_IDLE]);
      StreamsAppend(WriteSpiCalls(0, 0, [READ_STATUS_REG1]), ReadSpiCalls(1, 0, devIndex, [STATUS_IDLE]));
      StreamsAppend(one, Repeat(one, n - 1));
      RepeatStatusStreams(devIndex, n - 1);
    }
  }

  /** With verification, the report is "Nothing changed" exactly when the
      read-back taken before write enable equals the one taken after write
      disable; a closed device above 16 MiB fails before anything is sent. */
  lemma WritePageReport(g: ValidGeometry, devIndex: int, devOpen: bool, startPage: int,
                        data: seq<byte>, miso: seq<byte>)
    ensures var o := WritePageSpec(g, devIndex, devOpen, Some(startPage), Some(data), true, miso);
      var endPage := VerifyEndPage(g, startPage, |data|);
      var before := ReadPageSpec(g, devIndex, devOpen, Some(startPage), Some(endPage), miso);
      var body := WriteBody(g, devIndex, startPage, data, before.rest);
      var after := ReadPageSpec(g, devIndex, devOpen, Some(startPage), Some(endPage), body.1);
      if FourByteMode(g) && !devOpen then o == WriteOutcome(Err(NotOpen), [], miso)
      else
        && o.calls == before.calls + body.0 + after.calls
        && o.result.Ok? && o.result.value != NotVerified
        && (o.result.value == NothingChanged <==> before.result.value == after.result.value)
  {
  }

  // ---------------------------------------------------------------------
  // read_bytes and write_bytes

  /** The divisor that maps byte offsets to pages: the data bytes of a page
      with exclude_oob, the whole page without. */
  function PageUnit(g: ValidGeometry, excludeOob: bool): (u: nat)
    ensures u > 0
    ensures u <= g.pageSize && (u == g.pageSize <==> !excludeOob || g.oobSize == 0)
  {
    if excludeOob then g.PageDataSize() else g.pageSize
  }

  /** read_bytes' pages: `from // unit` and `(from + to) // unit`, so `to`
      is a length. Python's floor division is Dafny's `/` for a positive divisor. */
  function BytePages(g: ValidGeometry, fromOffset: int, toOffset: int, excludeOob: bool): (int, int)
  {
    var u := PageUnit(g, excludeOob);
    (fromOffset / u, (fromOffset + toOffset) / u)
  }

  /** With exclude_oob, read_bytes reads from the page boundary at or below
      `from` up to the page boundary at or below `from + to`: a partial last
      page is not read. Below one page's worth of bytes the end page is 0 and
      the whole chip is read. */
  lemma ReadBytesWindow(g: ValidGeometry, fromOffset: int, toOffset: int)
    ensures var p := BytePages(g, fromOffset, toOffset, true);
      var d := g.PageDataSize();
      var w := ReadWindow(g, Some(p.0), Some(p.1));
      if fromOffset + toOffset >= d
      then w == (fromOffset - fromOffset % d, fromOffset + toOffset - (fromOffset + toOffset) % d)
      else w == (0, g.ChipSize())
  {
    var d := g.PageDataSize();
    var e := fromOffset + toOffset;
    if e >= d {
      DivAtLeastOne(e, d);
      assert (fromOffset / d) * d == fromOffset - fromOffset % d;
      assert (e / d) * d == e - e % d;
    } else {
      DivBelowOne(e, d);
    }
  }

  lemma DivAtLeastOne(a: int, d: nat)
    requires 0 < d <= a
    ensures a / d > 0
  {
  }

  lemma DivBelowOne(a: int, d: nat)
    requires 0 < d && a < d
    ensures a / d <= 0
  {
    if a / d > 0 {
      assert a == (a / d) * d + a % d;
      Commands.MulAtLeast(a / d, d);
    }
  }

  /** A range of fewer than one page unit's bytes reads the whole chip,
      exactly as read_page with no pages does. */
  lemma ReadBytesShortRangeReadsWholeChip(g: ValidGeometry, devIndex: int, devOpen: bool,
                                          fromOffset: int, toOffset: int, excludeOob: bool, miso: seq<byte>)
    requires fromOffset + toOffset < PageUnit(g, excludeOob)
    ensures var p := BytePages(g, fromOffset, toOffset, excludeOob);
      ReadPageSpec(g, devIndex, devOpen, Some(p.0), Some(p.1), miso) == ReadPageSpec(g, devIndex, devOpen, None, None, miso)
  {
    DivBelowOne(fromOffset + toOffset, PageUnit(g, excludeOob));
    var p := BytePages(g, fromOffset, toOffset, excludeOob);
    assert ReadWindow(g, Some(p.0), Some(p.1)) == ReadWindow(g, None, None);
  }

  /** write_bytes maps the offset to a page with the unit but write_page
      multiplies the page back by the whole PAGE_SIZE: writing starts at the
      unit boundary at or below `from`, moved up by the out-of-band bytes of
      every page before it when exclude_oob is set. */
  lemma WriteBytesStart(g: ValidGeometry, fromOffset: int, excludeOob: bool)
    ensures var u := PageUnit(g, excludeOob);
      (fromOffset / u) * g.pageSize
      == fromOffset - fromOffset % u + (if excludeOob then (fromOffset / u) * g.oobSize else 0)
  {
    var u := PageUnit(g, excludeOob);
    var q := fromOffset / u;
    assert fromOffset == q * u + fromOffset % u;
    if excludeOob {
      assert q * g.pageSize == q * u + q * g.oobSize;
    }
  }

  /** With the default geometry write_bytes(2048) programs its first byte at 2112. */
  lemma WriteBytesDefaultOffset()
    ensures BytePages(DEFAULT_GEOMETRY, 2048, 0, true).0 == 1
    ensures WriteChunks(DEFAULT_GEOMETRY, 1, 1)[0].address == 2112
  {
  }
}
