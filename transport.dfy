/** The USB bridge adapter as the driver sees it: four calls into the native
    library, each of which is recorded in a log. The device's answers come
    from a MISO byte stream supplied by the test bench; every SPI stream
    exchange is full duplex and clocks exactly as many bytes in as out. */
module Transport {
  import opened Bytes

  /** One call into the adapter library, with the arguments the driver passed. */
  datatype Call =
    | SetD5D0(index: int, dirOut: int, dataOut: int)
    | Stream(index: int, chipSelect: int, out: seq<byte>)
    | SetStream(index: int, mode: int)
    | SetDelay(index: int, ms: int)

  /** The outgoing payloads of the stream exchanges in a log, in order. */
  function Streams(log: seq<Call>): (r: seq<seq<byte>>)
    ensures |r| <= |log|
  {
    if log == [] then []
    else (if log[0].Stream? then [log[0].out] else []) + Streams(log[1..])
  }

  lemma {:induction false} StreamsAppend(a: seq<Call>, b: seq<Call>)
    ensures Streams(a + b) == Streams(a) + Streams(b)
  {
    if a != [] {
      assert (a + b)[1..] == a[1..] + b;
      StreamsAppend(a[1..], b);
    } else {
      assert a + b == b;
    }
  }

  class Adapter {
    /** Every call made so far, oldest first. */
    var log: seq<Call>
    /** Bytes the device has yet to drive on MISO. */
    var miso: seq<byte>

    constructor (replies: seq<byte>)
      ensures log == [] && miso == replies
    {
      log := [];
      miso := replies;
    }

    /** CH341Set_D5_D0: pin direction and level of D5..D0 (chip select is D0). */
    method SetD5D0(index: int, dirOut: int, dataOut: int)
      modifies this
      ensures log == old(log) + [Call.SetD5D0(index, dirOut, dataOut)]
      ensures miso == old(miso)
    {
      log := log + [Call.SetD5D0(index, dirOut, dataOut)];
    }

    /** CH341StreamSPI4: shifts `out` to the device and returns what came back. */
    method StreamSPI4(index: int, chipSelect: int, out: seq<byte>) returns (got: seq<byte>)
      modifies this
      ensures log == old(log) + [Stream(index, chipSelect, out)]
      ensures got == Take(old(miso), |out|)
      ensures miso == Drop(old(miso), |out|)
    {
      log := log + [Stream(index, chipSelect, out)];
      got := Take(miso, |out|);
      miso := Drop(miso, |out|);
    }

    /** CH341SetStream: serial stream mode. */
    method SetStreamMode(index: int, mode: int)
      modifies this
      ensures log == old(log) + [SetStream(index, mode)]
      ensures miso == old(miso)
    {
      log := log + [SetStream(index, mode)];
    }

    /** CH341SetDelaymS: hardware delay before the next stream operation. */
    method SetDelaymS(index: int, ms: int)
      modifies this
      ensures log == old(log) + [SetDelay(index, ms)]
      ensures miso == old(miso)
    {
      log := log + [SetDelay(index, ms)];
    }
  }
}
