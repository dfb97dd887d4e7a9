/** The one-byte command buffers as CPython actually hands them out. Every
    `bytes([k])` of length one is the same interpreter-wide object for a
    given k, and CH341StreamSPI4 receives a pointer into that object and
    writes the bytes it clocks in back over it. So a one-byte command sent a
    second time goes out holding whatever MISO returned the first time.
    The rest of the model sends the command bytes the driver names. */
module SharedBytes {
  import opened Bytes
  import opened Commands

  /** What the shared object of `bytes([k])` holds now: the byte last
      clocked into it, or k itself if it was never exchanged. */
  function Held(held: map<byte, byte>, k: byte): byte
  {
    if k in held then held[k] else k
  }

  /** The bytes that go out on MOSI when the one-byte buffers `bytes([k])`,
      for k in `ks`, are exchanged in turn and the device answers from `miso`. */
  function SharedSends(held: map<byte, byte>, ks: seq<byte>, miso: seq<byte>): (sent: seq<byte>)
    ensures |sent| == |ks|
    ensures ks != [] ==> sent[0] == Held(held, ks[0])
    decreases |ks|
  {
    if ks == [] then []
    else [Held(held, ks[0])] + SharedSends(held[ks[0] := Take(miso, 1)[0]], ks[1..], Drop(miso, 1))
  }

  /** A value's first exchange sends it unchanged; only repeats are stale. */
  lemma {:induction false} FirstUseSendsValue(held: map<byte, byte>, ks: seq<byte>, miso: seq<byte>, i: nat)
    requires i < |ks| && ks[i] !in ks[..i] && ks[i] !in held
    ensures SharedSends(held, ks, miso)[i] == ks[i]
    decreases i
  {
    if i > 0 {
      assert ks[0] in ks[..i];
      assert ks[1..][..i - 1] == ks[..i][1..];
      assert ks[1..][i - 1] == ks[i];
      FirstUseSendsValue(held[ks[0] := Take(miso, 1)[0]], ks[1..], Drop(miso, 1), i - 1);
    }
  }

  /** Two busy tests in a row, each writing `bytes([0x05])` and reading into
      `bytes([0xFF])`: the second test sends the byte MISO returned under the
      first opcode in place of 0x05, and the status of the first test in
      place of 0xFF. On an idle-high line its opcode goes out as 0xFF. */
  lemma SecondStatusPollIsStale(miso: seq<byte>)
    ensures SharedSends(map[], [READ_STATUS_REG1, STATUS_IDLE, READ_STATUS_REG1, STATUS_IDLE], miso)
            == [READ_STATUS_REG1, STATUS_IDLE, Take(miso, 1)[0], Take(Drop(miso, 1), 1)[0]]
    ensures SharedSends(map[], [READ_STATUS_REG1, STATUS_IDLE, READ_STATUS_REG1, STATUS_IDLE], [])[2] != READ_STATUS_REG1
  {
    var ks := [READ_STATUS_REG1, STATUS_IDLE, READ_STATUS_REG1, STATUS_IDLE];
    var a, b := Take(miso, 1)[0], Take(Drop(miso, 1), 1)[0];
    var h1 := map[READ_STATUS_REG1 := a];
    var h2 := h1[STATUS_IDLE := b];
    assert ks[1..] == [STATUS_IDLE, READ_STATUS_REG1, STATUS_IDLE];
    assert ks[1..][1..] == [READ_STATUS_REG1, STATUS_IDLE];
    assert Held(h2, READ_STATUS_REG1) == a && Held(h2, STATUS_IDLE) == b;
    var s2 := SharedSends(h2, ks[1..][1..], Drop(Drop(miso, 1), 1));
    assert s2[0] == a;
    assert s2 == [a] + SharedSends(h2[READ_STATUS_REG1 := Take(Drop(Drop(miso, 1), 1), 1)[0]], [STATUS_IDLE], Drop(Drop(Drop(miso, 1), 1), 1));
    assert SharedSends(map[], ks, miso) == [READ_STATUS_REG1] + SharedSends(h1, ks[1..], Drop(miso, 1));
    assert SharedSends(h1, ks[1..], Drop(miso, 1)) == [STATUS_IDLE] + s2;
  }
}
