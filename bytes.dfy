/** Bytes, big-endian values and the full-duplex byte stream helpers shared
    by the transport, the command encoders and the page transfer engine. */
module Bytes {

  type byte = x: int | 0 <= x < 256

  /** Value of a byte sequence read most-significant byte first. */
  function BeValue(bs: seq<byte>): nat
  {
    if bs == [] then 0 else BeValue(bs[..|bs| - 1]) * 256 + bs[|bs| - 1]
  }

  /** `n` zero bytes: the freshly allocated `bytes([0 ...])` buffers of the driver. */
  function Zeros(n: nat): (r: seq<byte>)
    ensures |r| == n
  {
    seq(n, _ => 0)
  }

  /** The first `n` bytes the device drives on MISO; once the stream is
      exhausted the line idles high and reads 0xFF. */
  function Take(m: seq<byte>, n: nat): (r: seq<byte>)
    ensures |r| == n
    ensures n <= |m| ==> r == m[..n]
  {
    seq(n, i requires 0 <= i < n => if i < |m| then m[i] else 0xFF)
  }

  /** What is left of the MISO stream after `n` bytes were clocked. */
  function Drop(m: seq<byte>, n: nat): (r: seq<byte>)
    ensures |r| == if n <= |m| then |m| - n else 0
  {
    if n <= |m| then m[n..] else []
  }

  lemma AppendAssoc<T>(a: seq<T>, b: seq<T>, c: seq<T>)
    ensures a + (b + c) == (a + b) + c
  {
  }

  lemma AppendNil<T>(s: seq<T>)
    ensures [] + s == s && s + [] == s
  {
  }

  /** A slice that lies past `a` in `a + b` is a slice of `b`. */
  lemma SliceAppendRight<T>(a: seq<T>, b: seq<T>, i: nat, j: nat)
    requires i <= j <= |b|
    ensures (a + b)[|a| + i .. |a| + j] == b[i..j]
  {
  }

  lemma DropDrop(m: seq<byte>, a: nat, b: nat)
    ensures Drop(Drop(m, a), b) == Drop(m, a + b)
  {
  }

  lemma DropZero(m: seq<byte>)
    ensures Drop(m, 0) == m
  {
  }
}
