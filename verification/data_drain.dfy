/** Draining a resource's binary data into memory.

    The stream is read through a channel into a fixed 32000-byte buffer; each
    filled buffer is written out to an in-memory byte array, until the read
    reports end of stream. How many bytes each read delivers is up to the
    stream: the `offer` oracle proposes a count, which is clamped to what a
    blocking read can deliver (at least one byte, at most the buffer's space
    and what is left). An I/O failure is the `failingRead`-th read throwing.
 */
module DataDrain {
  import opened Base

  type byte = bv8

  /** The size of the intermediate buffer. */
  const BufferCapacity: nat := 32000

  /** The number of bytes one read puts into the cleared buffer. */
  function ReadCount(offered: nat, remaining: nat): (n: nat)
    requires remaining > 0
    ensures 1 <= n <= remaining && n <= BufferCapacity
  {
    var cap := if remaining < BufferCapacity then remaining else BufferCapacity;
    if offered < 1 then 1 else if offered > cap then cap else offered
  }

  /** How many buffer-filling reads the stream forces on `remaining` bytes when
      the first of them is read number `start`; the end-of-stream read follows them. */
  function DataReads(remaining: nat, offer: nat -> nat, start: nat): nat
    decreases remaining
  {
    if remaining == 0 then 0
    else 1 + DataReads(remaining - ReadCount(offer(start), remaining), offer, start + 1)
  }

  /** The bytes of successive buffer writes, joined in order. */
  function Concat(writes: seq<seq<byte>>): seq<byte>
  {
    if |writes| == 0 then [] else Concat(writes[..|writes| - 1]) + writes[|writes| - 1]
  }

  /** `getData`: the whole stream, in order, or null when a read fails. A missing
      stream (no matching row) makes the first read fail, so it yields null too.
      `writes` lists what each pass of the loop wrote out of the buffer. */
  method GetData(stream: Option<seq<byte>>, offer: nat -> nat, failingRead: Option<nat>)
    returns (r: Option<seq<byte>>, writes: seq<seq<byte>>)
    ensures stream.None? ==> r.None?
    ensures r.Some? ==> r == stream
    ensures stream.Some? && failingRead.None? ==> r == stream
    ensures failingRead == Some(0) ==> r.None?
    ensures forall i :: 0 <= i < |writes| ==> 1 <= |writes[i]| <= BufferCapacity
    ensures r.Some? ==> Concat(writes) == r.value
    ensures stream.Some? ==> (r.None? <==> failingRead.Some? && failingRead.value <= |writes|)
    ensures stream.Some? ==>
              (r.None? <==> failingRead.Some? && failingRead.value <= DataReads(|stream.value|, offer, 0))
  {
    writes := [];
    if stream.None? {
      return None, writes;
    }
    var data := stream.value;
    var output: seq<byte> := [];
    var consumed := 0;
    var readIndex := 0;
    while consumed < |data|
      invariant consumed <= |data|
      invariant output == data[..consumed]
      invariant output == Concat(writes)
      invariant forall i :: 0 <= i < |writes| ==> 1 <= |writes[i]| <= BufferCapacity
      invariant failingRead.Some? ==> failingRead.value >= readIndex
      invariant readIndex == |writes|
      invariant readIndex + DataReads(|data| - consumed, offer, readIndex) == DataReads(|data|, offer, 0)
      decreases |data| - consumed
    {
      if failingRead == Some(readIndex) {
        return None, writes;
      }
      var n := ReadCount(offer(readIndex), |data| - consumed);
      var buffer := data[consumed..consumed + n];
      readIndex := readIndex + 1;
      // flip, write the buffer's contents out, clear it for the next read
      assert Concat(writes + [buffer]) == Concat(writes) + buffer by {
        assert (writes + [buffer])[..|writes|] == writes;
      }
      writes := writes + [buffer];
      output := output + buffer;
      consumed := consumed + n;
    }
    // the last read reports end of stream
    if failingRead == Some(readIndex) {
      return None, writes;
    }
    assert output == data;
    return Some(output), writes;
  }
}
