/** The smoke test's generated upload body, read through buffers of any size. */
module Payloads {
  import opened Octets

  /** The byte at a position of the stream. */
  function StreamByte(seed: byte, position: nat): byte {
    ((position % 251 + seed as int) % 256) as byte
  }

  /** A stretch of the one stream that a seed stands for. */
  function Stretch(seed: byte, from: nat, n: nat): (s: seq<byte>)
    ensures |s| == n
    ensures forall k :: 0 <= k < n ==> s[k] == StreamByte(seed, from + k)
  {
    seq(n, k requires 0 <= k < n => StreamByte(seed, from + k))
  }

  class Payload {
    var remaining: nat
    var offset: nat
    const seed: byte

    constructor (size: nat, seed: byte)
      ensures remaining == size && offset == 0 && this.seed == seed
    {
      remaining, offset, this.seed := size, 0, seed;
    }

    /** Fills the buffer with the next bytes of the stream, as many as fit and remain; at the end it reports that. */
    method Read(buf: array<byte>) returns (n: nat, eof: bool)
      modifies this, buf
      ensures eof <==> old(remaining) == 0
      ensures n == if buf.Length <= old(remaining) then buf.Length else old(remaining)
      ensures offset == old(offset) + n && remaining == old(remaining) - n
      ensures buf[..n] == Stretch(seed, old(offset), n)
      ensures forall k :: 0 <= k < n ==> buf[k] as int == ((old(offset) + k) % 251 + seed as int) % 256
      ensures buf[n..] == old(buf[n..])
    {
      if remaining == 0 {
        return 0, true;
      }
      n := if buf.Length <= remaining then buf.Length else remaining;
      for i := 0 to n
        invariant offset == old(offset) && remaining == old(remaining)
        invariant forall k :: 0 <= k < i ==> buf[k] == StreamByte(seed, offset + k)
        invariant forall k :: n <= k < buf.Length ==> buf[k] == old(buf[k])
      {
        buf[i] := (((offset + i) % 251 + seed as int) % 256) as byte;
      }
      offset := offset + n;
      remaining := remaining - n;
      eof := false;
    }
  }

  function Sum(sizes: seq<nat>): nat {
    if sizes == [] then 0 else Sum(sizes[..|sizes| - 1]) + sizes[|sizes| - 1]
  }

  /** However the reads are cut, what they return is the beginning of the one stream of the seed: as much as the buffers
      hold, up to the size of the payload. The end is reported exactly to reads after the last byte. */
  method ReadAll(size: nat, seed: byte, sizes: seq<nat>) returns (out: seq<byte>, ends: seq<bool>)
    ensures out == Stretch(seed, 0, if Sum(sizes) <= size then Sum(sizes) else size)
    ensures forall k :: 0 <= k < |out| ==> out[k] as int == (k % 251 + seed as int) % 256
    ensures |ends| == |sizes| && forall k :: 0 <= k < |sizes| ==> (ends[k] <==> Sum(sizes[..k]) >= size)
  {
    var payload := new Payload(size, seed);
    out, ends := [], [];
    for k := 0 to |sizes|
      invariant payload.seed == seed && fresh(payload)
      invariant payload.offset == (if Sum(sizes[..k]) <= size then Sum(sizes[..k]) else size)
      invariant payload.remaining == size - payload.offset
      invariant out == Stretch(seed, 0, payload.offset)
      invariant |ends| == k && forall m :: 0 <= m < k ==> (ends[m] <==> Sum(sizes[..m]) >= size)
    {
      var buf := new byte[sizes[k]];
      var n, eof := payload.Read(buf);
      out, ends := out + buf[..n], ends + [eof];
      assert sizes[..k + 1][..k] == sizes[..k];
    }
    assert sizes[..|sizes|] == sizes;
  }
}
