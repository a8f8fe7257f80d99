/** The reader of plain files: buffers of whatever sizes the system's reads return. */
module Streamers {
  import opened ByteStreams
  import opened ByteFiles

  class Streamer {
    const reader: File
    const bufSize: nat

    constructor (reader: File, bufSize: nat)
      ensures this.reader == reader && this.bufSize == bufSize
    {
      this.reader := reader;
      this.bufSize := bufSize;
    }

    /** Yields everything that is left, whatever the sizes of the reads. */
    method IntoStream() returns (items: seq<Bytes>)
      modifies reader`pos
      ensures Flatten(items) == if bufSize == 0 then [] else old(reader.Rest())
      ensures forall i | 0 <= i < |items| :: 0 < |items[i]| <= bufSize
    {
      items := [];
      ghost var all, n := reader.Rest(), 0;
      while true
        invariant 0 <= n <= |all| && Flatten(items) == all[..n] && reader.Rest() == all[n..]
        invariant forall i | 0 <= i < |items| :: 0 < |items[i]| <= bufSize
        invariant bufSize == 0 ==> n == 0
        decreases |all| - n
      {
        var buf := reader.Read(bufSize);
        if buf == [] {
          break;
        }
        FlattenAppend(items, buf);
        items := items + [buf];
        assert all[n..][..|buf|] == buf;
        n := n + |buf|;
      }
    }

    /** Yields the next maxLength bytes, or what is left of them, whatever the sizes of the reads. */
    method IntoStreamSized(maxLength: nat) returns (items: seq<Bytes>)
      modifies reader`pos
      ensures Flatten(items) == if bufSize == 0 then [] else Take(old(reader.Rest()), maxLength)
      ensures forall i | 0 <= i < |items| :: 0 < |items[i]| <= bufSize
    {
      items := [];
      var remaining := maxLength;
      ghost var all, n := reader.Rest(), 0;
      while true
        invariant 0 <= n <= |all| && Flatten(items) == all[..n] && reader.Rest() == all[n..]
        invariant 0 <= remaining && n + remaining == maxLength
        invariant forall i | 0 <= i < |items| :: 0 < |items[i]| <= bufSize
        invariant bufSize == 0 ==> n == 0
        decreases remaining
      {
        if remaining == 0 {
          break;
        }
        var bs := if remaining >= bufSize then bufSize else remaining;
        var buf := reader.Read(bs);
        if buf == [] {
          break;
        }
        FlattenAppend(items, buf);
        items := items + [buf];
        assert all[n..][..|buf|] == buf;
        n := n + |buf|;
        remaining := remaining - |buf|;
      }
    }
  }
}
