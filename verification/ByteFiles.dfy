/**
 * An open file, or a request body: a byte sequence and a position in it. A read may return fewer
 * bytes than asked for, at the whim of the system; nothing here depends on how many.
 */
module ByteFiles {
  import opened ByteStreams

  /** The file after w has been written at position at. */
  function Overlay(data: Bytes, at: nat, w: Bytes): Bytes
    requires at <= |data|
  {
    data[..at] + w + (if at + |w| <= |data| then data[at + |w|..] else [])
  }

  /** Byte for byte: w where it was written, and what was there everywhere else. */
  lemma OverlayAt(data: Bytes, at: nat, w: Bytes, i: nat)
    requires at <= |data|
    ensures |Overlay(data, at, w)| == if at + |w| <= |data| then |data| else at + |w|
    ensures i < |Overlay(data, at, w)| ==>
      Overlay(data, at, w)[i] == if at <= i < at + |w| then w[i - at] else data[i]
  {
  }

  lemma OverlayTwice(data: Bytes, at: nat, v: Bytes, w: Bytes)
    requires at <= |data|
    ensures at + |v| <= |Overlay(data, at, v)|
    ensures Overlay(Overlay(data, at, v), at + |v|, w) == Overlay(data, at, v + w)
  {
  }

  class File {
    var data: Bytes
    var pos: nat

    /** Opens a file with the given contents at its beginning. */
    constructor (data: Bytes)
      ensures this.data == data && pos == 0
    {
      this.data := data;
      pos := 0;
    }

    /** The bytes not read yet. */
    function Rest(): Bytes
      reads this
    {
      Drop(data, pos)
    }

    /** One read into a buffer of n bytes: some prefix of what is left, empty only at the end or for n == 0. */
    method Read(n: nat) returns (r: Bytes)
      modifies this`pos
      ensures |r| <= n && r + Rest() == old(Rest())
      ensures r == [] <==> n == 0 || old(Rest()) == []
    {
      var left := Drop(data, pos);
      if n == 0 || left == [] {
        r := [];
      } else {
        var k: nat :| 1 <= k <= n && k <= |left|;
        r := left[..k];
        pos := pos + k;
      }
    }

    /** Reads until n bytes have been gathered or the file ends. */
    method ReadUpTo(n: nat) returns (r: Bytes)
      modifies this`pos
      ensures r == Take(old(Rest()), n) && Rest() == Drop(old(Rest()), n)
    {
      r := [];
      while true
        invariant |r| <= n && r + Rest() == old(Rest())
        decreases n - |r|
      {
        var more := Read(n - |r|);
        if more == [] {
          break;
        }
        Associative(r, more, Rest());
        r := r + more;
      }
    }

    /** Reads exactly n bytes, or reports the end of the file. */
    method ReadExact(n: nat) returns (r: Option<Bytes>)
      modifies this`pos
      ensures r == if |old(Rest())| < n then None else Some(old(Rest())[..n])
      ensures r.Some? ==> Rest() == old(Rest())[n..]
    {
      var b := ReadUpTo(n);
      r := if |b| < n then None else Some(b);
    }

    /** Writes b at the position, over what is there. */
    method WriteAll(b: Bytes)
      requires pos <= |data|
      modifies this
      ensures data == Overlay(old(data), old(pos), b) && pos == old(pos) + |b| <= |data|
    {
      data := Overlay(data, pos, b);
      pos := pos + |b|;
    }

    /** Moves to an absolute position; positions are signed 64-bit numbers. */
    method Seek(target: nat) returns (ok: bool)
      modifies this`pos
      ensures ok <==> target < SEEK_LIMIT
      ensures pos == if ok then target else old(pos)
    {
      ok := target < SEEK_LIMIT;
      if ok {
        pos := target;
      }
    }
  }
}
