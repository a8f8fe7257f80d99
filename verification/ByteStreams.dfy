/** Bytes, streams of byte buffers, and the 64-bit arithmetic the server computes with. */
module ByteStreams {

  newtype byte = b: int | 0 <= b < 256

  type Bytes = seq<byte>

  datatype Option<+T> = None | Some(value: T)

  /** How a stream of buffers comes to its end: exhausted, with an error item, or by a panic. */
  datatype Ending = Clean | Failed | Panicked

  /** All the buffers a stream yields, and how it ends. An error item is always the last one. */
  datatype Stream = Stream(items: seq<Bytes>, ending: Ending)

  const U64_SIZE: nat := 0x1_0000_0000_0000_0000
  const U32_SIZE: nat := 0x1_0000_0000
  /** File positions are signed 64-bit numbers: seeking at or above this one is an error. */
  const SEEK_LIMIT: nat := 0x8000_0000_0000_0000

  /** Unsigned 64-bit arithmetic of a build without overflow checks. */
  function Wrap64(x: int): nat {
    if 0 <= x < U64_SIZE then x else x % U64_SIZE
  }

  /** The cast of an unsigned number to 32 bits, which keeps its value modulo 2^32. */
  function AsU32(x: nat): nat {
    if x < U32_SIZE then x else AsU32(x - U32_SIZE)
  }

  lemma {:induction false} AsU32IsModulo(x: nat)
    ensures AsU32(x) == x % U32_SIZE
  {
    if x >= U32_SIZE {
      AsU32IsModulo(x - U32_SIZE);
    }
  }

  /** Wrapping keeps a number up to a multiple of 2^64. */
  lemma Wrap64IsModulo(x: int)
    ensures Wrap64(x) == x % U64_SIZE
  {
  }

  function Min(a: int, b: int): int {
    if a <= b then a else b
  }

  function Flatten(items: seq<Bytes>): Bytes {
    if items == [] then [] else items[0] + Flatten(items[1..])
  }

  lemma {:induction false} FlattenAppend(items: seq<Bytes>, last: Bytes)
    ensures Flatten(items + [last]) == Flatten(items) + last
  {
    if items == [] {
      assert [] + [last] == [last];
      assert Flatten([last]) == last + Flatten([]);
    } else {
      FlattenAppend(items[1..], last);
      assert (items + [last])[1..] == items[1..] + [last];
    }
  }

  /** The first n bytes, or all of them when there are fewer. */
  function Take(b: Bytes, n: nat): Bytes {
    if n <= |b| then b[..n] else b
  }

  /** The bytes from position n on; none past the end. */
  function Drop(b: Bytes, n: nat): Bytes {
    if n <= |b| then b[n..] else []
  }

  /** The bytes from position start on, at most len of them. */
  function Window(b: Bytes, start: nat, len: nat): Bytes {
    Take(Drop(b, start), len)
  }

  lemma Associative<T>(x: seq<T>, y: seq<T>, z: seq<T>)
    ensures x + y + z == x + (y + z)
  {
  }

  lemma DropOfSum(x: Bytes, y: Bytes, n: nat)
    requires n <= |x|
    ensures (x + y)[n..] == x[n..] + y
  {
  }

  lemma DropDrop(x: Bytes, m: nat, n: nat)
    requires m + n <= |x|
    ensures x[m..][n..] == x[m + n..]
  {
  }

  lemma DropOfPrefix(x: Bytes, n: nat, k: nat, offset: nat)
    requires k <= n <= |x|
    ensures Drop(x[..n], k + offset) == Drop(x[k..][..n - k], offset)
  {
  }

  lemma TakeSplit(x: Bytes, y: Bytes, n: nat)
    ensures Take(x + y, n) == if n < |x| then Take(x, n) else x + Take(y, n - |x|)
  {
  }

  function Prepend(item: Bytes, s: Stream): Stream {
    Stream([item] + s.items, s.ending)
  }

  /** The stream that yields items and then goes on as s. */
  function After(items: seq<Bytes>, s: Stream): Stream {
    Stream(items + s.items, s.ending)
  }

  lemma AfterEnds(items: seq<Bytes>, ending: Ending)
    ensures After(items, Stream([], ending)) == Stream(items, ending)
  {
  }

  lemma AfterNext(items: seq<Bytes>, item: Bytes, s: Stream)
    ensures After(items, Prepend(item, s)) == After(items + [item], s)
  {
    assert items + ([item] + s.items) == (items + [item]) + s.items;
  }
}
