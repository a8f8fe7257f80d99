/**
 * The stored form of an encrypted file: a nonce, then full chunks of PLAIN_CHUNK_SIZE bytes sealed
 * under the counters 0, 1, 2, ..., then one shorter and possibly empty chunk sealed as the last.
 * Specifications of the writer and the two readers, and what ties them together.
 */
module ChunkFormat {
  import opened ByteStreams
  import opened Ciphers

  const NONCE_SIZE: nat := 19
  /** The chunk counter has 32 bits, and its largest value is kept for the last chunk. */
  const COUNTER_MAX: nat := U32_SIZE - 1

  // ---------------------------------------------------------------- writer

  datatype Written = Written(bytes: Bytes, ok: bool)

  function AfterWritten(w: Bytes, more: Written): Written {
    Written(w + more.bytes, more.ok)
  }

  /** What the write loop emits for the rest p of the plaintext, and whether it succeeds. */
  function WriteFrom(a: Aead, nonce: Bytes, counter: nat, p: Bytes): Written
    decreases |p|
  {
    if |p| < PLAIN_CHUNK_SIZE then
      Written(a.seal(nonce, counter, true, p), true)
    else if counter >= COUNTER_MAX then
      Written([], false)
    else
      AfterWritten(a.seal(nonce, counter, false, p[..PLAIN_CHUNK_SIZE]),
                   WriteFrom(a, nonce, counter + 1, p[PLAIN_CHUNK_SIZE..]))
  }

  /** One turn of the write loop, when w has been written and p is left. */
  lemma WriteTurn(a: Aead, nonce: Bytes, counter: nat, w: Bytes, p: Bytes)
    ensures AfterWritten(w, WriteFrom(a, nonce, counter, p)) ==
      if |p| < PLAIN_CHUNK_SIZE then Written(w + a.seal(nonce, counter, true, p), true)
      else if counter >= COUNTER_MAX then Written(w, false)
      else AfterWritten(w + a.seal(nonce, counter, false, p[..PLAIN_CHUNK_SIZE]),
                        WriteFrom(a, nonce, counter + 1, p[PLAIN_CHUNK_SIZE..]))
  {
    if |p| >= PLAIN_CHUNK_SIZE && counter < COUNTER_MAX {
      Associative(w, a.seal(nonce, counter, false, p[..PLAIN_CHUNK_SIZE]),
                  WriteFrom(a, nonce, counter + 1, p[PLAIN_CHUNK_SIZE..]).bytes);
    }
  }

  /** The sealed form of p, whose first chunk has the given counter. */
  function SealFrom(a: Aead, nonce: Bytes, counter: nat, p: Bytes): Bytes
    decreases |p|
  {
    if |p| < PLAIN_CHUNK_SIZE then
      a.seal(nonce, counter, true, p)
    else
      a.seal(nonce, counter, false, p[..PLAIN_CHUNK_SIZE])
      + SealFrom(a, nonce, counter + 1, p[PLAIN_CHUNK_SIZE..])
  }

  /** The stored form of the file with contents p. */
  function Encrypt(a: Aead, nonce: Bytes, p: Bytes): Bytes {
    nonce + SealFrom(a, nonce, 0, p)
  }

  /** The 32-bit chunk counter, now at counter, suffices for the rest p of a plaintext. */
  predicate HasRoom(counter: nat, p: Bytes) {
    counter * PLAIN_CHUNK_SIZE + |p| < U32_SIZE * PLAIN_CHUNK_SIZE
  }

  /** The plaintexts the chunk counter has room for: those below 2^32 chunks. */
  predicate Accepted(p: Bytes) {
    HasRoom(0, p)
  }

  /** The writer succeeds exactly when the counter suffices, whatever the cipher. */
  lemma {:induction false} WriteFromSucceeds(a: Aead, nonce: Bytes, counter: nat, p: Bytes)
    requires counter <= COUNTER_MAX
    ensures WriteFrom(a, nonce, counter, p).ok <==> HasRoom(counter, p)
    decreases |p|
  {
    if |p| >= PLAIN_CHUNK_SIZE && counter < COUNTER_MAX {
      WriteFromSucceeds(a, nonce, counter + 1, p[PLAIN_CHUNK_SIZE..]);
    }
  }

  /** The writer succeeds exactly when the counter suffices; a failed write stops at a chunk boundary. */
  lemma {:induction false} WriteFromSeals(a: Aead, nonce: Bytes, counter: nat, p: Bytes)
    requires Lawful(a) && counter <= COUNTER_MAX
    ensures WriteFrom(a, nonce, counter, p).ok <==> HasRoom(counter, p)
    ensures WriteFrom(a, nonce, counter, p).ok ==>
      WriteFrom(a, nonce, counter, p).bytes == SealFrom(a, nonce, counter, p)
    ensures !WriteFrom(a, nonce, counter, p).ok ==>
      |WriteFrom(a, nonce, counter, p).bytes| == (COUNTER_MAX - counter) * ENCRYPTED_CHUNK_SIZE
    decreases |p|
  {
    if |p| >= PLAIN_CHUNK_SIZE && counter < COUNTER_MAX {
      WriteFromSeals(a, nonce, counter + 1, p[PLAIN_CHUNK_SIZE..]);
    }
  }

  // ---------------------------------------------------------------- sizes and positions

  function EncryptedOffset(decOffset: nat): nat {
    var chunks := decOffset / PLAIN_CHUNK_SIZE + 1;
    Wrap64(decOffset + ENCRYPTION_OVERHEAD * chunks + NONCE_SIZE)
  }

  function DecryptedSize(encSize: nat): nat {
    var body := Wrap64(encSize - NONCE_SIZE);
    var d, r := body / ENCRYPTED_CHUNK_SIZE, body % ENCRYPTED_CHUNK_SIZE;
    var chunks := if r > 0 then d + 1 else d;
    Wrap64(encSize - ENCRYPTION_OVERHEAD * chunks - NONCE_SIZE)
  }

  datatype ChunkedPosition = ChunkedPosition(beginning: nat, offset: nat, counter: nat)

  function PositionOf(plainOffset: nat): ChunkedPosition {
    var counter := plainOffset / PLAIN_CHUNK_SIZE;
    var beginning := Wrap64(counter * ENCRYPTED_CHUNK_SIZE + NONCE_SIZE);
    ChunkedPosition(
      beginning,
      Wrap64(EncryptedOffset(plainOffset) - (beginning + ENCRYPTION_OVERHEAD)),
      counter)
  }

  /** Where the chunk with the given counter begins in a stored file, in unbounded arithmetic. */
  function ChunkStart(counter: nat): nat {
    NONCE_SIZE + counter * ENCRYPTED_CHUNK_SIZE
  }

  /** The size of the stored form of n bytes, in unbounded arithmetic. */
  function StoredSize(n: nat): nat {
    NONCE_SIZE + n + ENCRYPTION_OVERHEAD * (n / PLAIN_CHUNK_SIZE + 1)
  }

  lemma {:induction false} SealFromLength(a: Aead, nonce: Bytes, counter: nat, p: Bytes)
    requires Lawful(a)
    ensures |SealFrom(a, nonce, counter, p)| == StoredSize(|p|) - NONCE_SIZE
    decreases |p|
  {
    if |p| >= PLAIN_CHUNK_SIZE {
      SealFromLength(a, nonce, counter + 1, p[PLAIN_CHUNK_SIZE..]);
    }
  }

  /** The sizes the writer can produce: a nonce, full chunks, and a shorter chunk with its tag. */
  predicate WritableSize(s: nat) {
    s >= NONCE_SIZE && (s - NONCE_SIZE) % ENCRYPTED_CHUNK_SIZE >= ENCRYPTION_OVERHEAD
  }

  lemma ChunksAndRest(d: nat, r: nat)
    requires r < ENCRYPTED_CHUNK_SIZE
    ensures (d * ENCRYPTED_CHUNK_SIZE + r) / ENCRYPTED_CHUNK_SIZE == d
    ensures (d * ENCRYPTED_CHUNK_SIZE + r) % ENCRYPTED_CHUNK_SIZE == r
  {
  }

  /** Below 2^64 a wrapped difference is the wrapped one. */
  lemma WrapAgain(x: int, y: nat)
    requires y <= Wrap64(x) && 0 <= x + U64_SIZE < 2 * U64_SIZE
    ensures Wrap64(x - y) == Wrap64(x) - y
  {
  }

  /** decrypted_size takes away one tag for each chunk it counts in what is left of the size without the nonce. */
  lemma DecryptedSizeByChunks(s: nat, d: nat, r: nat)
    requires s < U64_SIZE && Wrap64(s - NONCE_SIZE) == d * ENCRYPTED_CHUNK_SIZE + r && r < ENCRYPTED_CHUNK_SIZE
    ensures DecryptedSize(s) == Wrap64(d * PLAIN_CHUNK_SIZE + (if r > 0 then r - ENCRYPTION_OVERHEAD else 0))
  {
    var chunks := if r > 0 then d + 1 else d;
    ChunksAndRest(d, r);
    assert d * ENCRYPTED_CHUNK_SIZE == d * PLAIN_CHUNK_SIZE + ENCRYPTION_OVERHEAD * d;
    assert DecryptedSize(s) == Wrap64((s - NONCE_SIZE) - ENCRYPTION_OVERHEAD * chunks);
    if s < NONCE_SIZE {
      assert Wrap64(s - NONCE_SIZE) == U64_SIZE + s - NONCE_SIZE;
      WrapAgain(s - NONCE_SIZE, ENCRYPTION_OVERHEAD * chunks);
    }
  }

  lemma WritableByChunks(d: nat, r: nat)
    requires ENCRYPTION_OVERHEAD <= r < ENCRYPTED_CHUNK_SIZE
    ensures WritableSize(NONCE_SIZE + d * ENCRYPTED_CHUNK_SIZE + r)
  {
    ChunksAndRest(d, r);
  }

  lemma EncryptedOffsetByChunks(n: nat, d: nat, r: nat)
    requires n == d * PLAIN_CHUNK_SIZE + r && r < PLAIN_CHUNK_SIZE
    ensures EncryptedOffset(n) == Wrap64(d * ENCRYPTED_CHUNK_SIZE + r + ENCRYPTION_OVERHEAD + NONCE_SIZE)
  {
    assert n / PLAIN_CHUNK_SIZE == d;
  }

  /** decrypted_size undoes encrypted_offset while the stored size fits 64 bits. */
  lemma SizesInvert(n: nat)
    requires StoredSize(n) < U64_SIZE
    ensures EncryptedOffset(n) == StoredSize(n) && WritableSize(StoredSize(n))
    ensures DecryptedSize(EncryptedOffset(n)) == n
  {
    var q, r := n / PLAIN_CHUNK_SIZE, n % PLAIN_CHUNK_SIZE;
    hide EncryptedOffset, DecryptedSize, WritableSize;
    WritableByChunks(q, r + ENCRYPTION_OVERHEAD);
    assert StoredSize(n) == NONCE_SIZE + q * ENCRYPTED_CHUNK_SIZE + (r + ENCRYPTION_OVERHEAD);
    EncryptedOffsetByChunks(n, q, r);
    DecryptedSizeByChunks(StoredSize(n), q, r + ENCRYPTION_OVERHEAD);
  }

  /** Every accepted file has the size encrypted_offset says, far below every 64-bit limit. */
  lemma EncryptLength(a: Aead, nonce: Bytes, p: Bytes)
    requires Lawful(a) && |nonce| == NONCE_SIZE && Accepted(p)
    ensures |Encrypt(a, nonce, p)| == EncryptedOffset(|p|) == StoredSize(|p|) < SEEK_LIMIT
    ensures DecryptedSize(|Encrypt(a, nonce, p)|) == |p|
  {
    SealFromLength(a, nonce, 0, p);
    SizesInvert(|p|);
  }

  lemma TruncatedTagAlone(n: nat, r: nat)
    requires 0 < r < ENCRYPTION_OVERHEAD && n == U64_SIZE - ENCRYPTION_OVERHEAD + r
    ensures EncryptedOffset(n) != NONCE_SIZE + r
  {
    EncryptedOffsetByChunks(n, U64_SIZE / PLAIN_CHUNK_SIZE, n - U64_SIZE / PLAIN_CHUNK_SIZE * PLAIN_CHUNK_SIZE);
  }

  /** The size n computed for d chunks and r more bytes leads back to them unless they end in a truncated tag. */
  lemma OffsetOfSize(n: nat, d: nat, r: nat)
    requires NONCE_SIZE + d * ENCRYPTED_CHUNK_SIZE + r < U64_SIZE && r < ENCRYPTED_CHUNK_SIZE
    requires n == Wrap64(d * PLAIN_CHUNK_SIZE + (if r > 0 then r - ENCRYPTION_OVERHEAD else 0))
    ensures EncryptedOffset(n) == NONCE_SIZE + d * ENCRYPTED_CHUNK_SIZE + r <==> r >= ENCRYPTION_OVERHEAD
  {
    if r == 0 {
      // one tag too many
      EncryptedOffsetByChunks(n, d, 0);
    } else if r >= ENCRYPTION_OVERHEAD {
      EncryptedOffsetByChunks(n, d, r - ENCRYPTION_OVERHEAD);
    } else if d > 0 {
      // a truncated tag: the formula takes away more than the chunk holds
      EncryptedOffsetByChunks(n, d - 1, PLAIN_CHUNK_SIZE + r - ENCRYPTION_OVERHEAD);
    } else {
      // the size underflows
      TruncatedTagAlone(n, r);
    }
  }

  /** encrypted_offset undoes decrypted_size on exactly the 64-bit sizes the writer can produce. */
  lemma DecryptedSizeExact(s: nat)
    requires NONCE_SIZE <= s < U64_SIZE
    ensures EncryptedOffset(DecryptedSize(s)) == s <==> WritableSize(s)
  {
    var body := s - NONCE_SIZE;
    var d, r := body / ENCRYPTED_CHUNK_SIZE, body % ENCRYPTED_CHUNK_SIZE;
    DecryptedSizeByChunks(s, d, r);
    OffsetOfSize(DecryptedSize(s), d, r);
  }

  lemma EncryptedOffsetIncreasing(m: nat, n: nat)
    requires m < n && StoredSize(n) < U64_SIZE
    ensures EncryptedOffset(m) < EncryptedOffset(n)
  {
    assert m / PLAIN_CHUNK_SIZE <= n / PLAIN_CHUNK_SIZE;
  }

  /** Below the largest seekable position nothing wraps. */
  lemma PositionInRange(start: nat)
    requires ChunkStart(start / PLAIN_CHUNK_SIZE) < SEEK_LIMIT
    ensures PositionOf(start) ==
      ChunkedPosition(ChunkStart(start / PLAIN_CHUNK_SIZE), start % PLAIN_CHUNK_SIZE, start / PLAIN_CHUNK_SIZE)
  {
  }

  lemma SealFromDrop(a: Aead, nonce: Bytes, counter: nat, p: Bytes, e: nat)
    requires Lawful(a) && |p| >= PLAIN_CHUNK_SIZE && e <= |SealFrom(a, nonce, counter + 1, p[PLAIN_CHUNK_SIZE..])|
    ensures ENCRYPTED_CHUNK_SIZE + e <= |SealFrom(a, nonce, counter, p)|
    ensures SealFrom(a, nonce, counter, p)[ENCRYPTED_CHUNK_SIZE + e..]
         == SealFrom(a, nonce, counter + 1, p[PLAIN_CHUNK_SIZE..])[e..]
  {
  }

  /** What is left of a sealed text after e bytes is, one chunk earlier, what is left after a chunk and e bytes. */
  lemma SealFromEarlier(a: Aead, nonce: Bytes, counter: nat, p: Bytes, later: nat, n: nat, e: nat)
    requires Lawful(a) && PLAIN_CHUNK_SIZE + n <= |p| && e <= |SealFrom(a, nonce, counter + 1, p[PLAIN_CHUNK_SIZE..])|
    requires SealFrom(a, nonce, counter + 1, p[PLAIN_CHUNK_SIZE..])[e..]
          == SealFrom(a, nonce, later, p[PLAIN_CHUNK_SIZE..][n..])
    ensures ENCRYPTED_CHUNK_SIZE + e <= |SealFrom(a, nonce, counter, p)|
    ensures SealFrom(a, nonce, counter, p)[ENCRYPTED_CHUNK_SIZE + e..]
         == SealFrom(a, nonce, later, p[PLAIN_CHUNK_SIZE + n..])
  {
    hide SealFrom;
    SealFromDrop(a, nonce, counter, p, e);
    DropDrop(p, PLAIN_CHUNK_SIZE, n);
  }

  lemma {:induction false} SealFromSuffix(a: Aead, nonce: Bytes, counter: nat, p: Bytes, k: nat)
    requires Lawful(a) && k * PLAIN_CHUNK_SIZE <= |p|
    ensures k * ENCRYPTED_CHUNK_SIZE <= |SealFrom(a, nonce, counter, p)|
    ensures SealFrom(a, nonce, counter, p)[k * ENCRYPTED_CHUNK_SIZE..]
         == SealFrom(a, nonce, counter + k, p[k * PLAIN_CHUNK_SIZE..])
    decreases k
  {
    hide SealFrom;
    if k == 0 {
      assert p[0..] == p;
    } else {
      SealFromSuffix(a, nonce, counter + 1, p[PLAIN_CHUNK_SIZE..], k - 1);
      SealFromEarlier(a, nonce, counter, p, counter + k, (k - 1) * PLAIN_CHUNK_SIZE, (k - 1) * ENCRYPTED_CHUNK_SIZE);
    }
  }

  lemma EncryptSuffix(a: Aead, nonce: Bytes, p: Bytes, k: nat)
    requires Lawful(a) && |nonce| == NONCE_SIZE && k * PLAIN_CHUNK_SIZE <= |p|
    ensures ChunkStart(k) <= |Encrypt(a, nonce, p)|
    ensures Encrypt(a, nonce, p)[ChunkStart(k)..] == SealFrom(a, nonce, k, p[k * PLAIN_CHUNK_SIZE..])
  {
    SealFromSuffix(a, nonce, 0, p, k);
    var e := k * ENCRYPTED_CHUNK_SIZE;
    assert Encrypt(a, nonce, p)[NONCE_SIZE + e..] == SealFrom(a, nonce, 0, p)[e..];
  }

  /**
   * A position in an accepted file is computed without overflow and its counter fits 32 bits.
   * From the position on, the stored file is what the writer emitted for the plaintext from that
   * chunk on, under the counter the reader will use.
   */
  lemma PositionMatchesWriter(a: Aead, nonce: Bytes, p: Bytes, start: nat)
    requires Lawful(a) && |nonce| == NONCE_SIZE && Accepted(p) && start <= |p|
    ensures
      var at := PositionOf(start);
      && at == ChunkedPosition(ChunkStart(start / PLAIN_CHUNK_SIZE), start % PLAIN_CHUNK_SIZE, start / PLAIN_CHUNK_SIZE)
      && at.counter < U32_SIZE
      && at.counter * PLAIN_CHUNK_SIZE + at.offset == start
      && at.beginning <= |Encrypt(a, nonce, p)|
      && Encrypt(a, nonce, p)[at.beginning..] == SealFrom(a, nonce, at.counter, p[at.counter * PLAIN_CHUNK_SIZE..])
  {
    PositionInRange(start);
    EncryptSuffix(a, nonce, p, start / PLAIN_CHUNK_SIZE);
  }

  // ---------------------------------------------------------------- sequential reader

  /** What one turn of a reader does: yield a few last buffers and end, or yield one and go on. */
  datatype Step = Stop(items: seq<Bytes>, ending: Ending) | Go(item: Bytes)

  /** One turn of the sequential reader on the sealed rest c of a file. */
  function OpenStep(a: Aead, nonce: Bytes, counter: nat, c: Bytes): (s: Step)
    ensures if s.Go? then |c| >= ENCRYPTED_CHUNK_SIZE else |s.items| <= 1
  {
    if |c| >= ENCRYPTED_CHUNK_SIZE then
      if counter >= COUNTER_MAX then Stop([], Failed)
      else
        match a.open(nonce, counter, false, c[..ENCRYPTED_CHUNK_SIZE])
        case None => Stop([], Failed)
        case Some(p) => Go(p)
    else if c == [] then
      Stop([], Clean)
    else
      match a.open(nonce, counter, true, c)
      case None => Stop([], Failed)
      case Some(p) => Stop([p], Clean)
  }

  /** What the sequential reader yields for the sealed rest c of a file. */
  function OpenFrom(a: Aead, nonce: Bytes, counter: nat, c: Bytes): Stream
    decreases |c|
  {
    match OpenStep(a, nonce, counter, c)
    case Stop(items, ending) => Stream(items, ending)
    case Go(p) => Prepend(p, OpenFrom(a, nonce, counter + 1, c[ENCRYPTED_CHUNK_SIZE..]))
  }

  /** One turn of the sequential reader, when items have been yielded. */
  lemma OpenTurn(a: Aead, nonce: Bytes, counter: nat, items: seq<Bytes>, c: Bytes)
    ensures After(items, OpenFrom(a, nonce, counter, c)) ==
      match OpenStep(a, nonce, counter, c)
      case Stop(last, ending) => Stream(items + last, ending)
      case Go(item) => After(items + [item], OpenFrom(a, nonce, counter + 1, c[ENCRYPTED_CHUNK_SIZE..]))
  {
    hide OpenStep;
    var step := OpenStep(a, nonce, counter, c);
    if step.Go? {
      AfterNext(items, step.item, OpenFrom(a, nonce, counter + 1, c[ENCRYPTED_CHUNK_SIZE..]));
    }
  }

  /** What reading a stored file from its beginning yields. */
  function Decrypt(a: Aead, stored: Bytes): Stream {
    if |stored| < NONCE_SIZE then Stream([], Failed)
    else OpenFrom(a, stored[..NONCE_SIZE], 0, stored[NONCE_SIZE..])
  }

  /** The full chunks of p, then the shorter last one. */
  function PlainChunks(p: Bytes): (items: seq<Bytes>)
    ensures Flatten(items) == p && (|items| - 1) * PLAIN_CHUNK_SIZE <= |p| < |items| * PLAIN_CHUNK_SIZE
    ensures forall i | 0 <= i < |items| - 1 :: |items[i]| == PLAIN_CHUNK_SIZE
    decreases |p|
  {
    if |p| < PLAIN_CHUNK_SIZE then
      assert Flatten([p]) == p + Flatten([]);
      [p]
    else
      assert p == p[..PLAIN_CHUNK_SIZE] + p[PLAIN_CHUNK_SIZE..];
      [p[..PLAIN_CHUNK_SIZE]] + PlainChunks(p[PLAIN_CHUNK_SIZE..])
  }

  /** A full chunk opens under its own counter, and the reader goes on with the next one. */
  lemma OpenFirst(a: Aead, nonce: Bytes, counter: nat, p: Bytes, rest: Bytes)
    requires Lawful(a) && |p| == PLAIN_CHUNK_SIZE && counter < COUNTER_MAX
    ensures OpenFrom(a, nonce, counter, a.seal(nonce, counter, false, p) + rest)
         == Prepend(p, OpenFrom(a, nonce, counter + 1, rest))
  {
    var c := a.seal(nonce, counter, false, p);
    assert (c + rest)[..ENCRYPTED_CHUNK_SIZE] == c && (c + rest)[ENCRYPTED_CHUNK_SIZE..] == rest;
  }

  lemma OpenLast(a: Aead, nonce: Bytes, counter: nat, p: Bytes)
    requires Lawful(a) && |p| < PLAIN_CHUNK_SIZE
    ensures OpenFrom(a, nonce, counter, a.seal(nonce, counter, true, p)) == Stream([p], Clean)
  {
  }

  lemma {:induction false} OpenUndoesSeal(a: Aead, nonce: Bytes, counter: nat, p: Bytes)
    requires Lawful(a) && HasRoom(counter, p)
    ensures OpenFrom(a, nonce, counter, SealFrom(a, nonce, counter, p)) == Stream(PlainChunks(p), Clean)
    decreases |p|
  {
    hide OpenFrom;
    if |p| < PLAIN_CHUNK_SIZE {
      OpenLast(a, nonce, counter, p);
    } else {
      OpenFirst(a, nonce, counter, p[..PLAIN_CHUNK_SIZE], SealFrom(a, nonce, counter + 1, p[PLAIN_CHUNK_SIZE..]));
      OpenUndoesSeal(a, nonce, counter + 1, p[PLAIN_CHUNK_SIZE..]);
    }
  }

  /** Sequential round trip, for every length, multiples of the chunk size included. */
  lemma DecryptUndoesEncrypt(a: Aead, nonce: Bytes, p: Bytes)
    requires Lawful(a) && |nonce| == NONCE_SIZE && Accepted(p)
    ensures Decrypt(a, Encrypt(a, nonce, p)) == Stream(PlainChunks(p), Clean)
    ensures Flatten(Decrypt(a, Encrypt(a, nonce, p)).items) == p
  {
    var stored := Encrypt(a, nonce, p);
    assert stored[..NONCE_SIZE] == nonce && stored[NONCE_SIZE..] == SealFrom(a, nonce, 0, p);
    OpenUndoesSeal(a, nonce, 0, p);
  }

  /** A chunk cut short, its tag included, does not open as a last chunk. */
  lemma OpenStub(a: Aead, nonce: Bytes, counter: nat, last: bool, p: Bytes, cut: nat)
    requires PrefixSafe(a) && |p| <= PLAIN_CHUNK_SIZE
    requires cut < |a.seal(nonce, counter, last, p)| && cut < ENCRYPTED_CHUNK_SIZE
    ensures OpenFrom(a, nonce, counter, a.seal(nonce, counter, last, p)[..cut])
      == Stream([], if cut == 0 then Clean else Failed)
  {
  }

  lemma ChunksPrefix(p: Bytes, k: nat)
    requires |p| >= PLAIN_CHUNK_SIZE && k <= |PlainChunks(p[PLAIN_CHUNK_SIZE..])|
    ensures k < |PlainChunks(p)|
    ensures PlainChunks(p)[..k + 1] == [p[..PLAIN_CHUNK_SIZE]] + PlainChunks(p[PLAIN_CHUNK_SIZE..])[..k]
  {
  }

  lemma OpenCutInFirst(a: Aead, nonce: Bytes, counter: nat, p: Bytes, cut: nat)
    requires Lawful(a) && PrefixSafe(a)
    requires cut < ENCRYPTED_CHUNK_SIZE && cut < |SealFrom(a, nonce, counter, p)|
    ensures OpenFrom(a, nonce, counter, SealFrom(a, nonce, counter, p)[..cut])
      == Stream([], if cut == 0 then Clean else Failed)
  {
    if |p| < PLAIN_CHUNK_SIZE {
      OpenStub(a, nonce, counter, true, p, cut);
    } else {
      OpenStub(a, nonce, counter, false, p[..PLAIN_CHUNK_SIZE], cut);
      assert SealFrom(a, nonce, counter, p)[..cut] == a.seal(nonce, counter, false, p[..PLAIN_CHUNK_SIZE])[..cut];
    }
  }

  /** A text cut behind its first chunk. */
  lemma SealFromCut(a: Aead, nonce: Bytes, counter: nat, p: Bytes, cut: nat)
    requires Lawful(a) && |p| >= PLAIN_CHUNK_SIZE
    requires ENCRYPTED_CHUNK_SIZE <= cut < |SealFrom(a, nonce, counter, p)|
    ensures
      var rest := SealFrom(a, nonce, counter + 1, p[PLAIN_CHUNK_SIZE..]);
      && cut - ENCRYPTED_CHUNK_SIZE < |rest|
      && SealFrom(a, nonce, counter, p)[..cut]
         == a.seal(nonce, counter, false, p[..PLAIN_CHUNK_SIZE]) + rest[..cut - ENCRYPTED_CHUNK_SIZE]
  {
  }

  lemma OpenCutLater(a: Aead, nonce: Bytes, counter: nat, p: Bytes, cut: nat)
    requires Lawful(a) && counter < COUNTER_MAX && |p| >= PLAIN_CHUNK_SIZE
    requires ENCRYPTED_CHUNK_SIZE <= cut < |SealFrom(a, nonce, counter, p)|
    ensures
      var rest := SealFrom(a, nonce, counter + 1, p[PLAIN_CHUNK_SIZE..]);
      && cut - ENCRYPTED_CHUNK_SIZE < |rest|
      && OpenFrom(a, nonce, counter, SealFrom(a, nonce, counter, p)[..cut])
         == Prepend(p[..PLAIN_CHUNK_SIZE], OpenFrom(a, nonce, counter + 1, rest[..cut - ENCRYPTED_CHUNK_SIZE]))
  {
    hide OpenFrom, SealFrom;
    SealFromCut(a, nonce, counter, p, cut);
    OpenFirst(a, nonce, counter, p[..PLAIN_CHUNK_SIZE],
              SealFrom(a, nonce, counter + 1, p[PLAIN_CHUNK_SIZE..])[..cut - ENCRYPTED_CHUNK_SIZE]);
  }

  /**
   * The sealed rest of a file, cut after whole chunks and r more bytes, yields those chunks, then an
   * error if the cut is inside a chunk.
   */
  lemma {:induction false} OpenCut(a: Aead, nonce: Bytes, counter: nat, p: Bytes, whole: nat, r: nat)
    requires Lawful(a) && PrefixSafe(a) && HasRoom(counter, p)
    requires r < ENCRYPTED_CHUNK_SIZE && whole * ENCRYPTED_CHUNK_SIZE + r < |SealFrom(a, nonce, counter, p)|
    ensures whole < |PlainChunks(p)|
    ensures OpenFrom(a, nonce, counter, SealFrom(a, nonce, counter, p)[..whole * ENCRYPTED_CHUNK_SIZE + r]) ==
      Stream(PlainChunks(p)[..whole], if r == 0 then Clean else Failed)
    decreases |p|
  {
    hide OpenFrom, SealFrom, PlainChunks;
    var cut := whole * ENCRYPTED_CHUNK_SIZE + r;
    SealFromLength(a, nonce, counter, p);
    if whole == 0 {
      OpenCutInFirst(a, nonce, counter, p, cut);
    } else {
      assert |p| >= PLAIN_CHUNK_SIZE;
      assert cut - ENCRYPTED_CHUNK_SIZE == (whole - 1) * ENCRYPTED_CHUNK_SIZE + r;
      OpenCutLater(a, nonce, counter, p, cut);
      OpenCut(a, nonce, counter + 1, p[PLAIN_CHUNK_SIZE..], whole - 1, r);
      ChunksPrefix(p, whole - 1);
    }
  }

  lemma {:induction false} WholeChunks(p: Bytes, k: nat)
    requires k < |PlainChunks(p)|
    ensures k * PLAIN_CHUNK_SIZE <= |p|
    ensures Flatten(PlainChunks(p)[..k]) == p[..k * PLAIN_CHUNK_SIZE]
    decreases k
  {
    if k > 0 {
      var tail := p[PLAIN_CHUNK_SIZE..];
      WholeChunks(tail, k - 1);
      ChunksPrefix(p, k - 1);
      assert p[..k * PLAIN_CHUNK_SIZE] == p[..PLAIN_CHUNK_SIZE] + tail[..(k - 1) * PLAIN_CHUNK_SIZE];
    }
  }

  /**
   * A stored file cut anywhere after its nonce, say after some whole chunks and r more bytes, yields
   * exactly the contents of those chunks. The reader notices the cut exactly when it is not on a
   * chunk boundary.
   */
  lemma TruncationYieldsPrefix(a: Aead, nonce: Bytes, p: Bytes, whole: nat, r: nat)
    requires Lawful(a) && PrefixSafe(a) && |nonce| == NONCE_SIZE && Accepted(p)
    requires r < ENCRYPTED_CHUNK_SIZE && ChunkStart(whole) + r < |Encrypt(a, nonce, p)|
    ensures
      var read := Decrypt(a, Encrypt(a, nonce, p)[..ChunkStart(whole) + r]);
      && whole * PLAIN_CHUNK_SIZE <= |p|
      && Flatten(read.items) == p[..whole * PLAIN_CHUNK_SIZE]
      && read.ending == (if r == 0 then Clean else Failed)
  {
    hide OpenFrom, SealFrom, PlainChunks;
    var cut := ChunkStart(whole) + r;
    var stored := Encrypt(a, nonce, p)[..cut];
    assert stored[..NONCE_SIZE] == nonce;
    assert stored[NONCE_SIZE..] == SealFrom(a, nonce, 0, p)[..cut - NONCE_SIZE];
    OpenCut(a, nonce, 0, p, whole, r);
    WholeChunks(p, whole);
  }

  // ---------------------------------------------------------------- random-access reader

  /** What a chunk contributes when its first offset bytes are to be dropped, or nothing if it is too short. */
  function Drained(p: Bytes, offset: nat, fromZero: bool): Option<Bytes> {
    if fromZero then Some(p) else if offset > |p| then None else Some(p[offset..])
  }

  /**
   * One turn on the sealed rest c of a file, when the reader has still to drop offset bytes of the
   * next chunk (unless the request starts at 0) and to yield remaining bytes.
   */
  function SizedStep(a: Aead, nonce: Bytes, counter: nat, offset: nat, fromZero: bool, remaining: nat,
          c: Bytes): (s: Step)
    ensures s.Go? ==> |c| >= ENCRYPTED_CHUNK_SIZE && |s.item| <= remaining
  {
    if |c| >= ENCRYPTED_CHUNK_SIZE then
      match a.open(nonce, AsU32(counter), false, c[..ENCRYPTED_CHUNK_SIZE])
      case None => Stop([], Failed)
      case Some(p) =>
        match Drained(p, offset, fromZero)
        case None => Stop([], Panicked)
        case Some(kept) => if remaining < |kept| then Stop([Take(kept, remaining)], Clean) else Go(kept)
    else if c == [] then
      Stop([], Clean)
    else
      match a.open(nonce, AsU32(counter), true, c)
      case None => Stop([], Failed)
      case Some(p) =>
        match Drained(p, offset, fromZero)
        case None => Stop([], Panicked)
        case Some(kept) => Stop([Take(kept, remaining)], Clean)
  }

  /** What the random-access reader yields for the sealed rest c of a file. */
  function OpenSized(a: Aead, nonce: Bytes, counter: nat, offset: nat, fromZero: bool, remaining: nat, c: Bytes): Stream
    decreases |c|
  {
    if remaining == 0 then
      Stream([], Clean)
    else
      match SizedStep(a, nonce, counter, offset, fromZero, remaining, c)
      case Stop(items, ending) => Stream(items, ending)
      case Go(kept) =>
        Prepend(kept, OpenSized(a, nonce, counter + 1, if fromZero then offset else 0, fromZero,
                                remaining - |kept|, c[ENCRYPTED_CHUNK_SIZE..]))
  }

  /**
   * What reading maxLength plaintext bytes from position start yields, on a file handle whose
   * unread part is rest: the nonce comes from there, and the seek is absolute in stored.
   */
  function DecryptRange(a: Aead, rest: Bytes, stored: Bytes, start: nat, maxLength: nat): Stream {
    if |rest| < NONCE_SIZE then Stream([], Failed) else
    var at := PositionOf(start);
    if at.beginning >= SEEK_LIMIT then Stream([], Failed)
    else
      OpenSized(a, rest[..NONCE_SIZE], at.counter, at.offset, start == 0, maxLength,
                Drop(stored, at.beginning))
  }

  /** A full chunk at the front opens under its own counter, and what is kept of it comes first. */
  lemma StepFull(a: Aead, nonce: Bytes, counter: nat, offset: nat, fromZero: bool, remaining: nat, p: Bytes,
          rest: Bytes)
    requires Lawful(a) && |p| == PLAIN_CHUNK_SIZE && counter < U32_SIZE
    requires offset < PLAIN_CHUNK_SIZE && (fromZero ==> offset == 0)
    ensures SizedStep(a, nonce, counter, offset, fromZero, remaining, a.seal(nonce, counter, false, p) + rest)
         == if remaining < |p[offset..]| then Stop([Take(p[offset..], remaining)], Clean) else Go(p[offset..])
  {
    var c := a.seal(nonce, counter, false, p);
    assert (c + rest)[..ENCRYPTED_CHUNK_SIZE] == c;
    assert p[0..] == p;
  }

  /** The last chunk ends the stream, with a panic when the offset lies past its end. */
  lemma StepLast(a: Aead, nonce: Bytes, counter: nat, offset: nat, fromZero: bool, remaining: nat, p: Bytes)
    requires Lawful(a) && |p| < PLAIN_CHUNK_SIZE && counter < U32_SIZE
    requires fromZero ==> offset == 0
    ensures SizedStep(a, nonce, counter, offset, fromZero, remaining, a.seal(nonce, counter, true, p))
         == if offset > |p| then Stop([], Panicked) else Stop([Window(p, offset, remaining)], Clean)
  {
    assert p[0..] == p;
  }

  lemma FlattenOne(item: Bytes)
    ensures Flatten([item]) == item
  {
    assert Flatten([item]) == item + Flatten([]);
  }

  predicate YieldsUntil(s: Stream, b: Bytes, ending: Ending) {
    s.ending == ending && Flatten(s.items) == b
  }

  predicate Yields(s: Stream, b: Bytes) {
    YieldsUntil(s, b, Clean)
  }

  lemma PrependYields(item: Bytes, s: Stream, b: Bytes, ending: Ending)
    requires YieldsUntil(s, b, ending)
    ensures YieldsUntil(Prepend(item, s), item + b, ending)
  {
  }

  /** A full chunk, then whatever follows it. */
  lemma OpenSizedFull(a: Aead, nonce: Bytes, counter: nat, offset: nat, fromZero: bool, remaining: nat, p: Bytes,
          rest: Bytes)
    requires Lawful(a) && |p| == PLAIN_CHUNK_SIZE && counter < U32_SIZE
    requires offset < PLAIN_CHUNK_SIZE && (fromZero ==> offset == 0) && remaining > 0
    ensures
      var kept := p[offset..];
      OpenSized(a, nonce, counter, offset, fromZero, remaining, a.seal(nonce, counter, false, p) + rest) ==
        if remaining < |kept| then Stream([Take(kept, remaining)], Clean)
        else Prepend(kept, OpenSized(a, nonce, counter + 1, 0, fromZero, remaining - |kept|, rest))
  {
    var first := a.seal(nonce, counter, false, p);
    StepFull(a, nonce, counter, offset, fromZero, remaining, p, rest);
    assert (first + rest)[ENCRYPTED_CHUNK_SIZE..] == rest;
  }

  lemma OpenSizedNext(a: Aead, nonce: Bytes, counter: nat, offset: nat, fromZero: bool, remaining: nat, p: Bytes)
    requires Lawful(a) && |p| >= PLAIN_CHUNK_SIZE && counter < U32_SIZE
    requires offset < PLAIN_CHUNK_SIZE && (fromZero ==> offset == 0) && remaining > 0
    ensures
      var kept, tail := p[..PLAIN_CHUNK_SIZE][offset..], p[PLAIN_CHUNK_SIZE..];
      OpenSized(a, nonce, counter, offset, fromZero, remaining, SealFrom(a, nonce, counter, p)) ==
        if remaining < |kept| then Stream([Take(kept, remaining)], Clean)
        else Prepend(kept, OpenSized(a, nonce, counter + 1, 0, fromZero, remaining - |kept|,
                                     SealFrom(a, nonce, counter + 1, tail)))
  {
    hide OpenSized;
    OpenSizedFull(a, nonce, counter, offset, fromZero, remaining, p[..PLAIN_CHUNK_SIZE],
                  SealFrom(a, nonce, counter + 1, p[PLAIN_CHUNK_SIZE..]));
  }

  /** If the rest of the file yields what it should after the first chunk, the file yields what it should. */
  lemma OpenSizedExtends(a: Aead, nonce: Bytes, counter: nat, offset: nat, fromZero: bool, remaining: nat, p: Bytes)
    requires Lawful(a) && |p| >= PLAIN_CHUNK_SIZE && counter < U32_SIZE
    requires offset < PLAIN_CHUNK_SIZE && (fromZero ==> offset == 0) && remaining > 0
    requires
      var kept, tail := PLAIN_CHUNK_SIZE - offset, p[PLAIN_CHUNK_SIZE..];
      remaining >= kept ==>
        Yields(OpenSized(a, nonce, counter + 1, 0, fromZero, remaining - kept, SealFrom(a, nonce, counter + 1, tail)),
               Take(tail, remaining - kept))
    ensures Yields(OpenSized(a, nonce, counter, offset, fromZero, remaining, SealFrom(a, nonce, counter, p)),
                   Window(p, offset, remaining))
  {
    OpenSizedNext(a, nonce, counter, offset, fromZero, remaining, p);
    var kept, tail := p[..PLAIN_CHUNK_SIZE][offset..], p[PLAIN_CHUNK_SIZE..];
    assert p[offset..] == kept + tail;
    TakeSplit(kept, tail, remaining);
    if remaining < |kept| {
      FlattenOne(Take(kept, remaining));
    } else {
      PrependYields(kept, OpenSized(a, nonce, counter + 1, 0, fromZero, remaining - |kept|,
                                    SealFrom(a, nonce, counter + 1, tail)), Take(tail, remaining - |kept|), Clean);
    }
  }

  lemma OpenSizedLast(a: Aead, nonce: Bytes, counter: nat, offset: nat, fromZero: bool, remaining: nat, p: Bytes)
    requires Lawful(a) && |p| < PLAIN_CHUNK_SIZE && counter < U32_SIZE
    requires offset <= |p| && (fromZero ==> offset == 0)
    ensures Yields(OpenSized(a, nonce, counter, offset, fromZero, remaining, SealFrom(a, nonce, counter, p)),
                   Window(p, offset, remaining))
  {
    StepLast(a, nonce, counter, offset, fromZero, remaining, p);
    FlattenOne(Window(p, offset, remaining));
  }

  lemma OpenSizedNone(a: Aead, nonce: Bytes, counter: nat, offset: nat, fromZero: bool, c: Bytes, p: Bytes)
    ensures Yields(OpenSized(a, nonce, counter, offset, fromZero, 0, c), Window(p, offset, 0))
  {
  }

  lemma {:induction false} OpenSizedSlices(a: Aead, nonce: Bytes, counter: nat, offset: nat, fromZero: bool,
          remaining: nat, p: Bytes)
    requires Lawful(a) && HasRoom(counter, p)
    requires offset <= |p| && offset < PLAIN_CHUNK_SIZE && (fromZero ==> offset == 0)
    ensures Yields(OpenSized(a, nonce, counter, offset, fromZero, remaining, SealFrom(a, nonce, counter, p)),
                   Window(p, offset, remaining))
    decreases |p|
  {
    hide OpenSized, SealFrom;
    if remaining == 0 {
      OpenSizedNone(a, nonce, counter, offset, fromZero, SealFrom(a, nonce, counter, p), p);
    } else if |p| < PLAIN_CHUNK_SIZE {
      OpenSizedLast(a, nonce, counter, offset, fromZero, remaining, p);
    } else {
      var kept := PLAIN_CHUNK_SIZE - offset;
      if remaining >= kept {
        OpenSizedSlices(a, nonce, counter + 1, 0, fromZero, remaining - kept, p[PLAIN_CHUNK_SIZE..]);
      }
      OpenSizedExtends(a, nonce, counter, offset, fromZero, remaining, p);
    }
  }

  /** Random access refines slicing: no chunk fails to open, and no drain or truncation is out of bounds. */
  lemma RangeIsSlice(a: Aead, nonce: Bytes, p: Bytes, start: nat, maxLength: nat)
    requires Lawful(a) && |nonce| == NONCE_SIZE && Accepted(p) && start <= |p|
    ensures
      var stored := Encrypt(a, nonce, p);
      var s := DecryptRange(a, stored, stored, start, maxLength);
      Yields(s, Window(p, start, maxLength))
  {
    var stored := Encrypt(a, nonce, p);
    assert stored[..NONCE_SIZE] == nonce;
    EncryptLength(a, nonce, p);
    PositionMatchesWriter(a, nonce, p, start);
    var at := PositionOf(start);
    var from := at.counter * PLAIN_CHUNK_SIZE;
    OpenSizedSlices(a, nonce, at.counter, at.offset, start == 0, maxLength, p[from..]);
    assert p[from..][at.offset..] == p[start..];
  }

  /** The positions past the end at which the random-access reader does not simply yield nothing. */
  predicate PastEndHazard(size: nat, start: nat) {
    || (start > size && start / PLAIN_CHUNK_SIZE == size / PLAIN_CHUNK_SIZE)
    || ChunkStart(start / PLAIN_CHUNK_SIZE) >= SEEK_LIMIT
  }

  lemma SeekableFits(start: nat)
    requires start < SEEK_LIMIT
    ensures ChunkStart(start / PLAIN_CHUNK_SIZE) < U64_SIZE
  {
  }

  lemma RangePastEndPanics(a: Aead, nonce: Bytes, p: Bytes, start: nat, maxLength: nat)
    requires Lawful(a) && |nonce| == NONCE_SIZE && Accepted(p) && |p| < start && maxLength > 0
    requires start / PLAIN_CHUNK_SIZE == |p| / PLAIN_CHUNK_SIZE
    ensures DecryptRange(a, Encrypt(a, nonce, p), Encrypt(a, nonce, p), start, maxLength) == Stream([], Panicked)
  {
    var stored := Encrypt(a, nonce, p);
    assert stored[..NONCE_SIZE] == nonce;
    EncryptLength(a, nonce, p);
    var k := start / PLAIN_CHUNK_SIZE;
    EncryptSuffix(a, nonce, p, k);
    PositionInRange(start);
    var last := p[k * PLAIN_CHUNK_SIZE..];
    assert |last| < start % PLAIN_CHUNK_SIZE;
    StepLast(a, nonce, k, start % PLAIN_CHUNK_SIZE, false, maxLength, last);
  }

  lemma BeginningRight(start: nat)
    requires ChunkStart(start / PLAIN_CHUNK_SIZE) < U64_SIZE
    ensures PositionOf(start).beginning == ChunkStart(start / PLAIN_CHUNK_SIZE)
  {
  }

  /** Past the last chunk there is nothing to read, if the seek gets that far. */
  lemma RangePastChunks(a: Aead, nonce: Bytes, p: Bytes, start: nat, maxLength: nat)
    requires Lawful(a) && |nonce| == NONCE_SIZE && Accepted(p) && maxLength > 0
    requires start / PLAIN_CHUNK_SIZE > |p| / PLAIN_CHUNK_SIZE && ChunkStart(start / PLAIN_CHUNK_SIZE) < U64_SIZE
    ensures DecryptRange(a, Encrypt(a, nonce, p), Encrypt(a, nonce, p), start, maxLength)
      == Stream([], if ChunkStart(start / PLAIN_CHUNK_SIZE) >= SEEK_LIMIT then Failed else Clean)
  {
    hide SealFrom, PositionOf;
    var stored, k, n := Encrypt(a, nonce, p), start / PLAIN_CHUNK_SIZE, |p| / PLAIN_CHUNK_SIZE;
    EncryptLength(a, nonce, p);
    BeginningRight(start);
    assert ChunkStart(k) >= ChunkStart(n) + ENCRYPTED_CHUNK_SIZE;
    assert Drop(stored, ChunkStart(k)) == [];
  }

  /**
   * Past the end of the contents: the reader panics when the position lies inside the span of the
   * last chunk, fails when the seek is refused, and otherwise yields nothing.
   */
  lemma RangePastEnd(a: Aead, nonce: Bytes, p: Bytes, start: nat, maxLength: nat)
    requires Lawful(a) && |nonce| == NONCE_SIZE && Accepted(p) && |p| < start && maxLength > 0
    requires ChunkStart(start / PLAIN_CHUNK_SIZE) < U64_SIZE
    ensures
      var stored := Encrypt(a, nonce, p);
      var s := DecryptRange(a, stored, stored, start, maxLength);
      && s.items == []
      && s.ending == (if start / PLAIN_CHUNK_SIZE == |p| / PLAIN_CHUNK_SIZE then Panicked
                      else if ChunkStart(start / PLAIN_CHUNK_SIZE) >= SEEK_LIMIT then Failed
                      else Clean)
  {
    hide DecryptRange, Encrypt;
    if start / PLAIN_CHUNK_SIZE == |p| / PLAIN_CHUNK_SIZE {
      RangePastEndPanics(a, nonce, p, start, maxLength);
    } else {
      RangePastChunks(a, nonce, p, start, maxLength);
    }
  }

  // ---------------------------------------------------------------- random access to a file cut short

  /** In a chunk cut short the reader finds nothing, and fails unless it has nothing to read. */
  lemma OpenSizedStub(a: Aead, nonce: Bytes, counter: nat, offset: nat, fromZero: bool, remaining: nat, p: Bytes,
          r: nat)
    requires Lawful(a) && PrefixSafe(a) && counter < U32_SIZE
    requires r < ENCRYPTED_CHUNK_SIZE && r < |SealFrom(a, nonce, counter, p)|
    ensures OpenSized(a, nonce, counter, offset, fromZero, remaining, SealFrom(a, nonce, counter, p)[..r])
      == Stream([], if r == 0 || remaining == 0 then Clean else Failed)
  {
    var last := |p| < PLAIN_CHUNK_SIZE;
    var first := if last then p else p[..PLAIN_CHUNK_SIZE];
    var c := a.seal(nonce, counter, last, first);
    assert SealFrom(a, nonce, counter, p)[..r] == c[..r];
    assert r < |c| && a.open(nonce, counter, true, c[..r]) == None;
  }

  /** A file of n bytes that is longer than some chunks in its stored form is so in its contents. */
  lemma WholeChunksFit(n: nat, whole: nat)
    requires whole * ENCRYPTED_CHUNK_SIZE < StoredSize(n) - NONCE_SIZE
    ensures whole * PLAIN_CHUNK_SIZE <= n
  {
    var d := n / PLAIN_CHUNK_SIZE;
    assert whole > d ==> whole * ENCRYPTED_CHUNK_SIZE >= (d + 1) * ENCRYPTED_CHUNK_SIZE;
  }

  /** A window of the first m bytes is the part of it in the first chunk, then a window of the rest. */
  lemma WindowOfPrefix(p: Bytes, m: nat, offset: nat, len: nat)
    requires PLAIN_CHUNK_SIZE <= m <= |p| && offset < PLAIN_CHUNK_SIZE
    ensures
      var kept := p[..PLAIN_CHUNK_SIZE][offset..];
      Window(p[..m], offset, len) ==
        if len < |kept| then Take(kept, len)
        else kept + Window(p[PLAIN_CHUNK_SIZE..][..m - PLAIN_CHUNK_SIZE], 0, len - |kept|)
  {
    var kept, tail := p[..PLAIN_CHUNK_SIZE][offset..], p[PLAIN_CHUNK_SIZE..][..m - PLAIN_CHUNK_SIZE];
    assert p[..m][offset..] == kept + tail;
    TakeSplit(kept, tail, len);
  }

  /** How reading len bytes from offset on ends, when whole chunks and r more bytes are there. */
  function CutEnding(offset: nat, len: nat, whole: nat, r: nat): Ending {
    if len > 0 && r > 0 && offset + len > whole * PLAIN_CHUNK_SIZE then Failed else Clean
  }

  /** The first of several chunks that are left, given what the others yield. */
  lemma OpenSizedCutStep(a: Aead, nonce: Bytes, counter: nat, offset: nat, fromZero: bool, remaining: nat, p: Bytes,
          whole: nat, rest: Bytes, ending: Ending)
    requires Lawful(a) && counter < U32_SIZE && 0 < whole && whole * PLAIN_CHUNK_SIZE <= |p|
    requires offset < PLAIN_CHUNK_SIZE && (fromZero ==> offset == 0) && remaining > 0
    requires
      var kept := PLAIN_CHUNK_SIZE - offset;
      if remaining < kept then ending == Clean
      else YieldsUntil(OpenSized(a, nonce, counter + 1, 0, fromZero, remaining - kept, rest),
                       Window(p[PLAIN_CHUNK_SIZE..][..(whole - 1) * PLAIN_CHUNK_SIZE], 0, remaining - kept), ending)
    ensures YieldsUntil(
      OpenSized(a, nonce, counter, offset, fromZero, remaining,
                a.seal(nonce, counter, false, p[..PLAIN_CHUNK_SIZE]) + rest),
      Window(p[..whole * PLAIN_CHUNK_SIZE], offset, remaining), ending)
  {
    hide OpenSized, Window, Prepend;
    var kept := p[..PLAIN_CHUNK_SIZE][offset..];
    OpenSizedFull(a, nonce, counter, offset, fromZero, remaining, p[..PLAIN_CHUNK_SIZE], rest);
    WindowOfPrefix(p, whole * PLAIN_CHUNK_SIZE, offset, remaining);
    if remaining < |kept| {
      FlattenOne(Take(kept, remaining));
    } else {
      PrependYields(kept, OpenSized(a, nonce, counter + 1, 0, fromZero, remaining - |kept|, rest),
                    Window(p[PLAIN_CHUNK_SIZE..][..(whole - 1) * PLAIN_CHUNK_SIZE], 0, remaining - |kept|), ending);
    }
  }

  lemma {:induction false} OpenSizedCut(a: Aead, nonce: Bytes, counter: nat, offset: nat, fromZero: bool,
          remaining: nat, p: Bytes, whole: nat, r: nat)
    requires Lawful(a) && PrefixSafe(a) && HasRoom(counter, p)
    requires offset < PLAIN_CHUNK_SIZE && (fromZero ==> offset == 0)
    requires r < ENCRYPTED_CHUNK_SIZE && whole * ENCRYPTED_CHUNK_SIZE + r < |SealFrom(a, nonce, counter, p)|
    ensures whole * PLAIN_CHUNK_SIZE <= |p|
    ensures YieldsUntil(
      OpenSized(a, nonce, counter, offset, fromZero, remaining,
                SealFrom(a, nonce, counter, p)[..whole * ENCRYPTED_CHUNK_SIZE + r]),
      Window(p[..whole * PLAIN_CHUNK_SIZE], offset, remaining), CutEnding(offset, remaining, whole, r))
    decreases |p|
  {
    hide OpenSized, SealFrom;
    var cut := whole * ENCRYPTED_CHUNK_SIZE + r;
    SealFromLength(a, nonce, counter, p);
    WholeChunksFit(|p|, whole);
    if remaining == 0 {
      OpenSizedNone(a, nonce, counter, offset, fromZero, SealFrom(a, nonce, counter, p)[..cut],
                    p[..whole * PLAIN_CHUNK_SIZE]);
    } else if whole == 0 {
      OpenSizedStub(a, nonce, counter, offset, fromZero, remaining, p, r);
    } else {
      var kept, rest := PLAIN_CHUNK_SIZE - offset, SealFrom(a, nonce, counter + 1, p[PLAIN_CHUNK_SIZE..]);
      SealFromCut(a, nonce, counter, p, cut);
      assert cut - ENCRYPTED_CHUNK_SIZE == (whole - 1) * ENCRYPTED_CHUNK_SIZE + r;
      if remaining >= kept {
        OpenSizedCut(a, nonce, counter + 1, 0, fromZero, remaining - kept, p[PLAIN_CHUNK_SIZE..], whole - 1, r);
      }
      OpenSizedCutStep(a, nonce, counter, offset, fromZero, remaining, p, whole, rest[..cut - ENCRYPTED_CHUNK_SIZE],
                       CutEnding(offset, remaining, whole, r));
    }
  }

  /** A seek that is not refused leads to the chunk that start lies in. */
  lemma DecryptRangeAt(a: Aead, nonce: Bytes, stored: Bytes, start: nat, maxLength: nat)
    requires |nonce| == NONCE_SIZE <= |stored| && stored[..NONCE_SIZE] == nonce
    requires ChunkStart(start / PLAIN_CHUNK_SIZE) < SEEK_LIMIT
    ensures DecryptRange(a, stored, stored, start, maxLength) ==
      OpenSized(a, nonce, start / PLAIN_CHUNK_SIZE, start % PLAIN_CHUNK_SIZE, start == 0, maxLength,
                Drop(stored, ChunkStart(start / PLAIN_CHUNK_SIZE)))
  {
    hide OpenSized, PositionOf;
    PositionInRange(start);
  }

  /** What is left of a file cut short from chunk k on. */
  lemma CutSuffix(a: Aead, nonce: Bytes, p: Bytes, whole: nat, r: nat, k: nat)
    requires Lawful(a) && |nonce| == NONCE_SIZE && k <= whole && whole * PLAIN_CHUNK_SIZE <= |p|
    requires ChunkStart(whole) + r < |Encrypt(a, nonce, p)|
    ensures
      var cut := Encrypt(a, nonce, p)[..ChunkStart(whole) + r];
      var sealed := SealFrom(a, nonce, k, p[k * PLAIN_CHUNK_SIZE..]);
      && (whole - k) * ENCRYPTED_CHUNK_SIZE + r < |sealed|
      && cut[..NONCE_SIZE] == nonce
      && Drop(cut, ChunkStart(k)) == sealed[..(whole - k) * ENCRYPTED_CHUNK_SIZE + r]
  {
    hide SealFrom;
    EncryptSuffix(a, nonce, p, k);
    var stored, m, n := Encrypt(a, nonce, p), ChunkStart(k), (whole - k) * ENCRYPTED_CHUNK_SIZE + r;
    assert ChunkStart(whole) + r == m + n;
    hide Encrypt, ChunkStart;
    DropOfPrefix(stored, m + n, m, 0);
  }

  /** Counted from a chunk before the cut, the same bytes are asked for, with the same outcome. */
  lemma CutFromChunk(p: Bytes, whole: nat, r: nat, start: nat, len: nat)
    requires start / PLAIN_CHUNK_SIZE <= whole && whole * PLAIN_CHUNK_SIZE <= |p|
    ensures
      var k, offset := start / PLAIN_CHUNK_SIZE, start % PLAIN_CHUNK_SIZE;
      && k * PLAIN_CHUNK_SIZE <= |p| && (whole - k) * PLAIN_CHUNK_SIZE <= |p[k * PLAIN_CHUNK_SIZE..]|
      && ChunkStart(k) <= ChunkStart(whole)
      && CutEnding(offset, len, whole - k, r) == CutEnding(start, len, whole, r)
      && Window(p[k * PLAIN_CHUNK_SIZE..][..(whole - k) * PLAIN_CHUNK_SIZE], offset, len)
         == Window(p[..whole * PLAIN_CHUNK_SIZE], start, len)
  {
    var k, offset := start / PLAIN_CHUNK_SIZE, start % PLAIN_CHUNK_SIZE;
    assert k * PLAIN_CHUNK_SIZE + offset == start;
    hide Drop;
    DropOfPrefix(p, whole * PLAIN_CHUNK_SIZE, k * PLAIN_CHUNK_SIZE, offset);
  }

  /** Before the cut, reading begins with the chunk that start lies in. */
  lemma CutRangeBefore(a: Aead, nonce: Bytes, p: Bytes, whole: nat, r: nat, start: nat, maxLength: nat)
    requires Lawful(a) && PrefixSafe(a) && |nonce| == NONCE_SIZE && Accepted(p)
    requires r < ENCRYPTED_CHUNK_SIZE && ChunkStart(whole) + r < |Encrypt(a, nonce, p)|
    requires start / PLAIN_CHUNK_SIZE <= whole && whole * PLAIN_CHUNK_SIZE <= |p|
    ensures ChunkStart(start / PLAIN_CHUNK_SIZE) < SEEK_LIMIT
    ensures
      var cut := Encrypt(a, nonce, p)[..ChunkStart(whole) + r];
      YieldsUntil(DecryptRange(a, cut, cut, start, maxLength),
                  Window(p[..whole * PLAIN_CHUNK_SIZE], start, maxLength), CutEnding(start, maxLength, whole, r))
  {
    hide OpenSized, SealFrom, Encrypt, YieldsUntil, CutEnding, DecryptRange, Window, Drop;
    var k := start / PLAIN_CHUNK_SIZE;
    EncryptLength(a, nonce, p);
    CutFromChunk(p, whole, r, start, maxLength);
    CutSuffix(a, nonce, p, whole, r, k);
    DecryptRangeAt(a, nonce, Encrypt(a, nonce, p)[..ChunkStart(whole) + r], start, maxLength);
    OpenSizedCut(a, nonce, k, start % PLAIN_CHUNK_SIZE, start == 0, maxLength, p[k * PLAIN_CHUNK_SIZE..], whole - k, r);
  }

  /** Behind the cut there is nothing to read. */
  lemma CutRangeBehind(a: Aead, nonce: Bytes, p: Bytes, whole: nat, r: nat, start: nat, maxLength: nat)
    requires Lawful(a) && |nonce| == NONCE_SIZE && Accepted(p)
    requires r < ENCRYPTED_CHUNK_SIZE && ChunkStart(whole) + r < |Encrypt(a, nonce, p)|
    requires start / PLAIN_CHUNK_SIZE > whole && ChunkStart(start / PLAIN_CHUNK_SIZE) < U64_SIZE
    requires whole * PLAIN_CHUNK_SIZE <= |p|
    ensures
      var cut := Encrypt(a, nonce, p)[..ChunkStart(whole) + r];
      YieldsUntil(DecryptRange(a, cut, cut, start, maxLength), Window(p[..whole * PLAIN_CHUNK_SIZE], start, maxLength),
                  if ChunkStart(start / PLAIN_CHUNK_SIZE) >= SEEK_LIMIT then Failed else Clean)
  {
    hide SealFrom, PositionOf, Encrypt;
    var k := start / PLAIN_CHUNK_SIZE;
    var cut := Encrypt(a, nonce, p)[..ChunkStart(whole) + r];
    BeginningRight(start);
    assert ChunkStart(k) >= ChunkStart(whole) + ENCRYPTED_CHUNK_SIZE;
    assert Drop(cut, ChunkStart(k)) == [];
    assert start > whole * PLAIN_CHUNK_SIZE;
  }

  lemma CutFits(a: Aead, nonce: Bytes, p: Bytes, whole: nat, r: nat)
    requires Lawful(a) && |nonce| == NONCE_SIZE && Accepted(p) && ChunkStart(whole) + r < |Encrypt(a, nonce, p)|
    ensures whole * PLAIN_CHUNK_SIZE <= |p|
  {
    EncryptLength(a, nonce, p);
    WholeChunksFit(|p|, whole);
  }

  /**
   * Random access to a file cut after some whole chunks and r more bytes yields what a slice of those chunks'
   * contents yields, and never panics. It fails exactly when it has something to read, gets as far as the
   * chunk that was cut, and the cut is inside of it (or when the seek is refused): a request that starts
   * behind the chunk that was cut, like one that ends in front of it, does not notice.
   */
  lemma CutRangeIsSlice(a: Aead, nonce: Bytes, p: Bytes, whole: nat, r: nat, start: nat, maxLength: nat)
    requires Lawful(a) && PrefixSafe(a) && |nonce| == NONCE_SIZE && Accepted(p)
    requires r < ENCRYPTED_CHUNK_SIZE && ChunkStart(whole) + r < |Encrypt(a, nonce, p)|
    requires ChunkStart(start / PLAIN_CHUNK_SIZE) < U64_SIZE
    ensures
      var cut := Encrypt(a, nonce, p)[..ChunkStart(whole) + r];
      var s := DecryptRange(a, cut, cut, start, maxLength);
      && whole * PLAIN_CHUNK_SIZE <= |p|
      && Flatten(s.items) == Window(p[..whole * PLAIN_CHUNK_SIZE], start, maxLength)
      && s.ending ==
           if || ChunkStart(start / PLAIN_CHUNK_SIZE) >= SEEK_LIMIT
              || (maxLength > 0 && r > 0 && start / PLAIN_CHUNK_SIZE <= whole
                  && start + maxLength > whole * PLAIN_CHUNK_SIZE)
           then Failed else Clean
  {
    hide Encrypt, DecryptRange, Window, ChunkStart;
    CutFits(a, nonce, p, whole, r);
    if start / PLAIN_CHUNK_SIZE <= whole {
      CutRangeBefore(a, nonce, p, whole, r, start, maxLength);
    } else {
      CutRangeBehind(a, nonce, p, whole, r, start, maxLength);
    }
  }
}
