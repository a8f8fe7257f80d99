/** Stored files chunk by chunk: where the writer puts what, and what the readers make of any bytes. */
module StoredChunks {
  import opened ByteStreams
  import opened Ciphers
  import opened ChunkFormat

  // ---------------------------------------------------------------- the format, chunk by chunk

  lemma FirstChunk(a: Aead, nonce: Bytes, counter: nat, p: Bytes)
    requires Lawful(a)
    ensures
      if |p| >= PLAIN_CHUNK_SIZE then
        |SealFrom(a, nonce, counter, p)| >= ENCRYPTED_CHUNK_SIZE &&
        SealFrom(a, nonce, counter, p)[..ENCRYPTED_CHUNK_SIZE] == a.seal(nonce, counter, false, p[..PLAIN_CHUNK_SIZE])
      else SealFrom(a, nonce, counter, p) == a.seal(nonce, counter, true, p)
  {
  }

  /**
   * Where everything stands in a stored file: the nonce, then chunk by chunk the sealed parts of the contents,
   * each under the counter that is its number, and only the shorter one at the end flagged as the last.
   */
  lemma StoredChunk(a: Aead, nonce: Bytes, p: Bytes, i: nat)
    requires Lawful(a) && |nonce| == NONCE_SIZE && i * PLAIN_CHUNK_SIZE <= |p|
    ensures
      var stored, rest := Encrypt(a, nonce, p), p[i * PLAIN_CHUNK_SIZE..];
      && stored[..NONCE_SIZE] == nonce && ChunkStart(i) <= |stored|
      && if |rest| >= PLAIN_CHUNK_SIZE then
           ChunkStart(i) + ENCRYPTED_CHUNK_SIZE <= |stored| &&
           stored[ChunkStart(i)..][..ENCRYPTED_CHUNK_SIZE] == a.seal(nonce, i, false, rest[..PLAIN_CHUNK_SIZE])
         else
           stored[ChunkStart(i)..] == a.seal(nonce, i, true, rest)
  {
    EncryptSuffix(a, nonce, p, i);
    FirstChunk(a, nonce, i, p[i * PLAIN_CHUNK_SIZE..]);
  }

  // ---------------------------------------------------------------- reading any file, damaged ones included

  /** Whether the sealed rest c of a file has a chunk number i, and whether it is a full one. */
  predicate HasChunk(c: Bytes, i: nat) {
    i * ENCRYPTED_CHUNK_SIZE < |c|
  }

  predicate HasFullChunk(c: Bytes, i: nat) {
    (i + 1) * ENCRYPTED_CHUNK_SIZE <= |c|
  }

  /**
   * What chunk number i opens to: a full one as one among others, a shorter one as the last, each under its own
   * counter, which starts at first. The sequential reader is limited: it keeps the largest counter for a last
   * chunk. The other reader has its counters cut to 32 bits.
   */
  function ChunkText(a: Aead, nonce: Bytes, limited: bool, first: nat, c: Bytes, i: nat): Option<Bytes>
    requires HasChunk(c, i)
  {
    var counter := if limited then first + i else AsU32(first + i);
    var at := i * ENCRYPTED_CHUNK_SIZE;
    if !HasFullChunk(c, i) then a.open(nonce, counter, true, c[at..])
    else if limited && counter >= COUNTER_MAX then None
    else a.open(nonce, counter, false, c[at..at + ENCRYPTED_CHUNK_SIZE])
  }

  predicate OpensAs(a: Aead, nonce: Bytes, limited: bool, first: nat, c: Bytes, i: nat, text: Bytes) {
    HasChunk(c, i) && ChunkText(a, nonce, limited, first, c, i) == Some(text)
  }

  predicate Unopened(a: Aead, nonce: Bytes, limited: bool, first: nat, c: Bytes, i: nat) {
    HasChunk(c, i) && ChunkText(a, nonce, limited, first, c, i) == None
  }

  /** The texts are those of the chunks in front of the first one that does not open, or of all chunks. */
  ghost predicate Leading(a: Aead, nonce: Bytes, limited: bool, first: nat, c: Bytes, texts: seq<Bytes>) {
    && (forall i | 0 <= i < |texts| :: OpensAs(a, nonce, limited, first, c, i, texts[i]))
    && (HasChunk(c, |texts|) ==> Unopened(a, nonce, limited, first, c, |texts|))
  }

  /** Behind the first chunk, the chunks are those of what follows it. */
  lemma NextChunkText(a: Aead, nonce: Bytes, limited: bool, first: nat, c: Bytes, i: nat)
    requires |c| >= ENCRYPTED_CHUNK_SIZE
    ensures
      var rest := c[ENCRYPTED_CHUNK_SIZE..];
      && (HasChunk(c, i + 1) <==> HasChunk(rest, i))
      && (HasChunk(rest, i) ==>
            ChunkText(a, nonce, limited, first, c, i + 1) == ChunkText(a, nonce, limited, first + 1, rest, i))
  {
    var rest, at := c[ENCRYPTED_CHUNK_SIZE..], i * ENCRYPTED_CHUNK_SIZE;
    assert (i + 1) * ENCRYPTED_CHUNK_SIZE == ENCRYPTED_CHUNK_SIZE + at;
    assert (i + 2) * ENCRYPTED_CHUNK_SIZE == ENCRYPTED_CHUNK_SIZE + (at + ENCRYPTED_CHUNK_SIZE);
    if HasFullChunk(rest, i) {
      assert c[ENCRYPTED_CHUNK_SIZE + at..ENCRYPTED_CHUNK_SIZE + (at + ENCRYPTED_CHUNK_SIZE)]
          == rest[at..at + ENCRYPTED_CHUNK_SIZE];
    } else if HasChunk(rest, i) {
      DropDrop(c, ENCRYPTED_CHUNK_SIZE, at);
    }
  }

  lemma FirstChunkText(a: Aead, nonce: Bytes, limited: bool, first: nat, c: Bytes)
    requires HasChunk(c, 0)
    ensures
      var counter := if limited then first else AsU32(first);
      ChunkText(a, nonce, limited, first, c, 0) ==
        if |c| < ENCRYPTED_CHUNK_SIZE then a.open(nonce, counter, true, c)
        else if limited && counter >= COUNTER_MAX then None
        else a.open(nonce, counter, false, c[..ENCRYPTED_CHUNK_SIZE])
  {
    assert c[0..] == c;
  }

  /** The leading texts are the first one and those of what follows the first chunk. */
  lemma LeadingRest(a: Aead, nonce: Bytes, limited: bool, first: nat, c: Bytes, texts: seq<Bytes>)
    requires texts != [] && |c| >= ENCRYPTED_CHUNK_SIZE
    requires Leading(a, nonce, limited, first, c, texts)
    ensures Leading(a, nonce, limited, first + 1, c[ENCRYPTED_CHUNK_SIZE..], texts[1..])
    ensures HasChunk(c, |texts|) <==> HasChunk(c[ENCRYPTED_CHUNK_SIZE..], |texts[1..]|)
  {
    hide ChunkText, HasChunk;
    var rest := c[ENCRYPTED_CHUNK_SIZE..];
    forall i | 0 <= i < |texts[1..]|
      ensures OpensAs(a, nonce, limited, first + 1, rest, i, texts[1..][i])
    {
      NextChunkText(a, nonce, limited, first, c, i);
      assert OpensAs(a, nonce, limited, first, c, i + 1, texts[i + 1]);
    }
    NextChunkText(a, nonce, limited, first, c, |texts[1..]|);
  }

  lemma LeadingFirst(a: Aead, nonce: Bytes, limited: bool, first: nat, c: Bytes, text: Bytes, texts: seq<Bytes>)
    requires |c| >= ENCRYPTED_CHUNK_SIZE && OpensAs(a, nonce, limited, first, c, 0, text)
    requires Leading(a, nonce, limited, first + 1, c[ENCRYPTED_CHUNK_SIZE..], texts)
    ensures Leading(a, nonce, limited, first, c, [text] + texts)
  {
    hide ChunkText, HasChunk;
    var rest, all := c[ENCRYPTED_CHUNK_SIZE..], [text] + texts;
    forall i | 0 <= i < |all|
      ensures OpensAs(a, nonce, limited, first, c, i, all[i])
    {
      if i > 0 {
        NextChunkText(a, nonce, limited, first, c, i - 1);
        assert OpensAs(a, nonce, limited, first + 1, rest, i - 1, texts[i - 1]);
      }
    }
    NextChunkText(a, nonce, limited, first, c, |texts|);
  }

  lemma NoSecondChunk(c: Bytes)
    requires |c| < ENCRYPTED_CHUNK_SIZE
    ensures forall i: nat | i > 0 :: !HasChunk(c, i)
  {
    forall i: nat | i > 0
      ensures i * ENCRYPTED_CHUNK_SIZE >= ENCRYPTED_CHUNK_SIZE
    {
    }
  }

  /** Every file has leading texts. */
  lemma {:induction false} LeadingTexts(a: Aead, nonce: Bytes, limited: bool, first: nat, c: Bytes)
    returns (texts: seq<Bytes>)
    ensures Leading(a, nonce, limited, first, c, texts)
    decreases |c|
  {
    hide ChunkText;
    texts := [];
    if HasChunk(c, 0) && ChunkText(a, nonce, limited, first, c, 0).Some? {
      var text := ChunkText(a, nonce, limited, first, c, 0).value;
      if |c| >= ENCRYPTED_CHUNK_SIZE {
        var rest := LeadingTexts(a, nonce, limited, first + 1, c[ENCRYPTED_CHUNK_SIZE..]);
        LeadingFirst(a, nonce, limited, first, c, text, rest);
        texts := [text] + rest;
      } else {
        NoSecondChunk(c);
        texts := [text];
      }
    }
  }

  lemma LeadingOfShort(a: Aead, nonce: Bytes, limited: bool, first: nat, c: Bytes, texts: seq<Bytes>)
    requires |c| < ENCRYPTED_CHUNK_SIZE && Leading(a, nonce, limited, first, c, texts)
    ensures |texts| <= 1 && (texts != [] ==> !HasChunk(c, |texts|))
  {
    hide ChunkText, HasChunk;
    NoSecondChunk(c);
    assert |texts| > 1 ==> OpensAs(a, nonce, limited, first, c, 1, texts[1]);
  }

  /** What one turn of the sequential reader does is what the first chunk opens to. */
  lemma StepByText(a: Aead, nonce: Bytes, counter: nat, c: Bytes)
    requires counter <= COUNTER_MAX
    ensures OpenStep(a, nonce, counter, c) ==
      if !HasChunk(c, 0) then Stop([], Clean)
      else
        match ChunkText(a, nonce, true, counter, c, 0)
        case None => Stop([], Failed)
        case Some(p) => if |c| >= ENCRYPTED_CHUNK_SIZE then Go(p) else Stop([p], Clean)
  {
    if HasChunk(c, 0) {
      FirstChunkText(a, nonce, true, counter, c);
    }
  }

  lemma OpenStepLimit(a: Aead, nonce: Bytes, counter: nat, c: Bytes)
    ensures OpenStep(a, nonce, counter, c).Go? ==> counter < COUNTER_MAX
  {
  }

  lemma {:induction false} OpenFromByChunks(a: Aead, nonce: Bytes, counter: nat, c: Bytes, texts: seq<Bytes>)
    requires counter <= COUNTER_MAX && Leading(a, nonce, true, counter, c, texts)
    ensures OpenFrom(a, nonce, counter, c) == Stream(texts, if HasChunk(c, |texts|) then Failed else Clean)
    decreases |c|
  {
    StepByText(a, nonce, counter, c);
    OpenStepLimit(a, nonce, counter, c);
    hide ChunkText, HasChunk, OpenStep;
    if texts == [] {
      if HasChunk(c, 0) {
        assert Unopened(a, nonce, true, counter, c, 0);
      }
    } else {
      assert OpensAs(a, nonce, true, counter, c, 0, texts[0]);
      if |c| >= ENCRYPTED_CHUNK_SIZE {
        LeadingRest(a, nonce, true, counter, c, texts);
        OpenFromByChunks(a, nonce, counter + 1, c[ENCRYPTED_CHUNK_SIZE..], texts[1..]);
      } else {
        LeadingOfShort(a, nonce, true, counter, c, texts);
      }
    }
  }

  /** The texts of the chunks behind the nonce, for the sequential reader. */
  ghost predicate LeadingInFile(a: Aead, stored: Bytes, texts: seq<Bytes>) {
    |stored| >= NONCE_SIZE ==> Leading(a, stored[..NONCE_SIZE], true, 0, stored[NONCE_SIZE..], texts)
  }

  /**
   * What the sequential reader yields for any stored bytes: the texts of the chunks in front of the first one
   * that does not open, and then an error if there is one. A file too short for a nonce is an error too.
   */
  lemma DecryptByChunks(a: Aead, stored: Bytes, texts: seq<Bytes>)
    requires LeadingInFile(a, stored, texts)
    ensures Decrypt(a, stored) ==
      if |stored| < NONCE_SIZE then Stream([], Failed)
      else Stream(texts, if HasChunk(stored[NONCE_SIZE..], |texts|) then Failed else Clean)
  {
    if |stored| >= NONCE_SIZE {
      OpenFromByChunks(a, stored[..NONCE_SIZE], 0, stored[NONCE_SIZE..], texts);
    }
  }

  // ---------------------------------------------------------------- random access to any file

  lemma SizedStepByText(a: Aead, nonce: Bytes, counter: nat, offset: nat, fromZero: bool, remaining: nat, c: Bytes)
    ensures SizedStep(a, nonce, counter, offset, fromZero, remaining, c) ==
      if !HasChunk(c, 0) then Stop([], Clean)
      else
        match ChunkText(a, nonce, false, counter, c, 0)
        case None => Stop([], Failed)
        case Some(p) =>
          if !fromZero && offset > |p| then Stop([], Panicked)
          else
            var kept := if fromZero then p else p[offset..];
            if |c| >= ENCRYPTED_CHUNK_SIZE && remaining >= |kept| then Go(kept)
            else Stop([Take(kept, remaining)], Clean)
  {
    if HasChunk(c, 0) {
      FirstChunkText(a, nonce, false, counter, c);
    }
  }

  /** How reading len bytes of all, from offset on, ends when there is or is not a chunk behind all. */
  function SizedEnding(all: Bytes, offset: nat, len: nat, more: bool): Ending {
    if len > 0 && |all| < offset + len && more then Failed else Clean
  }

  /** The first of some texts, and what the others yield. */
  lemma YieldsFirst(text: Bytes, texts: seq<Bytes>, offset: nat, len: nat, s: Stream, ending: Ending)
    requires offset <= |text| && len >= |text| - offset
    requires YieldsUntil(s, Window(Flatten(texts), 0, len - (|text| - offset)), ending)
    ensures YieldsUntil(Prepend(text[offset..], s), Window(Flatten([text] + texts), offset, len), ending)
  {
    assert ([text] + texts)[1..] == texts;
    var kept, all := text[offset..], Flatten(texts);
    DropOfSum(text, all, offset);
    TakeSplit(kept, all, len);
    assert Drop(all, 0) == all;
    PrependYields(kept, s, Window(all, 0, len - |kept|), ending);
  }

  lemma YieldsPart(text: Bytes, texts: seq<Bytes>, offset: nat, len: nat)
    requires offset <= |text| && (texts == [] || len < |text| - offset)
    ensures Yields(Stream([Take(text[offset..], len)], Clean), Window(Flatten([text] + texts), offset, len))
  {
    assert ([text] + texts)[1..] == texts;
    DropOfSum(text, Flatten(texts), offset);
    TakeSplit(text[offset..], Flatten(texts), len);
    FlattenOne(Take(text[offset..], len));
  }

  /** The reader on a chunk that opens. */
  lemma OpenSizedText(a: Aead, nonce: Bytes, counter: nat, offset: nat, fromZero: bool, remaining: nat, c: Bytes,
          text: Bytes)
    requires OpensAs(a, nonce, false, counter, c, 0, text) && (fromZero ==> offset == 0) && remaining > 0
    ensures OpenSized(a, nonce, counter, offset, fromZero, remaining, c) ==
      if offset > |text| then Stream([], Panicked)
      else if |c| >= ENCRYPTED_CHUNK_SIZE && remaining >= |text| - offset then
        Prepend(text[offset..], OpenSized(a, nonce, counter + 1, 0, fromZero, remaining - (|text| - offset),
                                          c[ENCRYPTED_CHUNK_SIZE..]))
      else Stream([Take(text[offset..], remaining)], Clean)
  {
    SizedStepByText(a, nonce, counter, offset, fromZero, remaining, c);
    hide ChunkText, HasChunk, SizedStep;
    assert text[0..] == text;
  }

  /** The reader where no chunk opens. */
  lemma OpenSizedNoText(a: Aead, nonce: Bytes, counter: nat, offset: nat, fromZero: bool, remaining: nat, c: Bytes)
    requires Leading(a, nonce, false, counter, c, [])
    ensures OpenSized(a, nonce, counter, offset, fromZero, remaining, c)
      == Stream([], if remaining > 0 && HasChunk(c, 0) then Failed else Clean)
  {
    SizedStepByText(a, nonce, counter, offset, fromZero, remaining, c);
    assert HasChunk(c, 0) ==> Unopened(a, nonce, false, counter, c, 0);
    hide ChunkText, HasChunk, SizedStep;
  }

  lemma {:induction false} OpenSizedByChunks(a: Aead, nonce: Bytes, counter: nat, offset: nat, fromZero: bool,
          remaining: nat, c: Bytes, texts: seq<Bytes>)
    requires Leading(a, nonce, false, counter, c, texts) && (fromZero ==> offset == 0)
    ensures
      var s, all := OpenSized(a, nonce, counter, offset, fromZero, remaining, c), Flatten(texts);
      if remaining > 0 && texts != [] && offset > |texts[0]| then s == Stream([], Panicked)
      else
        YieldsUntil(s, Window(all, offset, remaining), SizedEnding(all, offset, remaining, HasChunk(c, |texts|)))
    decreases |c|
  {
    if remaining == 0 {
      OpenSizedNone(a, nonce, counter, offset, fromZero, c, Flatten(texts));
    } else if texts == [] {
      OpenSizedNoText(a, nonce, counter, offset, fromZero, remaining, c);
    } else {
      hide HasChunk, OpenSized, Window, Prepend;
      var text, rest := texts[0], texts[1..];
      assert texts == [text] + rest;
      assert OpensAs(a, nonce, false, counter, c, 0, text);
      OpenSizedText(a, nonce, counter, offset, fromZero, remaining, c, text);
      if offset <= |text| {
        if |c| >= ENCRYPTED_CHUNK_SIZE && remaining >= |text| - offset {
          var next, left := c[ENCRYPTED_CHUNK_SIZE..], remaining - (|text| - offset);
          LeadingRest(a, nonce, false, counter, c, texts);
          hide Leading, OpensAs;
          OpenSizedByChunks(a, nonce, counter + 1, 0, fromZero, left, next, rest);
          YieldsFirst(text, rest, offset, remaining, OpenSized(a, nonce, counter + 1, 0, fromZero, left, next),
                      SizedEnding(Flatten(rest), 0, left, HasChunk(next, |rest|)));
        } else {
          if |c| < ENCRYPTED_CHUNK_SIZE {
            LeadingOfShort(a, nonce, false, counter, c, texts);
          }
          YieldsPart(text, rest, offset, remaining);
        }
      }
    }
  }

  /** The file can be read from the chunk on that start lies in. */
  predicate Opened(stored: Bytes, start: nat) {
    |stored| >= NONCE_SIZE && ChunkStart(start / PLAIN_CHUNK_SIZE) < SEEK_LIMIT
  }

  /** The texts of the chunks from the one on that start lies in, for random access. */
  ghost predicate LeadingFrom(a: Aead, stored: Bytes, start: nat, texts: seq<Bytes>) {
    Opened(stored, start) ==>
      Leading(a, stored[..NONCE_SIZE], false, start / PLAIN_CHUNK_SIZE,
              Drop(stored, ChunkStart(start / PLAIN_CHUNK_SIZE)), texts)
  }

  /** How random access to any stored bytes ends. */
  function RangeEnding(stored: Bytes, start: nat, len: nat, texts: seq<Bytes>): Ending {
    var c, offset := Drop(stored, ChunkStart(start / PLAIN_CHUNK_SIZE)), start % PLAIN_CHUNK_SIZE;
    if !Opened(stored, start) then Failed
    else if len > 0 && texts != [] && offset > |texts[0]| then Panicked
    else if len > 0 && |Flatten(texts)| < offset + len && HasChunk(c, |texts|) then Failed
    else Clean
  }

  /**
   * What random access yields for any stored bytes, from the chunk on that start lies in: the bytes asked for,
   * as far as the chunks in front of the first one that does not open hold them. It fails exactly when there is
   * such a chunk and bytes are still missing there (or the file has no nonce, or the seek is refused), and panics
   * exactly when the first chunk is too short for the bytes to be dropped from it.
   */
  lemma RangeByChunks(a: Aead, stored: Bytes, start: nat, maxLength: nat, texts: seq<Bytes>)
    requires ChunkStart(start / PLAIN_CHUNK_SIZE) < U64_SIZE && LeadingFrom(a, stored, start, texts)
    ensures
      var s := DecryptRange(a, stored, stored, start, maxLength);
      YieldsUntil(
        s,
        if Opened(stored, start) && s.ending != Panicked
        then Window(Flatten(texts), start % PLAIN_CHUNK_SIZE, maxLength) else [],
        RangeEnding(stored, start, maxLength, texts))
  {
    if Opened(stored, start) {
      hide OpenSized, Leading, HasChunk;
      DecryptRangeAt(a, stored[..NONCE_SIZE], stored, start, maxLength);
      OpenSizedByChunks(a, stored[..NONCE_SIZE], start / PLAIN_CHUNK_SIZE, start % PLAIN_CHUNK_SIZE, start == 0,
                        maxLength, Drop(stored, ChunkStart(start / PLAIN_CHUNK_SIZE)), texts);
    } else {
      BeginningRight(start);
    }
  }
}
