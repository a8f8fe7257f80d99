/** The writer and the readers of encrypted files, chunk by chunk over an open file. */
module EncryptedStreamers {
  import opened ByteStreams
  import opened ByteFiles
  import opened Ciphers
  import opened ChunkFormat

  class EncryptedStreamer {
    const inner: File
    const aead: Aead

    constructor (inner: File, aead: Aead)
      ensures this.inner == inner && this.aead == aead
    {
      this.inner := inner;
      this.aead := aead;
    }

    /** Writes more bytes after the ones w already written to data at position at. */
    method WriteMore(more: Bytes, ghost data: Bytes, ghost at: nat, ghost w: Bytes)
      requires at <= |data| && inner.data == Overlay(data, at, w) && inner.pos == at + |w| <= |inner.data|
      modifies inner
      ensures inner.data == Overlay(data, at, w + more) && inner.pos == at + |w + more| <= |inner.data|
    {
      OverlayTwice(data, at, w, more);
      inner.WriteAll(more);
    }

    /** The write loop: full chunks under the counters 0, 1, 2, ..., then the last one. */
    method SealChunks(reader: File, nonce: Bytes) returns (count: Option<nat>)
      requires reader != inner && inner.pos <= |inner.data|
      modifies inner, reader`pos
      ensures
        var p := old(reader.Rest());
        var written := WriteFrom(aead, nonce, 0, p);
        && inner.data == Overlay(old(inner.data), old(inner.pos), written.bytes)
        && count == (if written.ok then Some(|p|) else None)
    {
      ghost var w, c, want := [], reader.Rest(), WriteFrom(aead, nonce, 0, reader.Rest());
      assert want == AfterWritten(w, want);
      hide WriteFrom, AfterWritten, Overlay;
      var total, counter: nat := 0, 0;
      while true
        invariant reader.Rest() == c && total + |c| == |old(reader.Rest())|
        invariant counter <= COUNTER_MAX
        invariant inner.data == Overlay(old(inner.data), old(inner.pos), w)
        invariant inner.pos == old(inner.pos) + |w| <= |inner.data|
        invariant want == AfterWritten(w, WriteFrom(aead, nonce, counter, c))
        decreases |c|
      {
        WriteTurn(aead, nonce, counter, w, c);
        var buffer := reader.ReadUpTo(PLAIN_CHUNK_SIZE);
        total := total + |buffer|;
        if |buffer| == PLAIN_CHUNK_SIZE {
          if counter == COUNTER_MAX {
            return None;
          }
          var ciphertext := aead.seal(nonce, counter, false, buffer);
          WriteMore(ciphertext, old(inner.data), old(inner.pos), w);
          w := w + ciphertext;
          c := c[PLAIN_CHUNK_SIZE..];
          counter := counter + 1;
        } else {
          var ciphertext := aead.seal(nonce, counter, true, buffer);
          WriteMore(ciphertext, old(inner.data), old(inner.pos), w);
          return Some(total);
        }
      }
    }

    /**
     * Encrypts what is left of reader under a fresh nonce. Returns the number of plaintext bytes, or
     * nothing when the chunk counter runs out, with the chunks sealed so far left in the file.
     */
    method CopyFrom(reader: File, nonce: Bytes) returns (count: Option<nat>)
      requires reader != inner && inner.pos <= |inner.data|
      modifies inner, reader`pos
      ensures
        var p := old(reader.Rest());
        && inner.data == Overlay(old(inner.data), old(inner.pos), nonce + WriteFrom(aead, nonce, 0, p).bytes)
        && count == (if HasRoom(0, p) then Some(|p|) else None)
    {
      ghost var written := WriteFrom(aead, nonce, 0, reader.Rest());
      WriteFromSucceeds(aead, nonce, 0, reader.Rest());
      OverlayTwice(inner.data, inner.pos, nonce, written.bytes);
      inner.WriteAll(nonce);
      count := SealChunks(reader, nonce);
    }

    /** Reads the nonce at the front of the file. */
    method RetrieveNonce() returns (nonce: Option<Bytes>)
      modifies inner`pos
      ensures
        var rest := old(inner.Rest());
        if |rest| < NONCE_SIZE then nonce == None
        else nonce == Some(rest[..NONCE_SIZE]) && inner.Rest() == rest[NONCE_SIZE..]
    {
      nonce := inner.ReadExact(NONCE_SIZE);
    }

    /** Reads and opens one chunk; a full one must not use the counter kept for the last. */
    method OpenNext(nonce: Bytes, counter: nat) returns (step: Step, read: nat)
      modifies inner`pos
      ensures step == OpenStep(aead, nonce, counter, old(inner.Rest()))
      ensures step.Go? ==> inner.Rest() == old(inner.Rest())[ENCRYPTED_CHUNK_SIZE..] && read == ENCRYPTED_CHUNK_SIZE
      ensures step.Stop? && step.ending == Clean ==> read == |old(inner.Rest())|
    {
      var buffer := inner.ReadUpTo(ENCRYPTED_CHUNK_SIZE);
      read := |buffer|;
      if |buffer| == ENCRYPTED_CHUNK_SIZE {
        var text := if counter >= COUNTER_MAX then None else aead.open(nonce, counter, false, buffer);
        step := if text.None? then Stop([], Failed) else Go(text.value);
      } else if buffer == [] {
        step := Stop([], Clean);
      } else {
        var text := aead.open(nonce, counter, true, buffer);
        step := if text.None? then Stop([], Failed) else Stop([text.value], Clean);
      }
    }

    /** Decrypts the file from its front, one buffer per chunk. */
    method IntoStream() returns (items: seq<Bytes>, ending: Ending)
      modifies inner`pos
      ensures Stream(items, ending) == Decrypt(aead, old(inner.Rest()))
    {
      items := [];
      var n := RetrieveNonce();
      if n.None? {
        return items, Failed;
      }
      var nonce, counter: nat := n.value, 0;
      ghost var c, want := inner.Rest(), Decrypt(aead, old(inner.Rest()));
      assert want == After(items, OpenFrom(aead, nonce, counter, c));
      hide OpenStep, OpenFrom, After;
      while true
        invariant inner.Rest() == c
        invariant want == After(items, OpenFrom(aead, nonce, counter, c))
        decreases |c|
      {
        OpenTurn(aead, nonce, counter, items, c);
        var step, _ := OpenNext(nonce, counter);
        if step.Stop? {
          return items + step.items, step.ending;
        }
        c := c[ENCRYPTED_CHUNK_SIZE..];
        items := items + [step.item];
        counter := counter + 1;
      }
    }

    /** Writes the next buffer after the ones already written to data at position at. */
    static method WriteItem(writer: File, item: Bytes, ghost data: Bytes, ghost at: nat, ghost items: seq<Bytes>)
      requires at <= |data| && writer.data == Overlay(data, at, Flatten(items))
      requires writer.pos == at + |Flatten(items)| <= |writer.data|
      modifies writer
      ensures writer.data == Overlay(data, at, Flatten(items + [item]))
      ensures writer.pos == at + |Flatten(items + [item])| <= |writer.data|
    {
      OverlayTwice(data, at, Flatten(items), item);
      FlattenAppend(items, item);
      writer.WriteAll(item);
    }

    /** Writes the last buffer, if there is one. */
    static method WriteLast(writer: File, last: seq<Bytes>, ghost data: Bytes, ghost at: nat, ghost items: seq<Bytes>)
      requires at <= |data| && writer.data == Overlay(data, at, Flatten(items)) && |last| <= 1
      requires writer.pos == at + |Flatten(items)| <= |writer.data|
      modifies writer
      ensures writer.data == Overlay(data, at, Flatten(items + last))
    {
      if last == [] {
        assert items + last == items;
      } else {
        assert items + last == items + [last[0]];
        WriteItem(writer, last[0], data, at, items);
      }
    }

    /**
     * Decrypts the file into writer. Returns the number of encrypted bytes read after the nonce, or nothing
     * on failure.
     */
    method CopyTo(writer: File) returns (count: Option<nat>)
      requires writer != inner && writer.pos <= |writer.data|
      modifies inner`pos, writer
      ensures
        var rest := old(inner.Rest());
        var s := Decrypt(aead, rest);
        && writer.data == Overlay(old(writer.data), old(writer.pos), Flatten(s.items))
        && count == (if s.ending == Clean then Some(|rest| - NONCE_SIZE) else None)
    {
      ghost var items: seq<Bytes> := [];
      assert Flatten(items) == [] && Overlay(writer.data, writer.pos, Flatten(items)) == writer.data;
      var n := RetrieveNonce();
      if n.None? {
        return None;
      }
      var nonce, counter: nat, total := n.value, 0, 0;
      ghost var c, want := inner.Rest(), Decrypt(aead, old(inner.Rest()));
      assert want == After(items, OpenFrom(aead, nonce, counter, c));
      hide Overlay, Flatten, OpenStep, OpenFrom, After;
      while true
        invariant inner.Rest() == c
        invariant total + |c| == |old(inner.Rest())| - NONCE_SIZE
        invariant want == After(items, OpenFrom(aead, nonce, counter, c))
        invariant writer.data == Overlay(old(writer.data), old(writer.pos), Flatten(items))
        invariant writer.pos == old(writer.pos) + |Flatten(items)| <= |writer.data|
        decreases |c|
      {
        OpenTurn(aead, nonce, counter, items, c);
        var step, read := OpenNext(nonce, counter);
        total := total + read;
        if step.Stop? {
          WriteLast(writer, step.items, old(writer.data), old(writer.pos), items);
          return if step.ending.Clean? then Some(total) else None;
        }
        c := c[ENCRYPTED_CHUNK_SIZE..];
        WriteItem(writer, step.item, old(writer.data), old(writer.pos), items);
        items := items + [step.item];
        counter := counter + 1;
      }
    }

    /** Reads and opens one chunk, drops its first offset bytes unless the request starts at 0, and cuts it to size. */
    method NextChunk(nonce: Bytes, counter: nat, offset: nat, fromZero: bool, remaining: nat) returns (step: Step)
      modifies inner`pos
      ensures step == SizedStep(aead, nonce, counter, offset, fromZero, remaining, old(inner.Rest()))
      ensures step.Go? ==> inner.Rest() == old(inner.Rest())[ENCRYPTED_CHUNK_SIZE..]
    {
      var buffer := inner.ReadUpTo(ENCRYPTED_CHUNK_SIZE);
      if buffer == [] {
        return Stop([], Clean);
      }
      var full := |buffer| == ENCRYPTED_CHUNK_SIZE;
      var text := aead.open(nonce, AsU32(counter), !full, buffer);
      if text.None? {
        return Stop([], Failed);
      }
      var plaintext := text.value;
      if !fromZero {
        if offset > |plaintext| {
          return Stop([], Panicked);
        }
        plaintext := plaintext[offset..];
      }
      if full && remaining >= |plaintext| {
        return Go(plaintext);
      }
      step := Stop([Take(plaintext, remaining)], Clean);
    }

    /** The loop of IntoStreamSized, from the beginning of a chunk on. */
    method OpenChunks(nonce: Bytes, first: nat, drop: nat, fromZero: bool, maxLength: nat)
      returns (items: seq<Bytes>, ending: Ending)
      modifies inner`pos
      ensures Stream(items, ending) == OpenSized(aead, nonce, first, drop, fromZero, maxLength, old(inner.Rest()))
    {
      hide SizedStep;
      items := [];
      var counter: nat, offset: nat, remaining: nat := first, drop, maxLength;
      ghost var c := inner.Rest();
      ghost var want := OpenSized(aead, nonce, first, drop, fromZero, maxLength, c);
      while true
        invariant inner.Rest() == c
        invariant want == After(items, OpenSized(aead, nonce, counter, offset, fromZero, remaining, c))
        decreases |c|
      {
        if remaining == 0 {
          AfterEnds(items, Clean);
          return items, Clean;
        }
        var step := NextChunk(nonce, counter, offset, fromZero, remaining);
        if step.Stop? {
          return items + step.items, step.ending;
        }
        counter := counter + 1;
        offset := if fromZero then offset else 0;
        remaining := remaining - |step.item|;
        c := c[ENCRYPTED_CHUNK_SIZE..];
        AfterNext(items, step.item, OpenSized(aead, nonce, counter, offset, fromZero, remaining, c));
        items := items + [step.item];
      }
    }

    /** Decrypts maxLength bytes from plaintext position start on, reading only the chunks they lie in. */
    method IntoStreamSized(start: nat, maxLength: nat) returns (items: seq<Bytes>, ending: Ending)
      modifies inner`pos
      ensures Stream(items, ending) == DecryptRange(aead, old(inner.Rest()), inner.data, start, maxLength)
    {
      items := [];
      var n := RetrieveNonce();
      if n.None? {
        return items, Failed;
      }
      var nonce := n.value;
      var position := PositionOf(start);
      var counter: nat, offset: nat := position.counter, position.offset;
      var ok := inner.Seek(position.beginning);
      if !ok {
        return items, Failed;
      }
      items, ending := OpenChunks(nonce, counter, offset, start == 0, maxLength);
    }
  }
}
