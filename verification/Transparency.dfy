/** A dav with a key against one without: request for request, the same answers from paired trees. */
module Transparency {
  import opened ByteStreams
  import opened Ciphers
  import opened ChunkFormat
  import opened FileTrees
  import opened Copying
  import opened Ranges
  import opened Requests

  // ---------------------------------------------------------------- reading one file

  ghost predicate IsEncryption(a: Aead, stored: Bytes, p: Bytes) {
    Accepted(p) && exists nonce: Bytes :: |nonce| == NONCE_SIZE && stored == Encrypt(a, nonce, p)
  }

  /** The stored bytes are what the dav writes for the contents p. */
  ghost predicate Stores(key: Option<Aead>, stored: Bytes, p: Bytes) {
    match key
    case None => stored == p
    case Some(a) => Lawful(a) && IsEncryption(a, stored, p)
  }

  lemma StoredSizeKnown(key: Option<Aead>, stored: Bytes, p: Bytes)
    requires Stores(key, stored, p)
    ensures PlainSize(key, stored) == |p|
    ensures key.Some? ==> WritableSize(|stored|) && |p| < SEEK_LIMIT
  {
    if key.Some? {
      var nonce: Bytes :| |nonce| == NONCE_SIZE && stored == Encrypt(key.value, nonce, p);
      EncryptLength(key.value, nonce, p);
      SizesInvert(|p|);
    }
  }

  /** A range that ends before it starts, or an open one past the end, is answered with the size alone. */
  lemma UnsatisfiableRange(key: Option<Aead>, stored: Bytes, p: Bytes, range: RangeValue, headOnly: bool)
    requires Stores(key, stored, p)
    requires if range.end.Some? then range.end.value < range.start else range.start >= |p|
    ensures SendPart(key, stored, range, headOnly) == Status(416).(range := Some(Unsatisfied(|p|)))
  {
    StoredSizeKnown(key, stored, p);
  }

  lemma RangeBody(key: Option<Aead>, stored: Bytes, p: Bytes, start: nat, length: nat, head: Response)
    requires Stores(key, stored, p) && start <= |p| && start < SEEK_LIMIT && head.ending == Clean
    ensures PartBody(key, stored, start, length, head) == head.(body := Window(p, start, length))
  {
    if key.Some? {
      var nonce: Bytes :| |nonce| == NONCE_SIZE && stored == Encrypt(key.value, nonce, p);
      RangeIsSlice(key.value, nonce, p, start, length);
    }
  }

  lemma SatisfiableNumbers(range: RangeValue, size: nat)
    requires range.start < size < SEEK_LIMIT && (range.end.Some? ==> range.end.value >= range.start)
    ensures PartEnd(range, size) == if range.end.Some? then Min(range.end.value, size - 1) else size - 1
    ensures range.start <= PartEnd(range, size) < size
    ensures
      var end := PartEnd(range, size);
      PartHead(range, size) ==
      Response(206, Some(end - range.start + 1), Some(Part(range.start, end, size)), [], Clean, map[])
  {
  }

  /**
   * A satisfiable range is honoured, from either storage: sections 2.1 and 4.1 of RFC 7233. The end is
   * clamped to the last byte, and the body is that slice, of the announced length.
   */
  lemma SatisfiableRange(key: Option<Aead>, stored: Bytes, p: Bytes, range: RangeValue)
    requires Stores(key, stored, p) && |p| < SEEK_LIMIT
    requires range.start < |p| && (range.end.Some? ==> range.end.value >= range.start)
    ensures
      var end := if range.end.Some? then Min(range.end.value, |p| - 1) else |p| - 1;
      && range.start <= end < |p|
      && SendPart(key, stored, range, false)
         == Response(206, Some(end - range.start + 1), Some(Part(range.start, end, |p|)),
                     p[range.start..end + 1], Clean, map[])
  {
    hide PartBody;
    var end := PartEnd(range, |p|);
    StoredSizeKnown(key, stored, p);
    SatisfiableNumbers(range, |p|);
    RangeBody(key, stored, p, range.start, end - range.start + 1, PartHead(range, |p|));
    assert Window(p, range.start, end - range.start + 1) == p[range.start..end + 1];
  }

  /** An explicit end lets a range through the server's check even when it starts past the end of the file. */
  predicate RangeHazard(range: RangeValue, size: nat, headOnly: bool) {
    !headOnly && range.end.Some? && range.end.value >= range.start && PastEndHazard(size, range.start)
  }

  lemma HazardPastEnd(size: nat, start: nat)
    requires size < U32_SIZE * PLAIN_CHUNK_SIZE
    ensures start <= size ==> !PastEndHazard(size, start)
    ensures start >= SEEK_LIMIT ==> PastEndHazard(size, start)
  {
    var k := start / PLAIN_CHUNK_SIZE;
    assert ChunkStart(k) == NONCE_SIZE + k * PLAIN_CHUNK_SIZE + 16 * k;
    if start >= SEEK_LIMIT {
      assert k >= PLAIN_CHUNK_SIZE;
    }
  }

  /** Past the end the length the server computes has wrapped, but not to zero. */
  lemma PastEndLength(range: RangeValue, size: nat)
    requires size < range.start < U64_SIZE && range.end.Some? && range.start <= range.end.value < U64_SIZE
    ensures PartLength(range, size) > 0
  {
  }

  /** The two ways past the end exclude each other. */
  lemma HazardCases(size: nat, start: nat)
    requires size < U32_SIZE * PLAIN_CHUNK_SIZE && start / PLAIN_CHUNK_SIZE == size / PLAIN_CHUNK_SIZE
    ensures ChunkStart(start / PLAIN_CHUNK_SIZE) < SEEK_LIMIT
  {
  }

  /** Past the end, the two storages agree exactly when there is no hazard. */
  lemma PastEndAnswers(a: Aead, stored: Bytes, p: Bytes, start: nat, length: nat, head: Response)
    requires Lawful(a) && IsEncryption(a, stored, p) && start > |p| && length > 0
    requires head.status == 206 && head.ending == Clean
    ensures PartBody(Some(a), stored, start, length, head) == PartBody(None, p, start, length, head)
      <==> !PastEndHazard(|p|, start)
  {
    HazardPastEnd(|p|, start);
    if start < SEEK_LIMIT {
      var nonce: Bytes :| |nonce| == NONCE_SIZE && stored == Encrypt(a, nonce, p);
      SeekableFits(start);
      RangePastEnd(a, nonce, p, start, length);
      if start / PLAIN_CHUNK_SIZE == |p| / PLAIN_CHUNK_SIZE {
        HazardCases(|p|, start);
      }
    }
  }

  /** The end a range that starts at or past the end of a file is announced with. */
  function AnnouncedEnd(range: RangeValue, size: nat): nat
    requires range.end.Some?
  {
    if size == 0 then range.end.value else size - 1
  }

  lemma PastEndNumbers(range: RangeValue, size: nat)
    requires size <= range.start < U64_SIZE && size < SEEK_LIMIT
    requires range.end.Some? && range.start <= range.end.value < U64_SIZE
    ensures
      var end := AnnouncedEnd(range, size);
      PartHead(range, size) ==
      Response(206, Some(Wrap64(end - range.start + 1)), Some(Part(range.start, end, size)), [], Clean, map[])
    ensures size > 0 ==>
      PartLength(range, size) == if range.start == size then 0 else U64_SIZE - (range.start - size)
  {
  }

  /** The position of what is asked for can be computed, and in a plain file it can be seeked to. */
  predicate Reachable(key: Option<Aead>, start: nat) {
    start < SEEK_LIMIT || (key.Some? && ChunkStart(start / PLAIN_CHUNK_SIZE) < U64_SIZE)
  }

  /** How the empty body of such a range comes to its end. */
  function PastEndEnding(key: Option<Aead>, size: nat, start: nat): Ending {
    if key.None? || start == size then Clean
    else if start / PLAIN_CHUNK_SIZE == size / PLAIN_CHUNK_SIZE then Panicked
    else if ChunkStart(start / PLAIN_CHUNK_SIZE) >= SEEK_LIMIT then Failed
    else Clean
  }

  lemma PastEndBody(key: Option<Aead>, stored: Bytes, p: Bytes, start: nat, length: nat, head: Response)
    requires Stores(key, stored, p) && |p| <= start && (start == |p| || length > 0)
    requires Reachable(key, start) && head.body == [] && head.ending == Clean
    ensures PartBody(key, stored, start, length, head) == head.(ending := PastEndEnding(key, |p|, start))
  {
    StoredSizeKnown(key, stored, p);
    if start == |p| {
      RangeBody(key, stored, p, start, length, head);
    } else if key.Some? {
      if start < SEEK_LIMIT {
        SeekableFits(start);
      }
      var nonce: Bytes :| |nonce| == NONCE_SIZE && stored == Encrypt(key.value, nonce, p);
      RangePastEnd(key.value, nonce, p, start, length);
    }
  }

  /**
   * A range with an explicit end that starts at or past the end of the file is answered 206 with an empty
   * body. Unless the file is empty, the end announced is the last byte of the file, before the start, and
   * the length announced is 0 for a range that starts right at the end, and has wrapped around otherwise.
   * For an empty file, what was asked for is announced.
   */
  lemma RangeAtOrPastEnd(key: Option<Aead>, stored: Bytes, p: Bytes, range: RangeValue)
    requires Stores(key, stored, p) && |p| <= range.start && |p| < SEEK_LIMIT && Reachable(key, range.start)
    requires range.end.Some? && range.start <= range.end.value < U64_SIZE
    ensures
      var end := AnnouncedEnd(range, |p|);
      var length := if p == [] then Wrap64(end - range.start + 1)
                    else if range.start == |p| then 0
                    else U64_SIZE - (range.start - |p|);
      SendPart(key, stored, range, false) ==
      Response(206, Some(length), Some(Part(range.start, end, |p|)), [], PastEndEnding(key, |p|, range.start), map[])
  {
    hide PartBody;
    StoredSizeKnown(key, stored, p);
    PastEndNumbers(range, |p|);
    if range.start > |p| {
      PastEndLength(range, |p|);
    }
    PastEndBody(key, stored, p, range.start, PartLength(range, |p|), PartHead(range, |p|));
  }

  /** Section 4.1 of RFC 7233: a 206 answer announces the bytes it carries, and they lie in the file. */
  ghost predicate HonestPart(r: Response, p: Bytes) {
    && r.status == 206 && r.ending == Clean
    && r.range.Some? && r.range.value.Part?
    && var part := r.range.value;
       && part.start <= part.end < part.size == |p|
       && r.length == Some(part.end - part.start + 1) && r.body == p[part.start..part.end + 1]
  }

  lemma DishonestPart(key: Option<Aead>, stored: Bytes, p: Bytes, range: RangeValue)
    requires PlainSize(key, stored) == |p| <= range.start
    ensures !HonestPart(SendPart(key, stored, range, false), p)
  {
  }

  lemma UnsatisfiedNotHonest(p: Bytes, size: nat)
    ensures !HonestPart(Status(416).(range := Some(Unsatisfied(size))), p)
  {
  }

  lemma SliceHonest(p: Bytes, start: nat, end: nat)
    requires start <= end < |p|
    ensures HonestPart(
      Response(206, Some(end - start + 1), Some(Part(start, end, |p|)), p[start..end + 1], Clean, map[]), p)
  {
  }

  /** A range is answered honestly, from either storage, exactly when it starts in the file and does not end before. */
  lemma PartHonest(key: Option<Aead>, stored: Bytes, p: Bytes, range: RangeValue)
    requires Stores(key, stored, p) && |p| < SEEK_LIMIT
    ensures HonestPart(SendPart(key, stored, range, false), p) <==>
      range.start < |p| && (range.end.Some? ==> range.end.value >= range.start)
  {
    hide HonestPart, PartBody;
    StoredSizeKnown(key, stored, p);
    if range.start >= |p| {
      DishonestPart(key, stored, p, range);
    } else if range.end.Some? && range.end.value < range.start {
      UnsatisfiableRange(key, stored, p, range, false);
      UnsatisfiedNotHonest(p, |p|);
    } else {
      SatisfiableRange(key, stored, p, range);
      SliceHonest(p, range.start, if range.end.Some? then Min(range.end.value, |p| - 1) else |p| - 1);
    }
  }

  /** Whatever the Range header, a GET answered 206 is answered honestly exactly when the range starts in the file. */
  lemma FileHonest(key: Option<Aead>, stored: Bytes, p: Bytes, rangeHeader: string)
    requires Stores(key, stored, p) && |p| < SEEK_LIMIT
    requires SendFile(key, stored, Some(rangeHeader), false).status == 206
    ensures ParseRange(rangeHeader).Some?
    ensures HonestPart(SendFile(key, stored, Some(rangeHeader), false), p)
      <==> ParseRange(rangeHeader).value.start < |p|
  {
    hide HonestPart;
    if ParseRange(rangeHeader).Some? {
      PartHonest(key, stored, p, ParseRange(rangeHeader).value);
    }
  }

  lemma PrintDigit(n: nat)
    requires n < 10
    ensures Print(n) == ['0' + n as char]
  {
  }

  lemma DigitRange(s: nat, e: nat)
    requires s < 10 && e < 10
    ensures ParseRange("bytes=" + ['0' + s as char, '-', '0' + e as char]) == Some(RangeValue(s, Some(e)))
  {
    PrintDigit(s);
    PrintDigit(e);
    assert "bytes=" + Print(s) + "-" + Print(e) == "bytes=" + ['0' + s as char, '-', '0' + e as char];
    ParseClosedRange(s, e);
  }

  /** A range right after the last of three bytes: the last byte, number 2, is announced as the end. */
  lemma EndBeforeStart(key: Option<Aead>, stored: Bytes, p: Bytes)
    requires Stores(key, stored, p) && |p| == 3
    ensures SendFile(key, stored, Some("bytes=3-9"), false) ==
      Response(206, Some(0), Some(Part(3, 2, 3)), [], Clean, map[])
  {
    DigitRange(3, 9);
    assert "bytes=" + ['0' + 3 as char, '-', '0' + 9 as char] == "bytes=3-9";
    RangeAtOrPastEnd(key, stored, p, RangeValue(3, Some(9)));
  }

  /** Six bytes announced of an empty file. */
  lemma BytesOfNothing(key: Option<Aead>, stored: Bytes)
    requires Stores(key, stored, [])
    ensures SendFile(key, stored, Some("bytes=0-5"), false) ==
      Response(206, Some(6), Some(Part(0, 5, 0)), [], Clean, map[])
  {
    DigitRange(0, 5);
    assert "bytes=" + ['0' + 0 as char, '-', '0' + 5 as char] == "bytes=0-5";
    RangeAtOrPastEnd(key, stored, [], RangeValue(0, Some(5)));
  }

  /** A plain dav, asked for a range it admits from a position that cannot be seeked to. */
  predicate SeekRefused(key: Option<Aead>, size: nat, rangeHeader: Option<string>) {
    key.None? && rangeHeader.Some? &&
    match ParseRange(rangeHeader.value)
    case None => false
    case Some(range) => Admitted(range, size) && range.start >= SEEK_LIMIT
  }

  /**
   * HEAD is answered as GET is, without the body: section 4.3.2 of RFC 7231. The exception is a refused seek:
   * there GET is answered 500 and HEAD 206.
   */
  lemma HeadIsGet(key: Option<Aead>, stored: Bytes, rangeHeader: Option<string>)
    ensures SendFile(key, stored, rangeHeader, true)
         == SendFile(key, stored, rangeHeader, false).(body := [], ending := Clean)
      <==> !SeekRefused(key, PlainSize(key, stored), rangeHeader)
    ensures SeekRefused(key, PlainSize(key, stored), rangeHeader) ==>
      && SendFile(key, stored, rangeHeader, true).status == 206
      && SendFile(key, stored, rangeHeader, false) == Status(500)
  {
    hide DecryptRange, Decrypt, PartEnd, PartLength;
  }

  /** A range from the encrypted file and from the plain one get the same answer, unless it is a hazard. */
  lemma PartTransparent(a: Aead, stored: Bytes, p: Bytes, range: RangeValue, headOnly: bool)
    requires Lawful(a) && IsEncryption(a, stored, p)
    requires range.start < U64_SIZE && (range.end.Some? ==> range.end.value < U64_SIZE)
    ensures SendPart(Some(a), stored, range, headOnly) == SendPart(None, p, range, headOnly)
      <==> !RangeHazard(range, |p|, headOnly)
  {
    StoredSizeKnown(Some(a), stored, p);
    HazardPastEnd(|p|, range.start);
    if !headOnly && Admitted(range, |p|) {
      if range.start <= |p| {
        RangeBody(Some(a), stored, p, range.start, PartLength(range, |p|), PartHead(range, |p|));
        RangeBody(None, p, p, range.start, PartLength(range, |p|), PartHead(range, |p|));
      } else {
        PastEndLength(range, |p|);
        PastEndAnswers(a, stored, p, range.start, PartLength(range, |p|), PartHead(range, |p|));
      }
    }
  }

  predicate HeaderHazard(rangeHeader: Option<string>, size: nat, headOnly: bool) {
    rangeHeader.Some? && ParseRange(rangeHeader.value).Some?
      && RangeHazard(ParseRange(rangeHeader.value).value, size, headOnly)
  }

  /**
   * The printed ranges that are a hazard to a file of the given size: those that do not end before they
   * start, with numbers that fit 64 bits, and start past the end in the span of the last chunk or where no
   * file can be read.
   */
  lemma PrintedHazard(start: nat, end: nat, size: nat)
    ensures HeaderHazard(Some("bytes=" + Print(start) + "-" + Print(end)), size, false)
      <==> start <= end < U64_SIZE && PastEndHazard(size, start)
  {
    ParseClosedRange(start, end);
  }

  /** One that a client can send for a file of three bytes. */
  lemma HazardExists()
    ensures HeaderHazard(Some("bytes=5-9"), 3, false)
  {
    DigitRange(5, 9);
    assert "bytes=" + ['0' + 5 as char, '-', '0' + 9 as char] == "bytes=5-9";
  }

  /**
   * Encryption is transparent to readers: GET and HEAD on the encrypted file and on the plain one get
   * the same status, Content-Length, Content-Range and body, for every Range header that is not a hazard.
   */
  lemma FileTransparent(a: Aead, stored: Bytes, p: Bytes, rangeHeader: Option<string>, headOnly: bool)
    requires Lawful(a) && IsEncryption(a, stored, p)
    ensures SendFile(Some(a), stored, rangeHeader, headOnly) == SendFile(None, p, rangeHeader, headOnly)
      <==> !HeaderHazard(rangeHeader, |p|, headOnly)
  {
    StoredSizeKnown(Some(a), stored, p);
    if rangeHeader.Some? && ParseRange(rangeHeader.value).Some? {
      ParsedRangeBounded(rangeHeader.value);
      PartTransparent(a, stored, p, ParseRange(rangeHeader.value).value, headOnly);
    } else {
      var nonce: Bytes :| |nonce| == NONCE_SIZE && stored == Encrypt(a, nonce, p);
      DecryptUndoesEncrypt(a, nonce, p);
    }
  }

  // ---------------------------------------------------------------- paired trees

  ghost predicate NodePair(a: Aead, k: Node, p: Node) {
    match (k, p)
    case (Dir, Dir) => true
    case (File(stored), File(content)) => IsEncryption(a, stored, content)
    case _ => false
  }

  ghost predicate PairAt(a: Aead, k: Tree, p: Tree, q: Path) {
    (q in k <==> q in p) && (q in k ==> NodePair(a, k[q], p[q]))
  }

  /** The same tree twice: once with encrypted files, once with their contents. */
  ghost predicate TreePair(a: Aead, k: Tree, p: Tree) {
    forall q :: PairAt(a, k, p, q)
  }

  lemma SameKinds(a: Aead, k: Tree, p: Tree, q: Path)
    requires TreePair(a, k, p)
    ensures (q in k <==> q in p) && (IsDir(k, q) <==> IsDir(p, q)) && (IsFile(k, q) <==> IsFile(p, q))
    ensures ParentIsDir(k, q) <==> ParentIsDir(p, q)
    ensures ParentExists(k, q) <==> ParentExists(p, q)
  {
    assert PairAt(a, k, p, q);
    if q != [] {
      assert PairAt(a, k, p, Parent(q));
    }
  }

  lemma WellFormedPair(a: Aead, k: Tree, p: Tree)
    requires TreePair(a, k, p) && WellFormed(p)
    ensures WellFormed(k)
  {
    forall q
      ensures q in k ==> ParentIsDir(k, q)
    {
      SameKinds(a, k, p, q);
    }
    SameKinds(a, k, p, []);
  }

  lemma DecryptedWellFormed(a: Aead, k: Tree, p: Tree)
    requires TreePair(a, k, p) && WellFormed(k)
    ensures WellFormed(p)
  {
    forall q
      ensures q in p ==> ParentIsDir(p, q)
    {
      SameKinds(a, k, p, q);
    }
    SameKinds(a, k, p, []);
  }

  lemma SameChildren(a: Aead, k: Tree, p: Tree, q: Path)
    requires TreePair(a, k, p)
    ensures Children(k, q) == Children(p, q) && Below(k, q) == Below(p, q)
  {
    forall x ensures x in k <==> x in p {
      assert PairAt(a, k, p, x);
    }
  }

  lemma PutPair(a: Aead, k: Tree, p: Tree, q: Path, nk: Node, np: Node)
    requires TreePair(a, k, p) && NodePair(a, nk, np)
    ensures TreePair(a, k[q := nk], p[q := np])
  {
    var ku, pu := k[q := nk], p[q := np];
    forall x ensures PairAt(a, ku, pu, x) {
      assert PairAt(a, k, p, x);
    }
  }

  lemma WithoutPair(a: Aead, k: Tree, p: Tree, q: Path)
    requires TreePair(a, k, p)
    ensures TreePair(a, Without(k, q), Without(p, q))
  {
    forall x ensures PairAt(a, Without(k, q), Without(p, q), x) {
      assert PairAt(a, k, p, x);
    }
  }

  lemma GraftPair(a: Aead, bk: Tree, bp: Tree, k: Tree, p: Tree, s: Path, d: Path, nodes: set<Path>)
    requires TreePair(a, bk, bp) && TreePair(a, k, p)
    requires forall x | x in nodes :: x in k && x in p && s <= x
    ensures TreePair(a, Graft(bk, k, s, d, nodes), Graft(bp, p, s, d, nodes))
  {
    forall q ensures PairAt(a, Graft(bk, k, s, d, nodes), Graft(bp, p, s, d, nodes), q) {
      assert PairAt(a, bk, bp, q);
      if d <= q {
        assert PairAt(a, k, p, Origin(s, d, q));
      }
    }
  }

  lemma CreateDirPair(a: Aead, k: Tree, p: Tree, q: Path)
    requires TreePair(a, k, p)
    ensures CreateDir(k, q).ok == CreateDir(p, q).ok && TreePair(a, CreateDir(k, q).tree, CreateDir(p, q).tree)
  {
    SameKinds(a, k, p, q);
    PutPair(a, k, p, q, Dir, Dir);
  }

  lemma {:induction false} CreateDirAllPair(a: Aead, k: Tree, p: Tree, q: Path)
    requires TreePair(a, k, p)
    ensures CreateDirAll(k, q).ok == CreateDirAll(p, q).ok
      && TreePair(a, CreateDirAll(k, q).tree, CreateDirAll(p, q).tree)
    decreases |q|
  {
    SameKinds(a, k, p, q);
    if q !in p {
      if q == [] {
        PutPair(a, k, p, q, Dir, Dir);
      } else {
        CreateDirAllPair(a, k, p, Parent(q));
        PutPair(a, CreateDirAll(k, Parent(q)).tree, CreateDirAll(p, Parent(q)).tree, q, Dir, Dir);
      }
    }
  }

  lemma CopyFilePair(a: Aead, k: Tree, p: Tree, src: Path, dst: Path)
    requires TreePair(a, k, p) && src != dst
    ensures CopyFile(k, src, dst).ok == CopyFile(p, src, dst).ok
    ensures TreePair(a, CopyFile(k, src, dst).tree, CopyFile(p, src, dst).tree)
  {
    SameKinds(a, k, p, src);
    SameKinds(a, k, p, dst);
    if CopyFile(p, src, dst).ok {
      assert PairAt(a, k, p, src);
      PutPair(a, k, p, dst, k[src], p[src]);
      assert k[dst := File([])][dst := k[src]] == k[dst := k[src]];
      assert p[dst := File([])][dst := p[src]] == p[dst := p[src]];
    }
  }

  lemma SameReach(a: Aead, k: Tree, p: Tree, s: Path, top: Path)
    requires TreePair(a, k, p)
    ensures Reach(k, s, top) == Reach(p, s, top)
    ensures (forall x | x in Reach(k, s, top) :: k[x].Dir?) <==> (forall x | x in Reach(p, s, top) :: p[x].Dir?)
  {
    forall x
      ensures x in k <==> x in p
      ensures x in k ==> (k[x].Dir? <==> p[x].Dir?)
    {
      assert PairAt(a, k, p, x);
    }
  }

  lemma CopyResultPair(a: Aead, k: Tree, p: Tree, s: Path, top: Path, d: Path, destIsDir: bool, depth: Depth)
    requires TreePair(a, k, p)
    requires IsFile(p, s) && s != top ==> s != if destIsDir && s != [] then d + [s[|s| - 1]] else d
    ensures
      var rk, rp := CopyResult(k, s, top, d, destIsDir, depth), CopyResult(p, s, top, d, destIsDir, depth);
      rk.ok == rp.ok && TreePair(a, rk.tree, rp.tree)
  {
    SameKinds(a, k, p, s);
    CreateDirPair(a, k, p, d);
    if s in p && s != top {
      if IsFile(p, s) {
        if destIsDir && s != [] {
          CopyFilePair(a, CreateDir(k, d).tree, CreateDir(p, d).tree, s, d + [s[|s| - 1]]);
        } else if !destIsDir {
          CopyFilePair(a, k, p, s, d);
        }
      } else {
        SameReach(a, k, p, s, top);
        GraftPair(a, k, p, k, p, s, d, Reach(p, s, top));
      }
    }
  }

  lemma RenamePair(a: Aead, k: Tree, p: Tree, s: Path, d: Path)
    requires TreePair(a, k, p)
    ensures Rename(k, s, d).ok == Rename(p, s, d).ok && TreePair(a, Rename(k, s, d).tree, Rename(p, s, d).tree)
  {
    SameKinds(a, k, p, s);
    SameKinds(a, k, p, d);
    SameChildren(a, k, p, d);
    SameChildren(a, k, p, s);
    if Rename(p, s, d).ok && s != d {
      WithoutPair(a, k, p, s);
      WithoutPair(a, Without(k, s), Without(p, s), d);
      GraftPair(a, Without(Without(k, s), d), Without(Without(p, s), d), k, p, s, d, Below(p, s));
    }
  }

  // ---------------------------------------------------------------- paired requests

  /** COPY of a file with the collection it is in as destination copies the file onto itself. */
  predicate SelfCopy(t: Tree, s: Path, d: Path, header: Option<Depth>, overwrite: bool) {
    IsFile(t, s) && s != [] && d == Parent(s) && overwrite && CopyDepth(header, true).Some?
  }

  lemma NoSelfCopy(t: Tree, s: Path, d: Path, header: Option<Depth>, overwrite: bool)
    requires WellFormed(t) && s in t && s != d && (overwrite || d !in t)
    requires CopyDepth(header, true).Some? && !SelfCopy(t, s, d, header, overwrite)
    ensures IsFile(t, s) && s != [] && !IsFile(t, d) ==> s != d + [s[|s| - 1]]
  {
    assert ParentIsDir(t, s);
    assert s != [] && s == d + [s[|s| - 1]] ==> d == Parent(s);
  }

  lemma CopyMovePair(a: Aead, k: Tree, p: Tree, s: Path, dest: Option<Path>, header: Option<Depth>,
          overwrite: bool, isCopy: bool)
    requires TreePair(a, k, p) && WellFormed(p) && s in p
    requires !(isCopy && dest.Some? && SelfCopy(p, s, dest.value, header, overwrite))
    ensures
      var ck, cp := CopyMove(k, s, dest, header, overwrite, isCopy), CopyMove(p, s, dest, header, overwrite, isCopy);
      ck.status == cp.status && TreePair(a, ck.tree, cp.tree)
  {
    var depth := CopyDepth(header, isCopy);
    if depth.Some? && dest.Some? {
      var d := dest.value;
      SameKinds(a, k, p, s);
      SameKinds(a, k, p, d);
      WithoutPair(a, k, p, d);
      var cp, ck := Cleared(p, s, d, depth.value, overwrite), Cleared(k, s, d, depth.value, overwrite);
      assert TreePair(a, ck, cp);
      if ParentExists(p, d) && (overwrite || d !in p) && s != d {
        if isCopy {
          NoSelfCopy(p, s, d, header, overwrite);
          CopyResultPair(a, ck, cp, s, d, d, !IsFile(p, d), depth.value);
        } else {
          RenamePair(a, ck, cp, s, d);
        }
      }
    }
  }

  lemma NotEmpty(a: Aead, content: Bytes)
    requires Lawful(a)
    ensures !IsEncryption(a, [], content)
  {
    if IsEncryption(a, [], content) {
      StoredSizeKnown(Some(a), [], content);
    }
  }

  /** A file copied onto itself is emptied, which no encrypted file ever is. */
  lemma SelfCopyBreaks(a: Aead, k: Tree, s: Path, d: Path, header: Option<Depth>, overwrite: bool)
    requires Lawful(a) && WellFormed(k) && SelfCopy(k, s, d, header, overwrite)
    ensures CopyMove(k, s, Some(d), header, overwrite, true).tree == k[s := File([])]
    ensures forall content :: !IsEncryption(a, [], content)
  {
    assert ParentIsDir(k, s);
    assert d + [s[|s| - 1]] == s;
    assert k[s := File([])][s := File([])] == k[s := File([])];
    assert d == [] || ParentIsDir(k, d);
    forall content
      ensures !IsEncryption(a, [], content)
    {
      NotEmpty(a, content);
    }
  }

  lemma EnsureParentPair(a: Aead, k: Tree, p: Tree, q: Path)
    requires TreePair(a, k, p)
    ensures EnsureParent(k, q).ok == EnsureParent(p, q).ok
    ensures TreePair(a, EnsureParent(k, q).tree, EnsureParent(p, q).tree)
    ensures PutWrites(k, q) <==> PutWrites(p, q)
  {
    SameKinds(a, k, p, q);
    if q != [] {
      CreateDirAllPair(a, k, p, Parent(q));
    }
    SameKinds(a, EnsureParent(k, q).tree, EnsureParent(p, q).tree, q);
  }

  /** A PUT keeps the trees paired and is answered alike exactly when it writes nothing or the counter suffices. */
  lemma UploadPair(a: Aead, k: Tree, p: Tree, q: Path, body: Bytes, nonce: Bytes)
    requires Lawful(a) && TreePair(a, k, p) && |nonce| == NONCE_SIZE
    ensures
      var uk, up := Upload(Some(a), k, q, body, nonce), Upload(None, p, q, body, nonce);
      (PutWrites(p, q) ==> Accepted(body)) <==> uk.status == up.status && TreePair(a, uk.tree, up.tree)
  {
    EnsureParentPair(a, k, p, q);
    WriteFromSeals(a, nonce, 0, body);
    if PutWrites(p, q) && Accepted(body) {
      var ek, ep := EnsureParent(k, q).tree, EnsureParent(p, q).tree;
      assert IsEncryption(a, Encrypt(a, nonce, body), body);
      PutPair(a, ek, ep, q, File(Encrypt(a, nonce, body)), File(body));
      assert ek[q := File([])][q := File(Encrypt(a, nonce, body))] == ek[q := File(Encrypt(a, nonce, body))];
      assert ep[q := File([])][q := File(body)] == ep[q := File(body)];
    }
  }

  lemma PropfindPair(a: Aead, k: Tree, p: Tree, q: Path, level: PropfindDepth)
    requires Lawful(a) && TreePair(a, k, p)
    ensures PropfindResponse(Some(a), k, q, level) == PropfindResponse(None, p, q, level)
  {
    SameKinds(a, k, p, q);
    SameChildren(a, k, p, q);
    forall x | x in k
      ensures x in p && ItemSize(Some(a), k[x]) == ItemSize(None, p[x])
    {
      assert PairAt(a, k, p, x);
      if k[x].File? {
        StoredSizeKnown(Some(a), k[x].content, p[x].content);
      }
    }
    forall x
      ensures x in k <==> x in p
    {
      assert PairAt(a, k, p, x);
    }
  }

  /** The requests that tell a dav with a key from one without, on the tree t of the plain one. */
  ghost predicate Telling(writable: bool, t: Tree, req: Request) {
    req.path.Some? &&
    match req
    case Get(path, rangeHeader, headOnly) =>
      IsFile(t, path.value) && HeaderHazard(rangeHeader, |t[path.value].content|, headOnly)
    case Put(path, body, _) => writable && PutWrites(t, path.value) && !Accepted(body)
    case Copy(path, dest, depth, overwrite) => writable && dest.Some?
      && SelfCopy(t, path.value, dest.value, depth, overwrite)
    case _ => false
  }

  predicate NonceFits(req: Request) {
    req.Put? ==> |req.nonce| == NONCE_SIZE
  }

  lemma RemoveFilePair(a: Aead, k: Tree, p: Tree, q: Path)
    requires TreePair(a, k, p)
    ensures TreePair(a, k - {q}, p - {q})
  {
    forall x ensures PairAt(a, k - {q}, p - {q}, x) {
      assert PairAt(a, k, p, x);
    }
  }

  lemma SelfCopyTells(a: Aead, k: Tree, p: Tree, s: Path, d: Path, header: Option<Depth>, overwrite: bool)
    requires Lawful(a) && TreePair(a, k, p) && WellFormed(p) && SelfCopy(p, s, d, header, overwrite)
    ensures !TreePair(a, CopyMove(k, s, Some(d), header, overwrite, true).tree,
                         CopyMove(p, s, Some(d), header, overwrite, true).tree)
  {
    WellFormedPair(a, k, p);
    SameKinds(a, k, p, s);
    SelfCopyBreaks(a, k, s, d, header, overwrite);
    SelfCopyBreaks(a, p, s, d, header, overwrite);
    var ck, cp := k[s := File([])], p[s := File([])];
    assert !PairAt(a, ck, cp, s);
  }

  /** One request: same answer and trees still paired, exactly when the request is not a telling one. */
  lemma ServePair(a: Aead, writable: bool, k: Tree, p: Tree, req: Request)
    requires Lawful(a) && TreePair(a, k, p) && WellFormed(p) && NonceFits(req)
    ensures
      var sk, sp := Serve(Config(Some(a), writable), k, req), Serve(Config(None, writable), p, req);
      sk.response == sp.response && TreePair(a, sk.tree, sp.tree) <==> !Telling(writable, p, req)
  {
    if req.path.Some? {
      var q := req.path.value;
      SameKinds(a, k, p, q);
      match req {
        case Get(_, rangeHeader, headOnly) =>
          if IsFile(p, q) {
            assert PairAt(a, k, p, q);
            FileTransparent(a, k[q].content, p[q].content, rangeHeader, headOnly);
          }
        case Put(_, body, nonce) =>
          UploadPair(a, k, p, q, body, nonce);
        case Delete(_) =>
          WithoutPair(a, k, p, q);
          RemoveFilePair(a, k, p, q);
        case Mkcol(_, _) =>
          CreateDirPair(a, k, p, q);
        case Copy(_, dest, depth, overwrite) =>
          if Telling(writable, p, req) {
            SelfCopyTells(a, k, p, q, dest.value, depth, overwrite);
          } else if writable && q in p {
            CopyMovePair(a, k, p, q, dest, depth, overwrite, true);
          }
        case Move(_, dest, depth, overwrite) =>
          if q in p {
            CopyMovePair(a, k, p, q, dest, depth, overwrite, false);
          }
        case Propfind(_, level) =>
          PropfindPair(a, k, p, q, level);
      }
    }
  }
}
