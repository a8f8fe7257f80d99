/** What every request is answered, on any tree and in any dav, and what the answer means. */
module Answers {
  import opened ByteStreams
  import opened Ciphers
  import opened ChunkFormat
  import opened StoredChunks
  import opened FileTrees
  import opened Copying
  import opened CopyMeaning
  import opened Ranges
  import opened Requests
  import opened Transparency
  import opened Effects

  // ---------------------------------------------------------------- refusals

  predicate Writes(req: Request) {
    !req.Get? && !req.Propfind?
  }

  /** Without a path nothing is done, and neither is anything written to a read-only dav: both are forbidden. */
  lemma Forbidden(config: Config, t: Tree, req: Request)
    requires req.path.None? || (Writes(req) && !config.writable)
    ensures Serve(config, t, req) == Served(t, Response(403, None, None, [], Clean, map[]))
  {
  }

  /** What writes is answered with a status alone, and 404 exactly when nothing is there to remove, copy or move. */
  lemma WriteAnswers(config: Config, t: Tree, req: Request)
    requires config.writable && req.path.Some? && Writes(req)
    ensures
      var r := Serve(config, t, req).response;
      && r == Response(r.status, None, None, [], Clean, map[])
      && (r.status == 404 <==> req.path.value !in t && (req.Delete? || req.Copy? || req.Move?))
  {
    hide CopyResult, Rename, Cleared, EnsureParent, CreateFile, WriteFrom;
  }

  // ---------------------------------------------------------------- GET and HEAD

  /** GET and HEAD change nothing; what does not exist is answered 404, and a collection 200 without a body. */
  lemma GetAnswers(config: Config, t: Tree, p: Path, rangeHeader: Option<string>, headOnly: bool)
    ensures
      var s := Serve(config, t, Get(Some(p), rangeHeader, headOnly));
      && s.tree == t
      && (p !in t ==> s.response == Response(404, None, None, [], Clean, map[]))
      && (IsDir(t, p) ==> s.response == Response(200, None, None, [], Clean, map[]))
      && (IsFile(t, p) ==> s.response.status in {200, 206, 416, 500})
  {
    hide DecryptRange, Decrypt, PartEnd, PartLength, ParseRange;
  }

  /** The whole file, under the status 200. */
  function WholeFile(p: Bytes, headOnly: bool): Response {
    Response(200, Some(|p|), None, if headOnly then [] else p, Clean, map[])
  }

  /** The bytes of the file from start to end, both included, under the status 206. */
  function Slice(p: Bytes, start: nat, end: nat, headOnly: bool): Response
    requires start <= end < |p|
  {
    Response(206, Some(end - start + 1), Some(Part(start, end, |p|)), if headOnly then [] else p[start..end + 1], Clean,
             map[])
  }

  function Unsatisfiable(p: Bytes): Response {
    Response(416, None, Some(Unsatisfied(|p|)), [], Clean, map[])
  }

  lemma WholeFileAnswer(key: Option<Aead>, stored: Bytes, p: Bytes, headOnly: bool)
    requires Stores(key, stored, p)
    ensures SendAll(key, stored, headOnly) == WholeFile(p, headOnly)
  {
    StoredSizeKnown(key, stored, p);
    if key.Some? {
      var nonce: Bytes :| |nonce| == NONCE_SIZE && stored == Encrypt(key.value, nonce, p);
      DecryptUndoesEncrypt(key.value, nonce, p);
    }
  }

  lemma SliceAnswer(key: Option<Aead>, stored: Bytes, p: Bytes, range: RangeValue, headOnly: bool)
    requires Stores(key, stored, p) && |p| < SEEK_LIMIT
    requires range.start < |p| && (range.end.Some? ==> range.end.value >= range.start)
    ensures
      var end := if range.end.Some? then Min(range.end.value, |p| - 1) else |p| - 1;
      range.start <= end < |p| && SendPart(key, stored, range, headOnly) == Slice(p, range.start, end, headOnly)
  {
    SatisfiableRange(key, stored, p, range);
    StoredSizeKnown(key, stored, p);
    SatisfiableNumbers(range, |p|);
  }

  /**
   * GET and HEAD for a file that holds p, from either storage, for any Range header: without a range the whole
   * file; a range that starts in the file and does not end before it starts, its slice; and 416 for one that
   * ends before it starts or has no end and starts past the file.
   */
  lemma FileAnswers(config: Config, t: Tree, path: Path, p: Bytes, rangeHeader: Option<string>, headOnly: bool)
    requires IsFile(t, path) && Stores(config.key, t[path].content, p) && |p| < SEEK_LIMIT
    ensures
      var s := Serve(config, t, Get(Some(path), rangeHeader, headOnly));
      var parsed := if rangeHeader.Some? then ParseRange(rangeHeader.value) else None;
      && s.tree == t
      && (parsed.None? ==> s.response == WholeFile(p, headOnly))
      && (parsed.Some? ==>
            var (start, end) := (parsed.value.start, parsed.value.end);
            && (start < |p| && (end.Some? ==> start <= end.value) ==>
                  s.response == Slice(p, start, if end.Some? then Min(end.value, |p| - 1) else |p| - 1, headOnly))
            && ((if end.Some? then end.value < start else |p| <= start) ==> s.response == Unsatisfiable(p)))
  {
    hide SendPart, SendAll, ParseRange;
    var stored := t[path].content;
    match if rangeHeader.Some? then ParseRange(rangeHeader.value) else None {
      case None => WholeFileAnswer(config.key, stored, p, headOnly);
      case Some(range) =>
        if if range.end.Some? then range.end.value < range.start else |p| <= range.start {
          UnsatisfiableRange(config.key, stored, p, range, headOnly);
        } else if range.start < |p| {
          SliceAnswer(config.key, stored, p, range, headOnly);
        }
    }
  }

  /** The headers with two numbers; for those that start at or past the end, see RangeAtOrPastEnd. */
  lemma ClosedRangeAnswers(config: Config, t: Tree, path: Path, p: Bytes, s: nat, e: nat, headOnly: bool)
    requires IsFile(t, path) && Stores(config.key, t[path].content, p) && |p| < SEEK_LIMIT
    requires s < |p| || e < s || e >= U64_SIZE
    ensures Serve(config, t, Get(Some(path), Some("bytes=" + Print(s) + "-" + Print(e)), headOnly)) ==
      Served(t, if s >= U64_SIZE || e >= U64_SIZE then WholeFile(p, headOnly)
                else if e < s then Unsatisfiable(p)
                else Slice(p, s, Min(e, |p| - 1), headOnly))
  {
    ParseClosedRange(s, e);
    FileAnswers(config, t, path, p, Some("bytes=" + Print(s) + "-" + Print(e)), headOnly);
  }

  /** The headers with a start only. */
  lemma OpenRangeAnswers(config: Config, t: Tree, path: Path, p: Bytes, s: nat, headOnly: bool)
    requires IsFile(t, path) && Stores(config.key, t[path].content, p) && |p| < SEEK_LIMIT
    ensures Serve(config, t, Get(Some(path), Some("bytes=" + Print(s) + "-"), headOnly)) ==
      Served(t, if s >= U64_SIZE then WholeFile(p, headOnly)
                else if s < |p| then Slice(p, s, |p| - 1, headOnly)
                else Unsatisfiable(p))
  {
    ParseOpenRange(s);
    FileAnswers(config, t, path, p, Some("bytes=" + Print(s) + "-"), headOnly);
  }

  /**
   * What GET answers for any stored bytes in a dav with a key: the size computed from the stored size, and the
   * contents of the chunks in front of the first one that does not open. There, if there is one, the body breaks
   * off with an error.
   */
  lemma AnyFileAnswers(a: Aead, writable: bool, t: Tree, path: Path, texts: seq<Bytes>)
    requires IsFile(t, path) && LeadingInFile(a, t[path].content, texts)
    ensures
      var stored := t[path].content;
      var complete := |stored| >= NONCE_SIZE && !HasChunk(stored[NONCE_SIZE..], |texts|);
      Serve(Config(Some(a), writable), t, Get(Some(path), None, false)) ==
        Served(t, Response(200, Some(DecryptedSize(|stored|)), None,
                           if |stored| < NONCE_SIZE then [] else Flatten(texts),
                           if complete then Clean else Failed, map[]))
  {
    hide Leading, HasChunk, DecryptedSize;
    DecryptByChunks(a, t[path].content, texts);
  }

  /** The bytes a range of some stored bytes gets. */
  function RangeBytes(stored: Bytes, start: nat, len: nat, texts: seq<Bytes>): Bytes {
    if Opened(stored, start) && RangeEnding(stored, start, len, texts) != Panicked
    then Window(Flatten(texts), start % PLAIN_CHUNK_SIZE, len) else []
  }

  lemma AnyPartBody(a: Aead, stored: Bytes, start: nat, len: nat, head: Response, texts: seq<Bytes>)
    requires start < SEEK_LIMIT && LeadingFrom(a, stored, start, texts)
    ensures PartBody(Some(a), stored, start, len, head) ==
      head.(body := RangeBytes(stored, start, len, texts), ending := RangeEnding(stored, start, len, texts))
  {
    SeekableFits(start);
    hide LeadingFrom, DecryptRange, RangeEnding, Opened, Window;
    RangeByChunks(a, stored, start, len, texts);
  }

  lemma AnyPart(a: Aead, stored: Bytes, range: RangeValue, texts: seq<Bytes>)
    requires range.start < DecryptedSize(|stored|) < SEEK_LIMIT
    requires (range.end.Some? ==> range.start <= range.end.value) && LeadingFrom(a, stored, range.start, texts)
    ensures
      var size := DecryptedSize(|stored|);
      var end := if range.end.Some? then Min(range.end.value, size - 1) else size - 1;
      var len := end - range.start + 1;
      SendPart(Some(a), stored, range, false) ==
        Response(206, Some(len), Some(Part(range.start, end, size)), RangeBytes(stored, range.start, len, texts),
                 RangeEnding(stored, range.start, len, texts), map[])
  {
    hide LeadingFrom, DecryptedSize, RangeEnding, RangeBytes, PartBody;
    var size := DecryptedSize(|stored|);
    SatisfiableNumbers(range, size);
    AnyPartBody(a, stored, range.start, PartEnd(range, size) - range.start + 1, PartHead(range, size), texts);
  }

  /** The same for a range that starts in the file, going by the size computed, and does not end before it starts. */
  lemma AnyRangeAnswers(a: Aead, writable: bool, t: Tree, path: Path, rangeHeader: string, texts: seq<Bytes>)
    requires IsFile(t, path) && ParseRange(rangeHeader).Some?
    requires
      var range := ParseRange(rangeHeader).value;
      && range.start < DecryptedSize(|t[path].content|) < SEEK_LIMIT
      && (range.end.Some? ==> range.start <= range.end.value)
      && LeadingFrom(a, t[path].content, range.start, texts)
    ensures
      var stored, range := t[path].content, ParseRange(rangeHeader).value;
      var size := DecryptedSize(|stored|);
      var end := if range.end.Some? then Min(range.end.value, size - 1) else size - 1;
      var len := end - range.start + 1;
      Serve(Config(Some(a), writable), t, Get(Some(path), Some(rangeHeader), false)) ==
        Served(t, Response(206, Some(len), Some(Part(range.start, end, size)),
                           RangeBytes(stored, range.start, len, texts),
                           RangeEnding(stored, range.start, len, texts), map[]))
  {
    hide LeadingFrom, DecryptedSize, RangeEnding, RangeBytes, SendPart, ParseRange;
    AnyPart(a, t[path].content, ParseRange(rangeHeader).value, texts);
  }

  // ---------------------------------------------------------------- PROPFIND

  /**
   * PROPFIND changes nothing. It lists what was asked for and, unless it is a file or the depth is 0, all that
   * stands directly in it, each file with its size; 404 is for what does not exist, and 400 for a depth of a
   * collection that is no number.
   */
  lemma PropfindAnswers(config: Config, t: Tree, p: Path, level: PropfindDepth)
    ensures
      var s := Serve(config, t, Propfind(Some(p), level));
      var listing := s.response.listing;
      && s.tree == t
      && s.response == Response(s.response.status, None, None, [], Clean, listing)
      && (s.response.status == 404 <==> p !in t)
      && (s.response.status == 400 <==> IsDir(t, p) && level == Malformed)
      && (s.response.status !in {400, 404} ==>
            && s.response.status == 207
            && (forall q :: q in listing <==>
                  q in t && (q == p || (IsDir(t, p) && level != Level(0) && q != [] && Parent(q) == p)))
            && (forall q | q in listing :: q in t && listing[q] ==
                  match t[q]
                  case Dir => None
                  case File(content) => Some(if config.key.Some? then DecryptedSize(|content|) else |content|)))
      && (s.response.status in {400, 404} ==> listing == map[])
  {
    hide DecryptedSize;
    forall q
      ensures q in Children(t, p) <==> q in t && q != [] && Parent(q) == p
    {
      if q != [] && Parent(q) == p {
        assert q[..|p|] == p;
      }
    }
  }

  // ---------------------------------------------------------------- PUT

  /** The way to p up to its parent, as a PUT that succeeds leaves it. */
  lemma {:induction false} CreateDirAllMakesWay(t: Tree, p: Path, n: nat)
    requires WellFormed(t) && CreateDirAll(t, p).ok && n <= |p|
    ensures IsDir(CreateDirAll(t, p).tree, p[..n])
    decreases |p|
  {
    if p in t {
      assert p[..|p|] == p;
      if n < |p| {
        AncestorIsDir(t, p[..n], p);
      }
    } else if p != [] {
      assert p[..|p|] == p;
      if n < |p| {
        CreateDirAllMakesWay(t, Parent(p), n);
        assert Parent(p)[..n] == p[..n];
      }
    } else {
      assert p[..n] == p;
    }
  }

  /**
   * PUT that is answered 201 leaves a file that holds the body at its path, collections on the way to it, and
   * everything else as it was.
   */
  lemma PutStores(config: Config, t: Tree, p: Path, body: Bytes, nonce: Bytes)
    requires WellFormed(t) && |nonce| == NONCE_SIZE && (config.key.Some? ==> Lawful(config.key.value))
    requires Serve(config, t, Put(Some(p), body, nonce)).response.status == 201
    ensures
      var u := Serve(config, t, Put(Some(p), body, nonce)).tree;
      && IsFile(u, p) && Stores(config.key, u[p].content, body)
      && (forall n | 0 <= n < |p| :: IsDir(u, p[..n]))
      && (forall q | !(q <= p) :: SameAt(u, t, q))
  {
    var u := Serve(config, t, Put(Some(p), body, nonce)).tree;
    PutSucceeds(config, t, p, body, nonce);
    var parent := EnsureParent(t, p).tree;
    assert u.Keys == parent.Keys + {p} && forall q | q in u && q != p :: u[q] == parent[q];
    if config.key.Some? {
      WriteFromSeals(config.key.value, nonce, 0, body);
      assert u[p].content == Encrypt(config.key.value, nonce, body);
    }
    CreateDirAllWorks(t, Parent(p));
    forall n | 0 <= n < |p|
      ensures IsDir(u, p[..n])
    {
      CreateDirAllMakesWay(t, Parent(p), n);
      assert Parent(p)[..n] == p[..n];
    }
    forall q | !(q <= p)
      ensures SameAt(u, t, q)
    {
      ServeFrames(config, t, Put(Some(p), body, nonce), q);
    }
  }

  /**
   * The other answers to PUT: 403 for the dav directory, a collection, and a path whose parent is a file; 500
   * when a file stands further up, where the parent is missing, and when the body does not fit the chunk counter.
   */
  lemma PutFails(config: Config, t: Tree, p: Path, body: Bytes, nonce: Bytes)
    requires WellFormed(t) && config.writable
    ensures
      var status := Serve(config, t, Put(Some(p), body, nonce)).response.status;
      && (status == 403 <==> p == [] || IsDir(t, p) || IsFile(t, Parent(p)))
      && (status == 500 <==>
            && p != [] && !IsDir(t, p)
            && if Parent(p) in t then IsDir(t, Parent(p)) && config.key.Some? && !Accepted(body)
               else NoFileOnTheWay(t, Parent(p)) ==> config.key.Some? && !Accepted(body))
      && status in {201, 403, 500}
  {
    if p != [] {
      CreateDirAllWorks(t, Parent(p));
      if ParentExists(t, p) {
        assert CreateDirAll(t, Parent(p)).tree == t;
      } else {
        assert p !in t;
        CreateDirAllFrames(t, Parent(p), p);
      }
      if config.key.Some? {
        WriteFromSucceeds(config.key.value, nonce, 0, body);
      }
    }
  }

  // ---------------------------------------------------------------- COPY and MOVE

  /** The checks of COPY and MOVE, in a writable dav, for a source that exists. */
  predicate PassesChecks(t: Tree, s: Path, dest: Option<Path>, header: Option<Depth>, overwrite: bool, isCopy: bool) {
    && (header in {None, Some(Infinity)} || (isCopy && header == Some(Zero)))
    && dest.Some? && ParentExists(t, dest.value) && (overwrite || dest.value !in t) && s != dest.value
  }

  /** A MOVE that can be carried out. */
  predicate CanMove(t: Tree, s: Path, dest: Option<Path>, header: Option<Depth>, overwrite: bool) {
    && header in {None, Some(Infinity)}
    && dest.Some? && (overwrite || dest.value !in t) && ParentIsDir(t, dest.value)
    && !(s <= dest.value) && !(dest.value <= s)
    && if IsDir(t, s) then !IsFile(t, dest.value) else !IsDir(t, dest.value)
  }

  lemma MoveCarriedOut(t: Tree, s: Path, dest: Option<Path>, header: Option<Depth>, overwrite: bool)
    requires WellFormed(t) && s in t
    ensures
      var r := CopyMove(t, s, dest, header, overwrite, false);
      && (r.status == 201 <==> CanMove(t, s, dest, header, overwrite))
      && (r.status == 201 ==> IsMove(t, r.tree, s, dest.value))
      && r.status != 404
  {
    hide CopyMove, IsMove;
    CheckAnswers(t, s, dest, header, overwrite, false);
    if dest.Some? {
      MoveAnswers(t, s, dest.value, header, overwrite);
      if CanMove(t, s, dest, header, overwrite) {
        MissingDepth(t, s, dest.value, header, overwrite, false);
        MoveOfAnything(t, s, dest.value, overwrite);
      }
    }
  }

  /**
   * A MOVE is answered 201 exactly when the dav is writable, its source exists, its depth is infinity or missing,
   * the overwrite flag allows it, the parent of the destination is a collection, neither path is at or above the
   * other, and the destination is not of the other kind; and then it means what section 9.9 of RFC 4918 says.
   */
  lemma MoveServed(config: Config, t: Tree, s: Path, dest: Option<Path>, header: Option<Depth>, overwrite: bool)
    requires WellFormed(t)
    ensures
      var r := Serve(config, t, Move(Some(s), dest, header, overwrite));
      && (r.response.status == 201 <==> config.writable && s in t && CanMove(t, s, dest, header, overwrite))
      && (r.response.status == 201 ==> IsMove(t, r.tree, s, dest.value))
      && (config.writable ==> (r.response.status == 404 <==> s !in t))
  {
    hide CopyMove, IsMove, CanMove, WellFormed;
    if config.writable && s in t {
      MoveCarriedOut(t, s, dest, header, overwrite);
    }
  }

  /** What a COPY answered 201 or 204 has done. */
  ghost predicate CopyDone(t: Tree, u: Tree, s: Path, d: Path, header: Option<Depth>) {
    if IsFile(t, s) then s != [] && u == FileCopied(t, s, d)
    else if header == Some(Zero) then u == if d !in t && ParentIsDir(t, d) then t[d := Dir] else t
    else if ParentIsDir(t, d) && !IsFile(t, d) then IsCopy(t, u, s, d)
    else u == t
  }

  /** The copies that are answered 201 or 204 once the checks have been passed. */
  predicate CanCopy(t: Tree, s: Path, d: Path, header: Option<Depth>) {
    if IsFile(t, s) then s != [] && ParentIsDir(t, d) && (IsFile(t, d) || !IsDir(t, d + [s[|s| - 1]]))
    else
      || header == Some(Zero)
      || (!(d <= s) && ((ParentIsDir(t, d) && !IsFile(t, d)) || HoldsNoFile(t, s, d)))
  }

  lemma CopyCarriedOut(t: Tree, s: Path, d: Path, header: Option<Depth>, overwrite: bool)
    requires WellFormed(t) && s in t
    ensures
      var r := CopyMove(t, s, Some(d), header, overwrite, true);
      && (r.status in {201, 204} <==> PassesChecks(t, s, Some(d), header, overwrite, true) && CanCopy(t, s, d, header))
      && (r.status in {201, 204} ==> r.status == (if d in t then 204 else 201) && CopyDone(t, r.tree, s, d, header))
  {
    hide CopyMove, IsCopy, HoldsNoFile, FileCopied;
    assert header.Some? ==> header.value.Zero? || header.value.One? || header.value.Infinity?;
    assert ParentIsDir(t, d) ==> ParentExists(t, d);
    if IsFile(t, s) {
      FileCopyAnswers(t, s, d, header, overwrite);
    } else {
      CopyAnswers(t, s, d, header, overwrite);
    }
  }

  /**
   * A COPY is answered 201 or 204 exactly when the dav is writable, its source exists, it passes the checks, and
   * the copy works: of a file, if a file stands at the destination or it can be put into a collection there; of
   * a collection with Depth 0, always; in depth, if the destination is not above the source and it can be made,
   * or there is no file to copy. What it then has done is said for each kind; for a collection in depth that can
   * be made it is what sections 9.8.3 and 9.8.4 of RFC 4918 say.
   */
  lemma CopyServed(config: Config, t: Tree, s: Path, dest: Option<Path>, header: Option<Depth>, overwrite: bool)
    requires WellFormed(t)
    ensures
      var r := Serve(config, t, Copy(Some(s), dest, header, overwrite));
      && (r.response.status in {201, 204} <==>
            && config.writable && s in t
            && PassesChecks(t, s, dest, header, overwrite, true) && CanCopy(t, s, dest.value, header))
      && (r.response.status in {201, 204} ==>
            && r.response.status == (if dest.value in t then 204 else 201)
            && CopyDone(t, r.tree, s, dest.value, header))
      && (config.writable ==> (r.response.status == 404 <==> s !in t))
  {
    hide CopyMove, CanCopy, CopyDone, WellFormed;
    if config.writable && s in t {
      CheckAnswers(t, s, dest, header, overwrite, true);
      if dest.Some? {
        CopyCarriedOut(t, s, dest.value, header, overwrite);
      }
    }
  }

  /**
   * Which refusal a COPY or MOVE gets that does not pass the checks, in a writable dav: 400 for its depth, then
   * 403 without a destination, 409 without the parent of it, 412 for what must not be overwritten, and 403 when
   * both paths are the same. No other answer has these statuses.
   */
  lemma CopyMoveRefusals(config: Config, t: Tree, s: Path, dest: Option<Path>, header: Option<Depth>, overwrite: bool,
          isCopy: bool)
    requires config.writable && s in t
    ensures
      var req := if isCopy then Copy(Some(s), dest, header, overwrite) else Move(Some(s), dest, header, overwrite);
      var status := Serve(config, t, req).response.status;
      var depthFits := header in {None, Some(Infinity)} || (isCopy && header == Some(Zero));
      && (status == 400 <==> !depthFits)
      && (status == 409 <==> depthFits && dest.Some? && !ParentExists(t, dest.value))
      && (status == 412 <==>
            depthFits && dest.Some? && ParentExists(t, dest.value) && !overwrite && dest.value in t)
      && (status == 403 <==>
            depthFits && (dest.Some? ==>
              ParentExists(t, dest.value) && (overwrite || dest.value !in t) && s == dest.value))
      && (status in {400, 403, 409, 412} <==> !PassesChecks(t, s, dest, header, overwrite, isCopy))
      && (PassesChecks(t, s, dest, header, overwrite, isCopy) ==>
            status in if isCopy then {201, 204, 500} else {201, 500})
  {
    hide CopyMove;
    CheckAnswers(t, s, dest, header, overwrite, isCopy);
  }
}
