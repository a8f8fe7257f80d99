/** What each WebDAV request does to the file tree, and the response it gets. */
module Requests {
  import opened ByteStreams
  import opened Ciphers
  import opened ChunkFormat
  import opened FileTrees
  import opened Copying
  import opened Ranges

  /** A dav: its encryption key, if it has one, and whether it may be written to. */
  datatype Config = Config(key: Option<Aead>, writable: bool)

  datatype ContentRange = Part(start: nat, end: nat, size: nat) | Unsatisfied(size: nat)

  /** The body is what the stream behind it yields, and ending how that stream comes to its end. */
  datatype Response = Response(
    status: nat,
    length: Option<nat>,
    range: Option<ContentRange>,
    body: Bytes,
    ending: Ending,
    listing: map<Path, Option<nat>>)

  function Status(status: nat): Response {
    Response(status, None, None, [], Clean, map[])
  }

  datatype PropfindDepth = Absent | Malformed | Level(n: nat)

  /** A request path, or a destination, is missing when the server could not or would not resolve it. */
  datatype Request =
    | Get(path: Option<Path>, rangeHeader: Option<string>, headOnly: bool)
    | Put(path: Option<Path>, body: Bytes, nonce: Bytes)
    | Delete(path: Option<Path>)
    | Mkcol(path: Option<Path>, hasBody: bool)
    | Copy(path: Option<Path>, dest: Option<Path>, depth: Option<Depth>, overwrite: bool)
    | Move(path: Option<Path>, dest: Option<Path>, depth: Option<Depth>, overwrite: bool)
    | Propfind(path: Option<Path>, level: PropfindDepth)

  // ---------------------------------------------------------------- reading

  function PlainSize(key: Option<Aead>, stored: Bytes): nat {
    if key.Some? then DecryptedSize(|stored|) else |stored|
  }

  function StreamBody(head: Response, s: Stream): Response {
    head.(body := Flatten(s.items), ending := s.ending)
  }

  /** The answer with this head and a part of the file as its body. A refused seek in a plain file fails the request. */
  function PartBody(key: Option<Aead>, stored: Bytes, start: nat, length: nat, head: Response): Response {
    match key
    case Some(a) => StreamBody(head, DecryptRange(a, stored, stored, start, length))
    case None => if start >= SEEK_LIMIT then Status(500) else head.(body := Window(stored, start, length))
  }

  /** The server's check of a range against the size of the file. */
  predicate Admitted(range: RangeValue, size: nat) {
    match range.end
    case Some(end) => end >= range.start
    case None => range.start < size
  }

  function PartEnd(range: RangeValue, size: nat): nat {
    var last := Wrap64(size as int - 1);
    match range.end
    case Some(end) => Min(end, last)
    case None => last
  }

  function PartLength(range: RangeValue, size: nat): nat {
    Wrap64(PartEnd(range, size) as int - range.start + 1)
  }

  function PartHead(range: RangeValue, size: nat): Response {
    Response(206, Some(PartLength(range, size)), Some(Part(range.start, PartEnd(range, size), size)), [], Clean, map[])
  }

  /** The response to a request for a range. */
  function SendPart(key: Option<Aead>, stored: Bytes, range: RangeValue, headOnly: bool): Response {
    var size := PlainSize(key, stored);
    if !Admitted(range, size) then Status(416).(range := Some(Unsatisfied(size)))
    else if headOnly then PartHead(range, size)
    else PartBody(key, stored, range.start, PartLength(range, size), PartHead(range, size))
  }

  /** The response to a request for the whole file. */
  function SendAll(key: Option<Aead>, stored: Bytes, headOnly: bool): Response {
    var head := Status(200).(length := Some(PlainSize(key, stored)));
    if headOnly then head
    else if key.Some? then StreamBody(head, Decrypt(key.value, stored))
    else head.(body := stored)
  }

  /** The response to GET or HEAD for a file with the given stored contents. */
  function SendFile(key: Option<Aead>, stored: Bytes, rangeHeader: Option<string>, headOnly: bool): Response {
    match if rangeHeader.Some? then ParseRange(rangeHeader.value) else None
    case Some(range) => SendPart(key, stored, range, headOnly)
    case None => SendAll(key, stored, headOnly)
  }

  /** The size a listing shows: none for a collection. */
  function ItemSize(key: Option<Aead>, node: Node): Option<nat> {
    match node
    case Dir => None
    case File(content) => Some(PlainSize(key, content))
  }

  function Items(t: Tree, p: Path, level: PropfindDepth): set<Path> {
    {p} + (if IsDir(t, p) && level != Level(0) then Children(t, p) else {})
  }

  /** The listing of those of the given paths that exist. */
  function Listing(key: Option<Aead>, t: Tree, paths: set<Path>): map<Path, Option<nat>> {
    map q | q in paths && q in t :: ItemSize(key, t[q])
  }

  lemma ListingNext(key: Option<Aead>, t: Tree, paths: set<Path>, q: Path)
    requires q in t
    ensures Listing(key, t, paths)[q := ItemSize(key, t[q])] == Listing(key, t, paths + {q})
  {
  }

  function PropfindResponse(key: Option<Aead>, t: Tree, p: Path, level: PropfindDepth): Response {
    if p !in t then Status(404)
    else if t[p].Dir? && level == Malformed then Status(400)
    else Status(207).(listing := Listing(key, t, Items(t, p, level)))
  }

  // ---------------------------------------------------------------- changing the tree

  datatype Changed = Changed(tree: Tree, status: nat)

  function EnsureParent(t: Tree, p: Path): Outcome {
    if ParentExists(t, p) then Outcome(t, true) else CreateDirAll(t, Parent(p))
  }

  /** Whether a PUT gets as far as writing to the file. */
  predicate PutWrites(t: Tree, p: Path) {
    EnsureParent(t, p).ok && CreateFile(EnsureParent(t, p).tree, p).ok
  }

  function Upload(key: Option<Aead>, t: Tree, p: Path, body: Bytes, nonce: Bytes): Changed {
    var parent := EnsureParent(t, p);
    if !parent.ok then Changed(parent.tree, 500) else
    var file := CreateFile(parent.tree, p);
    if !file.ok then Changed(parent.tree, 403) else
    match key
    case None => Changed(file.tree[p := File(body)], 201)
    case Some(a) =>
      var w := WriteFrom(a, nonce, 0, body);
      Changed(file.tree[p := File(nonce + w.bytes)], if w.ok then 201 else 500)
  }

  function Remove(t: Tree, p: Path): Changed {
    var r := if IsDir(t, p) then RemoveDirAll(t, p) else RemoveFile(t, p);
    Changed(r.tree, if r.ok then 204 else 500)
  }

  /** What exists can always be removed, and what goes is exactly what lies at or below it. */
  lemma RemoveTakesAll(t: Tree, p: Path)
    requires WellFormed(t)
    ensures Remove(t, p) == Changed(Without(t, p), if p in t then 204 else 500)
  {
    forall q
      ensures SameAt(Remove(t, p).tree, Without(t, p), q)
    {
      if !IsDir(t, p) && p <= q && q != p {
        NothingBelow(t, p, q);
      }
    }
    SameTree(Remove(t, p).tree, Without(t, p));
  }

  function MakeCollection(t: Tree, p: Path): Changed {
    var r := CreateDir(t, p);
    Changed(r.tree, if r.ok then 201 else 409)
  }

  /** The depth a COPY or MOVE is done to; a header that does not parse counts as missing. */
  function CopyDepth(header: Option<Depth>, isCopy: bool): Option<Depth> {
    match header
    case None => Some(Infinity)
    case Some(Infinity) => Some(Infinity)
    case Some(Zero) => if isCopy then Some(Zero) else None
    case Some(One) => None
  }

  /** The old destination of a collection is removed first, unless it is a file. */
  function Cleared(t: Tree, p: Path, d: Path, depth: Depth, overwrite: bool): Tree {
    if IsDir(t, p) && overwrite && d in t && depth != Zero && !IsFile(t, d) then RemoveDirAll(t, d).tree else t
  }

  ghost function CopyMove(t: Tree, p: Path, dest: Option<Path>, header: Option<Depth>, overwrite: bool,
          isCopy: bool): Changed {
    var depth := CopyDepth(header, isCopy);
    if depth.None? then Changed(t, 400)
    else if dest.None? then Changed(t, 403)
    else
      var d := dest.value;
      if !ParentExists(t, d) then Changed(t, 409)
      else if !overwrite && d in t then Changed(t, 412)
      else if p == d then Changed(t, 403)
      else
        var cleared := Cleared(t, p, d, depth.value, overwrite);
        if isCopy then
          var r := CopyResult(cleared, p, d, d, !IsFile(t, d), depth.value);
          Changed(r.tree, if !r.ok then 500 else if overwrite && d in t then 204 else 201)
        else
          var r := Rename(cleared, p, d);
          Changed(r.tree, if r.ok then 201 else 500)
  }

  lemma WithoutKeeps(t: Tree, p: Path)
    requires WellFormed(t)
    ensures WellFormed(Without(t, p))
  {
    forall q | q in Without(t, p) && q != []
      ensures ParentIsDir(Without(t, p), q)
    {
      assert ParentIsDir(t, q);
      assert p <= Parent(q) ==> p <= q;
    }
  }

  /** Once the old destination has been removed, the copy is one of those the recursion is made for. */
  lemma CopyMoveFits(t: Tree, p: Path, d: Path, depth: Depth, overwrite: bool)
    requires WellFormed(t) && p in t && p != d && (overwrite || d !in t)
    ensures WellFormed(Cleared(t, p, d, depth, overwrite))
    ensures Fits(Cleared(t, p, d, depth, overwrite), p, d, d, !IsFile(t, d), depth)
  {
    WithoutKeeps(t, d);
    if d <= p {
      AncestorIsDir(t, d, p);
    }
  }

  // ---------------------------------------------------------------- dispatch

  datatype Served = Served(tree: Tree, response: Response)

  ghost function Answer(c: Changed): Served {
    Served(c.tree, Status(c.status))
  }

  ghost function Serve(config: Config, t: Tree, req: Request): Served {
    if req.path.None? then Served(t, Status(403)) else
    var p := req.path.value;
    match req
    case Get(_, rangeHeader, headOnly) =>
      Served(t, if IsDir(t, p) then Status(200)
                else if IsFile(t, p) then SendFile(config.key, t[p].content, rangeHeader, headOnly)
                else Status(404))
    case Put(_, body, nonce) =>
      if !config.writable then Served(t, Status(403)) else Answer(Upload(config.key, t, p, body, nonce))
    case Delete(_) =>
      if !config.writable then Served(t, Status(403))
      else if p in t then Answer(Remove(t, p))
      else Served(t, Status(404))
    case Mkcol(_, hasBody) =>
      if !config.writable then Served(t, Status(403))
      else if p in t then Served(t, Status(405))
      else if hasBody then Served(t, Status(415))
      else Answer(MakeCollection(t, p))
    case Copy(_, dest, depth, overwrite) =>
      if !config.writable then Served(t, Status(403))
      else if p !in t then Served(t, Status(404))
      else Answer(CopyMove(t, p, dest, depth, overwrite, true))
    case Move(_, dest, depth, overwrite) =>
      if !config.writable then Served(t, Status(403))
      else if p !in t then Served(t, Status(404))
      else Answer(CopyMove(t, p, dest, depth, overwrite, false))
    case Propfind(_, level) =>
      Served(t, PropfindResponse(config.key, t, p, level))
  }
}
