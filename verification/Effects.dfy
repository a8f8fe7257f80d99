/** How far each request reaches into the tree, and what its answer says about it. */
module Effects {
  import opened ByteStreams
  import opened Ciphers
  import opened ChunkFormat
  import opened FileTrees
  import opened Copying
  import opened CopyMeaning
  import opened Requests

  // ---------------------------------------------------------------- framing

  /** The paths a request may change: those at or below its targets, and for PUT the way to its file. */
  predicate MayTouch(req: Request, q: Path) {
    req.path.Some? &&
    match req
    case Get(_, _, _) => false
    case Propfind(_, _) => false
    case Put(p, _, _) => q <= p.value
    case Mkcol(p, _) => q == p.value
    case Delete(p) => p.value <= q
    case Copy(_, d, _, _) => d.Some? && d.value <= q
    case Move(p, d, _, _) => d.Some? && (p.value <= q || d.value <= q)
  }

  lemma {:induction false} CreateDirAllFrames(t: Tree, p: Path, q: Path)
    requires !(q <= p)
    ensures SameAt(CreateDirAll(t, p).tree, t, q)
    decreases |p|
  {
    if p !in t && p != [] {
      CreateDirAllFrames(t, Parent(p), q);
    }
  }

  lemma CopyResultFrames(t: Tree, s: Path, d: Path, destIsDir: bool, depth: Depth, q: Path)
    requires !(d <= q)
    ensures SameAt(CopyResult(t, s, d, d, destIsDir, depth).tree, t, q)
  {
  }

  lemma RenameFrames(t: Tree, s: Path, d: Path, q: Path)
    requires !(s <= q) && !(d <= q)
    ensures SameAt(Rename(t, s, d).tree, t, q)
  {
  }

  lemma UploadFrames(key: Option<Aead>, t: Tree, p: Path, body: Bytes, nonce: Bytes, q: Path)
    requires !(q <= p)
    ensures SameAt(Upload(key, t, p, body, nonce).tree, t, q)
  {
    hide WriteFrom, CreateDirAll;
    if p != [] {
      CreateDirAllFrames(t, Parent(p), q);
    }
  }

  lemma CopyMoveFrames(t: Tree, p: Path, dest: Option<Path>, header: Option<Depth>, overwrite: bool, isCopy: bool,
          q: Path)
    requires dest.Some? ==> !(dest.value <= q) && (isCopy || !(p <= q))
    ensures SameAt(CopyMove(t, p, dest, header, overwrite, isCopy).tree, t, q)
  {
    hide CopyResult, Rename;
    var depth := CopyDepth(header, isCopy);
    if dest.Some? && depth.Some? {
      var d := dest.value;
      var cleared := Cleared(t, p, d, depth.value, overwrite);
      CopyResultFrames(cleared, p, d, !IsFile(t, d), depth.value, q);
      if !isCopy {
        RenameFrames(cleared, p, d, q);
      }
    }
  }

  /** Whatever a request is answered, it changes nothing but the paths it may touch. */
  lemma ServeFrames(config: Config, t: Tree, req: Request, q: Path)
    requires !MayTouch(req, q)
    ensures SameAt(Serve(config, t, req).tree, t, q)
  {
    hide Upload, CopyMove;
    if req.path.Some? {
      var p := req.path.value;
      match req {
        case Put(_, body, nonce) => UploadFrames(config.key, t, p, body, nonce, q);
        case Copy(_, dest, header, overwrite) => CopyMoveFrames(t, p, dest, header, overwrite, true, q);
        case Move(_, dest, header, overwrite) => CopyMoveFrames(t, p, dest, header, overwrite, false, q);
        case _ =>
      }
    }
  }

  // ---------------------------------------------------------------- answers

  predicate NoFileOnTheWay(t: Tree, p: Path) {
    forall n | 0 <= n <= |p| :: !IsFile(t, p[..n])
  }

  lemma NoFileStep(t: Tree, p: Path)
    requires p != []
    ensures NoFileOnTheWay(t, p) <==> NoFileOnTheWay(t, Parent(p)) && !IsFile(t, p)
  {
    assert p[..|p|] == p;
    assert forall n | 0 <= n < |p| :: p[..n] == Parent(p)[..n];
  }

  /** Making a directory and the way to it works exactly when no file is in the way, and otherwise changes nothing. */
  lemma {:induction false} CreateDirAllWorks(t: Tree, p: Path)
    requires WellFormed(t)
    ensures CreateDirAll(t, p).ok <==> NoFileOnTheWay(t, p)
    ensures if CreateDirAll(t, p).ok then IsDir(CreateDirAll(t, p).tree, p) else CreateDirAll(t, p).tree == t
    decreases |p|
  {
    if p in t {
      forall n | 0 <= n < |p|
        ensures !IsFile(t, p[..n])
      {
        AncestorIsDir(t, p[..n], p);
      }
      assert p[..|p|] == p;
    } else if p != [] {
      CreateDirAllWorks(t, Parent(p));
      NoFileStep(t, p);
    }
  }

  /**
   * PUT succeeds exactly when the dav is writable, its target is neither the dav directory nor another
   * collection, no file is in the way to it, and the body fits the chunk counter of a dav with a key.
   */
  lemma PutSucceeds(config: Config, t: Tree, p: Path, body: Bytes, nonce: Bytes)
    requires WellFormed(t)
    ensures Serve(config, t, Put(Some(p), body, nonce)).response.status == 201 <==>
      && config.writable && p != [] && !IsDir(t, p)
      && NoFileOnTheWay(t, Parent(p))
      && (config.key.Some? ==> Accepted(body))
  {
    if p != [] {
      CreateDirAllWorks(t, Parent(p));
      if ParentExists(t, p) {
        assert CreateDirAll(t, Parent(p)).tree == t;
      } else {
        assert p !in t;
        CreateDirAllFrames(t, Parent(p), p);
      }
      if config.key.Some? {
        WriteFromSucceeds(config.key.value, nonce, 0, body);
      }
    }
  }

  // ---------------------------------------------------------------- errors

  /**
   * The requests that do damage before they fail: a PUT with more chunks than a dav with a key can count, and
   * a COPY or MOVE of a collection whose old destination goes before the copying or moving turns out to fail.
   */
  predicate Damaging(config: Config, t: Tree, req: Request) {
    config.writable && req.path.Some? &&
    match req
    case Put(p, body, _) => config.key.Some? && PutWrites(t, p.value) && !Accepted(body)
    case Copy(p, dest, header, overwrite) => p.value in t && Destroys(t, p.value, dest, header, overwrite, true)
    case Move(p, dest, header, overwrite) => p.value in t && Destroys(t, p.value, dest, header, overwrite, false)
    case _ => false
  }

  /** The tree a damaging request leaves. */
  ghost function Damaged(config: Config, t: Tree, req: Request): Tree
    requires Damaging(config, t, req)
  {
    match req
    case Put(p, body, nonce) =>
      EnsureParent(t, p.value).tree[p.value := File(nonce + WriteFrom(config.key.value, nonce, 0, body).bytes)]
    case Copy(_, dest, _, _) => Without(t, dest.value)
    case Move(_, dest, _, _) => Without(t, dest.value)
  }

  /** A PUT that writes nothing has not left any new collections behind. */
  lemma IdlePutKeeps(key: Option<Aead>, t: Tree, p: Path, body: Bytes, nonce: Bytes)
    requires WellFormed(t) && !PutWrites(t, p)
    ensures Upload(key, t, p, body, nonce).tree == t
  {
    if p != [] && !ParentExists(t, p) {
      CreateDirAllWorks(t, Parent(p));
      assert p !in t;
      CreateDirAllFrames(t, Parent(p), p);
    }
  }

  lemma PutErrors(config: Config, t: Tree, p: Path, body: Bytes, nonce: Bytes)
    requires WellFormed(t) && config.writable
    ensures
      var req := Put(Some(p), body, nonce);
      var s := Serve(config, t, req);
      if Damaging(config, t, req) then s == Served(Damaged(config, t, req), Status(500))
      else s.response.status >= 400 ==> s.tree == t
  {
    if !PutWrites(t, p) {
      IdlePutKeeps(config.key, t, p, body, nonce);
    } else if config.key.Some? {
      WriteFromSucceeds(config.key.value, nonce, 0, body);
      var parent, w := EnsureParent(t, p).tree, WriteFrom(config.key.value, nonce, 0, body).bytes;
      assert parent[p := File([])][p := File(nonce + w)] == parent[p := File(nonce + w)];
    }
  }

  lemma CopyMoveErrors(t: Tree, p: Path, dest: Option<Path>, header: Option<Depth>, overwrite: bool, isCopy: bool)
    requires WellFormed(t) && p in t
    ensures
      var r := CopyMove(t, p, dest, header, overwrite, isCopy);
      if Destroys(t, p, dest, header, overwrite, isCopy) then r == Changed(Without(t, dest.value), 500) && r.tree != t
      else r.status >= 400 ==> r.tree == t
  {
    hide CopyMove;
    if Destroys(t, p, dest, header, overwrite, isCopy) {
      DestroysDestination(t, p, dest, header, overwrite, isCopy);
      assert dest.value !in Without(t, dest.value);
    } else if CopyMove(t, p, dest, header, overwrite, isCopy).status >= 400 {
      ErrorsKeepTree(t, p, dest, header, overwrite, isCopy);
    }
  }

  /**
   * A request that is answered with an error changes nothing, and neither does any request to a read-only
   * dav, except for the damaging ones: they are answered 500, and a COPY or MOVE among them always has
   * changed the tree.
   */
  lemma ErrorsChangeNothing(config: Config, t: Tree, req: Request)
    requires WellFormed(t)
    ensures
      var s := Serve(config, t, req);
      if Damaging(config, t, req) then
        s == Served(Damaged(config, t, req), Status(500)) && (req.Put? || s.tree != t)
      else s.response.status >= 400 || !config.writable ==> s.tree == t
  {
    hide CopyMove, Upload;
    if req.path.Some? && config.writable {
      var p := req.path.value;
      match req {
        case Put(_, body, nonce) => PutErrors(config, t, p, body, nonce);
        case Copy(_, dest, header, overwrite) =>
          if p in t {
            CopyMoveErrors(t, p, dest, header, overwrite, true);
          }
        case Move(_, dest, header, overwrite) =>
          if p in t {
            CopyMoveErrors(t, p, dest, header, overwrite, false);
          }
        case Delete(_) => RemoveTakesAll(t, p);
        case _ =>
      }
    }
  }

  // ---------------------------------------------------------------- DELETE and MKCOL

  /** DELETE of what exists always succeeds, and takes away exactly what lies at or below the path. */
  lemma DeleteAnswers(config: Config, t: Tree, p: Path)
    requires WellFormed(t)
    ensures Serve(config, t, Delete(Some(p))) ==
      if config.writable && p in t then Served(Without(t, p), Status(204))
      else Served(t, Status(if config.writable then 404 else 403))
  {
    RemoveTakesAll(t, p);
  }

  /**
   * Section 9.3 of RFC 4918: MKCOL is answered 201 exactly when the dav is writable, nothing stands at the
   * path, there is no body, and the parent is a collection. It then adds that collection and nothing else,
   * and DELETE gives the old tree back; otherwise it changes nothing. What exists already is answered 405, a
   * body 415, and a missing parent 409.
   */
  lemma MkcolAnswers(config: Config, t: Tree, p: Path, hasBody: bool)
    requires WellFormed(t)
    ensures
      var s := Serve(config, t, Mkcol(Some(p), hasBody));
      && (s.response.status == 201 <==> config.writable && p !in t && !hasBody && ParentIsDir(t, p))
      && (s.response.status == 201 ==>
            && IsDir(s.tree, p) && (forall q | q != p :: SameAt(s.tree, t, q)) && WellFormed(s.tree)
            && Serve(config, s.tree, Delete(Some(p))).tree == t)
      && (s.response.status != 201 ==> s.tree == t)
      && (config.writable ==>
            && (s.response.status == 405 <==> p in t)
            && (s.response.status == 415 <==> p !in t && hasBody)
            && (s.response.status == 409 <==> p !in t && !hasBody && !ParentIsDir(t, p)))
  {
    if config.writable && p !in t && !hasBody && ParentIsDir(t, p) {
      var u := t[p := Dir];
      CreateDirKeeps(t, p);
      DeleteAnswers(config, u, p);
      forall q
        ensures SameAt(Without(u, p), t, q)
      {
        if p <= q && q != p {
          NothingBelow(t, p, q);
        }
      }
      SameTree(Without(u, p), t);
    }
  }
}
