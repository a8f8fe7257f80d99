/** What holds over whole runs of requests, error answers included. */
module Runs {
  import opened ByteStreams
  import opened Ciphers
  import opened ChunkFormat
  import opened FileTrees
  import opened Copying
  import opened Requests
  import opened Transparency

  /** The trees a run goes through, the first one included. */
  ghost function Trees(config: Config, t: Tree, reqs: seq<Request>): (ts: seq<Tree>)
    ensures |ts| == |reqs| + 1 && ts[0] == t
    decreases |reqs|
  {
    if reqs == [] then [t] else [t] + Trees(config, Serve(config, t, reqs[0]).tree, reqs[1..])
  }

  ghost function Responses(config: Config, t: Tree, reqs: seq<Request>): (rs: seq<Response>)
    ensures |rs| == |reqs|
    decreases |reqs|
  {
    if reqs == [] then []
    else var s := Serve(config, t, reqs[0]); [s.response] + Responses(config, s.tree, reqs[1..])
  }

  // ---------------------------------------------------------------- parents stay directories

  lemma {:induction false} CreateDirAllKeeps(t: Tree, p: Path)
    requires WellFormed(t)
    ensures WellFormed(CreateDirAll(t, p).tree)
    ensures CreateDirAll(t, p).ok ==> IsDir(CreateDirAll(t, p).tree, p)
    decreases |p|
  {
    if p !in t && p != [] {
      CreateDirAllKeeps(t, Parent(p));
    }
  }

  lemma ContentKeeps(t: Tree, p: Path, content: Bytes)
    requires WellFormed(t) && IsFile(t, p)
    ensures WellFormed(t[p := File(content)])
  {
  }

  lemma EnsureParentKeeps(t: Tree, p: Path)
    requires WellFormed(t)
    ensures WellFormed(EnsureParent(t, p).tree)
  {
    if p != [] {
      CreateDirAllKeeps(t, Parent(p));
    }
  }

  lemma UploadKeeps(key: Option<Aead>, t: Tree, p: Path, body: Bytes, nonce: Bytes)
    requires WellFormed(t)
    ensures WellFormed(Upload(key, t, p, body, nonce).tree)
  {
    hide EnsureParent, WellFormed, WriteFrom;
    EnsureParentKeeps(t, p);
    var file := CreateFile(EnsureParent(t, p).tree, p);
    CreateFileKeeps(EnsureParent(t, p).tree, p);
    if file.ok {
      ContentKeeps(file.tree, p, if key.Some? then nonce + WriteFrom(key.value, nonce, 0, body).bytes else body);
    }
  }

  lemma RemoveKeeps(t: Tree, p: Path)
    requires WellFormed(t)
    ensures WellFormed(Remove(t, p).tree)
  {
    RemoveTakesAll(t, p);
    WithoutKeeps(t, p);
  }

  lemma RenameNotOntoRoot(t: Tree, s: Path)
    requires WellFormed(t) && s in t && s != []
    ensures !Rename(t, s, []).ok
  {
    AncestorIsDir(t, [], s);
    var c := s[..1];
    if c != s {
      AncestorIsDir(t, c, s);
    }
    assert c in Children(t, []);
  }

  /** The directory that receives the renamed node is not itself moved, and the dav directory is never replaced. */
  lemma RenameTarget(t: Tree, s: Path, d: Path)
    requires WellFormed(t) && Rename(t, s, d).ok && s != d
    ensures d != [] && ParentIsDir(Without(Without(t, s), d), d)
  {
    if d == [] {
      RenameNotOntoRoot(t, s);
    } else if s <= Parent(d) {
      assert s <= d;
      if s != Parent(d) {
        NothingBelow(t, s, Parent(d));
      }
    }
  }

  lemma RenameKeeps(t: Tree, s: Path, d: Path)
    requires WellFormed(t)
    ensures WellFormed(Rename(t, s, d).tree)
  {
    if Rename(t, s, d).ok && s != d {
      WithoutKeeps(t, s);
      WithoutKeeps(Without(t, s), d);
      RenameTarget(t, s, d);
      forall x | x in Below(t, s) && x != s
        ensures Parent(x) in Below(t, s)
      {
        AncestorIsDir(t, Parent(x), x);
      }
      GraftKeeps(t, Without(Without(t, s), d), s, d, Below(t, s));
    }
  }

  lemma CopyMoveKeeps(t: Tree, p: Path, dest: Option<Path>, header: Option<Depth>, overwrite: bool, isCopy: bool)
    requires WellFormed(t) && p in t
    ensures WellFormed(CopyMove(t, p, dest, header, overwrite, isCopy).tree)
  {
    var depth := CopyDepth(header, isCopy);
    if depth.Some? && dest.Some? && p != dest.value && (overwrite || dest.value !in t) {
      var d := dest.value;
      CopyMoveFits(t, p, d, depth.value, overwrite);
      var cleared := Cleared(t, p, d, depth.value, overwrite);
      CopyResultKeeps(cleared, p, d, d, !IsFile(t, d), depth.value);
      RenameKeeps(cleared, p, d);
    }
  }

  lemma ServeKeeps(config: Config, t: Tree, req: Request)
    requires WellFormed(t)
    ensures WellFormed(Serve(config, t, req).tree)
  {
    if req.path.Some? {
      var p := req.path.value;
      match req {
        case Get(_, _, _) =>
        case Put(_, body, nonce) => UploadKeeps(config.key, t, p, body, nonce);
        case Delete(_) => RemoveKeeps(t, p);
        case Mkcol(_, _) => CreateDirKeeps(t, p);
        case Copy(_, dest, depth, overwrite) =>
          if p in t { CopyMoveKeeps(t, p, dest, depth, overwrite, true); }
        case Move(_, dest, depth, overwrite) =>
          if p in t { CopyMoveKeeps(t, p, dest, depth, overwrite, false); }
        case Propfind(_, _) =>
      }
    }
  }

  /** Over every run, every stored path's parent is a directory. */
  lemma {:induction false} RunKeepsWellFormed(config: Config, t: Tree, reqs: seq<Request>)
    requires WellFormed(t)
    ensures forall u | u in Trees(config, t, reqs) :: WellFormed(u)
    decreases |reqs|
  {
    hide Serve;
    if reqs != [] {
      ServeKeeps(config, t, reqs[0]);
      RunKeepsWellFormed(config, Serve(config, t, reqs[0]).tree, reqs[1..]);
    }
  }

  // ---------------------------------------------------------------- encryption is transparent

  ghost predicate NoneTelling(writable: bool, t: Tree, reqs: seq<Request>) {
    forall i | 0 <= i < |reqs| :: !Telling(writable, Trees(Config(None, writable), t, reqs)[i], reqs[i])
  }

  ghost predicate AllPaired(a: Aead, ks: seq<Tree>, ps: seq<Tree>) {
    |ks| == |ps| && forall i | 0 <= i < |ks| :: TreePair(a, ks[i], ps[i])
  }

  ghost predicate RunsAlike(a: Aead, writable: bool, k: Tree, p: Tree, reqs: seq<Request>) {
    && Responses(Config(Some(a), writable), k, reqs) == Responses(Config(None, writable), p, reqs)
    && AllPaired(a, Trees(Config(Some(a), writable), k, reqs), Trees(Config(None, writable), p, reqs))
  }

  lemma AllPairedStep(a: Aead, k: Tree, ks: seq<Tree>, p: Tree, ps: seq<Tree>)
    ensures AllPaired(a, [k] + ks, [p] + ps) <==> TreePair(a, k, p) && AllPaired(a, ks, ps)
  {
    var ks', ps' := [k] + ks, [p] + ps;
    if AllPaired(a, ks', ps') {
      assert TreePair(a, ks'[0], ps'[0]);
      forall i | 0 <= i < |ks|
        ensures TreePair(a, ks[i], ps[i])
      {
        assert TreePair(a, ks'[i + 1], ps'[i + 1]);
      }
    }
  }

  lemma SameAnswersStep(x: Response, xs: seq<Response>, y: Response, ys: seq<Response>)
    ensures [x] + xs == [y] + ys <==> x == y && xs == ys
  {
    if [x] + xs == [y] + ys {
      assert xs == ([x] + xs)[1..] == ([y] + ys)[1..] == ys;
      assert x == ([x] + xs)[0] == ([y] + ys)[0];
    }
  }

  lemma NoneTellingStep(writable: bool, t: Tree, reqs: seq<Request>)
    requires reqs != []
    ensures NoneTelling(writable, t, reqs) <==>
      !Telling(writable, t, reqs[0]) && NoneTelling(writable, Serve(Config(None, writable), t, reqs[0]).tree, reqs[1..])
  {
    hide Serve;
    var config := Config(None, writable);
    var ts, rest := Trees(config, t, reqs), Trees(config, Serve(config, t, reqs[0]).tree, reqs[1..]);
    assert forall i | 0 <= i < |reqs[1..]| :: ts[i + 1] == rest[i] && reqs[i + 1] == reqs[1..][i];
    if NoneTelling(writable, t, reqs) {
      forall i | 0 <= i < |reqs[1..]|
        ensures !Telling(writable, rest[i], reqs[1..][i])
      {
        assert !Telling(writable, ts[i + 1], reqs[i + 1]);
      }
    } else {
      var i :| 0 <= i < |reqs| && Telling(writable, ts[i], reqs[i]);
      if i > 0 {
        assert Telling(writable, rest[i - 1], reqs[1..][i - 1]);
      }
    }
  }

  lemma RunsAlikeStep(a: Aead, writable: bool, k: Tree, p: Tree, reqs: seq<Request>)
    requires reqs != [] && TreePair(a, k, p)
    ensures
      var sk, sp := Serve(Config(Some(a), writable), k, reqs[0]), Serve(Config(None, writable), p, reqs[0]);
      RunsAlike(a, writable, k, p, reqs) <==>
        sk.response == sp.response && TreePair(a, sk.tree, sp.tree)
          && RunsAlike(a, writable, sk.tree, sp.tree, reqs[1..])
  {
    hide Serve;
    var ck, cp := Config(Some(a), writable), Config(None, writable);
    var sk, sp := Serve(ck, k, reqs[0]), Serve(cp, p, reqs[0]);
    SameAnswersStep(sk.response, Responses(ck, sk.tree, reqs[1..]), sp.response, Responses(cp, sp.tree, reqs[1..]));
    AllPairedStep(a, k, Trees(ck, sk.tree, reqs[1..]), p, Trees(cp, sp.tree, reqs[1..]));
    if AllPaired(a, Trees(ck, sk.tree, reqs[1..]), Trees(cp, sp.tree, reqs[1..])) {
      assert TreePair(a, Trees(ck, sk.tree, reqs[1..])[0], Trees(cp, sp.tree, reqs[1..])[0]);
    }
  }

  /**
   * A dav with a key and one without, started on paired trees and given the same requests, answer every
   * one of them alike and stay paired, exactly when none of the requests is a telling one.
   */
  lemma {:induction false} RunTransparent(a: Aead, writable: bool, k: Tree, p: Tree, reqs: seq<Request>)
    requires Lawful(a) && TreePair(a, k, p) && WellFormed(p) && forall r | r in reqs :: NonceFits(r)
    ensures RunsAlike(a, writable, k, p, reqs) <==> NoneTelling(writable, p, reqs)
    decreases |reqs|
  {
    hide Serve;
    if reqs != [] {
      var ck, cp := Config(Some(a), writable), Config(None, writable);
      var sk, sp := Serve(ck, k, reqs[0]), Serve(cp, p, reqs[0]);
      assert reqs[0] in reqs;
      ServePair(a, writable, k, p, reqs[0]);
      ServeKeeps(cp, p, reqs[0]);
      NoneTellingStep(writable, p, reqs);
      RunsAlikeStep(a, writable, k, p, reqs);
      if TreePair(a, sk.tree, sp.tree) {
        RunTransparent(a, writable, sk.tree, sp.tree, reqs[1..]);
      }
    }
  }

  // ---------------------------------------------------------------- stored files stay complete

  /** Every file is the encryption of some contents, complete with its last chunk. */
  ghost predicate AllEncrypted(a: Aead, t: Tree) {
    forall q | IsFile(t, q) :: exists p :: IsEncryption(a, t[q].content, p)
  }

  /**
   * The requests that leave a file that is no encryption: a PUT too long for the counter, and a file copied
   * onto itself.
   */
  ghost predicate Spoiling(writable: bool, t: Tree, req: Request) {
    !req.Get? && Telling(writable, t, req)
  }

  ghost function Decrypted(a: Aead, n: Node): Node
    requires n.File? ==> exists p :: IsEncryption(a, n.content, p)
  {
    match n
    case Dir => Dir
    case File(stored) => var p :| IsEncryption(a, stored, p); File(p)
  }

  ghost function DecryptedTree(a: Aead, t: Tree): (p: Tree)
    requires AllEncrypted(a, t)
    ensures TreePair(a, t, p)
  {
    assert forall q | q in t && t[q].File? :: IsFile(t, q);
    var p := map q | q in t :: Decrypted(a, t[q]);
    assert forall q :: PairAt(a, t, p, q);
    p
  }

  lemma TellingSame(a: Aead, writable: bool, k: Tree, p: Tree, req: Request)
    requires TreePair(a, k, p) && !req.Get?
    ensures Telling(writable, k, req) <==> Telling(writable, p, req)
  {
    if req.path.Some? {
      SameKinds(a, k, p, req.path.value);
      EnsureParentPair(a, k, p, req.path.value);
    }
  }

  lemma PairedIsEncrypted(a: Aead, k: Tree, p: Tree)
    requires TreePair(a, k, p)
    ensures AllEncrypted(a, k)
  {
    forall q | IsFile(k, q)
      ensures exists c :: IsEncryption(a, k[q].content, c)
    {
      assert PairAt(a, k, p, q);
      assert IsEncryption(a, k[q].content, p[q].content);
    }
  }

  /** A PUT that is too long leaves full chunks only, which is not the size of any complete file. */
  lemma LongPutSpoils(a: Aead, t: Tree, p: Path, body: Bytes, nonce: Bytes)
    requires Lawful(a) && PutWrites(t, p) && !Accepted(body) && |nonce| == NONCE_SIZE
    ensures !AllEncrypted(a, Upload(Some(a), t, p, body, nonce).tree)
  {
    WriteFromSeals(a, nonce, 0, body);
    var u := Upload(Some(a), t, p, body, nonce).tree;
    var stored := nonce + WriteFrom(a, nonce, 0, body).bytes;
    assert IsFile(u, p) && u[p].content == stored;
    assert |stored| - NONCE_SIZE == COUNTER_MAX * ENCRYPTED_CHUNK_SIZE && !WritableSize(|stored|);
    if AllEncrypted(a, u) {
      var c :| IsEncryption(a, stored, c);
      StoredSizeKnown(Some(a), stored, c);
    }
  }

  /**
   * One request on a dav with a key: every file stays a complete encryption exactly when the request is not
   * a spoiling one.
   */
  lemma ServeKeepsEncrypted(a: Aead, writable: bool, t: Tree, req: Request)
    requires Lawful(a) && WellFormed(t) && AllEncrypted(a, t) && NonceFits(req)
    ensures AllEncrypted(a, Serve(Config(Some(a), writable), t, req).tree) <==> !Spoiling(writable, t, req)
  {
    var p := DecryptedTree(a, t);
    if Spoiling(writable, t, req) {
      var q := req.path.value;
      if req.Put? {
        LongPutSpoils(a, t, q, req.body, req.nonce);
      } else {
        SelfCopyBreaks(a, t, q, req.dest.value, req.depth, req.overwrite);
        assert IsFile(t[q := File([])], q);
      }
    } else if !req.Get? {
      DecryptedWellFormed(a, t, p);
      TellingSame(a, writable, t, p, req);
      ServePair(a, writable, t, p, req);
      PairedIsEncrypted(a, Serve(Config(Some(a), writable), t, req).tree, Serve(Config(None, writable), p, req).tree);
    }
  }

  ghost predicate NoneSpoiling(a: Aead, writable: bool, t: Tree, reqs: seq<Request>)
    decreases |reqs|
  {
    reqs == [] || (!Spoiling(writable, t, reqs[0])
                   && NoneSpoiling(a, writable, Serve(Config(Some(a), writable), t, reqs[0]).tree, reqs[1..]))
  }

  /**
   * Over every run of a dav with a key, every stored file is complete at every moment, exactly when no
   * request spoils one.
   */
  lemma {:induction false} RunKeepsEncrypted(a: Aead, writable: bool, t: Tree, reqs: seq<Request>)
    requires Lawful(a) && WellFormed(t) && AllEncrypted(a, t) && forall r | r in reqs :: NonceFits(r)
    ensures (forall u | u in Trees(Config(Some(a), writable), t, reqs) :: AllEncrypted(a, u))
      <==> NoneSpoiling(a, writable, t, reqs)
    decreases |reqs|
  {
    hide Serve;
    if reqs != [] {
      var config := Config(Some(a), writable);
      var next := Serve(config, t, reqs[0]).tree;
      var rest := Trees(config, next, reqs[1..]);
      assert reqs[0] in reqs;
      ServeKeepsEncrypted(a, writable, t, reqs[0]);
      ServeKeeps(config, t, reqs[0]);
      assert rest[0] == next;
      assert forall u :: u in Trees(config, t, reqs) <==> u == t || u in rest;
      if AllEncrypted(a, next) {
        RunKeepsEncrypted(a, writable, next, reqs[1..]);
      }
    }
  }

  /**
   * The size PROPFIND shows for a complete encrypted file, asked for itself or listed in its collection, is
   * the length of its contents, and never underflows.
   */
  lemma ListedSizeIsPlaintextLength(a: Aead, t: Tree, dir: Path, level: PropfindDepth, q: Path, p: Bytes)
    requires Lawful(a) && IsFile(t, q) && IsEncryption(a, t[q].content, p)
    requires q in Items(t, dir, level) && PropfindResponse(Some(a), t, dir, level).status == 207
    ensures
      var listing := PropfindResponse(Some(a), t, dir, level).listing;
      q in listing && listing[q] == Some(|p|)
    ensures |t[q].content| >= NONCE_SIZE + ENCRYPTION_OVERHEAD
  {
    StoredSizeKnown(Some(a), t[q].content, p);
  }

  // ---------------------------------------------------------------- what is put is what is got

  /** A file that was stored with 201 is fetched with 200, whole, from a dav with or without a key. */
  lemma PutThenGet(config: Config, t: Tree, path: Path, body: Bytes, nonce: Bytes)
    requires config.key.Some? ==> Lawful(config.key.value)
    requires |nonce| == NONCE_SIZE
    requires Serve(config, t, Put(Some(path), body, nonce)).response.status == 201
    ensures
      var after := Serve(config, t, Put(Some(path), body, nonce)).tree;
      Serve(config, after, Get(Some(path), None, false))
        == Served(after, Status(200).(length := Some(|body|), body := body))
  {
    if config.key.Some? {
      var a := config.key.value;
      WriteFromSeals(a, nonce, 0, body);
      var after := Serve(config, t, Put(Some(path), body, nonce)).tree;
      assert after[path].content == Encrypt(a, nonce, body);
      EncryptLength(a, nonce, body);
      DecryptUndoesEncrypt(a, nonce, body);
    }
  }
}
