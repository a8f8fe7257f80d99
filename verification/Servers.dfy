/** The WebDAV server over its file tree. */
module Servers {
  import opened ByteStreams
  import opened ByteFiles
  import opened Ciphers
  import opened ChunkFormat
  import opened EncryptedStreamers
  import opened Streamers
  import opened FileTrees
  import opened Copying
  import opened Ranges
  import opened Requests

  const BUF_SIZE: nat := 65536

  class Server {
    const config: Config
    var tree: Tree

    constructor (config: Config, tree: Tree)
      ensures this.config == config && this.tree == tree
    {
      this.config := config;
      this.tree := tree;
    }

    // -------------------------------------------------------------- copying

    /**
     * Copies source to dest, child by child. The directory is listed while the copy writes to the
     * tree, in any order; the walk ends because the nodes in reach, which exclude all that lies at or
     * below the top destination, become fewer from call to call.
     */
    method DoCopy(source: Path, top: Path, dest: Path, destIsDir: bool, depth: Depth) returns (ok: bool)
      requires WellFormed(tree) && Fits(tree, source, top, dest, destIsDir, depth)
      modifies this
      ensures WellFormed(tree)
      ensures Outcome(tree, ok) == CopyResult(old(tree), source, top, dest, destIsDir, depth)
      decreases Reach(tree, source, top)
    {
      ghost var t := tree;
      CopyResultKeeps(t, source, top, dest, destIsDir, depth);
      if source == top {
        return true;
      }
      if source !in tree {
        return false;
      }
      var isFile := tree[source].File?;
      if destIsDir {
        CreateDirKeeps(tree, dest);
        tree := CreateDir(tree, dest).tree;
      }
      if isFile {
        if destIsDir {
          if source == [] {
            return false;
          }
          var r := CopyFile(tree, source, dest + [source[|source| - 1]]);
          tree := r.tree;
          return r.ok;
        }
        var r := CopyFile(tree, source, dest);
        tree := r.tree;
        return r.ok;
      }
      if depth == Zero {
        return true;
      }
      ok := CopyChildren(source, top, dest, destIsDir, depth, t);
    }

    /** The listing loop of DoCopy; before is the tree before the destination was made. */
    method CopyChildren(source: Path, top: Path, dest: Path, destIsDir: bool, depth: Depth,
            ghost before: Tree) returns (ok: bool)
      requires WellFormed(before) && Fits(before, source, top, dest, destIsDir, depth)
      requires IsDir(before, source) && source != top && depth != Zero
      requires WellFormed(tree) && tree == if destIsDir then CreateDir(before, dest).tree else before
      modifies this
      ensures WellFormed(tree)
      ensures Outcome(tree, ok) == CopyResult(before, source, top, dest, destIsDir, depth)
      decreases Reach(before, source, top), 0
    {
      ghost var made, listed := destIsDir && CreateDir(before, dest).ok, Children(tree, source);
      var visited: set<Path> := {};
      ok := true;
      WalkStarts(before, source, top, dest, destIsDir);
      while Children(tree, source) - visited != {}
        invariant Children(tree, source) == listed && visited <= listed && WellFormed(tree)
        invariant Progress(before, source, top, dest, made, visited, tree, ok)
        decreases listed - visited
      {
        var child :| child in Children(tree, source) - visited;
        WalkGoesOn(before, source, top, dest, destIsDir, depth, visited, tree, ok, child);
        var copied := DoCopy(child, top, dest + [child[|source|]], IsDir(tree, child), depth);
        if !copied {
          ok := false;
        }
        visited := visited + {child};
      }
      assert visited == listed by {
        assert listed == (listed - visited) + visited && listed - visited == {};
      }
      WalkEnds(before, source, top, dest, destIsDir, depth, visited, tree, ok);
    }

    // -------------------------------------------------------------- requests that change the tree

    method RenamePath(s: Path, d: Path) returns (ok: bool)
      modifies this
      ensures Outcome(tree, ok) == Rename(old(tree), s, d)
    {
      if s !in tree || !ParentIsDir(tree, d) {
        return false;
      }
      if s == d {
        return true;
      }
      if tree[s].Dir? && (s <= d || IsFile(tree, d) || Children(tree, d) != {}) {
        return false;
      }
      if tree[s].File? && IsDir(tree, d) {
        return false;
      }
      RelocatedIsGraft(tree, s, d);
      tree := Relocated(tree, s, d);
      ok := true;
    }

    method HandleCopyMove(p: Path, dest: Option<Path>, header: Option<Depth>, overwrite: bool,
            isCopy: bool) returns (status: nat)
      requires WellFormed(tree) && p in tree
      modifies this
      ensures Changed(tree, status) == CopyMove(old(tree), p, dest, header, overwrite, isCopy)
    {
      var depth := CopyDepth(header, isCopy);
      if depth.None? {
        return 400;
      }
      if dest.None? {
        return 403;
      }
      var d := dest.value;
      var destIsFile, destExists := IsFile(tree, d), d in tree;
      if !ParentExists(tree, d) {
        return 409;
      }
      if !overwrite && destExists {
        return 412;
      }
      if p == d {
        return 403;
      }
      CopyMoveFits(tree, p, d, depth.value, overwrite);
      if IsDir(tree, p) && overwrite && destExists && depth.value != Zero && !destIsFile {
        // the destination is a directory, so the removal succeeds
        tree := RemoveDirAll(tree, d).tree;
      }
      if isCopy {
        var ok := DoCopy(p, d, d, !destIsFile, depth.value);
        status := if !ok then 500 else if overwrite && destExists then 204 else 201;
      } else {
        var ok := RenamePath(p, d);
        status := if ok then 201 else 500;
      }
    }

    method HandleUpload(p: Path, body: Bytes, nonce: Bytes) returns (status: nat)
      modifies this
      ensures Changed(tree, status) == Upload(config.key, old(tree), p, body, nonce)
    {
      var parent := EnsureParent(tree, p);
      tree := parent.tree;
      if !parent.ok {
        return 500;
      }
      var created := CreateFile(tree, p);
      if !created.ok {
        return 403;
      }
      tree := created.tree;
      var reader := new File(body);
      var file := new File([]);
      match config.key {
        case Some(a) =>
          var encFile := new EncryptedStreamer(file, a);
          var count := encFile.CopyFrom(reader, nonce);
          WriteFromSucceeds(a, nonce, 0, body);
          assert file.data == nonce + WriteFrom(a, nonce, 0, body).bytes;
          tree := tree[p := FileTrees.File(file.data)];
          status := if count.Some? then 201 else 500;
        case None =>
          var all := reader.ReadUpTo(|body|);
          file.WriteAll(all);
          assert file.data == body;
          tree := tree[p := FileTrees.File(file.data)];
          status := 201;
      }
    }

    method HandleDelete(p: Path, isDir: bool) returns (status: nat)
      requires WellFormed(tree) && isDir == IsDir(tree, p)
      modifies this
      ensures tree == Without(old(tree), p)
      ensures status == if p in old(tree) then 204 else 500
    {
      RemoveTakesAll(tree, p);
      var removed := if isDir then RemoveDirAll(tree, p) else RemoveFile(tree, p);
      tree := removed.tree;
      status := if removed.ok then 204 else 500;
    }

    method HandleMkcol(p: Path) returns (status: nat)
      modifies this
      ensures status in {201, 409}
      ensures status == 201 <==> p !in old(tree) && ParentIsDir(old(tree), p)
      ensures tree == if status == 201 then old(tree)[p := Dir] else old(tree)
    {
      var made := CreateDir(tree, p);
      tree := made.tree;
      status := if made.ok then 201 else 409;
    }

    // -------------------------------------------------------------- requests that read

    /** Opens the file and streams a part of it into the body of head. */
    method SendRange(stored: Bytes, start: nat, partSize: nat, head: Response) returns (res: Response)
      ensures res == PartBody(config.key, stored, start, partSize, head)
    {
      var file := new File(stored);
      match config.key {
        case Some(a) =>
          var encrypted := new EncryptedStreamer(file, a);
          var items, ending := encrypted.IntoStreamSized(start, partSize);
          res := head.(body := Flatten(items), ending := ending);
        case None =>
          var ok := file.Seek(start);
          if !ok {
            return Status(500);
          }
          var reader := new Streamer(file, BUF_SIZE);
          var items := reader.IntoStreamSized(partSize);
          res := head.(body := Flatten(items));
      }
    }

    method SendFilePart(stored: Bytes, range: RangeValue, headOnly: bool) returns (res: Response)
      ensures res == SendPart(config.key, stored, range, headOnly)
    {
      var size: int := PlainSize(config.key, stored);
      var start, wanted := range.start, range.end;
      res := Status(200);
      if if wanted.Some? then wanted.value >= start else start < size {
        var last := Wrap64(size - 1);
        var end := if wanted.Some? then Min(wanted.value, last) else last;
        var partSize := Wrap64(end - start + 1);
        res := res.(status := 206, range := Some(Part(start, end, size)), length := Some(partSize));
        if !headOnly {
          res := SendRange(stored, start, partSize, res);
        }
      } else {
        res := res.(status := 416, range := Some(Unsatisfied(size)));
      }
    }

    /** Opens the file and streams all of it into the body of head. */
    method SendWhole(stored: Bytes, head: Response) returns (res: Response)
      ensures res == match config.key
        case Some(a) => StreamBody(head, Decrypt(a, stored))
        case None => head.(body := stored)
    {
      var file := new File(stored);
      match config.key {
        case Some(a) =>
          var encrypted := new EncryptedStreamer(file, a);
          var items, ending := encrypted.IntoStream();
          res := head.(body := Flatten(items), ending := ending);
        case None =>
          var reader := new Streamer(file, BUF_SIZE);
          var items := reader.IntoStream();
          res := head.(body := Flatten(items));
      }
    }

    method HandleSendFile(p: Path, rangeHeader: Option<string>, headOnly: bool) returns (res: Response)
      requires IsFile(tree, p)
      ensures res == SendFile(config.key, tree[p].content, rangeHeader, headOnly)
    {
      var range := if rangeHeader.Some? then ParseRange(rangeHeader.value) else None;
      if range.Some? {
        res := SendFilePart(tree[p].content, range.value, headOnly);
      } else {
        res := Status(200).(length := Some(PlainSize(config.key, tree[p].content)));
        if !headOnly {
          res := SendWhole(tree[p].content, res);
        }
      }
    }

    method HandlePropfind(p: Path, level: PropfindDepth) returns (res: Response)
      ensures res == PropfindResponse(config.key, tree, p, level)
    {
      if p !in tree {
        return Status(404);
      }
      if tree[p].Dir? && level == Malformed {
        return Status(400);
      }
      var listing := map[p := ItemSize(config.key, tree[p])];
      assert listing == Listing(config.key, tree, {p});
      if tree[p].Dir? && level != Level(0) {
        var rest := Children(tree, p);
        while rest != {}
          invariant rest <= Children(tree, p)
          invariant listing == Listing(config.key, tree, {p} + (Children(tree, p) - rest))
          decreases rest
        {
          var entry :| entry in rest;
          ListingNext(config.key, tree, {p} + (Children(tree, p) - rest), entry);
          assert {p} + (Children(tree, p) - rest) + {entry} == {p} + (Children(tree, p) - (rest - {entry}));
          listing := listing[entry := ItemSize(config.key, tree[entry])];
          rest := rest - {entry};
        }
      }
      res := Status(207).(listing := listing);
    }

    // -------------------------------------------------------------- dispatch

    method Handle(req: Request) returns (res: Response)
      requires WellFormed(tree)
      modifies this
      ensures Served(tree, res) == Serve(config, old(tree), req)
    {
      if req.path.None? {
        return Status(403);
      }
      var p := req.path.value;
      var isMiss, isDir, isFile := p !in tree, IsDir(tree, p), IsFile(tree, p);
      var status: nat;
      match req {
        case Get(_, rangeHeader, headOnly) =>
          if isDir {
            return Status(200);
          } else if isFile {
            res := HandleSendFile(p, rangeHeader, headOnly);
            return;
          }
          status := 404;
        case Put(_, body, nonce) =>
          if !config.writable {
            status := 403;
          } else {
            status := HandleUpload(p, body, nonce);
          }
        case Delete(_) =>
          if !config.writable {
            status := 403;
          } else if !isMiss {
            RemoveTakesAll(tree, p);
            status := HandleDelete(p, isDir);
          } else {
            status := 404;
          }
        case Mkcol(_, hasBody) =>
          if !config.writable {
            status := 403;
          } else if !isMiss {
            status := 405;
          } else if hasBody {
            status := 415;
          } else {
            status := HandleMkcol(p);
          }
        case Copy(_, dest, depth, overwrite) =>
          if !config.writable {
            status := 403;
          } else if isMiss {
            status := 404;
          } else {
            status := HandleCopyMove(p, dest, depth, overwrite, true);
          }
        case Move(_, dest, depth, overwrite) =>
          if !config.writable {
            status := 403;
          } else if isMiss {
            status := 404;
          } else {
            status := HandleCopyMove(p, dest, depth, overwrite, false);
          }
        case Propfind(_, level) =>
          res := HandlePropfind(p, level);
          return;
      }
      res := Status(status);
    }
  }
}
