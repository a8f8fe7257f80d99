/** COPY and MOVE against what RFC 4918 says they mean. */
module CopyMeaning {
  import opened ByteStreams
  import opened FileTrees
  import opened Copying
  import opened Requests

  // ---------------------------------------------------------------- what the requests mean

  /**
   * Section 9.8.3 and 9.8.4 of RFC 4918, at one path: below d stands what stood below s, except for
   * what lay at or below d itself when d is inside s; everywhere else nothing has changed.
   */
  ghost predicate CopiedAt(t: Tree, u: Tree, s: Path, d: Path, q: Path) {
    if d <= q then
      var x := Origin(s, d, q);
      (q in u <==> x in t && !(s <= d && d <= x)) && (q in u ==> u[q] == t[x])
    else SameAt(u, t, q)
  }

  ghost predicate IsCopy(t: Tree, u: Tree, s: Path, d: Path) {
    forall q :: CopiedAt(t, u, s, d, q)
  }

  /** Section 9.9 of RFC 4918, at one path: below d stands what stood below s, and nothing is left there. */
  ghost predicate MovedAt(t: Tree, u: Tree, s: Path, d: Path, q: Path) {
    if d <= q then
      var x := Origin(s, d, q);
      (q in u <==> x in t) && (q in u ==> u[q] == t[x])
    else if s <= q then q !in u
    else SameAt(u, t, q)
  }

  ghost predicate IsMove(t: Tree, u: Tree, s: Path, d: Path) {
    forall q :: MovedAt(t, u, s, d, q)
  }

  ghost function AfterCopy(t: Tree, s: Path, d: Path, overwrite: bool): Tree {
    CopyMove(t, s, Some(d), Some(Infinity), overwrite, true).tree
  }

  ghost function AfterMove(t: Tree, s: Path, d: Path, overwrite: bool): Tree {
    CopyMove(t, s, Some(d), Some(Infinity), overwrite, false).tree
  }

  ghost function AfterDelete(t: Tree, p: Path): Tree {
    if p in t then Remove(t, p).tree else t
  }

  // ---------------------------------------------------------------- COPY

  /** Paths above a common path lie one above the other. */
  lemma Comparable(s: Path, d: Path, x: Path)
    requires s <= x && d <= x
    ensures s <= d || d <= s
  {
    if |s| <= |d| {
      assert s == d[..|s|];
    } else {
      assert d == s[..|d|];
    }
  }

  /** The old destination, a collection or nothing, is gone before the copy starts. */
  lemma ClearedAt(t: Tree, s: Path, d: Path, overwrite: bool, q: Path)
    requires WellFormed(t) && IsDir(t, s) && !IsFile(t, d) && (overwrite || d !in t)
    ensures Cleared(t, s, d, Infinity, overwrite) == (if d in t then Without(t, d) else t)
    ensures if d <= q then q !in Cleared(t, s, d, Infinity, overwrite)
      else SameAt(Cleared(t, s, d, Infinity, overwrite), t, q)
  {
    if d <= q && d !in t && q != d {
      NothingBelow(t, d, q);
    }
  }

  /** A parent outside the destination survives the clearing. */
  lemma ClearedParent(t: Tree, s: Path, d: Path, overwrite: bool)
    requires WellFormed(t) && IsDir(t, s) && !IsFile(t, d) && (overwrite || d !in t) && ParentIsDir(t, d)
    ensures ParentIsDir(Cleared(t, s, d, Infinity, overwrite), d)
  {
    if d != [] {
      ClearedAt(t, s, d, overwrite, Parent(d));
    }
  }

  ghost predicate ClearedOf(t: Tree, cleared: Tree, d: Path) {
    forall q :: if d <= q then q !in cleared else SameAt(cleared, t, q)
  }

  lemma ClearedIsOf(t: Tree, s: Path, d: Path, overwrite: bool)
    requires WellFormed(t) && IsDir(t, s) && !IsFile(t, d) && (overwrite || d !in t)
    ensures ClearedOf(t, Cleared(t, s, d, Infinity, overwrite), d)
  {
    forall q
      ensures if d <= q then q !in Cleared(t, s, d, Infinity, overwrite)
        else SameAt(Cleared(t, s, d, Infinity, overwrite), t, q)
    {
      ClearedAt(t, s, d, overwrite, q);
    }
  }

  /** What the copying is done on: the tree without the old destination. */
  lemma CopyGrafts(t: Tree, s: Path, d: Path, overwrite: bool)
    requires WellFormed(t) && IsDir(t, s) && (overwrite || d !in t)
    requires ParentIsDir(t, d) && !(d <= s) && !IsFile(t, d)
    ensures
      var cleared := Cleared(t, s, d, Infinity, overwrite);
      && ClearedOf(t, cleared, d)
      && Reach(cleared, s, d) == Reach(t, s, d)
      && AfterCopy(t, s, d, overwrite) == Graft(cleared, cleared, s, d, Reach(t, s, d))
  {
    var cleared := Cleared(t, s, d, Infinity, overwrite);
    ClearedIsOf(t, s, d, overwrite);
    assert SameAt(cleared, t, s);
    ClearedParent(t, s, d, overwrite);
    forall x
      ensures x in Reach(cleared, s, d) <==> x in Reach(t, s, d)
    {
      assert if d <= x then x !in cleared else SameAt(cleared, t, x);
    }
    assert Reach(cleared, s, d) == Reach(t, s, d);
  }

  lemma CollectionCopied(t: Tree, s: Path, d: Path, overwrite: bool)
    requires WellFormed(t) && IsDir(t, s) && (overwrite || d !in t)
    requires ParentIsDir(t, d) && !(d <= s) && !IsFile(t, d)
    ensures IsCopy(t, AfterCopy(t, s, d, overwrite), s, d)
  {
    CopyGrafts(t, s, d, overwrite);
    var cleared := Cleared(t, s, d, Infinity, overwrite);
    forall q
      ensures CopiedAt(t, AfterCopy(t, s, d, overwrite), s, d, q)
    {
      assert if d <= q then q !in cleared else SameAt(cleared, t, q);
      if d <= q {
        var x := Origin(s, d, q);
        if d <= x {
          Comparable(s, d, x);
        }
      }
    }
  }

  /** A copy with the right meaning makes the destination what the source was. */
  lemma CopyHasDestination(t: Tree, u: Tree, s: Path, d: Path)
    requires IsCopy(t, u, s, d) && s in t && s != d
    ensures d in u && u[d] == t[s]
  {
    assert CopiedAt(t, u, s, d, d);
    assert Origin(s, d, d) == s;
  }

  lemma CollectionNotCopied(t: Tree, s: Path, d: Path, overwrite: bool)
    requires WellFormed(t) && IsDir(t, s) && (overwrite || d !in t)
    requires s == d || !ParentIsDir(t, d) || d <= s || IsFile(t, d)
    ensures !IsCopy(t, AfterCopy(t, s, d, overwrite), s, d)
  {
    var u := AfterCopy(t, s, d, overwrite);
    if s == d {
      assert Origin(s, d, s) == s;
      assert !CopiedAt(t, u, s, d, s);
    } else if IsCopy(t, u, s, d) {
      CopyHasDestination(t, u, s, d);
      if d <= s {
        AncestorIsDir(t, d, s);
      }
    }
  }

  /**
   * COPY of a collection with Depth infinity does what RFC 4918 says exactly when the parent of the
   * destination is a collection, the destination is not a file, and it is neither the source nor an
   * ancestor of it. The destination may lie inside the source.
   */
  lemma CopyOfCollection(t: Tree, s: Path, d: Path, overwrite: bool)
    requires WellFormed(t) && IsDir(t, s) && (overwrite || d !in t)
    ensures IsCopy(t, AfterCopy(t, s, d, overwrite), s, d) <==> ParentIsDir(t, d) && !IsFile(t, d) && !(d <= s)
  {
    if ParentIsDir(t, d) && !IsFile(t, d) && !(d <= s) {
      CollectionCopied(t, s, d, overwrite);
    } else {
      CollectionNotCopied(t, s, d, overwrite);
    }
  }

  /**
   * The checks at the front, in their order: a request that does not pass them changes nothing. Its depth is
   * looked at first, then whether there is a destination, its parent, the overwrite flag, and last whether
   * source and destination are the same.
   */
  lemma CheckAnswers(t: Tree, s: Path, dest: Option<Path>, header: Option<Depth>, overwrite: bool, isCopy: bool)
    ensures
      var r := CopyMove(t, s, dest, header, overwrite, isCopy);
      var depthFits := header in {None, Some(Infinity)} || (isCopy && header == Some(Zero));
      && (r.status == 400 <==> !depthFits)
      && (r.status == 409 <==> depthFits && dest.Some? && !ParentExists(t, dest.value))
      && (r.status == 412 <==>
            depthFits && dest.Some? && ParentExists(t, dest.value) && !overwrite && dest.value in t)
      && (r.status == 403 <==>
            depthFits && (dest.Some? ==>
              ParentExists(t, dest.value) && (overwrite || dest.value !in t) && s == dest.value))
      && (r.status in {400, 403, 409, 412} ==> r.tree == t)
      && r.status in {400, 403, 409, 412} + (if isCopy then {201, 204, 500} else {201, 500})
  {
    hide CopyResult, Rename, Cleared;
  }

  lemma MissingDepth(t: Tree, s: Path, d: Path, header: Option<Depth>, overwrite: bool, isCopy: bool)
    requires header in {None, Some(Infinity)}
    ensures CopyMove(t, s, Some(d), header, overwrite, isCopy)
         == CopyMove(t, s, Some(d), Some(Infinity), overwrite, isCopy)
  {
    hide CopyResult, Rename, Cleared;
  }

  /** COPY with Depth 0 makes the collection if it can, and is answered the same if it cannot. */
  lemma ShallowCopyResult(t: Tree, s: Path, d: Path, overwrite: bool)
    requires IsDir(t, s) && (overwrite || d !in t) && ParentExists(t, d) && s != d
    ensures CopyMove(t, s, Some(d), Some(Zero), overwrite, true)
         == Changed(if d !in t && ParentIsDir(t, d) then t[d := Dir] else t, if d in t then 204 else 201)
  {
  }

  predicate HoldsNoFile(t: Tree, s: Path, d: Path) {
    forall x | x in Reach(t, s, d) :: t[x].Dir?
  }

  /** What a copy in depth is answered: where it cannot be carried out, each file it meets is an error. */
  lemma DeepCopyAnswers(t: Tree, s: Path, d: Path, overwrite: bool)
    requires WellFormed(t) && IsDir(t, s) && (overwrite || d !in t) && ParentExists(t, d) && !(d <= s)
    ensures
      var r := CopyMove(t, s, Some(d), Some(Infinity), overwrite, true);
      var good := if d in t then 204 else 201;
      if ParentIsDir(t, d) && !IsFile(t, d) then r.status == good
      else r == Changed(t, if HoldsNoFile(t, s, d) then good else 500)
  {
    if ParentIsDir(t, d) && !IsFile(t, d) {
      CopyGrafts(t, s, d, overwrite);
      ClearedParent(t, s, d, overwrite);
      assert SameAt(Cleared(t, s, d, Infinity, overwrite), t, s);
    } else if !ParentIsDir(t, d) {
      NothingBelow(t, Parent(d), d);
    }
  }

  /** A collection copied onto one above it is removed with it. */
  lemma CopyAbove(t: Tree, s: Path, d: Path, overwrite: bool)
    requires WellFormed(t) && IsDir(t, s) && d <= s && s != d && overwrite
    ensures IsDir(t, d) && CopyMove(t, s, Some(d), Some(Infinity), overwrite, true) == Changed(Without(t, d), 500)
  {
    AncestorIsDir(t, d, s);
    assert ParentIsDir(t, d);
  }

  /**
   * When COPY of a collection is answered 201 or 204. That does not mean that it has been carried out: if
   * the parent of the destination is no collection or the destination is a file, nothing has changed, and
   * the answer is the same as long as there is no file to copy, or whatever there is with Depth 0.
   */
  lemma CopyAnswers(t: Tree, s: Path, d: Path, header: Option<Depth>, overwrite: bool)
    requires WellFormed(t) && IsDir(t, s)
    ensures
      var r := CopyMove(t, s, Some(d), header, overwrite, true);
      && (r.status in {201, 204} <==>
            && header != Some(One) && (overwrite || d !in t) && ParentExists(t, d) && s != d
            && (|| header == Some(Zero)
                || (!(d <= s) && ((ParentIsDir(t, d) && !IsFile(t, d)) || HoldsNoFile(t, s, d)))))
      && (r.status in {201, 204} ==> r.status == if d in t then 204 else 201)
      && (r.status in {201, 204} && header == Some(Zero) ==>
            r.tree == if d !in t && ParentIsDir(t, d) then t[d := Dir] else t)
      && (r.status in {201, 204} && header != Some(Zero) ==>
            if ParentIsDir(t, d) && !IsFile(t, d) then IsCopy(t, r.tree, s, d)
            else r.tree == t && !IsCopy(t, r.tree, s, d))
  {
    hide CopyMove, IsCopy;
    if header == Some(One) || !(overwrite || d !in t) || !ParentExists(t, d) || s == d {
      CheckAnswers(t, s, Some(d), header, overwrite, true);
    } else if header == Some(Zero) {
      ShallowCopyResult(t, s, d, overwrite);
    } else {
      assert header.None? || header.value == Infinity;
      MissingDepth(t, s, d, header, overwrite, true);
      CopyOfCollection(t, s, d, overwrite);
      if d <= s {
        AncestorIsDir(t, d, s);
        CopyAbove(t, s, d, overwrite);
      } else {
        DeepCopyAnswers(t, s, d, overwrite);
      }
    }
  }

  lemma FileOverwritten(t: Tree, s: Path, d: Path, overwrite: bool)
    requires WellFormed(t) && IsFile(t, s) && s != d && overwrite && IsFile(t, d)
    ensures AfterCopy(t, s, d, overwrite) == t[d := t[s]]
  {
    assert d != [] && ParentIsDir(t, d);
  }

  lemma FileCopiedAt(t: Tree, s: Path, d: Path, q: Path)
    requires WellFormed(t) && IsFile(t, s) && IsFile(t, d) && s != d
    ensures CopiedAt(t, t[d := t[s]], s, d, q)
  {
    if s <= d {
      AncestorIsDir(t, s, d);
    }
    if d <= q {
      var x := Origin(s, d, q);
      if q == d {
        assert x == s;
      } else {
        NothingBelow(t, d, q);
        assert x != s;
        NothingBelow(t, s, x);
      }
    }
  }

  lemma DestinationNotMadeFile(t: Tree, s: Path, d: Path, overwrite: bool)
    requires WellFormed(t) && IsFile(t, s) && s != d && (overwrite || d !in t) && !IsFile(t, d)
    ensures !IsFile(AfterCopy(t, s, d, overwrite), d)
  {
    assert Parent(d + [s[|s| - 1]]) == d;
  }

  /** COPY of a file does what RFC 4918 says exactly when it overwrites another file. */
  lemma CopyOfFile(t: Tree, s: Path, d: Path, overwrite: bool)
    requires WellFormed(t) && IsFile(t, s) && s != d && (overwrite || d !in t)
    ensures IsCopy(t, AfterCopy(t, s, d, overwrite), s, d) <==> IsFile(t, d)
  {
    var u := AfterCopy(t, s, d, overwrite);
    if IsFile(t, d) {
      FileOverwritten(t, s, d, overwrite);
      forall q
        ensures CopiedAt(t, u, s, d, q)
      {
        FileCopiedAt(t, s, d, q);
      }
    } else if IsCopy(t, u, s, d) {
      CopyHasDestination(t, u, s, d);
      DestinationNotMadeFile(t, s, d, overwrite);
    }
  }

  lemma CopyFileToFree(t: Tree, s: Path, d: Path)
    requires IsFile(t, s) && d != [] && d !in t && ParentIsDir(t, d)
    ensures CopyFile(t, s, d) == Outcome(t[d := t[s]], true)
  {
    assert t[d := File([])][d := t[s]] == t[d := t[s]];
  }

  /** To a free place, COPY of a file makes a collection there and puts the file inside, under its old name. */
  lemma CopyOfFileNests(t: Tree, s: Path, d: Path, overwrite: bool)
    requires WellFormed(t) && IsFile(t, s) && d !in t && ParentIsDir(t, d)
    ensures AfterCopy(t, s, d, overwrite) == t[d := Dir][d + [s[|s| - 1]] := t[s]]
  {
    var u, inside := t[d := Dir], d + [s[|s| - 1]];
    assert Parent(inside) == d;
    NothingBelow(t, d, inside);
    CopyFileToFree(u, s, inside);
  }

  /**
   * A copy of a file that works: over a file at the destination; or else inside the collection there, which is
   * made if there is none, under its old name. The copy onto itself that this can be leaves an empty file.
   */
  ghost function FileCopied(t: Tree, s: Path, d: Path): Tree
    requires IsFile(t, s) && s != []
  {
    var inside := d + [s[|s| - 1]];
    var u := if d in t then t else t[d := Dir];
    if IsFile(t, d) then t[d := t[s]] else u[inside := if inside == s then File([]) else t[s]]
  }

  lemma UpdateTwice(t: Tree, p: Path, x: Node, y: Node)
    ensures t[p := x][p := y] == t[p := y]
  {
  }

  lemma CopyFileOver(t: Tree, s: Path, d: Path)
    requires IsFile(t, s)
    ensures CopyFile(t, s, d) ==
      if d != [] && ParentIsDir(t, d) && !IsDir(t, d) then Outcome(t[d := if s == d then File([]) else t[s]], true)
      else Outcome(t, false)
  {
    UpdateTwice(t, d, File([]), if s == d then File([]) else t[s]);
  }

  /** What a copy of a file comes to, and that it fails before it changes anything. */
  lemma FileCopyResult(t: Tree, s: Path, d: Path, depth: Depth)
    requires WellFormed(t) && IsFile(t, s) && s != d
    ensures
      var r := CopyResult(t, s, d, d, !IsFile(t, d), depth);
      && (r.ok <==> ParentIsDir(t, d) && (IsFile(t, d) || !IsDir(t, d + [s[|s| - 1]])))
      && r.tree == if r.ok then FileCopied(t, s, d) else t
  {
    hide CopyFile;
    var inside, u := d + [s[|s| - 1]], CreateDir(t, d).tree;
    assert Parent(inside) == d;
    assert d in t ==> ParentIsDir(t, d);
    if d !in t {
      NothingBelow(t, d, inside);
    }
    CopyFileOver(u, s, inside);
    CopyFileOver(t, s, d);
  }

  /**
   * When COPY of a file is answered 201 or 204, with Depth 0 as with infinity: whenever a file stands at the
   * destination, or nothing keeps the file from being put inside a collection there.
   */
  lemma FileCopyAnswers(t: Tree, s: Path, d: Path, header: Option<Depth>, overwrite: bool)
    requires WellFormed(t) && IsFile(t, s)
    ensures
      var r := CopyMove(t, s, Some(d), header, overwrite, true);
      && (r.status in {201, 204} <==>
            && header != Some(One) && (overwrite || d !in t) && s != d
            && ParentIsDir(t, d) && (IsFile(t, d) || !IsDir(t, d + [s[|s| - 1]])))
      && (r.status in {201, 204} ==> r.status == (if d in t then 204 else 201) && r.tree == FileCopied(t, s, d))
      && (r.status >= 400 ==> r.tree == t)
  {
    hide CopyResult, Rename, FileCopied;
    assert ParentIsDir(t, d) ==> ParentExists(t, d);
    if s != d && header != Some(One) {
      FileCopyResult(t, s, d, CopyDepth(header, true).value);
    }
  }

  // ---------------------------------------------------------------- Depth

  /** Section 9.8.3 of RFC 4918 for Depth 0: at d stands a collection without members; nothing else has changed. */
  ghost predicate IsShallowCopy(t: Tree, u: Tree, d: Path) {
    IsDir(u, d) && forall q | q != d :: if d <= q then q !in u else SameAt(u, t, q)
  }

  lemma NoMembers(t: Tree, d: Path, q: Path)
    requires WellFormed(t) && Children(t, d) == {} && d <= q && q != d
    ensures q !in t
  {
    var c := q[..|d| + 1];
    assert c in t ==> c in Children(t, d);
    if q in t && c != q {
      AncestorIsDir(t, c, q);
    }
  }

  /**
   * COPY of a collection with Depth 0 does what RFC 4918 says exactly when the parent of the destination
   * is a collection, and the destination is free or a collection without members: an old destination is
   * not removed first.
   */
  lemma ShallowCopy(t: Tree, s: Path, d: Path, overwrite: bool)
    requires WellFormed(t) && IsDir(t, s) && s != d && (overwrite || d !in t)
    ensures IsShallowCopy(t, CopyMove(t, s, Some(d), Some(Zero), overwrite, true).tree, d) <==>
      ParentIsDir(t, d) && !IsFile(t, d) && Children(t, d) == {}
  {
    var u := CopyMove(t, s, Some(d), Some(Zero), overwrite, true).tree;
    if ParentIsDir(t, d) && !IsFile(t, d) && Children(t, d) == {} {
      assert u == t[d := Dir];
      forall q | q != d
        ensures if d <= q then q !in u else SameAt(u, t, q)
      {
        if d <= q {
          NoMembers(t, d, q);
        }
      }
    } else if ParentIsDir(t, d) && !IsFile(t, d) {
      var q :| q in Children(t, d);
      assert q in u && d <= q && q != d;
    }
  }

  // ---------------------------------------------------------------- MOVE

  lemma RenameToFree(t: Tree, s: Path, d: Path)
    requires s in t && ParentIsDir(t, d) && !(s <= d) && forall q | d <= q :: q !in t
    ensures Rename(t, s, d).tree == Graft(Without(Without(t, s), d), t, s, d, Below(t, s))
  {
    assert Children(t, d) == {};
  }

  /** What the renaming is done on: for a collection, the tree without the old destination. */
  lemma MoveRenames(t: Tree, s: Path, d: Path, overwrite: bool)
    requires WellFormed(t) && s in t && (overwrite || d !in t)
    requires ParentIsDir(t, d) && !(s <= d) && !(d <= s)
    requires if IsDir(t, s) then !IsFile(t, d) else !IsDir(t, d)
    ensures
      var cleared := Cleared(t, s, d, Infinity, overwrite);
      && (if IsDir(t, s) then ClearedOf(t, cleared, d) else cleared == t)
      && AfterMove(t, s, d, overwrite) == Graft(Without(Without(cleared, s), d), cleared, s, d, Below(cleared, s))
  {
    var cleared := Cleared(t, s, d, Infinity, overwrite);
    assert AfterMove(t, s, d, overwrite) == Rename(cleared, s, d).tree;
    if IsDir(t, s) {
      ClearedIsOf(t, s, d, overwrite);
      assert SameAt(cleared, t, s);
      ClearedParent(t, s, d, overwrite);
      RenameToFree(cleared, s, d);
    }
  }

  lemma MovedByRename(t: Tree, s: Path, d: Path, overwrite: bool)
    requires WellFormed(t) && s in t && (overwrite || d !in t)
    requires ParentIsDir(t, d) && !(s <= d) && !(d <= s)
    requires if IsDir(t, s) then !IsFile(t, d) else !IsDir(t, d)
    ensures IsMove(t, AfterMove(t, s, d, overwrite), s, d)
  {
    MoveRenames(t, s, d, overwrite);
    var cleared := Cleared(t, s, d, Infinity, overwrite);
    forall q
      ensures MovedAt(t, AfterMove(t, s, d, overwrite), s, d, q)
    {
      assert if d <= q && IsDir(t, s) then q !in cleared else SameAt(cleared, t, q);
      if d <= q {
        var x := Origin(s, d, q);
        if d <= x {
          Comparable(s, d, x);
        }
        assert SameAt(cleared, t, x);
      }
    }
  }

  lemma RenameFails(t: Tree, s: Path, d: Path)
    requires WellFormed(t) && s in t && s != d
    requires !ParentIsDir(t, d) || s <= d || (if IsDir(t, s) then IsFile(t, d) else IsDir(t, d))
    ensures Rename(t, s, d) == Outcome(t, false)
  {
    if s <= d && IsFile(t, s) && ParentIsDir(t, d) && s != Parent(d) {
      NothingBelow(t, s, Parent(d));
    }
  }

  /** A MOVE that is refused or fails leaves the source where it was, unless the destination was above it. */
  lemma MoveFails(t: Tree, s: Path, d: Path, overwrite: bool)
    requires WellFormed(t) && s in t && (s == d || !(d <= s))
    requires !(overwrite || d !in t) || !ParentIsDir(t, d) || s <= d
             || (if IsDir(t, s) then IsFile(t, d) else IsDir(t, d))
    ensures SameAt(AfterMove(t, s, d, overwrite), t, s)
  {
    hide Rename;
    if s != d && (overwrite || d !in t) && ParentExists(t, d) {
      var cleared := Cleared(t, s, d, Infinity, overwrite);
      assert AfterMove(t, s, d, overwrite) == Rename(cleared, s, d).tree;
      WithoutKeeps(t, d);
      assert SameAt(cleared, t, s);
      assert !ParentIsDir(t, d) ==> !ParentIsDir(cleared, d);
      RenameFails(cleared, s, d);
    }
  }

  /** A collection moved onto one above it is removed with it; a file there stays. */
  lemma MoveAbove(t: Tree, s: Path, d: Path, overwrite: bool)
    requires WellFormed(t) && s in t && d <= s && s != d && overwrite
    ensures IsDir(t, d)
    ensures CopyMove(t, s, Some(d), Some(Infinity), overwrite, false)
         == Changed(if IsDir(t, s) then Without(t, d) else t, 500)
  {
    AncestorIsDir(t, d, s);
    assert d == [] || ParentIsDir(t, d);
  }

  /**
   * MOVE does what RFC 4918 says exactly when the parent of the destination is a collection, neither
   * path is at or above the other, and the destination is not of the other kind than the source.
   */
  lemma MoveOfAnything(t: Tree, s: Path, d: Path, overwrite: bool)
    requires WellFormed(t) && s in t && s != d && (overwrite || d !in t)
    ensures IsMove(t, AfterMove(t, s, d, overwrite), s, d) <==>
      && ParentIsDir(t, d) && !(s <= d) && !(d <= s)
      && if IsDir(t, s) then !IsFile(t, d) else !IsDir(t, d)
  {
    var u := AfterMove(t, s, d, overwrite);
    if ParentIsDir(t, d) && !(s <= d) && !(d <= s) && if IsDir(t, s) then !IsFile(t, d) else !IsDir(t, d) {
      MovedByRename(t, s, d, overwrite);
    } else if d <= s {
      AncestorIsDir(t, d, s);
      MoveAbove(t, s, d, overwrite);
      assert Origin(s, d, d) == s;
      assert !MovedAt(t, u, s, d, d);
    } else {
      MoveFails(t, s, d, overwrite);
      assert !MovedAt(t, u, s, d, s);
    }
  }

  /** The renaming that a MOVE comes to works exactly when the two paths suit each other. */
  lemma MoveRenameWorks(t: Tree, s: Path, d: Path, overwrite: bool)
    requires WellFormed(t) && s in t && s != d && !(d <= s) && (overwrite || d !in t) && ParentExists(t, d)
    ensures
      var r := Rename(Cleared(t, s, d, Infinity, overwrite), s, d);
      && (r.ok <==> ParentIsDir(t, d) && !(s <= d) && if IsDir(t, s) then !IsFile(t, d) else !IsDir(t, d))
      && (!r.ok ==> r.tree == Cleared(t, s, d, Infinity, overwrite))
  {
    var cleared := Cleared(t, s, d, Infinity, overwrite);
    WithoutKeeps(t, d);
    assert SameAt(cleared, t, s);
    if ParentIsDir(t, d) && !(s <= d) && if IsDir(t, s) then !IsFile(t, d) else !IsDir(t, d) {
      if IsDir(t, s) {
        ClearedParent(t, s, d, overwrite);
        ClearedIsOf(t, s, d, overwrite);
        assert Children(cleared, d) == {};
      }
    } else {
      assert !ParentIsDir(t, d) ==> !ParentIsDir(cleared, d);
      RenameFails(cleared, s, d);
    }
  }

  /**
   * MOVE is answered 201 exactly when its depth is infinity or missing, it is allowed to overwrite or need
   * not, and it can be carried out; any other depth is answered 400.
   */
  lemma MoveAnswers(t: Tree, s: Path, d: Path, header: Option<Depth>, overwrite: bool)
    requires WellFormed(t) && s in t
    ensures
      var r := CopyMove(t, s, Some(d), header, overwrite, false);
      && (r.status == 201 <==>
            && header in {None, Some(Infinity)} && (overwrite || d !in t)
            && ParentIsDir(t, d) && !(s <= d) && !(d <= s)
            && if IsDir(t, s) then !IsFile(t, d) else !IsDir(t, d))
      && (header !in {None, Some(Infinity)} ==> r == Changed(t, 400))
      && (header in {None, Some(Infinity)} && !overwrite && d in t ==> r == Changed(t, 412))
  {
    hide CopyResult, Rename, Cleared;
    assert d in t ==> ParentIsDir(t, d);
    if header in {None, Some(Infinity)} && (overwrite || d !in t) && s != d && ParentExists(t, d) {
      if d <= s {
        AncestorIsDir(t, d, s);
        MissingDepth(t, s, d, header, overwrite, false);
        MoveAbove(t, s, d, overwrite);
      } else {
        MoveRenameWorks(t, s, d, overwrite);
      }
    }
  }

  // ---------------------------------------------------------------- errors

  /**
   * The COPY and MOVE requests that destroy what they should only have read or replaced: the old destination,
   * a collection, is removed first, and then the source is gone with it, or would have to move into itself.
   */
  predicate Destroys(t: Tree, s: Path, dest: Option<Path>, header: Option<Depth>, overwrite: bool, isCopy: bool) {
    && dest.Some? && header in {None, Some(Infinity)} && overwrite && s != dest.value
    && IsDir(t, s) && IsDir(t, dest.value)
    && (dest.value <= s || (!isCopy && s <= dest.value))
  }

  /** Such a request is answered 500, and all that stood at or below the destination is gone. */
  lemma DestroysDestination(t: Tree, s: Path, dest: Option<Path>, header: Option<Depth>, overwrite: bool, isCopy: bool)
    requires WellFormed(t) && Destroys(t, s, dest, header, overwrite, isCopy)
    ensures CopyMove(t, s, dest, header, overwrite, isCopy) == Changed(Without(t, dest.value), 500)
    ensures dest.value <= s ==> s !in CopyMove(t, s, dest, header, overwrite, isCopy).tree
  {
    var d := dest.value;
    assert ParentIsDir(t, d);
    if d <= s {
      if isCopy {
        CopyAbove(t, s, d, overwrite);
      } else {
        MoveAbove(t, s, d, overwrite);
      }
    } else {
      WithoutKeeps(t, d);
      RenameFails(Without(t, d), s, d);
    }
  }

  lemma NoDestinationRefused(t: Tree, s: Path, header: Option<Depth>, overwrite: bool, isCopy: bool)
    ensures CopyMove(t, s, None, header, overwrite, isCopy).tree == t
  {
  }

  lemma FailedCopyKeeps(t: Tree, s: Path, d: Path, header: Option<Depth>, overwrite: bool)
    requires WellFormed(t) && s in t && CopyMove(t, s, Some(d), header, overwrite, true).status >= 400
    requires !Destroys(t, s, Some(d), header, overwrite, true)
    ensures CopyMove(t, s, Some(d), header, overwrite, true).tree == t
  {
    hide CopyMove, IsCopy, HoldsNoFile;
    if IsFile(t, s) {
      FileCopyAnswers(t, s, d, header, overwrite);
    } else if CopyDepth(header, true).None? || !ParentExists(t, d) || !(overwrite || d !in t) || s == d {
      CheckAnswers(t, s, Some(d), header, overwrite, true);
    } else if header == Some(Zero) {
      ShallowCopyResult(t, s, d, overwrite);
    } else {
      MissingDepth(t, s, d, header, overwrite, true);
      if d <= s {
        AncestorIsDir(t, d, s);
      } else {
        DeepCopyAnswers(t, s, d, overwrite);
      }
    }
  }

  lemma NothingCleared(t: Tree, s: Path, d: Path, overwrite: bool)
    requires !(IsDir(t, s) && IsDir(t, d) && overwrite)
    ensures Cleared(t, s, d, Infinity, overwrite) == t
  {
  }

  lemma FailedMoveKeeps(t: Tree, s: Path, d: Path, header: Option<Depth>, overwrite: bool)
    requires WellFormed(t) && s in t && CopyMove(t, s, Some(d), header, overwrite, false).status >= 400
    requires !Destroys(t, s, Some(d), header, overwrite, false)
    ensures CopyMove(t, s, Some(d), header, overwrite, false).tree == t
  {
    hide CopyResult, Rename, Cleared;
    assert d in t ==> ParentIsDir(t, d);
    if CopyDepth(header, false).None? || !ParentExists(t, d) || !(overwrite || d !in t) || s == d {
      CheckAnswers(t, s, Some(d), header, overwrite, false);
    } else if d <= s {
      AncestorIsDir(t, d, s);
      MissingDepth(t, s, d, header, overwrite, false);
      MoveAbove(t, s, d, overwrite);
    } else {
      MoveRenameWorks(t, s, d, overwrite);
      if !(IsDir(t, s) && IsDir(t, d) && overwrite) {
        NothingCleared(t, s, d, overwrite);
      }
    }
  }

  /** COPY and MOVE answered with an error leave the tree as it was, exactly when they are none of these requests. */
  lemma ErrorsKeepTree(t: Tree, s: Path, dest: Option<Path>, header: Option<Depth>, overwrite: bool, isCopy: bool)
    requires WellFormed(t) && s in t && CopyMove(t, s, dest, header, overwrite, isCopy).status >= 400
    ensures CopyMove(t, s, dest, header, overwrite, isCopy).tree == t <==>
      !Destroys(t, s, dest, header, overwrite, isCopy)
  {
    hide CopyMove;
    if Destroys(t, s, dest, header, overwrite, isCopy) {
      DestroysDestination(t, s, dest, header, overwrite, isCopy);
      assert dest.value !in Without(t, dest.value);
    } else {
      match dest
      case None => NoDestinationRefused(t, s, header, overwrite, isCopy);
      case Some(d) =>
        if isCopy {
          FailedCopyKeeps(t, s, d, header, overwrite);
        } else {
          FailedMoveKeeps(t, s, d, header, overwrite);
        }
    }
  }

  // ---------------------------------------------------------------- MOVE as COPY and DELETE

  lemma MoveAgreesAt(t: Tree, s: Path, d: Path, overwrite: bool, q: Path)
    requires WellFormed(t) && IsDir(t, s) && !(s <= d) && !(d <= s)
    requires IsMove(t, AfterMove(t, s, d, overwrite), s, d) && IsCopy(t, AfterCopy(t, s, d, overwrite), s, d)
    ensures SameAt(AfterMove(t, s, d, overwrite), AfterDelete(AfterCopy(t, s, d, overwrite), s), q)
  {
    var u := AfterCopy(t, s, d, overwrite);
    assert MovedAt(t, AfterMove(t, s, d, overwrite), s, d, q);
    assert CopiedAt(t, u, s, d, q) && CopiedAt(t, u, s, d, s);
    if d <= q && s <= q {
      Comparable(s, d, q);
    }
  }

  /**
   * MOVE of a collection leaves the tree that COPY followed by DELETE of the source leaves, exactly
   * when overwriting is allowed or not needed, the parent of the destination is a collection, and the
   * destination is neither inside the source nor a file.
   */
  lemma MoveIsCopyThenDelete(t: Tree, s: Path, d: Path, overwrite: bool)
    requires WellFormed(t) && IsDir(t, s)
    ensures AfterMove(t, s, d, overwrite) == AfterDelete(AfterCopy(t, s, d, overwrite), s) <==>
      (overwrite || d !in t) && ParentIsDir(t, d) && !(s <= d) && !IsFile(t, d)
  {
    var m, c := AfterMove(t, s, d, overwrite), AfterDelete(AfterCopy(t, s, d, overwrite), s);
    assert s !in c;
    if (overwrite || d !in t) && ParentIsDir(t, d) && !(s <= d) && !IsFile(t, d) {
      if d <= s {
        AncestorIsDir(t, d, s);
        MoveAbove(t, s, d, overwrite);
      } else {
        MovedByRename(t, s, d, overwrite);
        CollectionCopied(t, s, d, overwrite);
        forall q
          ensures SameAt(m, c, q)
        {
          MoveAgreesAt(t, s, d, overwrite, q);
        }
        SameTree(m, c);
      }
    } else if d <= s && s != d {
      // only because overwriting is not allowed
      AncestorIsDir(t, d, s);
      assert m == t;
    } else {
      MoveFails(t, s, d, overwrite);
    }
  }

  // ---------------------------------------------------------------- conservation

  lemma {:induction false} ImageSize(s: Path, d: Path, nodes: set<Path>)
    requires forall x | x in nodes :: s <= x
    ensures |set x | x in nodes :: Origin(d, s, x)| == |nodes|
  {
    var image := set x | x in nodes :: Origin(d, s, x);
    if nodes != {} {
      var x :| x in nodes;
      var rest := nodes - {x};
      ImageSize(s, d, rest);
      var restImage := set y | y in rest :: Origin(d, s, y);
      forall y | y in rest
        ensures Origin(d, s, y) != Origin(d, s, x)
      {
        OriginBack(d, s, x);
        OriginBack(d, s, y);
      }
      assert image == restImage + {Origin(d, s, x)};
    }
  }

  lemma ImageAt(s: Path, d: Path, nodes: set<Path>, q: Path)
    requires forall x | x in nodes :: s <= x
    ensures q in (set x | x in nodes :: Origin(d, s, x)) <==> d <= q && Origin(s, d, q) in nodes
  {
    if d <= q {
      OriginBack(s, d, q);
    }
    if q in set x | x in nodes :: Origin(d, s, x) {
      var x :| x in nodes && q == Origin(d, s, x);
      OriginBack(d, s, x);
    }
  }

  lemma GraftKeys(base: Tree, t: Tree, s: Path, d: Path, nodes: set<Path>)
    requires forall x | x in nodes :: x in t && s <= x
    requires forall q | d <= q :: q !in base
    ensures
      var image := set x | x in nodes :: Origin(d, s, x);
      Graft(base, t, s, d, nodes).Keys == base.Keys + image && base.Keys !! image
  {
    hide Graft, Origin;
    var u, image := Graft(base, t, s, d, nodes), set x | x in nodes :: Origin(d, s, x);
    forall q
      ensures q in u.Keys <==> q in base.Keys + image
      ensures q in image ==> q !in base
    {
      ImageAt(s, d, nodes, q);
    }
  }

  /** Nodes put where there were none add up. */
  lemma GraftSize(base: Tree, t: Tree, s: Path, d: Path, nodes: set<Path>)
    requires forall x | x in nodes :: x in t && s <= x
    requires forall q | d <= q :: q !in base
    ensures |Graft(base, t, s, d, nodes)| == |base| + |nodes|
  {
    hide Graft, Origin;
    ImageSize(s, d, nodes);
    GraftKeys(base, t, s, d, nodes);
  }

  lemma WithoutSize(t: Tree, p: Path)
    ensures |Without(t, p)| + |Below(t, p)| == |t|
  {
    assert t.Keys == Without(t, p).Keys + Below(t, p);
  }

  lemma ClearedSize(t: Tree, s: Path, d: Path, overwrite: bool)
    requires WellFormed(t) && IsDir(t, s) && !IsFile(t, d) && (overwrite || d !in t)
    ensures |Cleared(t, s, d, Infinity, overwrite)| + |Below(t, d)| == |t|
  {
    ClearedAt(t, s, d, overwrite, d);
    WithoutSize(t, d);
    if d !in t {
      forall q | q in Below(t, d)
        ensures false
      {
        NothingBelow(t, d, q);
      }
      assert Below(t, d) == {};
    }
  }

  /** COPY of a collection adds exactly the nodes it copies, and loses exactly the old destination. */
  lemma CopyCounts(t: Tree, s: Path, d: Path, overwrite: bool)
    requires WellFormed(t) && IsDir(t, s) && (overwrite || d !in t)
    requires ParentIsDir(t, d) && !(d <= s) && !IsFile(t, d)
    ensures |AfterCopy(t, s, d, overwrite)| + |Below(t, d)| == |t| + |Reach(t, s, d)|
  {
    var cleared := Cleared(t, s, d, Infinity, overwrite);
    CopyGrafts(t, s, d, overwrite);
    GraftSize(cleared, cleared, s, d, Reach(t, s, d));
    ClearedSize(t, s, d, overwrite);
  }

  /** MOVE of a collection loses exactly the old destination. */
  lemma MoveCounts(t: Tree, s: Path, d: Path, overwrite: bool)
    requires WellFormed(t) && IsDir(t, s) && (overwrite || d !in t)
    requires ParentIsDir(t, d) && !(s <= d) && !(d <= s) && !IsFile(t, d)
    ensures |AfterMove(t, s, d, overwrite)| + |Below(t, d)| == |t|
  {
    var cleared := Cleared(t, s, d, Infinity, overwrite);
    MoveRenames(t, s, d, overwrite);
    var base := Without(Without(cleared, s), d);
    forall q
      ensures SameAt(base, Without(cleared, s), q)
    {
      assert if d <= q then q !in cleared else SameAt(cleared, t, q);
    }
    SameTree(base, Without(cleared, s));
    GraftSize(base, cleared, s, d, Below(cleared, s));
    WithoutSize(cleared, s);
    ClearedSize(t, s, d, overwrite);
  }
}
