/** What the recursive copy leaves behind, in one step, and how it is put together child by child. */
module Copying {
  import opened FileTrees

  datatype Depth = Zero | One | Infinity

  /** The nodes at or below s that are not at or below top. */
  function Reach(t: Tree, s: Path, top: Path): set<Path> {
    set x | x in t && s <= x && !(top <= x)
  }

  /**
   * The calls the server makes: a collection is copied in depth only to a place that is free, or to a
   * file that is in the way, and never from inside the top destination.
   */
  predicate Fits(t: Tree, source: Path, top: Path, dest: Path, destIsDir: bool, depth: Depth) {
    && top <= dest
    && (IsDir(t, source) && depth != Zero && source != top ==>
          !(top <= source) && if destIsDir then dest !in t else IsFile(t, dest))
  }

  /** The tree after a call that fits, which copies source to dest as part of a copy whose destination is top. */
  ghost function CopyResult(t: Tree, source: Path, top: Path, dest: Path, destIsDir: bool, depth: Depth): Outcome {
    if source == top then Outcome(t, true)
    else if source !in t then Outcome(t, false)
    else
      var made := if destIsDir then CreateDir(t, dest) else Outcome(t, false);
      if t[source].File? then
        if !destIsDir then CopyFile(t, source, dest)
        else if source == [] then Outcome(made.tree, false)
        else CopyFile(made.tree, source, dest + [source[|source| - 1]])
      else if depth == Zero then Outcome(made.tree, true)
      else if made.ok then Outcome(Graft(t, t, source, dest, Reach(t, source, top)), true)
      else Outcome(t, forall x | x in Reach(t, source, top) :: t[x].Dir?)
  }

  // ---------------------------------------------------------------- child by child

  /** The part of Reach below the given children of s. */
  function Under(t: Tree, s: Path, top: Path, visited: set<Path>): set<Path> {
    set x | x in Reach(t, s, top) && |x| > |s| && x[..|s| + 1] in visited
  }

  /** A copy in progress: the destination has been made, and the visited children have been copied. */
  ghost function Partial(t: Tree, s: Path, top: Path, d: Path, visited: set<Path>): Tree {
    Graft(t[d := Dir], t, s, d, Under(t, s, top, visited))
  }

  lemma NothingBelow(t: Tree, d: Path, q: Path)
    requires WellFormed(t) && !IsDir(t, d) && d <= q && q != d
    ensures q !in t
  {
    if q in t {
      AncestorIsDir(t, d, q);
    }
  }

  lemma PartialAt(t: Tree, s: Path, top: Path, d: Path, visited: set<Path>, q: Path)
    requires WellFormed(t) && top <= d && !(top <= s) && d !in t
    ensures
      var u := Partial(t, s, top, d, visited);
      if !(d <= q) then SameAt(u, t, q)
      else if q == d then IsDir(u, q)
      else
        && (q in u <==> Origin(s, d, q) in Under(t, s, top, visited))
        && (q in u ==> u[q] == t[Origin(s, d, q)])
  {
    if d <= q && q != d {
      NothingBelow(t, d, q);
    }
  }

  /** The copies made so far are out of reach of the rest of the walk. */
  lemma PartialReach(t: Tree, s: Path, top: Path, d: Path, visited: set<Path>, child: Path)
    requires WellFormed(t) && top <= d && !(top <= s) && d !in t && s <= child
    ensures Reach(Partial(t, s, top, d, visited), child, top) == Reach(t, child, top)
    ensures forall x | x in Reach(t, child, top) :: SameAt(Partial(t, s, top, d, visited), t, x)
  {
    hide Partial;
    var u := Partial(t, s, top, d, visited);
    forall x
      ensures x in Reach(u, child, top) <==> x in Reach(t, child, top)
      ensures x in Reach(t, child, top) ==> SameAt(u, t, x)
    {
      PartialAt(t, s, top, d, visited, x);
    }
  }

  /** What lies above a child lies above its parent, or is the child itself. */
  lemma PrefixOfChild(s: Path, d: Path, child: Path)
    requires |child| == |s| + 1 && s <= child && d <= child && d != child
    ensures d <= s
  {
    assert |d| < |child|;
    assert d == child[..|d|] == child[..|s|][..|d|];
  }

  /** The directory being listed is not changed by the copies made so far. */
  lemma ListingStable(t: Tree, s: Path, top: Path, d: Path, visited: set<Path>)
    requires WellFormed(t) && top <= d && !(top <= s) && d !in t
    ensures Children(Partial(t, s, top, d, visited), s) == Children(t[d := Dir], s)
  {
    hide Partial;
    forall q | |q| == |s| + 1 && s <= q
      ensures q in Partial(t, s, top, d, visited) <==> q in t[d := Dir]
    {
      PartialAt(t, s, top, d, visited, q);
      if d <= q && q != d {
        PrefixOfChild(s, d, q);
      }
    }
  }

  lemma NameOfChild(s: Path, child: Path)
    requires |child| == |s| + 1 && s <= child
    ensures child == s + [child[|s|]]
  {
  }

  /** Copying a child to a fresh place in a directory, file or collection, grafts all that is in reach. */
  lemma CopyChildGrafts(u: Tree, child: Path, top: Path, dest: Path, depth: Depth)
    requires dest !in u && dest != [] && ParentIsDir(u, dest) && child in u && top <= dest && !(top <= child)
    requires depth != Zero && (IsFile(u, child) ==> Reach(u, child, top) == {child})
    ensures CopyResult(u, child, top, dest, IsDir(u, child), depth)
         == Outcome(Graft(u, u, child, dest, Reach(u, child, top)), true)
  {
    if IsFile(u, child) {
      var v := u[dest := u[child]];
      var w := Graft(u, u, child, dest, {child});
      forall q
        ensures SameAt(v, w, q)
      {
        if dest <= q {
          OriginBack(child, dest, q);
          OriginBack(child, dest, dest);
        }
      }
      SameTree(v, w);
    }
  }

  /** A path below the destination is new in the next state exactly when it lies below the child's copy. */
  lemma PartialStep(t: Tree, s: Path, top: Path, d: Path, visited: set<Path>, child: Path, q: Path)
    requires |child| == |s| + 1 && s <= child && child !in visited && child != top && !(top <= s)
    ensures
      var dest := d + [child[|s|]];
      && (dest <= q ==> d <= q && q != d && Origin(child, dest, q) == Origin(s, d, q) && child <= Origin(s, d, q))
      && (d <= q && q != d ==>
            (Origin(s, d, q) in Under(t, s, top, visited + {child}) <==>
              || Origin(s, d, q) in Under(t, s, top, visited)
              || (dest <= q && Origin(s, d, q) in Reach(t, child, top))))
  {
    var dest := d + [child[|s|]];
    NameOfChild(s, child);
    if dest <= q {
      assert q[|d|..] == [child[|s|]] + q[|dest|..];
    }
    if d <= q && q != d {
      var x := Origin(s, d, q);
      assert x[..|s| + 1] == s + [q[|d|]];
      assert dest <= q <==> q[|d|] == child[|s|];
      assert child <= x <==> x[..|s| + 1] == child;
    }
  }

  /** Adding the copy of one more child to a partial copy gives the next partial copy. */
  lemma PartialNext(t: Tree, s: Path, top: Path, d: Path, visited: set<Path>, child: Path)
    requires WellFormed(t) && top <= d && !(top <= s) && d !in t && child != top
    requires |child| == |s| + 1 && s <= child && child !in visited
    requires forall x | x in Reach(t, child, top) :: SameAt(Partial(t, s, top, d, visited), t, x)
    ensures
      var u := Partial(t, s, top, d, visited);
      Graft(u, u, child, d + [child[|s|]], Reach(t, child, top)) == Partial(t, s, top, d, visited + {child})
  {
    var u := Partial(t, s, top, d, visited);
    var v := Partial(t, s, top, d, visited + {child});
    var w := Graft(u, u, child, d + [child[|s|]], Reach(t, child, top));
    forall q
      ensures SameAt(w, v, q)
    {
      PartialAt(t, s, top, d, visited, q);
      PartialAt(t, s, top, d, visited + {child}, q);
      PartialStep(t, s, top, d, visited, child, q);
    }
    SameTree(w, v);
  }

  lemma TopNotAboveChild(s: Path, top: Path, child: Path)
    requires |child| == |s| + 1 && s <= child && child != top && !(top <= s)
    ensures !(top <= child)
  {
    if top <= child {
      PrefixOfChild(s, top, child);
    }
  }

  /** Nothing lies below a file. */
  lemma FileReach(t: Tree, x: Path, top: Path)
    requires WellFormed(t) && IsFile(t, x) && !(top <= x)
    ensures Reach(t, x, top) == {x}
  {
    forall y | y in Reach(t, x, top)
      ensures y == x
    {
      if y != x {
        NothingBelow(t, x, y);
      }
    }
  }

  /** The top destination itself, met as a child, adds nothing. */
  lemma TopAddsNothing(t: Tree, s: Path, top: Path, d: Path, visited: set<Path>)
    requires |top| == |s| + 1 && s <= top
    ensures Partial(t, s, top, d, visited + {top}) == Partial(t, s, top, d, visited)
  {
    assert Under(t, s, top, visited + {top}) == Under(t, s, top, visited);
  }

  /** The place for the copy of a child not yet visited is free. */
  lemma ChildPlaceFree(t: Tree, s: Path, top: Path, d: Path, visited: set<Path>, child: Path)
    requires WellFormed(t) && top <= d && !(top <= s) && d !in t
    requires |child| == |s| + 1 && s <= child && child !in visited
    ensures
      var u := Partial(t, s, top, d, visited);
      var dest := d + [child[|s|]];
      dest !in u && ParentIsDir(u, dest) && dest != []
  {
    hide Partial;
    var dest := d + [child[|s|]];
    PartialAt(t, s, top, d, visited, dest);
    PartialAt(t, s, top, d, visited, d);
    assert Parent(dest) == d;
    NameOfChild(s, child);
    assert Origin(s, d, dest) == child && child[..|s| + 1] == child;
  }

  /** A child not yet visited is in the partial copy what it is in the tree, and so is what lies below it. */
  lemma ChildAsBefore(t: Tree, s: Path, top: Path, d: Path, visited: set<Path>, child: Path)
    requires WellFormed(t) && top <= d && !(top <= s) && d !in t
    requires |child| == |s| + 1 && s <= child && child in t && child != top
    ensures
      var u := Partial(t, s, top, d, visited);
      && !(top <= child) && child in u
      && Reach(u, child, top) == Reach(t, child, top)
      && (forall x | x in Reach(t, child, top) :: SameAt(u, t, x))
      && (IsFile(u, child) ==> Reach(u, child, top) == {child})
  {
    hide Partial;
    TopNotAboveChild(s, top, child);
    PartialReach(t, s, top, d, visited, child);
    assert child in Reach(t, child, top);
    if IsFile(t, child) {
      FileReach(t, child, top);
    }
  }

  /** Copying one more child of a collection takes the copy from one partial state to the next. */
  lemma CopyChild(t: Tree, s: Path, top: Path, d: Path, visited: set<Path>, child: Path, depth: Depth)
    requires WellFormed(t) && IsDir(t, s) && top <= d && !(top <= s) && d !in t && depth != Zero
    requires child in Children(t[d := Dir], s) && child !in visited
    ensures
      var u := Partial(t, s, top, d, visited);
      var dest := d + [child[|s|]];
      && Fits(u, child, top, dest, IsDir(u, child), depth)
      && CopyResult(u, child, top, dest, IsDir(u, child), depth)
         == Outcome(Partial(t, s, top, d, visited + {child}), true)
  {
    hide Partial;
    var u := Partial(t, s, top, d, visited);
    var dest := d + [child[|s|]];
    if child == top {
      TopAddsNothing(t, s, top, d, visited);
    } else {
      hide CopyResult;
      TopNotAboveChild(s, top, child);
      ChildAsBefore(t, s, top, d, visited, child);
      ChildPlaceFree(t, s, top, d, visited, child);
      CopyChildGrafts(u, child, top, dest, depth);
      PartialNext(t, s, top, d, visited, child);
    }
  }

  lemma AllUnder(t: Tree, s: Path, top: Path, d: Path)
    requires WellFormed(t)
    ensures Under(t, s, top, Children(t[d := Dir], s)) == Reach(t, s, top) - {s}
  {
    var all := Children(t[d := Dir], s);
    forall x
      ensures x in Under(t, s, top, all) <==> x in Reach(t, s, top) && x != s
    {
      if x in Reach(t, s, top) && x != s {
        var c := x[..|s| + 1];
        if c != x {
          AncestorIsDir(t, c, x);
        }
        assert c in all;
      }
    }
  }

  /** Once every child has been visited, the copy is complete. */
  lemma PartialComplete(t: Tree, s: Path, top: Path, d: Path)
    requires WellFormed(t) && IsDir(t, s) && top <= d && !(top <= s) && d !in t
    ensures Partial(t, s, top, d, Children(t[d := Dir], s)) == Graft(t, t, s, d, Reach(t, s, top))
  {
    var all := Children(t[d := Dir], s);
    var u := Partial(t, s, top, d, all);
    var v := Graft(t, t, s, d, Reach(t, s, top));
    AllUnder(t, s, top, d);
    assert Origin(s, d, d) == s;
    forall q
      ensures SameAt(u, v, q)
    {
      PartialAt(t, s, top, d, all, q);
      if d <= q && q != d {
        NothingBelow(t, d, q);
        assert Origin(s, d, q) != s;
      }
    }
    SameTree(u, v);
  }

  /** When the destination cannot be made, no child is copied, and each file among them is an error. */
  lemma CopyChildBlocked(t: Tree, s: Path, top: Path, d: Path, child: Path, depth: Depth)
    requires WellFormed(t) && !IsDir(t, d) && top <= d && !(top <= s) && depth != Zero
    requires child in Children(t, s)
    ensures
      var dest := d + [child[|s|]];
      && Fits(t, child, top, dest, IsDir(t, child), depth)
      && CopyResult(t, child, top, dest, IsDir(t, child), depth)
         == Outcome(t, forall x | x in Reach(t, child, top) :: t[x].Dir?)
  {
    var dest := d + [child[|s|]];
    assert Parent(dest) == d;
    NothingBelow(t, d, dest);
    if child != top {
      TopNotAboveChild(s, top, child);
      if IsFile(t, child) {
        FileReach(t, child, top);
        assert child in Reach(t, child, top);
      }
    }
  }

  /** A collection holds a file exactly when one of its children is or holds one. */
  lemma ReachByChildren(t: Tree, s: Path, top: Path, visited: set<Path>, child: Path)
    requires child in Children(t, s)
    ensures Under(t, s, top, visited + {child}) == Under(t, s, top, visited) + Reach(t, child, top)
  {
    NameOfChild(s, child);
    forall x | s <= x
      ensures child <= x <==> |x| > |s| && x[..|s| + 1] == child
    {
    }
  }

  lemma AllVisited(t: Tree, s: Path, top: Path)
    requires WellFormed(t) && IsDir(t, s)
    ensures (forall x | x in Under(t, s, top, Children(t, s)) :: t[x].Dir?)
      <==> (forall x | x in Reach(t, s, top) :: t[x].Dir?)
  {
    forall x | x in Reach(t, s, top) && x != s
      ensures x in Under(t, s, top, Children(t, s))
    {
      var c := x[..|s| + 1];
      if c != x {
        AncestorIsDir(t, c, x);
      }
    }
  }

  // ---------------------------------------------------------------- the walk over a listing

  /** The walk over the children of s has got to u: either all visited ones are copied, or nothing can be. */
  ghost predicate Progress(t: Tree, s: Path, top: Path, d: Path, made: bool, visited: set<Path>, u: Tree, ok: bool) {
    if made then ok && u == Partial(t, s, top, d, visited)
    else u == t && ok == forall x | x in Under(t, s, top, visited) :: t[x].Dir?
  }

  lemma WalkStarts(t: Tree, s: Path, top: Path, d: Path, destIsDir: bool)
    requires IsDir(t, s) && if destIsDir then d !in t else IsFile(t, d)
    ensures
      var made := destIsDir && CreateDir(t, d).ok;
      Progress(t, s, top, d, made, {}, if destIsDir then CreateDir(t, d).tree else t, true)
  {
    assert Under(t, s, top, {}) == {};
  }

  /** One turn of the walk: the call it makes fits and has less in reach, and leaves the listing as it was. */
  lemma WalkGoesOn(t: Tree, s: Path, top: Path, d: Path, destIsDir: bool, depth: Depth, visited: set<Path>,
          u: Tree, ok: bool, child: Path)
    requires WellFormed(t) && IsDir(t, s) && s != top && depth != Zero && Fits(t, s, top, d, destIsDir, depth)
    requires Progress(t, s, top, d, destIsDir && CreateDir(t, d).ok, visited, u, ok)
    requires child in Children(u, s) && child !in visited
    ensures
      var made := destIsDir && CreateDir(t, d).ok;
      var dest := d + [child[|s|]];
      && Fits(u, child, top, dest, IsDir(u, child), depth)
      && Reach(u, child, top) < Reach(t, s, top)
      && var r := CopyResult(u, child, top, dest, IsDir(u, child), depth);
         && Progress(t, s, top, d, made, visited + {child}, r.tree, ok && r.ok)
         && Children(r.tree, s) == Children(u, s)
  {
    if destIsDir && CreateDir(t, d).ok {
      ListingStable(t, s, top, d, visited);
      ListingStable(t, s, top, d, visited + {child});
      CopyChild(t, s, top, d, visited, child, depth);
      PartialReach(t, s, top, d, visited, child);
    } else {
      CopyChildBlocked(t, s, top, d, child, depth);
      ReachByChildren(t, s, top, visited, child);
    }
    assert s in Reach(t, s, top) && s !in Reach(t, child, top);
  }

  lemma WalkEnds(t: Tree, s: Path, top: Path, d: Path, destIsDir: bool, depth: Depth, listed: set<Path>,
          u: Tree, ok: bool)
    requires WellFormed(t) && IsDir(t, s) && s != top && depth != Zero && Fits(t, s, top, d, destIsDir, depth)
    requires listed == Children(if destIsDir then CreateDir(t, d).tree else t, s)
    requires Progress(t, s, top, d, destIsDir && CreateDir(t, d).ok, listed, u, ok)
    ensures Outcome(u, ok) == CopyResult(t, s, top, d, destIsDir, depth)
  {
    if destIsDir && CreateDir(t, d).ok {
      PartialComplete(t, s, top, d);
    } else {
      AllVisited(t, s, top);
    }
  }

  // ---------------------------------------------------------------- invariants

  lemma CreateDirKeeps(t: Tree, p: Path)
    requires WellFormed(t)
    ensures WellFormed(CreateDir(t, p).tree)
  {
  }

  lemma CreateFileKeeps(t: Tree, p: Path)
    requires WellFormed(t)
    ensures WellFormed(CreateFile(t, p).tree)
  {
    if CreateFile(t, p).ok && p in t {
      forall q | q in t && q != [] && Parent(q) == p ensures false {
        NothingBelow(t, p, q);
      }
    }
  }

  lemma CopyFileKeeps(t: Tree, src: Path, dst: Path)
    requires WellFormed(t)
    ensures WellFormed(CopyFile(t, src, dst).tree)
  {
    CreateFileKeeps(t, dst);
  }

  lemma GraftParent(t: Tree, u: Tree, s: Path, d: Path, nodes: set<Path>, q: Path)
    requires WellFormed(t) && forall x | x in nodes :: x in t && s <= x && (x != s ==> Parent(x) in nodes)
    requires d <= q && q != d && Origin(s, d, q) in nodes
    ensures IsDir(Graft(u, t, s, d, nodes), Parent(q))
  {
    OriginParent(s, d, q);
    assert ParentIsDir(t, Origin(s, d, q));
  }

  lemma GraftKeeps(t: Tree, u: Tree, s: Path, d: Path, nodes: set<Path>)
    requires WellFormed(t) && WellFormed(u) && ParentIsDir(u, d) && d !in u && d != []
    requires forall x | x in nodes :: x in t && s <= x && (x != s ==> Parent(x) in nodes)
    requires s in nodes
    ensures WellFormed(Graft(u, t, s, d, nodes))
  {
    var v := Graft(u, t, s, d, nodes);
    assert Origin(s, d, d) == s;
    forall q | q in v
      ensures ParentIsDir(v, q)
    {
      if d <= q && q != d {
        NothingBelow(u, d, q);
        GraftParent(t, u, s, d, nodes, q);
      } else if q != [] {
        assert q in u || q == d;
        assert !(d <= Parent(q));
      }
    }
  }

  lemma CopyResultKeeps(t: Tree, source: Path, top: Path, dest: Path, destIsDir: bool, depth: Depth)
    requires WellFormed(t) && Fits(t, source, top, dest, destIsDir, depth)
    ensures WellFormed(CopyResult(t, source, top, dest, destIsDir, depth).tree)
  {
    CreateDirKeeps(t, dest);
    if source in t && source != top {
      if IsFile(t, source) {
        if !destIsDir {
          CopyFileKeeps(t, source, dest);
        } else if source != [] {
          CopyFileKeeps(CreateDir(t, dest).tree, source, dest + [source[|source| - 1]]);
        }
      } else if depth != Zero && destIsDir && CreateDir(t, dest).ok {
        forall x | x in Reach(t, source, top) && x != source
          ensures Parent(x) in Reach(t, source, top)
        {
          AncestorIsDir(t, Parent(x), x);
        }
        GraftKeeps(t, t, source, dest, Reach(t, source, top));
      }
    }
  }
}
