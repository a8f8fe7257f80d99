/**
 * The file tree under a dav directory, and the system calls the server changes it with. Paths are
 * relative to the dav directory, which is the path []; the directory that holds it lies outside the
 * tree and always exists.
 */
module FileTrees {
  import opened ByteStreams

  type Name = Bytes
  type Path = seq<Name>

  datatype Node = Dir | File(content: Bytes)

  type Tree = map<Path, Node>

  /** The tree a system call leaves, and whether the call succeeded. */
  datatype Outcome = Outcome(tree: Tree, ok: bool)

  function Parent(p: Path): Path
    requires p != []
  {
    p[..|p| - 1]
  }

  predicate IsDir(t: Tree, p: Path) {
    p in t && t[p].Dir?
  }

  predicate IsFile(t: Tree, p: Path) {
    p in t && t[p].File?
  }

  predicate ParentIsDir(t: Tree, p: Path) {
    p == [] || IsDir(t, Parent(p))
  }

  predicate ParentExists(t: Tree, p: Path) {
    p == [] || Parent(p) in t
  }

  /** Every stored path's parent is a directory, and the dav directory is not a file. */
  ghost predicate WellFormed(t: Tree) {
    && (forall p | p in t :: ParentIsDir(t, p))
    && !IsFile(t, [])
  }

  lemma {:induction false} AncestorIsDir(t: Tree, p: Path, q: Path)
    requires WellFormed(t) && q in t && p <= q && p != q
    ensures IsDir(t, p)
    decreases |q|
  {
    if p != Parent(q) {
      AncestorIsDir(t, p, Parent(q));
    }
  }

  /** The paths in the directory p. */
  function Children(t: Tree, p: Path): set<Path> {
    set q | q in t && |q| == |p| + 1 && p <= q
  }

  function Below(t: Tree, p: Path): set<Path> {
    set q | q in t && p <= q
  }

  function Without(t: Tree, p: Path): (u: Tree)
    ensures forall q :: q in u <==> q in t && !(p <= q)
    ensures forall q | q in u :: u[q] == t[q]
  {
    map q | q in t && !(p <= q) :: t[q]
  }

  // ---------------------------------------------------------------- system calls

  function CreateDir(t: Tree, p: Path): Outcome {
    if p !in t && ParentIsDir(t, p) then Outcome(t[p := Dir], true) else Outcome(t, false)
  }

  function CreateDirAll(t: Tree, p: Path): Outcome
    decreases |p|
  {
    if p in t then Outcome(t, t[p].Dir?)
    else if p == [] then Outcome(t[p := Dir], true)
    else
      var r := CreateDirAll(t, Parent(p));
      if r.ok then Outcome(r.tree[p := Dir], true) else r
  }

  function RemoveDirAll(t: Tree, p: Path): Outcome {
    if IsDir(t, p) then Outcome(Without(t, p), true) else Outcome(t, false)
  }

  function RemoveFile(t: Tree, p: Path): Outcome {
    if IsFile(t, p) then Outcome(t - {p}, true) else Outcome(t, false)
  }

  /** Opens p for writing, empty from now on. The dav directory is always named as a directory. */
  function CreateFile(t: Tree, p: Path): Outcome {
    if p != [] && ParentIsDir(t, p) && !IsDir(t, p) then Outcome(t[p := File([])], true) else Outcome(t, false)
  }

  /** Opens src, truncates dst, then copies: a file copied onto itself is emptied. */
  function CopyFile(t: Tree, src: Path, dst: Path): Outcome {
    if !IsFile(t, src) then Outcome(t, false)
    else
      var target := CreateFile(t, dst);
      if target.ok then Outcome(target.tree[dst := target.tree[src]], true) else Outcome(t, false)
  }

  /** The path that lies below s as q lies below d. */
  function Origin(s: Path, d: Path, q: Path): (x: Path)
    requires d <= q
    ensures s <= x && x[|s|..] == q[|d|..]
    ensures |x| - |s| == |q| - |d|
  {
    s + q[|d|..]
  }

  lemma OriginBack(s: Path, d: Path, q: Path)
    requires d <= q
    ensures Origin(d, s, Origin(s, d, q)) == q
  {
  }

  lemma OriginParent(s: Path, d: Path, q: Path)
    requires d <= q && q != d
    ensures d <= Parent(q) && Parent(Origin(s, d, q)) == Origin(s, d, Parent(q))
  {
    assert |d| < |q| && Parent(q)[..|d|] == q[..|d|];
    assert Parent(q)[|d|..] == q[|d|..][..|q| - |d| - 1];
  }

  /** The tree base with copies of the given nodes of t, all below s, put at the same places below d. */
  ghost function Graft(base: Tree, t: Tree, s: Path, d: Path, nodes: set<Path>): (u: Tree)
    requires forall x | x in nodes :: x in t && s <= x
    ensures forall q {:trigger q in u} :: q in u <==> q in base || (d <= q && Origin(s, d, q) in nodes)
    ensures forall q {:trigger u[q]} | q in u ::
      u[q] == if d <= q && Origin(s, d, q) in nodes then t[Origin(s, d, q)] else base[q]
  {
    if nodes == {} then base else
    var x :| x in nodes;
    var rest := Graft(base, t, s, d, nodes - {x});
    assert forall q | d <= q :: Origin(s, d, q) == x <==> q == Origin(d, s, x) by {
      forall q | d <= q
        ensures Origin(s, d, q) == x <==> q == Origin(d, s, x)
      {
        OriginBack(s, d, q);
        OriginBack(d, s, x);
      }
    }
    rest[Origin(d, s, x) := t[x]]
  }

  predicate SameAt(u: Tree, v: Tree, q: Path) {
    (q in u <==> q in v) && (q in u ==> u[q] == v[q])
  }

  lemma SameTree(u: Tree, v: Tree)
    requires forall q :: SameAt(u, v, q)
    ensures u == v
  {
    forall q
      ensures q in u <==> q in v
      ensures q in u ==> u[q] == v[q]
    {
      assert SameAt(u, v, q);
    }
  }

  /** Moves a file onto a free place or a file, or a directory onto a free place or an empty directory. */
  ghost function Rename(t: Tree, s: Path, d: Path): Outcome {
    if s !in t || !ParentIsDir(t, d) then Outcome(t, false)
    else if s == d then Outcome(t, true)
    else if t[s].Dir? && (s <= d || IsFile(t, d) || Children(t, d) != {}) then Outcome(t, false)
    else if t[s].File? && IsDir(t, d) then Outcome(t, false)
    else Outcome(Graft(Without(Without(t, s), d), t, s, d, Below(t, s)), true)
  }

  /** The tree in which everything below s, which exists, has moved to d. */
  function Relocated(t: Tree, s: Path, d: Path): Tree {
    var moved := map q | q in (set x | x in t && s <= x :: Origin(d, s, x)) && d <= q && Origin(s, d, q) in t ::
                   t[Origin(s, d, q)];
    Without(Without(t, s), d) + moved
  }

  lemma RelocatedIsGraft(t: Tree, s: Path, d: Path)
    ensures Relocated(t, s, d) == Graft(Without(Without(t, s), d), t, s, d, Below(t, s))
  {
    var u, v := Relocated(t, s, d), Graft(Without(Without(t, s), d), t, s, d, Below(t, s));
    forall q
      ensures SameAt(u, v, q)
    {
      if d <= q {
        OriginBack(s, d, q);
      }
    }
    SameTree(u, v);
  }
}
