/**
  A file system as a map from paths to entries, the lexical order of
  filepath.WalkDir, and the sizes of trees.  Contents are text; symbolic links
  and special files are `Other`.
 */
module Trees {
  import opened Common
  import opened Paths

  datatype Entry = Dir | File(data: string) | Other

  type Tree = map<Path, Entry>

  // ----- single operations -------------------------------------------------------------

  function Prefixes(p: Path): set<Path> { set i | 0 <= i <= |p| :: p[..i] }

  /** os.MkdirAll: every missing ancestor becomes a directory; one that is not a directory is an error. */
  predicate CanMkdirAll(t: Tree, p: Path) { forall q :: q in Prefixes(p) && q in t ==> t[q].Dir? }

  /** p and all its ancestors are there, as directories. */
  predicate HasDir(t: Tree, p: Path) { forall q :: q in Prefixes(p) ==> q in t && t[q].Dir? }

  function MkdirAll(t: Tree, p: Path): Tree {
    map q | q in t.Keys + Prefixes(p) :: if q in t then t[q] else Dir
  }

  /** A regular file can be written where there is nothing or a regular file. */
  predicate CanWrite(t: Tree, p: Path) { p in t ==> t[p].File? }

  function Write(t: Tree, p: Path, data: string): Tree { t[p := File(data)] }

  function Rename(t: Tree, from: Path, to: Path): Tree
    requires from in t
  {
    (t - {from})[to := t[from]]
  }

  /** Add a suffix to the last component. */
  function WithSuffix(p: Path, suffix: string): Path
    requires p != []
  {
    p[..|p| - 1] + [p[|p| - 1] + suffix]
  }

  function HasSuffix(s: string, suffix: string): bool {
    |suffix| <= |s| && s[|s| - |suffix|..] == suffix
  }

  // ----- trails -----------------------------------------------------------------------------

  /** What one system call does to the disk. */
  datatype Op = Mkdir(p: Path) | Put(p: Path, data: string) | Move(from: Path, to: Path) | Delete(p: Path)

  function Apply(t: Tree, op: Op): Tree {
    match op
    case Mkdir(p) => MkdirAll(t, p)
    case Put(p, data) => Write(t, p, data)
    case Move(from, to) => if from in t then Rename(t, from, to) else t
    case Delete(p) => t - {p}
  }

  /** A system call and the state it leaves. */
  datatype Stage = Stage(op: Op, after: Tree)

  /** What happened to the disk, call by call. */
  type Trail = seq<Stage>

  function DiskAfter(stage: Stage): Tree { stage.after }

  predicate Follows(t: Tree, stage: Stage) { stage.after == Apply(t, stage.op) }

  /** From t to t' by single calls, every state between them recorded. */
  ghost predicate IsTrail(t: Tree, trail: Trail, t': Tree) { Linked(DiskAfter, Follows, t, trail, t') }

  lemma TrailNext(t: Tree, trail: Trail, mid: Tree, op: Op)
    requires IsTrail(t, trail, mid)
    ensures IsTrail(t, trail + [Stage(op, Apply(mid, op))], Apply(mid, op))
  {
    LinkedNext(DiskAfter, Follows, t, trail, mid, Stage(op, Apply(mid, op)));
  }

  lemma TrailConcat(a: Tree, x: Trail, b: Tree, y: Trail, c: Tree)
    requires IsTrail(a, x, b) && IsTrail(b, y, c)
    ensures IsTrail(a, x + y, c)
  {
    LinkedConcat(DiskAfter, Follows, a, x, b, y, c);
  }

  /** One system call, recorded. */
  method Perform(ghost start: Tree, t: Tree, ghost trail: Trail, op: Op) returns (t': Tree, ghost trail': Trail)
    requires IsTrail(start, trail, t)
    ensures t' == Apply(t, op) && trail' == trail + [Stage(op, t')] && IsTrail(start, trail', t')
  {
    TrailNext(start, trail, t, op);
    t' := Apply(t, op);
    trail' := trail + [Stage(op, t')];
  }

  // ----- areas --------------------------------------------------------------------------------

  /** Nothing outside `area` changed, except that missing ancestors of `area` became directories. */
  ghost predicate TouchesOnly(t: Tree, t': Tree, area: Path) {
    && (forall p :: p in t && !Under(p, area) ==> p in t' && t'[p] == t[p])
    && (forall p :: p in t' && p !in t && !Under(p, area) ==> t'[p].Dir? && Under(area, p))
  }

  lemma TouchesOnlyTransitive(a: Tree, b: Tree, c: Tree, area: Path)
    requires TouchesOnly(a, b, area) && TouchesOnly(b, c, area)
    ensures TouchesOnly(a, c, area)
  {
  }

  lemma MkdirTouches(t: Tree, p: Path, area: Path)
    requires Under(p, area)
    ensures TouchesOnly(t, MkdirAll(t, p), area)
  {
    forall q | q in MkdirAll(t, p) && q !in t && !Under(q, area) ensures Under(area, q) {
      var i :| 0 <= i <= |p| && q == p[..i];
      PrefixesCompare(q, area, p);
    }
  }

  // ----- the order of the walk -------------------------------------------------------------

  /** WalkDir visits a directory before its contents and siblings by name: the lexical order of components. */
  predicate PathLess(a: Path, b: Path) {
    if b == [] then false
    else if a == [] then true
    else StringLess(a[0], b[0]) || (a[0] == b[0] && PathLess(a[1..], b[1..]))
  }

  lemma {:induction false} PathTrichotomy(a: Path, b: Path)
    ensures a == b || PathLess(a, b) || PathLess(b, a)
    ensures !(PathLess(a, b) && PathLess(b, a))
  {
    if a != [] && b != [] {
      StringTrichotomy(a[0], b[0]);
      PathTrichotomy(a[1..], b[1..]);
      assert a == [a[0]] + a[1..] && b == [b[0]] + b[1..];
    }
  }

  lemma {:induction false} PathTransitive(a: Path, b: Path, c: Path)
    requires PathLess(a, b) && PathLess(b, c)
    ensures PathLess(a, c)
  {
    if a != [] {
      StringTrichotomy(a[0], b[0]);
      StringTrichotomy(b[0], c[0]);
      if a[0] == b[0] == c[0] {
        PathTransitive(a[1..], b[1..], c[1..]);
      } else if StringLess(a[0], b[0]) && StringLess(b[0], c[0]) {
        StringTransitive(a[0], b[0], c[0]);
      }
    }
  }

  lemma PathOrder()
    ensures StrictWeak(PathLess) && Asymmetric(PathLess)
  {
    forall x, y ensures PathLess(x, y) ==> !PathLess(y, x) {
      PathTrichotomy(x, y);
    }
    forall x, y, z | !PathLess(y, x) && !PathLess(z, y) ensures !PathLess(z, x) {
      PathTrichotomy(x, y);
      PathTrichotomy(y, z);
      PathTrichotomy(z, x);
      if PathLess(x, y) && PathLess(y, z) {
        PathTransitive(x, y, z);
      }
    }
  }

  /** An ancestor is walked first. */
  lemma {:induction false} PrefixWalkedFirst(a: Path, b: Path)
    requires a < b
    ensures PathLess(a, b)
  {
    if a != [] {
      assert a[1..] < b[1..];
      PrefixWalkedFirst(a[1..], b[1..]);
    }
  }

  /** x is walked before x.copy, and so before everything below x.copy. */
  lemma {:induction false} CopyWalkedLater(p: Path, suffix: string)
    requires p != [] && suffix != []
    ensures PathLess(p, WithSuffix(p, suffix))
  {
    var q := WithSuffix(p, suffix);
    if |p| == 1 {
      StringLessExtension(p[0], suffix);
    } else {
      CopyWalkedLater(p[1..], suffix);
      assert q[1..] == WithSuffix(p[1..], suffix);
    }
  }

  ghost predicate IsWalk(t: Tree, dir: Path, walk: seq<Path>) {
    && Ascending(PathLess, walk)
    && forall p :: p in walk <==> p in t && Under(p, dir)
  }

  /** The entries of a tree in the order WalkDir visits them. */
  method WalkDir(t: Tree, dir: Path) returns (walk: seq<Path>)
    ensures IsWalk(t, dir, walk)
  {
    var found: seq<Path> := [];
    var todo := t.Keys;
    while todo != {}
      invariant todo <= t.Keys
      invariant Distinct(found)
      invariant forall p :: p in found <==> p in t && p !in todo && Under(p, dir)
      decreases todo
    {
      var p :| p in todo;
      if Under(p, dir) {
        found := found + [p];
      }
      todo := todo - {p};
    }
    PathOrder();
    walk := SortSlice(found, PathLess);
    SameElements(found, walk);
    forall i, j | 0 <= i < j < |walk| ensures PathLess(walk[i], walk[j]) {
      PathTrichotomy(walk[i], walk[j]);
    }
  }

  // ----- sizes ---------------------------------------------------------------------------------

  function FilesUnder(t: Tree, dir: Path): set<Path> {
    set p | p in t && Under(p, dir) && t[p].File?
  }

  /** Total size of the files s of t. */
  ghost function TotalSize(t: Tree, s: set<Path>): nat
    requires forall p :: p in s ==> p in t && t[p].File?
  {
    if s == {} then 0
    else
      var p :| p in s;
      |t[p].data| + TotalSize(t, s - {p})
  }

  lemma {:induction false} TotalSizeRemove(t: Tree, s: set<Path>, x: Path)
    requires x in s && forall p :: p in s ==> p in t && t[p].File?
    ensures TotalSize(t, s) == |t[x].data| + TotalSize(t, s - {x})
  {
    var p :| p in s && TotalSize(t, s) == |t[p].data| + TotalSize(t, s - {p});
    if p != x {
      TotalSizeRemove(t, s - {p}, x);
      TotalSizeRemove(t, s - {x}, p);
      assert s - {p} - {x} == s - {x} - {p};
    }
  }

  lemma {:induction false} TotalSizeMonotone(t: Tree, a: set<Path>, b: set<Path>)
    requires a <= b && forall p :: p in b ==> p in t && t[p].File?
    ensures TotalSize(t, a) <= TotalSize(t, b) && |a| <= |b|
  {
    if a != {} {
      var p :| p in a;
      TotalSizeRemove(t, a, p);
      TotalSizeRemove(t, b, p);
      TotalSizeMonotone(t, a - {p}, b - {p});
    }
  }

  /** The image of a path of one tree in another. */
  function Moved(p: Path, src: Path, dst: Path): Path
    requires Under(p, src)
  {
    dst + p[|src|..]
  }

  lemma MovedInjective(p: Path, q: Path, src: Path, dst: Path)
    requires Under(p, src) && Under(q, src)
    ensures Under(Moved(p, src, dst), dst)
    ensures Moved(p, src, dst) == Moved(q, src, dst) <==> p == q
  {
    var a, b := Moved(p, src, dst), Moved(q, src, dst);
    assert p == src + p[|src|..] && q == src + q[|src|..];
    assert a[|dst|..] == p[|src|..] && b[|dst|..] == q[|src|..];
  }

  function Image(s: set<Path>, src: Path, dst: Path): set<Path>
    requires forall p :: p in s ==> Under(p, src)
  {
    set p | p in s :: Moved(p, src, dst)
  }

  /** A faithful copy of a set of files is as large as the files. */
  lemma ImageRemove(s: set<Path>, p: Path, src: Path, dst: Path)
    requires p in s && forall r :: r in s ==> Under(r, src)
    ensures Moved(p, src, dst) in Image(s, src, dst)
    ensures Image(s, src, dst) - {Moved(p, src, dst)} == Image(s - {p}, src, dst)
  {
    var q := Moved(p, src, dst);
    forall r | r in s - {p} ensures Moved(r, src, dst) != q {
      MovedInjective(p, r, src, dst);
    }
    assert Image(s, src, dst) == Image(s - {p}, src, dst) + {q};
  }

  lemma {:induction false} ImageSize(t: Tree, t': Tree, s: set<Path>, src: Path, dst: Path)
    requires forall p :: p in s ==> Under(p, src) && p in t && t[p].File?
    requires forall p :: p in s ==> Moved(p, src, dst) in t' && t'[Moved(p, src, dst)] == t[p]
    ensures |Image(s, src, dst)| == |s|
    ensures forall q :: q in Image(s, src, dst) ==> q in t' && t'[q].File?
    ensures TotalSize(t', Image(s, src, dst)) == TotalSize(t, s)
  {
    if s == {} {
      assert Image(s, src, dst) == {};
    } else {
      var p :| p in s;
      var q := Moved(p, src, dst);
      ImageSize(t, t', s - {p}, src, dst);
      ImageRemove(s, p, src, dst);
      TotalSizeRemove(t, s, p);
      TotalSizeRemove(t', Image(s, src, dst), q);
    }
  }
}
