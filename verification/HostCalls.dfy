/**
  backupHost as anybody may call it (internal/agentrpc/backup_v2.go:43-72): the
  relocation itself, and the other requests an agent serves meanwhile
  (internal/agentrpc/vm.go).  Each call is one step.
 */
module HostCalls {
  import opened Common
  import opened Paths
  import opened Trees
  import opened CopyTree
  import opened RepoStates

  /** The disk, and the root of the cached host. */
  datatype View = View(tree: Tree, host: Option<Path>)

  /** One call while nothing is moving; `opens` says whether the engine opens. */
  function Call(v: View, dataDir: Path, opens: bool): View {
    var named := RepoRoot(v.tree, dataDir);
    if v.host.Some? || !CanMkdirAll(v.tree, named) then v
    else View(MkdirAll(v.tree, named), if opens then Some(named) else None)
  }

  function Calls(v: View, dataDir: Path, calls: seq<bool>): View
    decreases |calls|
  {
    if calls == [] then v else Calls(Call(v, dataDir, calls[0]), dataDir, calls[1..])
  }

  /** A cached host serves the directory that is named, and that directory exists. */
  ghost predicate Serving(v: View, dataDir: Path) {
    v.host.Some? ==>
      v.host.value == RepoRoot(v.tree, dataDir) && v.host.value in v.tree && v.tree[v.host.value].Dir?
  }

  /** Any number of calls come to this: the first that opens decides, and a cached host is left alone. */
  lemma {:induction false} CallsAre(v: View, dataDir: Path, calls: seq<bool>)
    ensures var named := RepoRoot(v.tree, dataDir);
            Calls(v, dataDir, calls)
            == if v.host.Some? || calls == [] || !CanMkdirAll(v.tree, named) then v
               else View(MkdirAll(v.tree, named), if true in calls then Some(named) else None)
    decreases |calls|
  {
    if calls != [] {
      var named := RepoRoot(v.tree, dataDir);
      RootAfterMkdir(v.tree, dataDir, named);
      assert MkdirAll(MkdirAll(v.tree, named), named) == MkdirAll(v.tree, named);
      CallsAre(Call(v, dataDir, calls[0]), dataDir, calls[1..]);
      assert true in calls <==> calls[0] || true in calls[1..];
    }
  }

  lemma CallServes(v: View, dataDir: Path, opens: bool)
    ensures AddsDirs(v.tree, Call(v, dataDir, opens).tree)
    ensures Serving(v, dataDir) ==> Serving(Call(v, dataDir, opens), dataDir)
  {
    var named := RepoRoot(v.tree, dataDir);
    RootAfterMkdir(v.tree, dataDir, named);
    assert named == named[..|named|] && named in Prefixes(named);
  }

  lemma {:induction false} CallsServe(v: View, dataDir: Path, calls: seq<bool>)
    ensures AddsDirs(v.tree, Calls(v, dataDir, calls).tree)
    ensures Serving(v, dataDir) ==> Serving(Calls(v, dataDir, calls), dataDir)
    decreases |calls|
  {
    if calls != [] {
      CallServes(v, dataDir, calls[0]);
      CallsServe(Call(v, dataDir, calls[0]), dataDir, calls[1..]);
    }
  }

  // ----- the states calls lead to -------------------------------------------------------------

  /** The trail after making p, which took the disk from a to b and may have changed nothing. */
  ghost function Extend(trail: Trail, a: Tree, b: Tree, p: Path): Trail {
    if a == b then trail else trail + [Stage(Mkdir(p), b)]
  }

  lemma ExtendByMkdir(start: Tree, trail: Trail, a: Tree, b: Tree, p: Path)
    requires IsTrail(start, trail, a) && (b == a || b == MkdirAll(a, p))
    ensures IsTrail(start, Extend(trail, a, b, p), b)
  {
    if b != a { TrailNext(start, trail, a, Mkdir(p)); }
  }

  /** Calls at one moment make at most one step: the directory that is named. */
  lemma CallsExtend(start: Tree, trail: Trail, v: View, dataDir: Path, calls: seq<bool>)
    requires IsTrail(start, trail, v.tree)
    ensures var v' := Calls(v, dataDir, calls);
            && IsTrail(start, Extend(trail, v.tree, v'.tree, RepoRoot(v.tree, dataDir)), v'.tree)
            && AddsDirs(v.tree, v'.tree)
  {
    CallsAre(v, dataDir, calls);
    CallsServe(v, dataDir, calls);
    ExtendByMkdir(start, trail, v.tree, Calls(v, dataDir, calls).tree, RepoRoot(v.tree, dataDir));
  }
}
