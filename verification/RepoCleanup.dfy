/**
  os.RemoveAll, one entry at a time in any order, while others call backupHost
  (internal/agentrpc/backup_v2.go:145-151, 189-191).  What cannot be removed stays.
 */
module RepoCleanup {
  import opened Common
  import opened Paths
  import opened Trees
  import opened CopyTree
  import opened RepoStates
  import opened HostCalls

  const PARTS := ["packs", "snapshots", "state", "cache"]

  /** Removing root leaves the named directory alone, and the pointer file that names it. */
  ghost predicate Steady(t: Tree, dataDir: Path, root: Path) {
    !Under(PointerFile(dataDir), root) && Apart(RepoRoot(t, dataDir), root)
  }

  /** Only ancestors of `named` were added. */
  ghost predicate Grows(t: Tree, t': Tree, named: Path) {
    forall p :: p in t' && p !in t ==> Under(named, p)
  }

  /** Below root there is only what cannot be removed, or is still to do. */
  ghost predicate Left(t: Tree, root: Path, todo: set<Path>, removes: Path -> bool) {
    forall p :: p in t && Under(p, root) ==> p in todo || !removes(p)
  }

  /** How far a removal has come from v to v'. */
  ghost predicate Sweeping(v: View, v': View, dataDir: Path, root: Path, todo: set<Path>, removes: Path -> bool,
                           trail: Trail) {
    && IsTrail(v.tree, trail, v'.tree)
    && Erodes(v.tree, v'.tree, root) && TrailErodes(v.tree, trail, root)
    && (v.host.Some? ==>
          v'.host == v.host && RemovesUnder(v.tree, v'.tree, root) && Left(v'.tree, root, todo, removes))
    && (Steady(v.tree, dataDir, root) ==>
          && RepoRoot(v'.tree, dataDir) == RepoRoot(v.tree, dataDir)
          && Grows(v.tree, v'.tree, RepoRoot(v.tree, dataDir)) && Left(v'.tree, root, todo, removes)
          && (Serving(v, dataDir) ==> Serving(v', dataDir)))
  }

  lemma SweepDelete(v: View, v': View, dataDir: Path, root: Path, todo: set<Path>, removes: Path -> bool,
                    trail: Trail, p: Path, t: Tree, trail': Trail)
    requires Sweeping(v, v', dataDir, root, todo, removes, trail) && Under(p, root)
    requires t == v'.tree - {p} && trail' == trail + [Stage(Delete(p), t)] && IsTrail(v.tree, trail', t)
    ensures Sweeping(v, v'.(tree := t), dataDir, root, todo - {p}, removes, trail')
  {
    ErodesByOne(v.tree, v'.tree, root, p);
    if Steady(v.tree, dataDir, root) {
      RootAfterErosion(dataDir, v'.tree, t, root);
    }
  }

  lemma ErodesByOne(a: Tree, b: Tree, root: Path, p: Path)
    requires Erodes(a, b, root) && Under(p, root)
    ensures Erodes(a, b - {p}, root) && Erodes(b, b - {p}, root)
    ensures RemovesUnder(a, b, root) ==> RemovesUnder(a, b - {p}, root)
  {
  }

  /** Making the named directory adds nothing below root. */
  lemma MkdirBeside(t: Tree, t': Tree, dataDir: Path, root: Path, todo: set<Path>, removes: Path -> bool)
    requires Steady(t, dataDir, root) && RepoRoot(t', dataDir) == RepoRoot(t, dataDir)
    requires Grows(t, t', RepoRoot(t, dataDir)) && Left(t', root, todo, removes)
    ensures var u := MkdirAll(t', RepoRoot(t', dataDir));
            Grows(t, u, RepoRoot(t, dataDir)) && Left(u, root, todo, removes)
  {
    var named := RepoRoot(t', dataDir);
    forall q | q in Prefixes(named) ensures Under(named, q) && !Under(q, root) {
      var i :| 0 <= i <= |named| && q == named[..i];
      if Under(q, root) { UnderTransitive(named, q, root); }
    }
  }

  lemma SweepCalls(v: View, v': View, dataDir: Path, root: Path, todo: set<Path>, removes: Path -> bool,
                   trail: Trail, calls: seq<bool>)
    requires Sweeping(v, v', dataDir, root, todo, removes, trail)
    ensures var u := Calls(v', dataDir, calls);
            Sweeping(v, u, dataDir, root, todo, removes, Extend(trail, v'.tree, u.tree, RepoRoot(v'.tree, dataDir)))
  {
    var u := Calls(v', dataDir, calls);
    CallsAre(v', dataDir, calls);
    CallsServe(v', dataDir, calls);
    CallsExtend(v.tree, trail, v', dataDir, calls);
    ErodesAfterDirs(v.tree, v'.tree, u.tree, root);
    if u.tree != v'.tree && Steady(v.tree, dataDir, root) {
      RootAfterMkdir(v'.tree, dataDir, RepoRoot(v'.tree, dataDir));
      MkdirBeside(v.tree, v'.tree, dataDir, root, todo, removes);
    }
  }

  /** os.RemoveAll(root). */
  method RemoveAll(v: View, dataDir: Path, root: Path, removes: Path -> bool, others: Path -> seq<bool>)
      returns (v': View, ghost trail: Trail)
    ensures Erodes(v.tree, v'.tree, root)
    ensures v.host.Some? || Steady(v.tree, dataDir, root) ==> Left(v'.tree, root, {}, removes)
    ensures Sweeping(v, v', dataDir, root, {}, removes, trail)
  {
    v', trail := v, [];
    var todo := set p | p in v.tree && Under(p, root);
    while todo != {}
      invariant forall p :: p in todo ==> Under(p, root)
      invariant Sweeping(v, v', dataDir, root, todo, removes, trail)
      decreases todo
    {
      var p :| p in todo;
      if removes(p) {
        var t;
        ghost var trail';
        t, trail' := Perform(v.tree, v'.tree, trail, Delete(p));
        SweepDelete(v, v', dataDir, root, todo, removes, trail, p, t, trail');
        v', trail := v'.(tree := t), trail';
      }
      todo := todo - {p};
      SweepCalls(v, v', dataDir, root, todo, removes, trail, others(p));
      trail := Extend(trail, v'.tree, Calls(v', dataDir, others(p)).tree, RepoRoot(v'.tree, dataDir));
      v' := Calls(v', dataDir, others(p));
    }
  }

  // ----- the four folders ------------------------------------------------------------------------

  /** p is in one of the first n folders of a repository at dest. */
  ghost predicate InParts(p: Path, dest: Path, n: nat)
    requires n <= |PARTS|
  {
    exists k :: 0 <= k < n && Under(p, dest + [PARTS[k]])
  }

  /** The first n folders at dest are gone, but for what cannot be removed, and nothing else is. */
  ghost predicate PartsGone(t: Tree, t': Tree, dest: Path, n: nat, removes: Path -> bool)
    requires n <= |PARTS|
  {
    && (forall p :: p in t && !InParts(p, dest, n) ==> p in t' && t'[p] == t[p])
    && (forall p :: p in t' && InParts(p, dest, n) ==> !removes(p))
  }

  ghost predicate Clearing(v: View, v': View, dataDir: Path, dest: Path, n: nat, removes: Path -> bool,
                           trail: Trail)
    requires n <= |PARTS|
  {
    && IsTrail(v.tree, trail, v'.tree)
    && Erodes(v.tree, v'.tree, dest) && TrailErodes(v.tree, trail, dest)
    && (v.host.Some? ==> v'.host == v.host && PartsGone(v.tree, v'.tree, dest, n, removes))
    && (Steady(v.tree, dataDir, dest) ==>
          && RepoRoot(v'.tree, dataDir) == RepoRoot(v.tree, dataDir) && PartsGone(v.tree, v'.tree, dest, n, removes)
          && (Serving(v, dataDir) ==> Serving(v', dataDir)))
  }

  lemma SteadyBelow(t: Tree, dataDir: Path, dest: Path, part: Path)
    requires Steady(t, dataDir, dest) && dest < part && |part| == |dest| + 1
    ensures Steady(t, dataDir, part)
  {
    var named := RepoRoot(t, dataDir);
    if Under(PointerFile(dataDir), part) { UnderTransitive(PointerFile(dataDir), part, dest); }
    if Under(named, part) { UnderTransitive(named, part, dest); }
    if Under(part, named) { PrefixesCompare(named, dest, part); }
  }

  lemma NextPartGone(t: Tree, mid: Tree, t': Tree, dest: Path, k: nat, removes: Path -> bool)
    requires k < |PARTS| && PartsGone(t, mid, dest, k, removes) && Erodes(mid, t', dest + [PARTS[k]])
    requires Left(t', dest + [PARTS[k]], {}, removes)
    requires forall p :: p in t' && Under(p, dest) ==> p in mid
    ensures PartsGone(t, t', dest, k + 1, removes)
  {
    forall p ensures InParts(p, dest, k + 1) <==> InParts(p, dest, k) || Under(p, dest + [PARTS[k]]) {
    }
    forall p | InParts(p, dest, k) ensures Under(p, dest) {
      var j :| 0 <= j < k && Under(p, dest + [PARTS[j]]);
      UnderTransitive(p, dest + [PARTS[j]], dest);
    }
  }

  lemma NextPart(v: View, mid: View, v': View, dataDir: Path, dest: Path, k: nat, removes: Path -> bool,
                 trail: Trail, steps: Trail)
    requires k < |PARTS| && Clearing(v, mid, dataDir, dest, k, removes, trail)
    requires Sweeping(mid, v', dataDir, dest + [PARTS[k]], {}, removes, steps)
    ensures Clearing(v, v', dataDir, dest, k + 1, removes, trail + steps)
  {
    var part := dest + [PARTS[k]];
    TrailConcat(v.tree, trail, mid.tree, steps, v'.tree);
    ErodesTransitive(v.tree, mid.tree, v'.tree, dest, part);
    forall i | 0 <= i < |steps| ensures Erodes(v.tree, steps[i].after, dest) {
      ErodesTransitive(v.tree, mid.tree, steps[i].after, dest, part);
    }
    if Steady(v.tree, dataDir, dest) {
      SteadyBelow(mid.tree, dataDir, dest, part);
      forall p | p in v'.tree && Under(p, dest) ensures p in mid.tree {
        if p !in mid.tree { UnderTransitive(RepoRoot(mid.tree, dataDir), p, dest); }
      }
      NextPartGone(v.tree, mid.tree, v'.tree, dest, k, removes);
    } else if v.host.Some? {
      NextPartGone(v.tree, mid.tree, v'.tree, dest, k, removes);
    }
  }

  /** Lines 146-150: the partial copy is not used. */
  method RemoveParts(v: View, dataDir: Path, dest: Path, removes: Path -> bool, others: Path -> seq<bool>)
      returns (v': View, ghost trail: Trail)
    ensures Erodes(v.tree, v'.tree, dest)
    ensures v.host.Some? || Steady(v.tree, dataDir, dest) ==> PartsGone(v.tree, v'.tree, dest, |PARTS|, removes)
    ensures v.host.Some? || Steady(v.tree, dataDir, dest) ==>
              forall part, rel: Path :: part in {"packs", "snapshots", "state", "cache"} ==>
                dest + [part] + rel in v'.tree ==> !removes(dest + [part] + rel)
    ensures Clearing(v, v', dataDir, dest, |PARTS|, removes, trail)
  {
    v', trail := v, [];
    for k := 0 to |PARTS|
      invariant Clearing(v, v', dataDir, dest, k, removes, trail)
    {
      ghost var mid, steps := v', [];
      v', steps := RemoveAll(v', dataDir, dest + [PARTS[k]], removes, others);
      NextPart(v, mid, v', dataDir, dest, k, removes, trail, steps);
      trail := trail + steps;
    }
    forall part, rel: Path | part in {"packs", "snapshots", "state", "cache"}
      ensures InParts(dest + [part] + rel, dest, |PARTS|)
    {
      assert PARTS[0] == "packs" && PARTS[1] == "snapshots" && PARTS[2] == "state" && PARTS[3] == "cache";
      assert Under(dest + [part] + rel, dest + [part]);
    }
  }
}
