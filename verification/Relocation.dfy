/**
  relocateBackupRepo and backupHost (internal/agentrpc/backup_v2.go): the handler,
  what a relocation promises for every failing step, every point it may be stopped
  at and every call others make meanwhile, and when a success keeps the repository.
 */
module Relocation {
  import opened Common
  import opened Paths
  import opened Trees
  import opened CopyTree
  import opened RepoStates
  import opened HostCalls
  import opened RepoSwitch

  const FORBIDDEN := ["/proc", "/sys", "/dev", "/run", "/boot", "/etc", "/usr", "/bin", "/sbin", "/lib"]

  // ----- what is promised ---------------------------------------------------------------------

  /**
    A move that was tried: how it ended, in which states, and what is cached; a
    success frees the old location, an error drops the copy.
   */
  ghost predicate MoveReport(s: Site, io: Step -> bool, points: nat, others: Moment -> seq<bool>,
                             v: View, r: Result, trail: Trail) {
    && r in {Ok(s.dest), Err(CopyFailed), Err(TakenBack)}
    && Outcome(s, v.tree, r, trail) && Hosted(s, others, v, r)
    && (AllSucceed(io) && r.Ok? && Frees(s, points) ==> Emptied(v.tree, s.cur))
    && (r.Err? && Guarded(s) && !EndsInSpace(s.cur) ==> Dropped(v.tree, s.dest, io))
  }

  /** Line 189: there is something to free the old location of. */
  ghost predicate Frees(s: Site, points: nat) { points > 0 || RepoFiles(s.before, s.cur) != {} }

  /** The relocation did not touch anything: at most it made directories. */
  ghost predicate NothingMoved(s: Site, v: View, trail: Trail) {
    && AtOld(s, v.tree) && AddsDirs(s.before, v.tree) && Serving(v, s.dataDir)
    && IsTrail(s.before, trail, v.tree) && AllIntact(s, trail)
  }

  /** A refusal, and a request for the directory in use, moves nothing; everything else is a move that was tried. */
  ghost predicate Report(s: Site, io: Step -> bool, points: nat, others: Moment -> seq<bool>,
                         v: View, r: Result, trail: Trail) {
    if r == Err(Refused) || r == Ok(s.cur) then NothingMoved(s, v, trail)
    else Apart(s.cur, s.dest) && MoveReport(s, io, points, others, v, r, trail)
  }

  /** What becomes of a request when no I/O step fails and nothing is in the way. */
  function Expected(s: Site, points: nat, got: nat): Result {
    if points <= got then Ok(s.dest) else Err(TakenBack)
  }

  // ----- the handler ----------------------------------------------------------------------------

  class Handler {
    const dataDir: Path
    var tree: Tree            // the file system
    var moving: bool          // backupMoving
    var host: Option<Path>    // BackupHost, by its root

    /** A cached host serves the directory that is named. */
    ghost predicate Valid() reads this {
      Clean(dataDir) && (moving ==> host.None?) && Serving(View(tree, host), dataDir)
    }

    constructor (dataDir: Path, tree: Tree)
      requires Clean(dataDir)
      ensures Valid() && this.dataDir == dataDir && this.tree == tree && !moving && host.None?
    {
      this.dataDir, this.tree, moving, host := dataDir, tree, false, None;
    }

    /** backupHost: the cached host, or one opened on the named directory, which opening creates. */
    method BackupHost(io: Step -> bool) returns (root: Option<Path>)
      modifies this`tree, this`host
      ensures moving ==> root.None? && tree == old(tree) && host == old(host)
      ensures !moving ==> root == host
      ensures !moving ==>
                View(tree, host) == Call(old(View(tree, host)), dataDir, io(OpenHost(RepoRoot(old(tree), dataDir))))
      ensures old(Valid()) ==> Valid()
    {
      CallServes(View(tree, host), dataDir, io(OpenHost(RepoRoot(tree, dataDir))));
      if moving {
        return None;
      }
      if host.Some? {
        return host;
      }
      var named := RepoRoot(tree, dataDir);
      if !CanMkdirAll(tree, named) {
        return None;
      }
      tree := MkdirAll(tree, named);
      if !io(OpenHost(named)) {
        return None;
      }
      host := Some(named);
      return host;
    }

    /** Other requests call backupHost, one after the other; while the repository is moving all are refused. */
    method OtherCalls(calls: seq<bool>)
      modifies this`tree, this`host
      ensures moving ==> tree == old(tree) && host == old(host)
      ensures !moving ==> View(tree, host) == Calls(old(View(tree, host)), dataDir, calls)
    {
      ghost var v := View(tree, host);
      for k := 0 to |calls|
        invariant moving ==> tree == old(tree) && host == old(host)
        invariant !moving ==> Calls(View(tree, host), dataDir, calls[k..]) == Calls(v, dataDir, calls)
      {
        assert calls[k..][1..] == calls[k + 1..];
        var _ := BackupHost(s => calls[k]);
      }
      assert calls[|calls|..] == [];
    }

    /**
      Lines 135-200, from the moment nothing may open the repository.  `points`
      and `got` are the restore points seen before and after.
     */
    method MoveTo(cur: Path, dest: Path, io: Step -> bool, points: nat, got: nat, others: Moment -> seq<bool>)
        returns (r: Result, ghost trail: Trail)
      requires Valid() && host == Some(cur) && Apart(cur, dest) && Clean(dest) && HasDir(tree, dest)
      modifies this
      ensures !moving
      ensures var s := Site(dataDir, cur, dest, old(tree));
              && MoveReport(s, io, points, others, View(tree, host), r, trail)
              && (AllSucceed(io) && Clear(s) ==> r == Expected(s, points, got))
    {
      ghost var s := Site(dataDir, cur, dest, tree);
      RepoRootIsClean(tree, dataDir);
      moving := true;
      host := None;
      OtherCalls(others(WhileMoving));
      var t, good, files;
      t, good, files, trail := CopyAndSwitch(tree, dataDir, cur, dest, io);
      tree := t;
      moving := false;
      var v;
      if !good {
        v, trail := Abandon(tree, dataDir, cur, dest, io, others, s, trail);
        tree, host := v.tree, v.host;
        return Err(CopyFailed), trail;
      }
      SaidIsNamed(t, dataDir, dest);
      OtherCalls(others(BeforeReopen));
      OthersReopen(s, t, trail, others(BeforeReopen));
      trail := Extend(trail, t, tree, RepoRoot(t, dataDir));
      ghost var w := View(tree, host);
      var _ := BackupHost(io);
      Reopened(s, w, trail, io(OpenHost(RepoRoot(w.tree, dataDir))));
      trail := Extend(trail, w.tree, tree, RepoRoot(w.tree, dataDir));
      v, r, trail := Settle(View(tree, host), dataDir, cur, dest, io, others, points, got, files, s, trail);
      tree, host := v.tree, v.host;
    }

    /** Lines 92-102: where the request may not point. */
    method CheckDestination(dest: Path, io: Step -> bool) returns (ok: bool)
      requires Clean(dest)
      ensures ok ==> Allowed(dest) && dest[..|dest| - 1] in tree
      ensures AllSucceed(io) && Allowed(dest) && dest[..|dest| - 1] in tree ==> ok
    {
      if dest == [] {
        return false;
      }
      var below := BelowAny(Render(dest), FORBIDDEN);
      if below {
        return false;
      }
      return io(StatParent) && dest[..|dest| - 1] in tree;
    }

    /** Lines 119-133: hold the repository still and make the destination, which must look empty. */
    method MakeDestination(dest: Path, io: Step -> bool, points: nat) returns (ok: bool)
      modifies this`tree
      ensures tree == if ok then MkdirAll(old(tree), dest) else old(tree)
      ensures ok ==> CanMkdirAll(old(tree), dest)
      ensures ok && dest in old(tree) && (exists q :: q in old(tree) && dest < q) && io(ReadDest) ==>
                dest + ["packs"] in old(tree) && points == 0
      ensures AllSucceed(io) && CanMkdirAll(old(tree), dest) && (forall q :: q in old(tree) ==> !(dest < q)) ==> ok
    {
      if !io(Quiesce) {
        return false;
      }
      if io(ReadDest) && dest in tree && tree[dest].Dir? && exists q :: q in tree && dest < q {
        if dest + ["packs"] !in tree || points > 0 {
          return false;
        }
      }
      if !io(MakeDest) || !CanMkdirAll(tree, dest) {
        return false;
      }
      assert dest[..|dest|] == dest && dest in Prefixes(dest);
      tree := MkdirAll(tree, dest);
      return true;
    }

    /** Lines 119-200, for a destination that passed the guard. */
    method PrepareAndMove(cur: Path, dest: Path, io: Step -> bool, points: nat, got: nat, others: Moment -> seq<bool>)
        returns (r: Result, ghost trail: Trail)
      requires Valid() && host == Some(cur) && Apart(cur, dest) && Clean(dest)
      modifies this
      ensures !moving
      ensures var s := Site(dataDir, cur, dest, old(tree));
              && (if r == Err(Refused) then tree == old(tree) && host == old(host) && trail == []
                  else MoveReport(s, io, points, others, View(tree, host), r, trail))
              && (AllSucceed(io) && Clear(s) ==> r == Expected(s, points, got))
    {
      ghost var s := Site(dataDir, cur, dest, tree);
      if Clear(s) { Prepared(s); }
      trail := [];
      var made := MakeDestination(dest, io, points);
      if !made {
        return Err(Refused), trail;
      }
      ghost var ready, pre := tree, Extend([], s.before, tree, dest);
      ExtendByMkdir(s.before, [], s.before, ready, dest);
      DirsMade(s, ready, dest);
      r, trail := MoveTo(cur, dest, io, points, got, others);
      RebaseReport(s, ready, pre, io, points, others, View(tree, host), r, trail);
      trail := pre + trail;
    }

    /** Lines 107-200, for the directory in use. */
    method GuardAndMove(cur: Path, dest: Path, io: Step -> bool, points: nat, got: nat, others: Moment -> seq<bool>)
        returns (r: Result, ghost trail: Trail)
      requires Valid() && host == Some(cur) && Clean(dest)
      modifies this
      ensures !moving
      ensures var s := Site(dataDir, cur, dest, old(tree));
              && Report(s, io, points, others, View(tree, host), r, trail)
              && (r.Ok? ==> r.locator == dest)
              && (AllSucceed(io) && Clear(s) ==> r == Expected(s, points, got))
    {
      ghost var s := Site(dataDir, cur, dest, tree);
      trail := [];
      DirsMade(s, tree, cur);
      RepoRootIsClean(tree, dataDir);
      if dest == cur {
        return Ok(cur), trail;
      }
      IsUnderIsPrefix(dest, cur);
      IsUnderIsPrefix(cur, dest);
      if IsUnder(Render(dest), Render(cur)) || IsUnder(Render(cur), Render(dest)) {
        return Err(Refused), trail;
      }
      r, trail := PrepareAndMove(cur, dest, io, points, got, others);
    }

    /**
      relocateBackupRepo.  In terms of the directory named before, cur, and the
      cleaned request, dest: a refusal, and a request for cur itself, moves
      nothing; a move that is tried ends as MoveReport says; a request nothing
      stands in the way of succeeds unless restore points are missing.
     */
    method RelocateBackupRepo(path: string, io: Step -> bool, points: nat, got: nat, others: Moment -> seq<bool>)
        returns (r: Result, ghost trail: Trail)
      requires Valid()
      modifies this
      ensures moving == old(moving)
      ensures var s := Site(dataDir, RepoRoot(old(tree), dataDir), CleanAbs(TrimSpace(path)), old(tree));
              && Report(s, io, points, others, View(tree, host), r, trail)
              && (r != Err(Refused) ==> !moving && IsAbs(TrimSpace(path)) && Allowed(s.dest))
              && (r.Ok? ==> r.locator == s.dest)
              && (r.Ok? && PointersOutside(dataDir, s.dest) ==> CopiedAll(old(tree), s.cur, tree, s.dest))
              && (AllSucceed(io) && !old(moving) && IsAbs(TrimSpace(path)) && Unobstructed(s) ==>
                    r == Expected(s, points, got))
    {
      trail := [];
      var p := TrimSpace(path);
      ghost var s := Site(dataDir, RepoRoot(tree, dataDir), CleanAbs(p), tree);
      DirsMade(s, tree, s.cur);
      CleanAbsIsClean(p);
      if !IsAbs(p) {
        return Err(Refused), trail;
      }
      var dest := CleanAbs(p);
      var allowed := CheckDestination(dest, io);
      if !allowed {
        return Err(Refused), trail;
      }
      var root := BackupHost(io);
      ghost var atOpen, pre := tree, Extend([], s.before, tree, s.cur);
      ExtendByMkdir(s.before, [], s.before, atOpen, s.cur);
      DirsMade(s, atOpen, s.cur);
      if root.None? {
        return Err(Refused), pre;
      }
      if Unobstructed(s) { Opened(s, atOpen); }
      r, trail := GuardAndMove(root.value, dest, io, points, got, others);
      RebaseAnyReport(s, atOpen, pre, io, points, others, View(tree, host), r, trail);
      ReportedCopy(s, io, points, others, View(tree, host), r, pre + trail);
      trail := pre + trail;
    }
  }

  /** p is one of the directories or below one. */
  ghost predicate Below(p: string, dirs: seq<string>) { exists d :: d in dirs && IsUnder(p, d) }

  method BelowAny(p: string, dirs: seq<string>) returns (below: bool)
    ensures below <==> Below(p, dirs)
  {
    for k := 0 to |dirs|
      invariant forall j :: 0 <= j < k ==> !IsUnder(p, dirs[j])
    {
      if IsUnder(p, dirs[k]) {
        return true;
      }
    }
    return false;
  }

  /** Neither the root nor below a system directory. */
  ghost predicate Allowed(dest: Path) { dest != [] && !Below(Render(dest), FORBIDDEN) }

  /** After a success every file of the repository is where it was asked to be. */
  lemma ReportedCopy(s: Site, io: Step -> bool, points: nat, others: Moment -> seq<bool>, v: View, r: Result,
                     trail: Trail)
    requires Report(s, io, points, others, v, r, trail) && (r.Ok? ==> r.locator == s.dest)
    ensures r.Ok? && PointersOutside(s.dataDir, s.dest) ==> CopiedAll(s.before, s.cur, v.tree, s.dest)
  {
    if r.Ok? && s.dest != s.cur { HoldsExactly(v.tree, s.dest, s.before, s.cur); }
  }

  /** Where a repository may go: nowhere below ten directories at the root. */
  lemma AllowedExactly(dest: Path)
    requires Clean(dest)
    ensures Allowed(dest) <==>
              && dest != []
              && dest[0] !in ["proc", "sys", "dev", "run", "boot", "etc", "usr", "bin", "sbin", "lib"]
  {
    var names := ["proc", "sys", "dev", "run", "boot", "etc", "usr", "bin", "sbin", "lib"];
    ForbiddenNames(names);
    if dest != [] { BelowNames(dest, names, FORBIDDEN); }
  }

  lemma ForbiddenNames(names: seq<string>)
    requires names == ["proc", "sys", "dev", "run", "boot", "etc", "usr", "bin", "sbin", "lib"]
    ensures |FORBIDDEN| == |names|
    ensures forall k :: 0 <= k < |names| ==> ValidName(names[k]) && FORBIDDEN[k] == "/" + names[k]
  {
  }

  lemma BelowNames(dest: Path, names: seq<string>, dirs: seq<string>)
    requires Clean(dest) && dest != [] && |names| == |dirs|
    requires forall k :: 0 <= k < |names| ==> ValidName(names[k]) && dirs[k] == "/" + names[k]
    ensures Below(Render(dest), dirs) <==> dest[0] in names
  {
    forall k | 0 <= k < |names| ensures IsUnder(Render(dest), dirs[k]) <==> dest[0] == names[k] {
      BelowName(dest, names[k], dirs[k]);
    }
    if dest[0] in names {
      var k :| 0 <= k < |names| && names[k] == dest[0];
      assert dirs[k] in dirs;
    }
  }

  lemma BelowName(dest: Path, n: string, dir: string)
    requires Clean(dest) && dest != [] && ValidName(n) && dir == "/" + n
    ensures IsUnder(Render(dest), dir) <==> dest[0] == n
  {
    assert [n][1..] == [] && Slashed([n]) == "/" + [n][0] + Slashed([n][1..]);
    assert Render([n]) == dir;
    IsUnderIsPrefix(dest, [n]);
    assert [n] <= dest <==> dest[0] == n;
  }

  /** A request nothing stands in the way of. */
  ghost predicate Unobstructed(s: Site) {
    && Clear(s) && Allowed(s.dest) && s.dest[..|s.dest| - 1] in s.before
    && CanMkdirAll(s.before, s.cur)
    && !Under(s.cur, PointerFile(s.dataDir)) && !Under(s.cur, PointerTemp(s.dataDir))
  }

  // ----- directories made on the way -----------------------------------------------------------------

  /** Making a directory moves nothing. */
  lemma DirsMade(s: Site, t: Tree, p: Path)
    requires RepoRoot(s.before, s.dataDir) == s.cur && (t == s.before || t == MkdirAll(s.before, p))
    ensures AtOld(s, t) && AddsDirs(s.before, t) && AllIntact(s, Extend([], s.before, t, p))
  {
    OldAfterMkdir(s, s.before, p);
    OldIsIntact(s, t);
  }

  lemma RebaseAll(s: Site, later: Tree, trail: Trail)
    requires AddsDirs(s.before, later) && AllIntact(s.(before := later), trail)
    ensures AllIntact(s, trail)
  {
    forall i | 0 <= i < |trail| ensures Intact(s, trail[i].after) {
      Rebase(s, later, trail[i].after);
    }
  }

  lemma RebaseEnded(s: Site, later: Tree, t: Tree, r: Result)
    requires AddsDirs(s.before, later) && Ended(s.(before := later), t, r)
    ensures Ended(s, t, r)
  {
    Rebase(s, later, t);
  }

  lemma RebaseOutcome(s: Site, later: Tree, pre: Trail, t: Tree, r: Result, trail: Trail)
    requires AddsDirs(s.before, later) && IsTrail(s.before, pre, later) && AllIntact(s, pre)
    requires Outcome(s.(before := later), t, r, trail)
    ensures Outcome(s, t, r, pre + trail)
  {
    TrailConcat(s.before, pre, later, trail, t);
    RebaseEnded(s, later, t, r);
    Rebase(s, later, t);
    if Promised(s, r) {
      RebaseAll(s, later, trail);
      AllIntactAppends(s, pre, trail);
    }
  }

  /** A report on the tree with some directories added is a report on the tree. */
  lemma RebaseReport(s: Site, later: Tree, pre: Trail, io: Step -> bool, points: nat,
                     others: Moment -> seq<bool>, v: View, r: Result, trail: Trail)
    requires AddsDirs(s.before, later) && IsTrail(s.before, pre, later) && AllIntact(s, pre)
    requires MoveReport(s.(before := later), io, points, others, v, r, trail)
    ensures MoveReport(s, io, points, others, v, r, pre + trail)
  {
    RebaseOutcome(s, later, pre, v.tree, r, trail);
    Rebase(s, later, v.tree);
  }

  lemma RebaseAnyReport(s: Site, later: Tree, pre: Trail, io: Step -> bool, points: nat,
                        others: Moment -> seq<bool>, v: View, r: Result, trail: Trail)
    requires AddsDirs(s.before, later) && IsTrail(s.before, pre, later) && AllIntact(s, pre)
    requires Report(s.(before := later), io, points, others, v, r, trail)
    ensures Report(s, io, points, others, v, r, pre + trail)
  {
    if r == Err(Refused) || r == Ok(s.cur) {
      Rebase(s, later, v.tree);
      RebaseAll(s, later, trail);
      AllIntactAppends(s, pre, trail);
      TrailConcat(s.before, pre, later, trail, v.tree);
    } else {
      RebaseReport(s, later, pre, io, points, others, v, r, trail);
    }
  }

  lemma Opened(s: Site, t: Tree)
    requires Unobstructed(s) && (t == s.before || t == MkdirAll(s.before, s.cur))
    ensures Clear(s.(before := t))
  {
    StaysEmpty(s.before, s.cur, s.dest);
    StaysWellFormed(s.before, s.cur, s.cur);
    StaysClear(s.before, s.dataDir, s.cur);
  }

  lemma Prepared(s: Site)
    requires Clear(s)
    ensures Clear(s.(before := MkdirAll(s.before, s.dest))) && CanMkdirAll(s.before, s.dest)
    ensures forall q :: q in s.before ==> !(s.dest < q)
  {
    StaysEmpty(s.before, s.cur, s.dest);
    StaysWellFormed(s.before, s.dest, s.cur);
    StaysClear(s.before, s.dataDir, s.dest);
  }
}
