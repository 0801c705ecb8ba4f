/**
  Relocations that do not keep their promise (internal/agentrpc/backup_v2.go), and
  exactly when they do: a success whose pointer file names another directory than
  the copy, and an error after which a dropped copy is served.
 */
module RelocationRuns {
  import opened Common
  import opened Paths
  import opened Trees
  import opened CopyTree
  import opened RepoStates
  import opened HostCalls
  import opened RepoCleanup
  import opened RepoSwitch
  import opened Relocation

  // ----- when it does -----------------------------------------------------------------------------

  /** Writing cur to the pointer file leaves it as it was, or it is no file of the repository. */
  ghost predicate RewrittenAlike(s: Site) {
    PointerFile(s.dataDir) in RepoFiles(s.before, s.cur) ==> PointerSays(s.before, s.dataDir, s.cur)
  }

  /**
    A success, unless it took the pointer file along, names the complete copy
    exactly when the path of dest reads back.  An error leaves the old repository
    untouched.  After a switch that was taken back it is named exactly when the
    path of cur reads back, and then is intact exactly when a pointer file in it
    was rewritten as it was.  When both paths read back and no pointer file is in
    the way, every state passed through is intact.
   */
  lemma EndsAsPromised(s: Site, io: Step -> bool, points: nat, others: Moment -> seq<bool>, v: View, r: Result,
                       trail: Trail)
    requires MoveReport(s, io, points, others, v, r, trail) && Guarded(s)
    ensures r.Ok? && !Under(PointerFile(s.dataDir), s.cur) ==> (AtNew(s, v.tree) <==> !EndsInSpace(s.dest))
    ensures r.Err? ==> Untouched(s, v.tree)
    ensures r == Err(CopyFailed) ==> AtOld(s, v.tree) && Intact(s, v.tree) && AllIntact(s, trail)
    ensures r == Err(TakenBack) ==> (RepoRoot(v.tree, s.dataDir) == s.cur <==> !EndsInSpace(s.cur))
    ensures r == Err(TakenBack) && !EndsInSpace(s.cur) ==> (Intact(s, v.tree) <==> RewrittenAlike(s))
    ensures Separate(s) ==> Intact(s, v.tree) && AllIntact(s, trail)
  {
    PointerReadBack(s.cur);
    PointerReadBack(s.dest);
    if Promised(s, r) { EndedIsIntact(s, v.tree, r); }
    if r == Err(TakenBack) && !EndsInSpace(s.cur) { IntactAfterTakingBack(s, v.tree); }
  }

  lemma IntactAfterTakingBack(s: Site, t: Tree)
    requires Untouched(s, t) && PointerSays(t, s.dataDir, s.cur) && RepoRoot(t, s.dataDir) == s.cur
    ensures Intact(s, t) <==> RewrittenAlike(s)
  {
    TempIsSkipped(s.dataDir);
    forall p | p in RepoFiles(s.before, s.cur) ensures Moved(p, s.cur, s.cur) == p {
    }
  }

  // ----- when a freed success keeps the repository ------------------------------------------------

  /** The directory that is named once the old location is freed. */
  function NamedAfter(s: Site): Path {
    if Under(PointerFile(s.dataDir), s.cur) then DefaultRoot(s.dataDir) else ReadBack(s.dest)
  }

  /** Before the move root held the repository too, outside the tree that goes. */
  ghost predicate AlreadyAt(s: Site, root: Path) {
    forall p :: p in RepoFiles(s.before, s.cur) ==>
      var q := Moved(p, s.cur, root);
      !Under(q, s.cur) && q in s.before && s.before[q] == s.before[p]
  }

  /** The move itself writes nothing at the places of root where the repository is looked for. */
  ghost predicate Unwritten(s: Site, root: Path) {
    forall p :: p in RepoFiles(s.before, s.cur) ==>
      var q := Moved(p, s.cur, root);
      !Under(q, s.dest) && q != PointerFile(s.dataDir) && q != PointerTemp(s.dataDir)
  }

  /**
    A success that no step of which failed keeps the repository exactly when the
    directory named once the old location is freed is the copy, or was one already.
   */
  lemma FreedSuccess(s: Site, io: Step -> bool, points: nat, others: Moment -> seq<bool>, v: View, r: Result,
                     trail: Trail)
    requires MoveReport(s, io, points, others, v, r, trail) && r.Ok? && AllSucceed(io)
    requires PointersOutside(s.dataDir, s.dest)
    requires NamedAfter(s) == s.dest || Unwritten(s, NamedAfter(s))
    ensures Frees(s, points) ==> RepoRoot(v.tree, s.dataDir) == NamedAfter(s)
    ensures Intact(s, v.tree) <==> NamedAfter(s) == s.dest || AlreadyAt(s, NamedAfter(s))
  {
    var root := NamedAfter(s);
    if AlreadyAt(s, root) && root != s.dest {
      forall p | p in RepoFiles(s.before, s.cur)
        ensures Moved(p, s.cur, root) in v.tree && v.tree[Moved(p, s.cur, root)] == s.before[p]
      {
        assert !Within(s, Moved(p, s.cur, root));
      }
    }
    if Intact(s, v.tree) && root != s.dest {
      forall p | p in RepoFiles(s.before, s.cur)
        ensures var q := Moved(p, s.cur, root); !Under(q, s.cur) && q in s.before && s.before[q] == s.before[p]
      {
        assert !Within(s, Moved(p, s.cur, root));
      }
    }
  }

  // ----- a blank at the end -------------------------------------------------------------------------

  /** The directory named instead of dest holds no copy, and the move writes none there. */
  ghost predicate Elusive(s: Site) {
    && EndsInSpace(s.dest) && !Under(PointerFile(s.dataDir), s.cur) && RepoFiles(s.before, s.cur) != {}
    && Unwritten(s, ReadBack(s.dest)) && !AlreadyAt(s, ReadBack(s.dest))
  }

  /** A success for a path that ends in white space: another directory is named, and the repository is gone. */
  lemma BlankIsLost(s: Site, io: Step -> bool, points: nat, others: Moment -> seq<bool>, v: View, r: Result,
                    trail: Trail)
    requires MoveReport(s, io, points, others, v, r, trail) && r.Ok? && AllSucceed(io)
    requires Guarded(s) && Elusive(s)
    ensures RepoRoot(v.tree, s.dataDir) == ReadBack(s.dest) != s.dest
    ensures Emptied(v.tree, s.cur) && !Intact(s, v.tree)
  {
    PointerReadBack(s.dest);
    FreedSuccess(s, io, points, others, v, r, trail);
  }

  /**
    The run: a request for such a path.  Nothing fails, no restore point is
    missing where the repository is reopened, there may even be none at all, and
    the relocation reports success.
   */
  method LosesToBlank(h: Handler, path: string, io: Step -> bool, points: nat, got: nat, others: Moment -> seq<bool>)
      returns (r: Result, ghost trail: Trail)
    requires h.Valid() && !h.moving && AllSucceed(io) && points <= got && IsAbs(TrimSpace(path))
    requires var s := Site(h.dataDir, RepoRoot(h.tree, h.dataDir), CleanAbs(TrimSpace(path)), h.tree);
             Unobstructed(s) && Elusive(s)
    modifies h
    ensures var s := Site(h.dataDir, RepoRoot(old(h.tree), h.dataDir), CleanAbs(TrimSpace(path)), old(h.tree));
            && r == Ok(s.dest) && RepoRoot(h.tree, h.dataDir) == ReadBack(s.dest)
            && Emptied(h.tree, s.cur) && !Intact(s, h.tree)
  {
    ghost var s := Site(h.dataDir, RepoRoot(h.tree, h.dataDir), CleanAbs(TrimSpace(path)), h.tree);
    r, trail := h.RelocateBackupRepo(path, io, points, got, others);
    BlankIsLost(s, io, points, others, View(h.tree, h.host), r, trail);
  }

  /** Where the repository was there is nothing, and nothing is written. */
  lemma NothingAtOldPath(s: Site)
    requires Apart(s.cur, s.dest) && PointersOutside(s.dataDir, s.cur) && RepoFiles(s.before, s.cur) != {}
    ensures Unwritten(s, s.cur) && !AlreadyAt(s, s.cur)
  {
    forall p | p in RepoFiles(s.before, s.cur) ensures Moved(p, s.cur, s.cur) == p && !Under(p, s.dest) {
      if Under(p, s.dest) { PrefixesCompare(s.cur, s.dest, p); }
    }
    var p :| p in RepoFiles(s.before, s.cur);
    assert Under(Moved(p, s.cur, s.cur), s.cur);
  }

  /** The own path with a blank is such a path. */
  lemma OwnPathIsElusive(s: Site)
    requires Clean(s.cur) && s.cur != [] && !EndsInSpace(s.cur) && s.dest == Blanked(s.cur)
    requires PointersOutside(s.dataDir, s.cur) && RepoFiles(s.before, s.cur) != {}
    ensures Elusive(s) && ReadBack(s.dest) == s.cur
  {
    BlankedIsClean(s.cur);
    BlankedReadsBack(s.cur);
    NothingAtOldPath(s);
  }

  /**
    The request is the path in use with a blank and a slash: the repository that
    is reopened, with all its restore points, is the old one, and it is removed.
   */
  method LosesRepository(h: Handler, io: Step -> bool, points: nat, got: nat, others: Moment -> seq<bool>)
      returns (r: Result, ghost trail: Trail)
    requires h.Valid() && !h.moving && AllSucceed(io) && points <= got
    requires var cur := RepoRoot(h.tree, h.dataDir);
             && cur != [] && !EndsInSpace(cur) && RepoFiles(h.tree, cur) != {} && PointersOutside(h.dataDir, cur)
             && Unobstructed(Site(h.dataDir, cur, Blanked(cur), h.tree))
    modifies h
    ensures var cur := RepoRoot(old(h.tree), h.dataDir);
            && r == Ok(Blanked(cur)) && RepoRoot(h.tree, h.dataDir) == cur && Emptied(h.tree, cur)
            && !Intact(Site(h.dataDir, cur, Blanked(cur), old(h.tree)), h.tree)
  {
    var cur := RepoRoot(h.tree, h.dataDir);
    RepoRootIsClean(h.tree, h.dataDir);
    BlankSurvivesCleaning(cur);
    OwnPathIsElusive(Site(h.dataDir, cur, Blanked(cur), h.tree));
    r, trail := LosesToBlank(h, Render(cur) + " /", io, points, got, others);
  }

  // ----- a pointer file inside the repository ---------------------------------------------------------

  /** The repository holds the agent's own directory, and the default directory holds no copy. */
  ghost predicate Entangled(s: Site) {
    && Under(PointerDir(s.dataDir), s.cur) && s.dest != DefaultRoot(s.dataDir) && RepoFiles(s.before, s.cur) != {}
    && Unwritten(s, DefaultRoot(s.dataDir)) && !AlreadyAt(s, DefaultRoot(s.dataDir))
  }

  /** A success takes the pointer file along with the old tree: the default directory is named, where no copy is. */
  lemma PointerIsLost(s: Site, io: Step -> bool, points: nat, others: Moment -> seq<bool>, v: View, r: Result,
                      trail: Trail)
    requires MoveReport(s, io, points, others, v, r, trail) && r.Ok? && AllSucceed(io)
    requires Apart(s.cur, s.dest) && Entangled(s)
    ensures RepoRoot(v.tree, s.dataDir) == DefaultRoot(s.dataDir) && Emptied(v.tree, s.cur) && !Intact(s, v.tree)
  {
    var f, g, dir := PointerFile(s.dataDir), PointerTemp(s.dataDir), PointerDir(s.dataDir);
    assert Under(f, dir) && Under(g, dir);
    UnderTransitive(f, dir, s.cur);
    UnderTransitive(g, dir, s.cur);
    if Under(f, s.dest) { PrefixesCompare(s.cur, s.dest, f); }
    if Under(g, s.dest) { PrefixesCompare(s.cur, s.dest, g); }
    FreedSuccess(s, io, points, others, v, r, trail);
  }

  /** The run: any request nothing stands in the way of. */
  method LosesPointer(h: Handler, path: string, io: Step -> bool, points: nat, got: nat, others: Moment -> seq<bool>)
      returns (r: Result, ghost trail: Trail)
    requires h.Valid() && !h.moving && AllSucceed(io) && points <= got && IsAbs(TrimSpace(path))
    requires var s := Site(h.dataDir, RepoRoot(h.tree, h.dataDir), CleanAbs(TrimSpace(path)), h.tree);
             Unobstructed(s) && Entangled(s)
    modifies h
    ensures var s := Site(h.dataDir, RepoRoot(old(h.tree), h.dataDir), CleanAbs(TrimSpace(path)), old(h.tree));
            && r == Ok(s.dest) && RepoRoot(h.tree, h.dataDir) == DefaultRoot(h.dataDir)
            && Emptied(h.tree, s.cur) && !Intact(s, h.tree)
  {
    ghost var s := Site(h.dataDir, RepoRoot(h.tree, h.dataDir), CleanAbs(TrimSpace(path)), h.tree);
    r, trail := h.RelocateBackupRepo(path, io, points, got, others);
    PointerIsLost(s, io, points, others, View(h.tree, h.host), r, trail);
  }

  // ----- a dropped copy that is served ---------------------------------------------------------------------

  /**
    The run: the copy lacks restore points, and a call opens it between closing it
    and naming the old directory again.  The relocation reports the error, the old
    repository is named, and the handler goes on serving the emptied copy.
   */
  method ServesDroppedCopy(h: Handler, path: string, io: Step -> bool, points: nat, got: nat,
                           others: Moment -> seq<bool>)
      returns (r: Result, ghost trail: Trail)
    requires h.Valid() && !h.moving && AllSucceed(io) && got < points && true in others(BeforeRevert)
    requires var s := Site(h.dataDir, RepoRoot(h.tree, h.dataDir), CleanAbs(TrimSpace(path)), h.tree);
             IsAbs(TrimSpace(path)) && Unobstructed(s) && Separate(s)
    modifies h
    ensures var cur, dest := RepoRoot(old(h.tree), h.dataDir), CleanAbs(TrimSpace(path));
            && r == Err(TakenBack) && RepoRoot(h.tree, h.dataDir) == cur && h.host == Some(dest) && !h.Valid()
            && forall p :: p in h.tree ==> !InParts(p, dest, |PARTS|)
  {
    RepoRootIsClean(h.tree, h.dataDir);
    PointerReadBack(RepoRoot(h.tree, h.dataDir));
    r, trail := h.RelocateBackupRepo(path, io, points, got, others);
  }
}
