/**
  The states of a relocation (internal/agentrpc/backup_v2.go): which directory
  the pointer file names, and what of the repository is still there.
 */
module RepoStates {
  import opened Common
  import opened Paths
  import opened Trees
  import opened CopyTree

  // ----- the pointer file -------------------------------------------------------------

  function PointerDir(dataDir: Path): Path { dataDir + ["agent"] }
  function PointerFile(dataDir: Path): Path { dataDir + ["agent", "backup-repo.path"] }
  function PointerTemp(dataDir: Path): Path { dataDir + ["agent", "backup-repo.path.tmp"] }
  function DefaultRoot(dataDir: Path): Path { dataDir + ["backup-repo"] }

  /** backupRepoRoot: the directory the pointer file names, or the default. */
  function RepoRoot(t: Tree, dataDir: Path): Path {
    var f := PointerFile(dataDir);
    if f in t && t[f].File? && ReadPointer(t[f].data).Some? then ReadPointer(t[f].data).value
    else DefaultRoot(dataDir)
  }

  /** The trimmed text of the pointer file, if it is one and absolute, else the default below the data directory. */
  lemma RepoRootExactly(t: Tree, d: Path)
    ensures var f := d + ["agent", "backup-repo.path"];
            RepoRoot(t, d)
            == if f in t && t[f].File? && TrimSpace(t[f].data) != "" && TrimSpace(t[f].data)[0] == '/'
               then CleanAbs(TrimSpace(t[f].data)) else d + ["backup-repo"]
  {
  }

  lemma RepoRootIsClean(t: Tree, dataDir: Path)
    requires Clean(dataDir)
    ensures Clean(RepoRoot(t, dataDir))
  {
    var f := PointerFile(dataDir);
    if f in t && t[f].File? {
      CleanAbsIsClean(TrimSpace(t[f].data));
    }
  }

  /** A repository moved back to the default directory is named there. */
  lemma DefaultReadsBack(dataDir: Path)
    requires Clean(dataDir)
    ensures Clean(DefaultRoot(dataDir)) && ReadBack(DefaultRoot(dataDir)) == DefaultRoot(dataDir)
  {
    var d := DefaultRoot(dataDir);
    assert d[|d| - 1] == "backup-repo" && ValidName("backup-repo");
    PointerReadBack(d);
  }

  // ----- a relocation ---------------------------------------------------------------------

  /** Moving the repository from cur to dest, starting with the files `before`. */
  datatype Site = Site(dataDir: Path, cur: Path, dest: Path, before: Tree)

  predicate PointersOutside(dataDir: Path, dir: Path) {
    !Under(PointerFile(dataDir), dir) && !Under(PointerTemp(dataDir), dir)
  }

  predicate IsPointer(dataDir: Path, p: Path) { p == PointerFile(dataDir) || p == PointerTemp(dataDir) }

  /** The two directories pass the guard, and the pointer files are not in the new one. */
  ghost predicate Guarded(s: Site) {
    Clean(s.cur) && Clean(s.dest) && Apart(s.cur, s.dest) && PointersOutside(s.dataDir, s.dest)
  }

  /** Besides, they are not in the old one, and both paths survive being written to the pointer file. */
  ghost predicate Separate(s: Site) {
    Guarded(s) && PointersOutside(s.dataDir, s.cur) && !EndsInSpace(s.cur) && !EndsInSpace(s.dest)
  }

  /** Everything in the old repository is as it was, but for new directories, and for pointer files it may hold. */
  ghost predicate Untouched(s: Site, t: Tree) {
    forall p :: Under(p, s.cur) && !IsPointer(s.dataDir, p) ==>
      && (p in s.before ==> p in t && t[p] == s.before[p])
      && (p in t && p !in s.before ==> t[p].Dir?)
  }

  /** A pointer file that lies in the old repository is as it was. */
  ghost predicate PointerKept(s: Site, t: Tree) {
    var f := PointerFile(s.dataDir);
    f in s.before && Under(f, s.cur) ==> f in t && t[f] == s.before[f]
  }

  /** The old repository is named and untouched. */
  ghost predicate AtOld(s: Site, t: Tree) {
    RepoRoot(t, s.dataDir) == s.cur && Untouched(s, t) && PointerKept(s, t)
  }

  /** The new repository is named and complete. */
  ghost predicate AtNew(s: Site, t: Tree) {
    RepoRoot(t, s.dataDir) == s.dest && Holds(t, s.dest, s.before, s.cur)
  }

  /** The directory named by the pointer file holds every repository file, with its bytes. */
  ghost predicate Intact(s: Site, t: Tree) {
    Holds(t, RepoRoot(t, s.dataDir), s.before, s.cur)
  }

  /** The temporary is not a repository file, wherever it lies. */
  lemma TempIsSkipped(dataDir: Path)
    ensures Skipped(PointerTemp(dataDir))
  {
    var g := PointerTemp(dataDir);
    assert g[|g| - 1] == "backup-repo.path" + TMP;
  }

  lemma OldIsIntact(s: Site, t: Tree)
    requires AtOld(s, t)
    ensures Intact(s, t)
  {
    TempIsSkipped(s.dataDir);
    forall p | p in RepoFiles(s.before, s.cur)
      ensures Moved(p, s.cur, s.cur) in t && t[Moved(p, s.cur, s.cur)] == s.before[p]
    {
      assert Moved(p, s.cur, s.cur) == p;
    }
  }

  ghost predicate AllIntact(s: Site, trail: Trail) {
    forall i :: 0 <= i < |trail| ==> Intact(s, trail[i].after)
  }

  lemma AllIntactAppends(s: Site, a: Trail, b: Trail)
    requires AllIntact(s, a) && AllIntact(s, b)
    ensures AllIntact(s, a + b)
  {
  }

  // ----- steps that keep the old repository named -----------------------------------------------

  lemma OldAfterTouch(s: Site, a: Tree, b: Tree)
    requires Apart(s.cur, s.dest) && !Under(PointerFile(s.dataDir), s.dest)
    requires AtOld(s, a) && TouchesOnly(a, b, s.dest)
    ensures AtOld(s, b)
  {
    forall p | Under(p, s.cur) ensures !Under(p, s.dest) && !Under(s.dest, p) {
      if Under(p, s.dest) { PrefixesCompare(s.cur, s.dest, p); }
      if Under(s.dest, p) { UnderTransitive(s.dest, p, s.cur); }
    }
    var f := PointerFile(s.dataDir);
    assert f in b && b[f].File? <==> f in a && a[f].File?;
  }

  lemma OldAfterTrail(s: Site, a: Tree, trail: Trail)
    requires Apart(s.cur, s.dest) && !Under(PointerFile(s.dataDir), s.dest)
    requires AtOld(s, a) && TrailTouchesOnly(a, trail, s.dest)
    ensures AllIntact(s, trail)
  {
    forall i | 0 <= i < |trail| ensures Intact(s, trail[i].after) {
      OldAfterTouch(s, a, trail[i].after);
      OldIsIntact(s, trail[i].after);
    }
  }

  /** Making directories moves nothing. */
  lemma OldAfterMkdir(s: Site, a: Tree, p: Path)
    requires AtOld(s, a)
    ensures AtOld(s, MkdirAll(a, p))
  {
    RootAfterMkdir(a, s.dataDir, p);
  }

  // ----- switching, and switching back ------------------------------------------------------------

  predicate PointerSays(t: Tree, dataDir: Path, d: Path) {
    PointerFile(dataDir) in t && t[PointerFile(dataDir)] == File(PointerText(d))
  }

  lemma SaidIsNamed(t: Tree, dataDir: Path, d: Path)
    requires Clean(d) && PointerSays(t, dataDir, d)
    ensures RepoRoot(t, dataDir) == ReadBack(d)
  {
    PointerReadBack(d);
  }

  /** Two trees that differ at most in the pointer file and its temporary. */
  ghost predicate SameButPointers(dataDir: Path, a: Tree, b: Tree) {
    SameBut(a, b, PointerFile(dataDir), PointerTemp(dataDir))
  }

  lemma CopyOffPointers(s: Site, a: Tree, b: Tree)
    requires PointersOutside(s.dataDir, s.dest) && Holds(a, s.dest, s.before, s.cur)
    requires SameButPointers(s.dataDir, a, b)
    ensures Holds(b, s.dest, s.before, s.cur)
  {
    forall q | q in RepoFiles(s.before, s.cur) ensures Under(Moved(q, s.cur, s.dest), s.dest) {
    }
  }

  lemma UntouchedOffPointers(s: Site, a: Tree, b: Tree)
    requires Untouched(s, a) && SameButPointers(s.dataDir, a, b)
    ensures Untouched(s, b)
  {
  }

  // ----- removing -------------------------------------------------------------------------------------

  /** Only entries below root went away. */
  ghost predicate RemovesUnder(a: Tree, b: Tree, root: Path) {
    && (forall p :: p in b ==> p in a && b[p] == a[p])
    && (forall p :: p in a && !Under(p, root) ==> p in b)
  }

  /** Only entries below root went away, and nothing but directories came. */
  ghost predicate Erodes(a: Tree, b: Tree, root: Path) {
    && (forall p :: p in b ==> b[p].Dir? || (p in a && b[p] == a[p]))
    && (forall p :: p in a && !Under(p, root) ==> p in b && b[p] == a[p])
  }

  ghost predicate TrailErodes(a: Tree, trail: Trail, root: Path) {
    forall i :: 0 <= i < |trail| ==> Erodes(a, trail[i].after, root)
  }

  lemma ErodesTransitive(a: Tree, b: Tree, c: Tree, root: Path, part: Path)
    requires Erodes(a, b, root) && Erodes(b, c, part) && Under(part, root)
    ensures Erodes(a, c, root)
  {
    forall p | Under(p, part) ensures Under(p, root) {
      UnderTransitive(p, part, root);
    }
  }

  lemma ErodesAfterDirs(a: Tree, b: Tree, c: Tree, root: Path)
    requires Erodes(a, b, root) && AddsDirs(b, c)
    ensures Erodes(a, c, root)
  {
  }

  /** A pointer file outside the part that goes away names the same directory. */
  lemma RootAfterErosion(dataDir: Path, a: Tree, b: Tree, root: Path)
    requires Erodes(a, b, root) && !Under(PointerFile(dataDir), root)
    ensures RepoRoot(b, dataDir) == RepoRoot(a, dataDir)
  {
    var f := PointerFile(dataDir);
    assert f in b && b[f].File? <==> f in a && a[f].File?;
  }

  /** Cleaning up below dest leaves the old repository as it is. */
  lemma UntouchedAfterCleanup(s: Site, a: Tree, b: Tree)
    requires Apart(s.cur, s.dest) && !Under(PointerFile(s.dataDir), s.dest)
    requires Untouched(s, a) && Erodes(a, b, s.dest)
    ensures Untouched(s, b) && RepoRoot(b, s.dataDir) == RepoRoot(a, s.dataDir)
    ensures PointerKept(s, a) ==> PointerKept(s, b)
    ensures PointerSays(a, s.dataDir, s.cur) ==> PointerSays(b, s.dataDir, s.cur)
  {
    RootAfterErosion(s.dataDir, a, b, s.dest);
    forall p | Under(p, s.cur) ensures !Under(p, s.dest) {
      if Under(p, s.dest) { PrefixesCompare(s.cur, s.dest, p); }
    }
  }

  /** Removing the old tree leaves the copy complete. */
  lemma CopyAfterRemoval(s: Site, a: Tree, b: Tree)
    requires Apart(s.cur, s.dest) && Holds(a, s.dest, s.before, s.cur) && Erodes(a, b, s.cur)
    ensures Holds(b, s.dest, s.before, s.cur)
  {
    forall q | q in RepoFiles(s.before, s.cur)
      ensures Moved(q, s.cur, s.dest) in b && b[Moved(q, s.cur, s.dest)] == s.before[q]
    {
      var m := Moved(q, s.cur, s.dest);
      assert Under(m, s.dest);
      if Under(m, s.cur) { PrefixesCompare(s.cur, s.dest, m); }
    }
  }

  // ----- directories, and everything else on the disk ---------------------------------------------------

  lemma RootAfterMkdir(t: Tree, dataDir: Path, p: Path)
    ensures RepoRoot(MkdirAll(t, p), dataDir) == RepoRoot(t, dataDir)
  {
    var f := PointerFile(dataDir);
    assert f in MkdirAll(t, p) && MkdirAll(t, p)[f].File? <==> f in t && t[f].File?;
  }

  /** p is in one of the two repositories or is one of the pointer files. */
  predicate Within(s: Site, p: Path) {
    Under(p, s.cur) || Under(p, s.dest) || p == PointerFile(s.dataDir) || p == PointerTemp(s.dataDir)
  }

  /** Apart from new directories only the two repositories and the pointer files may change. */
  ghost predicate Elsewhere(s: Site, a: Tree, b: Tree) {
    && (forall p :: p in a && !Within(s, p) ==> p in b && b[p] == a[p])
    && (forall p :: p in b && p !in a && !Within(s, p) ==> b[p].Dir?)
  }

  lemma ElsewhereTransitive(s: Site, a: Tree, b: Tree, c: Tree)
    requires Elsewhere(s, a, b) && Elsewhere(s, b, c)
    ensures Elsewhere(s, a, c)
  {
  }

  /** Claims about a tree with some directories added are claims about the tree. */
  ghost predicate AddsDirs(a: Tree, b: Tree) {
    && (forall p :: p in a ==> p in b && b[p] == a[p])
    && (forall p :: p in b && p !in a ==> b[p].Dir?)
  }

  /** Added directories change neither the repositories nor what is named. */
  lemma AfterAddedDirs(s: Site, a: Tree, b: Tree)
    requires AddsDirs(a, b)
    ensures RepoRoot(b, s.dataDir) == RepoRoot(a, s.dataDir)
    ensures Untouched(s, a) ==> Untouched(s, b)
    ensures PointerKept(s, a) ==> PointerKept(s, b)
    ensures Holds(a, s.dest, s.before, s.cur) ==> Holds(b, s.dest, s.before, s.cur)
    ensures Intact(s, a) ==> Intact(s, b)
    ensures Elsewhere(s, a, b)
    ensures PointerSays(a, s.dataDir, s.dest) ==> PointerSays(b, s.dataDir, s.dest)
    ensures HasDir(a, s.dest) ==> HasDir(b, s.dest)
  {
    var f := PointerFile(s.dataDir);
    assert f in b && b[f].File? <==> f in a && a[f].File?;
  }

  lemma Rebase(s: Site, later: Tree, t: Tree)
    requires AddsDirs(s.before, later)
    ensures Untouched(s.(before := later), t) ==> Untouched(s, t)
    ensures PointerKept(s.(before := later), t) ==> PointerKept(s, t)
    ensures RepoFiles(s.before, s.cur) <= RepoFiles(later, s.cur)
    ensures Holds(t, s.dest, later, s.cur) ==> Holds(t, s.dest, s.before, s.cur)
    ensures Intact(s.(before := later), t) ==> Intact(s, t)
    ensures Elsewhere(s, later, t) ==> Elsewhere(s, s.before, t)
  {
    assert RepoFiles(s.before, s.cur) <= RepoFiles(later, s.cur);
  }

  // ----- nothing in the way --------------------------------------------------------------------------------

  ghost predicate PointerClear(t: Tree, dataDir: Path) {
    && CanMkdirAll(t, PointerDir(dataDir)) && CanWrite(t, PointerFile(dataDir)) && CanWrite(t, PointerTemp(dataDir))
  }

  /** No part of the other path blocks the pointer files. */
  ghost predicate PointerApart(dataDir: Path, p: Path) {
    Apart(PointerFile(dataDir), p) && Apart(PointerTemp(dataDir), p)
  }

  lemma PointerDirNotUnder(dataDir: Path, dest: Path, q: Path)
    requires PointerApart(dataDir, dest) && q in Prefixes(PointerDir(dataDir))
    ensures !Under(q, dest)
  {
    var f := PointerFile(dataDir);
    assert PointerDir(dataDir) == f[..|f| - 1];
    var i :| 0 <= i <= |PointerDir(dataDir)| && q == PointerDir(dataDir)[..i];
    assert Under(f, q);
    if Under(q, dest) { UnderTransitive(f, q, dest); }
  }

  lemma PointerStaysClear(t: Tree, t': Tree, dataDir: Path, dest: Path)
    requires PointerClear(t, dataDir) && PointerApart(dataDir, dest) && TouchesOnly(t, t', dest)
    ensures PointerClear(t', dataDir)
  {
    forall q | q in Prefixes(PointerDir(dataDir)) && q in t' ensures t'[q].Dir? {
      PointerDirNotUnder(dataDir, dest, q);
    }
  }

  /** Making a directory beside the pointer files keeps everything clear. */
  lemma StaysClear(t: Tree, dataDir: Path, p: Path)
    requires PointerClear(t, dataDir) && !Under(p, PointerFile(dataDir)) && !Under(p, PointerTemp(dataDir))
    ensures PointerClear(MkdirAll(t, p), dataDir)
  {
    forall q | q in Prefixes(p) ensures Under(p, q) {
      var i :| 0 <= i <= |p| && q == p[..i];
    }
  }

  lemma StaysWellFormed(t: Tree, p: Path, src: Path)
    requires WellFormed(t, src) && CanMkdirAll(t, p)
    ensures WellFormed(MkdirAll(t, p), src)
  {
    var t' := MkdirAll(t, p);
    forall x, q | x in t' && q in t' && Under(x, src) && Under(q, src) && q < x ensures t'[q].Dir? {
      if x !in t {
        var i :| 0 <= i <= |p| && x == p[..i];
        assert q == p[..|q|] && q in Prefixes(p);
      }
    }
  }

  /** An empty destination that may be made is empty once made, whatever other directory was made first. */
  lemma StaysEmpty(t: Tree, cur: Path, dest: Path)
    requires EmptyDir(t, dest) && Apart(cur, dest)
    ensures EmptyDir(MkdirAll(t, cur), dest) && EmptyDir(MkdirAll(t, dest), dest)
  {
    forall q | q in Prefixes(cur) ensures !Under(q, dest) {
      var i :| 0 <= i <= |cur| && q == cur[..i];
      if Under(q, dest) { UnderTransitive(cur, q, dest); }
    }
    forall q | q in Prefixes(dest) && Under(q, dest) ensures q == dest {
      var i :| 0 <= i <= |dest| && q == dest[..i];
    }
  }
}
