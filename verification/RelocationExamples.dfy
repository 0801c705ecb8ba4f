/**
  The runs of RelocationRuns on small disks: the requests that break the promise
  of internal/agentrpc/backup_v2.go, letter by letter.
 */
module RelocationExamples {
  import opened Common
  import opened Paths
  import opened Trees
  import opened CopyTree
  import opened RepoStates
  import opened RepoSwitch
  import opened Relocation
  import opened RelocationRuns

  // ----- a repository beside the agent's directory --------------------------------------------------

  /** The agent's files are below /d, the repository is at /n, and there is nothing else. */
  ghost predicate TwoDirs(t: Tree, d: string, n: string) {
    && (forall p :: p in t ==> p == [] || p[0] == d || p[0] == n)
    && HasDir(t, [n]) && HasDir(t, PointerDir([d])) && WellFormed(t, [n]) && RepoFiles(t, [n]) != {}
    && PointerSays(t, [d], [n]) && PointerTemp([d]) !in t
  }

  lemma PrefixesOfOne(n: string)
    ensures Prefixes([n]) == {[], [n]}
  {
    assert [n][..0] == [] && [n][..1] == [n];
    forall q | q in Prefixes([n]) ensures q in {[], [n]} { }
    assert [] in Prefixes([n]) && [n] in Prefixes([n]);
  }

  lemma PointerBeside(d: string, k: string)
    requires d != k
    ensures PointerApart([d], [k]) && PointersOutside([d], [k])
  {
    assert PointerFile([d])[0] == PointerTemp([d])[0] == d && [k][0] == k;
  }

  lemma NothingAt(t: Tree, d: string, n: string, m: string)
    requires TwoDirs(t, d, n) && m != d && m != n
    ensures EmptyDir(t, [m])
  {
    PrefixesOfOne(m);
    PrefixesOfOne(n);
  }

  lemma RootIsThere(t: Tree, p: Path)
    requires HasDir(t, p)
    ensures [] in t && t[[]].Dir? && CanMkdirAll(t, p)
  {
    assert p[..0] == [] && [] in Prefixes(p);
  }

  lemma PointerIsClear(t: Tree, dataDir: Path, p: Path)
    requires HasDir(t, PointerDir(dataDir)) && PointerSays(t, dataDir, p) && PointerTemp(dataDir) !in t
    ensures PointerClear(t, dataDir)
  {
  }

  lemma NamesAreGuarded(s: Site, d: string, n: string, m: string)
    requires ValidName(n) && ValidName(m) && n != m && d != m && s.dataDir == [d] && s.cur == [n] && s.dest == [m]
    ensures Guarded(s)
  {
    PointerBeside(d, m);
    assert s.cur[0] == n && s.dest[0] == m;
  }

  /** Moving to /m, when what is named afterwards is /k. */
  lemma TwoDirsAreClear(s: Site, d: string, n: string, m: string, k: string)
    requires ValidName(n) && ValidName(m) && d != n && d != m && n != m && d != k
    requires !EndsInSpace([n]) && ReadBack([m]) == [k]
    requires TwoDirs(s.before, d, n) && s == Site([d], [n], [m], s.before)
    ensures Clear(s)
  {
    NamesAreGuarded(s, d, n, m);
    NothingAt(s.before, d, n, m);
    if k == n { RootIsThere(s.before, [n]); } else { NothingAt(s.before, d, n, k); }
    PointerIsClear(s.before, s.dataDir, s.cur);
    PointerBeside(d, m);
    PointerBeside(d, k);
  }

  /** The repository is there, and the request may be made. */
  lemma TwoDirsAreNamed(t: Tree, d: string, n: string)
    requires ValidName(n) && d != n && !EndsInSpace([n]) && TwoDirs(t, d, n)
    ensures RepoRoot(t, [d]) == [n] && CanMkdirAll(t, [n]) && [] in t
    ensures PointerApart([d], [n]) && PointersOutside([d], [n])
  {
    RootIsThere(t, [n]);
    PointerBeside(d, n);
    SaidIsNamed(t, [d], [n]);
    PointerReadBack([n]);
  }

  lemma TwoDirsAreElusive(s: Site, d: string, n: string, m: string, k: string)
    requires d != n && d != k && k != n && k != m && EndsInSpace([m]) && ReadBack([m]) == [k]
    requires TwoDirs(s.before, d, n) && s == Site([d], [n], [m], s.before)
    ensures Elusive(s)
  {
    PointerBeside(d, n);
    PointerBeside(d, k);
    forall p | p in RepoFiles(s.before, s.cur)
      ensures var q := Moved(p, s.cur, [k]); Under(q, [k]) && q[0] == k && !Under(q, [m]) && q !in s.before
    {
    }
    var p :| p in RepoFiles(s.before, s.cur);
    assert Moved(p, s.cur, [k]) !in s.before;
  }

  function SmallDisk(d: string, n: string, pack: string): Tree {
    map[[] := Dir, [n] := Dir, [n, pack] := File(pack), [d] := Dir, PointerDir([d]) := Dir,
        PointerFile([d]) := File(PointerText([n]))]
  }

  lemma SmallDiskDirs(d: string, n: string, pack: string)
    requires d != n
    ensures var t := SmallDisk(d, n, pack);
            HasDir(t, [n]) && HasDir(t, PointerDir([d])) && WellFormed(t, [n])
  {
    var t, dir := SmallDisk(d, n, pack), PointerDir([d]);
    PrefixesOfOne(n);
    forall q | q in Prefixes(dir) ensures q == [] || q == [d] || q == dir {
      var i :| 0 <= i <= 2 && q == dir[..i];
    }
    forall p | p in t && Under(p, [n]) ensures p == [n] || p == [n, pack] {
      assert p != [] && p[0] == n;
    }
  }

  lemma SmallDiskFiles(d: string, n: string, pack: string)
    requires d != n && !HasSuffix(pack, TMP)
    ensures var t := SmallDisk(d, n, pack);
            && (forall p :: p in t ==> p == [] || p[0] == d || p[0] == n)
            && [n, pack] in RepoFiles(t, [n]) && PointerSays(t, [d], [n]) && PointerTemp([d]) !in t
  {
    var t, p := SmallDisk(d, n, pack), [n, pack];
    var f, g := PointerFile([d]), PointerTemp([d]);
    assert f[0] == g[0] == PointerDir([d])[0] == d && |f| == |g| == 3 && f[2] != g[2] && p[0] == n;
    assert p in t && t[p] == File(pack) && p[..1] == [n] && p[|p| - 1] == pack;
  }

  lemma SmallDiskIsTwoDirs(d: string, n: string, pack: string)
    requires d != n && !HasSuffix(pack, TMP)
    ensures TwoDirs(SmallDisk(d, n, pack), d, n)
  {
    SmallDiskDirs(d, n, pack);
    SmallDiskFiles(d, n, pack);
  }

  // ----- names -----------------------------------------------------------------------------------------

  lemma DiffersAt(p: string, dir: string, i: nat)
    requires i < |p| && i < |dir| && p[i] != dir[i]
    ensures !IsUnder(p, dir)
  {
    assert (TrimSuffix(dir, "/") + "/")[i] == dir[i];
  }

  lemma RenderOne(n: string)
    ensures Render([n]) == "/" + n
  {
    assert [n][1..] == [] && Slashed([n]) == "/" + [n][0] + Slashed([n][1..]);
  }

  lemma NotForbidden(n: string)
    requires |n| >= 2 && n[0] == 'p' && n[1] == 'o'
    ensures Allowed([n])
  {
    var p := Render([n]);
    RenderOne(n);
    forall d | d in FORBIDDEN ensures !IsUnder(p, d) {
      assert |d| >= 3 && (d[1] != 'p' || d[2] != 'o');
      DiffersAt(p, d, if d[1] != 'p' then 1 else 2);
    }
  }

  /** The agent's files are at /ndl, the repository is at /pool. */
  ghost predicate PoolDisk(t: Tree) { TwoDirs(t, "ndl", "pool") }

  lemma Names()
    ensures ValidName("ndl") && ValidName("pool") && ValidName("pond") && ValidName("pool ") && ValidName("pond ")
    ensures |{"ndl", "pool", "pond", "pool ", "pond "}| == 5
    ensures !EndsInSpace(["pool"]) && !EndsInSpace(["pond"]) && !HasSuffix("pack", TMP)
    ensures "pool" + " " == "pool " && "pond" + " " == "pond "
  {
    assert "pool"[2] == 'o' && "pond"[2] == 'n' && "pool "[2] == 'o' && "pond "[2] == 'n' && "ndl"[0] == 'n';
  }

  /** n is the name, m the name with a blank. */
  lemma BlankName(n: string, m: string)
    requires ValidName(n) && !EndsInSpace([n]) && m == n + " "
    ensures Blanked([n]) == [m] && EndsInSpace([m]) && ReadBack([m]) == [n]
    ensures var path := "/" + n + " /"; IsAbs(TrimSpace(path)) && CleanAbs(TrimSpace(path)) == [m]
  {
    assert Blanked([n]) == [m];
    BlankedIsClean([n]);
    BlankedReadsBack([n]);
    BlankSurvivesCleaning([n]);
    RenderOne(n);
  }

  // ----- a blank at the end ------------------------------------------------------------------------------

  lemma PoolIsClear(t: Tree)
    requires PoolDisk(t)
    ensures var s := Site(["ndl"], ["pool"], Blanked(["pool"]), t);
            && Clean(s.dataDir) && RepoRoot(t, s.dataDir) == s.cur && !EndsInSpace(s.cur) && s.dest == ["pool "]
            && RepoFiles(t, s.cur) != {} && PointersOutside(s.dataDir, s.cur) && Unobstructed(s)
  {
    Names();
    BlankName("pool", "pool ");
    NotForbidden("pool ");
    TwoDirsAreNamed(t, "ndl", "pool");
    TwoDirsAreClear(Site(["ndl"], ["pool"], ["pool "], t), "ndl", "pool", "pool ", "pool");
  }

  /** With the repository at /pool, a request for "/pool /" loses it, restore points and all. */
  method PoolIsLost(t: Tree) returns (h: Handler, r: Result)
    requires PoolDisk(t)
    ensures fresh(h) && r == Ok(["pool "]) && RepoRoot(h.tree, h.dataDir) == ["pool"] && Emptied(h.tree, ["pool"])
  {
    PoolIsClear(t);
    h := new Handler(["ndl"], t);
    ghost var trail;
    r, trail := LosesRepository(h, x => true, 1, 1, x => []);
  }

  lemma PondBlankRequest()
    ensures Allowed(["pond "]) && ReadBack(["pond "]) == ["pond"] && EndsInSpace(["pond "])
    ensures IsAbs(TrimSpace("/pond /")) && CleanAbs(TrimSpace("/pond /")) == ["pond "]
  {
    Names();
    BlankName("pond", "pond ");
    assert "/" + "pond" + " /" == "/pond /";
    NotForbidden("pond ");
  }

  lemma PondBlankIsClear(t: Tree)
    requires PoolDisk(t)
    ensures var s := Site(["ndl"], ["pool"], ["pond "], t);
            RepoRoot(t, s.dataDir) == s.cur && Unobstructed(s) && Elusive(s)
  {
    var s := Site(["ndl"], ["pool"], ["pond "], t);
    Names();
    PondBlankRequest();
    TwoDirsAreNamed(t, "ndl", "pool");
    TwoDirsAreClear(s, "ndl", "pool", "pond ", "pond");
    TwoDirsAreElusive(s, "ndl", "pool", "pond ", "pond");
  }

  /** With no restore points a request for "/pond /" loses it too: the empty /pond is named. */
  method PondIsLost(t: Tree) returns (h: Handler, r: Result)
    requires PoolDisk(t)
    ensures fresh(h) && r == Ok(["pond "]) && RepoRoot(h.tree, h.dataDir) == ["pond"] && Emptied(h.tree, ["pool"])
    ensures !Intact(Site(["ndl"], ["pool"], ["pond "], t), h.tree)
  {
    Names();
    PondBlankRequest();
    PondBlankIsClear(t);
    h := new Handler(["ndl"], t);
    ghost var trail;
    r, trail := LosesToBlank(h, "/pond /", x => true, 0, 0, x => []);
  }

  // ----- a dropped copy that is served ---------------------------------------------------------------------

  lemma PondRequest()
    ensures Allowed(["pond"]) && IsAbs(TrimSpace("/pond")) && CleanAbs(TrimSpace("/pond")) == ["pond"]
  {
    var p := "/pond";
    Names();
    NotForbidden("pond");
    RenderOne("pond");
    assert "/" + "pond" == p;
    assert !IsSpace(p[0]) && !IsSpace(p[4]) && TrimSpace(p) == p;
    CleanOfRender(["pond"]);
  }

  lemma PondIsClear(t: Tree)
    requires PoolDisk(t)
    ensures var s := Site(["ndl"], ["pool"], ["pond"], t);
            && Clean(s.dataDir) && RepoRoot(t, s.dataDir) == s.cur && Unobstructed(s) && Separate(s)
  {
    Names();
    PondRequest();
    PointerReadBack(["pond"]);
    PointerBeside("ndl", "pond");
    TwoDirsAreNamed(t, "ndl", "pool");
    TwoDirsAreClear(Site(["ndl"], ["pool"], ["pond"], t), "ndl", "pool", "pond", "pond");
  }

  /** Moving from /pool to /pond, with one restore point missing and one call in between. */
  method PondIsServed(t: Tree) returns (h: Handler, r: Result)
    requires PoolDisk(t)
    ensures fresh(h) && r == Err(TakenBack) && RepoRoot(h.tree, h.dataDir) == ["pool"] && h.host == Some(["pond"])
  {
    PondRequest();
    PondIsClear(t);
    h := new Handler(["ndl"], t);
    ghost var trail;
    r, trail := ServesDroppedCopy(h, "/pond", x => true, 1, 0, x => [true]);
  }

  // ----- a pointer file inside the repository -------------------------------------------------------------

  /** The pointer file, below /d, names the directory it lies in. */
  ghost predicate AgentDirOnly(t: Tree, d: string) {
    && (forall p :: p in t ==> || p == [] || p == [d] || p == PointerDir([d])
                               || (|p| == 3 && p[0] == d && p[1] == "agent" && t[p].File?))
    && HasDir(t, PointerDir([d])) && PointerSays(t, [d], PointerDir([d])) && PointerTemp([d]) !in t
  }

  lemma AgentDirIsEntangled(s: Site, d: string, m: string)
    requires d != m && AgentDirOnly(s.before, d) && s == Site([d], PointerDir([d]), [m], s.before)
    ensures Entangled(s)
  {
    var f, g, root := PointerFile([d]), PointerTemp([d]), DefaultRoot([d]);
    assert f[0] == g[0] == d && f[1] == g[1] == "agent" && |f| == 3 && f[..2] == s.cur;
    assert !Skipped(f) by { assert f[2][|f[2]| - 4..] == "path"; }
    assert f in RepoFiles(s.before, s.cur);
    assert s.dest[0] == m && root[0] == d && root[1] == "backup-repo" != "agent";
    forall p | p in RepoFiles(s.before, s.cur)
      ensures var q := Moved(p, s.cur, root); |q| >= 2 && q[0] == d && q[1] == "backup-repo" && q !in s.before
    {
    }
    assert Moved(f, s.cur, root) !in s.before;
  }

  lemma AgentDirLeaves(t: Tree, d: string, m: string)
    requires d != m && AgentDirOnly(t, d)
    ensures EmptyDir(t, [m])
  {
    RootIsThere(t, PointerDir([d]));
    NothingBeside(t, d, m);
  }

  lemma NothingBeside(t: Tree, d: string, m: string)
    requires d != m && [] in t && t[[]].Dir? && forall p :: p in t ==> p == [] || p[0] == d
    ensures EmptyDir(t, [m])
  {
    PrefixesOfOne(m);
  }

  lemma AgentDirIsWellFormed(t: Tree, d: string)
    requires AgentDirOnly(t, d)
    ensures WellFormed(t, PointerDir([d]))
  {
    var dir := PointerDir([d]);
    assert dir[..2] == dir && dir in Prefixes(dir);
    forall p, q | p in t && q in t && Under(p, dir) && Under(q, dir) && q < p ensures t[q].Dir? {
      assert |p| <= 3 && |q| == 2 && q == dir;
    }
  }

  lemma AgentDirIsNamed(t: Tree, d: string)
    requires ValidName(d) && AgentDirOnly(t, d)
    ensures Clean(PointerDir([d])) && RepoRoot(t, [d]) == PointerDir([d])
  {
    var dir := PointerDir([d]);
    assert dir[0] == d && dir[1] == "agent" && ValidName("agent") && !EndsInSpace(dir);
    SaidIsNamed(t, [d], dir);
    PointerReadBack(dir);
  }

  lemma AgentDirIsClear(s: Site, d: string, m: string)
    requires ValidName(d) && ValidName(m) && d != m && !EndsInSpace([m])
    requires AgentDirOnly(s.before, d) && s == Site([d], PointerDir([d]), [m], s.before)
    ensures Clear(s) && CanMkdirAll(s.before, s.cur) && [] in s.before
  {
    AgentDirLeaves(s.before, d, m);
    AgentDirIsWellFormed(s.before, d);
    AgentDirIsNamed(s.before, d);
    RootIsThere(s.before, s.cur);
    PointerIsClear(s.before, s.dataDir, s.cur);
    PointerReadBack(s.dest);
    PointerBeside(d, m);
    assert s.cur[0] == d && s.dest[0] == m;
  }

  lemma AgentDirIsUnobstructed(s: Site, d: string, m: string)
    requires ValidName(d) && ValidName(m) && d != m && !EndsInSpace([m]) && Allowed([m])
    requires AgentDirOnly(s.before, d) && s == Site([d], PointerDir([d]), [m], s.before)
    ensures Unobstructed(s)
  {
    AgentDirIsClear(s, d, m);
    assert s.dest[..0] == [];
    assert |PointerFile([d])| == |PointerTemp([d])| == 3 && |s.cur| == 2;
  }

  lemma AgentExample(t: Tree)
    requires AgentDirOnly(t, "ndl")
    ensures var s := Site(["ndl"], PointerDir(["ndl"]), ["pond"], t);
            Clean(s.dataDir) && RepoRoot(t, s.dataDir) == s.cur && Unobstructed(s) && Entangled(s)
  {
    Names();
    PondRequest();
    ghost var s := Site(["ndl"], PointerDir(["ndl"]), ["pond"], t);
    AgentDirIsNamed(t, "ndl");
    AgentDirIsEntangled(s, "ndl", "pond");
    AgentDirIsUnobstructed(s, "ndl", "pond");
  }

  /** With the pointer file naming its own directory, a request for "/pond" loses the repository. */
  method AgentDirIsLost(t: Tree) returns (h: Handler, r: Result)
    requires AgentDirOnly(t, "ndl")
    ensures fresh(h) && r == Ok(["pond"]) && RepoRoot(h.tree, h.dataDir) == DefaultRoot(["ndl"])
    ensures Emptied(h.tree, PointerDir(["ndl"])) && !Intact(Site(["ndl"], PointerDir(["ndl"]), ["pond"], t), h.tree)
  {
    PondRequest();
    AgentExample(t);
    h := new Handler(["ndl"], t);
    ghost var trail;
    r, trail := LosesPointer(h, "/pond", x => true, 0, 0, x => []);
  }

  // ----- such disks exist ----------------------------------------------------------------------------------

  lemma PoolDiskExists()
    ensures PoolDisk(SmallDisk("ndl", "pool", "pack"))
  {
    Names();
    SmallDiskIsTwoDirs("ndl", "pool", "pack");
  }

  function AgentDisk(d: string, file: string): Tree {
    map[[] := Dir, [d] := Dir, PointerDir([d]) := Dir, PointerDir([d]) + [file] := File(file),
        PointerFile([d]) := File(PointerText(PointerDir([d])))]
  }

  lemma AgentDiskExists(d: string, file: string)
    requires file != "backup-repo.path" && file != "backup-repo.path.tmp"
    ensures AgentDirOnly(AgentDisk(d, file), d)
  {
    var t, f, g, dir := AgentDisk(d, file), PointerFile([d]), PointerTemp([d]), PointerDir([d]);
    assert |f| == |g| == 3 && f[2] != g[2] && f[0] == d && f[1] == "agent" && g !in t;
    AgentDiskDirs(d, file);
  }

  lemma AgentDiskDirs(d: string, file: string)
    ensures HasDir(AgentDisk(d, file), PointerDir([d]))
  {
    var dir := PointerDir([d]);
    forall q | q in Prefixes(dir) ensures q == [] || q == [d] || q == dir {
      var i :| 0 <= i <= 2 && q == dir[..i];
    }
  }
}
