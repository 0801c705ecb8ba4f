/**
  The stages of a move (internal/agentrpc/backup_v2.go:153-191): copy and check,
  switch the pointer file, and then keep the switch or take it back.  Every I/O
  step asks an oracle whether it succeeds; a trail holds the states passed through.
 */
module RepoSwitch {
  import opened Common
  import opened Paths
  import opened Trees
  import opened CopyTree
  import opened RepoStates
  import opened HostCalls
  import opened RepoCleanup

  datatype Step =
    | StatParent
    | OpenHost(root: Path)
    | Quiesce
    | ReadDest
    | MakeDest
    | Copying(io: Io)
    | MakePointerDir
    | WritePointer
    | RenamePointer
    | Remove(p: Path)

  /** Why a relocation fails: before anything moved, before the switch, or after it. */
  datatype Why = Refused | CopyFailed | TakenBack

  datatype Result = Ok(locator: Path) | Err(why: Why)

  /** When others call backupHost. */
  datatype Moment = WhileMoving | BeforeReopen | BeforeRevert | BeforeCleanup | Removing(p: Path)

  ghost predicate AllSucceed(io: Step -> bool) { forall s :: io(s) }

  // ----- how a move may end --------------------------------------------------------------

  /**
    After a success the copy is complete and the pointer file, unless it went
    with the old tree, says dest.  After an error the old repository is untouched;
    it is named as before, or as it reads back once a switch was taken back.
   */
  ghost predicate Ended(s: Site, t: Tree, r: Result) {
    match r
    case Ok(_) =>
      && (PointersOutside(s.dataDir, s.dest) ==> Holds(t, s.dest, s.before, s.cur))
      && (!Under(PointerFile(s.dataDir), s.cur) ==> PointerSays(t, s.dataDir, s.dest))
      && RepoRoot(t, s.dataDir)
         == (if PointerSays(t, s.dataDir, s.dest) then ReadBack(s.dest) else DefaultRoot(s.dataDir))
    case Err(TakenBack) =>
      Guarded(s) ==> Untouched(s, t) && PointerSays(t, s.dataDir, s.cur) && RepoRoot(t, s.dataDir) == ReadBack(s.cur)
    case Err(_) =>
      Guarded(s) ==> AtOld(s, t)
  }

  /** When every state of a move is claimed to be intact. */
  ghost predicate Promised(s: Site, r: Result) { Separate(s) || (Guarded(s) && r == Err(CopyFailed)) }

  ghost predicate Outcome(s: Site, t: Tree, r: Result, trail: Trail) {
    && IsTrail(s.before, trail, t) && Elsewhere(s, s.before, t) && Ended(s, t, r)
    && (Promised(s, r) ==> AllIntact(s, trail))
  }

  /** The copy is complete, the pointer file says dest, and there is still a way back. */
  ghost predicate Switched(s: Site, t: Tree, trail: Trail) {
    && Outcome(s, t, Ok(s.dest), trail) && PointerSays(t, s.dataDir, s.dest) && HasDir(t, s.dest)
    && (Guarded(s) ==> Untouched(s, t))
  }

  lemma EndedAfterDirs(s: Site, t: Tree, t': Tree, r: Result)
    requires Ended(s, t, r) && AddsDirs(t, t')
    ensures Ended(s, t', r)
  {
    AfterAddedDirs(s, t, t');
    assert PointerSays(t', s.dataDir, s.dest) <==> PointerSays(t, s.dataDir, s.dest);
  }

  lemma OutcomeAfterDirs(s: Site, t: Tree, t': Tree, r: Result, trail: Trail, p: Path)
    requires Outcome(s, t, r, trail) && (t' == t || t' == MkdirAll(t, p))
    ensures Outcome(s, t', r, Extend(trail, t, t', p))
  {
    ExtendByMkdir(s.before, trail, t, t', p);
    assert AddsDirs(t, t');
    EndedAfterDirs(s, t, t', r);
    assert Elsewhere(s, s.before, t');
    if Promised(s, r) {
      EndedIsIntact(s, t', r);
    }
  }

  lemma EndedIsIntact(s: Site, t: Tree, r: Result)
    requires Ended(s, t, r) && Promised(s, r)
    ensures Intact(s, t)
  {
    PointerReadBack(s.cur);
    PointerReadBack(s.dest);
    if r.Err? { OldIsIntact(s, t); }
  }

  lemma SwitchedAfterDirs(s: Site, t: Tree, t': Tree, trail: Trail, p: Path)
    requires Switched(s, t, trail) && (t' == t || t' == MkdirAll(t, p))
    ensures Switched(s, t', Extend(trail, t, t', p))
  {
    OutcomeAfterDirs(s, t, t', Ok(s.dest), trail, p);
    AfterAddedDirs(s, t, t');
  }

  // ----- copying and checking ------------------------------------------------------------

  /** Lines 153-160: copy, then compare the counts. */
  method CopyAndCheck(t: Tree, cur: Path, dest: Path, io: Step -> bool)
      returns (t': Tree, good: bool, files: nat, ghost trail: Trail)
    requires Apart(cur, dest) && (cur in t ==> t[cur].Dir?)
    ensures TouchesOnly(t, t', dest) && TrailTouchesOnly(t, trail, dest) && IsTrail(t, trail, t')
    ensures HasDir(t, dest) ==> HasDir(t', dest)
    ensures good ==> Holds(t', dest, t, cur) && files == |RepoFiles(t, cur)|
    ensures AllSucceed(io) && cur in t && EmptyDir(t, dest) && WellFormed(t, cur) ==> good
  {
    var bytes;
    t', good, files, bytes, trail := CopyTree.CopyTree(t, cur, dest, s => io(Copying(s)));
    if !good {
      return;
    }
    var gotFiles, gotBytes := TreeSize(t', dest, s => io(Copying(s)));
    if AllSucceed(io) {
      assert (set p | p in FilesUnder(t', dest) && (s => io(Copying(s)))(Measure(p))) == FilesUnder(t', dest);
      CopyMeasures(t, t', cur, dest);
    }
    good := !(gotFiles < files || gotBytes < bytes);
  }

  /** Copying touches only the destination. */
  lemma Copied(s: Site, t: Tree, trail: Trail)
    requires RepoRoot(s.before, s.dataDir) == s.cur && IsTrail(s.before, trail, t)
    requires TouchesOnly(s.before, t, s.dest) && TrailTouchesOnly(s.before, trail, s.dest)
    ensures Outcome(s, t, Err(CopyFailed), trail)
  {
    if Guarded(s) {
      OldAfterTouch(s, s.before, t);
      OldAfterTrail(s, s.before, trail);
    }
  }

  // ----- the switch ----------------------------------------------------------------------------

  /** The states of the switch: directory made, temporary written, temporary renamed. */
  ghost function SwitchStates(t: Tree, dataDir: Path, dest: Path): Trail {
    var made := MkdirAll(t, PointerDir(dataDir));
    var written := Write(made, PointerTemp(dataDir), PointerText(dest));
    [Stage(Mkdir(PointerDir(dataDir)), made),
     Stage(Put(PointerTemp(dataDir), PointerText(dest)), written),
     Stage(Move(PointerTemp(dataDir), PointerFile(dataDir)),
           Rename(written, PointerTemp(dataDir), PointerFile(dataDir)))]
  }

  /** Lines 161-170: write the pointer file beside its place, then rename it there. */
  method SwitchPointer(t: Tree, dataDir: Path, dest: Path, io: Step -> bool)
      returns (t': Tree, good: bool, ghost trail: Trail)
    ensures IsTrail(t, trail, t') && trail <= SwitchStates(t, dataDir, dest) && (good <==> |trail| == 3)
    ensures good ==> CanWrite(t, PointerTemp(dataDir)) && CanWrite(t, PointerFile(dataDir))
    ensures AllSucceed(io) && PointerClear(t, dataDir) ==> good
  {
    t', good, trail := t, false, [];
    var dir, temp, file := PointerDir(dataDir), PointerTemp(dataDir), PointerFile(dataDir);
    assert temp !in Prefixes(dir) && file !in Prefixes(dir) && file != temp by {
      assert |temp| == |file| == |dir| + 1;
      assert file[|file| - 1] != temp[|temp| - 1];
    }
    if !io(MakePointerDir) || !CanMkdirAll(t, dir) {
      return;
    }
    t', trail := Perform(t, t', trail, Mkdir(dir));
    if !io(WritePointer) || !CanWrite(t', temp) {
      return;
    }
    t', trail := Perform(t, t', trail, Put(temp, PointerText(dest)));
    if !io(RenamePointer) || !CanWrite(t', file) {
      return;
    }
    t', trail := Perform(t, t', trail, Move(temp, file));
    good := true;
  }

  lemma SwitchStatesAre(t: Tree, dataDir: Path, dest: Path)
    ensures var st := SwitchStates(t, dataDir, dest);
            && AddsDirs(t, st[0].after) && SameButPointers(dataDir, st[0].after, st[1].after)
            && SameButPointers(dataDir, st[0].after, st[2].after)
            && RepoRoot(st[0].after, dataDir) == RepoRoot(st[1].after, dataDir) == RepoRoot(t, dataDir)
            && (forall j :: 0 <= j < 2 && PointerFile(dataDir) in t ==>
                  PointerFile(dataDir) in st[j].after && st[j].after[PointerFile(dataDir)] == t[PointerFile(dataDir)])
            && PointerSays(st[2].after, dataDir, dest)
  {
    var f, g := PointerFile(dataDir), PointerTemp(dataDir);
    assert f[|f| - 1] != g[|g| - 1];
    RootAfterMkdir(t, dataDir, PointerDir(dataDir));
  }

  /** Up to the rename the old repository is named and untouched; after it the copy is named. */
  lemma SwitchState(s: Site, t: Tree, j: nat)
    requires j < 3 && Clean(s.dest)
    ensures var u := SwitchStates(t, s.dataDir, s.dest)[j].after;
            && Elsewhere(s, t, u)
            && (AtOld(s, t) ==> Untouched(s, u) && (j < 2 ==> AtOld(s, u)))
            && (PointersOutside(s.dataDir, s.dest) && Holds(t, s.dest, s.before, s.cur) ==>
                  Holds(u, s.dest, s.before, s.cur))
            && (j == 2 ==> RepoRoot(u, s.dataDir) == ReadBack(s.dest))
  {
    var st := SwitchStates(t, s.dataDir, s.dest);
    SwitchStatesAre(t, s.dataDir, s.dest);
    DirsAndPointers(s, t, st[0].after, st[j].after);
    if j == 2 { SaidIsNamed(st[2].after, s.dataDir, s.dest); }
  }

  lemma DirsAndPointers(s: Site, t: Tree, made: Tree, u: Tree)
    requires AddsDirs(t, made) && SameButPointers(s.dataDir, made, u)
    ensures Elsewhere(s, t, u)
    ensures Untouched(s, t) ==> Untouched(s, u)
    ensures PointersOutside(s.dataDir, s.dest) && Holds(t, s.dest, s.before, s.cur) ==>
              Holds(u, s.dest, s.before, s.cur)
  {
    AfterAddedDirs(s, t, made);
    if PointersOutside(s.dataDir, s.dest) && Holds(t, s.dest, s.before, s.cur) {
      CopyOffPointers(s, made, u);
    }
    if Untouched(s, t) {
      UntouchedOffPointers(s, made, u);
    }
  }

  /** Only regular files are replaced, so the destination is still a directory. */
  lemma SwitchKeepsDest(t: Tree, dataDir: Path, dest: Path)
    requires HasDir(t, dest) && CanWrite(t, PointerTemp(dataDir)) && CanWrite(t, PointerFile(dataDir))
    ensures HasDir(SwitchStates(t, dataDir, dest)[2].after, dest)
  {
    SwitchStatesAre(t, dataDir, dest);
  }

  lemma SwitchOutcome(s: Site, t: Tree, trail: Trail, t': Tree, good: bool, steps: Trail)
    requires Outcome(s, t, Err(CopyFailed), trail) && Clean(s.dest)
    requires Holds(t, s.dest, s.before, s.cur) && HasDir(t, s.dest)
    requires IsTrail(t, steps, t') && steps <= SwitchStates(t, s.dataDir, s.dest) && (good <==> |steps| == 3)
    requires good ==> CanWrite(t, PointerTemp(s.dataDir)) && CanWrite(t, PointerFile(s.dataDir))
    ensures if good then Switched(s, t', trail + steps) else Outcome(s, t', Err(CopyFailed), trail + steps)
  {
    var st := SwitchStates(t, s.dataDir, s.dest);
    TrailConcat(s.before, trail, t, steps, t');
    forall j | 0 <= j < |steps|
      ensures Elsewhere(s, s.before, steps[j].after)
      ensures Promised(s, if good then Ok(s.dest) else Err(CopyFailed)) ==> Intact(s, steps[j].after)
    {
      SwitchState(s, t, j);
      ElsewhereTransitive(s, s.before, t, steps[j].after);
      if Guarded(s) && j < 2 { OldIsIntact(s, steps[j].after); }
      PointerReadBack(s.dest);
    }
    if |steps| > 0 { SwitchState(s, t, |steps| - 1); }
    if good {
      SwitchStatesAre(t, s.dataDir, s.dest);
      SwitchKeepsDest(t, s.dataDir, s.dest);
    }
  }

  /** Lines 153-170. */
  method CopyAndSwitch(t: Tree, dataDir: Path, cur: Path, dest: Path, io: Step -> bool)
      returns (t': Tree, good: bool, files: nat, ghost trail: Trail)
    requires Apart(cur, dest) && Clean(dest) && (cur in t ==> t[cur].Dir?)
    requires RepoRoot(t, dataDir) == cur && HasDir(t, dest)
    ensures var s := Site(dataDir, cur, dest, t);
            if good then Switched(s, t', trail) else Outcome(s, t', Err(CopyFailed), trail)
    ensures good ==> files == |RepoFiles(t, cur)|
    ensures AllSucceed(io) && cur in t && Clear(Site(dataDir, cur, dest, t)) ==> good && CanMkdirAll(t', ReadBack(dest))
  {
    ghost var s := Site(dataDir, cur, dest, t);
    t', good, files, trail := CopyAndCheck(t, cur, dest, io);
    Copied(s, t', trail);
    ghost var copied := t';
    if Clear(s) { PointerStaysClear(t, copied, dataDir, dest); }
    if !good {
      return;
    }
    ghost var steps;
    t', good, steps := SwitchPointer(t', dataDir, dest, io);
    SwitchOutcome(s, copied, trail, t', good, steps);
    if good && Clear(s) { NamedCanOpen(s, copied); }
    trail := trail + steps;
  }

  // ----- nothing in the way -----------------------------------------------------------------------

  /** Nothing stands in the way of the move, nor of opening the directory that is named after it. */
  ghost predicate Clear(s: Site) {
    && Guarded(s) && EmptyDir(s.before, s.dest) && WellFormed(s.before, s.cur)
    && PointerClear(s.before, s.dataDir) && PointerApart(s.dataDir, s.dest)
    && CanMkdirAll(s.before, ReadBack(s.dest)) && PointerApart(s.dataDir, ReadBack(s.dest))
  }

  lemma NamedCanOpen(s: Site, copied: Tree)
    requires Clear(s) && TouchesOnly(s.before, copied, s.dest) && HasDir(copied, s.dest)
    ensures CanMkdirAll(SwitchStates(copied, s.dataDir, s.dest)[2].after, ReadBack(s.dest))
  {
    var n := ReadBack(s.dest);
    var u := SwitchStates(copied, s.dataDir, s.dest)[2].after;
    SwitchStatesAre(copied, s.dataDir, s.dest);
    PointerReadBack(s.dest);
    forall q | q in Prefixes(n) && q in u ensures u[q].Dir? {
      var i :| 0 <= i <= |n| && q == n[..i];
      assert Under(n, q);
      if Under(q, s.dest) {
        UnderTransitive(n, q, s.dest);
        assert q == s.dest;
      }
    }
  }

  // ----- after the switch --------------------------------------------------------------------------

  /** Of the copy there is only what cannot be removed. */
  ghost predicate Dropped(t: Tree, dest: Path, io: Step -> bool) {
    forall p :: p in t && InParts(p, dest, |PARTS|) ==> !io(Remove(p))
  }

  lemma CleanupOutcome(s: Site, v: View, v': View, r: Result, trail: Trail, steps: Trail, removes: Path -> bool)
    requires Outcome(s, v.tree, r, trail) && r in {Err(CopyFailed), Err(TakenBack)}
    requires Clearing(v, v', s.dataDir, s.dest, |PARTS|, removes, steps)
    ensures Outcome(s, v'.tree, r, trail + steps)
  {
    TrailConcat(s.before, trail, v.tree, steps, v'.tree);
    assert Elsewhere(s, v.tree, v'.tree);
    ElsewhereTransitive(s, s.before, v.tree, v'.tree);
    if Guarded(s) { UntouchedAfterCleanup(s, v.tree, v'.tree); }
    if Promised(s, r) {
      PointerReadBack(s.cur);
      forall i | 0 <= i < |steps| ensures Intact(s, steps[i].after) {
        UntouchedAfterCleanup(s, v.tree, steps[i].after);
        OldIsIntact(s, steps[i].after);
      }
    }
  }

  /** Lines 146-150 after a failure. */
  method DropCopy(v: View, dataDir: Path, dest: Path, io: Step -> bool, others: Moment -> seq<bool>,
                  ghost s: Site, ghost r: Result, ghost trail: Trail)
      returns (v': View, ghost trail': Trail)
    requires s.dataDir == dataDir && s.dest == dest
    requires Outcome(s, v.tree, r, trail) && r in {Err(CopyFailed), Err(TakenBack)}
    ensures Outcome(s, v'.tree, r, trail')
    ensures v.host.Some? ==> v'.host == v.host
    ensures Guarded(s) && RepoRoot(v.tree, dataDir) == s.cur ==>
              Dropped(v'.tree, dest, io) && (Serving(v, dataDir) ==> Serving(v', dataDir))
  {
    v' := Calls(v, dataDir, others(BeforeCleanup));
    CallsAre(v, dataDir, others(BeforeCleanup));
    CallsServe(v, dataDir, others(BeforeCleanup));
    OutcomeAfterDirs(s, v.tree, v'.tree, r, trail, RepoRoot(v.tree, dataDir));
    RootAfterMkdir(v.tree, dataDir, RepoRoot(v.tree, dataDir));
    trail' := Extend(trail, v.tree, v'.tree, RepoRoot(v.tree, dataDir));
    ghost var mid, steps := v', [];
    v', steps := RemoveParts(v', dataDir, dest, p => io(Remove(p)), p => others(Removing(p)));
    CleanupOutcome(s, mid, v', r, trail', steps, p => io(Remove(p)));
    trail' := trail' + steps;
  }

  lemma RevertOutcome(s: Site, t: Tree, t': Tree, trail: Trail, trail': Trail)
    requires Switched(s, t, trail) && Clean(s.cur) && t' == Write(t, PointerFile(s.dataDir), PointerText(s.cur))
    requires trail' == trail + [Stage(Put(PointerFile(s.dataDir), PointerText(s.cur)), t')]
    requires IsTrail(s.before, trail', t')
    ensures Outcome(s, t', Err(TakenBack), trail')
  {
    DirsAndPointers(s, t, t, t');
    ElsewhereTransitive(s, s.before, t, t');
    SaidIsNamed(t', s.dataDir, s.cur);
    if Separate(s) { EndedIsIntact(s, t', Err(TakenBack)); }
  }

  /** Lines 176 and 184, then 146-150: name the old repository again and drop the copy. */
  method Revert(v: View, dataDir: Path, cur: Path, dest: Path, io: Step -> bool, others: Moment -> seq<bool>,
                ghost s: Site, ghost trail: Trail)
      returns (v': View, ghost trail': Trail)
    requires s.dataDir == dataDir && s.cur == cur && s.dest == dest && Clean(cur) && Switched(s, v.tree, trail)
    ensures Outcome(s, v'.tree, Err(TakenBack), trail')
    ensures v.host.Some? ==> v'.host == v.host
    ensures Guarded(s) && !EndsInSpace(cur) ==>
              Dropped(v'.tree, dest, io) && (v.host.None? ==> Serving(v', dataDir))
  {
    var back;
    back, trail' := Perform(s.before, v.tree, trail, Put(PointerFile(dataDir), PointerText(cur)));
    RevertOutcome(s, v.tree, back, trail, trail');
    PointerReadBack(cur);
    v', trail' := DropCopy(View(back, v.host), dataDir, dest, io, others, s, Err(TakenBack), trail');
  }

  lemma FreedOutcome(s: Site, v: View, v': View, trail: Trail, steps: Trail, removes: Path -> bool)
    requires Switched(s, v.tree, trail) && Apart(s.cur, s.dest) && Clean(s.dest)
    requires Sweeping(v, v', s.dataDir, s.cur, {}, removes, steps) && v.host.Some?
    ensures Outcome(s, v'.tree, Ok(s.dest), trail + steps) && HasDir(v'.tree, s.dest)
  {
    TrailConcat(s.before, trail, v.tree, steps, v'.tree);
    assert Elsewhere(s, v.tree, v'.tree);
    ElsewhereTransitive(s, s.before, v.tree, v'.tree);
    if PointersOutside(s.dataDir, s.dest) { CopyAfterRemoval(s, v.tree, v'.tree); }
    if PointerSays(v'.tree, s.dataDir, s.dest) { SaidIsNamed(v'.tree, s.dataDir, s.dest); }
    if Separate(s) {
      PointerReadBack(s.dest);
      forall i | 0 <= i < |steps| ensures Intact(s, steps[i].after) {
        CopyAfterRemoval(s, v.tree, steps[i].after);
        RootAfterErosion(s.dataDir, v.tree, steps[i].after, s.cur);
      }
    }
    forall q | q in Prefixes(s.dest) ensures !Under(q, s.cur) {
      var i :| 0 <= i <= |s.dest| && q == s.dest[..i];
      if Under(q, s.cur) { UnderTransitive(s.dest, q, s.cur); }
    }
  }

  /** Lines 189-191: free the old location. */
  method FreeOld(v: View, dataDir: Path, cur: Path, dest: Path, io: Step -> bool, others: Moment -> seq<bool>,
                 ghost s: Site, ghost trail: Trail)
      returns (v': View, ghost trail': Trail)
    requires s.dataDir == dataDir && s.cur == cur && s.dest == dest && Apart(cur, dest) && Clean(dest)
    requires Switched(s, v.tree, trail) && v.host.Some?
    ensures Outcome(s, v'.tree, Ok(dest), trail') && HasDir(v'.tree, dest) && v'.host == v.host
    ensures forall p :: p in v'.tree && Under(p, cur) ==> !io(Remove(p))
  {
    v', trail' := RemoveAll(v, dataDir, cur, p => io(Remove(p)), p => others(Removing(p)));
    FreedOutcome(s, v, v', trail, trail', p => io(Remove(p)));
    trail' := trail + trail';
  }

  // ----- the host after a move -----------------------------------------------------------------------

  /** A call opened the copy after the relocation had closed it and before the old directory was named again. */
  predicate Stale(r: Result, others: Moment -> seq<bool>) {
    r == Err(TakenBack) && true in others(BeforeRevert)
  }

  /** What is cached afterwards. */
  ghost predicate Hosted(s: Site, others: Moment -> seq<bool>, v: View, r: Result) {
    && (Separate(s) ==> (Serving(v, s.dataDir) <==> !Stale(r, others)))
    && (Separate(s) && Stale(r, others) ==> v.host == Some(s.dest))
    && (Guarded(s) && !EndsInSpace(s.cur) && r.Err? && !Stale(r, others) ==> Serving(v, s.dataDir))
    && (Guarded(s) && !Under(PointerFile(s.dataDir), s.cur) && r.Ok? ==> v.host == Some(RepoRoot(v.tree, s.dataDir)))
  }

  ghost predicate Emptied(t: Tree, dir: Path) { forall p :: p in t ==> !Under(p, dir) }

  /** Lines 146-150 after a failed copy or switch. */
  method Abandon(t: Tree, dataDir: Path, cur: Path, dest: Path, io: Step -> bool, others: Moment -> seq<bool>,
                 ghost s: Site, ghost trail: Trail)
      returns (v': View, ghost trail': Trail)
    requires s.dataDir == dataDir && s.cur == cur && s.dest == dest && Outcome(s, t, Err(CopyFailed), trail)
    ensures Outcome(s, v'.tree, Err(CopyFailed), trail') && Hosted(s, others, v', Err(CopyFailed))
    ensures Guarded(s) ==> Dropped(v'.tree, dest, io)
  {
    v', trail' := DropCopy(View(t, None), dataDir, dest, io, others, s, Err(CopyFailed), trail);
  }

  /** Others may open the new repository first. */
  lemma OthersReopen(s: Site, t: Tree, trail: Trail, calls: seq<bool>)
    requires Switched(s, t, trail)
    ensures var v := Calls(View(t, None), s.dataDir, calls);
            && Switched(s, v.tree, Extend(trail, t, v.tree, RepoRoot(t, s.dataDir))) && Serving(v, s.dataDir)
            && (CanMkdirAll(t, RepoRoot(t, s.dataDir)) ==> CanMkdirAll(v.tree, RepoRoot(v.tree, s.dataDir)))
  {
    var named := RepoRoot(t, s.dataDir);
    var v := Calls(View(t, None), s.dataDir, calls);
    CallsAre(View(t, None), s.dataDir, calls);
    CallsServe(View(t, None), s.dataDir, calls);
    RootAfterMkdir(t, s.dataDir, named);
    SwitchedAfterDirs(s, t, v.tree, trail, named);
  }

  /** Opening the new repository makes at most directories. */
  lemma Reopened(s: Site, v: View, trail: Trail, opens: bool)
    requires Switched(s, v.tree, trail) && Serving(v, s.dataDir)
    ensures var v' := Call(v, s.dataDir, opens);
            && Switched(s, v'.tree, Extend(trail, v.tree, v'.tree, RepoRoot(v.tree, s.dataDir)))
            && Serving(v', s.dataDir)
            && (opens && CanMkdirAll(v.tree, RepoRoot(v.tree, s.dataDir)) ==> v'.host.Some?)
  {
    CallServes(v, s.dataDir, opens);
    SwitchedAfterDirs(s, v.tree, Call(v, s.dataDir, opens).tree, trail, RepoRoot(v.tree, s.dataDir));
  }

  /** Lines 175-185 when the copy could not be opened or lacks restore points. */
  method TakeBack(t: Tree, dataDir: Path, cur: Path, dest: Path, io: Step -> bool, others: Moment -> seq<bool>,
                  ghost s: Site, ghost trail: Trail)
      returns (v': View, ghost trail': Trail)
    requires s.dataDir == dataDir && s.cur == cur && s.dest == dest && Clean(cur) && Clean(dest)
    requires Switched(s, t, trail)
    ensures Outcome(s, v'.tree, Err(TakenBack), trail') && Hosted(s, others, v', Err(TakenBack))
    ensures Guarded(s) && !EndsInSpace(cur) ==> Dropped(v'.tree, dest, io)
  {
    var v := Calls(View(t, None), dataDir, others(BeforeRevert));
    CallsAre(View(t, None), dataDir, others(BeforeRevert));
    SaidIsNamed(t, dataDir, dest);
    SwitchedAfterDirs(s, t, v.tree, trail, RepoRoot(t, dataDir));
    PointerReadBack(cur);
    PointerReadBack(dest);
    v', trail' := Revert(v, dataDir, cur, dest, io, others, s,
                         Extend(trail, t, v.tree, RepoRoot(t, dataDir)));
  }

  /** Lines 174-191 once the reopening was tried: keep the switch or take it back. */
  method Settle(v: View, dataDir: Path, cur: Path, dest: Path, io: Step -> bool, others: Moment -> seq<bool>,
                points: nat, got: nat, files: nat, ghost s: Site, ghost trail: Trail)
      returns (v': View, r: Result, ghost trail': Trail)
    requires s.dataDir == dataDir && s.cur == cur && s.dest == dest && Clean(cur) && Clean(dest) && Apart(cur, dest)
    requires Switched(s, v.tree, trail) && Serving(v, dataDir)
    ensures r == if v.host.Some? && points <= got then Ok(dest) else Err(TakenBack)
    ensures Outcome(s, v'.tree, r, trail') && Hosted(s, others, v', r)
    ensures AllSucceed(io) && r.Ok? && (points > 0 || files > 0) ==> Emptied(v'.tree, cur)
    ensures r.Err? && Guarded(s) && !EndsInSpace(cur) ==> Dropped(v'.tree, dest, io)
  {
    if v.host.None? || got < points {
      v', trail' := TakeBack(v.tree, dataDir, cur, dest, io, others, s, trail);
      return v', Err(TakenBack), trail';
    }
    v', trail' := v, trail;
    SaidIsNamed(v.tree, dataDir, dest);
    PointerReadBack(dest);
    if points > 0 || files > 0 {
      v', trail' := FreeOld(v, dataDir, cur, dest, io, others, s, trail);
    }
    assert dest[..|dest|] == dest && dest in Prefixes(dest);
    return v', Ok(dest), trail';
  }
}
