/**
  copyTree, copyFile and treeSize (internal/agentrpc/backup_v2.go).  Every I/O
  step asks an oracle whether it succeeds.  `trail` collects the states the file
  system passes through, each one a state the process may be stopped in.
 */
module CopyTree {
  import opened Common
  import opened Paths
  import opened Trees

  /** The I/O steps of a copy. */
  datatype Io =
    | Visit(p: Path)       // reading the directory entry; the context is alive
    | MakeDir(p: Path)
    | OpenSource(p: Path)
    | OpenTemp(p: Path)
    | WriteTemp(p: Path)   // copy, sync and close
    | RemoveTemp(p: Path)
    | RenameTemp(p: Path)
    | Measure(p: Path)

  const COPY := ".copy"
  const TMP := ".tmp"

  /** Temporary files are not copied. */
  predicate Skipped(p: Path) { p != [] && HasSuffix(p[|p| - 1], TMP) }

  /** The files a copy must bring over: regular and not temporary. */
  function RepoFiles(t: Tree, root: Path): set<Path> {
    set p | p in t && Under(p, root) && t[p].File? && !Skipped(p)
  }

  /** root' of t' holds every repository file of root in t, with its bytes. */
  ghost predicate Holds(t': Tree, root': Path, t: Tree, root: Path) {
    forall p :: p in RepoFiles(t, root) ==> Moved(p, root, root') in t' && t'[Moved(p, root, root')] == t[p]
  }

  /** The last name of p ends in ".tmp". */
  predicate Temporary(p: Path) {
    p != [] && var n := p[|p| - 1]; |n| >= 4 && n[|n| - 4..] == ".tmp"
  }

  /** Every file below src, at any depth, is at the same place below dst, with its bytes, unless it is temporary. */
  ghost predicate CopiedAll(t: Tree, src: Path, t': Tree, dst: Path) {
    forall rel: Path :: src + rel in t && t[src + rel].File? && !Temporary(src + rel) ==>
      dst + rel in t' && t'[dst + rel] == t[src + rel]
  }

  /** Every regular file below dst is at the same place below src, with its bytes, and not temporary. */
  ghost predicate CopiedOnly(t: Tree, src: Path, t': Tree, dst: Path) {
    forall rel: Path :: dst + rel in t' && t'[dst + rel].File? ==>
      src + rel in t && t[src + rel] == t'[dst + rel] && !Temporary(src + rel)
  }

  lemma SkippedExactly(p: Path)
    ensures Skipped(p) <==> Temporary(p)
  {
  }

  /** What a place that holds the repository holds. */
  lemma HoldsExactly(t': Tree, root': Path, t: Tree, root: Path)
    ensures Holds(t', root', t, root) <==> CopiedAll(t, root, t', root')
  {
    if Holds(t', root', t, root) {
      forall rel: Path | root + rel in t && t[root + rel].File? && !Temporary(root + rel)
        ensures root' + rel in t' && t'[root' + rel] == t[root + rel]
      {
        SkippedExactly(root + rel);
        assert root + rel in RepoFiles(t, root) && Moved(root + rel, root, root') == root' + rel;
      }
    }
    if CopiedAll(t, root, t', root') {
      forall p | p in RepoFiles(t, root) ensures Moved(p, root, root') in t' && t'[Moved(p, root, root')] == t[p] {
        SkippedExactly(p);
        assert p == root + p[|root|..] && Moved(p, root, root') == root' + p[|root|..];
      }
    }
  }

  lemma OnlyCopies(t: Tree, src: Path, t': Tree, dst: Path)
    requires Holds(t', dst, t, src) && FilesUnder(t', dst) == Image(RepoFiles(t, src), src, dst)
    ensures CopiedOnly(t, src, t', dst)
  {
    forall rel: Path | dst + rel in t' && t'[dst + rel].File?
      ensures src + rel in t && t[src + rel] == t'[dst + rel] && !Temporary(src + rel)
    {
      assert dst + rel in FilesUnder(t', dst);
      var p :| p in RepoFiles(t, src) && dst + rel == Moved(p, src, dst);
      assert p == src + p[|src|..] && p[|src|..] == (dst + rel)[|dst|..] == rel;
      SkippedExactly(p);
    }
  }

  predicate Apart(a: Path, b: Path) { !Under(a, b) && !Under(b, a) }

  // ----- one file ---------------------------------------------------------------------

  /** Every state of a trail touches only `area`. */
  ghost predicate TrailTouchesOnly(t: Tree, trail: Trail, area: Path) {
    forall i :: 0 <= i < |trail| ==> TouchesOnly(t, trail[i].after, area)
  }

  /** Two trees that differ at most in two places. */
  ghost predicate SameBut(t: Tree, t': Tree, a: Path, b: Path) {
    forall q :: q != a && q != b ==> (q in t <==> q in t') && (q in t ==> t'[q] == t[q])
  }

  lemma SameButTouches(t: Tree, t': Tree, a: Path, b: Path, dst: Path)
    requires SameBut(t, t', a, b) && dst < a && dst < b
    ensures TouchesOnly(t, t', dst)
    ensures HasDir(t, dst) ==> HasDir(t', dst)
  {
    assert forall q :: q in Prefixes(dst) ==> |q| < |a| && |q| < |b|;
  }

  /** A trail all of whose states differ from t at most in two places. */
  ghost predicate LocalTrail(t: Tree, trail: Trail, t': Tree, a: Path, b: Path) {
    && IsTrail(t, trail, t') && SameBut(t, t', a, b)
    && forall i :: 0 <= i < |trail| ==> SameBut(t, trail[i].after, a, b)
  }

  /** The places an operation may change. */
  predicate Touches(op: Op, a: Path, b: Path) {
    match op
    case Mkdir(_) => false
    case Put(p, _) => p == a || p == b
    case Move(from, to) => (from == a || from == b) && (to == a || to == b)
    case Delete(p) => p == a || p == b
  }

  method PerformAt(ghost start: Tree, t: Tree, ghost trail: Trail, op: Op, ghost a: Path, ghost b: Path)
      returns (t': Tree, ghost trail': Trail)
    requires LocalTrail(start, trail, t, a, b) && Touches(op, a, b)
    ensures t' == Apply(t, op) && trail' == trail + [Stage(op, t')] && LocalTrail(start, trail', t', a, b)
  {
    t', trail' := Perform(start, t, trail, op);
    assert SameBut(t, t', a, b);
  }

  lemma WrittenAndMoved(t: Tree, target: Path, temp: Path, data: string)
    requires target != temp
    ensures var b := Apply(Apply(t, Put(temp, "")), Put(temp, data));
            && b == Write(t, temp, data) && (CanWrite(b, target) <==> CanWrite(t, target))
            && Apply(b, Move(temp, target)) == Write(t - {temp}, target, data)
  {
    var b := Apply(Apply(t, Put(temp, "")), Put(temp, data));
    assert b == Write(t, temp, data);
    assert Apply(b, Move(temp, target)) == Write(t - {temp}, target, data);
  }

  /** copyFile: p goes through the temporary file, which is renamed to target. */
  method CopyThrough(t: Tree, p: Path, target: Path, temp: Path, ok: Io -> bool)
      returns (t': Tree, good: bool, n: nat, ghost trail: Trail)
    requires p in t && t[p].File? && target != temp
    ensures LocalTrail(t, trail, t', target, temp)
    ensures good ==> trail == [Stage(Put(temp, ""), Write(t, temp, "")),
                               Stage(Put(temp, t[p].data), Write(t, temp, t[p].data)),
                               Stage(Move(temp, target), t')]
    ensures good ==> t' == Write(t - {temp}, target, t[p].data) && n == |t[p].data|
    ensures (forall s :: ok(s)) && CanWrite(t, target) && CanWrite(t, temp) ==> good
  {
    t', good, n, trail := t, false, 0, [];
    WrittenAndMoved(t, target, temp, t[p].data);
    if !ok(OpenSource(p)) {
      return;
    }
    if !ok(OpenTemp(p)) || !CanWrite(t, temp) {
      return;
    }
    t', trail := PerformAt(t, t, [], Put(temp, ""), target, temp);
    if !ok(WriteTemp(p)) {
      if ok(RemoveTemp(p)) {
        t', trail := PerformAt(t, t', trail, Delete(temp), target, temp);
      }
      return;
    }
    t', trail := PerformAt(t, t', trail, Put(temp, t[p].data), target, temp);
    if !ok(RenameTemp(p)) || !CanWrite(t', target) {
      return;
    }
    t', trail := PerformAt(t, t', trail, Move(temp, target), target, temp);
    good, n := true, |t[p].data|;
  }

  /** The copy of p goes through target.copy and touches nothing outside dst. */
  method CopyFile(t: Tree, p: Path, target: Path, dst: Path, ok: Io -> bool)
      returns (t': Tree, good: bool, n: nat, ghost trail: Trail)
    requires p in t && t[p].File? && dst < target
    ensures TouchesOnly(t, t', dst) && TrailTouchesOnly(t, trail, dst) && IsTrail(t, trail, t')
    ensures HasDir(t, dst) ==> HasDir(t', dst)
    ensures good ==> t' == Write(t - {WithSuffix(target, COPY)}, target, t[p].data) && n == |t[p].data|
    ensures (forall s :: ok(s)) && CanWrite(t, target) && CanWrite(t, WithSuffix(target, COPY)) ==> good
  {
    var temp := WithSuffix(target, COPY);
    assert temp[|temp| - 1] != target[|target| - 1];
    assert dst == target[..|dst|] == temp[..|dst|];
    t', good, n, trail := CopyThrough(t, p, target, temp, ok);
    SameButTouches(t, t', target, temp, dst);
    forall i | 0 <= i < |trail| ensures TouchesOnly(t, trail[i].after, dst) {
      SameButTouches(t, trail[i].after, target, temp, dst);
    }
  }

  // ----- invariants of the walk ------------------------------------------------------------

  /** The repository files among the first i entries of the walk. */
  ghost function Done(t: Tree, walk: seq<Path>, i: nat): set<Path>
    requires i <= |walk|
  {
    set p | p in walk[..i] && p in t && t[p].File? && !Skipped(p)
  }

  ghost predicate Faithful(t: Tree, t': Tree, src: Path, dst: Path, walk: seq<Path>, i: nat)
    requires IsWalk(t, src, walk) && i <= |walk|
  {
    && TouchesOnly(t, t', dst)
    && forall p :: p in Done(t, walk, i) ==> Moved(p, src, dst) in t' && t'[Moved(p, src, dst)] == t[p]
  }

  /** Nothing lies below dir. */
  predicate EmptyDir(t: Tree, dir: Path) {
    && CanMkdirAll(t, dir)
    && forall p :: p in t && Under(p, dir) ==> p == dir
  }

  /** Below the copied root whatever has entries below it is a directory. */
  predicate WellFormed(t: Tree, src: Path) {
    forall p, q :: p in t && q in t && Under(p, src) && Under(q, src) && q < p ==> t[q].Dir?
  }

  /** Into an empty directory: the files below dst are exactly the copies, the directories exactly those needed. */
  ghost predicate Exact(t: Tree, t': Tree, src: Path, dst: Path, walk: seq<Path>, i: nat)
    requires IsWalk(t, src, walk) && i <= |walk|
  {
    && CanMkdirAll(t', dst)
    && forall q :: q in t' && Under(q, dst) ==>
         || (t'[q].Dir? && (q == dst || exists j :: 0 <= j < i && Under(Moved(walk[j], src, dst), q)))
         || q in Image(Done(t, walk, i), src, dst)
  }

  lemma NotYetWalked(t: Tree, src: Path, walk: seq<Path>, i: nat, q: Path)
    requires IsWalk(t, src, walk) && i < |walk| && (PathLess(walk[i], q) || walk[i] == q)
    ensures forall j :: 0 <= j < i ==> !Under(walk[j], q)
  {
    forall j | 0 <= j < i ensures !Under(walk[j], q) {
      assert PathLess(walk[j], walk[i]);
      if Under(walk[j], q) {
        if q != walk[j] {
          PrefixWalkedFirst(q, walk[j]);
          PathTransitive(q, walk[j], walk[i]);
        }
        PathTrichotomy(q, walk[i]);
      }
    }
  }

  lemma DoneNext(t: Tree, walk: seq<Path>, i: nat)
    requires i < |walk|
    ensures Done(t, walk, i + 1)
         == Done(t, walk, i) + (if walk[i] in t && t[walk[i]].File? && !Skipped(walk[i]) then {walk[i]} else {})
  {
    assert walk[..i + 1] == walk[..i] + [walk[i]];
  }

  lemma WalkedOnce(t: Tree, src: Path, walk: seq<Path>, i: nat)
    requires IsWalk(t, src, walk) && i < |walk|
    ensures walk[i] !in walk[..i]
  {
    NotYetWalked(t, src, walk, i, walk[i]);
  }

  // ----- what each kind of visit keeps --------------------------------------------------------

  lemma SkipKeeps(t: Tree, t': Tree, src: Path, dst: Path, walk: seq<Path>, i: nat)
    requires IsWalk(t, src, walk) && i < |walk|
    requires !t[walk[i]].File? || Skipped(walk[i])
    requires Faithful(t, t', src, dst, walk, i)
    ensures Faithful(t, t', src, dst, walk, i + 1)
    ensures Exact(t, t', src, dst, walk, i) ==> Exact(t, t', src, dst, walk, i + 1)
  {
    assert walk[i] in walk;
    DoneNext(t, walk, i);
  }

  lemma MkdirKeeps(t: Tree, t': Tree, src: Path, dst: Path, walk: seq<Path>, i: nat)
    requires IsWalk(t, src, walk) && i < |walk|
    requires t[walk[i]].Dir? && CanMkdirAll(t', Moved(walk[i], src, dst))
    requires Faithful(t, t', src, dst, walk, i)
    ensures var t'' := MkdirAll(t', Moved(walk[i], src, dst));
            && Faithful(t, t'', src, dst, walk, i + 1)
            && (Exact(t, t', src, dst, walk, i) ==> Exact(t, t'', src, dst, walk, i + 1))
  {
    var target := Moved(walk[i], src, dst);
    var t'' := MkdirAll(t', target);
    assert walk[i] in walk;
    DoneNext(t, walk, i);
    MkdirTouches(t', target, dst);
    TouchesOnlyTransitive(t, t', t'', dst);
    if Exact(t, t', src, dst, walk, i) {
      forall q | q in t'' && Under(q, dst) && q !in t'
        ensures t''[q].Dir? && Under(target, q)
      {
        var k :| 0 <= k <= |target| && q == target[..k];
      }
    }
  }

  /** The temporary name of a file is not yet in use by a finished copy: the walk comes to x before x.copy. */
  lemma TempIsFree(t: Tree, src: Path, dst: Path, walk: seq<Path>, i: nat)
    requires IsWalk(t, src, walk) && i < |walk| && src < walk[i]
    ensures WithSuffix(Moved(walk[i], src, dst), COPY) !in Image(Done(t, walk, i), src, dst)
    ensures Moved(walk[i], src, dst) !in Image(Done(t, walk, i), src, dst)
    ensures forall j :: 0 <= j < i ==>
              && !Under(Moved(walk[j], src, dst), Moved(walk[i], src, dst))
              && !Under(Moved(walk[j], src, dst), WithSuffix(Moved(walk[i], src, dst), COPY))
  {
    var p := walk[i];
    var c := WithSuffix(p, COPY);
    assert src == p[..|src|] == c[..|src|];
    assert Moved(c, src, dst) == WithSuffix(Moved(p, src, dst), COPY);
    CopyWalkedLater(p, COPY);
    NotYetWalked(t, src, walk, i, p);
    NotYetWalked(t, src, walk, i, c);
    forall j | 0 <= j < i
      ensures !Under(Moved(walk[j], src, dst), Moved(p, src, dst))
      ensures !Under(Moved(walk[j], src, dst), Moved(c, src, dst))
    {
      assert walk[j] in walk;
      MovedUnder(walk[j], p, src, dst);
      MovedUnder(walk[j], c, src, dst);
    }
    forall q | q in Image(Done(t, walk, i), src, dst) ensures q != Moved(p, src, dst) && q != Moved(c, src, dst) {
      var d :| d in Done(t, walk, i) && q == Moved(d, src, dst);
      var j :| 0 <= j < i && walk[j] == d;
    }
  }

  lemma MovedUnder(p: Path, q: Path, src: Path, dst: Path)
    requires Under(p, src) && Under(q, src)
    ensures Under(Moved(p, src, dst), Moved(q, src, dst)) <==> Under(p, q)
  {
    var a, b := Moved(p, src, dst), Moved(q, src, dst);
    if Under(a, b) {
      assert forall k :: 0 <= k < |q| ==> q[k] == p[k] by {
        forall k | 0 <= k < |q| ensures q[k] == p[k] {
          if k >= |src| {
            assert b[|dst| + k - |src|] == q[k] && a[|dst| + k - |src|] == p[k];
          } else {
            assert q[k] == src[k] == p[k];
          }
        }
      }
      assert q == p[..|q|];
    }
    if Under(p, q) {
      assert b == a[..|b|];
    }
  }

  lemma CopyKeeps(t: Tree, t': Tree, t'': Tree, src: Path, dst: Path, walk: seq<Path>, i: nat)
    requires IsWalk(t, src, walk) && i < |walk| && src < walk[i]
    requires t[walk[i]].File? && !Skipped(walk[i])
    requires Faithful(t, t', src, dst, walk, i)
    requires var target := Moved(walk[i], src, dst);
             t'' == Write(t' - {WithSuffix(target, COPY)}, target, t[walk[i]].data)
    requires TouchesOnly(t', t'', dst)
    ensures Faithful(t, t'', src, dst, walk, i + 1)
    ensures Exact(t, t', src, dst, walk, i) ==> Exact(t, t'', src, dst, walk, i + 1)
  {
    var p := walk[i];
    var target := Moved(p, src, dst);
    assert p in walk;
    DoneNext(t, walk, i);
    TempIsFree(t, src, dst, walk, i);
    TouchesOnlyTransitive(t, t', t'', dst);
    forall q | q in Done(t, walk, i) ensures Moved(q, src, dst) in t'' && t''[Moved(q, src, dst)] == t[q] {
      assert Moved(q, src, dst) in Image(Done(t, walk, i), src, dst);
    }
    if Exact(t, t', src, dst, walk, i) {
      assert dst < target;
      assert target in Image(Done(t, walk, i + 1), src, dst);
      assert Image(Done(t, walk, i), src, dst) <= Image(Done(t, walk, i + 1), src, dst);
      forall q | q in Prefixes(dst) && q in t'' ensures t''[q].Dir? {
        assert q != target;
      }
    }
  }

  lemma AncestorIsDir(t: Tree, t': Tree, src: Path, dst: Path, walk: seq<Path>, i: nat, q: Path)
    requires IsWalk(t, src, walk) && i < |walk| && WellFormed(t, src)
    requires walk[i] in t && Under(walk[i], src) && t[walk[i]].Dir?
    requires Exact(t, t', src, dst, walk, i)
    requires q in Prefixes(Moved(walk[i], src, dst)) && q in t'
    ensures t'[q].Dir?
  {
    var p := walk[i];
    var target := Moved(p, src, dst);
    var k :| 0 <= k <= |target| && q == target[..k];
    if k < |dst| {
      assert q == dst[..k] && q in Prefixes(dst);
    } else {
      assert dst == q[..|dst|];
      forall d | d in Done(t, walk, i) ensures Moved(d, src, dst) != q {
        MovedUnder(p, d, src, dst);
        assert Under(target, q) && d != p;
      }
      assert q !in Image(Done(t, walk, i), src, dst);
    }
  }

  /** Without I/O failures nothing in an emptied destination is in the way. */
  lemma NothingInTheWay(t: Tree, t': Tree, src: Path, dst: Path, walk: seq<Path>, i: nat)
    requires IsWalk(t, src, walk) && i < |walk| && WellFormed(t, src)
    requires Exact(t, t', src, dst, walk, i)
    ensures t[walk[i]].Dir? ==> CanMkdirAll(t', Moved(walk[i], src, dst))
    ensures t[walk[i]].File? && src < walk[i] ==>
              CanWrite(t', Moved(walk[i], src, dst)) && CanWrite(t', WithSuffix(Moved(walk[i], src, dst), COPY))
  {
    var p := walk[i];
    var target := Moved(p, src, dst);
    assert p in walk;
    if t[p].Dir? {
      forall q | q in Prefixes(target) && q in t' ensures t'[q].Dir? {
        AncestorIsDir(t, t', src, dst, walk, i, q);
      }
    } else if t[p].File? && src < p {
      TempIsFree(t, src, dst, walk, i);
      var temp := WithSuffix(target, COPY);
      assert Under(target, dst) && target != dst;
      assert dst == temp[..|dst|] && temp != dst;
      assert target !in t' && temp !in t';
    }
  }

  // ----- the whole tree ---------------------------------------------------------------------------

  /** One call of the walk function on a directory. */
  method VisitDir(t: Tree, now: Tree, src: Path, dst: Path, walk: seq<Path>, i: nat, ok: Io -> bool)
      returns (t': Tree, fine: bool, ghost steps: Trail)
    requires IsWalk(t, src, walk) && i < |walk| && Faithful(t, now, src, dst, walk, i)
    requires walk[i] in t && Under(walk[i], src) && t[walk[i]].Dir?
    ensures TouchesOnly(now, t', dst) && TrailTouchesOnly(now, steps, dst) && IsTrail(now, steps, t')
    ensures HasDir(now, dst) ==> HasDir(t', dst)
    ensures fine ==> Faithful(t, t', src, dst, walk, i + 1)
    ensures fine && Exact(t, now, src, dst, walk, i) ==> Exact(t, t', src, dst, walk, i + 1)
    ensures ok(MakeDir(walk[i])) && CanMkdirAll(now, Moved(walk[i], src, dst)) ==> fine
  {
    t', fine, steps := now, false, [];
    var target := Moved(walk[i], src, dst);
    if !ok(MakeDir(walk[i])) || !CanMkdirAll(now, target) {
      return;
    }
    MkdirKeeps(t, now, src, dst, walk, i);
    MkdirTouches(now, target, dst);
    t', steps := Perform(now, now, [], Mkdir(target));
    fine := true;
  }

  /** One call of the walk function. */
  method VisitEntry(t: Tree, now: Tree, src: Path, dst: Path, walk: seq<Path>, i: nat, ok: Io -> bool)
      returns (t': Tree, fine: bool, f: nat, n: nat, ghost steps: Trail)
    requires Apart(src, dst) && src in t && t[src].Dir?
    requires IsWalk(t, src, walk) && i < |walk| && Faithful(t, now, src, dst, walk, i)
    ensures TouchesOnly(now, t', dst) && TrailTouchesOnly(now, steps, dst) && IsTrail(now, steps, t')
    ensures HasDir(now, dst) ==> HasDir(t', dst)
    ensures fine ==> Faithful(t, t', src, dst, walk, i + 1)
    ensures fine && Exact(t, now, src, dst, walk, i) ==> Exact(t, t', src, dst, walk, i + 1)
    ensures fine ==> |Done(t, walk, i + 1)| == |Done(t, walk, i)| + f
    ensures fine ==> TotalSize(t, Done(t, walk, i + 1)) == TotalSize(t, Done(t, walk, i)) + n
    ensures (forall s :: ok(s)) && WellFormed(t, src) && Exact(t, now, src, dst, walk, i) ==> fine
  {
    t', fine, f, n, steps := now, false, 0, 0, [];
    var p := walk[i];
    assert p in walk;
    DoneNext(t, walk, i);
    if Exact(t, now, src, dst, walk, i) && WellFormed(t, src) {
      NothingInTheWay(t, now, src, dst, walk, i);
    }
    if !ok(Visit(p)) {
      return;
    }
    var target := Moved(p, src, dst);
    if t[p].Dir? {
      t', fine, steps := VisitDir(t, now, src, dst, walk, i, ok);
    } else if !t[p].File? || Skipped(p) {
      SkipKeeps(t, now, src, dst, walk, i);
      fine := true;
    } else {
      assert p != src;
      MovedStrictly(p, src, dst);
      SourceUntouched(t, now, src, dst, p);
      t', fine, n, steps := CopyFile(now, p, target, dst, ok);
      if fine {
        CopyKeeps(t, now, t', src, dst, walk, i);
        CountNext(t, src, walk, i);
        f := 1;
      }
    }
  }

  /** The walk function on every entry in turn, until one fails. */
  method CopyWalk(t: Tree, src: Path, dst: Path, walk: seq<Path>, ok: Io -> bool)
      returns (t': Tree, good: bool, files: nat, bytes: nat, ghost trail: Trail)
    requires Apart(src, dst) && src in t && t[src].Dir? && IsWalk(t, src, walk)
    ensures TouchesOnly(t, t', dst) && TrailTouchesOnly(t, trail, dst) && IsTrail(t, trail, t')
    ensures HasDir(t, dst) ==> HasDir(t', dst)
    ensures good ==> Faithful(t, t', src, dst, walk, |walk|)
    ensures good && EmptyDir(t, dst) ==> Exact(t, t', src, dst, walk, |walk|)
    ensures good ==> files == |Done(t, walk, |walk|)| && bytes == TotalSize(t, Done(t, walk, |walk|))
    ensures (forall s :: ok(s)) && EmptyDir(t, dst) && WellFormed(t, src) ==> good
  {
    t', good, files, bytes, trail := t, false, 0, 0, [];
    CopyStarts(t, src, dst, walk);
    var i := 0;
    while i < |walk|
      invariant 0 <= i <= |walk|
      invariant Faithful(t, t', src, dst, walk, i) && TrailTouchesOnly(t, trail, dst) && IsTrail(t, trail, t')
      invariant HasDir(t, dst) ==> HasDir(t', dst)
      invariant files == |Done(t, walk, i)| && bytes == TotalSize(t, Done(t, walk, i))
      invariant EmptyDir(t, dst) ==> Exact(t, t', src, dst, walk, i)
    {
      ghost var before := t';
      var fine, f, n;
      ghost var steps;
      t', fine, f, n, steps := VisitEntry(t, t', src, dst, walk, i, ok);
      TrailAppends(t, before, trail, steps, dst);
      TrailConcat(t, trail, before, steps, t');
      TouchesOnlyTransitive(t, before, t', dst);
      trail := trail + steps;
      if !fine {
        return;
      }
      files, bytes, i := files + f, bytes + n, i + 1;
    }
    good := true;
  }

  /**
    copyTree.  Nothing outside dst is touched in any state passed through; on
    success every repository file of src is at the same place below dst with the
    same bytes and the counts are theirs; into an empty directory and without
    I/O failures it succeeds and leaves no other file.
   */
  method CopyTree(t: Tree, src: Path, dst: Path, ok: Io -> bool)
      returns (t': Tree, good: bool, files: nat, bytes: nat, ghost trail: Trail)
    requires Apart(src, dst) && (src in t ==> t[src].Dir?)
    ensures TouchesOnly(t, t', dst) && TrailTouchesOnly(t, trail, dst) && IsTrail(t, trail, t')
    ensures HasDir(t, dst) ==> HasDir(t', dst)
    ensures good ==> Holds(t', dst, t, src)
    ensures good ==> files == |RepoFiles(t, src)| && bytes == TotalSize(t, RepoFiles(t, src))
    ensures good && EmptyDir(t, dst) ==> FilesUnder(t', dst) == Image(RepoFiles(t, src), src, dst)
    ensures good ==> src in t
    ensures good ==> CopiedAll(t, src, t', dst)
    ensures good && EmptyDir(t, dst) ==> CopiedOnly(t, src, t', dst)
    ensures (forall s :: ok(s)) && src in t && EmptyDir(t, dst) && WellFormed(t, src) ==> good
  {
    t', good, files, bytes, trail := t, false, 0, 0, [];
    if src !in t {
      return;
    }
    var walk := WalkDir(t, src);
    t', good, files, bytes, trail := CopyWalk(t, src, dst, walk, ok);
    if good {
      CopyEnds(t, t', src, dst, walk);
      HoldsExactly(t', dst, t, src);
      if EmptyDir(t, dst) { OnlyCopies(t, src, t', dst); }
    }
  }

  lemma CopyStarts(t: Tree, src: Path, dst: Path, walk: seq<Path>)
    requires IsWalk(t, src, walk)
    ensures Faithful(t, t, src, dst, walk, 0)
    ensures Done(t, walk, 0) == {}
    ensures EmptyDir(t, dst) ==> Exact(t, t, src, dst, walk, 0)
  {
    assert dst[..|dst|] == dst && dst in Prefixes(dst);
  }

  lemma CopyEnds(t: Tree, t': Tree, src: Path, dst: Path, walk: seq<Path>)
    requires IsWalk(t, src, walk) && Faithful(t, t', src, dst, walk, |walk|)
    ensures Done(t, walk, |walk|) == RepoFiles(t, src)
    ensures Holds(t', dst, t, src)
    ensures Exact(t, t', src, dst, walk, |walk|) ==> FilesUnder(t', dst) == Image(RepoFiles(t, src), src, dst)
  {
    assert walk[..|walk|] == walk;
    assert Done(t, walk, |walk|) == RepoFiles(t, src);
    if Exact(t, t', src, dst, walk, |walk|) {
      FilesAreCopies(t, t', src, dst, walk);
    }
  }

  lemma MovedStrictly(p: Path, src: Path, dst: Path)
    requires Under(p, src) && p != src
    ensures src < p && dst < Moved(p, src, dst)
  {
    assert |src| == |p| ==> src == p;
  }

  lemma SourceUntouched(t: Tree, t': Tree, src: Path, dst: Path, p: Path)
    requires Apart(src, dst) && TouchesOnly(t, t', dst) && p in t && Under(p, src)
    ensures p in t' && t'[p] == t[p]
  {
    if Under(p, dst) { PrefixesCompare(src, dst, p); }
  }

  lemma TrailAppends(t: Tree, mid: Tree, trail: Trail, steps: Trail, dst: Path)
    requires TouchesOnly(t, mid, dst) && TrailTouchesOnly(t, trail, dst) && TrailTouchesOnly(mid, steps, dst)
    ensures TrailTouchesOnly(t, trail + steps, dst)
  {
    forall k | 0 <= k < |steps| ensures TouchesOnly(t, steps[k].after, dst) {
      TouchesOnlyTransitive(t, mid, steps[k].after, dst);
    }
  }

  lemma CountNext(t: Tree, src: Path, walk: seq<Path>, i: nat)
    requires IsWalk(t, src, walk) && i < |walk| && walk[i] in t && t[walk[i]].File? && !Skipped(walk[i])
    ensures |Done(t, walk, i + 1)| == |Done(t, walk, i)| + 1
    ensures TotalSize(t, Done(t, walk, i + 1)) == TotalSize(t, Done(t, walk, i)) + |t[walk[i]].data|
  {
    DoneNext(t, walk, i);
    WalkedOnce(t, src, walk, i);
    TotalSizeRemove(t, Done(t, walk, i + 1), walk[i]);
    assert Done(t, walk, i + 1) - {walk[i]} == Done(t, walk, i);
  }

  lemma FilesAreCopies(t: Tree, t': Tree, src: Path, dst: Path, walk: seq<Path>)
    requires IsWalk(t, src, walk)
    requires Faithful(t, t', src, dst, walk, |walk|) && Exact(t, t', src, dst, walk, |walk|)
    ensures FilesUnder(t', dst) == Image(Done(t, walk, |walk|), src, dst)
  {
    var done := Done(t, walk, |walk|);
    forall q | q in Image(done, src, dst) ensures q in FilesUnder(t', dst) {
      var p :| p in done && q == Moved(p, src, dst);
    }
  }

  // ----- measuring -------------------------------------------------------------------------------

  /** The measurable files among the first i entries of a walk. */
  ghost function Seen(t: Tree, walk: seq<Path>, i: nat, ok: Io -> bool): set<Path>
    requires i <= |walk|
  {
    set p | p in walk[..i] && p in t && t[p].File? && ok(Measure(p))
  }

  lemma SeenNext(t: Tree, dir: Path, walk: seq<Path>, i: nat, ok: Io -> bool)
    requires IsWalk(t, dir, walk) && i < |walk|
    ensures walk[i] in t
    ensures var counted := t[walk[i]].File? && ok(Measure(walk[i]));
            && |Seen(t, walk, i + 1, ok)| == |Seen(t, walk, i, ok)| + (if counted then 1 else 0)
            && TotalSize(t, Seen(t, walk, i + 1, ok))
            == TotalSize(t, Seen(t, walk, i, ok)) + (if counted then |t[walk[i]].data| else 0)
  {
    var p, a, b := walk[i], Seen(t, walk, i, ok), Seen(t, walk, i + 1, ok);
    assert p in walk;
    assert walk[..i + 1] == walk[..i] + [p];
    WalkedOnce(t, dir, walk, i);
    if t[p].File? && ok(Measure(p)) {
      assert b == a + {p};
      TotalSizeRemove(t, b, p);
      assert b - {p} == a;
    } else {
      assert b == a;
    }
  }

  /** treeSize: files whose information cannot be read are not counted. */
  method TreeSize(t: Tree, dir: Path, ok: Io -> bool) returns (files: nat, bytes: nat)
    ensures var seen := set p | p in FilesUnder(t, dir) && ok(Measure(p));
            files == |seen| && bytes == TotalSize(t, seen)
  {
    files, bytes := 0, 0;
    var walk := WalkDir(t, dir);
    for i := 0 to |walk|
      invariant files == |Seen(t, walk, i, ok)| && bytes == TotalSize(t, Seen(t, walk, i, ok))
    {
      SeenNext(t, dir, walk, i, ok);
      if t[walk[i]].File? && ok(Measure(walk[i])) {
        files := files + 1;
        bytes := bytes + |t[walk[i]].data|;
      }
    }
    assert walk[..|walk|] == walk;
    assert Seen(t, walk, |walk|, ok) == set p | p in FilesUnder(t, dir) && ok(Measure(p));
  }

  /** The check after the copy: what is below dst is never less than what was copied, and just that if dst was empty. */
  lemma CopyMeasures(t: Tree, t': Tree, src: Path, dst: Path)
    requires Holds(t', dst, t, src)
    ensures |FilesUnder(t', dst)| >= |RepoFiles(t, src)|
    ensures TotalSize(t', FilesUnder(t', dst)) >= TotalSize(t, RepoFiles(t, src))
    ensures FilesUnder(t', dst) == Image(RepoFiles(t, src), src, dst) ==>
              && |FilesUnder(t', dst)| == |RepoFiles(t, src)|
              && TotalSize(t', FilesUnder(t', dst)) == TotalSize(t, RepoFiles(t, src))
  {
    var s := RepoFiles(t, src);
    ImageSize(t, t', s, src, dst);
    forall q | q in Image(s, src, dst) ensures q in FilesUnder(t', dst) {
      var p :| p in s && q == Moved(p, src, dst);
      MovedInjective(p, p, src, dst);
    }
    TotalSizeMonotone(t', Image(s, src, dst), FilesUnder(t', dst));
  }
}
