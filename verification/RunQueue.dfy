/**
  The sweep of a worker: list the due runs, claim each.  Listing and claiming
  agree, and repeated sweeps at one instant drain the queue.
 */
module RunQueue {
  import opened Common
  import opened RunStore

  /** Every listed run can be claimed by anybody; a run under an unexpired lease is never listed. */
  lemma ListedIsClaimable(runs: Runs, now: Time, limit: int, out: seq<Run>, r: Run, owner: string, until: Time)
    requires IsDueListing(runs, now, limit, out) && r in out
    ensures r.id in runs && ClaimRun(runs, r.clusterId, r.id, owner, now, until).1
    ensures !After(runs[r.id].leaseUntil, now)
  {
    var full :| AllDue(runs, now, full) && out == Limited(full, limit);
    assert r in full;
  }

  /** A run nobody touches stays due. */
  lemma DueIsMonotone(r: Run, now: Time, later: Time)
    requires Due(r, now) && now <= later
    ensures Due(r, later)
  {
  }

  // ----- sweeps -----------------------------------------------------------------

  function ClaimAll(runs: Runs, now: Time, owner: string, until: Time, listing: seq<Run>): (Runs, nat)
    decreases |listing|
  {
    if listing == [] then (runs, 0)
    else
      var (runs1, ok) := ClaimRun(runs, listing[0].clusterId, listing[0].id, owner, now, until);
      var (runs2, n) := ClaimAll(runs1, now, owner, until, listing[1..]);
      (runs2, if ok then n + 1 else n)
  }

  /** One worker lists at most k runs and claims them all. */
  datatype Sweep = Sweep(owner: string, until: Time, listing: seq<Run>)

  function AfterSweep(runs: Runs, now: Time, w: Sweep): Runs {
    ClaimAll(runs, now, w.owner, w.until, w.listing).0
  }

  ghost predicate AreSweeps(runs: Runs, now: Time, k: nat, sweeps: seq<Sweep>)
    decreases |sweeps|
  {
    sweeps == [] ||
    (&& IsDueListing(runs, now, k, sweeps[0].listing)
     && sweeps[0].until > now
     && AreSweeps(AfterSweep(runs, now, sweeps[0]), now, k, sweeps[1..]))
  }

  function AfterSweeps(runs: Runs, now: Time, sweeps: seq<Sweep>): Runs
    decreases |sweeps|
  {
    if sweeps == [] then runs else AfterSweeps(AfterSweep(runs, now, sweeps[0]), now, sweeps[1..])
  }

  /** How many claims succeeded. */
  function Successes(runs: Runs, now: Time, sweeps: seq<Sweep>): nat
    decreases |sweeps|
  {
    if sweeps == [] then 0
    else
      var n := ClaimAll(runs, now, sweeps[0].owner, sweeps[0].until, sweeps[0].listing).1;
      n + Successes(AfterSweep(runs, now, sweeps[0]), now, sweeps[1..])
  }

  function Ids(s: seq<Run>): seq<string> {
    seq(|s|, i requires 0 <= i < |s| => s[i].id)
  }

  /** The ids claimed, in order of claiming. */
  function ClaimedIds(sweeps: seq<Sweep>): seq<string>
    decreases |sweeps|
  {
    if sweeps == [] then [] else Ids(sweeps[0].listing) + ClaimedIds(sweeps[1..])
  }

  function DueIds(runs: Runs, now: Time): set<string> {
    set id | id in runs && Due(runs[id], now)
  }

  ghost predicate ListsDue(runs: Runs, now: Time, listing: seq<Run>) {
    && Distinct(Ids(listing))
    && forall r :: r in listing ==> r.id in runs && runs[r.id] == r && Due(r, now)
  }

  lemma DistinctTail<T>(x: T, s: seq<T>)
    requires Distinct([x] + s)
    ensures Distinct(s) && x !in s
  {
    var t := [x] + s;
    forall i, j | 0 <= i < j < |s| ensures s[i] != s[j] {
      assert t[i + 1] != t[j + 1];
    }
    forall i | 0 <= i < |s| ensures s[i] != x {
      assert t[0] != t[i + 1];
    }
  }

  lemma TailListsDue(runs: Runs, now: Time, listing: seq<Run>)
    requires ListsDue(runs, now, listing) && listing != []
    ensures ListsDue(runs, now, listing[1..])
    ensures Ids(listing) == [listing[0].id] + Ids(listing[1..])
    ensures listing[0].id !in Ids(listing[1..])
  {
    assert listing == [listing[0]] + listing[1..];
    assert Ids(listing) == [listing[0].id] + Ids(listing[1..]);
    DistinctTail(listing[0].id, Ids(listing[1..]));
  }

  lemma {:induction false} ClaimAllTakesTheListed(runs: Runs, now: Time, owner: string, until: Time, listing: seq<Run>)
    requires Keyed(runs) && ListsDue(runs, now, listing) && until > now
    ensures var (runs', n) := ClaimAll(runs, now, owner, until, listing);
            && n == |listing| && Keyed(runs') && runs'.Keys == runs.Keys
            && forall id :: id in runs ==>
                 runs'[id] == if id in Ids(listing) then LeasedTo(runs[id], owner, until) else runs[id]
    decreases |listing|
  {
    if listing != [] {
      var r := listing[0];
      assert r in listing;
      TailListsDue(runs, now, listing);
      var runs1 := runs[r.id := LeasedTo(r, owner, until)];
      assert ClaimRun(runs, r.clusterId, r.id, owner, now, until) == (runs1, true);
      assert ListsDue(runs1, now, listing[1..]) by {
        forall q | q in listing[1..] ensures q.id != r.id {
          var i :| 0 <= i < |listing[1..]| && listing[1..][i] == q;
          assert Ids(listing[1..])[i] == q.id;
        }
      }
      ClaimAllTakesTheListed(runs1, now, owner, until, listing[1..]);
    }
  }

  lemma DistinctIds(runs: Runs, now: Time, full: seq<Run>)
    requires AllDue(runs, now, full)
    ensures ListsDue(runs, now, full)
  {
    forall i, j | 0 <= i < j < |full| ensures Ids(full)[i] != Ids(full)[j] {
      assert full[i] in full && full[j] in full && full[i] != full[j];
    }
  }

  lemma PrefixListsDue(runs: Runs, now: Time, full: seq<Run>, n: nat)
    requires ListsDue(runs, now, full) && n <= |full|
    ensures ListsDue(runs, now, full[..n])
  {
    forall i, j | 0 <= i < j < n ensures Ids(full[..n])[i] != Ids(full[..n])[j] {
      assert Ids(full)[i] != Ids(full)[j];
    }
  }

  /** Of the due runs, the first n are now leased; the others are as they were. */
  ghost predicate PrefixTaken(runs: Runs, runs': Runs, full: seq<Run>, n: nat, owner: string, until: Time)
    requires n <= |full|
  {
    && runs'.Keys == runs.Keys
    && forall id :: id in runs ==>
         runs'[id] == if id in Ids(full[..n]) then LeasedTo(runs[id], owner, until) else runs[id]
  }

  lemma StillDue(runs: Runs, runs': Runs, now: Time, full: seq<Run>, n: nat, owner: string, until: Time, r: Run)
    requires AllDue(runs, now, full) && ListsDue(runs, now, full) && n <= |full| && until > now
    requires PrefixTaken(runs, runs', full, n, owner, until)
    ensures r in full[n..] <==> r.id in runs' && runs'[r.id] == r && Due(r, now)
  {
    var rest := full[n..];
    forall j | n <= j < |full| ensures full[j] in rest {
      assert rest[j - n] == full[j];
    }
    if r in rest {
      var i :| 0 <= i < |rest| && rest[i] == r;
      assert full[n + i] == r && r in full;
      forall j | 0 <= j < n ensures Ids(full[..n])[j] != r.id {
        assert Ids(full)[j] != Ids(full)[n + i];
      }
    } else if r in full {
      var i :| 0 <= i < |full| && full[i] == r;
      assert Ids(full[..n])[i] == r.id;
    }
  }

  /** After a sweep of the first n due runs, the others are what is due. */
  lemma SweepLeavesTheRest(runs: Runs, now: Time, full: seq<Run>, n: nat, owner: string, until: Time)
    requires Keyed(runs) && AllDue(runs, now, full) && n <= |full| && until > now
    ensures var (runs', c) := ClaimAll(runs, now, owner, until, full[..n]);
            && c == n && Keyed(runs')
            && AllDue(runs', now, full[n..])
            && DueIds(runs', now) == DueIds(runs, now) - (set id | id in Ids(full[..n]))
  {
    DistinctIds(runs, now, full);
    PrefixListsDue(runs, now, full, n);
    ClaimAllTakesTheListed(runs, now, owner, until, full[..n]);
    var runs' := ClaimAll(runs, now, owner, until, full[..n]).0;
    assert PrefixTaken(runs, runs', full, n, owner, until);
    forall r ensures r in full[n..] <==> r.id in runs' && runs'[r.id] == r && Due(r, now) {
      StillDue(runs, runs', now, full, n, owner, until, r);
    }
  }

  lemma DueIdsOfListing(runs: Runs, now: Time, full: seq<Run>)
    requires Keyed(runs) && AllDue(runs, now, full)
    ensures forall id :: id in Ids(full) <==> id in DueIds(runs, now)
  {
    forall id ensures id in Ids(full) <==> id in DueIds(runs, now) {
      if id in Ids(full) {
        var i :| 0 <= i < |full| && Ids(full)[i] == id;
        assert full[i] in full;
      }
      if id in DueIds(runs, now) {
        assert runs[id] in full;
        var i :| 0 <= i < |full| && full[i] == runs[id];
        assert Ids(full)[i] == id;
      }
    }
  }

  /** The first sweep takes a prefix of some enumeration of the due runs. */
  lemma FirstSweep(runs: Runs, now: Time, k: nat, sweeps: seq<Sweep>, full: seq<Run>) returns (m: seq<Run>, n: nat)
    requires Keyed(runs) && k > 0 && AllDue(runs, now, full)
    requires sweeps != [] && AreSweeps(runs, now, k, sweeps)
    ensures AllDue(runs, now, m) && |m| == |full| && n == Min(|full|, k) && sweeps[0].listing == m[..n]
    ensures ClaimAll(runs, now, sweeps[0].owner, sweeps[0].until, sweeps[0].listing).1 == n
    ensures var runs' := AfterSweep(runs, now, sweeps[0]);
            && Keyed(runs') && AllDue(runs', now, m[n..])
            && DueIds(runs', now) == DueIds(runs, now) - (set id | id in Ids(m[..n]))
  {
    m :| AllDue(runs, now, m) && sweeps[0].listing == Limited(m, k);
    n := |sweeps[0].listing|;
    DistinctSameElements(m, full);
    assert sweeps[0].listing == m[..n];
    SweepLeavesTheRest(runs, now, m, n, sweeps[0].owner, sweeps[0].until);
  }

  /** What the first sweep leaves due. */
  lemma RestAfterSweep(runs: Runs, now: Time, k: nat, sweeps: seq<Sweep>, full: seq<Run>) returns (rest: seq<Run>)
    requires Keyed(runs) && k > 0 && AllDue(runs, now, full)
    requires sweeps != [] && AreSweeps(runs, now, k, sweeps)
    ensures |sweeps[0].listing| == Min(|full|, k) == |full| - |rest|
    ensures ClaimAll(runs, now, sweeps[0].owner, sweeps[0].until, sweeps[0].listing).1 == |sweeps[0].listing|
    ensures var runs' := AfterSweep(runs, now, sweeps[0]); Keyed(runs') && AllDue(runs', now, rest)
  {
    var m, n := FirstSweep(runs, now, k, sweeps, full);
    rest := m[n..];
  }

  /** m * k, by sweeps. */
  function Capacity(m: nat, k: nat): nat { if m == 0 then 0 else k + Capacity(m - 1, k) }

  lemma {:induction false} CapacityIsProduct(m: nat, k: nat)
    ensures Capacity(m, k) == m * k
  {
    if m > 0 { CapacityIsProduct(m - 1, k); }
  }

  /** One sweep of at most k in front of others. */
  lemma CapacityStep(total: nat, taken: nat, left: nat, m: nat, k: nat)
    requires m > 0 && taken == Min(total, k) == total - left
    ensures taken + Min(left, Capacity(m - 1, k)) == Min(total, Capacity(m, k))
  {
  }

  lemma SweepCounts(runs: Runs, now: Time, sweeps: seq<Sweep>)
    requires sweeps != []
    requires ClaimAll(runs, now, sweeps[0].owner, sweeps[0].until, sweeps[0].listing).1 == |sweeps[0].listing|
    ensures Successes(runs, now, sweeps)
         == |sweeps[0].listing| + Successes(AfterSweep(runs, now, sweeps[0]), now, sweeps[1..])
    ensures |ClaimedIds(sweeps)| == |sweeps[0].listing| + |ClaimedIds(sweeps[1..])|
  {
  }

  lemma {:induction false} DrainCount(runs: Runs, now: Time, k: nat, sweeps: seq<Sweep>, full: seq<Run>)
    requires Keyed(runs) && k > 0 && AreSweeps(runs, now, k, sweeps) && AllDue(runs, now, full)
    ensures Successes(runs, now, sweeps) == |ClaimedIds(sweeps)| == Min(|full|, Capacity(|sweeps|, k))
    decreases |sweeps|
  {
    if sweeps != [] {
      var rest := RestAfterSweep(runs, now, k, sweeps, full);
      DrainCount(AfterSweep(runs, now, sweeps[0]), now, k, sweeps[1..], rest);
      SweepCounts(runs, now, sweeps);
      CapacityStep(|full|, |sweeps[0].listing|, |rest|, |sweeps|, k);
    }
  }

  lemma {:induction false} DrainIds(runs: Runs, now: Time, k: nat, sweeps: seq<Sweep>, full: seq<Run>)
    requires Keyed(runs) && k > 0 && AreSweeps(runs, now, k, sweeps) && AllDue(runs, now, full)
    ensures Distinct(ClaimedIds(sweeps))
    ensures forall id :: id in ClaimedIds(sweeps) ==> id in DueIds(runs, now)
    ensures DueIds(AfterSweeps(runs, now, sweeps), now) == DueIds(runs, now) - (set id | id in ClaimedIds(sweeps))
    decreases |sweeps|
  {
    if sweeps != [] {
      var m, n := FirstSweep(runs, now, k, sweeps, full);
      DueIdsOfListing(runs, now, m);
      DistinctIds(runs, now, m);
      DrainIds(AfterSweep(runs, now, sweeps[0]), now, k, sweeps[1..], m[n..]);
      DrainedIds(runs, now, m, n, sweeps);
    }
  }

  lemma {:induction false} DrainEnd(runs: Runs, now: Time, k: nat, sweeps: seq<Sweep>, full: seq<Run>)
    requires Keyed(runs) && k > 0 && AreSweeps(runs, now, k, sweeps) && AllDue(runs, now, full)
    ensures DueIds(AfterSweeps(runs, now, sweeps), now) == {} <==> Capacity(|sweeps|, k) >= |full|
    decreases |sweeps|
  {
    if sweeps == [] {
      DueIdsOfListing(runs, now, full);
      if full != [] { assert Ids(full)[0] in Ids(full); }
    } else {
      var rest := RestAfterSweep(runs, now, k, sweeps, full);
      DrainEnd(AfterSweep(runs, now, sweeps[0]), now, k, sweeps[1..], rest);
    }
  }

  /**
    Sweeping at most k runs at a time at one instant, by any workers: every
    claim succeeds, no run is claimed twice, m sweeps claim min(n, m * k) of
    the n due runs, and nothing is left exactly from sweep ceil(n / k) on.
   */
  lemma QueueDrains(runs: Runs, now: Time, k: nat, sweeps: seq<Sweep>, full: seq<Run>)
    requires Keyed(runs) && k > 0 && AreSweeps(runs, now, k, sweeps) && AllDue(runs, now, full)
    ensures Successes(runs, now, sweeps) == |ClaimedIds(sweeps)| == Min(|full|, |sweeps| * k)
    ensures Distinct(ClaimedIds(sweeps))
    ensures forall id :: id in ClaimedIds(sweeps) ==> id in DueIds(runs, now)
    ensures DueIds(AfterSweeps(runs, now, sweeps), now) == DueIds(runs, now) - (set id | id in ClaimedIds(sweeps))
    ensures DueIds(AfterSweeps(runs, now, sweeps), now) == {} <==> |sweeps| * k >= |full|
  {
    CapacityIsProduct(|sweeps|, k);
    DrainCount(runs, now, k, sweeps, full);
    DrainIds(runs, now, k, sweeps, full);
    DrainEnd(runs, now, k, sweeps, full);
  }

  /** Bookkeeping of one sweep in front of the others. */
  lemma DrainedIds(runs: Runs, now: Time, m: seq<Run>, n: nat, sweeps: seq<Sweep>)
    requires sweeps != [] && n <= |m| && sweeps[0].listing == m[..n]
    requires Distinct(Ids(m)) && forall id :: id in Ids(m) <==> id in DueIds(runs, now)
    requires Distinct(ClaimedIds(sweeps[1..]))
    requires forall id :: id in ClaimedIds(sweeps[1..]) ==> id in DueIds(runs, now) - (set i | i in Ids(m[..n]))
    ensures Distinct(ClaimedIds(sweeps))
    ensures forall id :: id in ClaimedIds(sweeps) ==> id in DueIds(runs, now)
    ensures (set id | id in ClaimedIds(sweeps)) == (set i | i in Ids(m[..n])) + (set id | id in ClaimedIds(sweeps[1..]))
  {
    var a, b := Ids(m[..n]), ClaimedIds(sweeps[1..]);
    assert ClaimedIds(sweeps) == a + b;
    assert a == Ids(m)[..n] && Ids(m) == a + Ids(m)[n..];
    forall id | id in a ensures id in Ids(m) && id !in b {
    }
    DistinctConcat(a, b);
  }

  lemma DistinctConcat<T>(a: seq<T>, b: seq<T>)
    requires Distinct(a) && Distinct(b) && forall x :: x in a ==> x !in b
    ensures Distinct(a + b)
  {
    forall i, j | 0 <= i < j < |a + b| ensures (a + b)[i] != (a + b)[j] {
      assert i < |a| ==> (a + b)[i] in a;
      assert j >= |a| ==> (a + b)[j] in b;
    }
  }
}
