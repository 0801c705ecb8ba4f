/**
  Automation runs and the in-memory store that leases them to workers
  (internal/appdb/automation_memory.go).
 */
module RunStore {
  import opened Common

  /** The columns of a run that are fixed when it is created. */
  datatype Origin = Origin(
    flowId: string, version: int, mode: string, triggerKind: string, triggerPayload: string,
    definition: string, idempotencyKey: string, correlationId: string, causedByRun: string,
    chainDepth: int, retryOf: string, actorId: string, startedBy: string)

  /** JSON columns are opaque text. */
  datatype Run = Run(
    id: string, clusterId: string, origin: Origin,
    status: string, inputs: string, state: string, report: string, error: string,
    wakeAt: Option<Time>, startedAt: Option<Time>, finishedAt: Option<Time>,
    leaseOwner: string, leaseUntil: Option<Time>,
    createdAt: Time, updatedAt: Time)

  const PENDING := "pending"
  const RUNNING := "running"
  const WAITING := "waiting"

  type Runs = map<string, Run>

  /** Every run is filed under its own id. */
  ghost predicate Keyed(runs: Runs) {
    forall id :: id in runs ==> runs[id].id == id
  }

  /** `until` lies after `now`. */
  predicate After(until: Option<Time>, now: Time) {
    until.Some? && until.value > now
  }

  /** autoRunDue. */
  predicate Due(r: Run, now: Time) {
    var leased := After(r.leaseUntil, now);
    if r.status == PENDING then !leased
    else if r.status == WAITING then !leased && r.wakeAt.Some? && !After(r.wakeAt, now)
    else if r.status == RUNNING then !leased
    else false
  }

  /** The lease of r keeps `owner` out at time `now`. */
  predicate HeldByOther(r: Run, owner: string, now: Time) {
    r.leaseOwner != "" && r.leaseOwner != owner && After(r.leaseUntil, now)
  }

  function LeasedTo(r: Run, owner: string, until: Time): Run {
    r.(leaseOwner := owner, leaseUntil := Some(until))
  }

  // ----- the effect of each operation on the table -------------------------

  function CreateRun(runs: Runs, r: Run, now: Time): (Runs, bool) {
    if r.id in runs then (runs, false)
    else
      var created := if r.createdAt == ZERO_TIME then now else r.createdAt;
      (runs[r.id := r.(createdAt := created, updatedAt := now)], true)
  }

  function UpdateRun(runs: Runs, r: Run, now: Time): (Runs, bool) {
    if r.id !in runs || runs[r.id].clusterId != r.clusterId then (runs, false)
    else
      var prev := runs[r.id];
      (runs[r.id := r.(createdAt := prev.createdAt, updatedAt := now,
                       leaseOwner := prev.leaseOwner, leaseUntil := prev.leaseUntil)], true)
  }

  function ClaimRun(runs: Runs, cluster: string, id: string, owner: string, now: Time, until: Time): (Runs, bool) {
    if id !in runs || runs[id].clusterId != cluster || HeldByOther(runs[id], owner, now) then (runs, false)
    else (runs[id := LeasedTo(runs[id], owner, until)], true)
  }

  function ReleaseRun(runs: Runs, cluster: string, id: string, owner: string): Runs {
    if id !in runs || runs[id].clusterId != cluster || runs[id].leaseOwner != owner then runs
    else runs[id := runs[id].(leaseOwner := "", leaseUntil := None)]
  }

  // ----- what a listing of due runs may be ------------------------------------

  predicate CreatedBefore(a: Run, b: Run) { a.createdAt < b.createdAt }

  /** `s` lists every due run once, oldest first; runs created at the same instant come in any order. */
  ghost predicate AllDue(runs: Runs, now: Time, s: seq<Run>) {
    && Distinct(s)
    && (forall r :: r in s <==> r.id in runs && runs[r.id] == r && Due(r, now))
    && Ordered(CreatedBefore, s)
  }

  function Limited<T>(s: seq<T>, limit: int): seq<T> {
    if limit > 0 && |s| > limit then s[..limit] else s
  }

  ghost predicate IsDueListing(runs: Runs, now: Time, limit: int, out: seq<Run>) {
    exists full :: AllDue(runs, now, full) && out == Limited(full, limit)
  }

  // ----- what the operations mean, column by column ---------------------------

  /** Every run but `id` is as it was, and none came or went. */
  ghost predicate OthersSame(runs: Runs, runs': Runs, id: string) {
    runs'.Keys == runs.Keys && forall i :: i in runs && i != id ==> runs'[i] == runs[i]
  }

  /** Which runs are due: unfinished, not under an unexpired lease, and awake. */
  lemma DueExactly(r: Run, now: Time)
    ensures Due(r, now) <==>
              && (r.status == "pending" || r.status == "running" || r.status == "waiting")
              && (r.leaseUntil.Some? ==> r.leaseUntil.value <= now)
              && (r.status == "waiting" ==> r.wakeAt.Some? && r.wakeAt.value <= now)
  {
  }

  /** A create stores the given run, its times filled in, and refuses a used id. */
  lemma CreateExactly(runs: Runs, r: Run, now: Time)
    ensures var (runs', ok) := CreateRun(runs, r, now);
            && (ok <==> r.id !in runs) && (!ok ==> runs' == runs)
            && (ok ==> && runs'.Keys == runs.Keys + {r.id} && (forall i :: i in runs ==> runs'[i] == runs[i])
                       && runs'[r.id].(createdAt := r.createdAt, updatedAt := r.updatedAt) == r
                       && runs'[r.id].createdAt == (if r.createdAt == 0 then now else r.createdAt)
                       && runs'[r.id].updatedAt == now)
  {
  }

  /** An update stores the given run but for the lease and the creation time, which stay. */
  lemma UpdateExactly(runs: Runs, r: Run, now: Time)
    ensures var (runs', ok) := UpdateRun(runs, r, now);
            && (ok <==> r.id in runs && runs[r.id].clusterId == r.clusterId) && (!ok ==> runs' == runs)
            && (ok ==>
                  var was, run := runs[r.id], runs'[r.id];
                  && OthersSame(runs, runs', r.id) && run.updatedAt == now && run.createdAt == was.createdAt
                  && run.leaseOwner == was.leaseOwner && run.leaseUntil == was.leaseUntil
                  && run.(leaseOwner := r.leaseOwner, leaseUntil := r.leaseUntil,
                         createdAt := r.createdAt, updatedAt := r.updatedAt) == r)
  {
  }

  /**
    A claim is granted unless a named other owner holds an unexpired lease; it
    then sets the two lease columns, and nothing else anywhere.
   */
  lemma ClaimExactly(runs: Runs, cluster: string, id: string, owner: string, now: Time, until: Time)
    ensures var (runs', ok) := ClaimRun(runs, cluster, id, owner, now, until);
            && (ok <==> && id in runs && runs[id].clusterId == cluster
                        && (|| runs[id].leaseOwner == "" || runs[id].leaseOwner == owner
                            || runs[id].leaseUntil.None? || runs[id].leaseUntil.value <= now))
            && (!ok ==> runs' == runs)
            && (ok ==>
                  var was, run := runs[id], runs'[id];
                  && OthersSame(runs, runs', id) && run.leaseOwner == owner && run.leaseUntil == Some(until)
                  && run.(leaseOwner := was.leaseOwner, leaseUntil := was.leaseUntil) == was)
  {
  }

  /** A release clears the two lease columns of the owner's run, and nothing else. */
  lemma ReleaseExactly(runs: Runs, cluster: string, id: string, owner: string)
    ensures var runs' := ReleaseRun(runs, cluster, id, owner);
            if id in runs && runs[id].clusterId == cluster && runs[id].leaseOwner == owner then
              var was, run := runs[id], runs'[id];
              && OthersSame(runs, runs', id) && run.leaseOwner == "" && run.leaseUntil == None
              && run.(leaseOwner := was.leaseOwner, leaseUntil := was.leaseUntil) == was
            else runs' == runs
  {
  }

  /** A worker that dies loses nothing: what was due when claimed is due again once its lease has run out. */
  lemma ClaimedIsDueAgain(runs: Runs, cluster: string, id: string, owner: string, now: Time, until: Time, later: Time)
    requires ClaimRun(runs, cluster, id, owner, now, until).1 && Due(runs[id], now)
    requires later >= now && later >= until
    ensures var runs' := ClaimRun(runs, cluster, id, owner, now, until).0;
            id in runs' && Due(runs'[id], later)
  {
    ClaimExactly(runs, cluster, id, owner, now, until);
    DueExactly(runs[id], now);
    DueExactly(ClaimRun(runs, cluster, id, owner, now, until).0[id], later);
  }

  /** Listed are the oldest due runs, oldest first, as many as the limit allows. */
  lemma ListedOldestFirst(runs: Runs, now: Time, limit: int, out: seq<Run>, r: Run)
    requires IsDueListing(runs, now, limit, out)
    ensures forall i, j :: 0 <= i < j < |out| ==> out[i].createdAt <= out[j].createdAt
    ensures limit > 0 ==> |out| <= limit
    ensures r.id in runs && runs[r.id] == r && Due(r, now) && r !in out ==>
              limit > 0 && |out| == limit && forall i :: 0 <= i < |out| ==> out[i].createdAt <= r.createdAt
  {
    var full: seq<Run> :| AllDue(runs, now, full) && out == Limited(full, limit);
    forall i, j | 0 <= i < j < |full| ensures full[i].createdAt <= full[j].createdAt {
      assert !CreatedBefore(full[j], full[i]);
    }
    if r in full && r !in out {
      var k :| 0 <= k < |full| && full[k] == r;
      assert k >= |out|;
    }
  }

  // ----- the store ------------------------------------------------------------

  class Memory {
    var runs: Runs

    ghost predicate Valid() reads this { Keyed(runs) }

    constructor ()
      ensures Valid() && runs == map[]
    {
      runs := map[];
    }

    method CreateAutomationRun(r: Run, now: Time) returns (ok: bool)
      requires Valid()
      modifies this
      ensures Valid()
      ensures (runs, ok) == CreateRun(old(runs), r, now)
    {
      if r.id in runs {
        return false;
      }
      var c := r;
      if c.createdAt == ZERO_TIME {
        c := c.(createdAt := now);
      }
      c := c.(updatedAt := now);
      runs := runs[c.id := c];
      return true;
    }

    method UpdateAutomationRun(r: Run, now: Time) returns (ok: bool)
      requires Valid()
      modifies this
      ensures Valid()
      ensures (runs, ok) == UpdateRun(old(runs), r, now)
    {
      if r.id !in runs || runs[r.id].clusterId != r.clusterId {
        return false;
      }
      var prev := runs[r.id];
      var u := r.(createdAt := prev.createdAt, updatedAt := now);
      // Whatever lease the caller sent along is ignored.
      u := u.(leaseOwner := prev.leaseOwner, leaseUntil := prev.leaseUntil);
      runs := runs[r.id := u];
      return true;
    }

    method ClaimAutomationRun(cluster: string, id: string, owner: string, now: Time, until: Time) returns (ok: bool)
      requires Valid()
      modifies this
      ensures Valid()
      ensures (runs, ok) == ClaimRun(old(runs), cluster, id, owner, now, until)
    {
      if id !in runs || runs[id].clusterId != cluster {
        return false;
      }
      var r := runs[id];
      if r.leaseOwner != "" && r.leaseOwner != owner && r.leaseUntil.Some? && r.leaseUntil.value > now {
        return false;
      }
      r := r.(leaseOwner := owner, leaseUntil := Some(until));
      runs := runs[id := r];
      return true;
    }

    method ReleaseAutomationRun(cluster: string, id: string, owner: string)
      requires Valid()
      modifies this
      ensures Valid()
      ensures runs == ReleaseRun(old(runs), cluster, id, owner)
    {
      if id !in runs || runs[id].clusterId != cluster || runs[id].leaseOwner != owner {
        return;
      }
      runs := runs[id := runs[id].(leaseOwner := "", leaseUntil := None)];
    }

    /** Go iterates the map in any order, so the listing is only fixed up to ties. */
    method ListDueAutomationRuns(now: Time, limit: int) returns (out: seq<Run>)
      requires Valid()
      ensures IsDueListing(runs, now, limit, out)
    {
      var due: seq<Run> := [];
      var todo := runs.Keys;
      while todo != {}
        invariant todo <= runs.Keys
        invariant Distinct(due)
        invariant forall r :: r in due <==> r.id in runs && r.id !in todo && runs[r.id] == r && Due(r, now)
        decreases todo
      {
        var id :| id in todo;
        if Due(runs[id], now) {
          due := due + [runs[id]];
        }
        todo := todo - {id};
      }
      var full := SortSlice(due, CreatedBefore);
      SameElements(due, full);
      assert AllDue(runs, now, full);
      out := full;
      if limit > 0 && |out| > limit {
        out := out[..limit];
      }
    }
  }
}
