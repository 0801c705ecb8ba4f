/**
  The Postgres statement of the same protocol (internal/appdb/automation_postgres.go).
  Conditions are evaluated in SQL's three-valued logic; a row is affected only
  when its WHERE clause is true.
 */
module RunSql {
  import opened Common
  import opened RunStore
  import opened LeaseProtocol

  // ----- three-valued logic ---------------------------------------------------

  datatype Truth = True | False | Unknown

  function Lift(b: bool): Truth { if b then True else False }

  function And(a: Truth, b: Truth): Truth {
    if a.False? || b.False? then False else if a.True? && b.True? then True else Unknown
  }

  function Or(a: Truth, b: Truth): Truth {
    if a.True? || b.True? then True else if a.False? && b.False? then False else Unknown
  }

  /** `column <= $n` for a nullable column. */
  function AtMost(column: Option<Time>, t: Time): Truth {
    match column
    case None => Unknown
    case Some(v) => Lift(v <= t)
  }

  function IsNull(column: Option<Time>): Truth { Lift(column.None?) }
  function IsNotNull(column: Option<Time>): Truth { Lift(column.Some?) }

  // ----- the columns ------------------------------------------------------------

  /** autoJSON: an empty or malformed document is stored as an empty object.  `valid` is json.Valid. */
  function AutoJson(raw: string, valid: string -> bool): string {
    if raw == "" || !valid(raw) then "{}" else raw
  }

  function OriginColumns(o: Origin, valid: string -> bool): Origin {
    o.(triggerPayload := AutoJson(o.triggerPayload, valid), definition := AutoJson(o.definition, valid))
  }

  /** The row that holds run r. */
  function Columns(r: Run, valid: string -> bool): Run {
    r.(origin := OriginColumns(r.origin, valid), inputs := AutoJson(r.inputs, valid),
       state := AutoJson(r.state, valid), report := AutoJson(r.report, valid))
  }

  /** The table that holds the same runs as the in-memory map. */
  function Table(runs: Runs, valid: string -> bool): Runs {
    map id | id in runs :: Columns(runs[id], valid)
  }

  // ----- the statements -----------------------------------------------------------

  /** INSERT names no lease column, so both take their defaults. */
  function Inserted(r: Run, created: Time, now: Time, valid: string -> bool): Run {
    Columns(r, valid).(leaseOwner := "", leaseUntil := None, createdAt := created, updatedAt := now)
  }

  function SqlCreate(rows: Runs, r: Run, now: Time, valid: string -> bool): (Runs, bool) {
    if r.id in rows then (rows, false)
    else
      var created := if r.createdAt == ZERO_TIME then now else r.createdAt;
      (rows[r.id := Inserted(r, created, now, valid)], true)
  }

  /** UPDATE sets only the columns it names, to those of c. */
  function SetColumns(row: Run, c: Run, now: Time): Run {
    row.(status := c.status, state := c.state, report := c.report, error := c.error,
         wakeAt := c.wakeAt, startedAt := c.startedAt, finishedAt := c.finishedAt,
         inputs := c.inputs, updatedAt := now)
  }

  function SqlUpdate(rows: Runs, r: Run, now: Time, valid: string -> bool): Runs {
    if r.id in rows && rows[r.id].clusterId == r.clusterId then
      rows[r.id := SetColumns(rows[r.id], Columns(r, valid), now)]
    else rows
  }

  function ClaimWhere(row: Run, owner: string, now: Time): Truth {
    Or(Lift(row.leaseOwner == ""),
    Or(Lift(row.leaseOwner == owner),
    Or(IsNull(row.leaseUntil), AtMost(row.leaseUntil, now))))
  }

  function SqlClaim(rows: Runs, cluster: string, id: string, owner: string, now: Time, until: Time): (Runs, bool) {
    if id in rows && rows[id].clusterId == cluster && ClaimWhere(rows[id], owner, now).True? then
      (rows[id := LeasedTo(rows[id], owner, until)], true)
    else (rows, false)
  }

  function SqlRelease(rows: Runs, cluster: string, id: string, owner: string): Runs {
    if id in rows && rows[id].clusterId == cluster && rows[id].leaseOwner == owner then
      rows[id := rows[id].(leaseOwner := "", leaseUntil := None)]
    else rows
  }

  function DueWhere(row: Run, now: Time): Truth {
    And(Lift(row.status in {PENDING, RUNNING, WAITING}),
    And(Or(IsNull(row.leaseUntil), AtMost(row.leaseUntil, now)),
        Or(Lift(row.status != WAITING), And(IsNotNull(row.wakeAt), AtMost(row.wakeAt, now)))))
  }

  /** Rows with the same created_at come in any order. */
  ghost predicate AllDueRows(rows: Runs, now: Time, s: seq<Run>) {
    && Distinct(s)
    && (forall r :: r in s <==> r.id in rows && rows[r.id] == r && DueWhere(r, now).True?)
    && Ordered(CreatedBefore, s)
  }

  ghost predicate IsSqlListing(rows: Runs, now: Time, limit: int, out: seq<Run>) {
    var n := if limit <= 0 then 32 else limit;
    exists full :: AllDueRows(rows, now, full) && out == Limited(full, n)
  }

  // ----- the table as an object -----------------------------------------------------

  /** cluster_id=$1 AND id=$2. */
  function RowIs(row: Run, cluster: string, id: string): Truth {
    And(Lift(row.clusterId == cluster), Lift(row.id == id))
  }

  /** The ids of the rows a WHERE clause selects. */
  function Selected<R>(rows: map<string, R>, where: R -> Truth): set<string> {
    set id | id in rows && where(rows[id]).True?
  }

  function Assigned<R>(row: R, where: R -> Truth, assign: R -> R): R {
    if where(row).True? then assign(row) else row
  }

  /** UPDATE ... SET ... WHERE ..., row by row; n is RowsAffected. */
  method ExecUpdate<R>(rows: map<string, R>, where: R -> Truth, assign: R -> R) returns (result: map<string, R>, n: nat)
    ensures result.Keys == rows.Keys
    ensures forall id :: id in rows ==> result[id] == Assigned(rows[id], where, assign)
    ensures n == |Selected(rows, where)|
  {
    result, n := map[], 0;
    var todo := rows.Keys;
    ghost var hit := {};
    while todo != {}
      invariant todo <= rows.Keys && result.Keys == rows.Keys - todo
      invariant forall id :: id in result ==> result[id] == Assigned(rows[id], where, assign)
      invariant forall id :: id in hit <==> id in result && where(rows[id]).True?
      invariant n == |hit|
      decreases todo
    {
      var id :| id in todo;
      todo := todo - {id};
      if where(rows[id]).True? {
        result := result[id := assign(rows[id])];
        hit := hit + {id};
        n := n + 1;
      } else {
        result := result[id := rows[id]];
      }
    }
    assert hit == Selected(rows, where);
  }

  /** A WHERE clause that only the row `id` can satisfy updates that row at most. */
  lemma OneRow<R>(rows: map<string, R>, result: map<string, R>, where: R -> Truth, assign: R -> R, id: string)
    requires forall i :: i in rows && i != id ==> !where(rows[i]).True?
    requires result.Keys == rows.Keys && forall i :: i in rows ==> result[i] == Assigned(rows[i], where, assign)
    ensures var hit := id in rows && where(rows[id]).True?;
            && |Selected(rows, where)| == (if hit then 1 else 0)
            && result == (if hit then rows[id := assign(rows[id])] else rows)
  {
    if id in rows && where(rows[id]).True? {
      assert Selected(rows, where) == {id};
      assert result == rows[id := assign(rows[id])];
    } else {
      assert Selected(rows, where) == {};
      assert result == rows;
    }
  }

  /** The claim took the lease when its UPDATE affected one row. */
  method ExecClaim(rows: Runs, cluster: string, id: string, owner: string, now: Time, until: Time)
      returns (result: Runs, ok: bool)
    requires Keyed(rows)
    ensures (result, ok) == SqlClaim(rows, cluster, id, owner, now, until)
  {
    var where := (row: Run) => And(RowIs(row, cluster, id), ClaimWhere(row, owner, now));
    var assign := (row: Run) => LeasedTo(row, owner, until);
    var n;
    result, n := ExecUpdate(rows, where, assign);
    ok := n == 1;
    OneRow(rows, result, where, assign, id);
  }

  /** SELECT ... WHERE ... ORDER BY created_at. */
  method SelectDue(rows: Runs, now: Time) returns (out: seq<Run>)
    requires Keyed(rows)
    ensures AllDueRows(rows, now, out)
  {
    var due: seq<Run> := [];
    var todo := rows.Keys;
    while todo != {}
      invariant todo <= rows.Keys
      invariant Distinct(due)
      invariant forall r :: r in due <==> r.id in rows && r.id !in todo && rows[r.id] == r && DueWhere(r, now).True?
      decreases todo
    {
      var id :| id in todo;
      if DueWhere(rows[id], now).True? {
        due := due + [rows[id]];
      }
      todo := todo - {id};
    }
    out := SortSlice(due, CreatedBefore);
    SameElements(due, out);
  }

  class Postgres {
    var rows: Runs

    ghost predicate Valid() reads this { Keyed(rows) }

    constructor ()
      ensures Valid() && rows == map[]
    {
      rows := map[];
    }

    method CreateAutomationRun(r: Run, now: Time, valid: string -> bool) returns (ok: bool)
      requires Valid()
      modifies this
      ensures Valid()
      ensures (rows, ok) == SqlCreate(old(rows), r, now, valid)
    {
      if r.id in rows {
        return false;
      }
      var created := r.createdAt;
      if created == ZERO_TIME {
        created := now;
      }
      rows := rows[r.id := Inserted(r, created, now, valid)];
      return true;
    }

    method UpdateAutomationRun(r: Run, now: Time, valid: string -> bool)
      requires Valid()
      modifies this
      ensures Valid()
      ensures rows == SqlUpdate(old(rows), r, now, valid)
    {
      var c := Columns(r, valid);
      var where := (row: Run) => RowIs(row, r.clusterId, r.id);
      var assign := (row: Run) => SetColumns(row, c, now);
      var rows', _ := ExecUpdate(rows, where, assign);
      OneRow(rows, rows', where, assign, r.id);
      rows := rows';
    }

    method ClaimAutomationRun(cluster: string, id: string, owner: string, now: Time, until: Time) returns (ok: bool)
      requires Valid()
      modifies this
      ensures Valid()
      ensures (rows, ok) == SqlClaim(old(rows), cluster, id, owner, now, until)
    {
      rows, ok := ExecClaim(rows, cluster, id, owner, now, until);
    }

    method ListDueAutomationRuns(now: Time, limit: int) returns (out: seq<Run>)
      requires Valid()
      ensures IsSqlListing(rows, now, limit, out)
    {
      var n := limit;
      if n <= 0 {
        n := 32;
      }
      var full := SelectDue(rows, now);
      out := if |full| > n then full[..n] else full;
    }

    method ReleaseAutomationRun(cluster: string, id: string, owner: string)
      requires Valid()
      modifies this
      ensures Valid()
      ensures rows == SqlRelease(old(rows), cluster, id, owner)
    {
      var where := (row: Run) => And(RowIs(row, cluster, id), Lift(row.leaseOwner == owner));
      var assign := (row: Run) => row.(leaseOwner := "", leaseUntil := None);
      var rows', _ := ExecUpdate(rows, where, assign);
      OneRow(rows, rows', where, assign, id);
      rows := rows';
    }
  }

  // ----- what the statements mean, column by column -----------------------------------

  /** The INSERT stores the given run without a lease, documents made valid and times filled in. */
  lemma SqlCreateExactly(rows: Runs, r: Run, now: Time, valid: string -> bool)
    ensures var (rows', ok) := SqlCreate(rows, r, now, valid);
            && (ok <==> r.id !in rows) && (!ok ==> rows' == rows)
            && (ok ==>
                  var row := rows'[r.id];
                  && rows'.Keys == rows.Keys + {r.id} && (forall i :: i in rows ==> rows'[i] == rows[i])
                  && row.leaseOwner == "" && row.leaseUntil == None && row.updatedAt == now
                  && row.createdAt == (if r.createdAt == 0 then now else r.createdAt)
                  && row.status == r.status && row.wakeAt == r.wakeAt && row.startedAt == r.startedAt
                  && row.finishedAt == r.finishedAt && row.error == r.error && row.clusterId == r.clusterId
                  && row.origin.(triggerPayload := r.origin.triggerPayload, definition := r.origin.definition)
                     == r.origin
                  && row.state == (if valid(r.state) && r.state != "" then r.state else "{}")
                  && row.report == (if valid(r.report) && r.report != "" then r.report else "{}")
                  && row.inputs == (if valid(r.inputs) && r.inputs != "" then r.inputs else "{}"))
  {
  }

  /** Which rows the SELECT returns: unfinished, not under an unexpired lease, and awake; null never compares. */
  lemma SelectedExactly(row: Run, now: Time)
    ensures DueWhere(row, now).True? <==>
              && (row.status == "pending" || row.status == "running" || row.status == "waiting")
              && (row.leaseUntil.Some? ==> row.leaseUntil.value <= now)
              && (row.status == "waiting" ==> row.wakeAt.Some? && row.wakeAt.value <= now)
  {
  }

  /** The UPDATE of the matching row sets the columns of progress and leaves lease, origin and creation alone. */
  lemma SqlUpdateExactly(rows: Runs, r: Run, now: Time, valid: string -> bool)
    ensures var rows' := SqlUpdate(rows, r, now, valid);
            if r.id in rows && rows[r.id].clusterId == r.clusterId then
              var was, row := rows[r.id], rows'[r.id];
              && OthersSame(rows, rows', r.id) && row.updatedAt == now
              && row.leaseOwner == was.leaseOwner && row.leaseUntil == was.leaseUntil
              && row.origin == was.origin && row.createdAt == was.createdAt
              && row.id == was.id && row.clusterId == was.clusterId
              && row.status == r.status && row.error == r.error && row.wakeAt == r.wakeAt
              && row.startedAt == r.startedAt && row.finishedAt == r.finishedAt
              && row.state == (if valid(r.state) && r.state != "" then r.state else "{}")
              && row.report == (if valid(r.report) && r.report != "" then r.report else "{}")
              && row.inputs == (if valid(r.inputs) && r.inputs != "" then r.inputs else "{}")
            else rows' == rows
  {
  }

  /** The claim of a row: the two lease columns, and nothing else anywhere. */
  lemma SqlClaimExactly(rows: Runs, cluster: string, id: string, owner: string, now: Time, until: Time)
    ensures var (rows', ok) := SqlClaim(rows, cluster, id, owner, now, until);
            && (ok <==> && id in rows && rows[id].clusterId == cluster
                        && (|| rows[id].leaseOwner == "" || rows[id].leaseOwner == owner
                            || rows[id].leaseUntil.None? || rows[id].leaseUntil.value <= now))
            && (!ok ==> rows' == rows)
            && (ok ==>
                  var was, row := rows[id], rows'[id];
                  && OthersSame(rows, rows', id) && row.leaseOwner == owner && row.leaseUntil == Some(until)
                  && row.(leaseOwner := was.leaseOwner, leaseUntil := was.leaseUntil) == was)
  {
  }

  lemma SqlReleaseExactly(rows: Runs, cluster: string, id: string, owner: string)
    ensures var rows' := SqlRelease(rows, cluster, id, owner);
            if id in rows && rows[id].clusterId == cluster && rows[id].leaseOwner == owner then
              var was, row := rows[id], rows'[id];
              && OthersSame(rows, rows', id) && row.leaseOwner == "" && row.leaseUntil == None
              && row.(leaseOwner := was.leaseOwner, leaseUntil := was.leaseUntil) == was
            else rows' == rows
  {
  }

  /** A claimed row is selected again once its lease has run out. */
  lemma ClaimedRowIsDueAgain(rows: Runs, cluster: string, id: string, owner: string, now: Time, until: Time,
                             later: Time)
    requires SqlClaim(rows, cluster, id, owner, now, until).1 && DueWhere(rows[id], now).True?
    requires later >= now && later >= until
    ensures var rows' := SqlClaim(rows, cluster, id, owner, now, until).0;
            id in rows' && DueWhere(rows'[id], later).True?
  {
    SqlClaimExactly(rows, cluster, id, owner, now, until);
  }

  /** Selected are the oldest due rows, oldest first, 32 of them without a limit. */
  lemma SelectedOldestFirst(rows: Runs, now: Time, limit: int, out: seq<Run>, r: Run)
    requires IsSqlListing(rows, now, limit, out)
    ensures forall i, j :: 0 <= i < j < |out| ==> out[i].createdAt <= out[j].createdAt
    ensures |out| <= if limit > 0 then limit else 32
    ensures r.id in rows && rows[r.id] == r && DueWhere(r, now).True? && r !in out ==>
              && |out| == (if limit > 0 then limit else 32)
              && forall i :: 0 <= i < |out| ==> out[i].createdAt <= r.createdAt
  {
    var n := if limit <= 0 then 32 else limit;
    var full: seq<Run> :| AllDueRows(rows, now, full) && out == Limited(full, n);
    forall i, j | 0 <= i < j < |full| ensures full[i].createdAt <= full[j].createdAt {
      assert !CreatedBefore(full[j], full[i]);
    }
    if r in full && r !in out {
      var k :| 0 <= k < |full| && full[k] == r;
      assert k >= |out|;
    }
  }

  // ----- single steps commute -------------------------------------------------------

  lemma ClaimCommutes(runs: Runs, valid: string -> bool, cluster: string, id: string, owner: string, now: Time,
                      until: Time)
    ensures var (runs', ok) := ClaimRun(runs, cluster, id, owner, now, until);
            SqlClaim(Table(runs, valid), cluster, id, owner, now, until) == (Table(runs', valid), ok)
  {
    assert SqlClaim(Table(runs, valid), cluster, id, owner, now, until).0
        == Table(ClaimRun(runs, cluster, id, owner, now, until).0, valid);
  }

  lemma ReleaseCommutes(runs: Runs, valid: string -> bool, cluster: string, id: string, owner: string)
    ensures SqlRelease(Table(runs, valid), cluster, id, owner) == Table(ReleaseRun(runs, cluster, id, owner), valid)
  {
    assert SqlRelease(Table(runs, valid), cluster, id, owner) == Table(ReleaseRun(runs, cluster, id, owner), valid);
  }

  /** A create that the table stores as the map does. */
  predicate CreateFits(runs: Runs, r: Run) {
    r.id in runs || (r.leaseOwner == "" && r.leaseUntil.None?)
  }

  /** An update that changes no column the statement leaves out. */
  predicate UpdateFits(runs: Runs, r: Run, valid: string -> bool) {
    r.id in runs && runs[r.id].clusterId == r.clusterId ==>
      OriginColumns(r.origin, valid) == OriginColumns(runs[r.id].origin, valid)
  }

  /** The two creates agree exactly on runs without a lease. */
  lemma CreateCommutes(runs: Runs, valid: string -> bool, r: Run, now: Time)
    ensures SqlCreate(Table(runs, valid), r, now, valid).1 == CreateRun(runs, r, now).1
    ensures SqlCreate(Table(runs, valid), r, now, valid).0 == Table(CreateRun(runs, r, now).0, valid)
            <==> CreateFits(runs, r)
  {
    var a, b := SqlCreate(Table(runs, valid), r, now, valid).0, Table(CreateRun(runs, r, now).0, valid);
    assert a.Keys == b.Keys;
    if !CreateFits(runs, r) {
      assert a[r.id] != b[r.id];
    }
  }

  /** The two updates agree exactly when the fixed columns are left alone. */
  lemma UpdateCommutes(runs: Runs, valid: string -> bool, r: Run, now: Time)
    requires Keyed(runs)
    ensures SqlUpdate(Table(runs, valid), r, now, valid) == Table(UpdateRun(runs, r, now).0, valid)
            <==> UpdateFits(runs, r, valid)
  {
    var a, b := SqlUpdate(Table(runs, valid), r, now, valid), Table(UpdateRun(runs, r, now).0, valid);
    assert a.Keys == b.Keys;
    if !UpdateFits(runs, r, valid) {
      assert a[r.id] != b[r.id];
    }
  }

  // ----- whole runs -------------------------------------------------------------------

  function SqlNext(s: State, step: Step, valid: string -> bool): State {
    match step
    case Create(r) => s.(runs := SqlCreate(s.runs, r, s.clock, valid).0)
    case Update(r) => s.(runs := SqlUpdate(s.runs, r, s.clock, valid))
    case Claim(w, c, id, until) =>
      var (rows, ok) := SqlClaim(s.runs, c, id, w, s.clock, until);
      State(rows, s.clock, if ok then s.beliefs[(w, id) := until] else s.beliefs)
    case Release(w, c, id) =>
      State(SqlRelease(s.runs, c, id, w), s.clock, s.beliefs - {(w, id)})
    case Tick(d) => s.(clock := s.clock + d)
  }

  function SqlExecute(s: State, steps: seq<Step>, valid: string -> bool): State
    decreases |steps|
  {
    if steps == [] then s else SqlExecute(SqlNext(s, steps[0], valid), steps[1..], valid)
  }

  predicate StepFits(s: State, step: Step, valid: string -> bool) {
    && (step.Create? ==> CreateFits(s.runs, step.run))
    && (step.Update? ==> UpdateFits(s.runs, step.run, valid))
  }

  predicate RunFits(s: State, steps: seq<Step>, valid: string -> bool)
    decreases |steps|
  {
    steps == [] || (StepFits(s, steps[0], valid) && RunFits(Next(s, steps[0]), steps[1..], valid))
  }

  function OnTable(s: State, valid: string -> bool): State {
    s.(runs := Table(s.runs, valid))
  }

  lemma StepCommutes(s: State, step: Step, valid: string -> bool)
    requires Keyed(s.runs) && StepFits(s, step, valid)
    ensures Keyed(Next(s, step).runs)
    ensures SqlNext(OnTable(s, valid), step, valid) == OnTable(Next(s, step), valid)
  {
    match step
    case Create(r) => CreateCommutes(s.runs, valid, r, s.clock);
    case Update(r) => UpdateCommutes(s.runs, valid, r, s.clock);
    case Claim(w, c, id, until) => ClaimCommutes(s.runs, valid, c, id, w, s.clock, until);
    case Release(w, c, id) => ReleaseCommutes(s.runs, valid, c, id, w);
    case Tick(d) =>
  }

  /** The two stores stay equal, and so give every worker the same answers, over every run. */
  lemma {:induction false} StoresSimulate(s: State, steps: seq<Step>, valid: string -> bool)
    requires Keyed(s.runs) && RunFits(s, steps, valid)
    ensures SqlExecute(OnTable(s, valid), steps, valid) == OnTable(Execute(s, steps), valid)
    decreases |steps|
  {
    if steps != [] {
      StepCommutes(s, steps[0], valid);
      StoresSimulate(Next(s, steps[0]), steps[1..], valid);
    }
  }

  /** On the table no step needs to fit: the lease columns are only ever set by claim and release. */
  lemma SqlStepKeepsBeliefs(s: State, step: Step, valid: string -> bool)
    requires BeliefsStored(s)
    requires step.Claim? ==> step.worker != ""
    ensures BeliefsStored(SqlNext(s, step, valid))
  {
    var t := SqlNext(s, step, valid);
    forall w, id | Believes(t, w, id)
      ensures id in t.runs && w != "" && t.runs[id].leaseOwner == w && t.runs[id].leaseUntil == Some(t.beliefs[(w, id)])
    {
      if && step.Claim? && step.worker == w && step.id == id
         && SqlClaim(s.runs, step.cluster, id, w, s.clock, step.until).1 {
      } else {
        assert Believes(s, w, id);
      }
    }
  }

  lemma {:induction false} SqlRunKeepsBeliefs(s: State, steps: seq<Step>, owners: set<string>, valid: string -> bool)
    requires BeliefsStored(s) && OwnersIn(steps, owners) && "" !in owners
    ensures BeliefsStored(SqlExecute(s, steps, valid))
    decreases |steps|
  {
    if steps != [] {
      SqlStepKeepsBeliefs(s, steps[0], valid);
      SqlRunKeepsBeliefs(SqlNext(s, steps[0], valid), steps[1..], owners, valid);
    }
  }

  lemma SqlLeaseSafety(rows: Runs, clock: Time, steps: seq<Step>, owners: set<string>, valid: string -> bool)
    requires OwnersIn(steps, owners) && "" !in owners
    ensures MutualExclusion(SqlExecute(Start(rows, clock), steps, valid))
  {
    SqlRunKeepsBeliefs(Start(rows, clock), steps, owners, valid);
  }

  // ----- listings -----------------------------------------------------------------------

  /** No two due runs were created at the same instant. */
  ghost predicate DueTimesDistinct(runs: Runs, now: Time) {
    forall a, b :: a in runs && b in runs && a != b && Due(runs[a], now) && Due(runs[b], now) ==>
      runs[a].createdAt != runs[b].createdAt
  }

  function Rows(s: seq<Run>, valid: string -> bool): seq<Run> {
    seq(|s|, i requires 0 <= i < |s| => Columns(s[i], valid))
  }

  /** The WHERE clause selects the due runs, whatever is null. */
  lemma DueAgrees(r: Run, now: Time, valid: string -> bool)
    ensures DueWhere(Columns(r, valid), now).True? <==> Due(r, now)
  {
  }

  lemma AscendingDue(runs: Runs, now: Time, mem: seq<Run>)
    requires AllDue(runs, now, mem) && DueTimesDistinct(runs, now)
    ensures Ascending(CreatedBefore, mem)
  {
    forall i, j | 0 <= i < j < |mem| ensures CreatedBefore(mem[i], mem[j]) {
      assert mem[i] in mem && mem[j] in mem && mem[i] != mem[j];
      assert mem[i].id != mem[j].id;
    }
  }

  lemma AscendingDueRows(runs: Runs, now: Time, sql: seq<Run>, valid: string -> bool)
    requires Keyed(runs) && DueTimesDistinct(runs, now)
    requires AllDueRows(Table(runs, valid), now, sql)
    ensures Ascending(CreatedBefore, sql)
  {
    forall i, j | 0 <= i < j < |sql| ensures CreatedBefore(sql[i], sql[j]) {
      var r, q := sql[i], sql[j];
      assert r in sql && q in sql && r != q;
      DueAgrees(runs[r.id], now, valid);
      DueAgrees(runs[q.id], now, valid);
      assert !CreatedBefore(q, r);
    }
  }

  lemma SameDueRows(runs: Runs, now: Time, mem: seq<Run>, sql: seq<Run>, valid: string -> bool, r: Run)
    requires Keyed(runs)
    requires AllDue(runs, now, mem) && AllDueRows(Table(runs, valid), now, sql)
    ensures r in Rows(mem, valid) <==> r in sql
  {
    var rows := Rows(mem, valid);
    if r in rows {
      var i :| 0 <= i < |rows| && rows[i] == r;
      assert mem[i] in mem;
      DueAgrees(mem[i], now, valid);
    }
    if r in sql {
      var m := runs[r.id];
      DueAgrees(m, now, valid);
      assert m in mem;
      var i :| 0 <= i < |mem| && mem[i] == m;
      assert rows[i] == r;
    }
  }

  lemma FullListingsAgree(runs: Runs, now: Time, mem: seq<Run>, sql: seq<Run>, valid: string -> bool)
    requires Keyed(runs) && DueTimesDistinct(runs, now)
    requires AllDue(runs, now, mem) && AllDueRows(Table(runs, valid), now, sql)
    ensures sql == Rows(mem, valid)
  {
    AscendingDue(runs, now, mem);
    AscendingDueRows(runs, now, sql, valid);
    forall r ensures r in Rows(mem, valid) <==> r in sql {
      SameDueRows(runs, now, mem, sql, valid, r);
    }
    AscendingUnique(CreatedBefore, Rows(mem, valid), sql);
  }

  /**
    With distinct creation times the two stores list the same runs in the same
    order exactly when a limit is given or at most 32 runs are due: without a
    limit the table stops at 32 and the map does not.
   */
  lemma ListingsAgree(runs: Runs, now: Time, limit: int, mem: seq<Run>, sql: seq<Run>, full: seq<Run>,
                      valid: string -> bool)
    requires Keyed(runs) && DueTimesDistinct(runs, now)
    requires AllDue(runs, now, full)
    requires IsDueListing(runs, now, limit, mem) && IsSqlListing(Table(runs, valid), now, limit, sql)
    ensures sql == Rows(mem, valid) <==> limit > 0 || |full| <= 32
  {
    var n := if limit <= 0 then 32 else limit;
    var m :| AllDue(runs, now, m) && mem == Limited(m, limit);
    var s :| AllDueRows(Table(runs, valid), now, s) && sql == Limited(s, n);
    FullListingsAgree(runs, now, m, s, valid);
    FullListingsAgree(runs, now, full, s, valid);
    assert Rows(Limited(m, n), valid) == Limited(Rows(m, valid), n);
  }

  // ----- ties -----------------------------------------------------------------------------

  function Instant(r: Run): Time { r.createdAt }

  ghost predicate SameInstants(a: seq<Run>, b: seq<Run>) {
    |a| == |b| && forall i :: 0 <= i < |a| ==> a[i].createdAt == b[i].createdAt
  }

  lemma LimitedInstants(a: seq<Run>, b: seq<Run>, limit: int)
    requires SameInstants(a, b)
    ensures SameInstants(Limited(a, limit), Limited(b, limit))
  {
  }

  /** The rows of the due runs in memory are an enumeration of the due rows, in another order at most. */
  lemma RowsAreDueRows(runs: Runs, now: Time, mem: seq<Run>, sql: seq<Run>, valid: string -> bool)
    requires Keyed(runs) && AllDue(runs, now, mem) && AllDueRows(Table(runs, valid), now, sql)
    ensures multiset(Rows(mem, valid)) == multiset(sql)
  {
    forall r ensures r in Rows(mem, valid) <==> r in sql {
      SameDueRows(runs, now, mem, sql, valid, r);
    }
    forall i, j | 0 <= i < j < |mem| ensures Rows(mem, valid)[i] != Rows(mem, valid)[j] {
      assert mem[i] in mem && mem[j] in mem && mem[i] != mem[j];
    }
    DistinctSameElements(Rows(mem, valid), sql);
  }

  lemma DueInstantsAgree(runs: Runs, now: Time, mem: seq<Run>, sql: seq<Run>, valid: string -> bool)
    requires Keyed(runs) && AllDue(runs, now, mem) && AllDueRows(Table(runs, valid), now, sql)
    ensures SameInstants(mem, sql)
  {
    var rows := Rows(mem, valid);
    RowsAreDueRows(runs, now, mem, sql, valid);
    forall i, j | 0 <= i < j < |mem| ensures Instant(rows[i]) <= Instant(rows[j]) {
      assert !CreatedBefore(mem[j], mem[i]);
    }
    forall i, j | 0 <= i < j < |sql| ensures Instant(sql[i]) <= Instant(sql[j]) {
      assert !CreatedBefore(sql[j], sql[i]);
    }
    SameKeys(Instant, rows, sql);
    forall i | 0 <= i < |mem| ensures sql[i].createdAt == mem[i].createdAt {
      assert Instant(rows[i]) == Instant(sql[i]);
    }
  }

  /**
    Whatever runs were created at the same instant: under a limit the listings
    have the same length and show the same instants in the same places.
   */
  lemma ListingsAgreeOnInstants(runs: Runs, now: Time, limit: int, mem: seq<Run>, sql: seq<Run>, valid: string -> bool)
    requires Keyed(runs) && limit > 0
    requires IsDueListing(runs, now, limit, mem) && IsSqlListing(Table(runs, valid), now, limit, sql)
    ensures SameInstants(mem, sql)
  {
    var m :| AllDue(runs, now, m) && mem == Limited(m, limit);
    var s :| AllDueRows(Table(runs, valid), now, s) && sql == Limited(s, limit);
    DueInstantsAgree(runs, now, m, s, valid);
    LimitedInstants(m, s, limit);
  }
}
