/**
  Published flow versions and their approval (internal/appdb/automation_memory.go).
  A version is written once and decided once.
 */
module FlowVersions {
  import opened Common

  // ----- keys -------------------------------------------------------------------

  /** strconv.Itoa. */
  function Digits(n: nat): (s: string) {
    var last := [(48 + n % 10) as char];
    if n < 10 then last else Digits(n / 10) + last
  }

  function Itoa(v: int): string {
    if v < 0 then "-" + Digits(-v) else Digits(v)
  }

  function VersionKey(flowId: string, version: int): string {
    flowId + "#" + Itoa(version)
  }

  function ReadDigits(s: string): int
    decreases |s|
  {
    if s == [] then 0 else 10 * ReadDigits(s[..|s| - 1]) + (s[|s| - 1] as int - 48)
  }

  lemma {:induction false} DigitsReadBack(n: nat)
    ensures ReadDigits(Digits(n)) == n
    ensures |Digits(n)| > 0
    ensures forall i :: 0 <= i < |Digits(n)| ==> '0' <= Digits(n)[i] <= '9'
  {
    var s := Digits(n);
    if n < 10 {
      assert s[..|s| - 1] == [];
    } else {
      DigitsReadBack(n / 10);
      assert s[..|s| - 1] == Digits(n / 10);
    }
  }

  lemma ItoaInjective(v: int, w: int)
    ensures Itoa(v) == Itoa(w) ==> v == w
    ensures forall i :: 0 <= i < |Itoa(v)| ==> Itoa(v)[i] != '#'
  {
    DigitsReadBack(if v < 0 then -v else v);
    DigitsReadBack(if w < 0 then -w else w);
    assert v < 0 ==> Itoa(v)[0] == '-' && Itoa(v)[1..] == Digits(-v);
    assert w < 0 ==> Itoa(w)[0] == '-' && Itoa(w)[1..] == Digits(-w);
  }

  /** No two (flow, version) pairs share a key, whatever characters the flow id holds. */
  lemma VersionKeyInjective(f: string, v: int, g: string, w: int)
    ensures VersionKey(f, v) == VersionKey(g, w) ==> f == g && v == w
  {
    var k, l := VersionKey(f, v), VersionKey(g, w);
    ItoaInjective(v, w);
    ItoaInjective(w, v);
    assert k[|f|] == '#' && l[|g|] == '#';
    forall j | |f| < j < |k| ensures k[j] != '#' {
      assert k[j] == Itoa(v)[j - |f| - 1];
    }
    forall j | |g| < j < |l| ensures l[j] != '#' {
      assert l[j] == Itoa(w)[j - |g| - 1];
    }
    if k == l {
      assert |f| == |g|;
      assert f == k[..|f|] && g == l[..|g|];
      assert Itoa(v) == k[|f| + 1..] && Itoa(w) == l[|g| + 1..];
    }
  }

  // ----- records ------------------------------------------------------------------

  const PENDING := "pending"
  const APPROVED := "approved"

  datatype Flow = Flow(id: string, clusterId: string, name: string)

  /** What a version is published with; JSON is opaque. */
  datatype Content = Content(
    definition: string, hash: string, publishedBy: string, note: string,
    needsApproval: bool, protectedSteps: string, exempt: bool, requestedById: string)

  datatype Version = Version(
    flowId: string, clusterId: string, version: int, content: Content,
    status: string, decidedBy: string, decidedAt: Option<Time>, decisionNote: string, createdAt: Time)

  datatype Decision = Decision(status: string, decidedBy: string, decidedAt: Time, note: string)

  datatype Store = Store(flows: map<string, Flow>, versions: map<string, Version>)

  ghost predicate Keyed(s: Store) {
    forall k :: k in s.versions ==> k == VersionKey(s.versions[k].flowId, s.versions[k].version)
  }

  function Decided(v: Version, d: Decision): Version {
    v.(status := d.status, decidedBy := d.decidedBy, decidedAt := Some(d.decidedAt), decisionNote := d.note)
  }

  // ----- the effect of each operation ----------------------------------------------

  function CreateVersion(s: Store, v: Version, now: Time): (Store, bool) {
    var key := VersionKey(v.flowId, v.version);
    if key in s.versions then (s, false)
    else
      var created := if v.createdAt == ZERO_TIME then now else v.createdAt;
      var status := if v.status == "" then APPROVED else v.status;
      (s.(versions := s.versions[key := v.(createdAt := created, status := status)]), true)
  }

  function Decide(s: Store, cluster: string, flowId: string, version: int, d: Decision): (Store, bool) {
    var key := VersionKey(flowId, version);
    if key !in s.versions || s.versions[key].clusterId != cluster || s.versions[key].status != PENDING then (s, false)
    else (s.(versions := s.versions[key := Decided(s.versions[key], d)]), true)
  }

  function Without(versions: map<string, Version>, flowId: string): map<string, Version> {
    map k | k in versions && versions[k].flowId != flowId :: versions[k]
  }

  function DeleteFlow(s: Store, cluster: string, id: string): Store {
    if id !in s.flows || s.flows[id].clusterId != cluster then s
    else Store(s.flows - {id}, Without(s.versions, id))
  }

  // ----- what they mean, field by field ----------------------------------------------

  /** Every version but the one filed under `key` is as it was. */
  ghost predicate OtherVersionsSame(s: Store, s': Store, key: string) {
    && s'.flows == s.flows
    && forall k :: k != key ==>
         && (k in s'.versions <==> k in s.versions) && (k in s.versions ==> s'.versions[k] == s.versions[k])
  }

  /**
    A create stores the given record under its flow and version: approved when it
    names no status, with its own status otherwise, and with its own creation time
    unless that is zero.
   */
  lemma CreateExactly(s: Store, v: Version, now: Time)
    ensures var (s', ok) := CreateVersion(s, v, now);
            var key := VersionKey(v.flowId, v.version);
            && (ok <==> key !in s.versions) && (!ok ==> s' == s)
            && (ok ==>
                  && OtherVersionsSame(s, s', key) && key in s'.versions
                  && var w := s'.versions[key];
                     && w.(status := v.status, createdAt := v.createdAt) == v
                     && w.status == (if v.status == "" then "approved" else v.status)
                     && w.createdAt == (if v.createdAt == 0 then now else v.createdAt))
  {
  }

  /** A decision on a pending version of the cluster sets the four decision fields, and nothing else. */
  lemma DecideExactly(s: Store, cluster: string, flowId: string, version: int, d: Decision)
    ensures var (s', ok) := Decide(s, cluster, flowId, version, d);
            var key := VersionKey(flowId, version);
            && (ok <==> && key in s.versions && s.versions[key].clusterId == cluster
                        && s.versions[key].status == "pending")
            && (!ok ==> s' == s)
            && (ok ==>
                  && OtherVersionsSame(s, s', key) && key in s'.versions
                  && var was, w := s.versions[key], s'.versions[key];
                     && w.status == d.status && w.decidedBy == d.decidedBy
                     && w.decidedAt == Some(d.decidedAt) && w.decisionNote == d.note
                     && w.(status := was.status, decidedBy := was.decidedBy, decidedAt := was.decidedAt,
                           decisionNote := was.decisionNote) == was)
  {
  }

  class FlowMemory {
    var flows: map<string, Flow>
    var versions: map<string, Version>
    var webhooks: map<string, string>
    var schedules: map<string, string>

    ghost function Contents(): Store reads this { Store(flows, versions) }
    ghost predicate Valid() reads this { Keyed(Contents()) }

    constructor ()
      ensures Valid() && Contents() == Store(map[], map[]) && webhooks == map[] && schedules == map[]
    {
      flows, versions, webhooks, schedules := map[], map[], map[], map[];
    }

    method CreateAutomationFlowVersion(v: Version, now: Time) returns (ok: bool)
      requires Valid()
      modifies this`versions
      ensures Valid() && (Contents(), ok) == CreateVersion(old(Contents()), v, now)
    {
      var key := VersionKey(v.flowId, v.version);
      if key in versions {
        return false;
      }
      var c := v;
      if c.createdAt == ZERO_TIME {
        c := c.(createdAt := now);
      }
      if c.status == "" {
        c := c.(status := APPROVED);
      }
      versions := versions[key := c];
      return true;
    }

    /** ok is false for ErrNotPending. */
    method DecideAutomationFlowVersion(cluster: string, flowId: string, version: int, d: Decision) returns (ok: bool)
      requires Valid()
      modifies this`versions
      ensures Valid() && (Contents(), ok) == Decide(old(Contents()), cluster, flowId, version, d)
    {
      var key := VersionKey(flowId, version);
      if key !in versions {
        return false;
      }
      var v := versions[key];
      if v.clusterId != cluster || v.status != PENDING {
        return false;
      }
      v := v.(status := d.status, decidedBy := d.decidedBy, decidedAt := Some(d.decidedAt), decisionNote := d.note);
      versions := versions[key := v];
      return true;
    }

    method DeleteAutomationFlow(cluster: string, id: string)
      requires Valid()
      modifies this
      ensures Valid() && Contents() == DeleteFlow(old(Contents()), cluster, id)
      ensures var gone := id in old(flows) && old(flows)[id].clusterId == cluster;
              && webhooks == (if gone then old(webhooks) - {id} else old(webhooks))
              && schedules == (if gone then old(schedules) - {id} else old(schedules))
    {
      if id !in flows || flows[id].clusterId != cluster {
        return;
      }
      flows := flows - {id};
      webhooks := webhooks - {id};
      schedules := schedules - {id};
      var left := PurgeVersions(versions, id);
      versions := left;
    }
  }

  /** Deleting map entries while ranging over the map. */
  method PurgeVersions(versions: map<string, Version>, flowId: string) returns (left: map<string, Version>)
    ensures left == Without(versions, flowId)
  {
    left := Purge(versions, (v: Version) => v.flowId != flowId);
  }

  // ----- whole runs --------------------------------------------------------------------

  datatype Op =
    | OpCreate(v: Version, now: Time)
    | OpDecide(cluster: string, flowId: string, version: int, d: Decision)
    | OpDelete(clusterId: string, id: string)
    | OpFlow(flow: Flow)

  /** Writing a flow record leaves the versions alone. */
  function Apply(s: Store, op: Op): Store {
    match op
    case OpCreate(v, now) => CreateVersion(s, v, now).0
    case OpDecide(c, f, n, d) => Decide(s, c, f, n, d).0
    case OpDelete(c, id) => DeleteFlow(s, c, id)
    case OpFlow(f) => s.(flows := s.flows[f.id := f])
  }

  function Execute(s: Store, ops: seq<Op>): Store
    decreases |ops|
  {
    if ops == [] then s else Apply(Execute(s, ops[..|ops| - 1]), ops[|ops| - 1])
  }

  predicate Deletes(op: Op, flowId: string) { op.OpDelete? && op.id == flowId }

  /** A decision on this version that does not leave it pending. */
  predicate Settles(op: Op, v: Version) {
    && op.OpDecide? && op.cluster == v.clusterId && op.flowId == v.flowId && op.version == v.version
    && op.d.status != PENDING
  }

  ghost predicate Keeps(ops: seq<Op>, flowId: string) {
    forall i :: 0 <= i < |ops| ==> !Deletes(ops[i], flowId)
  }

  ghost predicate Settled(ops: seq<Op>, v: Version) {
    exists i :: 0 <= i < |ops| && Settles(ops[i], v)
  }

  function KeyOf(v: Version): string { VersionKey(v.flowId, v.version) }

  /** Same version, same content; only the decision may differ. */
  predicate SameContent(v: Version, w: Version) {
    v.flowId == w.flowId && v.clusterId == w.clusterId && v.version == w.version
    && v.content == w.content && v.createdAt == w.createdAt
  }

  /** The version in a state, with what any run must have kept of it. */
  ghost predicate Frozen(s: Store, v: Version) {
    KeyOf(v) in s.versions && SameContent(v, s.versions[KeyOf(v)])
  }

  lemma ApplyKeepsKeyed(s: Store, op: Op)
    requires Keyed(s)
    ensures Keyed(Apply(s, op))
  {
  }

  lemma ApplyToVersion(s: Store, op: Op, v: Version)
    requires Keyed(s) && Frozen(s, v) && !Deletes(op, v.flowId)
    ensures Frozen(Apply(s, op), v)
    ensures var before, after := s.versions[KeyOf(v)], Apply(s, op).versions[KeyOf(v)];
            && (before.status != PENDING ==> after == before)
            && (before.status == PENDING && Settles(op, v) ==> after == Decided(before, op.d))
            && (before.status == PENDING && !Settles(op, v) ==> after.status == PENDING)
  {
    if op.OpDecide? {
      VersionKeyInjective(op.flowId, op.version, v.flowId, v.version);
    }
  }

  /**
    While its flow is not deleted, a pending version keeps its content; it is
    pending exactly until the first settling decision and carries that decision
    from then on.
   */
  lemma {:induction false} VersionRun(s: Store, ops: seq<Op>, v: Version)
    requires Keyed(s) && Keeps(ops, v.flowId)
    requires KeyOf(v) in s.versions && s.versions[KeyOf(v)] == v
    ensures Keyed(Execute(s, ops)) && Frozen(Execute(s, ops), v)
    ensures var w := Execute(s, ops).versions[KeyOf(v)];
            && (v.status != PENDING ==> w == v)
            && (v.status == PENDING ==> (w.status == PENDING <==> !Settled(ops, v)))
    decreases |ops|
  {
    if ops != [] {
      var init, last := ops[..|ops| - 1], ops[|ops| - 1];
      assert ops == init + [last];
      VersionRun(s, init, v);
      var t := Execute(s, init);
      ApplyKeepsKeyed(t, last);
      ApplyToVersion(t, last, v);
      assert Settled(ops, v) <==> Settled(init, v) || Settles(last, v) by {
        if Settled(init, v) {
          var i :| 0 <= i < |init| && Settles(init[i], v);
          assert Settles(ops[i], v);
        }
        if Settles(last, v) {
          assert Settles(ops[|ops| - 1], v);
        }
      }
    }
  }

  /** Of any number of settling decisions on a pending version exactly the first succeeds. */
  lemma FirstDecisionWins(s: Store, ops: seq<Op>, v: Version, i: nat)
    requires Keyed(s) && Keeps(ops, v.flowId)
    requires KeyOf(v) in s.versions && s.versions[KeyOf(v)] == v && v.status == PENDING
    requires i < |ops| && Settles(ops[i], v)
    ensures Decide(Execute(s, ops[..i]), ops[i].cluster, ops[i].flowId, ops[i].version, ops[i].d).1
            <==> !Settled(ops[..i], v)
  {
    VersionRun(s, ops[..i], v);
  }

  /** Version v is stored with its definition and hash, decided by d. */
  ghost predicate Carries(s: Store, v: Version, d: Decision) {
    && Frozen(s, v)
    && s.versions[KeyOf(v)].status == d.status
    && s.versions[KeyOf(v)].decidedBy == d.decidedBy
    && s.versions[KeyOf(v)].decidedAt == Some(d.decidedAt)
    && s.versions[KeyOf(v)].decisionNote == d.note
  }

  lemma DecisionLands(t: Store, op: Op, v: Version)
    requires Keyed(t) && Frozen(t, v) && t.versions[KeyOf(v)].status == PENDING && Settles(op, v)
    ensures Carries(Apply(t, op), v, op.d)
  {
    ApplyToVersion(t, op, v);
  }

  lemma DecisionSticks(t: Store, op: Op, v: Version, d: Decision)
    requires Keyed(t) && Carries(t, v, d) && d.status != PENDING && !Deletes(op, v.flowId)
    ensures Carries(Apply(t, op), v, d)
  {
    ApplyToVersion(t, op, v);
  }

  /** The first settling decision is the one the version carries at the end of every run. */
  lemma {:induction false} FirstDecisionStays(s: Store, ops: seq<Op>, v: Version, i: nat)
    requires Keyed(s) && Keeps(ops, v.flowId)
    requires KeyOf(v) in s.versions && s.versions[KeyOf(v)] == v && v.status == PENDING
    requires i < |ops| && Settles(ops[i], v) && !Settled(ops[..i], v)
    ensures Carries(Execute(s, ops), v, ops[i].d)
    decreases |ops|
  {
    var init, last := ops[..|ops| - 1], ops[|ops| - 1];
    VersionRun(s, init, v);
    if i < |init| {
      assert init[..i] == ops[..i];
      FirstDecisionStays(s, init, v, i);
      DecisionSticks(Execute(s, init), last, v, ops[i].d);
    } else {
      assert init == ops[..i];
      DecisionLands(Execute(s, init), last, v);
    }
  }

  /**
    A version submitted as pending: in every run from its create that keeps the
    flow, it is pending until the first settling decision, that decision succeeds,
    and every later one is refused.
   */
  lemma SubmittedForApproval(s: Store, v: Version, now: Time, ops: seq<Op>, i: nat)
    requires Keyed(s) && VersionKey(v.flowId, v.version) !in s.versions && v.status == "pending"
    requires Keeps(ops, v.flowId) && i <= |ops|
    ensures var s' := CreateVersion(s, v, now).0;
            var key := VersionKey(v.flowId, v.version);
            var t := Execute(s', ops[..i]);
            && key in t.versions && t.versions[key].content == v.content
            && (t.versions[key].status == "pending" <==>
                  forall j :: 0 <= j < i ==> !Settles(ops[j], v))
            && (i < |ops| && Settles(ops[i], v) ==>
                  (Decide(t, v.clusterId, v.flowId, v.version, ops[i].d).1 <==>
                     forall j :: 0 <= j < i ==> !Settles(ops[j], v)))
  {
    CreateExactly(s, v, now);
    var s', key := CreateVersion(s, v, now).0, VersionKey(v.flowId, v.version);
    var w := s'.versions[key];
    assert forall op: Op :: Settles(op, w) <==> Settles(op, v);
    VersionRun(s', ops[..i], w);
    assert Settled(ops[..i], w) <==> exists j :: 0 <= j < i && Settles(ops[j], v) by {
      if j :| 0 <= j < i && Settles(ops[j], v) {
        assert Settles(ops[..i][j], w);
      }
    }
    if i < |ops| && Settles(ops[i], v) { FirstDecisionWins(s', ops, w, i); }
  }

  /** A flow that is not there, or in another cluster, is not deleted. */
  lemma DeleteMisses(s: Store, cluster: string, id: string)
    requires id in s.flows ==> s.flows[id].clusterId != cluster
    ensures DeleteFlow(s, cluster, id) == s
  {
  }

  /** Deleting a flow removes its versions and no others, by any key a caller could look up. */
  lemma DeleteIsExact(s: Store, cluster: string, id: string, f: string, n: int)
    requires Keyed(s) && id in s.flows && s.flows[id].clusterId == cluster
    ensures var t := DeleteFlow(s, cluster, id);
            && t.flows == s.flows - {id}
            && (VersionKey(f, n) in t.versions <==> VersionKey(f, n) in s.versions && f != id)
            && (VersionKey(f, n) in t.versions ==> t.versions[VersionKey(f, n)] == s.versions[VersionKey(f, n)])
  {
    if VersionKey(f, n) in s.versions {
      var v := s.versions[VersionKey(f, n)];
      VersionKeyInjective(f, n, v.flowId, v.version);
    }
  }
}
