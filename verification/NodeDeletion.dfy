/**
  Deleting a node (internal/appdb/node_delete.go): every record that only
  existed for it goes, history loses the reference, nothing else changes.
 */
module NodeDeletion {
  import opened Common

  datatype Node = Node(id: string, clusterId: string)
  datatype Workload = Workload(nodeId: string, ownerNodeId: string, desiredNodeId: string)

  /** A record placed on one node. */
  datatype Placed = Placed(nodeId: string, record: string)
  datatype MigrateJob = MigrateJob(source: string, dest: string, record: string)

  datatype Tables = Tables(
    nodes: map<string, Node>, workloads: map<string, Workload>,
    inventory: map<string, string>, maintenance: map<string, string>,
    observations: seq<Placed>, operations: seq<Placed>, events: seq<Placed>,
    volumes: map<string, Placed>, library: map<string, Placed>, pools: map<string, Placed>,
    networks: map<string, Placed>,
    rollingSteps: map<string, Placed>, osds: map<string, Placed>, migrateJobs: map<string, MigrateJob>,
    groups: map<string, seq<string>>)

  datatype Outcome = Deleted | NotFound | HasWorkloads(count: nat)

  predicate Uses(w: Workload, id: string) { w.nodeId == id || w.ownerNodeId == id || w.desiredNodeId == id }

  function Users(t: Tables, id: string): set<string> { set k | k in t.workloads && Uses(t.workloads[k], id) }

  // ----- the shapes of the loops -----------------------------------------------------------

  /** `kept := s[:0]` and appending to it: the elements move down in the same storage. */
  method Compact<T>(s: seq<T>, keep: T -> bool) returns (out: seq<T>)
    ensures out == Filter(s, keep)
  {
    var buf := s;
    var n := 0;
    for i := 0 to |s|
      invariant 0 <= n <= i && |buf| == |s|
      invariant buf[..n] == Filter(s[..i], keep)
      invariant buf[i..] == s[i..]
    {
      var x := buf[i];
      assert x == s[i] by { assert buf[i..][0] == s[i..][0]; }
      FilterConcat(s[..i], [x], keep);
      assert s[..i + 1] == s[..i] + [x];
      assert buf[i + 1..] == buf[i..][1..] == s[i..][1..] == s[i + 1..];
      if keep(x) {
        buf := buf[n := x];
        n := n + 1;
      }
    }
    assert s[..|s|] == s;
    out := buf[..n];
  }

  function Unlinked(p: Placed, id: string): Placed { if p.nodeId == id then p.(nodeId := "") else p }

  function UnlinkAll(s: seq<Placed>, id: string): seq<Placed> {
    seq(|s|, i requires 0 <= i < |s| => Unlinked(s[i], id))
  }

  method Unlink(s: seq<Placed>, id: string) returns (out: seq<Placed>)
    ensures out == UnlinkAll(s, id)
  {
    out := s;
    for i := 0 to |s|
      invariant |out| == |s|
      invariant forall j :: 0 <= j < |s| ==> out[j] == if j < i then Unlinked(s[j], id) else s[j]
    {
      if out[i].nodeId == id {
        out := out[i := out[i].(nodeId := "")];
      }
    }
  }

  function Elsewhere(s: seq<Placed>, id: string): seq<Placed> { Filter(s, (p: Placed) => p.nodeId != id) }
  function Others(members: seq<string>, id: string): seq<string> { Filter(members, (m: string) => m != id) }

  method LeaveGroups(groups: map<string, seq<string>>, id: string) returns (out: map<string, seq<string>>)
    ensures out.Keys == groups.Keys
    ensures forall g :: g in groups ==> out[g] == Others(groups[g], id)
  {
    out := groups;
    var todo := groups.Keys;
    while todo != {}
      invariant todo <= groups.Keys == out.Keys
      invariant forall g :: g in todo ==> out[g] == groups[g]
      invariant forall g :: g in groups && g !in todo ==> out[g] == Others(groups[g], id)
      decreases todo
    {
      var g :| g in todo;
      var left := Compact(out[g], (m: string) => m != id);
      out := out[g := left];
      todo := todo - {g};
    }
  }

  method CountUsers(t: Tables, id: string) returns (n: nat)
    ensures n == |Users(t, id)|
  {
    n := 0;
    var todo := t.workloads.Keys;
    ghost var seen := {};
    while todo != {}
      invariant todo <= t.workloads.Keys
      invariant forall k :: k in seen <==> k in t.workloads && k !in todo && Uses(t.workloads[k], id)
      invariant n == |seen|
      decreases todo
    {
      var k :| k in todo;
      todo := todo - {k};
      if Uses(t.workloads[k], id) {
        seen := seen + {k};
        n := n + 1;
      }
    }
    assert seen == Users(t, id);
  }

  // ----- what a deletion means ----------------------------------------------------------------

  ghost predicate NoneOn(m: map<string, Placed>, id: string) { forall k :: k in m ==> m[k].nodeId != id }
  ghost predicate NoneIn(s: seq<Placed>, id: string) { forall p :: p in s ==> p.nodeId != id }

  /** No table mentions the node. */
  ghost predicate Forgotten(t: Tables, id: string) {
    && id !in t.nodes && id !in t.inventory && id !in t.maintenance
    && NoneIn(t.observations, id) && NoneIn(t.operations, id) && NoneIn(t.events, id)
    && NoneOn(t.volumes, id) && NoneOn(t.library, id) && NoneOn(t.pools, id) && NoneOn(t.networks, id)
    && NoneOn(t.rollingSteps, id) && NoneOn(t.osds, id)
    && (forall k :: k in t.migrateJobs ==> t.migrateJobs[k].source != id && t.migrateJobs[k].dest != id)
    && (forall g :: g in t.groups ==> id !in t.groups[g])
    && Users(t, id) == {}
  }

  /** The records of m not on the node, and no others. */
  function Off(m: map<string, Placed>, id: string): map<string, Placed> {
    map k | k in m && m[k].nodeId != id :: m[k]
  }

  method PurgePlaced(m: map<string, Placed>, id: string) returns (left: map<string, Placed>)
    ensures left == Off(m, id)
  {
    left := Purge(m, (p: Placed) => p.nodeId != id);
  }

  /** Every record that did not mention the node is unchanged and in order. */
  ghost predicate Framed(t: Tables, t': Tables, id: string) {
    && t'.nodes == t.nodes - {id} && t'.workloads == t.workloads
    && t'.inventory == t.inventory - {id} && t'.maintenance == t.maintenance - {id}
    && t'.observations == Elsewhere(t.observations, id)
    && t'.operations == UnlinkAll(t.operations, id) && t'.events == UnlinkAll(t.events, id)
    && t'.volumes == Off(t.volumes, id) && t'.library == Off(t.library, id)
    && t'.pools == Off(t.pools, id) && t'.networks == Off(t.networks, id)
    && t'.rollingSteps == Off(t.rollingSteps, id) && t'.osds == Off(t.osds, id)
    && t'.migrateJobs
       == (map k | k in t.migrateJobs && t.migrateJobs[k].source != id && t.migrateJobs[k].dest != id ::
             t.migrateJobs[k])
    && t'.groups.Keys == t.groups.Keys
    && forall g :: g in t.groups ==> t'.groups[g] == Others(t.groups[g], id)
  }

  /** A framed deletion of a node without workloads forgets it; a node id is never empty. */
  lemma FramedForgets(t: Tables, t': Tables, id: string)
    requires Framed(t, t', id) && Users(t, id) == {} && id != ""
    ensures Forgotten(t', id)
  {
    FilterShorter(t.observations, (p: Placed) => p.nodeId != id);
    forall g | g in t.groups ensures id !in t'.groups[g] {
      FilterShorter(t.groups[g], (m: string) => m != id);
    }
    assert Users(t', id) == Users(t, id);
  }

  /** The records of m that are not on the node are all there, unchanged, and no others. */
  ghost predicate KeepsOff(m: map<string, Placed>, m': map<string, Placed>, id: string) {
    && (forall k :: k in m' <==> k in m && m[k].nodeId != id)
    && (forall k :: k in m' ==> m'[k] == m[k])
  }

  /** The members but for the node, in order. */
  ghost predicate LosesOnly(members: seq<string>, left: seq<string>, id: string) {
    && Subsequence(left, members) && id !in left
    && forall m :: m != id ==> multiset(left)[m] == multiset(members)[m]
  }

  lemma OthersExactly(members: seq<string>, id: string)
    ensures LosesOnly(members, Others(members, id), id)
  {
    FilterIsSubsequence(members, (m: string) => m != id);
    FilterShorter(members, (m: string) => m != id);
  }

  /** The records that are not on the node, in order. */
  ghost predicate LeavesNode(s: seq<Placed>, left: seq<Placed>, id: string) {
    && Subsequence(left, s) && (forall p :: p in left ==> p.nodeId != id)
    && forall p: Placed :: p.nodeId != id ==> multiset(left)[p] == multiset(s)[p]
  }

  lemma ElsewhereExactly(s: seq<Placed>, id: string)
    ensures LeavesNode(s, Elsewhere(s, id), id)
  {
    FilterIsSubsequence(s, (p: Placed) => p.nodeId != id);
    FilterShorter(s, (p: Placed) => p.nodeId != id);
  }

  /** Every record that does not mention the node is kept, unchanged and in order; every other loses it or goes. */
  lemma FramedExactly(t: Tables, t': Tables, id: string)
    requires Framed(t, t', id)
    ensures t'.workloads == t.workloads && t'.nodes == t.nodes - {id}
    ensures t'.inventory == t.inventory - {id} && t'.maintenance == t.maintenance - {id}
    ensures KeepsOff(t.volumes, t'.volumes, id) && KeepsOff(t.library, t'.library, id)
    ensures KeepsOff(t.pools, t'.pools, id) && KeepsOff(t.networks, t'.networks, id)
    ensures KeepsOff(t.rollingSteps, t'.rollingSteps, id) && KeepsOff(t.osds, t'.osds, id)
    ensures forall k :: k in t'.migrateJobs <==>
              k in t.migrateJobs && t.migrateJobs[k].source != id && t.migrateJobs[k].dest != id
    ensures forall k :: k in t'.migrateJobs ==> t'.migrateJobs[k] == t.migrateJobs[k]
    ensures LeavesNode(t.observations, t'.observations, id)
    ensures t'.groups.Keys == t.groups.Keys && forall g :: g in t.groups ==> LosesOnly(t.groups[g], t'.groups[g], id)
  {
    ElsewhereExactly(t.observations, id);
    forall g | g in t.groups ensures LosesOnly(t.groups[g], t'.groups[g], id) {
      OthersExactly(t.groups[g], id);
    }
  }

  /** Forgotten, in the records' own terms: no workload mentions the node in any of its three places. */
  lemma ForgottenWorkloads(t: Tables, id: string)
    ensures Users(t, id) == {} <==>
              forall k :: k in t.workloads ==>
                && t.workloads[k].nodeId != id && t.workloads[k].ownerNodeId != id && t.workloads[k].desiredNodeId != id
  {
    forall k | k in t.workloads
      ensures k in Users(t, id) <==>
                || t.workloads[k].nodeId == id || t.workloads[k].ownerNodeId == id
                || t.workloads[k].desiredNodeId == id
    {
    }
  }

  /** The history keeps every entry, in order. */
  lemma HistoryKeeps(s: seq<Placed>, id: string, i: nat)
    requires i < |s|
    ensures |UnlinkAll(s, id)| == |s| && UnlinkAll(s, id)[i].record == s[i].record
    ensures UnlinkAll(s, id)[i].nodeId == if s[i].nodeId == id then "" else s[i].nodeId
  {
  }

  class Memory {
    var t: Tables

    constructor (t: Tables)
      ensures this.t == t
    {
      this.t := t;
    }

    /** Refused while workloads use the node; a refusal changes nothing. */
    method DeleteNode(cluster: string, id: string) returns (r: Outcome)
      modifies this
      ensures r == if id !in old(t).nodes || old(t).nodes[id].clusterId != cluster then NotFound
                   else if Users(old(t), id) != {} then HasWorkloads(|Users(old(t), id)|)
                   else Deleted
      ensures r != Deleted ==> t == old(t)
      ensures r.NotFound? <==> !(id in old(t).nodes && old(t).nodes[id].clusterId == cluster)
      ensures r.HasWorkloads? <==>
                && !r.NotFound?
                && exists k :: && k in old(t).workloads
                               && var w := old(t).workloads[k];
                                  w.nodeId == id || w.ownerNodeId == id || w.desiredNodeId == id
      ensures r.HasWorkloads? ==>
                r.count == |set k | && k in old(t).workloads
                                    && (|| old(t).workloads[k].nodeId == id || old(t).workloads[k].ownerNodeId == id
                                        || old(t).workloads[k].desiredNodeId == id)|
      ensures r == Deleted ==> Framed(old(t), t, id) && (id != "" ==> Forgotten(t, id))
    {
      if id !in t.nodes || t.nodes[id].clusterId != cluster {
        return NotFound;
      }
      ForgottenWorkloads(t, id);
      assert Users(t, id) == set k | && k in t.workloads
                                     && (|| t.workloads[k].nodeId == id || t.workloads[k].ownerNodeId == id
                                         || t.workloads[k].desiredNodeId == id);
      var count := CountUsers(t, id);
      if count > 0 {
        return HasWorkloads(count);
      }
      var after := PurgeTables(t, id);
      if id != "" { FramedForgets(t, after, id); }
      t := after;
      return Deleted;
    }
  }

  method PurgeTables(t: Tables, id: string) returns (t': Tables)
    ensures Framed(t, t', id)
  {
    var observations := Compact(t.observations, (p: Placed) => p.nodeId != id);
    var operations := Unlink(t.operations, id);
    var events := Unlink(t.events, id);
    var volumes := PurgePlaced(t.volumes, id);
    var library := PurgePlaced(t.library, id);
    var pools := PurgePlaced(t.pools, id);
    var networks := PurgePlaced(t.networks, id);
    var jobs := Purge(t.migrateJobs, (j: MigrateJob) => j.source != id && j.dest != id);
    var steps := PurgePlaced(t.rollingSteps, id);
    var osds := PurgePlaced(t.osds, id);
    var groups := LeaveGroups(t.groups, id);
    t' := Tables(t.nodes - {id}, t.workloads, t.inventory - {id}, t.maintenance - {id},
                 observations, operations, events, volumes, library, pools, networks, steps, osds, jobs, groups);
  }
}
