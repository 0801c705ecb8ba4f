/**
  Stacks and their members (internal/appdb/phase22.go).
 */
module Stacks {
  import opened Common

  datatype Stack = Stack(
    id: string, clusterId: string, name: string, status: string, desired: string, source: string,
    createdAt: Time, updatedAt: Time)

  datatype Member = Member(
    id: string, clusterId: string, stackId: string, service: string, workloadId: string, desired: string,
    status: string, sortOrder: int, reason: string, createdAt: Time, updatedAt: Time)

  datatype Store = Store(stacks: map<string, Stack>, members: map<string, Member>)

  predicate SameName(a: Stack, b: Stack) { a.clusterId == b.clusterId && a.name == b.name }
  predicate SameService(a: Member, b: Member) { a.stackId == b.stackId && a.service == b.service }

  /** Records are filed by id, names and services are unique, and every member has its stack. */
  ghost predicate Sound(s: Store) {
    && (forall i :: i in s.stacks ==> s.stacks[i].id == i)
    && (forall i :: i in s.members ==> s.members[i].id == i)
    && (forall i, j :: i in s.stacks && j in s.stacks && i != j ==> !SameName(s.stacks[i], s.stacks[j]))
    && (forall i, j :: i in s.members && j in s.members && i != j ==> !SameService(s.members[i], s.members[j]))
    && (forall i :: i in s.members ==> s.members[i].stackId in s.stacks)
  }

  // ----- the effect of each operation ------------------------------------------------------

  function Or<T(==)>(x: T, empty: T, default: T): T { if x == empty then default else x }

  ghost function StackCreated(s: Store, st: Stack, now: Time): (Store, bool) {
    if exists i :: i in s.stacks && SameName(s.stacks[i], st) then (s, false)
    else
      var created := Or(st.createdAt, ZERO_TIME, now);
      var st' := st.(createdAt := created, updatedAt := created,
                     status := Or(st.status, "", "draft"), desired := Or(st.desired, "", "{}"));
      (s.(stacks := s.stacks[st.id := st']), true)
  }

  predicate Renames(cur: Stack, st: Stack) { st.name != "" && st.name != cur.name }

  function Patched(cur: Stack, st: Stack, now: Time): Stack {
    cur.(name := if Renames(cur, st) then st.name else cur.name, status := Or(st.status, "", cur.status),
         desired := Or(st.desired, "", cur.desired), source := Or(st.source, "", cur.source), updatedAt := now)
  }

  ghost function StackUpdated(s: Store, st: Stack, now: Time): (Store, bool) {
    if st.id !in s.stacks || s.stacks[st.id].clusterId != st.clusterId then (s, false)
    else
      var cur := s.stacks[st.id];
      if Renames(cur, st) && exists i :: i in s.stacks && SameName(s.stacks[i], st) && s.stacks[i].id != st.id
      then (s, false)
      else (s.(stacks := s.stacks[st.id := Patched(cur, st, now)]), true)
  }

  function StackDeleted(s: Store, cluster: string, id: string): (Store, bool) {
    if id !in s.stacks || s.stacks[id].clusterId != cluster then (s, false)
    else (Store(s.stacks - {id}, map k | k in s.members && s.members[k].stackId != id :: s.members[k]), true)
  }

  ghost function MemberCreated(s: Store, m: Member, now: Time): (Store, bool) {
    if m.stackId !in s.stacks || s.stacks[m.stackId].clusterId != m.clusterId then (s, false)
    else if exists i :: i in s.members && SameService(s.members[i], m) then (s, false)
    else
      var created := Or(m.createdAt, ZERO_TIME, now);
      var m' := m.(createdAt := created, updatedAt := created,
                   status := Or(m.status, "", "pending"), desired := Or(m.desired, "", "{}"));
      (s.(members := s.members[m.id := m']), true)
  }

  function MemberUpdated(s: Store, m: Member, now: Time): (Store, bool) {
    if m.id !in s.members || s.members[m.id].clusterId != m.clusterId then (s, false)
    else
      var cur := s.members[m.id];
      (s.(members := s.members[m.id := cur.(
        workloadId := Or(m.workloadId, "", cur.workloadId), desired := Or(m.desired, "", cur.desired),
        status := Or(m.status, "", cur.status), reason := m.reason, updatedAt := now)]), true)
  }

  // ----- what they mean, field by field -----------------------------------------------------

  /** Another stack of the cluster has the name. */
  ghost predicate NameTaken(s: Store, clusterId: string, name: string, but: string) {
    exists i :: i in s.stacks && s.stacks[i].id != but && s.stacks[i].clusterId == clusterId && s.stacks[i].name == name
  }

  /** A create is refused for a taken name; it stores the given stack, a draft that wants nothing by default. */
  lemma StackCreatedExactly(s: Store, st: Stack, now: Time)
    ensures var (t, ok) := StackCreated(s, st, now);
            && (ok <==> forall i :: i in s.stacks ==>
                          s.stacks[i].clusterId != st.clusterId || s.stacks[i].name != st.name)
            && (!ok ==> t == s)
            && (ok ==>
                  && t.members == s.members && t.stacks.Keys == s.stacks.Keys + {st.id}
                  && (forall i :: i in s.stacks && i != st.id ==> t.stacks[i] == s.stacks[i])
                  && var got := t.stacks[st.id];
                     && got.(status := st.status, desired := st.desired, createdAt := st.createdAt,
                             updatedAt := st.updatedAt) == st
                     && got.status == (if st.status == "" then "draft" else st.status)
                     && got.desired == (if st.desired == "" then "{}" else st.desired)
                     && got.createdAt == got.updatedAt == (if st.createdAt == 0 then now else st.createdAt))
  {
  }

  /** A patch sets name, status, wishes and source where given, and nothing else; another stack's name is refused. */
  lemma StackUpdatedExactly(s: Store, st: Stack, now: Time)
    ensures var (t, ok) := StackUpdated(s, st, now);
            && (ok <==> && st.id in s.stacks && s.stacks[st.id].clusterId == st.clusterId
                        && (|| st.name == "" || st.name == s.stacks[st.id].name
                            || !NameTaken(s, st.clusterId, st.name, st.id)))
            && (!ok ==> t == s)
            && (ok ==>
                  && t.members == s.members && t.stacks.Keys == s.stacks.Keys
                  && (forall i :: i in s.stacks && i != st.id ==> t.stacks[i] == s.stacks[i])
                  && var was, got := s.stacks[st.id], t.stacks[st.id];
                     && got.(name := was.name, status := was.status, desired := was.desired, source := was.source,
                             updatedAt := was.updatedAt) == was
                     && got.name == (if st.name == "" then was.name else st.name)
                     && got.status == (if st.status == "" then was.status else st.status)
                     && got.desired == (if st.desired == "" then was.desired else st.desired)
                     && got.source == (if st.source == "" then was.source else st.source)
                     && got.updatedAt == now)
  {
    if st.id in s.stacks {
      assert forall i :: i in s.stacks ==>
               (SameName(s.stacks[i], st) <==>
                  s.stacks[i].clusterId == st.clusterId && s.stacks[i].name == st.name);
    }
  }

  /** A deleted stack takes its members along, and nothing else. */
  lemma StackDeletedExactly(s: Store, cluster: string, id: string)
    ensures var (t, ok) := StackDeleted(s, cluster, id);
            && (ok <==> id in s.stacks && s.stacks[id].clusterId == cluster) && (!ok ==> t == s)
            && (ok ==>
                  && t.stacks == s.stacks - {id}
                  && (forall k :: k in t.members <==> k in s.members && s.members[k].stackId != id)
                  && (forall k :: k in t.members ==> t.members[k] == s.members[k]))
  {
  }

  /** A member needs its stack in its cluster and a service name free in that stack. */
  lemma MemberCreatedExactly(s: Store, m: Member, now: Time)
    ensures var (t, ok) := MemberCreated(s, m, now);
            && (ok <==> && m.stackId in s.stacks && s.stacks[m.stackId].clusterId == m.clusterId
                        && forall i :: i in s.members ==>
                             s.members[i].stackId != m.stackId || s.members[i].service != m.service)
            && (!ok ==> t == s)
            && (ok ==>
                  && t.stacks == s.stacks && t.members.Keys == s.members.Keys + {m.id}
                  && (forall i :: i in s.members && i != m.id ==> t.members[i] == s.members[i])
                  && var got := t.members[m.id];
                     && got.(status := m.status, desired := m.desired, createdAt := m.createdAt,
                             updatedAt := m.updatedAt) == m
                     && got.status == (if m.status == "" then "pending" else m.status)
                     && got.desired == (if m.desired == "" then "{}" else m.desired)
                     && got.createdAt == got.updatedAt == (if m.createdAt == 0 then now else m.createdAt))
  {
  }

  /** A patch of a member sets workload, wishes and status where given, the reason always, and nothing else. */
  lemma MemberUpdatedExactly(s: Store, m: Member, now: Time)
    ensures var (t, ok) := MemberUpdated(s, m, now);
            && (ok <==> m.id in s.members && s.members[m.id].clusterId == m.clusterId) && (!ok ==> t == s)
            && (ok ==>
                  && t.stacks == s.stacks && t.members.Keys == s.members.Keys
                  && (forall i :: i in s.members && i != m.id ==> t.members[i] == s.members[i])
                  && var was, got := s.members[m.id], t.members[m.id];
                     && got.(workloadId := was.workloadId, desired := was.desired, status := was.status,
                             reason := was.reason, updatedAt := was.updatedAt) == was
                     && got.workloadId == (if m.workloadId == "" then was.workloadId else m.workloadId)
                     && got.desired == (if m.desired == "" then was.desired else m.desired)
                     && got.status == (if m.status == "" then was.status else m.status)
                     && got.reason == m.reason && got.updatedAt == now)
  {
  }

  // ----- the store ----------------------------------------------------------------------------

  class StackMemory {
    var stacks: map<string, Stack>
    var members: map<string, Member>

    ghost function Contents(): Store reads this { Store(stacks, members) }
    ghost predicate Valid() reads this { Sound(Contents()) }

    constructor ()
      ensures Valid() && Contents() == Store(map[], map[])
    {
      stacks, members := map[], map[];
    }

    method CreateStack(st: Stack, now: Time) returns (ok: bool)
      requires Valid()
      modifies this`stacks
      ensures (Contents(), ok) == StackCreated(old(Contents()), st, now)
      ensures Valid()
    {
      CreateStackIsSound(Contents(), st, now);
      var todo := stacks.Keys;
      while todo != {}
        invariant todo <= stacks.Keys
        invariant forall i :: i in stacks && i !in todo ==> !SameName(stacks[i], st)
        decreases todo
      {
        var i :| i in todo;
        if stacks[i].clusterId == st.clusterId && stacks[i].name == st.name {
          return false;
        }
        todo := todo - {i};
      }
      var c := st;
      if c.createdAt == ZERO_TIME {
        c := c.(createdAt := now);
      }
      c := c.(updatedAt := c.createdAt);
      if c.status == "" {
        c := c.(status := "draft");
      }
      if |c.desired| == 0 {
        c := c.(desired := "{}");
      }
      stacks := stacks[c.id := c];
      return true;
    }

    method UpdateStack(st: Stack, now: Time) returns (ok: bool)
      requires Valid()
      modifies this`stacks
      ensures (Contents(), ok) == StackUpdated(old(Contents()), st, now)
      ensures Valid()
    {
      UpdateStackIsSound(Contents(), st, now);
      if st.id !in stacks || stacks[st.id].clusterId != st.clusterId {
        return false;
      }
      var cur := stacks[st.id];
      if st.name != "" && st.name != cur.name {
        var todo := stacks.Keys;
        while todo != {}
          invariant todo <= stacks.Keys
          invariant forall i :: i in stacks && i !in todo ==> !(SameName(stacks[i], st) && stacks[i].id != st.id)
          decreases todo
        {
          var i :| i in todo;
          if stacks[i].clusterId == st.clusterId && stacks[i].name == st.name && stacks[i].id != st.id {
            return false;
          }
          todo := todo - {i};
        }
      }
      stacks := stacks[st.id := Patched(cur, st, now)];
      return true;
    }

    method DeleteStack(cluster: string, id: string) returns (ok: bool)
      requires Valid()
      modifies this
      ensures (Contents(), ok) == StackDeleted(old(Contents()), cluster, id)
      ensures Valid()
    {
      if id !in stacks || stacks[id].clusterId != cluster {
        return false;
      }
      var left := PurgeMembers(members, id);
      stacks, members := stacks - {id}, left;
      return true;
    }

    method CreateStackMember(m: Member, now: Time) returns (ok: bool)
      requires Valid()
      modifies this`members
      ensures (Contents(), ok) == MemberCreated(old(Contents()), m, now)
      ensures Valid()
    {
      CreateMemberIsSound(Contents(), m, now);
      if m.stackId !in stacks || stacks[m.stackId].clusterId != m.clusterId {
        return false;
      }
      var todo := members.Keys;
      while todo != {}
        invariant todo <= members.Keys
        invariant forall i :: i in members && i !in todo ==> !SameService(members[i], m)
        decreases todo
      {
        var i :| i in todo;
        if members[i].stackId == m.stackId && members[i].service == m.service {
          return false;
        }
        todo := todo - {i};
      }
      var c := m;
      if c.createdAt == ZERO_TIME {
        c := c.(createdAt := now);
      }
      c := c.(updatedAt := c.createdAt);
      if c.status == "" {
        c := c.(status := "pending");
      }
      if |c.desired| == 0 {
        c := c.(desired := "{}");
      }
      members := members[c.id := c];
      return true;
    }

    method UpdateStackMember(m: Member, now: Time) returns (ok: bool)
      requires Valid()
      modifies this`members
      ensures (Contents(), ok) == MemberUpdated(old(Contents()), m, now)
      ensures Valid()
    {
      UpdateMemberIsSound(Contents(), m, now);
      if m.id !in members || members[m.id].clusterId != m.clusterId {
        return false;
      }
      var cur := members[m.id];
      if m.workloadId != "" {
        cur := cur.(workloadId := m.workloadId);
      }
      if |m.desired| > 0 {
        cur := cur.(desired := m.desired);
      }
      if m.status != "" {
        cur := cur.(status := m.status);
      }
      cur := cur.(reason := m.reason, updatedAt := now);
      members := members[m.id := cur];
      return true;
    }
  }

  method PurgeMembers(members: map<string, Member>, id: string) returns (left: map<string, Member>)
    ensures left == map k | k in members && members[k].stackId != id :: members[k]
  {
    left := Purge(members, (m: Member) => m.stackId != id);
  }

  // ----- soundness ------------------------------------------------------------------------------

  lemma CreateStackIsSound(s: Store, st: Stack, now: Time)
    requires Sound(s)
    ensures Sound(StackCreated(s, st, now).0)
  {
    if !exists i :: i in s.stacks && SameName(s.stacks[i], st) {
      assert forall i :: i in s.stacks ==> !SameName(s.stacks[i], st);
    }
  }

  lemma UpdateStackIsSound(s: Store, st: Stack, now: Time)
    requires Sound(s)
    ensures Sound(StackUpdated(s, st, now).0)
  {
    var t := StackUpdated(s, st, now).0;
    if StackUpdated(s, st, now).1 {
      var cur := s.stacks[st.id];
      forall i | i in s.stacks && i != st.id ensures !SameName(s.stacks[i], t.stacks[st.id]) {
        assert !SameName(s.stacks[i], cur);
        assert Renames(cur, st) ==> !SameName(s.stacks[i], st);
      }
    }
  }

  lemma CreateMemberIsSound(s: Store, m: Member, now: Time)
    requires Sound(s)
    ensures Sound(MemberCreated(s, m, now).0)
  {
    if !exists i :: i in s.members && SameService(s.members[i], m) {
      assert forall i :: i in s.members ==> !SameService(s.members[i], m);
    }
  }

  lemma UpdateMemberIsSound(s: Store, m: Member, now: Time)
    requires Sound(s)
    ensures Sound(MemberUpdated(s, m, now).0)
  {
  }

  datatype Op =
    | OpCreateStack(st: Stack) | OpUpdateStack(st: Stack) | OpDeleteStack(cluster: string, id: string)
    | OpCreateMember(m: Member) | OpUpdateMember(m: Member)

  ghost function Apply(s: Store, op: Op, now: Time): Store {
    match op
    case OpCreateStack(st) => StackCreated(s, st, now).0
    case OpUpdateStack(st) => StackUpdated(s, st, now).0
    case OpDeleteStack(c, id) => StackDeleted(s, c, id).0
    case OpCreateMember(m) => MemberCreated(s, m, now).0
    case OpUpdateMember(m) => MemberUpdated(s, m, now).0
  }

  ghost function Execute(s: Store, ops: seq<(Op, Time)>): Store
    decreases |ops|
  {
    if ops == [] then s else Execute(Apply(s, ops[0].0, ops[0].1), ops[1..])
  }

  /** Referential integrity and uniqueness over every run, cascades and reused ids included. */
  lemma {:induction false} AlwaysSound(s: Store, ops: seq<(Op, Time)>)
    requires Sound(s)
    ensures Sound(Execute(s, ops))
    decreases |ops|
  {
    if ops != [] {
      var (op, now) := ops[0];
      match op {
        case OpCreateStack(st) => CreateStackIsSound(s, st, now);
        case OpUpdateStack(st) => UpdateStackIsSound(s, st, now);
        case OpDeleteStack(c, id) =>
        case OpCreateMember(m) => CreateMemberIsSound(s, m, now);
        case OpUpdateMember(m) => UpdateMemberIsSound(s, m, now);
      }
      AlwaysSound(Apply(s, op, now), ops[1..]);
    }
  }

  // ----- clusters ------------------------------------------------------------------------------------

  /** A member lives in the cluster of its stack. */
  ghost predicate SameClusters(s: Store) {
    forall i :: i in s.members && s.members[i].stackId in s.stacks ==>
      s.members[i].clusterId == s.stacks[s.members[i].stackId].clusterId
  }

  /**
    Creating a stack under an id already in use replaces the old stack and leaves
    its members: they stay in the cluster of their stack exactly when the id is
    new, the cluster is the same, or there are no members.
   */
  lemma ReplacingAStackKeepsClusters(s: Store, st: Stack, now: Time)
    requires Sound(s) && SameClusters(s) && StackCreated(s, st, now).1
    ensures SameClusters(StackCreated(s, st, now).0) <==>
              st.id !in s.stacks || s.stacks[st.id].clusterId == st.clusterId
              || forall i :: i in s.members ==> s.members[i].stackId != st.id
  {
    var t := StackCreated(s, st, now).0;
    assert t.stacks[st.id].clusterId == st.clusterId && t.members == s.members;
    if !(forall i :: i in s.members ==> s.members[i].stackId != st.id) {
      var i :| i in s.members && s.members[i].stackId == st.id;
      assert t.members[i].clusterId == s.stacks[st.id].clusterId;
    }
  }
}
