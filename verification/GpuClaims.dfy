/**
  GPU claims (internal/appdb/phase14.go): an exclusive claim shares neither its
  GPU nor its IOMMU group.
 */
module GpuClaims {
  import opened Common

  datatype Claim = Claim(
    id: string, clusterId: string, gpuId: string, workloadId: string, mode: string, exclusive: bool,
    iommuGroup: string, pciDevices: seq<string>, deviceNodes: seq<string>, status: string, reason: string,
    createdAt: Time)

  type Claims = map<string, Claim>

  /** Two claims in one cluster on the same GPU or in the same non-empty group. */
  predicate Share(a: Claim, b: Claim) {
    a.clusterId == b.clusterId && (a.gpuId == b.gpuId || (a.iommuGroup != "" && a.iommuGroup == b.iommuGroup))
  }

  ghost predicate Exclusive(claims: Claims) {
    forall i, j :: i in claims && j in claims && i != j && Share(claims[i], claims[j]) ==>
      !claims[i].exclusive && !claims[j].exclusive
  }

  predicate Blocks(existing: Claim, a: Claim) { Share(existing, a) && (existing.exclusive || a.exclusive) }

  ghost predicate Blocked(claims: Claims, a: Claim) {
    exists i :: i in claims && Blocks(claims[i], a)
  }

  function Stamped(a: Claim, now: Time): Claim {
    if a.createdAt == ZERO_TIME then a.(createdAt := now) else a
  }

  // ----- the operations ------------------------------------------------------------------

  datatype Op =
    | Create(a: Claim, now: Time)
    | Delete(cluster: string, id: string)
    | SetNodes(cluster: string, id: string, nodes: seq<string>)

  ghost function Apply(claims: Claims, op: Op): Claims {
    match op
    case Create(a, now) => if Blocked(claims, a) then claims else claims[a.id := Stamped(a, now)]
    case Delete(c, id) => if id in claims && claims[id].clusterId == c then claims - {id} else claims
    case SetNodes(c, id, nodes) =>
      if id in claims && claims[id].clusterId == c then claims[id := claims[id].(deviceNodes := nodes)] else claims
  }

  class GpuMemory {
    var claims: Claims

    ghost predicate Valid() reads this {
      (forall i :: i in claims ==> claims[i].id == i) && Exclusive(claims)
    }

    constructor ()
      ensures Valid() && claims == map[]
    {
      claims := map[];
    }

    method CreateGpuAssignment(a: Claim, now: Time) returns (ok: bool)
      requires Valid()
      modifies this
      ensures Valid()
      ensures ok <==> !Blocked(old(claims), a)
      ensures claims == Apply(old(claims), Create(a, now))
    {
      var c := Stamped(a, now);
      var todo := claims.Keys;
      while todo != {}
        invariant todo <= claims.Keys && claims == old(claims)
        invariant forall i :: i in claims && i !in todo ==> !Blocks(claims[i], a)
        decreases todo
      {
        var i :| i in todo;
        var existing := claims[i];
        todo := todo - {i};
        if existing.clusterId != c.clusterId {
          continue;
        }
        if existing.gpuId == c.gpuId && (existing.exclusive || c.exclusive) {
          return false;
        }
        if c.iommuGroup != "" && existing.iommuGroup == c.iommuGroup && (existing.exclusive || c.exclusive) {
          return false;
        }
      }
      claims := claims[c.id := c];
      return true;
    }

    method DeleteGpuAssignment(cluster: string, id: string) returns (ok: bool)
      requires Valid()
      modifies this
      ensures Valid()
      ensures ok <==> id in old(claims) && old(claims)[id].clusterId == cluster
      ensures claims == Apply(old(claims), Delete(cluster, id))
    {
      if id !in claims || claims[id].clusterId != cluster {
        return false;
      }
      claims := claims - {id};
      return true;
    }

    method UpdateGpuAssignmentDeviceNodes(cluster: string, id: string, nodes: seq<string>) returns (ok: bool)
      requires Valid()
      modifies this
      ensures Valid()
      ensures ok <==> id in old(claims) && old(claims)[id].clusterId == cluster
      ensures claims == Apply(old(claims), SetNodes(cluster, id, nodes))
    {
      if id !in claims || claims[id].clusterId != cluster {
        return false;
      }
      claims := claims[id := claims[id].(deviceNodes := nodes)];
      return true;
    }

    /** A listing that shows an exclusive claim shows nothing else. */
    method ListGpuAssignmentsForGpu(cluster: string, gpu: string) returns (out: seq<Claim>)
      requires Valid()
      ensures Distinct(out)
      ensures forall a :: a in out <==> a.id in claims && claims[a.id] == a && a.clusterId == cluster && a.gpuId == gpu
      ensures (exists a :: a in out && a.exclusive) ==> |out| == 1
    {
      out := [];
      var todo := claims.Keys;
      while todo != {}
        invariant todo <= claims.Keys
        invariant Distinct(out)
        invariant forall a :: a in out <==>
                    && a.id in claims && a.id !in todo && claims[a.id] == a
                    && a.clusterId == cluster && a.gpuId == gpu
        decreases todo
      {
        var i :| i in todo;
        if claims[i].clusterId == cluster && claims[i].gpuId == gpu {
          out := out + [claims[i]];
        }
        todo := todo - {i};
      }
      if |out| > 1 {
        ListedTogetherAreShared(claims, out);
      }
    }
  }

  lemma ListedTogetherAreShared(claims: Claims, out: seq<Claim>)
    requires Exclusive(claims) && Distinct(out) && |out| > 1
    requires forall a :: a in out ==> a.id in claims && claims[a.id] == a
    requires forall i, j :: 0 <= i < |out| && 0 <= j < |out| ==> Share(out[i], out[j])
    ensures forall a :: a in out ==> !a.exclusive
  {
    forall a | a in out ensures !a.exclusive {
      var i :| 0 <= i < |out| && out[i] == a;
      var j := if i == 0 then 1 else 0;
      assert out[j] in out && out[i] != out[j];
      assert a.id != out[j].id;
      assert Share(claims[a.id], claims[out[j].id]);
    }
  }

  /**
    Storing a claim keeps exclusivity exactly when no other claim blocks it; the
    check refuses exactly the unsafe claims, and those that their own predecessor
    under the same id blocks.
   */
  lemma RefusedExactlyWhenUnsafe(claims: Claims, a: Claim)
    requires Exclusive(claims)
    ensures Exclusive(claims[a.id := a]) <==> !Blocked(claims - {a.id}, a)
    ensures Blocked(claims, a) <==> !Exclusive(claims[a.id := a]) || (a.id in claims && Blocks(claims[a.id], a))
  {
    var more, others := claims[a.id := a], claims - {a.id};
    if !Blocked(others, a) {
      assert forall i :: i in more && i != a.id ==> i in others && !Blocks(others[i], a);
    } else {
      var i :| i in others && Blocks(others[i], a);
      assert Share(more[i], more[a.id]);
      assert i in claims && Blocks(claims[i], a);
    }
    if Blocked(claims, a) {
      var i :| i in claims && Blocks(claims[i], a);
      assert i != a.id ==> i in others && Blocks(others[i], a);
    }
  }

  /** Exclusive, in the records' own terms. */
  lemma ExclusiveExactly(claims: Claims)
    ensures Exclusive(claims) <==>
              forall i, j :: && i in claims && j in claims && i != j && claims[i].clusterId == claims[j].clusterId
                             && (|| claims[i].gpuId == claims[j].gpuId
                                 || (claims[i].iommuGroup == claims[j].iommuGroup && claims[j].iommuGroup != ""))
                             ==> !claims[i].exclusive && !claims[j].exclusive
  {
  }

  /** What each operation does to the records; a refused create and a missed delete do nothing. */
  lemma ApplyExactly(claims: Claims, op: Op)
    ensures var t := Apply(claims, op);
            match op
            case Create(a, now) =>
              var refused := exists i :: && i in claims && claims[i].clusterId == a.clusterId
                                         && (claims[i].exclusive || a.exclusive)
                                         && (|| claims[i].gpuId == a.gpuId
                                             || (a.iommuGroup != "" && claims[i].iommuGroup == a.iommuGroup));
              if refused then t == claims
              else && t.Keys == claims.Keys + {a.id} && (forall i :: i in claims && i != a.id ==> t[i] == claims[i])
                   && t[a.id].(createdAt := a.createdAt) == a
                   && t[a.id].createdAt == (if a.createdAt == 0 then now else a.createdAt)
            case Delete(c, id) =>
              t == if id in claims && claims[id].clusterId == c then claims - {id} else claims
            case SetNodes(c, id, nodes) =>
              && t.Keys == claims.Keys && (forall i :: i in claims && i != id ==> t[i] == claims[i])
              && (id in claims ==>
                    && t[id].(deviceNodes := claims[id].deviceNodes) == claims[id]
                    && t[id].deviceNodes == if claims[id].clusterId == c then nodes else claims[id].deviceNodes)
  {
    if op.Create? {
      assert Blocked(claims, op.a) <==>
               exists i :: && i in claims && claims[i].clusterId == op.a.clusterId
                           && (claims[i].exclusive || op.a.exclusive)
                           && (|| claims[i].gpuId == op.a.gpuId
                               || (op.a.iommuGroup != "" && claims[i].iommuGroup == op.a.iommuGroup)) by {
        assert forall i :: i in claims ==>
                 (Blocks(claims[i], op.a) <==>
                    && claims[i].clusterId == op.a.clusterId && (claims[i].exclusive || op.a.exclusive)
                    && (|| claims[i].gpuId == op.a.gpuId
                        || (op.a.iommuGroup != "" && claims[i].iommuGroup == op.a.iommuGroup)));
      }
    }
  }

  // ----- whole runs ---------------------------------------------------------------------

  ghost function Execute(claims: Claims, ops: seq<Op>): Claims
    decreases |ops|
  {
    if ops == [] then claims else Execute(Apply(claims, ops[0]), ops[1..])
  }

  lemma ApplyKeepsExclusive(claims: Claims, op: Op)
    requires Exclusive(claims)
    ensures Exclusive(Apply(claims, op))
  {
    if op.Create? && !Blocked(claims, op.a) {
      assert forall i :: i in claims ==> !Blocks(claims[i], op.a);
    }
  }

  /** In every reachable state, whatever ids are reused, exclusive claims share nothing. */
  lemma {:induction false} AlwaysExclusive(claims: Claims, ops: seq<Op>)
    requires Exclusive(claims)
    ensures Exclusive(Execute(claims, ops))
    decreases |ops|
  {
    if ops != [] {
      ApplyKeepsExclusive(claims, ops[0]);
      AlwaysExclusive(Apply(claims, ops[0]), ops[1..]);
    }
  }
}
