/**
  Deploy projects, their deployments and secrets (internal/appdb/deploy.go).
 */
module Deployments {
  import opened Common

  datatype Project = Project(
    id: string, clusterId: string, workloadId: string, workingDir: string, settings: string, state: string,
    createdAt: Time, updatedAt: Time)

  datatype Deployment = Deployment(id: string, clusterId: string, projectId: string, status: string, queuedAt: Time)

  /** The environment, as JSON text, and the webhook secret. */
  datatype Secrets = Secrets(env: string, webhook: string)

  datatype Store = Store(
    projects: map<string, Project>, deployments: map<string, Deployment>, secrets: map<string, Secrets>)

  predicate SameFolder(a: Project, b: Project) {
    a.clusterId == b.clusterId && a.workloadId == b.workloadId && a.workingDir == b.workingDir
  }

  /** One project per folder; deployments and secrets belong to existing projects. */
  ghost predicate Sound(s: Store) {
    && (forall i :: i in s.projects ==> s.projects[i].id == i)
    && (forall i, j :: i in s.projects && j in s.projects && i != j ==> !SameFolder(s.projects[i], s.projects[j]))
    && (forall i :: i in s.deployments ==> s.deployments[i].id == i && s.deployments[i].projectId in s.projects)
    && s.secrets.Keys <= s.projects.Keys
  }

  // ----- the operations -----------------------------------------------------------------

  datatype Op =
    | PutProject(p: Project, now: Time)
    | SetState(cluster: string, id: string, state: string)
    | DeleteProject(cluster: string, id: string)
    | PutSecrets(cluster: string, id: string, env: string, webhook: string)
    | PutDeployment(d: Deployment)
    | DeleteDeployments(cluster: string, ids: seq<string>)

  ghost predicate Taken(s: Store, p: Project) {
    exists i :: i in s.projects && i != p.id && SameFolder(s.projects[i], p)
  }

  predicate Owns(s: Store, cluster: string, id: string) { id in s.projects && s.projects[id].clusterId == cluster }

  function CreatedAt(s: Store, p: Project, now: Time): Time {
    if p.id in s.projects then s.projects[p.id].createdAt else if p.createdAt == ZERO_TIME then now else p.createdAt
  }

  /** Does the call succeed?  Deletes and state updates of nothing do. */
  ghost predicate Accepts(s: Store, op: Op) {
    match op
    case PutProject(p, now) => !Taken(s, p)
    case PutSecrets(c, id, env, webhook) => Owns(s, c, id)
    case PutDeployment(d) => d.projectId in s.projects
    case _ => true
  }

  ghost function Apply(s: Store, op: Op): Store {
    if !Accepts(s, op) then s
    else match op
      case PutProject(p, now) =>
        s.(projects := s.projects[p.id := p.(createdAt := CreatedAt(s, p, now), updatedAt := now)])
      case SetState(c, id, state) =>
        if Owns(s, c, id) then s.(projects := s.projects[id := s.projects[id].(state := state)]) else s
      case DeleteProject(c, id) =>
        if Owns(s, c, id) then
          Store(s.projects - {id},
                map k | k in s.deployments && s.deployments[k].projectId != id :: s.deployments[k],
                s.secrets - {id})
        else s
      case PutSecrets(c, id, env, webhook) => s.(secrets := s.secrets[id := Secrets(env, webhook)])
      case PutDeployment(d) => s.(deployments := s.deployments[d.id := d])
      case DeleteDeployments(c, ids) =>
        s.(deployments :=
             map k | k in s.deployments && !(k in ids && s.deployments[k].clusterId == c) :: s.deployments[k])
  }

  // ----- what they mean, record by record --------------------------------------------

  /** Writing a project: refused for a folder another one has, stored with its first creation time otherwise. */
  lemma PutProjectExactly(s: Store, p: Project, now: Time)
    ensures var t := Apply(s, PutProject(p, now));
            var taken := exists i :: && i in s.projects && i != p.id && s.projects[i].clusterId == p.clusterId
                                     && s.projects[i].workloadId == p.workloadId
                                     && s.projects[i].workingDir == p.workingDir;
            && t.deployments == s.deployments && t.secrets == s.secrets
            && if taken then t == s
               else && t.projects.Keys == s.projects.Keys + {p.id}
                    && (forall i :: i in s.projects && i != p.id ==> t.projects[i] == s.projects[i])
                    && t.projects[p.id].(createdAt := p.createdAt, updatedAt := p.updatedAt) == p
                    && t.projects[p.id].updatedAt == now
                    && t.projects[p.id].createdAt
                       == (if p.id in s.projects then s.projects[p.id].createdAt
                           else if p.createdAt == 0 then now else p.createdAt)
  {
    assert Taken(s, p) <==>
             exists i :: && i in s.projects && i != p.id && s.projects[i].clusterId == p.clusterId
                         && s.projects[i].workloadId == p.workloadId && s.projects[i].workingDir == p.workingDir by {
      assert forall i :: i in s.projects ==>
               (SameFolder(s.projects[i], p) <==>
                  && s.projects[i].clusterId == p.clusterId && s.projects[i].workloadId == p.workloadId
                  && s.projects[i].workingDir == p.workingDir);
    }
  }

  /** The other operations; those that do not find their project in the cluster do nothing. */
  lemma ApplyExactly(s: Store, op: Op)
    ensures var t := Apply(s, op);
            match op
            case PutProject(p, now) => true
            case SetState(c, id, state) =>
              && t.deployments == s.deployments && t.secrets == s.secrets && t.projects.Keys == s.projects.Keys
              && (forall i :: i in s.projects && i != id ==> t.projects[i] == s.projects[i])
              && (id in s.projects ==>
                    && t.projects[id].(state := s.projects[id].state) == s.projects[id]
                    && t.projects[id].state == if s.projects[id].clusterId == c then state else s.projects[id].state)
            case DeleteProject(c, id) =>
              if id in s.projects && s.projects[id].clusterId == c then
                && t.projects == s.projects - {id} && t.secrets == s.secrets - {id}
                && (forall k :: k in t.deployments <==> k in s.deployments && s.deployments[k].projectId != id)
                && (forall k :: k in t.deployments ==> t.deployments[k] == s.deployments[k])
              else t == s
            case PutSecrets(c, id, env, webhook) =>
              if id in s.projects && s.projects[id].clusterId == c then
                && t.projects == s.projects && t.deployments == s.deployments
                && t.secrets.Keys == s.secrets.Keys + {id}
                && (forall i :: i in s.secrets && i != id ==> t.secrets[i] == s.secrets[i])
                && t.secrets[id].env == env && t.secrets[id].webhook == webhook
              else t == s
            case PutDeployment(d) =>
              if d.projectId in s.projects then
                && t.projects == s.projects && t.secrets == s.secrets
                && t.deployments.Keys == s.deployments.Keys + {d.id} && t.deployments[d.id] == d
                && forall i :: i in s.deployments && i != d.id ==> t.deployments[i] == s.deployments[i]
              else t == s
            case DeleteDeployments(c, ids) =>
              && t.projects == s.projects && t.secrets == s.secrets
              && (forall k :: k in t.deployments <==>
                    k in s.deployments && (k in ids ==> s.deployments[k].clusterId != c))
              && (forall k :: k in t.deployments ==> t.deployments[k] == s.deployments[k])
  {
  }

  class DeployMemory {
    var projects: map<string, Project>
    var deployments: map<string, Deployment>
    var secrets: map<string, Secrets>

    ghost function Contents(): Store reads this { Store(projects, deployments, secrets) }
    ghost predicate Valid() reads this { Sound(Contents()) }

    constructor ()
      ensures Valid() && Contents() == Store(map[], map[], map[])
    {
      projects, deployments, secrets := map[], map[], map[];
    }

    method PutDeployProject(p: Project, now: Time) returns (ok: bool)
      requires Valid()
      modifies this`projects
      ensures ok == Accepts(old(Contents()), PutProject(p, now))
      ensures Contents() == Apply(old(Contents()), PutProject(p, now))
      ensures Valid()
    {
      ApplyIsSound(Contents(), PutProject(p, now));
      var todo := projects.Keys;
      while todo != {}
        invariant todo <= projects.Keys
        invariant forall i :: i in projects && i !in todo ==> i == p.id || !SameFolder(projects[i], p)
        decreases todo
      {
        var i :| i in todo;
        var q := projects[i];
        if i != p.id && q.clusterId == p.clusterId && q.workloadId == p.workloadId && q.workingDir == p.workingDir {
          return false;
        }
        todo := todo - {i};
      }
      var q := p;
      if p.id in projects {
        q := q.(createdAt := projects[p.id].createdAt);
      } else if q.createdAt == ZERO_TIME {
        q := q.(createdAt := now);
      }
      projects := projects[p.id := q.(updatedAt := now)];
      return true;
    }

    method UpdateDeployProjectState(cluster: string, id: string, state: string)
      requires Valid()
      modifies this`projects
      ensures Contents() == Apply(old(Contents()), SetState(cluster, id, state)) && Valid()
    {
      if id in projects && projects[id].clusterId == cluster {
        projects := projects[id := projects[id].(state := state)];
      }
    }

    method DeleteDeployProject(cluster: string, id: string)
      requires Valid()
      modifies this
      ensures Contents() == Apply(old(Contents()), DeleteProject(cluster, id)) && Valid()
    {
      if id in projects && projects[id].clusterId == cluster {
        var left := PurgeDeployments(deployments, id);
        projects, secrets, deployments := projects - {id}, secrets - {id}, left;
      }
    }

    method PutDeployProjectSecrets(cluster: string, id: string, env: string, webhook: string) returns (ok: bool)
      requires Valid()
      modifies this`secrets
      ensures ok == Accepts(old(Contents()), PutSecrets(cluster, id, env, webhook))
      ensures Contents() == Apply(old(Contents()), PutSecrets(cluster, id, env, webhook)) && Valid()
    {
      if id !in projects || projects[id].clusterId != cluster {
        return false;
      }
      secrets := secrets[id := Secrets(env, webhook)];
      return true;
    }

    method PutDeployment(d: Deployment) returns (ok: bool)
      requires Valid()
      modifies this`deployments
      ensures ok == Accepts(old(Contents()), Op.PutDeployment(d))
      ensures Contents() == Apply(old(Contents()), Op.PutDeployment(d)) && Valid()
    {
      if d.projectId !in projects {
        return false;
      }
      deployments := deployments[d.id := d];
      return true;
    }

    method DeleteDeployments(cluster: string, ids: seq<string>)
      requires Valid()
      modifies this`deployments
      ensures Contents() == Apply(old(Contents()), Op.DeleteDeployments(cluster, ids)) && Valid()
    {
      ApplyIsSound(Contents(), Op.DeleteDeployments(cluster, ids));
      deployments := RemoveDeployments(deployments, cluster, ids);
    }
  }

  method RemoveDeployments(deployments: map<string, Deployment>, cluster: string, ids: seq<string>)
      returns (left: map<string, Deployment>)
    ensures left == map k | k in deployments && !(k in ids && deployments[k].clusterId == cluster) :: deployments[k]
  {
    left := deployments;
    for i := 0 to |ids|
      invariant left.Keys <= deployments.Keys
      invariant forall k :: k in left ==> left[k] == deployments[k]
      invariant forall k :: k in deployments ==>
                  (k in left <==> !(k in ids[..i] && deployments[k].clusterId == cluster))
    {
      assert ids[..i + 1] == ids[..i] + [ids[i]];
      if ids[i] in left && left[ids[i]].clusterId == cluster {
        left := left - {ids[i]};
      }
    }
    assert ids[..|ids|] == ids;
  }

  method PurgeDeployments(deployments: map<string, Deployment>, id: string) returns (left: map<string, Deployment>)
    ensures left == map k | k in deployments && deployments[k].projectId != id :: deployments[k]
  {
    left := Purge(deployments, (d: Deployment) => d.projectId != id);
  }

  // ----- whole runs ------------------------------------------------------------------------

  lemma ApplyIsSound(s: Store, op: Op)
    requires Sound(s)
    ensures Sound(Apply(s, op))
  {
    if op.PutProject? && !Taken(s, op.p) {
      assert forall i :: i in s.projects && i != op.p.id ==> !SameFolder(s.projects[i], op.p);
    }
  }

  ghost function Execute(s: Store, ops: seq<Op>): Store
    decreases |ops|
  {
    if ops == [] then s else Execute(Apply(s, ops[0]), ops[1..])
  }

  /** Over every run deployments and secrets belong to existing projects and folders are unique. */
  lemma {:induction false} AlwaysSound(s: Store, ops: seq<Op>)
    requires Sound(s)
    ensures Sound(Execute(s, ops))
    decreases |ops|
  {
    if ops != [] {
      ApplyIsSound(s, ops[0]);
      AlwaysSound(Apply(s, ops[0]), ops[1..]);
    }
  }

  /** Writing a project is refused exactly when it would make a folder ambiguous. */
  lemma RefusedExactlyWhenAmbiguous(s: Store, p: Project, now: Time)
    requires Sound(s)
    ensures Accepts(s, PutProject(p, now)) <==>
              Sound(s.(projects := s.projects[p.id := p.(createdAt := CreatedAt(s, p, now), updatedAt := now)]))
  {
    var q := p.(createdAt := CreatedAt(s, p, now), updatedAt := now);
    var more := s.projects[p.id := q];
    if Taken(s, p) {
      var i :| i in s.projects && i != p.id && SameFolder(s.projects[i], p);
      assert SameFolder(more[i], more[p.id]);
    } else {
      ApplyIsSound(s, PutProject(p, now));
    }
  }

  // ----- clusters ------------------------------------------------------------------------

  /** A deployment is in the cluster of its project. */
  ghost predicate SameClusters(s: Store) {
    forall i :: i in s.deployments && s.deployments[i].projectId in s.projects ==>
      s.deployments[i].clusterId == s.projects[s.deployments[i].projectId].clusterId
  }

  /** Neither a deployment for another cluster, nor moving a project away from its deployments. */
  ghost predicate KeepsClusters(s: Store, op: Op) {
    match op
    case PutDeployment(d) =>
      d.projectId in s.projects ==> d.clusterId == s.projects[d.projectId].clusterId
    case PutProject(p, now) =>
      !Taken(s, p) ==>
        forall i :: i in s.deployments && s.deployments[i].projectId == p.id ==>
          s.deployments[i].clusterId == p.clusterId
    case _ => true
  }

  /**
    The store checks neither: an operation keeps deployments in the cluster of
    their project exactly when it does neither.
   */
  lemma ClustersKeptExactlyWhen(s: Store, op: Op)
    requires Sound(s) && SameClusters(s)
    ensures SameClusters(Apply(s, op)) <==> KeepsClusters(s, op)
  {
    var t := Apply(s, op);
    match op {
      case PutDeployment(d) =>
        if d.projectId in s.projects { assert t.deployments[d.id] == d; }
      case PutProject(p, now) =>
        if !Taken(s, p) {
          assert t.projects[p.id].clusterId == p.clusterId && t.deployments == s.deployments;
        }
      case _ =>
    }
  }
}
