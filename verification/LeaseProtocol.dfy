/**
  Any number of workers sharing one run table and one clock.  A worker believes
  it holds a run from a successful claim until that claim's expiry, unless it
  releases the run first.
 */
module LeaseProtocol {
  import opened Common
  import opened RunStore

  /** `beliefs[(w, id)]` is the expiry of the last unreleased successful claim of worker w on run id. */
  datatype State = State(runs: Runs, clock: Time, beliefs: map<(string, string), Time>)

  datatype Step =
    | Create(run: Run)
    | Update(run: Run)
    | Claim(worker: string, cluster: string, id: string, until: Time)
    | Release(worker: string, cluster: string, id: string)
    | Tick(elapsed: nat)

  /** Every step is atomic (the store holds its mutex, the table its row lock) and reads the shared clock. */
  function Next(s: State, step: Step): State {
    match step
    case Create(r) => s.(runs := CreateRun(s.runs, r, s.clock).0)
    case Update(r) => s.(runs := UpdateRun(s.runs, r, s.clock).0)
    case Claim(w, c, id, until) =>
      var (runs', ok) := ClaimRun(s.runs, c, id, w, s.clock, until);
      State(runs', s.clock, if ok then s.beliefs[(w, id) := until] else s.beliefs)
    case Release(w, c, id) =>
      State(ReleaseRun(s.runs, c, id, w), s.clock, s.beliefs - {(w, id)})
    case Tick(d) => s.(clock := s.clock + d)
  }

  function Execute(s: State, steps: seq<Step>): State
    decreases |steps|
  {
    if steps == [] then s else Execute(Next(s, steps[0]), steps[1..])
  }

  /** Nobody believes anything yet; the table may already hold runs with leases. */
  function Start(runs: Runs, clock: Time): State { State(runs, clock, map[]) }

  predicate Believes(s: State, w: string, id: string) {
    (w, id) in s.beliefs && s.beliefs[(w, id)] > s.clock
  }

  /** No two different workers believe they hold the same run. */
  ghost predicate MutualExclusion(s: State) {
    forall w, w', id :: Believes(s, w, id) && Believes(s, w', id) ==> w == w'
  }

  ghost predicate OwnersIn(steps: seq<Step>, owners: set<string>) {
    forall i :: 0 <= i < |steps| && (steps[i].Claim? || steps[i].Release?) ==> steps[i].worker in owners
  }

  /** An unexpired belief is exactly what the table stores. */
  ghost predicate BeliefsStored(s: State) {
    forall w, id :: Believes(s, w, id) ==>
      id in s.runs && w != "" && s.runs[id].leaseOwner == w && s.runs[id].leaseUntil == Some(s.beliefs[(w, id)])
  }

  lemma StepKeepsBeliefs(s: State, step: Step)
    requires BeliefsStored(s)
    requires step.Claim? ==> step.worker != ""
    ensures BeliefsStored(Next(s, step))
  {
    var t := Next(s, step);
    forall w, id | Believes(t, w, id)
      ensures id in t.runs && w != "" && t.runs[id].leaseOwner == w && t.runs[id].leaseUntil == Some(t.beliefs[(w, id)])
    {
      if && step.Claim? && step.worker == w && step.id == id
         && ClaimRun(s.runs, step.cluster, id, w, s.clock, step.until).1 {
      } else {
        assert Believes(s, w, id);
      }
    }
  }

  lemma {:induction false} RunKeepsBeliefs(s: State, steps: seq<Step>, owners: set<string>)
    requires BeliefsStored(s) && OwnersIn(steps, owners) && "" !in owners
    ensures BeliefsStored(Execute(s, steps))
    decreases |steps|
  {
    if steps != [] {
      StepKeepsBeliefs(s, steps[0]);
      RunKeepsBeliefs(Next(s, steps[0]), steps[1..], owners);
    }
  }

  /** Two workers never step the same run: the promise of ClaimAutomationRun, over every interleaving. */
  lemma LeaseSafety(runs: Runs, clock: Time, steps: seq<Step>, owners: set<string>)
    requires OwnersIn(steps, owners) && "" !in owners
    ensures MutualExclusion(Execute(Start(runs, clock), steps))
  {
    RunKeepsBeliefs(Start(runs, clock), steps, owners);
  }

  /**
    In every reachable state the lease works as a lock: while w believes it
    holds the run every other worker is refused, before and after any Update,
    and w itself may renew.  Once the stored lease has run out anybody
    may claim.
   */
  lemma LeaseIsALock(runs: Runs, clock: Time, steps: seq<Step>, owners: set<string>,
                     id: string, w: string, other: string, until: Time, edit: Run)
    requires OwnersIn(steps, owners) && "" !in owners
    ensures var s := Execute(Start(runs, clock), steps);
            && (Believes(s, w, id) && other != w ==>
                  forall c ::
                    && Next(s, Claim(other, c, id, until)) == s
                    && !ClaimRun(Next(s, Update(edit)).runs, c, id, other, s.clock, until).1)
            && (Believes(s, w, id) ==>
                  && id in s.runs
                  && ClaimRun(s.runs, s.runs[id].clusterId, id, w, s.clock, until).1
                  && Believes(Next(s, Update(edit)), w, id))
            && (id in s.runs && !After(s.runs[id].leaseUntil, s.clock) ==>
                  ClaimRun(s.runs, s.runs[id].clusterId, id, other, s.clock, until).1)
  {
    RunKeepsBeliefs(Start(runs, clock), steps, owners);
  }

  // ----- the exact condition on owner names ------------------------------------

  ghost predicate SafeForOwners(owners: set<string>) {
    forall runs, clock, steps :: OwnersIn(steps, owners) ==> MutualExclusion(Execute(Start(runs, clock), steps))
  }

  ghost predicate BelieversIn(s: State, owners: set<string>) {
    forall k :: k in s.beliefs ==> k.0 in owners
  }

  lemma {:induction false} BelieversAreOwners(s: State, steps: seq<Step>, owners: set<string>)
    requires BelieversIn(s, owners) && OwnersIn(steps, owners)
    ensures BelieversIn(Execute(s, steps), owners)
    decreases |steps|
  {
    if steps != [] {
      BelieversAreOwners(Next(s, steps[0]), steps[1..], owners);
    }
  }

  const NO_ORIGIN := Origin("", 0, "", "", "", "", "", "", "", 0, "", "", "")
  const FRESH_RUN := Run("r", "c", NO_ORIGIN, PENDING, "", "", "", "", None, None, None, "", None, 1, 1)

  /** A lease claimed under the empty name reads as no lease, so the next worker takes it too. */
  lemma EmptyOwnerIsRobbed(w: string)
    requires w != ""
    ensures !MutualExclusion(Execute(Start(map["r" := FRESH_RUN], 1), [Claim("", "c", "r", 9), Claim(w, "c", "r", 9)]))
  {
    var s0 := Start(map["r" := FRESH_RUN], 1);
    var a, b := Claim("", "c", "r", 9), Claim(w, "c", "r", 9);
    var s1 := Next(s0, a);
    var s2 := Next(s1, b);
    assert [a, b][1..] == [b] && [b][1..] == [];
    assert Execute(s0, [a, b]) == Execute(s1, [b]) == Execute(s2, []) == s2;
    assert Believes(s2, "", "r") && Believes(s2, w, "r");
  }

  /** Leases exclude in every run exactly when the empty name is not one of several owners. */
  lemma SafeOwnerNames(owners: set<string>)
    ensures SafeForOwners(owners) <==> ("" in owners ==> owners == {""})
  {
    if "" !in owners {
      forall runs, clock, steps | OwnersIn(steps, owners)
        ensures MutualExclusion(Execute(Start(runs, clock), steps))
      {
        LeaseSafety(runs, clock, steps, owners);
      }
    } else if owners == {""} {
      forall runs, clock, steps | OwnersIn(steps, owners)
        ensures MutualExclusion(Execute(Start(runs, clock), steps))
      {
        BelieversAreOwners(Start(runs, clock), steps, owners);
      }
    } else {
      var w :| w in owners && w != "";
      EmptyOwnerIsRobbed(w);
      assert OwnersIn([Claim("", "c", "r", 9), Claim(w, "c", "r", 9)], owners);
    }
  }
}
