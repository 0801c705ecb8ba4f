/**
  The webhook delivery log (internal/appdb/automation_memory.go): each add trims
  its flow in place to the newest `keep` entries.  The bounded log must answer
  as the log that never forgets.
 */
module DeliveryLog {
  import opened Common

  datatype Delivery = Delivery(
    id: string, clusterId: string, flowId: string, status: int, runId: string,
    error: string, payload: string, createdAt: Time)

  type Log = seq<Delivery>

  function InFlow(f: string): Delivery -> bool { (d: Delivery) => d.flowId == f }
  function InCluster(c: string): Delivery -> bool { (d: Delivery) => d.clusterId == c }

  function OfFlow(s: Log, f: string): Log { Filter(s, InFlow(f)) }
  function OfCluster(s: Log, c: string): Log { Filter(s, InCluster(c)) }

  /** The newest n entries, oldest first; all of them for n <= 0. */
  function Last(n: int, s: Log): Log {
    if n <= 0 || |s| <= n then s else s[|s| - n..]
  }

  function Reverse(s: Log): Log {
    if s == [] then [] else Reverse(s[1..]) + [s[0]]
  }

  // ----- adding ---------------------------------------------------------------------

  /** Drop the entries of flow f that have `keep` newer entries of f after them. */
  function Trim(s: Log, f: string, keep: int): Log {
    if s == [] then []
    else if keep > 0 && s[0].flowId == f && |OfFlow(s[1..], f)| >= keep then Trim(s[1..], f, keep)
    else [s[0]] + Trim(s[1..], f, keep)
  }

  function Stamped(d: Delivery, now: Time): Delivery {
    if d.createdAt == ZERO_TIME then d.(createdAt := now) else d
  }

  /** The log once the backward loop has dealt with everything from index i on. */
  function PartlyTrimmed(all: Log, i: nat, f: string, keep: int): Log
    requires i <= |all|
  {
    all[..i] + Trim(all[i..], f, keep)
  }

  lemma TrimStep(all: Log, i: nat, f: string, keep: int)
    requires i < |all|
    ensures |OfFlow(all[i..], f)| == |OfFlow(all[i + 1..], f)| + if all[i].flowId == f then 1 else 0
    ensures var was := PartlyTrimmed(all, i + 1, f, keep);
      && |was| > i && was[i] == all[i]
      && PartlyTrimmed(all, i, f, keep)
         == if keep > 0 && all[i].flowId == f && |OfFlow(all[i..], f)| > keep then was[..i] + was[i + 1..] else was
  {
    assert all[i..][1..] == all[i + 1..];
    var t := Trim(all[i + 1..], f, keep);
    DropAt(all[..i], all[i], t);
    assert all[..i + 1] == all[..i] + [all[i]];
    assert all[..i] + ([all[i]] + t) == all[..i] + [all[i]] + t;
  }

  lemma DropAt(a: Log, x: Delivery, t: Log)
    ensures var was := a + [x] + t;
      was[|a|] == x && was[..|a|] + was[|a| + 1..] == a + t
  {
    var was := a + [x] + t;
    assert was[..|a|] == a && was[|a| + 1..] == t;
  }

  // ----- listing -----------------------------------------------------------------------

  predicate Matches(d: Delivery, c: string, f: string) {
    d.clusterId == c && (f == "" || d.flowId == f)
  }

  function Match(c: string, f: string): Delivery -> bool { (d: Delivery) => Matches(d, c, f) }

  function Matching(s: Log, c: string, f: string): Log { Filter(s, Match(c, f)) }

  /** The newest matching entries, newest first. */
  function Listing(s: Log, c: string, f: string, limit: int): Log {
    Reverse(Last(limit, Matching(s, c, f)))
  }

  lemma {:induction false} ReverseLength(s: Log)
    ensures |Reverse(s)| == |s|
  {
    if s != [] { ReverseLength(s[1..]); }
  }

  /** Of a log the last n entries, all of them for n <= 0. */
  lemma LastExactly(n: int, s: Log)
    ensures exists a :: s == a + Last(n, s)
    ensures |Last(n, s)| == if n <= 0 || |s| <= n then |s| else n
  {
    assert s == s[..|s| - |Last(n, s)|] + Last(n, s);
  }

  lemma {:induction false} ReverseAt(s: Log, k: nat)
    requires k < |s|
    ensures |Reverse(s)| == |s| && Reverse(s)[k] == s[|s| - 1 - k]
  {
    ReverseLength(s);
    if k < |s| - 1 { ReverseAt(s[1..], k); } else { ReverseLength(s[1..]); }
  }

  lemma ListingAt(m: Log, limit: int, k: nat)
    requires k < |Last(limit, m)|
    ensures |Reverse(Last(limit, m))| == |Last(limit, m)| && Reverse(Last(limit, m))[k] == m[|m| - 1 - k]
  {
    var tail := Last(limit, m);
    ReverseAt(tail, k);
    assert tail[|tail| - 1 - k] == m[|m| - 1 - k];
  }

  /** The entries of cluster c, and of flow f if one is given. */
  predicate Wanted(d: Delivery, c: string, f: string) { d.clusterId == c && (f != "" ==> d.flowId == f) }

  /** Entries from the newest on: each one older in the log than the one before. */
  ghost predicate NewestFirst(s: Log, c: string, f: string, out: Log, at: seq<nat>) {
    && |at| == |out|
    && (forall k :: 0 <= k < |out| ==> at[k] < |s| && s[at[k]] == out[k] && Wanted(out[k], c, f))
    && (forall k, l :: 0 <= k < l < |out| ==> at[k] > at[l])
  }

  /** The last n of `all`, the last one first. */
  function Backwards(all: seq<nat>, n: nat): seq<nat>
    requires n <= |all|
  {
    seq(n, k requires 0 <= k < n => all[|all| - 1 - k])
  }

  lemma BackwardsLeavesOut(all: seq<nat>, n: nat, i: nat)
    requires n <= |all| && (forall k, l :: 0 <= k < l < |all| ==> all[k] < all[l])
    requires i in all && i !in Backwards(all, n)
    ensures n < |all| && forall k :: 0 <= k < n ==> i < Backwards(all, n)[k]
  {
    var k :| 0 <= k < |all| && all[k] == i;
    forall j | |all| - n <= j < |all| ensures all[j] in Backwards(all, n) {
      assert Backwards(all, n)[|all| - 1 - j] == all[j];
    }
  }

  lemma BackwardsListed(s: Log, c: string, f: string, m: Log, all: seq<nat>, limit: int)
    requires Places(s, Match(c, f), |s|, m, all)
    ensures NewestFirst(s, c, f, Reverse(Last(limit, m)), Backwards(all, |Last(limit, m)|))
  {
    var out, at := Reverse(Last(limit, m)), Backwards(all, |Last(limit, m)|);
    ReverseLength(Last(limit, m));
    forall k | 0 <= k < |out| ensures at[k] < |s| && s[at[k]] == out[k] && Wanted(out[k], c, f) {
      ListingAt(m, limit, k);
      assert Match(c, f)(m[|m| - 1 - k]);
    }
  }

  /**
    A listing shows wanted entries from the newest on; what it leaves out is older
    than all it shows, and is left out only when the limit is reached.
   */
  lemma ListedNewestFirst(s: Log, c: string, f: string, limit: int) returns (at: seq<nat>)
    ensures NewestFirst(s, c, f, Listing(s, c, f, limit), at)
    ensures forall i :: 0 <= i < |s| && Wanted(s[i], c, f) && i !in at ==>
              0 < limit == |at| && forall k :: 0 <= k < |at| ==> i < at[k]
  {
    var m := Matching(s, c, f);
    var all := FilterPlaces(s, Match(c, f), |s|);
    assert s[..|s|] == s;
    BackwardsListed(s, c, f, m, all, limit);
    at := Backwards(all, |Last(limit, m)|);
    forall i | 0 <= i < |s| && Wanted(s[i], c, f) && i !in at
      ensures 0 < limit == |at| && forall k :: 0 <= k < |at| ==> i < at[k]
    {
      assert Match(c, f)(s[i]);
      BackwardsLeavesOut(all, |Last(limit, m)|, i);
    }
  }

  /** The creation time is filled in when it is zero. */
  lemma StampedExactly(d: Delivery, now: Time)
    ensures Stamped(d, now).(createdAt := d.createdAt) == d
    ensures Stamped(d, now).createdAt == if d.createdAt == 0 then now else d.createdAt
  {
  }

  class DeliveryStore {
    var deliveries: Log

    constructor ()
      ensures deliveries == []
    {
      deliveries := [];
    }

    /** keep <= 0 keeps everything. */
    method AddAutomationWebhookDelivery(d: Delivery, keep: int, now: Time)
      modifies this
      ensures deliveries == Trim(old(deliveries) + [Stamped(d, now)], d.flowId, keep)
    {
      deliveries := deliveries + [Stamped(d, now)];
      ghost var all := deliveries;
      var n := 0;
      var i := |deliveries|;
      while i > 0
        invariant 0 <= i <= |all|
        invariant n == |OfFlow(all[i..], d.flowId)|
        invariant deliveries == PartlyTrimmed(all, i, d.flowId, keep)
      {
        i := i - 1;
        TrimStep(all, i, d.flowId, keep);
        if deliveries[i].flowId == d.flowId {
          n := n + 1;
          if keep > 0 && n > keep {
            deliveries := deliveries[..i] + deliveries[i + 1..];
          }
        }
      }
      assert all[0..] == all && all[..0] == [];
    }

    method ListAutomationWebhookDeliveries(cluster: string, flow: string, limit: int) returns (out: Log)
      ensures out == Listing(deliveries, cluster, flow, limit)
    {
      out := NewestMatching(deliveries, cluster, flow, limit);
    }
  }

  /** The backward scan over the stored entries, stopping at the limit. */
  method NewestMatching(log: Log, cluster: string, flow: string, limit: int) returns (out: Log)
    ensures out == Listing(log, cluster, flow, limit)
  {
    out := [];
    var i := |log|;
    while i > 0
      invariant 0 <= i <= |log|
      invariant limit > 0 ==> |out| < limit
      invariant out == Backward(log, i, cluster, flow)
    {
      i := i - 1;
      BackwardStep(log, i, cluster, flow);
      if Matches(log[i], cluster, flow) {
        out := out + [log[i]];
        if limit > 0 && |out| >= limit {
          FullListing(log, i, cluster, flow, limit);
          return;
        }
      }
    }
    ScannedAll(log, cluster, flow, limit);
  }

  /** What the scan has collected once it reached index i. */
  function Backward(s: Log, i: nat, c: string, f: string): Log
    requires i <= |s|
  {
    Reverse(Matching(s[i..], c, f))
  }

  lemma BackwardStep(s: Log, i: nat, c: string, f: string)
    requires i < |s|
    ensures Backward(s, i, c, f)
         == if Matches(s[i], c, f) then Backward(s, i + 1, c, f) + [s[i]] else Backward(s, i + 1, c, f)
  {
    assert s[i..][1..] == s[i + 1..];
    var m := Matching(s[i + 1..], c, f);
    if Matches(s[i], c, f) {
      assert ([s[i]] + m)[1..] == m;
    }
  }

  /** The scan may stop as soon as it has `limit` entries. */
  lemma FullListing(s: Log, i: nat, c: string, f: string, limit: nat)
    requires i <= |s| && limit > 0 && |Backward(s, i, c, f)| == limit
    ensures Listing(s, c, f, limit) == Backward(s, i, c, f)
  {
    ReverseLength(Matching(s[i..], c, f));
    FilterConcat(s[..i], s[i..], Match(c, f));
    assert s == s[..i] + s[i..];
  }

  lemma ScannedAll(s: Log, c: string, f: string, limit: int)
    requires limit > 0 ==> |Backward(s, 0, c, f)| < limit
    ensures Listing(s, c, f, limit) == Backward(s, 0, c, f)
  {
    ReverseLength(Matching(s, c, f));
    assert s[0..] == s;
  }

  // ----- the log that never forgets -------------------------------------------------------

  /** The entries with fewer than k newer entries of their own flow. */
  function Survivors(history: Log, k: nat): Log {
    if history == [] then []
    else if |OfFlow(history[1..], history[0].flowId)| < k then [history[0]] + Survivors(history[1..], k)
    else Survivors(history[1..], k)
  }

  /** Each flow's stored entries are exactly the last k of its full history, in order. */
  lemma {:induction false} SurvivorsOfFlow(history: Log, k: nat, f: string)
    requires k > 0
    ensures OfFlow(Survivors(history, k), f) == Last(k, OfFlow(history, f))
  {
    if history != [] {
      SurvivorsOfFlow(history[1..], k, f);
      var h, rest := history[0], history[1..];
      if |OfFlow(rest, h.flowId)| < k {
        assert ([h] + Survivors(rest, k))[1..] == Survivors(rest, k);
      }
    }
  }

  /** What is remembered is in the order of the history. */
  lemma {:induction false} SurvivorsInOrder(history: Log, k: nat)
    ensures Subsequence(Survivors(history, k), history)
  {
    if history != [] {
      SurvivorsInOrder(history[1..], k);
      assert ([history[0]] + Survivors(history[1..], k))[1..] == Survivors(history[1..], k);
    }
  }

  /** Without a bound nothing is dropped. */
  lemma {:induction false} UnboundedKeepsAll(s: Log, f: string, keep: int)
    requires keep <= 0
    ensures Trim(s, f, keep) == s
  {
    if s != [] { UnboundedKeepsAll(s[1..], f, keep); }
  }

  lemma {:induction false} TrimOfOther(s: Log, f: string, keep: int, g: string)
    requires f != g
    ensures OfFlow(Trim(s, f, keep), g) == OfFlow(s, g)
  {
    if s != [] {
      TrimOfOther(s[1..], f, keep, g);
      FilterConcat([s[0]], Trim(s[1..], f, keep), InFlow(g));
      assert [s[0]][1..] == [];
    }
  }

  /** A new entry makes one more of its own flow come after h, and none of another. */
  lemma NewerCounts(rest: Log, d: Delivery, k: nat, f: string)
    requires k > 0
    ensures |OfFlow(rest + [d], f)| == |OfFlow(rest, f)| + if d.flowId == f then 1 else 0
    ensures |OfFlow(Survivors(rest, k) + [d], f)| == Min(k, |OfFlow(rest, f)|) + if d.flowId == f then 1 else 0
  {
    FilterConcat(rest, [d], InFlow(f));
    FilterConcat(Survivors(rest, k), [d], InFlow(f));
    SurvivorsOfFlow(rest, k, f);
  }

  /** One add: remembering less after remembering everything is trimming what was remembered. */
  lemma {:induction false} AddKeepsSurvivors(history: Log, d: Delivery, k: nat)
    requires k > 0
    ensures Trim(Survivors(history, k) + [d], d.flowId, k) == Survivors(history + [d], k)
  {
    if history == [] {
      assert Survivors(history, k) + [d] == [d] == history + [d];
    } else {
      var h, rest := history[0], history[1..];
      AddKeepsSurvivors(rest, d, k);
      assert (history + [d])[1..] == rest + [d];
      NewerCounts(rest, d, k, h.flowId);
      if |OfFlow(rest, h.flowId)| < k {
        assert (Survivors(history, k) + [d])[1..] == Survivors(rest, k) + [d];
      }
    }
  }

  /** The store after a sequence of adds with one `keep`. */
  function AddAll(history: Log, k: nat): Log
    decreases |history|
  {
    if history == [] then []
    else
      var last := history[|history| - 1];
      Trim(AddAll(history[..|history| - 1], k) + [last], last.flowId, k)
  }

  lemma {:induction false} LogIsSurvivors(history: Log, k: nat)
    requires k > 0
    ensures AddAll(history, k) == Survivors(history, k)
    decreases |history|
  {
    if history != [] {
      var init, last := history[..|history| - 1], history[|history| - 1];
      LogIsSurvivors(init, k);
      AddKeepsSurvivors(init, last, k);
      assert init + [last] == history;
    }
  }

  // ----- listings of the bounded and the unbounded log ---------------------------------------

  lemma {:induction false} MatchingFlow(s: Log, c: string, f: string)
    requires f != ""
    ensures Matching(s, c, f) == OfCluster(OfFlow(s, f), c)
  {
    if s != [] {
      MatchingFlow(s[1..], c, f);
      if s[0].flowId == f {
        assert ([s[0]] + OfFlow(s[1..], f))[1..] == OfFlow(s[1..], f);
      } else {
        assert OfFlow(s, f) == OfFlow(s[1..], f) && Matching(s, c, f) == Matching(s[1..], c, f);
      }
    }
  }

  lemma {:induction false} OfClusterBounds(s: Log, c: string)
    ensures |OfCluster(s, c)| <= |s|
    ensures (forall i :: 0 <= i < |s| ==> s[i].clusterId == c) ==> OfCluster(s, c) == s
    ensures (exists i :: 0 <= i < |s| && s[i].clusterId != c) ==> |OfCluster(s, c)| < |s|
    ensures (forall i :: 0 <= i < |s| ==> s[i].clusterId != c) ==> OfCluster(s, c) == []
  {
    if s != [] {
      OfClusterBounds(s[1..], c);
      if exists i :: 0 <= i < |s| && s[i].clusterId != c {
        var i :| 0 <= i < |s| && s[i].clusterId != c;
        assert i > 0 ==> s[1..][i - 1].clusterId != c;
      }
    }
  }

  lemma BoundedListing(history: Log, c: string, f: string, keep: nat, limit: nat)
    requires f != "" && 1 <= limit <= keep
    ensures Listing(AddAll(history, keep), c, f, limit)
         == Reverse(Last(limit, OfCluster(Last(keep, OfFlow(history, f)), c)))
    ensures Listing(history, c, f, limit) == Reverse(Last(limit, OfCluster(OfFlow(history, f), c)))
  {
    LogIsSurvivors(history, keep);
    SurvivorsOfFlow(history, keep, f);
    MatchingFlow(Survivors(history, keep), c, f);
    MatchingFlow(history, c, f);
  }

  lemma ListingLengths(history: Log, c: string, f: string, keep: nat, limit: nat)
    requires f != "" && 1 <= limit <= keep
    ensures |Listing(AddAll(history, keep), c, f, limit)| == Min(limit, |OfCluster(Last(keep, OfFlow(history, f)), c)|)
    ensures |Listing(history, c, f, limit)| == Min(limit, |OfCluster(OfFlow(history, f), c)|)
  {
    BoundedListing(history, c, f, keep, limit);
    ReverseLength(Last(limit, OfCluster(OfFlow(history, f), c)));
    ReverseLength(Last(limit, OfCluster(Last(keep, OfFlow(history, f)), c)));
  }

  /** The listings of the two logs agree for every limit up to keep. */
  ghost predicate Agrees(history: Log, c: string, f: string, keep: nat) {
    forall limit: nat :: 1 <= limit <= keep ==>
      Listing(AddAll(history, keep), c, f, limit) == Listing(history, c, f, limit)
  }

  /**
    Of a flow's deliveries s, those forgotten under `keep` include none for cluster
    c, or those remembered are all for c.
   */
  ghost predicate Enough(s: Log, c: string, keep: nat) {
    || |s| <= keep
    || (forall i :: 0 <= i < |s| - keep ==> s[i].clusterId != c)
    || (forall i :: |s| - keep <= i < |s| ==> s[i].clusterId == c)
  }

  lemma NoneForgotten(a: Log, w: Log, c: string)
    requires forall i :: 0 <= i < |a| ==> a[i].clusterId != c
    ensures OfCluster(a + w, c) == OfCluster(w, c)
  {
    FilterConcat(a, w, InCluster(c));
    OfClusterBounds(a, c);
    assert [] + OfCluster(w, c) == OfCluster(w, c);
  }

  lemma OnlyRemembered(a: Log, w: Log, c: string)
    requires forall i :: 0 <= i < |w| ==> w[i].clusterId == c
    ensures OfCluster(a + w, c) == OfCluster(a, c) + w && OfCluster(w, c) == w
  {
    FilterConcat(a, w, InCluster(c));
    OfClusterBounds(w, c);
  }

  lemma EnoughAgrees(s: Log, c: string, keep: nat, limit: nat)
    requires Enough(s, c, keep) && 1 <= limit <= keep
    ensures Last(limit, OfCluster(Last(keep, s), c)) == Last(limit, OfCluster(s, c))
  {
    if |s| > keep {
      var a, w := s[..|s| - keep], s[|s| - keep..];
      assert s == a + w && Last(keep, s) == w;
      if forall i :: 0 <= i < |a| ==> a[i].clusterId != c {
        NoneForgotten(a, w, c);
      } else {
        assert forall i :: 0 <= i < |w| ==> w[i] == s[|s| - keep + i];
        OnlyRemembered(a, w, c);
        LastOfConcat(OfCluster(a, c), w, limit);
      }
    }
  }

  lemma LastOfConcat(a: Log, b: Log, n: nat)
    requires 1 <= n <= |b|
    ensures Last(n, a + b) == Last(n, b)
  {
  }

  lemma MixedCounts(s: Log, c: string, keep: nat)
    requires !Enough(s, c, keep)
    ensures |OfCluster(Last(keep, s), c)| < keep && |OfCluster(Last(keep, s), c)| < |OfCluster(s, c)|
  {
    var a, w := s[..|s| - keep], s[|s| - keep..];
    var i :| 0 <= i < |s| - keep && s[i].clusterId == c;
    var j :| |s| - keep <= j < |s| && s[j].clusterId != c;
    assert a[i].clusterId == c && w[j - |a|].clusterId != c;
    assert s == a + w && Last(keep, s) == w;
    FilterConcat(a, w, InCluster(c));
    OfClusterBounds(w, c);
    OfClusterFinds(a, c, i);
  }

  /** A delivery for c is forgotten while one for another cluster is remembered: some limit shows it. */
  lemma MixedDisagrees(history: Log, c: string, f: string, keep: nat)
    requires f != "" && keep > 0 && !Enough(OfFlow(history, f), c, keep)
    ensures !Agrees(history, c, f, keep)
  {
    MixedCounts(OfFlow(history, f), c, keep);
    var limit := |OfCluster(Last(keep, OfFlow(history, f)), c)| + 1;
    ListingLengths(history, c, f, keep, limit);
    assert |Listing(AddAll(history, keep), c, f, limit)| < |Listing(history, c, f, limit)|;
  }

  lemma OfClusterFinds(s: Log, c: string, i: nat)
    requires i < |s| && s[i].clusterId == c
    ensures OfCluster(s, c) != []
  {
    assert s == s[..i] + ([s[i]] + s[i + 1..]);
    FilterConcat(s[..i], [s[i]] + s[i + 1..], InCluster(c));
  }

  /**
    Under a given keep, listing one flow of one cluster answers every limit up to
    keep as the full history would, exactly when no delivery for that cluster was
    forgotten, or only such are remembered: trimming counts a flow's entries
    across clusters.
   */
  lemma ListingAgrees(history: Log, c: string, f: string, keep: nat)
    requires f != "" && keep > 0
    ensures Agrees(history, c, f, keep) <==> Enough(OfFlow(history, f), c, keep)
  {
    if Enough(OfFlow(history, f), c, keep) {
      forall limit: nat | 1 <= limit <= keep
        ensures Listing(AddAll(history, keep), c, f, limit) == Listing(history, c, f, limit)
      {
        BoundedListing(history, c, f, keep, limit);
        EnoughAgrees(OfFlow(history, f), c, keep, limit);
      }
    } else {
      MixedDisagrees(history, c, f, keep);
    }
  }
}
