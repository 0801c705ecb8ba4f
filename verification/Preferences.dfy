/**
  User preferences (internal/appdb/phase17.go): full upserts never touch the
  interface preferences, merges touch nothing else.
 */
module Preferences {
  import opened Common

  const GUIDED := "guided"

  type Ui = map<string, string>

  /** `ui` is None for Go's nil map. */
  datatype Prefs = Prefs(
    userId: string, clusterId: string, uxLevel: string, expertAckAt: Option<Time>, workloadSort: string,
    workloadOrder: seq<string>, ui: Option<Ui>, updatedAt: Time)

  type Store = map<string, Prefs>

  function UiOf(s: Store, user: string): Option<Ui> {
    if user in s then s[user].ui else None
  }

  function Entries(ui: Option<Ui>): Ui { if ui.Some? then ui.value else map[] }

  function Upsert(s: Store, p: Prefs, now: Time): Store {
    s[p.userId := p.(updatedAt := if p.updatedAt == ZERO_TIME then now else p.updatedAt, ui := UiOf(s, p.userId))]
  }

  /** Keys to set, then keys to remove. */
  datatype Edit = Edit(assign: Ui, remove: seq<string>)

  function Touched(e: Edit): set<string> { e.assign.Keys + set k | k in e.remove }

  function Edited(ui: Ui, e: Edit): Ui { (ui + e.assign) - set k | k in e.remove }

  function Merge(s: Store, user: string, cluster: string, e: Edit, now: Time): Store {
    var p := if user in s then s[user] else Prefs(user, cluster, GUIDED, None, "", [], None, ZERO_TIME);
    s[user := p.(ui := Some(Edited(Entries(p.ui), e)), updatedAt := now)]
  }

  /** A full upsert stores the given record with the interface preferences stored before, and touches nobody else's. */
  lemma UpsertExactly(s: Store, p: Prefs, now: Time)
    ensures var t := Upsert(s, p, now);
            && t.Keys == s.Keys + {p.userId} && (forall v :: v in s && v != p.userId ==> t[v] == s[v])
            && t[p.userId].(ui := p.ui, updatedAt := p.updatedAt) == p
            && t[p.userId].ui == (if p.userId in s then s[p.userId].ui else None)
            && t[p.userId].updatedAt == (if p.updatedAt == 0 then now else p.updatedAt)
  {
  }

  /**
    A merge sets its keys, but for those it also removes, keeps the other entries,
    and touches nothing else; a new user starts out guided.
   */
  lemma MergeExactly(s: Store, user: string, cluster: string, e: Edit, now: Time, k: string)
    ensures var t := Merge(s, user, cluster, e, now);
            && t.Keys == s.Keys + {user} && (forall v :: v in s && v != user ==> t[v] == s[v])
            && t[user].updatedAt == now && t[user].ui.Some?
            && (user in s ==> t[user].(ui := s[user].ui, updatedAt := s[user].updatedAt) == s[user])
            && (user !in s ==>
                  && t[user].userId == user && t[user].clusterId == cluster && t[user].uxLevel == "guided"
                  && t[user].expertAckAt == None && t[user].workloadSort == "" && t[user].workloadOrder == [])
            && var had := user in s && s[user].ui.Some? && k in s[user].ui.value;
               var ui := t[user].ui.value;
               && (k in ui <==> k !in e.remove && (k in e.assign || had))
               && (k in ui ==> ui[k] == if k in e.assign then e.assign[k] else s[user].ui.value[k])
  {
  }

  class PrefsMemory {
    var prefs: Store

    constructor ()
      ensures prefs == map[]
    {
      prefs := map[];
    }

    method UpsertUserPrefs(p: Prefs, now: Time)
      modifies this
      ensures prefs == Upsert(old(prefs), p, now)
    {
      var q := p;
      if q.updatedAt == ZERO_TIME {
        q := q.(updatedAt := now);
      }
      var ui := CopyUi(UiOf(prefs, p.userId));
      prefs := prefs[p.userId := q.(ui := ui)];
    }

    method MergeUserUiPrefs(user: string, cluster: string, e: Edit, now: Time)
      modifies this
      ensures prefs == Merge(old(prefs), user, cluster, e, now)
    {
      var p := Prefs(user, cluster, GUIDED, None, "", [], None, ZERO_TIME);
      if user in prefs {
        p := prefs[user];
      }
      var copy := CopyUi(p.ui);
      var ui := if copy.None? then map[] else copy.value;
      ui := ApplyEdit(ui, e);
      prefs := prefs[user := p.(ui := Some(ui), updatedAt := now)];
    }
  }

  /** copyUI: key by key into a fresh map. */
  method CopyUi(ui: Option<Ui>) returns (out: Option<Ui>)
    ensures out == ui
  {
    if ui.None? {
      return None;
    }
    var entries: Ui := map[];
    var todo := ui.value.Keys;
    while todo != {}
      invariant todo <= ui.value.Keys && entries.Keys == ui.value.Keys - todo
      invariant forall k :: k in entries ==> entries[k] == ui.value[k]
      decreases todo
    {
      var k :| k in todo;
      entries := entries[k := ui.value[k]];
      todo := todo - {k};
    }
    assert entries == ui.value;
    return Some(entries);
  }

  method ApplyEdit(ui: Ui, e: Edit) returns (out: Ui)
    ensures out == Edited(ui, e)
  {
    out := ui;
    var todo := e.assign.Keys;
    while todo != {}
      invariant todo <= e.assign.Keys
      invariant out.Keys == ui.Keys + (e.assign.Keys - todo)
      invariant forall k :: k in out ==> out[k] == if k in e.assign && k !in todo then e.assign[k] else ui[k]
      decreases todo
    {
      var k :| k in todo;
      out := out[k := e.assign[k]];
      todo := todo - {k};
    }
    assert out == ui + e.assign;
    for i := 0 to |e.remove|
      invariant out == (ui + e.assign) - set k | k in e.remove[..i]
    {
      assert e.remove[..i + 1] == e.remove[..i] + [e.remove[i]];
      out := out - {e.remove[i]};
    }
    assert e.remove[..|e.remove|] == e.remove;
  }

  // ----- commuting ----------------------------------------------------------------------

  /** Equal but for the update times. */
  ghost predicate SameButTime(a: Store, b: Store) {
    && a.Keys == b.Keys
    && forall u :: u in a ==> a[u].(updatedAt := 0) == b[u].(updatedAt := 0)
  }

  lemma EditsCommute(ui: Ui, e: Edit, f: Edit)
    requires Touched(e) !! Touched(f)
    ensures Edited(Edited(ui, e), f) == Edited(Edited(ui, f), e)
  {
    var a, b := Edited(Edited(ui, e), f), Edited(Edited(ui, f), e);
    forall k ensures k in a <==> k in b {
      assert k in Touched(e) ==> k !in Touched(f);
    }
    forall k | k in a ensures a[k] == b[k] {
      assert k in Touched(e) ==> k !in Touched(f);
    }
  }

  /**
    Merges of disjoint keys lose nothing of each other: they commute, up to the
    update time, exactly when they meet an existing record, concern different
    users or carry the same cluster.  The first merge for an unknown user fixes
    the cluster of the record it creates.
   */
  lemma MergesCommute(s: Store, u: string, c: string, e: Edit, t: Time, u': string, c': string, e': Edit, t': Time)
    requires Touched(e) !! Touched(e')
    ensures SameButTime(Merge(Merge(s, u, c, e, t), u', c', e', t'), Merge(Merge(s, u', c', e', t'), u, c, e, t))
            <==> u in s || u != u' || c == c'
  {
    if u == u' {
      MergesOfOneUser(s, u, c, e, t, c', e', t');
    } else {
      var a, b := Merge(Merge(s, u, c, e, t), u', c', e', t'), Merge(Merge(s, u', c', e', t'), u, c, e, t);
      assert a == b;
    }
  }

  lemma MergesOfOneUser(s: Store, u: string, c: string, e: Edit, t: Time, c': string, e': Edit, t': Time)
    requires Touched(e) !! Touched(e')
    ensures SameButTime(Merge(Merge(s, u, c, e, t), u, c', e', t'), Merge(Merge(s, u, c', e', t'), u, c, e, t))
            <==> u in s || c == c'
  {
    var a, b := Merge(Merge(s, u, c, e, t), u, c', e', t'), Merge(Merge(s, u, c', e', t'), u, c, e, t);
    assert a.Keys == b.Keys;
    EditsCommute(Entries(UiOf(s, u)), e, e');
    assert a[u].ui == b[u].ui;
    assert a[u].clusterId == (if u in s then s[u].clusterId else c);
    assert b[u].clusterId == (if u in s then s[u].clusterId else c');
    assert forall v :: v in s && v != u ==> a[v] == s[v] == b[v];
  }

  /** A merge and a full upsert commute up to the update time, whatever clusters they carry. */
  lemma MergeCommutesWithUpsert(s: Store, p: Prefs, t: Time, u: string, c: string, e: Edit, t': Time)
    ensures SameButTime(Merge(Upsert(s, p, t), u, c, e, t'), Upsert(Merge(s, u, c, e, t'), p, t))
  {
    var a, b := Merge(Upsert(s, p, t), u, c, e, t'), Upsert(Merge(s, u, c, e, t'), p, t);
    assert a.Keys == b.Keys;
  }

  // ----- whole runs --------------------------------------------------------------------------

  datatype Op =
    | OpUpsert(p: Prefs, now: Time)
    | OpMerge(user: string, cluster: string, e: Edit, now: Time)

  function Apply(s: Store, op: Op): Store {
    match op
    case OpUpsert(p, now) => Upsert(s, p, now)
    case OpMerge(u, c, e, now) => Merge(s, u, c, e, now)
  }

  function Execute(s: Store, ops: seq<Op>): Store
    decreases |ops|
  {
    if ops == [] then s else Apply(Execute(s, ops[..|ops| - 1]), ops[|ops| - 1])
  }

  /** The value of an interface preference, if it has one. */
  function Lookup(s: Store, user: string, k: string): Option<string> {
    var ui := Entries(UiOf(s, user));
    if k in ui then Some(ui[k]) else None
  }

  predicate Concerns(op: Op, user: string, k: string) {
    op.OpMerge? && op.user == user && k in Touched(op.e)
  }

  /** What a merge says about a key: removing wins over setting. */
  function Verdict(e: Edit, k: string): Option<string>
    requires k in Touched(e)
  {
    if k in e.remove then None else Some(e.assign[k])
  }

  /** A key no merge concerns keeps its first value over every run, upserts included. */
  lemma {:induction false} UntouchedKeyStays(s: Store, ops: seq<Op>, user: string, k: string)
    requires forall i :: 0 <= i < |ops| ==> !Concerns(ops[i], user, k)
    ensures Lookup(Execute(s, ops), user, k) == Lookup(s, user, k)
    decreases |ops|
  {
    if ops != [] {
      var init, last := ops[..|ops| - 1], ops[|ops| - 1];
      UntouchedKeyStays(s, init, user, k);
      ApplyToKey(Execute(s, init), last, user, k);
    }
  }

  /** After every run a key has what the last merge that concerns it said. */
  lemma {:induction false} LastMergeWins(s: Store, ops: seq<Op>, user: string, k: string, i: nat)
    requires i < |ops| && Concerns(ops[i], user, k)
    requires forall j :: i < j < |ops| ==> !Concerns(ops[j], user, k)
    ensures Lookup(Execute(s, ops), user, k) == Verdict(ops[i].e, k)
    decreases |ops|
  {
    var init, last := ops[..|ops| - 1], ops[|ops| - 1];
    ApplyToKey(Execute(s, init), last, user, k);
    if i < |init| {
      assert init[i] == ops[i];
      LastMergeWins(s, init, user, k, i);
    }
  }

  lemma ApplyToKey(s: Store, op: Op, user: string, k: string)
    ensures Lookup(Apply(s, op), user, k) == if Concerns(op, user, k) then Verdict(op.e, k) else Lookup(s, user, k)
  {
  }
}
