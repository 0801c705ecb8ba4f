/**
  Idempotent operation upserts (internal/appdb/phase2_memory.go).
 */
module Operations {
  import opened Common

  datatype Operation = Operation(
    id: string, clusterId: string, idempotencyKey: string, nodeId: string, kind: string, state: string,
    progress: Option<int>, stage: string, message: string, createdAt: Time, updatedAt: Time)

  function Stamped(op: Operation, now: Time): Operation {
    var updated := if op.updatedAt == ZERO_TIME then now else op.updatedAt;
    op.(updatedAt := updated, createdAt := if op.createdAt == ZERO_TIME then updated else op.createdAt)
  }

  /** The stored operation answers to op's idempotency key. */
  predicate SameKey(stored: Operation, op: Operation) {
    op.idempotencyKey != "" && stored.clusterId == op.clusterId && stored.idempotencyKey == op.idempotencyKey
  }

  predicate Answers(stored: Operation, op: Operation) { SameKey(stored, op) || stored.id == op.id }

  /** The first stored operation that answers, or the end. */
  function Slot(ops: seq<Operation>, op: Operation): (i: nat)
    ensures i <= |ops|
    ensures i < |ops| ==> Answers(ops[i], op)
    ensures forall j :: 0 <= j < i ==> !Answers(ops[j], op)
  {
    if ops == [] then 0
    else if Answers(ops[0], op) then 0
    else
      var rest := Slot(ops[1..], op);
      assert forall j :: 0 <= j < rest ==> ops[1..][j] == ops[j + 1];
      rest + 1
  }

  /** A match by key keeps the first id and creation time. */
  function Merged(stored: Operation, op: Operation): Operation {
    if SameKey(stored, op) then op.(id := stored.id, createdAt := stored.createdAt) else op
  }

  function Upsert(ops: seq<Operation>, op: Operation): seq<Operation> {
    var i := Slot(ops, op);
    if i < |ops| then ops[i := Merged(ops[i], op)] else ops + [op]
  }

  lemma SlotUnique(ops: seq<Operation>, op: Operation, i: nat)
    requires i <= |ops| && (i < |ops| ==> Answers(ops[i], op)) && forall j :: 0 <= j < i ==> !Answers(ops[j], op)
    ensures Slot(ops, op) == i
  {
    var s := Slot(ops, op);
    assert s < |ops| ==> Answers(ops[s], op);
  }

  /**
    An upsert stores the given operation: in the place of the first stored one
    with its cluster and non-empty key, or with its id, or at the end.  A match by
    key keeps the id and creation time stored first; nothing else changes.
   */
  lemma UpsertExactly(ops: seq<Operation>, op: Operation) returns (i: nat)
    ensures var after := Upsert(ops, op);
            && i < |after| && |after| == (if i < |ops| then |ops| else |ops| + 1)
            && (forall k :: 0 <= k < |ops| && k != i ==> after[k] == ops[k])
            && after[i].(id := op.id, createdAt := op.createdAt) == op
            && (i >= |ops| ==> i == |ops| && after[i] == op)
            && (i < |ops| ==>
                  if && op.idempotencyKey != "" && ops[i].clusterId == op.clusterId
                     && ops[i].idempotencyKey == op.idempotencyKey
                  then after[i].id == ops[i].id && after[i].createdAt == ops[i].createdAt
                  else ops[i].id == op.id && after[i] == op)
    ensures forall k :: 0 <= k < i && k < |ops| ==>
              && ops[k].id != op.id
              && (op.idempotencyKey != "" && ops[k].clusterId == op.clusterId ==>
                    ops[k].idempotencyKey != op.idempotencyKey)
  {
    i := Slot(ops, op);
    assert forall k :: 0 <= k < i ==> !Answers(ops[k], op);
  }

  /** Missing times are filled in: the update time with now, the creation time with the update time. */
  lemma StampedExactly(op: Operation, now: Time)
    ensures var o := Stamped(op, now);
            && o.(createdAt := op.createdAt, updatedAt := op.updatedAt) == op
            && o.updatedAt == (if op.updatedAt == 0 then now else op.updatedAt)
            && o.createdAt == (if op.createdAt == 0 then o.updatedAt else op.createdAt)
  {
  }

  class OperationStore {
    var operations: seq<Operation>

    constructor ()
      ensures operations == []
    {
      operations := [];
    }

    method UpsertOperation(op: Operation, now: Time)
      modifies this
      ensures operations == Upsert(old(operations), Stamped(op, now))
    {
      var o := Stamped(op, now);
      for i := 0 to |operations|
        invariant operations == old(operations)
        invariant forall j :: 0 <= j < i ==> !Answers(operations[j], o)
      {
        if && o.idempotencyKey != "" && operations[i].clusterId == o.clusterId
           && operations[i].idempotencyKey == o.idempotencyKey {
          SlotUnique(operations, o, i);
          operations := operations[i := o.(id := operations[i].id, createdAt := operations[i].createdAt)];
          return;
        }
        if operations[i].id == o.id {
          SlotUnique(operations, o, i);
          operations := operations[i := o];
          return;
        }
      }
      SlotUnique(operations, o, |operations|);
      operations := operations + [o];
    }
  }

  // ----- ids -------------------------------------------------------------------------------

  ghost predicate UniqueIds(ops: seq<Operation>) {
    forall i, j :: 0 <= i < j < |ops| ==> ops[i].id != ops[j].id
  }

  /** Ids stay unique, whatever is upserted: an id match that a key match would duplicate comes first or not at all. */
  lemma UpsertKeepsIds(ops: seq<Operation>, op: Operation)
    requires UniqueIds(ops)
    ensures UniqueIds(Upsert(ops, op))
  {
    var s, after := Slot(ops, op), Upsert(ops, op);
    forall i, j | 0 <= i < j < |after| ensures after[i].id != after[j].id {
      if s < |ops| {
        assert after[s].id == ops[s].id;
      }
    }
  }

  // ----- keys ------------------------------------------------------------------------------

  /** At most one operation per cluster and non-empty key. */
  ghost predicate UniqueKeys(ops: seq<Operation>) {
    forall i, j :: 0 <= i < j < |ops| ==> !SameKey(ops[i], ops[j])
  }

  /** op's id is found before its key. */
  ghost predicate IdBeforeKey(ops: seq<Operation>, op: Operation) {
    exists i, j :: 0 <= i < j < |ops| && ops[i].id == op.id && SameKey(ops[j], op)
  }

  /** One call keeps keys unique exactly when it does not find its id before its key. */
  lemma UpsertKeepsKeys(ops: seq<Operation>, op: Operation)
    requires UniqueIds(ops) && UniqueKeys(ops)
    ensures UniqueKeys(Upsert(ops, op)) <==> !IdBeforeKey(ops, op)
  {
    var s, after := Slot(ops, op), Upsert(ops, op);
    if IdBeforeKey(ops, op) {
      var i, j :| 0 <= i < j < |ops| && ops[i].id == op.id && SameKey(ops[j], op);
      assert Answers(ops[i], op) && s <= i;
      assert !SameKey(ops[s], ops[j]);
      assert SameKey(after[s], after[j]);
    } else {
      forall i, j | 0 <= i < j < |after| ensures !SameKey(after[i], after[j]) {
        if j == s && s < |ops| {
          assert !Answers(ops[i], op);
        } else if i == s && s < |ops| {
          assert ops[s].id == op.id ==> !SameKey(ops[j], op);
          assert SameKey(ops[s], op) ==> !SameKey(ops[s], ops[j]);
        } else if s == |ops| && j == s {
          assert !Answers(ops[i], op);
        }
      }
    }
  }

  /** Reusing an id with another operation's key makes that key ambiguous. */
  lemma ReusedIdBreaksKeys(a: Operation, b: Operation)
    requires a.id != b.id && b.idempotencyKey != "" && !SameKey(a, b)
    ensures UniqueKeys([a, b]) && !UniqueKeys(Upsert([a, b], b.(id := a.id)))
  {
    var op := b.(id := a.id);
    assert [a, b][0].id == op.id && SameKey([a, b][1], op);
    assert IdBeforeKey([a, b], op);
    UpsertKeepsKeys([a, b], op);
  }

  // ----- whole runs ---------------------------------------------------------------------------

  function UpsertAll(calls: seq<Operation>): seq<Operation>
    decreases |calls|
  {
    if calls == [] then [] else Upsert(UpsertAll(calls[..|calls| - 1]), calls[|calls| - 1])
  }

  /** Ids are unique after every sequence of calls. */
  lemma {:induction false} IdsStayUnique(calls: seq<Operation>)
    ensures UniqueIds(UpsertAll(calls))
    decreases |calls|
  {
    if calls != [] {
      IdsStayUnique(calls[..|calls| - 1]);
      UpsertKeepsIds(UpsertAll(calls[..|calls| - 1]), calls[|calls| - 1]);
    }
  }

  /** Each id is always used with the same cluster and key. */
  ghost predicate Consistent(calls: seq<Operation>) {
    forall i, j :: 0 <= i < |calls| && 0 <= j < |calls| && calls[i].id == calls[j].id ==>
      calls[i].clusterId == calls[j].clusterId && calls[i].idempotencyKey == calls[j].idempotencyKey
  }

  /** calls[i] is the first call with its cluster and key. */
  ghost predicate FirstWithKey(calls: seq<Operation>, i: nat) {
    i < |calls| && calls[i].idempotencyKey != "" && forall j :: 0 <= j < i ==> !SameKey(calls[j], calls[i])
  }

  predicate SameIdentity(a: Operation, b: Operation) {
    a.id == b.id && a.clusterId == b.clusterId && a.idempotencyKey == b.idempotencyKey
  }

  /** o comes from a call with its id, cluster and key, the first with that key if it has one. */
  ghost predicate HasOrigin(calls: seq<Operation>, o: Operation) {
    exists i :: 0 <= i < |calls| && SameIdentity(calls[i], o) && (o.idempotencyKey != "" ==> FirstWithKey(calls, i))
  }

  ghost predicate KeyStored(ops: seq<Operation>, call: Operation) {
    call.idempotencyKey != "" ==> exists k :: 0 <= k < |ops| && SameKey(ops[k], call)
  }

  /** Every stored operation has its origin among the calls; every key called is stored. */
  ghost predicate Faithful(calls: seq<Operation>, ops: seq<Operation>) {
    && UniqueIds(ops)
    && (forall k {:trigger HasOrigin(calls, ops[k])} :: 0 <= k < |ops| ==> HasOrigin(calls, ops[k]))
    && (forall i {:trigger KeyStored(ops, calls[i])} :: 0 <= i < |calls| ==> KeyStored(ops, calls[i]))
  }

  lemma OriginGrows(calls: seq<Operation>, op: Operation, o: Operation, o': Operation)
    requires HasOrigin(calls, o) && SameIdentity(o, o')
    ensures HasOrigin(calls + [op], o')
  {
    var i :| 0 <= i < |calls| && SameIdentity(calls[i], o) && (o.idempotencyKey != "" ==> FirstWithKey(calls, i));
    var more := calls + [op];
    assert more[i] == calls[i] && forall j :: 0 <= j < i ==> more[j] == calls[j];
    assert SameIdentity(more[i], o');
  }

  /** Under consistent use an id match is a match of cluster and key. */
  lemma IdMatchIsKeyMatch(calls: seq<Operation>, op: Operation, o: Operation)
    requires Consistent(calls + [op]) && HasOrigin(calls, o) && o.id == op.id
    ensures SameIdentity(o, op)
  {
    var i :| 0 <= i < |calls| && SameIdentity(calls[i], o);
    var more := calls + [op];
    assert more[i] == calls[i] && more[|calls|] == op;
  }

  /** So an upsert leaves every slot its identity. */
  lemma IdentityStays(calls: seq<Operation>, ops: seq<Operation>, op: Operation, k: nat)
    requires Consistent(calls + [op]) && Faithful(calls, ops) && k < |ops|
    ensures SameIdentity(ops[k], Upsert(ops, op)[k])
  {
    if k == Slot(ops, op) && !SameKey(ops[k], op) {
      assert HasOrigin(calls, ops[k]);
      IdMatchIsKeyMatch(calls, op, ops[k]);
    }
  }

  lemma NewKeyIsFirst(calls: seq<Operation>, ops: seq<Operation>, op: Operation)
    requires Faithful(calls, ops) && Slot(ops, op) == |ops|
    ensures HasOrigin(calls + [op], op)
  {
    var more := calls + [op];
    assert more[|calls|] == op && SameIdentity(more[|calls|], op);
    if op.idempotencyKey != "" {
      forall j | 0 <= j < |calls| ensures !SameKey(more[j], op) {
        assert more[j] == calls[j] && KeyStored(ops, calls[j]);
        assert forall k :: 0 <= k < |ops| ==> !SameKey(ops[k], op);
      }
      assert FirstWithKey(more, |calls|);
    }
  }

  lemma KeyStaysStored(calls: seq<Operation>, ops: seq<Operation>, op: Operation, c: Operation)
    requires Consistent(calls + [op]) && Faithful(calls, ops) && (KeyStored(ops, c) || c == op)
    ensures KeyStored(Upsert(ops, op), c)
  {
    var s, after := Slot(ops, op), Upsert(ops, op);
    if c.idempotencyKey != "" && KeyStored(ops, c) {
      var k :| 0 <= k < |ops| && SameKey(ops[k], c);
      IdentityStays(calls, ops, op, k);
      assert SameKey(after[k], c);
    } else if c == op {
      assert after[s].clusterId == op.clusterId && after[s].idempotencyKey == op.idempotencyKey;
      assert op.idempotencyKey != "" ==> SameKey(after[s], op);
    }
  }

  lemma UpsertStaysFaithful(calls: seq<Operation>, ops: seq<Operation>, op: Operation)
    requires Consistent(calls + [op]) && Faithful(calls, ops)
    ensures Faithful(calls + [op], Upsert(ops, op))
  {
    var after, more := Upsert(ops, op), calls + [op];
    UpsertKeepsIds(ops, op);
    forall k | 0 <= k < |after| ensures HasOrigin(more, after[k]) {
      if k < |ops| {
        assert HasOrigin(calls, ops[k]);
        IdentityStays(calls, ops, op, k);
        OriginGrows(calls, op, ops[k], after[k]);
      } else {
        NewKeyIsFirst(calls, ops, op);
      }
    }
    forall i | 0 <= i < |more| ensures KeyStored(after, more[i]) {
      assert i < |calls| ==> more[i] == calls[i] && KeyStored(ops, calls[i]);
      KeyStaysStored(calls, ops, op, more[i]);
    }
  }

  lemma {:induction false} RunIsFaithful(calls: seq<Operation>)
    requires Consistent(calls)
    ensures Faithful(calls, UpsertAll(calls))
    decreases |calls|
  {
    if calls != [] {
      var init, last := calls[..|calls| - 1], calls[|calls| - 1];
      assert calls == init + [last];
      assert Consistent(init) by {
        forall i, j | 0 <= i < |init| && 0 <= j < |init| && init[i].id == init[j].id
          ensures init[i].clusterId == init[j].clusterId && init[i].idempotencyKey == init[j].idempotencyKey
        {
          assert calls[i] == init[i] && calls[j] == init[j];
        }
      }
      RunIsFaithful(init);
      UpsertStaysFaithful(init, UpsertAll(init), last);
    }
  }

  /**
    When each id is always used with the same cluster and key, there is at most
    one operation per cluster and key, and it keeps the id of the first call
    with that key.
   */
  lemma FirstCallNamesTheKey(calls: seq<Operation>, i: nat)
    requires Consistent(calls) && FirstWithKey(calls, i)
    ensures UniqueKeys(UpsertAll(calls))
    ensures exists k :: && 0 <= k < |UpsertAll(calls)|
                        && SameKey(UpsertAll(calls)[k], calls[i]) && UpsertAll(calls)[k].id == calls[i].id
  {
    RunIsFaithful(calls);
    var ops := UpsertAll(calls);
    forall k, l | 0 <= k < l < |ops| ensures !SameKey(ops[k], ops[l]) {
      assert HasOrigin(calls, ops[k]) && HasOrigin(calls, ops[l]);
      if SameKey(ops[k], ops[l]) { OneOrigin(calls, ops[k], ops[l]); }
    }
    assert KeyStored(ops, calls[i]);
    var k :| 0 <= k < |ops| && SameKey(ops[k], calls[i]);
    assert HasOrigin(calls, ops[k]);
    OriginIs(calls, ops[k], i);
  }

  lemma OriginIs(calls: seq<Operation>, o: Operation, i: nat)
    requires HasOrigin(calls, o) && FirstWithKey(calls, i) && SameKey(o, calls[i])
    ensures o.id == calls[i].id
  {
    var m :| 0 <= m < |calls| && SameIdentity(calls[m], o) && FirstWithKey(calls, m);
    assert SameKey(calls[m], calls[i]) && SameKey(calls[i], calls[m]);
    assert m == i;
  }

  lemma OneOrigin(calls: seq<Operation>, o: Operation, p: Operation)
    requires HasOrigin(calls, o) && HasOrigin(calls, p) && SameKey(o, p)
    ensures o.id == p.id
  {
    var i :| 0 <= i < |calls| && SameIdentity(calls[i], p) && FirstWithKey(calls, i);
    OriginIs(calls, o, i);
  }
}
