/**
  The bounded notification store against the one that never drops anything.
 */
module NotificationHistory {
  import opened Common
  import opened Notifications

  /** Notes are created under fresh ids and marked read, in any order. */
  datatype Op =
    | OpCreate(n: Note)
    | OpMark(c: string, u: string, ids: seq<string>, at: Time)

  /** The store that keeps everything. */
  function Remember(full: Notes, op: Op): Notes {
    match op
    case OpCreate(n) => full[n.id := n]
    case OpMark(c, u, ids, at) => MarkAll(full, c, u, ids, at)
  }

  /** The store that keeps the newest 500 of each person. */
  ghost function Keep(notes: Notes, op: Op): Notes
    requires Keyed(notes)
  {
    match op
    case OpCreate(n) => Create(notes, n)
    case OpMark(c, u, ids, at) => MarkAll(notes, c, u, ids, at)
  }

  predicate Fresh(full: Notes, op: Op) { op.OpCreate? ==> op.n.id !in full }

  /** What is stored for each person is the newest 500 of all they were ever sent. */
  ghost predicate KeepsNewest(full: Notes, notes: Notes) {
    && Keyed(full) && Keyed(notes)
    && forall c, u :: IsListing(notes, c, u, Kept(Listing(full, c, u)))
  }

  lemma KeptIsStored(full: Notes, notes: Notes, id: string)
    requires KeepsNewest(full, notes) && id in notes
    ensures id in full
  {
    var n := notes[id];
    assert IsListing(notes, n.clusterId, n.userId, Kept(Listing(full, n.clusterId, n.userId)));
    assert Stored(notes, n) && Belongs(n, n.clusterId, n.userId);
    assert n in Kept(Listing(full, n.clusterId, n.userId));
    assert n in Listing(full, n.clusterId, n.userId);
  }

  // ----- creating ---------------------------------------------------------------------

  lemma {:induction false} InsertPrefix(n: Note, s: seq<Note>, k: nat)
    requires k <= |s|
    ensures |Insert(n, s)| == |s| + 1 && |Insert(n, s[..k])| == k + 1
    ensures Insert(n, s[..k])[..k] == Insert(n, s)[..k]
  {
    InsertMembers(n, s);
    InsertMembers(n, s[..k]);
    if k > 0 && !Newer(n, s[0]) {
      InsertPrefix(n, s[1..], k - 1);
      assert s[..k][1..] == s[1..][..k - 1];
    } else if k > 0 {
      assert s[..k][0] == s[0];
      assert ([n] + s)[..k] == [n] + s[..k - 1];
      assert ([n] + s[..k])[..k] == [n] + s[..k - 1];
    }
  }

  /** Dropping everything past the 500th before an insertion changes nothing after it. */
  lemma InsertKept(n: Note, s: seq<Note>)
    ensures Kept(Insert(n, Kept(s))) == Kept(Insert(n, s))
  {
    if |s| > NOTIFICATIONS_KEPT {
      InsertPrefix(n, s, NOTIFICATIONS_KEPT);
    }
  }

  /** Dropping a person's notes leaves everybody else's alone. */
  lemma DropLeavesOthers(notes: Notes, c: string, u: string, s: seq<Note>, c': string, u': string, t: seq<Note>)
    requires Keyed(notes) && IsListing(notes, c, u, s) && IsListing(notes, c', u', t)
    requires (c, u) != (c', u')
    ensures IsListing(notes - DroppedIds(s), c', u', t)
  {
    var left := notes - DroppedIds(s);
    forall n | Stored(notes, n) && Belongs(n, c', u') ensures n.id !in DroppedIds(s) {
      forall j | NOTIFICATIONS_KEPT <= j < |s| ensures s[j].id != n.id {
        assert s[j] in s;
      }
    }
  }

  lemma CreateKeepsNewest(full: Notes, notes: Notes, n: Note)
    requires KeepsNewest(full, notes) && n.id !in full
    ensures KeepsNewest(full[n.id := n], Create(notes, n))
  {
    var c, u := n.clusterId, n.userId;
    if n.id in notes { KeptIsStored(full, notes, n.id); }
    var full', more, notes' := full[n.id := n], notes[n.id := n], Create(notes, n);
    assert Keyed(full') && Keyed(more) && Keyed(notes');
    var s, t := Listing(full, c, u), Listing(more, c, u);
    ListingAfterInsert(notes, n, Kept(s));
    ListingUnique(more, c, u, t, Insert(n, Kept(s)));
    ListingAfterInsert(full, n, s);
    ListingUnique(full', c, u, Listing(full', c, u), Insert(n, s));
    InsertKept(n, s);
    DropLeavesKept(more, c, u, t);
    forall c', u' ensures IsListing(notes', c', u', Kept(Listing(full', c', u'))) {
      if (c', u') != (c, u) {
        var o := Listing(full, c', u');
        ListingOfOthers(full, n, c', u', o);
        ListingUnique(full', c', u', Listing(full', c', u'), o);
        ListingOfOthers(notes, n, c', u', Kept(o));
        DropLeavesOthers(more, c, u, t, c', u', Kept(o));
      }
    }
  }

  // ----- marking ------------------------------------------------------------------------

  function MarkSeq(s: seq<Note>, c: string, u: string, ids: seq<string>, at: Time): seq<Note> {
    seq(|s|, i requires 0 <= i < |s| => Marked(s[i], c, u, ids, at))
  }

  lemma ListingAfterMark(notes: Notes, c: string, u: string, ids: seq<string>, at: Time, c': string, u': string,
                         s: seq<Note>)
    requires Keyed(notes) && IsListing(notes, c', u', s)
    ensures IsListing(MarkAll(notes, c, u, ids, at), c', u', MarkSeq(s, c, u, ids, at))
  {
    var m, t := MarkAll(notes, c, u, ids, at), MarkSeq(s, c, u, ids, at);
    forall i, j | 0 <= i < j < |t| ensures Newer(t[i], t[j]) {
      assert Newer(s[i], s[j]);
    }
    forall n ensures n in t <==> Stored(m, n) && Belongs(n, c', u') {
      if n in t {
        var i :| 0 <= i < |t| && t[i] == n;
        assert s[i] in s;
      }
      if Stored(m, n) && Belongs(n, c', u') {
        var o := notes[n.id];
        assert o in s;
        var i :| 0 <= i < |s| && s[i] == o;
        assert t[i] == n;
      }
    }
  }

  lemma MarkKeepsNewest(full: Notes, notes: Notes, c: string, u: string, ids: seq<string>, at: Time)
    requires KeepsNewest(full, notes)
    ensures KeepsNewest(MarkAll(full, c, u, ids, at), MarkAll(notes, c, u, ids, at))
  {
    var full', notes' := MarkAll(full, c, u, ids, at), MarkAll(notes, c, u, ids, at);
    forall c', u' ensures IsListing(notes', c', u', Kept(Listing(full', c', u'))) {
      var s := Listing(full, c', u');
      ListingAfterMark(full, c, u, ids, at, c', u', s);
      ListingUnique(full', c', u', Listing(full', c', u'), MarkSeq(s, c, u, ids, at));
      ListingAfterMark(notes, c, u, ids, at, c', u', Kept(s));
      assert MarkSeq(Kept(s), c, u, ids, at) == Kept(MarkSeq(s, c, u, ids, at));
    }
  }

  // ----- whole runs -----------------------------------------------------------------------

  function RememberAll(full: Notes, ops: seq<Op>): Notes
    decreases |ops|
  {
    if ops == [] then full else RememberAll(Remember(full, ops[0]), ops[1..])
  }

  ghost predicate FreshIds(full: Notes, ops: seq<Op>)
    decreases |ops|
  {
    ops == [] || (Fresh(full, ops[0]) && FreshIds(Remember(full, ops[0]), ops[1..]))
  }

  lemma KeepKeyed(notes: Notes, op: Op)
    requires Keyed(notes)
    ensures Keyed(Keep(notes, op))
  {
  }

  ghost function KeepAll(notes: Notes, ops: seq<Op>): (r: Notes)
    requires Keyed(notes)
    ensures Keyed(r)
    decreases |ops|
  {
    if ops == [] then notes
    else
      KeepKeyed(notes, ops[0]);
      KeepAll(Keep(notes, ops[0]), ops[1..])
  }

  /** Streaming top-500: after any run the store holds exactly the newest 500 of each person's whole history. */
  lemma {:induction false} StoreKeepsNewest(full: Notes, notes: Notes, ops: seq<Op>)
    requires KeepsNewest(full, notes) && FreshIds(full, ops)
    ensures KeepsNewest(RememberAll(full, ops), KeepAll(notes, ops))
    decreases |ops|
  {
    if ops != [] {
      match ops[0] {
        case OpCreate(n) => CreateKeepsNewest(full, notes, n);
        case OpMark(c, u, ids, at) => MarkKeepsNewest(full, notes, c, u, ids, at);
      }
      StoreKeepsNewest(Remember(full, ops[0]), Keep(notes, ops[0]), ops[1..]);
    }
  }

  // ----- listings and counts ---------------------------------------------------------------

  lemma {:induction false} ShownConcat(a: seq<Note>, b: seq<Note>, unreadOnly: bool)
    ensures Shown(a + b, unreadOnly, 0) == Shown(a, unreadOnly, 0) + Shown(b, unreadOnly, 0)
  {
    if a == [] {
      assert a + b == b;
    } else {
      ShownConcat(a[1..], b, unreadOnly);
      assert (a + b)[1..] == a[1..] + b;
    }
  }

  lemma {:induction false} ShownAll(s: seq<Note>)
    ensures Shown(s, false, 0) == s
  {
    if s != [] { ShownAll(s[1..]); }
  }

  /** What was dropped of a person's whole listing. */
  function Older(s: seq<Note>): seq<Note> {
    if |s| <= NOTIFICATIONS_KEPT then [] else s[NOTIFICATIONS_KEPT..]
  }

  lemma StoredListing(ops: seq<Op>, c: string, u: string)
    requires FreshIds(map[], ops)
    ensures Keyed(RememberAll(map[], ops))
    ensures Listing(KeepAll(map[], ops), c, u) == Kept(Listing(RememberAll(map[], ops), c, u))
  {
    EmptyKeepsNewest();
    StoreKeepsNewest(map[], map[], ops);
    var full, notes := RememberAll(map[], ops), KeepAll(map[], ops);
    ListingUnique(notes, c, u, Listing(notes, c, u), Kept(Listing(full, c, u)));
  }

  lemma ShownOfKept(s: seq<Note>, unreadOnly: bool, limit: int)
    ensures Shown(Kept(s), unreadOnly, limit) == Shown(s, unreadOnly, limit)
            <==> 0 < limit <= |Shown(Kept(s), unreadOnly, 0)| || Shown(Older(s), unreadOnly, 0) == []
    ensures |Shown(s, unreadOnly, 0)| == |Shown(Kept(s), unreadOnly, 0)| + |Shown(Older(s), unreadOnly, 0)|
  {
    assert s == Kept(s) + Older(s);
    ShownConcat(Kept(s), Older(s), unreadOnly);
    ShownLimit(s, unreadOnly, limit);
    ShownLimit(Kept(s), unreadOnly, limit);
  }

  /**
    From an empty store, any listing answers as the full history would exactly
    when the newest 500 fill its limit, or nothing older would be shown.
   */
  lemma AnyListingAgrees(ops: seq<Op>, c: string, u: string, unreadOnly: bool, limit: int)
    requires FreshIds(map[], ops)
    ensures var full, notes := RememberAll(map[], ops), KeepAll(map[], ops);
            && Keyed(full)
            && var s := Listing(full, c, u);
               Shown(Listing(notes, c, u), unreadOnly, limit) == Shown(s, unreadOnly, limit)
               <==> 0 < limit <= |Shown(Kept(s), unreadOnly, 0)| || Shown(Older(s), unreadOnly, 0) == []
  {
    StoredListing(ops, c, u);
    ShownOfKept(Listing(RememberAll(map[], ops), c, u), unreadOnly, limit);
  }

  /** Listings of read and unread notes: exactly for limits from 1 to 500, or when there never were more. */
  lemma ListingsAgree(ops: seq<Op>, c: string, u: string, limit: int)
    requires FreshIds(map[], ops)
    ensures var full, notes := RememberAll(map[], ops), KeepAll(map[], ops);
            && Keyed(full)
            && (Shown(Listing(notes, c, u), false, limit) == Shown(Listing(full, c, u), false, limit)
                <==> 1 <= limit <= NOTIFICATIONS_KEPT || |Listing(full, c, u)| <= NOTIFICATIONS_KEPT)
  {
    AnyListingAgrees(ops, c, u, false, limit);
    var s := Listing(RememberAll(map[], ops), c, u);
    ShownAll(Kept(s));
    ShownAll(Older(s));
  }

  /** The unread count is that of the full history exactly when no unread note is older than the newest 500. */
  lemma CountsAgree(ops: seq<Op>, c: string, u: string)
    requires FreshIds(map[], ops)
    ensures var full, notes := RememberAll(map[], ops), KeepAll(map[], ops);
            && Keyed(full)
            && (|Shown(Listing(notes, c, u), true, 0)| == |Shown(Listing(full, c, u), true, 0)|
                <==> forall n :: n in Older(Listing(full, c, u)) ==> n.readAt.Some?)
  {
    StoredListing(ops, c, u);
    var s := Listing(RememberAll(map[], ops), c, u);
    ShownOfKept(s, true, 0);
    ShownIsFilter(Older(s), true);
    NothingUnread(Older(s));
  }

  lemma NothingUnread(s: seq<Note>)
    ensures Filter(s, Shows(true)) == [] <==> forall n :: n in s ==> n.readAt.Some?
  {
    FilterShorter(s, Shows(true));
    var shown := Filter(s, Shows(true));
    if shown != [] { assert shown[0] in shown; }
  }

  lemma EmptyKeepsNewest()
    ensures KeepsNewest(map[], map[])
  {
    forall c, u ensures IsListing(map[], c, u, Kept(Listing(map[], c, u))) {
      ListingUnique(map[], c, u, Listing(map[], c, u), []);
    }
  }
}
