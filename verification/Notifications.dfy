/**
  A person's notifications (internal/appdb/iam_settings.go): only the newest 500
  are stored.  The store must answer as if it had kept them all.
 */
module Notifications {
  import opened Common

  const NOTIFICATIONS_KEPT: nat := 500

  datatype Note = Note(
    id: string, clusterId: string, userId: string, kind: string, title: string, body: string,
    link: string, createdAt: Time, readAt: Option<Time>)

  type Notes = map<string, Note>

  ghost predicate Keyed(notes: Notes) {
    forall id :: id in notes ==> notes[id].id == id
  }

  /** The order of notesOf: newest first, then the greater id. */
  predicate Newer(a: Note, b: Note) {
    a.createdAt > b.createdAt || (a.createdAt == b.createdAt && StringLess(b.id, a.id))
  }

  predicate Belongs(n: Note, c: string, u: string) { n.clusterId == c && n.userId == u }

  predicate Stored(notes: Notes, n: Note) { n.id in notes && notes[n.id] == n }

  lemma NewerIsStrict()
    ensures Asymmetric(Newer)
    ensures forall a: Note, b: Note :: a.id != b.id && !Newer(a, b) ==> Newer(b, a)
    ensures StrictWeak(Newer)
  {
    forall a: Note, b: Note ensures Newer(a, b) ==> !Newer(b, a) {
      StringTrichotomy(a.id, b.id);
    }
    forall a: Note, b: Note | a.id != b.id && !Newer(a, b) ensures Newer(b, a) {
      StringTrichotomy(a.id, b.id);
    }
    forall x: Note, y: Note, z: Note | !Newer(y, x) && !Newer(z, y) ensures !Newer(z, x) {
      StringTrichotomy(x.id, y.id);
      StringTrichotomy(y.id, z.id);
      StringTrichotomy(x.id, z.id);
      if StringLess(z.id, y.id) && StringLess(y.id, x.id) {
        StringTransitive(z.id, y.id, x.id);
      }
      if StringLess(x.id, z.id) && StringLess(z.id, y.id) {
        StringTransitive(x.id, z.id, y.id);
      }
    }
  }

  /** `s` is what notesOf returns for the person: everything of theirs, newest first. */
  ghost predicate IsListing(notes: Notes, c: string, u: string, s: seq<Note>) {
    && Ascending(Newer, s)
    && forall n :: n in s <==> Stored(notes, n) && Belongs(n, c, u)
  }

  lemma ListingUnique(notes: Notes, c: string, u: string, s: seq<Note>, t: seq<Note>)
    requires IsListing(notes, c, u, s) && IsListing(notes, c, u, t)
    ensures s == t
  {
    NewerIsStrict();
    AscendingUnique(Newer, s, t);
  }

  // ----- inserting in order ------------------------------------------------------------

  function Insert(n: Note, s: seq<Note>): seq<Note> {
    if s == [] then [n] else if Newer(n, s[0]) then [n] + s else [s[0]] + Insert(n, s[1..])
  }

  lemma {:induction false} InsertMembers(n: Note, s: seq<Note>)
    ensures forall x :: x in Insert(n, s) <==> x == n || x in s
    ensures |Insert(n, s)| == |s| + 1
  {
    if s != [] && !Newer(n, s[0]) {
      InsertMembers(n, s[1..]);
      assert s == [s[0]] + s[1..];
    }
  }

  lemma AscendingCons(n: Note, s: seq<Note>)
    requires Ascending(Newer, s) && forall x :: x in s ==> Newer(n, x)
    ensures Ascending(Newer, [n] + s)
  {
    var t := [n] + s;
    forall i, j | 0 <= i < j < |t| ensures Newer(t[i], t[j]) {
      assert t[j] == s[j - 1] && s[j - 1] in s;
      assert i > 0 ==> t[i] == s[i - 1];
    }
  }

  lemma NewerTransitive(a: Note, b: Note, c: Note)
    requires Newer(a, b) && Newer(b, c)
    ensures Newer(a, c)
  {
    if a.createdAt == b.createdAt == c.createdAt {
      StringTransitive(c.id, b.id, a.id);
    }
  }

  lemma {:induction false} InsertAscending(n: Note, s: seq<Note>)
    requires Ascending(Newer, s) && forall x :: x in s ==> x.id != n.id
    ensures Ascending(Newer, Insert(n, s))
  {
    if s != [] {
      assert s[0] in s;
      forall x | x in s[1..] ensures x in s && Newer(s[0], x) {
        var i :| 0 <= i < |s[1..]| && s[1..][i] == x;
        assert x == s[i + 1];
      }
      if Newer(n, s[0]) {
        forall x | x in s ensures Newer(n, x) {
          if x != s[0] {
            assert s == [s[0]] + s[1..];
            NewerTransitive(n, s[0], x);
          }
        }
        AscendingCons(n, s);
      } else {
        StringTrichotomy(n.id, s[0].id);
        InsertAscending(n, s[1..]);
        InsertMembers(n, s[1..]);
        AscendingCons(s[0], Insert(n, s[1..]));
      }
    }
  }

  /** Adding a note of theirs inserts it into the listing. */
  lemma ListingAfterInsert(notes: Notes, n: Note, s: seq<Note>)
    requires IsListing(notes, n.clusterId, n.userId, s) && n.id !in notes
    ensures IsListing(notes[n.id := n], n.clusterId, n.userId, Insert(n, s))
  {
    InsertAscending(n, s);
    InsertMembers(n, s);
  }

  lemma ListingOfOthers(notes: Notes, n: Note, c: string, u: string, s: seq<Note>)
    requires n.id !in notes && !Belongs(n, c, u)
    ensures IsListing(notes[n.id := n], c, u, s) <==> IsListing(notes, c, u, s)
  {
    forall x ensures Stored(notes[n.id := n], x) && Belongs(x, c, u) <==> Stored(notes, x) && Belongs(x, c, u) {
    }
  }

  lemma {:induction false} ListingExists(notes: Notes, c: string, u: string) returns (s: seq<Note>)
    requires Keyed(notes)
    ensures IsListing(notes, c, u, s)
    decreases |notes|
  {
    if notes == map[] {
      s := [];
    } else {
      var id :| id in notes;
      var n := notes[id];
      var rest := notes - {id};
      assert notes == rest[id := n];
      s := ListingExists(rest, c, u);
      if Belongs(n, c, u) {
        ListingAfterInsert(rest, n, s);
        s := Insert(n, s);
      } else {
        ListingOfOthers(rest, n, c, u, s);
      }
    }
  }

  /** The listing of a person. */
  ghost function Listing(notes: Notes, c: string, u: string): (s: seq<Note>)
    requires Keyed(notes)
    ensures IsListing(notes, c, u, s)
  {
    assert exists s :: IsListing(notes, c, u, s) by {
      var w := ListingExists(notes, c, u);
    }
    var s :| IsListing(notes, c, u, s);
    s
  }

  // ----- the effect of each operation ------------------------------------------------------

  function Kept(s: seq<Note>): seq<Note> {
    if |s| <= NOTIFICATIONS_KEPT then s else s[..NOTIFICATIONS_KEPT]
  }

  function DroppedIds(s: seq<Note>): set<string> {
    set i | NOTIFICATIONS_KEPT <= i < |s| :: s[i].id
  }

  function Stamped(n: Note, now: Time): Note {
    if n.createdAt == ZERO_TIME then n.(createdAt := now) else n
  }

  ghost function Create(notes: Notes, n: Note): Notes
    requires Keyed(notes)
  {
    var more := notes[n.id := n];
    more - DroppedIds(Listing(more, n.clusterId, n.userId))
  }

  predicate Marks(n: Note, c: string, u: string, ids: seq<string>) {
    Belongs(n, c, u) && n.readAt.None? && (ids == [] || n.id in ids)
  }

  function Marked(n: Note, c: string, u: string, ids: seq<string>, at: Time): Note {
    if Marks(n, c, u, ids) then n.(readAt := Some(at)) else n
  }

  function MarkAll(notes: Notes, c: string, u: string, ids: seq<string>, at: Time): Notes {
    map id | id in notes :: Marked(notes[id], c, u, ids, at)
  }

  /** What a listing shows: at most `limit` notes (all for limit <= 0), perhaps only unread ones. */
  function Shown(s: seq<Note>, unreadOnly: bool, limit: int): seq<Note> {
    if s == [] then []
    else if unreadOnly && s[0].readAt.Some? then Shown(s[1..], unreadOnly, limit)
    else if limit == 1 then [s[0]]
    else [s[0]] + Shown(s[1..], unreadOnly, if limit > 0 then limit - 1 else 0)
  }

  // ----- what newest means ----------------------------------------------------------------

  /** By creation time, the latest first, and by id, the greatest first, at the same instant. */
  ghost predicate NewestFirst(s: seq<Note>) {
    forall i, j :: 0 <= i < j < |s| ==>
      s[j].createdAt < s[i].createdAt || (s[j].createdAt == s[i].createdAt && StringLess(s[j].id, s[i].id))
  }

  lemma AscendingIsNewestFirst(s: seq<Note>)
    requires Ascending(Newer, s)
    ensures NewestFirst(s)
  {
  }

  /** A limit cuts off what would be shown without one. */
  lemma {:induction false} ShownLimit(s: seq<Note>, unreadOnly: bool, limit: int)
    ensures var all := Shown(s, unreadOnly, 0);
            Shown(s, unreadOnly, limit) == if 0 < limit < |all| then all[..limit] else all
  {
    if s != [] && unreadOnly && s[0].readAt.Some? {
      ShownLimit(s[1..], unreadOnly, limit);
    } else if s != [] && limit != 1 {
      ShownLimit(s[1..], unreadOnly, if limit > 0 then limit - 1 else 0);
    }
  }

  /** What a listing leaves out on request: the notes already read. */
  function Shows(unreadOnly: bool): Note -> bool { (n: Note) => unreadOnly ==> n.readAt.None? }

  lemma {:induction false} ShownIsFilter(s: seq<Note>, unreadOnly: bool)
    ensures Shown(s, unreadOnly, 0) == Filter(s, Shows(unreadOnly))
  {
    if s != [] { ShownIsFilter(s[1..], unreadOnly); }
  }

  /** What is shown of a listing: its first entries, unread ones on request, as many as the limit allows. */
  lemma ShownExactly(s: seq<Note>, unreadOnly: bool, limit: int)
    requires Ascending(Newer, s)
    ensures var out := Shown(s, unreadOnly, limit);
            && NewestFirst(out) && (limit > 0 ==> |out| <= limit)
            && (forall n :: n in out ==> n in s && (unreadOnly ==> n.readAt.None?))
            && forall n :: n in s && (unreadOnly ==> n.readAt.None?) && n !in out ==>
                 0 < limit == |out| && forall m :: m in out ==> n.createdAt <= m.createdAt
  {
    var all := Filter(s, Shows(unreadOnly));
    ShownLimit(s, unreadOnly, limit);
    ShownIsFilter(s, unreadOnly);
    FilterAscending(Newer, s, Shows(unreadOnly));
    FilterShorter(s, Shows(unreadOnly));
    AscendingIsNewestFirst(all);
    CutOff(all, if 0 < limit < |all| then limit else |all|);
  }

  lemma CutOff(all: seq<Note>, k: nat)
    requires NewestFirst(all) && k <= |all|
    ensures NewestFirst(all[..k])
    ensures forall n, m :: n in all && n !in all[..k] && m in all[..k] ==> n.createdAt <= m.createdAt
  {
    forall n, m | n in all && n !in all[..k] && m in all[..k] ensures n.createdAt <= m.createdAt {
      var j :| 0 <= j < |all| && all[j] == n;
      var i :| 0 <= i < k && all[..k][i] == m;
      assert j >= k && all[i] == m;
    }
  }

  /** Marking sets the reading time of the person's unread notes among the ids, all of them for no ids. */
  lemma MarkExactly(notes: Notes, c: string, u: string, ids: seq<string>, at: Time, id: string)
    ensures var notes' := MarkAll(notes, c, u, ids, at);
            && notes'.Keys == notes.Keys
            && (id in notes ==>
                  var n := notes[id];
                  && notes'[id].(readAt := n.readAt) == n
                  && notes'[id].readAt
                     == if n.clusterId == c && n.userId == u && n.readAt == None && (|ids| == 0 || n.id in ids)
                        then Some(at) else n.readAt)
  {
  }

  lemma ListedIdsDiffer(notes: Notes, c: string, u: string, s: seq<Note>, i: nat, j: nat)
    requires IsListing(notes, c, u, s) && i < j < |s|
    ensures s[i].id != s[j].id
  {
    NewerIsStrict();
    assert s[i] in s && s[j] in s;
    assert Newer(s[i], s[j]);
  }

  /** Deleting what is listed past the 500th leaves the first 500 of that person. */
  lemma DropLeavesKept(notes: Notes, c: string, u: string, s: seq<Note>)
    requires Keyed(notes) && IsListing(notes, c, u, s)
    ensures IsListing(notes - DroppedIds(s), c, u, Kept(s))
  {
    var left := notes - DroppedIds(s);
    forall n ensures n in Kept(s) <==> Stored(left, n) && Belongs(n, c, u) {
      if n in Kept(s) {
        var i :| 0 <= i < |Kept(s)| && Kept(s)[i] == n;
        assert s[i] == n && n in s;
        forall j | NOTIFICATIONS_KEPT <= j < |s| ensures s[j].id != n.id {
          ListedIdsDiffer(notes, c, u, s, i, j);
        }
      } else if n in s {
        var i :| 0 <= i < |s| && s[i] == n;
        assert i >= |Kept(s)|;
        assert n.id in DroppedIds(s);
      }
    }
  }

  /** The notes of a person. */
  function IdsOf(notes: Notes, c: string, u: string): set<string> {
    set id | id in notes && notes[id].clusterId == c && notes[id].userId == u
  }

  /**
    n was added to `was`: its person has the newest of their notes, up to 500 of
    them, and everybody else has what they had.
   */
  ghost predicate KeepsTheNewest(was: Notes, n: Note, notes: Notes) {
    var all := was[n.id := n];
    && (forall id :: id in notes ==> id in all && notes[id] == all[id])
    && (forall id :: id in all && (all[id].clusterId != n.clusterId || all[id].userId != n.userId) ==> id in notes)
    && |IdsOf(notes, n.clusterId, n.userId)| == Min(500, |IdsOf(all, n.clusterId, n.userId)|)
    && forall id, d :: id in IdsOf(notes, n.clusterId, n.userId) && d in all && d !in notes ==>
         all[d].createdAt < all[id].createdAt
         || (all[d].createdAt == all[id].createdAt && StringLess(d, id))
  }

  lemma {:induction false} ListedIds(notes: Notes, c: string, u: string, s: seq<Note>)
    requires Keyed(notes) && IsListing(notes, c, u, s)
    ensures |IdsOf(notes, c, u)| == |s|
    decreases |s|
  {
    if s == [] {
      forall id | id in notes ensures !Belongs(notes[id], c, u) {
        assert notes[id] !in s;
      }
      assert IdsOf(notes, c, u) == {};
    } else {
      var x := s[0];
      assert x in s;
      var rest := notes - {x.id};
      forall n ensures n in s[1..] <==> Stored(rest, n) && Belongs(n, c, u) {
        if n in s[1..] {
          var i :| 0 <= i < |s[1..]| && s[1..][i] == n;
          assert s[i + 1] == n && Newer(x, n) && n in s;
          NewerIsStrict();
        }
        if n in s && n != x { assert s == [s[0]] + s[1..]; }
      }
      ListedIds(rest, c, u, s[1..]);
      assert IdsOf(notes, c, u) == IdsOf(rest, c, u) + {x.id};
    }
  }

  lemma UnreadIds(notes: Notes, c: string, u: string, s: seq<Note>)
    requires Keyed(notes) && IsListing(notes, c, u, s)
    ensures |set id | && id in notes && notes[id].clusterId == c && notes[id].userId == u && notes[id].readAt == None|
         == |Shown(s, true, 0)|
  {
    var unread: Notes := map id | id in notes && notes[id].readAt == None :: notes[id];
    ShownIsFilter(s, true);
    FilterAscending(Newer, s, Shows(true));
    FilterShorter(s, Shows(true));
    ListedIds(unread, c, u, Filter(s, Shows(true)));
    assert IdsOf(unread, c, u)
        == set id | id in notes && notes[id].clusterId == c && notes[id].userId == u && notes[id].readAt == None;
  }

  lemma CreateDropsTheOldest(notes: Notes, n: Note)
    requires Keyed(notes) && n.id !in notes
    ensures KeepsTheNewest(notes, n, Create(notes, n))
  {
    var c, u, all, left := n.clusterId, n.userId, notes[n.id := n], Create(notes, n);
    var s := Listing(all, c, u);
    DropLeavesKept(all, c, u, s);
    ListedIds(all, c, u, s);
    ListedIds(left, c, u, Kept(s));
    AscendingIsNewestFirst(s);
    forall j | NOTIFICATIONS_KEPT <= j < |s| ensures s[j].id in all && all[s[j].id] == s[j] && Belongs(s[j], c, u) {
      assert s[j] in s;
    }
    forall id, d | id in IdsOf(left, c, u) && d in all && d !in left
      ensures all[d].createdAt < all[id].createdAt || (all[d].createdAt == all[id].createdAt && StringLess(d, id))
    {
      var j :| NOTIFICATIONS_KEPT <= j < |s| && s[j].id == d;
      assert Stored(left, left[id]) && left[id] in Kept(s);
      var i :| 0 <= i < |Kept(s)| && Kept(s)[i] == left[id];
      assert s[i] == left[id];
    }
  }

  // ----- the store ------------------------------------------------------------------------

  class IamMemory {
    var notes: Notes

    ghost predicate Valid() reads this { Keyed(notes) }

    constructor ()
      ensures Valid() && notes == map[]
    {
      notes := map[];
    }

    method CreateNotification(n: Note, now: Time)
      requires Valid()
      modifies this
      ensures Valid() && notes == Create(old(notes), Stamped(n, now))
      ensures var m := n.(createdAt := if n.createdAt == 0 then now else n.createdAt);
              n.id !in old(notes) ==> KeepsTheNewest(old(notes), m, notes)
    {
      if n.id !in notes { CreateDropsTheOldest(notes, Stamped(n, now)); }
      var m := n;
      if m.createdAt == ZERO_TIME {
        m := m.(createdAt := now);
      }
      notes := notes[m.id := m];
      var more := notes;
      var mine := NotesOf(m.clusterId, m.userId);
      notes := DropPastLast(more, mine);
    }

    method NotesOf(c: string, u: string) returns (out: seq<Note>)
      requires Valid()
      ensures out == Listing(notes, c, u)
      ensures forall n :: n in out <==> n.id in notes && notes[n.id] == n && n.clusterId == c && n.userId == u
      ensures NewestFirst(out)
    {
      out := ListNotes(notes, c, u);
      ListingUnique(notes, c, u, out, Listing(notes, c, u));
      AscendingIsNewestFirst(out);
    }

    method ListNotifications(c: string, u: string, unreadOnly: bool, limit: int) returns (out: seq<Note>)
      requires Valid()
      ensures out == Shown(Listing(notes, c, u), unreadOnly, limit)
      ensures NewestFirst(out) && (limit > 0 ==> |out| <= limit)
      ensures forall n :: n in out ==>
                && n.id in notes && notes[n.id] == n && n.clusterId == c && n.userId == u
                && (unreadOnly ==> n.readAt.None?)
      ensures forall id ::
                && id in notes && notes[id].clusterId == c && notes[id].userId == u && notes[id] !in out
                && (unreadOnly ==> notes[id].readAt.None?)
                ==> 0 < limit == |out| && forall m :: m in out ==> notes[id].createdAt <= m.createdAt
    {
      var mine := NotesOf(c, u);
      out := ShowNotes(mine, unreadOnly, limit);
      ShownExactly(mine, unreadOnly, limit);
    }

    method CountUnreadNotifications(c: string, u: string) returns (n: nat)
      requires Valid()
      ensures n == |Shown(Listing(notes, c, u), true, 0)|
      ensures n == |set id | && id in notes && notes[id].clusterId == c && notes[id].userId == u
                             && notes[id].readAt == None|
    {
      var mine := NotesOf(c, u);
      UnreadIds(notes, c, u, mine);
      n := 0;
      for i := 0 to |mine|
        invariant n + |Shown(mine[i..], true, 0)| == |Shown(mine, true, 0)|
      {
        assert mine[i..][1..] == mine[i + 1..];
        if mine[i].readAt.None? {
          n := n + 1;
        }
      }
    }

    method MarkNotificationsRead(c: string, u: string, ids: seq<string>, at: Time)
      requires Valid()
      modifies this
      ensures Valid() && notes == MarkAll(old(notes), c, u, ids, at)
    {
      var all := notes;
      var todo := notes.Keys;
      while todo != {}
        invariant todo <= all.Keys == notes.Keys
        invariant forall id :: id in all ==> notes[id] == if id in todo then all[id] else Marked(all[id], c, u, ids, at)
        decreases todo
      {
        var id :| id in todo;
        var n := notes[id];
        if n.clusterId == c && n.userId == u && n.readAt.None? && (|ids| == 0 || id in ids) {
          notes := notes[id := n.(readAt := Some(at))];
        }
        todo := todo - {id};
      }
    }
  }

  /** Lines 104-108: delete what is listed past the 500th. */
  method DropPastLast(more: Notes, mine: seq<Note>) returns (left: Notes)
    ensures left == more - DroppedIds(mine)
  {
    left := more;
    var i: nat := NOTIFICATIONS_KEPT;
    ghost var gone := {};
    while i < |mine|
      invariant NOTIFICATIONS_KEPT <= i
      invariant gone == set j | NOTIFICATIONS_KEPT <= j < i && j < |mine| :: mine[j].id
      invariant left == more - gone
    {
      left := left - {mine[i].id};
      gone := gone + {mine[i].id};
      i := i + 1;
    }
    assert gone == DroppedIds(mine);
  }

  method ShowNotes(mine: seq<Note>, unreadOnly: bool, limit: int) returns (out: seq<Note>)
    ensures out == Shown(mine, unreadOnly, limit)
  {
    out := [];
    ghost var room := limit;
    for i := 0 to |mine|
      invariant limit > 0 ==> |out| < limit && room == limit - |out|
      invariant limit <= 0 ==> room <= 0
      invariant out + Shown(mine[i..], unreadOnly, room) == Shown(mine, unreadOnly, limit)
    {
      assert mine[i..][1..] == mine[i + 1..];
      if unreadOnly && mine[i].readAt.Some? {
        continue;
      }
      ghost var rest := Shown(mine[i + 1..], unreadOnly, if room > 0 then room - 1 else 0);
      assert out + ([mine[i]] + rest) == out + [mine[i]] + rest;
      out := out + [mine[i]];
      if limit > 0 && |out| >= limit {
        return;
      }
      room := if room > 0 then room - 1 else 0;
    }
  }

  /** Collect a person's notes in map order, then sort them. */
  method ListNotes(notes: Notes, c: string, u: string) returns (out: seq<Note>)
    requires Keyed(notes)
    ensures IsListing(notes, c, u, out)
  {
    var mine: seq<Note> := [];
    var todo := notes.Keys;
    while todo != {}
      invariant todo <= notes.Keys
      invariant Distinct(mine)
      invariant forall n :: n in mine <==> n.id !in todo && Stored(notes, n) && Belongs(n, c, u)
      decreases todo
    {
      var id :| id in todo;
      if notes[id].clusterId == c && notes[id].userId == u {
        mine := mine + [notes[id]];
      }
      todo := todo - {id};
    }
    NewerIsStrict();
    out := SortSlice(mine, Newer);
    SameElements(mine, out);
    forall i, j | 0 <= i < j < |out| ensures Newer(out[i], out[j]) {
      assert out[i] in out && out[j] in out && out[i] != out[j];
      assert out[i].id != out[j].id;
      assert !Newer(out[j], out[i]);
    }
  }
}
