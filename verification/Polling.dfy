/** Cursor paging: what a client that follows next_cursor receives while the store keeps running. */
module Polling {
  import opened Common
  import opened StoreModel
  import opened StoreRuns

  /** A returned row: its id and the cursor it was returned with. */
  datatype Item = Item(id: nat, cursor: nat)

  datatype Page = Page(items: seq<Item>, next: int, latest: nat, total: nat, hasMore: bool)

  predicate Matches(rows: Table, feed: string, x: int) {
    Published(rows, x) && Seg(rows, x).feed == feed
  }

  ghost predicate Ascending(items: seq<Item>) {
    forall i, j :: 0 <= i < j < |items| ==> items[i].cursor < items[j].cursor
  }

  /** Insertion by published_seq; rows without a unique cursor (there are none) would keep id order. */
  function InsertByCursor(items: seq<Item>, it: Item): (r: seq<Item>)
    ensures forall x :: x in r <==> x == it || x in items
    ensures |r| == |items| + 1
    ensures Ascending(items) && (forall x :: x in items ==> x.cursor != it.cursor) ==> Ascending(r)
  {
    if items == [] then [it]
    else if it.cursor < items[0].cursor then [it] + items
    else
      var rest := InsertByCursor(items[1..], it);
      assert forall j :: 0 <= j < |rest| ==> rest[j] in rest;
      assert forall x :: x in items ==> x == items[0] || x in items[1..];
      [items[0]] + rest
  }

  /** SELECT ... WHERE feed_id = ? AND published_seq > after ORDER BY published_seq, over ids below n. */
  function PublishedAfter(rows: Table, feed: string, after: int, n: nat): (r: seq<Item>)
    requires n <= |rows|
    ensures forall it :: it in r <==>
        it.id < n && Matches(rows, feed, it.id) && Cursor(rows, it.id) == it.cursor > after
    ensures Valid(rows) ==> Ascending(r)
  {
    if n == 0 then []
    else
      var r := PublishedAfter(rows, feed, after, n - 1);
      if Matches(rows, feed, n - 1) && Cursor(rows, n - 1) > after
      then InsertByCursor(r, Item(n - 1, Cursor(rows, n - 1)))
      else r
  }

  function Clamp(limit: int): (r: int)
    ensures 1 <= r <= 200
    ensures r == if limit < 1 then 1 else if limit > 200 then 200 else limit
  {
    Max(1, Min(200, limit))
  }

  /** The page cut from the rows found above `c`: its items, its next cursor, and whether more remain. */
  function Cut(found: seq<Item>, c: int, limit: int): (seq<Item>, int, bool) {
    var items := found[..Min(|found|, Clamp(limit))];
    (items, if items == [] then c else items[|items| - 1].cursor, |found| > Clamp(limit))
  }

  /** list_published_segments */
  function ListPublished(rows: Table, feed: string, limit: int, after: Option<int>): Page {
    var all := PublishedAfter(rows, feed, -1, |rows|);
    var latest := if all == [] then 0 else all[|all| - 1].cursor;
    match after
    case Some(c) =>
      var (items, next, more) := Cut(PublishedAfter(rows, feed, c, |rows|), c, limit);
      Page(items, next, latest, |all|, more)
    case None =>
      var items := all[|all| - Min(|all|, Clamp(limit))..];
      Page(items, latest, latest, |all|, false)
  }

  // ------------------------------------------------------------------ fresh cursors

  /** Every cursor assigned on the way from `a` to `b` is above every cursor of `a`. */
  ghost predicate Fresh(a: Table, b: Table) {
    && MaxPub(a) <= MaxPub(b)
    && (forall y :: Published(b, y) && !Published(a, y) ==> Cursor(b, y) > MaxPub(a))
  }

  lemma FreshTransitive(a: Table, b: Table, c: Table)
    requires Fresh(a, b) && Fresh(b, c) && Extends(b, c)
    ensures Fresh(a, c)
  {
    forall y | Published(c, y) && !Published(a, y) ensures Cursor(c, y) > MaxPub(a) {
      if Published(b, y) {
        assert Cursor(c, y) == Cursor(b, y);
      }
    }
  }

  lemma PublishFresh(rows: Table, id: int)
    ensures Fresh(rows, Publish(rows, id))
  {
    if Unpublished(rows, id) {
      PublishOne(rows, id);
      assert forall y :: Published(Publish(rows, id), y) && y != id ==> Published(rows, y);
    }
  }

  lemma {:induction false} PublishAllFresh(rows: Table, ids: seq<nat>)
    requires Valid(rows)
    ensures Fresh(rows, PublishAll(rows, ids))
    decreases ids
  {
    if ids != [] {
      PublishFresh(rows, ids[0]);
      PublishKeeps(rows, ids[0]);
      PublishAllFresh(Publish(rows, ids[0]), ids[1..]);
      PublishAllKeeps(Publish(rows, ids[0]), ids[1..]);
      FreshTransitive(rows, Publish(rows, ids[0]), PublishAll(rows, ids));
    }
  }

  lemma {:induction false} DrainFresh(w: Window, sid: string)
    requires Valid(w.rows)
    ensures Fresh(w.rows, Drain(w, sid).rows)
    decreases |w.done|
  {
    if w.expected in w.done {
      var staged := FindStaged(w.rows, sid, w.expected);
      if staged.Some? {
        PublishFresh(w.rows, staged.value);
        PublishKeeps(w.rows, staged.value);
      }
      assert |w.done - {w.expected}| < |w.done|;
      DrainFresh(Advance(w, sid), sid);
      DrainKeeps(Advance(w, sid), sid);
      FreshTransitive(w.rows, Advance(w, sid).rows, Drain(w, sid).rows);
    }
  }

  /** The row with the largest cursor is too young for the transcript cutoff. */
  ghost predicate TopSurvives(rows: Table, textCutoff: int) {
    forall x :: Published(rows, x) && Cursor(rows, x) == MaxPub(rows) ==> Seg(rows, x).end > textCutoff
  }

  /** A sweep keeps MAX(published_seq), the base of all later cursors, exactly if the row that
      holds it survives. */
  lemma SweepKeepsTop(rows: Table, a: int, t: int)
    requires Valid(rows)
    ensures MaxPub(SweptRows(rows, a, t)) <= MaxPub(rows)
    ensures MaxPub(SweptRows(rows, a, t)) == MaxPub(rows) <==> TopSurvives(rows, t)
  {
    var r := SweptRows(rows, a, t);
    assert forall x :: Published(r, x) ==>
      Published(rows, x) && Cursor(r, x) == Cursor(rows, x) && Seg(rows, x).end > t;
    forall x | Published(rows, x) && Seg(rows, x).end > t ensures Published(r, x) && Cursor(r, x) == Cursor(rows, x) {
    }
  }

  ghost predicate TopKept(s: Store, ops: seq<Op>)
    decreases ops
  {
    ops == [] ||
    ((ops[0].OpSweep? ==> TopSurvives(s.rows, ops[0].textCutoff)) && TopKept(Apply(s, ops[0]), ops[1..]))
  }

  lemma StageFresh(s: Store, d: Draft)
    ensures Fresh(s.rows, Stage(s, d).rows)
  {
    var r := Stage(s, d).rows;
    assert forall x :: Published(s.rows, x) ==> Published(r, x) && Cursor(r, x) == Cursor(s.rows, x);
    assert forall x :: Published(r, x) ==> Published(s.rows, x) && Cursor(r, x) == Cursor(s.rows, x);
  }

  lemma FreshSelf(rows: Table)
    ensures Fresh(rows, rows)
  {
  }

  lemma SweepFresh(rows: Table, a: int, t: int)
    requires Valid(rows) && TopSurvives(rows, t)
    ensures Fresh(rows, SweptRows(rows, a, t))
  {
    hide MaxPub, TopSurvives;
    SweepKeepsTop(rows, a, t);
    assert forall x :: Published(SweptRows(rows, a, t), x) ==> Published(rows, x);
  }

  lemma PersistFresh(s: Store, d: Draft)
    requires Valid(s.rows)
    ensures Fresh(s.rows, Persist(s, d).rows)
  {
    hide MaxPub, FindStaged, FindClash, Drain, Valid, Fresh, Stage;
    var m := if FindClash(s.rows, d).Some? then s else Stage(s, d);
    FreshSelf(s.rows);
    if FindClash(s.rows, d).None? { StageFresh(s, d); StageKeeps(s, d); }
    var w := Window(m.rows, DoneOf(m, d.session) + {d.seqNo}, NextOf(m, d.session));
    DrainFresh(w, d.session);
    DrainKeeps(w, d.session);
    FreshTransitive(s.rows, m.rows, Drain(w, d.session).rows);
  }

  lemma ApplyFresh(s: Store, op: Op)
    requires Valid(s.rows) && (op.OpSweep? ==> TopSurvives(s.rows, op.textCutoff))
    ensures Fresh(s.rows, Apply(s, op).rows)
  {
    hide MaxPub, FindStaged, FindClash, Staged, PublishAll, Drain, SweptRows, LatestSession, Valid, Fresh;
    hide Persist, Stage, TopSurvives;
    FreshSelf(s.rows);
    match op
    case OpStart(sid, feed, at) => PublishAllFresh(s.rows, Staged(s.rows, OfFeed(feed)));
    case OpPersist(d) => PersistFresh(s, d);
    case OpStage(d) => StageFresh(s, d);
    case OpComplete(sid, n, end) => DrainFresh(Window(s.rows, DoneOf(s, sid) + {n}, NextOf(s, sid)), sid);
    case OpFlush(sid) => PublishAllFresh(s.rows, Staged(s.rows, OfSession(sid)));
    case OpClose(sid, at) => PublishAllFresh(s.rows, Staged(s.rows, OfSession(sid)));
    case OpSweep(a, t) => SweepFresh(s.rows, a, t);
    case OpGap(_) =>
    case OpProgress(_, _) =>
    case OpMemory(_, _) =>
  }

  /** Cursors are never reused in a run whose sweeps all spare the largest cursor. */
  lemma {:induction false} RunFresh(s: Store, ops: seq<Op>)
    requires Valid(s.rows) && TopKept(s, ops)
    ensures Fresh(s.rows, Run(s, ops).rows)
    decreases ops
  {
    if ops != [] {
      ApplyFresh(s, ops[0]);
      ApplyKeeps(s, ops[0]);
      RunFresh(Apply(s, ops[0]), ops[1..]);
      RunKeeps(Apply(s, ops[0]), ops[1..]);
      FreshTransitive(s.rows, Apply(s, ops[0]).rows, Run(s, ops).rows);
    }
  }

  // ------------------------------------------------------------------ following next_cursor

  /** Before each page the store runs some operations; then a page of some limit is requested. */
  datatype Turn = Turn(ops: seq<Op>, limit: int)

  datatype Followed = Followed(items: seq<Item>, next: int, s: Store, hasMore: bool)

  /** The client's loop: request a page after the cursor, keep its items, continue from next_cursor. */
  function Follow(s: Store, feed: string, c: int, turns: seq<Turn>): Followed
    decreases turns
  {
    if turns == [] then Followed([], c, s, true)
    else
      var s1 := Run(s, turns[0].ops);
      var page := ListPublished(s1.rows, feed, turns[0].limit, Some(c));
      var rest := Follow(s1, feed, page.next, turns[1..]);
      Followed(page.items + rest.items, rest.next, rest.s, if turns[1..] == [] then page.hasMore else rest.hasMore)
  }

  ghost predicate TopKeptThroughout(s: Store, turns: seq<Turn>)
    decreases turns
  {
    turns == [] || (TopKept(s, turns[0].ops) && TopKeptThroughout(Run(s, turns[0].ops), turns[1..]))
  }

  ghost predicate Holds(rows: Table, feed: string, it: Item) {
    Matches(rows, feed, it.id) && Cursor(rows, it.id) == it.cursor
  }

  lemma PageContents(rows: Table, feed: string, limit: int, c: int)
    requires Valid(rows)
    ensures var p := ListPublished(rows, feed, limit, Some(c));
      && Ascending(p.items)
      && p.next >= c
      && (p.items != [] ==> p.next <= MaxPub(rows))
      && (forall it :: it in p.items <==> Holds(rows, feed, it) && c < it.cursor <= p.next)
      && (!p.hasMore ==> forall it :: Holds(rows, feed, it) && it.cursor > c ==> it in p.items)
  {
    var found := PublishedAfter(rows, feed, c, |rows|);
    assert forall it :: it in found <==> Holds(rows, feed, it) && c < it.cursor;
    PageOf(found, rows, feed, limit, c);
  }

  lemma PageOf(found: seq<Item>, rows: Table, feed: string, limit: int, c: int)
    requires Ascending(found)
    requires forall it :: it in found <==> Holds(rows, feed, it) && c < it.cursor
    ensures var (items, next, more) := Cut(found, c, limit);
      && Ascending(items)
      && next >= c
      && (items != [] ==> next <= MaxPub(rows))
      && (forall it :: it in items <==> Holds(rows, feed, it) && c < it.cursor <= next)
      && (!more ==> forall it :: Holds(rows, feed, it) && it.cursor > c ==> it in items)
  {
    var k := Min(|found|, Clamp(limit));
    PrefixByCursor(found, k);
    if k > 0 {
      assert found[k - 1] in found;
      assert found[..k][k - 1] == found[k - 1];
    } else {
      assert forall it :: !(Holds(rows, feed, it) && c < it.cursor);
    }
    if k == |found| {
      assert found[..k] == found;
    }
  }

  lemma PrefixByCursor(found: seq<Item>, k: int)
    requires Ascending(found) && 0 <= k <= |found|
    ensures Ascending(found[..k])
    ensures k > 0 ==> forall it :: it in found[..k] <==> it in found && it.cursor <= found[k - 1].cursor
  {
    if k > 0 {
      forall it | it in found && it.cursor <= found[k - 1].cursor ensures it in found[..k] {
        var i :| 0 <= i < |found| && found[i] == it;
        assert i < k ==> found[..k][i] == it;
      }
    }
  }

  /** Exactly-once polling. Following next_cursor from `c`, with any operations between the pages and
      any limits, as long as no sweep deletes the row with the largest cursor: the items come in
      strictly increasing cursor order above `c` (so none twice), each one is a row of the
      feed that still has that cursor if it still exists, every published row of the feed with
      a cursor in (c, next] was returned, and once has_more is false that is every published
      row of the feed above `c`. */
  lemma {:induction false} PollingExactlyOnce(s: Store, feed: string, c: int, turns: seq<Turn>)
    requires Valid(s.rows) && TopKeptThroughout(s, turns)
    ensures var r := Follow(s, feed, c, turns);
      && Ascending(r.items)
      && c <= r.next
      && (forall it :: it in r.items ==> c < it.cursor <= r.next)
      && Valid(r.s.rows) && Extends(s.rows, r.s.rows) && Fresh(s.rows, r.s.rows)
      && (forall it :: it in r.items && Live(r.s.rows, it.id) ==> Holds(r.s.rows, feed, it))
      && (forall it :: Holds(r.s.rows, feed, it) && c < it.cursor <= r.next ==> it in r.items)
      && (!r.hasMore ==> forall it :: Holds(r.s.rows, feed, it) && it.cursor > c ==> it in r.items)
    decreases turns
  {
    if turns == [] {
      assert forall it :: Holds(s.rows, feed, it) ==> !(c < it.cursor <= c);
    } else {
      var s1 := Run(s, turns[0].ops);
      RunKeeps(s, turns[0].ops);
      RunFresh(s, turns[0].ops);
      var page := ListPublished(s1.rows, feed, turns[0].limit, Some(c));
      PageContents(s1.rows, feed, turns[0].limit, c);
      PollingExactlyOnce(s1, feed, page.next, turns[1..]);
      var rest := Follow(s1, feed, page.next, turns[1..]);
      var r := Follow(s, feed, c, turns);
      ExtendsTransitive(s.rows, s1.rows, rest.s.rows);
      FreshTransitive(s.rows, s1.rows, rest.s.rows);
      StillHolds(s1.rows, rest.s.rows, feed, page);
      FirstPageComplete(s1.rows, rest.s.rows, feed, c, turns[0].limit);
      JoinAscending(page.items, rest.items, page.next);
      forall it | Holds(r.s.rows, feed, it) && c < it.cursor <= r.next ensures it in r.items {
        if it.cursor <= page.next {
          assert it in page.items;
        } else {
          assert it in rest.items;
        }
      }
    }
  }

  lemma JoinAscending(a: seq<Item>, b: seq<Item>, mid: int)
    requires Ascending(a) && Ascending(b)
    requires (forall it :: it in a ==> it.cursor <= mid) && (forall it :: it in b ==> mid < it.cursor)
    ensures Ascending(a + b)
  {
    forall i, j | 0 <= i < j < |a + b| ensures (a + b)[i].cursor < (a + b)[j].cursor {
      if i < |a| <= j {
        assert a[i] in a && b[j - |a|] in b;
      }
    }
  }

  lemma StillHolds(a: Table, b: Table, feed: string, p: Page)
    requires Extends(a, b) && (forall it :: it in p.items ==> Holds(a, feed, it))
    ensures forall it :: it in p.items && Live(b, it.id) ==> Holds(b, feed, it)
  {
  }

  /** A row seen later with a cursor the first page covered was already in that page. */
  lemma FirstPageComplete(a: Table, b: Table, feed: string, c: int, limit: int)
    requires Valid(a) && Extends(a, b) && Fresh(a, b)
    ensures var p := ListPublished(a, feed, limit, Some(c));
      && (forall it :: Holds(b, feed, it) && c < it.cursor <= p.next ==> it in p.items)
      && (!p.hasMore ==> forall it :: Holds(a, feed, it) && it.cursor > c ==> it in p.items)
  {
    PageContents(a, feed, limit, c);
    var p := ListPublished(a, feed, limit, Some(c));
    forall it | Holds(b, feed, it) && c < it.cursor <= p.next ensures it in p.items {
      assert Published(a, it.id);
      assert Holds(a, feed, it);
    }
  }

  /** The feed's only row above `c` is on the next page after `c`, for any limit. */
  lemma NextPageHolds(rows: Table, feed: string, limit: int, c: int, it: Item)
    requires Valid(rows) && Holds(rows, feed, it) && it.cursor == c + 1 == MaxPub(rows)
    ensures it in ListPublished(rows, feed, limit, Some(c)).items
  {
    hide MaxPub;
    PageContents(rows, feed, limit, c);
    var page := ListPublished(rows, feed, limit, Some(c));
    assert it in PublishedAfter(rows, feed, c, |rows|);
    assert page.items != [];
    assert page.items[0] in page.items;
  }

  /** Why the largest cursor must survive. A client has read up to the largest cursor; a sweep runs; rows
      may then be inserted but none published (`mid`). The client receives the next row its feed
      publishes exactly if the sweep spared the row holding the largest cursor; otherwise a
      cursor is reused and the client skips the row. */
  lemma UpToDateClientSeesNextRow(rows: Table, a: int, t: int, mid: Table, id: int, feed: string, limit: int)
    requires Valid(rows) && Valid(mid) && MaxPub(mid) == MaxPub(SweptRows(rows, a, t))
    requires Unpublished(mid, id) && Seg(mid, id).feed == feed
    ensures var page := ListPublished(Publish(mid, id), feed, limit, Some(MaxPub(rows)));
      (exists it :: it in page.items && it.id == id) <==> TopSurvives(rows, t)
  {
    hide MaxPub, ListPublished, SweptRows;
    var after := Publish(mid, id);
    var page := ListPublished(after, feed, limit, Some(MaxPub(rows)));
    SweepKeepsTop(rows, a, t);
    PublishKeeps(mid, id);
    PublishOne(mid, id);
    PageContents(after, feed, limit, MaxPub(rows));
    var it := Item(id, Cursor(after, id));
    assert Holds(after, feed, it);
    if TopSurvives(rows, t) {
      assert it.cursor == MaxPub(rows) + 1 == MaxPub(after);
      NextPageHolds(after, feed, limit, MaxPub(rows), it);
    }
  }

  /** A client with no cursor yet gets the newest rows of the feed, in cursor order, and a next cursor
      at the newest, so following it misses nothing published afterwards. */
  lemma LatestPageContents(rows: Table, feed: string, limit: int)
    requires Valid(rows)
    ensures var p := ListPublished(rows, feed, limit, None);
      && Ascending(p.items)
      && |p.items| == Min(p.total, Clamp(limit))
      && (forall it :: Holds(rows, feed, it) ==> it.cursor <= p.next == p.latest <= MaxPub(rows))
      && (p.items != [] ==> forall it :: it in p.items <==> Holds(rows, feed, it) && it.cursor >= p.items[0].cursor)
      && (p.items == [] ==> p.next == 0 && forall it :: !Holds(rows, feed, it))
  {
    var all := PublishedAfter(rows, feed, -1, |rows|);
    assert forall it :: it in all <==> Holds(rows, feed, it);
    assert forall it :: Holds(rows, feed, it) ==> it.cursor >= 1;
    SuffixByCursor(all, |all| - Min(|all|, Clamp(limit)), rows, feed);
  }

  /** The feed's published rows, counted. */
  function CountPublished(rows: Table, feed: string, n: nat): nat
    requires n <= |rows|
  {
    if n == 0 then 0 else CountPublished(rows, feed, n - 1) + if Matches(rows, feed, n - 1) then 1 else 0
  }

  lemma {:induction false} AllCounted(rows: Table, feed: string, n: nat)
    requires n <= |rows|
    ensures |PublishedAfter(rows, feed, -1, n)| == CountPublished(rows, feed, n)
  {
    hide MaxPub, Valid, InsertByCursor, Ascending;
    if n > 0 {
      AllCounted(rows, feed, n - 1);
    }
  }

  /** The numbers on a page: never more items than the limit, has_more exactly if a further row exists, and
      then a full page; the total counts the feed's published rows, and the latest cursor is the
      largest of theirs, 0 without any. */
  lemma PageNumbers(rows: Table, feed: string, limit: int, after: Option<int>)
    requires Valid(rows)
    ensures var p := ListPublished(rows, feed, limit, after);
      var most := if limit < 1 then 1 else if limit > 200 then 200 else limit;
      && |p.items| <= most
      && (p.hasMore <==> after.Some? && exists it :: Holds(rows, feed, it) && it.cursor > p.next)
      && (p.hasMore ==> |p.items| == most)
      && p.total == CountPublished(rows, feed, |rows|)
      && (forall it :: Holds(rows, feed, it) ==> it.cursor <= p.latest)
      && (if p.total == 0 then p.latest == 0 else exists it :: Holds(rows, feed, it) && it.cursor == p.latest)
      && (p.items == [] ==> p.next == if after.Some? then after.value else p.latest)
  {
    hide PublishedAfter, MaxPub, Valid, CountPublished, Matches, Ascending;
    AllCounted(rows, feed, |rows|);
    LatestOf(rows, feed, PublishedAfter(rows, feed, -1, |rows|));
    if after.Some? {
      MoreExists(rows, feed, limit, after.value);
    }
  }

  lemma MoreExists(rows: Table, feed: string, limit: int, c: int)
    requires Valid(rows)
    ensures var p := ListPublished(rows, feed, limit, Some(c));
      p.hasMore <==> exists it :: Holds(rows, feed, it) && it.cursor > p.next
  {
    hide PublishedAfter, MaxPub, Valid;
    var p, found := ListPublished(rows, feed, limit, Some(c)), PublishedAfter(rows, feed, c, |rows|);
    PageContents(rows, feed, limit, c);
    if p.hasMore {
      var it := found[|p.items|];
      assert it in found && p.items[|p.items| - 1] == found[|p.items| - 1];
      assert Holds(rows, feed, it) && it.cursor > p.next;
    } else {
      forall it | Holds(rows, feed, it) ensures it.cursor <= p.next {
        assert it.cursor > c ==> it in p.items;
      }
    }
  }

  lemma LatestOf(rows: Table, feed: string, all: seq<Item>)
    requires Valid(rows) && all == PublishedAfter(rows, feed, -1, |rows|)
    ensures forall it :: Holds(rows, feed, it) ==> all != [] && it.cursor <= all[|all| - 1].cursor
    ensures all != [] ==> Holds(rows, feed, all[|all| - 1])
  {
    hide MaxPub, Valid, PublishedAfter;
    forall it | Holds(rows, feed, it) ensures all != [] && it.cursor <= all[|all| - 1].cursor {
      assert it in all;
      var i :| 0 <= i < |all| && all[i] == it;
    }
    if all != [] {
      assert all[|all| - 1] in all;
    }
  }

  lemma SuffixByCursor(all: seq<Item>, k: int, rows: Table, feed: string)
    requires Ascending(all) && 0 <= k <= |all| && (k == |all| ==> all == [])
    requires forall it :: it in all <==> Holds(rows, feed, it)
    ensures Ascending(all[k..])
    ensures all[k..] != [] ==> forall it :: it in all[k..] <==> it in all && it.cursor >= all[k..][0].cursor
    ensures all != [] ==> all[|all| - 1].cursor <= MaxPub(rows)
    ensures forall it :: it in all ==> it.cursor <= all[|all| - 1].cursor
  {
    if all != [] {
      assert all[|all| - 1] in all;
      forall it | it in all && it.cursor >= all[k..][0].cursor ensures it in all[k..] {
        var i :| 0 <= i < |all| && all[i] == it;
        assert i >= k ==> all[k..][i - k] == it;
      }
    }
  }
}
