/** What every run of the store keeps, whatever crashes, faults, sweeps and other sessions do. */
module StoreRuns {
  import opened Common
  import opened StoreModel

  // ------------------------------------------------------------------ one publication

  lemma PublishOne(rows: Table, id: int)
    requires Unpublished(rows, id)
    ensures |Publish(rows, id)| == |rows|
    ensures Published(Publish(rows, id), id) && Cursor(Publish(rows, id), id) == MaxPub(rows) + 1
    ensures MaxPub(Publish(rows, id)) == MaxPub(rows) + 1
    ensures forall x :: 0 <= x < |rows| && x != id ==> Publish(rows, id)[x] == rows[x]
    ensures Seg(Publish(rows, id), id) == Seg(rows, id)
  {
    var r := Publish(rows, id);
    assert forall x :: Published(r, x) && x != id ==> Published(rows, x) && Cursor(r, x) == Cursor(rows, x);
    assert Published(r, id);
  }

  /** Publishing distinct staged rows hands out exactly the next |ids| cursors, in order, and
      touches nothing else. */
  lemma {:induction false} PublishAllCursors(rows: Table, ids: seq<nat>)
    requires forall i :: 0 <= i < |ids| ==> Unpublished(rows, ids[i])
    requires forall i, j :: 0 <= i < j < |ids| ==> ids[i] != ids[j]
    ensures |PublishAll(rows, ids)| == |rows|
    ensures MaxPub(PublishAll(rows, ids)) == MaxPub(rows) + |ids|
    ensures forall i :: 0 <= i < |ids| ==>
      Published(PublishAll(rows, ids), ids[i])
      && Cursor(PublishAll(rows, ids), ids[i]) == MaxPub(rows) + 1 + i
      && Live(rows, ids[i]) && Seg(PublishAll(rows, ids), ids[i]) == Seg(rows, ids[i])
    ensures forall x :: 0 <= x < |rows| && x !in ids ==> PublishAll(rows, ids)[x] == rows[x]
    decreases ids
  {
    hide MaxPub, Publish;
    if ids != [] {
      PublishOne(rows, ids[0]);
      var next, rest := Publish(rows, ids[0]), ids[1..];
      TailUnpublished(rows, next, ids);
      PublishAllCursors(next, rest);
      forall i | 0 <= i < |ids|
        ensures Published(PublishAll(rows, ids), ids[i])
          && Cursor(PublishAll(rows, ids), ids[i]) == MaxPub(rows) + 1 + i
          && Seg(PublishAll(rows, ids), ids[i]) == Seg(rows, ids[i])
      {
        if i > 0 {
          assert ids[i] == rest[i - 1];
        }
      }
    }
  }

  /** Publishing the first of distinct staged rows leaves the others staged. */
  lemma TailUnpublished(rows: Table, next: Table, ids: seq<nat>)
    requires ids != [] && |next| == |rows| && forall x :: 0 <= x < |rows| && x != ids[0] ==> next[x] == rows[x]
    requires forall i :: 0 <= i < |ids| ==> Unpublished(rows, ids[i])
    requires forall i, j :: 0 <= i < j < |ids| ==> ids[i] != ids[j]
    ensures var rest := ids[1..];
      && (forall i :: 0 <= i < |rest| ==> Unpublished(next, rest[i]) && next[rest[i]] == rows[rest[i]])
      && (forall i, j :: 0 <= i < j < |rest| ==> rest[i] != rest[j])
      && ids[0] !in rest
  {
    var rest := ids[1..];
    assert forall i :: 0 <= i < |rest| ==> rest[i] == ids[i + 1];
  }

  lemma StagedDistinct(rows: Table, sel: Selection)
    ensures forall i, j :: 0 <= i < j < |Staged(rows, sel)| ==> Staged(rows, sel)[i] != Staged(rows, sel)[j]
    ensures forall i :: 0 <= i < |Staged(rows, sel)| ==> Unpublished(rows, Staged(rows, sel)[i])
  {
    var ids := Staged(rows, sel);
    forall i, j | 0 <= i < j < |ids| ensures ids[i] != ids[j] {
      assert Before(rows, sel, ids[i], ids[j]);
    }
    assert forall i :: 0 <= i < |ids| ==> ids[i] in ids;
  }

  lemma OrderOfPlaces(rows: Table, sel: Selection, ids: seq<nat>, i: int, j: int)
    requires AllLive(rows, ids) && InOrder(rows, sel, ids)
    requires 0 <= i < |ids| && 0 <= j < |ids| && Before(rows, sel, ids[i], ids[j])
    ensures i < j
  {
  }

  ghost predicate Takes(rows: Table, sel: Selection, x: int) {
    Unpublished(rows, x) && Selects(sel, Seg(rows, x))
  }

  /** `after` is `rows` with every selected staged row published, above every cursor already given
      out and in the order of the selection, and nothing else changed. */
  ghost predicate Flushed(rows: Table, sel: Selection, after: Table) {
    && |after| == |rows|
    && (forall x :: 0 <= x < |rows| && !Takes(rows, sel, x) ==> after[x] == rows[x])
    && (forall x :: Takes(rows, sel, x) ==>
          Published(after, x) && Seg(after, x) == Seg(rows, x) && Cursor(after, x) > MaxPub(rows))
    && (forall x, y :: Takes(rows, sel, x) && Takes(rows, sel, y) && Before(rows, sel, x, y) ==>
          Cursor(after, x) < Cursor(after, y))
  }

  /** A flush publishes the selected staged rows and nothing else, with consecutive cursors. */
  lemma FlushCursors(rows: Table, sel: Selection)
    ensures Flushed(rows, sel, PublishAll(rows, Staged(rows, sel)))
    ensures MaxPub(PublishAll(rows, Staged(rows, sel))) == MaxPub(rows) + |Staged(rows, sel)|
  {
    var ids := Staged(rows, sel);
    StagedDistinct(rows, sel);
    PublishAllCursors(rows, ids);
    var after := PublishAll(rows, ids);
    forall x | Takes(rows, sel, x)
      ensures x in ids && Published(after, x) && Seg(after, x) == Seg(rows, x) && Cursor(after, x) > MaxPub(rows)
    {
      var i :| 0 <= i < |ids| && ids[i] == x;
    }
    forall x, y | Takes(rows, sel, x) && Takes(rows, sel, y) && Before(rows, sel, x, y)
      ensures Cursor(after, x) < Cursor(after, y)
    {
      var i :| 0 <= i < |ids| && ids[i] == x;
      var j :| 0 <= j < |ids| && ids[j] == y;
      OrderOfPlaces(rows, sel, ids, i, j);
    }
  }

  // ------------------------------------------------------------------ table invariant

  /** Two live rows never share a cursor, a slot, a segment id or an audio identity. */
  ghost predicate Valid(rows: Table) {
    && (forall x :: Published(rows, x) ==> Cursor(rows, x) >= 1)
    && (forall x, y :: Published(rows, x) && Published(rows, y) && x != y ==> Cursor(rows, x) != Cursor(rows, y))
    && (forall x, y :: Live(rows, x) && Live(rows, y) && x != y ==> !Clashes(rows[x].value, Seg(rows, y)))
  }

  /** `b` is a later state of table `a`: ids are never reused, captured columns and cursors never
      change, and whatever is published later gets a larger cursor than every live row
      published earlier. */
  ghost predicate Extends(a: Table, b: Table) {
    && |a| <= |b|
    && (forall x :: Live(b, x) && x < |a| ==> Live(a, x) && Seg(a, x) == Seg(b, x))
    && (forall x :: Published(a, x) && Live(b, x) ==> Published(b, x) && Cursor(b, x) == Cursor(a, x))
    && (forall x, y :: Published(a, x) && Live(b, x) && Published(b, y) && !Published(a, y) ==>
          Cursor(a, x) < Cursor(b, y))
  }

  lemma ExtendsTransitive(a: Table, b: Table, c: Table)
    requires Extends(a, b) && Extends(b, c)
    ensures Extends(a, c)
  {
    forall x | Live(c, x) && x < |a| ensures Live(a, x) && Seg(a, x) == Seg(c, x) {
      assert Live(b, x);
    }
    forall x | Published(a, x) && Live(c, x) ensures Published(c, x) && Cursor(c, x) == Cursor(a, x) {
      assert Live(b, x);
    }
    forall x, y | Published(a, x) && Live(c, x) && Published(c, y) && !Published(a, y)
      ensures Cursor(a, x) < Cursor(c, y)
    {
      assert Live(b, x) && Published(b, x);
      if Published(b, y) {
        assert Cursor(b, y) == Cursor(c, y);
      }
    }
  }

  lemma PublishKeeps(rows: Table, id: int)
    requires Valid(rows)
    ensures Valid(Publish(rows, id)) && Extends(rows, Publish(rows, id))
  {
    hide MaxPub, Publish, Clashes;
    if !Unpublished(rows, id) {
      PublishedStays(rows, id);
    } else {
      PublishOne(rows, id);
      var r := Publish(rows, id);
      assert forall x :: Live(r, x) <==> Live(rows, x);
      assert forall x :: Live(r, x) ==> Seg(r, x) == Seg(rows, x);
      assert forall x :: Published(r, x) && x != id ==> Published(rows, x) && Cursor(r, x) == Cursor(rows, x);
      ClashesStay(rows, r);
    }
  }

  lemma ClashesStay(a: Table, b: Table)
    requires SameRows(a, b) && forall x, y :: Live(a, x) && Live(a, y) && x != y ==> !Clashes(a[x].value, Seg(a, y))
    ensures forall x, y :: Live(b, x) && Live(b, y) && x != y ==> !Clashes(b[x].value, Seg(b, y))
  {
    forall x, y | Live(b, x) && Live(b, y) && x != y ensures !Clashes(b[x].value, Seg(b, y)) {
      assert Seg(a, x) == Seg(b, x) && !Clashes(a[x].value, Seg(a, y));
    }
  }

  lemma PublishedStays(rows: Table, id: int)
    requires !Unpublished(rows, id)
    ensures Publish(rows, id) == rows
  {
  }

  lemma {:induction false} PublishAllKeeps(rows: Table, ids: seq<nat>)
    requires Valid(rows)
    ensures Valid(PublishAll(rows, ids)) && Extends(rows, PublishAll(rows, ids))
    decreases ids
  {
    if ids != [] {
      PublishKeeps(rows, ids[0]);
      PublishAllKeeps(Publish(rows, ids[0]), ids[1..]);
      ExtendsTransitive(rows, Publish(rows, ids[0]), PublishAll(rows, ids));
    }
  }

  lemma {:induction false} DrainKeeps(w: Window, sid: string)
    requires Valid(w.rows)
    ensures Valid(Drain(w, sid).rows) && Extends(w.rows, Drain(w, sid).rows)
    ensures Drain(w, sid).expected !in Drain(w, sid).done
    decreases |w.done|
  {
    if w.expected in w.done {
      var staged := FindStaged(w.rows, sid, w.expected);
      if staged.Some? {
        PublishKeeps(w.rows, staged.value);
      }
      assert |w.done - {w.expected}| < |w.done|;
      DrainKeeps(Advance(w, sid), sid);
      ExtendsTransitive(w.rows, Advance(w, sid).rows, Drain(w, sid).rows);
    }
  }

  /** Same rows in the same places, with the same captured columns; only cursors may differ. */
  ghost predicate SameRows(a: Table, b: Table) {
    && |a| == |b|
    && (forall x :: Live(a, x) <==> Live(b, x))
    && (forall x :: Live(a, x) ==> Seg(a, x) == Seg(b, x))
  }

  lemma {:induction false} DrainShape(w: Window, sid: string)
    ensures SameRows(w.rows, Drain(w, sid).rows)
    decreases |w.done|
  {
    if w.expected in w.done {
      assert |w.done - {w.expected}| < |w.done|;
      DrainShape(Advance(w, sid), sid);
    }
  }

  lemma StageKeeps(s: Store, d: Draft)
    requires Valid(s.rows) && FindClash(s.rows, d).None?
    ensures Valid(Stage(s, d).rows) && Extends(s.rows, Stage(s, d).rows)
  {
    var r := Stage(s, d).rows;
    var k := |s.rows|;
    assert forall x :: Live(r, x) && x != k ==> Live(s.rows, x) && r[x] == s.rows[x];
    assert forall x :: Published(r, x) ==> x != k && Published(s.rows, x) && Cursor(r, x) == Cursor(s.rows, x);
    forall x, y | Live(r, x) && Live(r, y) && x != y ensures !Clashes(r[x].value, Seg(r, y)) {
      if x == k {
        assert !Clashes(s.rows[y].value, d);
      } else if y == k {
        assert !Clashes(s.rows[x].value, d);
      }
    }
  }

  lemma SweepKeeps(rows: Table, a: int, t: int)
    requires Valid(rows)
    ensures Valid(SweptRows(rows, a, t)) && Extends(rows, SweptRows(rows, a, t))
  {
    var r := SweptRows(rows, a, t);
    assert forall x :: Live(r, x) ==> Live(rows, x) && Seg(r, x) == Seg(rows, x) && r[x].value.pub == rows[x].value.pub;
    assert forall x :: Published(r, x) ==> Published(rows, x) && Cursor(r, x) == Cursor(rows, x);
  }

  lemma ApplyKeeps(s: Store, op: Op)
    requires Valid(s.rows)
    ensures Valid(Apply(s, op).rows) && Extends(s.rows, Apply(s, op).rows)
  {
    hide MaxPub, FindStaged, FindClash, Staged, PublishAll, Drain, SweptRows, LatestSession;
    match op
    case OpStart(sid, feed, at) =>
      PublishAllKeeps(s.rows, Staged(s.rows, OfFeed(feed)));
    case OpPersist(d) =>
      var m := if FindClash(s.rows, d).Some? then s else Stage(s, d);
      if FindClash(s.rows, d).None? { StageKeeps(s, d); }
      DrainKeeps(Window(m.rows, DoneOf(m, d.session) + {d.seqNo}, NextOf(m, d.session)), d.session);
      ExtendsTransitive(s.rows, m.rows, Persist(s, d).rows);
    case OpStage(d) =>
      if FindClash(s.rows, d).None? { StageKeeps(s, d); }
    case OpComplete(sid, n, end) =>
      DrainKeeps(Window(s.rows, DoneOf(s, sid) + {n}, NextOf(s, sid)), sid);
    case OpFlush(sid) =>
      PublishAllKeeps(s.rows, Staged(s.rows, OfSession(sid)));
    case OpClose(sid, at) =>
      PublishAllKeeps(s.rows, Staged(s.rows, OfSession(sid)));
    case OpSweep(a, t) =>
      SweepKeeps(s.rows, a, t);
    case OpGap(_) =>
    case OpProgress(_, _) =>
    case OpMemory(_, _) =>
  }

  /** Over every run, with crashes and faults anywhere: cursors and slots stay unique, rows and
      cursors are immutable, and cursor order is publication order among the live rows. */
  lemma {:induction false} RunKeeps(s: Store, ops: seq<Op>)
    requires Valid(s.rows)
    ensures Valid(Run(s, ops).rows) && Extends(s.rows, Run(s, ops).rows)
    decreases ops
  {
    if ops != [] {
      ApplyKeeps(s, ops[0]);
      RunKeeps(Apply(s, ops[0]), ops[1..]);
      ExtendsTransitive(s.rows, Apply(s, ops[0]).rows, Run(s, ops).rows);
    }
  }

  lemma {:induction false} RunAppend(s: Store, a: seq<Op>, b: seq<Op>)
    ensures Run(s, a + b) == Run(Run(s, a), b)
    decreases a
  {
    if a == [] {
      assert a + b == b;
    } else {
      assert (a + b)[1..] == a[1..] + b;
      RunAppend(Apply(s, a[0]), a[1..], b);
    }
  }

  // ------------------------------------------------------------------ crash recovery

  /** Starting a session leaves no row of the feed unpublished. Rows published before keep their
      cursors; the stranded ones take new, larger cursors in capture order. */
  lemma RecoveryPublishesFeed(s: Store, sid: string, feed: string, at: int)
    requires Valid(s.rows) && !HasSession(s, sid)
    ensures Valid(Start(s, sid, feed, at).rows)
    ensures Flushed(s.rows, OfFeed(feed), Start(s, sid, feed, at).rows)
    ensures forall x :: Live(s.rows, x) <==> Live(Start(s, sid, feed, at).rows, x)
    ensures forall x :: Live(s.rows, x) && Seg(s.rows, x).feed == feed ==> Published(Start(s, sid, feed, at).rows, x)
  {
    var r := PublishAll(s.rows, Staged(s.rows, OfFeed(feed)));
    FlushCursors(s.rows, OfFeed(feed));
    PublishAllKeeps(s.rows, Staged(s.rows, OfFeed(feed)));
    forall x | Live(s.rows, x) ensures Live(r, x) && (Seg(s.rows, x).feed == feed ==> Published(r, x)) {
      if !Takes(s.rows, OfFeed(feed), x) {
        assert r[x] == s.rows[x];
      }
    }
    forall x | Live(r, x) ensures Live(s.rows, x) {
      if !Takes(s.rows, OfFeed(feed), x) {
        assert r[x] == s.rows[x];
      }
    }
  }

  /** Crash recovery over whole runs: after any run from the empty store, however it crashed or
      faulted, a new session's start publishes every committed row of the feed. In every
      continuation a live row that existed at the restart still has the one cursor it had then,
      and that cursor is smaller than the cursor of every row inserted after the restart. */
  lemma RecoveryOverRuns(before: seq<Op>, sid: string, feed: string, at: int, after: seq<Op>)
    requires !HasSession(Run(EMPTY_STORE, before), sid)
    ensures
      var crashed := Run(EMPTY_STORE, before).rows;
      var restarted := Start(Run(EMPTY_STORE, before), sid, feed, at);
      var later := Run(restarted, after).rows;
      && |restarted.rows| == |crashed|
      && (forall x :: Live(crashed, x) && Seg(crashed, x).feed == feed ==> Published(restarted.rows, x))
      && (forall x :: Live(later, x) && x < |crashed| && Seg(later, x).feed == feed ==>
            Published(restarted.rows, x) && Published(later, x) && Cursor(later, x) == Cursor(restarted.rows, x))
      && (forall x, y | Live(later, x) && x < |crashed| && Seg(later, x).feed == feed
                        && y >= |crashed| && Published(later, y) ::
            Published(later, x) && Cursor(later, x) < Cursor(later, y))
      && (forall x, y :: Published(later, x) && Published(later, y) && x != y ==> Cursor(later, x) != Cursor(later, y))
  {
    var crashed := Run(EMPTY_STORE, before);
    RunKeeps(EMPTY_STORE, before);
    RecoveryPublishesFeed(crashed, sid, feed, at);
    var restarted := Start(crashed, sid, feed, at);
    RunKeeps(restarted, after);
    var later := Run(restarted, after).rows;
    forall x | Live(later, x) && x < |crashed.rows| && Seg(later, x).feed == feed
      ensures Published(restarted.rows, x) && Published(later, x) && Cursor(later, x) == Cursor(restarted.rows, x)
    {
      assert Live(restarted.rows, x) && Live(crashed.rows, x);
      assert Seg(restarted.rows, x) == Seg(crashed.rows, x) by {
        if !Takes(crashed.rows, OfFeed(feed), x) {
          assert restarted.rows[x] == crashed.rows[x];
        }
      }
    }
  }
}
