/** Concrete runs of the store that reach the failing side of the conditions proved in StoreOrder and
    Polling. */
module StoreWitnesses {
  import opened Common
  import opened StoreModel
  import opened StoreRuns
  import opened StoreOrder
  import opened Polling

  function DraftAt(id: string, sid: string, feed: string, n: nat, start: int, end: int): Draft {
    Draft(id, feed, sid, n, start, end, None, "text", false)
  }

  // ------------------------------------------------------------------ single steps

  /** The first session of an empty store. */
  lemma FirstStart(sid: string, feed: string)
    ensures Start(EMPTY_STORE, sid, feed, 0)
      == Store([], [Session(sid, feed, 0, None, Active, None)], [], map[sid := {}], map[sid := 0])
  {
    hide MaxPub, PublishAll, Staged;
    FlushCursors([], OfFeed(feed));
    assert PublishAll([], Staged([], OfFeed(feed))) == [];
  }

  lemma DrainOnce(w: Window, sid: string)
    requires w.done == {w.expected}
    ensures Drain(w, sid) == Advance(w, sid)
  {
    hide FindStaged, MaxPub;
    assert Advance(w, sid).done == {};
  }

  lemma StagedIsLast(rows: Table, d: Draft)
    requires FindClash(rows, d).None?
    ensures FindStaged(rows + [Some(Row(d, None, d.retained))], d.session, d.seqNo) == Some(|rows|)
  {
    hide FindClash, FindStaged;
    var r, k := rows + [Some(Row(d, None, d.retained))], |rows|;
    assert forall x :: Live(r, x) && x != k ==> Live(rows, x) && r[x] == rows[x] && !Clashes(rows[x].value, d);
    assert Unpublished(r, k) && Seg(r, k) == d;
  }

  lemma ReadyOnce(m: Store, sid: string, n: nat, id: nat)
    requires FindStaged(m.rows, sid, n) == Some(id) && NextOf(m, sid) == n && DoneOf(m, sid) == {}
    ensures var r := MarkReady(m, sid, n);
      r.rows == Publish(m.rows, id) && NextOf(r, sid) == n + 1 && DoneOf(r, sid) == {}
  {
    hide FindStaged, Drain, Publish;
    var w := Window(m.rows, DoneOf(m, sid) + {n}, n);
    assert w.done == {n} && w.done - {n} == {};
    DrainOnce(w, sid);
  }

  /** `b` is `a` with one more row, `d`, published as `cursor` or staged. */
  ghost predicate Gains(a: Table, b: Table, d: Draft, cursor: Option<nat>) {
    && |b| == |a| + 1
    && (forall x :: 0 <= x < |a| ==> b[x] == a[x])
    && Live(b, |a|) && Seg(b, |a|) == d && b[|a|].value.pub == cursor
  }

  /** A row persisted for the expected slot, with nothing completed beyond it, is published at once. */
  lemma PersistNext(s: Store, d: Draft)
    requires FindClash(s.rows, d).None? && NextOf(s, d.session) == d.seqNo && DoneOf(s, d.session) == {}
    ensures Gains(s.rows, Persist(s, d).rows, d, Some(MaxPub(s.rows) + 1))
    ensures NextOf(Persist(s, d), d.session) == d.seqNo + 1 && DoneOf(Persist(s, d), d.session) == {}
  {
    hide MaxPub, FindClash, FindStaged, MarkReady, WithAudioEnd, Clashes;
    var m, k := Stage(s, d), |s.rows|;
    StagedIsLast(s.rows, d);
    MaxOfStaged(s.rows, Row(d, None, d.retained));
    ReadyOnce(m, d.session, d.seqNo, k);
    assert Unpublished(m.rows, k) && Seg(m.rows, k) == d;
    PublishOne(m.rows, k);
  }

  lemma MaxOfStaged(rows: Table, row: Row)
    requires row.pub.None?
    ensures MaxPub(rows + [Some(row)]) == MaxPub(rows)
  {
    assert (rows + [Some(row)])[..|rows|] == rows;
  }

  /** A row persisted beyond the expected slot waits. */
  lemma PersistAhead(s: Store, d: Draft)
    requires FindClash(s.rows, d).None? && NextOf(s, d.session) != d.seqNo
      && NextOf(s, d.session) !in DoneOf(s, d.session)
    ensures Gains(s.rows, Persist(s, d).rows, d, None)
    ensures NextOf(Persist(s, d), d.session) == NextOf(s, d.session)
    ensures DoneOf(Persist(s, d), d.session) == DoneOf(s, d.session) + {d.seqNo}
  {
    hide FindClash, FindStaged, MaxPub;
    var m := Stage(s, d);
    var w := Window(m.rows, DoneOf(m, d.session) + {d.seqNo}, NextOf(m, d.session));
    assert Drain(w, d.session) == w;
  }

  /** The expected slot completed without a row. */
  lemma CompleteNext(s: Store, sid: string, n: nat)
    requires NextOf(s, sid) == n && DoneOf(s, sid) == {} && forall x :: Of(s.rows, sid, x) ==> Seg(s.rows, x).seqNo != n
    ensures var r := Complete(s, sid, n, None);
      r.rows == s.rows && NextOf(r, sid) == n + 1 && DoneOf(r, sid) == {}
  {
    hide FindStaged, Drain;
    var w := Window(s.rows, DoneOf(s, sid) + {n}, n);
    assert w.done == {n} && w.done - {n} == {};
    DrainOnce(w, sid);
    var f := FindStaged(s.rows, sid, n);
    assert f.Some? ==> Of(s.rows, sid, f.value);
  }

  /** A row staged by the first commit alone. */
  lemma StageOnly(s: Store, d: Draft)
    requires FindClash(s.rows, d).None?
    ensures Gains(s.rows, Apply(s, OpStage(d)).rows, d, None)
  {
    hide FindClash;
  }

  /** The close gives a row still staged a larger cursor than a published one. */
  lemma LateFlush(s: Store, sid: string, x: int, y: int)
    requires Waits(s.rows, sid, x) && Published(s.rows, y)
    ensures var r := Close(s, sid, 30).rows;
      && Published(r, x) && Published(r, y) && Seg(r, x) == Seg(s.rows, x) && Seg(r, y) == Seg(s.rows, y)
      && Cursor(r, y) < Cursor(r, x)
  {
    hide MaxPub, PublishAll, Staged;
    FlushCursors(s.rows, OfSession(sid));
    assert Takes(s.rows, OfSession(sid), x) && !Takes(s.rows, OfSession(sid), y);
    assert Close(s, sid, 30).rows[y] == s.rows[y];
  }

  // ------------------------------------------------------------------ the runs

  lemma RunTwo(s: Store, a: Op, b: Op)
    ensures Run(s, [a, b]) == Apply(Apply(s, a), b)
  {
    hide Apply;
    assert [a, b][1..] == [b] && [b][1..] == [];
    assert Run(s, [a, b]) == Run(Apply(s, a), [b]);
    assert Run(Apply(s, a), [b]) == Run(Apply(Apply(s, a), b), []);
  }

  /** A cursor handed out twice. A row is published with cursor 1 and read; it expires and retention deletes
      it; the next chunk is then captured, inserted and published with cursor 1 again, and the client
      that has read up to cursor 1 gets an empty page. */
  lemma CursorHandedOutTwice(sid: string, feed: string, limit: int)
    ensures var d0, d1 := DraftAt("a", sid, feed, 0, 0, 10), DraftAt("b", sid, feed, 1, 10, 20);
      var first := Run(EMPTY_STORE, [OpStart(sid, feed, 0), OpPersist(d0)]);
      var later := Run(first, [OpSweep(10, 10), OpPersist(d1)]);
      && Published(first.rows, 0) && Cursor(first.rows, 0) == 1
      && ListPublished(first.rows, feed, limit, Some(0)).items == [Item(0, 1)]
      && Published(later.rows, 1) && Seg(later.rows, 1) == d1 && Cursor(later.rows, 1) == 1
      && ListPublished(later.rows, feed, limit, Some(1)).items == []
  {
    hide MaxPub, FindClash, Persist, Start, ListPublished, Run, SweptRows;
    var d0, d1 := DraftAt("a", sid, feed, 0, 0, 10), DraftAt("b", sid, feed, 1, 10, 20);
    var started := Start(EMPTY_STORE, sid, feed, 0);
    FirstStart(sid, feed);
    PersistNext(started, d0);
    var first := Persist(started, d0);
    RunTwo(EMPTY_STORE, OpStart(sid, feed, 0), OpPersist(d0));
    assert MaxPub(started.rows) == 0;
    var swept := Sweep(first, 10, 10);
    assert forall x :: !Live(swept.rows, x);
    assert FindClash(swept.rows, d1).None? && MaxPub(swept.rows) == 0;
    PersistNext(swept, d1);
    RunTwo(first, OpSweep(10, 10), OpPersist(d1));
    RunKeeps(EMPTY_STORE, [OpStart(sid, feed, 0), OpPersist(d0)]);
    RunKeeps(first, [OpSweep(10, 10), OpPersist(d1)]);
    OnePage(first.rows, feed, limit, 0);
    PageContents(Persist(swept, d1).rows, feed, limit, 1);
    assert forall it :: Holds(Persist(swept, d1).rows, feed, it) ==> it == Item(1, 1);
    var items := ListPublished(Persist(swept, d1).rows, feed, limit, Some(1)).items;
    FirstTwoIn(items);
  }

  lemma FirstTwoIn(items: seq<Item>)
    ensures items == [] || items[0] in items
    ensures |items| < 2 || items[1] in items
  {
  }

  lemma OnePage(rows: Table, feed: string, limit: int, id: nat)
    requires Valid(rows) && |rows| == 1 && id == 0 && Matches(rows, feed, id) && Cursor(rows, id) == 1
    ensures ListPublished(rows, feed, limit, Some(0)).items == [Item(id, 1)]
  {
    hide ListPublished, MaxPub;
    var items := ListPublished(rows, feed, limit, Some(0)).items;
    PageContents(rows, feed, limit, 0);
    assert MaxPub(rows) == 1;
    NextPageHolds(rows, feed, limit, 0, Item(id, 1));
    assert forall it :: Holds(rows, feed, it) ==> it == Item(id, 1);
    FirstTwoIn(items);
  }

  /** Recovery out of slot order. Slot 0 is dropped under back-pressure, slot 1 is the tail of a connection,
      and after the reconnect slot 2 is a relay burst clamped to the clock, so it starts earlier than
      slot 1. The process crashes; the restart gives slot 2 the smaller cursor. */
  lemma RecoveryOutOfSlotOrder(sid: string, feed: string, next: string)
    requires sid != next
    ensures var d1, d2 := DraftAt("a", sid, feed, 1, 50, 60), DraftAt("b", sid, feed, 2, 5, 65);
      var s := Run(Run(EMPTY_STORE, [OpStart(sid, feed, 0), OpPersist(d1)]), [OpPersist(d2), CRASH]);
      var r := Start(s, next, feed, 70).rows;
      && Published(r, 0) && Published(r, 1) && Seg(r, 0) == d1 && Seg(r, 1) == d2 && Cursor(r, 1) < Cursor(r, 0)
  {
    hide MaxPub, FindClash, Persist, Start, Run, PublishAll, Staged;
    var d1, d2 := DraftAt("a", sid, feed, 1, 50, 60), DraftAt("b", sid, feed, 2, 5, 65);
    var s0 := Start(EMPTY_STORE, sid, feed, 0);
    FirstStart(sid, feed);
    PersistAhead(s0, d1);
    var s1 := Persist(s0, d1);
    RunTwo(EMPTY_STORE, OpStart(sid, feed, 0), OpPersist(d1));
    assert FindClash(s1.rows, d2).None?;
    PersistAhead(s1, d2);
    RunTwo(s1, OpPersist(d2), CRASH);
    var s := Apply(Persist(s1, d2), CRASH);
    PersistSessions(s0, d1, next);
    PersistSessions(s1, d2, next);
    var r := Start(s, next, feed, 70).rows;
    assert r == PublishAll(s.rows, Staged(s.rows, OfFeed(feed))) by { StartFlushes(s, next, feed, 70); }
    FlushCursors(s.rows, OfFeed(feed));
    assert Takes(s.rows, OfFeed(feed), 0) && Takes(s.rows, OfFeed(feed), 1) && Before(s.rows, OfFeed(feed), 1, 0);
  }

  lemma PersistSessions(s: Store, d: Draft, sid: string)
    ensures HasSession(Persist(s, d), sid) <==> HasSession(s, sid)
  {
    hide FindClash, Drain;
    var r := Persist(s, d).sessions;
    assert |r| == |s.sessions| && forall i :: 0 <= i < |r| ==> r[i].id == s.sessions[i].id;
  }

  lemma StartFlushes(s: Store, sid: string, feed: string, at: int)
    requires !HasSession(s, sid)
    ensures Start(s, sid, feed, at).rows == PublishAll(s.rows, Staged(s.rows, OfFeed(feed)))
  {
  }

  /** A slot completed twice. Slot 0 is completed as non-speech, slot 1 is published, and a row for slot 0
      then gets the larger cursor at the close. */
  lemma SlotCompletedTwice(sid: string, feed: string)
    ensures var d1, d0 := DraftAt("b", sid, feed, 1, 10, 20), DraftAt("a", sid, feed, 0, 0, 10);
      var s := Run(Run(EMPTY_STORE, [OpStart(sid, feed, 0), OpComplete(sid, 0, None)]), [OpPersist(d1), OpPersist(d0)]);
      var r := Close(s, sid, 30).rows;
      && Published(r, 0) && Published(r, 1) && Seg(r, 0) == d1 && Seg(r, 1) == d0 && Cursor(r, 0) < Cursor(r, 1)
  {
    hide MaxPub, FindClash, Persist, Start, Complete, Run, PublishAll, Staged;
    var d1, d0 := DraftAt("b", sid, feed, 1, 10, 20), DraftAt("a", sid, feed, 0, 0, 10);
    var s0 := Start(EMPTY_STORE, sid, feed, 0);
    FirstStart(sid, feed);
    CompleteNext(s0, sid, 0);
    var s1 := Complete(s0, sid, 0, None);
    RunTwo(EMPTY_STORE, OpStart(sid, feed, 0), OpComplete(sid, 0, None));
    assert FindClash(s1.rows, d1).None?;
    PersistNext(s1, d1);
    var s2 := Persist(s1, d1);
    assert FindClash(s2.rows, d0).None?;
    PersistAhead(s2, d0);
    RunTwo(s1, OpPersist(d1), OpPersist(d0));
    LateFlush(Persist(s2, d0), sid, 1, 0);
  }

  /** A fault at the second commit. Slot 0 is inserted, its second commit fails with the window already past
      it, and the session goes on: slot 1 is published at once, slot 0 only by the close, with the larger
      cursor. Each slot is completed once, nothing is recovered and only the close flushes. */
  lemma FaultAtSecondCommit(sid: string, feed: string)
    ensures var d0, d1 := DraftAt("a", sid, feed, 0, 0, 10), DraftAt("b", sid, feed, 1, 10, 20);
      var s := Run(Run(EMPTY_STORE, [OpStart(sid, feed, 0), OpStage(d0)]),
                   [OpMemory(map[sid := {}], map[sid := 1]), OpPersist(d1)]);
      var r := Close(s, sid, 30).rows;
      && Published(s.rows, 1) && Published(r, 0) && Published(r, 1)
      && Seg(r, 0) == d0 && Seg(r, 1) == d1 && Cursor(r, 1) < Cursor(r, 0)
  {
    hide MaxPub, FindClash, Persist, Start, Run, PublishAll, Staged, Stage;
    var d0, d1 := DraftAt("a", sid, feed, 0, 0, 10), DraftAt("b", sid, feed, 1, 10, 20);
    var s0 := Start(EMPTY_STORE, sid, feed, 0);
    FirstStart(sid, feed);
    StageOnly(s0, d0);
    RunTwo(EMPTY_STORE, OpStart(sid, feed, 0), OpStage(d0));
    var s1 := Apply(s0, OpStage(d0));
    var s2 := s1.(done := map[sid := {}], next := map[sid := 1]);
    assert FindClash(s2.rows, d1).None?;
    PersistNext(s2, d1);
    RunTwo(s1, OpMemory(map[sid := {}], map[sid := 1]), OpPersist(d1));
    LateFlush(Persist(s2, d1), sid, 0, 1);
  }

  /** A chunk finished after the close. Slot 1 is published by the close; slot 0, persisted then, gets the
      larger cursor. */
  lemma LateAfterClose(sid: string, feed: string)
    ensures var d0, d1 := DraftAt("a", sid, feed, 0, 0, 10), DraftAt("b", sid, feed, 1, 10, 20);
      var s := Run(Run(EMPTY_STORE, [OpStart(sid, feed, 0), OpPersist(d1)]), [OpClose(sid, 30), OpPersist(d0)]);
      && Published(s.rows, 0) && Published(s.rows, 1)
      && Seg(s.rows, 0) == d1 && Seg(s.rows, 1) == d0 && Cursor(s.rows, 0) < Cursor(s.rows, 1)
  {
    hide MaxPub, FindClash, Persist, Start, Run, PublishAll, Staged;
    var d0, d1 := DraftAt("a", sid, feed, 0, 0, 10), DraftAt("b", sid, feed, 1, 10, 20);
    var s0 := Start(EMPTY_STORE, sid, feed, 0);
    FirstStart(sid, feed);
    PersistAhead(s0, d1);
    RunTwo(EMPTY_STORE, OpStart(sid, feed, 0), OpPersist(d1));
    var s1 := Persist(s0, d1);
    var s2 := Close(s1, sid, 30);
    FlushCursors(s1.rows, OfSession(sid));
    assert Takes(s1.rows, OfSession(sid), 0);
    assert FindClash(s2.rows, d0).None?;
    PersistNext(s2, d0);
    RunTwo(s1, OpClose(sid, 30), OpPersist(d0));
  }
}
