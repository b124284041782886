/** Publication order within one session: over every run, exactly when cursors follow slots. */
module StoreOrder {
  import opened Common
  import opened StoreModel
  import opened StoreRuns

  predicate Of(rows: Table, sid: string, x: int) {
    Live(rows, x) && Seg(rows, x).session == sid
  }

  predicate Waits(rows: Table, sid: string, x: int) {
    Unpublished(rows, x) && Seg(rows, x).session == sid
  }

  /** Cursors strictly increase with slot numbers. */
  ghost predicate CursorsFollowSlots(rows: Table, sid: string) {
    forall x, y | Of(rows, sid, x) && Of(rows, sid, y) && Published(rows, x) && Published(rows, y) ::
      Seg(rows, x).seqNo < Seg(rows, y).seqNo ==> Cursor(rows, x) < Cursor(rows, y)
  }

  /** Every staged row's slot is above every published one's. */
  ghost predicate StagedOnTop(rows: Table, sid: string) {
    forall x, y | Of(rows, sid, x) && Of(rows, sid, y) && Published(rows, x) && Unpublished(rows, y) ::
      Seg(rows, x).seqNo < Seg(rows, y).seqNo
  }

  ghost predicate OneFeed(rows: Table, sid: string, feed: string) {
    forall x :: Of(rows, sid, x) ==> Seg(rows, x).feed == feed
  }

  /** Cursors follow slots, and still would if the session were flushed or closed now. */
  ghost predicate InSlotOrder(s: Store, sid: string) {
    CursorsFollowSlots(s.rows, sid) && CursorsFollowSlots(Flush(s, sid).rows, sid)
  }

  // ------------------------------------------------------------------ the condition, operation by operation

  /** Among the rows still staged, audio start stamps follow slot numbers. Within one connection they do
      (Capture proves it); across a reconnect a slice clamped to the clock may start earlier. */
  ghost predicate StampsFollowSlots(rows: Table, sid: string) {
    forall x, y | Of(rows, sid, x) && Of(rows, sid, y) && Unpublished(rows, x) && Unpublished(rows, y) ::
      Seg(rows, x).seqNo < Seg(rows, y).seqNo ==> Seg(rows, x).start <= Seg(rows, y).start
  }

  /** The least number from `e` on that is not in `done`: where the publication loop stops. */
  function StopAt(done: set<nat>, e: nat): (stop: nat)
    ensures e <= stop && stop !in done && forall n: nat :: e <= n < stop ==> n in done
    decreases |done|
  {
    if e in done then
      assert |done - {e}| < |done|;
      var stop := StopAt(done - {e}, e + 1);
      assert forall n: nat :: e < n < stop ==> n in done by {
        forall n: nat | e < n < stop ensures n in done { assert n in done - {e}; }
      }
      stop
    else e
  }

  /** A row inserted for this draft has no published row of a later slot above it. */
  ghost predicate JoinsOnTop(rows: Table, d: Draft) {
    FindClash(rows, d).None? ==>
      forall x :: Of(rows, d.session, x) && Published(rows, x) ==> Seg(rows, x).seqNo < d.seqNo
  }

  /** Either no staged row lies below the window, or the publication loop will publish none. */
  ghost predicate PassesNone(rows: Table, done: set<nat>, e: nat, sid: string) {
    || (forall x :: Waits(rows, sid, x) ==> Seg(rows, x).seqNo >= e)
    || (forall x :: Waits(rows, sid, x) ==> !(e <= Seg(rows, x).seqNo < StopAt(done, e)))
  }

  /** The table between the two commits of persist_segment. */
  function Inserted(s: Store, d: Draft): Store {
    if FindClash(s.rows, d).Some? then s else Stage(s, d)
  }

  /** What an operation must find for the session to stay in slot order. Only a start that recovers the
      feed, and an insert, a persist or a completion of the session itself can break it. */
  ghost predicate StepSafe(s: Store, op: Op, sid: string, feed: string) {
    match op
    case OpStart(t, f, _) => f == feed && !HasSession(s, t) ==> StampsFollowSlots(s.rows, sid)
    case OpPersist(d) => d.session == sid ==>
      JoinsOnTop(s.rows, d) && PassesNone(Inserted(s, d).rows, DoneOf(s, sid) + {d.seqNo}, NextOf(s, sid), sid)
    case OpStage(d) => d.session == sid ==> JoinsOnTop(s.rows, d)
    case OpComplete(t, n, _) => t == sid ==> PassesNone(s.rows, DoneOf(s, sid) + {n}, NextOf(s, sid), sid)
    case _ => true
  }

  ghost predicate StepsSafe(s: Store, ops: seq<Op>, sid: string, feed: string)
    decreases ops
  {
    ops == [] || (StepSafe(s, ops[0], sid, feed) && StepsSafe(Apply(s, ops[0]), ops[1..], sid, feed))
  }

  /** The session's drafts carry its feed, as the worker's do. */
  ghost predicate OnFeed(op: Op, sid: string, feed: string) {
    match op
    case OpPersist(d) => d.session == sid ==> d.feed == feed
    case OpStage(d) => d.session == sid ==> d.feed == feed
    case _ => true
  }

  /** The session in order, and all on one feed. */
  ghost predicate Ordered(rows: Table, sid: string, feed: string) {
    CursorsFollowSlots(rows, sid) && StagedOnTop(rows, sid) && OneFeed(rows, sid, feed)
  }

  // ------------------------------------------------------------------ other sessions

  /** The session's rows in `b` are rows of `a`, with the cursor state they had there. */
  ghost predicate Retained(a: Table, b: Table, sid: string) {
    forall x :: Of(b, sid, x) ==> Live(a, x) && Seg(a, x) == Seg(b, x) && a[x].value.pub == b[x].value.pub
  }

  lemma RetainedOrdered(a: Table, b: Table, sid: string, feed: string)
    requires Ordered(a, sid, feed) && Retained(a, b, sid)
    ensures Ordered(b, sid, feed)
  {
    assert forall x :: Of(b, sid, x) ==> Of(a, sid, x) && (Published(b, x) <==> Published(a, x));
  }

  lemma {:induction false} DrainElsewhere(w: Window, other: string, sid: string)
    requires other != sid
    ensures Retained(w.rows, Drain(w, other).rows, sid)
    decreases |w.done|
  {
    if w.expected in w.done {
      assert |w.done - {w.expected}| < |w.done|;
      DrainElsewhere(Advance(w, other), other, sid);
    }
  }

  lemma FlushElsewhere(rows: Table, sel: Selection, sid: string)
    requires forall x :: Of(rows, sid, x) ==> !Selects(sel, Seg(rows, x))
    ensures Retained(rows, PublishAll(rows, Staged(rows, sel)), sid)
  {
    FlushCursors(rows, sel);
    var after := PublishAll(rows, Staged(rows, sel));
    forall x | Of(after, sid, x)
      ensures Live(rows, x) && Seg(rows, x) == Seg(after, x) && rows[x].value.pub == after[x].value.pub
    {
      if Takes(rows, sel, x) {
        assert false;
      } else {
        assert after[x] == rows[x];
      }
    }
  }

  // ------------------------------------------------------------------ the publication loop

  /** The loop publishes exactly the session's staged rows with slots from the next expected one to where it
      stops. */
  lemma {:induction false} DrainPublishes(w: Window, sid: string)
    requires Valid(w.rows)
    ensures Drain(w, sid).expected == StopAt(w.done, w.expected)
    ensures forall x :: Of(w.rows, sid, x) ==>
      && Of(Drain(w, sid).rows, sid, x)
      && (Published(Drain(w, sid).rows, x) <==>
            Published(w.rows, x) || w.expected <= Seg(w.rows, x).seqNo < StopAt(w.done, w.expected))
    decreases |w.done|
  {
    hide FindStaged, MaxPub, Valid, Publish;
    DrainShape(w, sid);
    if w.expected in w.done {
      var a, r := Advance(w, sid), Drain(w, sid).rows;
      assert |w.done - {w.expected}| < |w.done|;
      AdvancePublishes(w, sid);
      DrainPublishes(a, sid);
      forall x | Of(w.rows, sid, x)
        ensures Of(r, sid, x)
        ensures Published(r, x) <==>
          Published(w.rows, x) || w.expected <= Seg(w.rows, x).seqNo < StopAt(w.done, w.expected)
      {
        assert Of(a.rows, sid, x);
      }
    }
  }

  lemma AdvancePublishes(w: Window, sid: string)
    requires Valid(w.rows) && w.expected in w.done
    ensures var a := Advance(w, sid).rows;
      && Valid(a) && SameRows(w.rows, a)
      && (forall x :: Of(w.rows, sid, x) ==>
            (Published(a, x) <==> Published(w.rows, x) || Seg(w.rows, x).seqNo == w.expected))
  {
    hide FindStaged, MaxPub;
    var f := FindStaged(w.rows, sid, w.expected);
    if f.Some? {
      PublishKeeps(w.rows, f.value);
      assert forall x :: Of(w.rows, sid, x) && x != f.value ==> !Clashes(w.rows[x].value, Seg(w.rows, f.value));
    }
  }

  /** Cursors follow slots, and the staged rows from slot `e` on are above every published one. */
  ghost predicate OrderedFrom(rows: Table, sid: string, e: nat) {
    && CursorsFollowSlots(rows, sid)
    && forall x, y | Of(rows, sid, x) && Waits(rows, sid, y) && Published(rows, x) && Seg(rows, y).seqNo >= e ::
         Seg(rows, x).seqNo < Seg(rows, y).seqNo
  }

  lemma {:induction false} DrainOrdered(w: Window, sid: string)
    requires Valid(w.rows) && OrderedFrom(w.rows, sid, w.expected)
    ensures OrderedFrom(Drain(w, sid).rows, sid, StopAt(w.done, w.expected))
    decreases |w.done|
  {
    hide FindStaged, MaxPub, Valid, OrderedFrom, Publish;
    if w.expected in w.done {
      assert |w.done - {w.expected}| < |w.done|;
      AdvanceOrdered(w, sid);
      DrainOrdered(Advance(w, sid), sid);
    }
  }

  lemma AdvanceOrdered(w: Window, sid: string)
    requires Valid(w.rows) && OrderedFrom(w.rows, sid, w.expected) && w.expected in w.done
    ensures Valid(Advance(w, sid).rows) && OrderedFrom(Advance(w, sid).rows, sid, w.expected + 1)
  {
    hide FindStaged, MaxPub, Clashes;
    var f := FindStaged(w.rows, sid, w.expected);
    if f.Some? {
      PublishKeeps(w.rows, f.value);
      PublishOne(w.rows, f.value);
      var r := Publish(w.rows, f.value);
      assert forall x :: Of(r, sid, x) ==> Of(w.rows, sid, x) && Seg(r, x) == Seg(w.rows, x);
      assert forall x :: Published(r, x) && x != f.value ==>
        Published(w.rows, x) && Cursor(r, x) == Cursor(w.rows, x) <= MaxPub(w.rows);
    }
  }

  /** The loop leaves an ended session in order exactly if it publishes nothing above a row it leaves staged
      below the window. */
  lemma DrainInOrderIff(w: Window, sid: string)
    requires Valid(w.rows) && CursorsFollowSlots(w.rows, sid) && StagedOnTop(w.rows, sid)
    ensures var r := Drain(w, sid).rows;
      CursorsFollowSlots(r, sid) && StagedOnTop(r, sid) <==> PassesNone(w.rows, w.done, w.expected, sid)
  {
    hide Drain, MaxPub;
    var r, stop := Drain(w, sid).rows, StopAt(w.done, w.expected);
    DrainPublishes(w, sid);
    DrainShape(w, sid);
    assert OrderedFrom(w.rows, sid, w.expected);
    DrainOrdered(w, sid);
    if !PassesNone(w.rows, w.done, w.expected, sid) {
      var y, x :| Waits(w.rows, sid, y) && Seg(w.rows, y).seqNo < w.expected
        && Waits(w.rows, sid, x) && w.expected <= Seg(w.rows, x).seqNo < stop;
      assert Of(w.rows, sid, x) && Of(w.rows, sid, y);
      assert Of(r, sid, x) && Of(r, sid, y) && Published(r, x) && Unpublished(r, y);
    } else {
      forall x, y | Of(r, sid, x) && Of(r, sid, y) && Published(r, x) && Unpublished(r, y)
        ensures Seg(r, x).seqNo < Seg(r, y).seqNo
      {
        assert Of(w.rows, sid, x) && Waits(w.rows, sid, y);
        if Unpublished(w.rows, x) {
          assert Waits(w.rows, sid, x);
        }
      }
    }
  }

  /** A published row above a staged one stays a fault for as long as both rows are there. */
  lemma FaultStays(a: Table, b: Table, sid: string)
    requires Valid(b) && Extends(a, b) && forall x :: Live(a, x) ==> Live(b, x)
    requires CursorsFollowSlots(b, sid) && StagedOnTop(b, sid)
    ensures CursorsFollowSlots(a, sid) && StagedOnTop(a, sid)
  {
    forall x | Of(a, sid, x) ensures Of(b, sid, x) && Seg(a, x) == Seg(b, x) {
    }
    forall x, y | Of(a, sid, x) && Of(a, sid, y) && Published(a, x) && Unpublished(a, y)
      ensures Seg(a, x).seqNo < Seg(a, y).seqNo
    {
      assert Of(b, sid, x) && Of(b, sid, y);
      assert !Clashes(b[x].value, Seg(b, y));
    }
  }

  // ------------------------------------------------------------------ flushes

  /** A flush that takes all staged rows of a session publishes them above every earlier cursor. */
  lemma FlushedRow(rows: Table, sel: Selection, x: int, sid: string)
    requires forall y :: Waits(rows, sid, y) ==> Selects(sel, Seg(rows, y))
    requires Of(PublishAll(rows, Staged(rows, sel)), sid, x)
    ensures var after := PublishAll(rows, Staged(rows, sel));
      && Of(rows, sid, x) && Seg(after, x) == Seg(rows, x) && Published(after, x)
      && (Published(rows, x) ==> Cursor(after, x) == Cursor(rows, x) <= MaxPub(rows))
      && (Unpublished(rows, x) ==> Takes(rows, sel, x) && Cursor(after, x) > MaxPub(rows))
  {
    FlushCursors(rows, sel);
    assert Waits(rows, sid, x) ==> Takes(rows, sel, x);
    if !Takes(rows, sel, x) {
      assert PublishAll(rows, Staged(rows, sel))[x] == rows[x];
    }
  }

  /** A flush that takes all staged rows of a session in order, in slot order, keeps the order. */
  lemma FlushEnded(rows: Table, sel: Selection, sid: string)
    requires CursorsFollowSlots(rows, sid) && StagedOnTop(rows, sid)
    requires forall x :: Waits(rows, sid, x) ==> Selects(sel, Seg(rows, x))
    requires sel.OfFeed? ==> StampsFollowSlots(rows, sid)
    ensures var after := PublishAll(rows, Staged(rows, sel));
      CursorsFollowSlots(after, sid) && forall x :: Of(after, sid, x) ==> Published(after, x)
  {
    hide MaxPub, Staged, PublishAll;
    var after := PublishAll(rows, Staged(rows, sel));
    forall x | Of(after, sid, x) ensures Published(after, x) && Of(rows, sid, x) && Seg(after, x) == Seg(rows, x) {
      FlushedRow(rows, sel, x, sid);
    }
    forall x, y | Of(after, sid, x) && Of(after, sid, y) && Seg(after, x).seqNo < Seg(after, y).seqNo
      ensures Cursor(after, x) < Cursor(after, y)
    {
      FlushedRow(rows, sel, x, sid);
      FlushedRow(rows, sel, y, sid);
      if Unpublished(rows, x) {
        FlushCursors(rows, sel);
        assert Before(rows, sel, x, y);
      }
    }
  }

  /** A close or flush gives slot order exactly if the published rows are in order and the staged ones on
      top of them. */
  lemma InSlotOrderIff(s: Store, sid: string)
    requires Valid(s.rows)
    ensures InSlotOrder(s, sid) <==> CursorsFollowSlots(s.rows, sid) && StagedOnTop(s.rows, sid)
  {
    hide MaxPub, Staged, PublishAll, Valid, Clashes;
    var after := Flush(s, sid).rows;
    PublishAllKeeps(s.rows, Staged(s.rows, OfSession(sid)));
    if CursorsFollowSlots(s.rows, sid) && StagedOnTop(s.rows, sid) {
      FlushEnded(s.rows, OfSession(sid), sid);
    } else if InSlotOrder(s, sid) {
      forall x | Of(after, sid, x) ensures Published(after, x) {
        FlushedRow(s.rows, OfSession(sid), x, sid);
      }
      FlushKeepsRows(s.rows, OfSession(sid));
      FaultStays(s.rows, after, sid);
    }
  }

  lemma FlushKeepsRows(rows: Table, sel: Selection)
    ensures SameRows(rows, PublishAll(rows, Staged(rows, sel)))
  {
    FlushCursors(rows, sel);
    var after := PublishAll(rows, Staged(rows, sel));
    forall x | 0 <= x < |rows| ensures Live(rows, x) <==> Live(after, x)
      ensures Live(rows, x) ==> Seg(after, x) == Seg(rows, x)
    {
      if !Takes(rows, sel, x) {
        assert after[x] == rows[x];
      }
    }
  }

  /** A recovery orders the rows it publishes by audio start first. It keeps a session in slot order exactly
      if the stamps of the session's staged rows follow their slots. */
  lemma RecoveryKeepsOrderIff(rows: Table, sid: string, feed: string)
    requires CursorsFollowSlots(rows, sid) && StagedOnTop(rows, sid) && OneFeed(rows, sid, feed)
    ensures var after := PublishAll(rows, Staged(rows, OfFeed(feed)));
      CursorsFollowSlots(after, sid) && StagedOnTop(after, sid) <==> StampsFollowSlots(rows, sid)
  {
    hide MaxPub, Staged, PublishAll;
    var sel := OfFeed(feed);
    var after := PublishAll(rows, Staged(rows, sel));
    if StampsFollowSlots(rows, sid) {
      FlushEnded(rows, sel, sid);
    } else {
      var x, y :| Of(rows, sid, x) && Of(rows, sid, y) && Unpublished(rows, x) && Unpublished(rows, y)
        && Seg(rows, x).seqNo < Seg(rows, y).seqNo && Seg(rows, x).start > Seg(rows, y).start;
      FlushCursors(rows, sel);
      assert Takes(rows, sel, x) && Takes(rows, sel, y) && Before(rows, sel, y, x);
      assert Of(after, sid, x) && Of(after, sid, y);
    }
  }

  /** Closing a session leaves none of its rows unpublished, whatever happened before. */
  lemma ClosePublishesSession(s: Store, sid: string, at: int)
    ensures forall x :: Of(s.rows, sid, x) ==> Published(Close(s, sid, at).rows, x)
    ensures forall x :: Of(Close(s, sid, at).rows, sid, x) ==> Published(Close(s, sid, at).rows, x)
  {
    hide MaxPub, Staged, PublishAll;
    var after := PublishAll(s.rows, Staged(s.rows, OfSession(sid)));
    FlushKeepsRows(s.rows, OfSession(sid));
    forall x | Of(after, sid, x) ensures Published(after, x) {
      FlushedRow(s.rows, OfSession(sid), x, sid);
    }
    assert forall x :: Of(s.rows, sid, x) ==> Of(after, sid, x);
  }

  // ------------------------------------------------------------------ every operation, exactly

  /** An operation that does not concern the session: of its rows it only ever loses some. */
  ghost predicate Elsewhere(s: Store, op: Op, sid: string, feed: string) {
    match op
    case OpStart(t, f, _) => HasSession(s, t) || (t != sid && f != feed)
    case OpPersist(d) => d.session != sid
    case OpStage(d) => d.session != sid
    case OpComplete(t, _, _) => t != sid
    case OpFlush(t) => t != sid
    case OpClose(t, _) => t != sid
    case _ => true
  }

  lemma ElsewhereRetains(s: Store, op: Op, sid: string, feed: string)
    requires Elsewhere(s, op, sid, feed) && OneFeed(s.rows, sid, feed)
    ensures Retained(s.rows, Apply(s, op).rows, sid)
  {
    hide MaxPub, FindStaged, FindClash, Staged, PublishAll, Drain, LatestSession;
    match op {
      case OpStart(t, f, _) =>
        if !HasSession(s, t) { FlushElsewhere(s.rows, OfFeed(f), sid); }
      case OpPersist(d) =>
        var m := Inserted(s, d);
        assert Retained(s.rows, m.rows, sid);
        DrainElsewhere(Window(m.rows, DoneOf(m, d.session) + {d.seqNo}, NextOf(m, d.session)), d.session, sid);
      case OpComplete(t, n, _) => DrainElsewhere(Window(s.rows, DoneOf(s, t) + {n}, NextOf(s, t)), t, sid);
      case OpFlush(t) => FlushElsewhere(s.rows, OfSession(t), sid);
      case OpClose(t, _) => FlushElsewhere(s.rows, OfSession(t), sid);
      case _ =>
    }
  }

  /** A staged row joins a session in order exactly if no published row has a later slot. */
  lemma StageInOrderIff(s: Store, d: Draft)
    requires Valid(s.rows) && Ordered(s.rows, d.session, d.feed)
    ensures Valid(Inserted(s, d).rows) && OneFeed(Inserted(s, d).rows, d.session, d.feed)
    ensures Extends(s.rows, Inserted(s, d).rows)
    ensures Ordered(Inserted(s, d).rows, d.session, d.feed) <==> JoinsOnTop(s.rows, d)
  {
    hide MaxPub, FindClash, Clashes, Valid;
    if FindClash(s.rows, d).None? {
      StageKeeps(s, d);
      var r, k := Stage(s, d).rows, |s.rows|;
      assert Of(r, d.session, k) && Unpublished(r, k) && Seg(r, k) == d;
      assert forall x :: Of(r, d.session, x) && x != k ==> Of(s.rows, d.session, x) && r[x] == s.rows[x];
      assert forall x :: Of(s.rows, d.session, x) ==> Of(r, d.session, x) && r[x] == s.rows[x];
    }
  }

  /** Completing a slot, with its row staged or not: in order before and after exactly under the condition. */
  lemma ReadyInOrderIff(m: Store, sid: string, n: nat, feed: string)
    requires Valid(m.rows) && OneFeed(m.rows, sid, feed)
    ensures Ordered(MarkReady(m, sid, n).rows, sid, feed)
      <==> Ordered(m.rows, sid, feed) && PassesNone(m.rows, DoneOf(m, sid) + {n}, NextOf(m, sid), sid)
  {
    hide MaxPub, Drain, Valid, CursorsFollowSlots, StagedOnTop, PassesNone;
    var w := Window(m.rows, DoneOf(m, sid) + {n}, NextOf(m, sid));
    DrainKeeps(w, sid);
    DrainShape(w, sid);
    if CursorsFollowSlots(m.rows, sid) && StagedOnTop(m.rows, sid) {
      DrainInOrderIff(w, sid);
    } else if Ordered(Drain(w, sid).rows, sid, feed) {
      FaultStays(m.rows, Drain(w, sid).rows, sid);
    }
  }

  /** One operation on a session in order leaves it in order exactly if it meets its condition. */
  lemma StepOrdered(s: Store, op: Op, sid: string, feed: string)
    requires Valid(s.rows) && Ordered(s.rows, sid, feed) && OnFeed(op, sid, feed)
    ensures OneFeed(Apply(s, op).rows, sid, feed)
    ensures Ordered(Apply(s, op).rows, sid, feed) <==> StepSafe(s, op, sid, feed)
  {
    hide MaxPub, FindStaged, FindClash, Staged, PublishAll, Drain, LatestSession, Valid, PassesNone, JoinsOnTop;
    hide CursorsFollowSlots, StagedOnTop, StampsFollowSlots, HasSession, MarkReady, Stage;
    if Elsewhere(s, op, sid, feed) {
      ElsewhereRetains(s, op, sid, feed);
      RetainedOrdered(s.rows, Apply(s, op).rows, sid, feed);
      return;
    }
    match op
    case OpStart(_, f, _) => StartOrdered(s, op, sid, feed);
    case OpPersist(d) =>
      StageInOrderIff(s, d);
      ReadyInOrderIff(Inserted(s, d), sid, d.seqNo, feed);
      ReadyRows(Inserted(s, d), sid, d.seqNo);
      InsertedWindow(s, d);
    case OpStage(d) => StageInOrderIff(s, d);
    case OpComplete(_, n, end) =>
      var m := if end.Some? then s.(sessions := WithAudioEnd(s.sessions, sid, end.value)) else s;
      ReadyInOrderIff(m, sid, n, feed);
      ReadyRows(m, sid, n);
    case OpFlush(_) => FlushOrdered(s.rows, OfSession(sid), sid, feed);
    case OpClose(_, _) => FlushOrdered(s.rows, OfSession(sid), sid, feed);
  }

  lemma StartOrdered(s: Store, op: Op, sid: string, feed: string)
    requires Ordered(s.rows, sid, feed) && op.OpStart? && !HasSession(s, op.sid)
    requires op.sid == sid || op.feed == feed
    ensures OneFeed(Apply(s, op).rows, sid, feed)
    ensures Ordered(Apply(s, op).rows, sid, feed) <==> StepSafe(s, op, sid, feed)
  {
    hide MaxPub, Staged, PublishAll, LatestSession;
    FlushKeepsRows(s.rows, OfFeed(op.feed));
    if op.feed == feed {
      RecoveryKeepsOrderIff(s.rows, sid, feed);
    } else {
      FlushElsewhere(s.rows, OfFeed(op.feed), sid);
      RetainedOrdered(s.rows, Apply(s, op).rows, sid, feed);
    }
  }

  lemma ReadyRows(m: Store, sid: string, n: nat)
    ensures SameRows(m.rows, MarkReady(m, sid, n).rows)
  {
    DrainShape(Window(m.rows, DoneOf(m, sid) + {n}, NextOf(m, sid)), sid);
  }

  lemma InsertedWindow(s: Store, d: Draft)
    ensures Persist(s, d) == MarkReady(Inserted(s, d), d.session, d.seqNo)
    ensures DoneOf(Inserted(s, d), d.session) == DoneOf(s, d.session)
    ensures NextOf(Inserted(s, d), d.session) == NextOf(s, d.session)
  {
    hide MarkReady, FindClash;
  }

  lemma FlushOrdered(rows: Table, sel: Selection, sid: string, feed: string)
    requires Ordered(rows, sid, feed) && sel == OfSession(sid)
    ensures Ordered(PublishAll(rows, Staged(rows, sel)), sid, feed)
  {
    hide MaxPub, Staged, PublishAll;
    FlushEnded(rows, sel, sid);
    FlushKeepsRows(rows, sel);
  }

  /** One step, exactly. */
  lemma StepKeepsOrderIff(s: Store, op: Op, sid: string, feed: string)
    requires Valid(s.rows) && OneFeed(s.rows, sid, feed) && InSlotOrder(s, sid) && OnFeed(op, sid, feed)
    ensures Valid(Apply(s, op).rows) && OneFeed(Apply(s, op).rows, sid, feed)
    ensures InSlotOrder(Apply(s, op), sid) <==> StepSafe(s, op, sid, feed)
  {
    hide Valid, InSlotOrder, Apply, StepSafe, CursorsFollowSlots, StagedOnTop;
    InSlotOrderIff(s, sid);
    ApplyKeeps(s, op);
    StepOrdered(s, op, sid, feed);
    InSlotOrderIff(Apply(s, op), sid);
  }

  // ------------------------------------------------------------------ every run, exactly

  /** In every state of the run the session is in slot order, and would be if it was closed there. */
  ghost predicate InOrderThroughout(s: Store, ops: seq<Op>, sid: string)
    decreases ops
  {
    InSlotOrder(s, sid) && (ops == [] || InOrderThroughout(Apply(s, ops[0]), ops[1..], sid))
  }

  /** Over a whole run, whatever faults, crashes, late completions, sweeps and other sessions it contains:
      the session is in slot order in every state exactly if every operation met its condition. */
  lemma {:induction false} RunKeepsOrderIff(s: Store, ops: seq<Op>, sid: string, feed: string)
    requires Valid(s.rows) && OneFeed(s.rows, sid, feed) && InSlotOrder(s, sid)
    requires forall i :: 0 <= i < |ops| ==> OnFeed(ops[i], sid, feed)
    ensures InOrderThroughout(s, ops, sid) <==> StepsSafe(s, ops, sid, feed)
    decreases ops
  {
    hide Valid, InSlotOrder, Apply, StepSafe, OnFeed, OneFeed;
    if ops != [] {
      StepKeepsOrderIff(s, ops[0], sid, feed);
      if StepSafe(s, ops[0], sid, feed) {
        RunKeepsOrderIff(Apply(s, ops[0]), ops[1..], sid, feed);
      } else {
        assert !InOrderThroughout(Apply(s, ops[0]), ops[1..], sid);
      }
    }
  }

  /** A fault of order outlives everything but a sweep. */
  lemma StepKeepsFault(s: Store, op: Op, sid: string)
    requires Valid(s.rows) && !InSlotOrder(s, sid) && !op.OpSweep?
    ensures Valid(Apply(s, op).rows) && !InSlotOrder(Apply(s, op), sid)
  {
    hide Valid, InSlotOrder, Apply, CursorsFollowSlots, StagedOnTop, Extends;
    ApplyKeeps(s, op);
    InSlotOrderIff(s, sid);
    InSlotOrderIff(Apply(s, op), sid);
    ApplyKeepsRows(s, op);
    if InSlotOrder(Apply(s, op), sid) {
      FaultStays(s.rows, Apply(s, op).rows, sid);
    }
  }

  lemma ApplyKeepsRows(s: Store, op: Op)
    requires !op.OpSweep?
    ensures forall x :: Live(s.rows, x) ==> Live(Apply(s, op).rows, x)
  {
    hide MaxPub, FindClash, Staged, PublishAll, Drain, LatestSession;
    match op
    case OpStart(_, f, _) => FlushKeepsRows(s.rows, OfFeed(f));
    case OpPersist(d) =>
      InsertedWindow(s, d);
      ReadyRows(Inserted(s, d), d.session, d.seqNo);
      assert forall x :: Live(s.rows, x) ==> Live(Inserted(s, d).rows, x);
    case OpComplete(t, n, _) => DrainShape(Window(s.rows, DoneOf(s, t) + {n}, NextOf(s, t)), t);
    case OpFlush(t) => FlushKeepsRows(s.rows, OfSession(t));
    case OpClose(t, _) => FlushKeepsRows(s.rows, OfSession(t));
    case _ =>
  }

  lemma {:induction false} RunKeepsFault(s: Store, ops: seq<Op>, sid: string)
    requires Valid(s.rows) && !InSlotOrder(s, sid) && forall i :: 0 <= i < |ops| ==> !ops[i].OpSweep?
    ensures !InSlotOrder(Run(s, ops), sid)
    decreases ops
  {
    hide Valid, InSlotOrder, Apply;
    if ops != [] {
      StepKeepsFault(s, ops[0], sid);
      RunKeepsFault(Apply(s, ops[0]), ops[1..], sid);
    }
  }

  /** Without sweeps, what the closed session shows at the end of a run already tells: its cursors follow
      slots exactly if every operation of the run met its condition. */
  lemma {:induction false} RunClosesInOrderIff(s: Store, ops: seq<Op>, sid: string, feed: string, at: int)
    requires Valid(s.rows) && OneFeed(s.rows, sid, feed) && InSlotOrder(s, sid)
    requires forall i :: 0 <= i < |ops| ==> OnFeed(ops[i], sid, feed) && !ops[i].OpSweep?
    ensures CursorsFollowSlots(Close(Run(s, ops), sid, at).rows, sid) <==> StepsSafe(s, ops, sid, feed)
    decreases ops
  {
    hide Valid, InSlotOrder, Apply, StepSafe, OnFeed, OneFeed;
    if ops == [] {
      CloseInOrder(s, sid, at);
    } else {
      StepKeepsOrderIff(s, ops[0], sid, feed);
      if StepSafe(s, ops[0], sid, feed) {
        RunClosesInOrderIff(Apply(s, ops[0]), ops[1..], sid, feed, at);
      } else {
        RunKeepsFault(Apply(s, ops[0]), ops[1..], sid);
        RunKeeps(s, ops);
        CloseInOrder(Run(s, ops), sid, at);
      }
    }
  }

  lemma CloseInOrder(s: Store, sid: string, at: int)
    requires Valid(s.rows)
    ensures CursorsFollowSlots(Close(s, sid, at).rows, sid) <==> InSlotOrder(s, sid)
  {
    hide MaxPub, Staged, PublishAll, Valid;
    PublishAllKeeps(s.rows, Staged(s.rows, OfSession(sid)));
    FlushKeepsRows(s.rows, OfSession(sid));
    var after := Flush(s, sid).rows;
    assert forall x :: Of(s.rows, sid, x) ==> Of(after, sid, x) && Seg(after, x) == Seg(s.rows, x);
  }
}
