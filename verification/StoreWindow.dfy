/** The reorder window: which slots the next-expected number stands for, and, while a session is open with
    each slot completed once, exactly which of its rows are published. */
module StoreWindow {
  import opened Common
  import opened StoreModel
  import opened StoreRuns
  import opened StoreOrder

  // ------------------------------------------------------------------ the window alone

  /** Every slot below the next-expected number is completed; from there on the done set says which are. */
  ghost predicate WindowOk(slots: set<nat>, done: set<nat>, expected: nat) {
    && (forall n: nat :: n < expected ==> n in slots)
    && (forall n: nat :: n >= expected ==> (n in done <==> n in slots))
  }

  /** The slots of the session that an operation, or a list of them, completes. */
  ghost function CompletedBy(op: Op, sid: string): set<nat> {
    match op
    case OpPersist(d) => if d.session == sid then {d.seqNo} else {}
    case OpComplete(t, n, _) => if t == sid then {n} else {}
    case _ => {}
  }

  ghost function CompletedIn(ops: seq<Op>, sid: string): set<nat>
    decreases ops
  {
    if ops == [] then {} else CompletedBy(ops[0], sid) + CompletedIn(ops[1..], sid)
  }

  /** The operation leaves the session's window in memory, though it may advance it. */
  predicate KeepsWindow(op: Op, sid: string) {
    match op
    case OpStart(t, _, _) => t != sid
    case OpClose(t, _) => t != sid
    case OpMemory(_, _) => false
    case _ => true
  }

  lemma {:induction false} DrainMemory(w: Window, slots: set<nat>, sid: string)
    requires WindowOk(slots, w.done, w.expected)
    ensures var r := Drain(w, sid); WindowOk(slots, r.done, r.expected) && r.expected !in slots
    decreases |w.done|
  {
    hide FindStaged, Publish;
    if w.expected in w.done {
      assert |w.done - {w.expected}| < |w.done|;
      DrainMemory(Advance(w, sid), slots, sid);
    }
  }

  /** Whatever rows the table holds, the next-expected number is the least slot not completed since the
      window was last reset. */
  lemma {:induction false} WindowFollowsCompletions(s: Store, slots: set<nat>, ops: seq<Op>, sid: string)
    requires WindowOk(slots, DoneOf(s, sid), NextOf(s, sid)) && NextOf(s, sid) !in slots
    requires forall i :: 0 <= i < |ops| ==> KeepsWindow(ops[i], sid)
    ensures var r, all := Run(s, ops), slots + CompletedIn(ops, sid);
      WindowOk(all, DoneOf(r, sid), NextOf(r, sid)) && NextOf(r, sid) !in all
    decreases ops
  {
    hide Apply, WindowOk;
    if ops == [] {
      assert slots + CompletedIn(ops, sid) == slots;
    } else {
      var here := CompletedBy(ops[0], sid);
      StepWindow(s, slots, ops[0], sid);
      WindowFollowsCompletions(Apply(s, ops[0]), slots + here, ops[1..], sid);
      assert slots + here + CompletedIn(ops[1..], sid) == slots + CompletedIn(ops, sid);
    }
  }

  lemma StepWindow(s: Store, slots: set<nat>, op: Op, sid: string)
    requires WindowOk(slots, DoneOf(s, sid), NextOf(s, sid)) && NextOf(s, sid) !in slots && KeepsWindow(op, sid)
    ensures var r, all := Apply(s, op), slots + CompletedBy(op, sid);
      WindowOk(all, DoneOf(r, sid), NextOf(r, sid)) && NextOf(r, sid) !in all
  {
    hide MaxPub, FindClash, Staged, PublishAll, Drain, LatestSession;
    var all := slots + CompletedBy(op, sid);
    assert CompletedBy(op, sid) == {} ==> all == slots;
    match op {
      case OpPersist(d) =>
        var m := Inserted(s, d);
        if d.session == sid {
          assert all == slots + {d.seqNo};
          DrainMemory(Window(m.rows, DoneOf(s, sid) + {d.seqNo}, NextOf(s, sid)), all, sid);
        }
      case OpComplete(t, n, _) =>
        if t == sid {
          assert all == slots + {n};
          DrainMemory(Window(s.rows, DoneOf(s, sid) + {n}, NextOf(s, sid)), all, sid);
        }
      case _ =>
    }
  }

  /** When a row is published the moment it is persisted: exactly if its slot has not been completed since
      the window was reset, and every slot below has. */
  lemma PublishedAtOnceIff(s: Store, slots: set<nat>, d: Draft)
    requires Valid(s.rows) && FindClash(s.rows, d).None?
    requires WindowOk(slots, DoneOf(s, d.session), NextOf(s, d.session)) && NextOf(s, d.session) !in slots
    ensures var r := Persist(s, d).rows;
      && |r| == |s.rows| + 1 && Live(r, |s.rows|) && Seg(r, |s.rows|) == d
      && (Published(r, |s.rows|) <==> d.seqNo !in slots && forall n: nat :: n < d.seqNo ==> n in slots)
  {
    hide MaxPub, FindClash, Drain, Valid;
    var m, k, sid := Stage(s, d), |s.rows|, d.session;
    var w := Window(m.rows, DoneOf(s, sid) + {d.seqNo}, NextOf(s, sid));
    StageKeeps(s, d);
    assert Of(m.rows, sid, k) && Unpublished(m.rows, k) && Seg(m.rows, k) == d;
    DrainPublishes(w, sid);
    DrainShape(w, sid);
    var stop := StopAt(w.done, w.expected);
    assert w.expected == d.seqNo ==> stop > d.seqNo;
    assert w.expected != d.seqNo ==> stop == w.expected;
  }

  // ------------------------------------------------------------------ following one session

  /** What is known of the session: not started; open, with these slots completed once each; or ended, by a
      close, a crash, a storage fault, a flush, a repeated slot or a second session on the feed. An ended
      session may go on completing slots. */
  datatype Phase = Idle | Open(slots: set<nat>) | Ended

  ghost function AlsoDone(p: Phase, n: nat): Phase {
    if p.Open? && n !in p.slots then Open(p.slots + {n}) else Ended
  }

  ghost function Track(s: Store, p: Phase, op: Op, sid: string, feed: string): Phase {
    match op
    case OpStart(t, f, _) =>
      if HasSession(s, t) then p
      else if t == sid then if p.Idle? && f == feed then Open({}) else Ended
      else if p.Open? && f == feed then Ended else p
    case OpPersist(d) => if d.session == sid then AlsoDone(p, d.seqNo) else p
    case OpComplete(t, n, _) => if t == sid then AlsoDone(p, n) else p
    case OpStage(d) => if d.session == sid then Ended else p
    case OpFlush(t) => if t == sid && p.Open? then Ended else p
    case OpClose(t, _) => if t == sid && p.Open? then Ended else p
    case OpMemory(_, _) => if p.Open? then Ended else p
    case _ => p
  }

  ghost function PhaseAfter(s: Store, p: Phase, ops: seq<Op>, sid: string, feed: string): Phase
    decreases ops
  {
    if ops == [] then p else PhaseAfter(Apply(s, ops[0]), Track(s, p, ops[0], sid, feed), ops[1..], sid, feed)
  }

  // ------------------------------------------------------------------ the invariant

  ghost predicate RowsOk(rows: Table, p: Phase, expected: nat, sid: string, feed: string) {
    && CursorsFollowSlots(rows, sid)
    && OneFeed(rows, sid, feed)
    && (p.Idle? ==> forall x :: !Of(rows, sid, x))
    && (p.Open? ==> forall x :: Of(rows, sid, x) ==> Seg(rows, x).seqNo in p.slots)
    && (p.Open? ==> forall x :: Of(rows, sid, x) ==> (Published(rows, x) <==> Seg(rows, x).seqNo < expected))
    && (p.Ended? ==> StagedOnTop(rows, sid))
  }

  ghost predicate OrderInv(s: Store, p: Phase, sid: string, feed: string) {
    && Valid(s.rows)
    && RowsOk(s.rows, p, NextOf(s, sid), sid, feed)
    && (p.Open? ==> sid in s.next && sid in s.done && WindowOk(p.slots, s.done[sid], s.next[sid])
                    && s.next[sid] !in p.slots)
  }

  lemma RetainedKeeps(a: Table, b: Table, p: Phase, e: nat, sid: string, feed: string)
    requires RowsOk(a, p, e, sid, feed) && Retained(a, b, sid)
    ensures RowsOk(b, p, e, sid, feed)
  {
    assert forall x :: Of(b, sid, x) ==> Of(a, sid, x) && (Published(b, x) <==> Published(a, x));
  }

  /** The loop restores the window of an open session: it stops at the least uncompleted slot, having
      published exactly the rows below it, in slot order. */
  lemma DrainWindow(w: Window, slots: set<nat>, sid: string, feed: string)
    requires Valid(w.rows) && RowsOk(w.rows, Open(slots), w.expected, sid, feed) && WindowOk(slots, w.done, w.expected)
    ensures var r := Drain(w, sid);
      RowsOk(r.rows, Open(slots), r.expected, sid, feed) && WindowOk(slots, r.done, r.expected) && r.expected !in slots
  {
    hide Drain, Valid, WindowOk, CursorsFollowSlots;
    assert OrderedFrom(w.rows, sid, w.expected);
    DrainShape(w, sid);
    DrainMemory(w, slots, sid);
    DrainPublishes(w, sid);
    DrainOrdered(w, sid);
  }

  /** A slot completed for the first time joins the window before the loop runs. */
  lemma MarkReadyInv(s: Store, slots: set<nat>, n: nat, sid: string, feed: string)
    requires Valid(s.rows) && n !in slots
    requires sid in s.next && sid in s.done && WindowOk(slots, s.done[sid], s.next[sid]) && s.next[sid] !in slots
    requires RowsOk(s.rows, Open(slots + {n}), s.next[sid], sid, feed)
    ensures OrderInv(MarkReady(s, sid, n), Open(slots + {n}), sid, feed)
  {
    var w := Window(s.rows, s.done[sid] + {n}, s.next[sid]);
    assert n >= s.next[sid];
    DrainWindow(w, slots + {n}, sid, feed);
    DrainKeeps(w, sid);
  }

  // ------------------------------------------------------------------ the open session

  lemma StageInv(s: Store, slots: set<nat>, d: Draft, feed: string)
    requires OrderInv(s, Open(slots), d.session, feed) && d.seqNo !in slots && d.feed == feed
    requires FindClash(s.rows, d).None?
    ensures Valid(Stage(s, d).rows)
    ensures RowsOk(Stage(s, d).rows, Open(slots + {d.seqNo}), NextOf(s, d.session), d.session, feed)
  {
    hide MaxPub, FindClash, Valid, RowsOk;
    StageKeeps(s, d);
    StagedRow(s.rows, slots, NextOf(s, d.session), d, feed);
  }

  /** A staged row of a slot not completed before joins an open session's rows. */
  lemma StagedRow(rows: Table, slots: set<nat>, e: nat, d: Draft, feed: string)
    requires RowsOk(rows, Open(slots), e, d.session, feed) && d.feed == feed && d.seqNo >= e
    ensures RowsOk(rows + [Some(Row(d, None, d.retained))], Open(slots + {d.seqNo}), e, d.session, feed)
  {
    var r, k := rows + [Some(Row(d, None, d.retained))], |rows|;
    assert Unpublished(r, k) && Seg(r, k) == d;
    assert forall x :: Of(r, d.session, x) && x != k ==> Of(rows, d.session, x) && r[x] == rows[x];
    assert forall x :: Published(r, x) ==> x != k && Published(rows, x) && Cursor(r, x) == Cursor(rows, x);
  }

  lemma SessionOpKeeps(s: Store, slots: set<nat>, op: Op, sid: string, feed: string)
    requires OrderInv(s, Open(slots), sid, feed) && OnFeed(op, sid, feed)
    requires (op.OpPersist? && op.d.session == sid && op.d.seqNo !in slots)
      || (op.OpComplete? && op.sid == sid && op.n !in slots)
    ensures OrderInv(Apply(s, op), Track(s, Open(slots), op, sid, feed), sid, feed)
  {
    match op
    case OpPersist(d) =>
      if FindClash(s.rows, d).Some? {
        assert RowsOk(s.rows, Open(slots + {d.seqNo}), NextOf(s, sid), sid, feed);
        MarkReadyInv(s, slots, d.seqNo, sid, feed);
      } else {
        StageInv(s, slots, d, feed);
        MarkReadyInv(Stage(s, d), slots, d.seqNo, sid, feed);
      }
    case OpComplete(t, n, end) =>
      var m := if end.Some? then s.(sessions := WithAudioEnd(s.sessions, sid, end.value)) else s;
      assert RowsOk(m.rows, Open(slots + {n}), NextOf(s, sid), sid, feed);
      MarkReadyInv(m, slots, n, sid, feed);
  }

  lemma OtherOpKeeps(s: Store, p: Phase, op: Op, sid: string, feed: string)
    requires OrderInv(s, p, sid, feed) && Elsewhere(s, op, sid, feed) && (op.OpMemory? ==> !p.Open?)
    ensures OrderInv(Apply(s, op), p, sid, feed)
  {
    hide MaxPub, FindStaged, FindClash, Staged, PublishAll, Drain, LatestSession, RowsOk, HasSession;
    ApplyKeeps(s, op);
    FeedOfRows(s.rows, p, NextOf(s, sid), sid, feed);
    ElsewhereRetains(s, op, sid, feed);
    RetainedKeeps(s.rows, Apply(s, op).rows, p, NextOf(s, sid), sid, feed);
    if !p.Open? {
      AnyExpected(Apply(s, op).rows, p, NextOf(s, sid), NextOf(Apply(s, op), sid), sid, feed);
    }
  }

  lemma FeedOfRows(rows: Table, p: Phase, e: nat, sid: string, feed: string)
    requires RowsOk(rows, p, e, sid, feed)
    ensures Ordered(rows, sid, feed)
  {
  }

  lemma AnyExpected(rows: Table, p: Phase, e: nat, f: nat, sid: string, feed: string)
    requires RowsOk(rows, p, e, sid, feed) && !p.Open?
    ensures RowsOk(rows, p, f, sid, feed)
  {
  }

  /** As long as the session is not ended, every operation keeps its window, unconditionally. */
  lemma OpenStepKeeps(s: Store, p: Phase, op: Op, sid: string, feed: string)
    requires OrderInv(s, p, sid, feed) && OnFeed(op, sid, feed) && !Track(s, p, op, sid, feed).Ended?
    ensures OrderInv(Apply(s, op), Track(s, p, op, sid, feed), sid, feed)
  {
    hide MaxPub, FindStaged, FindClash, Staged, PublishAll, Drain, LatestSession, Valid, HasSession;
    if Elsewhere(s, op, sid, feed) {
      OtherOpKeeps(s, p, op, sid, feed);
    } else if p.Open? {
      SessionOpKeeps(s, p.slots, op, sid, feed);
    } else {
      IdleStepKeeps(s, op, sid, feed);
    }
  }

  lemma IdleStepKeeps(s: Store, op: Op, sid: string, feed: string)
    requires OrderInv(s, Idle, sid, feed) && !Track(s, Idle, op, sid, feed).Ended? && !Elsewhere(s, op, sid, feed)
    ensures OrderInv(Apply(s, op), Track(s, Idle, op, sid, feed), sid, feed)
  {
    hide MaxPub, FindStaged, FindClash, Staged, PublishAll, Drain, LatestSession, Valid, HasSession;
    ApplyKeeps(s, op);
    var sel := if op.OpStart? then OfFeed(op.feed) else OfSession(sid);
    FlushElsewhere(s.rows, sel, sid);
    RetainedKeeps(s.rows, Apply(s, op).rows, Idle, 0, sid, feed);
  }

  /** Before the session ends no operation can break its order. */
  lemma OpenStepSafe(s: Store, p: Phase, op: Op, sid: string, feed: string)
    requires OrderInv(s, p, sid, feed) && OnFeed(op, sid, feed) && !Track(s, p, op, sid, feed).Ended?
    ensures StepSafe(s, op, sid, feed)
  {
    hide Apply, StepSafe, Track, RowsOk, Ordered;
    FeedOfRows(s.rows, p, NextOf(s, sid), sid, feed);
    OpenStepKeeps(s, p, op, sid, feed);
    FeedOfRows(Apply(s, op).rows, Track(s, p, op, sid, feed), NextOf(Apply(s, op), sid), sid, feed);
    StepOrdered(s, op, sid, feed);
  }

  /** Every operation that meets its condition keeps the order, and the window while the session is open. */
  lemma StepKeepsOrder(s: Store, p: Phase, op: Op, sid: string, feed: string)
    requires OrderInv(s, p, sid, feed) && OnFeed(op, sid, feed) && StepSafe(s, op, sid, feed)
    ensures OrderInv(Apply(s, op), Track(s, p, op, sid, feed), sid, feed)
  {
    hide Apply, StepSafe, Track, OnFeed, Valid, CursorsFollowSlots, StagedOnTop, OneFeed;
    if !Track(s, p, op, sid, feed).Ended? {
      OpenStepKeeps(s, p, op, sid, feed);
    } else {
      FeedOfRows(s.rows, p, NextOf(s, sid), sid, feed);
      ApplyKeeps(s, op);
      StepOrdered(s, op, sid, feed);
    }
  }

  lemma {:induction false} EndedStays(s: Store, ops: seq<Op>, sid: string, feed: string)
    ensures PhaseAfter(s, Ended, ops, sid, feed) == Ended
    decreases ops
  {
    hide Apply;
    if ops != [] {
      EndedStays(Apply(s, ops[0]), ops[1..], sid, feed);
    }
  }

  lemma {:induction false} RunWhileOpen(s: Store, p: Phase, ops: seq<Op>, sid: string, feed: string)
    requires OrderInv(s, p, sid, feed) && !PhaseAfter(s, p, ops, sid, feed).Ended?
    requires forall i :: 0 <= i < |ops| ==> OnFeed(ops[i], sid, feed)
    ensures OrderInv(Run(s, ops), PhaseAfter(s, p, ops, sid, feed), sid, feed)
    decreases ops
  {
    hide OrderInv, Apply, Track, OnFeed;
    if ops != [] {
      EndedStays(Apply(s, ops[0]), ops[1..], sid, feed);
      OpenStepKeeps(s, p, ops[0], sid, feed);
      RunWhileOpen(Apply(s, ops[0]), Track(s, p, ops[0], sid, feed), ops[1..], sid, feed);
    }
  }

  /** The reorder-window theorem. In every run from the empty store, whatever order the session's slots
      complete in and whatever other sessions, sweeps and restarts do, as long as the session is open:
      cursors strictly increase with slot number, its next-expected number is the least slot not completed,
      and its rows are published exactly below that number. */
  lemma SessionsPublishInOrder(ops: seq<Op>, sid: string, feed: string)
    requires forall i :: 0 <= i < |ops| ==> OnFeed(ops[i], sid, feed)
    requires PhaseAfter(EMPTY_STORE, Idle, ops, sid, feed).Open?
    ensures var s, slots := Run(EMPTY_STORE, ops), PhaseAfter(EMPTY_STORE, Idle, ops, sid, feed).slots;
      && CursorsFollowSlots(s.rows, sid)
      && sid in s.next && s.next[sid] !in slots && (forall n: nat :: n < s.next[sid] ==> n in slots)
      && (forall x :: Of(s.rows, sid, x) ==>
            && Seg(s.rows, x).seqNo in slots
            && (Published(s.rows, x) <==> Seg(s.rows, x).seqNo < s.next[sid]))
  {
    RunWhileOpen(EMPTY_STORE, Idle, ops, sid, feed);
  }

  /** The session completes no slot a second time, and none after its end. */
  ghost predicate CompletesOnce(p: Phase, op: Op, sid: string) {
    match op
    case OpPersist(d) => d.session == sid ==> p.Open? && d.seqNo !in p.slots
    case OpStage(d) => d.session == sid ==> p.Open? && d.seqNo !in p.slots
    case OpComplete(t, n, _) => t == sid ==> p.Open? && n !in p.slots
    case _ => true
  }

  ghost predicate CompletesOnceOver(s: Store, p: Phase, ops: seq<Op>, sid: string, feed: string)
    decreases ops
  {
    ops == [] ||
    (CompletesOnce(p, ops[0], sid)
     && CompletesOnceOver(Apply(s, ops[0]), Track(s, p, ops[0], sid, feed), ops[1..], sid, feed))
  }

  /** A restart that recovers the feed finds the stamps of the session's staged rows in slot order. */
  ghost predicate RecoversInOrder(s: Store, op: Op, sid: string, feed: string) {
    op.OpStart? && op.feed == feed && !HasSession(s, op.sid) ==> StampsFollowSlots(s.rows, sid)
  }

  ghost predicate RecoveriesInOrder(s: Store, ops: seq<Op>, sid: string, feed: string)
    decreases ops
  {
    ops == [] || (RecoversInOrder(s, ops[0], sid, feed) && RecoveriesInOrder(Apply(s, ops[0]), ops[1..], sid, feed))
  }

  lemma OnceSafeIff(s: Store, p: Phase, op: Op, sid: string, feed: string)
    requires OrderInv(s, p, sid, feed) && OnFeed(op, sid, feed) && CompletesOnce(p, op, sid)
    ensures StepSafe(s, op, sid, feed) <==> RecoversInOrder(s, op, sid, feed)
  {
    hide Apply, RowsOk, Valid, StampsFollowSlots, PassesNone, FindClash;
    if (op.OpPersist? && op.d.session == sid) || (op.OpComplete? && op.sid == sid) {
      OpenStepSafe(s, p, op, sid, feed);
    } else if op.OpStage? && op.d.session == sid {
      OpenBelow(s.rows, p.slots, NextOf(s, sid), sid, feed, op.d.seqNo);
    }
  }

  /** A session that completes each slot once, and none after its end, can lose slot order only to a recovery
      of its feed. */
  lemma {:induction false} OnlyRecoveriesBreakOrder(s: Store, p: Phase, ops: seq<Op>, sid: string, feed: string)
    requires OrderInv(s, p, sid, feed) && CompletesOnceOver(s, p, ops, sid, feed)
    requires forall i :: 0 <= i < |ops| ==> OnFeed(ops[i], sid, feed)
    ensures InOrderThroughout(s, ops, sid) <==> RecoveriesInOrder(s, ops, sid, feed)
    decreases ops
  {
    hide Apply, RowsOk, Valid, InSlotOrder, StepSafe, RecoversInOrder, Track, OnFeed, CompletesOnce, Ordered;
    FeedOfRows(s.rows, p, NextOf(s, sid), sid, feed);
    OrderedIff(s, sid, feed);
    if ops != [] {
      OnceSafeIff(s, p, ops[0], sid, feed);
      StepKeepsOrderIff(s, ops[0], sid, feed);
      if StepSafe(s, ops[0], sid, feed) {
        StepKeepsOrder(s, p, ops[0], sid, feed);
        OnlyRecoveriesBreakOrder(Apply(s, ops[0]), Track(s, p, ops[0], sid, feed), ops[1..], sid, feed);
      } else {
        assert !InOrderThroughout(Apply(s, ops[0]), ops[1..], sid);
      }
    }
  }

  lemma OrderedIff(s: Store, sid: string, feed: string)
    requires Valid(s.rows)
    ensures Ordered(s.rows, sid, feed) <==> InSlotOrder(s, sid) && OneFeed(s.rows, sid, feed)
  {
    hide Valid, InSlotOrder, CursorsFollowSlots, StagedOnTop, OneFeed;
    InSlotOrderIff(s, sid);
  }

  lemma OpenBelow(rows: Table, slots: set<nat>, e: nat, sid: string, feed: string, n: nat)
    requires RowsOk(rows, Open(slots), e, sid, feed) && n >= e
    ensures forall x :: Of(rows, sid, x) && Published(rows, x) ==> Seg(rows, x).seqNo < n
  {
  }

  /** A slot completed a second time, with a row this time. The row keeps the order exactly if no later slot
      has been published. */
  lemma LateRowKeepsOrderIff(s: Store, slots: set<nat>, d: Draft)
    requires OrderInv(s, Open(slots), d.session, d.feed) && FindClash(s.rows, d).None? && d.seqNo in slots
    ensures InSlotOrder(Persist(s, d), d.session)
      <==> forall x :: Of(s.rows, d.session, x) && Published(s.rows, x) ==> Seg(s.rows, x).seqNo < d.seqNo
  {
    hide MaxPub, Persist, FindClash, Valid, InSlotOrder, RowsOk, CursorsFollowSlots, StagedOnTop;
    FeedOfRows(s.rows, Open(slots), NextOf(s, d.session), d.session, d.feed);
    InSlotOrderIff(s, d.session);
    StepKeepsOrderIff(s, OpPersist(d), d.session, d.feed);
    assert StopAt(DoneOf(s, d.session) + {d.seqNo}, NextOf(s, d.session)) == NextOf(s, d.session);
  }
}
