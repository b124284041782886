/** What one operation does to the tables besides publication: the sessions' stamps and marks, the gaps, the
    columns of an inserted row, and what retention takes. Stated column by column on the state before
    and after. */
module StoreEffects {
  import opened Common
  import opened StoreModel
  import opened StoreRuns

  // ------------------------------------------------------------------ sessions

  /** Session ids are a primary key. */
  ghost predicate UniqueIds(ss: seq<Session>) {
    forall i, j :: 0 <= i < j < |ss| ==> ss[i].id != ss[j].id
  }

  /** Everything but the stop mark and the last audio end. */
  ghost predicate SameSession(a: Session, b: Session) {
    a.id == b.id && a.feed == b.feed && a.startedAt == b.startedAt
  }

  /** Only the named session's last audio end has moved. */
  ghost predicate AudioEndMoved(a: seq<Session>, b: seq<Session>, sid: string, end: int) {
    |a| == |b| && forall i :: 0 <= i < |a| ==>
      && SameSession(a[i], b[i]) && b[i].status == a[i].status && b[i].stoppedAt == a[i].stoppedAt
      && b[i].lastAudioEnd == if a[i].id == sid then Some(end) else a[i].lastAudioEnd
  }

  /** Only the named session has been marked. */
  ghost predicate MarkedAs(a: seq<Session>, b: seq<Session>, sid: string, status: Status, at: int) {
    |a| == |b| && forall i :: 0 <= i < |a| ==>
      && SameSession(a[i], b[i]) && b[i].lastAudioEnd == a[i].lastAudioEnd
      && b[i].status == (if a[i].id == sid then status else a[i].status)
      && b[i].stoppedAt == if a[i].id == sid then Some(at) else a[i].stoppedAt
  }

  /** Session `p` is the feed's most recent: latest start, and of equal starts the last row. */
  ghost predicate MostRecent(ss: seq<Session>, feed: string, p: nat) {
    && p < |ss| && ss[p].feed == feed
    && forall i :: 0 <= i < |ss| && ss[i].feed == feed ==>
         ss[i].startedAt < ss[p].startedAt || (ss[i].startedAt == ss[p].startedAt && i <= p)
  }

  /** A start marks the feed's most recent session as recovered if it was still active, touches no other,
      adds its own, and opens an empty window. */
  ghost predicate StartedSessions(s: Store, t: Store, sid: string, feed: string, at: int) {
    && |t.sessions| == |s.sessions| + 1
    && t.sessions[|s.sessions|] == Session(sid, feed, at, None, Active, None)
    && (forall i: nat :: i < |s.sessions| ==>
          && SameSession(s.sessions[i], t.sessions[i]) && t.sessions[i].lastAudioEnd == s.sessions[i].lastAudioEnd
          && (if MostRecent(s.sessions, feed, i) && s.sessions[i].status == Active
              then t.sessions[i].status == RecoveredAfterCrash && t.sessions[i].stoppedAt == Some(at)
              else t.sessions[i] == s.sessions[i]))
    && sid in t.done && t.done[sid] == {} && sid in t.next && t.next[sid] == 0
    && (forall o :: o != sid ==> DoneOf(t, o) == DoneOf(s, o) && NextOf(t, o) == NextOf(s, o))
  }

  /** The time from the feed's last audio to a start is a restart gap if it is over a quarter of a second. */
  ghost predicate RestartGap(s: Store, t: Store, sid: string, feed: string, at: int) {
    && (forall p: nat :: MostRecent(s.sessions, feed, p) ==>
          var last := s.sessions[p].lastAudioEnd;
          if last.Some? && at - last.value > 250_000
          then t.gaps == s.gaps + [Gap(feed, sid, last.value, at, "worker_restart")]
          else t.gaps == s.gaps)
    && ((forall i :: 0 <= i < |s.sessions| ==> s.sessions[i].feed != feed) ==> t.gaps == s.gaps)
  }

  lemma StartEffect(s: Store, sid: string, feed: string, at: int)
    requires UniqueIds(s.sessions)
    ensures HasSession(s, sid) ==> Start(s, sid, feed, at) == s
    ensures !HasSession(s, sid) ==>
      StartedSessions(s, Start(s, sid, feed, at), sid, feed, at)
        && RestartGap(s, Start(s, sid, feed, at), sid, feed, at)
  {
    hide Start, StartedSessions, RestartGap, UniqueIds;
    if HasSession(s, sid) {
      StartRefused(s, sid, feed, at);
    } else {
      StartSessions(s, sid, feed, at);
      StartGap(s, sid, feed, at);
    }
  }

  lemma StartRefused(s: Store, sid: string, feed: string, at: int)
    requires HasSession(s, sid)
    ensures Start(s, sid, feed, at) == s
  {
    hide HasSession;
  }

  lemma LatestIs(ss: seq<Session>, feed: string)
    ensures forall q: nat :: MostRecent(ss, feed, q) <==> LatestSession(ss, feed) == Some(q)
  {
    forall q: nat | MostRecent(ss, feed, q) ensures LatestSession(ss, feed) == Some(q) {
    }
  }

  lemma StartSessions(s: Store, sid: string, feed: string, at: int)
    requires UniqueIds(s.sessions) && !HasSession(s, sid)
    ensures StartedSessions(s, Start(s, sid, feed, at), sid, feed, at)
  {
    hide PublishAll, Staged, LatestSession, HasSession, MostRecent;
    LatestIs(s.sessions, feed);
    InRange(s.sessions, feed);
    var t := Start(s, sid, feed, at);
    assert |t.sessions| == |s.sessions| + 1;
  }

  lemma InRange(ss: seq<Session>, feed: string)
    ensures LatestSession(ss, feed).Some? ==> LatestSession(ss, feed).value < |ss|
  {
  }

  lemma StartGap(s: Store, sid: string, feed: string, at: int)
    requires !HasSession(s, sid)
    ensures RestartGap(s, Start(s, sid, feed, at), sid, feed, at)
  {
    hide PublishAll, Staged, HasSession, WithStatus;
    LatestIs(s.sessions, feed);
  }

  /** Every operation, on sessions and gaps. A duplicate moves no stamp; a gap is recorded only above 50 ms. */
  lemma SessionsAndGaps(s: Store, op: Op)
    ensures op.OpPersist? || op.OpStage? ==>
      && Apply(s, op).gaps == s.gaps
      && if FindClash(s.rows, op.d).Some? then Apply(s, op).sessions == s.sessions
         else AudioEndMoved(s.sessions, Apply(s, op).sessions, op.d.session, op.d.end)
    ensures op.OpComplete? ==>
      && Apply(s, op).gaps == s.gaps
      && if op.end.None? then Apply(s, op).sessions == s.sessions
         else AudioEndMoved(s.sessions, Apply(s, op).sessions, op.sid, op.end.value)
    ensures op.OpProgress? ==>
      && Apply(s, op).rows == s.rows && Apply(s, op).gaps == s.gaps
      && AudioEndMoved(s.sessions, Apply(s, op).sessions, op.sid, op.audioEnd)
    ensures op.OpClose? ==>
      && Apply(s, op).gaps == s.gaps
      && MarkedAs(s.sessions, Apply(s, op).sessions, op.sid, Stopped, op.at)
    ensures op.OpFlush? || op.OpSweep? || op.OpMemory? ==>
      Apply(s, op).gaps == s.gaps && Apply(s, op).sessions == s.sessions
    ensures op.OpGap? ==>
      && Apply(s, op).rows == s.rows && Apply(s, op).sessions == s.sessions
      && Apply(s, op).gaps == if op.g.end - op.g.start > 50_000 then s.gaps + [op.g] else s.gaps
  {
    hide FindClash, Drain, PublishAll, Staged, SweptRows;
  }

  lemma {:induction false} SessionIdsUnique(s: Store, ops: seq<Op>)
    requires UniqueIds(s.sessions)
    ensures UniqueIds(Run(s, ops).sessions)
    decreases ops
  {
    hide Apply;
    if ops != [] {
      var t := Apply(s, ops[0]);
      SessionsAndGaps(s, ops[0]);
      if ops[0].OpStart? {
        StartEffect(s, ops[0].sid, ops[0].feed, ops[0].at);
        AppliedStart(s, ops[0]);
      }
      SessionIdsUnique(t, ops[1..]);
    }
  }

  lemma AppliedStart(s: Store, op: Op)
    requires op.OpStart?
    ensures Apply(s, op) == Start(s, op.sid, op.feed, op.at)
    ensures HasSession(s, op.sid) <==> exists i :: 0 <= i < |s.sessions| && s.sessions[i].id == op.sid
  {
  }

  // ------------------------------------------------------------------ rows

  /** Row `id` was inserted with exactly these columns, not yet published. */
  ghost predicate InsertedAs(a: Table, b: Table, d: Draft) {
    && |b| == |a| + 1 && (forall x :: 0 <= x < |a| ==> b[x] == a[x])
    && b[|a|].Some? && b[|a|].value.seg == d && b[|a|].value.pub == None && b[|a|].value.audioRetained == d.retained
  }

  /** Only cursors may differ. */
  ghost predicate CursorsOnly(a: Table, b: Table) {
    |a| == |b| && forall x :: 0 <= x < |a| ==>
      && (a[x].Some? <==> b[x].Some?)
      && (a[x].Some? ==> b[x].value.seg == a[x].value.seg && b[x].value.audioRetained == a[x].value.audioRetained)
  }

  lemma PublishColumns(rows: Table, id: int)
    ensures CursorsOnly(rows, Publish(rows, id))
  {
    hide MaxPub;
  }

  lemma {:induction false} DrainColumns(w: Window, sid: string)
    ensures CursorsOnly(w.rows, Drain(w, sid).rows)
    decreases |w.done|
  {
    hide FindStaged, Publish;
    if w.expected in w.done {
      var f := FindStaged(w.rows, sid, w.expected);
      if f.Some? {
        PublishColumns(w.rows, f.value);
      }
      assert |w.done - {w.expected}| < |w.done|;
      DrainColumns(Advance(w, sid), sid);
    }
  }

  /** A persisted row holds its draft's columns and whether its audio is kept. */
  lemma PersistColumns(s: Store, d: Draft)
    ensures var r := Persist(s, d).rows;
      if FindClash(s.rows, d).Some? then CursorsOnly(s.rows, r)
      else |r| == |s.rows| + 1 && CursorsOnly(s.rows, r[..|s.rows|])
           && r[|s.rows|].Some? && r[|s.rows|].value.seg == d && r[|s.rows|].value.audioRetained == d.retained
    ensures FindClash(s.rows, d).None? ==> InsertedAs(s.rows, Stage(s, d).rows, d)
  {
    hide FindClash, Drain;
    var m := if FindClash(s.rows, d).Some? then s else Stage(s, d);
    DrainColumns(Window(m.rows, DoneOf(m, d.session) + {d.seqNo}, NextOf(m, d.session)), d.session);
  }

  /** Two hashes are compared as SQL does: null equals nothing. */
  ghost predicate EqualHashes(a: Option<string>, b: Option<string>) {
    match (a, b)
    case (Some(x), Some(y)) => x == y
    case _ => false
  }

  ghost predicate SameSegment(a: Draft, b: Draft) {
    || a.segmentId == b.segmentId
    || (a.session, a.seqNo) == (b.session, b.seqNo)
    || ((a.feed, a.start, a.end) == (b.feed, b.start, b.end) && EqualHashes(a.sha, b.sha))
  }

  /** A draft is inserted exactly if no live row is the same segment; otherwise no row is added. */
  lemma InsertedIff(s: Store, d: Draft)
    ensures |Persist(s, d).rows| == |s.rows| + 1 <==> forall x :: Live(s.rows, x) ==> !SameSegment(Seg(s.rows, x), d)
    ensures |Persist(s, d).rows| == |s.rows| <==> exists x :: Live(s.rows, x) && SameSegment(Seg(s.rows, x), d)
  {
    hide FindClash, Persist, Drain;
    PersistColumns(s, d);
    assert forall x :: Live(s.rows, x) ==> (Clashes(s.rows[x].value, d) <==> SameSegment(Seg(s.rows, x), d));
  }

  /** Retention takes exactly the rows that end by the transcript cutoff, and from the others the audio of
      those that end by the audio cutoff; it changes nothing else. */
  lemma SweepEffect(rows: Table, audioCutoff: int, textCutoff: int)
    ensures var r := SweptRows(rows, audioCutoff, textCutoff);
      && |r| == |rows|
      && (forall x :: Live(r, x) <==> Live(rows, x) && Seg(rows, x).end > textCutoff)
      && (forall x :: Live(r, x) ==>
            && Seg(r, x) == Seg(rows, x) && r[x].value.pub == rows[x].value.pub
            && (r[x].value.audioRetained <==> rows[x].value.audioRetained && Seg(rows, x).end > audioCutoff))
  {
  }
}
