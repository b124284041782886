/** The scanner transcript store as a value: its tables, the in-memory publication window of
    every session, and what each public operation does to them. The class in ScannerStore.dfy is
    proved against these functions; StoreRuns.dfy and Polling.dfy prove what every run keeps.

    Stamps are whole microseconds. A transaction is atomic, so an operation with two commits is
    the composition of two functions. */
module StoreModel {
  import opened Common

  /** The columns a segment is inserted with; none of them is ever updated. */
  datatype Draft = Draft(segmentId: string, feed: string, session: string, seqNo: nat,
                         start: int, end: int, sha: Option<string>, text: string, retained: bool)

  datatype Row = Row(seg: Draft, pub: Option<nat>, audioRetained: bool)

  /** The segments table, indexed by row id. Row ids are AUTOINCREMENT, so a deleted row leaves
      None behind and its id is never given out again. */
  type Table = seq<Option<Row>>

  datatype Status = Active | RecoveredAfterCrash | Stopped

  datatype Session = Session(id: string, feed: string, startedAt: int, stoppedAt: Option<int>,
                             status: Status, lastAudioEnd: Option<int>)

  datatype Gap = Gap(feed: string, session: string, start: int, end: int, reason: string)

  datatype Store = Store(rows: Table, sessions: seq<Session>, gaps: seq<Gap>,
                         done: map<string, set<nat>>, next: map<string, nat>)

  const EMPTY_STORE := Store([], [], [], map[], map[])

  // ------------------------------------------------------------------ queries

  predicate Live(rows: Table, id: int) {
    0 <= id < |rows| && rows[id].Some?
  }

  predicate Published(rows: Table, id: int) {
    Live(rows, id) && rows[id].value.pub.Some?
  }

  predicate Unpublished(rows: Table, id: int) {
    Live(rows, id) && rows[id].value.pub.None?
  }

  function Cursor(rows: Table, id: int): nat
    requires Published(rows, id)
  {
    rows[id].value.pub.value
  }

  function Seg(rows: Table, id: int): Draft
    requires Live(rows, id)
  {
    rows[id].value.seg
  }

  /** COALESCE(MAX(published_seq), 0) over the live rows. */
  function MaxPub(rows: Table): (m: nat)
    ensures forall id :: Published(rows, id) ==> Cursor(rows, id) <= m
    ensures m == 0 || exists id :: Published(rows, id) && Cursor(rows, id) == m
  {
    if rows == [] then 0
    else
      var k := |rows| - 1;
      var front := rows[..k];
      var m := MaxPub(front);
      assert forall id :: Published(front, id) ==> Published(rows, id) && Cursor(front, id) == Cursor(rows, id);
      assert forall id :: Published(rows, id) ==> id == k || Published(front, id);
      if Published(rows, k) && Cursor(rows, k) > m then Cursor(rows, k) else m
  }

  /** The row that makes an insert of `d` a duplicate: same segment id, same slot of the same
      session, or same feed, stamps and (non-null) audio hash. */
  predicate Clashes(row: Row, d: Draft) {
    || row.seg.segmentId == d.segmentId
    || (row.seg.session == d.session && row.seg.seqNo == d.seqNo)
    || (row.seg.feed == d.feed && row.seg.start == d.start && row.seg.end == d.end
        && row.seg.sha.Some? && row.seg.sha == d.sha)
  }

  function FindClash(rows: Table, d: Draft): (r: Option<nat>)
    ensures r.Some? ==> Live(rows, r.value) && Clashes(rows[r.value].value, d)
    ensures r.None? ==> forall id :: Live(rows, id) ==> !Clashes(rows[id].value, d)
  {
    if rows == [] then None
    else
      var k := |rows| - 1;
      var r := FindClash(rows[..k], d);
      if r.Some? then r
      else if Live(rows, k) && Clashes(rows[k].value, d) then Some(k)
      else
        assert forall id :: Live(rows, id) && id != k ==> Live(rows[..k], id) && rows[..k][id] == rows[id];
        None
  }

  /** The staged (inserted, unpublished) row of slot `n` of session `sid`. */
  function FindStaged(rows: Table, sid: string, n: nat): (r: Option<nat>)
    ensures r.Some? ==> Unpublished(rows, r.value) && Seg(rows, r.value).session == sid && Seg(rows, r.value).seqNo == n
    ensures r.None? ==> forall id :: Unpublished(rows, id) && Seg(rows, id).session == sid ==> Seg(rows, id).seqNo != n
  {
    if rows == [] then None
    else
      var k := |rows| - 1;
      var r := FindStaged(rows[..k], sid, n);
      if r.Some? then r
      else if Unpublished(rows, k) && Seg(rows, k).session == sid && Seg(rows, k).seqNo == n then Some(k)
      else
        assert forall id :: Unpublished(rows, id) && id != k ==>
            Unpublished(rows[..k], id) && rows[..k][id] == rows[id];
        None
  }

  /** Which staged rows a flush takes, and in which order. */
  datatype Selection = OfFeed(feed: string) | OfSession(session: string)

  predicate Selects(sel: Selection, d: Draft) {
    match sel
    case OfFeed(f) => d.feed == f
    case OfSession(sid) => d.session == sid
  }

  /** ORDER BY audio_start, sequence_no, row_id for a recovery;
      ORDER BY sequence_no, audio_start, row_id for a session flush. */
  predicate Before(rows: Table, sel: Selection, a: int, b: int)
    requires Live(rows, a) && Live(rows, b)
  {
    var (x, y) := (Seg(rows, a), Seg(rows, b));
    var (x1, x2, y1, y2) := if sel.OfFeed? then (x.start, x.seqNo as int, y.start, y.seqNo as int)
                            else (x.seqNo as int, x.start, y.seqNo as int, y.start);
    x1 < y1 || (x1 == y1 && (x2 < y2 || (x2 == y2 && a < b)))
  }

  predicate AllLive(rows: Table, ids: seq<nat>) {
    forall i :: 0 <= i < |ids| ==> Live(rows, ids[i])
  }

  ghost predicate InOrder(rows: Table, sel: Selection, ids: seq<nat>)
    requires AllLive(rows, ids)
  {
    forall i, j :: 0 <= i < j < |ids| ==> Before(rows, sel, ids[i], ids[j])
  }

  function InsertInOrder(rows: Table, sel: Selection, ids: seq<nat>, id: nat): (r: seq<nat>)
    requires Live(rows, id) && AllLive(rows, ids) && id !in ids && InOrder(rows, sel, ids)
    ensures AllLive(rows, r) && InOrder(rows, sel, r)
    ensures forall x :: x in r <==> x == id || x in ids
  {
    if ids == [] then [id]
    else if Before(rows, sel, id, ids[0]) then [id] + ids
    else
      var rest := InsertInOrder(rows, sel, ids[1..], id);
      assert forall x :: x in rest ==> x == id || x in ids[1..];
      assert forall j :: 0 <= j < |rest| ==> rest[j] in rest;
      assert forall x :: x in ids[1..] ==> Before(rows, sel, ids[0], x);
      [ids[0]] + rest
  }

  /** SELECT row_id ... WHERE <selection> AND published_seq IS NULL ORDER BY ..., over ids below n. */
  function StagedInOrder(rows: Table, sel: Selection, n: nat): (r: seq<nat>)
    requires n <= |rows|
    ensures AllLive(rows, r) && InOrder(rows, sel, r)
    ensures forall x :: x in r <==> x < n && Unpublished(rows, x) && Selects(sel, Seg(rows, x))
  {
    if n == 0 then []
    else
      var r := StagedInOrder(rows, sel, n - 1);
      if Unpublished(rows, n - 1) && Selects(sel, Seg(rows, n - 1))
      then InsertInOrder(rows, sel, r, n - 1)
      else r
  }

  function Staged(rows: Table, sel: Selection): (r: seq<nat>)
    ensures AllLive(rows, r) && InOrder(rows, sel, r)
    ensures forall x :: x in r <==> Unpublished(rows, x) && Selects(sel, Seg(rows, x))
  {
    StagedInOrder(rows, sel, |rows|)
  }

  // ------------------------------------------------------------------ publication

  /** _assign_next_publication_seq: the row takes MAX + 1 unless it already has a cursor. */
  function Publish(rows: Table, id: int): Table {
    if Unpublished(rows, id)
    then rows[id := Some(rows[id].value.(pub := Some(MaxPub(rows) + 1)))]
    else rows
  }

  function PublishAll(rows: Table, ids: seq<nat>): Table
    decreases ids
  {
    if ids == [] then rows else PublishAll(Publish(rows, ids[0]), ids[1..])
  }

  datatype Window = Window(rows: Table, done: set<nat>, expected: nat)

  /** One turn of the publication loop: the expected slot is done, so its staged row (if it has
      one) is published and the window moves on. */
  function Advance(w: Window, sid: string): Window
    requires w.expected in w.done
  {
    var staged := FindStaged(w.rows, sid, w.expected);
    Window(if staged.Some? then Publish(w.rows, staged.value) else w.rows,
           w.done - {w.expected}, w.expected + 1)
  }

  function Drain(w: Window, sid: string): Window
    decreases |w.done|
  {
    if w.expected in w.done then
      assert |w.done - {w.expected}| < |w.done|;
      Drain(Advance(w, sid), sid)
    else w
  }

  function DoneOf(s: Store, sid: string): set<nat> {
    if sid in s.done then s.done[sid] else {}
  }

  function NextOf(s: Store, sid: string): nat {
    if sid in s.next then s.next[sid] else 0
  }

  /** _mark_sequence_ready_locked */
  function MarkReady(s: Store, sid: string, n: nat): Store {
    var w := Drain(Window(s.rows, DoneOf(s, sid) + {n}, NextOf(s, sid)), sid);
    s.(rows := w.rows, done := s.done[sid := w.done], next := s.next[sid := w.expected])
  }

  // ------------------------------------------------------------------ operations

  function WithAudioEnd(ss: seq<Session>, sid: string, end: int): seq<Session> {
    seq(|ss|, i requires 0 <= i < |ss| => if ss[i].id == sid then ss[i].(lastAudioEnd := Some(end)) else ss[i])
  }

  function WithStatus(ss: seq<Session>, sid: string, status: Status, at: int): seq<Session> {
    seq(|ss|, i requires 0 <= i < |ss| =>
      if ss[i].id == sid then ss[i].(status := status, stoppedAt := Some(at)) else ss[i])
  }

  /** The first commit of persist_segment. */
  function Stage(s: Store, d: Draft): Store {
    s.(rows := s.rows + [Some(Row(d, None, d.retained))], sessions := WithAudioEnd(s.sessions, d.session, d.end))
  }

  function Persist(s: Store, d: Draft): Store {
    MarkReady(if FindClash(s.rows, d).Some? then s else Stage(s, d), d.session, d.seqNo)
  }

  function Complete(s: Store, sid: string, n: nat, end: Option<int>): Store {
    MarkReady(if end.Some? then s.(sessions := WithAudioEnd(s.sessions, sid, end.value)) else s, sid, n)
  }

  function Flush(s: Store, sid: string): Store {
    s.(rows := PublishAll(s.rows, Staged(s.rows, OfSession(sid))))
  }

  function Close(s: Store, sid: string, at: int): Store {
    Flush(s, sid).(sessions := WithStatus(s.sessions, sid, Stopped, at), done := s.done - {sid}, next := s.next - {sid})
  }

  /** ORDER BY started_at_utc DESC, rowid DESC LIMIT 1 among the sessions of a feed. */
  function LatestSession(ss: seq<Session>, feed: string): (r: Option<nat>)
    ensures r.Some? ==> r.value < |ss| && ss[r.value].feed == feed
    ensures r.Some? ==> forall i :: 0 <= i < |ss| && ss[i].feed == feed ==>
        ss[i].startedAt < ss[r.value].startedAt || (ss[i].startedAt == ss[r.value].startedAt && i <= r.value)
    ensures r.None? ==> forall i :: 0 <= i < |ss| ==> ss[i].feed != feed
  {
    if ss == [] then None
    else
      var k := |ss| - 1;
      var r := LatestSession(ss[..k], feed);
      if ss[k].feed == feed && (r.None? || ss[r.value].startedAt <= ss[k].startedAt) then Some(k) else r
  }

  const RESTART_GAP_MICROS := 250_000
  const GAP_MICROS := 50_000

  predicate HasSession(s: Store, sid: string) {
    exists i :: 0 <= i < |s.sessions| && s.sessions[i].id == sid
  }

  /** recover_and_start_session. A session id that is already taken violates the primary key, and
      the whole transaction is rolled back. */
  function Start(s: Store, sid: string, feed: string, at: int): Store {
    if HasSession(s, sid) then s
    else
      var p := LatestSession(s.sessions, feed);
      var ss := if p.Some? && s.sessions[p.value].status.Active?
                then WithStatus(s.sessions, s.sessions[p.value].id, RecoveredAfterCrash, at) else s.sessions;
      var gaps := if p.Some? && s.sessions[p.value].lastAudioEnd.Some?
                     && at - s.sessions[p.value].lastAudioEnd.value > RESTART_GAP_MICROS
                  then s.gaps + [Gap(feed, sid, s.sessions[p.value].lastAudioEnd.value, at, "worker_restart")]
                  else s.gaps;
      Store(PublishAll(s.rows, Staged(s.rows, OfFeed(feed))),
            ss + [Session(sid, feed, at, None, Active, None)], gaps,
            s.done[sid := {}], s.next[sid := 0])
  }

  function RecordGap(s: Store, g: Gap): Store {
    if g.end - g.start <= GAP_MICROS then s else s.(gaps := s.gaps + [g])
  }

  /** What the retention sweep leaves of one row. */
  function Swept(row: Option<Row>, audioCutoff: int, textCutoff: int): Option<Row> {
    if row.None? || row.value.seg.end <= textCutoff then None
    else if row.value.audioRetained && row.value.seg.end <= audioCutoff then Some(row.value.(audioRetained := false))
    else row
  }

  function SweptRows(rows: Table, audioCutoff: int, textCutoff: int): (r: Table)
    ensures |r| == |rows|
    ensures forall id :: 0 <= id < |rows| ==> r[id] == Swept(rows[id], audioCutoff, textCutoff)
  {
    seq(|rows|, i requires 0 <= i < |rows| => Swept(rows[i], audioCutoff, textCutoff))
  }

  function Sweep(s: Store, audioCutoff: int, textCutoff: int): Store {
    s.(rows := SweptRows(s.rows, audioCutoff, textCutoff))
  }

  /** Everything that can happen to a store. OpStage alone is a process that dies, or a second commit
      that fails, between the two commits of persist_segment; OpMemory leaves the in-memory
      windows in any state at all, which covers a crash (both maps empty) and every exception
      that rolls the tables back after the windows were touched. */
  datatype Op =
    | OpStart(sid: string, feed: string, at: int)
    | OpPersist(d: Draft)
    | OpStage(d: Draft)
    | OpComplete(sid: string, n: nat, end: Option<int>)
    | OpFlush(sid: string)
    | OpClose(sid: string, at: int)
    | OpSweep(audioCutoff: int, textCutoff: int)
    | OpGap(g: Gap)
    | OpProgress(sid: string, audioEnd: int)
    | OpMemory(done: map<string, set<nat>>, next: map<string, nat>)

  const CRASH := OpMemory(map[], map[])

  function Apply(s: Store, op: Op): Store {
    match op
    case OpStart(sid, feed, at) => Start(s, sid, feed, at)
    case OpPersist(d) => Persist(s, d)
    case OpStage(d) => if FindClash(s.rows, d).Some? then s else Stage(s, d)
    case OpComplete(sid, n, end) => Complete(s, sid, n, end)
    case OpFlush(sid) => Flush(s, sid)
    case OpClose(sid, at) => Close(s, sid, at)
    case OpSweep(a, t) => Sweep(s, a, t)
    case OpGap(g) => RecordGap(s, g)
    case OpProgress(sid, end) => s.(sessions := WithAudioEnd(s.sessions, sid, end))
    case OpMemory(done, next) => s.(done := done, next := next)
  }

  function Run(s: Store, ops: seq<Op>): Store
    decreases ops
  {
    if ops == [] then s else Run(Apply(s, ops[0]), ops[1..])
  }
}
