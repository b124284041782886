/** The worker as a state machine over the store: the capture thread numbers chunks and queues or
    drops them, the single ASR thread takes them and finishes each as speech, non-speech or a
    failure, and the retention thread sweeps. A call of the store may fail, as every call does once the
    store is closed. The history records what became of every slot. */
module Worker {
  import opened Common
  import opened StoreModel
  import opened StoreRuns
  import opened StoreEffects
  import opened StoreOrder
  import opened StoreWindow

  datatype Chunk = Chunk(segmentId: string, start: int, end: int, sha: string, retained: bool)

  datatype Transcript = Speech(text: string) | Silence | Failure

  /** What became of one allocated sequence number. A gap shorter than the 50 ms floor is not
      recorded, hence the option. A stranded row was inserted, but the commit that publishes it failed; a
      lost slot left no record, because the store failed. */
  datatype Fate =
    | Waiting
    | Stored(row: nat)
    | Stranded(row: nat)
    | Duplicate(row: nat)
    | NonSpeech
    | FailedGap(gap: Option<nat>)
    | DroppedGap(gap: Option<nat>)
    | Lost

  /** `fates` and `faulted` are history. */
  datatype Runtime = Runtime(store: Store, sid: string, feed: string, chunks: seq<Chunk>,
                             queue: seq<nat>, busy: Option<nat>, fates: seq<Fate>, faulted: bool)

  /** Which of a chunk's two store transactions failed: inserting and publishing a row, or recording a gap
      and completing the slot. Non-speech has one. */
  datatype Fault = First | Second | Both

  /** The two faulty events are a gap of a dropped chunk that could not be recorded, and a StorageFailureError
      while the chunk in flight is finished, which leaves the window in memory in any state. A disconnect's gap
      or a sweep that fails changes nothing. */
  datatype Event =
    | Captured(chunk: Chunk)
    | Taken
    | Finished(result: Transcript)
    | CapturedUnrecorded(chunk: Chunk)
    | FinishedFaulty(result: Transcript, fault: Fault, done: map<string, set<nat>>, next: map<string, nat>)
    | Disconnected(start: int, end: int, reason: string)
    | Retention(audioCutoff: int, textCutoff: int)

  const DROP_REASON := "queue_backpressure_drop"
  const FAIL_REASON := "asr_failure"

  function DraftOf(w: Runtime, n: nat, text: string): Draft
    requires n < |w.chunks|
  {
    var c := w.chunks[n];
    Draft(c.segmentId, w.feed, w.sid, n, c.start, c.end, Some(c.sha), text, c.retained)
  }

  function GapOf(w: Runtime, c: Chunk, reason: string): Gap {
    Gap(w.feed, w.sid, c.start, c.end, reason)
  }

  /** The index record_gap gives a gap, if it is long enough to be recorded. */
  function GapIndex(w: Runtime, c: Chunk): Option<nat> {
    if c.end - c.start > GAP_MICROS then Some(|w.store.gaps|) else None
  }

  /** _enqueue_captured_chunk: a put that finds the queue full until its timeout drops the chunk and
      records the gap; it does not complete the slot. */
  function Capture(w: Runtime, c: Chunk, maxPending: nat): Runtime {
    var n := |w.chunks|;
    if |w.queue| < maxPending
    then w.(chunks := w.chunks + [c], queue := w.queue + [n], fates := w.fates + [Waiting])
    else w.(chunks := w.chunks + [c], fates := w.fates + [DroppedGap(GapIndex(w, c))],
            store := RecordGap(w.store, GapOf(w, c, DROP_REASON)))
  }

  /** One turn of _asr_worker_loop after transcription of chunk n. */
  function Finish(w: Runtime, n: nat, result: Transcript): Runtime
    requires n < |w.chunks| == |w.fates|
  {
    var c := w.chunks[n];
    match result
    case Failure =>
      w.(store := Complete(RecordGap(w.store, GapOf(w, c, FAIL_REASON)), w.sid, n, Some(c.end)),
         busy := None, fates := w.fates[n := FailedGap(GapIndex(w, c))])
    case Silence =>
      w.(store := Complete(w.store, w.sid, n, Some(c.end)), busy := None, fates := w.fates[n := NonSpeech])
    case Speech(text) =>
      var d := DraftOf(w, n, text);
      var clash := FindClash(w.store.rows, d);
      w.(store := Persist(w.store, d), busy := None,
         fates := w.fates[n := if clash.Some? then Duplicate(clash.value) else Stored(|w.store.rows|)])
  }

  /** A turn of _asr_worker_loop that ends in one of its StorageFailureError handlers. */
  function FinishFaulty(w: Runtime, n: nat, e: Event): Runtime
    requires n < |w.chunks| == |w.fates| && e.FinishedFaulty?
  {
    var c := w.chunks[n];
    match e.result
    case Failure =>
      var s := if e.fault.Second? then RecordGap(w.store, GapOf(w, c, FAIL_REASON)) else w.store;
      w.(store := if e.fault.First? then Complete(s, w.sid, n, Some(c.end)) else s.(done := e.done, next := e.next),
         busy := None, faulted := true,
         fates := w.fates[n := if e.fault.Second? then FailedGap(GapIndex(w, c)) else Lost])
    case Silence =>
      w.(store := w.store.(done := e.done, next := e.next), busy := None, faulted := true, fates := w.fates[n := Lost])
    case Speech(text) =>
      var d := DraftOf(w, n, text);
      var clash := FindClash(w.store.rows, d);
      var s := if e.fault.Second? then Inserted(w.store, d) else w.store;
      w.(store := s.(done := e.done, next := e.next), busy := None, faulted := true,
         fates := w.fates[n := if !e.fault.Second? then Lost
                               else if clash.Some? then Duplicate(clash.value) else Stranded(|w.store.rows|)])
  }

  predicate Ready(w: Runtime) {
    |w.chunks| == |w.fates| && (w.busy.Some? ==> w.busy.value < |w.chunks|)
  }

  function Handle(w: Runtime, e: Event, maxPending: nat): Runtime
    requires Ready(w)
  {
    match e
    case Captured(c) => Capture(w, c, maxPending)
    case Taken =>
      if w.busy.None? && w.queue != [] && w.queue[0] < |w.chunks|
      then w.(busy := Some(w.queue[0]), queue := w.queue[1..])
      else w
    case Finished(r) => if w.busy.Some? then Finish(w, w.busy.value, r) else w
    case CapturedUnrecorded(c) =>
      if |w.queue| < maxPending then Capture(w, c, maxPending)
      else w.(chunks := w.chunks + [c], fates := w.fates + [Lost])
    case FinishedFaulty(_, _, _, _) => if w.busy.Some? then FinishFaulty(w, w.busy.value, e) else w
    case Disconnected(a, b, reason) => w.(store := RecordGap(w.store, Gap(w.feed, w.sid, a, b, reason)))
    case Retention(a, t) => w.(store := Sweep(w.store, a, t))
  }

  lemma HandleReady(w: Runtime, e: Event, maxPending: nat)
    requires Ready(w)
    ensures Ready(Handle(w, e, maxPending))
  {
  }

  function Handling(w: Runtime, es: seq<Event>, maxPending: nat): (r: Runtime)
    requires Ready(w)
    ensures Ready(r) && r.sid == w.sid && r.feed == w.feed
    decreases es
  {
    if es == [] then w
    else
      HandleReady(w, es[0], maxPending);
      Handling(Handle(w, es[0], maxPending), es[1..], maxPending)
  }

  /** start(): recover the feed, then open the session with an empty queue. */
  function Begin(s: Store, sid: string, feed: string, at: int): Runtime {
    Runtime(Start(s, sid, feed, at), sid, feed, [], [], None, [], false)
  }

  // ------------------------------------------------------------------ what one event does

  /** The gap list gains this gap, unless it is no longer than 50 ms. */
  ghost predicate GapLogged(a: seq<Gap>, b: seq<Gap>, feed: string, sid: string, start: int, end: int, reason: string) {
    b == if end - start > 50_000 then a + [Gap(feed, sid, start, end, reason)] else a
  }

  /** A captured chunk waits behind the others while there is room, and is dropped with its gap otherwise. */
  lemma CapturedEffect(w: Runtime, c: Chunk, maxPending: nat)
    requires Ready(w)
    ensures var v := Handle(w, Captured(c), maxPending);
      && v.chunks == w.chunks + [c] && v.busy == w.busy && |v.fates| == |w.fates| + 1 && w.fates <= v.fates
      && v.store.rows == w.store.rows && v.store.sessions == w.store.sessions
      && v.store.done == w.store.done && v.store.next == w.store.next
      && (if |w.queue| < maxPending
          then v.queue == w.queue + [|w.chunks|] && v.fates[|w.fates|] == Waiting && v.store.gaps == w.store.gaps
          else v.queue == w.queue && v.fates[|w.fates|].DroppedGap?
               && GapLogged(w.store.gaps, v.store.gaps, w.feed, w.sid, c.start, c.end, "queue_backpressure_drop"))
  {
  }

  /** The ASR thread takes the oldest chunk, one at a time. */
  lemma TakenEffect(w: Runtime, maxPending: nat)
    requires Ready(w) && w.busy.None? && w.queue != [] && w.queue[0] < |w.chunks|
    ensures var v := Handle(w, Taken, maxPending);
      v.busy == Some(w.queue[0]) && v.queue == w.queue[1..] && v == w.(busy := v.busy, queue := v.queue)
  {
  }

  /** A transcribed chunk: its row holds its columns and the text; a failed one leaves its gap; and the
      session's last audio end is the chunk's, but for a duplicate. */
  lemma FinishedEffect(w: Runtime, r: Transcript, maxPending: nat)
    requires Ready(w) && w.busy.Some?
    ensures var (v, n) := (Handle(w, Finished(r), maxPending), w.busy.value);
      && v.busy == None && v.queue == w.queue && v.chunks == w.chunks
      && |v.fates| == |w.fates| && (forall m :: 0 <= m < |w.fates| && m != n ==> v.fates[m] == w.fates[m])
    ensures var (v, c) := (Handle(w, Finished(r), maxPending), w.chunks[w.busy.value]);
      if r.Speech? && FindClash(w.store.rows, DraftOf(w, w.busy.value, r.text)).Some?
      then v.store.sessions == w.store.sessions
      else AudioEndMoved(w.store.sessions, v.store.sessions, w.sid, c.end)
    ensures var (v, n, c) := (Handle(w, Finished(r), maxPending), w.busy.value, w.chunks[w.busy.value]);
      match r
      case Failure =>
        v.fates[n].FailedGap? && GapLogged(w.store.gaps, v.store.gaps, w.feed, w.sid, c.start, c.end, "asr_failure")
      case Silence => v.fates[n] == NonSpeech && v.store.gaps == w.store.gaps
      case Speech(text) =>
        && v.store.gaps == w.store.gaps
        && (v.fates[n].Stored? ==>
              && v.fates[n].row == |w.store.rows| < |v.store.rows| && v.store.rows[|w.store.rows|].Some?
              && v.store.rows[|w.store.rows|].value.audioRetained == c.retained
              && v.store.rows[|w.store.rows|].value.seg
                 == Draft(c.segmentId, w.feed, w.sid, n, c.start, c.end, Some(c.sha), text, c.retained))
  {
    hide Drain, FindClash, Persist, Complete;
    var n := w.busy.value;
    var c := w.chunks[n];
    match r
    case Failure =>
      SessionsAndGaps(RecordGap(w.store, GapOf(w, c, FAIL_REASON)), OpComplete(w.sid, n, Some(c.end)));
    case Silence => SessionsAndGaps(w.store, OpComplete(w.sid, n, Some(c.end)));
    case Speech(text) =>
      SessionsAndGaps(w.store, OpPersist(DraftOf(w, n, text)));
      PersistColumns(w.store, DraftOf(w, n, text));
  }

  /** A chunk whose second commit failed left its row, staged, with its columns and text. */
  lemma StrandedEffect(w: Runtime, e: Event, text: string, maxPending: nat)
    requires Ready(w) && w.busy.Some? && e.FinishedFaulty? && e.result == Speech(text)
    ensures var (v, n, c) := (Handle(w, e, maxPending), w.busy.value, w.chunks[w.busy.value]);
      && v.store.gaps == w.store.gaps
      && (if v.fates[n].Stranded?
          then InsertedAs(w.store.rows, v.store.rows,
                          Draft(c.segmentId, w.feed, w.sid, n, c.start, c.end, Some(c.sha), text, c.retained))
          else v.store.rows == w.store.rows)
  {
    hide FindClash;
  }

  /** A disconnect records its gap, and retention sweeps with its own cutoff each. */
  lemma OutsideEffect(w: Runtime, e: Event, maxPending: nat)
    requires Ready(w) && (e.Disconnected? || e.Retention?)
    ensures var v := Handle(w, e, maxPending);
      && v == w.(store := v.store) && v.store.sessions == w.store.sessions
      && v.store.done == w.store.done && v.store.next == w.store.next
    ensures e.Disconnected? ==>
      var s := Handle(w, e, maxPending).store;
      s.rows == w.store.rows && GapLogged(w.store.gaps, s.gaps, w.feed, w.sid, e.start, e.end, e.reason)
    ensures e.Retention? ==>
      var s := Handle(w, e, maxPending).store;
      && s.gaps == w.store.gaps && |s.rows| == |w.store.rows|
      && (forall x :: Live(s.rows, x) <==> Live(w.store.rows, x) && Seg(w.store.rows, x).end > e.textCutoff)
      && (forall x :: Live(s.rows, x) ==>
            s.rows[x].value.audioRetained
            == (w.store.rows[x].value.audioRetained && Seg(w.store.rows, x).end > e.audioCutoff))
  {
    if e.Retention? {
      SweepEffect(w.store.rows, e.audioCutoff, e.textCutoff);
    }
  }

  /** No more chunks wait than the queue has room for. */
  lemma {:induction false} QueueBounded(w: Runtime, es: seq<Event>, maxPending: nat)
    requires Ready(w) && |w.queue| <= maxPending
    ensures |Handling(w, es, maxPending).queue| <= maxPending
    decreases es
  {
    hide Complete, Persist, RecordGap, FindClash, Sweep;
    if es != [] {
      HandleReady(w, es[0], maxPending);
      QueueBounded(Handle(w, es[0], maxPending), es[1..], maxPending);
    }
  }

  // ------------------------------------------------------------------ accounting

  predicate Finishes(f: Fate) {
    f.Stored? || f.Duplicate? || f.NonSpeech? || f.FailedGap?
  }

  ghost function FinishedSlots(fates: seq<Fate>): set<nat> {
    set n: nat | n < |fates| && Finishes(fates[n])
  }

  ghost predicate Pending(w: Runtime, n: nat) {
    n in w.queue || w.busy == Some(n)
  }

  /** A gap row that stands for chunk `c`; short chunks leave none. */
  ghost predicate GapStands(w: Runtime, gap: Option<nat>, c: Chunk, reason: string) {
    && (c.end - c.start > 50_000 <==> gap.Some?)
    && (gap.Some? ==>
          && gap.value < |w.store.gaps|
          && w.store.gaps[gap.value].feed == w.feed && w.store.gaps[gap.value].session == w.sid
          && w.store.gaps[gap.value].start == c.start && w.store.gaps[gap.value].end == c.end
          && w.store.gaps[gap.value].reason == reason)
  }

  function RowOfFate(f: Fate): Option<nat> {
    match f
    case Stored(id) => Some(id)
    case Stranded(id) => Some(id)
    case _ => None
  }

  function GapOfFate(f: Fate): Option<nat> {
    match f
    case FailedGap(g) => g
    case DroppedGap(g) => g
    case _ => None
  }

  /** The queue holds waiting slots in capture order, behind the one in flight. */
  ghost predicate QueueOk(w: Runtime) {
    && Ready(w)
    && (forall i, j :: 0 <= i < j < |w.queue| ==> w.queue[i] < w.queue[j])
    && (forall n :: n in w.queue ==> n < |w.fates| && (w.busy.Some? ==> w.busy.value < n))
    && (forall n: nat :: n < |w.fates| ==> (w.fates[n].Waiting? <==> Pending(w, n)))
  }

  /** Row `id` is the row of slot `n`, with the columns of its chunk, as long as retention keeps it. */
  ghost predicate RowStands(w: Runtime, id: nat, n: nat)
    requires n < |w.chunks|
  {
    id < |w.store.rows|
    && (Live(w.store.rows, id) ==>
          var (r, c) := (Seg(w.store.rows, id), w.chunks[n]);
          && r.session == w.sid && r.seqNo == n && r.feed == w.feed
          && r.segmentId == c.segmentId && r.start == c.start && r.end == c.end && r.sha == Some(c.sha)
          && r.retained == c.retained)
  }

  /** Row `id` has the chunk's segment id or its feed, stamps and audio, and is not the row of slot `n`. */
  ghost predicate TwinStands(w: Runtime, id: nat, n: nat)
    requires n < |w.chunks|
  {
    id < |w.store.rows|
    && (Live(w.store.rows, id) ==>
          var (r, c) := (Seg(w.store.rows, id), w.chunks[n]);
          && (r.segmentId == c.segmentId
              || (r.feed == w.feed && r.start == c.start && r.end == c.end && r.sha == Some(c.sha)))
          && !(r.session == w.sid && r.seqNo == n))
  }

  /** Each finished or dropped slot points at the table row that records it. */
  ghost predicate FatesStand(w: Runtime)
    requires Ready(w)
  {
    forall n: nat :: n < |w.fates| ==>
      match w.fates[n]
      case Stored(_) => RowStands(w, w.fates[n].row, n)
      case Stranded(_) => RowStands(w, w.fates[n].row, n)
      case Duplicate(_) => TwinStands(w, w.fates[n].row, n)
      case FailedGap(g) => GapStands(w, g, w.chunks[n], "asr_failure")
      case DroppedGap(g) => GapStands(w, g, w.chunks[n], "queue_backpressure_drop")
      case _ => true
  }

  ghost predicate SlotOfGap(w: Runtime, n: nat, i: nat) {
    n < |w.fates| && GapOfFate(w.fates[n]) == Some(i)
  }

  /** Gap `i` is one that this worker recorded for a chunk. */
  ghost predicate OwnGap(w: Runtime, i: nat) {
    && i < |w.store.gaps| && w.store.gaps[i].session == w.sid
    && w.store.gaps[i].reason in {"asr_failure", "queue_backpressure_drop"}
  }

  /** Each row and each worker gap of the session is the record of a slot, and no gap of two. */
  ghost predicate TablesStand(w: Runtime) {
    && (forall x :: Of(w.store.rows, w.sid, x) ==>
          Seg(w.store.rows, x).seqNo < |w.fates| && RowOfFate(w.fates[Seg(w.store.rows, x).seqNo]) == Some(x))
    && (forall i: nat :: OwnGap(w, i) ==> exists n: nat :: SlotOfGap(w, n, i))
    && (forall m: nat, n: nat :: m < n < |w.fates| && GapOfFate(w.fates[m]).Some? ==>
          GapOfFate(w.fates[m]) != GapOfFate(w.fates[n]))
  }

  ghost predicate Accounted(w: Runtime) {
    && QueueOk(w)
    && FatesStand(w)
    && TablesStand(w)
    && Valid(w.store.rows)
    && (!w.faulted ==> OrderInv(w.store, Open(FinishedSlots(w.fates)), w.sid, w.feed))
  }

  ghost predicate EventOk(e: Event) {
    e.Disconnected? ==> e.reason != DROP_REASON && e.reason != FAIL_REASON
  }

  // ------------------------------------------------------------------ every event keeps the account

  lemma CompleteTables(s: Store, sid: string, n: nat, end: Option<int>)
    ensures SameRows(s.rows, Complete(s, sid, n, end).rows) && Complete(s, sid, n, end).gaps == s.gaps
  {
    DrainShape(Window(s.rows, DoneOf(s, sid) + {n}, NextOf(s, sid)), sid);
  }

  lemma PersistTables(s: Store, d: Draft)
    ensures Persist(s, d).gaps == s.gaps
    ensures SameRows(if FindClash(s.rows, d).Some? then s.rows else Stage(s, d).rows, Persist(s, d).rows)
  {
    var m := if FindClash(s.rows, d).Some? then s else Stage(s, d);
    DrainShape(Window(m.rows, DoneOf(m, d.session) + {d.seqNo}, NextOf(m, d.session)), d.session);
  }

  /** Tables may only have lost rows and gained gaps that are not this worker's. */
  lemma TablesMove(w: Runtime, v: Runtime)
    requires QueueOk(w) && FatesStand(w) && TablesStand(w)
    requires v == w.(store := v.store)
    requires |v.store.rows| == |w.store.rows|
    requires forall x :: Live(v.store.rows, x) ==> Live(w.store.rows, x) && Seg(v.store.rows, x) == Seg(w.store.rows, x)
    requires w.store.gaps <= v.store.gaps
    requires forall i :: |w.store.gaps| <= i < |v.store.gaps| ==> v.store.gaps[i].reason !in {FAIL_REASON, DROP_REASON}
    ensures QueueOk(v) && FatesStand(v) && TablesStand(v)
  {
    forall i: nat | OwnGap(v, i)
      ensures exists n: nat :: SlotOfGap(v, n, i)
    {
      assert i < |w.store.gaps| && w.store.gaps[i] == v.store.gaps[i] && OwnGap(w, i);
      var n: nat :| SlotOfGap(w, n, i);
      assert SlotOfGap(v, n, i);
    }
    forall x | Of(v.store.rows, v.sid, x)
      ensures Seg(v.store.rows, x).seqNo < |v.fates| && RowOfFate(v.fates[Seg(v.store.rows, x).seqNo]) == Some(x)
    {
      assert Of(w.store.rows, w.sid, x);
    }
    assert FatesStand(v);
  }

  lemma CaptureKeeps(w: Runtime, c: Chunk, maxPending: nat)
    requires Accounted(w)
    ensures Accounted(Capture(w, c, maxPending))
  {
    if |w.queue| < maxPending {
      EnqueueKeeps(w, c, maxPending);
    } else {
      DropKeeps(w, c, maxPending);
    }
  }

  lemma EnqueueKeeps(w: Runtime, c: Chunk, maxPending: nat)
    requires Accounted(w) && |w.queue| < maxPending
    ensures Accounted(Capture(w, c, maxPending))
  {
    hide MaxPub, FindClash;
    var v, n := Capture(w, c, maxPending), |w.chunks|;
    assert FinishedSlots(v.fates) == FinishedSlots(w.fates);
    EnqueueQueue(w, c, maxPending);
    EnqueueFates(w, c, maxPending);
    hide QueueOk, FatesStand, OrderInv;
    forall i: nat | OwnGap(v, i)
      ensures exists m: nat :: SlotOfGap(v, m, i)
    {
      assert OwnGap(w, i);
      var m: nat :| SlotOfGap(w, m, i);
      assert SlotOfGap(v, m, i);
    }
  }

  lemma EnqueueQueue(w: Runtime, c: Chunk, maxPending: nat)
    requires QueueOk(w) && |w.queue| < maxPending
    ensures QueueOk(Capture(w, c, maxPending))
  {
    var v, n := Capture(w, c, maxPending), |w.chunks|;
    assert forall i :: 0 <= i < |w.queue| ==> w.queue[i] in w.queue;
    assert forall m :: m in v.queue <==> m in w.queue || m == n;
    assert forall m: nat :: m < n ==> (Pending(v, m) <==> Pending(w, m));
  }

  lemma EnqueueFates(w: Runtime, c: Chunk, maxPending: nat)
    requires Ready(w) && FatesStand(w) && |w.queue| < maxPending
    ensures FatesStand(Capture(w, c, maxPending))
  {
    var v := Capture(w, c, maxPending);
    assert forall m: nat :: m < |w.fates| ==> v.fates[m] == w.fates[m] && v.chunks[m] == w.chunks[m];
  }

  lemma DropKeeps(w: Runtime, c: Chunk, maxPending: nat)
    requires Accounted(w) && |w.queue| >= maxPending
    ensures Accounted(Capture(w, c, maxPending))
  {
    hide MaxPub, FindClash, OrderInv, FatesStand, QueueOk, TablesStand;
    var v, n := Capture(w, c, maxPending), |w.chunks|;
    assert FinishedSlots(v.fates) == FinishedSlots(w.fates) && Ready(w) by { DropSlots(w, c, maxPending); }
    if !w.faulted {
      OpenStepKeeps(w.store, Open(FinishedSlots(w.fates)), OpGap(GapOf(w, c, DROP_REASON)), w.sid, w.feed);
    }
    GapAdded(w, v, n);
    DropQueue(w, c, maxPending);
    DropFates(w, c, maxPending);
  }

  lemma DropSlots(w: Runtime, c: Chunk, maxPending: nat)
    requires QueueOk(w) && |w.queue| >= maxPending
    ensures FinishedSlots(Capture(w, c, maxPending).fates) == FinishedSlots(w.fates) && Ready(w)
  {
  }

  lemma DropQueue(w: Runtime, c: Chunk, maxPending: nat)
    requires QueueOk(w) && |w.queue| >= maxPending
    ensures QueueOk(Capture(w, c, maxPending))
  {
    var v := Capture(w, c, maxPending);
    assert forall m: nat :: m < |w.chunks| ==> (Pending(v, m) <==> Pending(w, m));
  }

  lemma DropFates(w: Runtime, c: Chunk, maxPending: nat)
    requires Ready(w) && FatesStand(w) && |w.queue| >= maxPending
    ensures FatesStand(Capture(w, c, maxPending))
  {
    var v := Capture(w, c, maxPending);
    assert forall m: nat :: m < |w.chunks| ==> v.fates[m] == w.fates[m] && v.chunks[m] == w.chunks[m];
  }

  /** A slot takes the fate of a newly recorded (or too short) gap; all other gap fates stay. */
  lemma GapAdded(w: Runtime, v: Runtime, n: nat)
    requires Ready(w) && Ready(v) && TablesStand(w) && FatesStand(w) && w.sid == v.sid && n < |v.fates|
    requires |w.fates| <= |v.fates| <= |w.fates| + 1 && (n == |w.fates| || n < |w.fates| == |v.fates|)
    requires forall m: nat :: m < |w.fates| && m != n ==> v.fates[m] == w.fates[m]
    requires n < |w.fates| ==> w.fates[n].Waiting?
    requires SameRows(w.store.rows, v.store.rows)
    requires v.fates[n].FailedGap? || v.fates[n].DroppedGap?
    requires if GapOfFate(v.fates[n]).Some?
      then GapOfFate(v.fates[n]) == Some(|w.store.gaps|) && |v.store.gaps| == |w.store.gaps| + 1
        && w.store.gaps <= v.store.gaps
      else v.store.gaps == w.store.gaps
    ensures TablesStand(v)
  {
    forall i: nat | OwnGap(v, i)
      ensures exists m: nat :: SlotOfGap(v, m, i)
    {
      if i < |w.store.gaps| {
        assert w.store.gaps[i] == v.store.gaps[i] && OwnGap(w, i);
        var m: nat :| SlotOfGap(w, m, i);
        assert SlotOfGap(v, m, i);
      } else {
        assert SlotOfGap(v, n, i);
      }
    }
    assert forall m: nat :: m < |w.fates| && GapOfFate(w.fates[m]).Some? ==>
        GapOfFate(w.fates[m]).value < |w.store.gaps|;
    forall x | Of(v.store.rows, v.sid, x)
      ensures Seg(v.store.rows, x).seqNo < |v.fates| && RowOfFate(v.fates[Seg(v.store.rows, x).seqNo]) == Some(x)
    {
      assert Of(w.store.rows, w.sid, x);
    }
  }

  lemma TakenKeeps(w: Runtime, maxPending: nat)
    requires Accounted(w)
    ensures Accounted(Handle(w, Taken, maxPending))
  {
    var v := Handle(w, Taken, maxPending);
    if v != w {
      assert forall n :: n in w.queue <==> n == w.queue[0] || n in v.queue;
      assert forall n :: n in v.queue ==> w.queue[0] < n;
      forall i: nat | OwnGap(v, i)
        ensures exists m: nat :: SlotOfGap(v, m, i)
      {
        assert OwnGap(w, i);
        var m: nat :| SlotOfGap(w, m, i);
        assert SlotOfGap(v, m, i);
      }
    }
  }

  lemma FinishedOne(fates: seq<Fate>, n: nat, f: Fate)
    requires n < |fates| && fates[n].Waiting? && Finishes(f)
    ensures FinishedSlots(fates[n := f]) == FinishedSlots(fates) + {n} && n !in FinishedSlots(fates)
  {
  }

  lemma {:induction false} FinishKeeps(w: Runtime, n: nat, r: Transcript)
    requires Accounted(w) && w.busy == Some(n)
    ensures Accounted(Finish(w, n, r))
  {
    hide MaxPub, FindStaged, FindClash, Drain, FatesStand, TablesStand, OrderInv, Persist, Complete, RecordGap, Valid;
    var v := Finish(w, n, r);
    assert w.fates[n].Waiting? by { assert Pending(w, n); }
    FinishedOne(w.fates, n, v.fates[n]);
    SlotLeavesQueue(w, v, n);
    FinishRows(w, n, r);
    if !w.faulted { FinishOrder(w, n, r); }
    FinishTables(w, n, r);
  }

  /** The chunk in flight is settled; the queue is as it was. */
  lemma SlotLeavesQueue(w: Runtime, v: Runtime, n: nat)
    requires QueueOk(w) && w.busy == Some(n) && v.queue == w.queue && v.chunks == w.chunks && v.busy.None?
    requires n < |v.fates| == |w.fates|
    requires v.fates == w.fates[n := v.fates[n]] && !v.fates[n].Waiting?
    ensures QueueOk(v)
  {
    forall m: nat | m < |v.fates| ensures v.fates[m].Waiting? <==> Pending(v, m) {
      if m != n {
        assert Pending(w, m) <==> Pending(v, m);
      } else {
        assert n !in w.queue;
      }
    }
  }

  lemma FinishRows(w: Runtime, n: nat, r: Transcript)
    requires Ready(w) && Valid(w.store.rows) && n < |w.fates|
    ensures Valid(Finish(w, n, r).store.rows)
  {
    hide Valid, Persist, Complete;
    match r
    case Failure =>
      ApplyKeeps(RecordGap(w.store, GapOf(w, w.chunks[n], FAIL_REASON)), OpComplete(w.sid, n, Some(w.chunks[n].end)));
    case Silence => ApplyKeeps(w.store, OpComplete(w.sid, n, Some(w.chunks[n].end)));
    case Speech(text) => ApplyKeeps(w.store, OpPersist(DraftOf(w, n, text)));
  }

  lemma {:induction false} FinishOrder(w: Runtime, n: nat, r: Transcript)
    requires Accounted(w) && !w.faulted && n < |w.fates| && w.fates[n].Waiting?
    ensures OrderInv(Finish(w, n, r).store, Open(FinishedSlots(w.fates) + {n}), w.sid, w.feed)
  {
    hide OrderInv, Persist, Complete, FatesStand, TablesStand, Valid;
    var p, c := Open(FinishedSlots(w.fates)), w.chunks[n];
    match r
    case Failure =>
      OpenStepKeeps(w.store, p, OpGap(GapOf(w, c, FAIL_REASON)), w.sid, w.feed);
      var s := RecordGap(w.store, GapOf(w, c, FAIL_REASON));
      OpenStepKeeps(s, p, OpComplete(w.sid, n, Some(c.end)), w.sid, w.feed);
    case Silence =>
      OpenStepKeeps(w.store, p, OpComplete(w.sid, n, Some(c.end)), w.sid, w.feed);
    case Speech(text) =>
      OpenStepKeeps(w.store, p, OpPersist(DraftOf(w, n, text)), w.sid, w.feed);
  }

  lemma FinishTables(w: Runtime, n: nat, r: Transcript)
    requires Ready(w) && FatesStand(w) && TablesStand(w) && n < |w.fates| && w.fates[n].Waiting?
    ensures FatesStand(Finish(w, n, r)) && TablesStand(Finish(w, n, r))
  {
    match r
    case Failure => FailureTables(w, n);
    case Silence => SilenceTables(w, n);
    case Speech(text) =>
      hide FatesStand, TablesStand, Persist, FindClash;
      PersistTables(w.store, DraftOf(w, n, text));
      SpeechFates(w, n, text);
      SlotSettled(w, Finish(w, n, Speech(text)), n);
  }

  lemma FailureTables(w: Runtime, n: nat)
    requires Ready(w) && FatesStand(w) && TablesStand(w) && n < |w.fates| && w.fates[n].Waiting?
    ensures FatesStand(Finish(w, n, Failure)) && TablesStand(Finish(w, n, Failure))
  {
    hide MaxPub, Drain, FindStaged;
    var v := Finish(w, n, Failure);
    CompleteTables(RecordGap(w.store, GapOf(w, w.chunks[n], FAIL_REASON)), w.sid, n, Some(w.chunks[n].end));
    GapAdded(w, v, n);
    hide FatesStand;
    FatesCarry(w, v, n);
  }

  lemma SilenceTables(w: Runtime, n: nat)
    requires Ready(w) && FatesStand(w) && TablesStand(w) && n < |w.fates| && w.fates[n].Waiting?
    ensures FatesStand(Finish(w, n, Silence)) && TablesStand(Finish(w, n, Silence))
  {
    hide MaxPub, Drain, FindStaged;
    var v := Finish(w, n, Silence);
    CompleteTables(w.store, w.sid, n, Some(w.chunks[n].end));
    SlotSettled(w, v, n);
    assert forall m: nat :: m < |w.fates| && m != n ==> v.fates[m] == w.fates[m];
  }

  /** What persisting a speech chunk does to the rows: the new row, if any, is last. */
  lemma SpeechRows(w: Runtime, n: nat, text: string)
    requires n < |w.fates| == |w.chunks|
    ensures var (a, b, k) := (w.store.rows, Finish(w, n, Speech(text)).store.rows, |w.store.rows|);
      && |a| <= |b|
      && (forall x :: Live(b, x) && x < k ==> Live(a, x) && Seg(b, x) == Seg(a, x))
      && (forall x :: Live(b, x) && x >= k ==>
            x == k && Seg(b, x) == DraftOf(w, n, text) && FindClash(a, DraftOf(w, n, text)).None?)
      && (FindClash(a, DraftOf(w, n, text)).None? ==> Live(b, k))
    ensures Finish(w, n, Speech(text)).store.gaps == w.store.gaps
  {
    hide MaxPub, FindStaged, FindClash, Drain;
    var d, k := DraftOf(w, n, text), |w.store.rows|;
    PersistTables(w.store, d);
    if FindClash(w.store.rows, d).None? {
      var m := Stage(w.store, d).rows;
      assert forall x :: Live(m, x) && x != k ==> Live(w.store.rows, x) && m[x] == w.store.rows[x];
      assert Seg(m, k) == d;
    }
  }

  lemma SpeechFates(w: Runtime, n: nat, text: string)
    requires Ready(w) && FatesStand(w) && TablesStand(w) && n < |w.fates| && w.fates[n].Waiting?
    ensures FatesStand(Finish(w, n, Speech(text)))
    ensures var v := Finish(w, n, Speech(text)); forall x :: Of(v.store.rows, w.sid, x) ==>
      || (RowOfFate(v.fates[n]) == Some(x) && Seg(v.store.rows, x).seqNo == n)
      || (Of(w.store.rows, w.sid, x) && Seg(v.store.rows, x) == Seg(w.store.rows, x))
  {
    hide MaxPub, FindStaged, FindClash, Drain, Persist;
    SpeechRows(w, n, text);
    var v := Finish(w, n, Speech(text));
    assert forall m: nat :: m < |v.fates| && m != n ==> v.fates[m] == w.fates[m];
    var clash := FindClash(w.store.rows, DraftOf(w, n, text));
    if clash.Some? {
      assert Live(w.store.rows, clash.value) && Clashes(w.store.rows[clash.value].value, DraftOf(w, n, text));
      assert !(Of(w.store.rows, w.sid, clash.value) && Seg(w.store.rows, clash.value).seqNo == n);
    }
  }

  /** A slot settled without a gap keeps the table account. */
  lemma SlotSettled(w: Runtime, v: Runtime, n: nat)
    requires Ready(w) && Ready(v) && TablesStand(w) && w.sid == v.sid && n < |w.fates| == |v.fates|
    requires forall m: nat :: m < |w.fates| && m != n ==> v.fates[m] == w.fates[m]
    requires w.fates[n].Waiting? && GapOfFate(v.fates[n]).None? && v.store.gaps == w.store.gaps
    requires forall x :: Of(v.store.rows, w.sid, x) ==>
      || (RowOfFate(v.fates[n]) == Some(x) && Seg(v.store.rows, x).seqNo == n)
      || (Of(w.store.rows, w.sid, x) && Seg(v.store.rows, x) == Seg(w.store.rows, x))
    ensures TablesStand(v)
  {
    forall i: nat | OwnGap(v, i)
      ensures exists m: nat :: SlotOfGap(v, m, i)
    {
      assert OwnGap(w, i);
      var m: nat :| SlotOfGap(w, m, i);
      assert SlotOfGap(v, m, i);
    }
  }

  // ------------------------------------------------------------------ faults

  /** Recording the gap of a dropped chunk may fail: the slot is lost, the tables stay. */
  lemma LostDropKeeps(w: Runtime, c: Chunk, maxPending: nat)
    requires Accounted(w) && |w.queue| >= maxPending
    ensures Accounted(Handle(w, CapturedUnrecorded(c), maxPending))
  {
    hide MaxPub, FindClash, OrderInv, Valid;
    var v := Handle(w, CapturedUnrecorded(c), maxPending);
    assert FinishedSlots(v.fates) == FinishedSlots(w.fates);
    assert forall m: nat :: m < |w.chunks| ==> (Pending(v, m) <==> Pending(w, m));
    assert forall m: nat :: m < |w.chunks| ==> v.fates[m] == w.fates[m] && v.chunks[m] == w.chunks[m];
    forall i: nat | OwnGap(v, i) ensures exists m: nat :: SlotOfGap(v, m, i) {
      assert OwnGap(w, i);
      var m: nat :| SlotOfGap(w, m, i);
      assert SlotOfGap(v, m, i);
    }
  }

  lemma FaultyKeeps(w: Runtime, n: nat, e: Event)
    requires Accounted(w) && w.busy == Some(n) && e.FinishedFaulty?
    ensures Accounted(FinishFaulty(w, n, e))
  {
    hide MaxPub, FindStaged, FindClash, Drain, FatesStand, TablesStand, OrderInv, Complete, RecordGap, Valid;
    var v := FinishFaulty(w, n, e);
    assert w.fates[n].Waiting? by { assert Pending(w, n); }
    SlotLeavesQueue(w, v, n);
    match e.result
    case Failure => FaultyFailure(w, n, e);
    case Silence => FaultySilence(w, n, e);
    case Speech(text) => FaultySpeech(w, n, e, text);
  }

  lemma FaultyFailure(w: Runtime, n: nat, e: Event)
    requires Ready(w) && FatesStand(w) && TablesStand(w) && Valid(w.store.rows)
    requires n < |w.fates| && w.fates[n].Waiting? && e.FinishedFaulty? && e.result == Failure
    ensures var v := FinishFaulty(w, n, e); FatesStand(v) && TablesStand(v) && Valid(v.store.rows)
  {
    hide MaxPub, Drain, FindStaged, Valid, Complete, TablesStand;
    var v, end := FinishFaulty(w, n, e), Some(w.chunks[n].end);
    CompleteTables(w.store, w.sid, n, end);
    ApplyKeeps(w.store, OpComplete(w.sid, n, end));
    if e.fault.Second? {
      GapAdded(w, v, n);
    } else {
      SlotSettled(w, v, n);
    }
    hide FatesStand;
    FatesCarry(w, v, n);
  }

  lemma FaultySilence(w: Runtime, n: nat, e: Event)
    requires Ready(w) && FatesStand(w) && TablesStand(w) && Valid(w.store.rows)
    requires n < |w.fates| && w.fates[n].Waiting? && e.FinishedFaulty? && e.result == Silence
    ensures var v := FinishFaulty(w, n, e); FatesStand(v) && TablesStand(v) && Valid(v.store.rows)
  {
    hide Valid;
    var v := FinishFaulty(w, n, e);
    SlotSettled(w, v, n);
    assert forall m: nat :: m < |w.fates| && m != n ==> v.fates[m] == w.fates[m];
  }

  lemma FaultySpeech(w: Runtime, n: nat, e: Event, text: string)
    requires Ready(w) && FatesStand(w) && TablesStand(w) && Valid(w.store.rows)
    requires n < |w.fates| && w.fates[n].Waiting? && e.FinishedFaulty? && e.result == Speech(text)
    ensures var v := FinishFaulty(w, n, e); FatesStand(v) && TablesStand(v) && Valid(v.store.rows)
  {
    hide MaxPub, FindClash, Valid, FatesStand, TablesStand, Clashes;
    var v := FinishFaulty(w, n, e);
    ApplyKeeps(w.store, OpStage(DraftOf(w, n, text)));
    assert forall m: nat :: m < |v.fates| && m != n ==> v.fates[m] == w.fates[m];
    FaultySpeechRows(w, n, e, text);
    SlotSettled(w, v, n);
    FaultySpeechFates(w, n, e, text);
  }

  lemma FaultySpeechRows(w: Runtime, n: nat, e: Event, text: string)
    requires Ready(w) && n < |w.fates| && e.FinishedFaulty? && e.result == Speech(text)
    ensures var (a, v, k) := (w.store.rows, FinishFaulty(w, n, e), |w.store.rows|);
      && |a| <= |v.store.rows| && v.store.gaps == w.store.gaps
      && (forall x :: Live(v.store.rows, x) && x != k ==> Live(a, x) && v.store.rows[x] == a[x])
      && (Live(v.store.rows, k) ==> v.fates[n] == Stranded(k) && Seg(v.store.rows, k) == DraftOf(w, n, text))
      && (v.fates[n].Stranded? ==> v.fates[n].row == k < |v.store.rows|)
  {
    hide FindClash;
  }

  lemma FaultySpeechFates(w: Runtime, n: nat, e: Event, text: string)
    requires Ready(w) && FatesStand(w) && TablesStand(w)
    requires n < |w.fates| && w.fates[n].Waiting? && e.FinishedFaulty? && e.result == Speech(text)
    ensures FatesStand(FinishFaulty(w, n, e))
  {
    hide MaxPub, FindClash, TablesStand, Inserted, FatesStand;
    var v := FinishFaulty(w, n, e);
    FaultySpeechRows(w, n, e, text);
    OwnSlotFree(w, n);
    var clash := FindClash(w.store.rows, DraftOf(w, n, text));
    assert clash.Some? ==> Clashes(w.store.rows[clash.value].value, DraftOf(w, n, text));
    FatesCarry(w, v, n);
  }

  /** Fates stand as long as rows and gaps stay, with the one just settled. */
  lemma FatesCarry(w: Runtime, v: Runtime, n: nat)
    requires Ready(w) && Ready(v) && FatesStand(w) && v.sid == w.sid && v.feed == w.feed && v.chunks == w.chunks
    requires n < |w.fates| == |v.fates| && forall m: nat :: m < |v.fates| && m != n ==> v.fates[m] == w.fates[m]
    requires |w.store.rows| <= |v.store.rows| && w.store.gaps <= v.store.gaps
    requires forall x :: Live(v.store.rows, x) && x < |w.store.rows| ==>
      Live(w.store.rows, x) && Seg(v.store.rows, x) == Seg(w.store.rows, x)
    requires match v.fates[n]
      case Stranded(id) => RowStands(v, id, n)
      case Duplicate(id) => TwinStands(v, id, n)
      case FailedGap(g) => GapStands(v, g, v.chunks[n], "asr_failure")
      case Lost => true
      case _ => false
    ensures FatesStand(v)
  {
  }

  /** No row carries the slot of a chunk in flight. */
  lemma OwnSlotFree(w: Runtime, n: nat)
    requires Ready(w) && TablesStand(w) && n < |w.fates| && w.fates[n].Waiting?
    ensures forall x :: !(Of(w.store.rows, w.sid, x) && Seg(w.store.rows, x).seqNo == n)
  {
  }

  lemma HandleKeeps(w: Runtime, e: Event, maxPending: nat)
    requires Accounted(w) && EventOk(e)
    ensures Accounted(Handle(w, e, maxPending))
  {
    hide MaxPub, FindStaged, FindClash, Drain, Finish, FinishFaulty, Capture, OrderInv, FatesStand, TablesStand, Valid;
    match e
    case Captured(c) => CaptureKeeps(w, c, maxPending);
    case Taken => TakenKeeps(w, maxPending);
    case Finished(r) => if w.busy.Some? { FinishKeeps(w, w.busy.value, r); }
    case CapturedUnrecorded(c) =>
      if |w.queue| < maxPending { CaptureKeeps(w, c, maxPending); } else { LostDropKeeps(w, c, maxPending); }
    case FinishedFaulty(_, _, _, _) => if w.busy.Some? { FaultyKeeps(w, w.busy.value, e); }
    case Disconnected(a, b, reason) =>
      ElsewhereKeeps(w, OpGap(Gap(w.feed, w.sid, a, b, reason)));
      TablesMove(w, Handle(w, e, maxPending));
    case Retention(a, t) =>
      ElsewhereKeeps(w, OpSweep(a, t));
      TablesMove(w, Handle(w, e, maxPending));
  }

  lemma ElsewhereKeeps(w: Runtime, op: Op)
    requires Accounted(w) && (op.OpGap? || op.OpSweep?)
    ensures Valid(Apply(w.store, op).rows)
    ensures !w.faulted ==> OrderInv(Apply(w.store, op), Open(FinishedSlots(w.fates)), w.sid, w.feed)
  {
    hide OrderInv, Apply, QueueOk, FatesStand, TablesStand;
    ApplyKeeps(w.store, op);
    if !w.faulted {
      OpenStepKeeps(w.store, Open(FinishedSlots(w.fates)), op, w.sid, w.feed);
    }
  }

  lemma {:induction false} HandlingKeeps(w: Runtime, es: seq<Event>, maxPending: nat)
    requires Accounted(w) && forall i :: 0 <= i < |es| ==> EventOk(es[i])
    ensures Accounted(Handling(w, es, maxPending))
    decreases es
  {
    if es != [] {
      HandleKeeps(w, es[0], maxPending);
      HandlingKeeps(Handle(w, es[0], maxPending), es[1..], maxPending);
    }
  }

  /** A sound store and a fresh session id: no session, row or gap mentions it yet. */
  ghost predicate FreshSession(s: Store, sid: string) {
    && Valid(s.rows)
    && !HasSession(s, sid)
    && (forall x :: !Of(s.rows, sid, x))
    && (forall i :: 0 <= i < |s.gaps| ==> s.gaps[i].session != sid)
  }

  lemma {:induction false} BeginAccounted(s: Store, sid: string, feed: string, at: int)
    requires FreshSession(s, sid)
    ensures Accounted(Begin(s, sid, feed, at))
  {
    OpenStepKeeps(s, Idle, OpStart(sid, feed, at), sid, feed);
    var w := Begin(s, sid, feed, at);
    assert FinishedSlots(w.fates) == {};
    assert forall x :: !Of(w.store.rows, sid, x) by {
      FlushElsewhere(s.rows, OfFeed(feed), sid);
    }
  }

  /** No row is published above a slot that is waiting, dropped or lost. */
  ghost predicate NothingAbove(w: Runtime) {
    forall n: nat, x | n < |w.fates| && Of(w.store.rows, w.sid, x) ::
      !Finishes(w.fates[n]) && Published(w.store.rows, x) ==> Seg(w.store.rows, x).seqNo < n
  }

  /** Coverage accounting. After any run of a worker, storage faults included, every sequence number that
      capture allocated has exactly one fate, and the tables agree with it in both directions:
      a stored or stranded slot has its row (until retention deletes it) and every row of the session is
      some slot's; a duplicate names the stored row with the same identity; failed and dropped
      chunks longer than 50 ms have their own gap row and every such gap row is some slot's; a lost
      slot has neither; and the rest are exactly the chunks still queued or in flight. The close publishes
      every row. Without a fault rows are published in slot order, and none above an unfinished slot. */
  lemma {:induction false} CoverageAccounted(s: Store, sid: string, feed: string, at: int, es: seq<Event>,
                                             maxPending: nat, stop: int)
    requires FreshSession(s, sid) && forall i :: 0 <= i < |es| ==> EventOk(es[i])
    ensures var w := Handling(Begin(s, sid, feed, at), es, maxPending);
      && |w.fates| == |w.chunks| && |w.queue| <= maxPending
      && FatesStand(w)
      && TablesStand(w)
      && (forall n: nat :: n < |w.fates| ==> (w.fates[n].Waiting? <==> n in w.queue || w.busy == Some(n)))
      && (forall x :: Of(w.store.rows, sid, x) ==> Published(Close(w.store, sid, stop).rows, x))
      && (!w.faulted ==> CursorsFollowSlots(w.store.rows, sid))
      && (!w.faulted ==> NothingAbove(w))
  {
    hide MaxPub;
    BeginAccounted(s, sid, feed, at);
    HandlingKeeps(Begin(s, sid, feed, at), es, maxPending);
    QueueBounded(Begin(s, sid, feed, at), es, maxPending);
    var w := Handling(Begin(s, sid, feed, at), es, maxPending);
    ClosePublishesSession(w.store, sid, stop);
    if !w.faulted {
      assert forall n: nat :: n < |w.fates| && !Finishes(w.fates[n]) ==> n !in FinishedSlots(w.fates);
    }
  }

  /** The draft repeats the audio of a live row, or its segment id. */
  ghost predicate Repeated(rows: Table, x: int, d: Draft) {
    Live(rows, x) &&
    (Seg(rows, x).segmentId == d.segmentId
     || (Seg(rows, x).feed == d.feed && Seg(rows, x).start == d.start && Seg(rows, x).end == d.end
         && Seg(rows, x).sha.Some? && Seg(rows, x).sha == d.sha))
  }

  /** A speech chunk gets a row of its own exactly when no live row of any session repeats its
      audio: a run of the worker never meets its own slot already taken. */
  lemma {:induction false} SpeechStoredUnlessRepeated(w: Runtime, n: nat, text: string)
    requires Accounted(w) && w.busy == Some(n)
    ensures Finish(w, n, Speech(text)).fates[n].Stored? <==> forall x :: !Repeated(w.store.rows, x, DraftOf(w, n, text))
    ensures Finish(w, n, Speech(text)).fates[n].Stored? <==>
        Finish(w, n, Speech(text)).fates[n] == Stored(|w.store.rows|)
  {
    hide MaxPub, FindStaged, Persist;
    var d := DraftOf(w, n, text);
    assert w.fates[n].Waiting?;
    forall x | Live(w.store.rows, x) && Clashes(w.store.rows[x].value, d) ensures Repeated(w.store.rows, x, d) {
      assert !(Of(w.store.rows, w.sid, x) && Seg(w.store.rows, x).seqNo == n);
    }
    if FindClash(w.store.rows, d).Some? {
      assert Repeated(w.store.rows, FindClash(w.store.rows, d).value, d);
    }
  }

  /** Two chunks with the same stamps and the same audio: the second slot ends as none of stored row,
      non-speech, failure gap or back-pressure gap. */
  lemma {:induction false} RepeatedAudioHasNoRow(sid: string, feed: string, a: string, b: string, maxPending: nat)
    requires maxPending >= 2
    ensures var es := [Captured(Chunk(a, 0, 60_000_000, "sha", true)), Captured(Chunk(b, 0, 60_000_000, "sha", true)),
                       Taken, Finished(Speech("x")), Taken, Finished(Speech("x"))];
      Handling(Begin(EMPTY_STORE, sid, feed, 0), es, maxPending).fates == [Stored(0), Duplicate(0)]
  {
    hide MaxPub, PublishAll, Drain, Persist, FindStaged, FindClash, Start;
    var w0 := Begin(EMPTY_STORE, sid, feed, 0);
    var c, k := Chunk(a, 0, 60_000_000, "sha", true), Chunk(b, 0, 60_000_000, "sha", true);
    BeginAccounted(EMPTY_STORE, sid, feed, 0);
    assert |w0.store.rows| == 0 by { RecoveryPublishesFeed(EMPTY_STORE, sid, feed, 0); }
    var w2 := Capture(Capture(w0, c, maxPending), k, maxPending);
    assert w2 == w0.(chunks := [c, k], queue := [0, 1], fates := [Waiting, Waiting]);
    var w3 := w2.(busy := Some(0), queue := [1]);
    assert Handle(w2, Taken, maxPending) == w3;
    var w4 := Finish(w3, 0, Speech("x"));
    SpeechRows(w3, 0, "x");
    assert Live(w4.store.rows, 0) && Seg(w4.store.rows, 0) == DraftOf(w3, 0, "x");
    assert w4.fates == [Stored(0), Waiting];
    var w5 := w4.(busy := Some(1), queue := []);
    assert Handle(w4, Taken, maxPending) == w5;
    SecondIsDuplicate(w5, c, k);
    SixTurns(w0, w2, w3, w4, w5, c, k, maxPending);
  }

  lemma SecondIsDuplicate(w: Runtime, c: Chunk, k: Chunk)
    requires w.chunks == [c, k] && w.fates == [Stored(0), Waiting]
    requires c.start == k.start && c.end == k.end && c.sha == k.sha
    requires Live(w.store.rows, 0) && forall x :: Live(w.store.rows, x) ==> x == 0
    requires Seg(w.store.rows, 0).feed == w.feed && Seg(w.store.rows, 0).start == c.start
      && Seg(w.store.rows, 0).end == c.end
    requires Seg(w.store.rows, 0).sha == Some(c.sha)
    ensures Finish(w, 1, Speech("x")).fates == [Stored(0), Duplicate(0)]
  {
    hide Persist;
    assert Clashes(w.store.rows[0].value, DraftOf(w, 1, "x"));
    var r := FindClash(w.store.rows, DraftOf(w, 1, "x"));
    assert r.Some? && Live(w.store.rows, r.value);
  }

  lemma SixTurns(w0: Runtime, w2: Runtime, w3: Runtime, w4: Runtime, w5: Runtime, c: Chunk, k: Chunk, maxPending: nat)
    requires Ready(w0) && w2 == Capture(Capture(w0, c, maxPending), k, maxPending) && Ready(w2)
    requires w3 == Handle(w2, Taken, maxPending) && Ready(w3)
    requires w4 == Handle(w3, Finished(Speech("x")), maxPending) && Ready(w4)
    requires w5 == Handle(w4, Taken, maxPending) && Ready(w5)
    ensures Handling(w0, [Captured(c), Captured(k), Taken, Finished(Speech("x")), Taken, Finished(Speech("x"))],
                     maxPending)
         == Handle(w5, Finished(Speech("x")), maxPending)
  {
    hide Finish;
    var es := [Captured(c), Captured(k), Taken, Finished(Speech("x")), Taken, Finished(Speech("x"))];
    HandlingStep(w0, es, maxPending);
    HandlingStep(Capture(w0, c, maxPending), es[1..], maxPending);
    HandlingStep(w2, es[2..], maxPending);
    HandlingStep(w3, es[3..], maxPending);
    HandlingStep(w4, es[4..], maxPending);
    HandlingStep(w5, es[5..], maxPending);
  }

  lemma HandlingStep(w: Runtime, es: seq<Event>, maxPending: nat)
    requires Ready(w) && es != []
    ensures Ready(Handle(w, es[0], maxPending))
      && Handling(w, es, maxPending) == Handling(Handle(w, es[0], maxPending), es[1..], maxPending)
    ensures |es| == 1 ==> Handling(w, es, maxPending) == Handle(w, es[0], maxPending)
  {
    HandleReady(w, es[0], maxPending);
  }

  /** After stop() has drained the queue, no slot is waiting and the close publishes every row, without a
      fault in slot order. */
  lemma {:induction false} StoppedAccounted(w: Runtime, at: int)
    requires Accounted(w) && w.queue == [] && w.busy.None?
    ensures forall n: nat :: n < |w.fates| ==> !w.fates[n].Waiting?
    ensures forall x :: Of(Close(w.store, w.sid, at).rows, w.sid, x) ==> Published(Close(w.store, w.sid, at).rows, x)
    ensures !w.faulted ==> CursorsFollowSlots(Close(w.store, w.sid, at).rows, w.sid)
  {
    forall n: nat | n < |w.fates| ensures !w.fates[n].Waiting? {
      assert !Pending(w, n);
    }
    ClosePublishesSession(w.store, w.sid, at);
    if !w.faulted {
      StepKeepsOrder(w.store, Open(FinishedSlots(w.fates)), OpClose(w.sid, at), w.sid, w.feed);
    }
  }

  /** If stop() gives up waiting and closes the session first, and the store stays open, the closed session's
      window starts over. After any further operations a chunk that finishes as new speech is inserted,
      and published at once exactly if its slot has not been completed since the close and every slot below
      it has. */
  lemma {:induction false} LateChunkAfterClose(s: Store, d: Draft, at: int, late: seq<Op>)
    requires Valid(s.rows) && forall i :: 0 <= i < |late| ==> KeepsWindow(late[i], d.session)
    requires FindClash(Run(Close(s, d.session, at), late).rows, d).None?
    ensures var c, slots := Run(Close(s, d.session, at), late), CompletedIn(late, d.session);
      var r, k := Persist(c, d).rows, |c.rows|;
      && |r| == k + 1 && Live(r, k) && Seg(r, k) == d
      && (Published(r, k) <==> d.seqNo !in slots && forall n: nat :: n < d.seqNo ==> n in slots)
  {
    hide MaxPub, PublishAll, Staged, Valid, Run, FindClash, Persist;
    var c := Close(s, d.session, at);
    ApplyKeeps(s, OpClose(d.session, at));
    RunKeeps(c, late);
    WindowFollowsCompletions(c, {}, late, d.session);
    assert {} + CompletedIn(late, d.session) == CompletedIn(late, d.session);
    PublishedAtOnceIff(Run(c, late), CompletedIn(late, d.session), d);
  }

  /** What can still happen to the worker once its store is closed: every call of the store fails and leaves
      the window in memory alone. */
  ghost predicate StoreRefuses(s: Store, e: Event) {
    match e
    case Taken => true
    case CapturedUnrecorded(_) => true
    case FinishedFaulty(_, fault, done, next) => fault.Both? && done == s.done && next == s.next
    case _ => false
  }

  /** stop() closes the store it owns right after the session. A chunk that finishes later is lost: the store
      stays as it is, and no slot that was waiting or is captured then gets a row, a gap or a completion. */
  lemma {:induction false} ClosedStoreLosesChunks(w: Runtime, es: seq<Event>, maxPending: nat)
    requires Accounted(w) && forall i :: 0 <= i < |es| ==> StoreRefuses(w.store, es[i])
    ensures var v := Handling(w, es, maxPending);
      && v.store == w.store && |v.fates| >= |w.fates|
      && forall n: nat :: n < |v.fates| ==>
           if n < |w.fates| && !w.fates[n].Waiting? then v.fates[n] == w.fates[n]
           else v.fates[n].Lost? || (v.fates[n].Waiting? && Pending(v, n))
    decreases es
  {
    hide MaxPub, FindStaged, FindClash, Drain, OrderInv, FatesStand, TablesStand, Valid, Persist, Complete, RecordGap;
    if es != [] {
      HandleKeeps(w, es[0], maxPending);
      RefusedStep(w, es[0], maxPending);
      ClosedStoreLosesChunks(Handle(w, es[0], maxPending), es[1..], maxPending);
    }
  }

  lemma RefusedStep(w: Runtime, e: Event, maxPending: nat)
    requires QueueOk(w) && StoreRefuses(w.store, e)
    ensures var v := Handle(w, e, maxPending);
      && v.store == w.store && |v.fates| >= |w.fates|
      && forall n: nat :: n < |v.fates| ==>
           if n < |w.fates| && !w.fates[n].Waiting? then v.fates[n] == w.fates[n]
           else v.fates[n].Lost? || v.fates[n].Waiting?
  {
    hide FindClash, Complete, RecordGap;
    if e.FinishedFaulty? && w.busy.Some? {
      assert Pending(w, w.busy.value);
    }
  }
}
