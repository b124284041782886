/** The store as the object it is: five fields that its methods update in place. Each method is
    proved to take the state to what the corresponding function of StoreModel says. */
module ScannerStores {
  import opened Common
  import opened StoreModel
  import opened StoreRuns
  import opened StoreEffects
  import opened Polling

  datatype StorageError = SessionExists

  /** The rows published on the way from `a` to `b`, listed in cursor order. */
  ghost predicate ListsNew(a: Table, b: Table, ids: seq<nat>) {
    && (forall i :: 0 <= i < |ids| ==> Published(b, ids[i]) && !Published(a, ids[i]))
    && (forall x :: Published(b, x) && !Published(a, x) ==> x in ids)
    && (forall i, j :: 0 <= i < j < |ids| ==> Cursor(b, ids[i]) < Cursor(b, ids[j]))
  }

  function CountLive(rows: Table): nat {
    if rows == [] then 0 else CountLive(rows[..|rows| - 1]) + if rows[|rows| - 1].Some? then 1 else 0
  }

  /** Rows whose private audio the sweep purges: retained, and past the audio cutoff. */
  function CountAudio(rows: Table, cutoff: int): nat {
    if rows == [] then 0
    else CountAudio(rows[..|rows| - 1], cutoff) + if ExpiredAudio(rows[|rows| - 1], cutoff) then 1 else 0
  }

  predicate ExpiredAudio(row: Option<Row>, cutoff: int) {
    row.Some? && row.value.audioRetained && row.value.seg.end <= cutoff
  }

  class ScannerStore {
    var rows: Table
    var sessions: seq<Session>
    var gaps: seq<Gap>
    var completed: map<string, set<nat>>
    var nextExpected: map<string, nat>

    function State(): Store
      reads this
    {
      Store(rows, sessions, gaps, completed, nextExpected)
    }

    /** A store over an empty database. */
    constructor ()
      ensures State() == EMPTY_STORE
    {
      rows, sessions, gaps, completed, nextExpected := [], [], [], map[], map[];
    }

    /** A process that opens an existing database: the tables survive, the windows do not. */
    constructor Reopen(rows: Table, sessions: seq<Session>, gaps: seq<Gap>)
      ensures State() == Store(rows, sessions, gaps, map[], map[])
    {
      this.rows, this.sessions, this.gaps, completed, nextExpected := rows, sessions, gaps, map[], map[];
    }

    /** A staged row takes the next cursor; a row that has one, or does not exist, is left alone. */
    method AssignNextPublicationSeq(id: nat)
      modifies this`rows
      ensures rows == Publish(old(rows), id)
      ensures !Unpublished(old(rows), id) ==> rows == old(rows)
      ensures Unpublished(old(rows), id) ==>
        && |rows| == |old(rows)| && Published(rows, id) && Seg(rows, id) == Seg(old(rows), id)
        && Cursor(rows, id) == MaxPub(old(rows)) + 1 == MaxPub(rows)
        && forall x :: 0 <= x < |rows| && x != id ==> rows[x] == old(rows)[x]
    {
      hide MaxPub;
      if Unpublished(rows, id) { PublishOne(rows, id); }
      var nextPub := MaxPub(rows) + 1;
      if Live(rows, id) && rows[id].value.pub.None? {
        rows := rows[id := Some(rows[id].value.(pub := Some(nextPub)))];
      }
    }

    method MarkSequenceReadyLocked(sid: string, n: nat) returns (published: seq<nat>)
      modifies this`rows, this`completed, this`nextExpected
      ensures State() == MarkReady(old(State()), sid, n)
      ensures ListsNew(old(rows), rows, published)
    {
      hide MaxPub, FindStaged, NewSoFar, ListsNew, Publish, Drain;
      ListsNothing(rows);
      var doneSet := (if sid in completed then completed[sid] else {}) + {n};
      var expected := if sid in nextExpected then nextExpected[sid] else 0;
      published := [];
      ghost var w0 := Window(rows, doneSet, expected);
      while expected in doneSet
        invariant Drain(Window(rows, doneSet, expected), sid) == Drain(w0, sid)
        invariant completed == old(completed) && nextExpected == old(nextExpected)
        invariant NewSoFar(old(rows), rows, published)
        decreases |doneSet|
      {
        var staged := FindStaged(rows, sid, expected);
        ghost var before, w := rows, Window(rows, doneSet, expected);
        DrainTurn(w, sid);
        if staged.Some? {
          AssignNextPublicationSeq(staged.value);
          ExtendList(old(rows), before, rows, published, staged.value);
          published := published + [staged.value];
        }
        assert |doneSet - {expected}| < |doneSet|;
        doneSet := doneSet - {expected};
        expected := expected + 1;
        assert Window(rows, doneSet, expected) == Advance(w, sid);
      }
      DrainTurn(Window(rows, doneSet, expected), sid);
      ListedAll(old(rows), rows, published);
      completed := completed[sid := doneSet];
      nextExpected := nextExpected[sid := expected];
    }

    method PersistSegment(d: Draft) returns (row: Row)
      modifies this
      ensures State() == Persist(old(State()), d)
      ensures Some(row) in rows && Clashes(row, d)
      ensures FindClash(old(rows), d).None? ==>
          row.seg == d && Live(rows, |old(rows)|) && rows[|old(rows)|].value == row && row.audioRetained == d.retained
      ensures gaps == old(gaps) && if FindClash(old(rows), d).Some? then sessions == old(sessions)
        else AudioEndMoved(old(sessions), sessions, d.session, d.end)
    {
      SessionsAndGaps(State(), OpPersist(d));
      PersistColumns(State(), d);
      PersistShape(State(), d);
      var existing := FindClash(rows, d);
      var rowId := if existing.Some? then existing.value else |rows|;
      if existing.None? {
        rows := rows + [Some(Row(d, None, d.retained))];
        sessions := WithAudioEnd(sessions, d.session, d.end);
        // First commit. A process that dies here leaves the row staged.
        assert State() == Stage(old(State()), d);
      }
      var _ := MarkSequenceReadyLocked(d.session, d.seqNo);
      row := rows[rowId].value;
    }

    method MarkNonSpeechSequenceComplete(sid: string, n: nat, audioEnd: Option<int>) returns (published: seq<nat>)
      modifies this
      ensures State() == Complete(old(State()), sid, n, audioEnd)
      ensures ListsNew(old(rows), rows, published)
      ensures gaps == old(gaps) && if audioEnd.None? then sessions == old(sessions)
        else AudioEndMoved(old(sessions), sessions, sid, audioEnd.value)
    {
      SessionsAndGaps(State(), OpComplete(sid, n, audioEnd));
      if audioEnd.Some? {
        sessions := WithAudioEnd(sessions, sid, audioEnd.value);
      }
      published := MarkSequenceReadyLocked(sid, n);
    }

    method PublishInOrder(ids: seq<nat>)
      modifies this`rows
      ensures rows == PublishAll(old(rows), ids)
    {
      for i := 0 to |ids|
        invariant PublishAll(rows, ids[i..]) == PublishAll(old(rows), ids)
      {
        assert ids[i..][0] == ids[i] && ids[i..][1..] == ids[i + 1..];
        AssignNextPublicationSeq(ids[i]);
      }
    }

    method FlushSession(sid: string)
      modifies this`rows
      ensures State() == Flush(old(State()), sid)
    {
      PublishInOrder(Staged(rows, OfSession(sid)));
    }

    method CloseSession(sid: string, at: int)
      modifies this
      ensures State() == Close(old(State()), sid, at)
      ensures gaps == old(gaps) && MarkedAs(old(sessions), sessions, sid, Stopped, at)
      ensures sid !in completed && sid !in nextExpected
    {
      SessionsAndGaps(State(), OpClose(sid, at));
      FlushSession(sid);
      sessions := WithStatus(sessions, sid, Stopped, at);
      completed := completed - {sid};
      nextExpected := nextExpected - {sid};
    }

    method RecoverAndStartSession(sid: string, feed: string, at: int) returns (r: Result<nat, StorageError>)
      modifies this
      ensures State() == Start(old(State()), sid, feed, at)
      ensures r.Err? <==> HasSession(old(State()), sid)
      ensures r.Ok? ==> r.value == |Staged(old(rows), OfFeed(feed))|
      ensures r.Err? ==> State() == old(State())
      ensures r.Ok? && UniqueIds(old(sessions)) ==>
        StartedSessions(old(State()), State(), sid, feed, at) && RestartGap(old(State()), State(), sid, feed, at)
    {
      hide UniqueIds, StartedSessions, RestartGap;
      if UniqueIds(sessions) { StartEffect(State(), sid, feed, at); }
      if exists i :: 0 <= i < |sessions| && sessions[i].id == sid {
        return Err(SessionExists);  // the INSERT violates the primary key; everything is rolled back
      }
      var prev := LatestSession(sessions, feed);
      var lastEnd := if prev.Some? then sessions[prev.value].lastAudioEnd else None;
      if prev.Some? && sessions[prev.value].status.Active? {
        sessions := WithStatus(sessions, sessions[prev.value].id, RecoveredAfterCrash, at);
      }
      var unpublished := Staged(rows, OfFeed(feed));
      PublishInOrder(unpublished);
      if lastEnd.Some? && at - lastEnd.value > RESTART_GAP_MICROS {
        gaps := gaps + [Gap(feed, sid, lastEnd.value, at, "worker_restart")];
      }
      sessions := sessions + [Session(sid, feed, at, None, Active, None)];
      completed := completed[sid := {}];
      nextExpected := nextExpected[sid := 0];
      r := Ok(|unpublished|);
    }

    method UpdateSessionAudioProgress(sid: string, audioEnd: int)
      modifies this`sessions
      ensures State() == Apply(old(State()), OpProgress(sid, audioEnd))
      ensures AudioEndMoved(old(sessions), sessions, sid, audioEnd)
    {
      sessions := WithAudioEnd(sessions, sid, audioEnd);
    }

    method RecordCaptureGap(g: Gap) returns (recorded: bool)
      modifies this`gaps
      ensures State() == RecordGap(old(State()), g)
      ensures gaps == if g.end - g.start > 50_000 then old(gaps) + [g] else old(gaps)
      ensures recorded <==> g.end - g.start > 50_000
    {
      recorded := g.end - g.start > GAP_MICROS;
      if recorded {
        gaps := gaps + [g];
      }
    }

    /** One page. After a cursor: exactly the feed's published rows between it and next_cursor, ascending, and
        all there are above it unless has_more. Without one: the newest rows, as many as the limit
        allows, ascending, and next_cursor is the feed's largest. */
    method ListPublishedSegments(feed: string, limit: int, after: Option<int>) returns (page: Page)
      ensures Valid(rows) ==> page == ListPublished(rows, feed, limit, after) && Ascending(page.items)
      ensures Valid(rows) && after.Some? ==>
        && page.next >= after.value
        && (forall it :: it in page.items <==> Holds(rows, feed, it) && after.value < it.cursor <= page.next)
        && (!page.hasMore ==> forall it :: Holds(rows, feed, it) && it.cursor > after.value ==> it in page.items)
      ensures Valid(rows) && after.None? ==>
        && |page.items| == Min(page.total, Clamp(limit))
        && (forall it :: Holds(rows, feed, it) ==> it.cursor <= page.next == page.latest)
        && (page.items != [] ==> forall it :: it in page.items <==>
            Holds(rows, feed, it) && it.cursor >= page.items[0].cursor)
    {
      hide Valid, MaxPub, ListPublished, Ascending, Holds, Min, Clamp;
      if after.Some? {
        page := PageAfter(feed, limit, after.value);
        if Valid(rows) { PageContents(rows, feed, limit, after.value); }
      } else {
        page := NewestPage(feed, limit);
        if Valid(rows) { LatestPageContents(rows, feed, limit); }
      }
    }

    method PageAfter(feed: string, limit: int, c: int) returns (page: Page)
      ensures Valid(rows) ==> page == ListPublished(rows, feed, limit, Some(c))
    {
      hide Valid, MaxPub, ListPublished, PublishedAfter, Ascending, Min, IsLargest, Clamp;
      var clamped := Clamp(limit);
      var selected := PublishedAfter(rows, feed, c, |rows|);
      var fetched := selected[..Min(|selected|, clamped + 1)];
      var hasMore := |fetched| > clamped;
      var sliced := fetched[..Min(|fetched|, clamped)];
      assert sliced == selected[..Min(|selected|, clamped)];
      var all := PublishedAfter(rows, feed, -1, |rows|);
      var latest := LargestCursor(all);
      page := Page(sliced, if sliced != [] then sliced[|sliced| - 1].cursor else c, latest, |all|, hasMore);
      if Valid(rows) { AsListedAfter(rows, feed, limit, c, selected, all, page); }
    }

    method NewestPage(feed: string, limit: int) returns (page: Page)
      ensures Valid(rows) ==> page == ListPublished(rows, feed, limit, None)
    {
      hide Valid, MaxPub, ListPublished, PublishedAfter, Ascending, Reversed, Min, IsLargest, Clamp;
      var clamped := Clamp(limit);
      var all := PublishedAfter(rows, feed, -1, |rows|);
      var newest := Reversed(all);
      var sliced := Reversed(newest[..Min(|newest|, clamped)]);
      LastOnes(all, Min(|all|, clamped));
      var latest := LargestCursor(all);
      page := Page(sliced, if sliced != [] then sliced[|sliced| - 1].cursor else latest, latest, |all|, false);
      if Valid(rows) { AsListedNewest(rows, feed, limit, all, page); }
    }

    /** COALESCE(MAX(published_seq), 0) */
    method LargestCursor(all: seq<Item>) returns (latest: nat)
      ensures Ascending(all) ==> IsLargest(all, latest)
    {
      latest := 0;
      for i := 0 to |all|
        invariant Ascending(all) ==> latest == if i == 0 then 0 else all[i - 1].cursor
      {
        if all[i].cursor > latest {
          latest := all[i].cursor;
        }
      }
    }

    method EnforceRetention(audioSeconds: int, transcriptSeconds: int, now: int)
      returns (purgedAudio: nat, purgedTranscripts: nat)
      modifies this`rows
      ensures State() == Sweep(old(State()), now - Max(0, audioSeconds) * 1_000_000,
                               now - Max(1, transcriptSeconds) * 1_000_000)
      ensures |rows| == |old(rows)| && forall x :: Live(rows, x) <==>
        Live(old(rows), x) && Seg(old(rows), x).end > now - Max(1, transcriptSeconds) * 1_000_000
      ensures forall x :: Live(rows, x) ==>
        && Live(old(rows), x) && Seg(rows, x) == Seg(old(rows), x) && rows[x].value.pub == old(rows)[x].value.pub
        && rows[x].value.audioRetained == (old(rows)[x].value.audioRetained
                                           && Seg(rows, x).end > now - Max(0, audioSeconds) * 1_000_000)
      ensures purgedAudio == CountAudio(old(rows), now - Max(0, audioSeconds) * 1_000_000)
      ensures CountLive(old(rows)) == CountLive(rows) + purgedTranscripts
    {
      hide CountLive, CountAudio;
      SweepEffect(rows, now - Max(0, audioSeconds) * 1_000_000, now - Max(1, transcriptSeconds) * 1_000_000);
      var audioCutoff := now - Max(0, audioSeconds) * 1_000_000;
      var textCutoff := now - Max(1, transcriptSeconds) * 1_000_000;
      purgedAudio := PurgeAudio(audioCutoff);
      purgedTranscripts := DeleteExpired(textCutoff);
      assert rows == SweptRows(old(rows), audioCutoff, textCutoff);
      SameLive(old(rows), PurgedRows(old(rows), audioCutoff));
    }

    /** Step 1 of the sweep: clear the audio reference of rows past the audio cutoff. */
    method PurgeAudio(cutoff: int) returns (n: nat)
      modifies this`rows
      ensures rows == PurgedRows(old(rows), cutoff)
      ensures n == CountAudio(old(rows), cutoff)
    {
      n := 0;
      for i := 0 to |rows|
        invariant |rows| == |old(rows)|
        invariant forall x :: i <= x < |rows| ==> rows[x] == old(rows)[x]
        invariant forall x :: 0 <= x < i ==> rows[x] == PurgedRows(old(rows), cutoff)[x]
        invariant n == CountAudio(old(rows)[..i], cutoff)
      {
        assert old(rows)[..i + 1][..i] == old(rows)[..i];
        if ExpiredAudio(rows[i], cutoff) {
          rows := rows[i := Some(rows[i].value.(audioRetained := false))];
          n := n + 1;
        }
      }
      assert old(rows)[..|rows|] == old(rows);
    }

    /** Step 2 of the sweep: delete rows past the transcript cutoff. */
    method DeleteExpired(cutoff: int) returns (n: nat)
      modifies this`rows
      ensures |rows| == |old(rows)|
      ensures forall x :: 0 <= x < |rows| ==>
        rows[x] == if Live(old(rows), x) && Seg(old(rows), x).end <= cutoff then None else old(rows)[x]
      ensures CountLive(old(rows)) == CountLive(rows) + n
    {
      n := 0;
      for i := 0 to |rows|
        invariant |rows| == |old(rows)|
        invariant forall x :: i <= x < |rows| ==> rows[x] == old(rows)[x]
        invariant forall x :: 0 <= x < i ==>
          rows[x] == if Live(old(rows), x) && Seg(old(rows), x).end <= cutoff then None else old(rows)[x]
        invariant CountLive(old(rows)[..i]) == CountLive(rows[..i]) + n
      {
        ghost var before := rows;
        if Live(rows, i) && rows[i].value.seg.end <= cutoff {
          rows := rows[i := None];
          n := n + 1;
        }
        assert old(rows)[..i + 1][..i] == old(rows)[..i] && rows[..i + 1][..i] == before[..i];
      }
      assert rows[..|rows|] == rows && old(rows)[..|rows|] == old(rows);
    }
  }

  /** ORDER BY ... DESC of rows listed ascending, and back. */
  function Reversed(items: seq<Item>): (r: seq<Item>)
    ensures |r| == |items| && forall i :: 0 <= i < |r| ==> r[i] == items[|items| - 1 - i]
  {
    seq(|items|, i requires 0 <= i < |items| => items[|items| - 1 - i])
  }

  lemma LastOnes(all: seq<Item>, k: nat)
    requires k <= |all|
    ensures Reversed(Reversed(all)[..k]) == all[|all| - k..]
  {
  }

  /** MAX over rows listed ascending. */
  predicate IsLargest(all: seq<Item>, latest: nat) {
    latest == if all == [] then 0 else all[|all| - 1].cursor
  }

  lemma AsListedAfter(rows: Table, feed: string, limit: int, c: int, selected: seq<Item>, all: seq<Item>, page: Page)
    requires selected == PublishedAfter(rows, feed, c, |rows|) && all == PublishedAfter(rows, feed, -1, |rows|)
    requires IsLargest(all, page.latest) && page.total == |all|
    requires page.items == selected[..Min(|selected|, Clamp(limit))] && page.hasMore == (|selected| > Clamp(limit))
    requires page.next == if page.items != [] then page.items[|page.items| - 1].cursor else c
    ensures page == ListPublished(rows, feed, limit, Some(c))
  {
    hide PublishedAfter, Clamp;
  }

  lemma AsListedNewest(rows: Table, feed: string, limit: int, all: seq<Item>, page: Page)
    requires all == PublishedAfter(rows, feed, -1, |rows|)
    requires IsLargest(all, page.latest) && page.total == |all|
    requires page.items == all[|all| - Min(|all|, Clamp(limit))..] && !page.hasMore
    requires page.next == if page.items != [] then page.items[|page.items| - 1].cursor else page.latest
    ensures page == ListPublished(rows, feed, limit, None)
  {
    hide PublishedAfter;
    assert Clamp(limit) > 0;
  }

  function PurgedRows(rows: Table, cutoff: int): Table {
    seq(|rows|, i requires 0 <= i < |rows| =>
      if ExpiredAudio(rows[i], cutoff) then Some(rows[i].value.(audioRetained := false)) else rows[i])
  }

  lemma {:induction false} SameLive(a: Table, b: Table)
    requires |a| == |b| && forall x :: 0 <= x < |a| ==> (a[x].Some? <==> b[x].Some?)
    ensures CountLive(a) == CountLive(b)
  {
    if a != [] {
      SameLive(a[..|a| - 1], b[..|a| - 1]);
    }
  }

  lemma PersistShape(s: Store, d: Draft)
    ensures var r := Persist(s, d).rows;
      var id := if FindClash(s.rows, d).Some? then FindClash(s.rows, d).value else |s.rows|;
      Live(r, id) && Clashes(r[id].value, d) && (FindClash(s.rows, d).None? ==> Seg(r, id) == d)
  {
    var m := if FindClash(s.rows, d).Some? then s else Stage(s, d);
    var id := if FindClash(s.rows, d).Some? then FindClash(s.rows, d).value else |s.rows|;
    assert Live(m.rows, id) && Clashes(m.rows[id].value, d);
    DrainShape(Window(m.rows, DoneOf(m, d.session) + {d.seqNo}, NextOf(m, d.session)), d.session);
  }

  lemma DrainTurn(w: Window, sid: string)
    ensures Drain(w, sid) == if w.expected in w.done then Drain(Advance(w, sid), sid) else w
  {
  }

  /** Midway: nothing was unpublished, and the list ends at the largest cursor at most. */
  ghost predicate NewSoFar(a: Table, b: Table, ids: seq<nat>) {
    && ListsNew(a, b, ids)
    && (forall x :: Published(a, x) ==> Published(b, x))
    && (forall i :: 0 <= i < |ids| ==> Cursor(b, ids[i]) <= MaxPub(b))
  }

  lemma ListsNothing(rows: Table)
    ensures NewSoFar(rows, rows, [])
  {
  }

  lemma ListedAll(a: Table, b: Table, ids: seq<nat>)
    requires NewSoFar(a, b, ids)
    ensures ListsNew(a, b, ids)
  {
  }

  lemma ExtendList(a: Table, b: Table, c: Table, ids: seq<nat>, id: nat)
    requires NewSoFar(a, b, ids) && Unpublished(b, id) && c == Publish(b, id)
    ensures NewSoFar(a, c, ids + [id])
  {
    hide MaxPub, Publish;
    PublishOne(b, id);
    assert forall x :: Published(c, x) && x != id ==> Published(b, x) && Cursor(c, x) == Cursor(b, x);
    assert forall x :: Published(b, x) ==> Published(c, x) && Cursor(c, x) == Cursor(b, x);
    forall x | Published(c, x) && !Published(a, x) ensures x in ids + [id] {
      if x != id {
        assert x in ids;
      }
    }
  }
}
