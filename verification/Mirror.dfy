/** tools/sync_city.py: the crawl queue that survives across runs, the archive ledger (record bytes and
    budget), and the change log. fetch_one of tools/anycity_crawler.py keeps the same ledger.

    What the network answers is an input: one Fetch per attempted page. How URLs are normalised is the
    function `canon`. */
module Mirror {
  import opened Common

  datatype Kind = Html | Document | Unsupported

  datatype Record = Record(sha: string, bytes: nat, links: seq<string>, status: int, checkedAt: int)

  datatype Change = Change(url: string, before: Option<string>, after: string)

  /** The outcome of request(): refused by robots.txt, failed, or answered. `sound` is false for a PDF
      without the PDF signature. */
  datatype Fetch =
    | Denied
    | Failed
    | Answer(status: int, kind: Kind, size: nat, sha: string, links: seq<string>, sound: bool)

  datatype CrawlError = RobotsDenied | RequestFailed | HttpStatus(status: int) | OverBudget | BadSignature

  datatype Ledger = Ledger(records: map<string, Record>, archiveBytes: int, changes: seq<Change>)

  const EMPTY_LEDGER := Ledger(map[], 0, [])

  function ShaOf(records: map<string, Record>, url: string): Option<string> {
    if url in records then Some(records[url].sha) else None
  }

  function BytesOf(records: map<string, Record>, url: string): nat {
    if url in records then records[url].bytes else 0
  }

  // ------------------------------------------------------------------ one page

  function Marked(l: Ledger, url: string, status: int, now: int): Ledger {
    if url in l.records
    then l.(records := l.records[url := l.records[url].(status := status, checkedAt := now)])
    else l
  }

  /** Storing a record and, if its hash is new, logging the change. */
  function Stored(l: Ledger, url: string, r: Record): Ledger {
    Ledger(l.records[url := r], l.archiveBytes + r.bytes - BytesOf(l.records, url),
           if ShaOf(l.records, url) == Some(r.sha) then l.changes
           else l.changes + [Change(url, ShaOf(l.records, url), r.sha)])
  }

  /** crawl_page */
  function CrawlPage(l: Ledger, budget: int, url: string, f: Fetch, now: int)
    : (Ledger, Result<seq<string>, CrawlError>)
  {
    match f
    case Denied => (l, Err(RobotsDenied))
    case Failed => (l, Err(RequestFailed))
    case Answer(status, kind, size, sha, links, sound) =>
      if status == 304 && url in l.records then (Marked(l, url, 304, now), Ok(l.records[url].links))
      else if status != 200 then (Marked(l, url, status, now), Err(HttpStatus(status)))
      else if !kind.Unsupported? && l.archiveBytes - BytesOf(l.records, url) + size > budget then (l, Err(OverBudget))
      else if kind.Unsupported? then (l, Ok([]))
      else if kind.Document? && !sound then (l, Err(BadSignature))
      else
        var r := Record(sha, size, if kind.Html? then links else [], status, now);
        (Stored(l, url, r), Ok(r.links))
  }

  // ------------------------------------------------------------------ what one visit does

  /** Every record but the URL's own is as it was. */
  ghost predicate OthersStay(l: Ledger, t: Ledger, url: string) {
    forall u :: u != url ==> (u in t.records <==> u in l.records) && (u in l.records ==> t.records[u] == l.records[u])
  }

  /** The URL's record has a new status and time, and nothing else has changed. */
  ghost predicate OnlyRechecked(l: Ledger, t: Ledger, url: string, status: int, now: int) {
    && OthersStay(l, t, url) && t.archiveBytes == l.archiveBytes && t.changes == l.changes
    && (url in t.records <==> url in l.records)
    && (url in l.records ==>
          var (a, b) := (l.records[url], t.records[url]);
          && b.sha == a.sha && b.bytes == a.bytes && b.links == a.links
          && b.status == status && b.checkedAt == now)
  }

  /** The URL's record is this answer, its bytes replace the old record's in the account, and the log gains
      one entry exactly if the hash is new. */
  ghost predicate Archived(l: Ledger, t: Ledger, url: string, f: Fetch, now: int)
    requires f.Answer?
  {
    && OthersStay(l, t, url)
    && url in t.records && t.records[url].sha == f.sha && t.records[url].bytes == f.size
    && t.records[url].status == 200 && t.records[url].checkedAt == now
    && t.records[url].links == (if f.kind.Html? then f.links else [])
    && t.archiveBytes == l.archiveBytes + f.size - (if url in l.records then l.records[url].bytes else 0)
    && (if url in l.records && l.records[url].sha == f.sha then t.changes == l.changes
        else |t.changes| == |l.changes| + 1 && t.changes[..|l.changes|] == l.changes
             && t.changes[|l.changes|].url == url && t.changes[|l.changes|].after == f.sha
             && t.changes[|l.changes|].before == (if url in l.records then Some(l.records[url].sha) else None))
  }

  /** A 200 answer whose body the archive cannot take. */
  ghost predicate TooBig(l: Ledger, budget: int, url: string, size: nat) {
    l.archiveBytes - (if url in l.records then l.records[url].bytes else 0) + size > budget
  }

  /** What a visit may do to the ledger and return, answer by answer. */
  ghost predicate Outcome(l: Ledger, t: Ledger, r: Result<seq<string>, CrawlError>, budget: int, url: string,
                          f: Fetch, now: int) {
    && (f.Denied? ==> r == Err(RobotsDenied) && t == l)
    && (f.Failed? ==> r == Err(RequestFailed) && t == l)
    && (f.Answer? && f.status == 304 && url in l.records ==>
          r == Ok(l.records[url].links) && OnlyRechecked(l, t, url, 304, now))
    && (f.Answer? && f.status != 200 && !(f.status == 304 && url in l.records) ==>
          r == Err(HttpStatus(f.status)) && OnlyRechecked(l, t, url, f.status, now))
    && (f.Answer? && f.status == 200 && f.kind.Unsupported? ==> r == Ok([]) && t == l)
    && (f.Answer? && f.status == 200 && !f.kind.Unsupported? && TooBig(l, budget, url, f.size) ==>
          r == Err(OverBudget) && t == l)
    && (f.Answer? && f.status == 200 && f.kind.Document? && !f.sound && !TooBig(l, budget, url, f.size) ==>
          r == Err(BadSignature) && t == l)
    && (f.Answer? && f.status == 200 && (f.kind.Html? || (f.kind.Document? && f.sound))
        && !TooBig(l, budget, url, f.size) ==>
          r == Ok(if f.kind.Html? then f.links else []) && Archived(l, t, url, f, now))
  }

  lemma VisitOutcome(l: Ledger, budget: int, url: string, f: Fetch, now: int)
    ensures var (t, r) := CrawlPage(l, budget, url, f, now); Outcome(l, t, r, budget, url, f, now)
  {
  }

  /** The archive over any visits of one URL: its record holds the hash, size and links of the last answer
      that was archived, whatever failed before or since. */
  lemma {:induction false} LastArchivedAnswer(l: Ledger, budget: int, visits: seq<Visit>, url: string, f: Fetch,
                                              at: int)
    requires f.Answer? && f.status == 200 && (f.kind.Html? || (f.kind.Document? && f.sound))
    requires !TooBig(l, budget, url, f.size)
    requires forall i :: 0 <= i < |visits| && visits[i].url == url ==>
        !(visits[i].fetch.Answer? && visits[i].fetch.status == 200)
    ensures var t := CrawlAll(CrawlPage(l, budget, url, f, at).0, budget, visits);
      && url in t.records && t.records[url].sha == f.sha && t.records[url].bytes == f.size
      && t.records[url].links == (if f.kind.Html? then f.links else [])
  {
    VisitOutcome(l, budget, url, f, at);
    FailuresKeepRecord(CrawlPage(l, budget, url, f, at).0, budget, visits, url);
  }

  lemma {:induction false} FailuresKeepRecord(l: Ledger, budget: int, visits: seq<Visit>, url: string)
    requires url in l.records
    requires forall i :: 0 <= i < |visits| && visits[i].url == url ==>
        !(visits[i].fetch.Answer? && visits[i].fetch.status == 200)
    ensures var t := CrawlAll(l, budget, visits);
      && url in t.records && t.records[url].sha == l.records[url].sha && t.records[url].bytes == l.records[url].bytes
      && t.records[url].links == l.records[url].links
    decreases visits
  {
    hide CrawlPage;
    if visits != [] {
      VisitOutcome(l, budget, visits[0].url, visits[0].fetch, visits[0].at);
      var t := CrawlPage(l, budget, visits[0].url, visits[0].fetch, visits[0].at).0;
      FailuresKeepRecord(t, budget, visits[1..], url);
    }
  }

  // ------------------------------------------------------------------ the ledger invariant

  ghost function Total(records: map<string, Record>): nat
    decreases |records|
  {
    if records == map[] then 0
    else
      var url :| url in records;
      records[url].bytes + Total(records - {url})
  }

  lemma {:induction false} TotalWithout(records: map<string, Record>, url: string)
    requires url in records
    ensures Total(records) == records[url].bytes + Total(records - {url})
    decreases |records|
  {
    var first :| first in records && Total(records) == records[first].bytes + Total(records - {first});
    if first != url {
      TotalWithout(records - {first}, url);
      TotalWithout(records - {url}, first);
      assert records - {first} - {url} == records - {url} - {first};
    }
  }

  lemma TotalUpdated(records: map<string, Record>, url: string, r: Record)
    ensures Total(records[url := r]) == Total(records) - BytesOf(records, url) + r.bytes
  {
    TotalWithout(records[url := r], url);
    assert records[url := r] - {url} == records - {url};
    if url in records {
      TotalWithout(records, url);
    } else {
      assert records - {url} == records;
    }
  }

  /** The hash the change log last recorded for a URL. */
  ghost function LastSha(changes: seq<Change>, url: string): Option<string> {
    if changes == [] then None
    else if changes[|changes| - 1].url == url then Some(changes[|changes| - 1].after)
    else LastSha(changes[..|changes| - 1], url)
  }

  /** Each entry starts from the hash the log had last recorded for its URL, and is a real change. */
  ghost predicate Chained(changes: seq<Change>) {
    forall i :: 0 <= i < |changes| ==>
      changes[i].before == LastSha(changes[..i], changes[i].url) && changes[i].before != Some(changes[i].after)
  }

  ghost predicate LedgerOk(l: Ledger) {
    && l.archiveBytes == Total(l.records)
    && Chained(l.changes)
    && (forall url :: LastSha(l.changes, url) == ShaOf(l.records, url))
  }

  lemma CrawlPageKeepsLedger(l: Ledger, budget: int, url: string, f: Fetch, now: int)
    requires LedgerOk(l)
    ensures LedgerOk(CrawlPage(l, budget, url, f, now).0)
    ensures CrawlPage(l, budget, url, f, now).0.archiveBytes <= Max(l.archiveBytes, budget)
    ensures CrawlPage(l, budget, url, f, now).1.Err? ==> CrawlPage(l, budget, url, f, now).0.changes == l.changes
    ensures l.changes <= CrawlPage(l, budget, url, f, now).0.changes
  {
    hide LedgerOk, BytesOf, ShaOf;
    if f.Answer? {
      MarkedKeeps(l, url, f.status, now);
      StoredKeeps(l, url, Record(f.sha, f.size, if f.kind.Html? then f.links else [], f.status, now));
    }
  }

  lemma MarkedKeeps(l: Ledger, url: string, status: int, now: int)
    requires LedgerOk(l)
    ensures LedgerOk(Marked(l, url, status, now))
  {
    hide Total, LastSha;
    if url in l.records {
      TotalUpdated(l.records, url, l.records[url].(status := status, checkedAt := now));
    }
  }

  lemma StoredKeeps(l: Ledger, url: string, r: Record)
    requires LedgerOk(l)
    ensures LedgerOk(Stored(l, url, r))
  {
    hide Total;
    TotalUpdated(l.records, url, r);
    if ShaOf(l.records, url) != Some(r.sha) {
      LoggedKeeps(l.changes, Change(url, ShaOf(l.records, url), r.sha));
    }
  }

  lemma LoggedKeeps(changes: seq<Change>, c: Change)
    requires Chained(changes) && c.before == LastSha(changes, c.url) && c.before != Some(c.after)
    ensures Chained(changes + [c])
    ensures forall url :: LastSha(changes + [c], url) == if url == c.url then Some(c.after) else LastSha(changes, url)
  {
    var more := changes + [c];
    assert more[..|changes|] == changes;
    forall i | 0 <= i < |more|
      ensures more[i].before == LastSha(more[..i], more[i].url) && more[i].before != Some(more[i].after)
    {
      assert i < |changes| ==> more[..i] == changes[..i];
    }
  }

  datatype Visit = Visit(url: string, fetch: Fetch, at: int)

  function CrawlAll(l: Ledger, budget: int, visits: seq<Visit>): Ledger
    decreases visits
  {
    if visits == [] then l
    else CrawlAll(CrawlPage(l, budget, visits[0].url, visits[0].fetch, visits[0].at).0, budget, visits[1..])
  }

  /** The archive ledger, over any sequence of fetches: archive_bytes is the sum of the records' bytes and
      never rises above the budget if it started within it; the log is chained per URL and its last
      hash for each URL is the current record's. */
  lemma {:induction false} LedgerOverRuns(l: Ledger, budget: int, visits: seq<Visit>)
    requires LedgerOk(l)
    ensures LedgerOk(CrawlAll(l, budget, visits))
    ensures CrawlAll(l, budget, visits).archiveBytes <= Max(l.archiveBytes, budget)
    ensures l.changes <= CrawlAll(l, budget, visits).changes
    decreases visits
  {
    if visits != [] {
      CrawlPageKeepsLedger(l, budget, visits[0].url, visits[0].fetch, visits[0].at);
      LedgerOverRuns(CrawlPage(l, budget, visits[0].url, visits[0].fetch, visits[0].at).0, budget, visits[1..]);
    }
  }

  /** The per-URL chain, entry by entry: the first entry of a URL has no `before`; each later one starts
      from the `after` of the URL's previous entry. */
  lemma ChainOfUrl(changes: seq<Change>, i: nat, j: nat)
    requires Chained(changes) && i < j < |changes| && changes[i].url == changes[j].url
    requires forall k :: i < k < j ==> changes[k].url != changes[j].url
    ensures changes[j].before == Some(changes[i].after)
  {
    LastOfUrl(changes[..j], i, changes[j].url);
  }

  lemma FirstOfUrl(changes: seq<Change>, j: nat)
    requires Chained(changes) && j < |changes| && forall k :: 0 <= k < j ==> changes[k].url != changes[j].url
    ensures changes[j].before == None
  {
    NoneOfUrl(changes[..j], changes[j].url);
  }

  lemma {:induction false} LastOfUrl(changes: seq<Change>, i: nat, url: string)
    requires i < |changes| && changes[i].url == url && forall k :: i < k < |changes| ==> changes[k].url != url
    ensures LastSha(changes, url) == Some(changes[i].after)
    decreases |changes|
  {
    if i < |changes| - 1 {
      LastOfUrl(changes[..|changes| - 1], i, url);
    }
  }

  lemma {:induction false} NoneOfUrl(changes: seq<Change>, url: string)
    requires forall k :: 0 <= k < |changes| ==> changes[k].url != url
    ensures LastSha(changes, url) == None
  {
    if changes != [] {
      NoneOfUrl(changes[..|changes| - 1], url);
    }
  }

  // ------------------------------------------------------------------ the frontier

  type Canon = string -> Option<string>

  datatype Frontier = Frontier(queue: seq<string>, scheduled: set<string>, visited: seq<string>)

  function Enqueue(canon: Canon, fr: Frontier, raw: string): Frontier {
    var u := canon(raw);
    if u.Some? && u.value !in fr.scheduled
    then Frontier(fr.queue + [u.value], fr.scheduled + {u.value}, fr.visited)
    else fr
  }

  function EnqueueAll(canon: Canon, fr: Frontier, raws: seq<string>): Frontier
    decreases raws
  {
    if raws == [] then fr else EnqueueAll(canon, Enqueue(canon, fr, raws[0]), raws[1..])
  }

  /** A robots denial marks an archived record; every other failure leaves what crawl_page left. */
  function Settle(l: Ledger, url: string, r: Result<seq<string>, CrawlError>): Ledger {
    if r == Err(RobotsDenied) && url in l.records
    then l.(records := l.records[url := l.records[url].(status := -1)])
    else l
  }

  datatype Crawl = Crawl(frontier: Frontier, ledger: Ledger)

  /** One turn of the run loop: take the front URL, crawl it, enqueue what it links to. */
  function Attempt(canon: Canon, c: Crawl, budget: int, f: Fetch, now: int): Crawl
    requires c.frontier.queue != []
  {
    var fr := c.frontier;
    var url := fr.queue[0];
    var (l, r) := CrawlPage(c.ledger, budget, url, f, now);
    Crawl(EnqueueAll(canon, Frontier(fr.queue[1..], fr.scheduled, fr.visited + [url]), if r.Ok? then r.value else []),
          Settle(l, url, r))
  }

  /** The run loop; `answers` has one entry for each page the run's limits (pages, bytes, time) permit. */
  function Attempts(canon: Canon, c: Crawl, budget: int, answers: seq<Fetch>, now: int): Crawl
    decreases answers
  {
    if answers == [] || c.frontier.queue == [] then c
    else Attempts(canon, Attempt(canon, c, budget, answers[0], now), budget, answers[1..], now)
  }

  /** What one run is given: a failure to read robots.txt, or the sitemap's URLs, the archived URLs by age,
      and the network's answers. */
  datatype RunInput = RobotsFailure | Proceed(sitemap: seq<string>, known: seq<string>, answers: seq<Fetch>)

  datatype Site = Site(ledger: Ledger, pending: seq<string>)

  function StartQueue(canon: Canon, pending: seq<string>, seeds: seq<string>, input: RunInput): Frontier
    requires input.Proceed?
  {
    EnqueueAll(canon, Frontier([], {}, []), pending + (seeds + input.sitemap + input.known))
  }

  /** The state after a run, and the pages it attempted. A failed run keeps everything as it was. */
  function RunOnce(canon: Canon, seeds: seq<string>, budget: int, s: Site, input: RunInput, now: int)
    : (Site, seq<string>)
  {
    if input.RobotsFailure? then (s, [])
    else
      var c := Attempts(canon, Crawl(StartQueue(canon, s.pending, seeds, input), s.ledger), budget, input.answers, now);
      (Site(c.ledger, c.frontier.queue), c.frontier.visited)
  }

  // ------------------------------------------------------------------ what the queue keeps

  /** Every scheduled URL was either attempted or is still queued, each exactly once. */
  ghost predicate FrontierOk(fr: Frontier) {
    && Distinct(fr.visited + fr.queue)
    && (forall u :: u in fr.scheduled <==> u in fr.visited + fr.queue)
  }

  lemma {:induction false} EnqueueAllKeeps(canon: Canon, fr: Frontier, raws: seq<string>)
    requires FrontierOk(fr)
    ensures var r := EnqueueAll(canon, fr, raws);
      FrontierOk(r) && r.visited == fr.visited && fr.queue <= r.queue && fr.scheduled <= r.scheduled
      && forall i :: 0 <= i < |raws| && canon(raws[i]).Some? ==> canon(raws[i]).value in r.scheduled
    decreases raws
  {
    if raws != [] {
      var one := Enqueue(canon, fr, raws[0]);
      EnqueueKeeps(canon, fr, raws[0]);
      EnqueueAllKeeps(canon, one, raws[1..]);
      var r := EnqueueAll(canon, fr, raws);
      forall i | 0 <= i < |raws| && canon(raws[i]).Some? ensures canon(raws[i]).value in r.scheduled {
        assert i > 0 ==> raws[i] == raws[1..][i - 1];
      }
    }
  }

  lemma EnqueueKeeps(canon: Canon, fr: Frontier, raw: string)
    requires FrontierOk(fr)
    ensures FrontierOk(Enqueue(canon, fr, raw)) && fr.queue <= Enqueue(canon, fr, raw).queue
  {
    var r := Enqueue(canon, fr, raw);
    if r != fr {
      assert r.visited + r.queue == (fr.visited + fr.queue) + [canon(raw).value];
    }
  }

  lemma AttemptKeeps(canon: Canon, c: Crawl, budget: int, f: Fetch, now: int)
    requires FrontierOk(c.frontier) && c.frontier.queue != []
    ensures var r := Attempt(canon, c, budget, f, now).frontier;
      FrontierOk(r) && r.visited == c.frontier.visited + [c.frontier.queue[0]] && c.frontier.queue[1..] <= r.queue
  {
    var fr := c.frontier;
    var moved := Frontier(fr.queue[1..], fr.scheduled, fr.visited + [fr.queue[0]]);
    assert moved.visited + moved.queue == fr.visited + fr.queue;
    var (l, r) := CrawlPage(c.ledger, budget, fr.queue[0], f, now);
    EnqueueAllKeeps(canon, moved, if r.Ok? then r.value else []);
  }

  /** The loop attempts the queue in order: what was at place j is attempted if j pages were taken before
      it, and otherwise moves up by as many places as pages were attempted. */
  lemma {:induction false} QueueMovesUp(canon: Canon, c: Crawl, budget: int, answers: seq<Fetch>, now: int, j: nat)
    requires FrontierOk(c.frontier) && j < |c.frontier.queue|
    ensures var r := Attempts(canon, c, budget, answers, now).frontier;
      var taken := |r.visited| - |c.frontier.visited|;
      && FrontierOk(r) && 0 <= taken <= |answers|
      && (j < taken ==> c.frontier.queue[j] in r.visited[|c.frontier.visited|..])
      && (j >= taken ==> j - taken < |r.queue| && r.queue[j - taken] == c.frontier.queue[j] && taken == |answers|)
    decreases answers
  {
    hide Attempt, FrontierOk, CrawlPage;
    if answers != [] {
      var next := Attempt(canon, c, budget, answers[0], now);
      AttemptKeeps(canon, c, budget, answers[0], now);
      var r := Attempts(canon, c, budget, answers, now).frontier;
      if j > 0 {
        assert next.frontier.queue[j - 1] == c.frontier.queue[1..][j - 1];
        QueueMovesUp(canon, next, budget, answers[1..], now, j - 1);
        assert c.frontier.queue[j] in r.visited[|next.frontier.visited|..] ==>
            c.frontier.queue[j] in r.visited[|c.frontier.visited|..];
      } else {
        VisitedStays(canon, next, budget, answers[1..], now);
        assert r.visited[|c.frontier.visited|] == c.frontier.queue[0];
      }
    }
  }

  lemma {:induction false} VisitedStays(canon: Canon, c: Crawl, budget: int, answers: seq<Fetch>, now: int)
    requires FrontierOk(c.frontier)
    ensures var r := Attempts(canon, c, budget, answers, now).frontier;
      FrontierOk(r) && c.frontier.visited <= r.visited && |r.visited| - |c.frontier.visited| <= |answers|
    decreases answers
  {
    if answers != [] && c.frontier.queue != [] {
      AttemptKeeps(canon, c, budget, answers[0], now);
      VisitedStays(canon, Attempt(canon, c, budget, answers[0], now), budget, answers[1..], now);
    }
  }

  /** The pending URL at place i gives its canonical form a place no later than i in the new queue. */
  lemma {:induction false} PendingFirst(canon: Canon, fr: Frontier, pending: seq<string>, more: seq<string>, i: nat,
                                        v: string) returns (j: nat)
    requires FrontierOk(fr) && i < |pending| && canon(pending[i]) == Some(v) && v !in fr.visited
    ensures var r := EnqueueAll(canon, fr, pending + more);
      FrontierOk(r) && r.visited == fr.visited && j < |r.queue| && r.queue[j] == v && j <= |fr.queue| + i
    decreases pending
  {
    var all := pending + more;
    var one := Enqueue(canon, fr, all[0]);
    EnqueueKeeps(canon, fr, all[0]);
    assert all[1..] == pending[1..] + more;
    EnqueueAllKeeps(canon, one, all[1..]);
    if i == 0 {
      assert v in one.visited + one.queue;
      j :| 0 <= j < |one.queue| && one.queue[j] == v;
    } else {
      j := PendingFirst(canon, one, pending[1..], more, i - 1, v);
    }
  }

  /** A URL is queued exactly if something offered to the queue has it as its canonical form. So a pending
      URL keeps a place for itself exactly if it, or something else on offer, canonicalises to it. */
  lemma {:induction false} QueuedIff(canon: Canon, fr: Frontier, raws: seq<string>, u: string)
    requires FrontierOk(fr) && u !in fr.scheduled
    ensures u in EnqueueAll(canon, fr, raws).queue <==> exists i :: 0 <= i < |raws| && canon(raws[i]) == Some(u)
    decreases raws
  {
    if raws != [] {
      var one := Enqueue(canon, fr, raws[0]);
      EnqueueKeeps(canon, fr, raws[0]);
      EnqueueAllKeeps(canon, one, raws[1..]);
      if canon(raws[0]) == Some(u) {
        assert one.queue[|fr.queue|] == u && one.queue <= EnqueueAll(canon, fr, raws).queue;
      } else {
        QueuedIff(canon, one, raws[1..], u);
        assert forall i :: 0 < i < |raws| ==> raws[i] == raws[1..][i - 1];
        assert forall i :: 0 <= i < |raws[1..]| ==> raws[1..][i] == raws[i + 1];
      }
    }
  }

  /** A pending URL whose canonical form is another URL gives its place to that one, and is itself queued only
      if something else on offer has it as canonical form. */
  lemma OtherFormTakesPlace(canon: Canon, u: string, v: string, seeds: seq<string>, input: RunInput)
    requires input.Proceed? && canon(u) == Some(v) && u != v
    ensures var q, more := StartQueue(canon, [u], seeds, input).queue, seeds + input.sitemap + input.known;
      q != [] && q[0] == v && (u in q <==> exists k :: 0 <= k < |more| && canon(more[k]) == Some(u))
  {
    hide EnqueueAll;
    var fr, pending, more := Frontier([], {}, []), [u], seeds + input.sitemap + input.known;
    var j := PendingFirst(canon, fr, pending, more, 0, v);
    QueuedIff(canon, fr, pending + more, u);
    assert forall k :: 0 <= k < |more| ==> (pending + more)[k + 1] == more[k];
    assert forall k :: 0 < k < |pending + more| ==> (pending + more)[k] == more[k - 1];
  }

  /** The pages a run's limits permit it to attempt. */
  function Permitted(input: RunInput): nat {
    if input.Proceed? then |input.answers| else 0
  }

  /** One run: the canonical form of a pending URL is attempted, or moves up by all the pages the run was
      permitted. A run that could not read robots.txt leaves the pending list as it was. */
  lemma RunServesPending(canon: Canon, seeds: seq<string>, budget: int, s: Site, input: RunInput, now: int, i: nat,
                         v: string)
    requires i < |s.pending| && canon(s.pending[i]) == Some(v)
    ensures var (t, attempted) := RunOnce(canon, seeds, budget, s, input, now);
      v in attempted
      || exists k: nat :: k + Permitted(input) <= i && k < |t.pending|
           && t.pending[k] == if input.Proceed? then v else s.pending[i]
  {
    if input.Proceed? {
      var fr0 := Frontier([], {}, []);
      assert FrontierOk(fr0);
      hide Attempts, EnqueueAll, FrontierOk;
      var j := PendingFirst(canon, fr0, s.pending, seeds + input.sitemap + input.known, i, v);
      var c := Crawl(StartQueue(canon, s.pending, seeds, input), s.ledger);
      QueueMovesUp(canon, c, budget, input.answers, now, j);
      var r := Attempts(canon, c, budget, input.answers, now).frontier;
      assert r.visited[|c.frontier.visited|..] == r.visited;
      if j >= |r.visited| {
        var k := j - |r.visited|;
        assert k + Permitted(input) <= i && r.queue[k] == v;
      }
    } else {
      assert i + Permitted(input) <= i && s.pending[i] == s.pending[i];
    }
  }

  /** Several runs in a row, each with its own input; the pages each attempted. */
  function Runs(canon: Canon, seeds: seq<string>, budget: int, s: Site, inputs: seq<RunInput>,
                now: int): seq<seq<string>>
    decreases inputs
  {
    if inputs == [] then []
    else
      var (t, attempted) := RunOnce(canon, seeds, budget, s, inputs[0], now);
      [attempted] + Runs(canon, seeds, budget, t, inputs[1..], now)
  }

  function PermittedInAll(inputs: seq<RunInput>): nat {
    if inputs == [] then 0 else Permitted(inputs[0]) + PermittedInAll(inputs[1..])
  }

  ghost predicate AttemptedIn(u: string, runs: seq<seq<string>>) {
    exists r :: 0 <= r < |runs| && u in runs[r]
  }

  /** No starvation: whatever is discovered meanwhile and however runs fail, if place i of `pending`
      canonicalises to v and v to itself, v is attempted by the time the following runs have been
      permitted more than i pages in all. */
  lemma {:induction false} NoStarvation(canon: Canon, seeds: seq<string>, budget: int, s: Site, inputs: seq<RunInput>,
                                        now: int, i: nat, v: string)
    requires i < |s.pending| && canon(s.pending[i]) == Some(v) && canon(v) == Some(v)
    requires PermittedInAll(inputs) > i
    ensures AttemptedIn(v, Runs(canon, seeds, budget, s, inputs, now))
    decreases inputs
  {
    hide RunOnce, Permitted;
    var all := Runs(canon, seeds, budget, s, inputs, now);
    var (t, attempted) := RunOnce(canon, seeds, budget, s, inputs[0], now);
    RunServesPending(canon, seeds, budget, s, inputs[0], now, i, v);
    assert all[0] == attempted && all[1..] == Runs(canon, seeds, budget, t, inputs[1..], now);
    if v !in attempted {
      var k: nat :| k + Permitted(inputs[0]) <= i && k < |t.pending|
        && (t.pending[k] == v || t.pending[k] == s.pending[i]);
      NoStarvation(canon, seeds, budget, t, inputs[1..], now, k, v);
      var r :| 0 <= r < |all[1..]| && v in all[1..][r];
      assert all[r + 1] == all[1..][r];
    }
  }

  /** The bound for runs that are permitted at least m pages each: floor(i / m) + 1 further runs suffice,
      also when a run drains its queue before that many. */
  lemma NoStarvationWithin(canon: Canon, seeds: seq<string>, budget: int, s: Site, inputs: seq<RunInput>, now: int,
                           i: nat, m: nat, v: string)
    requires i < |s.pending| && canon(s.pending[i]) == Some(v) && canon(v) == Some(v)
    requires m > 0 && |inputs| == i / m + 1 && forall r :: 0 <= r < |inputs| ==> Permitted(inputs[r]) >= m
    ensures AttemptedIn(v, Runs(canon, seeds, budget, s, inputs, now))
  {
    PermittedAtLeast(inputs, m);
    assert m * (i / m) + i % m == i;
    assert (i / m + 1) * m == m * (i / m) + m;
    NoStarvation(canon, seeds, budget, s, inputs, now, i, v);
  }

  lemma {:induction false} PermittedAtLeast(inputs: seq<RunInput>, m: nat)
    requires forall r :: 0 <= r < |inputs| ==> Permitted(inputs[r]) >= m
    ensures PermittedInAll(inputs) >= |inputs| * m
  {
    if inputs != [] {
      PermittedAtLeast(inputs[1..], m);
      assert |inputs| * m == m + (|inputs| - 1) * m;
    }
  }

  lemma {:induction false} EnqueueAllAppend(canon: Canon, fr: Frontier, a: seq<string>, b: seq<string>)
    ensures EnqueueAll(canon, fr, a + b) == EnqueueAll(canon, EnqueueAll(canon, fr, a), b)
    decreases a
  {
    if a == [] {
      assert a + b == b;
    } else {
      assert (a + b)[1..] == a[1..] + b;
      EnqueueAllAppend(canon, Enqueue(canon, fr, a[0]), a[1..], b);
    }
  }

  /** A pending URL that canonical() refuses the second time is dropped without an attempt; the run starts
      as if it had never been pending. */
  lemma RefusedPendingIsDropped(canon: Canon, seeds: seq<string>, pending: seq<string>, input: RunInput, i: nat)
    requires input.Proceed? && i < |pending| && canon(pending[i]).None?
    ensures StartQueue(canon, pending, seeds, input) == StartQueue(canon, pending[..i] + pending[i + 1..], seeds, input)
  {
    var fr, more := Frontier([], {}, []), seeds + input.sitemap + input.known;
    var a, one, b := pending[..i], [pending[i]], pending[i + 1..];
    assert pending + more == a + (one + (b + more));
    assert a + b + more == a + (b + more);
    EnqueueAllAppend(canon, fr, a, one + (b + more));
    EnqueueAllAppend(canon, EnqueueAll(canon, fr, a), one, b + more);
    EnqueueAllAppend(canon, fr, a, b + more);
    assert one[1..] == [];
  }

  /** The ledger over a run, whatever links it follows: the byte account, the budget and the chain. A page
      that robots.txt denies only has its status changed. */
  lemma {:induction false} RunKeepsLedger(canon: Canon, c: Crawl, budget: int, answers: seq<Fetch>, now: int)
    requires LedgerOk(c.ledger)
    ensures var t := Attempts(canon, c, budget, answers, now).ledger;
      LedgerOk(t) && t.archiveBytes <= Max(c.ledger.archiveBytes, budget) && c.ledger.changes <= t.changes
    decreases answers
  {
    hide LedgerOk, CrawlPage;
    if answers != [] && c.frontier.queue != [] {
      var url := c.frontier.queue[0];
      CrawlPageKeepsLedger(c.ledger, budget, url, answers[0], now);
      var (l, r) := CrawlPage(c.ledger, budget, url, answers[0], now);
      SettleKeeps(l, url, r);
      RunKeepsLedger(canon, Attempt(canon, c, budget, answers[0], now), budget, answers[1..], now);
    }
  }

  lemma SettleKeeps(l: Ledger, url: string, r: Result<seq<string>, CrawlError>)
    requires LedgerOk(l)
    ensures LedgerOk(Settle(l, url, r)) && Settle(l, url, r).archiveBytes == l.archiveBytes
    ensures Settle(l, url, r).changes == l.changes
    ensures r != Err(RobotsDenied) ==> Settle(l, url, r) == l
    ensures OthersStay(l, Settle(l, url, r), url)
    ensures r == Err(RobotsDenied) && url in l.records ==>
      url in Settle(l, url, r).records && Settle(l, url, r).records[url] == l.records[url].(status := -1)
  {
    hide Total, LastSha;
    if url in l.records {
      TotalUpdated(l.records, url, l.records[url].(status := -1));
    }
  }

  /** A run starts from pending, then seeds, then sitemap pages, then known records: each list's URLs are
      queued behind all earlier lists'. */
  lemma StartOrder(canon: Canon, pending: seq<string>, seeds: seq<string>, input: RunInput)
    requires input.Proceed?
    ensures var fr, q := Frontier([], {}, []), StartQueue(canon, pending, seeds, input).queue;
      && EnqueueAll(canon, fr, pending).queue <= EnqueueAll(canon, fr, pending + seeds).queue
      && EnqueueAll(canon, fr, pending + seeds).queue <= EnqueueAll(canon, fr, pending + seeds + input.sitemap).queue
      && EnqueueAll(canon, fr, pending + seeds + input.sitemap).queue <= q
      && forall u :: u in q <==>
          exists raw :: raw in pending + seeds + input.sitemap + input.known && canon(raw) == Some(u)
  {
    var fr := Frontier([], {}, []);
    var a, b, c := pending, pending + seeds, pending + seeds + input.sitemap;
    assert pending + (seeds + input.sitemap + input.known) == c + input.known;
    QueueGrows(canon, fr, a, seeds);
    QueueGrows(canon, fr, b, input.sitemap);
    QueueGrows(canon, fr, c, input.known);
    forall u ensures u in EnqueueAll(canon, fr, c + input.known).queue
      <==> exists raw :: raw in c + input.known && canon(raw) == Some(u)
    {
      QueuedIff(canon, fr, c + input.known, u);
    }
  }

  lemma QueueGrows(canon: Canon, fr: Frontier, a: seq<string>, b: seq<string>)
    requires FrontierOk(fr)
    ensures EnqueueAll(canon, fr, a).queue <= EnqueueAll(canon, fr, a + b).queue
  {
    EnqueueAllAppend(canon, fr, a, b);
    EnqueueAllKeeps(canon, fr, a);
    EnqueueAllKeeps(canon, EnqueueAll(canon, fr, a), b);
  }

  /** A page that answers has each of its links scheduled that canonical() accepts; one that fails, none. */
  lemma LinksScheduled(canon: Canon, c: Crawl, budget: int, f: Fetch, now: int, u: string)
    requires FrontierOk(c.frontier) && c.frontier.queue != []
    ensures var (l, r) := CrawlPage(c.ledger, budget, c.frontier.queue[0], f, now);
      u in Attempt(canon, c, budget, f, now).frontier.scheduled <==>
      u in c.frontier.scheduled || (r.Ok? && exists link :: link in r.value && canon(link) == Some(u))
  {
    hide CrawlPage;
    var fr := c.frontier;
    var moved := Frontier(fr.queue[1..], fr.scheduled, fr.visited + [fr.queue[0]]);
    assert moved.visited + moved.queue == fr.visited + fr.queue;
    var (l, r) := CrawlPage(c.ledger, budget, fr.queue[0], f, now);
    ScheduledIff(canon, moved, if r.Ok? then r.value else [], u);
  }

  lemma {:induction false} ScheduledIff(canon: Canon, fr: Frontier, raws: seq<string>, u: string)
    ensures u in EnqueueAll(canon, fr, raws).scheduled
      <==> u in fr.scheduled || exists raw :: raw in raws && canon(raw) == Some(u)
    decreases raws
  {
    if raws != [] {
      ScheduledIff(canon, Enqueue(canon, fr, raws[0]), raws[1..], u);
      assert forall raw :: raw in raws <==> raw == raws[0] || raw in raws[1..];
    }
  }

  /** Within one run no page is attempted twice, and every URL scheduled is attempted or left pending. */
  lemma RunAccountsForQueue(canon: Canon, seeds: seq<string>, budget: int, s: Site, input: RunInput, now: int)
    requires input.Proceed?
    ensures var (t, attempted) := RunOnce(canon, seeds, budget, s, input, now);
      && Distinct(attempted + t.pending)
      && forall u :: u in StartQueue(canon, s.pending, seeds, input).scheduled ==> u in attempted + t.pending
  {
    var fr := StartQueue(canon, s.pending, seeds, input);
    EnqueueAllKeeps(canon, Frontier([], {}, []), s.pending + (seeds + input.sitemap + input.known));
    VisitedStays(canon, Crawl(fr, s.ledger), budget, input.answers, now);
    ScheduledStays(canon, Crawl(fr, s.ledger), budget, input.answers, now);
  }

  lemma {:induction false} ScheduledStays(canon: Canon, c: Crawl, budget: int, answers: seq<Fetch>, now: int)
    requires FrontierOk(c.frontier)
    ensures c.frontier.scheduled <= Attempts(canon, c, budget, answers, now).frontier.scheduled
    decreases answers
  {
    if answers != [] && c.frontier.queue != [] {
      AttemptKeeps(canon, c, budget, answers[0], now);
      var fr := c.frontier;
      var moved := Frontier(fr.queue[1..], fr.scheduled, fr.visited + [fr.queue[0]]);
      assert moved.visited + moved.queue == fr.visited + fr.queue;
      var (l, r) := CrawlPage(c.ledger, budget, fr.queue[0], answers[0], now);
      EnqueueAllKeeps(canon, moved, if r.Ok? then r.value else []);
      ScheduledStays(canon, Attempt(canon, c, budget, answers[0], now), budget, answers[1..], now);
    }
  }

  // ------------------------------------------------------------------ the code

  class CityMirror {
    const canon: Canon
    const seeds: seq<string>
    const budget: int
    var records: map<string, Record>
    var archiveBytes: int
    var changes: seq<Change>
    var pending: seq<string>

    function Book(): Ledger
      reads this
    {
      Ledger(records, archiveBytes, changes)
    }

    function State(): Site
      reads this
    {
      Site(Book(), pending)
    }

    /** A mirror with no saved state. */
    constructor (canon: Canon, seeds: seq<string>, budget: int)
      ensures this.canon == canon && this.seeds == seeds && this.budget == budget
      ensures State() == Site(EMPTY_LEDGER, []) && LedgerOk(Book())
    {
      this.canon, this.seeds, this.budget := canon, seeds, budget;
      records, archiveBytes, changes, pending := map[], 0, [], [];
    }

    method CrawlOne(url: string, f: Fetch, now: int) returns (r: Result<seq<string>, CrawlError>)
      modifies this`records, this`archiveBytes, this`changes
      ensures (Book(), r) == CrawlPage(old(Book()), budget, url, f, now)
      ensures Outcome(old(Book()), Book(), r, budget, url, f, now)
    {
      VisitOutcome(Book(), budget, url, f, now);
      if f.Denied? {
        return Err(RobotsDenied);
      }
      if f.Failed? {
        return Err(RequestFailed);
      }
      var prior := if url in records then Some(records[url]) else None;
      if f.status == 304 && prior.Some? {
        records := records[url := prior.value.(status := 304, checkedAt := now)];
        return Ok(prior.value.links);
      }
      if f.status != 200 {
        if prior.Some? {
          records := records[url := prior.value.(status := f.status, checkedAt := now)];
        }
        return Err(HttpStatus(f.status));
      }
      var oldBytes := if prior.Some? then prior.value.bytes else 0;
      if !f.kind.Unsupported? && archiveBytes - oldBytes + f.size > budget {
        return Err(OverBudget);
      }
      if f.kind.Unsupported? {
        return Ok([]);
      }
      if f.kind.Document? && !f.sound {
        return Err(BadSignature);
      }
      var record := Record(f.sha, f.size, if f.kind.Html? then f.links else [], f.status, now);
      if prior.None? || prior.value.sha != record.sha {
        changes := changes + [Change(url, if prior.Some? then Some(prior.value.sha) else None, record.sha)];
      }
      archiveBytes := archiveBytes + f.size - oldBytes;
      records := records[url := record];
      r := Ok(record.links);
    }

    method Run(input: RunInput, now: int) returns (visited: seq<string>)
      modifies this
      ensures (State(), visited) == RunOnce(canon, seeds, budget, old(State()), input, now)
    {
      visited := [];
      if input.RobotsFailure? {
        return;
      }
      var queue, scheduled := [], {};
      queue, scheduled := EnqueueEach(queue, scheduled, [], pending + (seeds + input.sitemap + input.known));
      ghost var start := Crawl(Frontier(queue, scheduled, []), Book());
      assert start == Crawl(StartQueue(canon, pending, seeds, input), Book());
      var k := 0;
      while queue != [] && k < |input.answers|
        invariant 0 <= k <= |input.answers|
        invariant pending == old(pending)
        invariant Attempts(canon, Crawl(Frontier(queue, scheduled, visited), Book()), budget, input.answers[k..], now)
          == Attempts(canon, start, budget, input.answers, now)
        decreases |input.answers| - k
      {
        ghost var before := Crawl(Frontier(queue, scheduled, visited), Book());
        assert input.answers[k..][0] == input.answers[k] && input.answers[k..][1..] == input.answers[k + 1..];
        var url := queue[0];
        queue := queue[1..];
        visited := visited + [url];
        var r := CrawlOne(url, input.answers[k], now);
        if r.Ok? {
          queue, scheduled := EnqueueEach(queue, scheduled, visited, r.value);
        } else if r.error.RobotsDenied? && url in records {
          records := records[url := records[url].(status := -1)];
        }
        assert Crawl(Frontier(queue, scheduled, visited), Book())
            == Attempt(canon, before, budget, input.answers[k], now);
        k := k + 1;
      }
      pending := queue;
    }

    method EnqueueEach(queue0: seq<string>, scheduled0: set<string>, ghost visited: seq<string>, raws: seq<string>)
      returns (queue: seq<string>, scheduled: set<string>)
      ensures Frontier(queue, scheduled, visited) == EnqueueAll(canon, Frontier(queue0, scheduled0, visited), raws)
    {
      queue, scheduled := queue0, scheduled0;
      for i := 0 to |raws|
        invariant EnqueueAll(canon, Frontier(queue, scheduled, visited), raws[i..])
          == EnqueueAll(canon, Frontier(queue0, scheduled0, visited), raws)
      {
        assert raws[i..][0] == raws[i] && raws[i..][1..] == raws[i + 1..];
        var u := canon(raws[i]);
        if u.Some? && u.value !in scheduled {
          scheduled := scheduled + {u.value};
          queue := queue + [u.value];
        }
      }
    }
  }
}
