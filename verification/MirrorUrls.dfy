/** What the URL normal form means for the crawl frontier: which pending URLs are served. The frontier's
    `canon` is Mirror.canonical on the URLs of this origin, and anything at all on others. */
module MirrorUrls {
  import opened Common
  import opened Canonical
  import opened Mirror
  import UrlText

  ghost predicate IsCanonical(canon: Canon, excluded: string -> bool) {
    forall u :: ORIGIN <= u ==> canon(u) == Canonicalize(u, excluded)
  }

  /** A pending URL, put there by canonical() on the reference r, at place i. If canonical() still accepts it,
      its second form is attempted within floor(i / m) + 1 runs of at least m permitted pages; the URL
      itself is that form exactly if its query fits and its path has no empty parameters. */
  lemma PendingUrlServed(canon: Canon, excluded: string -> bool, r: Ref, seeds: seq<string>, budget: int, s: Site,
                         inputs: seq<RunInput>, now: int, i: nat, m: nat)
    requires IsCanonical(canon, excluded) && (r.path == [] || r.path[0] == '/')
    requires i < |s.pending| && OfRef(r, excluded) == Some(s.pending[i])
    requires m > 0 && |inputs| == i / m + 1 && forall k :: 0 <= k < |inputs| ==> Permitted(inputs[k]) >= m
    ensures canon(s.pending[i]).Some? ==>
        AttemptedIn(canon(s.pending[i]).value, Runs(canon, seeds, budget, s, inputs, now))
    ensures canon(s.pending[i]) == Some(s.pending[i]) <==>
      |EncodedQuery(r.query)| <= MAX_QUERY && !EmptyParams(if r.path == [] then "/" else r.path)
  {
    hide OfRef, Canonicalize, EmptyParams, EncodedQuery, Runs;
    var u := s.pending[i];
    CanonicalFixedPoint(r, excluded);
    QuoteKeepsParams(if r.path == [] then "/" else r.path);
    SettlesAtSecondForm(r, excluded);
    if canon(u).Some? {
      NoStarvationWithin(canon, seeds, budget, s, inputs, now, i, m, canon(u).value);
    }
  }

  /** If its re-encoded query is over 1000 characters, the pending URL is dropped without an attempt. */
  lemma LongPendingUrlDropped(canon: Canon, excluded: string -> bool, r: Ref, seeds: seq<string>, pending: seq<string>,
                              input: RunInput, i: nat)
    requires IsCanonical(canon, excluded) && (r.path == [] || r.path[0] == '/') && input.Proceed?
    requires i < |pending| && OfRef(r, excluded) == Some(pending[i]) && |EncodedQuery(r.query)| > MAX_QUERY
    ensures StartQueue(canon, pending, seeds, input) == StartQueue(canon, pending[..i] + pending[i + 1..], seeds, input)
  {
    hide OfRef, Canonicalize, EncodedQuery, StartQueue;
    SettlesAtSecondForm(r, excluded);
    RefusedPendingIsDropped(canon, seeds, pending, input, i);
  }

  /** A pending "/a;" gives its place to "/a" and is itself queued only if something else on offer, a link or
      a seed, has it as canonical form. */
  lemma EmptyParamsGiveWay(canon: Canon, excluded: string -> bool, seeds: seq<string>, input: RunInput)
    requires IsCanonical(canon, excluded) && !excluded(UrlText.Unquote("/a;")) && !excluded(UrlText.Unquote("/a"))
    requires input.Proceed?
    ensures var q, more := StartQueue(canon, [ORIGIN + "/a;"], seeds, input).queue, seeds + input.sitemap + input.known;
      && q != [] && q[0] == ORIGIN + "/a"
      && (ORIGIN + "/a;" in q <==> exists k :: 0 <= k < |more| && canon(more[k]) == Some(ORIGIN + "/a;"))
  {
    hide OfRef, Canonicalize, StartQueue;
    OtherSchemeNotFixed(excluded);
    var o := ORIGIN;
    assert canon(o + "/a;") == Some(o + "/a");
    assert |o + "/a;"| != |o + "/a"|;
    OtherFormTakesPlace(canon, o + "/a;", o + "/a", seeds, input);
  }
}
