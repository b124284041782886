/** tools/sync_city.py Mirror.canonical, and the path and query part it shares with canonical in
    tools/anycity_crawler.py: the URL normal form that request() insists on. */
module Canonical {
  import opened Common
  import opened Utf8
  import opened UrlText

  const ORIGIN := "https://www.cheyennecity.org"
  const HOST := "www.cheyennecity.org"

  // ------------------------------------------------------------------ path and query

  function Lower(c: char): char {
    if 'A' <= c <= 'Z' then (c as int + 32) as char else c
  }

  function LowerAll(s: string): string {
    if s == [] then [] else [Lower(s[0])] + LowerAll(s[1..])
  }

  predicate Tracking(key: string) {
    "utm_" <= LowerAll(key) || LowerAll(key) == "fbclid" || LowerAll(key) == "gclid"
  }

  /** The pairs whose key is not a tracking parameter. */
  function Keep(ps: seq<Pair>): seq<Pair> {
    if ps == [] then [] else (if Tracking(ps[0].key) then [] else [ps[0]]) + Keep(ps[1..])
  }

  const MAX_QUERY := 1000

  /** The normal form of a path and query: rejected if the decoded path is excluded, if more than
      maxFields pairs remain or if the query text is over 1000 characters; otherwise the path is
      quoted and the remaining pairs are sorted and re-encoded. */
  function Tail(path: string, query: string, maxFields: nat, excluded: string -> bool): Option<string> {
    var p := if path == [] then "/" else path;
    var kept := Keep(ParseQuery(query));
    if excluded(Unquote(p)) || |kept| > maxFields || |query| > MAX_QUERY then None
    else Some(Quote(Path, p) + if kept == [] then [] else "?" + WriteQuery(Sort(kept)))
  }

  // ------------------------------------------------------------------ whole URLs

  /** A URL after urljoin and urlsplit. */
  datatype Ref = Ref(scheme: string, hasUserinfo: bool, host: string, port: Option<int>, path: string, query: string)

  /** Mirror.canonical on a parsed reference. */
  function OfRef(r: Ref, excluded: string -> bool): Option<string> {
    if r.scheme !in {"https", "http"} || r.hasUserinfo then None
    else if r.host != HOST || r.port !in {None, Some(80), Some(443)} then None
    else
      match Tail(r.path, r.query, 8, excluded)
      case None => None
      case Some(t) => Some(ORIGIN + t)
  }

  /** No ';' after the last '/'. */
  predicate NoParams(s: string) {
    s == [] || s[|s| - 1] == '/' || (s[|s| - 1] != ';' && NoParams(s[..|s| - 1]))
  }

  /** The last segment has a single ';', at its very end: parameters are present but empty. */
  predicate EmptyParams(path: string) {
    path != [] && path[|path| - 1] == ';' && NoParams(path[..|path| - 1])
  }

  /** urljoin takes a URL of the base's scheme apart into path and parameters and puts it together
      again, which drops empty parameters. */
  function Rejoined(path: string): string {
    if EmptyParams(path) then path[..|path| - 1] else path
  }

  /** urlsplit of what follows the host: up to '?' the path, then up to '#' the query. */
  function SplitTail(rest: string): (string, string) {
    var shown := rest[..Find(rest, '#')];
    var k := Find(shown, '?');
    (shown[..k], if k == |shown| then [] else shown[k + 1..])
  }

  /** urlsplit(urljoin(base, u)) for a URL on this origin, whatever https base it is joined to. */
  function Parse(u: string): Ref
    requires ORIGIN <= u
  {
    var (path, query) := SplitTail(u[|ORIGIN|..]);
    Ref("https", false, HOST, None, Rejoined(path), query)
  }

  /** Mirror.canonical on a URL of this origin. */
  function Canonicalize(u: string, excluded: string -> bool): Option<string>
    requires ORIGIN <= u
  {
    OfRef(Parse(u), excluded)
  }

  // ------------------------------------------------------------------ what is accepted, and what survives

  /** The keys that are dropped, case folded: "utm_" anything, "fbclid" and "gclid". */
  ghost predicate Dropped(key: string) {
    (exists rest :: LowerAll(key) == "utm_" + rest) || LowerAll(key) in {"fbclid", "gclid"}
  }

  lemma {:induction false} LowerAllIs(s: string)
    ensures |LowerAll(s)| == |s|
    ensures forall i :: 0 <= i < |s| ==>
      LowerAll(s)[i] == if 'A' <= s[i] <= 'Z' then s[i] - 'A' + 'a' else s[i]
  {
    if s != [] {
      LowerAllIs(s[1..]);
    }
  }

  lemma TrackingIsDropped(key: string)
    ensures Tracking(key) <==> Dropped(key)
  {
    var low := LowerAll(key);
    if "utm_" <= low {
      assert low == "utm_" + low[4..];
    }
  }

  /** The query keeps every pair whose key is not dropped, as often as it held it, and no other. */
  lemma {:induction false} KeepKeeps(ps: seq<Pair>)
    ensures forall p :: multiset(Keep(ps))[p] == if Dropped(p.key) then 0 else multiset(ps)[p]
  {
    hide Dropped, Tracking;
    if ps != [] {
      KeepKeeps(ps[1..]);
      TrackingIsDropped(ps[0].key);
      assert ps == [ps[0]] + ps[1..];
      var head := if Tracking(ps[0].key) then [] else [ps[0]];
      assert multiset(Keep(ps)) == multiset(head) + multiset(Keep(ps[1..]));
    }
  }

  lemma PrefixDropped(key: string)
    requires |key| >= 4 && key[0] in "uU" && key[1] in "tT" && key[2] in "mM" && key[3] == '_'
    ensures Dropped(key)
  {
    LowerAllIs(key);
    assert LowerAll(key)[..4] == "utm_";
    assert LowerAll(key) == "utm_" + LowerAll(key)[4..];
  }

  lemma OtherKept(key: string)
    requires |key| < 4 || (key[0] !in "uUfFgG")
    ensures !Dropped(key)
  {
    LowerAllIs(key);
    assert forall rest :: |"utm_" + rest| >= 4 && ("utm_" + rest)[0] == 'u';
  }

  /** Document identifiers and pagination survive; tracking parameters do not, in any case. */
  lemma FilteredKeys()
    ensures !Dropped("id") && !Dropped("page") && !Dropped("utm") && !Dropped("xutm_source")
    ensures Dropped("utm_source") && Dropped("UTM_Medium") && Dropped("fbclid") && Dropped("GCLID")
  {
    hide Dropped;
    OtherKept("id");
    OtherKept("page");
    OtherKept("utm");
    OtherKept("xutm_source");
    PrefixDropped("utm_source");
    PrefixDropped("UTM_Medium");
    WholeKeys();
  }

  lemma WholeKeys()
    ensures Dropped("fbclid") && Dropped("GCLID")
  {
    LowerAllIs("fbclid");
    LowerAllIs("GCLID");
    assert LowerAll("fbclid") == "fbclid" && LowerAll("GCLID") == "gclid";
  }

  /** How many of the pairs are not dropped. */
  ghost function Untracked(ps: seq<Pair>): nat {
    if ps == [] then 0 else (if Dropped(ps[0].key) then 0 else 1) + Untracked(ps[1..])
  }

  lemma {:induction false} UntrackedIsKept(ps: seq<Pair>)
    ensures |Keep(ps)| == Untracked(ps)
  {
    hide Dropped, Tracking;
    if ps != [] {
      TrackingIsDropped(ps[0].key);
      UntrackedIsKept(ps[1..]);
    }
  }

  /** When path and query have a normal form, and what it holds: the quoted path, and in order exactly the
      pairs that are not dropped. */
  lemma TailHolds(path: string, query: string, maxFields: nat, excluded: string -> bool)
    ensures Tail(path, query, maxFields, excluded).Some? <==>
      !excluded(Unquote(if path == [] then "/" else path)) && Untracked(ParseQuery(query)) <= maxFields
        && |query| <= 1000
    ensures Tail(path, query, maxFields, excluded).Some? ==>
      var (p, q) := SplitTail(Tail(path, query, maxFields, excluded).value);
      && p == Quote(Path, if path == [] then "/" else path)
      && Sorted(ParseQuery(q))
      && forall pair ::
           multiset(ParseQuery(q))[pair] == if Dropped(pair.key) then 0 else multiset(ParseQuery(query))[pair]
  {
    hide Quote, Unquote, ParseQuery, Keep, Sort, WriteQuery, Dropped, SplitTail, Sorted;
    var ps := ParseQuery(query);
    UntrackedIsKept(ps);
    KeepKeeps(ps);
    SortSorts(Keep(ps));
    ParseWritten(Sort(Keep(ps)));
    WrittenEmpty(Sort(Keep(ps)));
    if Tail(path, query, maxFields, excluded).Some? {
      PlainParts(if path == [] then "/" else path, query);
      SplitBuilt(Quote(Path, if path == [] then "/" else path), EncodedQuery(query));
    }
  }

  /** When a reference has a canonical URL on this origin, and what that is. */
  lemma AcceptedIff(r: Ref, excluded: string -> bool)
    ensures OfRef(r, excluded).Some? <==>
      && (r.scheme == "https" || r.scheme == "http") && !r.hasUserinfo && r.host == "www.cheyennecity.org"
      && (r.port == None || r.port == Some(80) || r.port == Some(443))
      && Tail(r.path, r.query, 8, excluded).Some?
    ensures OfRef(r, excluded).Some? ==>
      OfRef(r, excluded).value == "https://www.cheyennecity.org" + Tail(r.path, r.query, 8, excluded).value
  {
    hide Tail;
  }

  // ------------------------------------------------------------------ filtering and sorting settle

  lemma {:induction false} KeepLeavesUntracked(ps: seq<Pair>)
    ensures forall p :: p in Keep(ps) ==> !Tracking(p.key)
  {
    if ps != [] {
      KeepLeavesUntracked(ps[1..]);
    }
  }

  lemma {:induction false} KeepUntracked(ps: seq<Pair>)
    requires forall p :: p in ps ==> !Tracking(p.key)
    ensures Keep(ps) == ps
  {
    if ps != [] {
      assert ps[0] in ps;
      KeepUntracked(ps[1..]);
      assert [ps[0]] + ps[1..] == ps;
    }
  }

  /** Sorting the kept pairs gives pairs that filtering and sorting leave alone. */
  lemma KeptAndSorted(ps: seq<Pair>)
    ensures var q := Sort(Keep(ps)); Keep(q) == q && Sort(q) == q && |q| == |Keep(ps)|
  {
    var kept := Keep(ps);
    var q := Sort(kept);
    KeepLeavesUntracked(ps);
    SortSorts(kept);
    forall p | p in q ensures !Tracking(p.key) {
      assert p in multiset(q);
      assert p in multiset(kept);
    }
    KeepUntracked(q);
    SortOfSorted(q);
  }

  // ------------------------------------------------------------------ the fixed point

  function EncodedQuery(query: string): string {
    WriteQuery(Sort(Keep(ParseQuery(query))))
  }

  /** The path and query of a normal form normalise to themselves exactly if the re-encoded query
      still fits the limit. */
  lemma TailFixedPoint(path: string, query: string, maxFields: nat, excluded: string -> bool)
    requires Tail(path, query, maxFields, excluded).Some?
    ensures var p, q := Quote(Path, if path == [] then "/" else path), EncodedQuery(query);
      && Tail(path, query, maxFields, excluded) == Some(p + if q == [] then [] else "?" + q)
      && p != []
      && (Tail(p, q, maxFields, excluded) == Some(p + if q == [] then [] else "?" + q) <==> |q| <= MAX_QUERY)
  {
    hide Quote, Unquote, ParseQuery, Keep, Sort, WriteQuery;
    var p0 := if path == [] then "/" else path;
    var kept := Keep(ParseQuery(query));
    var sorted := Sort(kept);
    QuotePathIdempotent(p0);
    UnquoteQuoted(p0);
    KeptAndSorted(ParseQuery(query));
    ParseWritten(sorted);
    WrittenEmpty(sorted);
    QuoteNonEmpty(p0);
    assert kept == [] <==> sorted == [];
  }

  lemma WrittenEmpty(ps: seq<Pair>)
    ensures WriteQuery(ps) == [] <==> ps == []
  {
    if ps != [] {
      ReadWritten(ps[0]);
    }
  }

  lemma QuoteNonEmpty(s: string)
    requires s != []
    ensures Quote(Path, s) != []
  {
    QuoteOfChar(Path, s);
    QuotedHead(s[0]);
  }

  /** A normal form comes apart into the path and query it was built from. */
  lemma SplitBuilt(p: string, q: string)
    requires '#' !in p && '?' !in p && '#' !in q
    ensures SplitTail(p + if q == [] then [] else "?" + q) == (p, q)
  {
    var rest := p + if q == [] then [] else "?" + q;
    FindNone(rest, '#');
    assert rest[..|rest|] == rest;
    if q == [] {
      assert rest == p;
      FindNone(p, '?');
    } else {
      assert rest == p + ['?'] + q;
      FindAt(p, '?', q);
      assert rest[..|p|] == p && rest[|p| + 1..] == q;
    }
  }

  /** A fragment is cut off before the query is looked for. */
  lemma FragmentDropped(p: string, q: string, fragment: string)
    requires '#' !in p && '?' !in p && '#' !in q
    ensures SplitTail(p + (if q == [] then [] else "?" + q) + "#" + fragment) == (p, q)
  {
    hide Find;
    var shown := p + if q == [] then [] else "?" + q;
    var rest := shown + "#" + fragment;
    assert rest == shown + ['#'] + fragment;
    FindAt(shown, '#', fragment);
    assert rest[..|shown|] == shown;
    SplitBuilt(p, q);
    FindNone(shown, '#');
    assert shown[..|shown|] == shown;
  }

  lemma PlainExcludes(style: Style, c: char)
    requires Plain(style, c)
    ensures c != '#' && (style.Path? ==> c != '?')
  {
  }

  lemma QuotedMarkFree(style: Style, s: string)
    ensures '#' !in Quote(style, s) && (style.Path? ==> '?' !in Quote(style, s))
  {
    hide QuoteBytes, Encode, Plain;
    QuotedIsPlain(style, Encode(s));
    forall c | c in Quote(style, s) ensures c != '#' && (style.Path? ==> c != '?') {
      PlainExcludes(style, c);
    }
  }

  lemma {:induction false} WrittenPlain(ps: seq<Pair>)
    ensures '#' !in WriteQuery(ps)
  {
    hide Quote;
    if ps != [] {
      QuotedMarkFree(Form, ps[0].key);
      QuotedMarkFree(Form, ps[0].value);
      WrittenPlain(ps[1..]);
    }
  }

  /** Idempotence, exactly. An accepted reference's canonical URL u is its own canonical form, which
      request() requires before it fetches u, if and only if u's re-encoded query is at most 1000
      characters and u's path does not end in empty parameters. */
  lemma CanonicalFixedPoint(r: Ref, excluded: string -> bool)
    requires OfRef(r, excluded).Some?
    ensures var u := OfRef(r, excluded).value;
      var path := Quote(Path, if r.path == [] then "/" else r.path);
      && ORIGIN <= u
      && (Canonicalize(u, excluded) == Some(u) <==> |EncodedQuery(r.query)| <= MAX_QUERY && !EmptyParams(path))
  {
    hide Quote, ParseQuery, Keep, Sort, WriteQuery, EmptyParams, SplitTail, Tail;
    var p, q := Quote(Path, if r.path == [] then "/" else r.path), EncodedQuery(r.query);
    TailFixedPoint(r.path, r.query, 8, excluded);
    PlainParts(if r.path == [] then "/" else r.path, r.query);
    SplitBuilt(p, q);
    var tail := p + if q == [] then [] else "?" + q;
    var u := ORIGIN + tail;
    assert u[..|ORIGIN|] == ORIGIN && u[|ORIGIN|..] == tail;
    assert Parse(u) == Ref("https", false, HOST, None, Rejoined(p), q);
    if EmptyParams(p) {
      QuotedIsPlain(Path, Encode(if r.path == [] then "/" else r.path));
      QuoteIs(if r.path == [] then "/" else r.path);
      DroppedParams(p, q, 8, excluded);
      assert forall t :: ORIGIN + t == u ==> t == tail by {
        forall t | ORIGIN + t == u ensures t == tail { assert t == u[|ORIGIN|..]; }
      }
    } else {
      assert forall t :: ORIGIN + t == u ==> t == tail by {
        forall t | ORIGIN + t == u ensures t == tail { assert t == u[|ORIGIN|..]; }
      }
    }
  }

  lemma QuoteIs(s: string)
    ensures Quote(Path, s) == QuoteBytes(Path, Encode(s))
  {
  }

  lemma PlainParts(path: string, query: string)
    ensures '#' !in Quote(Path, path) && '?' !in Quote(Path, path) && '#' !in EncodedQuery(query)
  {
    hide Quote, WriteQuery;
    QuotedMarkFree(Path, path);
    WrittenPlain(Sort(Keep(ParseQuery(query))));
  }

  /** With the ';' dropped, the normal form is a different text. */
  lemma DroppedParams(p: string, q: string, maxFields: nat, excluded: string -> bool)
    requires EmptyParams(p) && forall c :: c in p ==> Safe(Path, c)
    ensures Tail(Rejoined(p), q, maxFields, excluded) != Some(p + if q == [] then [] else "?" + q)
  {
    hide Quote, Unquote, ParseQuery, Keep, Sort, WriteQuery;
    var short := p[..|p| - 1];
    var p1 := if short == [] then "/" else short;
    assert forall c :: c in p1 ==> Safe(Path, c);
    QuoteSafe(p1);
    var kept := Keep(ParseQuery(q));
    var t := p1 + if kept == [] then [] else "?" + WriteQuery(Sort(kept));
    var u := p + if q == [] then [] else "?" + q;
    assert u[|p| - 1] == ';';
    if short == [] {
      assert t[0] == '/' && u[0] == ';';
    } else if kept == [] {
      assert |t| < |p| <= |u|;
    } else {
      assert t[|p| - 1] == '?';
    }
  }

  // ------------------------------------------------------------------ where the two conditions come from

  /** Quoting neither adds nor removes empty parameters. */
  lemma QuoteKeepsParams(s: string)
    ensures EmptyParams(Quote(Path, s)) <==> EmptyParams(s)
  {
    if s != [] {
      var front, c := s[..|s| - 1], s[|s| - 1];
      QuoteLast(s);
      QuoteKeepsSegment(front);
      LastOfQuoted(c);
      var q := QuoteBytes(Path, EncodeChar(c));
      if c == ';' {
        assert Quote(Path, s)[..|Quote(Path, s)| - 1] == Quote(Path, front);
      }
    }
  }

  lemma QuoteLast(s: string)
    requires s != []
    ensures Quote(Path, s) == Quote(Path, s[..|s| - 1]) + QuoteBytes(Path, EncodeChar(s[|s| - 1]))
  {
    var front, last := s[..|s| - 1], [s[|s| - 1]];
    assert s == front + last;
    EncodeAppend(front, last);
    assert Encode(last) == EncodeChar(last[0]) + Encode(last[1..]) == EncodeChar(last[0]);
    QuoteBytesAppend(Path, Encode(front), Encode(last));
  }

  /** A quoted character ends in ';' or '/' only if it is one; otherwise it holds neither. */
  lemma LastOfQuoted(c: char)
    ensures var q := QuoteBytes(Path, EncodeChar(c));
      q != [] && (c in ";/" ==> q == [c]) && (c !in ";/" ==> ';' !in q && '/' !in q)
  {
    QuotedHead(c);
    if Safe(Path, c) {
      QuoteOneSafe(c);
    } else {
      EncodedUnsafe(c);
      EscapesHoldNoMark(EncodeChar(c));
    }
  }

  lemma {:induction false} EscapesHoldNoMark(bs: seq<Byte>)
    requires forall b :: b in bs ==> Escaped(b)
    ensures ';' !in QuoteBytes(Path, bs) && '/' !in QuoteBytes(Path, bs)
  {
    if bs != [] {
      assert bs[0] in bs;
      EscapesHoldNoMark(bs[1..]);
    }
  }

  lemma {:induction false} NoParamsAppend(a: string, b: string)
    requires ';' !in b && '/' !in b
    ensures NoParams(a + b) <==> NoParams(a)
    decreases |b|
  {
    if b == [] {
      assert a + b == a;
    } else {
      var c := b[|b| - 1];
      assert c in b;
      assert (a + b)[..|a + b| - 1] == a + b[..|b| - 1];
      NoParamsAppend(a, b[..|b| - 1]);
    }
  }

  lemma {:induction false} QuoteKeepsSegment(s: string)
    ensures NoParams(Quote(Path, s)) <==> NoParams(s)
    decreases |s|
  {
    if s != [] {
      var front, c := s[..|s| - 1], s[|s| - 1];
      QuoteLast(s);
      LastOfQuoted(c);
      QuoteKeepsSegment(front);
      var q := QuoteBytes(Path, EncodeChar(c));
      if c in ";/" {
        assert (Quote(Path, front) + q)[|Quote(Path, front)|] == c;
      } else {
        NoParamsAppend(Quote(Path, front), q);
      }
    }
  }

  /** A path that urljoin has rejoined has no empty parameters. */
  lemma RejoinedOnce(path: string)
    ensures !EmptyParams(Rejoined(path))
  {
    if EmptyParams(path) {
      var short := path[..|path| - 1];
      assert NoParams(short);
    }
  }

  /** So a reference that was joined under its own scheme (its path was rejoined) is canonical once and
      for all exactly if its re-encoded query fits. */
  lemma JoinedFixedPoint(r: Ref, original: string, excluded: string -> bool)
    requires r.path == Rejoined(original) && original != [] && original[0] == '/' && OfRef(r, excluded).Some?
    ensures ORIGIN <= OfRef(r, excluded).value
    ensures Canonicalize(OfRef(r, excluded).value, excluded) == Some(OfRef(r, excluded).value)
      <==> |EncodedQuery(r.query)| <= MAX_QUERY
  {
    hide Quote, EmptyParams, EncodedQuery, Canonicalize, OfRef;
    CanonicalFixedPoint(r, excluded);
    RejoinedOnce(original);
    QuoteKeepsParams(r.path);
    RejoinedRooted(original);
  }

  lemma RejoinedRooted(path: string)
    requires path != [] && path[0] == '/'
    ensures Rejoined(path) != []
  {
  }

  lemma EncodedTwice(query: string)
    ensures EncodedQuery(EncodedQuery(query)) == EncodedQuery(query)
  {
    hide ParseQuery, Keep, Sort, WriteQuery;
    KeptAndSorted(ParseQuery(query));
    ParseWritten(Sort(Keep(ParseQuery(query))));
  }

  /** What the canonical URL parses to again. */
  lemma ParsedAgain(r: Ref, excluded: string -> bool)
    requires OfRef(r, excluded).Some?
    ensures ORIGIN <= OfRef(r, excluded).value
    ensures Parse(OfRef(r, excluded).value)
      == Ref("https", false, HOST, None, Rejoined(Quote(Path, if r.path == [] then "/" else r.path)),
             EncodedQuery(r.query))
  {
    hide Quote, ParseQuery, Keep, Sort, WriteQuery, EmptyParams, SplitTail, Tail, EncodedQuery;
    var p, q := Quote(Path, if r.path == [] then "/" else r.path), EncodedQuery(r.query);
    TailFixedPoint(r.path, r.query, 8, excluded);
    PlainParts(if r.path == [] then "/" else r.path, r.query);
    SplitBuilt(p, q);
    var tail := p + if q == [] then [] else "?" + q;
    var u := ORIGIN + tail;
    assert u[..|ORIGIN|] == ORIGIN && u[|ORIGIN|..] == tail;
  }

  /** canonical() settles: applied to a canonical URL it either refuses it, for certain if the re-encoded
      query is over 1000 characters, or gives a URL that is its own canonical form. (urlsplit of a URL with a
      host gives an empty path or one that starts with '/'.) */
  lemma SettlesAtSecondForm(r: Ref, excluded: string -> bool)
    requires OfRef(r, excluded).Some? && (r.path == [] || r.path[0] == '/')
    ensures ORIGIN <= OfRef(r, excluded).value
    ensures var w := Canonicalize(OfRef(r, excluded).value, excluded);
      && (|EncodedQuery(r.query)| > MAX_QUERY ==> w == None)
      && (w.Some? ==> ORIGIN <= w.value && Canonicalize(w.value, excluded) == w)
  {
    hide Quote, EmptyParams, EncodedQuery, Parse, ParseQuery, Keep, Sort, WriteQuery, Unquote;
    ParsedAgain(r, excluded);
    var again := Parse(OfRef(r, excluded).value);
    var p0 := if r.path == [] then "/" else r.path;
    EncodedTwice(r.query);
    if OfRef(again, excluded).Some? {
      QuotedRoot(r, excluded);
      JoinedFixedPoint(again, Quote(Path, p0), excluded);
    }
  }

  lemma QuotedRoot(r: Ref, excluded: string -> bool)
    requires r.path == [] || r.path[0] == '/'
    ensures var p := Quote(Path, if r.path == [] then "/" else r.path); p != [] && p[0] == '/'
  {
    var p0 := if r.path == [] then "/" else r.path;
    QuotedSafeStart(p0);
  }

  /** An http reference that ends in empty parameters is accepted, and canonicalises a second time to
      something else: urljoin under the https base returned it untouched the first time only. */
  lemma OtherSchemeNotFixed(excluded: string -> bool)
    requires !excluded(Unquote("/a;")) && !excluded(Unquote("/a"))
    ensures var r := Ref("http", false, HOST, None, "/a;", "");
      && OfRef(r, excluded) == Some(ORIGIN + "/a;")
      && ORIGIN <= ORIGIN + "/a;"
      && Canonicalize(ORIGIN + "/a;", excluded) == Some(ORIGIN + "/a")
  {
    hide Unquote, Tail, SplitTail, EmptyParams;
    TailOfSafe("/a;", excluded);
    TailOfSafe("/a", excluded);
    ParseOfTail("/a;");
    OneMark();
  }

  lemma TailOfSafe(path: string, excluded: string -> bool)
    requires path != [] && (forall c :: c in path ==> Safe(Path, c)) && !excluded(Unquote(path))
    ensures Tail(path, "", 8, excluded) == Some(path)
  {
    hide Unquote, Quote, ParseQuery, Keep;
    QuoteSafe(path);
    ParseWritten([]);
    assert ParseQuery("") == [] by { ParseWritten([]); assert WriteQuery([]) == ""; }
    assert Keep([]) == [] by { KeepUntracked([]); }
    assert path + [] == path;
  }

  /** A canonical URL without a query. */
  lemma ParseOfTail(path: string)
    requires '#' !in path && '?' !in path
    ensures ORIGIN <= ORIGIN + path && Parse(ORIGIN + path) == Ref("https", false, HOST, None, Rejoined(path), "")
  {
    hide Rejoined, SplitTail;
    SplitBuilt(path, "");
    assert path + [] == path;
    var u := ORIGIN + path;
    assert u[|ORIGIN|..] == path;
  }

  lemma OneMark()
    ensures Rejoined("/a;") == "/a"
  {
    assert "/a;"[..2] == "/a" && NoParams("/a");
  }

  /** n double quotes. */
  function Marks(n: nat): string {
    if n == 0 then [] else ['"'] + Marks(n - 1)
  }

  lemma {:induction false} MarksText(n: nat)
    ensures |Marks(n)| == n && forall c :: c in Marks(n) ==> c == '"'
  {
    if n > 0 { MarksText(n - 1); }
  }

  lemma {:induction false} MarksEncode(n: nat)
    ensures |Quote(Form, Marks(n))| == 3 * n
    ensures AsciiRun(Marks(n)) == n && forall c :: c in Marks(n) ==> IsAscii(c)
    ensures Decode(UnquoteToBytes(Marks(n))) == Marks(n)
  {
    if n > 0 {
      MarksEncode(n - 1);
      MarksText(n);
      assert Marks(n)[1..] == Marks(n - 1);
      var mark: seq<Byte> := [0x22];
      assert Encode(Marks(n)) == mark + Encode(Marks(n - 1));
      assert (mark + Encode(Marks(n - 1)))[1..] == Encode(Marks(n - 1));
      assert |QuoteByte(Form, 0x22)| == 3;
      var b := UnquoteToBytes(Marks(n));
      assert b == mark + UnquoteToBytes(Marks(n - 1));
      assert DecodeOne(b) == ('"', 1);
      assert b[1..] == UnquoteToBytes(Marks(n - 1));
    }
  }

  /** A query within the limit whose re-encoding is not: 334 to 1000 double quotes are accepted, and the
      canonical URL they give is then refused. */
  lemma LongQueryNotFixed(n: nat, excluded: string -> bool)
    requires 334 <= n <= 1000 && !excluded(Unquote("/"))
    ensures var r := Ref("https", false, HOST, None, "/", Marks(n));
      && OfRef(r, excluded).Some? && ORIGIN <= OfRef(r, excluded).value
      && Canonicalize(OfRef(r, excluded).value, excluded) != OfRef(r, excluded)
  {
    var s, r := Marks(n), Ref("https", false, HOST, None, "/", Marks(n));
    MarksText(n);
    MarksEncode(n);
    hide Unquote, Quote, Decode, UnquoteToBytes, Marks;
    ParseOnePart(s);
    FindNone(s, '=');
    PlusFree(s);
    PlusFree([]);
    MarksRead(n);
    var pair := Pair(s, "");
    assert s[..n] == s;
    assert ReadPair(s) == pair;
    MarksUntracked(n);
    assert Keep([pair]) == [pair] + Keep([pair][1..]) == [pair];
    assert Sort([pair]) == Insert(pair, Sort([pair][1..])) == [pair];
    assert EncodedQuery(s) == WritePair(pair);
    CanonicalFixedPoint(r, excluded);
  }

  lemma PlusFree(s: string)
    requires '+' !in s
    ensures PlusToSpace(s) == s
  {
  }

  lemma MarksRead(n: nat)
    ensures Unquote(Marks(n)) == Marks(n) && Unquote([]) == []
  {
    MarksText(n);
    MarksEncode(n);
    assert Marks(n)[..n] == Marks(n);
    assert Marks(n) + [] == Marks(n);
  }

  lemma MarksUntracked(n: nat)
    requires n > 0
    ensures !Tracking(Marks(n))
  {
    assert LowerAll(Marks(n))[0] == '"';
  }
}
