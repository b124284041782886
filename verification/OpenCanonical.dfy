/** tools/anycity_crawler.py canonical: the normal form of a URL on any host in scope, with the origin
    rebuilt from scheme, lower-cased host and port. Bracketed (IPv6) hosts are not modelled. */
module OpenCanonical {
  import opened Common
  import opened Utf8
  import opened UrlText
  import opened Canonical

  /** A URL after urljoin and urlsplit; `host` is .hostname, which is lower case. */
  datatype Reference = Reference(scheme: string, hasUserinfo: bool, host: string, port: Option<nat>, path: string,
                                 query: string)

  const MAX_PORT := 65535

  predicate HostChar(c: char) {
    c !in ":/?#@[]"
  }

  /** What urlsplit gives for a URL with a host: a lower-case host, a 16-bit port, a rooted path. */
  predicate WellSplit(r: Reference) {
    && (forall c :: c in r.host ==> HostChar(c)) && LowerAll(r.host) == r.host
    && (r.port.Some? ==> r.port.value <= MAX_PORT)
    && (r.path == [] || r.path[0] == '/')
  }

  // ------------------------------------------------------------------ ports

  function Digit(d: nat): char
    requires d < 10
  {
    ('0' as int + d) as char
  }

  function Decimal(n: nat): (s: string)
    ensures s != [] && forall c :: c in s ==> '0' <= c <= '9'
  {
    if n < 10 then [Digit(n)] else Decimal(n / 10) + [Digit(n % 10)]
  }

  predicate Digits(s: string) {
    forall c :: c in s ==> '0' <= c <= '9'
  }

  function Value(s: string): nat
    requires Digits(s)
  {
    if s == [] then 0
    else
      var front, last := s[..|s| - 1], s[|s| - 1];
      assert last in s && forall c :: c in front ==> c in s;
      10 * Value(front) + (last as int - '0' as int)
  }

  lemma {:induction false} ValueOfDecimal(n: nat)
    ensures Value(Decimal(n)) == n
  {
    if n < 10 {
      assert Decimal(n)[..0] == [];
    } else {
      ValueOfDecimal(n / 10);
      assert Decimal(n)[..|Decimal(n)| - 1] == Decimal(n / 10);
    }
  }

  // ------------------------------------------------------------------ the normal form

  /** The port is written unless it is absent, 0 or the scheme's own. */
  function ShownPort(scheme: string, port: Option<nat>): Option<nat> {
    if port.Some?
      && (port.value == 0 || (scheme == "https" && port.value == 443) || (scheme == "http" && port.value == 80))
    then None else port
  }

  function PortSuffix(port: Option<nat>): string {
    if port.Some? then ":" + Decimal(port.value) else ""
  }

  /** canonical on a parsed reference; `allowed` is the scope's test of the host. */
  function OfReference(r: Reference, allowed: string -> bool, excluded: string -> bool): Option<string> {
    if r.scheme !in {"https", "http"} || r.hasUserinfo then None
    else if r.host == [] || !allowed(r.host) then None
    else
      match Tail(r.path, r.query, 10, excluded)
      case None => None
      case Some(t) => Some(r.scheme + "://" + (r.host + PortSuffix(ShownPort(r.scheme, r.port)) + t))
  }

  /** When a reference has a canonical URL, and what that is: the port is written exactly if it is neither 0
      nor the scheme's own. */
  lemma AcceptedIff(r: Reference, allowed: string -> bool, excluded: string -> bool)
    ensures OfReference(r, allowed, excluded).Some? <==>
      && (r.scheme == "https" || r.scheme == "http") && !r.hasUserinfo && r.host != "" && allowed(r.host)
      && Tail(r.path, r.query, 10, excluded).Some?
    ensures OfReference(r, allowed, excluded).Some? ==>
      var shown := r.port.Some? && r.port.value != 0
        && !(r.scheme == "https" && r.port.value == 443) && !(r.scheme == "http" && r.port.value == 80);
      OfReference(r, allowed, excluded).value
        == r.scheme + "://" + (r.host + (if shown then ":" + Decimal(r.port.value) else "")
                               + Tail(r.path, r.query, 10, excluded).value)
  {
    hide Tail, Decimal;
  }

  /** A number is written without leading zeros. */
  lemma {:induction false} NoLeadingZero(n: nat)
    ensures n > 0 ==> Decimal(n)[0] != '0'
    ensures n == 0 ==> Decimal(n) == "0"
  {
    if n >= 10 {
      NoLeadingZero(n / 10);
    }
  }

  // ------------------------------------------------------------------ parsing a URL again

  /** .hostname and .port of a network location without brackets; None where .port raises ValueError. */
  function SplitNetloc(netloc: string): Option<(string, Option<nat>)> {
    var k := Find(netloc, ':');
    var text := if k == |netloc| then [] else netloc[k + 1..];
    if text == [] then Some((LowerAll(netloc[..k]), None))
    else if !Digits(text) || Value(text) > MAX_PORT then None
    else Some((LowerAll(netloc[..k]), Some(Value(text))))
  }

  function NetlocEnd(rest: string): nat {
    Min(Find(rest, '/'), Min(Find(rest, '?'), Find(rest, '#')))
  }

  /** What follows "scheme://", split; joined under its own scheme, the path is rejoined. */
  function SplitRest(scheme: string, rest: string): Option<Reference> {
    var e := NetlocEnd(rest);
    var netloc := rest[..e];
    var (path, query) := SplitTail(rest[e..]);
    if '@' in netloc then Some(Reference(scheme, true, netloc, None, Rejoined(path), query))
    else
      match SplitNetloc(netloc)
      case None => None
      case Some((host, port)) => Some(Reference(scheme, false, host, port, Rejoined(path), query))
  }

  /** urlsplit(urljoin(u, u)) for an http or https URL, as request() has it. */
  function ParseUrl(u: string): Option<Reference> {
    if "https://" <= u then SplitRest("https", u[8..])
    else if "http://" <= u then SplitRest("http", u[7..])
    else None
  }

  /** canonical(u, u) */
  function CanonicalUrl(u: string, allowed: string -> bool, excluded: string -> bool): Option<string> {
    match ParseUrl(u)
    case None => None
    case Some(r) => OfReference(r, allowed, excluded)
  }

  // ------------------------------------------------------------------ the fixed point

  lemma {:induction false} FindBeyond(a: string, c: char, b: string)
    requires c !in a
    ensures Find(a + b, c) == |a| + Find(b, c)
  {
    if a == [] {
      assert a + b == b;
    } else {
      assert (a + b)[0] == a[0] && a[0] in a && (a + b)[1..] == a[1..] + b;
      FindBeyond(a[1..], c, b);
    }
  }

  lemma NetlocIs(netloc: string, tail: string)
    requires '/' !in netloc && '?' !in netloc && '#' !in netloc && tail != [] && tail[0] == '/'
    ensures NetlocEnd(netloc + tail) == |netloc|
    ensures (netloc + tail)[..|netloc|] == netloc && (netloc + tail)[|netloc|..] == tail
  {
    FindBeyond(netloc, '/', tail);
    FindBeyond(netloc, '?', tail);
    FindBeyond(netloc, '#', tail);
    assert Find(tail, '/') == 0;
  }

  lemma PortReadsBack(host: string, port: Option<nat>)
    requires (forall c :: c in host ==> HostChar(c)) && LowerAll(host) == host
      && (port.Some? ==> port.value <= MAX_PORT)
    ensures SplitNetloc(host + PortSuffix(port)) == Some((host, port))
  {
    if port.Some? {
      var d := Decimal(port.value);
      assert ':' !in host;
      assert host + PortSuffix(port) == host + [':'] + d;
      FindAt(host, ':', d);
      ValueOfDecimal(port.value);
      var s := host + [':'] + d;
      assert s[..|host|] == host && s[|host| + 1..] == d;
    } else {
      assert host + PortSuffix(port) == host;
      FindNone(host, ':');
      assert host[..|host|] == host;
    }
  }

  lemma NetlocClean(host: string, port: Option<nat>)
    requires forall c :: c in host ==> HostChar(c)
    ensures var n := host + PortSuffix(port); '/' !in n && '?' !in n && '#' !in n && '@' !in n
  {
    if port.Some? {
      assert forall c :: c in Decimal(port.value) ==> '0' <= c <= '9';
    }
  }

  /** A canonical URL parses to what it was built from, but for the dropped port and empty parameters. */
  lemma UrlParsesBack(r: Reference, p: string, q: string)
    requires WellSplit(r) && r.scheme in {"https", "http"}
    requires p != [] && p[0] == '/' && '#' !in p && '?' !in p && '#' !in q
    ensures var port := ShownPort(r.scheme, r.port);
      ParseUrl(r.scheme + "://" + (r.host + PortSuffix(port) + (p + if q == [] then [] else "?" + q)))
        == Some(Reference(r.scheme, false, r.host, port, Rejoined(p), q))
  {
    hide Rejoined, SplitTail, SplitNetloc, Find, PortSuffix, LowerAll;
    var port := ShownPort(r.scheme, r.port);
    var n, tail := r.host + PortSuffix(port), p + if q == [] then [] else "?" + q;
    NetlocClean(r.host, port);
    assert tail[0] == p[0];
    NetlocIs(n, tail);
    PortReadsBack(r.host, port);
    SplitBuilt(p, q);
    assert SplitRest(r.scheme, n + tail) == Some(Reference(r.scheme, false, r.host, port, Rejoined(p), q));
    SchemeCut(r.scheme, n + tail);
  }

  lemma SchemeCut(scheme: string, rest: string)
    requires scheme in {"https", "http"}
    ensures ParseUrl(scheme + "://" + rest) == SplitRest(scheme, rest)
  {
    hide SplitRest;
    var u := scheme + "://" + rest;
    if scheme == "https" {
      assert u[..8] == "https://" && u[8..] == rest;
    } else {
      assert u[..7] == "http://" && u[7..] == rest && u[4] == ':';
    }
  }

  lemma OriginKeeps(scheme: string, port: Option<nat>)
    ensures ShownPort(scheme, ShownPort(scheme, port)) == ShownPort(scheme, port)
  {
  }

  /** Idempotence on any host, exactly: request() finds the canonical URL of an accepted reference to be its own
      canonical form if and only if the re-encoded query is at most 1000 characters and the path does not
      end in empty parameters. */
  lemma OpenFixedPoint(r: Reference, allowed: string -> bool, excluded: string -> bool)
    requires WellSplit(r) && OfReference(r, allowed, excluded).Some?
    ensures var u := OfReference(r, allowed, excluded).value;
      (CanonicalUrl(u, allowed, excluded) == Some(u)) <==>
      (|EncodedQuery(r.query)| <= MAX_QUERY && !EmptyParams(if r.path == [] then "/" else r.path))
  {
    hide Quote, Tail, EncodedQuery, EmptyParams, ParseUrl, PortSuffix, LowerAll;
    var p0 := if r.path == [] then "/" else r.path;
    var p, q := Quote(Path, p0), EncodedQuery(r.query);
    var tail := p + if q == [] then [] else "?" + q;
    TailFixedPoint(r.path, r.query, 10, excluded);
    PlainParts(p0, r.query);
    QuotedSafeStart(p0);
    QuoteKeepsParams(p0);
    UrlParsesBack(r, p, q);
    OriginKeeps(r.scheme, r.port);
    var front := r.scheme + "://" + (r.host + PortSuffix(ShownPort(r.scheme, r.port)));
    var again := Tail(Rejoined(p), q, 10, excluded);
    SameFront(r.scheme, r.host + PortSuffix(ShownPort(r.scheme, r.port)), tail,
              if again.Some? then again.value else tail);
    if EmptyParams(p) {
      QuotedIsPlain(Path, Encode(p0));
      QuoteIs(p0);
      DroppedParams(p, q, 10, excluded);
    }
  }

  lemma SameFront(scheme: string, netloc: string, a: string, b: string)
    ensures scheme + "://" + (netloc + a) == scheme + "://" + (netloc + b) <==> a == b
  {
    var x, y := scheme + "://" + (netloc + a), scheme + "://" + (netloc + b);
    var k := |scheme| + 3 + |netloc|;
    assert x[k..] == a && y[k..] == b;
  }
}
