/** What whole requests lead to, by the texts that clients and origins send (threadPool.c,
    `serviceRequest`). */
module Outcomes {
  import opened CStrings
  import opened LineLoop
  import opened ResponseParser
  import opened ResponseTheorems
  import opened ResponseFields
  import opened Streams
  import opened Receiving
  import opened Forwarding
  import opened ForwardingTheorems
  import opened HashCache
  import opened Freshness
  import opened Exchange
  import opened Refresh
  import opened Service

  // ----- The method -----

  /** A whole request that comes in time, with closed headers, a URI with a bucket and a host. */
  ghost predicate WellFormed(input: seq<Event>, end: nat) {
    var t := TextRead(input);
    && !Breaks(input, GRACE) && NulFree(Stream(input)) && 4 < |t| && RequestTheorems.HeadersOf(t) == Some(end)
    && var f := RequestTheorems.ReadRequest(t);
       f.Some? && f.value.uri.Some? && f.value.host.Some? && Indexable(f.value.uri.value)
  }

  /** The words of its first line. */
  ghost function FirstWords(input: seq<Event>): seq<string> {
    var t := TextRead(input);
    Split(t[..Find(t, 0, '\n')], 0, ' ')
  }

  lemma WellFormedParses(input: seq<Event>, end: nat)
    requires WellFormed(input, end)
    ensures var f := RequestTheorems.ReadRequest(TextRead(input)).value;
            && Servable(Understood(input)) && Understood(input).fields == f
            && TextLeft(input) == RequestTheorems.ClosedText(TextRead(input), end)
            && RequestTheorems.UriRead(FirstWords(input), RequestParser.NO_FIELDS, f)
  {
    var t := TextRead(input);
    WellFormedIsUnderstood(input);
    HeardIsText(input, GRACE);
    RoomForNewline(input);
    RequestTheorems.ClosedIsParsed(t, RoomFor(input));
    FirstWordsRead(t);
  }

  lemma FirstWordsRead(t: string)
    requires NulFree(t) && RequestTheorems.ReadRequest(t).Some?
    ensures RequestTheorems.UriRead(Split(t[..Find(t, 0, '\n')], 0, ' '), RequestParser.NO_FIELDS,
                                    RequestTheorems.ReadRequest(t).value)
  {
    var e := Find(t, 0, '\n');
    PartsAreText(t[..e], t[e..]);
    assert t == t[..e] + t[e..];
    RequestTheorems.RequestLineRead(t[..e]);
  }

  /** The cache cannot answer the request alone. */
  predicate MustForward(m: Store, uri: string, now: int) {
    var a := Look(m, uri, now);
    a == Miss || a == Expired || (a.Revalidate? && m[uri].info.eTag == None)
  }

  /** A request that must be forwarded is tunnelled exactly if its last method is CONNECT; any other
      goes to the origin whole, if no write to it fails. */
  lemma MethodDecides(s: Served, e: Option<Change>, l: Log, m: Store, now: int, input: seq<Event>, end: nat, w: World,
                      v: World)
    requires Concludes(s, e, l, m, true, now, input, w, v) && WellFormed(input, end)
    requires MustForward(m, RequestTheorems.ReadRequest(TextRead(input)).value.uri.value, now)
    ensures var words := FirstWords(input);
            var k := LastIndex(words, RequestTheorems.IsMethod);
            if k > 0 && SameIgnoringCase(words[k - 1], "CONNECT") then s == Tunnelled && v == w
            else
              && s != Tunnelled
              && (v.refusals == w.refusals ==>
                    v.asked == w.asked + RequestTheorems.ClosedText(TextRead(input), end))
  {
    WellFormedParses(input, end);
    assert Forwards(s, e, l.x, ToForward(input), true, now, w, v);
  }

  /** What a request changes is the entry of its own URI, and a fill brings its own host. */
  lemma ChangeIsNamed(s: Served, e: Option<Change>, l: Log, m: Store, connected: bool, now: int, input: seq<Event>,
                      end: nat, w: World, v: World)
    requires Concludes(s, e, l, m, connected, now, input, w, v) && WellFormed(input, end) && e.Some?
    ensures var f := RequestTheorems.ReadRequest(TextRead(input)).value;
            e.value.uri == f.uri.value && (e.value.Fill? ==> e.value.host == f.host.value)
  {
    WellFormedParses(input, end);
    NamedByRequest(s, e, l, m, ToForward(input), connected, now, w, v);
  }

  lemma NamedByRequest(s: Served, e: Option<Change>, l: Log, m: Store, q: Request, connected: bool, now: int, w: World,
                       v: World)
    requires Responds(s, e, l, m, q, connected, now, w, v) && e.Some?
    ensures e.value.uri == q.uri && (e.value.Fill? ==> e.value.host == q.host)
  {
  }

  /** If the origin is out of reach the client is sent nothing, and the cache stays as it is, unless
      the entry is fresh or the conditional request is too long for its buffer. */
  lemma UnreachableIsSilent(s: Served, e: Option<Change>, l: Log, m: Store, now: int, input: seq<Event>, end: nat,
                            w: World, v: World)
    requires Concludes(s, e, l, m, false, now, input, w, v) && WellFormed(input, end)
    requires !Look(m, RequestTheorems.ReadRequest(TextRead(input)).value.uri.value, now).Hit?
    ensures v == w && e == None && (s == Unreachable || s == NotRefetched || s == Ruined)
    ensures MustForward(m, RequestTheorems.ReadRequest(TextRead(input)).value.uri.value, now) ==> s == Unreachable
  {
    WellFormedParses(input, end);
    SilentWithoutOrigin(s, e, l, m, ToForward(input), now, w, v);
  }

  lemma SilentWithoutOrigin(s: Served, e: Option<Change>, l: Log, m: Store, q: Request, now: int, w: World, v: World)
    requires Responds(s, e, l, m, q, false, now, w, v) && !Look(m, q.uri, now).Hit?
    ensures v == w && e == None && (s == Unreachable || s == NotRefetched || s == Ruined)
    ensures MustForward(m, q.uri, now) ==> s == Unreachable
  {
  }

  // ----- The answer to a revalidation -----

  /** A conditional request goes out whole and the start of its answer comes in time. */
  ghost predicate Asked(r: Refreshed, t: string, chunks: seq<string>, m: Store, uri: string, w: World, v: World) {
    && uri in m && m[uri].info.eTag.Some? && Refresh.Revalidates(r, t, chunks, m, uri, true, w, v)
    && |Revalidation.Template(uri, m[uri].info.eTag.value, m[uri].host)| < RESPONSE_HEADER_SIZE
    && v.refusals == w.refusals && StartOf(w.events, SILENCES).ok
  }

  /** An answer that starts with the status line of a 304 leaves the entry as it is, and the client
      is sent nothing of it. */
  lemma NotModifiedKeeps(r: Refreshed, t: string, chunks: seq<string>, m: Store, uri: string, w: World, v: World)
    requires Asked(r, t, chunks, m, uri, w, v) && "HTTP/1.1 304 Not Modified" <= StartOf(w.events, SILENCES).text
    ensures r == StillGood && v.sent == w.sent && Renewal(m, uri, r) == m
  {
    StartsWithSame(t, "HTTP/1.1 304 Not Modified");
  }

  lemma StartsWithSame(t: string, prefix: string)
    ensures prefix <= t ==> StartsIgnoringCase(t, prefix)
  {
    if prefix <= t {
      assert t[..|prefix|] == prefix;
    }
  }

  /** An answer that starts with another status is relayed, and replaces the entry's text. */
  lemma ModifiedReplaces(r: Refreshed, t: string, chunks: seq<string>, m: Store, uri: string, w: World, v: World)
    requires Asked(r, t, chunks, m, uri, w, v) && "HTTP/1.1 200 OK" <= StartOf(w.events, SILENCES).text
    requires v.failures == w.failures && NulFree(Stream(w.events))
    requires var b := StartOf(w.events, SILENCES);
             |ETagScan.LeftBy(b.text)| + |Heard(b.later, SILENCES)| <= RESPONSE_HEADER_SIZE
               && !Breaks(b.later, SILENCES)
    ensures var b := StartOf(w.events, SILENCES);
            && v.sent == w.sent + b.text + Heard(b.later, SILENCES)
            && r.Renewed? && r.value == ETagScan.LeftBy(b.text) + Heard(b.later, SILENCES)
            && Renewal(m, uri, r)[uri].value == r.value
  {
    var b := StartOf(w.events, SILENCES);
    NotTheOther(t);
    StartIsText(w.events, SILENCES);
    HeardIsText(b.later, SILENCES);
    HeardTooLong(ETagScan.LeftBy(t), b.later, SILENCES);
    ReadsAreHeard(b.later, BUFSIZE, SILENCES);
    StoredOfText(chunks, BUFSIZE, "");
  }

  lemma NotTheOther(t: string)
    requires "HTTP/1.1 200 OK" <= t
    ensures !StartsIgnoringCase(t, NOT_MODIFIED)
  {
    var a, b := "HTTP/1.1 200 OK", NOT_MODIFIED;
    assert a[9] == '2' && b[9] == '3' && |b| == 25;
    assert t[9] == a[9];
    if |t| >= 25 {
      assert t[..25][9] == t[9];
    }
  }

  /** The new tag of the entry is the one in the only tag line of such an answer, if that comes
      whole with the answer's start. */
  lemma NewTagKept(r: Refreshed, t: string, chunks: seq<string>, m: Store, uri: string, w: World, v: World, end: nat,
                   p: nat, x: string)
    requires Asked(r, t, chunks, m, uri, w, v) && r.Renewed?
    requires OneTag(t, end, p, x) && p >= 2 && t[p - 2] == '\r'
    ensures Renewal(m, uri, r)[uri].info.eTag == Some(x)
  {
    forall q: nat | LineOf(t, q, end) && KindAt(t, q) == ETagHeader ensures q == p {
      TagByName(t, end, q);
    }
    ETagScan.ScanFinds(t, end, p, x);
    assert r.tag == ETagScan.Scanned(t);
  }

  // ----- What the client is sent -----

  /** A fresh entry is sent to the client as it is, and the origin is asked nothing. */
  lemma HitIsSent(s: Served, e: Option<Change>, l: Log, m: Store, connected: bool, now: int, input: seq<Event>,
                  end: nat, data: string, w: World, v: World)
    requires Concludes(s, e, l, m, connected, now, input, w, v) && WellFormed(input, end)
    requires Look(m, RequestTheorems.ReadRequest(TextRead(input)).value.uri.value, now) == Hit(data)
    ensures v.asked == w.asked && e == None && (v.failures == w.failures ==> v.sent == w.sent + data)
  {
    WellFormedParses(input, end);
    assert SendsStored(s, data, w, v);
  }

  /** An entry with a tag that needs revalidation: if the origin answers with a 304 the client is
      sent the stored text and the entry stays. */
  lemma NotModifiedIsSent(s: Served, e: Option<Change>, l: Log, m: Store, now: int, input: seq<Event>, end: nat,
                          data: string, w: World, v: World)
    requires Concludes(s, e, l, m, true, now, input, w, v) && WellFormed(input, end)
    requires var uri := RequestTheorems.ReadRequest(TextRead(input)).value.uri.value;
             Look(m, uri, now) == Revalidate(data) && Asked(l.r, l.t, l.chunks, m, uri, w, l.mid)
    requires "HTTP/1.1 304 Not Modified" <= StartOf(w.events, SILENCES).text
    ensures e == None && (v.failures == w.failures ==> v.sent == w.sent + data)
  {
    WellFormedParses(input, end);
    var uri := RequestTheorems.ReadRequest(TextRead(input)).value.uri.value;
    NotModifiedKeeps(l.r, l.t, l.chunks, m, uri, w, l.mid);
    AfterRevalidation(s, e, l, m, ToForward(input), true, now, data, w, v);
  }

  lemma AfterRevalidation(s: Served, e: Option<Change>, l: Log, m: Store, q: Request, connected: bool, now: int,
                          data: string, w: World, v: World)
    requires Responds(s, e, l, m, q, connected, now, w, v) && Look(m, q.uri, now) == Revalidate(data)
    requires m[q.uri].info.eTag.Some?
    ensures Settles(s, e, l.r, l.t, q.uri, data, l.mid, v)
  {
  }

  /** If it answers with a new response, the client is sent that, and the entry gets it. */
  lemma ModifiedIsSent(s: Served, e: Option<Change>, l: Log, m: Store, now: int, input: seq<Event>, end: nat,
                       data: string, w: World, v: World)
    requires Concludes(s, e, l, m, true, now, input, w, v) && WellFormed(input, end)
    requires var uri := RequestTheorems.ReadRequest(TextRead(input)).value.uri.value;
             Look(m, uri, now) == Revalidate(data) && Asked(l.r, l.t, l.chunks, m, uri, w, l.mid)
    requires "HTTP/1.1 200 OK" <= StartOf(w.events, SILENCES).text
    requires l.mid.failures == w.failures && NulFree(Stream(w.events))
    requires var b := StartOf(w.events, SILENCES);
             |ETagScan.LeftBy(b.text)| + |Heard(b.later, SILENCES)| <= RESPONSE_HEADER_SIZE
               && !Breaks(b.later, SILENCES)
    ensures var b := StartOf(w.events, SILENCES);
            && v.sent == w.sent + b.text + Heard(b.later, SILENCES) && e.Some? && e.value.Refill?
            && e.value.value == ETagScan.LeftBy(b.text) + Heard(b.later, SILENCES)
  {
    WellFormedParses(input, end);
    var uri := RequestTheorems.ReadRequest(TextRead(input)).value.uri.value;
    ModifiedReplaces(l.r, l.t, l.chunks, m, uri, w, l.mid);
    AfterRenewal(s, e, l, m, ToForward(input), true, now, data, w, v);
  }

  lemma AfterRenewal(s: Served, e: Option<Change>, l: Log, m: Store, q: Request, connected: bool, now: int,
                     data: string, w: World, v: World)
    requires Responds(s, e, l, m, q, connected, now, w, v) && Look(m, q.uri, now) == Revalidate(data)
    requires m[q.uri].info.eTag.Some? && l.r.Renewed?
    ensures v == l.mid && e == Some(Refill(q.uri, l.r.value, l.r.tag, l.t))
  {
  }

  // ----- The conditional request -----

  /** The response `t` has one header line whose name starts with ETag, with the value `x`, and no
      Cache-Control line behind it. */
  ghost predicate OneTag(t: string, end: nat, p: nat, x: string) {
    && NulFree(t) && HeadersOf(t) == Some(end) && LineOf(t, p, end) && ETagScan.TagLine(t, p, x)
    && (forall q: nat | LineOf(t, q, end) && StartsIgnoringCase(t[q..], "ETag") :: q == p)
    && (forall q: nat | LineOf(t, q, end) && Named(t, q, "Cache-Control") :: q < p)
  }

  lemma OneTagRead(t: string, end: nat, p: nat, x: string, now: int, r: Reply)
    requires OneTag(t, end, p, x) && Gather(t, 0, true, Start(now), ResponseRule) == Some(r)
    ensures r.eTag == Some(x)
  {
    NamesOfKinds();
    forall q: nat | LineOf(t, q, end)
      ensures KindAt(t, q) == ETagHeader ==> q == p
      ensures KindAt(t, q) == CacheControlHeader ==> q < p
    {
      TagByName(t, end, q);
      KindByName(t, end, q, "Cache-Control", CacheControlHeader);
    }
    ReportedFields(t, end, now, r);
    ETagScan.TagValue(t, p, x);
    ETagScan.TagDecides(t, end, now, r, p);
  }

  /** After any run, the request for an entry whose tag comes from a stored response with one tag
      line asks for just that tag, at the host that its first response was stored with. */
  lemma TagIsAsked(changes: seq<Change>, uri: string, i: nat, j: nat, t: string, end: nat, p: nat, x: string, now: int,
                   r: Refreshed, answer: string, chunks: seq<string>, w: World, v: World)
    requires End(changes).Some? && LastTag(changes, i, uri) && changes[i].Fill? && FirstFill(changes, j, uri)
    requires OneTag(t, end, p, x) && Gather(t, 0, true, Start(now), ResponseRule) == Some(changes[i].reply)
    requires Refresh.Revalidates(r, answer, chunks, End(changes).value, uri, true, w, v)
    requires var ask := "GET " + uri + " HTTP/1.1\r\nIf-None-Match: " + x + "\r\nHost: " + changes[j].host + "\r\n\r\n";
             |ask| < RESPONSE_HEADER_SIZE && v.refusals == w.refusals
    ensures v.asked == w.asked + ("GET " + uri + " HTTP/1.1\r\nIf-None-Match: " + x + "\r\nHost: " + changes[j].host
                                  + "\r\n\r\n")
  {
    OneTagRead(t, end, p, x, now, changes[i].reply);
    TagDescribed(changes, uri, i);
    HostDescribed(changes, uri, j);
    TemplateText(uri, x, changes[j].host);
  }

  lemma TemplateText(uri: string, tag: string, host: string)
    ensures Revalidation.Template(uri, tag, host)
            == "GET " + uri + " HTTP/1.1\r\nIf-None-Match: " + tag + "\r\nHost: " + host + "\r\n\r\n"
  {
  }

  // ----- Errors and limits -----

  /** A request of at most four characters, and no other, is told that it is bad. */
  lemma ShortIsRejected(s: Served, e: Option<Change>, l: Log, m: Store, connected: bool, now: int, input: seq<Event>,
                        w: World, v: World)
    requires Concludes(s, e, l, m, connected, now, input, w, v) && !Breaks(input, GRACE)
    ensures s == BadRequest <==> |TextRead(input)| <= 4
    ensures s == BadRequest && v.failures == w.failures ==>
              w.sent < v.sent <= w.sent + "HTTP/1.1 400 Bad Request\r\n"
  {
    RoomForNewline(input);
    if !Understood(input).Rejected? && Servable(Understood(input)) {
      NotRejected(s, e, l, m, ToForward(input), connected, now, w, v);
    }
  }

  lemma NotRejected(s: Served, e: Option<Change>, l: Log, m: Store, q: Request, connected: bool, now: int, w: World,
                    v: World)
    requires Responds(s, e, l, m, q, connected, now, w, v)
    ensures s != BadRequest
  {
  }

  /** A response of at most four characters makes the client an error of its own. */
  lemma ShortIsReported(o: Outcome, x: Trace, now: int, tail: string, before: string, sent: string, events: seq<Event>)
    requires Answered(o, x, now, tail, before, sent, false, events) && StartOf(events, PATIENCE).ok
    ensures o == Empty <==> |StartOf(events, PATIENCE).text| <= 4
    ensures o == Empty ==> sent == before + "HTTP/1.1 400 Bad Request"
  {
    var a := "HTTP/1.1 400 Bad Request\r\n";
    assert |a| == 26 && a[..24] == "HTTP/1.1 400 Bad Request" && |NOT_FOUND| == 24;
  }

  /** How long the proxy waits for a client, for a response to start and for it to go on. */
  lemma PausesHeardExactly(n: nat, b: Bytes)
    ensures TextRead(Silence(n) + [Data(b)]) == if n < 10 then b else ""
    ensures Heard(Silence(n) + [Data(b)], SILENCES) == if n < 100 then b else ""
    ensures |b| <= 1024 ==> StartOf(Silence(n) + [Data(b)], PATIENCE).text == if n < 10000 then b else ""
  {
    HeardBehindPause(n, b, GRACE);
    HeardBehindPause(n, b, SILENCES);
    HeardBehindPause(n, b, PATIENCE);
    BeginStarts("", Silence(n) + [Data(b)], BUFSIZE, ENOUGH, PATIENCE);
  }

  /** How much of a response is read before it is looked at. */
  lemma StartSize(events: seq<Event>)
    ensures var t := StartOf(events, PATIENCE).text;
            && |t| < 8192 && t <= Heard(events, PATIENCE)
            && (|t| < 7168 ==> t == Heard(events, PATIENCE))
  {
    BeginStarts("", events, BUFSIZE, ENOUGH, PATIENCE);
    assert "" + Heard(events, PATIENCE) == Heard(events, PATIENCE);
  }
}
