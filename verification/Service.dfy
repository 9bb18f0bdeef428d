/** One request from its first byte to the end of its connection (threadPool.c,
    `serviceRequest`), and what it does to the cache as a change of `Freshness`. */
module Service {
  import opened CStrings
  import opened Holes
  import opened Streams
  import opened Receiving
  import opened Forwarding
  import opened ForwardingTheorems
  import opened ResponseParser
  import opened ResponseTheorems
  import opened HashCache
  import opened Freshness
  import opened Proxy
  import opened Exchange
  import opened Refresh
  import RequestParser
  import RequestTheorems

  /** The connection of a client, with the number of times it has been closed. */
  class Connection {
    const input: Origin
    const output: Client
    var closed: nat
    constructor (input: Origin, output: Client)
      ensures this.input == input && this.output == output && closed == 0
    {
      this.input, this.output, this.closed := input, output, 0;
    }

    /** exitRequest */
    method Exit()
      modifies this
      ensures closed == old(closed) + 1
    {
      closed := closed + 1;
    }
  }

  datatype Served =
    | Unread                   // reading the request failed
    | BadRequest
    | FromCache(whole: bool)   // sent the stored text, or less of it if a write failed
    | Refetched                // sent a new text after a revalidation
    | NotRefetched             // the revalidation failed
    | Unreachable              // the origin could not be reached or written to
    | Tunnelled                // CONNECT
    | Fetched(o: Outcome)
    | Ruined                   // undefined behaviour

  /** What the origin had to do with it: a forwarded response, or a revalidation and the state of
      the world behind it. What is in there is tied to what the origin sends by `Answered` and
      `Revalidates`. */
  datatype Log = Log(x: Trace, r: Refreshed, t: string, chunks: seq<string>, mid: World)

  const NO_LOG := Log(UNREAD, Missing, "", [], World("", 0, "", 0, []))

  /** What the cache goes through: nothing, or one change of the entry of `uri`. */
  ghost predicate Moves(m: Store, uri: string, e: Option<Change>, n: Store) {
    match e
    case None => n == m
    case Some(v) => v.uri == uri && Enabled(m, v) && n == Step(m, v)
  }

  ghost function ClosedTimes(s: Served): nat { if s == Ruined then 0 else 1 }

  // ----- What serving a request does -----

  /** A request that may be forwarded: what was read of it, and the buffer it is in. */
  datatype Request = Request(uri: string, host: string, reqType: nat, text: string, tail: string)

  /** What forwarding a request does to the cache. */
  ghost function ChangeOf(o: Outcome, q: Request): Option<Change> {
    if o.Kept? then Some(Fill(q.uri, o.value, q.host, o.reply)) else None
  }

  ghost predicate Fetches(s: Served, e: Option<Change>, x: Trace, q: Request, now: int, w: World, v: World) {
    var o := if s.Fetched? then s.o else Crashed;
    && (s == Ruined || (s.Fetched? && !s.o.Crashed?)) && e == ChangeOf(o, q) && v.failures >= w.failures
    && Answered(o, x, now, q.tail, w.sent, v.sent, v.failures > w.failures, w.events)
  }

  /** The request goes to the origin, and its response to the client and the cache, unless the
      origin is out of reach or the request is for a tunnel. */
  ghost predicate Forwards(s: Served, e: Option<Change>, x: Trace, q: Request, connected: bool, now: int,
                           w: World, v: World) {
    if !connected then s == Unreachable && e == None && v == w
    else if q.reqType == 1 then s == Tunnelled && e == None && v == w
    else if v.refusals > w.refusals then
      && s == Unreachable && e == None && v == w.(asked := v.asked, refusals := v.refusals)
      && w.asked <= v.asked < w.asked + q.text
    else v.asked == w.asked + q.text && v.refusals == w.refusals && Fetches(s, e, x, q, now, w, v)
  }

  /** The client is sent a stored text, and nobody else is asked anything. */
  ghost predicate SendsStored(s: Served, data: string, w: World, v: World) {
    && s == FromCache(v.failures == w.failures) && v == w.(sent := v.sent, failures := v.failures)
    && v.failures >= w.failures && if s.whole then v.sent == w.sent + data else w.sent <= v.sent < w.sent + data
  }

  /** What follows a revalidation. */
  ghost predicate Settles(s: Served, e: Option<Change>, r: Refreshed, t: string, uri: string, data: string,
                          w: World, v: World) {
    match r
    case Missing => false
    case StillGood => e == None && SendsStored(s, data, w, v)
    case Renewed(value, tag) => s == Refetched && e == Some(Refill(uri, value, tag, t)) && v == w
    case Failed => s == NotRefetched && e == None && v == w
    case Undefined => s == Ruined && e == None && v == w
  }

  /** The answer to a request, given what the cache says. */
  ghost predicate Responds(s: Served, e: Option<Change>, l: Log, m: Store, q: Request, connected: bool, now: int,
                           w: World, v: World) {
    match Look(m, q.uri, now)
    case Hit(data) => e == None && SendsStored(s, data, w, v)
    case Revalidate(data) =>
      if m[q.uri].info.eTag == None then Forwards(s, e, l.x, q, connected, now, w, v)
      else
        && Revalidates(l.r, l.t, l.chunks, m, q.uri, connected, w, l.mid)
        && Settles(s, e, l.r, l.t, q.uri, data, l.mid, v)
    case _ => Forwards(s, e, l.x, q, connected, now, w, v)
  }

  /** What the parser has made of a request makes it servable. */
  predicate Servable(r: RequestParser.Outcome) {
    r.Parsed? && r.fields.uri.Some? && r.fields.host.Some? && Indexable(r.fields.uri.value)
  }

  ghost function UriOf(r: RequestParser.Outcome): string {
    if r.Parsed? && r.fields.uri.Some? then r.fields.uri.value else ""
  }

  // ----- What is read -----

  /** The request as it comes in time, and the size of its buffer. */
  function TextRead(input: seq<Event>): string { Heard(input, GRACE) }
  function RoomFor(input: seq<Event>): nat { Room(Reads(input, BUFSIZE, GRACE)) }

  lemma RoomForNewline(input: seq<Event>)
    ensures |TextRead(input)| + BUFSIZE < RoomFor(input)
    ensures RoomFor(input) == RESPONSE_HEADER_SIZE + 1 || RoomFor(input) <= 2 * (|TextRead(input)| + BUFSIZE)
  {
    ReadsAreHeard(input, BUFSIZE, GRACE);
    ReadsAreShort(input, BUFSIZE, GRACE);
    RoomIsEnough(Reads(input, BUFSIZE, GRACE));
  }

  /** What the parser makes of it. */
  ghost function Understood(input: seq<Event>): RequestParser.Outcome {
    RoomForNewline(input);
    RequestParser.Parse(TextRead(input), RoomFor(input)).0
  }

  /** What the parser leaves: the text that is forwarded, and what stands behind the first
      `BUFSIZE` characters of the buffer. */
  ghost function TextLeft(input: seq<Event>): string {
    RoomForNewline(input);
    RequestParser.Parse(TextRead(input), RoomFor(input)).1
  }

  ghost function TailLeft(input: seq<Event>): string {
    RoomForNewline(input);
    TailOf(RequestParser.Residue(TextRead(input), RoomFor(input)))
  }

  ghost function TailOf(b: string): string {
    if |b| <= BUFSIZE then "" else TextOf(b[BUFSIZE..])
  }

  ghost function ToForward(input: seq<Event>): Request
    requires Servable(Understood(input))
  {
    var f := Understood(input).fields;
    Request(f.uri.value, f.host.value, f.reqType, TextLeft(input), TailLeft(input))
  }

  /** A request with closed headers and a readable host never breaks the parser, whatever its
      length, and a short one leaves nothing behind in its buffer. */
  lemma WellFormedIsUnderstood(input: seq<Event>)
    requires NulFree(Stream(input)) && 4 < |TextRead(input)|
    requires RequestTheorems.HeadersOf(TextRead(input)).Some? && RequestTheorems.ReadRequest(TextRead(input)).Some?
    ensures Understood(input) == RequestParser.Parsed(RequestTheorems.ReadRequest(TextRead(input)).value)
    ensures |TextRead(input)| < BUFSIZE ==> TailLeft(input) == ""
  {
    var t, room := TextRead(input), RoomFor(input);
    HeardIsText(input, GRACE);
    RoomForNewline(input);
    RequestTheorems.ClosedIsParsed(t, room);
    if |t| < BUFSIZE {
      RequestTheorems.ClosedResidue(t, room, BUFSIZE);
      assert RequestParser.Residue(t, room)[BUFSIZE..][0] == NUL;
    }
  }

  /** A buffer with a parsed request in it. */
  ghost predicate Prepared(request: array<char>, text: string, tail: string)
    reads request
  {
    Trails(request, tail) && NulFree(tail) && TextOf(request[..]) == text
  }

  /** The answer to whatever was read. */
  ghost predicate Serves(s: Served, e: Option<Change>, l: Log, m: Store, input: seq<Event>, connected: bool,
                         now: int, w: World, v: World)
  {
    var r := Understood(input);
    if r.Rejected? then
      s == BadRequest && e == None && Rejects(w, v)
    else if !Servable(r) then s == Ruined && e == None && v == w
    else Responds(s, e, l, m, ToForward(input), connected, now, w, v)
  }

  /** One write of an error, which may take only a part. */
  ghost predicate Rejects(w: World, v: World) {
    && v == w.(sent := v.sent, failures := v.failures) && v.failures >= w.failures
    && if v.failures > w.failures then v.sent == w.sent else w.sent < v.sent <= w.sent + BAD_REQUEST_RESPONSE
  }

  // ----- Reading -----

  method ReadAndParse(conn: Connection) returns (ok: bool, a: array<char>, r: RequestParser.Outcome)
    requires NulFree(conn.input.Rest())
    modifies conn.input
    ensures fresh(a) && (ok <==> !Breaks(old(conn.input.events), GRACE))
    ensures ok ==> r == Understood(old(conn.input.events))
    ensures ok && r.Parsed? ==> Prepared(a, TextLeft(old(conn.input.events)), TailLeft(old(conn.input.events)))
  {
    r := RequestParser.Rejected;
    ghost var input := conn.input.events;
    RoomForNewline(input);
    HeardIsText(input, GRACE);
    var n;
    ok, a, n := ReadRequest(conn.input);
    if ok {
      r := ParseBuffer(a, TextRead(input));
    }
  }

  method ParseBuffer(a: array<char>, ghost t: string) returns (r: RequestParser.Outcome)
    requires Holds(a[..], t) && BUFSIZE < a.Length
    modifies a
    ensures r == RequestParser.Parse(t, a.Length).0
    ensures r.Parsed? ==>
              Prepared(a, RequestParser.Parse(t, a.Length).1, TailOf(RequestParser.Residue(t, a.Length)))
  {
    r := RequestParser.ParseRequest(a, t);
    if r.Parsed? {
      assert a[BUFSIZE..][a.Length - 1 - BUFSIZE] == NUL;
    }
  }

  /** The reading, with the cache left alone. */
  method ReadAside(cache: Cache, conn: Connection, server: Client, origin: Origin, ghost m: Store, ghost w: World)
    returns (ok: bool, a: array<char>, r: RequestParser.Outcome)
    requires Usable(cache) && Snap(View(cache.slots)) == m && NulFree(conn.input.Rest())
    requires conn.input != origin && See(conn.output, server, origin) == w
    modifies conn.input
    ensures Usable(cache) && Snap(View(cache.slots)) == m && See(conn.output, server, origin) == w
    ensures fresh(a) && (ok <==> !Breaks(old(conn.input.events), GRACE))
    ensures ok ==> r == Understood(old(conn.input.events))
    ensures ok && r.Parsed? ==> Prepared(a, TextLeft(old(conn.input.events)), TailLeft(old(conn.input.events)))
  {
    ghost var view := View(cache.slots);
    label before:
    ok, a, r := ReadAndParse(conn);
    SnapKept@before(view);
  }

  // ----- Request -----

  /** The request goes to the origin, or there is a reason to close the connection instead. */
  ghost predicate Sends(sent: bool, s: Served, connected: bool, reqType: nat, text: string, w: World, v: World) {
    && s == (if connected && reqType == 1 then Tunnelled else Unreachable)
    && (sent <==> connected && reqType != 1 && v.refusals == w.refusals)
    && if !connected || reqType == 1 then v == w
       else
         && v == w.(asked := v.asked, refusals := v.refusals) && v.refusals >= w.refusals
         && if sent then v.asked == w.asked + text else w.asked <= v.asked < w.asked + text
  }

  /** Passes the request on to the origin; `s` tells why the connection was closed instead. */
  method Send(conn: Connection, server: Client, origin: Origin, connected: bool, request: array<char>,
              reqType: nat, ghost text: string, ghost tail: string, ghost w: World)
    returns (sent: bool, s: Served)
    requires Prepared(request, text, tail) && conn.output != server && See(conn.output, server, origin) == w
    modifies conn, server
    ensures conn.closed == old(conn.closed) + if sent then 0 else 1
    ensures Sends(sent, s, connected, reqType, text, w, See(conn.output, server, origin))
  {
    sent, s := false, Unreachable;
    if connected && reqType == 1 {
      s := Tunnelled;
    } else if connected {
      BeginsAt(request[BUFSIZE..], tail);
      assert request[BUFSIZE + |tail|] == NUL;
      var len := StrLen(request, 0);
      ghost var total;
      sent, total := WriteAll(server, request, len);
      assert Find(request[..], 0, NUL) == len && request[..len] == text && request[..total] == text[..total];
    }
    if !sent { conn.Exit(); }
  }

  /** The same, with the cache left alone. */
  method SendAside(cache: Cache, conn: Connection, server: Client, origin: Origin, connected: bool,
                   request: array<char>, reqType: nat, ghost text: string, ghost tail: string, ghost w: World,
                   ghost m: Store)
    returns (sent: bool, s: Served)
    requires Usable(cache) && Snap(View(cache.slots)) == m
    requires Prepared(request, text, tail) && conn.output != server && See(conn.output, server, origin) == w
    modifies conn, server
    ensures Usable(cache) && Snap(View(cache.slots)) == m && conn.closed == old(conn.closed) + if sent then 0 else 1
    ensures Sends(sent, s, connected, reqType, text, w, See(conn.output, server, origin))
  {
    ghost var view := View(cache.slots);
    label before:
    sent, s := Send(conn, server, origin, connected, request, reqType, text, tail, w);
    SnapKept@before(view);
  }

  /** Relays the response and closes the connection. */
  method Fetch(cache: Cache, conn: Connection, server: Client, origin: Origin, request: array<char>, uri: string,
               host: string, now: int, ghost q: Request, ghost m: Store, ghost w: World)
    returns (s: Served, ghost e: Option<Change>, ghost x: Trace)
    requires Usable(cache) && Indexable(uri) && Snap(View(cache.slots)) == m && conn.output != server
    requires q.uri == uri && q.host == host && See(conn.output, server, origin) == w
    requires Prepared(request, q.text, q.tail) && NulFree(origin.Rest())
    modifies conn, conn.output, origin, request, cache`slots, cache`live, cache.buckets, cache.Nodes()
    ensures Usable(cache) && Moves(m, uri, e, Snap(View(cache.slots)))
    ensures conn.closed == old(conn.closed) + ClosedTimes(s)
    ensures var v := See(conn.output, server, origin);
            Fetches(s, e, x, q, now, w, v) && v.asked == w.asked && v.refusals == w.refusals
  {
    var o;
    o, x := ForwardRequest(cache, conn.output, origin, request, uri, host, now, q.tail, m);
    e := ChangeOf(o, q);
    s := if o.Crashed? then Ruined else Fetched(o);
    ghost var n := Snap(View(cache.slots));
    FetchMoves(m, n, o, q);
    ExitUnless(cache, conn, server, origin, o.Crashed?, n, See(conn.output, server, origin));
  }

  /** exitRequest, with everything else left alone; a crash does not get there. */
  method ExitUnless(cache: Cache, conn: Connection, server: Client, origin: Origin, crashed: bool, ghost n: Store,
                    ghost w: World)
    requires Usable(cache) && Snap(View(cache.slots)) == n && See(conn.output, server, origin) == w
    modifies conn
    ensures Usable(cache) && Snap(View(cache.slots)) == n && See(conn.output, server, origin) == w
    ensures conn.closed == old(conn.closed) + if crashed then 0 else 1
  {
    ghost var view := View(cache.slots);
    label before:
    if !crashed { conn.Exit(); }
    SnapKept@before(view);
  }

  lemma FetchMoves(m: Store, n: Store, o: Outcome, q: Request)
    requires o.Kept? ==> MayStore(o.reply)
    requires n == StoreAfter(m, o, q.uri, q.host)
    ensures Moves(m, q.uri, ChangeOf(o, q), n)
  {
  }

  /** forwardRequest: the connection is closed on every path that is defined. */
  method Forward(cache: Cache, conn: Connection, server: Client, origin: Origin, connected: bool,
                 request: array<char>, uri: string, host: string, reqType: nat, now: int, ghost q: Request,
                 ghost m: Store, ghost w: World)
    returns (s: Served, ghost e: Option<Change>, ghost x: Trace)
    requires Usable(cache) && Indexable(uri) && Snap(View(cache.slots)) == m && conn.output != server
    requires q == Request(uri, host, reqType, q.text, q.tail) && See(conn.output, server, origin) == w
    requires Prepared(request, q.text, q.tail) && NulFree(origin.Rest())
    modifies conn, conn.output, server, origin, request, cache`slots, cache`live, cache.buckets, cache.Nodes()
    ensures Usable(cache) && Moves(m, uri, e, Snap(View(cache.slots)))
    ensures conn.closed == old(conn.closed) + ClosedTimes(s)
    ensures Forwards(s, e, x, q, connected, now, w, See(conn.output, server, origin))
  {
    var sent;
    sent, s := SendAside(cache, conn, server, origin, connected, request, reqType, q.text, q.tail, w, m);
    e, x := None, UNREAD;
    if sent {
      s, e, x := Fetch(cache, conn, server, origin, request, uri, host, now, q, m, See(conn.output, server, origin));
    }
  }

  // ----- Answering from the cache -----

  /** Writes a stored text to the client and closes the connection. */
  method SendStored(conn: Connection, server: Client, origin: Origin, data: string, ghost w: World) returns (s: Served)
    requires conn.output != server && See(conn.output, server, origin) == w
    modifies conn, conn.output
    ensures conn.closed == old(conn.closed) + 1 && SendsStored(s, data, w, See(conn.output, server, origin))
  {
    var bytes := ToBuffer(data);
    var whole, total := WriteAll(conn.output, bytes, bytes.Length);
    assert bytes[..bytes.Length] == data && bytes[..total] <= data;
    conn.Exit();
    s := FromCache(whole);
  }

  method SendStoredAside(cache: Cache, conn: Connection, server: Client, origin: Origin, data: string,
                         ghost n: Store, ghost w: World)
    returns (s: Served)
    requires Usable(cache) && Snap(View(cache.slots)) == n
    requires conn.output != server && See(conn.output, server, origin) == w
    modifies conn, conn.output
    ensures Usable(cache) && Snap(View(cache.slots)) == n
    ensures conn.closed == old(conn.closed) + 1 && SendsStored(s, data, w, See(conn.output, server, origin))
  {
    ghost var view := View(cache.slots);
    label before:
    s := SendStored(conn, server, origin, data, w);
    SnapKept@before(view);
  }

  /** After a revalidation: the stored text if the origin stands by it, and the end. */
  method Settle(cache: Cache, conn: Connection, server: Client, origin: Origin, r: Refreshed, ghost t: string,
                uri: string, data: string, ghost m: Store, ghost n: Store, ghost w: World)
    returns (s: Served, ghost e: Option<Change>)
    requires Usable(cache) && Snap(View(cache.slots)) == n == Renewal(m, uri, r) && !r.Missing?
             && (r.Renewed? ==> uri in m)
    requires conn.output != server && See(conn.output, server, origin) == w
    modifies conn, conn.output
    ensures Usable(cache) && Moves(m, uri, e, Snap(View(cache.slots)))
    ensures conn.closed == old(conn.closed) + ClosedTimes(s)
    ensures Settles(s, e, r, t, uri, data, w, See(conn.output, server, origin))
  {
    e := None;
    match r
    case StillGood => s := SendStoredAside(cache, conn, server, origin, data, n, w);
    case Undefined => s := Ruined;
    case Renewed(value, tag) =>
      e := Some(Refill(uri, value, tag, t));
      ExitUnless(cache, conn, server, origin, false, n, w);
      s := Refetched;
    case Failed =>
      ExitUnless(cache, conn, server, origin, false, n, w);
      s := NotRefetched;
  }

  lemma NothingAsked(r: Refreshed, t: string, chunks: seq<string>, m: Store, uri: string, connected: bool,
                     w: World, v: World)
    requires Revalidates(r, t, chunks, m, uri, connected, w, v) && r.Missing?
    ensures v == w && (uri in m ==> m[uri].info.eTag == None)
  {
  }

  lemma ForwardingResponds(s: Served, e: Option<Change>, x: Trace, m: Store, q: Request, connected: bool,
                           now: int, w: World, v: World)
    requires Look(m, q.uri, now).Revalidate? && m[q.uri].info.eTag == None && Forwards(s, e, x, q, connected, now, w, v)
    ensures Responds(s, e, NO_LOG.(x := x), m, q, connected, now, w, v)
  {
  }

  lemma SettlingResponds(s: Served, e: Option<Change>, l: Log, m: Store, q: Request, connected: bool, now: int,
                         data: string, w: World, v: World)
    requires Look(m, q.uri, now) == Revalidate(data) && !l.r.Missing?
    requires Revalidates(l.r, l.t, l.chunks, m, q.uri, connected, w, l.mid)
             && Settles(s, e, l.r, l.t, q.uri, data, l.mid, v)
    ensures Responds(s, e, l, m, q, connected, now, w, v)
  {
  }

  /** An entry that has to be revalidated. Without an entity tag the request is forwarded. */
  method Revalidated(cache: Cache, conn: Connection, server: Client, origin: Origin, connected: bool,
                     request: array<char>, uri: string, host: string, reqType: nat, data: string, now: int,
                     ghost q: Request, ghost m: Store, ghost w: World)
    returns (s: Served, ghost e: Option<Change>, ghost l: Log)
    requires Usable(cache) && Indexable(uri) && Snap(View(cache.slots)) == m && conn.output != server
    requires q == Request(uri, host, reqType, q.text, q.tail) && See(conn.output, server, origin) == w
    requires Prepared(request, q.text, q.tail) && NulFree(origin.Rest())
    requires Look(m, uri, now) == Revalidate(data)
    modifies conn, conn.output, server, origin, request, cache`slots, cache`live, cache.buckets, cache.Nodes(),
             Infos(View(cache.slots))
    ensures Usable(cache) && Moves(m, uri, e, Snap(View(cache.slots)))
    ensures conn.closed == old(conn.closed) + ClosedTimes(s)
    ensures Responds(s, e, l, m, q, connected, now, w, See(conn.output, server, origin))
  {
    var r;
    ghost var t, chunks, x;
    r, t, chunks := GetRevalidation(cache, conn.output, server, origin, connected, uri, m);
    ghost var mid := See(conn.output, server, origin);
    assert conn.closed == old(conn.closed);
    if r.Missing? {
      NothingAsked(r, t, chunks, m, uri, connected, w, mid);
      s, e, x := Forward(cache, conn, server, origin, connected, request, uri, host, reqType, now, q, m, w);
      l := NO_LOG.(x := x);
      ForwardingResponds(s, e, x, m, q, connected, now, w, See(conn.output, server, origin));
    } else {
      s, e := Settle(cache, conn, server, origin, r, t, uri, data, m, Snap(View(cache.slots)), mid);
      l := Log(UNREAD, r, t, chunks, mid);
      SettlingResponds(s, e, l, m, q, connected, now, data, w, See(conn.output, server, origin));
    }
  }

  /** Answers a parsed request: from the cache if its entry is fresh, after a revalidation, or
      by forwarding it. */
  method Respond(cache: Cache, conn: Connection, server: Client, origin: Origin, connected: bool,
                 request: array<char>, uri: string, host: string, reqType: nat, now: int, ghost q: Request,
                 ghost m: Store, ghost w: World, ghost offset: int)
    returns (s: Served, ghost e: Option<Change>, ghost l: Log)
    requires Usable(cache) && Indexable(uri) && Snap(View(cache.slots)) == m && conn.output != server
    requires q == Request(uri, host, reqType, q.text, q.tail) && See(conn.output, server, origin) == w
    requires Prepared(request, q.text, q.tail) && NulFree(origin.Rest())
    modifies conn, conn.output, server, origin, request, cache`slots, cache`live, cache.buckets, cache.Nodes(),
             Infos(View(cache.slots))
    ensures Usable(cache) && Moves(m, uri, e, Snap(View(cache.slots)))
    ensures conn.closed == old(conn.closed) + ClosedTimes(s)
    ensures Responds(s, e, l, m, q, connected, now, w, See(conn.output, server, origin))
  {
    e, l := None, NO_LOG;
    var a := Cacheable(cache, uri, now, offset);
    match a
    case Hit(data) => s := SendStoredAside(cache, conn, server, origin, data, m, w);
    case Revalidate(data) =>
      s, e, l := Revalidated(cache, conn, server, origin, connected, request, uri, host, reqType, data, now, q, m, w);
    case _ =>
      ghost var x;
      s, e, x := Forward(cache, conn, server, origin, connected, request, uri, host, reqType, now, q, m, w);
      l := NO_LOG.(x := x);
  }

  // ----- One connection -----

  method Apologize(conn: Connection, server: Client, origin: Origin, ghost w: World)
    requires conn.output != server && See(conn.output, server, origin) == w
    modifies conn, conn.output
    ensures conn.closed == old(conn.closed) + 1
    ensures Rejects(w, See(conn.output, server, origin))
  {
    var n := conn.output.Write(BAD_REQUEST_RESPONSE);
    conn.Exit();
  }

  /** A request that is too short is told so. */
  method Reject(cache: Cache, conn: Connection, server: Client, origin: Origin, ghost m: Store, ghost w: World)
    requires Usable(cache) && Snap(View(cache.slots)) == m
    requires conn.output != server && See(conn.output, server, origin) == w
    modifies conn, conn.output
    ensures Usable(cache) && Snap(View(cache.slots)) == m && conn.closed == old(conn.closed) + 1
    ensures Rejects(w, See(conn.output, server, origin))
  {
    ghost var view := View(cache.slots);
    label before:
    Apologize(conn, server, origin, w);
    SnapKept@before(view);
  }

  /** What happens to a request that has been read. */
  method Serve(cache: Cache, conn: Connection, server: Client, origin: Origin, connected: bool,
               request: array<char>, r: RequestParser.Outcome, now: int, ghost input: seq<Event>, ghost m: Store,
               ghost w: World, ghost offset: int)
    returns (s: Served, ghost e: Option<Change>, ghost l: Log)
    requires Usable(cache) && Snap(View(cache.slots)) == m && conn.output != server && NulFree(origin.Rest())
    requires r == Understood(input) && (r.Parsed? ==> Prepared(request, TextLeft(input), TailLeft(input)))
    requires See(conn.output, server, origin) == w
    modifies conn, conn.output, server, origin, request, cache`slots, cache`live, cache.buckets, cache.Nodes(),
             Infos(View(cache.slots))
    ensures Usable(cache) && Moves(m, UriOf(r), e, Snap(View(cache.slots)))
    ensures conn.closed == old(conn.closed) + ClosedTimes(s)
    ensures Serves(s, e, l, m, input, connected, now, w, See(conn.output, server, origin))
  {
    e, l := None, NO_LOG;
    if r.Rejected? {
      Reject(cache, conn, server, origin, m, w);
      s := BadRequest;
    } else if Servable(r) {
      var f := r.fields;
      s, e, l := Respond(cache, conn, server, origin, connected, request, f.uri.value, f.host.value, f.reqType, now,
                         ToForward(input), m, w, offset);
    } else {
      s := Ruined;
    }
  }

  lemma ServedIsRead(s: Served, e: Option<Change>, l: Log, m: Store, input: seq<Event>, connected: bool, now: int,
                     w: World, v: World)
    requires Serves(s, e, l, m, input, connected, now, w, v)
    ensures s != Unread
  {
  }

  /** All that is promised of one connection: reading failed and nothing else happened, or what
      was read is served. */
  ghost predicate Concludes(s: Served, e: Option<Change>, l: Log, m: Store, connected: bool, now: int,
                            input: seq<Event>, w: World, v: World)
  {
    if Breaks(input, GRACE) then s == Unread && e == None && v == w
    else s != Unread && Serves(s, e, l, m, input, connected, now, w, v)
  }

  /** One request of a client: it is read, parsed and answered, and the connection is closed
      exactly once unless behaviour is undefined. */
  method ServeConnection(cache: Cache, conn: Connection, server: Client, origin: Origin, connected: bool,
                         now: int, ghost m: Store, ghost w: World, ghost offset: int)
    returns (s: Served, ghost e: Option<Change>, ghost l: Log)
    requires Usable(cache) && Snap(View(cache.slots)) == m && conn.output != server && conn.input != origin
    requires NulFree(conn.input.Rest()) && NulFree(origin.Rest()) && See(conn.output, server, origin) == w
    modifies conn, conn.input, conn.output, server, origin, cache`slots, cache`live, cache.buckets, cache.Nodes(),
             Infos(View(cache.slots))
    ensures Usable(cache) && Moves(m, UriOf(Understood(old(conn.input.events))), e, Snap(View(cache.slots)))
    ensures conn.closed == old(conn.closed) + if s == Ruined then 0 else 1
    ensures Concludes(s, e, l, m, connected, now, old(conn.input.events), w, See(conn.output, server, origin))
    ensures 0 !in conn.output.plan && 0 !in server.plan ==>
              (s == Ruined <==> Ruins(m, connected, now, old(conn.input.events), w.events))
  {
    ghost var input := conn.input.events;
    StaysSmooth(conn.output, server, origin);
    var ok, a, r := ReadAside(cache, conn, server, origin, m, w);
    if ok {
      s, e, l := Serve(cache, conn, server, origin, connected, a, r, now, input, m, w, offset);
      ServedIsRead(s, e, l, m, input, connected, now, w, See(conn.output, server, origin));
    } else {
      e, l := None, NO_LOG;
      ExitUnless(cache, conn, server, origin, false, m, w);
      s := Unread;
    }
    StaysSmooth(conn.output, server, origin);
    RuinedExactly(s, e, l, m, connected, now, input, w, See(conn.output, server, origin));
  }

  lemma StaysSmooth(client: Client, server: Client, origin: Origin)
    ensures 0 !in client.plan && 0 !in server.plan ==>
              See(client, server, origin).failures == 0 && See(client, server, origin).refusals == 0
  {
    if 0 !in client.plan && 0 !in server.plan {
      NeverFails(client);
      NeverFails(server);
    }
  }

  // ----- When behaviour is undefined -----

  /** An origin whose response breaks the relay: its start breaks the parser, the parser's text
      takes the last place of the buffer of a counted response, or a chunked response that may
      be stored is longer than the copy's buffer. */
  ghost predicate ResponseBreaks(events: seq<Event>, now: int, tail: string) {
    var b := StartOf(events, PATIENCE);
    && b.ok && |b.text| < BUFFER
    && var (response, u) := Parse(b.text, BUFFER, now);
       match response
       case Short => false
       case Fault => true
       case Parsed(left, reply) =>
         |b.text| <= |u| && Overruns(reply, left, u, u[..|b.text|], b.later, tail)
  }

  ghost predicate ForwardRuins(q: Request, connected: bool, now: int, events: seq<Event>) {
    connected && q.reqType != 1 && ResponseBreaks(events, now, q.tail)
  }

  /** The conditional request is too long for its buffer, or the copy of a new text is. */
  ghost predicate RevalidationRuins(ask: string, connected: bool, events: seq<Event>) {
    || |ask| >= RESPONSE_HEADER_SIZE
    || (connected
        && var b := StartOf(events, SILENCES);
           && b.ok && !StartsIgnoringCase(b.text, NOT_MODIFIED)
           && TooLong(ETagScan.LeftBy(b.text), Reads(b.later, BUFSIZE, SILENCES), ""))
  }

  ghost predicate AnswerRuins(m: Store, q: Request, connected: bool, now: int, events: seq<Event>) {
    match Look(m, q.uri, now)
    case Hit(_) => false
    case Revalidate(_) =>
      if m[q.uri].info.eTag == None then ForwardRuins(q, connected, now, events)
      else RevalidationRuins(Revalidation.Template(q.uri, m[q.uri].info.eTag.value, m[q.uri].host), connected, events)
    case _ => ForwardRuins(q, connected, now, events)
  }

  /** Every cause of undefined behaviour, in terms of what the client and the origin send and of
      the cache: the request breaks its parser or lacks a URI, a host or a bucket for the URI, or
      what the origin sends breaks the answer. */
  ghost predicate Ruins(m: Store, connected: bool, now: int, input: seq<Event>, events: seq<Event>) {
    && !Breaks(input, GRACE) && !Understood(input).Rejected?
    && (Servable(Understood(input)) ==> AnswerRuins(m, ToForward(input), connected, now, events))
  }

  /** No write fails. */
  predicate Smooth(w: World, v: World) {
    v.failures == w.failures && v.refusals == w.refusals
  }

  lemma FetchRuined(s: Served, e: Option<Change>, x: Trace, q: Request, now: int, w: World, v: World)
    requires Fetches(s, e, x, q, now, w, v)
    ensures s == Ruined <==> v.failures == w.failures && ResponseBreaks(w.events, now, q.tail)
  {
    var b := StartOf(w.events, PATIENCE);
    var o := if s.Fetched? then s.o else Crashed;
    if b.ok && Parse(b.text, BUFFER, now).0.Parsed? {
      CrashedExactly(o, x, Parse(b.text, BUFFER, now).1, q.tail, w.sent, v.sent, v.failures > w.failures, b.later);
    }
  }

  lemma ForwardRuined(s: Served, e: Option<Change>, x: Trace, q: Request, connected: bool, now: int, w: World, v: World)
    requires Forwards(s, e, x, q, connected, now, w, v)
    ensures s == Ruined <==> Smooth(w, v) && ForwardRuins(q, connected, now, w.events)
  {
    if connected && q.reqType != 1 && v.refusals <= w.refusals {
      FetchRuined(s, e, x, q, now, w, v);
    }
  }

  lemma RevalidationRuined(s: Served, e: Option<Change>, l: Log, ask: string, connected: bool, uri: string,
                           data: string, w: World, v: World)
    requires Asks(l.r, l.t, l.chunks, ask, connected, w, l.mid) && Settles(s, e, l.r, l.t, uri, data, l.mid, v)
    ensures s == Ruined <==> Smooth(w, v) && RevalidationRuins(ask, connected, w.events)
  {
  }

  lemma ResponseRuined(s: Served, e: Option<Change>, l: Log, m: Store, q: Request, connected: bool, now: int,
                       w: World, v: World)
    requires Responds(s, e, l, m, q, connected, now, w, v)
    ensures s == Ruined <==> Smooth(w, v) && AnswerRuins(m, q, connected, now, w.events)
  {
    match Look(m, q.uri, now)
    case Hit(_) =>
    case Revalidate(data) =>
      if m[q.uri].info.eTag == None {
        ForwardRuined(s, e, l.x, q, connected, now, w, v);
      } else {
        RevalidationRuined(s, e, l, Revalidation.Template(q.uri, m[q.uri].info.eTag.value, m[q.uri].host),
                           connected, q.uri, data, w, v);
      }
    case _ => ForwardRuined(s, e, l.x, q, connected, now, w, v);
  }

  /** Behaviour is undefined exactly for the inputs listed, as long as no write fails before. */
  lemma RuinedExactly(s: Served, e: Option<Change>, l: Log, m: Store, connected: bool, now: int,
                      input: seq<Event>, w: World, v: World)
    requires Concludes(s, e, l, m, connected, now, input, w, v)
    ensures s == Ruined <==> Smooth(w, v) && Ruins(m, connected, now, input, w.events)
  {
    if !Breaks(input, GRACE) && Servable(Understood(input)) {
      ResponseRuined(s, e, l, m, ToForward(input), connected, now, w, v);
    }
  }

  /** The same in lengths, for a request that left nothing behind in its buffer. */
  lemma RuinsByLength(events: seq<Event>, now: int, ask: string, connected: bool)
    requires NulFree(Stream(events))
    ensures var b := StartOf(events, PATIENCE);
            ResponseBreaks(events, now, "") <==>
              && b.ok && |b.text| < BUFFER
              && var (response, u) := Parse(b.text, BUFFER, now);
                 response.Fault?
                 || (response.Parsed?
                     && (if Counted(response.reply, response.left) then |u| > RESPONSE_HEADER_SIZE
                         else MayStore(response.reply) && Chunked(response.reply)
                              && |b.text| + |Heard(b.later, SILENCES)| > RESPONSE_HEADER_SIZE))
    ensures var b := StartOf(events, SILENCES);
            RevalidationRuins(ask, connected, events) <==>
              || |ask| >= RESPONSE_HEADER_SIZE
              || (connected && b.ok && !StartsIgnoringCase(b.text, NOT_MODIFIED)
                  && |ETagScan.LeftBy(b.text)| + |Heard(b.later, SILENCES)| > RESPONSE_HEADER_SIZE)
  {
    StartIsText(events, PATIENCE);
    StartIsText(events, SILENCES);
    var b, c := StartOf(events, PATIENCE), StartOf(events, SILENCES);
    if Parse(b.text, BUFFER, now).0.Parsed? {
      RoundTripExactly(b.text, BUFFER, now);
      HeardTooLong(Parse(b.text, BUFFER, now).1[..|b.text|], b.later, SILENCES);
    }
    HeardTooLong(ETagScan.LeftBy(c.text), c.later, SILENCES);
  }

  // ----- Runs -----

  /** The changes among what a run of connections did. */
  function Changes(es: seq<Option<Change>>): seq<Change> {
    if es == [] then []
    else
      var front := Changes(es[..|es| - 1]);
      match es[|es| - 1]
      case None => front
      case Some(v) => front + [v]
  }

  /** The store after any run of connections on a new cache is that of the run of their changes,
      so what `Freshness` says of every run holds of the proxy. */
  lemma {:induction false} ServedRun(ms: seq<Store>, uris: seq<string>, es: seq<Option<Change>>)
    requires |ms| == |es| + 1 && |uris| == |es| && ms[0] == map[]
    requires forall i | 0 <= i < |es| :: Moves(ms[i], uris[i], es[i], ms[i + 1])
    ensures End(Changes(es)) == Some(ms[|es|])
    decreases |es|
  {
    if |es| > 0 {
      var n := |es| - 1;
      ServedRun(ms[..n + 1], uris[..n], es[..n]);
      assert Moves(ms[n], uris[n], es[n], ms[n + 1]);
      var front := Changes(es[..n]);
      if es[n].Some? {
        assert (front + [es[n].value])[..|front|] == front;
      }
    }
  }

  /** A response that was stored without `transferChunks` and wholly passed on is replayed: as
      long as nothing else is written to its entry, a hit is sent what the first client was. */
  lemma ReplaysExactly(o: Outcome, x: Trace, tail: string, before: string, sent: string, stream: string,
                       changes: seq<Change>, i: nat, uri: string, host: string, now: int, data: string)
    requires o.Kept? && KeptCopy(o, x, tail) && Passed(x, before, sent, stream) && NulFree(tail)
    requires !Chunked(o.reply) && x.lost == ""
    requires End(changes).Some? && LastWrite(changes, i, uri) && changes[i] == Fill(uri, o.value, host, o.reply)
    requires Look(End(changes).value, uri, now) == Hit(data)
    ensures sent == before + data
  {
    KeptIsSentExactly(o, x, tail, before, sent, stream);
    AnswersLastWrite(changes, uri, now, i);
  }
}
