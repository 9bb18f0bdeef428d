/** The whole of a forwarded request (threadPool.c, `forwardRequest` without CONNECT): what the
    client is sent, and what the cache then holds. */
module Exchange {
  import opened CStrings
  import opened ResponseParser
  import opened ResponseTheorems
  import opened Streams
  import opened Receiving
  import opened Forwarding
  import opened ForwardingTheorems
  import opened HashCache
  import opened Freshness
  import opened Proxy

  const BAD_REQUEST_RESPONSE := "HTTP/1.1 400 Bad Request\r\n"
  const NOT_FOUND := "HTTP/1.1 404 Not Found\r\n"

  const PATIENCE := 10000

  /** `first` is the start of the response as it is passed on, `reply` what its headers say. */
  datatype Opened =
    | Silent                                    // nothing usable came: the client gets an error
    | OriginFailed
    | Unparsable                                // parseResponse breaks
    | Started(reply: Reply, left: nat, n: nat)

  lemma PartsAreText(s: string, t: string)
    ensures NulFree(s + t) <==> NulFree(s) && NulFree(t)
  {
    var u := s + t;
    assert forall i | 0 <= i < |s| :: u[i] == s[i];
    assert forall i | 0 <= i < |t| :: u[|s| + i] == t[i];
  }

  /** The start of a stream of text is text, and so is what is left. */
  lemma StartIsText(events: seq<Event>, patience: nat)
    requires NulFree(Stream(events))
    ensures var b := StartOf(events, patience);
            && NulFree(b.text) && NulFree(Stream(b.later)) && b.text + Stream(b.later) == Stream(events)
            && |b.text| < RESPONSE_HEADER_SIZE
  {
    var b := StartOf(events, patience);
    BeginStarts("", events, BUFSIZE, ENOUGH, patience);
    assert "" + Stream(events) == Stream(events);
    PartsAreText(b.text, Stream(b.later));
  }

  lemma PadPrefix(b: string, u: string, n: nat)
    requires n <= |u| <= |b| && b == Pad(u, |b|)
    ensures b[..n] == u[..n]
  {
    assert b[..|u|] == u;
    assert b[..|u|][..n] == b[..n];
  }

  /** What the parser makes of the start `t` of a response, and what it leaves of it. */
  ghost predicate Opens(r: Opened, t: string, now: int, left: string) {
    && |t| < RESPONSE_HEADER_SIZE
    && var (response, u) := Parse(t, BUFFER, now);
       match response
       case Short => r == Silent
       case Fault => r == Unparsable
       case Parsed(missing, reply) =>
         && r == Started(reply, missing, |t|) && NulFree(u) && |u| <= BUFFER && left == Pad(u, BUFFER)
         && |t| <= |u| && (u[..|t|] == t <==> HeadersOf(t).Some?)
  }

  /** Reads the start of the response and parses it in place. */
  method Open(origin: Origin, buf: array<char>, now: int) returns (r: Opened, ghost b: Beginning)
    requires buf.Length == BUFFER && buf[..] == Pad("", buf.Length) && NulFree(origin.Rest())
    modifies origin, buf
    ensures b == StartOf(old(origin.events), PATIENCE) && origin.events == b.later && |b.text| < BUFFER
    ensures NulFree(b.text) && NulFree(Stream(b.later)) && b.text + Stream(b.later) == old(origin.Rest())
    ensures if b.ok then Opens(r, b.text, now, buf[..]) else r == OriginFailed
  {
    b := StartOf(origin.events, PATIENCE);
    StartIsText(origin.events, PATIENCE);
    var ok, n := ReadStart(origin, buf, PATIENCE);
    ghost var t := buf[..n];
    if !ok {
      return OriginFailed, b;
    }
    var response := ParseResponse(buf, now, t);
    if response.Parsed? {
      RoundTripExactly(t, BUFFER, now);
    }
    match response
    case Short => r := Silent;
    case Fault => r := Unparsable;
    case Parsed(left, reply) => r := Started(reply, left, n);
  }

  /** The copy for the cache: the first `n` characters of the buffer, if the response may be stored. */
  method StartCopy(buf: array<char>, n: nat, canCache: bool) returns (copy: array<char>, ghost first: string)
    requires n <= RESPONSE_HEADER_SIZE && n <= buf.Length && NulFree(buf[..n])
    ensures fresh(copy) && copy.Length == RESPONSE_HEADER_SIZE + 1
    ensures first == (if canCache then buf[..n] else "") && Holds(copy[..], first)
  {
    var s := if canCache then buf[..n] else "";
    first := s;
    copy := new char[RESPONSE_HEADER_SIZE + 1](i => if 0 <= i < |s| then s[i] else NUL);
    assert copy[..] == Pad(first, copy.Length);
  }

  /** Buffers and counts that the copy was made with. */
  function Span(chunked: bool): nat { if chunked then BUFSIZE else RESPONSE_HEADER_SIZE }

  function Behind(chunked: bool, tail: string): string { if chunked then tail else "" }

  /** The string behind the first `BUFSIZE` characters of a buffer. */
  ghost predicate Trails(request: array<char>, tail: string)
    reads request
  {
    BUFSIZE < request.Length && Begins(request[BUFSIZE..], tail)
  }

  method ClearFront(buf: array<char>, max: nat, ghost tail: string)
    requires max < buf.Length && Begins(buf[max..], tail)
    modifies buf
    ensures Cleared(buf[..], max, tail)
  {
    ghost var b := buf[..];
    forall i | 0 <= i < max {
      buf[i] := NUL;
    }
    assert buf[max..] == b[max..];
  }

  predicate Counted(reply: Reply, left: nat) { left > 0 && reply.chunked == Some(false) }
  predicate Chunked(reply: Reply) { reply.chunked == Some(true) }

  /** How the rest of a response is relayed, with `later` still to come: nothing if nothing is
      missing of a counted body, what is missing of it, or all that comes in time of a chunked one. `spilled`
      tells that the parser's text has taken the last place of its buffer. */
  ghost predicate RestRelayed(crashed: bool, keep: bool, chunks: seq<string>, lost: string, reply: Reply,
                              left: nat, spilled: bool, canCache: bool, initial: string, tail: string,
                              failed: bool, later: seq<Event>)
  {
    if Counted(reply, left) then
      && crashed == spilled && keep == (canCache && !spilled)
      && (spilled ==> !failed && chunks == [] && lost == "")
      && (!spilled && !failed ==> lost == "" && EnoughRead(Flat(chunks), left, Stream(later)))
    else if Chunked(reply) then
      var all, breaks := Reads(later, BUFSIZE, SILENCES), Breaks(later, SILENCES);
      && chunks <= all
      && (crashed ==> canCache && !keep && !failed && lost == "" && Overflows(initial, chunks, tail))
      && (!crashed && canCache ==> !TooLong(initial, chunks, tail))
      && (!crashed && !failed ==> chunks == all && lost == "" && keep == (canCache && !breaks))
      && (failed ==> !keep)
    else
      !crashed && keep == canCache && chunks == [] && lost == "" && !failed
  }

  /** At least `left` bytes and less than one read more, or all there is. */
  predicate EnoughRead(s: string, left: nat, stream: string) {
    left <= |s| < left + RESPONSE_HEADER_SIZE || (|s| < left && s == stream)
  }

  /** Relays the rest of the body the way the headers ask for. `crashed` stands for
      undefined behaviour; `keep` tells whether the copy may still be stored. */
  method RelayRest(client: Client, origin: Origin, buf: array<char>, request: array<char>, copy: array<char>,
                   reply: Reply, left: nat, canCache: bool, ghost initial: string, ghost tail: string)
    returns (crashed: bool, keep: bool, out: array<char>, ghost chunks: seq<string>, ghost lost: string)
    requires buf != copy && request != copy && buf != request && buf.Length == BUFFER && Trails(request, tail)
    requires copy.Length == RESPONSE_HEADER_SIZE + 1 && Holds(copy[..], initial)
    modifies client, origin, buf, request, copy
    ensures Relayed(chunks, lost, old(client.sent), client.sent, old(origin.Rest()))
    ensures client.Failures() >= old(client.Failures())
    ensures RestRelayed(crashed, keep, chunks, lost, reply, left, old(buf[RESPONSE_HEADER_SIZE]) != NUL, canCache,
                        initial, tail, client.Failures() > old(client.Failures()), old(origin.events))
    ensures keep ==> var c := Chunked(reply); Holds(out[..], initial + Stored(chunks, Span(c), Behind(c, tail)))
    ensures out == copy || fresh(out)
  {
    crashed, keep, out, chunks, lost := false, canCache, copy, [], "";
    if Counted(reply, left) {
      if buf[RESPONSE_HEADER_SIZE] != NUL { return true, false, out, chunks, lost; }
      assert Begins(buf[RESPONSE_HEADER_SIZE..], "");
      ClearFront(buf, RESPONSE_HEADER_SIZE, "");
      var total;
      total, out, chunks, lost := BufferedForward(client, origin, buf, copy, left, canCache, initial);
    } else if Chunked(reply) {
      ClearFront(request, BUFSIZE, tail);
      var t;
      t, chunks, lost := TransferChunks(client, origin, request, copy, canCache, initial, tail);
      crashed := t.Overrun?;
      keep := canCache && t.Done?;
    } else {
      assert initial + Stored([], RESPONSE_HEADER_SIZE, "") == initial;
    }
  }

  /** What becomes of a response. */
  datatype Outcome =
    | Empty                                 // there was none: the client is told so
    | Gone                                  // reading or passing on the start failed
    | Crashed                               // undefined behaviour
    | Kept(value: string, reply: Reply)     // relayed, with a copy for the cache
    | Dropped                               // relayed

  /** What was relayed: the start of the response as it was received and as the parser left it,
      the chunks passed on whole, and what a failing write got rid of. */
  datatype Trace = Trace(received: string, first: string, chunks: seq<string>, lost: string, reply: Reply, left: nat)

  const UNREAD := Trace("", "", [], "", Reply(0, 0, None, None, None), 0)

  /** The client was sent this, and it is what the origin sent if the headers were good. */
  ghost predicate Passed(x: Trace, before: string, sent: string, stream: string) {
    && sent == before + x.first + Flat(x.chunks) + x.lost && AllText(x.chunks)
    && x.received + Flat(x.chunks) + x.lost <= stream && (x.first == x.received <==> HeadersOf(x.received).Some?)
  }

  /** What is kept for the cache. */
  ghost predicate KeptCopy(r: Outcome, x: Trace, tail: string)
    requires r.Kept?
  {
    var c := Chunked(x.reply);
    && MayStore(x.reply) && r.reply == x.reply
    && r.value == x.first + Stored(x.chunks, Span(c), Behind(c, tail))
  }

  /** The undefined behaviour that follows once the parser has made `u` of the start of a
      response, with `later` still to come. */
  ghost predicate Overruns(reply: Reply, left: nat, u: string, first: string, later: seq<Event>, tail: string) {
    || (Counted(reply, left) && |u| > RESPONSE_HEADER_SIZE)
    || (MayStore(reply) && Chunked(reply) && TooLong(first, Reads(later, BUFSIZE, SILENCES), tail))
  }

  /** What becomes of a response that the parser has made `u` of. */
  ghost predicate Settled(r: Outcome, x: Trace, u: string, tail: string, before: string, sent: string,
                          failed: bool, later: seq<Event>)
  {
    match r
    case Empty => false
    case Gone => failed && before <= sent < before + x.first && x.chunks == [] && x.lost == ""
    case _ =>
      && Passed(x, before, sent, x.received + Stream(later))
      && RestRelayed(r.Crashed?, r.Kept?, x.chunks, x.lost, x.reply, x.left, |u| > RESPONSE_HEADER_SIZE,
                     MayStore(x.reply), x.first, tail, failed, later)
      && (r.Kept? ==> KeptCopy(r, x, tail))
  }

  /** Undefined behaviour follows exactly for these inputs if no write fails before. */
  lemma CrashedExactly(r: Outcome, x: Trace, u: string, tail: string, before: string, sent: string, failed: bool,
                       later: seq<Event>)
    requires Settled(r, x, u, tail, before, sent, failed, later)
    ensures r.Crashed? <==> !failed && Overruns(x.reply, x.left, u, x.first, later, tail)
  {
    if !r.Gone? && Chunked(x.reply) {
      OverflowExactly(x.first, x.chunks, Reads(later, BUFSIZE, SILENCES), tail);
    }
  }

  /** All that forwarding does to the client, given what the origin sends. */
  ghost predicate Answered(r: Outcome, x: Trace, now: int, tail: string, before: string, sent: string,
                           failed: bool, events: seq<Event>) {
    var b := StartOf(events, PATIENCE);
    && x.received == b.text && |b.text| < BUFFER
    && if !b.ok then r.Gone? && sent == before && !failed
       else
         match Parse(b.text, BUFFER, now).0
         case Short =>
           var error := BAD_REQUEST_RESPONSE[..|NOT_FOUND|];
           r.Empty? && if failed then before <= sent < before + error else sent == before + error
         case Fault => r.Crashed? && sent == before && !failed
         case Parsed(left, reply) =>
           var u := Parse(b.text, BUFFER, now).1;
           && x.reply == reply && x.left == left && |b.text| <= |u| && x.first == u[..|b.text|]
           && Settled(r, x, u, tail, before, sent, failed, b.later)
  }

  /** Relays a response to the client; the request has been sent to the origin. */
  method Transmit(client: Client, origin: Origin, request: array<char>, now: int, ghost tail: string)
    returns (r: Outcome, ghost x: Trace)
    requires Trails(request, tail) && NulFree(tail) && NulFree(origin.Rest())
    modifies client, origin, request
    ensures client.Failures() >= old(client.Failures())
    ensures Answered(r, x, now, tail, old(client.sent), client.sent, client.Failures() > old(client.Failures()),
                     old(origin.events))
  {
    var buf := new char[RESPONSE_HEADER_SIZE + 1](_ => NUL);
    assert buf[..] == Pad("", buf.Length);
    var start, b := Open(origin, buf, now);
    x := UNREAD.(received := b.text);
    match start
    case Silent =>
      TellNothing(client);
      r := Empty;
    case OriginFailed => r := Gone;
    case Unparsable => r := Crashed;
    case Started(reply, left, n) =>
      ghost var u := Parse(b.text, BUFFER, now).1;
      r, x := Pass(client, origin, buf, request, reply, left, n, b.text, u, tail);
  }

  /** The error that the client gets for an empty response: the start of the 400 response, as
      long as the 404 response is. */
  method TellNothing(client: Client)
    modifies client
    ensures client.Failures() >= old(client.Failures())
    ensures var error := BAD_REQUEST_RESPONSE[..|NOT_FOUND|];
            if client.Failures() > old(client.Failures())
            then old(client.sent) <= client.sent < old(client.sent) + error
            else client.sent == old(client.sent) + error
  {
    var text := BAD_REQUEST_RESPONSE;
    var error := new char[|NOT_FOUND|](i => if 0 <= i < |text| then text[i] else NUL);
    assert |NOT_FOUND| == 24 && |text| == 26;
    assert error[..] == text[..24];
    var ok, total := WriteAll(client, error, |NOT_FOUND|);
    assert error[..24] == error[..];
  }

  method Pass(client: Client, origin: Origin, buf: array<char>, request: array<char>, reply: Reply, left: nat,
              n: nat, ghost t: string, ghost u: string, ghost tail: string)
    returns (r: Outcome, ghost x: Trace)
    requires buf != request && Trails(request, tail) && NulFree(tail) && NulFree(origin.Rest())
    requires buf.Length == BUFFER && n == |t| <= RESPONSE_HEADER_SIZE && n <= |u| && NulFree(u)
    requires |u| <= BUFFER && buf[..] == Pad(u, BUFFER) && (u[..n] == t <==> HeadersOf(t).Some?)
    modifies client, origin, buf, request
    ensures x.received == t && x.reply == reply && x.left == left && x.first == u[..n]
    ensures client.Failures() >= old(client.Failures())
    ensures Settled(r, x, u, tail, old(client.sent), client.sent, client.Failures() > old(client.Failures()),
                    old(origin.events))
  {
    ghost var first, rest, before := u[..n], origin.Rest(), client.sent;
    PadPrefix(buf[..], u, n);
    PartsAreText(first, u[n..]);
    assert u == first + u[n..];
    x := Trace(t, first, [], "", reply, left);
    var ok, total := WriteAll(client, buf, n);
    if !ok {
      assert buf[..total] == first[..total];
      return Gone, x;
    }
    var copy, initial := StartCopy(buf, n, MayStore(reply));
    var crashed, keep, out, chunks, lost := RelayRest(client, origin, buf, request, copy, reply, left,
                                                      MayStore(reply), initial, tail);
    x := Trace(t, first, chunks, lost, reply, left);
    PrefixIsText(chunks, lost, rest);
    PassedBehind(x, before, client.sent, rest);
    if crashed {
      r := Crashed;
    } else if keep {
      ghost var c := Chunked(reply);
      var len := TextLength(out, first + Stored(chunks, Span(c), Behind(c, tail)));
      HoldsAt(out[..], first + Stored(chunks, Span(c), Behind(c, tail)));
      r := Kept(out[..len], reply);
    } else {
      r := Dropped;
    }
  }

  lemma PassedBehind(x: Trace, before: string, sent: string, rest: string)
    requires Relayed(x.chunks, x.lost, before + x.first, sent, rest) && AllText(x.chunks)
    requires x.first == x.received <==> HeadersOf(x.received).Some?
    ensures Passed(x, before, sent, x.received + rest)
  {
    assert x.received + Flat(x.chunks) + x.lost == x.received + (Flat(x.chunks) + x.lost);
  }

  lemma PrefixIsText(chunks: seq<string>, lost: string, rest: string)
    requires Flat(chunks) + lost <= rest && NulFree(rest)
    ensures AllText(chunks)
  {
    var f := Flat(chunks);
    assert forall i | 0 <= i < |f| :: f[i] == (f + lost)[i] == rest[i];
    FlatIsText(chunks);
  }

  /** The relay, with the cache left alone. */
  method TransmitAside(cache: Cache, client: Client, origin: Origin, request: array<char>, now: int,
                       ghost tail: string, ghost m: Store)
    returns (r: Outcome, ghost x: Trace)
    requires Usable(cache) && Snap(View(cache.slots)) == m
    requires Trails(request, tail) && NulFree(tail) && NulFree(origin.Rest())
    modifies client, origin, request
    ensures Usable(cache) && Snap(View(cache.slots)) == m && client.Failures() >= old(client.Failures())
    ensures Answered(r, x, now, tail, old(client.sent), client.sent, client.Failures() > old(client.Failures()),
                     old(origin.events))
  {
    ghost var view := View(cache.slots);
    label before:
    r, x := Transmit(client, origin, request, now, tail);
    SnapKept@before(view);
  }

  /** The store after a response: a fill with what is kept of it. */
  ghost function StoreAfter(m: Store, r: Outcome, uri: string, host: string): Store {
    if r.Kept? && MayStore(r.reply) then AfterFill(m, uri, r.value, host, InfoOf(r.reply)) else m
  }

  method StoreKept(cache: Cache, r: Outcome, uri: string, host: string, ghost m: Store)
    requires Usable(cache) && Indexable(uri) && Snap(View(cache.slots)) == m && (r.Kept? ==> MayStore(r.reply))
    modifies cache`slots, cache`live, cache.buckets, cache.Nodes()
    ensures Usable(cache) && Snap(View(cache.slots)) == StoreAfter(m, r, uri, host)
  {
    if r.Kept? {
      StoreNew(cache, uri, r.value, host, InfoOf(r.reply));
    }
  }

  lemma KeptMayBeStored(r: Outcome, x: Trace, now: int, tail: string, before: string, sent: string, failed: bool,
                        events: seq<Event>)
    requires Answered(r, x, now, tail, before, sent, failed, events)
    ensures r.Kept? ==> MayStore(r.reply)
  {
  }

  /** forwardRequest once it has reached the origin: relays the response and stores it if its
      last Cache-Control header permits that. */
  method ForwardRequest(cache: Cache, client: Client, origin: Origin, request: array<char>, uri: string,
                        host: string, now: int, ghost tail: string, ghost m: Store)
    returns (r: Outcome, ghost x: Trace)
    requires Usable(cache) && Indexable(uri) && Snap(View(cache.slots)) == m
    requires Trails(request, tail) && NulFree(tail) && NulFree(origin.Rest())
    modifies client, origin, request, cache`slots, cache`live, cache.buckets, cache.Nodes()
    ensures Usable(cache) && Snap(View(cache.slots)) == StoreAfter(m, r, uri, host)
    ensures client.Failures() >= old(client.Failures()) && (r.Kept? ==> MayStore(r.reply))
    ensures Answered(r, x, now, tail, old(client.sent), client.sent, client.Failures() > old(client.Failures()),
                     old(origin.events))
  {
    ghost var before, events := See(client, client, origin), origin.events;
    r, x := TransmitAside(cache, client, origin, request, now, tail, m);
    ghost var after := See(client, client, origin);
    KeptMayBeStored(r, x, now, tail, before.sent, after.sent, after.failures > before.failures, events);
    StoreKept(cache, r, uri, host, m);
    assert See(client, client, origin) == after;
  }

  /** What is kept is what the client was sent, up to a chunk lost in a failing write, exactly
      if it did not pass through `transferChunks` with a full buffer and something behind it. */
  lemma KeptIsSentExactly(r: Outcome, x: Trace, tail: string, before: string, sent: string, stream: string)
    requires r.Kept? && KeptCopy(r, x, tail) && Passed(x, before, sent, stream) && NulFree(tail)
    ensures sent == before + r.value + x.lost <==>
            !Chunked(r.reply) || tail == "" || forall c | c in x.chunks :: |c| != BUFSIZE
  {
    var c := Chunked(r.reply);
    CopyIsExact(x.chunks, Span(c), Behind(c, tail));
    Between(before, x.first, Stored(x.chunks, Span(c), Behind(c, tail)), Flat(x.chunks), x.lost);
  }

  lemma Between(a: string, b: string, s: string, f: string, c: string)
    ensures a + b + f + c == a + (b + s) + c <==> s == f
  {
    assert a + b + f + c == a + b + (f + c) && a + (b + s) + c == a + b + (s + c);
    Cancel(a + b, s, f, c);
  }

  lemma Cancel(a: string, s: string, f: string, b: string)
    ensures a + (s + b) == a + (f + b) <==> s == f
  {
    if a + (s + b) == a + (f + b) {
      assert (a + (s + b))[|a|..] == s + b && (a + (f + b))[|a|..] == f + b;
      assert |s| == |f|;
      assert (s + b)[..|s|] == s && (f + b)[..|f|] == f;
    }
  }
}
