/** Revalidating a cache entry with its origin (threadPool.c, `getRevalidation`). */
module Refresh {
  import opened CStrings
  import opened Streams
  import opened Receiving
  import opened Forwarding
  import opened ForwardingTheorems
  import opened HashCache
  import opened Freshness
  import opened Proxy
  import opened Exchange
  import ETagScan
  import Revalidation

  method ToBuffer(s: string) returns (a: array<char>)
    ensures fresh(a) && a[..] == s
  {
    a := new char[|s|](i => if 0 <= i < |s| then s[i] else NUL);
  }

  const NOT_MODIFIED := "HTTP/1.1 304 Not Modified"

  datatype Refreshed =
    | Missing                  // no entry, or one without an entity tag: the request is forwarded
    | Failed
    | Undefined
    | StillGood                // the stored text may be used
    | Renewed(value: string, tag: Option<string>)

  /** Sends the conditional request and reads the start of the answer into `buf`. */
  method Enquire(server: Client, origin: Origin, buf: array<char>, ask: string) returns (ok: bool, n: nat)
    requires buf.Length == RESPONSE_HEADER_SIZE && buf[..] == Pad("", buf.Length)
    modifies server, origin, buf
    ensures n < RESPONSE_HEADER_SIZE && buf[..] == Pad(buf[..n], buf.Length)
    ensures server.Failures() >= old(server.Failures())
    ensures if server.Failures() > old(server.Failures())
            then !ok && origin.events == old(origin.events)
                 && old(server.sent) <= server.sent < old(server.sent) + ask
            else StartOf(old(origin.events), SILENCES) == Beginning(buf[..n], origin.events, ok)
                 && server.sent == old(server.sent) + ask
  {
    var text := ToBuffer(ask);
    var sent, total := WriteAll(server, text, text.Length);
    assert text[..text.Length] == ask;
    if !sent {
      assert buf[..0] == "" && text[..total] < ask;
      return false, 0;
    }
    ok, n := ReadStart(origin, buf, SILENCES);
  }

  /** What was relayed of an answer that is not 304. */
  ghost predicate Renews(r: Refreshed, t: string, chunks: seq<string>)
    requires r.Renewed?
  {
    r.tag == ETagScan.Scanned(t) && r.value == ETagScan.LeftBy(t) + Stored(chunks, BUFSIZE, "")
  }

  /** The relay of an answer that starts with `t`, with `later` still to come. */
  ghost predicate RenewsFrom(r: Refreshed, t: string, chunks: seq<string>, before: string, sent: string,
                             failed: bool, later: seq<Event>)
  {
    var all := Reads(later, BUFSIZE, SILENCES);
    && chunks <= all
    && if failed then r == Failed && before <= sent <= before + (t + Stream(later))
       else
         && sent == before + t + Flat(chunks)
         && if TooLong(ETagScan.LeftBy(t), all, "")
            then r == Refreshed.Undefined && Overflows(ETagScan.LeftBy(t), chunks, "")
            else chunks == all && if Breaks(later, SILENCES) then r == Failed else r.Renewed? && Renews(r, t, chunks)
  }

  lemma RelayRenews(r: Transfer, t: string, chunks: seq<string>, lost: string, before: string, sent: string,
                    failed: bool, later: seq<Event>)
    requires Transferred(r, chunks, lost, true, ETagScan.LeftBy(t), "", failed, Reads(later, BUFSIZE, SILENCES),
                         Breaks(later, SILENCES))
    requires Relayed(chunks, lost, before + t, sent, Stream(later))
    ensures failed ==> r.Aborted? && before <= sent <= before + (t + Stream(later))
    ensures r.Overrun? ==> RenewsFrom(Refreshed.Undefined, t, chunks, before, sent, failed, later)
    ensures r.Aborted? ==> RenewsFrom(Failed, t, chunks, before, sent, failed, later)
    ensures r.Done? ==> !failed && sent == before + t + Flat(chunks) && chunks == Reads(later, BUFSIZE, SILENCES)
                        && !TooLong(ETagScan.LeftBy(t), chunks, "") && !Breaks(later, SILENCES)
  {
    OverflowExactly(ETagScan.LeftBy(t), chunks, Reads(later, BUFSIZE, SILENCES), "");
    SentInOrder(before, t, Flat(chunks), lost, Stream(later));
  }

  lemma SentInOrder(before: string, t: string, f: string, lost: string, stream: string)
    requires f + lost <= stream
    ensures before <= before + t + f + lost <= before + (t + stream) && before + t + f + "" == before + t + f
  {
    assert before + t + f + lost == before + (t + (f + lost));
    assert before + (t + stream) == before + (t + (f + lost)) + stream[|f + lost|..];
  }

  /** Relays an answer that is not 304 and copies it for the cache. */
  method RelayNew(client: Client, origin: Origin, buf: array<char>, n: nat)
    returns (r: Refreshed, ghost chunks: seq<string>)
    requires buf.Length == RESPONSE_HEADER_SIZE && n < buf.Length && buf[..] == Pad(buf[..n], buf.Length)
             && NulFree(buf[..n])
    modifies client, origin, buf
    ensures client.Failures() >= old(client.Failures())
    ensures RenewsFrom(r, old(buf[..n]), chunks, old(client.sent), client.sent,
                       client.Failures() > old(client.Failures()), old(origin.events))
  {
    ghost var t, lost, before, later := buf[..n], "", client.sent, origin.events;
    chunks := [];
    var ok, total := WriteAll(client, buf, n);
    if !ok {
      assert buf[..total] <= t && t[..total] == buf[..total];
      assert t[..total] <= t + Stream(later);
      return Failed, [];
    }
    var copy, first := StartCopy(buf, n, true);
    forall i | 0 <= i < buf.Length {
      buf[i] := NUL;
    }
    assert Begins(buf[BUFSIZE..], "");
    var tag := ETagScan.Scan(copy, t);
    var done;
    done, chunks, lost := TransferChunks(client, origin, buf, copy, true, ETagScan.LeftBy(t), "");
    RelayRenews(done, t, chunks, lost, before, client.sent, client.Failures() > old(client.Failures()), later);
    match done
    case Overrun => r := Undefined;
    case Aborted => r := Failed;
    case Done(_) =>
      var len := TextLength(copy, ETagScan.LeftBy(t) + Stored(chunks, BUFSIZE, ""));
      HoldsAt(copy[..], ETagScan.LeftBy(t) + Stored(chunks, BUFSIZE, ""));
      r := Renewed(copy[..len], tag);
  }

  /** The exchange about `ask` with an origin that answers with `t` first: nothing is sent to the
      client if the stored text may be used, and otherwise all of the answer that comes in time,
      which is what the entry is renewed from. */
  ghost predicate Refetches(r: Refreshed, t: string, chunks: seq<string>, ask: string, w: World, v: World) {
    && v.failures >= w.failures && v.refusals >= w.refusals
    && if v.refusals > w.refusals then
         r == Failed && v == w.(asked := v.asked, refusals := v.refusals) && w.asked <= v.asked < w.asked + ask
       else
         var b := StartOf(w.events, SILENCES);
         && v.asked == w.asked + ask && t == b.text
         && if !b.ok then r == Failed && v.sent == w.sent && v.failures == w.failures
            else if StartsIgnoringCase(t, NOT_MODIFIED) then
              r == StillGood && v.sent == w.sent && v.failures == w.failures
            else RenewsFrom(r, t, chunks, w.sent, v.sent, v.failures > w.failures, b.later)
  }

  /** The exchange with the origin. */
  method Refetch(client: Client, server: Client, origin: Origin, ask: string)
    returns (r: Refreshed, ghost t: string, ghost chunks: seq<string>)
    requires NulFree(origin.Rest()) && client != server
    modifies client, server, origin
    ensures Refetches(r, t, chunks, ask, old(See(client, server, origin)), See(client, server, origin))
  {
    chunks := [];
    StartIsText(origin.events, SILENCES);
    var buf := new char[RESPONSE_HEADER_SIZE](_ => NUL);
    assert buf[..] == Pad("", buf.Length);
    var ok, n := Enquire(server, origin, buf, ask);
    t := buf[..n];
    if !ok { return Failed, t, chunks; }
    if StartsIgnoringCase(buf[..n], NOT_MODIFIED) { return StillGood, t, chunks; }
    r, chunks := RelayNew(client, origin, buf, n);
  }

  /** The same for a request that may be too long for its buffer and an origin that may be out of
      reach. */
  ghost predicate Asks(r: Refreshed, t: string, chunks: seq<string>, ask: string, connected: bool, w: World, v: World) {
    if |ask| >= RESPONSE_HEADER_SIZE then r == Refreshed.Undefined && v == w
    else if !connected then r == Failed && v == w
    else Refetches(r, t, chunks, ask, w, v)
  }

  method RefetchAside(cache: Cache, client: Client, server: Client, origin: Origin, connected: bool, ask: string,
                      ghost m: Store)
    returns (r: Refreshed, ghost t: string, ghost chunks: seq<string>)
    requires NulFree(origin.Rest()) && client != server && Usable(cache) && Snap(View(cache.slots)) == m
    modifies client, server, origin
    ensures Usable(cache) && Snap(View(cache.slots)) == m && !r.Missing?
    ensures Asks(r, t, chunks, ask, connected, old(See(client, server, origin)), See(client, server, origin))
  {
    ghost var view := View(cache.slots);
    if |ask| >= RESPONSE_HEADER_SIZE { return Refreshed.Undefined, "", []; }
    if !connected { return Failed, "", []; }
    label before:
    r, t, chunks := Refetch(client, server, origin, ask);
    SnapKept@before(view);
  }

  /** The entry to revalidate, if it has an entity tag, and the conditional request for it. */
  method FindTagged(cache: Cache, uri: string) returns (node: Node?, ask: string)
    requires Usable(cache) && Indexable(uri)
    ensures var m := Snap(View(cache.slots));
            if uri !in m || m[uri].info.eTag == None then node == null
            else node != null && ask == Revalidation.Template(uri, m[uri].info.eTag.value, m[uri].host)
    ensures node != null ==> NodeOf(cache, node) && node.key.text == uri && node.info in Infos(View(cache.slots))
  {
    ask := "";
    node := cache.Get(uri);
    if node != null {
      assert View(cache.slots)[uri].info == node.info;
      var tag := node.info.data.eTag;
      if tag == None { return null, ask; }
      ask := Revalidation.Template(uri, tag.value, node.host.text);
    }
  }

  /** The state of the cache after a revalidation of `uri`. */
  ghost function Renewal(m: Store, uri: string, r: Refreshed): Store {
    if r.Renewed? && uri in m then AfterRefill(m, uri, r.value, r.tag) else m
  }

  method StoreRenewal(cache: Cache, node: Node, r: Refreshed, ghost m: Store)
    requires Usable(cache) && NodeOf(cache, node) && Snap(View(cache.slots)) == m
    modifies cache`slots, cache`live, cache.buckets, cache.Nodes(), node.info
    ensures Usable(cache) && Snap(View(cache.slots)) == Renewal(m, node.key.text, r)
  {
    if r.Renewed? {
      assert node.key.text in View(cache.slots);
      RefillEntry(cache, node, r.value, r.tag);
    }
  }

  method Renew(cache: Cache, node: Node, client: Client, server: Client, origin: Origin, connected: bool,
               ask: string, ghost m: Store)
    returns (r: Refreshed, ghost t: string, ghost chunks: seq<string>)
    requires Usable(cache) && NodeOf(cache, node) && NulFree(origin.Rest()) && client != server
             && Snap(View(cache.slots)) == m
    modifies client, server, origin, cache`slots, cache`live, cache.buckets, cache.Nodes(), node.info
    ensures Usable(cache) && Snap(View(cache.slots)) == Renewal(m, node.key.text, r) && !r.Missing?
    ensures Asks(r, t, chunks, ask, connected, old(See(client, server, origin)), See(client, server, origin))
  {
    r, t, chunks := RefetchAside(cache, client, server, origin, connected, ask, m);
    ghost var after := See(client, server, origin);
    StoreRenewal(cache, node, r, m);
    assert See(client, server, origin) == after;
  }

  /** What comes of revalidating the entry of `uri`: without an entity tag nothing happens. */
  ghost predicate Revalidates(r: Refreshed, t: string, chunks: seq<string>, m: Store, uri: string,
                              connected: bool, w: World, v: World) {
    if uri !in m || m[uri].info.eTag == None then r == Missing && v == w
    else Asks(r, t, chunks, Revalidation.Template(uri, m[uri].info.eTag.value, m[uri].host), connected, w, v)
  }

  /** getRevalidation; `connected` tells whether the origin can be reached. An entry with an
      entity tag is kept if the origin answers 304, and else gets the new text and, if it brings
      one, the new tag. */
  method GetRevalidation(cache: Cache, client: Client, server: Client, origin: Origin, connected: bool,
                         uri: string, ghost m: Store)
    returns (r: Refreshed, ghost t: string, ghost chunks: seq<string>)
    requires Usable(cache) && Indexable(uri) && NulFree(origin.Rest()) && client != server
             && Snap(View(cache.slots)) == m
    modifies client, server, origin, cache`slots, cache`live, cache.buckets, cache.Nodes(), Infos(View(cache.slots))
    ensures Usable(cache) && Snap(View(cache.slots)) == Renewal(m, uri, r)
    ensures r.Missing? ==> cache.slots == old(cache.slots)
    ensures Revalidates(r, t, chunks, m, uri, connected, old(See(client, server, origin)), See(client, server, origin))
  {
    var node, ask := FindTagged(cache, uri);
    if node == null { return Missing, "", []; }
    r, t, chunks := Renew(cache, node, client, server, origin, connected, ask, m);
  }

  /** The new text of an entry is what the client was sent exactly if the answer does not end
      behind an unfinished entity tag, to which the search adds a '\r'. */
  lemma RenewedIsSentExactly(r: Refreshed, t: string, chunks: seq<string>, ask: string, w: World, v: World)
    requires r.Renewed? && Refetches(r, t, chunks, ask, w, v) && NulFree(Stream(w.events))
    ensures v.sent == w.sent + r.value <==> ETagScan.FirstFrom(t, 0) == None || ETagScan.Scanned(t).Some?
  {
    StartIsText(w.events, SILENCES);
    HeardIsText(StartOf(w.events, SILENCES).later, SILENCES);
    FlatIsText(chunks);
    CopyIsExact(chunks, BUFSIZE, "");
    LeftByExactly(t);
    SameEnds(w.sent, t, ETagScan.LeftBy(t), Flat(chunks));
  }

  lemma LeftByExactly(t: string)
    ensures t == ETagScan.LeftBy(t) <==> ETagScan.FirstFrom(t, 0) == None || ETagScan.Scanned(t).Some?
  {
    assert |t + "\r"| == |t| + 1;
  }

  lemma SameEnds(a: string, s: string, f: string, b: string)
    ensures a + s + b == a + (f + b) <==> s == f
  {
    assert a + s + b == a + (s + b);
    Cancel(a, s, f, b);
  }
}
