/** What the client and the cache get of a response, by the header lines that say how long its body
    is (threadPool.c, `parseResponse` and `forwardRequest`). */
module FramedBody {
  import opened CStrings
  import opened LineLoop
  import opened ResponseParser
  import opened ResponseTheorems
  import opened ResponseFields
  import opened Streams
  import opened Receiving
  import opened Forwarding
  import opened ForwardingTheorems
  import opened Freshness
  import opened Exchange
  import opened CountedBody

  /** A response with a good head, the rest of which is relayed with no write failing. */
  ghost predicate GoesThrough(o: Outcome, x: Trace, end: nat, now: int, tail: string, before: string, sent: string,
                              events: seq<Event>)
  {
    && Answered(o, x, now, tail, before, sent, false, events) && NulFree(Stream(events)) && (o.Kept? || o.Dropped?)
    && HeadersOf(x.received) == Some(end)
  }

  lemma ReplyIsGathered(o: Outcome, x: Trace, end: nat, now: int, tail: string, before: string, sent: string,
                        events: seq<Event>)
    requires GoesThrough(o, x, end, now, tail, before, sent, events)
    ensures NulFree(x.received) && Gather(x.received, 0, true, Start(now), ResponseRule) == Some(x.reply)
    ensures x.first == x.received
  {
    StartIsText(events, PATIENCE);
    ClosedResponse(x.received, BUFFER, now);
  }

  /** If the last line that says how long the body is is named Transfer-Encoding, the client is sent
      the start and exactly what comes in time behind it, and that is stored if storing is
      permitted, unless a read fails in time. */
  lemma ChunkedSentExactly(o: Outcome, x: Trace, end: nat, p: nat, now: int, tail: string, before: string,
                           sent: string, events: seq<Event>)
    requires GoesThrough(o, x, end, now, tail, before, sent, events) && NulFree(tail)
    requires LastOf(x.received, end, Framing(x.received), p) && Named(x.received, p, "Transfer-Encoding")
    ensures var later := StartOf(events, PATIENCE).later;
            && sent == before + x.received + Heard(later, SILENCES)
            && (o.Kept? <==> MayStore(x.reply) && !Breaks(later, SILENCES))
            && (o.Kept? && tail == "" ==> o.value == x.received + Heard(later, SILENCES))
  {
    ReplyIsGathered(o, x, end, now, tail, before, sent, events);
    ModeByName(x.received, end, now, x.reply);
    StartIsText(events, PATIENCE);
    var later := StartOf(events, PATIENCE).later;
    ChunksRelayed(o, x, now, tail, before, sent, events);
    ReadsAreHeard(later, BUFSIZE, SILENCES);
    if tail == "" {
      HeardIsText(later, SILENCES);
      StoredOfText(x.chunks, BUFSIZE, "");
    }
    assert before + x.first + Flat(x.chunks) + "" == before + x.first + Flat(x.chunks);
  }

  lemma ChunksRelayed(o: Outcome, x: Trace, now: int, tail: string, before: string, sent: string, events: seq<Event>)
    requires Answered(o, x, now, tail, before, sent, false, events) && (o.Kept? || o.Dropped?)
    requires x.reply.chunked == Some(true)
    ensures var later := StartOf(events, PATIENCE).later;
            && x.chunks == Reads(later, BUFSIZE, SILENCES) && x.lost == ""
            && sent == before + x.first + Flat(x.chunks) + ""
            && (o.Kept? <==> MayStore(x.reply) && !Breaks(later, SILENCES))
            && (o.Kept? ==> o.value == x.first + Stored(x.chunks, BUFSIZE, tail))
  {
  }

  /** If that line is named Content-Length and gives the number `n`, and all of the body comes, the
      client is sent the head and the body exactly if the body is empty or some of it has come
      with the initial read. */
  lemma CountedSentExactly(o: Outcome, x: Trace, end: nat, p: nat, n: nat, now: int, tail: string, before: string,
                           sent: string, events: seq<Event>)
    requires GoesThrough(o, x, end, now, tail, before, sent, events)
    requires LastOf(x.received, end, Framing(x.received), p) && Named(x.received, p, "Content-Length")
    requires n < 0x8000_0000 && ValueOf(x.received, p, "Content-Length") == " " + Decimal(n) + "\r"
    requires end < |x.received| && end + 1 + n <= |Stream(events)|
    ensures before <= sent && sent[|before|..] <= Stream(events)
    ensures |sent| - |before| >= end + 1 + n <==> n == 0 || |x.received| > end + 1
    ensures if MayStore(x.reply) then o.Kept? && sent == before + o.value else o == Dropped
  {
    ReplyIsGathered(o, x, end, now, tail, before, sent, events);
    ModeByName(x.received, end, now, x.reply);
    OtherName(x.received, p);
    assert LastOf(x.received, end, NamedAs(x.received, "Content-Length"), p) by {
      assert forall q: nat | LineOf(x.received, q, end) && Named(x.received, q, "Content-Length") ::
             Framing(x.received)(q);
    }
    LengthByName(x.received, end, now, x.reply, p, n);
    BodySentExactly(o, x, end, n, now, tail, before, sent, events);
  }

  lemma OtherName(t: string, p: nat)
    requires Named(t, p, "Content-Length")
    ensures !Named(t, p, "Transfer-Encoding")
  {
    var a, b := "Content-Length", "Transfer-Encoding";
    assert |a| == 14 && |b| == 17 && a[0] == 'C' && b[0] == 'T';
    assert t[p..p + 14][0] == t[p];
    if p + 17 < |t| {
      assert t[p..p + 17][0] == t[p];
    }
  }

  /** If there is no such line at all, the client is sent the start alone. */
  lemma UnframedSentExactly(o: Outcome, x: Trace, end: nat, now: int, tail: string, before: string, sent: string,
                            events: seq<Event>)
    requires GoesThrough(o, x, end, now, tail, before, sent, events)
    requires NoneFrom(x.received, 1, end, Framing(x.received))
    ensures sent == before + x.received && (o.Kept? <==> MayStore(x.reply)) && (o.Kept? ==> o.value == x.received)
  {
    ReplyIsGathered(o, x, end, now, tail, before, sent, events);
    ModeByName(x.received, end, now, x.reply);
    assert before + x.first + "" + "" == before + x.first;
    assert x.first + Stored([], RESPONSE_HEADER_SIZE, "") == x.first;
  }
}
