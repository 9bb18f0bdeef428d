/** Whether the body that a Content-Length header announces reaches the client and the cache
    (threadPool.c, `parseResponse` and `forwardRequest`). */
module CountedBody {
  import opened CStrings
  import opened LineLoop
  import opened ResponseParser
  import opened ResponseTheorems
  import opened Streams
  import opened Receiving
  import opened Forwarding
  import opened ForwardingTheorems
  import opened Freshness
  import opened Exchange

  /** What the parser finds missing of a counted body: nothing at all if none of it has come. */
  lemma MissingOf(t: string, now: int, left: nat, reply: Reply, end: nat)
    requires NulFree(t) && |t| < RESPONSE_HEADER_SIZE && HeadersOf(t) == Some(end) && end < |t|
    requires Parse(t, BUFFER, now).0 == Parsed(left, reply)
    ensures left == LeftOf(reply.length, |t| - end - 1)
  {
    ClosedResponse(t, BUFFER, now);
    InitialReadKept(t, now, reply);
  }

  /** A response whose head ends at `end`, its terminator's newline included in the initial read,
      and whose body is announced to have `length` bytes, all of which come, and that is relayed
      with no write failing. */
  ghost predicate Announced(o: Outcome, x: Trace, end: nat, length: nat, now: int, tail: string, before: string,
                            sent: string, events: seq<Event>)
  {
    && Answered(o, x, now, tail, before, sent, false, events) && NulFree(Stream(events)) && (o.Kept? || o.Dropped?)
    && HeadersOf(x.received) == Some(end) && end < |x.received|
    && x.reply.chunked == Some(false) && x.reply.length == length && end + 1 + length <= |Stream(events)|
  }

  /** What an announced response comes down to, with `rest` coming behind the initial read. */
  ghost predicate Relays(o: Outcome, x: Trace, before: string, sent: string, rest: string) {
    && Passed(x, before, sent, x.received + rest) && HeadersOf(x.received).Some? && x.lost == ""
    && (if x.left > 0 then EnoughRead(Flat(x.chunks), x.left, rest) else x.chunks == [])
    && (o.Kept? <==> MayStore(x.reply))
    && (o.Kept? ==> o.value == x.received + Stored(x.chunks, RESPONSE_HEADER_SIZE, ""))
  }

  lemma AnnouncedRelays(o: Outcome, x: Trace, end: nat, length: nat, now: int, tail: string, before: string,
                        sent: string, events: seq<Event>)
    requires Announced(o, x, end, length, now, tail, before, sent, events)
    ensures Relays(o, x, before, sent, Stream(StartOf(events, PATIENCE).later))
    ensures x.received + Stream(StartOf(events, PATIENCE).later) == Stream(events)
    ensures var body := |x.received| - end - 1; x.left == if 0 < body < length then length - body else 0
  {
    StartIsText(events, PATIENCE);
    MissingOf(x.received, now, x.left, x.reply, end);
  }

  /** The client is sent the head and at least the announced body exactly if the body is empty or
      some of it has come with the initial read. Otherwise it is sent the bare head. What is
      stored, if the headers permit it, is what is sent. */
  lemma BodySentExactly(o: Outcome, x: Trace, end: nat, length: nat, now: int, tail: string, before: string,
                        sent: string, events: seq<Event>)
    requires Announced(o, x, end, length, now, tail, before, sent, events)
    ensures before <= sent && sent[|before|..] <= Stream(events)
    ensures |sent| - |before| >= end + 1 + length <==> length == 0 || |x.received| > end + 1
    ensures length > 0 && |x.received| == end + 1 ==> |sent| == |before| + end + 1
    ensures if MayStore(x.reply) then o.Kept? && sent == before + o.value else o == Dropped
  {
    AnnouncedRelays(o, x, end, length, now, tail, before, sent, events);
    var rest, f := Stream(StartOf(events, PATIENCE).later), Flat(x.chunks);
    SentText(x, before, sent, rest);
    StoredOfText(x.chunks, RESPONSE_HEADER_SIZE, "");
    EnoughRelayed(x, rest, end, length);
  }

  lemma SentText(x: Trace, before: string, sent: string, rest: string)
    requires Passed(x, before, sent, x.received + rest) && HeadersOf(x.received).Some? && x.lost == ""
    ensures var g := x.received + Flat(x.chunks);
            sent == before + g && before <= sent && sent[|before|..] == g && g <= x.received + rest
  {
    var g := x.received + Flat(x.chunks);
    assert before + x.received + Flat(x.chunks) + "" == before + g && g + "" == g;
    assert (before + g)[|before|..] == g;
  }

  lemma EnoughRelayed(x: Trace, rest: string, end: nat, length: nat)
    requires end < |x.received| && end + 1 + length <= |x.received + rest|
    requires if x.left > 0 then EnoughRead(Flat(x.chunks), x.left, rest) else x.chunks == []
    requires var body := |x.received| - end - 1; x.left == if 0 < body < length then length - body else 0
    ensures |x.received| + |Flat(x.chunks)| >= end + 1 + length <==> length == 0 || |x.received| > end + 1
    ensures length > 0 && |x.received| == end + 1 ==> Flat(x.chunks) == ""
  {
  }

  // ----- A response that loses its body -----

  const HEAD := ['A', '\n'] + CONTENT_LENGTH + [':', ' ', '5', '\r', '\n', '\r', '\n']

  lemma NameText()
    ensures |CONTENT_LENGTH| == 14 && forall i | 0 <= i < 14 :: CONTENT_LENGTH[i] !in "\n:\0"
  {
  }

  lemma HeadLines()
    ensures |HEAD| == 23 && NulFree(HEAD)
    ensures Find(HEAD, 0, '\n') == 1 && Find(HEAD, 2, '\n') == 20 && Find(HEAD, 21, '\n') == 22
    ensures Within(HEAD, 2, 20, ':') == 16 && HEAD[2..16] == CONTENT_LENGTH && HEAD[17..20] == [' ', '5', '\r']
            && HEAD[21] == '\r'
    ensures HEAD[0] == 'A'
  {
    NameText();
    var t := HEAD;
    assert forall i | 2 <= i < 16 :: t[i] == CONTENT_LENGTH[i - 2];
    assert t[0] == 'A' && t[1] == '\n' && t[16] == ':' && t[20] == '\n' && t[21] == '\r' && t[22] == '\n';
    assert t[17..20] == [' ', '5', '\r'];
  }

  const SAID := Reply(0, 5, Some(false), None, None)

  lemma FiveIsRead()
    ensures Atoi(Inner([' ', '5', '\r'])) == 5
  {
    assert Decimal(5) == ['5'];
    NumberReadBack(5, "");
    assert Decimal(5) + "" == ['5'];
    assert [' ', '5', '\r'][1..2] == ['5'];
  }

  lemma LengthIsKnown()
    ensures HeaderOf(CONTENT_LENGTH) == ContentLength
  {
  }

  lemma LengthLineRead(now: int)
    ensures ResponseRule(HEAD, 2, 20, false, Start(now)) == Next(HEAD, SAID.(now := now))
            && GoodLine(HEAD, 2, 20, false)
  {
    HeadLines();
    FiveIsRead();
    LengthIsKnown();
    assert HEAD[19] == [' ', '5', '\r'][2] by { assert HEAD[17..20][2] == HEAD[19]; }
    assert HEAD[19 := '\r'] == HEAD;
  }

  lemma HeadIsClosed()
    ensures HeadersOf(HEAD) == Some(22)
  {
    HeadLines();
    LengthLineRead(0);
    SectionPass(HEAD, 2, 20, false, Ends, GoodLine);
    SectionPass(HEAD, 0, 1, true, Ends, GoodLine);
  }

  lemma HeadIsRead(now: int)
    ensures Gather(HEAD, 0, true, Start(now), ResponseRule) == Some(SAID.(now := now))
  {
    HeadLines();
    LengthLineRead(now);
    assert Gather(HEAD, 21, false, SAID.(now := now), ResponseRule) == Some(SAID.(now := now));
    assert Gather(HEAD, 2, false, Start(now), ResponseRule) == Some(SAID.(now := now));
  }

  /** This head announces five bytes, and alone in the initial read it makes the parser report
      that none are missing, so that they are neither relayed nor stored. */
  lemma HeadAlone(now: int)
    ensures Parse(HEAD, BUFFER, now).0 == Parsed(0, SAID.(now := now))
  {
    HeadLines();
    HeadIsClosed();
    HeadIsRead(now);
    ClosedResponse(HEAD, BUFFER, now);
  }

  /** An origin that sends a head, pauses until it is no longer waited for, and sends the body. */
  const BODY: Bytes := "Hello"

  function Pausing(): seq<Event> {
    [Data(HEAD)] + (Silence(PATIENCE) + [Data(BODY)])
  }

  lemma {:induction false} SilenceEndsStart(t: string, n: nat, later: seq<Event>)
    ensures Begin(t, Silence(n) + later, BUFSIZE, ENOUGH, n) == Beginning(t, if |t| >= ENOUGH then Silence(n) + later
                                                                          else later, true)
    ensures Stream(Silence(n) + later) == Stream(later)
  {
    if n > 0 {
      assert (Silence(n) + later)[1..] == Silence(n - 1) + later;
      SilenceEndsStart(t, n - 1, later);
    } else {
      assert Silence(n) + later == later;
    }
  }

  lemma PauseStarts(n: nat, head: Bytes, body: Bytes)
    requires n > 0 && |head| <= BUFSIZE < ENOUGH
    ensures var events := [Data(head)] + (Silence(n) + [Data(body)]);
            && Begin("", events, BUFSIZE, ENOUGH, n) == Beginning(head, [Data(body)], true)
            && Stream(events) == head + body
  {
    var later := Silence(n) + [Data(body)];
    var events := [Data(head)] + later;
    assert events[1..] == later && "" + head == head && Taken(head, BUFSIZE) == head;
    SilenceEndsStart(head, n, [Data(body)]);
    assert [Data(body)][1..] == [] && Stream([Data(body)]) == body + "";
  }

  lemma PausingStarts()
    ensures StartOf(Pausing(), PATIENCE) == Beginning(HEAD, [Data(BODY)], true)
    ensures Stream(Pausing()) == HEAD + BODY
  {
    HeadLines();
    PauseStarts(PATIENCE, HEAD, BODY);
  }

  /** Then the client is sent the bare head, though all five bytes announced do come. */
  lemma HeadSentAlone(o: Outcome, x: Trace, now: int, tail: string, before: string, sent: string)
    requires Answered(o, x, now, tail, before, sent, false, Pausing())
    ensures Stream(Pausing()) == HEAD + BODY && x.reply.length == |BODY| && sent == before + HEAD && o == Dropped
  {
    PausingStarts();
    HeadAlone(now);
    HeadLines();
    HeadIsClosed();
    assert before + HEAD + "" + "" == before + HEAD;
  }
}
