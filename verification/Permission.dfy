/** Whether the stored texts come from responses that permit storing them (threadPool.c,
    `forwardRequest` and `getRevalidation`). */
module Permission {
  import opened CStrings
  import opened LineLoop
  import opened CacheControl
  import opened CacheControlTheorems
  import opened ResponseParser
  import opened ResponseTheorems
  import opened Streams
  import opened Receiving
  import opened Forwarding
  import opened Freshness
  import opened Exchange
  import opened Refresh
  import opened Service

  /** A response that starts with `t` permits storing, as `parseResponse` decides. */
  ghost predicate Permits(t: string, now: int) {
    && |t| < BUFFER
    && match Parse(t, BUFFER, now).0
       case Parsed(_, r) => MayStore(r)
       case _ => false
  }

  /** That is so exactly if its last Cache-Control line allows it. */
  lemma PermitsByLastLine(t: string, now: int, end: nat)
    requires NulFree(t) && 4 < |t| < BUFFER && HeadersOf(t) == Some(end) && Parse(t, BUFFER, now).0.Parsed?
    ensures forall p: nat | LastOf(t, end, IsOneOf(t, {CacheControlHeader}), p) ::
              Permits(t, now) <==> VerdictAt(t, now)(p).value.Allowed?
    ensures NoneFrom(t, 1, end, IsOneOf(t, {CacheControlHeader})) ==> !Permits(t, now)
  {
    ClosedResponse(t, BUFFER, now);
    ReportedFields(t, end, now, Gather(t, 0, true, Start(now), ResponseRule).value);
  }

  // ----- What one connection stores -----

  /** A change of the cache is either a fill with a response that permits storing or a refill with
      the answer to a revalidation, whatever that says. */
  ghost predicate ComesFrom(c: Change, now: int, events: seq<Event>) {
    match c
    case Fill(_, value, _, reply) =>
      var t := StartOf(events, PATIENCE).text;
      Permits(t, now) && Parse(t, BUFFER, now).0.reply == reply && (HeadersOf(t).Some? ==> t <= value)
    case Refill(_, value, _, answer) =>
      answer == StartOf(events, SILENCES).text && answer <= value && !StartsIgnoringCase(answer, NOT_MODIFIED)
  }

  lemma FillComesFrom(s: Served, e: Option<Change>, x: Trace, q: Request, connected: bool, now: int, w: World, v: World)
    requires Forwards(s, e, x, q, connected, now, w, v) && e.Some?
    ensures ComesFrom(e.value, now, w.events)
  {
    assert s.Fetched? && s.o.Kept? && KeptCopy(s.o, x, q.tail);
  }

  lemma RefillComesFrom(s: Served, e: Option<Change>, l: Log, ask: string, connected: bool, uri: string,
                        data: string, now: int, w: World, v: World)
    requires Asks(l.r, l.t, l.chunks, ask, connected, w, l.mid) && Settles(s, e, l.r, l.t, uri, data, l.mid, v)
    requires e.Some?
    ensures ComesFrom(e.value, now, w.events)
  {
    assert Renews(l.r, l.t, l.chunks) && l.t <= ETagScan.LeftBy(l.t);
  }

  lemma ChangeComesFrom(s: Served, e: Option<Change>, l: Log, m: Store, connected: bool, now: int,
                        input: seq<Event>, w: World, v: World)
    requires Concludes(s, e, l, m, connected, now, input, w, v) && e.Some?
    ensures ComesFrom(e.value, now, w.events)
  {
    assert !Breaks(input, GRACE) && Servable(Understood(input));
    var q := ToForward(input);
    match Look(m, q.uri, now)
    case Revalidate(data) =>
      if m[q.uri].info.eTag == None {
        FillComesFrom(s, e, l.x, q, connected, now, w, v);
      } else {
        RefillComesFrom(s, e, l, Revalidation.Template(q.uri, m[q.uri].info.eTag.value, m[q.uri].host), connected,
                        q.uri, data, now, w, v);
      }
    case _ => FillComesFrom(s, e, l.x, q, connected, now, w, v);
  }

  // ----- Over every run -----

  /** The response behind a change permits storing it. */
  ghost predicate Permitted(c: Change, now: int) {
    match c
    case Fill(_, _, _, reply) => MayStore(reply)
    case Refill(_, _, _, answer) => Permits(answer, now)
  }

  /** After every run the text of an entry comes from a response that permits storing exactly if
      the last write to it was a fill, or a refill with an answer that happens to permit it. */
  lemma TextPermittedExactly(changes: seq<Change>, uri: string, i: nat, now: int)
    requires End(changes).Some? && LastWrite(changes, i, uri)
    ensures uri in End(changes).value && End(changes).value[uri].value == changes[i].value
    ensures Permitted(changes[i], now) <==> changes[i].Fill? || Permits(changes[i].answer, now)
  {
    RunDescribed(changes, uri);
    EnabledAlong(changes, i);
  }

  // ----- A response that forbids storing, and is stored -----

  const REFUSAL := ['A', '\n'] + CACHE_CONTROL + [':', ' '] + NO_STORE + ['\r', '\n', '\r', '\n']

  lemma NamesAreText()
    ensures |CACHE_CONTROL| == 13 && forall i | 0 <= i < 13 :: CACHE_CONTROL[i] !in "\n\r:\0"
    ensures |NO_STORE| == 8 && forall i | 0 <= i < 8 :: NO_STORE[i] !in "\n\r,\0"
  {
  }

  lemma RefusalLines()
    ensures |REFUSAL| == 29 && NulFree(REFUSAL) && REFUSAL[0] == 'A' && REFUSAL[27] == '\r'
    ensures Find(REFUSAL, 0, '\n') == 1 && Find(REFUSAL, 2, '\n') == 26 && Find(REFUSAL, 27, '\n') == 28
    ensures Within(REFUSAL, 2, 26, ':') == 15 && REFUSAL[2..15] == CACHE_CONTROL
    ensures REFUSAL[16..26] == [' '] + NO_STORE + ['\r']
    ensures forall i | 0 <= i < 29 && REFUSAL[i] == '\r' :: i >= 25
  {
    NamesAreText();
    var t := REFUSAL;
    assert forall i | 2 <= i < 15 :: t[i] == CACHE_CONTROL[i - 2];
    assert forall i | 17 <= i < 25 :: t[i] == NO_STORE[i - 17];
    assert t[0] == 'A' && t[1] == '\n' && t[15] == ':' && t[16] == ' ' && t[25] == '\r' && t[26] == '\n';
    assert t[27] == '\r' && t[28] == '\n';
  }

  lemma RefusalForbids(now: int)
    ensures Decide([' '] + NO_STORE + ['\r'], 0, NO_INFO, now, 11, Classify, Comma) == Forbidden
  {
    NamesAreText();
    var s := [' '] + NO_STORE + ['\r'];
    assert s == Listed([NO_STORE], ['\r']) && IsDirective(NO_STORE);
    var v := Decide(s, 0, NO_INFO, now, |s| + 1, Classify, Comma);
    ListedDecision([NO_STORE], s, now, Classify, ['\r'], v);
    assert Decision([], NO_INFO, now, Classify) == Allowed(NO_INFO);
    assert Classify(NO_STORE) == Forbids;
  }

  lemma NameIsKnown()
    ensures HeaderOf(CACHE_CONTROL) == CacheControlHeader
  {
  }

  function Refused(now: int): Reply { Reply(now, 0, None, Some(Forbidden), None) }

  lemma RefusalRead(now: int)
    ensures ResponseRule(REFUSAL, 2, 26, false, Start(now)) == Next(REFUSAL, Refused(now))
    ensures GoodLine(REFUSAL, 2, 26, false)
  {
    RefusalLines();
    RefusalForbids(now);
    NameIsKnown();
    assert |REFUSAL[16..26]| == 10;
  }

  lemma RefusalIsClosed()
    ensures HeadersOf(REFUSAL) == Some(28)
  {
    RefusalLines();
    RefusalRead(0);
    SectionPass(REFUSAL, 2, 26, false, Ends, GoodLine);
    SectionPass(REFUSAL, 0, 1, true, Ends, GoodLine);
  }

  lemma RefusalRefused(now: int)
    ensures !Permits(REFUSAL, now)
  {
    RefusalLines();
    RefusalIsClosed();
    RefusalRead(now);
    assert Gather(REFUSAL, 27, false, Refused(now), ResponseRule) == Some(Refused(now));
    assert Gather(REFUSAL, 2, false, Start(now), ResponseRule) == Some(Refused(now));
    ClosedResponse(REFUSAL, BUFFER, now);
  }

  lemma RefusalHasNoTag()
    ensures ETagScan.LeftBy(REFUSAL) == REFUSAL && ETagScan.Scanned(REFUSAL) == None
  {
    RefusalLines();
    var n := ETagScan.NEEDLE;
    assert |n| == 8 && n[0] == '\r' && n[1] == '\n' && n[2] == 'e';
    forall i: nat ensures !ETagScan.MatchAt(REFUSAL, i) {
    }
  }

  /** An origin that answers a revalidation with this: the client is sent it, and although it
      forbids storing, the entry gets it. */
  lemma RefusalIsStored(r: Refreshed, t: string, chunks: seq<string>, m: Store, uri: string, w: World, v: World,
                        now: int)
    requires uri in m && m[uri].info.eTag.Some? && w.events == [Data(REFUSAL)]
    requires |Revalidation.Template(uri, m[uri].info.eTag.value, m[uri].host)| < RESPONSE_HEADER_SIZE
    requires Refresh.Revalidates(r, t, chunks, m, uri, true, w, v) && Smooth(w, v)
    ensures v.sent == w.sent + REFUSAL && Renewal(m, uri, r)[uri].value == REFUSAL && !Permits(REFUSAL, now)
  {
    RefusalLines();
    RefusalRefused(now);
    RefusalHasNoTag();
    OnePiece(REFUSAL, SILENCES);
    assert Reads([], BUFSIZE, SILENCES) == [];
    assert !StartsIgnoringCase(REFUSAL, NOT_MODIFIED);
    assert r == Renewed(REFUSAL + "", None) && w.sent + REFUSAL + "" == w.sent + REFUSAL;
  }

  lemma OnePiece(b: Bytes, patience: nat)
    requires |b| <= BUFSIZE < ENOUGH && patience > 0
    ensures StartOf([Data(b)], patience) == Beginning(b, [], true)
  {
    var events: seq<Event> := [Data(b)];
    assert events[1..] == [] && "" + Streams.Taken(b, BUFSIZE) == b && Untaken(b, BUFSIZE, []) == [];
    assert Begin(b, [], BUFSIZE, ENOUGH, patience) == Beginning(b, [], true);
  }
}
