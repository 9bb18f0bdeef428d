/** When `parseResponse` leaves the bytes of a response as they were, and which header lines
    decide what it reports. */
module ResponseTheorems {
  import opened CStrings
  import opened LineLoop
  import opened CacheControl
  import opened ResponseParser

  // ----- The response format the parser relies on -----

  predicate Ends(t: string, p: nat, e: nat, first: bool) {
    p <= e && Terminator(t, p, e)
  }

  /** A header line needs a colon, and a Content-Length value must end in '\r'. */
  ghost predicate GoodLine(t: string, p: nat, e: nat, first: bool) {
    first
    || (p <= e <= |t|
        && var c := Within(t, p, e, ':');
           c < e && (HeaderOf(t[p..c]) == ContentLength ==> c + 1 < e && t[e - 1] == '\r'))
  }

  /** Where the first line that is just '\r' ends, if all lines before it are good. */
  ghost function HeadersOf(t: string): (r: Option<nat>)
    ensures r.Some? ==> r.value <= |t|
  {
    SectionEnd(t, 0, true, Ends, GoodLine)
  }

  // ----- The text -----

  lemma HeaderLineFollows(t: string, p: nat, e: nat, r: Reply)
    requires p <= e < |t| && (t[e] == '\n' || t[e] == NUL)
    ensures var c := Within(t, p, e, ':');
            var step := HeaderLine(t, p, c, e, r);
            step.Next? ==>
              && |t| <= |step.t| && step.t[..p] == t[..p]
              && if GoodLine(t, p, e, false) then step.t == t else step.t[..e + 1] != t[..e + 1]
  {
    var c := Within(t, p, e, ':');
    var step := HeaderLine(t, p, c, e, r);
    if step.Next? && !GoodLine(t, p, e, false) {
      var i := if c + 1 < e then e - 1 else e;
      assert step.t[..e + 1][i] != t[..e + 1][i];
    }
  }

  lemma RuleFollows(t: string, p: nat, e: nat, first: bool, r: Reply)
    requires p <= e <= |t| && e == Find(t, p, '\n')
    ensures Follows(ResponseRule(t, p, e, first, r), t, p, e, Ends(t, p, e, first), GoodLine(t, p, e, first))
  {
    if !Terminator(t, p, e) && !first && e < |t| {
      HeaderLineFollows(t, p, e, r);
    }
  }

  lemma RuleIsLawful()
    ensures Lawful(ResponseRule, Ends, GoodLine) && Whole(ResponseRule)
  {
    forall t, p: nat, e: nat, first, r: Reply | p <= e <= |t| && e == Find(t, p, '\n')
      ensures Follows(ResponseRule(t, p, e, first, r), t, p, e, Ends(t, p, e, first), GoodLine(t, p, e, first))
    {
      RuleFollows(t, p, e, first, r);
    }
  }

  /** The bytes of the response are kept, with one or two newlines behind them, exactly when
      its header section is closed by a '\r' line and its header lines are good. */
  lemma RoundTripExactly(t: string, room: nat, now: int)
    requires NulFree(t) && |t| < room && Parse(t, room, now).0.Parsed?
    ensures var u := Parse(t, room, now).1; |t| <= |u| && (u[..|t|] == t <==> HeadersOf(t).Some?)
  {
    var l := Loop(t, At(0), true, Start(now), room, ResponseRule);
    RuleIsLawful();
    LoopText(t, 0, true, Start(now), room, ResponseRule, Ends, GoodLine, l);
    PrefixKept(t, At(0), true, Start(now), room, ResponseRule, Ends, GoodLine, l);
    var u := Parse(t, room, now).1;
    assert u[..|t|] == l.t[..|t|];
  }

  /** What the parser does with a response whose header section is closed and good. */
  lemma ClosedResponse(t: string, room: nat, now: int)
    requires NulFree(t) && 4 < |t| < room && HeadersOf(t).Some?
    ensures Parse(t, room, now) ==
            match Gather(t, 0, true, Start(now), ResponseRule)
            case None => (Response.Fault, t)
            case Some(r) => Ended(t, room, After(t, HeadersOf(t).value), r)
  {
    RuleIsLawful();
    LoopGathers(t, 0, true, Start(now), room, ResponseRule, Ends, GoodLine,
                Loop(t, At(0), true, Start(now), room, ResponseRule), HeadersOf(t).value);
  }

  // ----- The fields -----

  ghost function NameEnd(t: string, p: nat): (c: nat)
    requires p <= |t|
    ensures p <= c <= Find(t, p, '\n')
  {
    Within(t, p, Find(t, p, '\n'), ':')
  }

  ghost function KindAt(t: string, p: nat): Header {
    if p > |t| then Unknown else HeaderOf(t[p..NameEnd(t, p)])
  }

  /** The value of the header line at `p`. */
  ghost function ValueAt(t: string, p: nat): string {
    if p > |t| || NameEnd(t, p) == Find(t, p, '\n') then "" else t[NameEnd(t, p) + 1..Find(t, p, '\n')]
  }

  ghost function IsOneOf(t: string, kinds: set<Header>): nat -> bool {
    (p: nat) => KindAt(t, p) in kinds
  }

  /** `x` is the `val` of the last header line of one of the `kinds`, or `default` without one. */
  ghost predicate FieldFrom<T>(t: string, end: nat, kinds: set<Header>, x: T, default: T, val: nat -> T) {
    && (forall p: nat | LastOf(t, end, IsOneOf(t, kinds), p) :: x == val(p))
    && (NoneFrom(t, 1, end, IsOneOf(t, kinds)) ==> x == default)
  }

  ghost function VerdictAt(t: string, now: int): nat -> Option<Verdict> {
    (p: nat) => Some(Decide(ValueAt(t, p), 0, NO_INFO, now, |ValueAt(t, p)| + 1, Classify, Comma))
  }

  ghost function LengthAt(t: string): nat -> int {
    (p: nat) => Atoi(Inner(ValueAt(t, p)))
  }

  ghost function ChunkedAt(t: string): nat -> Option<bool> {
    (p: nat) => Some(KindAt(t, p) == TransferEncoding)
  }

  ghost function ETagAt(t: string): nat -> Option<string> {
    (p: nat) => if KindAt(t, p) == ETagHeader then Some(Inner(ValueAt(t, p))) else None
  }

  /** The storage verdict comes from the last Cache-Control line, the length from the last
      Content-Length line, the transfer mode from the last line of either kind that sets it, and
      the entity tag from the last ETag line unless a Cache-Control line comes later. */
  ghost predicate ReadFrom(t: string, end: nat, now: int, r: Reply) {
    && FieldFrom(t, end, {CacheControlHeader}, r.control, None, VerdictAt(t, now))
    && FieldFrom(t, end, {ContentLength}, r.length, 0, LengthAt(t))
    && FieldFrom(t, end, {ContentLength, TransferEncoding}, r.chunked, None, ChunkedAt(t))
    && FieldFrom(t, end, {CacheControlHeader, ETagHeader}, r.eTag, None, ETagAt(t))
  }

  lemma GoodHeader(t: string, p: nat, c: nat, e: nat, r: Reply)
    requires p <= c < e < |t| && (HeaderOf(t[p..c]) == ContentLength ==> c + 1 < e)
    ensures var step := HeaderLine(t, p, c, e, r);
            step.Next? ==> Some(step.fields) == ReadValue(HeaderOf(t[p..c]), t[c + 1..e], r)
  {
  }

  lemma GoodStep(t: string, p: nat, end: nat, r: Reply)
    requires LineOf(t, p, end) && end <= |t| && GoodLine(t, p, Find(t, p, '\n'), false)
    ensures var step := ResponseRule(t, p, Find(t, p, '\n'), false, r);
            step.Next? ==> Some(step.fields) == ReadValue(KindAt(t, p), ValueAt(t, p), r)
  {
    GoodHeader(t, p, NameEnd(t, p), Find(t, p, '\n'), r);
  }

  ghost function ReadAt(now: int): Reply -> bool {
    (r: Reply) => r.now == now
  }

  lemma Field<T(!new)>(t: string, end: nat, now: int, r: Reply, kinds: set<Header>, proj: Reply -> T, val: nat -> T)
    requires NulFree(t) && HeadersOf(t) == Some(end) && Gather(t, 0, true, Start(now), ResponseRule) == Some(r)
    requires Decides(t, end, ResponseRule, GoodLine, ReadAt(now), IsOneOf(t, kinds), proj, val)
    ensures FieldFrom(t, end, kinds, proj(r), proj(Start(now)), val)
  {
    RuleIsLawful();
    var e := Find(t, 0, '\n');
    if Ends(t, 0, e, true) {
      assert forall p: nat :: !LineOf(t, p, end);
    } else {
      LastDecides(t, e + 1, end, Start(now), r, ResponseRule, Ends, GoodLine, ReadAt(now),
                  IsOneOf(t, kinds), proj, val);
    }
  }

  /** One good line touches exactly the fields of its kind. */
  ghost predicate Touched(h: Header, value: string, r: Reply, g: Reply) {
    && g.now == r.now
    && g.control == (if h == CacheControlHeader
                     then Some(Decide(value, 0, NO_INFO, r.now, |value| + 1, Classify, Comma)) else r.control)
    && g.length == (if h == ContentLength then Atoi(Inner(value)) else r.length)
    && g.chunked == (if h == ContentLength then Some(false) else if h == TransferEncoding then Some(true)
                     else r.chunked)
    && g.eTag == (if h == CacheControlHeader then None else if h == ETagHeader then Some(Inner(value)) else r.eTag)
  }

  lemma GoodLineTouches(t: string, p: nat, end: nat, r: Reply)
    requires LineOf(t, p, end) && end <= |t| && GoodLine(t, p, Find(t, p, '\n'), false)
    ensures var step := ResponseRule(t, p, Find(t, p, '\n'), false, r);
            step.Next? ==> Touched(KindAt(t, p), ValueAt(t, p), r, step.fields)
  {
    GoodStep(t, p, end, r);
  }

  /** Every good line of the section touches exactly the fields of its kind. */
  ghost predicate LinesTouch(t: string, end: nat, rule: Rule<Reply>) {
    forall p: nat, f | LineOf(t, p, end) && GoodLine(t, p, Find(t, p, '\n'), false) ::
      var step := rule(t, p, Find(t, p, '\n'), false, f);
      step.Next? ==> Touched(KindAt(t, p), ValueAt(t, p), f, step.fields)
  }

  lemma RuleTouches(t: string, end: nat)
    requires end <= |t|
    ensures LinesTouch(t, end, ResponseRule)
  {
    forall p: nat, f | LineOf(t, p, end) && GoodLine(t, p, Find(t, p, '\n'), false)
      ensures var step := ResponseRule(t, p, Find(t, p, '\n'), false, f);
              step.Next? ==> Touched(KindAt(t, p), ValueAt(t, p), f, step.fields)
    {
      GoodLineTouches(t, p, end, f);
    }
  }

  lemma ControlDecided(t: string, end: nat, now: int, rule: Rule<Reply>)
    requires LinesTouch(t, end, rule)
    ensures Decides(t, end, rule, GoodLine, ReadAt(now), IsOneOf(t, {CacheControlHeader}), (g: Reply) => g.control,
                    VerdictAt(t, now))
  {
  }

  lemma LengthDecided(t: string, end: nat, now: int, rule: Rule<Reply>)
    requires LinesTouch(t, end, rule)
    ensures Decides(t, end, rule, GoodLine, ReadAt(now), IsOneOf(t, {ContentLength}),
                    (g: Reply) => g.length, LengthAt(t))
  {
  }

  lemma ChunkedDecided(t: string, end: nat, now: int, rule: Rule<Reply>)
    requires LinesTouch(t, end, rule)
    ensures Decides(t, end, rule, GoodLine, ReadAt(now), IsOneOf(t, {ContentLength, TransferEncoding}),
                    (g: Reply) => g.chunked, ChunkedAt(t))
  {
  }

  lemma ETagDecided(t: string, end: nat, now: int, rule: Rule<Reply>)
    requires LinesTouch(t, end, rule)
    ensures Decides(t, end, rule, GoodLine, ReadAt(now), IsOneOf(t, {CacheControlHeader, ETagHeader}),
                    (g: Reply) => g.eTag, ETagAt(t))
  {
  }

  /** Every field of the report comes from the last line that has a say in it. */
  lemma ReportedFields(t: string, end: nat, now: int, r: Reply)
    requires NulFree(t) && HeadersOf(t) == Some(end) && Gather(t, 0, true, Start(now), ResponseRule) == Some(r)
    ensures ReadFrom(t, end, now, r)
  {
    RuleTouches(t, end);
    ControlDecided(t, end, now, ResponseRule);
    LengthDecided(t, end, now, ResponseRule);
    ChunkedDecided(t, end, now, ResponseRule);
    ETagDecided(t, end, now, ResponseRule);
    Field(t, end, now, r, {CacheControlHeader}, (g: Reply) => g.control, VerdictAt(t, now));
    Field(t, end, now, r, {ContentLength}, (g: Reply) => g.length, LengthAt(t));
    Field(t, end, now, r, {ContentLength, TransferEncoding}, (g: Reply) => g.chunked, ChunkedAt(t));
    Field(t, end, now, r, {CacheControlHeader, ETagHeader}, (g: Reply) => g.eTag, ETagAt(t));
  }

  const BUFFER := 8193    // RESPONSE_HEADER_SIZE + 1

  /** How much of a body of `length` bytes the parser finds missing when `body` of them have come:
      nothing if none have, and else the difference as an int, if that is positive. A negative
      length close to the least int makes it wrap around. */
  function LeftOf(length: int, body: nat): int {
    var d := length - body;
    if body == 0 then 0
    else if d < -0x8000_0000 then d + 0x1_0000_0000
    else if d < 0 then 0
    else d
  }

  lemma LengthIsInt(t: string, now: int, r: Reply)
    requires Gather(t, 0, true, Start(now), ResponseRule) == Some(r)
    ensures -0x8000_0000 <= r.length < 0x8000_0000
  {
    forall q: nat, e: nat, b, h: Reply | -0x8000_0000 <= h.length < 0x8000_0000
      ensures var step := ResponseRule(t, q, e, b, h);
              step.Next? ==> -0x8000_0000 <= step.fields.length < 0x8000_0000
    {
    }
    GatherKeeps(t, 0, true, Start(now), r, ResponseRule, (h: Reply) => -0x8000_0000 <= h.length < 0x8000_0000);
  }

  /** How much of the body is there, with the header section closed at `hole`. */
  function BodyLength(t: string, hole: nat): nat {
    if hole < |t| then |t| - hole - 1 else 0
  }

  lemma EndedFits(t: string, hole: nat, r: Reply)
    requires 4 < |t| <= 8191 && hole <= |t| && -0x8000_0000 <= r.length < 0x8000_0000
    ensures StartKept(Ended(t, BUFFER, After(t, hole), r), t, hole, r)
  {
    if hole == |t| {
      assert (t + "\n" + "\n")[..|t|] == t;
    }
  }

  /** The response is kept with one or two newlines behind it, unless it fills the buffer and
      ends in the '\r' of its terminator. */
  predicate StartKept(result: (Response, string), t: string, hole: nat, r: Reply) {
    var (response, u) := result;
    if hole == |t| == 8191 then response.Fault?
    else
      && response.Parsed? && response.left == LeftOf(r.length, BodyLength(t, hole)) && response.reply == r
      && |t| < |u| <= BUFFER && u[..|t|] == t
  }

  /** The initial read of `forwardRequest` overruns the buffer in one case alone, and else what is
      relayed and cached of it is the response as it came. */
  lemma InitialReadKept(t: string, now: int, r: Reply)
    requires NulFree(t) && 4 < |t| <= 8191 && HeadersOf(t).Some?
    requires Gather(t, 0, true, Start(now), ResponseRule) == Some(r)
    ensures StartKept(Parse(t, BUFFER, now), t, HeadersOf(t).value, r)
  {
    LengthIsInt(t, now, r);
    ClosedResponse(t, BUFFER, now);
    EndedFits(t, HeadersOf(t).value, r);
  }
}
