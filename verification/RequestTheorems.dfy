/** When `parseRequest` gives the request back as it was, and what it reads from it. */
module RequestTheorems {
  import opened CStrings
  import opened LineLoop
  import opened RequestParser

  // ----- The request format the parser relies on -----

  predicate EndsHeaders(t: string, p: nat, e: nat, first: bool) {
    !first && p < e <= |t| && t[p] == '\r'
  }

  ghost predicate HasColon(t: string, p: nat, e: nat, first: bool) {
    first || (p <= e <= |t| && Within(t, p, e, ':') < e)
  }

  /** Where the first line that starts with '\r' ends, if every header line before it has a
      colon and every line before it a newline. */
  ghost function HeadersOf(t: string): (r: Option<nat>)
    ensures r.Some? ==> r.value <= |t|
  {
    SectionEnd(t, 0, true, EndsHeaders, HasColon)
  }

  /** The body must be empty, or its first line must be non-empty and end in a newline. */
  predicate BodyKept(t: string, j: nat)
    requires j <= |t|
  {
    j == |t| || (t[j] != '\n' && '\n' in t[j..])
  }

  ghost predicate Restorable(t: string) {
    var h := HeadersOf(t);
    h.Some? && h.value < |t| && BodyKept(t, h.value + 1)
  }

  // ----- The text -----

  lemma RuleIsLawful()
    ensures Lawful(RequestRule, EndsHeaders, HasColon)
  {
    forall t, p: nat, e: nat, first, f: Fields | p <= e <= |t| && e == Find(t, p, '\n')
      ensures Follows(RequestRule(t, p, e, first, f), t, p, e, EndsHeaders(t, p, e, first), HasColon(t, p, e, first))
    {
    }
  }

  lemma BodyRestores(t: string, j: nat)
    requires NulFree(t) && j <= |t|
    ensures Finish(t, At(j)) == if BodyKept(t, j) then t else if t[j] == '\n' then t[..j] else t + "\n"
  {
    var k := Find(t, j, '\n');
    if k < |t| {
      assert t[j..][k - j] == '\n';
    }
  }

  lemma SpoiledForGoodToo(t: string, v: string, rest: Ptr)
    requires (rest.At? ==> rest.i <= |v|) && Spoiled(t, v, rest)
    ensures Finish(v, rest) != t
  {
    if rest.At? {
      assert Finish(v, rest)[..rest.i] == v[..rest.i];
    }
  }

  /** parseRequest leaves the request as it was exactly when it is restorable: its headers are
      closed by a '\r' line and its body is empty or starts with a non-empty whole line. */
  lemma RoundTripExactly(t: string, room: nat)
    requires NulFree(t) && |t| < room && Parse(t, room).0.Parsed?
    ensures Parse(t, room).1 == t <==> Restorable(t)
  {
    var l := Loop(t, At(0), true, NO_FIELDS, room, RequestRule);
    RuleIsLawful();
    LoopText(t, 0, true, NO_FIELDS, room, RequestRule, EndsHeaders, HasColon, l);
    match HeadersOf(t)
    case Some(e) => if e < |t| { BodyRestores(t, e + 1); }
    case None => SpoiledForGoodToo(t, l.t, l.rest);
  }

  // ----- The fields -----

  /** The parser's loop when it looks at nothing but Host lines. */
  ghost function HostRule(t: string, p: nat, e: nat, first: bool, h: Option<string>): Step<Option<string>> {
    if !(p <= e <= |t|) then Failed
    else if EndsHeaders(t, p, e, first) then Stop
    else
      var g := HostAfter(t, p, e, h);
      if g == None then Failed else Next(t, g.value)
  }

  /** The host named by the last Host line of a header section from `p` on (`h` if there is
      none). `None` if some Host line has nothing to read as a host. */
  ghost function HostFrom(t: string, p: nat, h: Option<string>): Option<Option<string>>
    requires p <= |t|
  {
    Gather(t, p, false, h, HostRule)
  }

  lemma GathersHost(t: string, p: nat, f: Fields)
    requires p <= |t|
    ensures Gather(t, p, false, f, RequestRule) ==
            match HostFrom(t, p, f.host) case None => None case Some(h) => Some(f.(host := h))
  {
    var embed := (h: Option<string>) => f.(host := h);
    assert Simulates(RequestRule, HostRule, embed);
    GathersSame(t, p, f.host, RequestRule, HostRule, embed);
    assert embed(f.host) == f;
  }

  lemma {:induction false} WordsLeaveHost(line: string, p: nat, f: Fields)
    requires p <= |line|
    ensures Words(line, p, f, Word).host == f.host
    decreases |line| - p
  {
    var q := Find(line, p, ' ');
    if q < |line| { WordsLeaveHost(line, q + 1, Word(line[p..q], f)); }
  }

  /** The text that is left of a request whose header section ends at `e`. */
  function ClosedText(t: string, e: nat): string
    requires e <= |t|
  {
    if e == |t| then t + "\n"
    else if BodyKept(t, e + 1) then t
    else if t[e + 1] == '\n' then t[..e + 1]
    else t + "\n"
  }

  /** The methods that the parser knows, in any case, and the request types they stand for. */
  predicate IsMethod(w: string) {
    SameIgnoringCase(w, "GET") || SameIgnoringCase(w, "CONNECT") || SameIgnoringCase(w, "POST")
  }

  function TypeOf(w: string): nat {
    if SameIgnoringCase(w, "CONNECT") then 1 else if SameIgnoringCase(w, "POST") then 2 else 0
  }

  predicate Keyword(word: string) {
    IsMethod(word) || SameIgnoringCase(word, "HTTP/1.0\r") || SameIgnoringCase(word, "HTTP/1.1\r")
  }

  /** The fold of `word` over a list. */
  function Fold<F>(words: seq<string>, f: F, word: (string, F) -> F): F {
    if words == [] then f else Fold(words[1..], word(words[0], f), word)
  }

  lemma {:induction false} WordsFold<F>(line: string, p: nat, f: F, word: (string, F) -> F)
    requires NulFree(line) && p <= |line|
    ensures Words(line, p, f, word) == Fold(Split(line, p, ' '), f, word)
    decreases |line| - p
  {
    var q := Find(line, p, ' ');
    assert Within(line, p, |line|, ' ') == q;
    if q < |line| {
      WordsFold(line, q + 1, word(line[p..q], f), word);
      assert ([line[p..q]] + Split(line, q + 1, ' '))[1..] == Split(line, q + 1, ' ');
    } else {
      assert line[p..q] == line[p..];
      assert Fold([line[p..]], f, word) == word(line[p..], f);
    }
  }

  predicate IsUri(w: string) { !Keyword(w) }
  predicate IsConnect(w: string) { SameIgnoringCase(w, "CONNECT") }

  lemma {:induction false} FoldAppend<F>(words: seq<string>, w: string, f: F, word: (string, F) -> F)
    ensures Fold(words + [w], f, word) == word(w, Fold(words, f, word))
    decreases |words|
  {
    if words == [] {
      assert [w][1..] == [];
    } else {
      assert (words + [w])[1..] == words[1..] + [w];
      FoldAppend(words[1..], w, word(words[0], f), word);
    }
  }

  /** What the words of a request line say, if these tests tell them apart: the URI is the last that
      is one, and the type comes from the last method. */
  ghost predicate ReadBy(words: seq<string>, f: Fields, g: Fields, uri: string -> bool, verb: string -> bool,
                         connect: string -> bool, kind: string -> nat) {
    && (var k := LastIndex(words, uri); g.uri == if k == 0 then f.uri else Some(words[k - 1]))
    && (var k := LastIndex(words, verb); g.reqType == if k == 0 then f.reqType else kind(words[k - 1]))
    && (g.isHttps <==> f.isHttps || exists i | 0 <= i < |words| :: connect(words[i]))
  }

  /** The same by the texts of the words. */
  ghost predicate UriRead(words: seq<string>, f: Fields, g: Fields) {
    ReadBy(words, f, g, IsUri, IsMethod, IsConnect, TypeOf)
  }

  lemma {:induction false} FoldReadsUri(words: seq<string>, f: Fields)
    ensures UriRead(words, f, Fold(words, f, Word))
    decreases |words|
  {
    if words != [] {
      var n := |words| - 1;
      var front, w := words[..n], words[n];
      assert words == front + [w];
      FoldAppend(front, w, f, Word);
      FoldReadsUri(front, f);
      OneMore(front, w, f, Fold(front, f, Word));
    }
  }

  /** What one word does, by its text. */
  lemma WordRead(w: string, f: Fields)
    ensures Word(w, f).uri == if IsUri(w) then Some(w) else f.uri
    ensures Word(w, f).reqType == if IsMethod(w) then TypeOf(w) else f.reqType
    ensures Word(w, f).isHttps <==> f.isHttps || IsConnect(w)
  {
    var a, b, c, d, e := "GET", "CONNECT", "POST", "HTTP/1.0\r", "HTTP/1.1\r";
    assert |a| == 3 && |b| == 7 && |c| == 4 && |d| == 9 && |e| == 9;
  }

  lemma OneMore(front: seq<string>, w: string, f: Fields, g: Fields)
    requires UriRead(front, f, g)
    ensures UriRead(front + [w], f, Word(w, g))
  {
    WordRead(w, g);
    OneMoreWord(front, w, f, g, Word(w, g), IsUri, IsMethod, IsConnect, TypeOf);
  }

  lemma OneMoreWord(front: seq<string>, w: string, f: Fields, g: Fields, h: Fields, uri: string -> bool,
                    verb: string -> bool, connect: string -> bool, kind: string -> nat)
    requires ReadBy(front, f, g, uri, verb, connect, kind)
    requires h.uri == if uri(w) then Some(w) else g.uri
    requires h.reqType == if verb(w) then kind(w) else g.reqType
    requires h.isHttps <==> g.isHttps || connect(w)
    ensures ReadBy(front + [w], f, h, uri, verb, connect, kind)
  {
    LastIndexAppend(front, w, uri);
    LastIndexAppend(front, w, verb);
    AnyAppend(front, w, connect);
  }

  lemma AnyAppend(front: seq<string>, w: string, p: string -> bool)
    ensures var words := front + [w];
            (exists i | 0 <= i < |words| :: p(words[i])) <==> (exists i | 0 <= i < |front| :: p(front[i])) || p(w)
  {
    var words := front + [w];
    assert words[|front|] == w && forall i | 0 <= i < |front| :: words[i] == front[i];
  }

  /** The request line is split at its spaces: the URI is the last word that is no keyword, the
      request type that of the last word that is a method, GET without one, and the connection is
      secure exactly when some word is CONNECT. */
  lemma RequestLineRead(line: string)
    requires NulFree(line)
    ensures UriRead(Split(line, 0, ' '), NO_FIELDS, Words(line, 0, NO_FIELDS, Word))
  {
    WordsFold(line, 0, NO_FIELDS, Word);
    FoldReadsUri(Split(line, 0, ' '), NO_FIELDS);
  }

  /** What the parser reads from the first line: its words, and the line itself. */
  ghost function FirstFields(t: string): Fields {
    var e := Find(t, 0, '\n');
    Words(t[..e], 0, NO_FIELDS, Word).(reqLine := t[..e])
  }

  /** What it reads from a closed request: the first line and the host. */
  ghost function ReadRequest(t: string): Option<Fields> {
    var e := Find(t, 0, '\n');
    var host := if e < |t| then HostFrom(t, e + 1, None) else None;
    if host == None then None else Some(FirstFields(t).(host := host.value))
  }

  lemma GathersRequest(t: string)
    requires HeadersOf(t).Some?
    ensures Gather(t, 0, true, NO_FIELDS, RequestRule) == ReadRequest(t)
  {
    GathersFirst(t);
    FirstHasNoHost(t);
    GathersHost(t, Find(t, 0, '\n') + 1, FirstFields(t));
  }

  lemma FirstHasNoHost(t: string)
    ensures FirstFields(t).host == None
  {
    WordsLeaveHost(t[..Find(t, 0, '\n')], 0, NO_FIELDS);
  }

  /** The request line is read first. */
  lemma GathersFirst(t: string)
    requires HeadersOf(t).Some?
    ensures var e := Find(t, 0, '\n');
            && e < |t| && SectionEnd(t, e + 1, false, EndsHeaders, HasColon) == HeadersOf(t)
            && Gather(t, 0, true, NO_FIELDS, RequestRule) == Gather(t, e + 1, false, FirstFields(t), RequestRule)
  {
    FirstRuleReads(t);
    FirstLinePassed(t, NO_FIELDS, FirstFields(t), Restored(t, Find(t, 0, '\n'), false), RequestRule, EndsHeaders,
                    HasColon);
  }

  lemma FirstRuleReads(t: string)
    ensures var e := Find(t, 0, '\n');
            RequestRule(t, 0, e, true, NO_FIELDS) == Next(Restored(t, e, false), FirstFields(t))
  {
    assert t[0..Find(t, 0, '\n')] == t[..Find(t, 0, '\n')];
  }

  ghost predicate ParsesTo(t: string, room: nat, f: Option<Fields>, u: string)
    requires |t| < room
  {
    Parse(t, room) == if f == None || |u| >= room then (Fault, t) else (Parsed(f.value), u)
  }

  lemma ClosedParse(t: string, room: nat, f: Option<Fields>)
    requires NulFree(t) && 4 < |t| < room && HeadersOf(t).Some?
    requires f == Gather(t, 0, true, NO_FIELDS, RequestRule)
    ensures ParsesTo(t, room, f, ClosedText(t, HeadersOf(t).value))
  {
    var end := HeadersOf(t).value;
    RuleIsLawful();
    LoopGathers(t, 0, true, NO_FIELDS, room, RequestRule, EndsHeaders, HasColon,
                Loop(t, At(0), true, NO_FIELDS, room, RequestRule), end);
    ClosedFinish(t, end);
  }

  lemma ClosedFinish(t: string, end: nat)
    requires NulFree(t) && end <= |t|
    ensures Finish(t, After(t, end)) == ClosedText(t, end)
  {
    if end < |t| { BodyRestores(t, end + 1); }
  }

  /** Everything parseRequest does with a request whose header section is closed: the fields
      come from the request line and the last Host line, and the text is kept, extended by a
      newline, or cut off, as its body says. */
  lemma ClosedRequest(t: string, room: nat)
    requires NulFree(t) && 4 < |t| < room && HeadersOf(t).Some?
    ensures ParsesTo(t, room, ReadRequest(t), ClosedText(t, HeadersOf(t).value))
  {
    GathersRequest(t);
    ClosedParse(t, room, Gather(t, 0, true, NO_FIELDS, RequestRule));
  }

  /** In a buffer with room for one more newline a closed request that can be read never breaks
      the parser. */
  lemma ClosedIsParsed(t: string, room: nat)
    requires NulFree(t) && 4 < |t| && |t| + 1 < room && HeadersOf(t).Some?
    ensures Parse(t, room).0 == if ReadRequest(t) == None then Fault else Parsed(ReadRequest(t).value)
    ensures ReadRequest(t).Some? ==> Parse(t, room).1 == ClosedText(t, HeadersOf(t).value)
  {
    ClosedRequest(t, room);
  }

  /** Behind the text of such a request its buffer holds no other. */
  lemma ClosedResidue(t: string, room: nat, k: nat)
    requires NulFree(t) && 4 < |t| < k < room && HeadersOf(t).Some? && ReadRequest(t).Some?
    ensures |Residue(t, room)| == room && Residue(t, room)[k] == NUL
  {
    GathersRequest(t);
    RuleIsLawful();
    LoopGathers(t, 0, true, NO_FIELDS, room, RequestRule, EndsHeaders, HasColon,
                Loop(t, At(0), true, NO_FIELDS, room, RequestRule), HeadersOf(t).value);
  }
}
