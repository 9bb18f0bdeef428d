/** The conditional request that `getRevalidation` sends (threadPool.c), read back by the
    proxy's own request parser. */
module Revalidation {
  import opened CStrings
  import opened LineLoop
  import opened RequestParser
  import opened RequestTheorems

  function RequestLineOf(uri: string): string { "GET " + uri + " HTTP/1.1\r" }
  function ETagLineOf(etag: string): string { "If-None-Match: " + etag + "\r" }
  function HostLineOf(host: string): string { "Host: " + host + "\r" }

  /** sprintf of the revalidation template. */
  function Template(uri: string, etag: string, host: string): string {
    RequestLineOf(uri) + "\n" + ETagLineOf(etag) + "\n" + HostLineOf(host) + "\n" + "\r" + "\n"
  }

  predicate Without(s: string, c: char) {
    forall i | 0 <= i < |s| :: s[i] != c
  }

  // ----- Lines and words in a concatenation -----

  ghost predicate LineAt(t: string, p: nat, line: string) {
    NulFree(line) && Without(line, '\n') && p + |line| < |t| && t[p + |line|] == '\n'
    && forall i | p <= i < p + |line| :: t[i] == line[i - p]
  }

  lemma LineEnds(t: string, p: nat, line: string)
    requires LineAt(t, p, line)
    ensures Find(t, p, '\n') == p + |line| && t[p..p + |line|] == line
  {
    forall i | p <= i < p + |line| ensures t[i] != '\n' && t[i] != NUL {
      assert t[i] == line[i - p];
    }
    assert t[p + |line|] == '\n';
  }

  lemma FourLines(a: string, b: string, c: string, d: string, t: string)
    requires t == a + "\n" + b + "\n" + c + "\n" + d + "\n"
    requires NulFree(a) && NulFree(b) && NulFree(c) && NulFree(d)
    requires Without(a, '\n') && Without(b, '\n') && Without(c, '\n') && Without(d, '\n')
    ensures LineAt(t, 0, a) && LineAt(t, |a| + 1, b) && LineAt(t, |a| + |b| + 2, c)
    ensures LineAt(t, |a| + |b| + |c| + 3, d) && |t| == |a| + |b| + |c| + |d| + 4 && NulFree(t)
  {
  }

  /** The word [p..q) of a line, followed by a space or the line's end. */
  ghost predicate WordAt(line: string, p: nat, word: string) {
    && p + |word| <= |line| && NulFree(word) && Without(word, ' ')
    && (p + |word| < |line| ==> line[p + |word|] == ' ')
    && forall i | p <= i < p + |word| :: line[i] == word[i - p]
  }

  lemma WordStep<F>(line: string, p: nat, w: string, f: F, word: (string, F) -> F)
    requires WordAt(line, p, w)
    ensures var q := p + |w|;
            Words(line, p, f, word) == if q < |line| then Words(line, q + 1, word(w, f), word) else word(w, f)
  {
    var q := p + |w|;
    forall i | p <= i < q ensures line[i] != ' ' && line[i] != NUL {
      assert line[i] == w[i - p];
    }
    assert Find(line, p, ' ') == q;
    assert line[p..q] == w;
  }

  lemma WordsAt(a: string, b: string, c: string)
    requires NulFree(a) && NulFree(b) && NulFree(c) && Without(a, ' ') && Without(b, ' ') && Without(c, ' ')
    ensures var line := a + " " + b + " " + c;
            WordAt(line, 0, a) && WordAt(line, |a| + 1, b) && WordAt(line, |a| + |b| + 2, c)
              && |line| == |a| + |b| + |c| + 2
  {
  }

  lemma ThreeWords<F>(line: string, a: string, b: string, c: string, f: F, word: (string, F) -> F)
    requires WordAt(line, 0, a) && WordAt(line, |a| + 1, b) && WordAt(line, |a| + |b| + 2, c)
             && |line| == |a| + |b| + |c| + 2
    ensures Words(line, 0, f, word) == word(c, word(b, word(a, f)))
  {
    var g := word(a, f);
    var h := word(b, g);
    LastWords(line, |a| + 1, b, c, g, word);
    WordStep(line, 0, a, f, word);
  }

  lemma LastWords<F>(line: string, p: nat, b: string, c: string, g: F, word: (string, F) -> F)
    requires WordAt(line, p, b) && WordAt(line, p + |b| + 1, c) && |line| == p + |b| + |c| + 1
    ensures Words(line, p, g, word) == word(c, word(b, g))
  {
    WordStep(line, p + |b| + 1, c, word(b, g), word);
    WordStep(line, p, b, g, word);
  }

  // ----- The template read back -----

  lemma LineText(uri: string, etag: string, host: string)
    requires NulFree(uri) && NulFree(etag) && NulFree(host)
    requires Without(uri, '\n') && Without(etag, '\n') && Without(host, '\n')
    ensures NulFree(RequestLineOf(uri)) && Without(RequestLineOf(uri), '\n') && |RequestLineOf(uri)| == |uri| + 14
    ensures NulFree(ETagLineOf(etag)) && Without(ETagLineOf(etag), '\n') && |ETagLineOf(etag)| == |etag| + 16
    ensures NulFree(HostLineOf(host)) && Without(HostLineOf(host), '\n') && |HostLineOf(host)| == |host| + 7
  {
  }

  lemma TemplateLines(uri: string, etag: string, host: string)
    requires NulFree(uri) && NulFree(etag) && NulFree(host)
    requires Without(uri, '\n') && Without(etag, '\n') && Without(host, '\n')
    ensures var t := Template(uri, etag, host);
            var p2 := |uri| + 15; var p3 := p2 + |etag| + 17; var p4 := p3 + |host| + 8;
            && LineAt(t, 0, RequestLineOf(uri)) && LineAt(t, p2, ETagLineOf(etag))
            && LineAt(t, p3, HostLineOf(host)) && LineAt(t, p4, "\r") && |t| == p4 + 2 && NulFree(t)
  {
    LineText(uri, etag, host);
    FourLines(RequestLineOf(uri), ETagLineOf(etag), HostLineOf(host), "\r", Template(uri, etag, host));
  }

  lemma KnownWords(f: Fields)
    requires f.reqType == 0
    ensures Word("GET", f) == f && Word("HTTP/1.1\r", f) == f
  {
  }

  lemma TemplateWords(uri: string)
    requires NulFree(uri) && Without(uri, ' ') && !Keyword(uri)
    ensures Words(RequestLineOf(uri), 0, NO_FIELDS, Word) == NO_FIELDS.(uri := Some(uri))
  {
    var g := NO_FIELDS.(uri := Some(uri));
    KnownWords(NO_FIELDS);
    KnownWords(g);
    WordsAt("GET", uri, "HTTP/1.1\r");
    assert RequestLineOf(uri) == "GET" + " " + uri + " " + "HTTP/1.1\r";
    ThreeWords(RequestLineOf(uri), "GET", uri, "HTTP/1.1\r", NO_FIELDS, Word);
  }

  /** A header line whose name ends at `c`. */
  ghost predicate HeaderAt(t: string, p: nat, line: string, c: nat) {
    LineAt(t, p, line) && c < |line| && line[0] != '\r' && line[c] == ':' && forall i | 0 <= i < c :: line[i] != ':'
  }

  lemma HeaderSplits(t: string, p: nat, line: string, c: nat)
    requires HeaderAt(t, p, line, c)
    ensures var e := p + |line|;
            && Find(t, p, '\n') == e && Within(t, p, e, ':') == p + c && t[p..p + c] == line[..c] && t[p] == line[0]
  {
    LineEnds(t, p, line);
    assert t[p + c] == line[c];
    forall i | p <= i < p + c ensures t[i] != ':' {
      assert t[i] == line[i - p];
    }
  }

  lemma SectionStep(t: string, p: nat, line: string, c: nat)
    requires HeaderAt(t, p, line, c)
    ensures Find(t, p, '\n') == p + |line| && !EndsHeaders(t, p, p + |line|, false) && HasColon(t, p, p + |line|, false)
    ensures !SameIgnoringCase(line[..c], HOST) ==> HostFrom(t, p, None) == HostFrom(t, p + |line| + 1, None)
  {
    HeaderSplits(t, p, line, c);
  }

  lemma LastTwoLines(t: string, q: nat, r: nat, end: nat, stop: Test, good: Test)
    requires q < r <= end < |t|
    requires Find(t, q, '\n') == r - 1 && !stop(t, q, r - 1, false) && good(t, q, r - 1, false)
    requires Find(t, r, '\n') == end && stop(t, r, end, false)
    ensures SectionEnd(t, q, false, stop, good) == Some(end)
  {
  }

  /** A section of four lines that the last one ends. */
  lemma FourLineSection(t: string, p: nat, q: nat, r: nat, end: nat, stop: Test, good: Test, v: Option<nat>)
    requires 0 < p < q < r <= end < |t| && v == SectionEnd(t, 0, true, stop, good)
    requires Find(t, 0, '\n') == p - 1 && !stop(t, 0, p - 1, true) && good(t, 0, p - 1, true)
    requires Find(t, p, '\n') == q - 1 && !stop(t, p, q - 1, false) && good(t, p, q - 1, false)
    requires Find(t, q, '\n') == r - 1 && !stop(t, q, r - 1, false) && good(t, q, r - 1, false)
    requires Find(t, r, '\n') == end && stop(t, r, end, false)
    ensures v == Some(end)
  {
    LastTwoLines(t, q, r, end, stop, good);
    SectionPass(t, p, q - 1, false, stop, good);
    SectionPass(t, 0, p - 1, true, stop, good);
  }

  lemma SectionStop(t: string, p: nat, h: Option<string>)
    requires LineAt(t, p, "\r")
    ensures Find(t, p, '\n') == p + 1 && EndsHeaders(t, p, p + 1, false) && HostFrom(t, p, h) == Some(h)
  {
    LineEnds(t, p, "\r");
    assert t[p] == '\r';
  }

  /** A request line and two header lines, closed by a '\r' line. */
  ghost predicate Shape(t: string, first: string, second: string, c: nat, third: string, d: nat) {
    var p := |first| + 1;
    var q := p + |second| + 1;
    var r := q + |third| + 1;
    LineAt(t, 0, first) && HeaderAt(t, p, second, c) && HeaderAt(t, q, third, d) && LineAt(t, r, "\r") && |t| == r + 2
  }

  lemma TemplateShape(uri: string, etag: string, host: string)
    requires NulFree(uri) && NulFree(etag) && NulFree(host)
    requires Without(uri, '\n') && Without(etag, '\n') && Without(host, '\n')
    ensures var t := Template(uri, etag, host);
            NulFree(t) && Shape(t, RequestLineOf(uri), ETagLineOf(etag), 13, HostLineOf(host), 4)
  {
    TemplateLines(uri, etag, host);
    assert forall i | 0 <= i < 13 :: ETagLineOf(etag)[i] == "If-None-Match"[i];
    assert forall i | 0 <= i < 4 :: HostLineOf(host)[i] == "Host"[i];
  }

  /** Its header section ends at the last '\r', just before the final newline. */
  lemma ShapeHeaders(t: string, first: string, second: string, c: nat, third: string, d: nat)
    requires Shape(t, first, second, c, third, d)
    ensures HeadersOf(t) == Some(|t| - 1)
  {
    var p := |first| + 1;
    var q := p + |second| + 1;
    assert Find(t, 0, '\n') == |first| by { LineEnds(t, 0, first); }
    ColonLines(t, p, second, c, third, d);
    SectionStop(t, q + |third| + 1, None);
    FourLineSection(t, p, q, q + |third| + 1, |t| - 1, EndsHeaders, HasColon, HeadersOf(t));
  }

  lemma ColonLines(t: string, p: nat, second: string, c: nat, third: string, d: nat)
    requires HeaderAt(t, p, second, c) && HeaderAt(t, p + |second| + 1, third, d)
    ensures var e := p + |second|; Find(t, p, '\n') == e && !EndsHeaders(t, p, e, false) && HasColon(t, p, e, false)
    ensures var q := p + |second| + 1; var e := q + |third|;
            Find(t, q, '\n') == e && !EndsHeaders(t, q, e, false) && HasColon(t, q, e, false)
  {
    SectionStep(t, p, second, c);
    SectionStep(t, p + |second| + 1, third, d);
  }

  /** The Host line yields the host. */
  lemma HostValue(t: string, p: nat, host: string)
    requires HeaderAt(t, p, HostLineOf(host), 4) && Without(host, ':')
    ensures HostText(t, p + 5, p + |host| + 7) == host + "\r"
  {
    var line := HostLineOf(host);
    var e := p + |line|;
    forall i | p + 5 <= i < e ensures t[i] != ':' {
      assert t[i] == line[i - p];
    }
    assert Within(t, p + 5, e, ':') == e;
    LineEnds(t, p, line);
    assert t[p..e][6..] == t[p + 6..e];
    assert line[6..] == host + "\r";
  }

  lemma HostRead(t: string, p: nat, c: nat, e: nat, h: Option<string>)
    requires p < c < e < |t| && Find(t, p, '\n') == e && Within(t, p, e, ':') == c && t[p] != '\r'
    requires t[p..c] == HOST && HostText(t, c + 1, e) != ""
    ensures HostFrom(t, p, h) == HostFrom(t, e + 1, Some(Strip(HostText(t, c + 1, e))))
  {
  }

  lemma HostName(host: string)
    ensures HostLineOf(host)[..4] == HOST && Strip(host + "\r") == host
  {
  }

  lemma HostStep(t: string, p: nat, host: string)
    requires HeaderAt(t, p, HostLineOf(host), 4) && Without(host, ':') && LineAt(t, p + |host| + 8, "\r")
    ensures HostFrom(t, p, None) == Some(Some(host))
  {
    HeaderSplits(t, p, HostLineOf(host), 4);
    HostName(host);
    HostValue(t, p, host);
    SectionStop(t, p + |host| + 8, Some(host));
    HostRead(t, p, p + 4, p + |host| + 7, None);
  }

  lemma ShapeHost(t: string, p: nat, second: string, c: nat, host: string)
    requires HeaderAt(t, p, second, c) && c != 4 && Without(host, ':')
    requires HeaderAt(t, p + |second| + 1, HostLineOf(host), 4) && LineAt(t, p + |second| + |host| + 9, "\r")
    ensures HostFrom(t, p, None) == Some(Some(host))
  {
    assert |second[..c]| == c && |HOST| == 4;
    HostStep(t, p + |second| + 1, host);
    SectionStep(t, p, second, c);
  }

  lemma ShapeParses(t: string, first: string, second: string, c: nat, host: string, room: nat)
    requires NulFree(t) && 4 < |t| < room && Shape(t, first, second, c, HostLineOf(host), 4) && c != 4
             && Without(host, ':')
    ensures Parse(t, room) == (Parsed(Words(first, 0, NO_FIELDS, Word).(reqLine := first, host := Some(host))), t)
  {
    ShapeHeaders(t, first, second, c, HostLineOf(host), 4);
    LineEnds(t, 0, first);
    assert t[0..|first|] == t[..|first|];
    ShapeHost(t, |first| + 1, second, c, host);
    ClosedRequest(t, room);
  }

  /** Parsing the text of the template gives a GET for exactly that URI at exactly that host,
      and gives the text itself back. */
  lemma TemplateParsesBack(uri: string, etag: string, host: string, room: nat)
    requires NulFree(uri) && NulFree(etag) && NulFree(host)
    requires Without(uri, '\n') && Without(etag, '\n') && Without(host, '\n')
    requires Without(uri, ' ') && Without(host, ':') && !Keyword(uri)
    requires |Template(uri, etag, host)| < room
    ensures var t := Template(uri, etag, host);
            Parse(t, room) == (Parsed(Fields(0, false, Some(host), Some(uri), RequestLineOf(uri))), t)
  {
    TemplateShape(uri, etag, host);
    TemplateWords(uri);
    ShapeParses(Template(uri, etag, host), RequestLineOf(uri), ETagLineOf(etag), 13, host, room);
  }
}
