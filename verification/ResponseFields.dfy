/** The header lines that `parseResponse` reads (threadPool.c), by their texts: which line sets
    which field, and to what. */
module ResponseFields {
  import opened CStrings
  import opened LineLoop
  import opened ResponseParser
  import opened ResponseTheorems
  import opened Freshness
  import opened Directives

  /** The line at `p` has this name, in any case, with a colon behind it. */
  predicate Named(t: string, p: nat, name: string) {
    p + |name| < |t| && SameIgnoringCase(t[p..p + |name|], name) && t[p + |name|] == ':'
  }

  /** Nothing in a name is the end of one. */
  predicate IsName(name: string) {
    forall i | 0 <= i < |name| :: Lower(name[i]) !in ":\n\0"
  }

  lemma LowerKeeps(c: char, d: char)
    requires Lower(c) == Lower(d) && Lower(d) !in ":\n\0"
    ensures c !in ":\n\0"
  {
  }

  lemma NameRead(t: string, p: nat, name: string)
    requires NulFree(t) && Named(t, p, name) && IsName(name)
    ensures NameEnd(t, p) == p + |name| < Find(t, p, '\n')
  {
    forall i | p <= i < p + |name| ensures t[i] !in ":\n\0" {
      assert t[p..p + |name|][i - p] == t[i];
      LowerKeeps(t[i], name[i - p]);
    }
    assert t[p + |name|] == ':' && forall i | p <= i <= p + |name| :: t[i] != '\n';
  }

  /** Headers of the kind `h` are those with this name, in any case. */
  ghost predicate NamesKind(name: string, h: Header) {
    IsName(name) && forall s :: HeaderOf(s) == h <==> SameIgnoringCase(s, name)
  }

  lemma NamesOfKinds()
    ensures NamesKind("Content-Length", ContentLength)
    ensures NamesKind("Cache-Control", CacheControlHeader)
    ensures NamesKind("Transfer-Encoding", TransferEncoding)
    ensures forall s :: HeaderOf(s) == ETagHeader <==> StartsIgnoringCase(s, "ETag")
  {
    forall s
      ensures HeaderOf(s) == ContentLength <==> SameIgnoringCase(s, "Content-Length")
      ensures HeaderOf(s) == CacheControlHeader <==> SameIgnoringCase(s, "Cache-Control")
      ensures HeaderOf(s) == TransferEncoding <==> SameIgnoringCase(s, "Transfer-Encoding")
      ensures HeaderOf(s) == ETagHeader <==> StartsIgnoringCase(s, "ETag")
    {
      NamesApart(s);
    }
  }

  lemma NamesApart(s: string)
    ensures HeaderOf(s) == ContentLength <==> SameIgnoringCase(s, "Content-Length")
    ensures HeaderOf(s) == CacheControlHeader <==> SameIgnoringCase(s, "Cache-Control")
    ensures HeaderOf(s) == TransferEncoding <==> SameIgnoringCase(s, "Transfer-Encoding")
    ensures HeaderOf(s) == ETagHeader <==> StartsIgnoringCase(s, "ETag")
  {
    var a, b, c, d := "Content-Length", "Cache-Control", "Transfer-Encoding", "ETag";
    assert |a| == 14 && |b| == 13 && |c| == 17 && |d| == 4;
    if StartsIgnoringCase(s, d) {
      assert s[..4][0] == s[0];
      assert Lower(s[0]) == 'e' && Lower(a[0]) == 'c' && Lower(b[0]) == 'c' && Lower(c[0]) == 't';
    }
  }

  // ----- The lines of a section -----

  lemma LineIsGood(t: string, end: nat, p: nat)
    requires NulFree(t) && HeadersOf(t) == Some(end) && LineOf(t, p, end)
    ensures NameEnd(t, p) < Find(t, p, '\n')
  {
    SectionIsGood(t, end, p, Ends, GoodLine);
  }

  /** A line of a closed section has a kind exactly if it has the kind's name. */
  lemma KindByName(t: string, end: nat, p: nat, name: string, h: Header)
    requires NulFree(t) && HeadersOf(t) == Some(end) && LineOf(t, p, end) && NamesKind(name, h)
    ensures KindAt(t, p) == h <==> Named(t, p, name)
  {
    LineIsGood(t, end, p);
    assert t[NameEnd(t, p)] == ':';
    if Named(t, p, name) {
      NameRead(t, p, name);
    }
  }

  ghost function NamedAs(t: string, name: string): nat -> bool {
    (p: nat) => Named(t, p, name)
  }

  /** The lines that say how long the body is. */
  ghost function Framing(t: string): nat -> bool {
    (p: nat) => Named(t, p, "Content-Length") || Named(t, p, "Transfer-Encoding")
  }

  /** Two tests that agree on the lines of a section find the same last line. */
  lemma SameLast(t: string, end: nat, a: nat -> bool, b: nat -> bool)
    requires forall p: nat | LineOf(t, p, end) :: a(p) == b(p)
    ensures forall p: nat :: LastOf(t, end, a, p) <==> LastOf(t, end, b, p)
    ensures NoneFrom(t, 1, end, a) <==> NoneFrom(t, 1, end, b)
  {
  }

  lemma KindIsNamed(t: string, end: nat, name: string, h: Header)
    requires NulFree(t) && HeadersOf(t) == Some(end) && NamesKind(name, h)
    ensures forall p: nat | LineOf(t, p, end) :: IsOneOf(t, {h})(p) == NamedAs(t, name)(p)
  {
    forall p: nat | LineOf(t, p, end) ensures IsOneOf(t, {h})(p) == NamedAs(t, name)(p) {
      KindByName(t, end, p, name, h);
    }
  }

  /** The text behind the colon of a line named `name`. */
  ghost function ValueOf(t: string, p: nat, name: string): string {
    if p <= |t| && p + |name| < Find(t, p, '\n') then t[p + |name| + 1..Find(t, p, '\n')] else ""
  }

  // ----- The fields by the lines' names -----

  /** The transfer mode is that of the last line named Content-Length or Transfer-Encoding. */
  lemma ModeByName(t: string, end: nat, now: int, r: Reply)
    requires NulFree(t) && HeadersOf(t) == Some(end) && Gather(t, 0, true, Start(now), ResponseRule) == Some(r)
    ensures forall p: nat | LastOf(t, end, Framing(t), p) :: r.chunked == Some(Named(t, p, "Transfer-Encoding"))
    ensures NoneFrom(t, 1, end, Framing(t)) ==> r.chunked == None
  {
    FramingIsNamed(t, end);
    SameLast(t, end, IsOneOf(t, {ContentLength, TransferEncoding}), Framing(t));
    ReportedFields(t, end, now, r);
  }

  lemma FramingIsNamed(t: string, end: nat)
    requires NulFree(t) && HeadersOf(t) == Some(end)
    ensures forall p: nat | LineOf(t, p, end) :: IsOneOf(t, {ContentLength, TransferEncoding})(p) == Framing(t)(p)
    ensures forall p: nat | LineOf(t, p, end) :: KindAt(t, p) == TransferEncoding <==> Named(t, p, "Transfer-Encoding")
  {
    NamesOfKinds();
    forall p: nat | LineOf(t, p, end)
      ensures IsOneOf(t, {ContentLength, TransferEncoding})(p) == Framing(t)(p)
      ensures KindAt(t, p) == TransferEncoding <==> Named(t, p, "Transfer-Encoding")
    {
      KindByName(t, end, p, "Content-Length", ContentLength);
      KindByName(t, end, p, "Transfer-Encoding", TransferEncoding);
    }
  }

  /** A line is taken for an entity tag exactly if its name starts with ETag, in any case. */
  lemma TagByName(t: string, end: nat, p: nat)
    requires NulFree(t) && HeadersOf(t) == Some(end) && LineOf(t, p, end)
    ensures KindAt(t, p) == ETagHeader <==> StartsIgnoringCase(t[p..], "ETag")
  {
    NamesOfKinds();
    LineIsGood(t, end, p);
    var c, n := NameEnd(t, p), "ETag";
    assert |n| == 4 && n[0] == 'E' && n[1] == 'T' && n[2] == 'a' && n[3] == 'g';
    assert t[c] == ':';
    if StartsIgnoringCase(t[p..], n) {
      assert t[p..][..4][0] == t[p] && t[p..][..4][1] == t[p + 1] && t[p..][..4][2] == t[p + 2];
      assert t[p..][..4][3] == t[p + 3];
      assert c != p && c != p + 1 && c != p + 2 && c != p + 3;
    }
    if c >= p + 4 {
      assert t[p..c][..4] == t[p..][..4];
    }
  }

  /** The length is the number in the last line named Content-Length. */
  lemma LengthByName(t: string, end: nat, now: int, r: Reply, p: nat, n: nat)
    requires NulFree(t) && HeadersOf(t) == Some(end) && Gather(t, 0, true, Start(now), ResponseRule) == Some(r)
    requires LastOf(t, end, NamedAs(t, "Content-Length"), p)
    requires n < 0x8000_0000 && ValueOf(t, p, "Content-Length") == " " + Decimal(n) + "\r"
    ensures r.length == n
  {
    LastLength(t, end, now, r, p);
    NamesOfKinds();
    NameRead(t, p, "Content-Length");
    NumberReadBack(n, "");
    var value := ValueOf(t, p, "Content-Length");
    assert value[1..|value| - 1] == Decimal(n) == Decimal(n) + "";
  }

  lemma LastLength(t: string, end: nat, now: int, r: Reply, p: nat)
    requires NulFree(t) && HeadersOf(t) == Some(end) && Gather(t, 0, true, Start(now), ResponseRule) == Some(r)
    requires LastOf(t, end, NamedAs(t, "Content-Length"), p)
    ensures r.length == Atoi(Inner(ValueAt(t, p)))
  {
    NamesOfKinds();
    KindIsNamed(t, end, "Content-Length", ContentLength);
    SameLast(t, end, IsOneOf(t, {ContentLength}), NamedAs(t, "Content-Length"));
    ReportedFields(t, end, now, r);
  }

  lemma LastControl(t: string, end: nat, now: int, r: Reply)
    requires NulFree(t) && HeadersOf(t) == Some(end) && Gather(t, 0, true, Start(now), ResponseRule) == Some(r)
    ensures forall p: nat | LastOf(t, end, NamedAs(t, "Cache-Control"), p) :: r.control == VerdictAt(t, now)(p)
    ensures NoneFrom(t, 1, end, NamedAs(t, "Cache-Control")) ==> r.control == None
  {
    NamesOfKinds();
    KindIsNamed(t, end, "Cache-Control", CacheControlHeader);
    SameLast(t, end, IsOneOf(t, {CacheControlHeader}), NamedAs(t, "Cache-Control"));
    ReportedFields(t, end, now, r);
  }

  /** The storage verdict is that of the directives in the last line named Cache-Control. */
  lemma VerdictByName(t: string, end: nat, now: int, r: Reply, p: nat, ds: seq<string>)
    requires NulFree(t) && HeadersOf(t) == Some(end) && Gather(t, 0, true, Start(now), ResponseRule) == Some(r)
    requires LastOf(t, end, NamedAs(t, "Cache-Control"), p)
    requires Lists(ValueOf(t, p, "Cache-Control"), ds)
    ensures r.control.Some? && AmountsTo(r.control.value, ds, now)
  {
    LastControl(t, end, now, r);
    NamesOfKinds();
    NameRead(t, p, "Cache-Control");
    VerdictByText(ValueAt(t, p), ds, now);
  }

  /** Without such a line there is none, and nothing is stored. */
  lemma NoVerdict(t: string, end: nat, now: int, r: Reply)
    requires NulFree(t) && HeadersOf(t) == Some(end) && Gather(t, 0, true, Start(now), ResponseRule) == Some(r)
    requires forall p: nat | LineOf(t, p, end) :: !Named(t, p, "Cache-Control")
    ensures r.control == None && !MayStore(r)
  {
    LastControl(t, end, now, r);
  }

  /** A response is stored exactly if none of these directives forbids it. */
  lemma StorableByText(t: string, end: nat, now: int, r: Reply, p: nat, ds: seq<string>)
    requires NulFree(t) && HeadersOf(t) == Some(end) && Gather(t, 0, true, Start(now), ResponseRule) == Some(r)
    requires LastOf(t, end, NamedAs(t, "Cache-Control"), p)
    requires Lists(ValueOf(t, p, "Cache-Control"), ds) && !BreaksCalendar(ds, now, ForbidsStoring, GivesAge, AgeOf)
    ensures MayStore(r) <==> !Any(ds, ForbidsStoring)
  {
    VerdictByName(t, end, now, r, p, ds);
  }
}
