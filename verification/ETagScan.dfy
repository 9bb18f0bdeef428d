/** The second way this program reads an ETag: `getRevalidation` (threadPool.c) searches the
    whole response for it instead of going through the header lines. */
module ETagScan {
  import opened CStrings
  import opened LineLoop
  import opened ResponseParser
  import opened ResponseTheorems

  const NEEDLE := "\r\neTag: "

  predicate MatchAt(t: string, i: nat) {
    i + |NEEDLE| <= |t| && SameIgnoringCase(t[i..i + |NEEDLE|], NEEDLE)
  }

  /** strcasestr: the first match from `i` on. */
  function FirstFrom(t: string, i: nat): (r: Option<nat>)
    ensures match r
            case Some(k) => i <= k && MatchAt(t, k) && forall j | i <= j < k :: !MatchAt(t, j)
            case None => forall j | i <= j :: !MatchAt(t, j)
    decreases |t| - i
  {
    if i + |NEEDLE| > |t| then None
    else if MatchAt(t, i) then Some(i)
    else FirstFrom(t, i + 1)
  }

  /** The text behind the needle at `found`, up to a '\r'. */
  ghost function TagAt(t: string, found: nat): Option<string>
    requires found + |NEEDLE| <= |t|
  {
    var v := found + |NEEDLE|;
    var q := Within(t, v, |t|, '\r');
    if q < |t| then Some(t[v..q]) else None
  }

  ghost function Scanned(t: string): Option<string> {
    var found := FirstFrom(t, 0);
    if found == None then None else TagAt(t, found.value)
  }

  /** Without a '\r' behind the needle one is appended. */
  ghost function LeftBy(t: string): string {
    if FirstFrom(t, 0).Some? && Scanned(t) == None then t + "\r" else t
  }

  /** strsep on '\r' at `v`, a copy of the token, and the '\r' put back or appended. */
  method CutTag(a: array<char>, v: nat, ghost t: string) returns (tag: Option<string>)
    requires Holds(a[..], t) && v <= |t| && |t| + 1 < a.Length
    modifies a
    ensures var q := Within(t, v, |t|, '\r');
            if q < |t| then tag == Some(t[v..q]) && Holds(a[..], t) else tag == None && Holds(a[..], t + "\r")
  {
    HoldsAt(a[..], t);
    ghost var b := a[..];
    ghost var q := Within(t, v, |t|, '\r');
    FindWithin(b, t, v, |t|, '\r');
    var next := StrSep(a, v, '\r');
    assert a[..] == b[q := NUL] && a[q] == NUL;
    var m := StrLen(a, v);
    assert v + m == q;
    tag := if next.At? then Some(a[v..v + m]) else None;
    assert next.At? ==> a[v..q] == t[v..q];
    var z := PutAtEnd(a, v, '\r');
    assert z == q && a[..] == b[q := '\r'];
    if next.Null? {
      HoldsAppend(b, t, '\r');
    } else {
      assert a[..] == b;
    }
  }

  method Scan(a: array<char>, ghost t: string) returns (tag: Option<string>)
    requires Holds(a[..], t) && |t| + 1 < a.Length
    modifies a
    ensures tag == Scanned(t) && Holds(a[..], LeftBy(t))
  {
    HoldsAt(a[..], t);
    assert a[|t|] == NUL;
    var n := StrLen(a, 0);
    assert a[..n] == t;
    var found := FirstFrom(a[..n], 0);
    tag := None;
    if found.Some? {
      tag := CutTag(a, found.value + |NEEDLE|, t);
    }
  }

  // ----- Both scanners -----

  /** The header line at `q` is named ETag. */
  predicate NamedETag(t: string, q: nat) {
    q + 6 <= |t| && Lower(t[q]) == 'e' && Lower(t[q + 1]) == 't' && Lower(t[q + 2]) == 'a' && Lower(t[q + 3]) == 'g'
      && t[q + 4] == ':'
  }

  lemma MatchMeans(t: string, i: nat)
    ensures MatchAt(t, i) <==> NamedETag(t, i + 2) && t[i] == '\r' && t[i + 1] == '\n' && t[i + 7] == ' '
  {
    if i + 8 <= |t| {
      var m := t[i..i + 8];
      assert m[0] == t[i] && m[1] == t[i + 1] && m[2] == t[i + 2] && m[3] == t[i + 3];
      assert m[4] == t[i + 4] && m[5] == t[i + 5] && m[6] == t[i + 6] && m[7] == t[i + 7];
      var n := NEEDLE;
      assert n[0] == '\r' && n[1] == '\n' && n[2] == 'e' && n[3] == 'T' && n[4] == 'a' && n[5] == 'g'
             && n[6] == ':' && n[7] == ' ';
    }
  }

  lemma NameIsETag(t: string, q: nat)
    requires NulFree(t) && NamedETag(t, q)
    ensures NameEnd(t, q) == q + 4 && KindAt(t, q) == ETagHeader
  {
    assert forall i | q <= i <= q + 4 :: t[i] != '\n';
    assert Find(t, q, '\n') > q + 4;
    assert NameEnd(t, q) == q + 4;
    var name := t[q..q + 4];
    assert name[0] == t[q] && name[1] == t[q + 1] && name[2] == t[q + 2] && name[3] == t[q + 3];
    assert name[..4] == name;
    var n := ETAG;
    assert n[0] == 'E' && n[1] == 'T' && n[2] == 'a' && n[3] == 'g';
  }

  /** The header line at `p` is an ETag with the value `x`. */
  ghost predicate TagLine(t: string, p: nat, x: string) {
    && NamedETag(t, p) && t[p + 5] == ' ' && '\r' !in x && p + |x| + 7 < |t| && t[p + |x| + 7] == '\n'
    && t[p + 6..p + 6 + |x|] == x && t[p + 6 + |x|] == '\r' && Find(t, p, '\n') == p + |x| + 7
  }

  lemma TagValue(t: string, p: nat, x: string)
    requires NulFree(t) && TagLine(t, p, x)
    ensures KindAt(t, p) == ETagHeader && Inner(ValueAt(t, p)) == x
  {
    NameIsETag(t, p);
    var value := ValueAt(t, p);
    assert value == t[p + 5..p + |x| + 7];
    assert |value| == |x| + 2;
    SliceOfSlice(t, p + 5, p + |x| + 7, 1, |x| + 1);
  }

  lemma SliceOfSlice(t: string, a: nat, b: nat, i: nat, j: nat)
    requires a <= b <= |t| && i <= j <= b - a
    ensures t[a..b][i..j] == t[a + i..a + j]
  {
    var u := t[a..b];
    assert forall k | i <= k < j :: u[k] == t[a + k];
    assert u[i..j] == t[a + i..a + j];
  }

  lemma EarlierLine(t: string, q: nat, p: nat, end: nat)
    requires LineOf(t, p, end) && 0 < q < p && t[q - 1] == '\n'
    ensures LineOf(t, q, end)
  {
    assert t[p - 1] == '\n' && Find(t, q, '\n') <= p - 1;
  }

  lemma NoEarlierMatch(t: string, end: nat, p: nat, j: nat)
    requires NulFree(t) && LineOf(t, p, end) && j + 2 < p
    requires forall q: nat | LineOf(t, q, end) && KindAt(t, q) == ETagHeader :: q == p
    ensures !MatchAt(t, j)
  {
    MatchMeans(t, j);
    if NamedETag(t, j + 2) && t[j + 1] == '\n' {
      NameIsETag(t, j + 2);
      EarlierLine(t, j + 2, p, end);
    }
  }

  lemma FirstMatch(t: string, end: nat, p: nat)
    requires NulFree(t) && LineOf(t, p, end) && p >= 2 && MatchAt(t, p - 2)
    requires forall q: nat | LineOf(t, q, end) && KindAt(t, q) == ETagHeader :: q == p
    ensures FirstFrom(t, 0) == Some(p - 2)
  {
    var r := FirstFrom(t, 0);
    if r.Some? && r.value + 2 < p {
      NoEarlierMatch(t, end, p, r.value);
    }
  }

  lemma UpToCR(t: string, v: nat, x: string)
    requires '\r' !in x && v + |x| < |t| && t[v..v + |x|] == x && t[v + |x|] == '\r'
    ensures Within(t, v, |t|, '\r') == v + |x|
  {
    forall i | v <= i < v + |x| ensures t[i] != '\r' {
      assert t[i] == t[v..v + |x|][i - v];
    }
  }

  lemma TagIs(t: string, i: nat, x: string)
    requires i + |NEEDLE| + |x| < |t| && Within(t, i + |NEEDLE|, |t|, '\r') == i + |NEEDLE| + |x|
    requires t[i + |NEEDLE|..i + |NEEDLE| + |x|] == x
    ensures TagAt(t, i) == Some(x)
  {
  }

  /** The first match is the ETag line, if no earlier line is one. */
  lemma ScanFinds(t: string, end: nat, p: nat, x: string)
    requires NulFree(t) && LineOf(t, p, end) && TagLine(t, p, x) && p >= 2 && t[p - 2] == '\r'
    requires forall q: nat | LineOf(t, q, end) && KindAt(t, q) == ETagHeader :: q == p
    ensures Scanned(t) == Some(x)
  {
    assert |NEEDLE| == 8;
    assert MatchAt(t, p - 2) by { MatchMeans(t, p - 2); }
    FirstMatch(t, end, p);
    UpToCR(t, p + 6, x);
    TagIs(t, p - 2, x);
  }

  /** If one header line only is named ETag..., behind a line that ends in "\r\n" and every
      Cache-Control line, then both scanners read its value. */
  lemma ScannersAgree(t: string, end: nat, now: int, r: Reply, p: nat, x: string)
    requires NulFree(t) && HeadersOf(t) == Some(end) && Gather(t, 0, true, Start(now), ResponseRule) == Some(r)
    requires LineOf(t, p, end) && TagLine(t, p, x) && p >= 2 && t[p - 2] == '\r'
    requires forall q: nat | LineOf(t, q, end) && KindAt(t, q) == ETagHeader :: q == p
    requires forall q: nat | LineOf(t, q, end) && KindAt(t, q) == CacheControlHeader :: q < p
    ensures r.eTag == Some(x) && Scanned(t) == Some(x)
  {
    ScanFinds(t, end, p, x);
    TagValue(t, p, x);
    ReportedFields(t, end, now, r);
    TagDecides(t, end, now, r, p);
  }

  lemma TagDecides(t: string, end: nat, now: int, r: Reply, p: nat)
    requires ReadFrom(t, end, now, r) && LineOf(t, p, end) && KindAt(t, p) == ETagHeader
    requires forall q: nat | LineOf(t, q, end) && KindAt(t, q) == ETagHeader :: q == p
    requires forall q: nat | LineOf(t, q, end) && KindAt(t, q) == CacheControlHeader :: q < p
    ensures r.eTag == Some(Inner(ValueAt(t, p)))
  {
    assert LastOf(t, end, IsOneOf(t, {CacheControlHeader, ETagHeader}), p);
  }
}
