/** `parseCacheHeaders` (threadPool.c): the storage decision and freshness data that a
    Cache-Control header value yields. */
module CacheControl {
  import opened CStrings

  /** What the cache keeps about an entry; `expiry` is an instant in seconds. */
  datatype CacheInfo = CacheInfo(needsRevalidation: bool, expiry: Option<int>, eTag: Option<string>)

  const NO_INFO := CacheInfo(false, None, None)

  datatype Verdict =
    | Fault                        // reads behind the end of the copied value, or no date for an age
    | Forbidden
    | Allowed(info: CacheInfo)

  datatype Kind = Forbids | Revalidates | MaxAge(age: int) | Other

  const NO_STORE := "no-store"
  const PRIVATE := "private"
  const MUST_REVALIDATE := "must-revalidate"
  const PROXY_REVALIDATE := "proxy-revalidate"
  const NO_CACHE := "no-cache"
  const MAX_AGE := "max-age="

  function Classify(d: string): Kind {
    if SameIgnoringCase(d, NO_STORE) || d == PRIVATE then Forbids
    else if StartsIgnoringCase(d, MUST_REVALIDATE) || d == PROXY_REVALIDATE || d == NO_CACHE then Revalidates
    else if StartsIgnoringCase(d, MAX_AGE) then MaxAge(StrToL(d[|MAX_AGE|..]))
    else Other
  }

  /** The seconds that gmtime can break down: those whose year, counted from 1900, is an int. For
      any other the C code copies from a NULL pointer. */
  predicate Datable(second: int) {
    -67768040609740800 <= second <= 67768036191676799
  }

  /** An age whose end has no date. */
  predicate Undatable(k: Kind, now: int) {
    k.MaxAge? && !Datable(now + k.age)
  }

  /** What one directive makes of the data gathered so far. */
  function Apply(k: Kind, info: CacheInfo, now: int): Verdict {
    match k
    case Forbids => Forbidden
    case Revalidates => Allowed(info.(needsRevalidation := true))
    case MaxAge(age) => if Datable(now + age) then Allowed(info.(expiry := Some(now + age))) else Fault
    case Other => Allowed(info)
  }

  predicate EndsCR(w: string) {
    w != "" && w[|w| - 1] == '\r'
  }

  /** One trailing '\r' removed. */
  function Chomp(w: string): string {
    if EndsCR(w) then w[..|w| - 1] else w
  }

  type Classifier = string -> Kind

  /** One token cut off: the directive found in it, whether a second '\r' ends that, the text
      as it is then, and where the next token starts. */
  datatype Taken = Taken(directive: string, again: bool, left: string, next: Ptr)

  type Cutter = (string, nat) -> Taken

  /** The loop over the tokens of `s` from `p` on, in a copy of `room` characters. */
  ghost function Decide(s: string, p: nat, info: CacheInfo, now: int, room: nat, kind: Classifier, cut: Cutter): Verdict
    decreases room - p
  {
    if p + 1 >= room then Fault
    else
      var k := cut(s, p);
      match Apply(kind(k.directive), info, now)
      case Fault => Fault
      case Forbidden => Forbidden
      case Allowed(i) =>
        if k.again || k.next.Null? then Allowed(i)
        else if k.next.i <= p then Fault
        else Decide(k.left, k.next.i, i, now, room, kind, cut)
  }

  /** The character that the parser skips in the token [p..q): the hole itself if it is empty. */
  ghost function Skipped(s: string, p: nat, q: nat): char
    requires p <= q <= |s|
  {
    if p < q then s[p] else NUL
  }

  /** What the parser takes for the directive: behind the hole of an empty token, all the rest. */
  ghost function Rest(s: string, p: nat, q: nat): string
    requires p <= q <= |s|
  {
    if p < q then s[p + 1..q] else if q < |s| then s[q + 1..] else ""
  }

  /** The rest behind an empty token loses the '\r' at its end. */
  ghost function Shortened(s: string, p: nat, q: nat): string
    requires p <= q <= |s|
  {
    if p == q < |s| then s[..p + 1] + Chomp(s[p + 1..]) else s
  }

  /** A token without its first character. */
  function Directive(w: string): string {
    if w == "" then "" else w[1..]
  }

  /** A token reaches to the next comma. Its first character is skipped unseen, and one '\r'
      is cut off at its end. */
  ghost function Comma(s: string, p: nat): Taken {
    if p > |s| then Taken("", true, s, Null)
    else
      var q := Within(s, p, |s|, ',');
      var w := Chomp([Skipped(s, p, q)] + Rest(s, p, q));
      Taken(Directive(w), EndsCR(w), Shortened(s, p, q), if q < |s| then At(q + 1) else Null)
  }

  // ----- The parser on the copied value -----

  /** `a` holds the text `s` from `p` on. */
  ghost predicate HoldsFrom(a: string, p: nat, s: string) {
    && NulFree(s) && p <= |s| < |a|
    && (forall i | p <= i < |s| :: a[i] == s[i]) && (forall i | |s| <= i < |a| :: a[i] == NUL)
  }

  /** Overwrites a '\r' that ends the string `d` at `p` (or stands just before an empty one);
      gives the directive that is left and whether another '\r' ends it. */
  method Trim(a: array<char>, p: nat, ghost before: char, ghost d: string) returns (r: string, again: bool)
    requires 0 < p && p + |d| < a.Length && a[p + |d|] == NUL && NulFree(d) && a[p - 1] == before
    requires forall i | p <= i < p + |d| :: a[i] == d[i - p]
    modifies a
    ensures var w := Chomp([before] + d); r == Directive(w) && again == EndsCR(w)
    ensures a[..] == if EndsCR([before] + d) then old(a[..])[p + |d| - 1 := NUL] else old(a[..])
  {
    ghost var w := [before] + d;
    assert a[p + |d|] == NUL && forall i | p <= i < p + |d| :: a[i] != NUL;
    var n := StrLen(a, p);
    assert n == |d|;
    assert w[|d|] == a[p + n - 1];
    ghost var cut := EndsCR(w);
    if a[p + n - 1] == '\r' {
      a[p + n - 1] := NUL;
    }
    ghost var k := if cut && n > 0 then n - 1 else n;
    assert a[p + k] == NUL;
    var m := StrLen(a, p);
    assert m == k;
    r := a[p..p + m];
    again := a[p + m - 1] == '\r';
    assert r == d[..k];
  }

  lemma TokenLeaves(b: string, s: string, p: nat, q: nat, c: string)
    requires HoldsFrom(b, p, s) && p <= q == Within(s, p, |s|, ',') < |s|
    requires var rest := Rest(s, p, q);
             c == if EndsCR([Skipped(s, p, q)] + rest) then b[q := NUL][p + |rest| := NUL] else b[q := NUL]
    ensures HoldsFrom(c, q + 1, Shortened(s, p, q))
  {
    var rest := Rest(s, p, q);
    var u := Shortened(s, p, q);
    if p == q {
      assert |[NUL] + rest| - 1 == |rest|;
      assert EndsCR([NUL] + rest) <==> EndsCR(rest);
      assert forall i | p < i < |u| :: u[i] == s[i];
    }
  }

  lemma TokenRead(b: string, s: string, p: nat, q: nat)
    requires HoldsFrom(b, p, s) && q == Within(s, p, |s|, ',') && p + 1 < |b|
    ensures var rest := Rest(s, p, q);
            var c := b[q := NUL];
            && p + 1 + |rest| < |b| && c[p + 1 + |rest|] == NUL && NulFree(rest) && c[p] == Skipped(s, p, q)
            && forall i | p + 1 <= i < p + 1 + |rest| :: c[i] == rest[i - (p + 1)]
  {
  }

  /** One pass: cuts off the token at `p` and trims it. */
  method Token(a: array<char>, p: nat, ghost s: string) returns (next: Ptr, d: string, again: bool)
    requires HoldsFrom(a[..], p, s) && p + 1 < a.Length
    modifies a
    ensures Comma(s, p) == Taken(d, again, Comma(s, p).left, next)
    ensures next.At? ==> p < next.i && HoldsFrom(a[..], next.i, Comma(s, p).left)
  {
    ghost var q := Within(s, p, |s|, ',');
    ghost var b := a[..];
    FindWithin(b, s, p, |s|, ',');
    next := StrSep(a, p, ',');
    assert a[..] == b[q := NUL];
    TokenRead(b, s, p, q);
    ghost var rest := Rest(s, p, q);
    d, again := Trim(a, p + 1, Skipped(s, p, q), rest);
    if q < |s| { TokenLeaves(b, s, p, q, a[..]); }
  }

  /** One directive: either the verdict, or the place and data to go on with. */
  method OneDirective(a: array<char>, p: nat, info: CacheInfo, now: int, kind: Classifier, ghost s: string,
                      ghost cut: Cutter, ghost all: Verdict)
    returns (verdict: Option<Verdict>, next: nat, i: CacheInfo)
    requires HoldsFrom(a[..], p, s) && p + 1 < a.Length && Decide(s, p, info, now, a.Length, kind, cut) == all
             && cut(s, p) == Comma(s, p)
    modifies a
    ensures verdict.Some? ==> verdict.value == all
    ensures verdict == None ==>
              && p < next && HoldsFrom(a[..], next, Comma(s, p).left)
              && Decide(Comma(s, p).left, next, i, now, a.Length, kind, cut) == all
  {
    var ptr, d, again := Token(a, p, s);
    var r := Apply(kind(d), info, now);
    verdict, next, i := Some(r), 0, info;
    if r.Allowed? {
      i := r.info;
      if !again && ptr.At? {
        verdict, next := None, ptr.i;
      }
    }
  }

  method ParseDirectives(a: array<char>, now: int, kind: Classifier, ghost t: string) returns (v: Verdict)
    requires HoldsFrom(a[..], 0, t)
    modifies a
    ensures v == Decide(t, 0, NO_INFO, now, a.Length, kind, Comma)
  {
    var info, p, verdict := NO_INFO, 0, None;
    ghost var s := t;
    while verdict == None
      invariant verdict == None ==>
                  HoldsFrom(a[..], p, s) && Decide(s, p, info, now, a.Length, kind, Comma)
                    == Decide(t, 0, NO_INFO, now, a.Length, kind, Comma)
      invariant verdict.Some? ==> verdict.value == Decide(t, 0, NO_INFO, now, a.Length, kind, Comma)
      decreases if verdict.Some? then 0 else 1 + a.Length - p
    {
      if p + 1 < a.Length {
        ghost var left := Comma(s, p).left;
        verdict, p, info := OneDirective(a, p, info, now, kind, s, Comma,
                                         Decide(t, 0, NO_INFO, now, a.Length, kind, Comma));
        s := left;
      } else {
        verdict := Some(Fault);
      }
    }
    v := verdict.value;
  }

  /** The parser, on a copy that holds the value `t` of a Cache-Control header. */
  method ParseCacheHeaders(a: array<char>, now: int, ghost t: string) returns (v: Verdict)
    requires NulFree(t) && a.Length == |t| + 1 && a[..] == Pad(t, |t| + 1)
    modifies a
    ensures v == Decide(t, 0, NO_INFO, now, |t| + 1, Classify, Comma)
  {
    HoldsAt(a[..], t);
    v := ParseDirectives(a, now, Classify, t);
  }
}
